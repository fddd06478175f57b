/** The payload generator (`components/payload-generator.tsx`): fixed lists of sample
    payloads per category, narrowed by a case-insensitive substring filter. */
module PayloadGenerator {
  import opened JsText

  datatype Category = Sqli | Xss | Lfi | Ssti

  /** The `payloads` object. */
  function Payloads(c: Category): (ps: seq<string>)
    ensures |ps| == match c case Sqli => 5 case Xss => 5 case Lfi => 4 case Ssti => 4
  {
    match c
    case Sqli => [
      "' OR 1=1 --",
      "' UNION SELECT 1,2,3 --",
      "admin' --",
      "' OR '1'='1",
      "1; DROP TABLE users"]
    case Xss => [
      "<script>alert(1)</script>",
      "<img src=x onerror=alert(1)>",
      "javascript:alert(1)",
      "\"><script>alert(1)</script>",
      "<svg/onload=alert(1)>"]
    case Lfi => [
      "../../../../etc/passwd",
      "....//....//....//etc/passwd",
      "php://filter/convert.base64-encode/resource=index.php",
      "/etc/passwd%00"]
    case Ssti => [
      "{{7*7}}",
      "${7*7}",
      "<%= 7*7 %>",
      "{{config.items()}}"]
  }

  /** `p.toLowerCase().includes(filter.toLowerCase())`. */
  predicate Matches(p: string, filter: string)
  {
    Contains(Lower(p), Lower(filter))
  }

  /** `Array.prototype.filter` with the `Matches` test. */
  function Filter(ps: seq<string>, filter: string): (r: seq<string>)
    ensures |r| <= |ps|
    ensures forall i :: 0 <= i < |r| ==> r[i] in ps && Matches(r[i], filter)
  {
    if |ps| == 0 then []
    else (if Matches(ps[0], filter) then [ps[0]] else []) + Filter(ps[1..], filter)
  }

  /** `filteredPayloads`. */
  function FilteredPayloads(c: Category, filter: string): seq<string>
  {
    Filter(Payloads(c), filter)
  }

  /** `r` is obtained from `s` by deleting elements, keeping the order of the rest. */
  predicate SubsequenceOf<T(==)>(r: seq<T>, s: seq<T>)
    decreases |s|
  {
    |r| == 0 || (|s| > 0 && (if r[0] == s[0] then SubsequenceOf(r[1..], s[1..]) else SubsequenceOf(r, s[1..])))
  }

  /** The filter keeps exactly the matching payloads, in order: the result is a
      subsequence of the list, and a payload of the list is kept iff it matches. */
  lemma {:induction false} FilterExact(ps: seq<string>, filter: string)
    ensures SubsequenceOf(Filter(ps, filter), ps)
    ensures forall p :: p in ps ==> (p in Filter(ps, filter) <==> Matches(p, filter))
    decreases |ps|
  {
    if |ps| > 0 {
      FilterExact(ps[1..], filter);
      var rest := Filter(ps[1..], filter);
      if Matches(ps[0], filter) {
        assert ([ps[0]] + rest)[1..] == rest;
      } else {
        assert [] + rest == rest;
        SubsequenceSkip(rest, ps);
      }
      assert forall p :: p in ps ==> p == ps[0] || p in ps[1..];
    }
  }

  lemma SubsequenceSkip<T>(r: seq<T>, s: seq<T>)
    requires |s| > 0 && SubsequenceOf(r, s[1..])
    ensures SubsequenceOf(r, s)
    decreases |s|, |r|
  {
    if |r| > 0 && r[0] == s[0] {
      SubsequenceTail(r, s[1..]);
    }
  }

  /** Dropping the head of a subsequence keeps it a subsequence. */
  lemma {:induction false} SubsequenceTail<T>(r: seq<T>, s: seq<T>)
    requires |r| > 0 && SubsequenceOf(r, s)
    ensures SubsequenceOf(r[1..], s)
    decreases |s|, |r|
  {
    if r[0] == s[0] {
      if |r| > 1 {
        SubsequenceTail(r[1..], s[1..]);
        SubsequenceSkip(r[1..], s);
      } else {
        assert |r[1..]| == 0;
      }
    } else {
      SubsequenceTail(r, s[1..]);
      SubsequenceSkip(r[1..], s);
    }
  }

  /** An empty filter keeps every payload. */
  lemma {:induction false} EmptyFilter(ps: seq<string>)
    ensures Filter(ps, "") == ps
    decreases |ps|
  {
    if |ps| > 0 {
      EmptyFilter(ps[1..]);
      ContainsEmpty(Lower(ps[0]));
      assert Lower("") == [];
      assert [ps[0]] + ps[1..] == ps;
    }
  }

  /** A longer filter narrows the result: when f occurs in g, every payload matching g
      also matches f. */
  lemma {:induction false} FilterNarrows(ps: seq<string>, f: string, g: string)
    requires Contains(g, f)
    ensures forall p :: p in Filter(ps, g) ==> p in Filter(ps, f)
    decreases |ps|
  {
    if |ps| > 0 {
      FilterNarrows(ps[1..], f, g);
      LowerContains(g, f);
      if Matches(ps[0], g) {
        ContainsTransitive(Lower(ps[0]), Lower(g), Lower(f));
      }
    }
  }

  /** Lower-casing keeps containment. */
  lemma LowerContains(g: string, f: string)
    requires Contains(g, f)
    ensures Contains(Lower(g), Lower(f))
  {
    var k := ContainsWitness(g, f);
    assert Lower(g)[k..k + |f|] == Lower(f);
    ContainsAt(Lower(g), Lower(f), k);
  }

  /** The filter ignores the letter case of its ASCII letters. */
  lemma {:induction false} FilterCaseBlind(ps: seq<string>, f: string, g: string)
    requires Lower(f) == Lower(g)
    ensures Filter(ps, f) == Filter(ps, g)
    decreases |ps|
  {
    if |ps| > 0 {
      FilterCaseBlind(ps[1..], f, g);
    }
  }

  /** Upper- and lower-case spellings of the same filter agree. */
  lemma UpperLowerFilter(ps: seq<string>, f: string)
    ensures Filter(ps, Upper(f)) == Filter(ps, f)
  {
    assert Lower(Upper(f)) == Lower(f);
    FilterCaseBlind(ps, Upper(f), f);
  }
}
