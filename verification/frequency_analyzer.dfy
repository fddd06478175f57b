/** The letter-frequency table of the frequency analyzer (`components/frequency-analyzer.tsx`):
    the letters a–z of the lower-cased text are counted in order of first occurrence, and
    the counts are sorted by non-increasing count with a stable sort. */
module FrequencyAnalyzer {
  import opened JsText
  import opened StableSort

  // ---------------------------------------------------------------- counting

  /** `text.replace(/[^a-zA-Z]/g, "").length`. */
  function LetterCount(s: string): (n: nat)
    ensures n <= |s|
    ensures n == 0 <==> forall i :: 0 <= i < |s| ==> !IsAsciiLetter(s[i])
  {
    if |s| == 0 then 0
    else LetterCount(s[..|s| - 1]) + (if IsAsciiLetter(s[|s| - 1]) then 1 else 0)
  }

  /** The number of characters of `s` that `/[a-z]/` accepts. */
  function LowerCount(s: string): (n: nat)
    ensures n == 0 <==> forall i :: 0 <= i < |s| ==> !IsAsciiLower(s[i])
  {
    if |s| == 0 then 0
    else LowerCount(s[..|s| - 1]) + (if IsAsciiLower(s[|s| - 1]) then 1 else 0)
  }

  /** The number of occurrences of `c` in `s`. */
  function Occ(s: string, c: char): nat
  {
    if |s| == 0 then 0
    else Occ(s[..|s| - 1], c) + (if s[|s| - 1] == c then 1 else 0)
  }

  /** A table of counts keyed by letter, in insertion order, like the `counts` object. */
  type Table = seq<(char, nat)>

  function Keys(t: Table): (ks: seq<char>)
    ensures |ks| == |t| && forall i :: 0 <= i < |t| ==> ks[i] == t[i].0
  {
    seq(|t|, i requires 0 <= i < |t| => t[i].0)
  }

  predicate Distinct(ks: seq<char>)
  {
    forall i, j :: 0 <= i < j < |ks| ==> ks[i] != ks[j]
  }

  function Total(t: Table): nat
  {
    if |t| == 0 then 0 else t[0].1 + Total(t[1..])
  }

  /** The position of `c` in a sequence that holds it. */
  function IndexOf(ks: seq<char>, c: char): (i: nat)
    requires c in ks
    ensures i < |ks| && ks[i] == c
  {
    if ks[0] == c then 0 else 1 + IndexOf(ks[1..], c)
  }

  lemma {:induction false} TotalUpdate(t: Table, i: nat, x: (char, nat))
    requires i < |t|
    ensures Total(t[i := x]) + t[i].1 == Total(t) + x.1
    decreases i
  {
    if i > 0 {
      TotalUpdate(t[1..], i - 1, x);
      assert t[i := x][1..] == t[1..][i - 1 := x];
    }
  }

  lemma {:induction false} TotalAppend(t: Table, x: (char, nat))
    ensures Total(t + [x]) == Total(t) + x.1
    decreases |t|
  {
    if |t| > 0 {
      TotalAppend(t[1..], x);
      assert (t + [x])[1..] == t[1..] + [x];
    }
  }

  /** `counts[char] = (counts[char] || 0) + 1`: an existing key is incremented in place, a
      new key is added at the end with count 1. */
  function Bump(t: Table, c: char): (r: Table)
    requires Distinct(Keys(t))
    ensures Keys(r) == if c in Keys(t) then Keys(t) else Keys(t) + [c]
    ensures Distinct(Keys(r))
    ensures forall i :: 0 <= i < |t| ==> r[i].1 == t[i].1 + (if t[i].0 == c then 1 else 0)
    ensures c !in Keys(t) ==> r[|t|] == (c, 1)
    ensures Total(r) == Total(t) + 1
  {
    if c in Keys(t) then
      var i := IndexOf(Keys(t), c);
      var r := t[i := (c, t[i].1 + 1)];
      TotalUpdate(t, i, (c, t[i].1 + 1));
      assert Keys(r) == Keys(t);
      r
    else
      TotalAppend(t, (c, 1));
      assert Keys(t + [(c, 1)]) == Keys(t) + [c];
      t + [(c, 1)]
  }

  /** The counting loop over the (already lower-cased) text. */
  function Tally(s: string): (t: Table)
    ensures Distinct(Keys(t))
    ensures Total(t) == LowerCount(s)
  {
    if |s| == 0 then []
    else
      var t := Tally(s[..|s| - 1]);
      if IsAsciiLower(s[|s| - 1]) then Bump(t, s[|s| - 1]) else t
  }

  /** What the table holds: distinct letters a–z, each with its number of occurrences, and
      exactly the letters that occur. */
  lemma {:induction false} TallyFacts(s: string)
    ensures Distinct(Keys(Tally(s)))
    ensures forall i :: 0 <= i < |Tally(s)| ==> IsAsciiLower(Tally(s)[i].0)
    ensures forall i :: 0 <= i < |Tally(s)| ==> Tally(s)[i].1 == Occ(s, Tally(s)[i].0) > 0
    ensures forall c :: IsAsciiLower(c) ==> (c in Keys(Tally(s)) <==> Occ(s, c) > 0)
    decreases |s|
  {
    if |s| > 0 {
      var p, x := s[..|s| - 1], s[|s| - 1];
      TallyFacts(p);
      var t := Tally(p);
      if IsAsciiLower(x) {
        var r := Bump(t, x);
        forall i | 0 <= i < |r|
          ensures r[i].1 == Occ(s, r[i].0) > 0
        {
          if i < |t| {
            assert r[i].0 == t[i].0 by {
              assert Keys(r)[i] == Keys(t)[i];
            }
          } else {
            assert x !in Keys(t);
          }
        }
      }
    }
  }

  /** Letters are added in order of first occurrence: the table of a prefix of the text
      lists the first letters of the whole table, in the same order. */
  lemma {:induction false} TallyKeysPrefix(s: string, n: nat)
    requires n <= |s|
    ensures |Tally(s[..n])| <= |Tally(s)|
    ensures Keys(Tally(s[..n])) == Keys(Tally(s))[..|Tally(s[..n])|]
    decreases |s| - n
  {
    if n < |s| {
      TallyKeysPrefix(s, n + 1);
      var p := s[..n + 1];
      assert p[..|p| - 1] == s[..n];
      var k := Keys(Tally(s[..n]));
      assert Keys(Tally(p))[..|k|] == k;
    } else {
      assert s[..n] == s;
    }
  }

  // ---------------------------------------------------------------- the result

  /** A row of the table. The percentage shown is `count / total * 100`, a floating-point
      number; the row keeps `total` so the fraction is exact. */
  datatype Frequency = Frequency(letter: char, count: nat, total: nat)

  function Count(f: Frequency): int
  {
    f.count
  }

  /** The rows before sorting, in insertion order. */
  function Rows(t: Table, total: nat): (r: seq<Frequency>)
    ensures |r| == |t|
    ensures forall i :: 0 <= i < |t| ==> r[i] == Frequency(t[i].0, t[i].1, total)
  {
    seq(|t|, i requires 0 <= i < |t| => Frequency(t[i].0, t[i].1, total))
  }

  /** `frequencies`: nothing when the text has no ASCII letter, otherwise one row per
      letter of the lower-cased text, sorted by count. */
  function Frequencies(text: string): (r: seq<Frequency>)
    ensures |r| == 0 <==> LetterCount(text) == 0
    ensures r != [] ==> multiset(r) == multiset(Rows(Tally(Lower(text)), LetterCount(text)))
    ensures SortedDesc(r, Count)
  {
    var total := LetterCount(text);
    if total == 0 then []
    else
      var rows := Rows(Tally(Lower(text)), total);
      LowerCounts(text);
      SortOrders(rows, Count);
      SortPermutes(rows, Count);
      assert Total(Tally(Lower(text))) > 0;
      SortDesc(rows, Count)
  }

  /** Lower-casing turns exactly the ASCII letters into letters a–z. */
  lemma {:induction false} LowerCounts(s: string)
    ensures LowerCount(Lower(s)) == LetterCount(s)
    decreases |s|
  {
    if |s| > 0 {
      LowerCounts(s[..|s| - 1]);
      assert Lower(s)[..|s| - 1] == Lower(s[..|s| - 1]);
    }
  }

  /** A letter's count in the lower-cased text is its count in either case. */
  lemma {:induction false} OccLower(s: string, c: char)
    requires IsAsciiLower(c)
    ensures Occ(Lower(s), c) == Occ(s, c) + Occ(s, UpperChar(c))
    decreases |s|
  {
    if |s| > 0 {
      OccLower(s[..|s| - 1], c);
      assert Lower(s)[..|s| - 1] == Lower(s[..|s| - 1]);
    }
  }

  /** Each row is a letter a–z with its count in either case and the letter total. */
  lemma FrequencyRowCounts(text: string, i: nat)
    requires i < |Frequencies(text)|
    ensures var f := Frequencies(text)[i];
            IsAsciiLower(f.letter) && f.total == LetterCount(text)
            && f.count == Occ(text, f.letter) + Occ(text, UpperChar(f.letter)) > 0
  {
    var r := Frequencies(text);
    var t := Tally(Lower(text));
    var rows := Rows(t, LetterCount(text));
    TallyFacts(Lower(text));
    assert r[i] in multiset(rows) by {
      assert r[i] in multiset(r);
    }
    var k :| 0 <= k < |rows| && rows[k] == r[i];
    OccLower(text, t[k].0);
  }

  /** No letter has two rows. */
  lemma FrequencyRowsDistinct(text: string, i: nat, j: nat)
    requires i < j < |Frequencies(text)|
    ensures Frequencies(text)[i].letter != Frequencies(text)[j].letter
  {
    var t := Tally(Lower(text));
    var rows := Rows(t, LetterCount(text));
    TallyFacts(Lower(text));
    assert forall a, b :: 0 <= a < b < |rows| ==> rows[a].letter != rows[b].letter by {
      assert forall a :: 0 <= a < |rows| ==> rows[a].letter == Keys(t)[a];
    }
    RowsDistinct(Frequencies(text), rows, i, j);
  }

  /** Every letter of the text, in either case, has a row. */
  lemma FrequencyRowsComplete(text: string, c: char)
    requires IsAsciiLower(c) && Occ(text, c) + Occ(text, UpperChar(c)) > 0
    ensures exists i :: 0 <= i < |Frequencies(text)| && Frequencies(text)[i].letter == c
  {
    var r := Frequencies(text);
    var t := Tally(Lower(text));
    var rows := Rows(t, LetterCount(text));
    TallyFacts(Lower(text));
    OccLower(text, c);
    var k := IndexOf(Keys(t), c);
    LetterPresent(text, c);
    assert rows[k] in multiset(r);
  }

  /** A letter a–z of the lower-cased text means the text has an ASCII letter. */
  lemma LetterPresent(text: string, c: char)
    requires IsAsciiLower(c) && Occ(Lower(text), c) > 0
    ensures LetterCount(text) > 0
  {
    LowerCounts(text);
    if LowerCount(Lower(text)) == 0 {
      LowerFree(Lower(text), c);
    }
  }

  /** Without letters a–z no letter a–z occurs. */
  lemma {:induction false} LowerFree(s: string, c: char)
    requires LowerCount(s) == 0 && IsAsciiLower(c)
    ensures Occ(s, c) == 0
    decreases |s|
  {
    if |s| > 0 {
      LowerFree(s[..|s| - 1], c);
    }
  }

  /** Two positions of a permutation of rows with distinct letters hold distinct letters. */
  lemma RowsDistinct(r: seq<Frequency>, rows: seq<Frequency>, i: nat, j: nat)
    requires multiset(r) == multiset(rows) && i < j < |r|
    requires forall a, b :: 0 <= a < b < |rows| ==> rows[a].letter != rows[b].letter
    ensures r[i].letter != r[j].letter
  {
    assert r[i] in multiset(r) && r[j] in multiset(r);
    var a :| 0 <= a < |rows| && rows[a] == r[i];
    var b :| 0 <= b < |rows| && rows[b] == r[j];
    if a == b {
      RowOnce(rows, a);
      TwoCopies(r, i, j);
    }
  }

  lemma TwoCopies<T>(r: seq<T>, i: nat, j: nat)
    requires i < j < |r| && r[i] == r[j]
    ensures multiset(r)[r[i]] >= 2
  {
    assert r == r[..i] + [r[i]] + r[i + 1..j] + [r[j]] + r[j + 1..];
  }

  lemma {:induction false} RowOnce(rows: seq<Frequency>, a: nat)
    requires a < |rows|
    requires forall x, y :: 0 <= x < y < |rows| ==> rows[x].letter != rows[y].letter
    ensures multiset(rows)[rows[a]] == 1
    decreases |rows|
  {
    if a == |rows| - 1 {
      assert rows == rows[..a] + [rows[a]];
      assert rows[a] !in multiset(rows[..a]);
    } else {
      RowOnce(rows[..|rows| - 1], a);
      assert rows == rows[..|rows| - 1] + [rows[|rows| - 1]];
    }
  }

  /** The sum of the counts of some rows. */
  function CountSum(r: seq<Frequency>): nat
  {
    if |r| == 0 then 0 else r[0].count + CountSum(r[1..])
  }

  /** The counts add up to the number of letters. */
  lemma FrequencySum(text: string)
    ensures CountSum(Frequencies(text)) == LetterCount(text)
  {
    var r := Frequencies(text);
    if LetterCount(text) > 0 {
      var t := Tally(Lower(text));
      var rows := Rows(t, LetterCount(text));
      LowerCounts(text);
      CountSumRows(t, LetterCount(text));
      CountSumPermutes(r, rows);
    }
  }

  lemma {:induction false} CountSumRows(t: Table, total: nat)
    ensures CountSum(Rows(t, total)) == Total(t)
    decreases |t|
  {
    if |t| > 0 {
      CountSumRows(t[1..], total);
      assert Rows(t, total)[1..] == Rows(t[1..], total);
    }
  }

  lemma {:induction false} CountSumPermutes(r: seq<Frequency>, rows: seq<Frequency>)
    requires multiset(r) == multiset(rows)
    ensures CountSum(r) == CountSum(rows)
    decreases |r|
  {
    if |r| > 0 {
      assert r[0] in multiset(rows) by {
        assert r[0] in multiset(r);
      }
      var a :| 0 <= a < |rows| && rows[a] == r[0];
      RemoveOne(r, rows, a);
      CountSumPermutes(r[1..], rows[..a] + rows[a + 1..]);
      CountSumRemove(rows, a);
    }
  }

  /** Taking the same element out of two permutations leaves permutations. */
  lemma RemoveOne<T>(r: seq<T>, rows: seq<T>, a: nat)
    requires multiset(r) == multiset(rows) && |r| > 0 && a < |rows| && rows[a] == r[0]
    ensures multiset(r[1..]) == multiset(rows[..a] + rows[a + 1..])
  {
    assert r == [r[0]] + r[1..];
    assert multiset(r) == multiset(r[1..]) + multiset{r[0]};
    assert rows == rows[..a] + [rows[a]] + rows[a + 1..];
    assert multiset(rows) == multiset(rows[..a]) + multiset{r[0]} + multiset(rows[a + 1..]);
    MultisetCancel(multiset(r[1..]), multiset(rows[..a]), multiset(rows[a + 1..]), r[0]);
  }

  lemma MultisetCancel<T>(m: multiset<T>, a: multiset<T>, b: multiset<T>, x: T)
    requires m + multiset{x} == a + multiset{x} + b
    ensures m == a + b
  {
    forall y
      ensures m[y] == (a + b)[y]
    {
      assert (m + multiset{x})[y] == (a + multiset{x} + b)[y];
    }
  }

  /** Removing one row lowers the sum by its count. */
  lemma {:induction false} CountSumRemove(r: seq<Frequency>, a: nat)
    requires a < |r|
    ensures CountSum(r) == r[a].count + CountSum(r[..a] + r[a + 1..])
    decreases a
  {
    if a > 0 {
      CountSumRemove(r[1..], a - 1);
      assert r[1..][..a - 1] + r[1..][a..] == (r[..a] + r[a + 1..])[1..];
    } else {
      assert r[..a] + r[a + 1..] == r[1..];
    }
  }

  /** Rows with equal counts keep their first-occurrence order. */
  lemma FrequencyTies(text: string, k: int)
    requires LetterCount(text) > 0
    ensures WithKey(Frequencies(text), Count, k) == WithKey(Rows(Tally(Lower(text)), LetterCount(text)), Count, k)
  {
    SortStable(Rows(Tally(Lower(text)), LetterCount(text)), Count, k);
  }
}
