/** The slice of JavaScript string semantics the tools rely on: UTF-16 code units,
    ASCII case mapping, `trim`, `split`/`join`, `includes`/`startsWith`,
    `Number.prototype.toString(radix)`, `parseInt` and `String.fromCharCode`.
    A JavaScript string is modelled as a Dafny `string` (a sequence of code points);
    where the source works on UTF-16 code units the model converts with `Utf16`. */
module JsText {
  import opened Results
  import opened Digits

  type CodeUnit = x: int | 0 <= x < 0x1_0000

  /** The UTF-16 code units of one code point. */
  function CharUnits(c: char): (us: seq<CodeUnit>)
    ensures 1 <= |us| <= 2
    ensures (c as int < 0x1_0000) == (|us| == 1)
    ensures c as int < 0x1_0000 ==> us[0] == c as int
  {
    if c as int < 0x1_0000 then [c as int]
    else
      var v := c as int - 0x1_0000;
      [0xD800 + v / 0x400, 0xDC00 + v % 0x400]
  }

  /** The UTF-16 code units of a string, as JavaScript stores it. */
  function Utf16(s: string): (us: seq<CodeUnit>)
    ensures |us| >= |s|
  {
    if |s| == 0 then [] else CharUnits(s[0]) + Utf16(s[1..])
  }

  predicate IsBmp(s: string)
  {
    forall i :: 0 <= i < |s| ==> s[i] as int < 0x1_0000
  }

  /** A string of Basic Multilingual Plane characters is its own code-unit sequence. */
  lemma {:induction false} Utf16Bmp(s: string)
    requires IsBmp(s)
    ensures |Utf16(s)| == |s|
    ensures forall i :: 0 <= i < |s| ==> Utf16(s)[i] == s[i] as int
  {
    if |s| > 0 {
      assert IsBmp(s[1..]) by {
        forall i | 0 <= i < |s[1..]| ensures s[1..][i] as int < 0x1_0000 {
          assert s[1..][i] == s[i + 1];
        }
      }
      Utf16Bmp(s[1..]);
    }
  }

  /** LineTerminator of ECMA-262 section 12.3: what the regular-expression `.` refuses. */
  predicate IsLineTerminator(u: int)
  {
    u == 0x0A || u == 0x0D || u == 0x2028 || u == 0x2029
  }

  /** StrWhiteSpaceChar of ECMA-262 section 7.1.4.1: WhiteSpace (tab, vertical tab, form
      feed, the byte-order mark and the Unicode Space_Separator characters) or a line
      terminator; what `trim` and `parseInt` skip. */
  predicate IsWhiteSpace(u: int)
  {
    || u == 0x09 || u == 0x0B || u == 0x0C || u == 0xFEFF
    || u == 0x20 || u == 0xA0 || u == 0x1680 || (0x2000 <= u <= 0x200A)
    || u == 0x202F || u == 0x205F || u == 0x3000
    || IsLineTerminator(u)
  }

  /** `s.trim()`. */
  function Trim(s: string): (t: string)
    ensures |t| <= |s|
    ensures |t| > 0 ==> !IsWhiteSpace(t[0] as int) && !IsWhiteSpace(t[|t| - 1] as int)
  {
    if |s| > 0 && IsWhiteSpace(s[0] as int) then Trim(s[1..])
    else if |s| > 0 && IsWhiteSpace(s[|s| - 1] as int) then Trim(s[..|s| - 1])
    else s
  }

  predicate IsAsciiDigit(c: char)
  {
    '0' <= c <= '9'
  }

  predicate IsAsciiUpper(c: char)
  {
    'A' <= c <= 'Z'
  }

  predicate IsAsciiLower(c: char)
  {
    'a' <= c <= 'z'
  }

  /** What the character class `[a-zA-Z]` accepts. */
  predicate IsAsciiLetter(c: char)
  {
    IsAsciiUpper(c) || IsAsciiLower(c)
  }

  /** `toLowerCase` restricted to ASCII letters. */
  function LowerChar(c: char): (d: char)
    ensures IsAsciiUpper(c) ==> d as int == c as int + 32
    ensures !IsAsciiUpper(c) ==> d == c
  {
    if IsAsciiUpper(c) then (c as int + 32) as char else c
  }

  /** `toUpperCase` restricted to ASCII letters. */
  function UpperChar(c: char): (d: char)
    ensures IsAsciiLower(c) ==> d as int == c as int - 32
    ensures !IsAsciiLower(c) ==> d == c
  {
    if IsAsciiLower(c) then (c as int - 32) as char else c
  }

  function Lower(s: string): (t: string)
    ensures |t| == |s| && forall i :: 0 <= i < |s| ==> t[i] == LowerChar(s[i])
  {
    seq(|s|, i requires 0 <= i < |s| => LowerChar(s[i]))
  }

  function Upper(s: string): (t: string)
    ensures |t| == |s| && forall i :: 0 <= i < |s| ==> t[i] == UpperChar(s[i])
  {
    seq(|s|, i requires 0 <= i < |s| => UpperChar(s[i]))
  }

  /** `s.startsWith(prefix)`. */
  predicate StartsWith<T(==)>(s: seq<T>, prefix: seq<T>)
  {
    |prefix| <= |s| && s[..|prefix|] == prefix
  }

  /** `hay.includes(needle)`: some window of `hay` equals `needle`. */
  predicate Contains<T(==)>(hay: seq<T>, needle: seq<T>)
  {
    exists k :: 0 <= k <= |hay| && WindowAt(hay, needle, k)
  }

  /** `needle` occurs in `hay` at offset `k`. */
  predicate WindowAt<T(==)>(hay: seq<T>, needle: seq<T>, k: nat)
  {
    k + |needle| <= |hay| && hay[k..k + |needle|] == needle
  }

  lemma ContainsWitness<T>(hay: seq<T>, needle: seq<T>) returns (k: nat)
    requires Contains(hay, needle)
    ensures k + |needle| <= |hay| && hay[k..k + |needle|] == needle
  {
    k :| 0 <= k <= |hay| && WindowAt(hay, needle, k);
  }

  lemma ContainsAt<T>(hay: seq<T>, needle: seq<T>, k: nat)
    requires k + |needle| <= |hay| && hay[k..k + |needle|] == needle
    ensures Contains(hay, needle)
  {
    assert WindowAt(hay, needle, k);
  }

  /** A text lacking one of the needle's elements does not contain the needle. */
  lemma Absent<T>(hay: seq<T>, needle: seq<T>, j: nat)
    requires j < |needle| && needle[j] !in hay
    ensures !Contains(hay, needle)
  {
    if Contains(hay, needle) {
      var k := ContainsWitness(hay, needle);
    }
  }

  /** Containment is transitive: a piece of a piece is a piece. */
  lemma ContainsTransitive<T>(a: seq<T>, b: seq<T>, c: seq<T>)
    requires Contains(a, b) && Contains(b, c)
    ensures Contains(a, c)
  {
    var i := ContainsWitness(a, b);
    var j := ContainsWitness(b, c);
    forall t | 0 <= t < |c|
      ensures a[i + j + t] == c[t]
    {
      assert a[i..i + |b|][j + t] == b[j + t];
      assert b[j..j + |c|][t] == c[t];
    }
    assert a[i + j..i + j + |c|] == c;
    ContainsAt(a, c, i + j);
  }

  lemma ContainsEmpty<T>(hay: seq<T>)
    ensures Contains(hay, [])
  {
    ContainsAt(hay, [], 0);
  }

  /** Property lookup in an object literal: the value of the first entry whose key is `key`. */
  function Lookup<K(==), V>(table: seq<(K, V)>, key: K): (r: Option<V>)
    ensures r.None? <==> forall i :: 0 <= i < |table| ==> table[i].0 != key
    ensures r.Some? ==> exists i :: 0 <= i < |table| && table[i] == (key, r.value)
                          && forall j :: 0 <= j < i ==> table[j].0 != key
  {
    if |table| == 0 then None
    else if table[0].0 == key then Some(table[0].1)
    else
      var r := Lookup(table[1..], key);
      assert forall i :: 1 <= i < |table| ==> table[i] == table[1..][i - 1];
      r
  }

  /** The value of the first entry of an ordered table whose key begins `s`. */
  function PrefixLookup<T(==), V>(table: seq<(seq<T>, V)>, s: seq<T>): (r: Option<V>)
    ensures r.None? <==> forall i :: 0 <= i < |table| ==> !StartsWith(s, table[i].0)
    ensures r.Some? ==> exists i :: 0 <= i < |table| && table[i].1 == r.value && StartsWith(s, table[i].0)
                          && forall j :: 0 <= j < i ==> !StartsWith(s, table[j].0)
  {
    if |table| == 0 then None
    else if StartsWith(s, table[0].0) then Some(table[0].1)
    else
      var r := PrefixLookup(table[1..], s);
      assert forall i :: 1 <= i < |table| ==> table[i] == table[1..][i - 1];
      r
  }

  /** `s.split(sep)` for a one-element separator. */
  function Split<T(==)>(s: seq<T>, sep: T): (parts: seq<seq<T>>)
    ensures |parts| >= 1
  {
    if |s| == 0 then [[]]
    else if s[0] == sep then [[]] + Split(s[1..], sep)
    else
      var rest := Split(s[1..], sep);
      [[s[0]] + rest[0]] + rest[1..]
  }

  /** The first piece of a split runs up to the first separator. */
  lemma {:induction false} SplitHead<T>(s: seq<T>, sep: T, m: nat)
    requires m <= |s| && forall j :: 0 <= j < m ==> s[j] != sep
    ensures |Split(s, sep)[0]| >= m && forall j :: 0 <= j < m ==> Split(s, sep)[0][j] == s[j]
    decreases m
  {
    if m > 0 {
      SplitHead(s[1..], sep, m - 1);
      var rest := Split(s[1..], sep);
      assert Split(s, sep)[0] == [s[0]] + rest[0];
      forall j | 0 <= j < m
        ensures Split(s, sep)[0][j] == s[j]
      {
        if j > 0 {
          assert s[1..][j - 1] == s[j];
        }
      }
    }
  }

  /** `parts.join(sep)`. */
  function Join<T>(parts: seq<seq<T>>, sep: T): seq<T>
  {
    if |parts| == 0 then []
    else if |parts| == 1 then parts[0]
    else parts[0] + [sep] + Join(parts[1..], sep)
  }

  lemma {:induction false} SplitFree<T>(p: seq<T>, sep: T)
    requires sep !in p
    ensures Split(p, sep) == [p]
    decreases |p|
  {
    if |p| > 0 {
      SplitFree(p[1..], sep);
      assert [p[0]] + p[1..] == p;
    }
  }

  lemma {:induction false} SplitCons<T>(p: seq<T>, sep: T, rest: seq<T>)
    requires sep !in p
    ensures Split(p + [sep] + rest, sep) == [p] + Split(rest, sep)
    decreases |p|
  {
    var s := p + [sep] + rest;
    if |p| == 0 {
      assert s[1..] == rest;
    } else {
      assert s[1..] == p[1..] + [sep] + rest;
      SplitCons(p[1..], sep, rest);
      assert [p[0]] + p[1..] == p;
    }
  }

  /** Splitting a join gives the parts back when no part holds the separator. */
  lemma {:induction false} SplitJoin<T>(parts: seq<seq<T>>, sep: T)
    requires |parts| >= 1
    requires forall i :: 0 <= i < |parts| ==> sep !in parts[i]
    ensures Split(Join(parts, sep), sep) == parts
    decreases |parts|
  {
    if |parts| == 1 {
      SplitFree(parts[0], sep);
    } else {
      SplitCons(parts[0], sep, Join(parts[1..], sep));
      SplitJoin(parts[1..], sep);
      assert [parts[0]] + parts[1..] == parts;
    }
  }

  /** The value of a character as a digit in radices up to 36: 0-9, then a-z or A-Z;
      36 for any other character, which is a digit in no radix. */
  function DigitValue(u: int): (d: nat)
    ensures d <= 36
  {
    if '0' as int <= u <= '9' as int then u - '0' as int
    else if 'a' as int <= u <= 'z' as int then u - 'a' as int + 10
    else if 'A' as int <= u <= 'Z' as int then u - 'A' as int + 10
    else 36
  }

  /** The digit character `toString(radix)` writes: 0-9 then lower-case letters. */
  function DigitChar(d: nat): (c: char)
    requires d < 36
    ensures DigitValue(c as int) == d
    ensures c as int < 128 && !IsWhiteSpace(c as int) && c != '+' && c != '-'
  {
    if d < 10 then ('0' as int + d) as char else ('a' as int + d - 10) as char
  }

  /** `n.toString(radix)` for a non-negative integer n: the shortest spelling. */
  function RadixString(n: nat, radix: nat): (s: string)
    requires 2 <= radix <= 36
    ensures |s| >= 1
  {
    var ds := ToDigits(n, radix);
    seq(|ds|, i requires 0 <= i < |ds| => DigitChar(ds[i]))
  }

  /** Spells a digit sequence with `toString`'s digit characters. */
  function Spell(ds: seq<nat>, radix: nat): (s: string)
    requires 2 <= radix <= 36 && IsDigits(ds, radix)
    ensures |s| == |ds|
    ensures forall i :: 0 <= i < |s| ==> DigitValue(s[i] as int) == ds[i] && s[i] as int < 128
  {
    seq(|ds|, i requires 0 <= i < |ds| => DigitChar(ds[i]))
  }

  /** The longest prefix of `s` made of digits of `radix`, as digit values. */
  function DigitPrefix(s: seq<CodeUnit>, radix: nat): (ds: seq<nat>)
    ensures |ds| <= |s| && IsDigits(ds, radix)
  {
    if |s| == 0 || DigitValue(s[0]) >= radix then []
    else [DigitValue(s[0])] + DigitPrefix(s[1..], radix)
  }

  function TrimStartUnits(s: seq<CodeUnit>): seq<CodeUnit>
  {
    if |s| > 0 && IsWhiteSpace(s[0]) then TrimStartUnits(s[1..]) else s
  }

  /** `parseInt(s, radix)` of ECMA-262 section 19.2.5, with `None` for NaN and radix 0 for
      an absent radix: skip leading white space, take one sign, drop a 0x/0X prefix when
      the radix is 16 or absent (an absent radix is then 16, otherwise 10), and read the
      longest run of digits; no digit at all gives NaN. */
  function ParseInt(s: seq<CodeUnit>, radix: nat): (r: Option<int>)
    requires radix == 0 || 2 <= radix <= 36
  {
    var t := TrimStartUnits(s);
    var negative := |t| > 0 && t[0] == '-' as int;
    var u := if |t| > 0 && (t[0] == '-' as int || t[0] == '+' as int) then t[1..] else t;
    var hexPrefix := (radix == 0 || radix == 16) && |u| >= 2 && u[0] == '0' as int
                     && (u[1] == 'x' as int || u[1] == 'X' as int);
    var r := if hexPrefix then 16 else if radix == 0 then 10 else radix;
    var ds := DigitPrefix(if hexPrefix then u[2..] else u, r);
    var magnitude: int := FromDigits(ds, r);
    if |ds| == 0 then None
    else if negative then Some(-magnitude)
    else Some(magnitude)
  }

  /** Every character of `s` is a digit of `radix`. */
  predicate AllDigits(s: string, radix: nat)
  {
    forall i :: 0 <= i < |s| ==> s[i] as int < 128 && DigitValue(s[i] as int) < radix
  }

  function DigitValues(s: string): (ds: seq<nat>)
    ensures |ds| == |s| && forall i :: 0 <= i < |s| ==> ds[i] == DigitValue(s[i] as int)
  {
    seq(|s|, i requires 0 <= i < |s| => DigitValue(s[i] as int))
  }

  lemma {:induction false} DigitPrefixAll(u: seq<CodeUnit>, s: string, radix: nat)
    requires AllDigits(s, radix) && |u| == |s|
    requires forall i :: 0 <= i < |s| ==> u[i] == s[i] as int
    ensures DigitPrefix(u, radix) == DigitValues(s)
    decreases |s|
  {
    if |s| > 0 {
      DigitPrefixAll(u[1..], s[1..], radix);
      assert DigitValues(s) == [DigitValue(s[0] as int)] + DigitValues(s[1..]);
    }
  }

  /** `parseInt` reads a non-empty string of plain digits as the number they spell. */
  lemma ParseIntDigits(s: string, radix: nat)
    requires 2 <= radix <= 36 && |s| >= 1 && AllDigits(s, radix)
    ensures ParseInt(Utf16(s), radix) == Some(FromDigits(DigitValues(s), radix))
  {
    assert IsBmp(s);
    Utf16Bmp(s);
    var u := Utf16(s);
    assert DigitValue(u[0]) < radix;
    if |s| >= 2 {
      assert DigitValue(u[1]) < radix;
    }
    ParseIntPlain(u, radix);
    DigitPrefixAll(u, s, radix);
  }

  /** `parseInt` of two digits. */
  lemma ParseIntPair(p: string, radix: nat)
    requires 2 <= radix <= 36 && |p| == 2 && AllDigits(p, radix)
    ensures ParseInt(Utf16(p), radix) == Some(radix * DigitValue(p[0] as int) + DigitValue(p[1] as int))
  {
    ParseIntDigits(p, radix);
    var ds := DigitValues(p);
    assert ds[0] == DigitValue(p[0] as int) && ds[1] == DigitValue(p[1] as int);
    FromDigitsPair(ds, radix);
  }

  /** Code units that start with a digit and no hexadecimal prefix are read by `parseInt`
      as their longest digit prefix. */
  lemma ParseIntPlain(u: seq<CodeUnit>, radix: nat)
    requires 2 <= radix <= 36 && |u| >= 1 && DigitValue(u[0]) < radix
    requires |u| >= 2 ==> DigitValue(u[1]) < radix
    ensures ParseInt(u, radix) == Some(FromDigits(DigitPrefix(u, radix), radix))
  {
    assert TrimStartUnits(u) == u;
  }

  /** `String.fromCharCode(x)`: ToUint16 of the number, NaN giving code unit 0. */
  function FromCharCode(x: Option<int>): (u: CodeUnit)
    ensures x.Some? && 0 <= x.value < 0x1_0000 ==> u == x.value
    ensures x.None? ==> u == 0
  {
    match x
    case None => 0
    case Some(v) => v % 0x1_0000
  }
}
