/** The flag matcher `/(ctf|flag|key|hackthebox|htb|pico)\{.*?\}/gi` with its `exec` loop.
    Under the `i` flag (without `u`) a character matches a keyword letter when both
    upper-case to the same character, and no non-ASCII character upper-cases to an ASCII
    one, so ASCII case folding is exact here. `.` is any character but a line
    terminator, and the lazy `.*?` stops at the first `}`. Matching over code points
    finds the same substrings as matching over UTF-16 code units, since every character
    the pattern names is in the Basic Multilingual Plane. */
module FlagPattern {
  import opened Results
  import opened JsText

  const Keywords: seq<string> := ["ctf", "flag", "key", "hackthebox", "htb", "pico"]

  /** Keyword `kw` occurs at position `i`, ignoring ASCII case. */
  predicate KeywordAt(s: string, i: nat, kw: string)
  {
    i + |kw| <= |s| && forall j :: 0 <= j < |kw| ==> UpperChar(s[i + j]) == UpperChar(kw[j])
  }

  /** The shape of one match: keyword, `{`, a body with no `}` and no line terminator, `}`. */
  predicate FlagText(t: string)
  {
    exists k :: 0 <= k < |Keywords| && FlagTextWith(t, Keywords[k])
  }

  predicate FlagTextWith(t: string, kw: string)
  {
    |t| >= |kw| + 2 && KeywordAt(t, 0, kw) && t[|kw|] == '{' && t[|t| - 1] == '}'
    && forall j :: |kw| < j < |t| - 1 ==> t[j] != '}' && !IsLineTerminator(t[j] as int)
  }

  /** The lazy body: the first `}` at or after `j`, unless a line terminator comes first. */
  function CloseFrom(s: string, j: nat): (r: Option<nat>)
    ensures r.Some? ==> j <= r.value < |s| && s[r.value] == '}'
    ensures r.Some? ==> forall t :: j <= t < r.value ==> s[t] != '}' && !IsLineTerminator(s[t] as int)
    ensures r.None? ==> forall c :: j <= c < |s| && s[c] == '}' ==>
                          exists t :: j <= t < c && IsLineTerminator(s[t] as int)
    decreases |s| - j
  {
    if j >= |s| then None
    else if s[j] == '}' then Some(j)
    else if IsLineTerminator(s[j] as int) then None
    else CloseFrom(s, j + 1)
  }

  /** The alternatives tried in order at position `i`; the end of the first that matches. */
  function TryKeywords(s: string, i: nat, kws: seq<string>): (r: Option<nat>)
    ensures r.Some? ==> i < r.value <= |s|
  {
    if |kws| == 0 then None
    else
      var kw := kws[0];
      if KeywordAt(s, i, kw) && i + |kw| < |s| && s[i + |kw|] == '{' then
        match CloseFrom(s, i + |kw| + 1)
        case Some(c) => Some(c + 1)
        case None => TryKeywords(s, i, kws[1..])
      else TryKeywords(s, i, kws[1..])
  }

  /** The end of the match starting exactly at `i`, if any. */
  function MatchAt(s: string, i: nat): (r: Option<nat>)
    ensures r.Some? ==> i < r.value <= |s|
  {
    TryKeywords(s, i, Keywords)
  }

  datatype Span = Span(start: nat, end: nat)

  /** The global `exec` loop from `lastIndex == from`: the first match at or after `from`,
      then the search resumes where that match ended. */
  function FindFrom(s: string, from: nat): (r: seq<Span>)
    ensures forall k :: 0 <= k < |r| ==> from <= r[k].start
    decreases |s| + 1 - from
  {
    if from > |s| then []
    else
      match MatchAt(s, from)
      case Some(e) => [Span(from, e)] + FindFrom(s, e)
      case None => FindFrom(s, from + 1)
  }

  /** Nothing matches from `from` up to `to`. */
  predicate NoMatchBetween(s: string, from: nat, to: nat)
  {
    forall j :: from <= j < to ==> MatchAt(s, j).None?
  }

  /** Each reported span is the match at its start. */
  lemma {:induction false} FindFromSound(s: string, from: nat)
    ensures forall k :: 0 <= k < |FindFrom(s, from)| ==>
              MatchAt(s, FindFrom(s, from)[k].start) == Some(FindFrom(s, from)[k].end)
    decreases |s| + 1 - from
  {
    if from <= |s| {
      match MatchAt(s, from)
      case Some(e) =>
        FindFromSound(s, e);
        SpansCons(Span(from, e), FindFrom(s, e));
      case None =>
        FindFromSound(s, from + 1);
    }
  }

  lemma SpansCons(x: Span, t: seq<Span>)
    ensures ([x] + t)[0] == x && forall k :: 1 <= k < |t| + 1 ==> ([x] + t)[k] == t[k - 1]
  {
  }

  /** Spans come left to right without overlap. */
  lemma {:induction false} FindFromOrdered(s: string, from: nat)
    ensures forall k :: 0 <= k < |FindFrom(s, from)| - 1 ==>
              FindFrom(s, from)[k].end <= FindFrom(s, from)[k + 1].start
    decreases |s| + 1 - from
  {
    if from <= |s| {
      match MatchAt(s, from)
      case Some(e) =>
        FindFromOrdered(s, e);
        SpansCons(Span(from, e), FindFrom(s, e));
      case None =>
        FindFromOrdered(s, from + 1);
    }
  }

  /** No match starts before the first span, nor anywhere when there is none. */
  lemma {:induction false} FindFromFirstGap(s: string, from: nat)
    ensures var r := FindFrom(s, from);
            NoMatchBetween(s, from, if |r| == 0 then |s| + 1 else r[0].start)
    decreases |s| + 1 - from
  {
    if from <= |s| && MatchAt(s, from).None? {
      FindFromFirstGap(s, from + 1);
    }
  }

  /** No match starts between two consecutive spans. */
  lemma {:induction false} FindFromInnerGaps(s: string, from: nat)
    ensures var r := FindFrom(s, from);
            forall k :: 0 <= k < |r| - 1 ==> NoMatchBetween(s, r[k].end, r[k + 1].start)
    decreases |s| + 1 - from
  {
    if from <= |s| {
      match MatchAt(s, from)
      case Some(e) =>
        FindFromInnerGaps(s, e);
        FindFromFirstGap(s, e);
        SpansCons(Span(from, e), FindFrom(s, e));
      case None =>
        assert FindFrom(s, from) == FindFrom(s, from + 1);
        FindFromInnerGaps(s, from + 1);
    }
  }

  /** No match starts after the last span. */
  lemma {:induction false} FindFromLastGap(s: string, from: nat)
    ensures var r := FindFrom(s, from);
            |r| > 0 ==> NoMatchBetween(s, r[|r| - 1].end, |s| + 1)
    decreases |s| + 1 - from
  {
    if from <= |s| {
      match MatchAt(s, from)
      case Some(e) =>
        var t := FindFrom(s, e);
        assert FindFrom(s, from) == [Span(from, e)] + t;
        if |t| == 0 {
          FindFromFirstGap(s, e);
        } else {
          FindFromLastGap(s, e);
          assert ([Span(from, e)] + t)[|t|] == t[|t| - 1];
        }
      case None =>
        assert FindFrom(s, from) == FindFrom(s, from + 1);
        FindFromLastGap(s, from + 1);
    }
  }

  /** Every match, left to right. */
  function FindAll(s: string): seq<Span>
  {
    FindFrom(s, 0)
  }

  // ---------------------------------------------------------------- matches are flags

  /** At most one keyword occurs at any position. */
  lemma KeywordsExclusive(s: string, i: nat, a: nat, b: nat)
    requires a < |Keywords| && b < |Keywords|
    requires KeywordAt(s, i, Keywords[a]) && KeywordAt(s, i, Keywords[b])
    ensures a == b
  {
    var c0 := UpperChar(s[i]);
    assert c0 == UpperChar(Keywords[a][0]) && c0 == UpperChar(Keywords[b][0]);
    var c1 := UpperChar(s[i + 1]);
    assert c1 == UpperChar(Keywords[a][1]) && c1 == UpperChar(Keywords[b][1]);
  }

  /** A keyword match at `i` seen from inside the matched text. */
  lemma KeywordShift(s: string, i: nat, e: nat, kw: string)
    requires i <= e <= |s| && i + |kw| <= e
    ensures KeywordAt(s, i, kw) <==> KeywordAt(s[i..e], 0, kw)
  {
    if KeywordAt(s, i, kw) {
      forall j | 0 <= j < |kw|
        ensures UpperChar(s[i..e][j]) == UpperChar(kw[j])
      {
        assert s[i..e][j] == s[i + j];
      }
    }
    if KeywordAt(s[i..e], 0, kw) {
      forall j | 0 <= j < |kw|
        ensures UpperChar(s[i + j]) == UpperChar(kw[j])
      {
        assert s[i..e][j] == s[i + j];
      }
    }
  }

  /** What the alternatives find is a flag built on one of them. */
  lemma {:induction false} TryKeywordsSound(s: string, i: nat, n: nat)
    requires n <= |Keywords|
    requires TryKeywords(s, i, Keywords[n..]).Some?
    ensures exists k :: n <= k < |Keywords| &&
              FlagTextWith(s[i..TryKeywords(s, i, Keywords[n..]).value], Keywords[k])
    decreases |Keywords| - n
  {
    var kws := Keywords[n..];
    var kw := kws[0];
    assert kw == Keywords[n];
    assert kws[1..] == Keywords[n + 1..];
    if KeywordAt(s, i, kw) && i + |kw| < |s| && s[i + |kw|] == '{' && CloseFrom(s, i + |kw| + 1).Some? {
      var c := CloseFrom(s, i + |kw| + 1).value;
      KeywordHit(s, i, kw, c);
      assert TryKeywords(s, i, kws) == Some(c + 1);
    } else {
      TryKeywordsSound(s, i, n + 1);
    }
  }

  /** A keyword, `{` and the lazy body up to its closing brace make a flag. */
  lemma KeywordHit(s: string, i: nat, kw: string, c: nat)
    requires KeywordAt(s, i, kw) && i + |kw| < |s| && s[i + |kw|] == '{'
    requires CloseFrom(s, i + |kw| + 1) == Some(c)
    ensures FlagTextWith(s[i..c + 1], kw)
  {
    var t := s[i..c + 1];
    KeywordShift(s, i, c + 1, kw);
    assert |t| == c + 1 - i;
    assert t[|kw|] == s[i + |kw|];
    assert t[|t| - 1] == s[c];
    BodyShift(s, t, i, c, |kw|);
  }

  lemma BodyShift(s: string, t: string, i: nat, c: nat, k: nat)
    requires i + k < c < |s| && t == s[i..c + 1]
    requires forall j :: i + k + 1 <= j < c ==> s[j] != '}' && !IsLineTerminator(s[j] as int)
    ensures forall j :: k < j < |t| - 1 ==> t[j] != '}' && !IsLineTerminator(t[j] as int)
  {
    forall j | k < j < |t| - 1
      ensures t[j] != '}' && !IsLineTerminator(t[j] as int)
    {
      assert t[j] == s[i + j];
    }
  }

  /** Soundness: every match is flag-shaped. */
  lemma MatchAtSound(s: string, i: nat)
    requires MatchAt(s, i).Some?
    ensures FlagText(s[i..MatchAt(s, i).value])
  {
    assert Keywords[0..] == Keywords;
    TryKeywordsSound(s, i, 0);
  }

  /** The body of a flag-shaped text ends at the first closing brace after its keyword. */
  lemma CloseOfFlag(s: string, i: nat, e: nat, kw: string)
    requires i <= e <= |s| && FlagTextWith(s[i..e], kw)
    ensures CloseFrom(s, i + |kw| + 1) == Some(e - 1)
  {
    var t := s[i..e];
    assert s[e - 1] == t[|t| - 1];
    forall j | i + |kw| + 1 <= j < e - 1
      ensures s[j] != '}' && !IsLineTerminator(s[j] as int)
    {
      assert s[j] == t[j - i];
    }
    assert CloseFrom(s, i + |kw| + 1).Some?;
  }

  /** Completeness on the alternatives: a flag built on keyword `k` is found once the
      alternatives tried so far include `k`. */
  lemma {:induction false} TryKeywordsComplete(s: string, i: nat, e: nat, n: nat, k: nat)
    requires n <= k < |Keywords| && i <= e <= |s| && FlagTextWith(s[i..e], Keywords[k])
    ensures TryKeywords(s, i, Keywords[n..]) == Some(e)
    decreases |Keywords| - n
  {
    var kws := Keywords[n..];
    var kw := kws[0];
    assert kw == Keywords[n];
    assert kws[1..] == Keywords[n + 1..];
    var t := s[i..e];
    KeywordShift(s, i, e, Keywords[k]);
    if n == k {
      assert s[i + |kw|] == t[|kw|];
      CloseOfFlag(s, i, e, kw);
    } else {
      if KeywordAt(s, i, kw) {
        KeywordsExclusive(s, i, n, k);
      }
      TryKeywordsComplete(s, i, e, n + 1, k);
    }
  }

  /** Completeness: a flag-shaped text starting at `i` is exactly the match at `i`. */
  lemma MatchAtComplete(s: string, i: nat, e: nat)
    requires i <= e <= |s| && FlagText(s[i..e])
    ensures MatchAt(s, i) == Some(e)
  {
    var k :| 0 <= k < |Keywords| && FlagTextWith(s[i..e], Keywords[k]);
    assert Keywords[0..] == Keywords;
    TryKeywordsComplete(s, i, e, 0, k);
  }
}
