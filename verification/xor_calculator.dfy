/** The XOR calculator (`components/xor-calculator.tsx`): two inputs read as bytes (UTF-8
    text or hex digits), combined byte by byte with the shorter one repeated, and shown as
    lower-case hex and as printable ASCII. */
module XorCalculator {
  import opened Results
  import opened Digits
  import opened JsText
  import opened Bytes
  import opened RadixText

  // ---------------------------------------------------------------- hex input

  predicate IsHexDigit(c: char)
  {
    c as int < 128 && DigitValue(c as int) < 16
  }

  /** `str.replace(/[^0-9a-fA-F]/g, "")`. */
  function HexFilter(s: string): (h: string)
    ensures |h| <= |s|
    ensures forall i :: 0 <= i < |h| ==> IsHexDigit(h[i])
  {
    if |s| == 0 then ""
    else (if IsHexDigit(s[0]) then [s[0]] else "") + HexFilter(s[1..])
  }

  lemma {:induction false} HexFilterKeeps(s: string)
    requires forall i :: 0 <= i < |s| ==> IsHexDigit(s[i])
    ensures HexFilter(s) == s
    decreases |s|
  {
    if |s| > 0 {
      HexFilterKeeps(s[1..]);
      assert [s[0]] + s[1..] == s;
    }
  }

  /** The byte a pair of hex digits spells. */
  function PairValue(h: string, i: nat): (b: byte)
    requires 2 * i + 1 < |h| && IsHexDigit(h[2 * i]) && IsHexDigit(h[2 * i + 1])
  {
    16 * DigitValue(h[2 * i] as int) + DigitValue(h[2 * i + 1] as int)
  }

  /** The hex branch of `toBuffer`: the hex digits of the input, an error when there is an
      odd number of them, and otherwise one byte per pair. */
  function ParseHex(s: string): (r: Result<seq<byte>, string>)
    ensures r.Err? <==> |HexFilter(s)| % 2 == 1
    ensures r.Ok? ==> |r.value| == |HexFilter(s)| / 2
  {
    var h := HexFilter(s);
    if |h| % 2 != 0 then Err("Invalid hex")
    else Ok(seq(|h| / 2, i requires 0 <= i < |h| / 2 => PairValue(h, i)))
  }

  /** Each byte is what `parseInt(hex.substr(i * 2, 2), 16)` reads. */
  lemma ParseHexReads(s: string, i: nat)
    requires ParseHex(s).Ok? && i < |ParseHex(s).value|
    ensures var h := HexFilter(s);
            ParseInt(Utf16(h[2 * i..2 * i + 2]), 16) == Some(ParseHex(s).value[i])
  {
    var h := HexFilter(s);
    assert ParseHex(s).value[i] == PairValue(h, i);
    PairReads(h, i);
  }

  lemma PairReads(h: string, i: nat)
    requires 2 * i + 1 < |h| && IsHexDigit(h[2 * i]) && IsHexDigit(h[2 * i + 1])
    ensures ParseInt(Utf16(h[2 * i..2 * i + 2]), 16) == Some(PairValue(h, i))
  {
    var p := h[2 * i..2 * i + 2];
    assert p[0] == h[2 * i] && p[1] == h[2 * i + 1];
    ParseIntPair(p, 16);
  }

  /** Characters other than hex digits are ignored. */
  lemma ParseHexIgnoresJunk(s: string)
    ensures ParseHex(s) == ParseHex(HexFilter(s))
  {
    HexFilterKeeps(HexFilter(s));
  }

  /** Hex input spelled from bytes parses back to those bytes. */
  lemma ParseHexRoundTrip(bs: seq<byte>)
    ensures ParseHex(HexJoin(bs)) == Ok(bs)
  {
    var h := HexJoin(bs);
    HexJoinHex(bs);
    HexFilterKeeps(h);
    forall i | 0 <= i < |bs|
      ensures PairValue(h, i) == bs[i]
    {
      HexJoinAt(bs, i);
      Hex2Value(bs[i]);
      assert h[2 * i] == Hex2(bs[i])[0] && h[2 * i + 1] == Hex2(bs[i])[1];
    }
    assert ParseHex(h).Ok?;
    assert ParseHex(h).value == bs;
  }

  lemma {:induction false} HexJoinAt(bs: seq<byte>, i: nat)
    requires i < |bs|
    ensures HexJoin(bs)[2 * i..2 * i + 2] == Hex2(bs[i])
    decreases i
  {
    var t := HexJoin(bs[1..]);
    assert HexJoin(bs) == Hex2(bs[0]) + t;
    if i > 0 {
      HexJoinAt(bs[1..], i - 1);
      assert (Hex2(bs[0]) + t)[2 * i..2 * i + 2] == t[2 * (i - 1)..2 * (i - 1) + 2];
    }
  }

  lemma HexJoinHex(bs: seq<byte>)
    ensures forall i :: 0 <= i < |HexJoin(bs)| ==> IsHexDigit(HexJoin(bs)[i])
  {
    forall i | 0 <= i < |HexJoin(bs)|
      ensures IsHexDigit(HexJoin(bs)[i])
    {
      var k := i / 2;
      HexJoinAt(bs, k);
      Hex2Value(bs[k]);
      assert HexJoin(bs)[i] == Hex2(bs[k])[i - 2 * k];
    }
  }

  // ---------------------------------------------------------------- cyclic XOR

  /** `buf[i % buf.length]` as an operand of `^`: an empty buffer gives `undefined`, which
      `^` reads as 0. */
  function ByteAt(buf: seq<byte>, i: nat): byte
  {
    if |buf| == 0 then 0 else buf[i % |buf|]
  }

  /** Inside the buffer, the index is its own remainder. */
  lemma ByteAtInside(buf: seq<byte>, i: nat)
    requires i < |buf|
    ensures ByteAt(buf, i) == buf[i]
  {
    ModSmall(i, |buf|);
  }

  lemma ModSmall(i: nat, n: nat)
    requires i < n
    ensures i % n == i
  {
  }

  function Max(a: nat, b: nat): nat
  {
    if a < b then b else a
  }

  /** The result loop: as many bytes as the longer input, the shorter one repeated. */
  function CyclicXor(a: seq<byte>, b: seq<byte>): (r: seq<byte>)
    ensures |r| == Max(|a|, |b|)
  {
    seq(Max(|a|, |b|), i requires 0 <= i < Max(|a|, |b|) => Xor(ByteAt(a, i), ByteAt(b, i)))
  }

  /** The loop as written in the source. */
  method CyclicXorLoop(a: seq<byte>, b: seq<byte>) returns (res: seq<byte>)
    ensures |res| == Max(|a|, |b|)
    ensures forall i :: 0 <= i < |res| ==> res[i] == Xor(ByteAt(a, i), ByteAt(b, i))
  {
    var maxLength := Max(|a|, |b|);
    res := [];
    for i := 0 to maxLength
      invariant |res| == i
      invariant forall j :: 0 <= j < i ==> res[j] == Xor(ByteAt(a, j), ByteAt(b, j))
    {
      res := res + [Xor(ByteAt(a, i), ByteAt(b, i))];
    }
  }

  /** The two inputs play symmetric parts. */
  lemma CyclicXorSymmetric(a: seq<byte>, b: seq<byte>)
    ensures CyclicXor(a, b) == CyclicXor(b, a)
  {
    forall i | 0 <= i < Max(|a|, |b|)
      ensures CyclicXor(a, b)[i] == CyclicXor(b, a)[i]
    {
      XorCommutes(ByteAt(a, i), ByteAt(b, i));
    }
  }

  /** XOR-ing with the same key twice gives the longer-or-equal input back. */
  lemma CyclicXorUndo(a: seq<byte>, b: seq<byte>)
    requires |a| >= |b|
    ensures CyclicXor(CyclicXor(a, b), b) == a
  {
    var c := CyclicXor(a, b);
    forall i | 0 <= i < |a|
      ensures CyclicXor(c, b)[i] == a[i]
    {
      ByteAtInside(c, i);
      ByteAtInside(a, i);
      var x, k := a[i], ByteAt(b, i);
      assert c[i] == Xor(x, k);
      XorCancels(x, k);
    }
  }

  /** With an empty operand (hex input without digits) the other input comes out as it is. */
  lemma CyclicXorEmpty(a: seq<byte>)
    ensures CyclicXor(a, []) == a
  {
    forall i | 0 <= i < |a|
      ensures CyclicXor(a, [])[i] == a[i]
    {
      ByteAtInside(a, i);
      XorZero(a[i]);
    }
  }

  // ---------------------------------------------------------------- output

  /** The ASCII rendering: printable bytes as themselves, every other byte as '.'. */
  function AsciiOut(res: seq<byte>): (r: string)
    ensures |r| == |res|
    ensures forall i :: 0 <= i < |res| ==> ' ' <= r[i] <= '~'
    ensures forall i :: 0 <= i < |res| ==> (r[i] as int == res[i] <==> 32 <= res[i] <= 126)
  {
    seq(|res|, i requires 0 <= i < |res| => if 32 <= res[i] <= 126 then res[i] as char else '.')
  }

  /** The hex rendering: `b.toString(16).padStart(2, "0")` per byte, joined; each pair reads
      back as its byte. */
  lemma HexOutPairs(res: seq<byte>, i: nat)
    requires i < |res|
    ensures |HexJoin(res)| == 2 * |res|
    ensures HexJoin(res)[2 * i..2 * i + 2] == PaddedRadix(res[i], 16, 2)
    ensures 16 * DigitValue(HexJoin(res)[2 * i] as int) + DigitValue(HexJoin(res)[2 * i + 1] as int) == res[i]
  {
    HexJoinAt(res, i);
    Hex2Padded(res[i]);
    Hex2Value(res[i]);
    assert HexJoin(res)[2 * i] == Hex2(res[i])[0];
    assert HexJoin(res)[2 * i + 1] == Hex2(res[i])[1];
  }

  // ---------------------------------------------------------------- binary input

  /** The binary branch: the space-separated pieces read with `parseInt(piece, 2)`, the
      pieces that read as NaN dropped, and each value stored in a byte, which keeps it
      modulo 256. The fixed-width loop before it computes a buffer that is never used. */
  function ParseBinary(s: string): (r: seq<byte>)
    ensures |r| <= |Split(s, ' ')|
  {
    KeepNumbers(Readings(Split(s, ' ')))
  }

  /** `parseInt(piece, 2)` for each piece; None stands for NaN. */
  function Readings(parts: seq<string>): (xs: seq<Option<int>>)
    ensures |xs| == |parts| && forall k :: 0 <= k < |parts| ==> xs[k] == ParseInt(Utf16(parts[k]), 2)
  {
    seq(|parts|, k requires 0 <= k < |parts| => ParseInt(Utf16(parts[k]), 2))
  }

  /** `filter(n => !isNaN(n))` followed by the byte conversion of `new Uint8Array`. */
  function KeepNumbers(xs: seq<Option<int>>): (r: seq<byte>)
    ensures |r| <= |xs|
    ensures (forall k :: 0 <= k < |xs| ==> xs[k].None?) ==> r == []
  {
    if |xs| == 0 then []
    else
      match xs[0]
      case None => KeepNumbers(xs[1..])
      case Some(v) => [v % 256] + KeepNumbers(xs[1..])
  }

  /** Readings that are all bytes are kept as they are, in order. */
  lemma {:induction false} KeepBytes(xs: seq<Option<int>>, bs: seq<byte>)
    requires |xs| == |bs| && forall k :: 0 <= k < |bs| ==> xs[k] == Some(bs[k])
    ensures KeepNumbers(xs) == bs
    decreases |bs|
  {
    if |bs| > 0 {
      KeepBytes(xs[1..], bs[1..]);
      assert [bs[0]] + bs[1..] == bs;
    }
  }

  /** Each byte as eight binary digits. */
  function Bin8Words(bs: seq<byte>): (ws: seq<string>)
    ensures |ws| == |bs| && forall i :: 0 <= i < |bs| ==> ws[i] == Bin8(bs[i])
  {
    seq(|bs|, i requires 0 <= i < |bs| => Bin8(bs[i]))
  }

  /** Bytes written as space-separated eight-digit words are read back exactly. */
  lemma ParseBinaryRoundTrip(bs: seq<byte>)
    requires |bs| > 0
    ensures ParseBinary(Join(Bin8Words(bs), ' ')) == bs
  {
    var ws := Bin8Words(bs);
    forall i | 0 <= i < |ws|
      ensures ' ' !in ws[i] && ParseInt(Utf16(ws[i]), 2) == Some(bs[i])
    {
      Bin8NoSpace(bs[i]);
      BinaryParse(bs[i]);
    }
    SplitJoin(ws, ' ');
    KeepBytes(Readings(ws), bs);
  }

  /** A piece that is not a binary number is skipped rather than read as a zero byte. */
  lemma SkipsNaN(x: Option<int>, rest: seq<Option<int>>)
    ensures x.None? ==> KeepNumbers([x] + rest) == KeepNumbers(rest)
    ensures x.Some? ==> KeepNumbers([x] + rest) == [x.value % 256] + KeepNumbers(rest)
  {
    assert ([x] + rest)[1..] == rest;
  }

  // ---------------------------------------------------------------- calculate

  /** The input types the selector offers. */
  datatype InputType = AsciiInput | HexInput | BinaryInput

  datatype XorView = XorView(result: string, resultHex: string)

  /** `toBuffer`; `utf8` stands for `TextEncoder.encode`. */
  function ToBuffer(s: string, t: InputType, utf8: string -> seq<byte>): Result<seq<byte>, string>
  {
    match t
    case AsciiInput => Ok(utf8(s))
    case HexInput => ParseHex(s)
    case BinaryInput => Ok(ParseBinary(s))
  }

  /** `calculate`: both outputs cleared when an input is empty; the previous outputs kept
      when an input fails to parse, since the error is swallowed; otherwise the cyclic XOR
      rendered as ASCII and as hex. */
  function Calculate(prev: XorView, a: string, b: string, t: InputType, utf8: string -> seq<byte>): (r: XorView)
    ensures a == "" || b == "" ==> r == XorView("", "")
    ensures a != "" && b != "" && (ToBuffer(a, t, utf8).Err? || ToBuffer(b, t, utf8).Err?) ==> r == prev
    ensures a != "" && b != "" && ToBuffer(a, t, utf8).Ok? && ToBuffer(b, t, utf8).Ok? ==>
              var x := CyclicXor(ToBuffer(a, t, utf8).value, ToBuffer(b, t, utf8).value);
              |r.resultHex| == 2 * |x| && |r.result| == |x|
  {
    if a == "" || b == "" then XorView("", "")
    else
      match (ToBuffer(a, t, utf8), ToBuffer(b, t, utf8))
      case (Ok(x), Ok(y)) =>
        var res := CyclicXor(x, y);
        XorView(AsciiOut(res), HexJoin(res))
      case _ => prev
  }
}
