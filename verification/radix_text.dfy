/** Fixed-width spellings of small numbers: the `n.toString(radix).padStart(width, "0")`
    idiom the tools use for hex pairs and eight-digit bit strings, and reading them back. */
module RadixText {
  import opened Results
  import opened Digits
  import opened JsText
  import opened Bytes

  /** `n.toString(radix).padStart(width, "0")`. */
  function PaddedRadix(n: nat, radix: nat, width: nat): (s: string)
    requires 2 <= radix <= 36
    ensures forall i :: 0 <= i < |s| ==> DigitValue(s[i] as int) < radix && IsLowerDigit(s[i])
  {
    var r := RadixString(n, radix);
    assert forall i :: 0 <= i < |r| ==> DigitValue(r[i] as int) < radix && IsLowerDigit(r[i]);
    PadStart(r, width, '0')
  }

  /** A character `toString` may write: 0-9 or a lower-case letter. */
  predicate IsLowerDigit(c: char)
  {
    IsAsciiDigit(c) || IsAsciiLower(c)
  }

  /** The padded spelling has the requested width and reads back as `n` whenever `n`
      needs at most `width` digits. */
  lemma PaddedRadixValue(n: nat, radix: nat, width: nat)
    requires 2 <= radix <= 36 && |ToDigits(n, radix)| <= width
    ensures |PaddedRadix(n, radix, width)| == width
    ensures AllDigits(PaddedRadix(n, radix, width), radix)
    ensures FromDigits(DigitValues(PaddedRadix(n, radix, width)), radix) == n
  {
    var s := PaddedRadix(n, radix, width);
    PaddedRadixDigits(n, radix, width);
    FromDigitsPadStart(ToDigits(n, radix), width, radix);
    assert |s| == |DigitValues(s)|;
  }

  /** The padded spelling spells the padded digit sequence. */
  lemma PaddedRadixDigits(n: nat, radix: nat, width: nat)
    requires 2 <= radix <= 36
    ensures DigitValues(PaddedRadix(n, radix, width)) == FixedDigits(n, radix, width)
  {
    var r := RadixString(n, radix);
    var ds := ToDigits(n, radix);
    RadixStringAt(n, radix, 0);
    forall j | 0 <= j < |r|
      ensures DigitValue(r[j] as int) == ds[j]
    {
      RadixStringAt(n, radix, j);
    }
    PadSpelling(r, ds, width);
  }

  /** Padding with "0" on the left spells padding with 0 digits. */
  lemma PadSpelling(r: string, ds: seq<nat>, width: nat)
    requires |r| == |ds| && forall j :: 0 <= j < |r| ==> DigitValue(r[j] as int) == ds[j]
    ensures DigitValues(PadStart(r, width, '0')) == PadStart(ds, width, 0)
  {
    var s := PadStart(r, width, '0');
    var fixed := PadStart(ds, width, 0);
    var k := |s| - |r|;
    forall i | 0 <= i < |s|
      ensures DigitValue(s[i] as int) == fixed[i]
    {
      if i >= k {
        assert s[i] == s[k..][i - k] == r[i - k];
        assert fixed[i] == fixed[k..][i - k] == ds[i - k];
      }
    }
  }

  lemma RadixStringAt(n: nat, radix: nat, j: nat)
    requires 2 <= radix <= 36 && j < |ToDigits(n, radix)|
    ensures |RadixString(n, radix)| == |ToDigits(n, radix)|
    ensures DigitValue(RadixString(n, radix)[j] as int) == ToDigits(n, radix)[j]
  {
  }

  /** Two lower-case hex digits of a byte: high nibble, then low nibble. `Hex2Padded`
      shows this is `b.toString(16).padStart(2, "0")`. */
  function Hex2(b: byte): (s: string)
    ensures |s| == 2 && IsLowerDigit(s[0]) && IsLowerDigit(s[1])
  {
    [DigitChar(b / 16), DigitChar(b % 16)]
  }

  /** The pair reads back as its byte. */
  lemma Hex2Value(b: byte)
    ensures AllDigits(Hex2(b), 16)
    ensures 16 * DigitValue(Hex2(b)[0] as int) + DigitValue(Hex2(b)[1] as int) == b
  {
  }

  /** A `toString` digit character is the digit character of its value. */
  lemma LowerDigitChar(c: char)
    requires IsLowerDigit(c) && DigitValue(c as int) < 36
    ensures DigitChar(DigitValue(c as int)) == c
  {
  }

  /** The nibble spelling is JavaScript's padded hex spelling. */
  lemma Hex2Padded(b: byte)
    ensures Hex2(b) == PaddedRadix(b, 16, 2)
  {
    HexPairValue(b);
    PairOfValue(PaddedRadix(b, 16, 2), b);
  }

  /** The only two-character `toString` spelling of a byte in hex is its nibble spelling. */
  lemma PairOfValue(p: string, b: byte)
    requires |p| == 2 && IsLowerDigit(p[0]) && IsLowerDigit(p[1]) && AllDigits(p, 16)
    requires 16 * DigitValue(p[0] as int) + DigitValue(p[1] as int) == b
    ensures p == Hex2(b)
  {
    NibblesOf(b, DigitValue(p[0] as int), DigitValue(p[1] as int));
    LowerDigitChar(p[0]);
    LowerDigitChar(p[1]);
  }

  /** A byte's two hex digits are its high and low nibble. */
  lemma NibblesOf(b: byte, hi: nat, lo: nat)
    requires lo < 16 && 16 * hi + lo == b
    ensures hi == b / 16 && lo == b % 16
  {
    DivMulAdd(hi, lo, 16);
  }

  lemma HexPairValue(b: byte)
    ensures |PaddedRadix(b, 16, 2)| == 2
    ensures AllDigits(PaddedRadix(b, 16, 2), 16)
    ensures 16 * DigitValue(PaddedRadix(b, 16, 2)[0] as int) + DigitValue(PaddedRadix(b, 16, 2)[1] as int) == b
  {
    assert Pow(16, 2) == 256 by {
      assert Pow(16, 1) == 16;
    }
    ToDigitsLength(b, 16, 2);
    PaddedRadixValue(b, 16, 2);
    var s := PaddedRadix(b, 16, 2);
    FromDigitsPair(DigitValues(s), 16);
  }

  /** The character spelling one bit. */
  function BitChar(x: bit): char
  {
    if x == 1 then '1' else '0'
  }

  /** Bits spelled as '0' and '1' characters. */
  function SpellBits(bits: seq<bit>): (s: string)
    ensures |s| == |bits|
  {
    seq(|bits|, i requires 0 <= i < |bits| => BitChar(bits[i]))
  }

  /** A bit spelling reads back as its bits. */
  lemma SpellBitsValues(bits: seq<bit>)
    ensures AllDigits(SpellBits(bits), 2)
    ensures DigitValues(SpellBits(bits)) == bits
  {
  }

  /** Eight binary digits of a byte, most significant first. `Bin8Padded` shows this is
      `b.toString(2).padStart(8, "0")`. */
  function Bin8(b: byte): (s: string)
    ensures |s| == 8
  {
    SpellBits(ByteBits(b))
  }

  /** The eight digits read back as the byte. */
  lemma Bin8Value(b: byte)
    ensures AllDigits(Bin8(b), 2)
    ensures FromDigits(DigitValues(Bin8(b)), 2) == b
  {
    SpellBitsValues(ByteBits(b));
  }

  lemma Bin8Padded(b: byte)
    ensures Bin8(b) == PaddedRadix(b, 2, 8)
  {
    PowTwoEight();
    ToDigitsLength(b, 2, 8);
    PaddedRadixValue(b, 2, 8);
    PaddedRadixDigits(b, 2, 8);
    BitsOfValues(PaddedRadix(b, 2, 8), ByteBits(b));
  }

  /** Eight binary digits hold no space, so a space-joined list splits back into them. */
  lemma Bin8NoSpace(b: byte)
    ensures ' ' !in Bin8(b)
  {
    SpellNoSpace(ByteBits(b));
  }

  lemma SpellNoSpace(bits: seq<bit>)
    ensures ' ' !in SpellBits(bits)
  {
    assert forall j :: 0 <= j < |bits| ==> SpellBits(bits)[j] != ' ';
  }

  /** `parseInt(Bin8(b), 2)` reads the byte back. */
  lemma BinaryParse(b: byte)
    ensures ParseInt(Utf16(Bin8(b)), 2) == Some(b)
  {
    Bin8Value(b);
    ParseIntDigits(Bin8(b), 2);
  }

  /** A spelling whose digit values are the given bits is their bit-character spelling. */
  lemma BitsOfValues(p: string, bits: seq<bit>)
    requires |p| == |bits| == 8
    requires forall i :: 0 <= i < 8 ==> IsLowerDigit(p[i]) && DigitValue(p[i] as int) == bits[i]
    ensures p == SpellBits(bits)
  {
  }

  /** Upper-casing keeps a character's digit value. */
  lemma UpperKeepsDigit(c: char)
    ensures DigitValue(UpperChar(c) as int) == DigitValue(c as int)
  {
  }

  /** Different bytes have different hex pairs. */
  lemma Hex2Injective(a: byte, b: byte)
    requires Hex2(a) == Hex2(b)
    ensures a == b
  {
    Hex2Value(a);
    Hex2Value(b);
  }

  /** Bytes written as lower-case hex pairs with no separator: `.map(hex2).join("")`. */
  function HexJoin(bs: seq<byte>): (s: string)
    ensures |s| == 2 * |bs|
  {
    if |bs| == 0 then [] else Hex2(bs[0]) + HexJoin(bs[1..])
  }

  lemma {:induction false} HexJoinDigits(bs: seq<byte>)
    ensures forall i :: 0 <= i < |HexJoin(bs)| ==> IsLowerDigit(HexJoin(bs)[i])
    decreases |bs|
  {
    if |bs| > 0 {
      HexJoinDigits(bs[1..]);
      var h, t := Hex2(bs[0]), HexJoin(bs[1..]);
      assert HexJoin(bs) == h + t;
      forall i | 0 <= i < |h + t|
        ensures IsLowerDigit((h + t)[i])
      {
        if i >= 2 {
          assert (h + t)[i] == t[i - 2];
        }
      }
    }
  }

  /** A hex run determines its bytes. */
  lemma {:induction false} HexJoinInjective(a: seq<byte>, b: seq<byte>)
    requires HexJoin(a) == HexJoin(b)
    ensures a == b
    decreases |a|
  {
    if |a| > 0 {
      var s := HexJoin(a);
      assert s[..2] == Hex2(a[0]) && s[2..] == HexJoin(a[1..]);
      assert s[..2] == Hex2(b[0]) && s[2..] == HexJoin(b[1..]);
      Hex2Injective(a[0], b[0]);
      HexJoinInjective(a[1..], b[1..]);
      ConsTail(a);
      ConsTail(b);
    }
  }

  /** Hex runs concatenate with their bytes. */
  lemma {:induction false} HexJoinAppend(a: seq<byte>, b: seq<byte>)
    ensures HexJoin(a + b) == HexJoin(a) + HexJoin(b)
    decreases |a|
  {
    if |a| > 0 {
      assert (a + b)[0] == a[0];
      assert (a + b)[1..] == a[1..] + b;
      HexJoinAppend(a[1..], b);
    } else {
      assert a + b == b;
    }
  }

  /** Upper-casing loses nothing on strings of `toString` digits. */
  lemma UpperInjective(x: string, y: string)
    requires forall i :: 0 <= i < |x| ==> IsLowerDigit(x[i])
    requires forall i :: 0 <= i < |y| ==> IsLowerDigit(y[i])
    requires Upper(x) == Upper(y)
    ensures x == y
  {
    forall i | 0 <= i < |x|
      ensures x[i] == y[i]
    {
      assert UpperChar(x[i]) == UpperChar(y[i]);
    }
  }

  /** The upper-cased hex run the scanner compares with its signature table. */
  lemma UpperHexJoinInjective(a: seq<byte>, b: seq<byte>)
    requires Upper(HexJoin(a)) == Upper(HexJoin(b))
    ensures a == b
  {
    HexJoinDigits(a);
    HexJoinDigits(b);
    UpperInjective(HexJoin(a), HexJoin(b));
    HexJoinInjective(a, b);
  }

  /** Two upper-case hex digits of a byte: `hex2(b).toUpperCase()`, as `UpperHex2Upper`
      shows. */
  function UpperHex2(b: byte): (s: string)
    ensures |s| == 2
  {
    [UpperChar(DigitChar(b / 16)), UpperChar(DigitChar(b % 16))]
  }

  lemma UpperHex2Upper(b: byte)
    ensures UpperHex2(b) == Upper(Hex2(b))
  {
  }

  /** The upper-cased hex run of bytes is their upper-case pairs one after another. */
  lemma {:induction false} UpperHexJoin(bs: seq<byte>)
    ensures |bs| > 0 ==> Upper(HexJoin(bs)) == UpperHex2(bs[0]) + Upper(HexJoin(bs[1..]))
  {
    if |bs| > 0 {
      UpperHex2Upper(bs[0]);
      assert HexJoin(bs) == Hex2(bs[0]) + HexJoin(bs[1..]);
      UpperAppend(Hex2(bs[0]), HexJoin(bs[1..]));
    }
  }

  lemma UpperAppend(x: string, y: string)
    ensures Upper(x + y) == Upper(x) + Upper(y)
  {
  }

  /** The upper-case pair reads back as its byte. */
  lemma UpperHex2Value(b: byte)
    ensures AllDigits(UpperHex2(b), 16)
    ensures 16 * DigitValue(UpperHex2(b)[0] as int) + DigitValue(UpperHex2(b)[1] as int) == b
  {
    var h := Hex2(b);
    UpperHex2Upper(b);
    Hex2Value(b);
    UpperKeepsDigit(h[0]);
    UpperKeepsDigit(h[1]);
    assert UpperHex2(b)[0] == UpperChar(h[0]) && UpperHex2(b)[1] == UpperChar(h[1]);
  }
}
