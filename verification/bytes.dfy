/** Bytes and bits: the `Uint8Array`/`Uint8ClampedArray` element type, the bitwise
    operators the tools apply to it, and a byte's eight-bit spelling. */
module Bytes {
  import opened Digits

  type byte = x: int | 0 <= x < 256
  type bit = x: int | 0 <= x < 2

  /** `Math.min` on lengths and counts. */
  function Min(a: nat, b: nat): nat
  {
    if a <= b then a else b
  }

  /** Bitwise exclusive or of two non-negative integers, bit by bit from the least
      significant end. */
  function BitXor(a: nat, b: nat): nat
    decreases a + b
  {
    if a == 0 && b == 0 then 0
    else BitXor(a / 2, b / 2) * 2 + (a % 2 + b % 2) % 2
  }

  lemma {:induction false} BitXorBound(a: nat, b: nat, k: nat)
    requires a < Pow(2, k) && b < Pow(2, k)
    ensures BitXor(a, b) < Pow(2, k)
    decreases a + b
  {
    if !(a == 0 && b == 0) {
      assert k >= 1;
      BitXorBound(a / 2, b / 2, k - 1);
    }
  }

  /** `a ^ b` on two bytes. */
  function Xor(a: byte, b: byte): byte
  {
    PowTwoEight();
    BitXorBound(a, b, 8);
    BitXor(a, b)
  }

  lemma {:induction false} BitXorCommutes(a: nat, b: nat)
    ensures BitXor(a, b) == BitXor(b, a)
    decreases a + b
  {
    if !(a == 0 && b == 0) {
      BitXorCommutes(a / 2, b / 2);
    }
  }

  lemma {:induction false} BitXorCancels(a: nat, b: nat)
    ensures BitXor(BitXor(a, b), b) == a
    decreases a + b
  {
    if !(a == 0 && b == 0) {
      var h := BitXor(a / 2, b / 2);
      var d := (a % 2 + b % 2) % 2;
      var x := BitXor(a, b);
      BitXorUnfold(a, b);
      assert x == h * 2 + d;
      HalfOf(h, d);
      assert a / 2 + b / 2 < a + b;
      BitXorCancels(a / 2, b / 2);
      BitXorUnfold(x, b);
      assert x / 2 == h && x % 2 == d;
      ParityCancels(a, b);
      assert BitXor(x, b) == a / 2 * 2 + a % 2;
    }
  }

  /** The low bit of `a ^ b ^ b` is the low bit of `a`, and `a` is its halves. */
  lemma ParityCancels(a: nat, b: nat)
    ensures (((a % 2 + b % 2) % 2) + b % 2) % 2 == a % 2
    ensures a / 2 * 2 + a % 2 == a
  {
  }

  /** The recursive step of `BitXor` holds for every pair, zero included. */
  lemma BitXorUnfold(a: nat, b: nat)
    ensures BitXor(a, b) == BitXor(a / 2, b / 2) * 2 + (a % 2 + b % 2) % 2
  {
  }

  lemma HalfOf(h: nat, d: nat)
    requires d < 2
    ensures (h * 2 + d) / 2 == h && (h * 2 + d) % 2 == d
  {
  }

  lemma {:induction false} BitXorZero(a: nat)
    ensures BitXor(a, 0) == a
    decreases a
  {
    if a != 0 {
      BitXorZero(a / 2);
    }
  }

  lemma XorCommutes(a: byte, b: byte)
    ensures Xor(a, b) == Xor(b, a)
  {
    BitXorCommutes(a, b);
  }

  /** XOR-ing the same byte twice undoes it. */
  lemma XorCancels(a: byte, b: byte)
    ensures Xor(Xor(a, b), b) == a
  {
    BitXorCancels(a, b);
  }

  lemma XorZero(a: byte)
    ensures Xor(a, 0) == a && Xor(0, a) == a
  {
    BitXorZero(a);
    BitXorCommutes(a, 0);
  }

  /** `(v & 0xFE) | b`: clears the least-significant bit of v, then sets it to b. */
  function SetLsb(v: byte, b: bit): (r: byte)
    ensures r / 2 == v / 2 && r % 2 == b
  {
    v - v % 2 + b
  }

  lemma PowTwoEight()
    ensures Pow(2, 8) == 256
  {
  }

  /** `b.toString(2).padStart(8, "0")`: the eight bits of a byte, most significant first. */
  function ByteBits(b: byte): (bits: seq<bit>)
    ensures |bits| == 8
    ensures FromDigits(bits, 2) == b
  {
    PowTwoEight();
    FixedDigitsFit(b, 2, 8);
    var bits: seq<bit> := FixedDigits(b, 2, 8);
    bits
  }

  /** `parseInt(bits, 2)` for a string of at most eight binary digits: always a byte. */
  function BitsValue(bits: seq<bit>): (v: byte)
    requires |bits| <= 8
    ensures v == FromDigits(bits, 2)
  {
    FromDigitsBound(bits, 2);
    PowMono(2, |bits|, 8);
    PowTwoEight();
    FromDigits(bits, 2)
  }

  lemma {:induction false} PowMono(b: nat, e: nat, f: nat)
    requires 1 <= b && e <= f
    ensures Pow(b, e) <= Pow(b, f)
    decreases f
  {
    if e < f {
      PowMono(b, e, f - 1);
      var p := Pow(b, f - 1);
      assert Pow(b, f) == b * p;
      MulMono(1, b, p);
    }
  }

  /** The eight bits of a byte read back as that byte. */
  lemma ByteBitsRoundTrip(b: byte)
    ensures BitsValue(ByteBits(b)) == b
  {
  }

  /** Only the zero byte is spelled with eight zero bits. */
  lemma ZeroBits(bits: seq<bit>)
    requires |bits| == 8
    ensures (BitsValue(bits) == 0) == (forall i :: 0 <= i < 8 ==> bits[i] == 0)
  {
    if forall i :: 0 <= i < 8 ==> bits[i] == 0 {
      FromDigitsZeros(bits, 2);
    } else {
      var i :| 0 <= i < 8 && bits[i] != 0;
      FromDigitsAppend(bits[..i + 1], bits[i + 1..], 2);
      assert bits[..i + 1] + bits[i + 1..] == bits;
      assert bits[..i + 1][..i] == bits[..i];
      assert FromDigits(bits[..i + 1], 2) >= 1;
      assert Pow(2, |bits[i + 1..]|) >= 1;
    }
  }

  /** `String.fromCharCode(b)` for each byte in turn: the characters with those codes. */
  function Latin1(bs: seq<byte>): (s: string)
    ensures |s| == |bs| && forall i :: 0 <= i < |bs| ==> s[i] as int == bs[i]
  {
    seq(|bs|, i requires 0 <= i < |bs| => bs[i] as char)
  }
}
