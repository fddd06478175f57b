/** Positional notation, most significant digit first: the arithmetic behind
    `Number.prototype.toString(radix)`, `String.prototype.padStart` and `parseInt`. */
module Digits {

  function Pow(base: nat, e: nat): (r: nat)
    ensures base >= 1 ==> r >= 1
  {
    if e == 0 then 1 else base * Pow(base, e - 1)
  }

  /** Every entry of `ds` is a digit of the given base. */
  predicate IsDigits(ds: seq<nat>, base: nat)
  {
    forall i :: 0 <= i < |ds| ==> ds[i] < base
  }

  /** The number a digit sequence denotes, read most significant digit first. */
  function FromDigits(ds: seq<nat>, base: nat): nat
  {
    if |ds| == 0 then 0 else FromDigits(ds[..|ds| - 1], base) * base + ds[|ds| - 1]
  }

  /** Two digits denote the first times the base plus the second. */
  lemma FromDigitsPair(ds: seq<nat>, base: nat)
    requires |ds| == 2
    ensures FromDigits(ds, base) == ds[0] * base + ds[1]
  {
    var a := ds[..1];
    assert a[..0] == [];
    assert FromDigits(a, base) == ds[0];
  }

  /** The shortest digit sequence denoting `n`: a single 0 for zero and no leading
      zero otherwise, as `n.toString(base)` spells it. */
  function ToDigits(n: nat, base: nat): (ds: seq<nat>)
    requires base >= 2
    ensures 1 <= |ds|
    ensures IsDigits(ds, base)
    ensures FromDigits(ds, base) == n
    ensures |ds| > 1 ==> ds[0] != 0
    decreases n
  {
    if n < base then [n]
    else
      var q, d := n / base, n % base;
      DivDecompose(n, base);
      var high := ToDigits(q, base);
      var ds := high + [d];
      assert ds[..|high|] == high;
      assert ds[0] == high[0];
      ds
  }

  /** `s.padStart(width, pad)`: left-pads `s` with `pad` up to `width` elements. */
  function PadStart<T>(s: seq<T>, width: nat, pad: T): (r: seq<T>)
    ensures |r| == if |s| >= width then |s| else width
    ensures r[|r| - |s|..] == s
    ensures forall i :: 0 <= i < |r| - |s| ==> r[i] == pad
  {
    if |s| >= width then s else seq(width - |s|, _ => pad) + s
  }

  /** `n.toString(base).padStart(width, "0")` as digits. */
  function FixedDigits(n: nat, base: nat, width: nat): seq<nat>
    requires base >= 2
  {
    PadStart(ToDigits(n, base), width, 0)
  }

  lemma {:induction false} FromDigitsAppend(a: seq<nat>, b: seq<nat>, base: nat)
    ensures FromDigits(a + b, base) == FromDigits(a, base) * Pow(base, |b|) + FromDigits(b, base)
    decreases |b|
  {
    if |b| == 0 {
      assert a + b == a;
    } else {
      var b' := b[..|b| - 1];
      var d := b[|b| - 1];
      assert (a + b)[..|a + b| - 1] == a + b';
      FromDigitsAppend(a, b', base);
      var x, p, y := FromDigits(a, base), Pow(base, |b'|), FromDigits(b', base);
      assert FromDigits(a + b, base) == (x * p + y) * base + d;
      assert FromDigits(b, base) == y * base + d;
      assert Pow(base, |b|) == base * p;
      MulDistrib(x, p, y, base);
    }
  }

  lemma MulDistrib(x: int, p: int, y: int, b: int)
    ensures (x * p + y) * b == x * (b * p) + y * b
  {
  }

  lemma {:induction false} FromDigitsZeros(z: seq<nat>, base: nat)
    requires forall i :: 0 <= i < |z| ==> z[i] == 0
    ensures FromDigits(z, base) == 0
    decreases |z|
  {
    if |z| > 0 {
      FromDigitsZeros(z[..|z| - 1], base);
    }
  }

  /** Leading zeros do not change the value: padding with "0" is harmless to `parseInt`. */
  lemma FromDigitsPadStart(ds: seq<nat>, width: nat, base: nat)
    ensures FromDigits(PadStart(ds, width, 0), base) == FromDigits(ds, base)
  {
    var r := PadStart(ds, width, 0);
    var z := r[..|r| - |ds|];
    assert r == z + ds;
    FromDigitsZeros(z, base);
    FromDigitsAppend(z, ds, base);
  }

  /** A digit sequence of length k denotes a number below base^k. */
  lemma {:induction false} FromDigitsBound(ds: seq<nat>, base: nat)
    requires base >= 1 && IsDigits(ds, base)
    ensures FromDigits(ds, base) < Pow(base, |ds|)
    decreases |ds|
  {
    if |ds| > 0 {
      var ds' := ds[..|ds| - 1];
      FromDigitsBound(ds', base);
      var h, p, d := FromDigits(ds', base), Pow(base, |ds'|), ds[|ds| - 1];
      assert FromDigits(ds, base) == h * base + d;
      assert Pow(base, |ds|) == base * p;
      DigitStep(h, p, d, base);
    }
  }

  lemma DigitStep(h: nat, p: nat, d: nat, b: nat)
    requires h < p && d < b
    ensures h * b + d < b * p
  {
    assert h * b + d < (h + 1) * b <= p * b;
  }

  /** The shortest spelling of a number below base^k has at most k digits. */
  lemma {:induction false} ToDigitsLength(n: nat, base: nat, k: nat)
    requires base >= 2 && 1 <= k && n < Pow(base, k)
    ensures |ToDigits(n, base)| <= k
    decreases n
  {
    if n >= base {
      assert 2 <= k by {
        assert Pow(base, 1) == base;
      }
      var p := Pow(base, k - 1);
      assert Pow(base, k) == base * p;
      DivBelow(n, base, p);
      DivDecompose(n, base);
      var m := n / base;
      assert m < n;
      ToDigitsLength(m, base, k - 1);
      ToDigitsUnfold(n, base);
    }
  }

  lemma ToDigitsUnfold(n: nat, base: nat)
    requires base >= 2 && n >= base
    ensures |ToDigits(n, base)| == |ToDigits(n / base, base)| + 1
  {
  }

  lemma DivDecompose(n: nat, b: nat)
    requires 1 <= b <= n
    ensures 1 <= n / b && n % b < b && n == (n / b) * b + n % b
    ensures b >= 2 ==> n / b < n
  {
  }

  lemma DivBelow(n: nat, b: nat, p: nat)
    requires b >= 1 && n < b * p
    ensures n / b < p
  {
    var q, r := n / b, n % b;
    assert n == q * b + r && r >= 0;
    if q >= p {
      MulMono(p, q, b);
    }
  }

  lemma MulMono(p: nat, q: nat, b: nat)
    requires p <= q
    ensures p * b <= q * b
  {
  }

  /** A fixed-width spelling of a number that fits has exactly `width` digits and reads back to it. */
  lemma FixedDigitsFit(n: nat, base: nat, width: nat)
    requires base >= 2 && 1 <= width && n < Pow(base, width)
    ensures |FixedDigits(n, base, width)| == width
    ensures IsDigits(FixedDigits(n, base, width), base)
    ensures FromDigits(FixedDigits(n, base, width), base) == n
  {
    ToDigitsLength(n, base, width);
    FromDigitsPadStart(ToDigits(n, base), width, base);
  }

  /** Two equal-length digit sequences denoting the same number are equal. */
  lemma {:induction false} FromDigitsInjective(a: seq<nat>, b: seq<nat>, base: nat)
    requires base >= 1 && |a| == |b| && IsDigits(a, base) && IsDigits(b, base)
    requires FromDigits(a, base) == FromDigits(b, base)
    ensures a == b
    decreases |a|
  {
    if |a| > 0 {
      var a', b' := a[..|a| - 1], b[..|b| - 1];
      var x, y := FromDigits(a', base), FromDigits(b', base);
      assert x * base + a[|a| - 1] == y * base + b[|b| - 1];
      DigitSplitUnique(x, a[|a| - 1], y, b[|b| - 1], base);
      FromDigitsInjective(a', b', base);
      assert a == a' + [a[|a| - 1]] && b == b' + [b[|b| - 1]];
    }
  }

  lemma DigitSplitUnique(x: nat, d: nat, y: nat, e: nat, b: nat)
    requires d < b && e < b && x * b + d == y * b + e
    ensures x == y && d == e
  {
    DivMulAdd(x, d, b);
    DivMulAdd(y, e, b);
  }

  lemma DivMulAdd(x: nat, d: nat, b: nat)
    requires d < b
    ensures (x * b + d) / b == x && (x * b + d) % b == d
  {
    var n := x * b + d;
    var q, r := n / b, n % b;
    assert q * b + r == x * b + d;
    var k := q - x;
    assert k * b == d - r by {
      SubMul(q, x, b);
    }
    MulGrows(k, b);
  }

  /** A non-empty sequence is its head followed by its tail. */
  lemma ConsTail<T>(a: seq<T>)
    requires |a| > 0
    ensures a == [a[0]] + a[1..]
  {
  }

  lemma SubMul(q: int, x: int, b: int)
    ensures (q - x) * b == q * b - x * b
  {
  }

  lemma MulGrows(k: int, b: int)
    requires b >= 0
    ensures k >= 1 ==> k * b >= b
    ensures k <= -1 ==> k * b <= 0 - b
  {
  }
}
