/** The RSA calculator (`components/rsa-calculator.tsx`): n, φ(n) and the private exponent
    from p, q and e, and decryption of c with d and n followed by reading the plaintext
    number as a byte string. The big-integer library's `modInv` and `modPow` follow the
    library's published loops: extended Euclid with a quotient rounded toward zero, and
    right-to-left square-and-multiply starting from 1. */
module RsaCalculator {
  import opened Results
  import opened Digits
  import opened JsText
  import opened RadixText

  // ---------------------------------------------------------------- residues

  /** Euclidean division is unique: a quotient and a remainder in range are `/` and `%`. */
  lemma ModUnique(n: int, m: int, q: int, r: int)
    requires m > 0 && 0 <= r < m && n == q * m + r
    ensures n % m == r && n / m == q
  {
    var q0, r0 := n / m, n % m;
    assert q0 * m + r0 == q * m + r;
    var k := q0 - q;
    assert k * m == r - r0 by {
      SubMul(q0, q, m);
    }
    MulGrows(k, m);
  }

  lemma ModAddMultiple(t: int, k: int, m: int)
    requires m > 0
    ensures (k * m + t) % m == t % m
  {
    var u := t / m;
    assert t == u * m + t % m;
    assert k * m + t == (k + u) * m + t % m by {
      assert (k + u) * m == k * m + u * m;
    }
    ModUnique(k * m + t, m, k + u, t % m);
  }

  lemma MulModRight(a: int, x: int, m: int)
    requires m > 0
    ensures (a * (x % m)) % m == (a * x) % m
  {
    var q := x / m;
    assert x == q * m + x % m;
    assert a * x == (a * q) * m + a * (x % m) by {
      assert a * (q * m + x % m) == a * (q * m) + a * (x % m);
    }
    ModAddMultiple(a * (x % m), a * q, m);
  }

  /** Reducing the factors first does not change the residue of a product. */
  lemma MulModBoth(a: int, b: int, m: int)
    requires m > 0
    ensures ((a % m) * (b % m)) % m == (a * b) % m
  {
    MulModRight(a % m, b, m);
    MulModRight(b, a, m);
    assert (a % m) * b == b * (a % m);
  }

  // ---------------------------------------------------------------- modular inverse

  function Gcd(a: nat, b: nat): nat
    decreases b
  {
    if b == 0 then a else Gcd(b, a % b)
  }

  /** The greatest common divisor divides both numbers. */
  lemma {:induction false} GcdDivides(a: nat, b: nat)
    requires a > 0 || b > 0
    ensures Gcd(a, b) > 0 && a % Gcd(a, b) == 0 && b % Gcd(a, b) == 0
    decreases b
  {
    if b > 0 {
      GcdDivides(b, a % b);
      DividesCombine(a, b, Gcd(a, b));
    }
  }

  /** A divisor of b and of a mod b divides a. */
  lemma DividesCombine(a: nat, b: nat, g: int)
    requires b > 0 && g > 0 && b % g == 0 && (a % b) % g == 0
    ensures a % g == 0
  {
    var u, v, q := b / g, (a % b) / g, a / b;
    assert b == u * g;
    assert a % b == v * g;
    assert a == q * b + a % b;
    MulAssoc(q, u, g);
    MulAddRight(q * u, v, g);
    ModUnique(a, g, q * u + v, 0);
  }

  lemma MulAssoc(a: int, b: int, c: int)
    ensures a * (b * c) == (a * b) * c
  {
  }

  lemma MulAddRight(x: int, y: int, g: int)
    ensures x * g + y * g == (x + y) * g
  {
  }

  lemma MulComm(a: int, b: int)
    ensures a * b == b * a
  {
  }

  function Abs(x: int): nat
  {
    if x < 0 then -x else x
  }

  /** `a.divide(b)`: the quotient rounded toward zero. */
  function Quot(a: int, b: int): int
    requires b != 0
  {
    if (a < 0) == (b < 0) then Abs(a) / Abs(b) else -(Abs(a) / Abs(b))
  }

  /** The remainder left by `Quot` is the remainder of the magnitudes, with the sign of
      the dividend; for non-negative operands `Quot` is Euclidean division. */
  lemma QuotRem(a: int, b: int)
    requires b != 0
    ensures Abs(a - Quot(a, b) * b) == Abs(a) % Abs(b)
    ensures a >= 0 ==> a - Quot(a, b) * b >= 0
    ensures a >= 0 && b > 0 ==> Quot(a, b) == a / b
  {
    var x: int, y: int := Abs(a), Abs(b);
    var q := x / y;
    var w := Quot(a, b) * b;
    if (a < 0) == (b < 0) {
      SignedProduct(q, b, y);
    } else {
      SignedProduct(-q, b, y);
      NegMul(q, y);
    }
    SignedRemainder(a, x, w, q * y, x % y);
  }

  /** x = P + rr with the sign of a on both x and P leaves rr with that sign. */
  lemma SignedRemainder(a: int, x: int, w: int, p: int, rr: int)
    requires x == p + rr && 0 <= rr
    requires x == Abs(a) && w == (if a < 0 then -p else p)
    ensures Abs(a - w) == rr && (a >= 0 ==> a - w >= 0)
  {
  }

  /** A product with b is plus or minus the product with |b|. */
  lemma SignedProduct(k: int, b: int, y: int)
    requires y == Abs(b)
    ensures k * b == if b < 0 then -(k * y) else k * y
  {
  }

  lemma NegMul(q: int, y: int)
    ensures (-q) * y == -(q * y)
  {
  }

  /** The loop of the library's `modInv`, on the remainders r, newR and the coefficients of
      e, t and newT; it ends with the last non-zero remainder and its coefficient. */
  function InvLoop(t: int, newT: int, r: int, newR: int): (int, int)
    decreases Abs(newR)
  {
    if newR == 0 then (t, r)
    else
      QuotRem(r, newR);
      var q := Quot(r, newR);
      InvLoop(newT, t - q * newT, newR, r - q * newR)
  }

  /** `e.modInv(phi)` as the big-integer library computes it for a non-negative e: the last
      coefficient of extended Euclid on (phi, e), moved up by phi when it is negative, and
      none (the library throws) unless the last remainder is 1 or -1. */
  function ModInverse(e: nat, m: int): Option<int>
  {
    var f := InvLoop(0, 1, m, e);
    if f.1 != 1 && f.1 != -1 then None
    else Some(if f.0 < 0 then f.0 + m else f.0)
  }

  /** What each turn of the loop keeps: the gcd of the remainders, each remainder congruent
      to its coefficient times e, and, for a positive modulus, non-negative remainders whose
      coefficients alternate in sign and are small against m. */
  predicate InvState(e: nat, m: int, t: int, newT: int, r: int, newR: int)
  {
    m != 0
    && Gcd(Abs(r), Abs(newR)) == Gcd(Abs(m), e)
    && (r - t * e) % Abs(m) == 0 && (newR - newT * e) % Abs(m) == 0
    && (m > 0 ==>
          r >= 0 && newR >= 0 && t * newT <= 0
          && Abs(newT) * r + Abs(t) * newR == m
          && (newR < r || r == m)
          && (r == 1 && m >= 2 ==> Abs(t) < m))
  }

  /** A combination of two multiples of M is a multiple of M. */
  lemma MultipleCombine(x: int, y: int, q: int, mm: int)
    requires mm > 0 && x % mm == 0 && y % mm == 0
    ensures (x - q * y) % mm == 0
  {
    var a, b := x / mm, y / mm;
    assert x == a * mm && y == b * mm;
    MulAssoc(q, b, mm);
    SubMul(a, q * b, mm);
    ModUnique(x - q * y, mm, a - q * b, 0);
  }

  /** One step of extended Euclid keeps each remainder congruent to its coefficient of e. */
  lemma CongruenceStep(e: int, t: int, newT: int, r: int, newR: int, q: int, mm: int)
    requires mm > 0 && (r - t * e) % mm == 0 && (newR - newT * e) % mm == 0
    ensures ((r - q * newR) - (t - q * newT) * e) % mm == 0
  {
    var x, y := r - t * e, newR - newT * e;
    assert (r - q * newR) - (t - q * newT) * e == x - q * y by {
      assert q * y == q * newR - q * (newT * e);
      assert (t - q * newT) * e == t * e - (q * newT) * e;
      MulAssoc(q, newT, e);
    }
    MultipleCombine(x, y, q, mm);
  }

  lemma InvStep(e: nat, m: int, t: int, newT: int, r: int, newR: int)
    requires InvState(e, m, t, newT, r, newR) && newR != 0
    ensures var q := Quot(r, newR);
            InvState(e, m, newT, t - q * newT, newR, r - q * newR)
  {
    QuotRem(r, newR);
    var q := Quot(r, newR);
    assert Gcd(Abs(r), Abs(newR)) == Gcd(Abs(newR), Abs(r) % Abs(newR));
    CongruenceStep(e, t, newT, r, newR, q, Abs(m));
    if m > 0 {
      PositiveStep(m, t, newT, r, newR, q);
    }
  }

  /** Coefficients of opposite signs: subtracting a non-negative multiple of one from the
      other adds the magnitudes, and the signs still alternate. */
  lemma AbsStep(t: int, newT: int, q: int)
    requires t * newT <= 0 && q >= 0
    ensures Abs(t - q * newT) == Abs(t) + q * Abs(newT)
    ensures newT * (t - q * newT) <= 0
  {
    if newT > 0 {
      assert t <= 0;
      assert q * newT >= 0;
    } else if newT < 0 {
      assert t >= 0;
      assert q * newT <= 0;
      assert q * Abs(newT) == -(q * newT);
    }
    assert newT * (t - q * newT) == newT * t - q * (newT * newT);
  }

  /** The weighted sum of the coefficients stays m. */
  lemma WeightStep(a: int, b: int, q: int, r: int, newR: int, m: int)
    requires b * r + a * newR == m
    ensures (a + q * b) * newR + b * (r - q * newR) == m
  {
    assert (a + q * b) * newR == a * newR + (q * b) * newR;
    assert b * (r - q * newR) == b * r - b * (q * newR);
    MulAssoc(b, q, newR);
    MulAssoc(q, b, newR);
    MulComm(q * b, newR);
    MulComm(b * q, newR);
  }

  /** The bounds on the coefficients for a positive modulus. */
  lemma PositiveStep(m: int, t: int, newT: int, r: int, newR: int, q: int)
    requires m > 0 && r >= 0 && newR > 0 && q == r / newR
    requires t * newT <= 0 && Abs(newT) * r + Abs(t) * newR == m
    requires newR < r || r == m
    ensures var t', r' := t - q * newT, r - q * newR;
            r' >= 0 && newT * t' <= 0 && Abs(t') * newR + Abs(newT) * r' == m
            && r' < newR && (newR == 1 && m >= 2 ==> Abs(newT) < m)
  {
    RemainderStep(r, newR, q);
    CoefficientStep(m, t, newT, r, newR, q);
    if newR == 1 && m >= 2 {
      UnitBound(Abs(newT), r, Abs(t), m);
    }
  }

  lemma RemainderStep(r: int, newR: int, q: int)
    requires r >= 0 && newR > 0 && q == r / newR
    ensures 0 <= r - q * newR < newR && q >= 0
  {
    assert r - q * newR == r % newR;
  }

  lemma CoefficientStep(m: int, t: int, newT: int, r: int, newR: int, q: int)
    requires q >= 0 && t * newT <= 0 && Abs(newT) * r + Abs(t) * newR == m
    ensures var t' := t - q * newT;
            newT * t' <= 0 && Abs(t') * newR + Abs(newT) * (r - q * newR) == m
  {
    AbsStep(t, newT, q);
    WeightStep(Abs(t), Abs(newT), q, r, newR, m);
  }

  /** With b·r + a = m and r ≥ 2, b is below m. */
  lemma UnitBound(b: nat, r: int, a: nat, m: int)
    requires m >= 2 && b * r + a * 1 == m && (1 < r || r == m)
    ensures b < m
  {
    assert b * r >= b * 2;
  }

  /** The loop ends with the gcd of m and e up to sign, congruent to its coefficient times e;
      for a positive modulus the remainder is non-negative and a unit's coefficient is
      below m in size. */
  lemma {:induction false} InvLoopEnds(e: nat, m: int, t: int, newT: int, r: int, newR: int)
    requires InvState(e, m, t, newT, r, newR)
    ensures var f := InvLoop(t, newT, r, newR);
            Abs(f.1) == Gcd(Abs(m), e) && (f.1 - f.0 * e) % Abs(m) == 0
            && (m > 0 ==> f.1 >= 0 && (f.1 == 1 && m >= 2 ==> Abs(f.0) < m))
    decreases Abs(newR)
  {
    if newR == 0 {
      assert Gcd(Abs(r), 0) == Abs(r);
    } else {
      InvStep(e, m, t, newT, r, newR);
      QuotRem(r, newR);
      var q := Quot(r, newR);
      InvLoopEnds(e, m, newT, t - q * newT, newR, r - q * newR);
    }
  }

  /** The loop starts from a state that satisfies its invariant. */
  lemma InvStart(e: nat, m: int)
    requires m != 0
    ensures InvState(e, m, 0, 1, m, e)
  {
    ModUnique(m, Abs(m), if m > 0 then 1 else -1, 0);
    ModUnique(0, Abs(m), 0, 0);
  }

  /** Modulo 1 the library gives 1 for e = 1 and 0 for every other e. */
  lemma InverseModOne(e: nat)
    ensures ModInverse(e, 1) == Some(if e == 1 then 1 else 0)
  {
    if e == 0 {
    } else if e == 1 {
      assert Quot(1, 1) == 1;
      assert InvLoop(0, 1, 1, 1) == InvLoop(1, -1, 1, 0);
    } else {
      assert Quot(1, e) == 0;
      assert InvLoop(0, 1, 1, e) == InvLoop(1, 0, e, 1);
      assert Quot(e, 1) == e;
      assert InvLoop(1, 0, e, 1) == InvLoop(0, 1, 1, 0);
    }
  }

  /** Modulo 0, only 1 has an inverse, itself. */
  lemma InverseModZero(e: nat)
    ensures ModInverse(e, 0) == if e == 1 then Some(1) else None
  {
    if e > 0 {
      assert Quot(0, e) == 0;
      assert InvLoop(0, 1, 0, e) == InvLoop(1, 0, e, 0);
    }
  }

  lemma GcdOne(e: nat)
    ensures Gcd(1, e) == 1
  {
    if e > 1 {
      assert Gcd(1, e) == Gcd(e, 1) by {
        assert 1 % e == 1;
      }
      assert Gcd(e, 1) == Gcd(1, 0) by {
        assert e % 1 == 0;
      }
    }
  }

  lemma GcdZero(e: nat)
    ensures Gcd(0, e) == e
  {
    if e > 0 {
      assert Gcd(0, e) == Gcd(e, 0);
    }
  }

  /** The library's inverse: it exists exactly when e and the modulus are coprime. For a
      modulus of at least 2 it is the inverse of e below the modulus; modulo 1 it is 1 for
      e = 1 and 0 otherwise; modulo 0 only 1 is invertible; for a negative modulus M the
      result times e is 1 or -1 modulo |M|. */
  lemma ModInverseSpec(e: nat, m: int)
    ensures ModInverse(e, m).Some? <==> Gcd(Abs(m), e) == 1
    ensures m >= 2 && ModInverse(e, m).Some? ==>
              0 <= ModInverse(e, m).value < m && (ModInverse(e, m).value * e) % m == 1
    ensures m == 1 ==> ModInverse(e, m) == Some(if e == 1 then 1 else 0)
    ensures m == 0 ==> ModInverse(e, m) == if e == 1 then Some(1) else None
    ensures m < 0 && ModInverse(e, m).Some? ==>
              var x := ModInverse(e, m).value * e;
              (x - 1) % -m == 0 || (x + 1) % -m == 0
  {
    if m == 0 {
      InverseModZero(e);
      GcdZero(e);
    } else if m == 1 {
      InverseModOne(e);
      GcdOne(e);
    } else {
      InvStart(e, m);
      InvLoopEnds(e, m, 0, 1, m, e);
      var f := InvLoop(0, 1, m, e);
      if f.1 == 1 || f.1 == -1 {
        InverseResidue(e, m, f.0, f.1);
      }
    }
  }

  /** Moving the coefficient up by m keeps its residue; for m ≥ 2 a unit remainder 1 makes
      the result the inverse of e below m. */
  lemma InverseResidue(e: nat, m: int, t: int, g: int)
    requires m != 0 && m != 1 && (g == 1 || g == -1) && (g - t * e) % Abs(m) == 0
    requires m > 0 ==> g >= 0 && Abs(t) < m
    ensures var d := if t < 0 then t + m else t;
            (m >= 2 ==> 0 <= d < m && (d * e) % m == 1)
            && (m < 0 ==> (d * e - 1) % -m == 0 || (d * e + 1) % -m == 0)
  {
    var d := if t < 0 then t + m else t;
    var mm := Abs(m);
    var k := (g - t * e) / mm;
    assert g - t * e == k * mm;
    var s := if t < 0 then e else 0;
    assert d * e == t * e + s * m by {
      if t < 0 {
        assert (t + m) * e == t * e + m * e;
      }
    }
    if m >= 2 {
      UnitResidue(d * e, t * e, k, s, m);
    } else {
      NegativeResidue(d * e, t * e, g, k, s, m);
    }
  }

  lemma UnitResidue(x: int, y: int, k: int, s: int, m: int)
    requires m >= 2 && 1 - y == k * m && x == y + s * m
    ensures x % m == 1
  {
    SubMul(s, k, m);
    ModUnique(x, m, s - k, 1);
  }

  lemma NegativeResidue(x: int, y: int, g: int, k: int, s: int, m: int)
    requires m < 0 && g - y == k * -m && x == y + s * m
    ensures (x - g) % -m == 0
  {
    assert s * m == (-s) * -m;
    SubMul(-s, k, -m);
    ModUnique(x - g, -m, -s - k, 0);
  }

  /** When e and the modulus share a factor, no d at all satisfies d·e ≡ 1. */
  lemma NoInverse(e: nat, m: nat, d: int)
    requires m >= 1 && Gcd(m, e) != 1
    ensures (d * e) % m != 1 % m
  {
    GcdDivides(m, e);
    var g := Gcd(m, e);
    if (d * e) % m == 1 % m {
      ModulusAtLeast(m, g);
      ModUnique(1, m, 0, 1);
      var k := (d * e) / m;
      assert d * e - k * m == 1;
      FactorDivides(d, e, g);
      NoUnitCombination(d * e, m, k, g);
    }
  }

  lemma ModulusAtLeast(m: int, g: int)
    requires m > 0 && g > 0 && m % g == 0
    ensures m >= g
  {
    var v := m / g;
    assert m == v * g;
    MulGrows(v, g);
  }

  lemma FactorDivides(d: int, e: int, g: int)
    requires g > 0 && e % g == 0
    ensures (d * e) % g == 0
  {
    var u := e / g;
    assert e == u * g;
    MulAssoc(d, u, g);
    ModUnique(d * e, g, d * u, 0);
  }

  /** A combination of two multiples of g ≥ 2 is never 1. */
  lemma NoUnitCombination(x: int, m: int, k: int, g: int)
    requires g >= 2 && x % g == 0 && m % g == 0
    ensures x - k * m != 1
  {
    var u, v := x / g, m / g;
    assert x == u * g && m == v * g;
    MulAssoc(k, v, g);
    SubMul(u, k * v, g);
    MulGrows(u - k * v, g);
  }

  // ---------------------------------------------------------------- key calculation

  /** What the private-exponent field shows: the exponent, or the not-coprime message. */
  datatype Exponent = Exponent(d: int) | NotCoprime

  datatype KeyView = KeyView(n: nat, phi: int, d: Exponent)

  /** `calculateKeys` as written: nothing happens unless p, q and e are all given; a d that
      prints as "0" is shown as the not-coprime error. */
  function CalculateKeysAsWritten(p: Option<nat>, q: Option<nat>, e: Option<nat>): (r: Option<KeyView>)
    ensures r.Some? <==> p.Some? && q.Some? && e.Some?
    ensures r.Some? ==> r.value.n == p.value * q.value && r.value.phi == (p.value - 1) * (q.value - 1)
  {
    if p.None? || q.None? || e.None? then None
    else
      var n := p.value * q.value;
      var phi := (p.value - 1) * (q.value - 1);
      var d := match ModInverse(e.value, phi) case Some(x) => x case None => 0;
      Some(KeyView(n, phi, if d == 0 then NotCoprime else Exponent(d)))
  }

  /** Modulo 1 the library's inverse of every e other than 1 is 0, so the page calls e "not
      coprime": p = q = 2, e = 3. */
  lemma UnitPhiMisreported()
    ensures Gcd((2 - 1) * (2 - 1), 3) == 1
    ensures CalculateKeysAsWritten(Some(2), Some(2), Some(3)).value.d == NotCoprime
  {
    InverseModOne(3);
    GcdOne(3);
  }

  /** `calculateKeys` with the not-coprime message shown exactly when there is no inverse. */
  function CalculateKeys(p: Option<nat>, q: Option<nat>, e: Option<nat>): (r: Option<KeyView>)
    ensures r.Some? <==> p.Some? && q.Some? && e.Some?
    ensures r.Some? ==> r.value.n == p.value * q.value && r.value.phi == (p.value - 1) * (q.value - 1)
  {
    if p.None? || q.None? || e.None? then None
    else
      var n := p.value * q.value;
      var phi := (p.value - 1) * (q.value - 1);
      var d := match ModInverse(e.value, phi) case Some(x) => Exponent(x) case None => NotCoprime;
      Some(KeyView(n, phi, d))
  }

  /** The message is shown exactly when e and φ(n) share a factor; otherwise, for φ(n) ≥ 2,
      the exponent shown is the inverse of e below φ(n). A zero p or q makes φ(n) zero or
      negative: for φ(n) = 0 only e = 1 has an exponent. */
  lemma CalculateKeysExponent(p: nat, q: nat, e: nat)
    ensures var v := CalculateKeys(Some(p), Some(q), Some(e)).value;
            var phi := (p - 1) * (q - 1);
            (v.d.NotCoprime? <==> Gcd(Abs(phi), e) != 1)
            && (phi >= 2 && v.d.Exponent? ==> 0 <= v.d.d < phi && (v.d.d * e) % phi == 1)
            && (phi == 1 ==> v.d == Exponent(if e == 1 then 1 else 0))
            && (phi == 0 ==> (v.d.NotCoprime? <==> e != 1))
  {
    ModInverseSpec(e, (p - 1) * (q - 1));
  }

  // ---------------------------------------------------------------- modular power

  lemma {:induction false} PowSquare(b: nat, h: nat)
    ensures Pow(b, 2 * h) == Pow(b * b, h)
    ensures Pow(b, 2 * h + 1) == b * Pow(b * b, h)
    decreases h
  {
    if h > 0 {
      PowSquare(b, h - 1);
      var p := Pow(b * b, h - 1);
      assert Pow(b, 2 * h) == b * Pow(b, 2 * (h - 1) + 1);
      assert Pow(b, 2 * (h - 1) + 1) == b * p;
      MulAssoc(b, b, p);
      assert Pow(b * b, h) == (b * b) * p;
    }
  }

  /** Congruent factors give congruent products. */
  lemma MulCongruence(a: int, x: int, y: int, m: int)
    requires m > 0 && x % m == y % m
    ensures (a * x) % m == (a * y) % m
  {
    MulModRight(a, x, m);
    MulModRight(a, y, m);
  }

  lemma MulModLeft(a: int, x: int, m: int)
    requires m > 0
    ensures ((a % m) * x) % m == (a * x) % m
  {
    MulModRight(x, a, m);
    MulComm(a % m, x);
    MulComm(a, x);
  }

  /** Reducing the base first does not change the residue of a power. */
  lemma {:induction false} PowMod(x: nat, k: nat, m: nat)
    requires m >= 1
    ensures Pow(x % m, k) % m == Pow(x, k) % m
    decreases k
  {
    if k > 0 {
      PowMod(x, k - 1, m);
      var a, b := Pow(x % m, k - 1), Pow(x, k - 1);
      assert Pow(x % m, k) == (x % m) * a;
      assert Pow(x, k) == x * b;
      MulCongruence(x % m, a, b, m);
      MulModLeft(x, b, m);
    }
  }

  /** Right-to-left square-and-multiply from an accumulated result `r`, as the library's
      `modPow` loop runs it: a zero base ends the loop with 0, an odd exponent multiplies
      the base in, and the base is squared for the next bit. */
  function ModPowFrom(r: nat, b: nat, k: nat, m: nat): (x: nat)
    requires m >= 1
    ensures k > 0 ==> x < m
    ensures k == 0 ==> x == r
    decreases k
  {
    if k == 0 then r
    else if b == 0 then 0
    else
      var r' := if k % 2 == 1 then (r * b) % m else r;
      ModPowFrom(r', (b * b) % m, k / 2, m)
  }

  lemma PowZero(k: nat)
    requires k > 0
    ensures Pow(0, k) == 0
  {
  }

  lemma {:induction false} ModPowFromValue(r: nat, b: nat, k: nat, m: nat)
    requires m >= 1
    ensures k > 0 ==> ModPowFrom(r, b, k, m) == (r * Pow(b, k)) % m
    decreases k
  {
    if k > 0 && b == 0 {
      PowZero(k);
    } else if k > 0 {
      var h := k / 2;
      var b2 := (b * b) % m;
      var r' := if k % 2 == 1 then (r * b) % m else r;
      PowSquare(b, h);
      var q := Pow(b * b, h);
      if h == 0 {
        assert k == 1 && q == 1;
        assert Pow(b, k) == b;
      } else {
        ModPowFromValue(r', b2, h, m);
        PowMod(b * b, h, m);
        MulCongruence(r', Pow(b2, h), q, m);
        if k % 2 == 1 {
          assert k == 2 * h + 1;
          MulModLeft(r * b, q, m);
          MulAssoc(r, b, q);
        } else {
          assert k == 2 * h;
        }
      }
    }
  }

  /** `c.modPow(d, n)` for a positive modulus: the loop starts from 1 and the base c mod n. */
  function ModPow(c: nat, d: nat, n: nat): (m: nat)
    requires n >= 1
    ensures m < n || (d == 0 && m == 1)
  {
    ModPowFrom(1, c % n, d, n)
  }

  /** Square-and-multiply computes the power's residue, except that a zero exponent gives
      1 even modulo 1. */
  lemma ModPowValue(c: nat, d: nat, n: nat)
    requires n >= 1
    ensures ModPow(c, d, n) == if d == 0 then 1 else Pow(c, d) % n
  {
    if d > 0 {
      ModPowFromValue(1, c % n, d, n);
      PowMod(c, d, n);
    }
  }

  /** The same computation as the library's loop. */
  method ModPowLoop(c: nat, d: nat, n: nat) returns (r: nat)
    requires n >= 1
    ensures r == if d == 0 then 1 else Pow(c, d) % n
  {
    ModPowValue(c, d, n);
    r := 1;
    var b: nat := c % n;
    var k := d;
    while k > 0
      invariant ModPowFrom(r, b, k, n) == ModPow(c, d, n)
      decreases k
    {
      if b == 0 {
        return 0;
      }
      if k % 2 == 1 {
        r := (r * b) % n;
      }
      b := (b * b) % n;
      k := k / 2;
    }
  }

  // ---------------------------------------------------------------- integer to text

  /** `m.toString(16)`, with a "0" put in front when its length is odd. */
  function EvenHex(m: nat): (h: string)
    ensures |h| % 2 == 0 && |h| >= 2
  {
    var h := RadixString(m, 16);
    if |h| % 2 != 0 then "0" + h else h
  }

  lemma Halve(n: nat)
    requires n % 2 == 0
    ensures 2 * (n / 2) == n
  {
  }

  /** `String.fromCharCode(parseInt(hex.substr(2 * i, 2), 16))`. */
  function PairUnit(h: string, i: nat): CodeUnit
    requires 2 * i + 2 <= |h|
  {
    FromCharCode(ParseInt(Utf16(h[2 * i..2 * i + 2]), 16))
  }

  /** The loop over the pairs of hex digits: one character per pair. */
  function MessageText(m: nat): (u: seq<CodeUnit>)
    ensures 2 * |u| == |EvenHex(m)|
  {
    var h := EvenHex(m);
    Halve(|h|);
    seq(|h| / 2, i requires 0 <= i < |h| / 2 => PairUnit(h, i))
  }

  /** Two hex digits read as a byte. */
  function PairUp(ds: seq<nat>): (bs: seq<nat>)
    requires |ds| % 2 == 0 && IsDigits(ds, 16)
    ensures |bs| == |ds| / 2 && IsDigits(bs, 256)
  {
    seq(|ds| / 2, i requires 0 <= i < |ds| / 2 => 16 * ds[2 * i] + ds[2 * i + 1])
  }

  lemma {:induction false} PairUpValue(ds: seq<nat>)
    requires |ds| % 2 == 0 && IsDigits(ds, 16)
    ensures FromDigits(PairUp(ds), 256) == FromDigits(ds, 16)
    decreases |ds|
  {
    if |ds| > 0 {
      var k := |ds|;
      var pre := ds[..k - 2];
      PairUpValue(pre);
      var bs := PairUp(ds);
      assert bs[..|bs| - 1] == PairUp(pre);
      assert ds[..k - 1][..k - 2] == pre;
      var x := FromDigits(pre, 16);
      assert FromDigits(ds, 16) == (x * 16 + ds[k - 2]) * 16 + ds[k - 1];
      assert FromDigits(bs, 256) == x * 256 + (16 * ds[k - 2] + ds[k - 1]);
    }
  }

  lemma RadixStringDigits(m: nat)
    ensures AllDigits(RadixString(m, 16), 16)
    ensures DigitValues(RadixString(m, 16)) == ToDigits(m, 16)
  {
    var ds := ToDigits(m, 16);
    var h := RadixString(m, 16);
    forall i | 0 <= i < |h|
      ensures DigitValues(h)[i] == ds[i] && h[i] as int < 128 && DigitValue(h[i] as int) < 16
    {
      assert h[i] == DigitChar(ds[i]);
    }
  }

  /** A leading "0" changes neither digit-ness nor value. */
  lemma LeadingZero(h: string)
    requires AllDigits(h, 16)
    ensures AllDigits("0" + h, 16)
    ensures FromDigits(DigitValues("0" + h), 16) == FromDigits(DigitValues(h), 16)
  {
    var ds := DigitValues(h);
    assert DigitValues("0" + h) == [0] + ds;
    FromDigitsAppend([0], ds, 16);
    assert FromDigits([0], 16) == 0;
  }

  /** The digit values of the even-length spelling are m's hex digits, padded. */
  lemma EvenHexDigits(m: nat)
    ensures AllDigits(EvenHex(m), 16)
    ensures FromDigits(DigitValues(EvenHex(m)), 16) == m
  {
    var h := RadixString(m, 16);
    RadixStringDigits(m);
    if |h| % 2 != 0 {
      LeadingZero(h);
    }
  }

  lemma MessageTextPairs(m: nat)
    ensures AllDigits(EvenHex(m), 16)
    ensures MessageText(m) == PairUp(DigitValues(EvenHex(m)))
  {
    var h := EvenHex(m);
    EvenHexDigits(m);
    PairUnits(h, MessageText(m));
  }

  /** Reading the pairs one character at a time reads each pair as a byte. */
  lemma PairUnits(h: string, u: seq<CodeUnit>)
    requires AllDigits(h, 16) && |h| % 2 == 0 && 2 * |u| == |h|
    requires forall i :: 0 <= i < |u| ==> u[i] == PairUnit(h, i)
    ensures u == PairUp(DigitValues(h))
  {
    var bs := PairUp(DigitValues(h));
    forall i | 0 <= i < |bs|
      ensures u[i] == bs[i]
    {
      PairRead(h, i);
    }
  }

  lemma MessageTextZero()
    ensures MessageText(0) == [0]
  {
    assert ToDigits(0, 16) == [0];
    assert RadixString(0, 16) == "0";
    assert EvenHex(0) == "00";
    PairRead("00", 0);
  }

  /** The plaintext characters are m's big-endian bytes: each below 256, read as base-256
      digits they give m back, and zero is a single NUL character. */
  lemma MessageTextBytes(m: nat)
    ensures forall i :: 0 <= i < |MessageText(m)| ==> MessageText(m)[i] < 256
    ensures FromDigits(MessageText(m), 256) == m
    ensures m == 0 ==> MessageText(m) == [0]
  {
    MessageTextPairs(m);
    EvenHexDigits(m);
    PairUpValue(DigitValues(EvenHex(m)));
    if m == 0 {
      MessageTextZero();
    }
  }

  lemma PairRead(h: string, i: nat)
    requires AllDigits(h, 16) && |h| % 2 == 0 && i < |h| / 2
    ensures ParseInt(Utf16(h[2 * i..2 * i + 2]), 16)
            == Some(16 * DigitValue(h[2 * i] as int) + DigitValue(h[2 * i + 1] as int))
  {
    var p := h[2 * i..2 * i + 2];
    assert p[0] == h[2 * i] && p[1] == h[2 * i + 1];
    ParseIntPair(p, 16);
  }

  // ---------------------------------------------------------------- decryption

  datatype Decryption = Decrypted(m: nat, text: seq<CodeUnit>) | DecryptError

  /** `decryptMessage`: nothing unless c, d and n are all given; the error shown for a zero
      modulus, which `modPow` refuses; otherwise m = cᵈ mod n and its byte string. */
  function DecryptMessage(c: Option<nat>, d: Option<nat>, n: Option<nat>): (r: Option<Decryption>)
    ensures r.Some? <==> c.Some? && d.Some? && n.Some?
    ensures r.Some? ==> (r.value.DecryptError? <==> n.value == 0)
  {
    if c.None? || d.None? || n.None? then None
    else if n.value == 0 then Some(DecryptError)
    else
      var m := ModPow(c.value, d.value, n.value);
      Some(Decrypted(m, MessageText(m)))
  }

  /** The decrypted number is cᵈ mod n, or 1 for d = 0, and the text spells it in base 256. */
  lemma DecryptMessageValue(c: nat, d: nat, n: nat)
    requires n >= 1
    ensures var r := DecryptMessage(Some(c), Some(d), Some(n)).value;
            r.Decrypted? && r.m == (if d == 0 then 1 else Pow(c, d) % n)
            && FromDigits(r.text, 256) == r.m
  {
    ModPowValue(c, d, n);
    MessageTextBytes(ModPow(c, d, n));
  }
}
