/** The product of scripts/aes_gcm/gcm_ref.py is the product of polynomials modulo x^128 + x^7 + x^2 + x + 1, where bit
    127 - k of a block is the coefficient of x^k (SP 800-38D, section 6.3). */
module GhashField {
  import opened Arithmetic
  import opened XorNat
  import opened MaskTables
  import opened Gf2
  import opened Ghash

  const FIELD: nat := Pow2(128) + Pow2(7) + Pow2(2) + Pow2(1) + 1

  /** The polynomial of the first n bits of a block, the leftmost the coefficient of x^0. */
  function Coefficients(v: nat, n: nat): nat
    requires n <= 128
  {
    if n == 0 then 0 else Xor(Coefficients(v, n - 1), if BitAt(v, 128 - n) == 1 then Pow2(n - 1) else 0)
  }

  function Polynomial(v: nat): nat {
    Coefficients(v, 128)
  }

  lemma {:induction false} CoefficientsBound(v: nat, n: nat)
    requires n <= 128
    ensures Coefficients(v, n) < Pow2(n)
  {
    hide Xor, BitAt;
    if n > 0 {
      CoefficientsBound(v, n - 1);
      XorBound(Coefficients(v, n - 1), if BitAt(v, 128 - n) == 1 then Pow2(n - 1) else 0, n);
    }
  }

  lemma {:induction false} CoefficientsAdd(a: nat, b: nat, n: nat)
    requires n <= 128
    ensures Coefficients(Xor(a, b), n) == Xor(Coefficients(a, n), Coefficients(b, n))
  {
    XorZero(0);
    hide Xor, BitAt, Pow2;
    if n > 0 {
      CoefficientsAdd(a, b, n - 1);
      BitOfXor(a, b, 128 - n);
      var i, j, p := BitAt(a, 128 - n), BitAt(b, 128 - n), Pow2(n - 1);
      Chosen(p, i, j);
      Exchange(Coefficients(a, n - 1), if i == 1 then p else 0, Coefficients(b, n - 1), if j == 1 then p else 0);
    }
  }

  lemma {:induction false} CoefficientsOfPower(k: nat, n: nat)
    requires k < 128 && n <= 128
    ensures Coefficients(Pow2(127 - k), n) == if k < n then Pow2(k) else 0
  {
    hide Xor, BitAt, Pow2;
    if n > 0 {
      CoefficientsOfPower(k, n - 1);
      BitOfPow2(127 - k, 128 - n);
      XorZero(Pow2(k));
      XorZero(0);
    }
  }

  /** The lower half of a block has its coefficients one power up. */
  lemma {:induction false} CoefficientsUp(v: nat, n: nat)
    requires IsBlock(v) && n < 128
    ensures Coefficients(v / 2, n + 1) == 2 * Coefficients(v, n)
  {
    hide Xor, Pow2;
    var i := BitAt(v / 2, 127 - n);
    assert i == BitAt(v, 128 - n);
    if n == 0 {
      BitBeyond(v, 128);
      XorZero(0);
    } else {
      CoefficientsUp(v, n - 1);
      var c, p := Coefficients(v, n - 1), Pow2(n - 1);
      assert Pow2(n) == 2 * p by { Step(n); }
      hide BitAt;
      XorDouble(c, if i == 1 then p else 0);
    }
  }

  lemma Step(n: nat)
    requires n > 0
    ensures Pow2(n) == 2 * Pow2(n - 1)
  {}

  lemma Low7()
    ensures FIELD == Pow2(128) + 135 && Xor(Xor(1, 2), Xor(4, 128)) == 135 && 135 < Pow2(128)
    ensures Pow2(0) == 1 && Pow2(1) == 2 && Pow2(2) == 4 && Pow2(7) == 128
  {
    LowPowers();
    hide Pow2;
    PowMono(8, 128);
    assert Xor(1, 2) == 3 && Xor(4, 128) == 132 && Xor(3, 132) == 135;
  }

  lemma LowPowers()
    ensures Pow2(0) == 1 && Pow2(1) == 2 && Pow2(2) == 4 && Pow2(7) == 128 && Pow2(8) == 256
  {}

  lemma FieldDegree()
    ensures HasDegree(FIELD, 128)
  {
    Low7();
    hide Pow2;
  }

  lemma PolynomialOfR()
    ensures Polynomial(R) == 135
  {
    Low7();
    hide Xor, Pow2, Coefficients;
    var a, b, c, d := Pow2(127), Pow2(126), Pow2(125), Pow2(120);
    RIsSum(a, b, c, d);
    CoefficientsAdd(Xor(a, b), Xor(c, d), 128);
    CoefficientsAdd(a, b, 128);
    CoefficientsAdd(c, d, 128);
    CoefficientsOfPower(0, 128);
    CoefficientsOfPower(1, 128);
    CoefficientsOfPower(2, 128);
    CoefficientsOfPower(7, 128);
  }

  /** Halving a block multiplies its polynomial by x and reduces it. */
  lemma HalfReduces(v: nat, n: nat)
    requires IsBlock(v) && IsRemainder(n, FIELD, 128, Polynomial(v))
    ensures IsRemainder(2 * n, FIELD, 128, Polynomial(Half(v)))
  {
    FieldDegree();
    RemainderDoubles(n, FIELD, 128, Polynomial(v));
    HalfPolynomial(v);
  }

  lemma HalfPolynomial(v: nat)
    requires IsBlock(v)
    ensures var p := Polynomial(v);
      Polynomial(Half(v)) == if 2 * p >= Pow2(128) then Xor(2 * p, FIELD) else 2 * p
  {
    hide *;
    TopCoefficient(v);
    Low7();
    HalfIs(v);
    PolynomialAdds(v / 2, R);
    PolynomialOfR();
    Reduces(Coefficients(v, 127), Pow2(127), Pow2(128), v % 2 == 1);
  }

  lemma HalfIs(v: nat)
    ensures Half(v) == if v % 2 == 1 then Xor(v / 2, R) else v / 2
  {
    hide Xor;
  }

  /** Doubling a polynomial with the terms low and, if there is one, x^127. */
  lemma Reduces(low: nat, t: nat, u: nat, top: bool)
    requires low < t && t == Pow2(127) && u == Pow2(128) && u == 2 * t && 135 < u && FIELD == u + 135
    ensures var p := low + (if top then t else 0);
      (if top then Xor(2 * low, 135) else 2 * low) == if 2 * p >= u then Xor(2 * p, FIELD) else 2 * p
  {
    hide Xor, Pow2, FIELD;
    CarryCancels(2 * low, 135, 128);
  }

  lemma PolynomialAdds(a: nat, b: nat)
    ensures Polynomial(Xor(a, b)) == Xor(Polynomial(a), Polynomial(b))
  {
    CoefficientsAdd(a, b, 128);
  }

  /** The last bit is the coefficient of x^127. */
  lemma TopCoefficient(v: nat)
    requires IsBlock(v)
    ensures var low := Coefficients(v, 127);
      && Polynomial(v) == low + (if v % 2 == 1 then Pow2(127) else 0) && low < Pow2(127)
      && Polynomial(v / 2) == 2 * low && Pow2(128) == 2 * Pow2(127)
  {
    CoefficientsBound(v, 127);
    CoefficientsUp(v, 127);
    Step(128);
    assert BitAt(v, 0) == v % 2;
    hide Xor, Pow2, BitAt;
    var low := Coefficients(v, 127);
    XorHigh(low, 127);
    XorZero(low);
  }

  lemma {:induction false} HalvesReduceBy(v: nat, k: nat, n: nat)
    requires IsBlock(v) && n == Polynomial(v)
    ensures IsRemainder(n * Pow2(k), FIELD, 128, Polynomial(Halves(v, k)))
    decreases k
  {
    hide Half, IsRemainder, Polynomial;
    if k == 0 {
      CoefficientsBound(v, 128);
      SmallRemainder(n, FIELD, 128) by { PolynomialMeans(v); }
    } else {
      HalvesReduceBy(v, k - 1, n);
      HalvesBlock(v, k - 1);
      HalfReduces(Halves(v, k - 1), n * Pow2(k - 1));
      assert n * Pow2(k) == 2 * (n * Pow2(k - 1));
    }
  }

  lemma PolynomialMeans(v: nat)
    ensures Polynomial(v) == Coefficients(v, 128)
  {}

  lemma {:induction false} TimesPower(a: nat, k: nat)
    ensures Times(a, Pow2(k)) == a * Pow2(k)
  {
    if k == 0 {
      TimesOne(a);
    } else {
      TimesPower(a, k - 1);
      TimesDouble(a, Pow2(k - 1));
      hide Times;
      assert a * Pow2(k) == 2 * (a * Pow2(k - 1));
    }
  }

  lemma {:induction false} PartialIsRemainder(x: nat, y: nat, n: nat)
    requires IsBlock(y) && n <= 128
    ensures IsRemainder(Times(Polynomial(y), Coefficients(x, n)), FIELD, 128, Polynomial(Partial(x, y, n)))
    decreases n
  {
    var p := Polynomial(y);
    if n == 0 {
      ZeroPolynomial();
      TimesNone(p);
      assert Pow2(128) > 0;
      SmallRemainder(0, FIELD, 128);
    } else {
      PartialIsRemainder(x, y, n - 1);
      HalvesReduceBy(y, n - 1, p);
      TimesPower(p, n - 1);
      hide Xor, Times, Pow2, IsRemainder, Polynomial, BitAt, Halves;
      var i, c := BitAt(x, 128 - n), Coefficients(x, n - 1);
      TimesAdds(p, c, if i == 1 then Pow2(n - 1) else 0);
      if i == 1 {
        RemaindersAdd(Times(p, c), Times(p, Pow2(n - 1)), FIELD, 128, Polynomial(Partial(x, y, n - 1)),
                      Polynomial(Halves(y, n - 1)));
        PolynomialAdds(Partial(x, y, n - 1), Halves(y, n - 1));
      } else {
        TimesNone(p);
        XorZero(Times(p, c));
      }
    }
  }

  lemma ZeroPolynomial()
    ensures Polynomial(0) == 0
  {
    ZeroCoefficients(128);
  }

  lemma {:induction false} ZeroCoefficients(n: nat)
    requires n <= 128
    ensures Coefficients(0, n) == 0
  {
    hide BitAt;
    if n > 0 {
      ZeroCoefficients(n - 1);
      NoBits(128 - n);
      XorZero(0);
    }
  }

  /** The product of two blocks is the product of their polynomials modulo the field polynomial. */
  lemma ProductIsRemainder(x: nat, y: nat)
    requires IsBlock(x) && IsBlock(y)
    ensures IsRemainder(Times(Polynomial(y), Polynomial(x)), FIELD, 128, Polynomial(GfMulOf(x, y)))
  {
    hide Xor, Times, Pow2, IsRemainder;
    PartialIsRemainder(x, y, 128);
  }

  /** Blocks with the same polynomial are the same. */
  lemma PolynomialDetermines(a: nat, b: nat)
    requires IsBlock(a) && IsBlock(b) && Polynomial(a) == Polynomial(b)
    ensures a == b
  {
    hide Xor, Pow2, Coefficients;
    PolynomialAdds(a, b);
    XorSame(Polynomial(a), Polynomial(b));
    XorBound(a, b, 128);
    if Xor(a, b) != 0 {
      NonzeroPolynomial(Xor(a, b));
    }
    XorSame(a, b);
  }

  lemma NonzeroPolynomial(v: nat)
    requires IsBlock(v) && v != 0
    ensures Polynomial(v) != 0
  {
    if Polynomial(v) == 0 {
      CoefficientsVanish(v, 128);
      hide BitAt, Pow2;
      LowVanishes(v, 128);
      LowIsAll(v, 128);
    }
  }

  lemma {:induction false} CoefficientsVanish(v: nat, n: nat)
    requires n <= 128 && Coefficients(v, n) == 0
    ensures forall i :: 128 - n <= i < 128 ==> BitAt(v, i) == 0
  {
    if n > 0 {
      var c := Coefficients(v, n - 1);
      CoefficientsBound(v, n - 1);
      hide Xor, Pow2, BitAt;
      XorHigh(c, n - 1);
      XorZero(c);
      assert Pow2(n - 1) > 0;
      CoefficientsVanish(v, n - 1);
    }
  }

  lemma {:induction false} LowVanishes(v: nat, n: nat)
    requires forall i :: 0 <= i < n ==> BitAt(v, i) == 0
    ensures Low(v, n) == 0
  {
    if n > 0 {
      LowVanishes(v, n - 1);
      LowSum(v, n - 1);
    } else {
      assert Low(v, 0) == 0;
    }
  }
}
