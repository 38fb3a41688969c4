/** The products of the two small fields are products of polynomials modulo x^10 + x^3 + 1 (the field of the RS(544,514)
    code) and modulo x^8 + x^4 + x^3 + x + 1 (FIPS 197, section 4.2). */
module FieldProducts {
  import opened Arithmetic
  import opened XorNat
  import opened Gf2
  import opened BitFields
  import opened GF1024
  import AesField

  const FEC_FIELD: nat := Pow2(10) + Pow2(3) + 1
  const AES_FIELD: nat := Pow2(8) + Pow2(4) + Pow2(3) + Pow2(1) + 1

  lemma Degrees()
    ensures FEC_FIELD == 1024 + 8 + 1 && HasDegree(FEC_FIELD, 10) && Pow2(10) == 1024
    ensures AES_FIELD == 256 + 16 + 8 + 2 + 1 && HasDegree(AES_FIELD, 8) && Pow2(8) == 256
  {
    assert Pow2(1) == 2 && Pow2(3) == 8 && Pow2(4) == 16 && Pow2(8) == 256 && Pow2(10) == 1024;
  }

  /** x n for one factor and n for the other is x times the product. */
  lemma {:induction false} DoubleLeft(m: nat, b: nat)
    ensures Times(2 * m, b) == 2 * Times(m, b)
    decreases b
  {
    if b > 0 {
      hide Times, Xor;
      DoubleLeft(m, b / 2);
      TimesStep(m, b);
      TimesStep(2 * m, b);
      XorDouble(if b % 2 == 1 then m else 0, 2 * Times(m, b / 2));
    } else {
      TimesNone(m);
      TimesNone(2 * m);
    }
  }

  lemma Times2Reduces(n: nat, a: Symbol)
    requires IsRemainder(n, FEC_FIELD, 10, a)
    ensures IsRemainder(2 * n, FEC_FIELD, 10, Times2(a))
  {
    Degrees();
    hide Xor, Pow2, IsRemainder, HasDegree;
    RemainderDoubles(n, FEC_FIELD, 10, a);
  }

  /** The product with the symbol a, where a is the remainder of m, is the remainder of the product with m. */
  lemma {:induction false} MulReduces(m: nat, a: Symbol, b: Symbol)
    requires IsRemainder(m, FEC_FIELD, 10, a)
    ensures IsRemainder(Times(m, b), FEC_FIELD, 10, Mul(a, b))
    decreases b
  {
    Degrees();
    hide Times, Pow2, Xor, IsRemainder, Times2, FEC_FIELD;
    SmallRemainder(0, FEC_FIELD, 10);
    if b == 0 {
      TimesNone(m);
    } else {
      Times2Reduces(m, a);
      MulReduces(2 * m, Times2(a), b / 2);
      DoubleLeft(m, b / 2);
      TimesStep(m, b);
      RemaindersAdd(if b % 2 == 1 then m else 0, 2 * Times(m, b / 2), FEC_FIELD, 10,
                    if b % 2 == 1 then a else 0, Mul(Times2(a), b / 2));
    }
  }

  /** The product of two symbols is what division of their product as polynomials by x^10 + x^3 + 1 leaves. */
  lemma SymbolProduct(a: Symbol, b: Symbol)
    ensures IsRemainder(Times(a, b), FEC_FIELD, 10, Mul(a, b))
  {
    Degrees();
    hide Times, Mul, IsRemainder;
    SmallRemainder(a, FEC_FIELD, 10);
    MulReduces(a, a, b);
  }

  /** Entry n of the antilog table is the remainder of x^n. */
  lemma {:induction false} PowerOfX(n: nat)
    ensures IsRemainder(Pow2(n), FEC_FIELD, 10, Exp(n))
  {
    Degrees();
    hide IsRemainder, Times2;
    if n == 0 {
      SmallRemainder(1, FEC_FIELD, 10);
    } else {
      PowerOfX(n - 1);
      Times2Reduces(Pow2(n - 1), Exp(n - 1));
    }
  }

  lemma XtReduces(n: nat, a: Byte)
    requires IsRemainder(n, AES_FIELD, 8, a)
    ensures IsRemainder(2 * n, AES_FIELD, 8, AesField.Xt(a))
  {
    Degrees();
    hide Xor, Pow2, IsRemainder, HasDegree;
    RemainderDoubles(n, AES_FIELD, 8, a);
  }

  lemma {:induction false} GmulReduces(m: nat, a: Byte, b: nat)
    requires IsRemainder(m, AES_FIELD, 8, a)
    ensures IsRemainder(Times(m, b), AES_FIELD, 8, AesField.GmulOf(a, b))
    decreases b
  {
    Degrees();
    hide Times, Pow2, Xor, IsRemainder, AesField.Xt, AES_FIELD;
    SmallRemainder(0, AES_FIELD, 8);
    if b == 0 {
      TimesNone(m);
    } else {
      XtReduces(m, a);
      GmulReduces(2 * m, AesField.Xt(a), b / 2);
      DoubleLeft(m, b / 2);
      TimesStep(m, b);
      RemaindersAdd(if b % 2 == 1 then m else 0, 2 * Times(m, b / 2), AES_FIELD, 8,
                    if b % 2 == 1 then a else 0, AesField.GmulOf(AesField.Xt(a), b / 2));
    }
  }

  /** The product of two bytes is what division of their product as polynomials by x^8 + x^4 + x^3 + x + 1 leaves. */
  lemma ByteProduct(a: Byte, b: Byte)
    ensures IsRemainder(Times(a, b), AES_FIELD, 8, AesField.GmulOf(a, b))
  {
    Degrees();
    hide Times, AesField.GmulOf, IsRemainder;
    SmallRemainder(a, AES_FIELD, 8);
    GmulReduces(a, a, b);
  }
}
