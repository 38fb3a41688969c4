/** The field GF(2^10) with x^10 + x^3 + 1 over which the RS(544,514) code works:
    symbols, their sum and product, and the powers of alpha = x. */
module GF1024 {
  import opened Arithmetic
  import opened XorNat

  /** A 10-bit symbol: bit k is the coefficient of x^k. */
  type Symbol = x: int | 0 <= x < 1024

  const PRIM: nat := 0x409   // x^10 + x^3 + 1

  function Add(a: Symbol, b: Symbol): Symbol {
    assert Pow2(10) == 1024;
    XorBound(a, b, 10);
    Xor(a, b)
  }

  /** Multiplication by x, one step of the table set-up loop: shift, and subtract PRIM on overflow. */
  function Times2(a: Symbol): Symbol {
    if 2 * a < 1024 then 2 * a
    else
      ReduceBound(a);
      Xor(2 * a, PRIM)
  }

  lemma ReduceBound(a: Symbol)
    requires 2 * a >= 1024
    ensures Xor(2 * a, PRIM) < 1024
  {
    assert Pow2(10) == 1024;
    XorTop(2 * a, PRIM, 10);
  }

  /** The product of two polynomials over GF(2) of degree below 10 modulo x^10 + x^3 + 1:
      the sum of x^k a over the terms x^k of b. */
  function Mul(a: Symbol, b: Symbol): Symbol
    decreases b, a
  {
    if b == 0 then 0
    else Add(if b % 2 == 1 then a else 0, Mul(Times2(a), b / 2))
  }

  /** Multiplication by x^n. */
  function TimesX(a: Symbol, n: nat): Symbol
    decreases n, a
  {
    if n == 0 then a else Times2(TimesX(a, n - 1))
  }

  /** The power x^n. */
  function Exp(n: nat): Symbol {
    TimesX(1, n)
  }

  // ---------- the sum ----------

  lemma AddComm(a: Symbol, b: Symbol)
    ensures Add(a, b) == Add(b, a)
  {
    XorComm(a, b);
  }

  lemma AddAssoc(a: Symbol, b: Symbol, c: Symbol)
    ensures Add(Add(a, b), c) == Add(a, Add(b, c))
  {
    XorAssoc(a, b, c);
  }

  lemma AddZero(a: Symbol)
    ensures Add(a, 0) == a && Add(0, a) == a
  {
    XorZero(a);
  }

  lemma AddSelf(a: Symbol)
    ensures Add(a, a) == 0
  {
    XorSelf(a);
  }

  lemma AddSwap(a: Symbol, b: Symbol, c: Symbol, d: Symbol)
    ensures Add(Add(a, b), Add(c, d)) == Add(Add(a, c), Add(b, d))
  {
    hide *;
    AddAssoc(a, b, Add(c, d));
    AddAssoc(b, c, d);
    AddComm(b, c);
    AddAssoc(c, b, d);
    AddAssoc(a, c, Add(b, d));
  }

  /** Adding b twice changes nothing. */
  lemma AddCancel(a: Symbol, b: Symbol)
    ensures Add(Add(a, b), b) == a && Add(b, Add(b, a)) == a && Add(b, Add(a, b)) == a
  {
    hide *;
    AddAssoc(a, b, b);
    AddAssoc(b, b, a);
    AddComm(a, b);
    AddSelf(b);
    AddZero(a);
  }

  lemma AddIsZero(a: Symbol, b: Symbol)
    ensures Add(a, b) == 0 <==> a == b
  {
    hide *;
    AddCancel(a, b);
    AddSelf(a);
    AddZero(b);
  }

  // ---------- multiplication by powers of x ----------

  lemma Times2Linear(a: Symbol, b: Symbol)
    ensures Times2(Add(a, b)) == Add(Times2(a), Times2(b))
  {
    assert Pow2(9) == 512;
    XorTop(a, b, 9);
    XorDouble(a, b);
    hide Xor;
    var x, y, p := 2 * a, 2 * b, PRIM;
    XorAssoc(x, p, y); XorAssoc(x, y, p); XorComm(p, y);
    XorAssoc(Xor(x, p), y, p);
    XorAssoc(x, Xor(p, y), p);
    XorAssoc(y, p, p); XorSelf(p); XorZero(y);
  }

  lemma Times2Injective(a: Symbol, b: Symbol)
    requires Times2(a) == Times2(b)
    ensures a == b
  {
    var d := Add(a, b);
    Times2Linear(a, b);
    AddSelf(Times2(a));
    Times2Nonzero(d);
    AddIsZero(a, b);
  }

  lemma Times2Nonzero(d: Symbol)
    ensures Times2(d) == 0 ==> d == 0
  {
    if d >= 512 {
      XorStep(2 * d, PRIM);
    }
  }

  lemma {:induction false} TimesXAdds(a: Symbol, m: nat, n: nat)
    ensures TimesX(a, m + n) == TimesX(TimesX(a, m), n)
  {
    hide Times2;
    if n > 0 {
      TimesXAdds(a, m, n - 1);
    }
  }

  lemma {:induction false} TimesXInjective(a: Symbol, b: Symbol, n: nat)
    requires TimesX(a, n) == TimesX(b, n)
    ensures a == b
  {
    hide Times2;
    if n > 0 {
      Times2Injective(TimesX(a, n - 1), TimesX(b, n - 1));
      TimesXInjective(a, b, n - 1);
    }
  }

  // ---------- the product ----------

  lemma {:induction false} MulZero(b: Symbol)
    ensures Mul(0, b) == 0 && Mul(b, 0) == 0
    decreases b
  {
    if b != 0 {
      MulZero(b / 2);
      AddZero(0);
    }
  }

  lemma {:induction false} MulLinearLeft(a: Symbol, b: Symbol, c: Symbol)
    ensures Mul(Add(a, b), c) == Add(Mul(a, c), Mul(b, c))
    decreases c
  {
    if c == 0 {
      AddZero(0);
    } else {
      MulLinearLeft(Times2(a), Times2(b), c / 2);
      Times2Linear(a, b);
      AddZero(0);
      hide Add, Times2;
      AddSwap(if c % 2 == 1 then a else 0, if c % 2 == 1 then b else 0, Mul(Times2(a), c / 2), Mul(Times2(b), c / 2));
    }
  }

  lemma {:induction false} MulLinearRight(a: Symbol, b: Symbol, c: Symbol)
    ensures Mul(a, Add(b, c)) == Add(Mul(a, b), Mul(a, c))
    decreases b + c
  {
    if b == 0 {
      AddZero(c); AddZero(Mul(a, c));
    } else if c == 0 {
      AddZero(b); AddZero(Mul(a, b));
    } else {
      var h := Times2(a);
      MulLinearRight(h, b / 2, c / 2);
      XorStep(b, c);
      AddZero(0); AddZero(a); AddSelf(a);
      AddZero(Mul(h, Add(b / 2, c / 2)));
      hide Add, Times2;
      AddSwap(if b % 2 == 1 then a else 0, Mul(h, b / 2), if c % 2 == 1 then a else 0, Mul(h, c / 2));
    }
  }

  lemma {:induction false} MulTimes2Left(a: Symbol, b: Symbol)
    ensures Mul(Times2(a), b) == Times2(Mul(a, b))
    decreases b
  {
    if b != 0 {
      MulTimes2Left(Times2(a), b / 2);
      Times2Linear(if b % 2 == 1 then a else 0, Mul(Times2(a), b / 2));
    }
  }

  lemma {:induction false} MulOne(b: Symbol)
    ensures Mul(1, b) == b && Mul(b, 1) == b
  {
    AddZero(b);
    assert Mul(Times2(b), 0) == 0;
    if b != 0 && b != 1 {
      var h, l := b / 2, b % 2;
      XorLow(h, l);
      MulLinearRight(1, l, 2 * h);
      MulOne(l);
      MulOne(h);
      assert (2 * h) / 2 == h;
      AddZero(Mul(Times2(1), h));
      MulTimes2Left(1, h);
    }
  }

  // ---------- powers of x ----------

  /** Multiplying by the field element x^n is multiplying by x, n times. */
  lemma {:induction false} ExpMul(n: nat, b: Symbol)
    ensures Mul(Exp(n), b) == TimesX(b, n)
  {
    hide Times2, Mul;
    if n == 0 {
      MulOne(b);
    } else {
      ExpMul(n - 1, b);
      MulTimes2Left(Exp(n - 1), b);
    }
  }

  lemma ExpAdds(m: nat, n: nat)
    ensures Mul(Exp(m), Exp(n)) == Exp(m + n)
  {
    hide Mul, TimesX;
    ExpMul(m, Exp(n));
    TimesXAdds(1, n, m);
  }

  lemma {:induction false} ExpNonzero(n: nat)
    ensures Exp(n) != 0
  {
    if n > 0 {
      ExpNonzero(n - 1);
      Times2Nonzero(Exp(n - 1));
    }
  }

  // ---------- x has order 1023 = 3 * 11 * 31 ----------

  /** Times2 without xor, for computing with known symbols. */
  lemma Times2High(a: Symbol)
    requires a >= 512
    ensures Times2(a) == if (a / 4) % 2 == 1 then 2 * a - 1031 else 2 * a - 1015
  {
    hide Xor;
    XorStep(2 * a, PRIM);
    XorStep(a, 516);
    XorStep(a / 2, 258);
    XorStep(a / 4, 129);
    assert a / 4 / 2 == a / 8 && a / 2 / 2 == a / 4;
    var r := a / 8 - 64;
    assert Pow2(6) == 64;
    XorHigh(r, 6);
    XorAssoc(r, 64, 64);
    XorSelf(64);
    XorZero(r);
  }

  /** Squaring is linear. */
  lemma SquareSum(m: nat, n: nat)
    ensures var s := Add(Exp(m), Exp(n)); Mul(s, s) == Add(Exp(2 * m), Exp(2 * n))
  {
    hide *;
    var a, b := Exp(m), Exp(n);
    MulLinearLeft(a, b, Add(a, b));
    MulLinearRight(a, a, b);
    MulLinearRight(b, a, b);
    ExpAdds(m, m); ExpAdds(n, n); ExpAdds(m, n); ExpAdds(n, m);
    AddComm(Exp(2 * n), Exp(m + n));
    AddAssoc(Add(Exp(2 * m), Exp(m + n)), Exp(m + n), Exp(2 * n));
    AddCancel(Exp(2 * m), Exp(m + n));
  }


  lemma Next(n: nat, a: Symbol)
    requires Exp(n) == a
    ensures Exp(n + 1) == if a < 512 then 2 * a else if (a / 4) % 2 == 1 then 2 * a - 1031 else 2 * a - 1015
  {
    if a >= 512 {
      Times2High(a);
    }
  }

  /** If x^p = x^k + 1, then x^(p+n) = x^(k+n) + x^n. */
  lemma PlusOne(p: nat, k: nat, n: nat)
    requires Exp(p) == Add(Exp(k), Exp(0))
    ensures Exp(p + n) == Add(Exp(k + n), Exp(n))
  {
    hide *;
    ExpAdds(p, n); ExpAdds(k, n); ExpAdds(0, n);
    MulLinearLeft(Exp(k), Exp(0), Exp(n));
  }

  lemma Powers12()
    ensures Exp(0) == 1 && Exp(1) == 2 && Exp(2) == 4 && Exp(3) == 8 && Exp(4) == 16 && Exp(8) == 256
    ensures Exp(10) == 9 && Exp(11) == 18 && Exp(12) == 36
  {
    assert Exp(0) == 1;
    hide TimesX;
    Next(0, 1); Next(1, 2); Next(2, 4); Next(3, 8); Next(4, 16); Next(5, 32); Next(6, 64); Next(7, 128);
    Next(8, 256); Next(9, 512); Next(10, 9); Next(11, 18);
  }

  lemma Powers37()
    ensures Exp(16) == 576 && Exp(17) == 137 && Exp(22) == 260 && Exp(23) == 520
    ensures Exp(33) == 620 && Exp(37) == 641
  {
    Powers12();
    hide Exp;
    Next(12, 36); Next(13, 72); Next(14, 144); Next(15, 288); Next(16, 576); Next(17, 137); Next(18, 274);
    Next(19, 548); Next(20, 65); Next(21, 130); Next(22, 260); Next(23, 520); Next(24, 25); Next(25, 50);
    Next(26, 100); Next(27, 200); Next(28, 400); Next(29, 800); Next(30, 585); Next(31, 155); Next(32, 310);
    Next(33, 620); Next(34, 209); Next(35, 418); Next(36, 836);
  }

  /** x^77 = x + 1, by squaring x^10 = x^3 + 1 three times. */
  lemma Power77()
    ensures Exp(77) == Add(Exp(1), Exp(0))
  {
    Powers12();
    assert Add(8, 1) == 9;
    assert Add(2, 1) == 3;
    hide Exp;
    SquareSum(3, 0); ExpAdds(10, 10);
    assert Exp(20) == Add(Exp(6), Exp(0));
    SquareSum(6, 0); ExpAdds(20, 20);
    assert Exp(40) == Add(Exp(12), Exp(0));
    SquareSum(12, 0); ExpAdds(40, 40);
    assert Exp(80) == Add(Exp(24), Exp(0));
    PlusOne(20, 6, 4);
    Sum25();
    Cancel77();
  }

  lemma Sum25()
    ensures Add(9, 16) == 25 && Add(25, 1) == 24
  {}

  lemma Cancel77()
    requires Exp(80) == 24
    ensures Exp(77) == 3
  {
    TimesXAdds(1, 77, 3);
    assert TimesX(3, 1) == 6;
    assert TimesX(3, 2) == 12;
    assert TimesX(3, 3) == 24;
    TimesXInjective(Exp(77), 3, 3);
  }

  lemma Sum780()
    ensures Add(520, 260) == 780
  {}
  lemma Sum407()
    ensures Add(172, 780) == 928
  {
    assert Xor(0, 3) == 3;
    assert Xor(1, 6) == 7;
    assert Xor(2, 12) == 14;
    assert Xor(5, 24) == 29;
    assert Xor(10, 48) == 58;
    assert Xor(21, 97) == 116;
    assert Xor(43, 195) == 232;
    assert Xor(86, 390) == 464;
  }
  lemma Sum1023()
    ensures Add(929, 928) == 1
  {}
  lemma Sum341()
    ensures Add(641, 620) == 237
  {
    assert Xor(20, 19) == 7;
    assert Xor(80, 77) == 29;
  }

  lemma Sum93()
    ensures Add(137, 576) == 713
  {}

  lemma Order()
    ensures Exp(1023) == 1
    ensures Exp(341) != 1 && Exp(93) != 1 && Exp(33) != 1 && Exp(31) != 1
    ensures Exp(1) != 1 && Exp(3) != 1 && Exp(11) != 1
  {
    hide *;
    Power77(); Powers12(); Powers37();
    SquareSum(1, 0); ExpAdds(77, 77);
    SquareSum(2, 0); ExpAdds(154, 154);
    SquareSum(4, 0); ExpAdds(308, 308);
    PlusOne(77, 1, 22); Sum780();
    Next(99, 780); Next(100, 529); Next(101, 43); Next(102, 86);
    PlusOne(308, 4, 99); Sum407();
    Next(407, 928); Next(408, 841); Next(409, 667); Next(410, 319); Next(411, 638); Next(412, 245);
    Next(413, 490); Next(414, 980);
    PlusOne(616, 8, 407); Sum1023();
    PlusOne(308, 4, 33); Sum341();
    PlusOne(77, 1, 16); Sum93();
    if Exp(31) == 1 {
      Next(31, 1); Next(32, 2);
    }
  }
}
