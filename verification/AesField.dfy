/** The field GF(2^8) of scripts/aes_gcm/gcm_ref.py: its ring laws, and that every nonzero byte has an inverse. */
module AesField {
  import opened Arithmetic
  import opened XorNat
  import opened MaskTables
  import opened BitFields

  // ---------- bytes ----------

  function Add(a: Byte, b: Byte): Byte {
    ByteBits();
    XorBound(a, b, 8);
    Xor(a, b)
  }

  lemma AddComm(a: Byte, b: Byte)
    ensures Add(a, b) == Add(b, a)
  {
    XorComm(a, b);
  }

  lemma AddAssoc(a: Byte, b: Byte, c: Byte)
    ensures Add(Add(a, b), c) == Add(a, Add(b, c))
  {
    XorAssoc(a, b, c);
  }

  lemma AddZero(a: Byte)
    ensures Add(a, 0) == a && Add(0, a) == a
  {
    XorZero(a);
  }

  lemma AddSelf(a: Byte)
    ensures Add(a, a) == 0
  {
    XorSelf(a);
  }

  lemma AddExchange(a: Byte, b: Byte, c: Byte, d: Byte)
    ensures Add(Add(a, b), Add(c, d)) == Add(Add(a, c), Add(b, d))
  {
    hide *;
    AddAssoc(a, b, Add(c, d));
    AddAssoc(b, c, d);
    AddComm(b, c);
    AddAssoc(c, b, d);
    AddAssoc(a, c, Add(b, d));
  }

  lemma AddCancel(a: Byte, b: Byte)
    ensures Add(Add(a, b), b) == a
  {
    hide *;
    AddAssoc(a, b, b);
    AddSelf(b);
    AddZero(a);
  }

  // ---------- multiplication ----------

  /** Multiplication by x modulo x^8 + x^4 + x^3 + x + 1; the carry out of the byte cancels. */
  function Xt(a: Byte): Byte {
    if a < 128 then 2 * a
    else
      XtBound(a);
      Xor(2 * a, 0x11B)
  }

  lemma XtBound(a: Byte)
    requires a >= 128
    ensures Xor(2 * a, 0x11B) < 256
  {
    ByteBits();
    XorTop(2 * a, 0x11B, 8);
  }

  function GmulOf(a: Byte, b: nat): Byte
    decreases b, a
  {
    if b == 0 then 0 else Add(if b % 2 == 1 then a else 0, GmulOf(Xt(a), b / 2))
  }

  method Gmul(a0: Byte, b0: nat) returns (r: Byte)
    ensures r == GmulOf(a0, b0)
  {
    hide Add, Xt;
    var a, b := a0, b0;
    r := 0;
    AddZero(GmulOf(a, b));
    while b != 0
      invariant Add(r, GmulOf(a, b)) == GmulOf(a0, b0)
      decreases b
    {
      AddAssoc(r, if b % 2 == 1 then a else 0, GmulOf(Xt(a), b / 2));
      AddZero(r);
      if b % 2 == 1 {
        r := Add(r, a);
      }
      a, b := Xt(a), b / 2;
    }
    AddZero(r);
  }

  lemma XtAdd(a: Byte, b: Byte)
    ensures Xt(Add(a, b)) == Add(Xt(a), Xt(b))
  {
    assert Pow2(7) == 128;
    XorTop(a, b, 7);
    XorDouble(a, b);
    hide Xor;
    var x, y, p := 2 * a, 2 * b, 0x11B;
    XorAssoc(x, p, y); XorAssoc(x, y, p); XorComm(p, y);
    XorAssoc(Xor(x, p), y, p);
    XorAssoc(x, Xor(p, y), p);
    XorAssoc(y, p, p); XorSelf(p); XorZero(y);
  }

  lemma {:induction false} GmulAddLeft(a: Byte, b: Byte, c: nat)
    ensures GmulOf(Add(a, b), c) == Add(GmulOf(a, c), GmulOf(b, c))
    decreases c
  {
    AddZero(0);
    if c > 0 {
      GmulAddLeft(Xt(a), Xt(b), c / 2);
      XtAdd(a, b);
      hide Add, Xt;
      AddExchange(if c % 2 == 1 then a else 0, if c % 2 == 1 then b else 0, GmulOf(Xt(a), c / 2), GmulOf(Xt(b), c / 2));
    }
  }

  lemma {:induction false} GmulXor(a: Byte, b: nat, c: nat)
    ensures GmulOf(a, Xor(b, c)) == Add(GmulOf(a, b), GmulOf(a, c))
    decreases b + c
  {
    if b == 0 {
      XorZero(c);
      AddZero(GmulOf(a, c));
    } else if c == 0 {
      XorZero(b);
      AddZero(GmulOf(a, b));
    } else {
      var h := Xt(a);
      GmulXor(h, b / 2, c / 2);
      XorStep(b, c);
      AddZero(0); AddZero(a); AddSelf(a);
      AddZero(GmulOf(h, Xor(b / 2, c / 2)));
      hide Add, Xt, Xor;
      AddExchange(if b % 2 == 1 then a else 0, GmulOf(h, b / 2), if c % 2 == 1 then a else 0, GmulOf(h, c / 2));
    }
  }

  lemma GmulAddRight(a: Byte, b: Byte, c: Byte)
    ensures GmulOf(a, Add(b, c)) == Add(GmulOf(a, b), GmulOf(a, c))
  {
    GmulXor(a, b, c);
  }

  lemma {:induction false} GmulXt(a: Byte, b: nat)
    ensures GmulOf(Xt(a), b) == Xt(GmulOf(a, b))
    decreases b
  {
    if b > 0 {
      GmulXt(Xt(a), b / 2);
      XtAdd(if b % 2 == 1 then a else 0, GmulOf(Xt(a), b / 2));
    }
  }

  /** x^n a. */
  function Xts(a: Byte, n: nat): Byte {
    if n == 0 then a else Xt(Xts(a, n - 1))
  }

  lemma {:induction false} XtsAdds(a: Byte, m: nat, n: nat)
    ensures Xts(Xts(a, m), n) == Xts(a, m + n)
  {
    hide Xt;
    if n > 0 {
      XtsAdds(a, m, n - 1);
    }
  }

  lemma {:induction false} GmulXts(a: Byte, b: nat, n: nat)
    ensures GmulOf(Xts(a, n), b) == Xts(GmulOf(a, b), n)
  {
    hide Xt, Add;
    if n > 0 {
      GmulXts(a, b, n - 1);
      GmulXt(Xts(a, n - 1), b);
    }
  }

  lemma {:induction false} GmulPow2(a: Byte, n: nat)
    ensures GmulOf(a, Pow2(n)) == Xts(a, n)
    decreases n
  {
    AddZero(GmulOf(Xt(a), Pow2(n) / 2));
    AddZero(a);
    if n > 0 {
      hide Add, Xt;
      GmulPow2(Xt(a), n - 1);
      XtsAdds(a, 1, n - 1);
      assert Xts(a, 1) == Xt(Xts(a, 0));
    } else {
      assert GmulOf(Xt(a), 0) == 0;
    }
  }

  /** A statement about bytes that holds of 0 and of the powers of two and is additive holds of every byte:
      the form in which it is used is the low n bits of a byte. */
  lemma {:induction false} GmulOneLow(b: nat, n: nat)
    requires n <= 8
    ensures Low(b, n) < 256 && GmulOf(1, Low(b, n)) == Low(b, n)
  {
    hide *;
    LowByte(b, n);
    if n == 0 {
      LowNone(b);
    } else {
      GmulOneLow(b, n - 1);
      var l, p, isSet := LowParts(b, n);
      GmulAddRight(1, l, p);
      GmulPow2(1, n - 1);
    }
  }

  /** The low n bits are the low n - 1 bits, plus x^(n-1) if bit n - 1 is set. */
  lemma LowParts(b: nat, n: nat) returns (l: Byte, p: Byte, isSet: bool)
    requires 0 < n <= 8
    ensures l == Low(b, n - 1) && p == Pow2(n - 1) && p == Xts(1, n - 1)
    ensures Low(b, n) == if isSet then Add(l, p) else l
  {
    LowByte(b, n - 1);
    PowerByte(n - 1);
    LowStep(b, n - 1);
    hide Xor, Low, Xts;
    l, p, isSet := Low(b, n - 1), Pow2(n - 1), BitAt(b, n - 1) == 1;
  }

  lemma LowNone(b: nat)
    ensures Low(b, 0) == 0 && GmulOf(1, 0) == 0
  {}

  lemma LowByte(b: nat, n: nat)
    requires n <= 8
    ensures Low(b, n) < 256
  {
    PowMono(n, 8);
    ByteBits();
  }

  /** The powers of x below x^8. */
  lemma {:induction false} PowerByte(n: nat)
    requires n < 8
    ensures Pow2(n) < 256 && Xts(1, n) == Pow2(n)
  {
    PowMono(n, 7);
    assert Pow2(7) == 128;
    if n > 0 {
      PowerByte(n - 1);
      PowMono(n - 1, 6);
      assert Pow2(6) == 64;
    }
  }

  lemma GmulOne(b: Byte)
    ensures GmulOf(1, b) == b && GmulOf(b, 1) == b
  {
    GmulOneLow(b, 8);
    ByteBits();
    LowIsAll(b, 8);
    AddZero(b);
    assert GmulOf(Xt(b), 0) == 0;
  }

  lemma {:induction false} LowCommutes(a: nat, b: Byte, n: nat)
    requires n <= 8
    ensures Low(a, n) < 256 && GmulOf(Low(a, n), b) == GmulOf(b, Low(a, n))
  {
    hide *;
    LowByte(a, n);
    if n == 0 {
      LowNone(a);
      GmulZero(b);
      GmulByZero(b);
    } else {
      LowCommutes(a, b, n - 1);
      var l, p, isSet := LowParts(a, n);
      GmulAddLeft(l, p, b);
      GmulAddRight(b, l, p);
      GmulXts(1, b, n - 1);
      GmulOne(b);
      GmulPow2(b, n - 1);
    }
  }

  lemma {:induction false} GmulZero(b: nat)
    ensures GmulOf(0, b) == 0
  {
    if b > 0 {
      GmulZero(b / 2);
      AddZero(0);
    }
  }

  lemma GmulComm(a: Byte, b: Byte)
    ensures GmulOf(a, b) == GmulOf(b, a)
  {
    LowCommutes(a, b, 8);
    ByteBits();
    LowIsAll(a, 8);
  }

  lemma GmulByZero(a: Byte)
    ensures GmulOf(a, 0) == 0
  {}

  lemma {:induction false} LowAssociates(a: Byte, b: Byte, c: nat, n: nat)
    requires n <= 8
    ensures Low(c, n) < 256 && GmulOf(GmulOf(a, b), Low(c, n)) == GmulOf(a, GmulOf(b, Low(c, n)))
  {
    hide *;
    LowByte(c, n);
    if n == 0 {
      LowNone(c);
      GmulByZero(a);
      GmulByZero(b);
      GmulByZero(GmulOf(a, b));
    } else {
      LowAssociates(a, b, c, n - 1);
      var l, p, isSet := LowParts(c, n);
      GmulAddRight(GmulOf(a, b), l, p);
      GmulAddRight(b, l, p);
      GmulAddRight(a, GmulOf(b, l), GmulOf(b, p));
      GmulPow2(GmulOf(a, b), n - 1);
      GmulPow2(b, n - 1);
      GmulComm(a, Xts(b, n - 1));
      GmulXts(b, a, n - 1);
      GmulComm(b, a);
    }
  }

  lemma GmulAssoc(a: Byte, b: Byte, c: Byte)
    ensures GmulOf(GmulOf(a, b), c) == GmulOf(a, GmulOf(b, c))
  {
    LowAssociates(a, b, c, 8);
    ByteBits();
    LowIsAll(c, 8);
  }

  // ---------- powers ----------

  function Power(a: Byte, n: nat): Byte {
    if n == 0 then 1 else GmulOf(Power(a, n - 1), a)
  }

  lemma {:induction false} PowerAdds(a: Byte, m: nat, n: nat)
    ensures GmulOf(Power(a, m), Power(a, n)) == Power(a, m + n)
  {
    hide GmulOf;
    if n == 0 {
      GmulOne(Power(a, m));
    } else {
      PowerAdds(a, m, n - 1);
      GmulAssoc(Power(a, m), Power(a, n - 1), a);
    }
  }

  lemma SquareAdds(a: Byte, b: Byte)
    ensures var s := Add(a, b); GmulOf(s, s) == Add(GmulOf(a, a), GmulOf(b, b))
  {
    hide GmulOf, Add;
    GmulAddLeft(a, b, Add(a, b));
    GmulAddRight(a, a, b);
    GmulAddRight(b, a, b);
    GmulComm(a, b);
    var x, y, z := GmulOf(a, a), GmulOf(a, b), GmulOf(b, b);
    AddComm(y, z);
    AddExchange(x, y, z, y);
    AddSelf(y);
    AddZero(Add(x, z));
  }

  /** n squarings. */
  function Squares(a: Byte, n: nat): Byte {
    if n == 0 then a else GmulOf(Squares(a, n - 1), Squares(a, n - 1))
  }

  lemma {:induction false} SquaresAdd(a: Byte, b: Byte, n: nat)
    ensures Squares(Add(a, b), n) == Add(Squares(a, n), Squares(b, n))
  {
    hide GmulOf, Add;
    if n > 0 {
      SquaresAdd(a, b, n - 1);
      SquareAdds(Squares(a, n - 1), Squares(b, n - 1));
    }
  }

  lemma {:induction false} SquaresPower(a: Byte, n: nat)
    ensures Squares(a, n) == Power(a, Pow2(n))
  {
    hide GmulOf;
    if n == 0 {
      assert Power(a, 0) == 1;
      GmulOne(a);
    } else {
      SquaresPower(a, n - 1);
      PowerAdds(a, Pow2(n - 1), Pow2(n - 1));
    }
  }

  lemma {:induction false} SquaresOfPower(n: nat, k: nat)
    ensures Squares(Xts(1, k), n) == Xts(1, Pow2(n) * k)
  {
    hide GmulOf, Xt;
    if n > 0 {
      SquaresOfPower(n - 1, k);
      var e := Pow2(n - 1) * k;
      GmulXts(1, Xts(1, e), e);
      GmulOne(Xts(1, e));
      XtsAdds(1, e, e);
      assert e + e == Pow2(n) * k;
    }
  }

  // ---------- x^51 = 1 ----------

  /** Xt without xor, for computing with known bytes. */
  lemma XtHigh(a: Byte)
    requires a >= 128
    ensures Xt(a) == 27 - 2 * (a % 2) + 4 * ((a / 2) % 2) - 8 * ((a / 4) % 2) - 16 * ((a / 8) % 2) + 32 * (a / 16 - 8)
  {
    hide Xor;
    XorStep(2 * a, 283);
    XorStep(a, 141);
    XorStep(a / 2, 70);
    XorStep(a / 4, 35);
    XorStep(a / 8, 17);
    assert a / 2 / 2 == a / 4 && a / 4 / 2 == a / 8 && a / 8 / 2 == a / 16;
    var r := a / 16 - 8;
    assert Pow2(3) == 8;
    XorHigh(r, 3);
    XorAssoc(r, 8, 8);
    XorSelf(8);
    XorZero(r);
  }

  lemma Next(n: nat, a: Byte)
    requires Xts(1, n) == a
    ensures Xts(1, n + 1) == if a < 128 then 2 * a
      else 27 - 2 * (a % 2) + 4 * ((a / 2) % 2) - 8 * ((a / 4) % 2) - 16 * ((a / 8) % 2) + 32 * (a / 16 - 8)
  {
    if a >= 128 {
      XtHigh(a);
    }
  }

  lemma KnownPowers()
    ensures Xts(1, 8) == 27 && Xts(1, 10) == 108 && Xts(1, 12) == 171 && Xts(1, 14) == 154
  {
    PowerByte(7);
    assert Pow2(7) == 128;
    hide Xts, Xt, Pow2;
    Next(7, 128); Next(8, 27); Next(9, 54); Next(10, 108); Next(11, 216); Next(12, 171); Next(13, 77);
  }

  lemma Powers17()
    ensures Xts(1, 17) == 188
  {
    KnownPowers();
    hide Xts, Xt, Pow2;
    Next(14, 154); Next(15, 47); Next(16, 94);
  }

  lemma Powers34()
    ensures Xts(1, 34) == 189
  {
    Powers17();
    hide Xts, Xt;
    Next(17, 188); Next(18, 99); Next(19, 198); Next(20, 151); Next(21, 53); Next(22, 106); Next(23, 212);
    Next(24, 179); Next(25, 125); Next(26, 250); Next(27, 239); Next(28, 197); Next(29, 145); Next(30, 57);
    Next(31, 114); Next(32, 228); Next(33, 211);
  }

  lemma Order51()
    ensures Xts(1, 51) == 1
  {
    Powers34();
    hide Xts, Xt;
    Next(34, 189); Next(35, 97); Next(36, 194); Next(37, 159); Next(38, 37); Next(39, 74); Next(40, 148);
    Next(41, 51); Next(42, 102); Next(43, 204); Next(44, 131); Next(45, 29); Next(46, 58); Next(47, 116);
    Next(48, 232); Next(49, 203); Next(50, 141);
  }

  // ---------- a^256 = a ----------

  lemma {:induction false} WholeTurns(k: nat)
    ensures Xts(1, 51 * k) == 1
  {
    hide Xt;
    if k > 0 {
      WholeTurns(k - 1);
      Order51();
      hide Xts;
      XtsAdds(1, 51 * (k - 1), 51);
    }
  }

  /** a^256 by eight squarings. */
  function Cycled(a: Byte): Byte {
    Squares(a, 8)
  }

  lemma CycledPower(j: nat, n: nat)
    requires n == 8
    ensures Cycled(Xts(1, j)) == Xts(1, j)
  {
    SquaresOfPower(n, j);
    ByteBits();
    hide Xts, Squares, Pow2;
    WholeTurns(5 * j);
    XtsAdds(1, 255 * j, j);
  }

  lemma CycledAdd(a: Byte, b: Byte)
    ensures Cycled(Add(a, b)) == Add(Cycled(a), Cycled(b))
  {
    SquaresAdd(a, b, 8);
  }

  lemma {:induction false} LowFixed(a: nat, n: nat)
    requires n <= 8
    ensures Low(a, n) < 256 && Cycled(Low(a, n)) == Low(a, n)
  {
    hide *;
    LowByte(a, n);
    if n == 0 {
      LowNone(a);
      ZeroFixed();
    } else {
      LowFixed(a, n - 1);
      var l, p, isSet := LowParts(a, n);
      CycledPower(n - 1, 8);
      CycledAdd(l, p);
    }
  }

  lemma ZeroFixed()
    ensures Cycled(0) == 0
  {
    ZeroSquares(8);
  }

  lemma {:induction false} ZeroSquares(n: nat)
    ensures Squares(0, n) == 0
  {
    if n > 0 {
      ZeroSquares(n - 1);
      GmulZero(0);
    }
  }

  /** Every byte is a root of X^256 = X. */
  lemma Frobenius(a: Byte)
    ensures Power(a, 256) == a
  {
    ByteBits();
    LowFixed(a, 8);
    LowIsAll(a, 8);
    hide Power, Squares, Low;
    SquaresPower(a, 8);
  }

  // ---------- only 0 and 1 are their own squares ----------

  function Defect(v: nat): nat {
    if v < 256 then Add(GmulOf(v, v), v) else 0
  }

  lemma DefectLinear()
    ensures IsLinear(Defect, 8)
  {
    ByteBits();
    hide GmulOf;
    forall a: nat, b: nat | a < 256 && b < 256
      ensures Defect(Xor(a, b)) == Xor(Defect(a), Defect(b))
    {
      SquareAdds(a, b);
      AddExchange(GmulOf(a, a), GmulOf(b, b), a, b);
    }
  }

  lemma KnownSums()
    ensures Add(1, 1) == 0 && Add(4, 2) == 6 && Add(16, 4) == 20 && Add(64, 8) == 72
    ensures Add(27, 16) == 11 && Add(108, 32) == 76 && Add(171, 64) == 235 && Add(154, 128) == 26
  {
    KnownSumsLow();
    KnownSumsHigh();
  }

  lemma KnownSumsLow()
    ensures Add(1, 1) == 0 && Add(4, 2) == 6 && Add(16, 4) == 20 && Add(64, 8) == 72
  {}

  lemma KnownSumsHigh()
    ensures Add(27, 16) == 11 && Add(108, 32) == 76 && Add(171, 64) == 235 && Add(154, 128) == 26
  {}

  lemma PowersOfX(m: nat, n: nat)
    ensures GmulOf(Xts(1, m), Xts(1, n)) == Xts(1, m + n)
  {
    hide GmulOf, Xt;
    GmulXts(1, Xts(1, n), m);
    GmulOne(Xts(1, n));
    XtsAdds(1, n, m);
  }

  /** The powers of two, their squares, and the sums of both. */
  const POWERS: seq<Byte> := [1, 2, 4, 8, 16, 32, 64, 128]
  const SQUARES: seq<Byte> := [1, 4, 16, 64, 27, 108, 171, 154]
  const DEFECTS: seq<nat> := [0, 6, 20, 72, 11, 76, 235, 26]

  lemma PowerKnown(j: nat)
    requires j < 8
    ensures Pow2(j) == POWERS[j]
  {
    SmallPowers();
    hide Pow2;
  }

  lemma SquareKnown(j: nat)
    requires j < 8
    ensures Xts(1, 2 * j) == SQUARES[j]
  {
    PowerByte(0); PowerByte(2); PowerByte(4); PowerByte(6);
    SmallPowers();
    KnownPowers();
    hide Xts, Pow2;
    assert 2 * j == 0 || 2 * j == 2 || 2 * j == 4 || 2 * j == 6 || 2 * j == 8 || 2 * j == 10 || 2 * j == 12
      || 2 * j == 14;
  }

  lemma SumKnown(j: nat)
    requires j < 8
    ensures Add(SQUARES[j], POWERS[j]) == DEFECTS[j]
  {
    KnownSums();
    hide Add;
  }

  lemma SmallPowers()
    ensures Pow2(0) == 1 && Pow2(1) == 2 && Pow2(2) == 4 && Pow2(3) == 8
    ensures Pow2(4) == 16 && Pow2(5) == 32 && Pow2(6) == 64 && Pow2(7) == 128
  {}

  lemma DefectOfPower(j: nat, p: Byte)
    requires j < 8 && p == Pow2(j)
    ensures Defect(p) == DEFECTS[j]
  {
    PowerByte(j);
    hide Xts, Add, GmulOf, Pow2;
    PowersOfX(j, j);
    PowerKnown(j);
    SquareKnown(j);
    SumKnown(j);
  }

  lemma DefectColumns(j: nat)
    requires j < 8
    ensures Columns(Defect, 8)[j] == DEFECTS[j]
  {
    hide Defect, Columns, Pow2;
    ColumnsAt(Defect, 8, j);
    PowerByte(j);
    DefectOfPower(j, Pow2(j));
  }

  /** Row o of the linear map a^2 + a, applied to the bits of e. */
  lemma DefectRow(e: Byte, o: nat)
    ensures BitAt(Defect(e), o) == MaskParity(RowMask(DEFECTS, o), e, 8)
  {
    ByteBits();
    DefectLinear();
    var c := Columns(Defect, 8);
    forall j | 0 <= j < 8
      ensures c[j] == DEFECTS[j]
    {
      DefectColumns(j);
    }
    assert c == DEFECTS;
    hide DEFECTS, Defect, RowMask, Columns, BitAt;
    MasksCompute(Defect, 8, e, o);
  }

  /** The rows are independent but for the first column: only 0 and 1 are their own squares. */
  lemma OwnSquare(e: Byte)
    requires GmulOf(e, e) == e
    ensures e == 0 || e == 1
  {
    AddSelf(e);
    assert Defect(e) == 0;
    var b0, b1, b2, b3 := BitAt(e, 0), BitAt(e, 1), BitAt(e, 2), BitAt(e, 3);
    var b4, b5, b6, b7 := BitAt(e, 4), BitAt(e, 5), BitAt(e, 6), BitAt(e, 7);
    forall o: nat
      ensures MaskParity(RowMask(DEFECTS, o), e, 8) == 0
    {
      DefectRow(e, o);
      BitOfZero(o);
    }
    Rows(e);
    hide MaskParity, RowMask, GmulOf, BitAt, Defect;
    assert b1 == 0 && b2 == 0 && b3 == 0 && b4 == 0 && b5 == 0 && b6 == 0 && b7 == 0;
    OneBit(e);
  }

  /** The parities of the first seven rows, written out. */
  lemma Rows(e: Byte)
    ensures MaskParity(RowMask(DEFECTS, 0), e, 8) == (BitAt(e, 4) + BitAt(e, 6)) % 2
    ensures MaskParity(RowMask(DEFECTS, 1), e, 8) == (BitAt(e, 1) + BitAt(e, 4) + BitAt(e, 6) + BitAt(e, 7)) % 2
    ensures MaskParity(RowMask(DEFECTS, 2), e, 8) == (BitAt(e, 1) + BitAt(e, 2) + BitAt(e, 5)) % 2
    ensures MaskParity(RowMask(DEFECTS, 3), e, 8)
      == (BitAt(e, 3) + BitAt(e, 4) + BitAt(e, 5) + BitAt(e, 6) + BitAt(e, 7)) % 2
    ensures MaskParity(RowMask(DEFECTS, 4), e, 8) == (BitAt(e, 2) + BitAt(e, 7)) % 2
    ensures MaskParity(RowMask(DEFECTS, 5), e, 8) == (BitAt(e, 6)) % 2
    ensures MaskParity(RowMask(DEFECTS, 6), e, 8) == (BitAt(e, 3) + BitAt(e, 5) + BitAt(e, 6)) % 2
  {
    RowsKnown();
    hide BitAt, RowMask, MaskParity;
    Row0(e); Row1(e); Row2(e); Row3(e); Row4(e); Row5(e); Row6(e);
  }

  lemma Row0(e: Byte)
    ensures MaskParity([0, 0, 0, 0, 1, 0, 1, 0], e, 8) == (BitAt(e, 4) + BitAt(e, 6)) % 2
  {
    hide BitAt, MaskParity;
    Unrolled([0, 0, 0, 0, 1, 0, 1, 0], e);
  }

  lemma Row1(e: Byte)
    ensures MaskParity([0, 1, 0, 0, 1, 0, 1, 1], e, 8) == (BitAt(e, 1) + BitAt(e, 4) + BitAt(e, 6) + BitAt(e, 7)) % 2
  {
    hide BitAt, MaskParity;
    Unrolled([0, 1, 0, 0, 1, 0, 1, 1], e);
  }

  lemma Row2(e: Byte)
    ensures MaskParity([0, 1, 1, 0, 0, 1, 0, 0], e, 8) == (BitAt(e, 1) + BitAt(e, 2) + BitAt(e, 5)) % 2
  {
    hide BitAt, MaskParity;
    Unrolled([0, 1, 1, 0, 0, 1, 0, 0], e);
  }

  lemma Row3(e: Byte)
    ensures MaskParity([0, 0, 0, 1, 1, 1, 1, 1], e, 8)
      == (BitAt(e, 3) + BitAt(e, 4) + BitAt(e, 5) + BitAt(e, 6) + BitAt(e, 7)) % 2
  {
    hide BitAt, MaskParity;
    Unrolled([0, 0, 0, 1, 1, 1, 1, 1], e);
  }

  lemma Row4(e: Byte)
    ensures MaskParity([0, 0, 1, 0, 0, 0, 0, 1], e, 8) == (BitAt(e, 2) + BitAt(e, 7)) % 2
  {
    hide BitAt, MaskParity;
    Unrolled([0, 0, 1, 0, 0, 0, 0, 1], e);
  }

  lemma Row5(e: Byte)
    ensures MaskParity([0, 0, 0, 0, 0, 0, 1, 0], e, 8) == (BitAt(e, 6)) % 2
  {
    hide BitAt, MaskParity;
    Unrolled([0, 0, 0, 0, 0, 0, 1, 0], e);
  }

  lemma Row6(e: Byte)
    ensures MaskParity([0, 0, 0, 1, 0, 1, 1, 0], e, 8) == (BitAt(e, 3) + BitAt(e, 5) + BitAt(e, 6)) % 2
  {
    hide BitAt, MaskParity;
    Unrolled([0, 0, 0, 1, 0, 1, 1, 0], e);
  }

  lemma ParityStep(row: seq<nat>, e: nat, n: nat, x: nat, p: nat)
    requires n < |row| && x == row[n] * BitAt(e, n) && MaskParity(row, e, n) == p % 2
    ensures MaskParity(row, e, n + 1) == (p + x) % 2
  {
    hide BitAt;
  }

  lemma Unrolled(row: seq<nat>, e: nat)
    requires |row| == 8
    ensures MaskParity(row, e, 8)
      == (row[0] * BitAt(e, 0) + row[1] * BitAt(e, 1) + row[2] * BitAt(e, 2) + row[3] * BitAt(e, 3)
      + row[4] * BitAt(e, 4) + row[5] * BitAt(e, 5) + row[6] * BitAt(e, 6) + row[7] * BitAt(e, 7)) % 2
  {
    assert MaskParity(row, e, 0) == 0;
    hide BitAt, MaskParity;
    var x0: nat, x1: nat, x2: nat, x3: nat := row[0] * BitAt(e, 0), row[1] * BitAt(e, 1), row[2] * BitAt(e, 2),
      row[3] * BitAt(e, 3);
    var x4: nat, x5: nat, x6: nat, x7: nat := row[4] * BitAt(e, 4), row[5] * BitAt(e, 5), row[6] * BitAt(e, 6),
      row[7] * BitAt(e, 7);
    ParityStep(row, e, 0, x0, 0);
    ParityStep(row, e, 1, x1, x0);
    ParityStep(row, e, 2, x2, x0 + x1);
    ParityStep(row, e, 3, x3, x0 + x1 + x2);
    ParityStep(row, e, 4, x4, x0 + x1 + x2 + x3);
    ParityStep(row, e, 5, x5, x0 + x1 + x2 + x3 + x4);
    ParityStep(row, e, 6, x6, x0 + x1 + x2 + x3 + x4 + x5);
    ParityStep(row, e, 7, x7, x0 + x1 + x2 + x3 + x4 + x5 + x6);
  }

  lemma RowsKnown()
    ensures RowMask(DEFECTS, 0) == [0, 0, 0, 0, 1, 0, 1, 0] && RowMask(DEFECTS, 1) == [0, 1, 0, 0, 1, 0, 1, 1]
    ensures RowMask(DEFECTS, 2) == [0, 1, 1, 0, 0, 1, 0, 0] && RowMask(DEFECTS, 3) == [0, 0, 0, 1, 1, 1, 1, 1]
    ensures RowMask(DEFECTS, 4) == [0, 0, 1, 0, 0, 0, 0, 1] && RowMask(DEFECTS, 5) == [0, 0, 0, 0, 0, 0, 1, 0]
    ensures RowMask(DEFECTS, 6) == [0, 0, 0, 1, 0, 1, 1, 0]
  {
    LowRows();
    HighRows();
  }

  lemma LowRows()
    ensures RowMask(DEFECTS, 0) == [0, 0, 0, 0, 1, 0, 1, 0] && RowMask(DEFECTS, 1) == [0, 1, 0, 0, 1, 0, 1, 1]
    ensures RowMask(DEFECTS, 2) == [0, 1, 1, 0, 0, 1, 0, 0] && RowMask(DEFECTS, 3) == [0, 0, 0, 1, 1, 1, 1, 1]
  {}

  lemma HighRows()
    ensures RowMask(DEFECTS, 4) == [0, 0, 1, 0, 0, 0, 0, 1] && RowMask(DEFECTS, 5) == [0, 0, 0, 0, 0, 0, 1, 0]
    ensures RowMask(DEFECTS, 6) == [0, 0, 0, 1, 0, 1, 1, 0]
  {}

  lemma OneBit(e: Byte)
    requires forall j :: 0 < j < 8 ==> BitAt(e, j) == 0
    ensures e == 0 || e == 1
  {
    ByteBits();
    LowIsAll(e, 8);
    LowOneBit(e, 8);
  }

  lemma {:induction false} LowOneBit(e: nat, n: nat)
    requires 1 <= n <= 8 && forall j :: 0 < j < n ==> BitAt(e, j) == 0
    ensures Low(e, n) == e % 2
  {
    if n > 1 {
      LowOneBit(e, n - 1);
      LowSum(e, n - 1);
    } else {
      assert Low(e, 1) == 2 * Low(e / 2, 0) + e % 2;
    }
  }

  // ---------- inverses ----------

  /** a^254. */
  function InverseOf(a: Byte): Byte {
    Power(a, 254)
  }

  lemma Inverse(a: Byte)
    requires a != 0
    ensures GmulOf(a, InverseOf(a)) == 1
  {
    Frobenius(a);
    hide GmulOf, Power;
    var e := Power(a, 255);
    PowerAdds(a, 255, 255);
    PowerAdds(a, 256, 254);
    PowerAdds(a, 1, 254);
    FirstPower(a);
    OwnSquare(e);
    PowerAdds(a, 255, 1);
    GmulZero(a);
  }

  lemma FirstPower(a: Byte)
    ensures Power(a, 1) == a
  {
    assert Power(a, 0) == 1;
    GmulOne(a);
  }

  /** An inverse is unique. */
  lemma InverseUnique(a: Byte, b: Byte, c: Byte)
    requires GmulOf(a, b) == 1 && GmulOf(a, c) == 1
    ensures b == c
  {
    hide GmulOf;
    GmulComm(a, b);
    GmulAssoc(b, a, c);
    GmulOne(b);
    GmulOne(c);
  }
}
