/** Multiplication in GF(2^128) as scripts/aes_gcm/gcm_ref.py computes it (SP 800-38D, algorithm 1: bit 127 of
    the number is the coefficient of x^0), its ring laws, and GHASH as a polynomial in the hash key. */
module Ghash {
  import opened Arithmetic
  import opened XorNat
  import opened MaskTables

  const R: nat := 0xE100_0000_0000_0000_0000_0000_0000_0000

  /** A 128-bit block. */
  predicate IsBlock(v: nat) {
    v < Pow2(128)
  }

  /** Multiplication by x. */
  function Half(v: nat): nat {
    if v % 2 == 1 then Xor(v / 2, R) else v / 2
  }

  function Halves(v: nat, n: nat): nat {
    if n == 0 then v else Half(Halves(v, n - 1))
  }

  /** The sum of x^k y over the k < n for which bit 127 - k of x is set. */
  function Partial(x: nat, y: nat, n: nat): nat
    requires n <= 128
  {
    if n == 0 then 0
    else if BitAt(x, 128 - n) == 1 then Xor(Partial(x, y, n - 1), Halves(y, n - 1))
    else Partial(x, y, n - 1)
  }

  function GfMulOf(x: nat, y: nat): nat {
    Partial(x, y, 128)
  }

  method GfMul(x: nat, y: nat) returns (z: nat)
    ensures z == GfMulOf(x, y)
  {
    hide Xor, BitAt, Half;
    var v := y;
    z := 0;
    var i := 127;
    while i >= 0
      invariant -1 <= i <= 127 && v == Halves(y, 127 - i) && z == Partial(x, y, 127 - i)
    {
      if BitAt(x, i) == 1 {
        z := Xor(z, v);
      }
      v := Half(v);
      i := i - 1;
    }
  }

  // ---------- linearity ----------

  lemma XorExchange(a: nat, b: nat, c: nat, d: nat)
    ensures Xor(Xor(a, b), Xor(c, d)) == Xor(Xor(a, c), Xor(b, d))
  {
    hide Xor;
    XorAssoc(a, b, Xor(c, d));
    XorAssoc(b, c, d);
    XorComm(b, c);
    XorAssoc(c, b, d);
    XorAssoc(a, c, Xor(b, d));
  }

  lemma HalfXor(a: nat, b: nat)
    ensures Half(Xor(a, b)) == Xor(Half(a), Half(b))
  {
    XorStep(a, b);
    hide Xor;
    var p, q := a / 2, b / 2;
    XorAssoc(p, q, R);
    XorComm(q, R);
    XorAssoc(p, R, q);
    XorExchange(p, R, q, R);
    XorSelf(R);
    XorZero(Xor(p, q));
  }

  lemma {:induction false} HalvesXor(a: nat, b: nat, n: nat)
    ensures Halves(Xor(a, b), n) == Xor(Halves(a, n), Halves(b, n))
  {
    hide Xor, Half;
    if n > 0 {
      HalvesXor(a, b, n - 1);
      HalfXor(Halves(a, n - 1), Halves(b, n - 1));
    }
  }

  lemma {:induction false} HalvesAdd(v: nat, m: nat, n: nat)
    ensures Halves(Halves(v, m), n) == Halves(v, m + n)
  {
    hide Half;
    if n > 0 {
      HalvesAdd(v, m, n - 1);
    }
  }

  lemma {:induction false} PartialXorRight(x: nat, a: nat, b: nat, n: nat)
    requires n <= 128
    ensures Partial(x, Xor(a, b), n) == Xor(Partial(x, a, n), Partial(x, b, n))
  {
    XorZero(0);
    hide Xor, BitAt, Halves;
    if n > 0 {
      PartialXorRight(x, a, b, n - 1);
      HalvesXor(a, b, n - 1);
      XorExchange(Partial(x, a, n - 1), Partial(x, b, n - 1), Halves(a, n - 1), Halves(b, n - 1));
    }
  }

  lemma {:induction false} PartialXorLeft(a: nat, b: nat, y: nat, n: nat)
    requires n <= 128
    ensures Partial(Xor(a, b), y, n) == Xor(Partial(a, y, n), Partial(b, y, n))
  {
    XorZero(0);
    hide Xor, BitAt, Halves;
    if n > 0 {
      PartialXorLeft(a, b, y, n - 1);
      BitOfXor(a, b, 128 - n);
      SelectXor(Partial(a, y, n - 1), Partial(b, y, n - 1), Halves(y, n - 1), BitAt(a, 128 - n), BitAt(b, 128 - n));
    }
  }

  /** A term that two sums share drops out of their sum. */
  lemma SelectXor(p: nat, q: nat, h: nat, i: nat, j: nat)
    requires i < 2 && j < 2
    ensures (if (i + j) % 2 == 1 then Xor(Xor(p, q), h) else Xor(p, q)) ==
      Xor(if i == 1 then Xor(p, h) else p, if j == 1 then Xor(q, h) else q)
  {
    hide Xor;
    XorAssoc(p, q, h);
    XorComm(q, h);
    XorAssoc(p, h, q);
    XorExchange(p, h, q, h);
    XorSelf(h);
    XorZero(Xor(p, q));
  }

  /** Multiplication is additive in both arguments. */
  lemma MulXor(a: nat, b: nat, y: nat)
    ensures GfMulOf(Xor(a, b), y) == Xor(GfMulOf(a, y), GfMulOf(b, y))
    ensures GfMulOf(y, Xor(a, b)) == Xor(GfMulOf(y, a), GfMulOf(y, b))
  {
    PartialXorLeft(a, b, y, 128);
    PartialXorRight(y, a, b, 128);
  }

  /** Multiplying the second factor by x multiplies the product by x. */
  lemma {:induction false} PartialHalf(x: nat, y: nat, n: nat)
    requires n <= 128
    ensures Partial(x, Half(y), n) == Half(Partial(x, y, n))
  {
    XorZero(0);
    hide Xor, BitAt;
    if n > 0 {
      PartialHalf(x, y, n - 1);
      HalvesAdd(y, 1, n - 1);
      assert Halves(y, 1) == Half(Halves(y, 0));
      assert Halves(y, n) == Half(Halves(y, n - 1));
      hide Half;
      HalfXor(Partial(x, y, n - 1), Halves(y, n - 1));
    }
  }

  lemma {:induction false} MulHalves(x: nat, y: nat, n: nat)
    ensures GfMulOf(x, Halves(y, n)) == Halves(GfMulOf(x, y), n)
  {
    hide Half, Partial;
    if n > 0 {
      MulHalves(x, y, n - 1);
      PartialHalf(x, Halves(y, n - 1), 128);
    }
  }

  // ---------- bits and blocks ----------

  lemma {:induction false} BitOfPow2(m: nat, i: nat)
    ensures BitAt(Pow2(m), i) == if i == m then 1 else 0
    decreases i
  {
    if i == 0 {
    } else if m == 0 {
      NoBits(i - 1);
    } else {
      BitOfPow2(m - 1, i - 1);
    }
  }

  lemma {:induction false} NoBits(i: nat)
    ensures BitAt(0, i) == 0
  {
    if i > 0 {
      NoBits(i - 1);
    }
  }

  lemma {:induction false} BitBeyond(v: nat, n: nat)
    requires v < Pow2(n)
    ensures BitAt(v, n) == 0
    decreases n
  {
    if n > 0 {
      BitBeyond(v / 2, n - 1);
    }
  }

  /** x^k as a number: halving 2^127 k times. */
  lemma {:induction false} PowerOfX(k: nat)
    requires k < 128
    ensures Halves(Pow2(127), k) == Pow2(127 - k)
  {
    hide Xor;
    if k > 0 {
      PowerOfX(k - 1);
      assert Pow2(128 - k) == 2 * Pow2(127 - k);
    }
  }

  lemma {:induction false} PartialSingle(k: nat, y: nat, n: nat)
    requires k < 128 && n <= 128
    ensures Partial(Pow2(127 - k), y, n) == if k < n then Halves(y, k) else 0
  {
    hide Xor, BitAt, Halves;
    if n > 0 {
      PartialSingle(k, y, n - 1);
      BitOfPow2(127 - k, 128 - n);
      XorZero(Halves(y, k));
    }
  }

  /** x^k y. */
  lemma MulPower(k: nat, y: nat)
    requires k < 128
    ensures GfMulOf(Pow2(127 - k), y) == Halves(y, k)
  {
    PartialSingle(k, y, 128);
  }

  /** The block with the upper n bits of v. */
  function UpperBits(v: nat, n: nat): nat
    requires n <= 128
  {
    Partial(v, Pow2(127), n)
  }

  lemma {:induction false} UnitRight(v: nat, n: nat)
    requires n <= 128 && v < Pow2(128)
    ensures Xor(UpperBits(v, n), Low(v, 128 - n)) == v
  {
    hide Xor, BitAt, Halves, Low;
    if n == 0 {
      LowIsAll(v, 128);
      XorZero(v);
    } else {
      UnitRight(v, n - 1);
      PowerOfX(n - 1);
      LowStep(v, 128 - n);
      var u, l, p := UpperBits(v, n - 1), Low(v, 128 - n), Pow2(128 - n);
      XorAssoc(u, p, l);
      XorComm(p, l);
    }
  }

  /** 2^127 is the unit. */
  lemma MulUnit(v: nat)
    requires IsBlock(v)
    ensures GfMulOf(v, Pow2(127)) == v && GfMulOf(Pow2(127), v) == v
  {
    UnitRight(v, 128);
    assert Low(v, 0) == 0;
    hide Low, Partial;
    XorZero(UpperBits(v, 128));
    MulPower(0, v);
    assert Halves(v, 0) == v;
  }

  // ---------- the reduction ----------

  /** x^0 + x^1 + x^2 + x^7, times v. */
  function Reduced(v: nat): nat {
    Xor(Xor(v, Halves(v, 1)), Xor(Halves(v, 2), Halves(v, 7)))
  }

  lemma ReducedXor(a: nat, b: nat)
    ensures Reduced(Xor(a, b)) == Xor(Reduced(a), Reduced(b))
  {
    hide Xor, Halves;
    HalvesXor(a, b, 1);
    HalvesXor(a, b, 2);
    HalvesXor(a, b, 7);
    XorExchange(a, b, Halves(a, 1), Halves(b, 1));
    XorExchange(Halves(a, 2), Halves(b, 2), Halves(a, 7), Halves(b, 7));
    XorExchange(Xor(a, Halves(a, 1)), Xor(b, Halves(b, 1)), Xor(Halves(a, 2), Halves(a, 7)),
                Xor(Halves(b, 2), Halves(b, 7)));
  }

  lemma {:induction false} ReducedHalves(v: nat, n: nat)
    ensures Reduced(Halves(v, n)) == Halves(Reduced(v), n)
  {
    hide Xor, Halves;
    HalvesAdd(v, n, 1); HalvesAdd(v, 1, n);
    HalvesAdd(v, n, 2); HalvesAdd(v, 2, n);
    HalvesAdd(v, n, 7); HalvesAdd(v, 7, n);
    HalvesXor(Xor(v, Halves(v, 1)), Xor(Halves(v, 2), Halves(v, 7)), n);
    HalvesXor(v, Halves(v, 1), n);
    HalvesXor(Halves(v, 2), Halves(v, 7), n);
  }

  lemma Pow120()
    ensures Pow2(120) == 0x1_000000_000000_000000_000000_000000
  {
    assert Pow2(10) == 1024;
    hide Pow2;
    Pow2Adds(10, 10);
    assert Pow2(20) == 0x10_0000;
    Pow2Adds(20, 20);
    assert Pow2(40) == 0x100_0000_0000;
    Pow2Adds(40, 40);
    assert Pow2(80) == 0x1_0000_0000_0000_0000_0000;
    Pow2Adds(80, 40);
  }

  /** R is made of four powers of x. */
  lemma RIsSum(a: nat, b: nat, c: nat, d: nat)
    requires a == Pow2(127) && b == Pow2(126) && c == Pow2(125) && d == Pow2(120)
    ensures R == Xor(Xor(a, b), Xor(c, d))
  {
    Pow120();
    Multiples(a, b, c, d);
    hide Xor, Pow2;
    XorHigh(d, 125);
    XorComm(c, d);
    XorHigh(33 * d, 126);
    XorHigh(97 * d, 127);
    XorAssoc(a, b, 33 * d);
    XorComm(b, 33 * d);
    XorComm(a, 97 * d);
  }

  lemma Multiples(a: nat, b: nat, c: nat, d: nat)
    requires a == Pow2(127) && b == Pow2(126) && c == Pow2(125) && d == Pow2(120)
    ensures c == 32 * d && b == 64 * d && a == 128 * d
  {
    assert Pow2(5) == 32 && Pow2(6) == 64 && Pow2(7) == 128;
    hide Pow2;
    Pow2Adds(5, 120);
    Pow2Adds(6, 120);
    Pow2Adds(7, 120);
  }

  /** R is x^128 reduced: x^0 + x^1 + x^2 + x^7. */
  lemma RIsReduced()
    ensures Reduced(Pow2(127)) == R
  {
    hide Halves, Xor, Pow2;
    PowerOfX(1); PowerOfX(2); PowerOfX(7);
    RIsSum(Pow2(127), Pow2(126), Pow2(125), Pow2(120));
  }

  /** Dividing out 128 halvings is the reduction, first for the powers of x and then for every block. */
  lemma PowerReduces(k: nat)
    requires k < 128
    ensures Halves(Pow2(127 - k), 128) == Reduced(Pow2(127 - k))
  {
    var e := Pow2(127);
    PowerOfX(k);
    PowerOfX(127);
    assert Pow2(0) == 1;
    XorZero(R);
    assert Half(1) == R;
    assert Halves(e, 128) == Half(Halves(e, 127));
    hide Half, Halves, Xor, Reduced;
    RIsReduced();
    HalvesAdd(e, k, 128);
    HalvesAdd(e, 128, k);
    ReducedHalves(e, k);
  }

  lemma {:induction false} LowReduces(v: nat, n: nat)
    requires n <= 128
    ensures Halves(Low(v, n), 128) == Reduced(Low(v, n))
  {
    hide Half, Xor, BitAt, Low;
    if n == 0 {
      ZeroReduces();
    } else {
      LowReduces(v, n - 1);
      LowStep(v, n - 1);
      PowerReduces(128 - n);
      hide Halves, Reduced;
      HalvesXor(Low(v, n - 1), Pow2(n - 1), 128);
      ReducedXor(Low(v, n - 1), Pow2(n - 1));
    }
  }

  lemma {:induction false} ZeroHalves(n: nat)
    ensures Halves(0, n) == 0
  {
    if n > 0 {
      ZeroHalves(n - 1);
    }
  }

  lemma ZeroReduces()
    ensures Low(0, 0) == 0 && Halves(0, 128) == Reduced(0)
  {
    ZeroHalves(128); ZeroHalves(1); ZeroHalves(2); ZeroHalves(7);
    XorZero(0);
    hide Halves, Xor;
  }

  lemma HalvesReduce(v: nat)
    requires IsBlock(v)
    ensures Halves(v, 128) == Reduced(v)
  {
    LowReduces(v, 128);
    LowIsAll(v, 128);
  }

  // ---------- multiplying the first factor by x ----------

  lemma {:induction false} PartialOfHalved(x: nat, y: nat, n: nat)
    requires n < 128 && IsBlock(x)
    ensures Partial(x / 2, y, n + 1) == Half(Partial(x, y, n))
    decreases n
  {
    BitShift(x, 127 - n);
    if n == 0 {
      BitBeyond(x, 128);
      assert Partial(x / 2, y, 0) == 0;
      assert Half(0) == 0;
      hide Xor, Half, Halves, BitAt;
    } else {
      hide Xor, BitAt, Half;
      PartialOfHalved(x, y, n - 1);
      HalfXor(Partial(x, y, n - 1), Halves(y, n - 1));
    }
  }

  lemma BitShift(x: nat, i: nat)
    ensures BitAt(x / 2, i) == BitAt(x, i + 1)
  {}

  lemma HalfBlock(x: nat)
    requires IsBlock(x)
    ensures IsBlock(Half(x)) && IsBlock(x / 2)
  {
    Pow120();
    assert Pow2(128) == 256 * Pow2(120);
    hide Pow2;
    if x % 2 == 1 {
      RBlock();
      XorBound(x / 2, R, 128);
    }
  }

  lemma RBlock()
    ensures R < Pow2(128)
  {
    Pow120();
    assert Pow2(128) == 256 * Pow2(120);
  }

  /** R y = x^128 y. */
  lemma MulR(y: nat)
    requires IsBlock(y)
    ensures GfMulOf(R, y) == Halves(y, 128)
  {
    hide *;
    HalvesReduce(y);
    var a, b, c, d := RTerms(y);
    FourTerms(a, b, c, d, y);
    ReducedMeans(y);
  }

  lemma ReducedMeans(y: nat)
    ensures Reduced(y) == Xor(Xor(y, Halves(y, 1)), Xor(Halves(y, 2), Halves(y, 7)))
  {
    hide Xor, Halves;
  }

  /** The four powers of x that R is made of. */
  lemma RTerms(y: nat) returns (a: nat, b: nat, c: nat, d: nat)
    ensures R == Xor(Xor(a, b), Xor(c, d))
    ensures GfMulOf(a, y) == y && GfMulOf(b, y) == Halves(y, 1) && GfMulOf(c, y) == Halves(y, 2)
    ensures GfMulOf(d, y) == Halves(y, 7)
  {
    hide *;
    a, b, c, d := Term(0, y), Term(1, y), Term(2, y), Term(7, y);
    HalvesNone(y);
    RIsSum(a, b, c, d);
  }

  function Term(k: nat, y: nat): (p: nat)
    requires k < 128
    ensures p == Pow2(127 - k) && GfMulOf(p, y) == Halves(y, k)
  {
    MulPower(k, y);
    Pow2(127 - k)
  }

  lemma FourTerms(a: nat, b: nat, c: nat, d: nat, y: nat)
    ensures GfMulOf(Xor(Xor(a, b), Xor(c, d)), y) ==
      Xor(Xor(GfMulOf(a, y), GfMulOf(b, y)), Xor(GfMulOf(c, y), GfMulOf(d, y)))
  {
    hide Xor, GfMulOf;
    MulXor(Xor(a, b), Xor(c, d), y);
    MulXor(a, b, y);
    MulXor(c, d, y);
  }

  lemma HalvesNone(y: nat)
    ensures Halves(y, 0) == y
  {}

  /** Multiplying the first factor by x multiplies the product by x. */
  lemma MulHalf(x: nat, y: nat)
    requires IsBlock(x) && IsBlock(y)
    ensures GfMulOf(Half(x), y) == Half(GfMulOf(x, y))
  {
    PartialOfHalved(x, y, 127);
    LowBit(x);
    MulR(y);
    var h := Halves(y, 127);
    assert Halves(y, 128) == Half(h);
    hide Xor, Halves, BitAt, Half;
    var p := Partial(x, y, 127);
    HalfXor(p, h);
    MulXor(x / 2, R, y);
    hide Partial;
    HalfCases(x);
  }

  lemma LowBit(x: nat)
    ensures BitAt(x, 0) == x % 2
  {}

  lemma HalfCases(x: nat)
    ensures Half(x) == if x % 2 == 1 then Xor(x / 2, R) else x / 2
  {}

  lemma {:induction false} HalvesBlock(x: nat, n: nat)
    requires IsBlock(x)
    ensures IsBlock(Halves(x, n))
  {
    hide Half, Pow2;
    if n > 0 {
      HalvesBlock(x, n - 1);
      HalfBlock(Halves(x, n - 1));
    }
  }

  lemma {:induction false} HalvesMul(x: nat, y: nat, n: nat)
    requires IsBlock(x) && IsBlock(y)
    ensures GfMulOf(Halves(x, n), y) == Halves(GfMulOf(x, y), n)
  {
    hide Half, Partial, GfMulOf, Pow2;
    if n > 0 {
      HalvesMul(x, y, n - 1);
      HalvesBlock(x, n - 1);
      MulHalf(Halves(x, n - 1), y);
    }
  }

  // ---------- the ring laws ----------

  lemma {:induction false} PartialBlock(x: nat, y: nat, n: nat)
    requires IsBlock(y) && n <= 128
    ensures IsBlock(Partial(x, y, n))
  {
    hide Xor, Halves, BitAt, Pow2;
    if n > 0 {
      PartialBlock(x, y, n - 1);
      HalvesBlock(y, n - 1);
      XorBound(Partial(x, y, n - 1), Halves(y, n - 1), 128);
    } else {
      assert Pow2(128) > 0;
    }
  }

  lemma {:induction false} PartialAssociates(x: nat, y: nat, z: nat, n: nat)
    requires n <= 128 && IsBlock(y) && IsBlock(z)
    ensures GfMulOf(Partial(x, y, n), z) == Partial(x, GfMulOf(y, z), n)
  {
    hide Xor, Halves, BitAt, Pow2, GfMulOf;
    if n == 0 {
      MulZeroLeft(z);
    } else {
      PartialAssociates(x, y, z, n - 1);
      MulXor(Partial(x, y, n - 1), Halves(y, n - 1), z);
      HalvesMul(y, z, n - 1);
    }
  }

  lemma MulZeroLeft(z: nat)
    ensures GfMulOf(0, z) == 0
  {
    XorSelf(0);
    MulXor(0, 0, z);
    hide Xor, GfMulOf;
    XorSelf(GfMulOf(0, z));
  }

  lemma MulAssociates(x: nat, y: nat, z: nat)
    requires IsBlock(y) && IsBlock(z)
    ensures GfMulOf(GfMulOf(x, y), z) == GfMulOf(x, GfMulOf(y, z))
  {
    PartialAssociates(x, y, z, 128);
  }

  lemma {:induction false} LowCommutes(v: nat, y: nat, n: nat)
    requires n <= 128 && IsBlock(y)
    ensures GfMulOf(Low(v, n), y) == GfMulOf(y, Low(v, n))
  {
    hide Xor, BitAt, Partial, Half, GfMulOf, Pow2;
    if n == 0 {
      ZeroCommutes(y);
    } else {
      LowCommutes(v, y, n - 1);
      LowStep(v, n - 1);
      hide Low;
      var p := Pow2(n - 1);
      MulXor(Low(v, n - 1), p, y);
      MulPower(128 - n, y);
      PowerOfX(128 - n);
      MulHalves(y, Pow2(127), 128 - n);
      MulUnit(y);
    }
  }

  lemma ZeroCommutes(y: nat)
    ensures GfMulOf(Low(0, 0), y) == GfMulOf(y, Low(0, 0)) && Low(0, 0) == 0
  {
    MulZeroLeft(y);
    XorSelf(0);
    MulXor(0, 0, y);
    hide GfMulOf, Xor;
    XorSelf(GfMulOf(y, 0));
  }

  lemma MulCommutes(x: nat, y: nat)
    requires IsBlock(x) && IsBlock(y)
    ensures GfMulOf(x, y) == GfMulOf(y, x)
  {
    LowCommutes(x, y, 128);
    LowIsAll(x, 128);
  }

  // ---------- GHASH ----------

  /** The hash of a list of blocks. */
  function GhashOf(h: nat, blocks: seq<nat>): nat {
    if blocks == [] then 0 else GfMulOf(Xor(GhashOf(h, blocks[..|blocks| - 1]), blocks[|blocks| - 1]), h)
  }

  /** h^n. */
  function Power(h: nat, n: nat): nat {
    if n == 0 then Pow2(127) else GfMulOf(Power(h, n - 1), h)
  }

  /** The sum over i < n of X_i h^(top - i). */
  function PolynomialSum(h: nat, blocks: seq<nat>, top: nat, n: nat): nat
    requires n <= |blocks| && n <= top
  {
    if n == 0 then 0 else Xor(PolynomialSum(h, blocks, top, n - 1), GfMulOf(blocks[n - 1], Power(h, top - (n - 1))))
  }

  lemma {:induction false} PowerBlock(h: nat, n: nat)
    requires IsBlock(h)
    ensures IsBlock(Power(h, n))
  {
    if n == 0 {
      PowMono(127, 128);
      assert Pow2(128) == 2 * Pow2(127);
    } else {
      PartialBlock(Power(h, n - 1), h, 128);
    }
  }

  lemma {:induction false} SumTimes(h: nat, blocks: seq<nat>, prefix: seq<nat>, top: nat, n: nat)
    requires n <= |prefix| <= |blocks| && prefix == blocks[..|prefix|] && n <= top && IsBlock(h)
    ensures GfMulOf(PolynomialSum(h, prefix, top, n), h) == PolynomialSum(h, blocks, top + 1, n)
  {
    hide Xor, GfMulOf, Pow2;
    if n == 0 {
      MulZeroLeft(h);
    } else {
      SumTimes(h, blocks, prefix, top, n - 1);
      var x, e := blocks[n - 1], top - (n - 1);
      MulXor(PolynomialSum(h, prefix, top, n - 1), GfMulOf(x, Power(h, e)), h);
      PowerBlock(h, e);
      MulAssociates(x, Power(h, e), h);
    }
  }

  /** GHASH is the polynomial X_0 h^n + X_1 h^(n-1) + ... + X_(n-1) h. */
  lemma {:induction false} GhashIsPolynomial(h: nat, blocks: seq<nat>)
    requires IsBlock(h) && forall i :: 0 <= i < |blocks| ==> IsBlock(blocks[i])
    ensures GhashOf(h, blocks) == PolynomialSum(h, blocks, |blocks|, |blocks|)
    decreases |blocks|
  {
    hide Xor, GfMulOf, Pow2;
    if blocks != [] {
      var n := |blocks| - 1;
      var l, x := blocks[..n], blocks[n];
      GhashIsPolynomial(h, l);
      SumTimes(h, blocks, l, n, n);
      MulXor(GhashOf(h, l), x, h);
      OnePower(h);
    }
  }

  lemma OnePower(h: nat)
    requires IsBlock(h)
    ensures Power(h, 1) == h
  {
    MulUnit(h);
    assert Power(h, 0) == Pow2(127);
    hide GfMulOf, Pow2;
  }
}
