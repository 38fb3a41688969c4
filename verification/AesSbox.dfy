/** The S-box of scripts/aes_gcm/gcm_ref.py (FIPS 197, section 5.1.1): the field inverse followed by a linear map
    and a constant. It is injective. */
module AesSbox {
  import opened Arithmetic
  import opened MaskTables
  import opened BitFields
  import opened AesField

  // ---------- sums by bits ----------

  lemma BitOfAdd(a: Byte, b: Byte, i: nat)
    ensures BitAt(Add(a, b), i) == (BitAt(a, i) + BitAt(b, i)) % 2
  {
    BitOfXor(a, b, i);
  }

  lemma {:induction false} LowFromBits(a: nat, b: nat, n: nat)
    requires forall i :: 0 <= i < n ==> BitAt(a, i) == BitAt(b, i)
    ensures Low(a, n) == Low(b, n)
  {
    if n > 0 {
      LowFromBits(a, b, n - 1);
      LowSum(a, n - 1);
      LowSum(b, n - 1);
    } else {
      assert Low(a, 0) == 0 && Low(b, 0) == 0;
    }
  }

  lemma SameBits(a: Byte, b: Byte)
    requires forall i :: 0 <= i < 8 ==> BitAt(a, i) == BitAt(b, i)
    ensures a == b
  {
    ByteBits();
    LowFromBits(a, b, 8);
    LowIsAll(a, 8);
    LowIsAll(b, 8);
  }

  // ---------- the S-box ----------

  /** The inverse, and 0 for 0. */
  function Inv(x: Byte): Byte {
    if x == 0 then 0 else InverseOf(x)
  }

  /** Rotation by one bit. */
  function Rot(b: Byte): Byte {
    if b < 128 then 2 * b else 2 * b - 255
  }

  /** ((b << n) | (b >> (8 - n))) & 0xFF. */
  function ShiftRot(b: Byte, n: nat): Byte
    requires n <= 8
  {
    Or(b * Pow2(n), b / Pow2(8 - n)) % 256
  }

  /** Rotation by n bits. */
  function Rots(b: Byte, n: nat): Byte {
    if n == 0 then b else Rot(Rots(b, n - 1))
  }

  function Sum5(a: Byte, b: Byte, c: Byte, d: Byte, e: Byte): Byte {
    Add(Add(Add(Add(a, b), c), d), e)
  }

  /** The linear part of the affine map. */
  function Spread(b: Byte): Byte {
    Sum5(b, Rots(b, 1), Rots(b, 2), Rots(b, 3), Rots(b, 4))
  }

  function SboxOf(x: Byte): Byte {
    Add(Spread(Inv(x)), 0x63)
  }

  /** The set-up loop of the module. */
  method Sbox() returns (s: seq<Byte>)
    ensures |s| == 256 && forall x: Byte :: s[x] == SboxOf(x)
  {
    hide GmulOf, Add, Rots, ShiftRot, Inv, Power;
    s := [];
    for x := 0 to 256
      invariant |s| == x && forall y: Byte :: y < x ==> s[y] == SboxOf(y)
    {
      var b := Invert(x);
      var v := b;
      for i := 1 to 5
        invariant i == 1 ==> v == b
        invariant i == 2 ==> v == Add(b, Rots(b, 1))
        invariant i == 3 ==> v == Add(Add(b, Rots(b, 1)), Rots(b, 2))
        invariant i == 4 ==> v == Add(Add(Add(b, Rots(b, 1)), Rots(b, 2)), Rots(b, 3))
        invariant i == 5 ==> v == Spread(b)
      {
        ShiftRotates(b, i);
        v := Add(v, ShiftRot(b, i));
      }
      s := s + [Add(v, 0x63)];
    }
  }

  /** The first y with x y = 1; there is one for every nonzero x. */
  method Invert(x: Byte) returns (b: Byte)
    ensures b == Inv(x)
  {
    hide GmulOf, Power;
    if x == 0 { return 0; }
    Inverse(x);
    GmulByZero(x);
    var y: nat := 1;
    while GmulOf(x, y) != 1
      invariant 1 <= y <= InverseOf(x)
      decreases InverseOf(x) - y
    {
      y := y + 1;
    }
    InverseUnique(x, y, InverseOf(x));
    b := y;
  }

  lemma RotBits(b: Byte, i: nat)
    requires i < 8
    ensures BitAt(Rot(b), i) == if i == 0 then BitAt(b, 7) else BitAt(b, i - 1)
  {
    HighBit(b);
    if i == 0 {
    } else {
      assert Rot(b) / 2 == b % 128;
      LowBits(b, i - 1);
    }
  }

  lemma HighBit(b: Byte)
    ensures BitAt(b, 7) == b / 128
  {
    ByteBits();
    assert Pow2(7) == 128;
    LowSum(b, 7);
    LowIsAll(b, 8);
    HighLow(b, 7);
    assert Low(b, 7) < 128;
  }

  /** Dropping the top bit leaves the lower bits alone. */
  lemma {:induction false} LowBits(b: nat, i: nat)
    requires i < 7
    ensures BitAt(b % 128, i) == BitAt(b, i)
    decreases i
  {
    assert b % 128 == b - 128 * (b / 128);
    ShiftedBits(b % 128, b / 128, 7, i);
  }

  lemma {:induction false} ShiftedBits(l: nat, h: nat, n: nat, i: nat)
    requires i < n <= 7
    ensures BitAt(l + Pow2(n) * h, i) == BitAt(l, i)
    ensures n == 7 ==> Pow2(n) == 128
    decreases i
  {
    assert Pow2(7) == 128;
    var v := l + Pow2(n) * h;
    assert Pow2(n) * h == 2 * (Pow2(n - 1) * h);
    assert v % 2 == l % 2 && v / 2 == l / 2 + Pow2(n - 1) * h;
    if i > 0 {
      ShiftedBits(l / 2, h, n - 1, i - 1);
    }
  }

  /** Bit i of a rotated byte. */
  lemma {:induction false} RotsBits(b: Byte, n: nat, i: nat)
    requires i < 8 && n <= 8
    ensures BitAt(Rots(b, n), i) == BitAt(b, (i + 8 - n) % 8)
  {
    hide Rot, BitAt;
    if n > 0 {
      RotBits(Rots(b, n - 1), i);
      if i == 0 {
        RotsBits(b, n - 1, 7);
      } else {
        RotsBits(b, n - 1, i - 1);
      }
    }
  }

  // ---------- the shifts ----------

  lemma {:induction false} BitOfOr(x: nat, y: nat, i: nat)
    ensures BitAt(Or(x, y), i) == if BitAt(x, i) == 1 || BitAt(y, i) == 1 then 1 else 0
    decreases i
  {
    if i == 0 {
      assert Or(x, y) % 2 == if x % 2 == 1 || y % 2 == 1 then 1 else 0;
    } else {
      assert Or(x, y) / 2 == Or(x / 2, y / 2);
      BitOfOr(x / 2, y / 2, i - 1);
    }
  }

  lemma {:induction false} BitOfShiftedUp(b: nat, n: nat, i: nat)
    ensures BitAt(b * Pow2(n), i) == if i < n then 0 else BitAt(b, i - n)
    decreases n
  {
    if n > 0 {
      AppendTerms(b, Pow2(n - 1));
      var v := b * Pow2(n - 1);
      assert (2 * v) / 2 == v && (2 * v) % 2 == 0;
      if i > 0 {
        BitOfShiftedUp(b, n - 1, i - 1);
      }
    }
  }

  lemma {:induction false} BitOfShiftedDown(b: nat, n: nat, h: nat, i: nat)
    requires b / Pow2(n) == h
    ensures BitAt(h, i) == BitAt(b, i + n)
    decreases n
  {
    if n > 0 {
      DivDiv(b, Pow2(n - 1));
      BitOfShiftedDown(b / 2, n - 1, h, i);
    }
  }

  lemma DivDiv(b: nat, m: nat)
    requires m > 0
    ensures b / 2 / m == b / (2 * m)
  {
    var q, r := b / 2 / m, b / 2 % m;
    assert b / 2 == m * q + r;
    assert b == 2 * (m * q) + 2 * r + b % 2;
    assert 2 * (m * q) == 2 * m * q;
    Divide(q, 2 * r + b % 2, 2 * m);
  }

  lemma {:induction false} BitOfLow(x: nat, n: nat, i: nat)
    requires i < n
    ensures BitAt(Low(x, n), i) == BitAt(x, i)
    decreases i
  {
    if i > 0 {
      BitOfLow(x / 2, n - 1, i - 1);
    }
  }

  lemma {:induction false} NoHighBits(b: nat, n: nat, i: nat)
    requires b < Pow2(n) && i >= n
    ensures BitAt(b, i) == 0
    decreases n
  {
    if n > 0 {
      NoHighBits(b / 2, n - 1, i - 1);
    } else {
      BitsOfZero(i);
    }
  }

  lemma {:induction false} BitsOfZero(i: nat)
    ensures BitAt(0, i) == 0
  {
    if i > 0 {
      BitsOfZero(i - 1);
    }
  }

  lemma LowByte(x: nat)
    ensures Low(x, 8) == x % 256
  {
    ByteBits();
    HighLow(x, 8);
    var h, l := High(x, 8), Low(x, 8);
    assert x == 256 * h + l;
  }

  /** The source's shifts are the rotation. */
  lemma ShiftRotates(b: Byte, n: nat)
    requires n <= 8
    ensures ShiftRot(b, n) == Rots(b, n)
  {
    hide Pow2, Or, Rots, BitAt, Low;
    ByteBits();
    var up, down := b * Pow2(n), b / Pow2(8 - n);
    forall i | 0 <= i < 8
      ensures BitAt(ShiftRot(b, n), i) == BitAt(Rots(b, n), i)
    {
      RotsBits(b, n, i);
      LowByte(Or(up, down));
      BitOfLow(Or(up, down), 8, i);
      BitOfOr(up, down, i);
      BitOfShiftedUp(b, n, i);
      BitOfShiftedDown(b, 8 - n, down, i);
      BitRange(b, (i + 8 - n) % 8);
      if i >= n {
        NoHighBits(b, 8, i + 8 - n);
      }
    }
    SameBits(ShiftRot(b, n), Rots(b, n));
  }

  lemma Parity(a: nat, b: nat)
    ensures (a % 2 + b) % 2 == (a + b) % 2
  {}

  lemma BitOfSum5(a: Byte, b: Byte, c: Byte, d: Byte, e: Byte, i: nat)
    ensures BitAt(Sum5(a, b, c, d, e), i)
      == (BitAt(a, i) + BitAt(b, i) + BitAt(c, i) + BitAt(d, i) + BitAt(e, i)) % 2
  {
    hide BitAt, Add;
    var s3 := Add(Add(a, b), c);
    assert Sum5(a, b, c, d, e) == Add(Add(s3, d), e);
    BitOfSum3(a, b, c, i);
    BitOfSum3(s3, d, e, i);
    hide *;
    Combine(BitAt(a, i), BitAt(b, i), BitAt(c, i), BitAt(d, i), BitAt(e, i), BitAt(s3, i));
  }

  lemma BitOfSum3(a: Byte, b: Byte, c: Byte, i: nat)
    ensures BitAt(Add(Add(a, b), c), i) == (BitAt(a, i) + BitAt(b, i) + BitAt(c, i)) % 2
  {
    BitOfAdd(a, b, i);
    BitOfAdd(Add(a, b), c, i);
    hide *;
    Parity(BitAt(a, i) + BitAt(b, i), BitAt(c, i));
  }

  lemma Combine(a: nat, b: nat, c: nat, d: nat, e: nat, s3: nat)
    requires s3 == (a + b + c) % 2
    ensures (s3 + d + e) % 2 == (a + b + c + d + e) % 2
  {
    Parity(a + b + c, d + e);
  }

  lemma SpreadBits(b: Byte, i: nat)
    requires i < 8
    ensures BitAt(Spread(b), i) == (BitAt(b, i) + BitAt(b, (i + 7) % 8) + BitAt(b, (i + 6) % 8) + BitAt(b, (i + 5) % 8)
                                    + BitAt(b, (i + 4) % 8)) % 2
  {
    hide BitAt, Rots, Sum5;
    RotsBits(b, 1, i); RotsBits(b, 2, i); RotsBits(b, 3, i); RotsBits(b, 4, i);
    BitOfSum5(b, Rots(b, 1), Rots(b, 2), Rots(b, 3), Rots(b, 4), i);
  }

  /** The next bit position around the byte. */
  function Succ(i: nat): nat {
    if i == 7 then 0 else i + 1
  }

  lemma SpreadBitsAt(b: Byte, i: nat, i1: nat, i2: nat, i3: nat, i4: nat)
    requires i < 8 && i1 < 8 && i2 < 8 && i3 < 8 && i4 < 8 && i == Succ(i1) && i1 == Succ(i2) && i2 == Succ(i3)
    requires i3 == Succ(i4)
    ensures BitAt(Spread(b), i) == (BitAt(b, i) + BitAt(b, i1) + BitAt(b, i2) + BitAt(b, i3) + BitAt(b, i4)) % 2
  {
    hide Spread, BitAt;
    SpreadBits(b, i);
    assert (i + 7) % 8 == i1 && (i + 6) % 8 == i2 && (i + 5) % 8 == i3 && (i + 4) % 8 == i4;
  }

  lemma EvenSums(a0: nat, a1: nat, a2: nat, a3: nat, a4: nat, a5: nat, a6: nat, a7: nat, s7: nat, s5: nat, s2: nat)
    requires a0 < 2
    requires s7 == (a7 + a6 + a5 + a4 + a3) % 2 && s5 == (a5 + a4 + a3 + a2 + a1) % 2
    requires s2 == (a2 + a1 + a0 + a7 + a6) % 2
    ensures a0 == (s7 + s5 + s2) % 2
  {}

  lemma Around(i: nat)
    requires i < 8
    ensures var i2 := Succ(Succ(i)); var i4 := Succ(Succ(i2)); var i6 := Succ(Succ(i4)); Succ(Succ(i6)) == i
  {}

  lemma BitRange(b: nat, i: nat)
    ensures BitAt(b, i) < 2
  {}

  /** The spread byte determines the byte: bit i is the sum of the bits i - 1, i - 3 and i - 6 of the spread. */
  lemma Unspread(b: Byte, i: nat)
    requires i < 8
    ensures var i2 := Succ(Succ(i)); var i5 := Succ(Succ(Succ(i2))); var i7 := Succ(Succ(i5));
      BitAt(b, i) == (BitAt(Spread(b), i7) + BitAt(Spread(b), i5) + BitAt(Spread(b), i2)) % 2
  {
    var i1 := Succ(i);
    var i2 := Succ(i1);
    var i3 := Succ(i2);
    var i4 := Succ(i3);
    var i5 := Succ(i4);
    var i6 := Succ(i5);
    var i7 := Succ(i6);
    Around(i);
    BitRange(b, i);
    Below(i, i1, i2, i3, i4, i5, i6, i7);
    hide *;
    SpreadBitsAt(b, i7, i6, i5, i4, i3);
    SpreadBitsAt(b, i5, i4, i3, i2, i1);
    SpreadBitsAt(b, i2, i1, i, i7, i6);
    var t := Spread(b);
    EvenSums(BitAt(b, i), BitAt(b, i1), BitAt(b, i2), BitAt(b, i3), BitAt(b, i4), BitAt(b, i5), BitAt(b, i6),
             BitAt(b, i7), BitAt(t, i7), BitAt(t, i5), BitAt(t, i2));
  }

  lemma Below(i: nat, i1: nat, i2: nat, i3: nat, i4: nat, i5: nat, i6: nat, i7: nat)
    requires i < 8 && i1 == Succ(i) && i2 == Succ(i1) && i3 == Succ(i2) && i4 == Succ(i3) && i5 == Succ(i4)
    requires i6 == Succ(i5) && i7 == Succ(i6)
    ensures i1 < 8 && i2 < 8 && i3 < 8 && i4 < 8 && i5 < 8 && i6 < 8 && i7 < 8
  {}

  lemma SpreadInjective(a: Byte, b: Byte)
    requires Spread(a) == Spread(b)
    ensures a == b
  {
    hide Spread, BitAt;
    forall i | 0 <= i < 8
      ensures BitAt(a, i) == BitAt(b, i)
    {
      Unspread(a, i);
      Unspread(b, i);
      hide Succ;
    }
    SameBits(a, b);
  }

  lemma InvInjective(x: Byte, y: Byte)
    requires Inv(x) == Inv(y)
    ensures x == y
  {
    hide GmulOf, Power;
    GmulByZero(x);
    GmulByZero(y);
    if x != 0 { Inverse(x); }
    if y != 0 { Inverse(y); }
    if x != 0 && y != 0 {
      GmulComm(x, Inv(x));
      GmulComm(y, Inv(y));
      InverseUnique(Inv(x), x, y);
    }
  }

  /** The S-box is injective. */
  lemma SboxInjective(x: Byte, y: Byte)
    requires SboxOf(x) == SboxOf(y)
    ensures x == y
  {
    hide Inv, Spread, Add;
    AddCancel(Spread(Inv(x)), 0x63);
    AddCancel(Spread(Inv(y)), 0x63);
    SpreadInjective(Inv(x), Inv(y));
    InvInjective(x, y);
  }
}
