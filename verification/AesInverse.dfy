/** The inverse cipher of FIPS 197, section 5.3, step by step, and that it undoes the cipher of
    scripts/aes_gcm/gcm_ref.py under every key. */
module AesInverse {
  import opened Arithmetic
  import opened MaskTables
  import opened BitFields
  import opened AesField
  import opened AesSbox
  import opened Aes

  // ---------- InvSubBytes ----------

  /** The inverse of the affine map without its constant: rotations by 1, 3 and 6 bits. */
  function Gather(y: Byte): Byte {
    Add(Add(Rots(y, 1), Rots(y, 3)), Rots(y, 6))
  }

  /** The inverse affine map, then the field inverse. */
  function InvSbox(y: Byte): Byte {
    Inv(Add(Gather(y), 0x05))
  }

  lemma GatherBits(y: Byte, i: nat)
    requires i < 8
    ensures BitAt(Gather(y), i) == (BitAt(y, (i + 7) % 8) + BitAt(y, (i + 5) % 8) + BitAt(y, (i + 2) % 8)) % 2
  {
    hide BitAt, Rots, Add;
    RotsBits(y, 1, i);
    RotsBits(y, 3, i);
    RotsBits(y, 6, i);
    BitOfSum3(Rots(y, 1), Rots(y, 3), Rots(y, 6), i);
  }

  /** The constants 0x63 and 0x05 fit together. */
  lemma ConstantBits(i: nat)
    requires i < 8
    ensures BitAt(5, i) == (BitAt(0x63, (i + 7) % 8) + BitAt(0x63, (i + 5) % 8) + BitAt(0x63, (i + 2) % 8)) % 2
  {
    hide BitAt;
    Bits63();
    Bits5();
    if i < 4 {
      assert i == 0 || i == 1 || i == 2 || i == 3;
    } else {
      assert i == 4 || i == 5 || i == 6 || i == 7;
    }
  }

  lemma Bits63()
    ensures BitAt(0x63, 0) == 1 && BitAt(0x63, 1) == 1 && BitAt(0x63, 2) == 0 && BitAt(0x63, 3) == 0
    ensures BitAt(0x63, 4) == 0 && BitAt(0x63, 5) == 1 && BitAt(0x63, 6) == 1 && BitAt(0x63, 7) == 0
  {}

  lemma Bits5()
    ensures BitAt(5, 0) == 1 && BitAt(5, 1) == 0 && BitAt(5, 2) == 1 && BitAt(5, 3) == 0
    ensures BitAt(5, 4) == 0 && BitAt(5, 5) == 0 && BitAt(5, 6) == 0 && BitAt(5, 7) == 0
  {}

  lemma Places(i: nat)
    requires i < 8
    ensures var j2, j5, j7 := (i + 2) % 8, (i + 5) % 8, (i + 7) % 8;
      Succ(Succ(i)) == j2 && Succ(Succ(Succ(j2))) == j5 && Succ(Succ(j5)) == j7
  {}

  lemma Ungathered(b: Byte, i: nat)
    requires i < 8
    ensures BitAt(Add(Gather(Add(Spread(b), 0x63)), 5), i) == BitAt(b, i)
  {
    hide *;
    var s := Spread(b);
    var y := Add(s, 0x63);
    var j7, j5, j2 := (i + 7) % 8, (i + 5) % 8, (i + 2) % 8;
    var s7: nat, s5: nat, s2: nat := BitAt(s, j7), BitAt(s, j5), BitAt(s, j2);
    var c7: nat, c5: nat, c2: nat := BitAt(0x63, j7), BitAt(0x63, j5), BitAt(0x63, j2);
    var y7: nat, y5: nat, y2: nat := BitAt(y, j7), BitAt(y, j5), BitAt(y, j2);
    assert BitAt(b, i) == (s7 + s5 + s2) % 2 by {
      Unspread(b, i);
      Places(i);
      BitRange(b, i);
    }
    BitOfAdd(s, 0x63, j7);
    BitOfAdd(s, 0x63, j5);
    BitOfAdd(s, 0x63, j2);
    GatherBits(y, i);
    ConstantBits(i);
    BitOfAdd(Gather(y), 5, i);
    Twice(s7, s5, s2, c7, c5, c2, y7, y5, y2, BitAt(Gather(y), i), BitAt(5, i));
  }

  lemma Twice(s7: nat, s5: nat, s2: nat, c7: nat, c5: nat, c2: nat, y7: nat, y5: nat, y2: nat, g: nat, d: nat)
    requires y7 == (s7 + c7) % 2 && y5 == (s5 + c5) % 2 && y2 == (s2 + c2) % 2
    requires g == (y7 + y5 + y2) % 2 && d == (c7 + c5 + c2) % 2
    ensures (g + d) % 2 == (s7 + s5 + s2) % 2
  {}

  lemma InvTwice(x: Byte)
    ensures Inv(Inv(x)) == x
  {
    hide GmulOf, Power;
    if x != 0 {
      Inverse(x);
      GmulByZero(x);
      Inverse(Inv(x));
      GmulComm(x, Inv(x));
      InverseUnique(Inv(x), x, Inv(Inv(x)));
    }
  }

  lemma InvSboxUndoes(x: Byte)
    ensures InvSbox(SboxOf(x)) == x
  {
    hide BitAt, Inv, Spread, Gather, Add;
    var b := Inv(x);
    forall i | 0 <= i < 8
      ensures BitAt(Add(Gather(Add(Spread(b), 0x63)), 5), i) == BitAt(b, i)
    {
      Ungathered(b, i);
    }
    SameBits(Add(Gather(Add(Spread(b), 0x63)), 5), b);
    InvTwice(x);
  }

  function InvSub(s: Bytes): (t: Bytes)
    ensures |t| == |s|
  {
    seq(|s|, i requires 0 <= i < |s| => InvSbox(s[i]))
  }

  lemma InvSubUndoes(s: Bytes)
    ensures InvSub(Sub(s)) == s
  {
    hide InvSbox, SboxOf;
    forall i | 0 <= i < |s|
      ensures InvSub(Sub(s))[i] == s[i]
    {
      InvSboxUndoes(s[i]);
    }
  }

  // ---------- InvShiftRows ----------

  /** Row r turns right by r columns. */
  function InvShifted(s: Block): Block {
    seq(16, i requires 0 <= i < 16 => s[4 * ((i / 4 + 4 - i % 4) % 4) + i % 4])
  }

  /** The byte in row r and column c goes to column c + r. */
  lemma InvShiftMoves(s: Block, r: nat, c: nat)
    requires r < 4 && c < 4
    ensures InvShifted(s)[4 * ((c + r) % 4) + r] == s[4 * c + r]
  {
    Turned(c, r);
  }

  lemma Turned(c: nat, r: nat)
    requires r < 4 && c < 4
    ensures var i := 4 * ((c + r) % 4) + r; i / 4 == (c + r) % 4 && i % 4 == r && (i / 4 + 4 - r) % 4 == c
    ensures var i := 4 * ((c + 4 - r) % 4) + r; i / 4 == (c + 4 - r) % 4 && i % 4 == r && (i / 4 + r) % 4 == c
  {
    if r == 0 {} else if r == 1 {} else if r == 2 {} else {}
  }

  /** Where byte i comes from, after both. */
  lemma ThereAndBack(i: nat)
    requires i < 16
    ensures var j := 4 * ((i / 4 + 4 - i % 4) % 4) + i % 4; j < 16 && Source(j) == i
  {
    Turned(i / 4, i % 4);
  }

  lemma InvShiftUndoes(s: Block)
    ensures InvShifted(Shifted(s)) == s
  {
    hide Source;
    forall i | 0 <= i < 16
      ensures InvShifted(Shifted(s))[i] == s[i]
    {
      ThereAndBack(i);
    }
  }

  // ---------- InvMixColumns ----------

  /** 0e p + 0b q + 0d r + 09 s. */
  function InvRow(p: Byte, q: Byte, r: Byte, s: Byte): Byte {
    Add(Add(GmulOf(p, 0x0e), GmulOf(q, 0x0b)), Add(GmulOf(r, 0x0d), GmulOf(s, 0x09)))
  }

  function InvColumn(p: Byte, q: Byte, r: Byte, s: Byte): (m: Bytes)
    ensures |m| == 4
  {
    [InvRow(p, q, r, s), InvRow(q, r, s, p), InvRow(r, s, p, q), InvRow(s, p, q, r)]
  }

  function InvColumnAt(s: Block, c: nat): (m: Bytes)
    requires c < 4
    ensures |m| == 4
  {
    InvColumn(s[4 * c], s[4 * c + 1], s[4 * c + 2], s[4 * c + 3])
  }

  function InvMixed(s: Block): Block {
    hide InvColumnAt;
    InvColumnAt(s, 0) + InvColumnAt(s, 1) + InvColumnAt(s, 2) + InvColumnAt(s, 3)
  }

  function X1(a: Byte): Byte { Xt(a) }

  function X2(a: Byte): Byte { Xt(Xt(a)) }

  function X3(a: Byte): Byte { Xt(Xt(Xt(a))) }

  lemma Products(p: Byte)
    ensures GmulOf(p, 0x0e) == Add(X1(p), Add(X2(p), X3(p))) && GmulOf(p, 0x0b) == Add(p, Add(X1(p), X3(p)))
    ensures GmulOf(p, 0x0d) == Add(p, Add(X2(p), X3(p))) && GmulOf(p, 0x09) == Add(p, X3(p))
  {
    hide Add, Xt;
    var a, b, c := X1(p), X2(p), X3(p);
    OneProduct(c);
    EvenProduct(b, 1); OddProduct(b, 1);
    EvenProduct(a, 2); OddProduct(a, 2);
    EvenProduct(a, 3); OddProduct(a, 3);
    EvenProduct(p, 7); OddProduct(p, 5); OddProduct(p, 6); OddProduct(p, 4);
  }

  lemma OneProduct(a: Byte)
    ensures GmulOf(a, 1) == a
  {
    GmulOne(a);
    GmulComm(a, 1);
  }

  lemma EvenProduct(a: Byte, n: nat)
    requires n > 0
    ensures GmulOf(a, 2 * n) == GmulOf(Xt(a), n)
  {
    hide Add, Xt;
    AddZero(GmulOf(Xt(a), n));
    AddComm(0, GmulOf(Xt(a), n));
    assert (2 * n) / 2 == n && (2 * n) % 2 == 0;
  }

  lemma OddProduct(a: Byte, n: nat)
    ensures GmulOf(a, 2 * n + 1) == Add(a, GmulOf(Xt(a), n))
  {
    hide Add, Xt;
    assert (2 * n + 1) / 2 == n && (2 * n + 1) % 2 == 1;
  }

  /** The terms of an inverse row, gathered by powers of x. */
  lemma RowGathered(p: Byte, q: Byte, r: Byte, s: Byte)
    ensures InvRow(p, q, r, s)
      == Add(Add(X1(Add(p, q)), Add(X2(Add(p, r)), Add(q, Add(r, s)))), X3(Sum4(p, q, r, s)))
  {
    Products(p); Products(q); Products(r); Products(s);
    Additive(p, q);
    Additive(p, r);
    Additive4(p, q, r, s);
    hide *;
    Regrouped(X1(p), X2(p), X3(p), q, X1(q), X3(q), r, X2(r), X3(r), s, X3(s));
    RowIs(p, q, r, s);
  }

  lemma RowIs(p: Byte, q: Byte, r: Byte, s: Byte)
    ensures InvRow(p, q, r, s)
      == Add(Add(GmulOf(p, 0x0e), GmulOf(q, 0x0b)), Add(GmulOf(r, 0x0d), GmulOf(s, 0x09)))
  {
    hide Add, GmulOf;
  }

  lemma Additive(a: Byte, b: Byte)
    ensures X1(Add(a, b)) == Add(X1(a), X1(b)) && X2(Add(a, b)) == Add(X2(a), X2(b))
    ensures X3(Add(a, b)) == Add(X3(a), X3(b))
  {
    hide Add, Xt;
    XtAdd(a, b);
    XtAdd(Xt(a), Xt(b));
    XtAdd(Xt(Xt(a)), Xt(Xt(b)));
  }

  lemma Additive4(p: Byte, q: Byte, r: Byte, s: Byte)
    ensures X3(Sum4(p, q, r, s)) == Sum4(X3(p), X3(q), X3(r), X3(s))
  {
    hide Add, X3;
    Additive(p, q);
    Additive(r, s);
    Additive(Add(p, q), Add(r, s));
  }

  lemma Regrouped(p1: Byte, p2: Byte, p3: Byte, q: Byte, q1: Byte, q3: Byte, r: Byte, r2: Byte, r3: Byte, s: Byte,
                  s3: Byte)
    ensures Add(Add(Add(p1, Add(p2, p3)), Add(q, Add(q1, q3))), Add(Add(r, Add(r2, r3)), Add(s, s3)))
      == Add(Add(Add(p1, q1), Add(Add(p2, r2), Add(q, Add(r, s)))), Sum4(p3, q3, r3, s3))
  {
    hide Add;
    AddAssoc(p1, p2, p3);
    AddAssoc(q, q1, q3);
    AddAssoc(r, r2, r3);
    AddExchange(Add(p1, p2), p3, Add(q, q1), q3);
    AddExchange(Add(r, r2), r3, s, s3);
    var u, w := Add(Add(p1, p2), Add(q, q1)), Add(Add(r, r2), s);
    AddExchange(u, Add(p3, q3), w, Add(r3, s3));
    AddComm(q, q1);
    AddExchange(p1, p2, q1, q);
    AddComm(r, r2);
    AddAssoc(r2, r, s);
    AddAssoc(Add(p1, q1), Add(p2, q), w);
    AddExchange(p2, q, r2, Add(r, s));
  }

  /** One row of the inverse matrix times the matrix: only the first byte is left. */
  lemma InvRowUndoes(a: Byte, b: Byte, c: Byte, d: Byte)
    ensures var t := Sum4(a, b, c, d); InvRow(Row(a, b, t), Row(b, c, t), Row(c, d, t), Row(d, a, t)) == a
  {
    var t := Sum4(a, b, c, d);
    var p, q, r, s := Row(a, b, t), Row(b, c, t), Row(c, d, t), Row(d, a, t);
    RowGathered(p, q, r, s);
    RowsTotal(a, b, c, d, t);
    RowsAdded(a, b, c, d, t);
    RowsAdded(a, b, b, c, t);
    AddMiddle(a, b, c);
    OtherThree(p, q, r, s);
    RowMeans(a, b, t);
    hide Add, Xt, Row, Sum4, InvRow;
    var u, v, w := X1(Add(a, b)), X2(Add(a, c)), X3(t);
    Additive(Add(a, b), Xt(Add(a, c)));
    Additive(Add(a, c), Xt(t));
    RestOfRow(a, t, u);
    Vanish(a, u, v, w);
  }

  lemma RestOfRow(a: Byte, t: Byte, u: Byte)
    ensures Add(Add(Add(a, t), u), t) == Add(a, u)
  {
    hide Add;
    AddAssoc(a, t, u);
    AddComm(t, u);
    AddAssoc(a, u, t);
    AddAssoc(Add(a, u), t, t);
    AddSelf(t);
    AddZero(Add(a, u));
  }

  lemma Vanish(a: Byte, u: Byte, v: Byte, w: Byte)
    ensures Add(Add(Add(u, v), Add(Add(v, w), Add(a, u))), w) == a
  {
    hide Add;
    AddAssoc(Add(u, v), Add(v, w), Add(a, u));
    AddMiddle(u, v, w);
    AddComm(u, w);
    AddComm(a, u);
    AddMiddle(w, u, a);
    AddComm(w, a);
    AddCancel(a, w);
  }

  lemma InvColumnUndoes(a: Byte, b: Byte, c: Byte, d: Byte)
    ensures var m := Column(a, b, c, d); InvColumn(m[0], m[1], m[2], m[3]) == [a, b, c, d]
  {
    ColumnRows(a, b, c, d);
    Turn(a, b, c, d); Turn(b, c, d, a); Turn(c, d, a, b);
    hide InvRow, Row, Sum4, Column;
    InvRowUndoes(a, b, c, d);
    InvRowUndoes(b, c, d, a);
    InvRowUndoes(c, d, a, b);
    InvRowUndoes(d, a, b, c);
  }

  lemma InvMixUndoes(s: Block)
    ensures InvMixed(Mixed(s)) == s
  {
    MixedColumns(s);
    var m := Mixed(s);
    hide Column, InvColumn, Mixed;
    Unmixed(s, m, 0);
    Unmixed(s, m, 1);
    Unmixed(s, m, 2);
    Unmixed(s, m, 3);
    assert s == s[..4] + s[4..8] + s[8..12] + s[12..];
  }

  lemma Unmixed(s: Block, m: Block, c: nat)
    requires c < 4 && m[4 * c..4 * c + 4] == ColumnAt(s, c)
    ensures InvColumnAt(m, c) == s[4 * c..4 * c + 4]
  {
    hide Column, InvColumn;
    var k := ColumnAt(s, c);
    assert m[4 * c] == k[0] && m[4 * c + 1] == k[1] && m[4 * c + 2] == k[2] && m[4 * c + 3] == k[3];
    InvColumnUndoes(s[4 * c], s[4 * c + 1], s[4 * c + 2], s[4 * c + 3]);
  }

  // ---------- the inverse cipher ----------

  /** The state of the inverse cipher when the rounds above r are undone. */
  function Undone(rk: seq<Bytes>, block: Block, r: nat): Block
    requires IsSchedule(rk) && r < |rk|
    decreases |rk| - r
  {
    if r == |rk| - 1 then XorOf(block, rk[r])
    else
      var s := XorOf(InvSub(InvShifted(Undone(rk, block, r + 1))), rk[r]);
      if r == 0 then s else InvMixed(s)
  }

  function DecryptOf(key: Bytes, block: Block): Block
    requires IsKey(key)
  {
    Undone(Schedule(key), block, 0)
  }

  /** Undoing rounds gives the states of the cipher back, the last one before its shift. */
  lemma {:induction false} RoundUndone(rk: seq<Bytes>, block: Block, r: nat)
    requires IsSchedule(rk) && |rk| > 1 && 0 < r < |rk|
    ensures Undone(rk, StateAfter(rk, block, |rk| - 1), r) == Shifted(Sub(StateAfter(rk, block, r - 1)))
    decreases |rk| - r
  {
    hide XorOf, Mixed, Shifted, Sub, InvSub, InvShifted, InvMixed;
    var s := Shifted(Sub(StateAfter(rk, block, r - 1)));
    if r == |rk| - 1 {
      XorCancels(s, rk[r]);
    } else {
      RoundUndone(rk, block, r + 1);
      var t := StateAfter(rk, block, r);
      InvShiftUndoes(Sub(t));
      InvSubUndoes(t);
      XorCancels(Mixed(s), rk[r]);
      InvMixUndoes(s);
    }
  }

  /** The inverse cipher undoes the cipher, for every key of 16 or 32 bytes and every block. */
  lemma DecryptUndoes(key: Bytes, block: Block)
    requires IsKey(key)
    ensures DecryptOf(key, EncryptOf(key, block)) == block
  {
    var rk := Schedule(key);
    hide XorOf, Mixed, Shifted, Sub, InvSub, InvShifted, InvMixed, RoundKey;
    RoundUndone(rk, block, 1);
    var t := StateAfter(rk, block, 0);
    InvShiftUndoes(Sub(t));
    InvSubUndoes(t);
    XorCancels(block, rk[0]);
  }

  // ---------- the key schedule, byte by byte ----------

  /** What FIPS 197, section 5.2, adds to byte k of word i - nk: the word v before, turned by one byte and substituted
      at the start of each key length, where the power of x comes in at the first byte, and substituted without turning
      in the middle of a long key. */
  function Addend(nk: nat, i: nat, v: Bytes, k: nat): Byte
    requires nk in {4, 8} && i >= nk && |v| == 4 && k < 4
  {
    if i % nk == 0 then Add(SboxOf(v[(k + 1) % 4]), if k == 0 then Power(2, i / nk - 1) else 0)
    else if nk == 8 && i % 8 == 4 then SboxOf(v[k])
    else v[k]
  }

  lemma AtLeastOnce(i: nat, nk: nat)
    requires nk in {4, 8} && nk <= i
    ensures i / nk > 0
  {
    if nk == 4 {} else {}
  }

  lemma TurnedByte(v: Bytes, k: nat)
    requires |v| == 4 && k < 4
    ensures |v[1..] + v[..1]| == 4 && Sub(v[1..] + v[..1])[k] == SboxOf(v[(k + 1) % 4])
  {
    hide SboxOf;
    assert (v[1..] + v[..1])[k] == v[(k + 1) % 4];
  }

  lemma TwistedStart(nk: nat, i: nat, v: Bytes)
    requires nk in {4, 8} && i >= nk && |v| == 4 && i % nk == 0
    ensures i / nk > 0
    ensures var s := Sub(v[1..] + v[..1]); |s| == 4 && Twisted(nk, i, v) == s[0 := Add(s[0], Xts(1, i / nk - 1))]
  {
    hide Add, SboxOf, Xts;
    AtLeastOnce(i, nk);
  }

  lemma TwistedByte(nk: nat, i: nat, v: Bytes, k: nat)
    requires nk in {4, 8} && i >= nk && |v| == 4 && k < 4
    ensures Twisted(nk, i, v)[k] == Addend(nk, i, v, k)
  {
    hide Add, SboxOf, Xts, Power;
    if i % nk == 0 {
      TwistedStart(nk, i, v);
      hide Twisted, Sub;
      PowerOfTwo(i / nk - 1);
      AddZero(SboxOf(v[(k + 1) % 4]));
      TurnedByte(v, k);
    }
  }

  lemma ScheduleByte(key: Bytes, i: nat, k: nat)
    requires IsKey(key) && k < 4
    ensures var nk := |key| / 4; i < nk ==> Word(key, i)[k] == key[4 * i + k]
    ensures var nk := |key| / 4;
      i >= nk ==> Word(key, i)[k] == Add(Word(key, i - nk)[k], Addend(nk, i, Word(key, i - 1), k))
  {
    hide Add, Addend, Twisted;
    var nk := |key| / 4;
    if i >= nk {
      LaterWord(key, i, nk);
      TwistedByte(nk, i, Word(key, i - 1), k);
      hide Word;
    }
  }

  /** Eleven round keys for a key of four words and fifteen for one of eight (bytes after the last whole word are not
      looked at); round key r holds words 4r to 4r + 3. */
  lemma RoundKeys(key: Bytes, r: nat, c: nat, k: nat)
    requires IsKey(key) && r < |Schedule(key)| && c < 4 && k < 4
    ensures 16 <= |key| < 20 || 32 <= |key| < 36
    ensures |Schedule(key)| == if |key| < 20 then 11 else 15
    ensures Schedule(key)[r][4 * c + k] == Word(key, 4 * r + c)[k]
  {
    hide Word;
    if c == 0 {} else if c == 1 {} else if c == 2 {} else {}
  }

  lemma {:induction false} PowerOfTwo(n: nat)
    ensures Xts(1, n) == Power(2, n)
  {
    hide GmulOf, Xt;
    if n > 0 {
      PowerOfTwo(n - 1);
      EvenProduct(Power(2, n - 1), 1);
      OneProduct(Xt(Power(2, n - 1)));
    }
  }
}
