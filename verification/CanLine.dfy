/** What the transmitter of gen_framework.py (module CAN_top) puts on the line: the frame with its checksum, which is
    the remainder of a polynomial division, its stuff bits, and the bits that end it. */
module CanLine {
  import opened Arithmetic
  import opened XorNat
  import opened Gf2
  import opened Can

  // ---------- the checksum ----------

  /** The generator of CRC-15-CAN. */
  const CRC15: nat := Pow2(15) + Pow2(14) + Pow2(10) + Pow2(8) + Pow2(7) + Pow2(4) + Pow2(3) + 1

  /** The number that bits spell, the most significant first. */
  function Number(b: Bits): (n: nat)
    ensures n < Pow2(|b|)
  {
    if b == [] then 0 else 2 * Number(b[..|b| - 1]) + if b[|b| - 1] then 1 else 0
  }

  /** The register after bits b. */
  function CrcOf(b: Bits): (c: Bits)
    ensures |c| == 15
  {
    if b == [] then seq(15, _ => false) else CrcNext(CrcOf(b[..|b| - 1]), b[|b| - 1])
  }

  function XorBits(a: Bits, b: Bits): (c: Bits)
    requires |a| == |b|
    ensures |c| == |a|
  {
    seq(|a|, i requires 0 <= i < |a| => a[i] != b[i])
  }

  lemma {:induction false} NumberXor(a: Bits, b: Bits)
    requires |a| == |b|
    ensures Number(XorBits(a, b)) == Xor(Number(a), Number(b))
    decreases |a|
  {
    if a != [] {
      var n := |a| - 1;
      NumberXor(a[..n], b[..n]);
      assert XorBits(a, b)[..n] == XorBits(a[..n], b[..n]);
      XorAppend(Number(a[..n]), Number(b[..n]), a[n], b[n]);
      hide Xor;
    }
  }

  lemma XorAppend(p: nat, q: nat, x: bool, y: bool)
    ensures Xor(2 * p + (if x then 1 else 0), 2 * q + if y then 1 else 0) == 2 * Xor(p, q) + if x != y then 1 else 0
  {
    XorHalves(2 * p + (if x then 1 else 0), 2 * q + if y then 1 else 0);
    hide Xor;
  }

  lemma {:induction false} NumberFront(a: Bits)
    requires a != []
    ensures Number(a) == (if a[0] then Pow2(|a| - 1) else 0) + Number(a[1..])
    decreases |a|
  {
    if |a| > 1 {
      var n := |a| - 1;
      NumberFront(a[..n]);
      assert a[..n][1..] == a[1..][..n - 1];
    } else {
      assert a[..0] == [] && a[1..] == [];
    }
  }

  lemma NumberAppend(a: Bits, b: bool)
    ensures Number(a + [b]) == 2 * Number(a) + if b then 1 else 0
  {
    assert (a + [b])[..|a|] == a;
  }

  lemma Exponents()
    ensures CRC15 == 0xC599 && Pow2(15) == 0x8000 && HasDegree(CRC15, 15)
  {}

  /** The number of five bits after others. */
  lemma FiveMore(a: Bits, x: bool, y: bool, z: bool, u: bool, v: bool)
    ensures Number(a + [x, y, z, u, v]) == 32 * Number(a) + (if x then 16 else 0) + (if y then 8 else 0)
      + (if z then 4 else 0) + (if u then 2 else 0) + if v then 1 else 0
  {
    hide Number;
    NumberAppend(a, x);
    NumberAppend(a + [x], y);
    NumberAppend(a + [x] + [y], z);
    NumberAppend(a + [x] + [y] + [z], u);
    NumberAppend(a + [x] + [y] + [z] + [u], v);
    assert a + [x] + [y] + [z] + [u] + [v] == a + [x, y, z, u, v];
  }

  lemma PolyNumber()
    ensures Number(POLY) + Pow2(15) == CRC15
  {
    Exponents();
    NumberNone();
    hide Number, Pow2;
    var a, b := [true, false, false, false, true], [false, true, true, false, false];
    var c := [true, true, false, false, true];
    FiveMore([], true, false, false, false, true);
    assert [] + a == a;
    FiveMore(a, false, true, true, false, false);
    FiveMore(a + b, true, true, false, false, true);
    assert POLY == a + b + c;
  }

  lemma NumberNone()
    ensures Number([]) == 0
  {}

  /** x^15 leaves the low terms of the generator. */
  lemma TopReduces()
    ensures IsRemainder(Pow2(15), CRC15, 15, Number(POLY))
  {
    PolyNumber();
    var p := Number(POLY);
    hide Xor, Pow2, Number;
    XorHigh(p, 15);
    XorComm(p, Pow2(15));
    XorAssoc(Pow2(15), p, p);
    XorSelf(p);
    XorZero(Pow2(15));
    TimesOne(CRC15);
    QuotientGiven(Pow2(15), CRC15, 15, p, 1);
  }

  /** The register after one more bit, as numbers. */
  lemma CrcNumber(c: Bits, b: bool)
    requires |c| == 15
    ensures var r, p := Number(c), Number(POLY);
      var d := if 2 * r >= Pow2(15) then 2 * r - Pow2(15) else 2 * r;
      Number(CrcNext(c, b)) == if b != (2 * r >= Pow2(15)) then Xor(d, p) else d
  {
    ShiftedNumber(c);
    var s := c[1..] + [false];
    hide Number, Xor, Pow2, POLY;
    if b != c[0] {
      assert CrcNext(c, b) == XorBits(s, POLY);
      NumberXor(s, POLY);
    }
  }

  /** The top bit falls off on the left. */
  lemma ShiftedNumber(c: Bits)
    requires |c| == 15
    ensures c[0] <==> 2 * Number(c) >= Pow2(15)
    ensures Number(c[1..] + [false]) == if c[0] then 2 * Number(c) - Pow2(15) else 2 * Number(c)
  {
    hide Number, Pow2;
    NumberFront(c);
    NumberAppend(c[1..], false);
    assert Pow2(15) == 2 * Pow2(14) by { PowStep(14); }
  }

  lemma PowStep(n: nat)
    ensures Pow2(n + 1) == 2 * Pow2(n)
  {}

  lemma Shifted(n: nat, i: nat, k: nat)
    requires i < 2
    ensures (2 * n + i) * Pow2(k) == Xor(2 * (n * Pow2(k)), i * Pow2(k))
  {
    XorLow(n, i);
    hide Xor, Pow2;
    XorScaled(2 * n, i, k);
    XorComm(2 * n, i);
    Regroup(n, Pow2(k));
  }

  lemma {:induction false} XorScaled(a: nat, b: nat, k: nat)
    ensures Xor(a, b) * Pow2(k) == Xor(a * Pow2(k), b * Pow2(k))
  {
    hide Xor;
    if k > 0 {
      XorScaled(a, b, k - 1);
      var p := Pow2(k - 1);
      XorDouble(a * p, b * p);
      Doubled(a, p); Doubled(b, p); Doubled(Xor(a, b), p);
    } else {
      Once(a); Once(b); Once(Xor(a, b));
    }
  }

  lemma Once(a: nat)
    ensures a * Pow2(0) == a
  {}

  lemma Doubled(a: nat, p: nat)
    ensures a * (2 * p) == 2 * (a * p)
  {}

  lemma RegisterStep(n: nat, c: Bits, b: bool)
    requires |c| == 15 && IsRemainder(n * Pow2(15), CRC15, 15, Number(c))
    ensures IsRemainder((2 * n + if b then 1 else 0) * Pow2(15), CRC15, 15, Number(CrcNext(c, b)))
  {
    Exponents();
    TopReduces();
    PolyNumber();
    CrcNumber(c, b);
    hide *;
    var i := if b then 1 else 0;
    Shifted(n, i, 15);
    StepNumbers(n * Pow2(15), Number(c), Number(POLY), b);
  }

  /** The same on numbers: double, reduce, and add the reduced x^15 for a set bit. */
  lemma StepNumbers(m: nat, r: nat, p: nat, b: bool)
    requires HasDegree(CRC15, 15) && IsRemainder(m, CRC15, 15, r)
    requires IsRemainder(Pow2(15), CRC15, 15, p) && p + Pow2(15) == CRC15 && p < Pow2(15)
    ensures var d := if 2 * r >= Pow2(15) then 2 * r - Pow2(15) else 2 * r;
      IsRemainder(Xor(2 * m, (if b then 1 else 0) * Pow2(15)), CRC15, 15,
                  if b != (2 * r >= Pow2(15)) then Xor(d, p) else d)
  {
    RemainderDoubles(m, CRC15, 15, r);
    assert r < Pow2(15);
    hide Xor, Pow2, IsRemainder, HasDegree;
    var high := 2 * r >= Pow2(15);
    var d := if high then 2 * r - Pow2(15) else 2 * r;
    if high {
      CarryCancels(d, p, 15);
    }
    if b {
      RemaindersAdd(2 * m, Pow2(15), CRC15, 15, if high then Xor(2 * r, CRC15) else 2 * r, p);
      XorAssoc(d, p, p);
      XorSelf(p);
      XorZero(d);
    } else {
      XorZero(2 * m);
    }
  }

  /** After any bits the register is the remainder of their polynomial times x^15. */
  lemma {:induction false} CrcIsRemainder(b: Bits)
    ensures IsRemainder(Number(b) * Pow2(15), CRC15, 15, Number(CrcOf(b)))
    decreases |b|
  {
    hide CrcNext, IsRemainder, Pow2;
    if b == [] {
      NumberZeros(15);
      assert Pow2(15) > 0;
      SmallRemainder(0, CRC15, 15);
    } else {
      var l := b[..|b| - 1];
      CrcIsRemainder(l);
      RegisterStep(Number(l), CrcOf(l), b[|b| - 1]);
    }
  }

  lemma {:induction false} NumberZeros(n: nat)
    ensures Number(seq(n, _ => false)) == 0
  {
    if n > 0 {
      NumberZeros(n - 1);
      assert seq(n, _ => false)[..n - 1] == seq(n - 1, _ => false);
    }
  }

  // ---------- the bits of a frame ----------

  /** What a receiver makes of a stuffed line: the bits that are not stuff bits, the last bit and how often it came. */
  datatype Heard = Heard(bits: Bits, last: bool, run: nat)

  /** After five equal bits the next is a stuff bit. */
  function Destuffed(line: Bits): Heard {
    if line == [] then Heard([], true, 0)
    else
      var h, b := Destuffed(line[..|line| - 1]), line[|line| - 1];
      if h.run == 5 then Heard(h.bits, b, 1)
      else Heard(h.bits + [b], b, if b == h.last then h.run + 1 else 1)
  }

  lemma HearBit(line: Bits, b: bool)
    ensures var h := Destuffed(line);
      Destuffed(line + [b]) == if h.run == 5 then Heard(h.bits, b, 1)
                               else Heard(h.bits + [b], b, if b == h.last then h.run + 1 else 1)
  {
    assert (line + [b])[..|line|] == line;
  }

  /** The first n data bytes. */
  function DataBits(mem: seq<Bits>, n: nat): Bits
    requires n <= |mem|
  {
    if n == 0 then [] else DataBits(mem, n - 1) + mem[n - 1]
  }

  function Header(id: Bits, dlc: Bits): Bits {
    id + [false, false, false] + dlc
  }

  /** The part of a frame that the checksum covers. */
  function Covered(id: Bits, dlc: Bits, mem: seq<Bits>): Bits
    requires |dlc| == 4 && |mem| == 8
  {
    Header(id, dlc) + DataBits(mem, ByteCount(dlc))
  }

  /** The covered bits that have been sent. */
  function SentBits(t: Tx): Bits
    requires t.Valid()
  {
    if t.stage.Hdr? then t.hdr[..t.bit]
    else if t.stage.Data? then t.hdr + DataBits(t.mem, t.byte) + t.mem[t.byte][..t.bit]
    else Covered(t.id, t.dlc, t.mem)
  }

  /** What a receiver has heard of the frame that t sends. */
  ghost predicate Sending(t: Tx, h: Heard)
    requires t.Valid() && InField(t.stage)
  {
    && h.last == t.prev && h.run == t.run && t.hdr == Header(t.id, t.dlc)
    && t.crc == CrcOf(SentBits(t)) && h.bits == [false] + SentBits(t) + (if t.stage.Crc? then t.crc[..t.bit] else [])
    && (t.stage.Hdr? ==> t.byte == 0)
    && (t.stage.Data? ==> !IsZero(t.dlc) && t.byte <= LastByte(t.dlc))
  }

  /** The whole frame has been heard. */
  ghost predicate Complete(id: Bits, dlc: Bits, mem: seq<Bits>, bits: Bits)
    requires |dlc| == 4 && |mem| == 8
  {
    var c := CrcOf(Covered(id, dlc, mem));
    bits == [false] + Covered(id, dlc, mem) + c
  }

  lemma CrcMore(a: Bits, b: bool)
    ensures CrcOf(a + [b]) == CrcNext(CrcOf(a), b)
  {
    assert (a + [b])[..|a|] == a;
  }

  /** A field bit that is not a stuff bit. */
  lemma SendBit(t: Tx, h: Heard)
    requires t.Valid() && InField(t.stage) && t.run != 5 && Sending(t, h)
    ensures var b := t.FieldBit(); var u := Advanced(Driven(t, b));
      var g := Heard(h.bits + [b], b, if b == h.last then h.run + 1 else 1);
      if InField(u.stage) then Sending(u, g) else u.stage.CrcDelim? && Complete(u.id, u.dlc, u.mem, g.bits)
  {
    hide CrcNext, IsZero, LastByte, CrcOf;
    NoBytes(t.dlc);
    hide ByteCount;
    if t.stage.Hdr? {
      SendHdr(t, h);
    } else if t.stage.Data? {
      SendData(t, h);
    } else {
      SendCrc(t, h);
    }
  }

  /** One more covered bit. */
  lemma SentMore(t: Tx, u: Tx, b: bool, h: Heard)
    requires t.Valid() && u.Valid() && InField(t.stage) && InField(u.stage) && !t.stage.Crc? && Sending(t, h)
    requires u.crc == CrcNext(t.crc, b) && u.hdr == t.hdr && u.id == t.id && u.dlc == t.dlc && u.prev == b
    requires u.run == (if b == t.prev then t.run + 1 else 1) && SentBits(u) == SentBits(t) + [b]
    requires (u.stage.Crc? ==> u.bit == 0) && (u.stage.Hdr? ==> u.byte == 0)
    requires u.stage.Data? ==> !IsZero(u.dlc) && u.byte <= LastByte(u.dlc)
    ensures Sending(u, Heard(h.bits + [b], b, if b == h.last then h.run + 1 else 1))
  {
    hide CrcNext, IsZero, LastByte, CrcOf, SentBits;
    CrcMore(SentBits(t), b);
    assert [false] + (SentBits(t) + [b]) + [] == [false] + SentBits(t) + [] + [b];
    if u.stage.Crc? {
      assert u.crc[..0] == [];
    }
  }

  lemma SendHdr(t: Tx, h: Heard)
    requires t.Valid() && t.stage.Hdr? && t.run != 5 && Sending(t, h)
    ensures var b := t.FieldBit(); var u := Advanced(Driven(t, b));
      InField(u.stage) && Sending(u, Heard(h.bits + [b], b, if b == h.last then h.run + 1 else 1))
  {
    hide CrcNext, IsZero, LastByte, CrcOf;
    var b := t.FieldBit();
    var u := Advanced(Driven(t, b));
    HdrSent(t);
    hide SentBits;
    SentMore(t, u, b, h);
  }

  lemma HdrSent(t: Tx)
    requires t.Valid() && t.stage.Hdr? && t.byte == 0 && t.hdr == Header(t.id, t.dlc)
    ensures var b := t.FieldBit(); SentBits(Advanced(Driven(t, b))) == SentBits(t) + [b]
  {
    hide CrcNext, IsZero, LastByte;
    NoBytes(t.dlc);
    hide ByteCount;
    var u := Advanced(Driven(t, t.FieldBit()));
    assert t.hdr[..t.bit + 1] == t.hdr[..t.bit] + [t.hdr[t.bit]];
    if t.bit == 17 {
      assert t.hdr[..18] == t.hdr;
      if u.stage.Data? {
        assert SentBits(u) == t.hdr + [] + [];
      } else {
        assert SentBits(u) == t.hdr + [];
      }
    }
  }

  lemma SendData(t: Tx, h: Heard)
    requires t.Valid() && t.stage.Data? && t.run != 5 && Sending(t, h)
    ensures var b := t.FieldBit(); var u := Advanced(Driven(t, b));
      InField(u.stage) && Sending(u, Heard(h.bits + [b], b, if b == h.last then h.run + 1 else 1))
  {
    var b := t.FieldBit();
    var u := Advanced(Driven(t, b));
    DataSent(t);
    DataNext(t);
    hide *;
    SentMore(t, u, b, h);
  }

  lemma DataNext(t: Tx)
    requires t.Valid() && t.stage.Data? && !IsZero(t.dlc) && t.byte <= LastByte(t.dlc)
    ensures var b := t.FieldBit(); var u := Advanced(Driven(t, b));
      && InField(t.stage) && InField(u.stage) && u.crc == CrcNext(t.crc, b) && u.hdr == t.hdr && u.id == t.id
      && u.dlc == t.dlc && u.prev == b && u.run == (if b == t.prev then t.run + 1 else 1) && u.mem == t.mem
      && !u.stage.Hdr? && (u.stage.Crc? ==> u.bit == 0) && (u.stage.Data? ==> u.byte <= LastByte(u.dlc))
      && (u.stage.Data? && t.bit == 7 ==> u.byte == t.byte + 1 && u.bit == 0)
      && (u.stage.Data? && t.bit < 7 ==> u.byte == t.byte && u.bit == t.bit + 1)
      && (u.stage.Crc? ==> t.bit == 7 && t.byte == LastByte(t.dlc))
  {
    hide CrcNext, IsZero, LastByte;
  }

  lemma DataSent(t: Tx)
    requires t.Valid() && t.stage.Data? && !IsZero(t.dlc) && t.byte <= LastByte(t.dlc) && t.hdr == Header(t.id, t.dlc)
    ensures var b := t.FieldBit(); SentBits(Advanced(Driven(t, b))) == SentBits(t) + [b]
  {
    hide CrcNext, IsZero, LastByte;
    NoBytes(t.dlc);
    hide ByteCount, Header;
    var b, m := t.FieldBit(), t.mem[t.byte];
    var u := Advanced(Driven(t, b));
    DataNext(t);
    hide Advanced, Driven;
    assert m[..t.bit + 1] == m[..t.bit] + [b];
    if t.bit == 7 {
      assert m[..8] == m;
      var d := DataBits(t.mem, t.byte);
      assert DataBits(t.mem, t.byte + 1) == d + m;
      hide DataBits;
      assert t.hdr + (d + m) == t.hdr + d + m[..7] + [b];
      if u.stage.Data? {
        assert u.mem[u.byte][..0] == [];
      }
    }
  }

  lemma SendCrc(t: Tx, h: Heard)
    requires t.Valid() && t.stage.Crc? && t.run != 5 && Sending(t, h)
    ensures var b := t.FieldBit(); var u := Advanced(Driven(t, b));
      var g := Heard(h.bits + [b], b, if b == h.last then h.run + 1 else 1);
      if InField(u.stage) then Sending(u, g) else u.stage.CrcDelim? && Complete(u.id, u.dlc, u.mem, g.bits)
  {
    hide CrcNext, IsZero, LastByte, CrcOf, ByteCount;
    var b, s := t.FieldBit(), SentBits(t);
    var u := Advanced(Driven(t, b));
    assert SentBits(u) == s || !InField(u.stage);
    assert t.crc[..t.bit + 1] == t.crc[..t.bit] + [b];
    assert [false] + s + t.crc[..t.bit] + [b] == [false] + s + t.crc[..t.bit + 1];
    if t.bit == 14 {
      assert t.crc[..15] == t.crc;
    }
  }

  // ---------- the wire ----------

  /** The level of the wire in each bit time: dominant if the transmitter or the acknowledging receiver drives it. */
  function Wire(t: Tx, r: Rx): Bits
    requires Locked(t, r)
    decreases Remaining(t), if t.run == 5 then 1 else 0
  {
    LockKept(t, r);
    BitTimePasses(t, r);
    var u := Drive(t);
    var s := Sample(r, u.out);
    [u.out && !r.ack] + if u.stage.Idle? then [] else Wire(u, s)
  }

  /** CRC delimiter, acknowledge slot with the receiver's dominant bit, acknowledge delimiter, end of frame. */
  const TAIL: Bits := [true, false, true, true, true, true, true, true, true, true]

  /** How much of the tail has passed. */
  function TailPlace(t: Tx): nat
    requires t.Valid() && !InField(t.stage) && !t.stage.Idle?
  {
    if t.stage.CrcDelim? then 0 else if t.stage.Ack? then 1 else if t.stage.AckDelim? then 2 else 3 + t.bit
  }

  lemma TailStep(t: Tx, r: Rx)
    requires Locked(t, r) && !InField(t.stage)
    ensures var u := Drive(t); var k := TailPlace(t);
      && |TAIL| == 10 && k < 10 && (u.out && !r.ack) == TAIL[k]
      && if u.stage.Idle? then k == 9 else !InField(u.stage) && TailPlace(u) == k + 1
  {}

  lemma {:induction false} TailOnWire(t: Tx, r: Rx)
    requires Locked(t, r) && !InField(t.stage)
    ensures Wire(t, r) == TAIL[TailPlace(t)..]
    decreases Remaining(t)
  {
    hide CrcNext, IsZero, LastByte, ByteCount, TailPlace, TAIL;
    LockKept(t, r);
    BitTimePasses(t, r);
    TailStep(t, r);
    hide Drive, Sample, Locked, Remaining;
    var u := Drive(t);
    var k := TailPlace(t);
    if !u.stage.Idle? {
      TailOnWire(u, Sample(r, u.out));
    }
    assert TAIL[k..] == [TAIL[k]] + TAIL[k + 1..];
  }

  /** What a bit time of the stuffed part adds to what is heard. */
  lemma FieldHeard(t: Tx, line: Bits)
    requires t.Valid() && InField(t.stage) && Sending(t, Destuffed(line))
    ensures var u := Drive(t); var h := Destuffed(line + [u.out]);
      && !u.stage.Idle?
      && (if InField(u.stage) then Sending(u, h) else TailPlace(u) == 0 && Complete(u.id, u.dlc, u.mem, h.bits))
  {
    var u, h := Drive(t), Destuffed(line);
    HearBit(line, u.out);
    if t.run == 5 {
      hide CrcNext, IsZero, LastByte, Destuffed, CrcOf;
    } else {
      hide CrcNext, IsZero, LastByte, Destuffed, Sending, Complete;
      SendBit(t, h);
      AdvancedKeeps(Driven(t, t.FieldBit()));
      assert h.run == t.run && h.last == t.prev by { SendingRun(t, h); }
    }
  }

  lemma SendingRun(t: Tx, h: Heard)
    requires t.Valid() && InField(t.stage) && Sending(t, h)
    ensures h.last == t.prev && h.run == t.run
  {}

  /** Outside the stuffed part the line is complete. */
  lemma {:induction false} OnlyTail(t: Tx, r: Rx, line: Bits)
    requires Locked(t, r) && !InField(t.stage)
    ensures RunFrame(t, r, line).2 == line
    decreases Remaining(t)
  {
    hide CrcNext, IsZero, LastByte, ByteCount, TailPlace, TAIL;
    LockKept(t, r);
    BitTimePasses(t, r);
    TailStep(t, r);
    hide Drive, Sample, Locked, Remaining;
    var u := Drive(t);
    if !u.stage.Idle? {
      OnlyTail(u, Sample(r, u.out), line);
    }
  }

  lemma WireStep(t: Tx, r: Rx, line: Bits)
    requires Locked(t, r) && InField(t.stage) && !Drive(t).stage.Idle?
    ensures t.Valid() && r.Valid() && Locked(Drive(t), Sample(r, Drive(t).out))
    ensures var u := Drive(t); var s := Sample(r, u.out);
      && (Remaining(u) < Remaining(t) || (Remaining(u) == Remaining(t) && t.run == 5 && u.run != 5))
      && Wire(t, r) == [u.out] + Wire(u, s) && RunFrame(t, r, line) == RunFrame(u, s, line + [u.out])
  {
    hide CrcNext, IsZero, LastByte, ByteCount, Remaining, Drive, Sample;
    LockKept(t, r);
    BitTimePasses(t, r);
    RunCounted(t);
  }

  lemma LockedValid(t: Tx, r: Rx)
    requires Locked(t, r)
    ensures t.Valid() && r.Valid() && (InField(t.stage) ==> !t.stage.Idle?)
  {}

  /** Until the frame ends the wire carries what the transmitter drives, without long runs, and then the tail. */
  lemma {:induction false} FrameOnWire(t: Tx, r: Rx, line: Bits)
    requires Locked(t, r) && InField(t.stage) && Sending(t, Destuffed(line))
    ensures var (u, s, l) := RunFrame(t, r, line);
      && l + TAIL == line + Wire(t, r) && Complete(t.id, t.dlc, t.mem, Destuffed(l).bits)
    decreases Remaining(t), if t.run == 5 then 1 else 0
  {
    hide *;
    LockedValid(t, r);
    FrameFixed(t);
    FieldHeard(t, line);
    WireStep(t, r, line);
    var u := Drive(t);
    var s := Sample(r, u.out);
    var l := line + [u.out];
    if InField(u.stage) {
      FrameOnWire(u, s, l);
      assert l + Wire(u, s) == line + ([u.out] + Wire(u, s));
    } else {
      TailOnWire(u, s);
      OnlyTail(u, s, l);
      WholeTail();
    }
  }

  lemma WholeTail()
    ensures TAIL[0..] == TAIL && TAIL == [true, false, true, true, true, true, true, true, true, true]
  {
  }

  /** For every identifier, length code and data: the wire carries the stuffed frame, then a recessive delimiter, the
      dominant acknowledgement, its delimiter and seven recessive bits. Without its stuff bits the frame is a dominant
      bit, the identifier, three dominant bits, the length code, the data bytes, and fifteen bits that are the
      remainder of all of these times x^15 modulo x^15 + x^14 + x^10 + x^8 + x^7 + x^4 + x^3 + 1. */
  lemma FrameOnTheLine(t: Tx, r: Rx)
    requires t.Valid() && r.Valid() && t.stage.Idle? && t.go && r.stage.Idle?
    ensures Locked(Drive(t), Sample(r, Drive(t).out)) && !Drive(t).out && !r.ack
    ensures var (u, s, line) := RunFrame(Drive(t), Sample(r, Drive(t).out), [Drive(t).out]);
      var wire := [Drive(t).out] + Wire(Drive(t), Sample(r, Drive(t).out));
      var covered := [false] + t.id + [false, false, false] + t.dlc + DataBits(t.mem, ByteCount(t.dlc));
      var bits := Destuffed(line).bits;
      && wire == line + [true, false, true, true, true, true, true, true, true, true]
      && |bits| == |covered| + 15 && bits[..|covered|] == covered
      && IsRemainder(Number(covered) * Pow2(15), CRC15, 15, Number(bits[|covered|..]))
  {
    hide *;
    FrameOpens(t, r);
    var u := Drive(t);
    FrameOnWire(u, Sample(r, u.out), [u.out]);
    CompleteParts(t, RunFrame(u, Sample(r, u.out), [u.out]).2);
    WholeTail();
  }

  lemma FrameOpens(t: Tx, r: Rx)
    requires t.Valid() && r.Valid() && t.stage.Idle? && t.go && r.stage.Idle?
    ensures var u := Drive(t);
      && u.Valid() && !u.out && !r.ack && Locked(u, Sample(r, u.out)) && InField(u.stage)
      && u.id == t.id && u.dlc == t.dlc && u.mem == t.mem && Sending(u, Destuffed([u.out]))
  {
    FrameStarts(t, r);
    HearBit([], false);
    assert [] + [false] == [false];
    hide Destuffed, CrcNext, IsZero, LastByte, Sample, Locked;
    var u := Drive(t);
    assert SentBits(u) == [] by { assert u.hdr[..0] == []; }
    assert [false] + [] + [] == [false];
  }

  lemma CompleteParts(t: Tx, line: Bits)
    requires t.Valid() && Complete(t.id, t.dlc, t.mem, Destuffed(line).bits)
    ensures |t.dlc| == 4 && ByteCount(t.dlc) <= |t.mem|
    ensures var covered := [false] + t.id + [false, false, false] + t.dlc + DataBits(t.mem, ByteCount(t.dlc));
      var bits := Destuffed(line).bits;
      && |bits| == |covered| + 15 && bits[..|covered|] == covered
      && IsRemainder(Number(covered) * Pow2(15), CRC15, 15, Number(bits[|covered|..]))
  {
    hide IsRemainder, Number, CrcOf, Pow2, ByteCount, Destuffed, CRC15;
    var b := Covered(t.id, t.dlc, t.mem);
    var covered := [false] + t.id + [false, false, false] + t.dlc + DataBits(t.mem, ByteCount(t.dlc));
    CrcIsRemainder(b);
    LeadingZero(b);
    assert [false] + b == covered;
  }

  lemma LeadingZero(b: Bits)
    ensures Number([false] + b) == Number(b)
  {
    NumberFront([false] + b);
    assert ([false] + b)[1..] == b;
  }
}
