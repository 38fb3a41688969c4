/** The CAN transmitter and receiver of gen_framework.py (module CAN_top), one step per bit time: bit stuffing,
    CRC-15, and the two machines in lock step. Registers are sequences of bits, most significant first. */
module Can {

  type Bits = seq<bool>

  datatype Stage = Idle | Hdr | Data | Crc | CrcDelim | Ack | AckDelim | Eof

  /** x^14 + x^10 + x^8 + x^7 + x^4 + x^3 + 1 below x^15: 0x4599. */
  const POLY: Bits := [true, false, false, false, true, false, true, true, false, false, true, true, false, false, true]

  /** crc_next. */
  function CrcNext(c: Bits, b: bool): (r: Bits)
    requires |c| == 15
    ensures |r| == 15
  {
    var fb := b != c[0];
    var s := c[1..] + [false];
    if fb then seq(15, i requires 0 <= i < 15 => s[i] != POLY[i]) else s
  }

  /** The value of three bits. */
  function Three(d: Bits): (n: nat)
    requires |d| == 3
    ensures n < 8
  {
    (if d[0] then 4 else 0) + (if d[1] then 2 else 0) + (if d[2] then 1 else 0)
  }

  predicate IsZero(d: Bits) {
    forall i :: 0 <= i < |d| ==> !d[i]
  }

  /** dlc[2:0] - 1 on three bits: the index of the last data byte. */
  function LastByte(dlc: Bits): (n: nat)
    requires |dlc| == 4
    ensures n < 8
  {
    (Three(dlc[1..]) + 7) % 8
  }

  /** The number of data bytes that a length code stands for: 8 for a code of 8, and codes above wrap. */
  function ByteCount(dlc: Bits): (n: nat)
    requires |dlc| == 4
    ensures n <= 8
  {
    if IsZero(dlc) then 0 else LastByte(dlc) + 1
  }

  /** The value of a length code. */
  function Code(dlc: Bits): (n: nat)
    requires |dlc| == 4
  {
    (if dlc[0] then 8 else 0) + Three(dlc[1..])
  }

  /** CAN promises min(code, 8) bytes. Length codes up to 8 keep the promise, and exactly they do: a code above 8 sends
      code - 8 bytes. */
  lemma CountOfCode(dlc: Bits)
    requires |dlc| == 4
    ensures ByteCount(dlc) == (if Code(dlc) > 8 then 8 else Code(dlc)) <==> Code(dlc) <= 8
    ensures Code(dlc) > 8 ==> ByteCount(dlc) == Code(dlc) - 8
  {
    if IsZero(dlc) {
      assert !dlc[0] && !dlc[1] && !dlc[2] && !dlc[3];
    }
  }

  /** Code 9 sends one byte. */
  lemma CodeNine()
    ensures Code([true, false, false, true]) == 9 && ByteCount([true, false, false, true]) == 1
  {
    CountOfCode([true, false, false, true]);
  }

  // ---------- the transmitter ----------

  datatype Tx = Tx(id: Bits, dlc: Bits, mem: seq<Bits>, go: bool, busy: bool, stage: Stage, bit: nat, byte: nat,
                   hdr: Bits, crc: Bits, run: nat, prev: bool, out: bool)
  {
    ghost predicate Valid() {
      && |id| == 11 && |dlc| == 4 && |mem| == 8 && (forall i :: 0 <= i < 8 ==> |mem[i]| == 8)
      && |hdr| == 18 && |crc| == 15 && byte < 8
      && (stage.Hdr? ==> bit < 18) && (stage.Data? ==> bit < 8) && (stage.Crc? ==> bit < 15) && (stage.Eof? ==> bit < 7)
    }

    /** The next bit of the field being sent. */
    function FieldBit(): bool
      requires Valid() && (stage.Hdr? || stage.Data? || stage.Crc?)
    {
      if stage.Hdr? then hdr[bit] else if stage.Data? then mem[byte][bit] else crc[bit]
    }
  }

  /** The field counters after one field bit. */
  function Advanced(t: Tx): (u: Tx)
    requires t.Valid() && (t.stage.Hdr? || t.stage.Data? || t.stage.Crc?)
    ensures u.Valid()
  {
    if t.stage.Hdr? then
      if t.bit == 17 then t.(bit := 0, stage := if IsZero(t.dlc) then Crc else Data) else t.(bit := t.bit + 1)
    else if t.stage.Data? then
      if t.bit == 7 then
        if t.byte == LastByte(t.dlc) then t.(bit := 0, stage := Crc) else t.(bit := 0, byte := (t.byte + 1) % 8)
      else t.(bit := t.bit + 1)
    else if t.bit == 14 then t.(bit := 0, stage := CrcDelim) else t.(bit := t.bit + 1)
  }

  /** The dominant bit that starts a frame. */
  function StartOfFrame(t: Tx): (u: Tx)
    requires t.Valid()
    ensures u.Valid()
  {
    t.(go := false, busy := true, hdr := t.id + [false, false, false] + t.dlc, crc := seq(15, _ => false),
       run := 1, prev := false, out := false, bit := 0, byte := 0, stage := Hdr)
  }

  /** The drive point of one bit time. */
  function Drive(t: Tx): (u: Tx)
    requires t.Valid()
    ensures u.Valid()
  {
    match t.stage
    case Idle => if t.go then StartOfFrame(t) else t
    case Hdr => DriveField(t)
    case Data => DriveField(t)
    case Crc => DriveField(t)
    case CrcDelim => t.(out := true, stage := Ack)
    case Ack => t.(out := true, stage := AckDelim)
    case AckDelim => t.(out := true, stage := Eof, bit := 0)
    case Eof => if t.bit == 6 then t.(out := true, bit := 0, stage := Idle, busy := false)
      else t.(out := true, bit := t.bit + 1)
  }

  /** A bit of the stuffed part: a stuff bit after five equal ones, else a field bit. */
  function DriveField(t: Tx): (u: Tx)
    requires t.Valid() && (t.stage.Hdr? || t.stage.Data? || t.stage.Crc?)
    ensures u.Valid()
  {
    if t.run == 5 then t.(out := !t.prev, prev := !t.prev, run := 1)
    else
      var b := t.FieldBit();
      Advanced(Driven(t, b))
  }

  /** The line, the CRC and the run counter after field bit b. */
  function Driven(t: Tx, b: bool): (u: Tx)
    requires t.Valid()
    ensures u.Valid() && u.stage == t.stage
  {
    t.(out := b, crc := if t.stage.Crc? then t.crc else CrcNext(t.crc, b), run := if b == t.prev then t.run + 1 else 1,
       prev := b)
  }

  // ---------- the receiver ----------

  datatype Rx = Rx(stage: Stage, bit: nat, byte: nat, sh: Bits, id: Bits, dlc: Bits, mem: seq<Bits>, crc: Bits,
                   run: nat, last: bool, err: bool, valid: bool, ack: bool)
  {
    ghost predicate Valid() {
      && |sh| == 18 && |id| == 11 && |dlc| == 4 && |mem| == 8 && (forall i :: 0 <= i < 8 ==> |mem[i]| == 8)
      && |crc| == 15 && byte < 8
      && (stage.Hdr? ==> bit < 18) && (stage.Data? ==> bit < 8) && (stage.Crc? ==> bit < 15) && (stage.Eof? ==> bit < 7)
      && (stage.Ack? || stage.AckDelim? ==> bit == 0) && (ack ==> stage.Ack?)
    }
  }

  /** A header bit: after the eighteenth the identifier and the length code are taken from the register. */
  function AcceptHdr(r: Rx, b: bool): (s: Rx)
    requires r.Valid() && r.stage.Hdr?
    ensures s.Valid()
  {
    var c := r.(sh := r.sh[1..] + [b], crc := CrcNext(r.crc, b));
    var dlc := r.sh[15..] + [b];
    if r.bit == 17 then c.(id := r.sh[1..12], dlc := dlc, bit := 0, stage := if IsZero(dlc) then Crc else Data)
    else c.(bit := r.bit + 1)
  }

  function AcceptData(r: Rx, b: bool): (s: Rx)
    requires r.Valid() && r.stage.Data?
    ensures s.Valid()
  {
    var c := r.(mem := r.mem[r.byte := r.mem[r.byte][r.bit := b]], crc := CrcNext(r.crc, b));
    if r.bit == 7 then
      if r.byte == LastByte(r.dlc) then c.(bit := 0, stage := Crc) else c.(bit := 0, byte := (r.byte + 1) % 8)
    else c.(bit := r.bit + 1)
  }

  function AcceptCrc(r: Rx, b: bool): (s: Rx)
    requires r.Valid() && r.stage.Crc?
    ensures s.Valid()
  {
    var c := r.(err := r.err || b != r.crc[r.bit]);
    if r.bit == 14 then c.(bit := 0, stage := CrcDelim) else c.(bit := r.bit + 1)
  }

  /** What the receiver does with a bit that is not a stuff bit. */
  function Accept(r: Rx, b: bool): (s: Rx)
    requires r.Valid()
    ensures s.Valid()
  {
    match r.stage
    case Idle => r
    case Hdr => AcceptHdr(r, b)
    case Data => AcceptData(r, b)
    case Crc => AcceptCrc(r, b)
    case CrcDelim => r.(bit := 0, stage := Ack, ack := !r.err)
    case Ack => r.(ack := false, stage := AckDelim)
    case AckDelim => r.(stage := Eof)
    case Eof => if r.bit == 6 then r.(bit := 0, stage := Idle, valid := !r.err) else r.(bit := r.bit + 1)
  }

  /** The sample point of one bit time with line level b; a falling line starts a frame. */
  function Sample(r: Rx, b: bool): (s: Rx)
    requires r.Valid()
    ensures s.Valid()
  {
    var q := r.(valid := false);
    match r.stage
    case Idle =>
      if b then q
      else
        q.(stage := Hdr, bit := 0, byte := 0, run := 1, last := false, crc := seq(15, _ => false), err := false)
    case Hdr => SampleField(q, b)
    case Data => SampleField(q, b)
    case Crc => SampleField(q, b)
    case _ => Accept(q, b)
  }

  /** A bit of the stuffed part: after five equal bits it is a stuff bit and dropped. */
  function SampleField(r: Rx, b: bool): (s: Rx)
    requires r.Valid() && (r.stage.Hdr? || r.stage.Data? || r.stage.Crc?)
    ensures s.Valid()
  {
    if r.run == 5 then r.(run := 1, last := b)
    else Accept(r.(run := if b == r.last then r.run + 1 else 1, last := b), b)
  }

  // ---------- the two machines as registers ----------

  /** The transmitter's registers; Step is the clock edge at the drive point. */
  class Transmitter {
    var id: Bits
    var dlc: Bits
    var mem: seq<Bits>
    var go: bool
    var busy: bool
    var stage: Stage
    var bit: nat
    var byte: nat
    var hdr: Bits
    var crc: Bits
    var run: nat
    var prev: bool
    var out: bool

    function View(): Tx
      reads this
    {
      Tx(id, dlc, mem, go, busy, stage, bit, byte, hdr, crc, run, prev, out)
    }

    constructor ()
      ensures View().Valid() && View().stage.Idle? && !View().go && View().out
    {
      id, dlc, mem := seq(11, _ => false), seq(4, _ => false), seq(8, _ => seq(8, _ => false));
      go, busy, stage, bit, byte := false, false, Idle, 0, 0;
      hdr, crc, run, prev, out := seq(18, _ => false), seq(15, _ => false), 0, true, true;
    }

    method Step()
      requires View().Valid()
      modifies this
      ensures View() == Drive(old(View()))
    {
      if stage.Hdr? || stage.Data? || stage.Crc? {
        StepField();
      } else if stage.Idle? {
        Start();
      } else if stage.CrcDelim? {
        out := true;
        stage := Ack;
      } else if stage.Ack? {
        out := true;
        stage := AckDelim;
      } else if stage.AckDelim? {
        out := true;
        stage := Eof;
        bit := 0;
      } else {
        out := true;
        if bit == 6 {
          bit := 0;
          stage := Idle;
          busy := false;
        } else {
          bit := bit + 1;
        }
      }
    }

    method Start()
      requires View().Valid() && stage.Idle?
      modifies this
      ensures View() == Drive(old(View()))
    {
      if go {
        LoadHeader();
        BeginFrame();
      }
    }

    method LoadHeader()
      requires View().Valid()
      modifies this`hdr, this`crc, this`run, this`prev, this`out
      ensures View() == old(View()).(hdr := id + [false, false, false] + dlc, crc := seq(15, _ => false), run := 1,
                                     prev := false, out := false)
    {
      hdr := id + [false, false, false] + dlc;
      crc := seq(15, _ => false);
      run := 1;
      prev := false;
      out := false;
    }

    method BeginFrame()
      requires View().Valid()
      modifies this`go, this`busy, this`bit, this`byte, this`stage
      ensures View() == old(View()).(go := false, busy := true, bit := 0, byte := 0, stage := Hdr)
    {
      go := false;
      busy := true;
      bit := 0;
      byte := 0;
      stage := Hdr;
    }

    method StepField()
      requires View().Valid() && (stage.Hdr? || stage.Data? || stage.Crc?)
      modifies this
      ensures View() == DriveField(old(View()))
    {
      hide CrcNext, LastByte, IsZero;
      if run == 5 {
        out := !prev;
        prev := !prev;
        run := 1;
      } else {
        var b := View().FieldBit();
        out := b;
        if !stage.Crc? {
          crc := CrcNext(crc, b);
        }
        run := if b == prev then run + 1 else 1;
        prev := b;
        AdvanceField();
      }
    }

    method AdvanceField()
      requires View().Valid() && (stage.Hdr? || stage.Data? || stage.Crc?)
      modifies this`bit, this`byte, this`stage
      ensures View() == Advanced(old(View()))
    {
      hide LastByte, IsZero;
      if stage.Hdr? {
        if bit == 17 {
          bit := 0;
          stage := if IsZero(dlc) then Crc else Data;
        } else {
          bit := bit + 1;
        }
      } else if stage.Data? {
        if bit == 7 {
          bit := 0;
          if byte == LastByte(dlc) {
            stage := Crc;
          } else {
            byte := (byte + 1) % 8;
          }
        } else {
          bit := bit + 1;
        }
      } else if bit == 14 {
        bit := 0;
        stage := CrcDelim;
      } else {
        bit := bit + 1;
      }
    }
  }

  /** The receiver's registers; Step is the clock edge at the sample point. */
  class Receiver {
    var stage: Stage
    var bit: nat
    var byte: nat
    var sh: Bits
    var id: Bits
    var dlc: Bits
    var mem: seq<Bits>
    var crc: Bits
    var run: nat
    var last: bool
    var err: bool
    var valid: bool
    var ack: bool

    function View(): Rx
      reads this
    {
      Rx(stage, bit, byte, sh, id, dlc, mem, crc, run, last, err, valid, ack)
    }

    constructor ()
      ensures View().Valid() && View().stage.Idle? && !View().valid
    {
      stage, bit, byte := Idle, 0, 0;
      sh, id, dlc, mem := seq(18, _ => false), seq(11, _ => false), seq(4, _ => false), seq(8, _ => seq(8, _ => false));
      crc, run, last, err, valid, ack := seq(15, _ => false), 0, true, false, false, false;
    }

    method Step(b: bool)
      requires View().Valid()
      modifies this
      ensures View() == Sample(old(View()), b)
    {
      hide Accept;
      valid := false;
      if stage.Idle? {
        if !b {
          BeginFrame();
        }
      } else if (stage.Hdr? || stage.Data? || stage.Crc?) && run == 5 {
        run := 1;
        last := b;
      } else {
        if stage.Hdr? || stage.Data? || stage.Crc? {
          run := if b == last then run + 1 else 1;
          last := b;
        }
        Process(b);
      }
    }

    method BeginFrame()
      requires View().Valid()
      modifies this`stage, this`bit, this`byte, this`run, this`last, this`crc, this`err
      ensures View() == old(View()).(stage := Hdr, bit := 0, byte := 0, run := 1, last := false,
                                     crc := seq(15, _ => false), err := false)
    {
      stage := Hdr;
      bit := 0;
      byte := 0;
      run := 1;
      last := false;
      crc := seq(15, _ => false);
      err := false;
    }

    method Process(b: bool)
      requires View().Valid()
      modifies this
      ensures View() == Accept(old(View()), b)
    {
      hide CrcNext, LastByte, IsZero;
      if stage.Hdr? {
        ProcessHdr(b);
      } else if stage.Data? {
        ProcessData(b);
      } else if stage.Crc? {
        if b != crc[bit] {
          err := true;
        }
        if bit == 14 {
          bit := 0;
          stage := CrcDelim;
        } else {
          bit := bit + 1;
        }
      } else if stage.CrcDelim? {
        bit := 0;
        stage := Ack;
        ack := !err;
      } else if stage.Ack? {
        ack := false;
        stage := AckDelim;
      } else if stage.AckDelim? {
        stage := Eof;
      } else if stage.Eof? {
        if bit == 6 {
          bit := 0;
          stage := Idle;
          valid := !err;
        } else {
          bit := bit + 1;
        }
      }
    }

    method ProcessHdr(b: bool)
      requires View().Valid() && stage.Hdr?
      modifies this
      ensures View() == Accept(old(View()), b)
    {
      hide CrcNext, IsZero;
      crc := CrcNext(crc, b);
      if bit == 17 {
        id := sh[1..12];
        dlc := sh[15..] + [b];
        bit := 0;
        stage := if IsZero(dlc) then Crc else Data;
      } else {
        bit := bit + 1;
      }
      sh := sh[1..] + [b];
    }

    method ProcessData(b: bool)
      requires View().Valid() && stage.Data?
      modifies this
      ensures View() == Accept(old(View()), b)
    {
      hide CrcNext, LastByte;
      mem := mem[byte := mem[byte][bit := b]];
      crc := CrcNext(crc, b);
      if bit == 7 {
        bit := 0;
        if byte == LastByte(dlc) {
          stage := Crc;
        } else {
          byte := (byte + 1) % 8;
        }
      } else {
        bit := bit + 1;
      }
    }
  }

  // ---------- lock step ----------

  predicate InField(s: Stage) {
    s.Hdr? || s.Data? || s.Crc?
  }

  /** The receiver has the frame that the transmitter sent. */
  ghost predicate Delivered(t: Tx, r: Rx)
    requires t.Valid() && r.Valid()
  {
    r.id == t.id && r.dlc == t.dlc && forall i :: 0 <= i < ByteCount(t.dlc) ==> r.mem[i] == t.mem[i]
  }

  /** What has arrived of the field being sent. */
  ghost predicate Arriving(t: Tx, r: Rx)
    requires t.Valid() && r.Valid() && t.stage == r.stage && t.bit == r.bit && t.byte == r.byte
  {
    match t.stage
    case Hdr => r.sh[18 - t.bit..] == t.hdr[..t.bit] && t.byte == 0
    case Data =>
      && r.id == t.id && r.dlc == t.dlc && !IsZero(t.dlc) && t.byte <= LastByte(t.dlc)
      && (forall i :: 0 <= i < t.byte ==> r.mem[i] == t.mem[i])
      && (forall j :: 0 <= j < t.bit ==> r.mem[t.byte][j] == t.mem[t.byte][j])
    case _ => Delivered(t, r)
  }

  /** Between the start of a frame and its end the machines agree on everything they share. */
  ghost predicate Locked(t: Tx, r: Rx) {
    && t.Valid() && r.Valid() && t.stage == r.stage && !t.stage.Idle? && !r.err && t.busy
    && t.hdr == t.id + [false, false, false] + t.dlc
    && (t.stage.Ack? ==> r.ack)
    && (InField(t.stage) ==>
          t.run == r.run && 1 <= t.run <= 5 && t.prev == r.last && t.crc == r.crc && t.bit == r.bit && t.byte == r.byte)
    && (if InField(t.stage) then Arriving(t, r) else Delivered(t, r) && (t.stage.Eof? ==> t.bit == r.bit))
  }

  lemma FrameStarts(t: Tx, r: Rx)
    requires t.Valid() && r.Valid() && t.stage.Idle? && t.go && r.stage.Idle?
    ensures Locked(Drive(t), Sample(r, Drive(t).out)) && !Drive(t).out
  {
    var u := Drive(t);
    assert u.hdr[..0] == Sample(r, u.out).sh[18..];
  }

  /** Every bit time keeps the machines in lock step; the frame ends delivered, without error. */
  lemma LockKept(t: Tx, r: Rx)
    requires Locked(t, r)
    ensures var u := Drive(t); var s := Sample(r, u.out);
      if u.stage.Idle? then !u.busy && s.stage.Idle? && s.valid && !s.err && Delivered(t, s) && Delivered(u, s)
      else Locked(u, s)
  {
    hide CrcNext, LastByte, IsZero;
    if InField(t.stage) {
      FieldKept(t, r);
    }
  }

  /** A field bit that is not a stuff bit, in both machines. */
  lemma FieldBitTime(t: Tx, r: Rx) returns (b: bool, v: Tx, q: Rx)
    requires Locked(t, r) && InField(t.stage) && t.run != 5
    ensures b == t.FieldBit() && v == Driven(t, b) && v.Valid() && q.Valid()
    ensures q == r.(valid := false, run := if b == r.last then r.run + 1 else 1, last := b)
    ensures Drive(t) == Advanced(v) && Sample(r, Drive(t).out) == Accept(q, b)
  {
    hide CrcNext, Advanced, Accept, IsZero, LastByte, Arriving, Delivered;
    b := t.FieldBit();
    v := Driven(t, b);
    q := r.(valid := false, run := if b == r.last then r.run + 1 else 1, last := b);
    assert Advanced(v).out == b by { AdvancedKeeps(v); }
  }

  lemma AdvancedKeeps(v: Tx)
    requires v.Valid() && InField(v.stage)
    ensures var u := Advanced(v); u == v.(stage := u.stage, bit := u.bit, byte := u.byte)
  {}

  /** The run counters, last bits and fixed registers that a field bit leaves equal. */
  ghost predicate Shared(v: Tx, q: Rx) {
    && v.Valid() && q.Valid() && v.stage == q.stage && InField(v.stage) && v.busy && !q.err
    && v.hdr == v.id + [false, false, false] + v.dlc
    && v.run == q.run && 1 <= v.run <= 5 && v.prev == q.last && v.bit == q.bit && v.byte == q.byte
  }

  lemma HdrStep(v: Tx, q: Rx, b: bool)
    requires Shared(v, q) && v.stage.Hdr? && v.byte == 0 && b == v.hdr[v.bit] && v.crc == CrcNext(q.crc, b)
    requires q.sh[18 - v.bit..] == v.hdr[..v.bit]
    ensures Locked(Advanced(v), AcceptHdr(q, b))
  {
    hide CrcNext, Advanced, AcceptHdr, Locked, IsZero;
    if v.bit == 17 {
      HdrEnd(v, q, b);
    } else {
      HdrMiddle(v, q, b);
    }
  }

  lemma HdrMiddle(v: Tx, q: Rx, b: bool)
    requires Shared(v, q) && v.stage.Hdr? && v.bit < 17 && v.byte == 0 && b == v.hdr[v.bit]
    requires v.crc == CrcNext(q.crc, b)
    requires q.sh[18 - v.bit..] == v.hdr[..v.bit]
    ensures Locked(Advanced(v), AcceptHdr(q, b))
  {
    hide CrcNext, LastByte, IsZero, ByteCount;
    var k := v.bit;
    assert v.hdr[..k + 1] == v.hdr[..k] + [b];
    assert (q.sh[1..] + [b])[18 - (k + 1)..] == q.sh[18 - k..] + [b];
  }

  lemma HdrEnd(v: Tx, q: Rx, b: bool)
    requires Shared(v, q) && v.stage.Hdr? && v.bit == 17 && v.byte == 0 && b == v.hdr[v.bit]
    requires v.crc == CrcNext(q.crc, b)
    requires q.sh[18 - v.bit..] == v.hdr[..v.bit]
    ensures Locked(Advanced(v), AcceptHdr(q, b))
  {
    hide CrcNext, LastByte, IsZero;
    NoBytes(v.dlc);
    hide ByteCount;
    HeaderFields(v.id, v.dlc, v.hdr, q.sh, b);
  }

  lemma HeaderFields(id: Bits, dlc: Bits, hdr: Bits, sh: Bits, b: bool)
    requires |id| == 11 && |dlc| == 4 && hdr == id + [false, false, false] + dlc && |sh| == 18 && sh[1..] == hdr[..17]
    requires b == hdr[17]
    ensures sh[1..12] == id && sh[15..] + [b] == dlc
  {
    assert sh[1..12] == sh[1..][..11] && sh[15..] == sh[1..][14..];
    assert hdr[14..] == dlc && hdr[14..] == hdr[14..17] + [hdr[17]];
    assert hdr[..17][14..] == hdr[14..17];
    assert hdr[..17][..11] == id;
  }

  lemma NoBytes(dlc: Bits)
    requires |dlc| == 4
    ensures IsZero(dlc) ==> ByteCount(dlc) == 0
    ensures !IsZero(dlc) ==> ByteCount(dlc) == LastByte(dlc) + 1
  {
    hide IsZero, LastByte;
  }

  lemma DataStep(v: Tx, q: Rx, b: bool)
    requires Shared(v, q) && v.stage.Data? && b == v.mem[v.byte][v.bit] && v.crc == CrcNext(q.crc, b)
    requires q.id == v.id && q.dlc == v.dlc && !IsZero(v.dlc) && v.byte <= LastByte(v.dlc)
    requires forall i :: 0 <= i < v.byte ==> q.mem[i] == v.mem[i]
    requires forall j :: 0 <= j < v.bit ==> q.mem[v.byte][j] == v.mem[v.byte][j]
    ensures Locked(Advanced(v), AcceptData(q, b))
  {
    hide CrcNext, LastByte, IsZero, Advanced, AcceptData, Locked;
    if v.bit == 7 {
      DataEnd(v, q, b);
    } else {
      DataMiddle(v, q, b);
    }
  }

  lemma DataMiddle(v: Tx, q: Rx, b: bool)
    requires Shared(v, q) && v.stage.Data? && v.bit < 7 && b == v.mem[v.byte][v.bit] && v.crc == CrcNext(q.crc, b)
    requires q.id == v.id && q.dlc == v.dlc && !IsZero(v.dlc) && v.byte <= LastByte(v.dlc)
    requires forall i :: 0 <= i < v.byte ==> q.mem[i] == v.mem[i]
    requires forall j :: 0 <= j < v.bit ==> q.mem[v.byte][j] == v.mem[v.byte][j]
    ensures Locked(Advanced(v), AcceptData(q, b))
  {
    hide CrcNext, LastByte, IsZero, ByteCount;
  }

  lemma DataEnd(v: Tx, q: Rx, b: bool)
    requires Shared(v, q) && v.stage.Data? && v.bit == 7 && b == v.mem[v.byte][v.bit] && v.crc == CrcNext(q.crc, b)
    requires q.id == v.id && q.dlc == v.dlc && !IsZero(v.dlc) && v.byte <= LastByte(v.dlc)
    requires forall i :: 0 <= i < v.byte ==> q.mem[i] == v.mem[i]
    requires forall j :: 0 <= j < v.bit ==> q.mem[v.byte][j] == v.mem[v.byte][j]
    ensures Locked(Advanced(v), AcceptData(q, b))
  {
    hide CrcNext, LastByte, IsZero;
    NoBytes(v.dlc);
    hide ByteCount;
    assert q.mem[v.byte][v.bit := b] == v.mem[v.byte];
  }

  lemma CrcStep(v: Tx, q: Rx, b: bool)
    requires Shared(v, q) && v.stage.Crc? && b == v.crc[v.bit] && v.crc == q.crc && Delivered(v, q)
    ensures Locked(Advanced(v), AcceptCrc(q, b))
  {
    hide CrcNext, LastByte, IsZero, ByteCount;
  }

  lemma StuffKept(t: Tx, r: Rx)
    requires Locked(t, r) && InField(t.stage) && t.run == 5
    ensures Locked(Drive(t), Sample(r, Drive(t).out))
  {
    hide CrcNext, LastByte, IsZero, ByteCount, Advanced, Accept;
  }

  lemma FieldKept(t: Tx, r: Rx)
    requires Locked(t, r) && InField(t.stage)
    ensures Locked(Drive(t), Sample(r, Drive(t).out))
  {
    hide CrcNext, LastByte, IsZero, Drive, Sample, Advanced, AcceptHdr, AcceptData, AcceptCrc, ByteCount;
    if t.run == 5 {
      StuffKept(t, r);
    } else {
      var b, v, q := FieldBitTime(t, r);
      if t.stage.Hdr? {
        HdrStep(v, q, b);
      } else if t.stage.Data? {
        DataStep(v, q, b);
      } else {
        CrcStep(v, q, b);
      }
    }
  }

  // ---------- the line ----------

  /** Six equal bits from i on. */
  predicate SixEqual(line: Bits, i: nat)
    requires i + 6 <= |line|
  {
    line[i] == line[i + 1] == line[i + 2] == line[i + 3] == line[i + 4] == line[i + 5]
  }

  ghost predicate NoSix(line: Bits) {
    forall i: nat :: i + 6 <= |line| ==> !SixEqual(line, i)
  }

  /** The line ends in exactly run bits equal to prev. */
  ghost predicate EndsIn(line: Bits, prev: bool, run: nat) {
    && 1 <= run <= |line| && (forall i :: |line| - run <= i < |line| ==> line[i] == prev)
    && (|line| > run ==> line[|line| - run - 1] != prev)
  }

  lemma LineGrows(line: Bits, prev: bool, run: nat, b: bool)
    requires NoSix(line) && EndsIn(line, prev, run) && run <= 5 && (run == 5 ==> b != prev)
    ensures NoSix(line + [b]) && EndsIn(line + [b], b, if b == prev then run + 1 else 1)
  {
    var l := line + [b];
    forall i: nat | i + 6 <= |l|
      ensures !SixEqual(l, i)
    {
      if i + 6 <= |line| {
        assert !SixEqual(line, i);
      } else if b == prev {
        assert l[|line| - run - 1] != prev;
      }
    }
  }

  // ---------- whole frames ----------

  /** The bit times left without stuff bits. */
  function Remaining(t: Tx): nat
    requires t.Valid()
  {
    match t.stage
    case Idle => 0
    case Hdr => (18 - t.bit) + 8 * ByteCount(t.dlc) + 25
    case Data => (8 - t.bit) + (if t.byte <= LastByte(t.dlc) then 8 * (LastByte(t.dlc) - t.byte) else 0) + 25
    case Crc => (15 - t.bit) + 10
    case CrcDelim => 10
    case Ack => 9
    case AckDelim => 8
    case Eof => 7 - t.bit
  }

  lemma FieldPasses(v: Tx)
    requires v.Valid() && InField(v.stage) && (v.stage.Data? ==> !IsZero(v.dlc) && v.byte <= LastByte(v.dlc))
    requires v.stage.Hdr? ==> v.byte == 0
    ensures Remaining(Advanced(v)) == Remaining(v) - 1
  {
    hide IsZero, LastByte, CrcNext, Remaining, Advanced;
    if v.stage.Hdr? {
      HdrPasses(v);
    } else if v.stage.Data? {
      DataPasses(v);
    } else {
      CrcPasses(v);
    }
  }

  lemma HdrPasses(v: Tx)
    requires v.Valid() && v.stage.Hdr? && v.byte == 0
    ensures Remaining(Advanced(v)) == Remaining(v) - 1
  {
    hide IsZero, LastByte, CrcNext;
    NoBytes(v.dlc);
    hide ByteCount;
  }

  lemma DataPasses(v: Tx)
    requires v.Valid() && v.stage.Data? && v.byte <= LastByte(v.dlc)
    ensures Remaining(Advanced(v)) == Remaining(v) - 1
  {
    hide IsZero, LastByte, CrcNext, ByteCount;
  }

  lemma CrcPasses(v: Tx)
    requires v.Valid() && v.stage.Crc?
    ensures Remaining(Advanced(v)) == Remaining(v) - 1
  {
    hide IsZero, LastByte, CrcNext, ByteCount;
  }

  lemma BitTimePasses(t: Tx, r: Rx)
    requires Locked(t, r)
    ensures Remaining(Drive(t)) == Remaining(t) - (if InField(t.stage) && t.run == 5 then 0 else 1)
  {
    hide CrcNext, IsZero, LastByte, ByteCount;
    if InField(t.stage) && t.run != 5 {
      hide Remaining, Drive, Sample;
      var b, v, q := FieldBitTime(t, r);
      FieldPasses(v);
      SameRemaining(t, v);
    }
  }

  lemma SameRemaining(t: Tx, v: Tx)
    requires t.Valid() && v.Valid() && t.stage == v.stage && t.bit == v.bit && t.byte == v.byte && t.dlc == v.dlc
    ensures Remaining(t) == Remaining(v)
  {}

  /** Both machines from a bit time inside a frame to its end, and the stuffed part of the line. */
  function RunFrame(t: Tx, r: Rx, line: Bits): (Tx, Rx, Bits)
    requires Locked(t, r)
    decreases Remaining(t), if t.run == 5 then 1 else 0
  {
    LockKept(t, r);
    BitTimePasses(t, r);
    var u := Drive(t);
    var s := Sample(r, u.out);
    var l := if InField(t.stage) then line + [u.out] else line;
    if u.stage.Idle? then (u, s, l) else RunFrame(u, s, l)
  }

  lemma {:induction false} FrameEnds(t: Tx, r: Rx, line: Bits)
    requires Locked(t, r) && NoSix(line) && (InField(t.stage) ==> EndsIn(line, t.prev, t.run))
    ensures var (u, s, l) := RunFrame(t, r, line);
      && u.Valid() && s.Valid() && u.stage.Idle? && !u.busy && u.id == t.id && u.dlc == t.dlc && u.mem == t.mem
      && s.stage.Idle? && s.valid && !s.err && Delivered(u, s) && NoSix(l)
    decreases Remaining(t), if t.run == 5 then 1 else 0
  {
    hide NoSix, EndsIn, CrcNext, LastByte, IsZero, Remaining;
    LockKept(t, r);
    BitTimePasses(t, r);
    var u := Drive(t);
    var s := Sample(r, u.out);
    FrameFixed(t);
    if InField(t.stage) {
      RunCounted(t);
      LineGrows(line, t.prev, t.run, u.out);
    }
    hide Drive, Sample;
    if !u.stage.Idle? {
      hide Locked;
      FrameEnds(u, s, if InField(t.stage) then line + [u.out] else line);
    }
  }

  lemma FrameFixed(t: Tx)
    requires t.Valid()
    ensures var u := Drive(t); u.id == t.id && u.dlc == t.dlc && u.mem == t.mem
  {
    hide CrcNext, LastByte, IsZero, Advanced;
    if InField(t.stage) && t.run != 5 {
      AdvancedKeeps(Driven(t, t.FieldBit()));
    }
  }

  lemma RunCounted(t: Tx)
    requires t.Valid() && InField(t.stage)
    ensures var u := Drive(t);
      u.prev == u.out && u.run == (if u.out == t.prev then t.run + 1 else 1) && (t.run == 5 ==> u.out != t.prev)
  {
    hide CrcNext, LastByte, IsZero, Advanced;
    if t.run != 5 {
      AdvancedKeeps(Driven(t, t.FieldBit()));
    }
  }

  /** For every identifier, length code and data, a frame sent to an idle receiver arrives with the same
      identifier, length and bytes and without error, and from its first bit to the last bit of its CRC the
      line never carries six equal bits in a row. */
  lemma FrameArrives(t: Tx, r: Rx)
    requires t.Valid() && r.Valid() && t.stage.Idle? && t.go && r.stage.Idle?
    ensures Locked(Drive(t), Sample(r, Drive(t).out))
    ensures var (u, s, line) := RunFrame(Drive(t), Sample(r, Drive(t).out), [Drive(t).out]);
      && u.Valid() && s.Valid() && u.stage.Idle? && !u.busy && s.stage.Idle? && s.valid && !s.err
      && s.id == t.id && s.dlc == t.dlc && (forall i :: 0 <= i < ByteCount(t.dlc) ==> s.mem[i] == t.mem[i])
      && NoSix(line)
  {
    FrameStarts(t, r);
    var u := Drive(t);
    assert EndsIn([u.out], u.prev, u.run);
    FrameEnds(u, Sample(r, u.out), [u.out]);
  }
}
