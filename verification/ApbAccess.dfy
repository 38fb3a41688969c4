/** What software sees of the wrapper of scripts/apb/gen_apb.py over a whole run: bit by bit the last value written
    under its byte strobe, flags, pulses, pending interrupts, and exactly the accesses that end in an error. */
module ApbAccess {
  import opened Arithmetic
  import opened ApbLayout
  import opened ApbWrapper
  import opened ApbChecker
  import opened ApbStreams

  /** A completed read or write of word i. */
  predicate Access(c: Clock, i: nat, write: bool) {
    c.psel && c.penable && c.pwrite == write && c.paddr == 4 * i
  }

  /** Whether the byte strobe of bit j is on. */
  predicate Strobed(c: Clock, j: nat)
    requires c.Valid() && j < 32
  {
    if j < 8 then c.pstrb[0] else if j < 16 then c.pstrb[1] else if j < 24 then c.pstrb[2] else c.pstrb[3]
  }

  /** The last value written to bit j of word i before clock n, and the reset value before any. */
  function LastWritten(run: seq<Clock>, n: nat, i: nat, j: nat, reset: bool): bool
    requires n <= |run| && j < 32 && forall k :: 0 <= k < |run| ==> run[k].Valid()
  {
    if n == 0 then reset
    else if Access(run[n - 1], i, true) && Strobed(run[n - 1], j) then run[n - 1].pwdata[j]
    else LastWritten(run, n - 1, i, j, reset)
  }

  lemma HitIs(l: Layout, c: Clock, i: nat)
    requires l.Valid() && |l.words| < 1024 && c.Valid() && i < |l.words|
    ensures (c.Wr() && Hit(l, c, i) <==> Access(c, i, true)) && (c.Rd() && Hit(l, c, i) <==> Access(c, i, false))
  {}

  lemma MaskIs(c: Clock, j: nat)
    requires c.Valid() && j < 32
    ensures c.Mask(j) == Strobed(c, j)
  {}

  lemma MergedAt(r: Bits, c: Clock, j: nat)
    requires c.Valid() && j < |r| <= 32
    ensures Merged(r, c)[j] == if Strobed(c, j) then c.pwdata[j] else r[j]
  {
    MaskIs(c, j);
  }

  /** Bit j of a register of the IP. */
  lemma {:induction false} RegisterBit(l: Layout, run: seq<Clock>, n: nat, i: nat, j: nat)
    requires IsRun(l, run) && |l.words| < 1024 && n <= |run| && i < |l.words| && l.words[i].kind.Rw? && j < l.Width(i)
    ensures StateAt(l, run, n).regs[i][j]
         == LastWritten(run, n, i, j, BitAt(ResetOf(l.words[i].fields), j) == 1)
  {
    hide Tiled, End, Next, AtReset, ResetOf, Access, Strobed;
    if n == 0 {
      ResetBit(l, i, j);
    } else {
      RegisterBit(l, run, n - 1, i, j);
      RegisterStep(l, run[n - 1], StateAt(l, run, n - 1), i, j);
    }
  }

  lemma ResetBit(l: Layout, i: nat, j: nat)
    requires l.Valid() && i < |l.words| && l.words[i].kind.Rw? && j < l.Width(i)
    ensures AtReset(l).regs[i][j] == (BitAt(ResetOf(l.words[i].fields), j) == 1)
  {
    hide Tiled, End, ResetOf, NumberBits;
    NumberBit(ResetOf(l.words[i].fields), l.Width(i), j);
  }

  lemma RegisterStep(l: Layout, c: Clock, x: Wrapper, i: nat, j: nat)
    requires l.Valid() && |l.words| < 1024 && c.Valid() && WrapperFits(l, x) && i < |l.words|
    requires l.words[i].kind.Rw? && j < l.Width(i)
    ensures Next(l, c, x).regs[i][j] == if Access(c, i, true) && Strobed(c, j) then c.pwdata[j] else x.regs[i][j]
  {
    hide Tiled, End, Hit, NextStatus, NextState, Merged, Access, Strobed, Clock.Wr;
    assert Next(l, c, x).regs[i] == NextReg(l, c, x, i);
    HitIs(l, c, i);
    MergedAt(x.regs[i], c, j);
  }

  lemma NumberBit(v: nat, n: nat, j: nat)
    requires j < n
    ensures NumberBits(v, n)[j] == (BitAt(v, j) == 1)
  {
    ShiftedBit(v, j);
  }

  lemma {:induction false} ShiftedBit(v: nat, j: nat)
    ensures v / Pow2(j) % 2 == BitAt(v, j)
  {
    if j == 0 {
      assert Pow2(0) == 1;
    } else {
      ShiftedBit(v / 2, j - 1);
      Halved(v, Pow2(j - 1));
    }
  }

  lemma Halved(v: nat, p: nat)
    requires p > 0
    ensures v / (2 * p) == v / 2 / p
  {
    var q, r := v / 2 / p, v / 2 % p;
    DivMod(v / 2, p);
    assert v == (2 * p) * q + (2 * r + v % 2);
    Divide(q, 2 * r + v % 2, 2 * p);
  }

  /** Bit j of the interrupt enable and of the scratch word. */
  lemma {:induction false} FixedBit(l: Layout, run: seq<Clock>, n: nat, j: nat)
    requires IsRun(l, run) && |l.words| < 1024 && n <= |run| && j < 32
    ensures StateAt(l, run, n).scratch[j] == LastWritten(run, n, 4, j, false)
    ensures j < |l.irqs| ==> StateAt(l, run, n).enable[j] == LastWritten(run, n, 2, j, false)
  {
    hide Tiled, End, Hit, NextStatus, NextState, NextReg, Merged, ResetOf, Access, Strobed, Clock.Wr;
    if n > 0 {
      FixedBit(l, run, n - 1, j);
      var c, x := run[n - 1], StateAt(l, run, n - 1);
      HitIs(l, c, 4);
      HitIs(l, c, 2);
      MergedAt(x.scratch, c, j);
      if j < |l.irqs| {
        MergedAt(x.enable, c, j);
      }
    }
  }

  /** What a read of word i returns. */
  lemma ReadIs(l: Layout, c: Clock, x: Wrapper, i: nat)
    requires l.Valid() && |l.words| < 1024 && c.Valid() && WrapperFits(l, x) && i < |l.words| && Access(c, i, false)
    ensures Drives(l, c, x).prdata == ReadWord(l, c, x, i)
  {
    hide ReadWord, Tiled, End, ToCore;
  }

  /** Reading a register of the IP returns the last bits written, unless it is secret, and zeros above its fields; the
      core sees the same bits. */
  lemma RegisterReads(l: Layout, run: seq<Clock>, n: nat, i: nat, j: nat)
    requires IsRun(l, run) && |l.words| < 1024 && n < |run| && i < |l.words| && l.words[i].kind.Rw? && j < 32
    ensures var o, w := Drives(l, run[n], StateAt(l, run, n)), l.Width(i);
      var bit := LastWritten(run, n, i, j, BitAt(ResetOf(l.words[i].fields), j) == 1);
      && |o.fields| == |l.words| && |o.fields[i]| == w && (j < w ==> o.fields[i][j] == bit)
      && (Access(run[n], i, false) ==>
            |o.prdata| == 32 && o.prdata[j] == (j < w && !l.words[i].kind.secret && bit))
  {
    hide Tiled, End, LastWritten, ResetOf, Access, Strobed, Hit;
    var x := StateAt(l, run, n);
    if j < l.Width(i) {
      RegisterBit(l, run, n, i, j);
    }
    if Access(run[n], i, false) {
      ReadIs(l, run[n], x, i);
    }
  }

  /** Reading the fixed words: the identifier, which interrupts are enabled, which flagged streams hold a beat, and the
      scratch word. */
  lemma FixedReads(l: Layout, run: seq<Clock>, n: nat, j: nat)
    requires IsRun(l, run) && |l.words| < 1024 && n < |run| && j < 32
    ensures var o := Drives(l, run[n], StateAt(l, run, n));
      && |o.prdata| == 32 && |o.states| == |l.streams|
      && (Access(run[n], 0, false) ==> o.prdata[j] == (BitAt(l.id, j) == 1))
      && (Access(run[n], 2, false) ==> o.prdata[j] == (j < |l.irqs| && LastWritten(run, n, 2, j, false)))
      && (Access(run[n], 3, false) ==> o.prdata[j] == (j < |l.flags| && o.states[l.flags[j]]))
      && (Access(run[n], 4, false) ==> o.prdata[j] == LastWritten(run, n, 4, j, false))
  {
    hide Tiled, End, LastWritten, Access, Strobed, Hit, AnyHit;
    FixedBit(l, run, n, j);
    NumberBit(l.id, 32, j);
    ReadLength(l, run[n], StateAt(l, run, n));
    forall i | 0 <= i < 5 && Access(run[n], i, false)
      ensures Drives(l, run[n], StateAt(l, run, n)).prdata == ReadWord(l, run[n], StateAt(l, run, n), i)
    {
      ReadIs(l, run[n], StateAt(l, run, n), i);
    }
    hide NumberBits;
  }

  lemma ReadLength(l: Layout, c: Clock, x: Wrapper)
    requires l.Valid() && c.Valid() && WrapperFits(l, x)
    ensures |Drives(l, c, x).prdata| == 32
  {
    hide Tiled, End, ToCore;
  }

  /** A command pulse lasts exactly the clock after its write, with the written bits under their strobes. */
  lemma CommandPulses(l: Layout, run: seq<Clock>, n: nat, i: nat, j: nat)
    requires IsRun(l, run) && |l.words| < 1024 && n < |run| && i < |l.words| && l.words[i].kind.Cmd? && j < l.Width(i)
    ensures j < 32 && var o := Drives(l, run[n], StateAt(l, run, n));
      && |o.fields| == |l.words| && |o.fields[i]| == l.Width(i)
      && (o.fields[i][j] <==> n > 0 && Access(run[n - 1], i, true) && Strobed(run[n - 1], j) && run[n - 1].pwdata[j])
  {
    hide Tiled, End, Hit, NextStatus, NextState, ResetOf, Access, Strobed, Clock.Wr, ReadWord;
    if n > 0 {
      var c, x := run[n - 1], StateAt(l, run, n - 1);
      assert Next(l, c, x).regs[i] == NextReg(l, c, x, i);
      HitIs(l, c, i);
      MaskIs(c, j);
    }
  }

  /** An access ends in an error exactly if its address is no word of the layout, or if it writes less than four bytes
      of a word of a register port of the core. */
  lemma ErrorsExact(l: Layout, c: Clock, x: Wrapper)
    requires l.Valid() && |l.words| < 1024 && c.Valid() && WrapperFits(l, x)
    ensures Drives(l, c, x).pready == (c.psel && c.penable)
    ensures var i := c.paddr / 4;
      Drives(l, c, x).pslverr <==>
        (c.psel && c.penable &&
         (c.paddr % 4 != 0 || i >= |l.words| ||
          (c.pwrite && !(c.pstrb[0] && c.pstrb[1] && c.pstrb[2] && c.pstrb[3])
             && l.words[i].kind.CoreReg? && l.words[i].kind.windex.Some?)))
  {
    hide ReadWord, ToCore, Tiled, End;
    assert c.pstrb == [c.pstrb[0], c.pstrb[1], c.pstrb[2], c.pstrb[3]];
  }

  /** Software clears interrupt k by writing a one to its bit. */
  predicate Cleared(c: Clock, k: nat)
    requires c.Valid() && k < 32
  {
    Access(c, 1, true) && Strobed(c, k) && c.pwdata[k]
  }

  /** Bit 0 of an output port of the core. */
  predicate High(c: Clock, port: string) {
    c.core(port) != [] && c.core(port)[0]
  }

  /** What sets interrupt k: its port, an accepted beat, a write to a stream that holds a beat, a beat that the core
      delivers while one is unread, or one that it delivers into an empty register. */
  ghost predicate Event(l: Layout, c: Clock, st: seq<bool>, k: nat)
    requires l.Valid() && k < |l.irqs| && |st| == |l.streams|
  {
    match l.irqs[k]
    case FromPort(p) => High(c, p)
    case Done(s) => st[s] && l.streams[s].ready.Some? && High(c, l.streams[s].ready.value)
    case Overflow(s) =>
      if l.streams[s].input
        then st[s] && exists i: nat :: i < |l.words| && l.words[i].kind == Sin(s) && Access(c, i, true)
      else High(c, l.streams[s].valid) && st[s] && !Access(c, l.streams[s].last, false)
    case Available(s) => High(c, l.streams[s].valid) && (!st[s] || Access(c, l.streams[s].last, false))
  }

  lemma PopIs(l: Layout, c: Clock, s: nat)
    requires l.Valid() && |l.words| < 1024 && c.Valid() && s < |l.streams|
    ensures Pop(l, c, s) <==> Access(c, l.streams[s].last, false)
  {
    HitIs(l, c, l.streams[s].last);
  }

  lemma EventIs(l: Layout, c: Clock, x: Wrapper, k: nat)
    requires l.Valid() && |l.words| < 1024 && c.Valid() && WrapperFits(l, x) && k < |l.irqs|
    ensures IrqSet(l, c, x, k) <==> Event(l, c, x.st, k)
  {
    hide Tiled, End, Hit, Access, Clock.Wr, Clock.Rd;
    forall i: nat | i < |l.words|
      ensures c.Wr() && Hit(l, c, i) <==> Access(c, i, true)
    {
      HitIs(l, c, i);
    }
    forall s | 0 <= s < |l.streams|
      ensures Pop(l, c, s) <==> Access(c, l.streams[s].last, false)
    {
      PopIs(l, c, s);
    }
  }

  /** Whether a stream holds a beat. Into the core with a ready: from a write of its last word until the core is ready;
      without: in the clock after such a write. Out of the core: from a delivery until its last word is read, unless
      the next is delivered in that clock. */
  lemma StreamStates(l: Layout, c: Clock, x: Wrapper, s: nat)
    requires l.Valid() && |l.words| < 1024 && c.Valid() && WrapperFits(l, x) && s < |l.streams|
    ensures var t := l.streams[s]; var full := x.st[s];
      Next(l, c, x).st[s] ==
        if t.input && t.ready.Some? then (if full then !High(c, t.ready.value) else Access(c, t.last, true))
        else if t.input then Access(c, t.last, true)
        else (full && !Access(c, t.last, false)) || High(c, t.valid)
  {
    hide Tiled, End, Hit, Access, Clock.Wr, Clock.Rd, NextReg, NextStatus;
    HitIs(l, c, l.streams[s].last);
    PopIs(l, c, s);
    assert Next(l, c, x).st[s] == NextState(l, c, x, s);
  }

  // ---------- words that show ports of the core ----------

  lemma {:induction false} OredField(fields: Word, c: Core, i: nat, j: nat)
    requires Tiled(fields) && End(fields) <= 32 && i < |fields| && j < fields[i].w
    ensures fields[i].lo + j < 32 && Ored(fields, c)[fields[i].lo + j] == PortBit(c, fields[i].port, fields[i].plo + j)
    decreases |fields|
  {
    var rest := fields[..|fields| - 1];
    FieldBelow(fields, i);
    if i < |rest| {
      OredField(rest, c, i, j);
      FieldBelow(rest, i);
    } else {
      OredBelow(rest, c, fields[i].lo + j);
    }
  }

  /** A read of a status word shows, at the place of each field, the bits of its port in that clock, and zeros above the
      fields. */
  lemma StatusReads(l: Layout, c: Clock, x: Wrapper, i: nat, f: nat, j: nat)
    requires l.Valid() && |l.words| < 1024 && c.Valid() && WrapperFits(l, x) && i < |l.words| && l.words[i].kind.Ro?
    requires Access(c, i, false) && f < |l.words[i].fields| && j < l.words[i].fields[f].w
    ensures var d := l.words[i].fields[f]; var o := Drives(l, c, x).prdata;
      |o| == 32 && d.lo + j < 32 && o[d.lo + j] == (d.plo + j < |c.core(d.port)| && c.core(d.port)[d.plo + j])
    ensures forall m :: l.Width(i) <= m < 32 ==> !Drives(l, c, x).prdata[m]
  {
    ReadLength(l, c, x);
    ReadIs(l, c, x, i);
    JoinedIsOred(l.words[i].fields, c.core);
    OredField(l.words[i].fields, c.core, f, j);
    hide Tiled, End, Ored, Joined, Extend, Drives, AnyHit;
    forall m | l.Width(i) <= m < 32
      ensures !Ored(l.words[i].fields, c.core)[m]
    {
      OredBelow(l.words[i].fields, c.core, m);
    }
  }

  /** A captured beat holds, at the place of each field, the bits that its port had in that clock. */
  lemma BeatHolds(l: Layout, c: Clock, x: Wrapper, s: nat, i: nat, f: nat, j: nat)
    requires l.Valid() && |l.words| < 1024 && c.Valid() && WrapperFits(l, x) && s < |l.streams| && i < |l.words|
    requires l.words[i].kind == Sout(s) && f < |l.words[i].fields| && j < l.words[i].fields[f].w
    requires High(c, l.streams[s].valid) && (!x.st[s] || Access(c, l.streams[s].last, false))
    ensures var d := l.words[i].fields[f]; var r := Next(l, c, x).regs[i];
      d.lo + j < |r| <= 32 && r[d.lo + j] == (d.plo + j < |c.core(d.port)| && c.core(d.port)[d.plo + j])
  {
    PopIs(l, c, s);
    var d, fields := l.words[i].fields[f], l.words[i].fields;
    FieldBelow(fields, f);
    CapturedBit(x.regs[i], fields, c.core, d.lo + j);
    OredField(fields, c.core, f, j);
    hide Tiled, End, Ored, Captured, Hit, Access, NextState, NextStatus;
    assert Next(l, c, x).regs[i] == NextReg(l, c, x, i);
  }

  // ---------- interrupts ----------

  /** Interrupt k is set in clock m and not cleared in a later one before clock n. */
  ghost predicate SetAndKept(l: Layout, run: seq<Clock>, m: nat, n: nat, k: nat)
    requires IsRun(l, run) && n <= |run| && k < |l.irqs|
  {
    m < n && Event(l, run[m], StateAt(l, run, m).st, k) && forall j :: m < j < n ==> !Cleared(run[j], k)
  }

  /** An interrupt is pending exactly if it was set in some clock and not cleared since; setting wins over clearing. */
  lemma {:induction false} PendingExact(l: Layout, run: seq<Clock>, n: nat, k: nat)
    requires IsRun(l, run) && |l.words| < 1024 && n <= |run| && k < |l.irqs|
    ensures StateAt(l, run, n).status[k] <==> exists m: nat :: SetAndKept(l, run, m, n, k)
  {
    hide AtReset, Event, Cleared, Next, Tiled, End;
    if n == 0 {
      NonePending(l, k);
    } else {
      PendingExact(l, run, n - 1, k);
      var c, x := run[n - 1], StateAt(l, run, n - 1);
      StatusStep(l, c, x, k);
      if Event(l, c, x.st, k) {
        assert SetAndKept(l, run, n - 1, n, k);
      } else if x.status[k] && !Cleared(c, k) {
        var m: nat :| SetAndKept(l, run, m, n - 1, k);
        assert SetAndKept(l, run, m, n, k);
      }
      forall m: nat | SetAndKept(l, run, m, n, k) && m < n - 1
        ensures SetAndKept(l, run, m, n - 1, k) && !Cleared(c, k)
      {}
    }
  }

  lemma StatusStep(l: Layout, c: Clock, x: Wrapper, k: nat)
    requires l.Valid() && |l.words| < 1024 && c.Valid() && WrapperFits(l, x) && k < |l.irqs|
    ensures Next(l, c, x).status[k] == ((x.status[k] && !Cleared(c, k)) || Event(l, c, x.st, k))
  {
    hide Tiled, End, Hit, NextState, NextReg, Access, Strobed, Clock.Wr, IrqSet, Event;
    HitIs(l, c, 1);
    MaskIs(c, k);
    EventIs(l, c, x, k);
    assert NextStatus(l, c, x)[k] == ((x.status[k] && !Cleared(c, k)) || Event(l, c, x.st, k));
  }

  lemma NonePending(l: Layout, k: nat)
    requires l.Valid() && k < |l.irqs|
    ensures !AtReset(l).status[k]
  {}

  /** The interrupt is raised exactly while a pending interrupt is enabled. */
  lemma InterruptExact(l: Layout, run: seq<Clock>, n: nat)
    requires IsRun(l, run) && |l.words| < 1024 && n < |run|
    ensures var x := StateAt(l, run, n);
      Drives(l, run[n], x).irq <==> exists k :: 0 <= k < |l.irqs| && x.status[k] && LastWritten(run, n, 2, k, false)
  {
    hide ReadWord, ToCore, Tiled, End, AnyHit, Partial, LastWritten, Next, AtReset;
    var x := StateAt(l, run, n);
    forall k | 0 <= k < |l.irqs|
      ensures x.enable[k] == LastWritten(run, n, 2, k, false)
    {
      FixedBit(l, run, n, k);
    }
  }
}
