/** The register wrapper that scripts/apb/gen_apb.py emits and the checker that scripts/apb/gen_apb_tb.py emits, for
    any layout: as clocked machines, word by word and bit by bit. */
module ApbWrapper {
  import opened Arithmetic
  import opened Options
  import opened BitFields
  import opened ApbLayout

  // ---------- a layout ----------

  /** Register bits, the lowest first. */
  type Bits = seq<bool>

  datatype Kind =
    | Id | IrqStatus | IrqEnable | Flags | Scratch
    | Rw(secret: bool) | Ro | Cmd
    | Sin(stream: nat) | Sout(stream: nat)
    | CoreReg(bus: nat, windex: Option<nat>, rindex: Option<nat>)

  datatype RegWord = RegWord(kind: Kind, fields: Word)

  /** A stream into or out of the core, with the index of its last word. */
  datatype Stream = Stream(input: bool, valid: string, ready: Option<string>, last: nat)

  /** A register port of the core: the widths of its write address and data, whether it has a read strobe, the width of
      its read address, whether both sides use one address port, and the read data port. */
  datatype CoreBus = CoreBus(write: Option<(nat, nat)>, strobe: bool, read: Option<nat>, sharesAddress: bool,
                             rdata: Option<string>)

  /** What sets an interrupt bit. */
  datatype Source = FromPort(port: string) | Done(stream: nat) | Overflow(stream: nat) | Available(stream: nat)

  datatype Layout = Layout(words: seq<RegWord>, streams: seq<Stream>, irqs: seq<Source>, flags: seq<nat>,
                           buses: seq<CoreBus>, id: nat) {
    predicate Valid() {
      && 5 <= |words| <= 1024 && 0 < |irqs| <= 32 && |flags| <= 32
      && words[0].kind == Id && words[1].kind == IrqStatus && words[2].kind == IrqEnable && words[3].kind == Flags
      && words[4].kind == Scratch
      && (forall i :: 5 <= i < |words| ==>
            !words[i].kind.Id? && !words[i].kind.IrqStatus? && !words[i].kind.IrqEnable?
            && !words[i].kind.Flags? && !words[i].kind.Scratch?)
      && (forall i :: 0 <= i < |words| ==> Tiled(words[i].fields) && End(words[i].fields) <= 32)
      && (forall i :: 0 <= i < |words| && words[i].kind.Sin? ==>
            words[i].kind.stream < |streams| && streams[words[i].kind.stream].input)
      && (forall i :: 0 <= i < |words| && words[i].kind.Sout? ==>
            words[i].kind.stream < |streams| && !streams[words[i].kind.stream].input)
      && (forall k :: 0 <= k < |irqs| && !irqs[k].FromPort? ==> irqs[k].stream < |streams|)
      && (forall k :: 0 <= k < |flags| ==> flags[k] < |streams|)
      && (forall s :: 0 <= s < |streams| ==> streams[s].last < |words|)
      && (forall i :: 0 <= i < |words| && words[i].kind.CoreReg? ==> CoreRegFits(words[i].kind))
      && (forall b :: 0 <= b < |buses| && buses[b].sharesAddress ==>
            buses[b].write.Some? && buses[b].read == Some(buses[b].write.value.0))
    }

    /** A written core register has a write port, and a read one a read data port. */
    predicate CoreRegFits(k: Kind)
      requires k.CoreReg?
    {
      && k.bus < |buses|
      && (k.windex.Some? ==> buses[k.bus].write.Some? && buses[k.bus].write.value.1 <= 32)
      && (k.rindex.Some? ==> buses[k.bus].rdata.Some?)
    }

    /** A write while a beat is held, or a beat that the core does not hold back, can be lost. */
    predicate CanLose(s: nat)
      requires s < |streams|
    {
      if streams[s].input then streams[s].ready.Some? else streams[s].ready.None?
    }

    /** Every stream that can lose something has an overflow bit. */
    predicate Accounts() {
      forall s :: 0 <= s < |streams| && CanLose(s) ==> exists k :: 0 <= k < |irqs| && irqs[k] == Overflow(s)
    }

    /** The implemented bits of a word. */
    function Width(i: nat): nat
      requires i < |words|
    {
      End(words[i].fields)
    }
  }

  // ---------- a clock ----------

  /** The values at the core's output ports. */
  type Core = string -> Bits

  datatype Clock = Clock(psel: bool, penable: bool, pwrite: bool, paddr: nat, pwdata: Bits, pstrb: Bits, core: Core) {
    predicate Valid() {
      paddr < 4096 && |pwdata| == 32 && |pstrb| == 4
    }

    predicate Wr() {
      psel && penable && pwrite
    }

    predicate Rd() {
      psel && penable && !pwrite
    }

    predicate Mask(j: nat)
      requires Valid() && j < 32
    {
      pstrb[j / 8]
    }

    predicate Pin(port: string) {
      |core(port)| > 0 && core(port)[0]
    }
  }

  /** Bit k of a port; bits that it does not have read 0. */
  predicate PortBit(c: Core, port: string, k: nat) {
    k < |c(port)| && c(port)[k]
  }

  function Zeros(n: nat): (z: Bits)
    ensures |z| == n
  {
    seq(n, i => false)
  }

  /** 32'(...). */
  function Extend(r: Bits): (x: Bits)
    ensures |x| == 32
  {
    seq(32, j => 0 <= j < |r| && r[j])
  }

  predicate MergedBit(old': bool, d: bool, m: bool) {
    (old' && !m) || (d && m)
  }

  /** (r & ~m) | (d & m), in the bits of r. */
  function Merged(r: Bits, c: Clock): (x: Bits)
    requires c.Valid() && |r| <= 32
    ensures |x| == |r|
  {
    seq(|r|, j requires 0 <= j < |r| => MergedBit(r[j], c.pwdata[j], c.Mask(j)))
  }

  function Masked(n: nat, c: Clock): (x: Bits)
    requires c.Valid() && n <= 32
    ensures |x| == n
  {
    seq(n, j requires 0 <= j < n => c.pwdata[j] && c.Mask(j))
  }

  /** Nonblocking assignments of port slices to the fields of a word. */
  function Captured(r: Bits, fields: Word, c: Core): (x: Bits)
    ensures |x| == |r|
  {
    if fields == [] then r
    else
      var f := fields[|fields| - 1];
      var q := Captured(r, fields[..|fields| - 1], c);
      seq(|r|, j requires 0 <= j < |r| => if f.lo <= j < f.lo + f.w then PortBit(c, f.port, f.plo + j - f.lo) else q[j])
  }

  /** {..., slice, slice}: the fields from bit 0. */
  function Joined(fields: Word, c: Core): (x: Bits)
    ensures |x| == End(fields)
  {
    if fields == [] then []
    else
      var f := fields[|fields| - 1];
      Joined(fields[..|fields| - 1], c) + seq(f.w, j requires 0 <= j => PortBit(c, f.port, f.plo + j))
  }

  /** The checker's form: the or of the slices shifted to their places. */
  function Ored(fields: Word, c: Core): (x: Bits)
    ensures |x| == 32
  {
    if fields == [] then Zeros(32)
    else
      var f := fields[|fields| - 1];
      var q := Ored(fields[..|fields| - 1], c);
      seq(32, j requires 0 <= j < 32 => q[j] || (f.lo <= j < f.lo + f.w && PortBit(c, f.port, f.plo + j - f.lo)))
  }

  function NumberBits(v: nat, n: nat): (x: Bits)
    ensures |x| == n
  {
    seq(n, j requires 0 <= j => v / Pow2(j) % 2 == 1)
  }

  // ---------- the wrapper ----------

  datatype Wrapper = Wrapper(status: Bits, enable: Bits, scratch: Bits, regs: seq<Bits>, st: seq<bool>)

  predicate WrapperFits(l: Layout, x: Wrapper)
    requires l.Valid()
  {
    && |x.status| == |x.enable| == |l.irqs| && |x.scratch| == 32 && |x.st| == |l.streams| && |x.regs| == |l.words|
    && forall i :: 0 <= i < |l.words| ==> |x.regs[i]| == l.Width(i)
  }

  /** The decoder compares the word index with the number of words as a ten-bit constant. */
  predicate Hit(l: Layout, c: Clock, i: nat) {
    c.paddr % 4 == 0 && c.paddr / 4 < |l.words| % 1024 && c.paddr / 4 == i
  }

  predicate AnyHit(l: Layout, c: Clock) {
    c.paddr % 4 == 0 && c.paddr / 4 < |l.words| % 1024
  }

  predicate Pop(l: Layout, c: Clock, s: nat)
    requires s < |l.streams|
  {
    c.Rd() && Hit(l, c, l.streams[s].last)
  }

  predicate Takes(l: Layout, c: Clock, x: Wrapper, s: nat)
    requires s < |l.streams| == |x.st|
  {
    c.Pin(l.streams[s].valid) && (!x.st[s] || Pop(l, c, s))
  }

  predicate Ready(l: Layout, c: Clock, s: nat)
    requires s < |l.streams|
  {
    l.streams[s].ready.Some? && c.Pin(l.streams[s].ready.value)
  }

  /** A write to a word of an input stream is dropped while a beat is held. */
  predicate Held(l: Layout, x: Wrapper, s: nat)
    requires s < |l.streams| == |x.st|
  {
    l.streams[s].ready.Some? && x.st[s]
  }

  function NextReg(l: Layout, c: Clock, x: Wrapper, i: nat): (r: Bits)
    requires l.Valid() && c.Valid() && WrapperFits(l, x) && i < |l.words|
    ensures |r| == l.Width(i)
  {
    var r := x.regs[i];
    match l.words[i].kind
    case Rw(_) => if c.Wr() && Hit(l, c, i) then Merged(r, c) else r
    case Cmd => if c.Wr() && Hit(l, c, i) then Masked(|r|, c) else Zeros(|r|)
    case Sin(s) => if c.Wr() && Hit(l, c, i) && !Held(l, x, s) then Merged(r, c) else r
    case Sout(s) => if Takes(l, c, x, s) then Captured(r, l.words[i].fields, c.core) else r
    case _ => r
  }

  function NextState(l: Layout, c: Clock, x: Wrapper, s: nat): bool
    requires s < |l.streams| == |x.st|
  {
    var t := l.streams[s];
    if t.input && t.ready.Some? then
      if c.Wr() && Hit(l, c, t.last) && !x.st[s] then true else if x.st[s] && Ready(l, c, s) then false else x.st[s]
    else if t.input then c.Wr() && Hit(l, c, t.last)
    else if Takes(l, c, x, s) then true
    else if Pop(l, c, s) then false
    else x.st[s]
  }

  /** A write hits some word of the input stream s. */
  predicate HitsStream(l: Layout, c: Clock, s: nat) {
    exists i :: 0 <= i < |l.words| && l.words[i].kind == Sin(s) && Hit(l, c, i)
  }

  predicate IrqSet(l: Layout, c: Clock, x: Wrapper, k: nat)
    requires l.Valid() && k < |l.irqs| && |x.st| == |l.streams|
  {
    match l.irqs[k]
    case FromPort(p) => c.Pin(p)
    case Done(s) => x.st[s] && Ready(l, c, s)
    case Overflow(s) =>
      if l.streams[s].input then c.Wr() && HitsStream(l, c, s) && x.st[s]
      else c.Pin(l.streams[s].valid) && x.st[s] && !Pop(l, c, s)
    case Available(s) => Takes(l, c, x, s)
  }

  function NextStatus(l: Layout, c: Clock, x: Wrapper): (r: Bits)
    requires l.Valid() && c.Valid() && WrapperFits(l, x)
    ensures |r| == |l.irqs|
  {
    seq(|l.irqs|, k requires 0 <= k < |l.irqs| =>
      (x.status[k] && !(c.Wr() && Hit(l, c, 1) && c.pwdata[k] && c.Mask(k))) || IrqSet(l, c, x, k))
  }

  function Next(l: Layout, c: Clock, x: Wrapper): (y: Wrapper)
    requires l.Valid() && c.Valid() && WrapperFits(l, x)
    ensures WrapperFits(l, y)
  {
    Wrapper(NextStatus(l, c, x),
            if c.Wr() && Hit(l, c, 2) then Merged(x.enable, c) else x.enable,
            if c.Wr() && Hit(l, c, 4) then Merged(x.scratch, c) else x.scratch,
            seq(|l.words|, i requires 0 <= i < |l.words| => NextReg(l, c, x, i)),
            seq(|l.streams|, s requires 0 <= s < |l.streams| => NextState(l, c, x, s)))
  }

  function AtReset(l: Layout): (x: Wrapper)
    requires l.Valid()
    ensures WrapperFits(l, x)
  {
    Wrapper(Zeros(|l.irqs|), Zeros(|l.irqs|), Zeros(32),
            seq(|l.words|, i requires 0 <= i < |l.words| =>
              if l.words[i].kind.Rw? then NumberBits(ResetOf(l.words[i].fields), l.Width(i)) else Zeros(l.Width(i))),
            seq(|l.streams|, s => false))
  }

  function FlagBits(l: Layout, st: seq<bool>): Bits
    requires l.Valid() && |st| == |l.streams|
  {
    seq(|l.flags|, k requires 0 <= k < |l.flags| => st[l.flags[k]])
  }

  /** The read multiplexer. */
  function ReadWord(l: Layout, c: Clock, x: Wrapper, i: nat): Bits
    requires l.Valid() && WrapperFits(l, x) && i < |l.words|
  {
    match l.words[i].kind
    case Id => NumberBits(l.id, 32)
    case IrqStatus => Extend(x.status)
    case IrqEnable => Extend(x.enable)
    case Flags => Extend(FlagBits(l, x.st))
    case Scratch => x.scratch
    case Rw(secret) => if secret then Zeros(32) else Extend(x.regs[i])
    case Ro => Extend(Joined(l.words[i].fields, c.core))
    case Cmd => Zeros(32)
    case Sin(_) => Extend(x.regs[i])
    case Sout(_) => Extend(x.regs[i])
    case CoreReg(b, _, r) => if r.Some? then Extend(c.core(l.buses[b].rdata.value)) else Zeros(32)
  }

  /** What the wrapper drives: read data, the error response, the interrupt, and the registers towards the core. */
  datatype Outputs = Outputs(pready: bool, prdata: Bits, pslverr: bool, irq: bool, fields: seq<Bits>, states: seq<bool>,
                             readies: seq<bool>)

  predicate Partial(l: Layout, c: Clock, i: nat)
    requires i < |l.words|
  {
    c.pwrite && c.pstrb != [true, true, true, true] && l.words[i].kind.CoreReg? && l.words[i].kind.windex.Some?
  }

  function Drives(l: Layout, c: Clock, x: Wrapper): Outputs
    requires l.Valid() && c.Valid() && WrapperFits(l, x)
  {
    var i := c.paddr / 4;
    Outputs(
      c.psel && c.penable,
      if c.Rd() && AnyHit(l, c) && i < |l.words| then ReadWord(l, c, x, i) else Zeros(32),
      c.psel && c.penable && (!AnyHit(l, c) || (i < |l.words| && Partial(l, c, i))),
      exists k :: 0 <= k < |l.irqs| && x.status[k] && x.enable[k],
      seq(|l.words|, i requires 0 <= i < |l.words| => ToCore(l, i, x.regs[i])),
      x.st,
      seq(|l.streams|, s requires 0 <= s < |l.streams| => !x.st[s] || Pop(l, c, s)))
  }

  /** The register of a word whose fields are core inputs. */
  function ToCore(l: Layout, i: nat, r: Bits): Bits
    requires i < |l.words|
  {
    match l.words[i].kind
    case Rw(_) => r
    case Cmd => r
    case Sin(_) => r
    case _ => []
  }

  // ---------- the register ports of the core ----------

  const ALL_LANES: Bits := [true, true, true, true]

  /** A word of bus b with an index on the write or the read side. */
  predicate OnBus(w: RegWord, b: nat, write: bool) {
    w.kind.CoreReg? && w.kind.bus == b && (if write then w.kind.windex.Some? else w.kind.rindex.Some?)
  }

  function IndexOn(w: RegWord, b: nat, write: bool): nat
    requires OnBus(w, b, write)
  {
    if write then w.kind.windex.value else w.kind.rindex.value
  }

  predicate HitsBus(l: Layout, c: Clock, b: nat, write: bool) {
    exists i :: 0 <= i < |l.words| && OnBus(l.words[i], b, write) && Hit(l, c, i)
  }

  /** The or over the first n words of their indices, as constants of the width of the address port, where hit. */
  function HitIndex(l: Layout, c: Clock, b: nat, write: bool, width: nat, n: nat): nat
    requires n <= |l.words|
  {
    if n == 0 then 0
    else
      var w := l.words[n - 1];
      Or(HitIndex(l, c, b, write, width, n - 1),
         if OnBus(w, b, write) && Hit(l, c, n - 1) then IndexOn(w, b, write) % Pow2(width) else 0)
  }

  /** What the wrapper drives on a register port. A port that is absent reads 0 here. */
  datatype BusOut = BusOut(wen: bool, waddr: nat, wdata: Bits, ren: bool, raddr: nat)

  function BusDrives(l: Layout, c: Clock, b: nat): BusOut
    requires l.Valid() && c.Valid() && b < |l.buses|
  {
    var p := l.buses[b];
    var read := if p.read.Some? && c.Rd() then HitIndex(l, c, b, false, p.read.value, |l.words|) else 0;
    var waddr := if p.write.None? then 0
                 else if c.Wr() then HitIndex(l, c, b, true, p.write.value.0, |l.words|)
                 else if p.sharesAddress then read
                 else 0;
    BusOut(c.Wr() && c.pstrb == ALL_LANES && HitsBus(l, c, b, true), waddr,
           if p.write.Some? && p.write.value.1 <= 32 then c.pwdata[..p.write.value.1] else c.pwdata,
           p.strobe && c.Rd() && HitsBus(l, c, b, false), if p.sharesAddress && p.write.Some? then waddr else read)
  }

  // ---------- the clocked registers ----------

  class Registers {
    const layout: Layout
    var irqStatus: Bits
    var irqEnable: Bits
    var scratch: Bits
    var regs: seq<Bits>
    var st: seq<bool>

    ghost function State(): Wrapper
      reads this
    {
      Wrapper(irqStatus, irqEnable, scratch, regs, st)
    }

    /** Reset. */
    constructor (l: Layout)
      requires l.Valid()
      ensures layout == l && State() == AtReset(l)
    {
      layout := l;
      var x := AtReset(l);
      irqStatus, irqEnable, scratch, regs, st := x.status, x.enable, x.scratch, x.regs, x.st;
    }

    /** A rising clock edge: every register takes its value from the values before the edge. */
    method Edge(c: Clock)
      requires layout.Valid() && c.Valid() && WrapperFits(layout, State())
      modifies this
      ensures State() == Next(layout, c, old(State()))
    {
      hide NextReg, NextState, NextStatus, Merged, Hit;
      ghost var was := State();
      var x := Wrapper(irqStatus, irqEnable, scratch, regs, st);
      irqStatus := NextStatus(layout, c, x);
      if c.Wr() && Hit(layout, c, 2) {
        irqEnable := Merged(irqEnable, c);
      }
      if c.Wr() && Hit(layout, c, 4) {
        scratch := Merged(scratch, c);
      }
      for i := 0 to |layout.words|
        invariant irqStatus == Next(layout, c, was).status && irqEnable == Next(layout, c, was).enable
        invariant scratch == Next(layout, c, was).scratch
        invariant |regs| == |layout.words| && st == was.st
        invariant forall k :: 0 <= k < i ==> regs[k] == NextReg(layout, c, was, k)
        invariant forall k :: i <= k < |regs| ==> regs[k] == was.regs[k]
      {
        regs := regs[i := NextReg(layout, c, x, i)];
      }
      assert regs == Next(layout, c, was).regs;
      st := seq(|layout.streams|, s requires 0 <= s < |layout.streams| => NextState(layout, c, x, s));
    }
  }
}
