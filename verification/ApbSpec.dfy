/** The layout of scripts/apb/gen_apb.py: from the register specification of an IP to words, interrupt sources, flags,
    streams and register ports. Every layout that it accepts is one of those that the wrapper, the checker and the
    streams are proved for. */
module ApbSpec {
  import opened Options
  import opened ApbLayout
  import opened ApbWrapper

  // ---------- a specification ----------

  datatype Direction = Input | Output | Inout

  datatype Pin = Pin(dir: Direction, width: nat)

  /** The ports of the core. */
  type Pins = map<string, Pin>

  datatype FieldSpec = FieldSpec(port: string, reset: int)

  datatype FieldKind = RwFields | RoFields | CmdFields

  datatype WriteSide = WriteSide(wen: string, waddr: string, wdata: string)

  datatype BusWord = BusWord(w: Option<nat>, r: Option<nat>)

  datatype Reg =
    | Fields(name: string, fieldKind: FieldKind, fields: seq<FieldSpec>, secret: bool)
    | Beats(name: string, input: bool, data: seq<string>, valid: string, ready: Option<string>)
    | Bus(name: string, write: Option<WriteSide>, ren: Option<string>, raddr: Option<string>, rdata: Option<string>,
          busWords: seq<BusWord>)

  datatype Irq = Irq(name: string, port: string)

  datatype Spec = Spec(irqs: seq<Irq>, regs: seq<Reg>, tie: seq<string>, id: nat)

  // ---------- the layout under construction ----------

  /** Interrupt sources and streams have names. */
  datatype Plan = Plan(words: seq<RegWord>, irqs: seq<Source>, irqNames: seq<string>, flags: seq<nat>,
                       streams: seq<Stream>, streamNames: seq<string>, buses: seq<CoreBus>)

  predicate Is(pins: Pins, port: string, dir: Direction) {
    port in pins && pins[port].dir == dir
  }

  predicate AllAre(pins: Pins, ports: seq<string>, dir: Direction) {
    forall i :: 0 <= i < |ports| ==> Is(pins, ports[i], dir)
  }

  const FIXED: seq<RegWord> := [RegWord(Id, []), RegWord(IrqStatus, []), RegWord(IrqEnable, []), RegWord(Flags, []),
                                RegWord(Scratch, [])]

  function PortsOf(fields: seq<FieldSpec>): (ports: seq<string>)
    ensures |ports| == |fields|
  {
    seq(|fields|, i requires 0 <= i < |fields| => fields[i].port)
  }

  function Packable(fields: seq<FieldSpec>, pins: Pins): (ports: seq<Port>)
    requires forall i :: 0 <= i < |fields| ==> fields[i].port in pins
    ensures |ports| == |fields|
  {
    seq(|fields|, i requires 0 <= i < |fields| => Port(fields[i].port, pins[fields[i].port].width, fields[i].reset))
  }

  function Kinded(kind: Kind, words: seq<Word>): (r: seq<RegWord>)
    ensures |r| == |words| && forall i :: 0 <= i < |r| ==> r[i] == RegWord(kind, words[i])
  {
    seq(|words|, i requires 0 <= i < |words| => RegWord(kind, words[i]))
  }

  function KindOf(r: Reg): Kind
    requires r.Fields?
  {
    match r.fieldKind
    case RwFields => Rw(r.secret)
    case RoFields => Ro
    case CmdFields => Cmd
  }

  function AddFields(p: Plan, r: Reg, pins: Pins): Option<Plan>
    requires r.Fields?
  {
    var ports := PortsOf(r.fields);
    if !AllAre(pins, ports, if r.fieldKind.RoFields? then Output else Input) then None
    else if r.fieldKind.CmdFields? && exists i :: 0 <= i < |r.fields| && pins[ports[i]].width != 1 then None
    else
      assert forall i :: 0 <= i < |r.fields| ==> r.fields[i].port == ports[i] && ports[i] in pins;
      Some(p.(words := p.words + Kinded(KindOf(r), PackOf(Packable(r.fields, pins)))))
  }

  function Unset(data: seq<string>): (fields: seq<FieldSpec>)
    ensures |fields| == |data|
  {
    seq(|data|, i requires 0 <= i < |data| => FieldSpec(data[i], 0))
  }

  function StreamSources(r: Reg, s: nat): (i: seq<Source>)
    requires r.Beats?
  {
    if r.input then (if r.ready.Some? then [Done(s), Overflow(s)] else [])
    else if r.ready.Some? then [Available(s)] else [Available(s), Overflow(s)]
  }

  function StreamIrqNames(r: Reg): (n: seq<string>)
    requires r.Beats?
  {
    if r.input then (if r.ready.Some? then [r.name + "_DONE", r.name + "_OVF"] else [])
    else if r.ready.Some? then [r.name + "_AVAIL"] else [r.name + "_AVAIL", r.name + "_OVF"]
  }

  /** None also for a stream without data, which has no last word. */
  function AddStream(p: Plan, r: Reg, pins: Pins): Option<Plan>
    requires r.Beats?
  {
    var dir, back := if r.input then Input else Output, if r.input then Output else Input;
    if !AllAre(pins, r.data, dir) || !Is(pins, r.valid, dir) || (r.ready.Some? && !Is(pins, r.ready.value, back)) then
      None
    else
      var fields := Unset(r.data);
      assert forall i :: 0 <= i < |fields| ==> fields[i].port == r.data[i];
      var words, s := PackOf(Packable(fields, pins)), |p.streams|;
      if words == [] then None
      else
        Some(Plan(p.words + Kinded(if r.input then Sin(s) else Sout(s), words),
                  p.irqs + StreamSources(r, s), p.irqNames + StreamIrqNames(r),
                  if r.input && r.ready.None? then p.flags else p.flags + [s],
                  p.streams + [Stream(r.input, r.valid, r.ready, |p.words| + |words| - 1)], p.streamNames + [r.name],
                  p.buses))
  }

  function Given(o: Option<string>): seq<string> {
    if o.Some? then [o.value] else []
  }

  function BusInputs(r: Reg): seq<string>
    requires r.Bus?
  {
    (if r.write.Some? then [r.write.value.wen, r.write.value.waddr, r.write.value.wdata] else []) + Given(r.ren)
      + Given(r.raddr)
  }

  /** Whether a word of a register port has an index, the ports for its sides, and at most 32 bits. */
  predicate BusWordFits(r: Reg, w: BusWord, pins: Pins)
    requires r.Bus? && AllAre(pins, BusInputs(r), Input) && AllAre(pins, Given(r.rdata), Output)
  {
    && (w.w.Some? || w.r.Some?)
    && (w.w.Some? ==> r.write.Some? && r.write.value.wdata in pins && pins[r.write.value.wdata].width <= 32)
    && (w.r.Some? ==> r.rdata.Some? && r.rdata.value in pins && pins[r.rdata.value].width <= 32)
  }

  function BusPorts(r: Reg, pins: Pins): CoreBus
    requires r.Bus? && AllAre(pins, BusInputs(r), Input)
  {
    BusPinsKnown(r, pins);
    CoreBus(if r.write.Some? then Some((pins[r.write.value.waddr].width, pins[r.write.value.wdata].width)) else None,
            r.ren.Some?, if r.raddr.Some? then Some(pins[r.raddr.value].width) else None,
            r.write.Some? && r.raddr == Some(r.write.value.waddr), r.rdata)
  }

  lemma BusPinsKnown(r: Reg, pins: Pins)
    requires r.Bus? && AllAre(pins, BusInputs(r), Input)
    ensures r.write.Some? ==> r.write.value.waddr in pins && r.write.value.wdata in pins
    ensures r.raddr.Some? ==> r.raddr.value in pins
  {
    var p := BusInputs(r);
    if r.write.Some? {
      assert Is(pins, p[1], Input) && Is(pins, p[2], Input);
    }
    if r.raddr.Some? {
      assert Is(pins, p[|p| - 1], Input);
    }
  }

  function CoreRegs(words: seq<BusWord>, b: nat): (r: seq<RegWord>)
    ensures |r| == |words| && forall i :: 0 <= i < |r| ==> r[i] == RegWord(CoreReg(b, words[i].w, words[i].r), [])
  {
    seq(|words|, i requires 0 <= i < |words| => RegWord(CoreReg(b, words[i].w, words[i].r), []))
  }

  function AddBus(p: Plan, r: Reg, pins: Pins): Option<Plan>
    requires r.Bus?
  {
    if !AllAre(pins, BusInputs(r), Input) || !AllAre(pins, Given(r.rdata), Output) then None
    else if exists i :: 0 <= i < |r.busWords| && !BusWordFits(r, r.busWords[i], pins) then None
    else Some(p.(words := p.words + CoreRegs(r.busWords, |p.buses|), buses := p.buses + [BusPorts(r, pins)]))
  }

  function AddReg(p: Plan, r: Reg, pins: Pins): Option<Plan> {
    match r
    case Fields(_, _, _, _) => AddFields(p, r, pins)
    case Beats(_, _, _, _, _) => AddStream(p, r, pins)
    case Bus(_, _, _, _, _, _) => AddBus(p, r, pins)
  }

  predicate IrqIsPort(q: Irq, pins: Pins) {
    Is(pins, q.port, Output) && pins[q.port].width == 1
  }

  /** The fixed words, and the interrupts of core outputs. */
  function Start(spec: Spec, pins: Pins): Option<Plan> {
    if exists i :: 0 <= i < |spec.irqs| && !IrqIsPort(spec.irqs[i], pins) then None
    else
      Some(Plan(FIXED, seq(|spec.irqs|, i requires 0 <= i < |spec.irqs| => FromPort(spec.irqs[i].port)),
                seq(|spec.irqs|, i requires 0 <= i < |spec.irqs| => spec.irqs[i].name), [], [], [], []))
  }

  /** The plan after the first n registers. */
  function Planned(spec: Spec, pins: Pins, n: nat): Option<Plan>
    requires n <= |spec.regs|
  {
    if n == 0 then Start(spec, pins)
    else
      var p := Planned(spec, pins, n - 1);
      if p.None? then None else AddReg(p.value, spec.regs[n - 1], pins)
  }

  predicate Distinct(names: seq<string>) {
    forall i, j :: 0 <= i < j < |names| ==> names[i] != names[j]
  }

  predicate Accepted(spec: Spec, pins: Pins, p: Plan) {
    && AllAre(pins, spec.tie, Input)
    && 0 < |p.irqs| <= 32 && |p.flags| <= 32 && Distinct(p.irqNames) && 4 * |p.words| <= 4096
  }

  function Laid(spec: Spec, p: Plan): Layout {
    Layout(p.words, p.streams, p.irqs, p.flags, p.buses, spec.id)
  }

  /** None for an assertion that fails, an unknown port, or a stream without data. */
  function LayoutOf(spec: Spec, pins: Pins): Option<Plan> {
    var p := Planned(spec, pins, |spec.regs|);
    if p.Some? && Accepted(spec, pins, p.value) then p else None
  }

  /** The loop over the registers. */
  method MakeLayout(spec: Spec, pins: Pins) returns (r: Option<Plan>)
    ensures r == LayoutOf(spec, pins)
  {
    hide AddReg, Start, Accepted;
    r := Start(spec, pins);
    for n := 0 to |spec.regs|
      invariant r == Planned(spec, pins, n)
    {
      if r.Some? {
        r := AddReg(r.value, spec.regs[n], pins);
      }
    }
    if r.Some? && !Accepted(spec, pins, r.value) {
      r := None;
    }
  }

  // ---------- what every layout is ----------

  predicate IsFixed(k: Kind) {
    k.Id? || k.IrqStatus? || k.IrqEnable? || k.Flags? || k.Scratch?
  }

  predicate WordSound(p: Plan, w: RegWord) {
    && Tiled(w.fields) && End(w.fields) <= 32
    && (w.kind.Sin? ==> w.kind.stream < |p.streams| && p.streams[w.kind.stream].input)
    && (w.kind.Sout? ==> w.kind.stream < |p.streams| && !p.streams[w.kind.stream].input)
    && (w.kind.CoreReg? ==>
          && w.kind.bus < |p.buses|
          && (w.kind.windex.Some? ==> p.buses[w.kind.bus].write.Some? && p.buses[w.kind.bus].write.value.1 <= 32)
          && (w.kind.rindex.Some? ==> p.buses[w.kind.bus].rdata.Some?))
  }

  /** The overflow source of stream s, under its name, if it can lose something. */
  predicate Counted(p: Plan, s: nat)
    requires s < |p.streams| == |p.streamNames| && |p.irqs| == |p.irqNames|
  {
    (if p.streams[s].input then p.streams[s].ready.Some? else p.streams[s].ready.None?) ==>
      exists k :: 0 <= k < |p.irqs| && p.irqs[k] == Overflow(s) && p.irqNames[k] == p.streamNames[s] + "_OVF"
  }

  ghost predicate Growing(p: Plan) {
    && |p.words| >= 5 && p.words[..5] == FIXED
    && (forall i :: 0 <= i < |p.words| ==> WordSound(p, p.words[i]))
    && (forall i :: 5 <= i < |p.words| ==> !IsFixed(p.words[i].kind))
    && |p.irqs| == |p.irqNames| && |p.streams| == |p.streamNames|
    && (forall k :: 0 <= k < |p.irqs| && !p.irqs[k].FromPort? ==> p.irqs[k].stream < |p.streams|)
    && (forall k :: 0 <= k < |p.flags| ==> p.flags[k] < |p.streams|)
    && (forall s :: 0 <= s < |p.streams| ==> p.streams[s].last < |p.words| && Counted(p, s))
    && (forall b :: 0 <= b < |p.buses| && p.buses[b].sharesAddress ==>
          p.buses[b].write.Some? && p.buses[b].read == Some(p.buses[b].write.value.0))
  }

  ghost predicate Extends(p: Plan, q: Plan) {
    && p.words <= q.words && p.irqs <= q.irqs && p.irqNames <= q.irqNames && p.flags <= q.flags
    && p.streams <= q.streams && p.streamNames <= q.streamNames && p.buses <= q.buses
  }

  /** What a register adds is sound. */
  ghost predicate Adds(p: Plan, q: Plan) {
    && (forall i :: |p.words| <= i < |q.words| ==> WordSound(q, q.words[i]) && !IsFixed(q.words[i].kind))
    && |q.irqs| == |q.irqNames| && |q.streams| == |q.streamNames|
    && (forall k :: |p.irqs| <= k < |q.irqs| && !q.irqs[k].FromPort? ==> q.irqs[k].stream < |q.streams|)
    && (forall k :: |p.flags| <= k < |q.flags| ==> q.flags[k] < |q.streams|)
    && (forall s :: |p.streams| <= s < |q.streams| ==> q.streams[s].last < |q.words| && Counted(q, s))
    && (forall b :: |p.buses| <= b < |q.buses| && q.buses[b].sharesAddress ==>
          q.buses[b].write.Some? && q.buses[b].read == Some(q.buses[b].write.value.0))
  }

  lemma WordKept(p: Plan, q: Plan, i: nat)
    requires Extends(p, q) && i < |p.words| && WordSound(p, p.words[i])
    ensures WordSound(q, q.words[i])
  {
    hide Tiled, End;
  }

  lemma CountedKept(p: Plan, q: Plan, s: nat)
    requires Extends(p, q) && s < |p.streams| == |p.streamNames| && |p.irqs| == |p.irqNames| && Counted(p, s)
    requires |q.irqs| == |q.irqNames| && |q.streams| == |q.streamNames|
    ensures Counted(q, s)
  {
    if if p.streams[s].input then p.streams[s].ready.Some? else p.streams[s].ready.None? {
      var k :| 0 <= k < |p.irqs| && p.irqs[k] == Overflow(s) && p.irqNames[k] == p.streamNames[s] + "_OVF";
      assert q.irqs[k] == Overflow(s) && q.irqNames[k] == q.streamNames[s] + "_OVF";
    }
  }

  lemma Grows(p: Plan, q: Plan)
    requires Growing(p) && Extends(p, q) && Adds(p, q)
    ensures Growing(q)
  {
    hide WordSound, Counted, IsFixed;
    forall i | 0 <= i < |q.words|
      ensures WordSound(q, q.words[i])
    {
      if i < |p.words| {
        WordKept(p, q, i);
      }
    }
    forall s | 0 <= s < |q.streams|
      ensures q.streams[s].last < |q.words| && Counted(q, s)
    {
      if s < |p.streams| {
        CountedKept(p, q, s);
      }
    }
    assert q.words[..5] == p.words[..5];
  }

  lemma TiledFits(word: Word)
    requires Tiled(word)
    ensures End(word) <= 32
  {}

  /** A kind of word that packed fields may have. */
  predicate KindSound(q: Plan, k: Kind) {
    && !IsFixed(k) && !k.CoreReg?
    && (k.Sin? ==> k.stream < |q.streams| && q.streams[k.stream].input)
    && (k.Sout? ==> k.stream < |q.streams| && !q.streams[k.stream].input)
  }

  lemma PackedSound(q: Plan, n: nat, kind: Kind, ports: seq<Port>)
    requires |q.words| >= n && q.words[n..] == Kinded(kind, PackOf(ports)) && KindSound(q, kind)
    ensures forall i :: n <= i < |q.words| ==> WordSound(q, q.words[i]) && !IsFixed(q.words[i].kind)
  {
    PackExact(ports);
    hide PackOf, Tiled, End, AllWordBits, AllPortBits;
    forall i | n <= i < |q.words|
      ensures WordSound(q, q.words[i]) && !IsFixed(q.words[i].kind)
    {
      assert q.words[i] == q.words[n..][i - n];
      TiledFits(PackOf(ports)[i - n]);
    }
  }

  lemma FieldsGrow(p: Plan, r: Reg, pins: Pins)
    requires Growing(p) && r.Fields? && AddFields(p, r, pins).Some?
    ensures Growing(AddFields(p, r, pins).value)
  {
    var q := AddFields(p, r, pins).value;
    var ports := PortsOf(r.fields);
    assert forall i :: 0 <= i < |r.fields| ==> r.fields[i].port == ports[i] && ports[i] in pins;
    NamesMatch(p);
    hide PackOf, Packable, Growing, Kinded, WordSound, PortsOf;
    assert q.words[|p.words|..] == Kinded(KindOf(r), PackOf(Packable(r.fields, pins)));
    PackedSound(q, |p.words|, KindOf(r), Packable(r.fields, pins));
    Grows(p, q);
  }

  lemma NamesMatch(p: Plan)
    requires Growing(p)
    ensures |p.irqs| == |p.irqNames| && |p.streams| == |p.streamNames|
  {}

  lemma StreamGrows(p: Plan, r: Reg, pins: Pins)
    requires Growing(p) && r.Beats? && AddStream(p, r, pins).Some?
    ensures Growing(AddStream(p, r, pins).value)
  {
    var q := AddStream(p, r, pins).value;
    var fields, s := Unset(r.data), |p.streams|;
    assert forall i :: 0 <= i < |fields| ==>
      fields[i].port == r.data[i] && Is(pins, r.data[i], if r.input then Input else Output);
    var kind := if r.input then Sin(s) else Sout(s);
    NamesMatch(p);
    hide PackOf, Packable, Growing, Kinded, WordSound, Unset, Counted, StreamSources, StreamIrqNames, Is;
    assert q.words == p.words + Kinded(kind, PackOf(Packable(fields, pins)));
    assert q.words[|p.words|..] == Kinded(kind, PackOf(Packable(fields, pins)));
    PackedSound(q, |p.words|, kind, Packable(fields, pins));
    StreamCounted(p, r, q);
    Grows(p, q);
  }

  lemma StreamCounted(p: Plan, r: Reg, q: Plan)
    requires r.Beats? && |p.irqs| == |p.irqNames| && |p.streams| == |p.streamNames|
    requires q.irqs == p.irqs + StreamSources(r, |p.streams|) && q.irqNames == p.irqNames + StreamIrqNames(r)
    requires |q.streams| == |q.streamNames| == |p.streams| + 1 && q.streamNames[|p.streams|] == r.name
    requires q.streams[|p.streams|].input == r.input && q.streams[|p.streams|].ready == r.ready
    ensures |q.irqs| == |q.irqNames| && Counted(q, |p.streams|)
    ensures forall k :: |p.irqs| <= k < |q.irqs| ==> !q.irqs[k].FromPort? && q.irqs[k].stream == |p.streams|
  {
    var s, k := |p.streams|, |p.irqs| + 1;
    if if r.input then r.ready.Some? else r.ready.None? {
      assert q.irqs[k] == Overflow(s) && q.irqNames[k] == r.name + "_OVF";
    }
  }

  lemma BusGrows(p: Plan, r: Reg, pins: Pins)
    requires Growing(p) && r.Bus? && AddBus(p, r, pins).Some?
    ensures Growing(AddBus(p, r, pins).value)
  {
    var q := AddBus(p, r, pins).value;
    NamesMatch(p);
    BusPinsKnown(r, pins);
    hide Growing, Counted, WordSound, IsFixed, AllAre, BusWordFits;
    forall i | |p.words| <= i < |q.words|
      ensures WordSound(q, q.words[i]) && !IsFixed(q.words[i].kind)
    {
      BusWordSound(p, r, pins, i - |p.words|);
    }
    Grows(p, q);
  }

  lemma BusWordSound(p: Plan, r: Reg, pins: Pins, i: nat)
    requires r.Bus? && AddBus(p, r, pins).Some? && i < |r.busWords|
    ensures var q := AddBus(p, r, pins).value;
      |q.words| == |p.words| + |r.busWords|
      && WordSound(q, q.words[|p.words| + i]) && !IsFixed(q.words[|p.words| + i].kind)
  {
    BusPinsKnown(r, pins);
    hide AllAre;
    var w, q := r.busWords[i], AddBus(p, r, pins).value;
    assert BusWordFits(r, w, pins);
    assert q.words[|p.words| + i] == RegWord(CoreReg(|p.buses|, w.w, w.r), []);
  }

  lemma StartGrowing(spec: Spec, pins: Pins)
    requires Start(spec, pins).Some?
    ensures Growing(Start(spec, pins).value)
  {}

  lemma {:induction false} PlannedGrowing(spec: Spec, pins: Pins, n: nat)
    requires n <= |spec.regs| && Planned(spec, pins, n).Some?
    ensures Growing(Planned(spec, pins, n).value)
  {
    hide Growing, AddFields, AddStream, AddBus, Start;
    if n == 0 {
      StartGrowing(spec, pins);
    } else {
      PlannedGrowing(spec, pins, n - 1);
      var p, r := Planned(spec, pins, n - 1).value, spec.regs[n - 1];
      match r {
        case Fields(_, _, _, _) => FieldsGrow(p, r, pins);
        case Beats(_, _, _, _, _) => StreamGrows(p, r, pins);
        case Bus(_, _, _, _, _, _) => BusGrows(p, r, pins);
      }
    }
  }

  lemma GrowingValid(p: Plan, l: Layout)
    requires Growing(p) && l.words == p.words && l.streams == p.streams && l.irqs == p.irqs && l.flags == p.flags
    requires l.buses == p.buses
    requires 0 < |p.irqs| <= 32 && |p.flags| <= 32 && |p.words| <= 1024
    ensures l.Valid()
  {
    hide Tiled, End, Counted;
    assert l.words[0] == l.words[..5][0] && l.words[1] == l.words[..5][1] && l.words[2] == l.words[..5][2]
      && l.words[3] == l.words[..5][3] && l.words[4] == l.words[..5][4];
    forall i | 0 <= i < |l.words|
      ensures WordSound(p, l.words[i])
    {}
    hide Growing;
  }

  lemma GrowingAccounts(p: Plan, l: Layout)
    requires Growing(p) && l.streams == p.streams && l.irqs == p.irqs
    ensures l.Accounts()
  {
    hide WordSound;
    forall s | 0 <= s < |l.streams| && l.CanLose(s)
      ensures exists k :: 0 <= k < |l.irqs| && l.irqs[k] == Overflow(s)
    {
      assert Counted(p, s);
    }
  }

  /** Every accepted specification gives a layout as the wrapper, the checker and the streams are proved for, in which
      every stream that can lose something has an overflow bit. */
  lemma LayoutValid(spec: Spec, pins: Pins)
    requires LayoutOf(spec, pins).Some?
    ensures Laid(spec, LayoutOf(spec, pins).value).Valid() && Laid(spec, LayoutOf(spec, pins).value).Accounts()
  {
    PlannedGrowing(spec, pins, |spec.regs|);
    var p := LayoutOf(spec, pins).value;
    hide Growing, Planned;
    GrowingValid(p, Laid(spec, p));
    GrowingAccounts(p, Laid(spec, p));
  }

  // ---------- looking up by name ----------

  /** [n for n, _, _ in irqb].index(name). */
  function IndexOf(names: seq<string>, name: string): (k: nat)
    requires name in names
    ensures k < |names| && names[k] == name
  {
    if names[0] == name then 0 else 1 + IndexOf(names[1..], name)
  }

  /** The bit that the wrapper and the checker find under the overflow name of a stream is the stream's overflow bit. */
  lemma OverflowByName(spec: Spec, pins: Pins, s: nat)
    requires LayoutOf(spec, pins).Some? && s < |LayoutOf(spec, pins).value.streams|
    requires Laid(spec, LayoutOf(spec, pins).value).CanLose(s)
    ensures var p := LayoutOf(spec, pins).value;
      && |p.irqs| == |p.irqNames| && |p.streams| == |p.streamNames| && p.streamNames[s] + "_OVF" in p.irqNames
      && p.irqs[IndexOf(p.irqNames, p.streamNames[s] + "_OVF")] == Overflow(s)
  {
    PlannedGrowing(spec, pins, |spec.regs|);
    var p := LayoutOf(spec, pins).value;
    hide Planned, WordSound;
    assert Counted(p, s);
    var k :| 0 <= k < |p.irqs| && p.irqs[k] == Overflow(s) && p.irqNames[k] == p.streamNames[s] + "_OVF";
    var i := IndexOf(p.irqNames, p.irqNames[k]);
    assert i == k;
  }

  /** The overflow bit of a stream that can lose something. */
  function OverflowBit(spec: Spec, pins: Pins, s: nat): (k: nat)
    requires LayoutOf(spec, pins).Some? && s < |LayoutOf(spec, pins).value.streams|
    requires Laid(spec, LayoutOf(spec, pins).value).CanLose(s)
    ensures k < |LayoutOf(spec, pins).value.irqs| && LayoutOf(spec, pins).value.irqs[k] == Overflow(s)
  {
    OverflowByName(spec, pins, s);
    var p := LayoutOf(spec, pins).value;
    IndexOf(p.irqNames, p.streamNames[s] + "_OVF")
  }

  // ---------- every port bit has one place ----------

  function FieldsIn(words: seq<RegWord>): (r: seq<Word>)
    ensures |r| == |words|
  {
    seq(|words|, i requires 0 <= i < |words| => words[i].fields)
  }

  /** The port bits that a register maps. */
  function RegBits(r: Reg, pins: Pins): seq<Bit>
    requires AddReg(EMPTY, r, pins).Some?
  {
    match r
    case Fields(_, _, _, _) => FieldsMapped(r, pins); AllPortBits(Packable(r.fields, pins))
    case Beats(_, _, _, _, _) => BeatsMapped(r, pins); AllPortBits(Packable(Unset(r.data), pins))
    case Bus(_, _, _, _, _, _) => []
  }

  const EMPTY: Plan := Plan([], [], [], [], [], [], [])

  lemma FieldsMapped(r: Reg, pins: Pins)
    requires r.Fields? && AddFields(EMPTY, r, pins).Some?
    ensures forall i :: 0 <= i < |r.fields| ==> r.fields[i].port in pins
  {
    var ports := PortsOf(r.fields);
    assert forall i :: 0 <= i < |r.fields| ==> r.fields[i].port == ports[i];
  }

  lemma BeatsMapped(r: Reg, pins: Pins)
    requires r.Beats? && AddStream(EMPTY, r, pins).Some?
    ensures forall i :: 0 <= i < |Unset(r.data)| ==> Unset(r.data)[i].port in pins
  {
    assert forall i :: 0 <= i < |r.data| ==> Unset(r.data)[i].port == r.data[i];
  }

  /** Whether a register is accepted does not depend on what comes before it. */
  lemma AcceptedAlike(p: Plan, q: Plan, r: Reg, pins: Pins)
    ensures AddReg(p, r, pins).Some? == AddReg(q, r, pins).Some?
  {
    hide PackOf, Packable;
  }

  lemma FieldsInMore(a: seq<RegWord>, b: seq<RegWord>)
    ensures FieldsIn(a + b) == FieldsIn(a) + FieldsIn(b)
  {}

  lemma FieldsInKinded(kind: Kind, words: seq<Word>)
    ensures FieldsIn(Kinded(kind, words)) == words
  {}

  lemma {:induction false} NoFields(words: seq<RegWord>)
    requires forall i :: 0 <= i < |words| ==> words[i].fields == []
    ensures AllWordBits(FieldsIn(words)) == []
    decreases |words|
  {
    if words != [] {
      var n := |words| - 1;
      NoFields(words[..n]);
      assert FieldsIn(words)[..n] == FieldsIn(words[..n]);
    }
  }

  /** A register adds the bits of its ports, in order. */
  lemma RegCovers(p: Plan, r: Reg, pins: Pins)
    requires AddReg(p, r, pins).Some?
    ensures AddReg(EMPTY, r, pins).Some?
    ensures AllWordBits(FieldsIn(AddReg(p, r, pins).value.words)) == AllWordBits(FieldsIn(p.words)) + RegBits(r, pins)
  {
    AcceptedAlike(p, EMPTY, r, pins);
    var q := AddReg(p, r, pins).value;
    match r {
      case Fields(_, _, _, _) =>
        FieldsMapped(r, pins);
        var ports := Packable(r.fields, pins);
        hide PackOf, Packable, AllWordBits, AllPortBits;
        PackedCovers(p.words, q.words, KindOf(r), ports);
      case Beats(_, _, _, _, _) =>
        BeatsMapped(r, pins);
        var ports := Packable(Unset(r.data), pins);
        hide PackOf, Packable, AllWordBits, AllPortBits;
        PackedCovers(p.words, q.words, if r.input then Sin(|p.streams|) else Sout(|p.streams|), ports);
      case Bus(_, _, _, _, _, _) =>
        var words := CoreRegs(r.busWords, |p.buses|);
        NoFields(words);
        FieldsInMore(p.words, words);
        WordsAppend(FieldsIn(p.words), FieldsIn(words));
        hide AllWordBits;
    }
  }

  lemma PackedCovers(a: seq<RegWord>, b: seq<RegWord>, kind: Kind, ports: seq<Port>)
    requires b == a + Kinded(kind, PackOf(ports))
    ensures AllWordBits(FieldsIn(b)) == AllWordBits(FieldsIn(a)) + AllPortBits(ports)
  {
    PackExact(ports);
    hide PackOf, AllWordBits, AllPortBits, Kinded, FieldsIn, Tiled;
    FieldsInMore(a, Kinded(kind, PackOf(ports)));
    FieldsInKinded(kind, PackOf(ports));
    WordsAppend(FieldsIn(a), PackOf(ports));
  }

  /** The port bits of the first n registers. */
  function SpecBits(spec: Spec, pins: Pins, n: nat): seq<Bit>
    requires n <= |spec.regs| && Planned(spec, pins, n).Some?
  {
    if n == 0 then []
    else
      AcceptedAlike(Planned(spec, pins, n - 1).value, EMPTY, spec.regs[n - 1], pins);
      SpecBits(spec, pins, n - 1) + RegBits(spec.regs[n - 1], pins)
  }

  /** The fields of all words of a layout are the bits of the ports of all registers, in order and each once. */
  lemma {:induction false} LayoutCovers(spec: Spec, pins: Pins, n: nat)
    requires n <= |spec.regs| && Planned(spec, pins, n).Some?
    ensures AllWordBits(FieldsIn(Planned(spec, pins, n).value.words)) == SpecBits(spec, pins, n)
  {
    if n == 0 {
      NoFields(FIXED);
    } else {
      LayoutCovers(spec, pins, n - 1);
      RegCovers(Planned(spec, pins, n - 1).value, spec.regs[n - 1], pins);
      hide AddReg, RegBits, AllWordBits, FieldsIn;
    }
  }
}
