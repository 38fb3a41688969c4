/** The assertions of the checker that scripts/apb/gen_apb_tb.py emits on the core's register ports and on the values in
    reset, and exactly when the wrapper meets them. */
module ApbBuses {
  import opened Arithmetic
  import opened Options
  import opened BitFields
  import opened ApbLayout
  import opened ApbWrapper
  import opened ApbChecker
  import ApbSpec

  // ---------- the register ports ----------

  /** m_bus_wr and m_bus_rd. */
  predicate Accesses(l: Layout, c: Clock, b: nat, write: bool)
    requires c.Valid()
  {
    && (if write then c.Wr() && c.pstrb == ALL_LANES else c.Rd())
    && exists i :: 0 <= i < |l.words| && OnBus(l.words[i], b, write) && At(l, c, i)
  }

  /** The chain of conditionals over the words from i on. */
  function Selected(l: Layout, c: Clock, b: nat, write: bool, i: nat): nat
    requires i <= |l.words|
    decreases |l.words| - i
  {
    if i == |l.words| then 0
    else if OnBus(l.words[i], b, write) && c.paddr / 4 == i then IndexOn(l.words[i], b, write)
    else Selected(l, c, b, write, i + 1)
  }

  /** Everything that the checker asserts of a register port. */
  predicate BusAsserted(l: Layout, c: Clock, b: nat, o: BusOut)
    requires l.Valid() && c.Valid() && b < |l.buses|
  {
    var p := l.buses[b];
    && o.wen == Accesses(l, c, b, true)
    && (o.wen ==>
          && o.waddr == Selected(l, c, b, true, 0) && p.write.Some? && p.write.value.1 <= 32
          && o.wdata == c.pwdata[..p.write.value.1])
    && (p.strobe ==> o.ren == Accesses(l, c, b, false))
    && (p.read.Some? ==>
          if p.sharesAddress then Accesses(l, c, b, false) ==> o.raddr == Selected(l, c, b, false, 0)
          else o.raddr == if Accesses(l, c, b, false) then Selected(l, c, b, false, 0) else 0)
  }

  /** The index of a word fits the address port on a side; a side without address port has nothing to fit. */
  predicate IndexFits(l: Layout, i: nat, write: bool)
    requires l.Valid() && i < |l.words|
  {
    var w := l.words[i];
    w.kind.CoreReg? && OnBus(w, w.kind.bus, write) && AddressWidth(l, w.kind.bus, write).Some? ==>
      IndexOn(w, w.kind.bus, write) < Pow2(AddressWidth(l, w.kind.bus, write).value)
  }

  /** A shared port has one width. */
  function AddressWidth(l: Layout, b: nat, write: bool): Option<nat>
    requires b < |l.buses|
  {
    var p := l.buses[b];
    if write then (if p.write.Some? then Some(p.write.value.0) else None) else p.read
  }

  predicate IndicesFit(l: Layout)
    requires l.Valid()
  {
    forall i :: 0 <= i < |l.words| ==> IndexFits(l, i, true) && IndexFits(l, i, false)
  }

  lemma {:induction false} NothingHit(l: Layout, c: Clock, b: nat, write: bool, width: nat, n: nat)
    requires n <= |l.words| && forall i :: 0 <= i < n ==> !(OnBus(l.words[i], b, write) && Hit(l, c, i))
    ensures HitIndex(l, c, b, write, width, n) == 0
  {
    hide Hit, OnBus;
    if n > 0 {
      NothingHit(l, c, b, write, width, n - 1);
      OrZeroLeft(0);
    }
  }

  lemma {:induction false} OneHit(l: Layout, c: Clock, b: nat, write: bool, width: nat, i: nat, n: nat)
    requires i < n <= |l.words| && OnBus(l.words[i], b, write) && Hit(l, c, i)
    ensures HitIndex(l, c, b, write, width, n) == IndexOn(l.words[i], b, write) % Pow2(width)
    decreases n
  {
    hide OnBus, Or;
    if n == i + 1 {
      NothingHit(l, c, b, write, width, i);
      OrZeroLeft(IndexOn(l.words[i], b, write) % Pow2(width));
    } else {
      OneHit(l, c, b, write, width, i, n - 1);
      OrZeroRight(HitIndex(l, c, b, write, width, n - 1));
    }
  }

  lemma {:induction false} OrZeroRight(x: nat)
    ensures Or(x, 0) == x
  {
    if x > 0 {
      OrZeroRight(x / 2);
    }
  }

  lemma {:induction false} SelectedIs(l: Layout, c: Clock, b: nat, write: bool, i: nat, k: nat)
    requires i <= k < |l.words| && OnBus(l.words[k], b, write) && c.paddr / 4 == k
    ensures Selected(l, c, b, write, i) == IndexOn(l.words[k], b, write)
    decreases k - i
  {
    if i < k {
      SelectedIs(l, c, b, write, i + 1, k);
    }
  }

  lemma Small(x: nat, p: nat)
    requires x < p
    ensures x % p == x
  {}

  /** An access on a side gives the index of its word on the address port, cut to the width of the port. */
  lemma SideHolds(l: Layout, c: Clock, b: nat, write: bool, width: nat)
    requires l.Valid() && c.Valid() && b < |l.buses| && |l.words| < 1024
    ensures HitsBus(l, c, b, write) <==> exists i :: 0 <= i < |l.words| && OnBus(l.words[i], b, write) && At(l, c, i)
    ensures HitsBus(l, c, b, write) ==>
      HitIndex(l, c, b, write, width, |l.words|) == Selected(l, c, b, write, 0) % Pow2(width)
    ensures !HitsBus(l, c, b, write) ==> HitIndex(l, c, b, write, width, |l.words|) == 0
  {
    hide OnBus, Tiled, End, HitIndex, Selected;
    SameHits(l, c);
    if HitsBus(l, c, b, write) {
      var i :| 0 <= i < |l.words| && OnBus(l.words[i], b, write) && Hit(l, c, i);
      OneHit(l, c, b, write, width, i, |l.words|);
      SelectedIs(l, c, b, write, 0, i);
    } else {
      NothingHit(l, c, b, write, width, |l.words|);
    }
  }

  /** A hit index fits when all do. */
  lemma SelectedFits(l: Layout, c: Clock, b: nat, write: bool, width: nat)
    requires l.Valid() && c.Valid() && b < |l.buses| && IndicesFit(l) && AddressWidth(l, b, write) == Some(width)
    requires HitsBus(l, c, b, write)
    ensures Selected(l, c, b, write, 0) % Pow2(width) == Selected(l, c, b, write, 0)
  {
    hide Tiled, End, Selected, Pow2;
    var i :| 0 <= i < |l.words| && OnBus(l.words[i], b, write) && Hit(l, c, i);
    SelectedIs(l, c, b, write, 0, i);
    assert IndexFits(l, i, write);
    Small(IndexOn(l.words[i], b, write), Pow2(width));
  }

  /** A bus that is hit on the write side has a write port. */
  lemma WritePort(l: Layout, c: Clock, b: nat)
    requires l.Valid() && HitsBus(l, c, b, true)
    ensures b < |l.buses| && l.buses[b].write.Some? && l.buses[b].write.value.1 <= 32
  {
    hide Tiled, End;
    var i :| 0 <= i < |l.words| && OnBus(l.words[i], b, true) && Hit(l, c, i);
    assert l.CoreRegFits(l.words[i].kind);
  }

  /** Strobes, indices and data on a register port are as the checker asserts when the indices fit. */
  lemma BusHolds(l: Layout, c: Clock, b: nat)
    requires l.Valid() && c.Valid() && b < |l.buses| && |l.words| < 1024 && IndicesFit(l)
    ensures BusAsserted(l, c, b, BusDrives(l, c, b))
  {
    var p := l.buses[b];
    var ww, rw := if p.write.Some? then p.write.value.0 else 0, if p.read.Some? then p.read.value else 0;
    SideHolds(l, c, b, true, ww);
    SideHolds(l, c, b, false, rw);
    if HitsBus(l, c, b, true) {
      WritePort(l, c, b);
      SelectedFits(l, c, b, true, ww);
    }
    if HitsBus(l, c, b, false) && p.read.Some? {
      SelectedFits(l, c, b, false, rw);
    }
    hide Tiled, End, Pow2, OnBus, HitsBus, HitIndex, Selected, IndicesFit;
  }

  /** A write to a word whose index does not fit its address port, or a read of one, breaks an assertion. */
  lemma WideIndexFails(l: Layout, i: nat, write: bool)
    requires l.Valid() && i < |l.words| < 1024 && !IndexFits(l, i, write)
    ensures var c := Clock(true, true, write, 4 * i, ApbWrapper.Zeros(32), ALL_LANES, p => []);
      c.Valid() && !BusAsserted(l, c, l.words[i].kind.bus, BusDrives(l, c, l.words[i].kind.bus))
  {
    hide Tiled, End;
    var c := Clock(true, true, write, 4 * i, ApbWrapper.Zeros(32), ALL_LANES, p => []);
    var b := l.words[i].kind.bus;
    var width := AddressWidth(l, b, write).value;
    assert l.CoreRegFits(l.words[i].kind);
    assert c.paddr / 4 == i && Hit(l, c, i) && At(l, c, i);
    OneHit(l, c, b, write, width, i, |l.words|);
    SelectedIs(l, c, b, write, 0, i);
    hide HitIndex, Selected, Pow2;
    assert HitsBus(l, c, b, write);
    assert IndexOn(l.words[i], b, write) % Pow2(width) != IndexOn(l.words[i], b, write);
  }

  /** The assertions on the register ports hold on every clock if and only if every index fits its address port, which
      the layout does not ask for. */
  lemma BusesHold(l: Layout)
    requires l.Valid() && |l.words| < 1024
    ensures (forall c: Clock, b: nat :: c.Valid() && b < |l.buses| ==> BusAsserted(l, c, b, BusDrives(l, c, b))) <==>
      IndicesFit(l)
  {
    hide Tiled, End, BusAsserted, BusDrives, IndexFits;
    forall c: Clock, b: nat | c.Valid() && b < |l.buses| && IndicesFit(l)
      ensures BusAsserted(l, c, b, BusDrives(l, c, b))
    {
      BusHolds(l, c, b);
    }
    if !IndicesFit(l) {
      var i :| 0 <= i < |l.words| && !(IndexFits(l, i, true) && IndexFits(l, i, false));
      var write := !IndexFits(l, i, true);
      WideIndexFails(l, i, write);
      assert l.words[i].kind.bus < |l.buses| by { BusOf(l, i, write); }
    }
  }

  lemma BusOf(l: Layout, i: nat, write: bool)
    requires l.Valid() && i < |l.words| && !IndexFits(l, i, write)
    ensures l.words[i].kind.CoreReg? && l.words[i].kind.bus < |l.buses|
  {
    hide Tiled, End;
  }

  /** In every run from reset of a layout of fewer than 1024 words whose indices fit, no assertion of the checker fails:
      ready, read data, error, interrupt, core inputs, stream handshakes and register ports. */
  lemma NoAssertionFails(l: Layout, run: seq<Clock>, n: nat)
    requires l.Valid() && |l.words| < 1024 && IndicesFit(l) && n < |run|
    requires forall k :: 0 <= k < |run| ==> run[k].Valid()
    ensures Drives(l, run[n], StateAt(l, run, n)) == Expects(l, run[n], CheckerAt(l, run, n))
    ensures forall b :: 0 <= b < |l.buses| ==> BusAsserted(l, run[n], b, BusDrives(l, run[n], b))
  {
    hide Drives, Expects, StateAt, CheckerAt, BusAsserted, BusDrives, Tiled, End, Agree;
    RunAgrees(l, run, n);
    BusesHold(l);
  }

  // ---------- specifications that the layout accepts ----------

  /** One interrupt and one register port with a one-bit address: n words, all of index v. */
  function PortSpec(n: nat, v: nat): ApbSpec.Spec {
    ApbSpec.Spec([ApbSpec.Irq("DONE", "done")],
                 [ApbSpec.Bus("PORT", Some(ApbSpec.WriteSide("wen", "waddr", "wdata")), None, None, None,
                              seq(n, _ => ApbSpec.BusWord(Some(v), None)))], [], 0)
  }

  const PORT_PINS: ApbSpec.Pins :=
    map["done" := ApbSpec.Pin(ApbSpec.Output, 1), "wen" := ApbSpec.Pin(ApbSpec.Input, 1),
        "waddr" := ApbSpec.Pin(ApbSpec.Input, 1), "wdata" := ApbSpec.Pin(ApbSpec.Input, 32)]

  lemma PortSpecLaid(n: nat, v: nat)
    requires n <= 1019
    ensures var p := ApbSpec.LayoutOf(PortSpec(n, v), PORT_PINS);
      && p.Some? && p.value.buses == [CoreBus(Some((1, 32)), false, None, false, None)]
      && p.value.words == ApbSpec.FIXED + seq(n, _ => RegWord(CoreReg(0, Some(v), None), []))
  {
    var spec := PortSpec(n, v);
    var r := spec.regs[0];
    var start := ApbSpec.Start(spec, PORT_PINS);
    assert start.Some? && start.value.irqs == [FromPort("done")] && start.value.irqNames == ["DONE"];
    assert ApbSpec.BusInputs(r) == ["wen", "waddr", "wdata"];
    var p := ApbSpec.AddBus(start.value, r, PORT_PINS);
    assert p.Some? && p.value.words == ApbSpec.FIXED + seq(n, _ => RegWord(CoreReg(0, Some(v), None), []));
    assert ApbSpec.Planned(spec, PORT_PINS, 0) == start;
    assert ApbSpec.Planned(spec, PORT_PINS, 1) == p;
  }

  /** A specification that the layout accepts and whose wrapper answers every access with an error. */
  lemma FullSpecFails(c: Clock, x: Wrapper)
    requires c.Valid() && c.psel && c.penable
    ensures var p := ApbSpec.LayoutOf(PortSpec(1019, 0), PORT_PINS); p.Some? && |p.value.words| == 1024
    ensures var l := ApbSpec.Laid(PortSpec(1019, 0), ApbSpec.LayoutOf(PortSpec(1019, 0), PORT_PINS).value);
      l.Valid() && (WrapperFits(l, x) ==> Drives(l, c, x).pslverr && Drives(l, c, x).prdata == ApbWrapper.Zeros(32))
  {
    PortSpecLaid(1019, 0);
    ApbSpec.LayoutValid(PortSpec(1019, 0), PORT_PINS);
    var p := ApbSpec.LayoutOf(PortSpec(1019, 0), PORT_PINS).value;
    hide ApbSpec.LayoutOf, Drives, Tiled, End;
    if WrapperFits(ApbSpec.Laid(PortSpec(1019, 0), p), x) {
      FullLayoutFails(ApbSpec.Laid(PortSpec(1019, 0), p), c, x);
    }
  }

  /** The access that writes word 5. */
  function WriteFive(): Clock {
    Clock(true, true, true, 20, ApbWrapper.Zeros(32), ALL_LANES, p => [])
  }

  lemma WideDrives(l: Layout)
    requires l.Valid() && |l.words| == 6 && l.words[5] == RegWord(CoreReg(0, Some(2), None), [])
    requires l.buses == [CoreBus(Some((1, 32)), false, None, false, None)]
    ensures var o := BusDrives(l, WriteFive(), 0); o.wen && o.waddr == 0 && Selected(l, WriteFive(), 0, true, 0) == 2
  {
    hide Tiled, End;
    var c := WriteFive();
    assert Hit(l, c, 5) && OnBus(l.words[5], 0, true);
    OneHit(l, c, 0, true, 1, 5, |l.words|);
    SelectedIs(l, c, 0, true, 0, 5);
    assert Pow2(1) == 2;
    hide HitIndex, Selected, Pow2;
    assert HitsBus(l, c, 0, true);
  }

  /** A specification that the layout accepts with an index that does not fit: the core gets index 0 instead of 2. */
  lemma WideSpecFails()
    ensures ApbSpec.LayoutOf(PortSpec(1, 2), PORT_PINS).Some? && WriteFive().Valid()
    ensures var l := ApbSpec.Laid(PortSpec(1, 2), ApbSpec.LayoutOf(PortSpec(1, 2), PORT_PINS).value);
      && l.Valid() && |l.buses| == 1 && BusDrives(l, WriteFive(), 0).wen && BusDrives(l, WriteFive(), 0).waddr == 0
      && Selected(l, WriteFive(), 0, true, 0) == 2 && !BusAsserted(l, WriteFive(), 0, BusDrives(l, WriteFive(), 0))
  {
    hide ApbSpec.LayoutOf, BusDrives, Selected, PortSpec, Layout.Valid;
    PortSpecLaid(1, 2);
    ApbSpec.LayoutValid(PortSpec(1, 2), PORT_PINS);
    WideDrives(ApbSpec.Laid(PortSpec(1, 2), ApbSpec.LayoutOf(PortSpec(1, 2), PORT_PINS).value));
  }

  // ---------- in reset ----------

  /** The bits of a core input in reset: those of the reset value for a register, zeros for a pulse or a stream. */
  function ResetBits(w: RegWord, f: Field): (r: ApbWrapper.Bits)
    ensures |r| == f.w
  {
    if w.kind.Rw? then NumberBits(ResetOf(w.fields) / Pow2(f.lo) % Pow2(f.w), f.w) else ApbWrapper.Zeros(f.w)
  }

  predicate DrivesField(o: Outputs, i: nat, f: Field, r: ApbWrapper.Bits) {
    i < |o.fields| && f.lo + f.w <= |o.fields[i]| && o.fields[i][f.lo..f.lo + f.w] == r
  }

  predicate IsCoreInput(w: RegWord) {
    w.kind.Rw? || w.kind.Cmd? || w.kind.Sin?
  }

  /** What the checker asserts in reset. */
  ghost predicate ResetAsserted(l: Layout, c: Clock, o: Outputs)
    requires l.Valid() && c.Valid() && |o.states| == |o.readies| == |l.streams|
  {
    && o.prdata == ApbWrapper.Zeros(32) && !o.irq
    && (forall i, k :: 0 <= i < |l.words| && IsCoreInput(l.words[i]) && 0 <= k < |l.words[i].fields| ==>
          DrivesField(o, i, l.words[i].fields[k], ResetBits(l.words[i], l.words[i].fields[k])))
    && (forall b :: 0 <= b < |l.buses| ==>
          !BusDrives(l, c, b).wen && (l.buses[b].strobe ==> !BusDrives(l, c, b).ren))
    && (forall s :: 0 <= s < |l.streams| ==> if l.streams[s].input then !o.states[s] else o.readies[s])
  }

  predicate FieldBit(f: Field, c: Core, j: nat) {
    PortBit(c, f.port, f.plo + j)
  }

  predicate FieldSet(f: Field, c: Core) {
    exists j :: 0 <= j < f.w && FieldBit(f, c, j)
  }

  /** Some port bit that the fields map is set. */
  predicate AnyPortBit(fields: Word, c: Core) {
    exists k :: 0 <= k < |fields| && FieldSet(fields[k], c)
  }

  predicate AnyBit(port: ApbWrapper.Bits) {
    exists j :: 0 <= j < |port| && j < 32 && port[j]
  }

  /** Reading a word shows in reset: a nonzero identification, a readable nonzero reset value, a core output that is not
      zero, or a core register with a read strobe or read data that are not zero. */
  predicate ReadShows(l: Layout, w: RegWord, c: Core)
    requires w.kind.CoreReg? ==> l.CoreRegFits(w.kind)
  {
    match w.kind
    case Id => l.id % Pow2(32) != 0
    case Rw(secret) => !secret && ResetOf(w.fields) != 0
    case Ro => AnyPortBit(w.fields, c)
    case CoreReg(b, _, r) => r.Some? && (l.buses[b].strobe || AnyBit(c(l.buses[b].rdata.value)))
    case _ => false
  }

  /** The clock reads a word that shows, or writes a core register with all lanes. */
  predicate Shows(l: Layout, c: Clock)
    requires l.Valid() && c.Valid()
  {
    exists i :: 0 <= i < |l.words| && Hit(l, c, i)
      && ((c.Rd() && ReadShows(l, l.words[i], c.core))
          || (c.Wr() && c.pstrb == ALL_LANES && l.words[i].kind.CoreReg? && l.words[i].kind.windex.Some?))
  }

  lemma {:induction false} ResetField(l: Layout, i: nat, k: nat)
    requires l.Valid() && i < |l.words| && l.words[i].kind.Rw? && k < |l.words[i].fields|
    ensures var f := l.words[i].fields[k];
      f.lo + f.w <= l.Width(i)
      && NumberBits(ResetOf(l.words[i].fields), l.Width(i))[f.lo..f.lo + f.w] == ResetBits(l.words[i], f)
  {
    var f := l.words[i].fields[k];
    FieldBelow(l.words[i].fields, k);
    hide ResetOf, Tiled, End, Pow2;
    var v := ResetOf(l.words[i].fields);
    forall j: nat | j < f.w
      ensures v / Pow2(f.lo + j) % 2 == v / Pow2(f.lo) % Pow2(f.w) / Pow2(j) % 2
    {
      BitOfSlice(v, f.lo, f.w, j);
    }
    assert NumberBits(v, l.Width(i))[f.lo..f.lo + f.w] == ResetBits(l.words[i], f);
  }

  /** Bit j of a slice. */
  lemma BitOfSlice(v: nat, lo: nat, w: nat, j: nat)
    requires j < w
    ensures v / Pow2(lo + j) % 2 == v / Pow2(lo) % Pow2(w) / Pow2(j) % 2
  {
    Pow2Adds(lo, j);
    DivideTwice(v, Pow2(lo), Pow2(j));
    Pow2Adds(j, w - j);
    var x, p := v / Pow2(lo), Pow2(w - j - 1);
    assert Pow2(w - j) == 2 * p;
    LowPart(x, Pow2(j), p);
  }

  lemma DivideTwice(v: nat, a: nat, b: nat)
    requires a > 0 && b > 0
    ensures v / (a * b) == v / a / b
  {
    var q, r := v / a, v % a;
    var s, t := q / b, q % b;
    DivMod(v, a);
    DivMod(q, b);
    assert v == a * (b * s + t) + r;
    assert a * (b * s + t) == a * b * s + a * t by { Spread(a, b, s, t); }
    assert a * t + r < a * b by { MulMono(a, t, b - 1); Distribute(a, b - 1, 1); }
    Divide(s, a * t + r, a * b);
  }

  lemma Spread(a: nat, b: nat, s: nat, t: nat)
    ensures a * (b * s + t) == a * b * s + a * t
  {
    Distribute(a, b * s, t);
  }

  /** Dividing the low part keeps the bit. */
  lemma LowPart(x: nat, d: nat, p: nat)
    requires d > 0 && p > 0
    ensures x / d % 2 == x % (d * (2 * p)) / d % 2
  {
    var m := d * (2 * p);
    var q, r := x / m, x % m;
    DivMod(x, m);
    assert m * q == d * (2 * (p * q)) by { Chain(d, p, q); }
    DivShift(r, 2 * (p * q), d);
    Doubled(r / d, p * q);
  }

  lemma Chain(d: nat, p: nat, q: nat)
    ensures d * (2 * p) * q == d * (2 * (p * q))
  {
    assert d * (2 * p) * q == d * ((2 * p) * q);
    assert (2 * p) * q == 2 * (p * q);
  }

  lemma Doubled(a: nat, b: nat)
    ensures (a + 2 * b) % 2 == a % 2
  {}

  lemma FieldInReset(l: Layout, c: Clock, i: nat, k: nat)
    requires l.Valid() && c.Valid() && i < |l.words| && IsCoreInput(l.words[i]) && k < |l.words[i].fields|
    ensures var f := l.words[i].fields[k]; DrivesField(Drives(l, c, AtReset(l)), i, f, ResetBits(l.words[i], f))
  {
    FieldBelow(l.words[i].fields, k);
    var f := l.words[i].fields[k];
    if l.words[i].kind.Rw? {
      ResetField(l, i, k);
    }
    hide *;
    DrivenInReset(l, c, i);
    InResetIs(l.words[i], l.Width(i));
    var o := Drives(l, c, AtReset(l));
    if l.words[i].kind.Rw? {
      SameSlice(o, i, f, NumberBits(ResetOf(l.words[i].fields), l.Width(i)), ResetBits(l.words[i], f));
    } else {
      ZeroSlice(l.Width(i), f);
      ZeroBits(l.words[i], f);
      SameSlice(o, i, f, ApbWrapper.Zeros(l.Width(i)), ResetBits(l.words[i], f));
    }
  }

  function RegisterInReset(w: RegWord, n: nat): ApbWrapper.Bits {
    if w.kind.Rw? then NumberBits(ResetOf(w.fields), n) else ApbWrapper.Zeros(n)
  }

  lemma DrivenInReset(l: Layout, c: Clock, i: nat)
    requires l.Valid() && c.Valid() && i < |l.words| && IsCoreInput(l.words[i])
    ensures var o := Drives(l, c, AtReset(l)); var n := l.Width(i);
      i < |o.fields| && o.fields[i] == RegisterInReset(l.words[i], n)
  {
    hide ResetOf, Tiled, End, Pow2, NumberBits, ReadWord, Hit, AnyHit;
    assert Drives(l, c, AtReset(l)).fields[i] == ToCore(l, i, AtReset(l).regs[i]);
  }

  lemma InResetIs(w: RegWord, n: nat)
    ensures w.kind.Rw? ==> RegisterInReset(w, n) == NumberBits(ResetOf(w.fields), n)
    ensures !w.kind.Rw? ==> RegisterInReset(w, n) == ApbWrapper.Zeros(n)
  {}

  lemma SameSlice(o: Outputs, i: nat, f: Field, v: ApbWrapper.Bits, r: ApbWrapper.Bits)
    requires i < |o.fields| && o.fields[i] == v && f.lo + f.w <= |v| && v[f.lo..f.lo + f.w] == r
    ensures DrivesField(o, i, f, r)
  {}

  lemma ZeroSlice(n: nat, f: Field)
    requires f.lo + f.w <= n
    ensures ApbWrapper.Zeros(n)[f.lo..f.lo + f.w] == ApbWrapper.Zeros(f.w)
  {}

  lemma ZeroBits(w: RegWord, f: Field)
    requires !w.kind.Rw?
    ensures ResetBits(w, f) == ApbWrapper.Zeros(f.w)
  {}

  // ---------- which accesses show ----------

  lemma {:induction false} BitIsAt(v: nat, j: nat)
    ensures v / Pow2(j) % 2 == BitAt(v, j)
  {
    if j > 0 {
      BitIsAt(v / 2, j - 1);
      DivideTwice(v, 2, Pow2(j - 1));
    }
  }

  predicate NoBits(v: nat, n: nat) {
    forall j :: 0 <= j < n ==> BitAt(v, j) == 0
  }

  lemma NoBitsStep(v: nat, n: nat)
    requires n > 0
    ensures NoBits(v, n) <==> v % 2 == 0 && NoBits(v / 2, n - 1)
  {
    assert BitAt(v, 0) == v % 2;
    assert forall j :: 0 < j < n ==> BitAt(v, j) == BitAt(v / 2, j - 1);
    if NoBits(v, n) {
      assert BitAt(v, 0) == 0;
      assert forall j :: 0 <= j < n - 1 ==> BitAt(v / 2, j) == BitAt(v, j + 1);
    }
  }

  lemma {:induction false} ZeroNumber(v: nat, n: nat)
    ensures NoBits(v, n) <==> v % Pow2(n) == 0
  {
    hide NoBits;
    if n > 0 {
      ZeroNumber(v / 2, n - 1);
      NoBitsStep(v, n);
      EvenRest(v, Pow2(n - 1));
    } else {
      NoneOf(v);
    }
  }

  lemma NoneOf(v: nat)
    ensures NoBits(v, 0) && v % Pow2(0) == 0
  {}

  lemma EvenRest(v: nat, p: nat)
    requires p > 0
    ensures v % (2 * p) == 0 <==> v % 2 == 0 && v / 2 % p == 0
  {
    DivMod(v / 2, p);
    var q, r := v / 2 / p, v / 2 % p;
    assert v == 2 * p * q + (2 * r + v % 2);
    Divide(q, 2 * r + v % 2, 2 * p);
  }

  lemma NumberIsZero(v: nat, n: nat)
    ensures NumberBits(v, n) == ApbWrapper.Zeros(n) <==> v % Pow2(n) == 0
  {
    ZeroNumber(v, n);
    hide Pow2, BitAt;
    forall j | 0 <= j < n
      ensures NumberBits(v, n)[j] == (BitAt(v, j) == 1)
    {
      BitIsAt(v, j);
    }
    if NoBits(v, n) {
      assert NumberBits(v, n) == ApbWrapper.Zeros(n);
    }
    if NumberBits(v, n) == ApbWrapper.Zeros(n) {
      forall j | 0 <= j < n
        ensures BitAt(v, j) == 0
      {
        assert NumberBits(v, n)[j] == ApbWrapper.Zeros(n)[j];
      }
    }
  }

  lemma ExtendIsZero(r: ApbWrapper.Bits)
    requires |r| <= 32
    ensures Extend(r) == ApbWrapper.Zeros(32) <==> r == ApbWrapper.Zeros(|r|)
  {
    if Extend(r) == ApbWrapper.Zeros(32) {
      forall j | 0 <= j < |r|
        ensures !r[j]
      {
        assert Extend(r)[j] == ApbWrapper.Zeros(32)[j];
      }
    }
  }

  lemma PortIsZero(r: ApbWrapper.Bits)
    ensures Extend(r) == ApbWrapper.Zeros(32) <==> !AnyBit(r)
  {
    if Extend(r) == ApbWrapper.Zeros(32) {
      forall j | 0 <= j < |r| && j < 32
        ensures !r[j]
      {
        assert Extend(r)[j] == ApbWrapper.Zeros(32)[j];
      }
    }
  }

  lemma {:induction false} JoinedIsZero(fields: Word, c: Core)
    ensures Joined(fields, c) == ApbWrapper.Zeros(End(fields)) <==> !AnyPortBit(fields, c)
    decreases |fields|
  {
    if fields != [] {
      var l, f := fields[..|fields| - 1], fields[|fields| - 1];
      JoinedIsZero(l, c);
      var top := seq(f.w, j requires 0 <= j => PortBit(c, f.port, f.plo + j));
      assert Joined(fields, c) == Joined(l, c) + top;
      BothZero(Joined(l, c), top);
      FieldIsZero(f, c, top);
    }
  }

  lemma FieldIsZero(f: Field, c: Core, r: ApbWrapper.Bits)
    requires |r| == f.w && forall j :: 0 <= j < f.w ==> r[j] == FieldBit(f, c, j)
    ensures r == ApbWrapper.Zeros(f.w) <==> !FieldSet(f, c)
  {
    if r == ApbWrapper.Zeros(f.w) {
      forall j | 0 <= j < f.w
        ensures !FieldBit(f, c, j)
      {
        assert r[j] == ApbWrapper.Zeros(f.w)[j];
      }
    }
  }

  lemma BothZero(a: ApbWrapper.Bits, b: ApbWrapper.Bits)
    ensures a + b == ApbWrapper.Zeros(|a + b|) <==> a == ApbWrapper.Zeros(|a|) && b == ApbWrapper.Zeros(|b|)
  {
    var s := a + b;
    if s == ApbWrapper.Zeros(|s|) {
      assert a == s[..|a|] && b == s[|a|..];
    }
  }

  /** In reset a word reads zero unless it shows; a core register without strobe or with one. */
  lemma ReadInReset(l: Layout, c: Clock, i: nat)
    requires l.Valid() && c.Valid() && i < |l.words|
    ensures var k := l.words[i].kind;
      ReadShows(l, l.words[i], c.core) <==>
        || ReadWord(l, c, AtReset(l), i) != ApbWrapper.Zeros(32)
        || (k.CoreReg? && k.rindex.Some? && l.buses[k.bus].strobe)
  {
    var w := l.words[i];
    hide Tiled, End, ResetOf, Pow2, NumberBits, Extend, AnyBit, AnyPortBit, Joined;
    match w.kind {
      case Id => NumberIsZero(l.id, 32);
      case Rw(_) =>
        ResetSum(w.fields);
        NumberIsZero(ResetOf(w.fields), l.Width(i));
        ExtendIsZero(AtReset(l).regs[i]);
        SmallIsRest(ResetOf(w.fields), Pow2(l.Width(i)));
      case Ro =>
        ExtendIsZero(Joined(w.fields, c.core));
        JoinedIsZero(w.fields, c.core);
      case CoreReg(b, _, r) =>
        if r.Some? {
          PortIsZero(c.core(l.buses[b].rdata.value));
        }
      case Flags =>
        assert FlagBits(l, AtReset(l).st) == ApbWrapper.Zeros(|l.flags|);
        ZerosExtend(|l.flags|);
      case _ =>
        ZerosExtend(|l.irqs|);
        ZerosExtend(l.Width(i));
    }
  }

  lemma SmallIsRest(v: nat, p: nat)
    requires v < p
    ensures v % p == v
  {}

  /** The asserted parts that an access can change. */
  ghost predicate Silent(l: Layout, c: Clock)
    requires l.Valid() && c.Valid()
  {
    && Drives(l, c, AtReset(l)).prdata == ApbWrapper.Zeros(32)
    && forall b :: 0 <= b < |l.buses| ==>
      !BusDrives(l, c, b).wen && (l.buses[b].strobe ==> !BusDrives(l, c, b).ren)
  }

  /** An access that shows shows on the read data or on a strobe. */
  lemma ShowsOut(l: Layout, c: Clock)
    requires l.Valid() && c.Valid() && Shows(l, c)
    ensures !Silent(l, c)
  {
    hide Tiled, End, ReadWord, ReadShows, HitIndex;
    var i :| 0 <= i < |l.words| && Hit(l, c, i)
      && ((c.Rd() && ReadShows(l, l.words[i], c.core))
          || (c.Wr() && c.pstrb == ALL_LANES && l.words[i].kind.CoreReg? && l.words[i].kind.windex.Some?));
    ReadInReset(l, c, i);
    var k := l.words[i].kind;
    if k.CoreReg? {
      assert l.CoreRegFits(k);
      if c.Wr() && k.windex.Some? {
        assert OnBus(l.words[i], k.bus, true);
        assert HitsBus(l, c, k.bus, true);
      } else if k.rindex.Some? {
        assert OnBus(l.words[i], k.bus, false);
        assert HitsBus(l, c, k.bus, false);
      }
    }
  }

  /** Nothing else does. */
  lemma OutShows(l: Layout, c: Clock)
    requires l.Valid() && c.Valid() && !Silent(l, c)
    ensures Shows(l, c)
  {
    hide Tiled, End, ReadWord, ReadShows, HitIndex;
    if Drives(l, c, AtReset(l)).prdata != ApbWrapper.Zeros(32) {
      var i := c.paddr / 4;
      ReadInReset(l, c, i);
      assert Hit(l, c, i);
    } else {
      var b :| 0 <= b < |l.buses| && (BusDrives(l, c, b).wen || (l.buses[b].strobe && BusDrives(l, c, b).ren));
      var write := BusDrives(l, c, b).wen;
      assert HitsBus(l, c, b, write);
      var i :| 0 <= i < |l.words| && OnBus(l.words[i], b, write) && Hit(l, c, i);
      ReadInReset(l, c, i);
    }
  }

  /** The assertion on the values in reset fails exactly on the clocks that read a word that shows or write a core
      register. */
  lemma ResetHolds(l: Layout, c: Clock)
    requires l.Valid() && c.Valid()
    ensures ResetAsserted(l, c, Drives(l, c, AtReset(l))) <==> !Shows(l, c)
  {
    if Shows(l, c) {
      ShowsOut(l, c);
    } else if !Silent(l, c) {
      OutShows(l, c);
    }
    hide ResetOf, Tiled, End, Pow2, NumberBits, ReadWord, Hit, AnyHit, DrivesField, ResetBits, HitIndex, Shows;
    forall i, k | 0 <= i < |l.words| && IsCoreInput(l.words[i]) && 0 <= k < |l.words[i].fields|
      ensures DrivesField(Drives(l, c, AtReset(l)), i, l.words[i].fields[k],
                          ResetBits(l.words[i], l.words[i].fields[k]))
    {
      FieldInReset(l, c, i, k);
    }
  }

  /** A read of the ID word in reset breaks the assertion, unless the identification is zero. */
  lemma ReadInResetFails(l: Layout)
    requires l.Valid() && |l.words| < 1024 && l.id % Pow2(32) != 0
    ensures var c := Clock(true, true, false, 0, ApbWrapper.Zeros(32), ALL_LANES, p => []);
      c.Valid() && !ResetAsserted(l, c, Drives(l, c, AtReset(l)))
  {
    var c := Clock(true, true, false, 0, ApbWrapper.Zeros(32), ALL_LANES, p => []);
    hide Pow2, Tiled, End, ResetAsserted, Drives;
    assert Hit(l, c, 0) && ReadShows(l, l.words[0], c.core);
    ResetHolds(l, c);
  }
}
