/** What the stream holding registers of the wrapper of scripts/apb/gen_apb.py do with their beats over a run. */
module ApbStreams {
  import opened ApbLayout
  import opened ApbWrapper
  import opened ApbChecker
  import opened ApbSpec

  predicate IsRun(l: Layout, run: seq<Clock>) {
    l.Valid() && forall k :: 0 <= k < |run| ==> run[k].Valid()
  }

  /** The words that hold the beats of a stream. */
  predicate Holds(l: Layout, i: nat, s: nat)
    requires i < |l.words|
  {
    l.words[i].kind == Sin(s) || l.words[i].kind == Sout(s)
  }

  /** The beat in the holding registers. */
  function Beat(l: Layout, x: Wrapper, s: nat): seq<Bits>
    requires l.Valid() && WrapperFits(l, x)
  {
    seq(|l.words|, i requires 0 <= i < |l.words| => if Holds(l, i, s) then x.regs[i] else [])
  }

  function HeldBeat(l: Layout, x: Wrapper, s: nat): seq<seq<Bits>>
    requires l.Valid() && WrapperFits(l, x) && s < |l.streams|
  {
    if x.st[s] then [Beat(l, x, s)] else []
  }

  // ---------- into the core ----------

  predicate Commits(l: Layout, c: Clock, x: Wrapper, s: nat)
    requires s < |l.streams| == |x.st|
  {
    c.Wr() && Hit(l, c, l.streams[s].last) && !x.st[s]
  }

  /** The beats that software has committed before clock n. */
  function Committed(l: Layout, run: seq<Clock>, n: nat, s: nat): seq<seq<Bits>>
    requires IsRun(l, run) && n <= |run| && s < |l.streams|
  {
    if n == 0 then []
    else
      Committed(l, run, n - 1, s)
      + if Commits(l, run[n - 1], StateAt(l, run, n - 1), s) then [Beat(l, StateAt(l, run, n), s)] else []
  }

  /** The beats that the core has accepted before clock n. */
  function Accepted(l: Layout, run: seq<Clock>, n: nat, s: nat): seq<seq<Bits>>
    requires IsRun(l, run) && n <= |run| && s < |l.streams|
  {
    if n == 0 then []
    else
      var x := StateAt(l, run, n - 1);
      Accepted(l, run, n - 1, s) + if x.st[s] && Ready(l, run[n - 1], s) then [Beat(l, x, s)] else []
  }

  /** A held beat does not change. */
  lemma HeldKept(l: Layout, c: Clock, x: Wrapper, s: nat)
    requires l.Valid() && c.Valid() && WrapperFits(l, x) && s < |l.streams| && l.streams[s].input && Held(l, x, s)
    ensures Beat(l, Next(l, c, x), s) == Beat(l, x, s)
  {
    hide Tiled, End, NextStatus, NextState;
    var y := Next(l, c, x);
    forall i | 0 <= i < |l.words| && Holds(l, i, s)
      ensures y.regs[i] == x.regs[i]
    {
      assert y.regs[i] == NextReg(l, c, x, i);
    }
  }

  function Commit(l: Layout, c: Clock, x: Wrapper, s: nat): seq<seq<Bits>>
    requires l.Valid() && c.Valid() && WrapperFits(l, x) && s < |l.streams|
  {
    if Commits(l, c, x, s) then [Beat(l, Next(l, c, x), s)] else []
  }

  function Accept(l: Layout, c: Clock, x: Wrapper, s: nat): seq<seq<Bits>>
    requires l.Valid() && c.Valid() && WrapperFits(l, x) && s < |l.streams|
  {
    if x.st[s] && Ready(l, c, s) then [Beat(l, x, s)] else []
  }

  /** In one clock a held beat and what is committed are what is accepted and what is then held. */
  lemma CommitStep(l: Layout, c: Clock, x: Wrapper, s: nat)
    requires l.Valid() && c.Valid() && WrapperFits(l, x) && s < |l.streams| && l.streams[s].input
    requires l.streams[s].ready.Some?
    ensures HeldBeat(l, x, s) + Commit(l, c, x, s) == Accept(l, c, x, s) + HeldBeat(l, Next(l, c, x), s)
  {
    hide Tiled, End, NextStatus, NextReg, Beat, Hit;
    assert Next(l, c, x).st[s] == NextState(l, c, x, s);
    if x.st[s] {
      HeldKept(l, c, x, s);
    }
  }

  /** The core accepts the committed beats, each once and in order; at most the last is still held. */
  lemma {:induction false} BeatsAccepted(l: Layout, run: seq<Clock>, n: nat, s: nat)
    requires IsRun(l, run) && n <= |run| && s < |l.streams| && l.streams[s].input && l.streams[s].ready.Some?
    ensures Committed(l, run, n, s) == Accepted(l, run, n, s) + HeldBeat(l, StateAt(l, run, n), s)
  {
    hide Next, HeldBeat, Commits, Ready, Beat, AtReset;
    if n > 0 {
      BeatsAccepted(l, run, n - 1, s);
      var c, x := run[n - 1], StateAt(l, run, n - 1);
      CommitStep(l, c, x, s);
      Exchange(Committed(l, run, n - 1, s), Accepted(l, run, n - 1, s), HeldBeat(l, x, s), Commit(l, c, x, s),
               Accept(l, c, x, s), HeldBeat(l, Next(l, c, x), s));
    } else {
      NothingHeld(l, s);
    }
  }

  lemma Exchange<T>(a: seq<T>, b: seq<T>, h: seq<T>, come: seq<T>, go: seq<T>, h': seq<T>)
    requires a == b + h && h + come == go + h'
    ensures a + come == b + go + h'
  {
    assert a + come == b + (h + come);
    assert b + go + h' == b + (go + h');
  }

  lemma NothingHeld(l: Layout, s: nat)
    requires l.Valid() && s < |l.streams|
    ensures HeldBeat(l, AtReset(l), s) == []
  {}

  /** What software has written into word i before clock n. */
  function Written(l: Layout, run: seq<Clock>, n: nat, i: nat): (r: Bits)
    requires IsRun(l, run) && n <= |run| && i < |l.words|
    ensures |r| == l.Width(i)
  {
    if n == 0 then ApbWrapper.Zeros(l.Width(i))
    else
      var r := Written(l, run, n - 1, i);
      if run[n - 1].Wr() && Hit(l, run[n - 1], i) then ApbWrapper.Merged(r, run[n - 1]) else r
  }

  lemma {:induction false} WrittenHeld(l: Layout, run: seq<Clock>, n: nat, s: nat, i: nat)
    requires IsRun(l, run) && n <= |run| && s < |l.streams| && l.streams[s].ready.None?
    requires i < |l.words| && l.words[i].kind == Sin(s)
    ensures StateAt(l, run, n).regs[i] == Written(l, run, n, i)
  {
    hide Tiled, End, Hit, NextStatus, NextState, Merged, ResetOf;
    if n > 0 {
      WrittenHeld(l, run, n - 1, s, i);
      var c, x := run[n - 1], StateAt(l, run, n - 1);
      assert Next(l, c, x).regs[i] == NextReg(l, c, x, i);
    }
  }

  /** Without a ready, each committed beat is presented valid in exactly the next clock, with the bits that software has
      written. */
  lemma BeatPresented(l: Layout, run: seq<Clock>, n: nat, s: nat)
    requires IsRun(l, run) && n < |run| && s < |l.streams| && l.streams[s].input && l.streams[s].ready.None?
    ensures var o := Drives(l, run[n], StateAt(l, run, n));
      && |o.states| == |l.streams| && |o.fields| == |l.words|
      && (o.states[s] <==> n > 0 && run[n - 1].Wr() && Hit(l, run[n - 1], l.streams[s].last))
      && forall i :: 0 <= i < |l.words| && l.words[i].kind == Sin(s) ==> o.fields[i] == Written(l, run, n, i)
  {
    hide Tiled, End, Hit, NextStatus, NextReg, ResetOf, ReadWord, AnyHit, Partial, Written;
    if n > 0 {
      assert StateAt(l, run, n).st[s] == NextState(l, run[n - 1], StateAt(l, run, n - 1), s);
    }
    forall i | 0 <= i < |l.words| && l.words[i].kind == Sin(s)
      ensures ToCore(l, i, StateAt(l, run, n).regs[i]) == Written(l, run, n, i)
    {
      WrittenHeld(l, run, n, s, i);
    }
  }

  // ---------- out of the core ----------

  /** The beats of the core that were captured before clock n. */
  function Taken(l: Layout, run: seq<Clock>, n: nat, s: nat): seq<seq<Bits>>
    requires IsRun(l, run) && n <= |run| && s < |l.streams|
  {
    if n == 0 then []
    else
      Taken(l, run, n - 1, s)
      + if Takes(l, run[n - 1], StateAt(l, run, n - 1), s) then [Beat(l, StateAt(l, run, n), s)] else []
  }

  /** The beats that software has popped before clock n. */
  function Read(l: Layout, run: seq<Clock>, n: nat, s: nat): seq<seq<Bits>>
    requires IsRun(l, run) && n <= |run| && s < |l.streams|
  {
    if n == 0 then []
    else
      var x := StateAt(l, run, n - 1);
      Read(l, run, n - 1, s) + if x.st[s] && Pop(l, run[n - 1], s) then [Beat(l, x, s)] else []
  }

  lemma OutputKept(l: Layout, c: Clock, x: Wrapper, s: nat)
    requires l.Valid() && c.Valid() && WrapperFits(l, x) && s < |l.streams| && !l.streams[s].input && !Takes(l, c, x, s)
    ensures Beat(l, Next(l, c, x), s) == Beat(l, x, s)
  {
    hide Tiled, End, NextStatus, NextState;
    var y := Next(l, c, x);
    forall i | 0 <= i < |l.words| && Holds(l, i, s)
      ensures y.regs[i] == x.regs[i]
    {
      assert y.regs[i] == NextReg(l, c, x, i);
    }
  }

  function Take(l: Layout, c: Clock, x: Wrapper, s: nat): seq<seq<Bits>>
    requires l.Valid() && c.Valid() && WrapperFits(l, x) && s < |l.streams|
  {
    if Takes(l, c, x, s) then [Beat(l, Next(l, c, x), s)] else []
  }

  function PopBeat(l: Layout, c: Clock, x: Wrapper, s: nat): seq<seq<Bits>>
    requires l.Valid() && c.Valid() && WrapperFits(l, x) && s < |l.streams|
  {
    if x.st[s] && Pop(l, c, s) then [Beat(l, x, s)] else []
  }

  /** In one clock an unread beat and what is captured are what is popped and what is then unread. */
  lemma TakeStep(l: Layout, c: Clock, x: Wrapper, s: nat)
    requires l.Valid() && c.Valid() && WrapperFits(l, x) && s < |l.streams| && !l.streams[s].input
    ensures HeldBeat(l, x, s) + Take(l, c, x, s) == PopBeat(l, c, x, s) + HeldBeat(l, Next(l, c, x), s)
  {
    hide Tiled, End, NextStatus, NextReg, Beat, Hit;
    assert Next(l, c, x).st[s] == NextState(l, c, x, s);
    if !Takes(l, c, x, s) {
      OutputKept(l, c, x, s);
    }
  }

  /** Software reads the captured beats, each once and in order; at most the last is still unread. */
  lemma {:induction false} BeatsRead(l: Layout, run: seq<Clock>, n: nat, s: nat)
    requires IsRun(l, run) && n <= |run| && s < |l.streams| && !l.streams[s].input
    ensures Taken(l, run, n, s) == Read(l, run, n, s) + HeldBeat(l, StateAt(l, run, n), s)
  {
    hide Next, HeldBeat, Takes, Pop, Beat, AtReset;
    if n > 0 {
      BeatsRead(l, run, n - 1, s);
      var c, x := run[n - 1], StateAt(l, run, n - 1);
      TakeStep(l, c, x, s);
      Exchange(Taken(l, run, n - 1, s), Read(l, run, n - 1, s), HeldBeat(l, x, s), Take(l, c, x, s),
               PopBeat(l, c, x, s), HeldBeat(l, Next(l, c, x), s));
    } else {
      NothingHeld(l, s);
    }
  }

  /** The captured beat holds the core's ports of that clock, in its implemented bits. */
  lemma TakenValue(l: Layout, c: Clock, x: Wrapper, s: nat, i: nat)
    requires l.Valid() && c.Valid() && WrapperFits(l, x) && s < |l.streams| && i < |l.words|
    requires l.words[i].kind == Sout(s)
    requires Takes(l, c, x, s)
    ensures Extend(Beat(l, Next(l, c, x), s)[i]) == Ored(l.words[i].fields, c.core)
  {
    hide Tiled, End, NextStatus, NextState, Captured, Ored;
    assert Next(l, c, x).regs[i] == NextReg(l, c, x, i);
    CapturedIsOred(x.regs[i], l.words[i].fields, c.core);
  }

  // ---------- overflow ----------

  /** Something is lost at a stream: a write while a beat is held, or a beat that is not taken and that the core was not
      told to hold back. */
  predicate Drops(l: Layout, c: Clock, x: Wrapper, s: nat)
    requires s < |l.streams| == |x.st|
  {
    if l.streams[s].input then c.Wr() && HitsStream(l, c, s) && Held(l, x, s)
    else l.streams[s].ready.None? && c.Pin(l.streams[s].valid) && !Takes(l, c, x, s)
  }

  predicate Clears(l: Layout, c: Clock, k: nat)
    requires c.Valid() && k < 32
  {
    c.Wr() && Hit(l, c, 1) && c.pwdata[k] && c.Mask(k)
  }

  lemma DropSets(l: Layout, c: Clock, x: Wrapper, s: nat, k: nat)
    requires l.Valid() && c.Valid() && WrapperFits(l, x) && s < |l.streams| && k < |l.irqs| && l.irqs[k] == Overflow(s)
    requires Drops(l, c, x, s)
    ensures Next(l, c, x).status[k]
  {
    hide Tiled, End, NextReg, NextState, Hit, HitsStream;
    assert IrqSet(l, c, x, k);
    assert NextStatus(l, c, x)[k];
  }

  lemma StatusSticks(l: Layout, c: Clock, x: Wrapper, k: nat)
    requires l.Valid() && c.Valid() && WrapperFits(l, x) && k < |l.irqs| && x.status[k] && !Clears(l, c, k)
    ensures Next(l, c, x).status[k]
  {
    hide Tiled, End, NextReg, NextState, Hit, IrqSet;
    assert NextStatus(l, c, x)[k];
  }

  /** A drop shows in an overflow bit of the stream until software clears that bit. */
  lemma {:induction false} DropShows(l: Layout, run: seq<Clock>, m: nat, n: nat, s: nat, k: nat)
    requires IsRun(l, run) && m < n <= |run| && s < |l.streams| && k < |l.irqs| && l.irqs[k] == Overflow(s)
    requires Drops(l, run[m], StateAt(l, run, m), s)
    requires forall j :: m < j < n ==> !Clears(l, run[j], k)
    ensures StateAt(l, run, n).status[k]
  {
    hide Next, Drops, Clears, AtReset;
    var c, x := run[n - 1], StateAt(l, run, n - 1);
    if n == m + 1 {
      DropSets(l, c, x, s, k);
    } else {
      DropShows(l, run, m, n - 1, s, k);
      StatusSticks(l, c, x, k);
    }
  }

  /** No silent loss: in every run of every layout that is made from a specification, what a stream drops shows in the
      overflow bit that the layout gave it, until software clears that bit. */
  lemma NoSilentDrop(spec: Spec, pins: Pins, run: seq<Clock>, m: nat, n: nat, s: nat)
    requires LayoutOf(spec, pins).Some? && IsRun(Laid(spec, LayoutOf(spec, pins).value), run)
    requires m < n <= |run| && s < |LayoutOf(spec, pins).value.streams|
    requires var l := Laid(spec, LayoutOf(spec, pins).value); Drops(l, run[m], StateAt(l, run, m), s)
    requires forall j :: m < j < n ==>
      !Clears(Laid(spec, LayoutOf(spec, pins).value), run[j], OverflowBit(spec, pins, s))
    ensures StateAt(Laid(spec, LayoutOf(spec, pins).value), run, n).status[OverflowBit(spec, pins, s)]
  {
    var l := Laid(spec, LayoutOf(spec, pins).value);
    hide LayoutOf, OverflowBit;
    DropShows(l, run, m, n, s, OverflowBit(spec, pins, s));
  }

  /** With a ready towards the core, a beat is taken exactly when the wrapper offers ready: nothing is dropped. */
  lemma ReadyTakes(l: Layout, c: Clock, x: Wrapper, s: nat)
    requires l.Valid() && c.Valid() && WrapperFits(l, x) && s < |l.streams| && !l.streams[s].input
    ensures Takes(l, c, x, s) <==> c.Pin(l.streams[s].valid) && Drives(l, c, x).readies[s]
  {
    hide ReadWord, Tiled, End;
  }
}
