/** The checker that scripts/apb/gen_apb_tb.py emits, a register model of its own form, and that the wrapper meets it
    in every run; then what the wrapper's streams do with their beats. */
module ApbChecker {
  import opened Arithmetic
  import opened ApbLayout
  import opened ApbWrapper

  /** A 32-bit model of every word, the pulses of the command words, and the stream states. */
  datatype Checker = Checker(w: seq<Bits>, pulse: seq<Bits>, st: seq<bool>)

  predicate CheckerFits(l: Layout, y: Checker)
    requires l.Valid()
  {
    && |y.w| == |y.pulse| == |l.words| && |y.st| == |l.streams|
    && forall i :: 0 <= i < |l.words| ==> |y.w[i]| == |y.pulse[i]| == 32
  }

  /** The checker compares the word index as an integer. */
  predicate Mapped(l: Layout, c: Clock) {
    c.paddr % 4 == 0 && c.paddr / 4 < |l.words|
  }

  predicate At(l: Layout, c: Clock, i: nat) {
    Mapped(l, c) && c.paddr / 4 == i
  }

  /** ((w & ~be) | (d & be)) & mask of n bits. */
  function MergedUnder(w: Bits, c: Clock, n: nat): (x: Bits)
    requires c.Valid() && |w| == 32
    ensures |x| == 32
  {
    seq(32, j requires 0 <= j < 32 => j < n && MergedBit(w[j], c.pwdata[j], c.Mask(j)))
  }

  predicate Popped(l: Layout, c: Clock, s: nat)
    requires s < |l.streams|
  {
    c.Rd() && At(l, c, l.streams[s].last)
  }

  predicate Set(l: Layout, c: Clock, y: Checker, k: nat)
    requires l.Valid() && k < |l.irqs| && |y.st| == |l.streams|
  {
    match l.irqs[k]
    case FromPort(p) => c.Pin(p)
    case Done(s) => y.st[s] && Ready(l, c, s)
    case Overflow(s) =>
      if l.streams[s].input
        then c.Wr() && (exists i :: 0 <= i < |l.words| && l.words[i].kind == Sin(s) && At(l, c, i)) && y.st[s]
      else c.Pin(l.streams[s].valid) && y.st[s] && !Popped(l, c, s)
    case Available(s) =>
      (c.Pin(l.streams[s].valid) && !y.st[s]) || (c.Pin(l.streams[s].valid) && y.st[s] && Popped(l, c, s))
  }

  /** The implemented bits of a stored word. */
  function StoredBits(l: Layout, i: nat): nat
    requires l.Valid() && i < |l.words|
  {
    match l.words[i].kind
    case IrqEnable => |l.irqs|
    case Scratch => 32
    case _ => l.Width(i)
  }

  function NextWord(l: Layout, c: Clock, y: Checker, i: nat): (r: Bits)
    requires l.Valid() && c.Valid() && CheckerFits(l, y) && i < |l.words|
    ensures |r| == 32
  {
    var w := y.w[i];
    match l.words[i].kind
    case IrqStatus =>
      seq(32, j requires 0 <= j < 32 =>
        (w[j] && !(c.Wr() && At(l, c, 1) && c.pwdata[j] && c.Mask(j))) || (j < |l.irqs| && Set(l, c, y, j)))
    case Sin(s) =>
      if c.Wr() && At(l, c, i) && (l.streams[s].ready.Some? ==> !y.st[s]) then MergedUnder(w, c, l.Width(i)) else w
    case Sout(s) =>
      if c.Pin(l.streams[s].valid) && (!y.st[s] || Popped(l, c, s)) then Ored(l.words[i].fields, c.core) else w
    case IrqEnable => if c.Wr() && At(l, c, i) then MergedUnder(w, c, StoredBits(l, i)) else w
    case Scratch => if c.Wr() && At(l, c, i) then MergedUnder(w, c, StoredBits(l, i)) else w
    case Rw(_) => if c.Wr() && At(l, c, i) then MergedUnder(w, c, StoredBits(l, i)) else w
    case _ => w
  }

  function NextPulse(l: Layout, c: Clock, i: nat): (r: Bits)
    requires l.Valid() && c.Valid() && i < |l.words|
    ensures |r| == 32
  {
    if l.words[i].kind.Cmd? && c.Wr() && At(l, c, i) then
      seq(32, j requires 0 <= j < 32 => j < l.Width(i) && c.pwdata[j] && c.Mask(j))
    else Zeros(32)
  }

  function NextSt(l: Layout, c: Clock, y: Checker, s: nat): bool
    requires s < |l.streams| == |y.st|
  {
    var t := l.streams[s];
    if t.input && t.ready.Some? then
      var v := if c.Wr() && At(l, c, t.last) && !y.st[s] then true else y.st[s];
      if y.st[s] && Ready(l, c, s) then false else v
    else if t.input then c.Wr() && At(l, c, t.last)
    else if c.Pin(t.valid) && (!y.st[s] || Popped(l, c, s)) then true
    else if Popped(l, c, s) then false
    else y.st[s]
  }

  function NextChecker(l: Layout, c: Clock, y: Checker): (z: Checker)
    requires l.Valid() && c.Valid() && CheckerFits(l, y)
    ensures CheckerFits(l, z)
  {
    Checker(seq(|l.words|, i requires 0 <= i < |l.words| => NextWord(l, c, y, i)),
            seq(|l.words|, i requires 0 <= i < |l.words| => NextPulse(l, c, i)),
            seq(|l.streams|, s requires 0 <= s < |l.streams| => NextSt(l, c, y, s)))
  }

  function CheckerAtReset(l: Layout): (y: Checker)
    requires l.Valid()
    ensures CheckerFits(l, y)
  {
    Checker(seq(|l.words|, i requires 0 <= i < |l.words| =>
              if l.words[i].kind.Rw? then NumberBits(ResetOf(l.words[i].fields), 32) else Zeros(32)),
            seq(|l.words|, i => Zeros(32)),
            seq(|l.streams|, s => false))
  }

  /** m_read. */
  function ExpectedRead(l: Layout, c: Clock, y: Checker, i: nat): Bits
    requires l.Valid() && CheckerFits(l, y) && i < |l.words|
  {
    match l.words[i].kind
    case Id => NumberBits(l.id, 32)
    case Flags => Extend(FlagBits(l, y.st))
    case Rw(secret) => if secret then Zeros(32) else y.w[i]
    case Ro => Ored(l.words[i].fields, c.core)
    case Cmd => Zeros(32)
    case CoreReg(b, _, r) => if r.Some? then Extend(c.core(l.buses[b].rdata.value)) else Zeros(32)
    case _ => y.w[i]
  }

  function ExpectedToCore(l: Layout, y: Checker, i: nat): Bits
    requires l.Valid() && CheckerFits(l, y) && i < |l.words|
  {
    match l.words[i].kind
    case Rw(_) => y.w[i][..l.Width(i)]
    case Cmd => y.pulse[i][..l.Width(i)]
    case Sin(_) => y.w[i][..l.Width(i)]
    case _ => []
  }

  /** What the checker asserts of the outputs. */
  function Expects(l: Layout, c: Clock, y: Checker): Outputs
    requires l.Valid() && c.Valid() && CheckerFits(l, y)
  {
    var i := c.paddr / 4;
    Outputs(
      c.psel && c.penable,
      if c.Rd() && Mapped(l, c) then ExpectedRead(l, c, y, i) else Zeros(32),
      c.psel && c.penable && (!Mapped(l, c) || Partial(l, c, i)),
      exists k :: 0 <= k < |l.irqs| && y.w[1][k] && y.w[2][k],
      seq(|l.words|, i requires 0 <= i < |l.words| => ExpectedToCore(l, y, i)),
      y.st,
      seq(|l.streams|, s requires 0 <= s < |l.streams| => !y.st[s] || Popped(l, c, s)))
  }

  // ---------- the decoders ----------

  /** The two decoders agree on every access exactly when the layout does not fill the whole address space: with 1024
      words the wrapper's ten-bit constant is 0 and nothing is ever hit. */
  lemma DecodersAgree(l: Layout)
    requires l.Valid()
    ensures (forall c: Clock, i: nat :: c.Valid() ==> Hit(l, c, i) == At(l, c, i)) <==> |l.words| < 1024
  {
    if |l.words| == 1024 {
      var c := Clock(true, true, false, 0, Zeros(32), Zeros(4), p => []);
      assert c.Valid() && At(l, c, 0) && !Hit(l, c, 0);
    }
  }

  /** With 1024 words the wrapper answers every access with an error and reads nothing. */
  lemma FullLayoutFails(l: Layout, c: Clock, x: Wrapper)
    requires l.Valid() && c.Valid() && WrapperFits(l, x) && |l.words| == 1024 && c.psel && c.penable
    ensures Drives(l, c, x).pslverr && Drives(l, c, x).prdata == Zeros(32)
  {}

  // ---------- the two forms of a word ----------

  lemma {:induction false} OredBelow(fields: Word, c: Core, j: nat)
    requires Tiled(fields) && End(fields) <= j < 32
    ensures !Ored(fields, c)[j]
    decreases |fields|
  {
    if fields != [] {
      OredBelow(fields[..|fields| - 1], c, j);
    }
  }

  lemma {:induction false} CapturedBit(r: Bits, fields: Word, c: Core, j: nat)
    requires Tiled(fields) && j < End(fields) <= |r| <= 32
    ensures Captured(r, fields, c)[j] == Ored(fields, c)[j]
    decreases |fields|
  {
    var l := fields[..|fields| - 1];
    if j < End(l) {
      CapturedBit(r, l, c, j);
    } else {
      OredBelow(l, c, j);
    }
  }

  lemma CapturedIsOred(r: Bits, fields: Word, c: Core)
    requires Tiled(fields) && |r| == End(fields) <= 32
    ensures Extend(Captured(r, fields, c)) == Ored(fields, c)
  {
    forall j | 0 <= j < 32
      ensures Extend(Captured(r, fields, c))[j] == Ored(fields, c)[j]
    {
      if j < End(fields) {
        CapturedBit(r, fields, c, j);
      } else {
        OredBelow(fields, c, j);
      }
    }
  }

  lemma {:induction false} JoinedBit(fields: Word, c: Core, j: nat)
    requires Tiled(fields) && j < End(fields) <= 32
    ensures Joined(fields, c)[j] == Ored(fields, c)[j]
    decreases |fields|
  {
    var l := fields[..|fields| - 1];
    if j < End(l) {
      JoinedBit(l, c, j);
    } else {
      OredBelow(l, c, j);
    }
  }

  lemma JoinedIsOred(fields: Word, c: Core)
    requires Tiled(fields) && End(fields) <= 32
    ensures Extend(Joined(fields, c)) == Ored(fields, c)
  {
    forall j | 0 <= j < 32
      ensures Extend(Joined(fields, c))[j] == Ored(fields, c)[j]
    {
      if j < End(fields) {
        JoinedBit(fields, c, j);
      } else {
        OredBelow(fields, c, j);
      }
    }
  }

  lemma MergedExtends(r: Bits, c: Clock)
    requires c.Valid() && |r| <= 32
    ensures Extend(Merged(r, c)) == MergedUnder(Extend(r), c, |r|)
  {}

  lemma NumberExtends(v: nat, n: nat)
    requires v < Pow2(n) && n <= 32
    ensures Extend(NumberBits(v, n)) == NumberBits(v, 32)
  {
    forall j | 0 <= j < 32
      ensures Extend(NumberBits(v, n))[j] == NumberBits(v, 32)[j]
    {
      if j >= n {
        PowMono(n, j);
        Gone(v, Pow2(j));
      }
    }
  }

  lemma Gone(v: nat, p: nat)
    requires v < p
    ensures v / p == 0
  {}

  // ---------- the wrapper meets the checker ----------

  predicate WordAgrees(l: Layout, x: Wrapper, y: Checker, i: nat)
    requires l.Valid() && WrapperFits(l, x) && CheckerFits(l, y) && i < |l.words|
  {
    match l.words[i].kind
    case IrqStatus => y.w[i] == Extend(x.status)
    case IrqEnable => y.w[i] == Extend(x.enable)
    case Scratch => y.w[i] == x.scratch
    case Cmd => y.pulse[i] == Extend(x.regs[i])
    case Rw(_) => y.w[i] == Extend(x.regs[i])
    case Sin(_) => y.w[i] == Extend(x.regs[i])
    case Sout(_) => y.w[i] == Extend(x.regs[i])
    case _ => true
  }

  ghost predicate Agree(l: Layout, x: Wrapper, y: Checker) {
    && l.Valid() && WrapperFits(l, x) && CheckerFits(l, y) && x.st == y.st
    && forall i :: 0 <= i < |l.words| ==> WordAgrees(l, x, y, i)
  }

  lemma SameHits(l: Layout, c: Clock)
    requires l.Valid() && c.Valid() && |l.words| < 1024
    ensures AnyHit(l, c) == Mapped(l, c)
    ensures forall i: nat :: Hit(l, c, i) == At(l, c, i)
    ensures forall s :: 0 <= s < |l.streams| ==> Pop(l, c, s) == Popped(l, c, s)
  {}

  lemma WordResets(l: Layout, i: nat)
    requires l.Valid() && i < |l.words|
    ensures WordAgrees(l, AtReset(l), CheckerAtReset(l), i)
  {
    hide ResetOf, Pow2, Tiled, End, NumberBits, Extend;
    if l.words[i].kind.Rw? {
      ResetSum(l.words[i].fields);
      NumberExtends(ResetOf(l.words[i].fields), l.Width(i));
    } else {
      ZerosExtend(|l.irqs|);
      ZerosExtend(l.Width(i));
    }
  }

  lemma ZerosExtend(n: nat)
    ensures Extend(Zeros(n)) == Zeros(32)
  {}

  lemma ResetAgrees(l: Layout)
    requires l.Valid()
    ensures Agree(l, AtReset(l), CheckerAtReset(l))
  {
    hide ResetOf, Pow2, WordAgrees, Tiled, End, NumberBits;
    forall i | 0 <= i < |l.words|
      ensures WordAgrees(l, AtReset(l), CheckerAtReset(l), i)
    {
      WordResets(l, i);
    }
  }

  lemma RegAgrees(l: Layout, c: Clock, x: Wrapper, y: Checker, i: nat)
    requires Agree(l, x, y) && c.Valid() && |l.words| < 1024 && 5 <= i < |l.words|
    ensures WordAgrees(l, Next(l, c, x), NextChecker(l, c, y), i)
  {
    hide Merged, MergedUnder, Captured, Ored, Extend, Tiled, End;
    SameHits(l, c);
    assert WordAgrees(l, x, y, i);
    assert Next(l, c, x).regs[i] == NextReg(l, c, x, i) && NextChecker(l, c, y).w[i] == NextWord(l, c, y, i);
    assert NextChecker(l, c, y).pulse[i] == NextPulse(l, c, i);
    MergedExtends(x.regs[i], c);
    match l.words[i].kind {
      case Sout(_) => CapturedIsOred(x.regs[i], l.words[i].fields, c.core);
      case Cmd => PulseExtends(c, l.Width(i));
      case _ =>
    }
  }

  lemma PulseExtends(c: Clock, n: nat)
    requires c.Valid() && n <= 32
    ensures Extend(Masked(n, c)) == seq(32, j requires 0 <= j < 32 => j < n && c.pwdata[j] && c.Mask(j))
    ensures Extend(Zeros(n)) == Zeros(32)
  {}

  lemma StatesAgree(l: Layout, c: Clock, x: Wrapper, y: Checker)
    requires Agree(l, x, y) && c.Valid() && |l.words| < 1024
    ensures Next(l, c, x).st == NextChecker(l, c, y).st
  {
    SameHits(l, c);
  }

  lemma SetAgrees(l: Layout, c: Clock, x: Wrapper, y: Checker, k: nat)
    requires Agree(l, x, y) && c.Valid() && |l.words| < 1024 && k < |l.irqs|
    ensures IrqSet(l, c, x, k) == Set(l, c, y, k)
  {
    SameHits(l, c);
  }

  lemma StatusAgrees(l: Layout, c: Clock, x: Wrapper, y: Checker)
    requires Agree(l, x, y) && c.Valid() && |l.words| < 1024
    ensures NextWord(l, c, y, 1) == Extend(NextStatus(l, c, x))
  {
    hide IrqSet, Set, Hit, At, Tiled, End;
    SameHits(l, c);
    assert WordAgrees(l, x, y, 1);
    forall j | 0 <= j < 32
      ensures NextWord(l, c, y, 1)[j] == Extend(NextStatus(l, c, x))[j]
    {
      if j < |l.irqs| {
        SetAgrees(l, c, x, y, j);
      }
    }
  }

  lemma EnableAgrees(l: Layout, c: Clock, x: Wrapper, y: Checker)
    requires Agree(l, x, y) && c.Valid() && |l.words| < 1024
    ensures NextWord(l, c, y, 2) == Extend(Next(l, c, x).enable) && NextWord(l, c, y, 4) == Next(l, c, x).scratch
  {
    hide Hit, At, Merged, MergedUnder, Tiled, End, NextStatus, NextReg;
    SameHits(l, c);
    assert WordAgrees(l, x, y, 2) && WordAgrees(l, x, y, 4);
    MergedExtends(x.enable, c);
    MergedExtends(x.scratch, c);
    Whole(x.scratch);
    Whole(Merged(x.scratch, c));
  }

  lemma FixedAgree(l: Layout, c: Clock, x: Wrapper, y: Checker)
    requires Agree(l, x, y) && c.Valid() && |l.words| < 1024
    ensures forall i :: 0 <= i < 5 ==> WordAgrees(l, Next(l, c, x), NextChecker(l, c, y), i)
  {
    hide NextWord, NextStatus, NextReg, Tiled, End, Extend;
    StatusAgrees(l, c, x, y);
    EnableAgrees(l, c, x, y);
  }

  lemma Whole(r: Bits)
    requires |r| == 32
    ensures Extend(r) == r
  {}

  /** One clock keeps the two in agreement. */
  lemma StepAgrees(l: Layout, c: Clock, x: Wrapper, y: Checker)
    requires Agree(l, x, y) && c.Valid() && |l.words| < 1024
    ensures Agree(l, Next(l, c, x), NextChecker(l, c, y))
  {
    hide WordAgrees, Next, NextChecker;
    StatesAgree(l, c, x, y);
    FixedAgree(l, c, x, y);
    forall i | 5 <= i < |l.words|
      ensures WordAgrees(l, Next(l, c, x), NextChecker(l, c, y), i)
    {
      RegAgrees(l, c, x, y, i);
    }
  }

  /** Every assertion on the outputs holds in agreeing states. */
  lemma OutputsAgree(l: Layout, c: Clock, x: Wrapper, y: Checker)
    requires Agree(l, x, y) && c.Valid() && |l.words| < 1024
    ensures Drives(l, c, x) == Expects(l, c, y)
  {
    hide Extend, Ored, Joined, Hit, At, ReadWord, ExpectedRead, ToCore, ExpectedToCore;
    SameHits(l, c);
    var i := c.paddr / 4;
    if c.Rd() && Mapped(l, c) {
      ReadsAgree(l, c, x, y, i);
    }
    assert y.w[1] == Extend(x.status) && y.w[2] == Extend(x.enable) by {
      assert WordAgrees(l, x, y, 1) && WordAgrees(l, x, y, 2);
    }
    forall k | 0 <= k < |l.irqs|
      ensures y.w[1][k] == x.status[k] && y.w[2][k] == x.enable[k]
    {
      ExtendAt(x.status, k);
      ExtendAt(x.enable, k);
    }
    forall i | 0 <= i < |l.words|
      ensures ToCore(l, i, x.regs[i]) == ExpectedToCore(l, y, i)
    {
      FieldsAgree(l, x, y, i);
    }
  }

  lemma ExtendAt(r: Bits, k: nat)
    requires k < |r| <= 32
    ensures Extend(r)[k] == r[k]
  {}

  lemma FieldsAgree(l: Layout, x: Wrapper, y: Checker, i: nat)
    requires Agree(l, x, y) && i < |l.words|
    ensures ToCore(l, i, x.regs[i]) == ExpectedToCore(l, y, i)
  {
    hide Tiled, End;
    assert WordAgrees(l, x, y, i);
    assert Extend(x.regs[i])[..|x.regs[i]|] == x.regs[i];
  }

  lemma ReadsAgree(l: Layout, c: Clock, x: Wrapper, y: Checker, i: nat)
    requires Agree(l, x, y) && i < |l.words|
    ensures ReadWord(l, c, x, i) == ExpectedRead(l, c, y, i)
  {
    hide Extend, Ored, Joined, Tiled, End, Pow2;
    assert WordAgrees(l, x, y, i);
    if l.words[i].kind.Ro? {
      JoinedIsOred(l.words[i].fields, c.core);
    }
  }

  // ---------- runs ----------

  /** The states before each clock of a run from reset. */
  function StateAt(l: Layout, run: seq<Clock>, n: nat): (x: Wrapper)
    requires l.Valid() && n <= |run| && forall k :: 0 <= k < |run| ==> run[k].Valid()
    ensures WrapperFits(l, x)
  {
    if n == 0 then AtReset(l) else Next(l, run[n - 1], StateAt(l, run, n - 1))
  }

  function CheckerAt(l: Layout, run: seq<Clock>, n: nat): (y: Checker)
    requires l.Valid() && n <= |run| && forall k :: 0 <= k < |run| ==> run[k].Valid()
    ensures CheckerFits(l, y)
  {
    if n == 0 then CheckerAtReset(l) else NextChecker(l, run[n - 1], CheckerAt(l, run, n - 1))
  }

  /** In every run from reset, wrapper and checker agree before every clock and no assertion fails in it. */
  lemma {:induction false} RunAgrees(l: Layout, run: seq<Clock>, n: nat)
    requires l.Valid() && |l.words| < 1024 && n <= |run| && forall k :: 0 <= k < |run| ==> run[k].Valid()
    ensures Agree(l, StateAt(l, run, n), CheckerAt(l, run, n))
    ensures n < |run| ==> Drives(l, run[n], StateAt(l, run, n)) == Expects(l, run[n], CheckerAt(l, run, n))
  {
    hide Agree, Next, NextChecker, Drives, Expects;
    if n == 0 {
      ResetAgrees(l);
    } else {
      RunAgrees(l, run, n - 1);
      StepAgrees(l, run[n - 1], StateAt(l, run, n - 1), CheckerAt(l, run, n - 1));
    }
    if n < |run| {
      OutputsAgree(l, run[n], StateAt(l, run, n), CheckerAt(l, run, n));
    }
  }
}
