/** The command engine of scripts/ddr_lite_policy_model.py. The commands that it issues are kept in a log, and every
    run of transactions and refreshes leaves a log that meets the timing fences and the bank protocol. */
module Dram {
  const T_RCD := 6
  const T_RP := 6
  const T_RC := 24
  const T_RAS := 16
  const T_RRD := 3
  const T_WR := 8
  const T_WTR := 4
  const T_RFC := 40
  const T_REFI := 64
  const CL := 11
  const CWL := 8
  const BANKS := 4

  /** Long before the start. */
  const NEVER := -1000

  type Bank = b: nat | b < BANKS

  // ---------- logs ----------

  /** A command and its cycle; reads and writes count from the end of their burst. */
  datatype Command =
    | Act(at: int, bank: Bank, row: int)
    | Pre(at: int, bank: Bank)
    | Write(at: int, bank: Bank, row: int, line: int)
    | Read(at: int, bank: Bank, row: int, line: int)
    | Ref(at: int)

  /** How far apart an earlier and a later command must be. */
  predicate Spaced(x: Command, y: Command) {
    && x.at <= y.at
    && (x.Pre? && y.Act? && x.bank == y.bank ==> y.at - x.at >= T_RP)
    && (x.Act? && y.Act? && x.bank == y.bank ==> y.at - x.at >= T_RC)
    && (x.Act? && y.Act? ==> y.at - x.at >= T_RRD)
    && (x.Act? && y.Pre? && x.bank == y.bank ==> y.at - x.at >= T_RAS)
    && (x.Act? && y.Write? && x.bank == y.bank ==> y.at - x.at >= T_RCD - 1 + CWL - 1)
    && (x.Act? && y.Read? && x.bank == y.bank ==> y.at - x.at >= T_RCD - 1 + CL - 1)
    && (x.Write? && y.Pre? && x.bank == y.bank ==> y.at - x.at >= T_WR)
    && (x.Read? && y.Write? ==> y.at - x.at >= T_WTR + CWL - 1)
    && (x.Pre? && y.Ref? ==> y.at - x.at >= T_RP)
    && (x.Ref? ==> y.at - x.at >= T_RFC)
  }

  ghost predicate Fenced(log: seq<Command>) {
    forall i, j :: 0 <= i < j < |log| ==> Spaced(log[i], log[j])
  }

  /** The open row of a bank after the commands of a log. */
  function RowAfter(log: seq<Command>, b: Bank): int {
    if log == [] then -1
    else
      var rest := log[..|log| - 1];
      match log[|log| - 1]
      case Act(_, b', row) => if b' == b then row else RowAfter(rest, b)
      case Pre(_, b') => if b' == b then -1 else RowAfter(rest, b)
      case _ => RowAfter(rest, b)
  }

  /** A bank is activated when closed and accessed in its open row; a refresh finds every bank closed. */
  predicate Fitting(log: seq<Command>, c: Command) {
    match c
    case Act(_, b, row) => row >= 0 && RowAfter(log, b) == -1
    case Pre(_, b) => RowAfter(log, b) != -1
    case Write(_, b, row, _) => row >= 0 && RowAfter(log, b) == row
    case Read(_, b, row, _) => row >= 0 && RowAfter(log, b) == row
    case Ref(_) => forall b: Bank :: RowAfter(log, b) == -1
  }

  predicate Disciplined(log: seq<Command>) {
    log == [] || (Disciplined(log[..|log| - 1]) && Fitting(log[..|log| - 1], log[|log| - 1]))
  }

  // ---------- what a legal log means for one bank ----------

  predicate IsAccess(c: Command, b: Bank, row: int) {
    (c.Read? || c.Write?) && c.bank == b && c.row == row
  }

  lemma {:induction false} FittingAt(log: seq<Command>, i: nat)
    requires Disciplined(log) && i < |log|
    ensures Fitting(log[..i], log[i])
    decreases |log|
  {
    var rest := log[..|log| - 1];
    if i < |rest| {
      FittingAt(rest, i);
      assert rest[..i] == log[..i];
    }
  }

  lemma RowStep(log: seq<Command>, j: nat, b: Bank)
    requires 0 < j <= |log|
    ensures RowAfter(log[..j], b) == var c := log[j - 1];
      if c.Act? && c.bank == b then c.row else if c.Pre? && c.bank == b then -1 else RowAfter(log[..j - 1], b)
  {
    assert log[..j][..j - 1] == log[..j - 1];
  }

  /** When the open row has changed, some command changed it: an activation to open one, a precharge to close one. */
  lemma {:induction false} ChangeFound(log: seq<Command>, i: nat, j: nat, b: Bank) returns (k: nat)
    requires i <= j <= |log| && RowAfter(log[..i], b) != RowAfter(log[..j], b)
    ensures i <= k < j && RowAfter(log[..k + 1], b) == RowAfter(log[..j], b) && (log[k].Act? || log[k].Pre?)
    ensures log[k].bank == b
    ensures log[k].Act? ==> log[k].row == RowAfter(log[..j], b)
    ensures log[k].Pre? ==> RowAfter(log[..j], b) == -1
    decreases j
  {
    hide RowAfter;
    RowStep(log, j, b);
    var c := log[j - 1];
    if (c.Act? || c.Pre?) && c.bank == b {
      k := j - 1;
    } else {
      k := ChangeFound(log, i, j - 1, b);
    }
  }

  /** Accesses to two rows of a bank are apart by the precharge and the activation between them, and by the write
      recovery if the first is a write. */
  lemma RowChange(log: seq<Command>, i: nat, j: nat, b: Bank, row: int, row': int)
    requires Disciplined(log) && Fenced(log) && i < j < |log| && row != row'
    requires IsAccess(log[i], b, row) && IsAccess(log[j], b, row')
    ensures log[j].at - log[i].at >= T_RP + T_RCD - 1 + CWL - 1 + if log[i].Write? then T_WR else 0
  {
    hide RowAfter, Disciplined;
    FittingAt(log, i);
    FittingAt(log, j);
    var k := ChangeFound(log, i, j, b);
    assert log[k].Act?;
    FittingAt(log, k);
    var p := ChangeFound(log, i, k, b);
    FittingClosed(log, p, k, b);
    assert Spaced(log[i], log[p]) && Spaced(log[p], log[k]) && Spaced(log[k], log[j]);
  }

  /** The command that closed the bank is a precharge. */
  lemma FittingClosed(log: seq<Command>, p: nat, k: nat, b: Bank)
    requires Disciplined(log) && p < k <= |log| && (log[p].Act? ==> log[p].row == RowAfter(log[..k], b))
    requires RowAfter(log[..k], b) == -1
    ensures !log[p].Act?
  {
    hide RowAfter, Disciplined;
    FittingAt(log, p);
  }

  // ---------- timers ----------

  /** What is left of a period that began at a given cycle. */
  function Left(period: nat, begun: int, now: int): nat {
    if now - begun < period && now >= begun then period - (now - begun) else 0
  }

  function Down(x: nat): nat {
    if x > 0 then x - 1 else 0
  }

  function AllDown(t: seq<nat>): (r: seq<nat>)
    ensures |r| == |t|
  {
    seq(|t|, i requires 0 <= i < |t| => Down(t[i]))
  }

  /** A timer for each bank. */
  ghost predicate Counting(t: seq<nat>, period: nat, last: seq<int>, now: int) {
    |t| == |last| == BANKS && forall b: Bank :: last[b] <= now && t[b] == Left(period, last[b], now)
  }

  /** Restarting one timer. */
  lemma CountingRestart(t: seq<nat>, period: nat, last: seq<int>, now: int, b: Bank)
    requires Counting(t, period, last, now)
    ensures Counting(t[b := period], period, last[b := now], now)
  {}

  lemma CountingDown(t: seq<nat>, period: nat, last: seq<int>, now: int)
    requires Counting(t, period, last, now)
    ensures Counting(AllDown(t), period, last, now + 1)
  {}

  lemma LeftDown(period: nat, begun: int, now: int)
    requires begun <= now
    ensures Down(Left(period, begun, now)) == Left(period, begun, now + 1)
  {}

  /** The refresh counter runs down to 0 and starts again. */
  predicate CountsRefresh(refi: nat, cyc: nat) {
    refi == T_REFI - cyc % (T_REFI + 1)
  }

  /** A refresh falls due every T_REFI + 1 cycles. */
  predicate Due(cyc: nat) {
    cyc % (T_REFI + 1) == 0
  }

  lemma NextCount(refi: nat, cyc: nat)
    requires CountsRefresh(refi, cyc)
    ensures CountsRefresh(if refi > 0 then refi - 1 else T_REFI, cyc + 1)
    ensures refi == 0 <==> Due(cyc + 1)
  {}

  predicate AnyLeft(t: seq<nat>) {
    exists i :: 0 <= i < |t| && t[i] > 0
  }

  // ---------- what holds of the engine ----------

  /** The fields of the engine, with the last write of each bank, the last read, and the log. */
  datatype View = View(cyc: nat, open: seq<bool>, row: seq<int>, rp: seq<nat>, ras: seq<nat>, rc: seq<nat>,
                       wr: seq<nat>, rrd: nat, wtr: nat, rfc: nat, refi: nat, la: seq<int>, lp: seq<int>,
                       lw: seq<int>, laa: int, lr: int, lref: int, log: seq<Command>)

  /** Every timer is what is left of its period since its event. */
  ghost predicate TimersExact(v: View) {
    && Counting(v.rp, T_RP, v.lp, v.cyc) && Counting(v.ras, T_RAS, v.la, v.cyc)
    && Counting(v.rc, T_RC, v.la, v.cyc) && Counting(v.wr, T_WR, v.lw, v.cyc)
    && (forall b: Bank :: v.la[b] <= v.laa)
    && v.laa <= v.cyc && v.lr <= v.cyc && v.lref <= v.cyc
    && v.rrd == Left(T_RRD, v.laa, v.cyc) && v.wtr == Left(T_WTR, v.lr, v.cyc) && v.rfc == Left(T_RFC, v.lref, v.cyc)
    && CountsRefresh(v.refi, v.cyc)
  }

  /** The recorded cycles are not before any command of their kind. */
  ghost predicate Recorded(v: View)
    requires |v.la| == |v.lp| == |v.lw| == BANKS
  {
    forall i :: 0 <= i < |v.log| ==> NotAfter(v, v.log[i])
  }

  predicate NotAfter(v: View, c: Command)
    requires |v.la| == |v.lp| == |v.lw| == BANKS
  {
    match c
    case Act(at, b, _) => at <= v.la[b]
    case Pre(at, b) => at <= v.lp[b]
    case Write(at, b, _, _) => at <= v.lw[b]
    case Read(at, _, _, _) => at <= v.lr
    case Ref(at) => at <= v.lref
  }

  ghost predicate RowsKnown(v: View) {
    && |v.open| == |v.row| == BANKS
    && forall b: Bank :: (v.open[b] ==> v.row[b] >= 0) && RowAfter(v.log, b) == if v.open[b] then v.row[b] else -1
  }

  ghost predicate Sound(v: View) {
    TimersExact(v) && Recorded(v) && RowsKnown(v) && Fenced(v.log) && Disciplined(v.log)
  }

  /** The view after one cycle. */
  function Ticked(v: View): View {
    v.(cyc := v.cyc + 1, rp := AllDown(v.rp), ras := AllDown(v.ras), rc := AllDown(v.rc), wr := AllDown(v.wr),
       rrd := Down(v.rrd), wtr := Down(v.wtr), rfc := Down(v.rfc), refi := if v.refi > 0 then v.refi - 1 else T_REFI)
  }

  lemma TickSound(v: View)
    requires Sound(v)
    ensures Sound(Ticked(v)) && (v.refi == 0 <==> Due(v.cyc + 1))
  {
    hide Counting, Left, AllDown, Down, CountsRefresh, Due, RowAfter, Disciplined;
    CountingDown(v.rp, T_RP, v.lp, v.cyc); CountingDown(v.ras, T_RAS, v.la, v.cyc);
    CountingDown(v.rc, T_RC, v.la, v.cyc); CountingDown(v.wr, T_WR, v.lw, v.cyc);
    LeftDown(T_RRD, v.laa, v.cyc); LeftDown(T_WTR, v.lr, v.cyc); LeftDown(T_RFC, v.lref, v.cyc);
    NextCount(v.refi, v.cyc);
    assert |v.la| == |v.lp| == |v.lw| == BANKS by { CountingSizes(v); }
    assert Recorded(Ticked(v)) by {
      forall i | 0 <= i < |v.log|
        ensures NotAfter(Ticked(v), v.log[i])
      {
        assert NotAfter(v, v.log[i]);
      }
    }
  }

  lemma CountingSizes(v: View)
    requires TimersExact(v)
    ensures |v.la| == |v.lp| == |v.lw| == |v.rp| == |v.ras| == |v.rc| == |v.wr| == BANKS
  {}

  // ---------- one command ----------

  lemma FencedMore(log: seq<Command>, c: Command)
    requires Fenced(log) && forall i :: 0 <= i < |log| ==> Spaced(log[i], c)
    ensures Fenced(log + [c])
  {}

  lemma DisciplinedMore(log: seq<Command>, c: Command)
    requires Disciplined(log) && Fitting(log, c)
    ensures Disciplined(log + [c])
  {
    assert (log + [c])[..|log|] == log;
  }

  lemma RowMore(log: seq<Command>, c: Command, b: Bank)
    ensures RowAfter(log + [c], b)
      == if c.Act? && c.bank == b then c.row else if c.Pre? && c.bank == b then -1 else RowAfter(log, b)
  {
    assert (log + [c])[..|log|] == log;
  }

  /** A command may be issued now, by the recorded cycles. */
  predicate Ready(v: View, c: Command)
    requires |v.la| == |v.lp| == |v.lw| == BANKS
  {
    && c.at == v.cyc && v.cyc - v.lref >= T_RFC && v.lr <= v.cyc
    && (forall b: Bank :: v.la[b] <= v.laa <= v.cyc && v.lp[b] <= v.cyc && v.lw[b] <= v.cyc)
    && match c
       case Act(_, b, _) => v.cyc - v.lp[b] >= T_RP && v.cyc - v.la[b] >= T_RC && v.cyc - v.laa >= T_RRD
       case Pre(_, b) => v.cyc - v.la[b] >= T_RAS && v.cyc - v.lw[b] >= T_WR
       case Write(_, b, _, _) => v.cyc - v.la[b] >= T_RCD - 1 + CWL - 1 && v.cyc - v.lr >= T_WTR + CWL - 1
       case Read(_, b, _, _) => v.cyc - v.la[b] >= T_RCD - 1 + CL - 1
       case Ref(_) => forall b: Bank :: v.cyc - v.lp[b] >= T_RP
  }

  lemma ReadySpaced(v: View, c: Command, x: Command)
    requires |v.la| == |v.lp| == |v.lw| == BANKS && Ready(v, c) && NotAfter(v, x)
    ensures Spaced(x, c)
  {}

  /** The recorded cycles of the second view are not earlier. */
  ghost predicate Later(v: View, w: View) {
    && |v.la| == |v.lp| == |v.lw| == |w.la| == |w.lp| == |w.lw| == BANKS
    && (forall b: Bank :: v.la[b] <= w.la[b] && v.lp[b] <= w.lp[b] && v.lw[b] <= w.lw[b]) && v.lr <= w.lr
    && v.lref <= w.lref
  }

  /** Issuing a command that is ready and fits keeps the log legal. */
  lemma IssueSound(v: View, w: View, c: Command)
    requires Sound(v) && TimersExact(w) && w.log == v.log + [c] && Later(v, w) && NotAfter(w, c)
    requires |v.la| == |v.lp| == |v.lw| == BANKS && Ready(v, c) && Fitting(v.log, c) && RowsKnown(w)
    ensures Sound(w)
  {
    hide TimersExact, RowsKnown, RowAfter, Fitting, Ready, Spaced;
    forall i | 0 <= i < |v.log|
      ensures Spaced(v.log[i], c)
    {
      ReadySpaced(v, c, v.log[i]);
    }
    FencedMore(v.log, c);
    DisciplinedMore(v.log, c);
    forall i | 0 <= i < |w.log|
      ensures NotAfter(w, w.log[i])
    {
      if i < |v.log| {
        assert NotAfter(v, v.log[i]);
      }
    }
  }

  function Activated(v: View, b: Bank, row: int): View
    requires |v.open| == |v.row| == |v.ras| == |v.rc| == |v.la| == BANKS
  {
    v.(open := v.open[b := true], row := v.row[b := row], ras := v.ras[b := T_RAS], rc := v.rc[b := T_RC], rrd := T_RRD,
       la := v.la[b := v.cyc], laa := v.cyc, log := v.log + [Act(v.cyc, b, row)])
  }

  lemma RowsAfter(v: View, w: View, c: Command)
    requires RowsKnown(v) && w.log == v.log + [c] && |w.open| == |w.row| == BANKS
    requires forall b: Bank ::
      w.open[b] == if c.Act? && c.bank == b then true else if c.Pre? && c.bank == b then false else v.open[b]
    requires forall b: Bank :: w.row[b] == if c.Act? && c.bank == b then c.row else v.row[b]
    requires c.Act? ==> c.row >= 0
    ensures RowsKnown(w)
  {
    hide RowAfter;
    forall b: Bank
      ensures RowAfter(w.log, b) == if w.open[b] then w.row[b] else -1
    {
      RowMore(v.log, c, b);
    }
  }

  lemma ActSound(v: View, b: Bank, row: int)
    requires Sound(v) && row >= 0 && !v.open[b] && v.rp[b] == 0 && v.rc[b] == 0 && v.rrd == 0 && v.rfc == 0
    ensures |v.ras| == |v.rc| == |v.la| == |v.lp| == BANKS && Sound(Activated(v, b, row))
    ensures v.cyc - v.lp[b] >= T_RP && v.cyc - v.la[b] >= T_RC && v.cyc - v.laa >= T_RRD
  {
    hide RowAfter, Disciplined, CountsRefresh, Fenced, Recorded;
    var c, w := Act(v.cyc, b, row), Activated(v, b, row);
    CountingRestart(v.ras, T_RAS, v.la, v.cyc, b);
    CountingRestart(v.rc, T_RC, v.la, v.cyc, b);
    RowsAfter(v, w, c);
    IssueSound(v, w, c);
  }

  function Precharged(v: View, b: Bank): View
    requires |v.open| == |v.rp| == |v.lp| == BANKS
  {
    v.(open := v.open[b := false], rp := v.rp[b := T_RP], lp := v.lp[b := v.cyc], log := v.log + [Pre(v.cyc, b)])
  }

  lemma PreSound(v: View, b: Bank)
    requires Sound(v) && v.open[b] && v.ras[b] == 0 && v.wr[b] == 0 && v.rfc == 0
    ensures |v.rp| == |v.lp| == |v.la| == |v.lw| == BANKS && Sound(Precharged(v, b))
    ensures v.cyc - v.la[b] >= T_RAS && v.cyc - v.lw[b] >= T_WR
  {
    hide RowAfter, Disciplined, CountsRefresh, Fenced, Recorded;
    var c, w := Pre(v.cyc, b), Precharged(v, b);
    CountingRestart(v.rp, T_RP, v.lp, v.cyc, b);
    RowsAfter(v, w, c);
    IssueSound(v, w, c);
  }

  function Written(v: View, b: Bank, row: int, line: int): View
    requires |v.wr| == |v.lw| == BANKS
  {
    v.(wr := v.wr[b := T_WR], lw := v.lw[b := v.cyc], log := v.log + [Write(v.cyc, b, row, line)])
  }

  lemma WriteSound(v: View, b: Bank, row: int, line: int)
    requires Sound(v) && v.open[b] && v.row[b] == row && v.rfc == 0
    requires |v.la| == BANKS && v.cyc - v.la[b] >= T_RCD - 1 + CWL - 1 && v.cyc - v.lr >= T_WTR + CWL - 1
    ensures |v.wr| == |v.lw| == BANKS && Sound(Written(v, b, row, line))
  {
    hide RowAfter, Disciplined, CountsRefresh, Fenced, Recorded;
    var c, w := Write(v.cyc, b, row, line), Written(v, b, row, line);
    CountingRestart(v.wr, T_WR, v.lw, v.cyc, b);
    RowsAfter(v, w, c);
    IssueSound(v, w, c);
  }

  function ReadOut(v: View, b: Bank, row: int, line: int): View {
    v.(wtr := T_WTR, lr := v.cyc, log := v.log + [Read(v.cyc, b, row, line)])
  }

  lemma ReadSound(v: View, b: Bank, row: int, line: int)
    requires Sound(v) && v.open[b] && v.row[b] == row && v.rfc == 0
    requires |v.la| == BANKS && v.cyc - v.la[b] >= T_RCD - 1 + CL - 1
    ensures Sound(ReadOut(v, b, row, line))
  {
    hide RowAfter, Disciplined, CountsRefresh, Fenced, Recorded;
    var c, w := Read(v.cyc, b, row, line), ReadOut(v, b, row, line);
    RowsAfter(v, w, c);
    IssueSound(v, w, c);
  }

  function Refreshed(v: View): View {
    v.(rfc := T_RFC, lref := v.cyc, log := v.log + [Ref(v.cyc)])
  }

  lemma RefSound(v: View)
    requires Sound(v) && !AnyLeft(v.rp) && v.rfc == 0 && forall b: Bank :: !v.open[b]
    ensures Sound(Refreshed(v)) && v.cyc - v.lref >= T_RFC
  {
    hide RowAfter, Disciplined, CountsRefresh, Fenced, Recorded;
    var c, w := Ref(v.cyc), Refreshed(v);
    RowsAfter(v, w, c);
    forall b: Bank
      ensures v.cyc - v.lp[b] >= T_RP
    {
      assert v.rp[b] == 0;
    }
    IssueSound(v, w, c);
  }

  // ---------- the engine ----------

  /** What a transaction adds to the log: a hit needs no activation, and a conflict a precharge before it. */
  predicate Serves(hit: bool, conflict: bool, added: seq<Command>, we: bool, b: Bank, row: int, line: int) {
    && |added| == (if hit then 1 else if conflict then 3 else 2)
    && (var last := added[|added| - 1];
        if we then last.Write? && last.bank == b && last.row == row && last.line == line
        else last.Read? && last.bank == b && last.row == row && last.line == line)
    && (!hit ==> var a := added[|added| - 2]; a.Act? && a.bank == b && a.row == row)
    && (!hit && conflict ==> added[0].Pre? && added[0].bank == b)
  }

  /** From the start of an access to the end of its burst. */
  function Burst(we: bool): nat {
    if we then CWL - 1 else CL - 1
  }

  /** How long after the activation of its row an access starts: at least T_RCD for a hit, and one cycle less for a
      miss. So an access keeps T_RCD exactly when it is a hit. */
  predicate StartsAfter(hit: bool, gap: int) {
    if hit then gap >= T_RCD else gap == T_RCD - 1
  }

  /** The commands before the access itself. */
  predicate Opens(hit: bool, conflict: bool, added: seq<Command>, b: Bank, row: int) {
    && |added| == (if hit then 0 else if conflict then 2 else 1)
    && (!hit ==> var a := added[|added| - 1]; a.Act? && a.bank == b && a.row == row)
    && (!hit && conflict ==> added[0].Pre? && added[0].bank == b)
  }

  lemma OpensServes(hit: bool, conflict: bool, added: seq<Command>, last: Command, we: bool, b: Bank, row: int,
                    line: int)
    requires Opens(hit, conflict, added, b, row)
    requires if we then last.Write? && last.bank == b && last.row == row && last.line == line
             else last.Read? && last.bank == b && last.row == row && last.line == line
    ensures Serves(hit, conflict, added + [last], we, b, row, line)
  {}

  class Eng {
    var cyc: nat
    var open: seq<bool>
    var row: seq<int>
    var rp: seq<nat>
    var ras: seq<nat>
    var rc: seq<nat>
    var wr: seq<nat>
    var rrd: nat
    var wtr: nat
    var rfc: nat
    var refi: nat
    var refPend: bool
    var mem: set<(Bank, int, int)>
    var err: nat
    var refCount: nat
    var la: seq<int>
    var lp: seq<int>
    var laa: int
    var lref: int
    var lprea: int
    ghost var lw: seq<int>
    ghost var lr: int
    ghost var log: seq<Command>

    ghost function V(): View
      reads this
    {
      View(cyc, open, row, rp, ras, rc, wr, rrd, wtr, rfc, refi, la, lp, lw, laa, lr, lref, log)
    }

    ghost predicate Inv()
      reads this
    {
      Sound(V()) && err == 0 && lprea == NEVER
    }

    /** Between calls no refresh is under way and every open row has been open for T_RCD. */
    ghost predicate Valid()
      reads this
    {
      Inv() && rfc == 0 && |open| == |la| == BANKS && forall b: Bank :: open[b] ==> cyc - la[b] >= T_RCD
    }

    constructor ()
      ensures Valid() && log == [] && cyc == 0
    {
      cyc := 0;
      open, row := [false, false, false, false], [0, 0, 0, 0];
      rp, ras, rc, wr := [0, 0, 0, 0], [0, 0, 0, 0], [0, 0, 0, 0], [0, 0, 0, 0];
      rrd, wtr, rfc := 0, 0, 0;
      refi, refPend := T_REFI, false;
      mem, err, refCount := {}, 0, 0;
      la, lp := [NEVER, NEVER, NEVER, NEVER], [NEVER, NEVER, NEVER, NEVER];
      laa, lref, lprea := NEVER, NEVER, NEVER;
      lw, lr, log := [NEVER, NEVER, NEVER, NEVER], NEVER, [];
    }

    method Tick()
      requires Inv()
      modifies `cyc, `rp, `ras, `rc, `wr, `rrd, `wtr, `rfc, `refi, `refPend
      ensures Inv() && V() == Ticked(old(V()))
      ensures refPend == (old(refPend) || Due(cyc))
    {
      hide Sound, AllDown, Down, Due;
      TickSound(V());
      TickTimers();
      TickRefresh();
    }

    method TickTimers()
      modifies `rp, `ras, `rc, `wr, `rrd, `wtr, `rfc
      ensures rp == AllDown(old(rp)) && ras == AllDown(old(ras)) && rc == AllDown(old(rc)) && wr == AllDown(old(wr))
      ensures rrd == Down(old(rrd)) && wtr == Down(old(wtr)) && rfc == Down(old(rfc))
    {
      hide AllDown, Down;
      rp := AllDown(rp);
      ras := AllDown(ras);
      rc := AllDown(rc);
      wr := AllDown(wr);
      rrd, wtr, rfc := Down(rrd), Down(wtr), Down(rfc);
    }

    method TickRefresh()
      modifies `refi, `refPend, `cyc
      ensures refi == (if old(refi) > 0 then old(refi) - 1 else T_REFI) && refPend == (old(refPend) || old(refi) == 0)
      ensures cyc == old(cyc) + 1
    {
      if refi > 0 {
        refi := refi - 1;
      } else {
        refi := T_REFI;
        refPend := true;
      }
      cyc := cyc + 1;
    }

    method Chk(c: bool)
      modifies `err
      ensures err == if c then old(err) else old(err) + 1
    {
      if !c {
        err := err + 1;
      }
    }

    method IssueAct(b: Bank, r: int)
      requires Inv() && r >= 0 && |open| == |rp| == |rc| == |la| == |lp| == BANKS
      requires !open[b] && rp[b] == 0 && rc[b] == 0 && rrd == 0 && rfc == 0
      modifies `open, `row, `ras, `rc, `rrd, `la, `laa, `log, `err
      ensures |old(row)| == |old(ras)| == BANKS && Inv() && V() == Activated(old(V()), b, r)
    {
      hide Sound;
      ViewSizes(V());
      ActSound(V(), b, r);
      Chk(cyc - lp[b] >= T_RP);
      Chk(cyc - la[b] >= T_RC);
      Chk(cyc - laa >= T_RRD);
      RecordAct(b, r);
    }

    method RecordAct(b: Bank, r: int)
      requires |open| == |row| == |ras| == |rc| == |la| == BANKS
      modifies `open, `row, `ras, `rc, `rrd, `la, `laa, `log
      ensures open == old(open)[b := true] && row == old(row)[b := r] && ras == old(ras)[b := T_RAS]
      ensures rc == old(rc)[b := T_RC]
      ensures rrd == T_RRD && la == old(la)[b := cyc] && laa == cyc && log == old(log) + [Act(cyc, b, r)]
    {
      open, row := open[b := true], row[b := r];
      ras, rc, rrd := ras[b := T_RAS], rc[b := T_RC], T_RRD;
      la, laa := la[b := cyc], cyc;
      log := log + [Act(cyc, b, r)];
    }

    method IssuePre(b: Bank)
      requires Inv() && |open| == |ras| == |wr| == |la| == BANKS && open[b] && ras[b] == 0 && wr[b] == 0 && rfc == 0
      modifies `open, `rp, `lp, `log, `err
      ensures |old(rp)| == |old(lp)| == BANKS && Inv() && V() == Precharged(old(V()), b)
    {
      hide Sound;
      ViewSizes(V());
      PreSound(V(), b);
      Chk(cyc - la[b] >= T_RAS);
      open, rp, lp := open[b := false], rp[b := T_RP], lp[b := cyc];
      log := log + [Pre(cyc, b)];
    }

    /** range(n) ticks. */
    method Ticks(n: nat)
      requires Inv() && rfc == 0
      modifies `cyc, `rp, `ras, `rc, `wr, `rrd, `wtr, `rfc, `refi, `refPend
      ensures Inv() && rfc == 0 && cyc == old(cyc) + n
    {
      hide Sound;
      for i := 0 to n
        invariant Inv() && rfc == 0 && cyc == old(cyc) + i
      {
        Tick();
      }
    }

    /** Before a hit: the write recovery of the bank and, for a write, the turnaround from the last read. */
    method WaitHit(we: bool, b: Bank)
      requires Inv() && rfc == 0 && |wr| == BANKS
      modifies `cyc, `rp, `ras, `rc, `wr, `rrd, `wtr, `rfc, `refi, `refPend
      ensures Inv() && rfc == 0 && |wr| == BANKS && wr[b] == 0 && (we ==> wtr == 0) && cyc >= old(cyc)
    {
      hide Sound;
      while wr[b] > 0 || (we && wtr > 0)
        invariant Inv() && rfc == 0 && |wr| == BANKS && cyc >= old(cyc)
        decreases wr[b] + wtr
      {
        Tick();
      }
    }

    method WaitPre(b: Bank)
      requires Inv() && rfc == 0 && |wr| == |ras| == BANKS
      modifies `cyc, `rp, `ras, `rc, `wr, `rrd, `wtr, `rfc, `refi, `refPend
      ensures Inv() && rfc == 0 && |wr| == |ras| == BANKS && ras[b] == 0 && wr[b] == 0 && cyc >= old(cyc)
    {
      hide Sound;
      while ras[b] > 0 || wr[b] > 0
        invariant Inv() && rfc == 0 && |wr| == |ras| == BANKS && cyc >= old(cyc)
        decreases ras[b] + wr[b]
      {
        Tick();
      }
    }

    method WaitAct(b: Bank)
      requires Inv() && rfc == 0 && |rp| == |rc| == BANKS
      modifies `cyc, `rp, `ras, `rc, `wr, `rrd, `wtr, `rfc, `refi, `refPend
      ensures Inv() && rfc == 0 && |rp| == |rc| == BANKS && rp[b] == 0 && rc[b] == 0 && rrd == 0 && cyc >= old(cyc)
    {
      hide Sound;
      while rp[b] > 0 || rc[b] > 0 || rrd > 0
        invariant Inv() && rfc == 0 && |rp| == |rc| == BANKS && cyc >= old(cyc)
        decreases rp[b] + rc[b] + rrd
      {
        Tick();
      }
    }

    /** Closing the row of a bank. */
    method CloseRow(b: Bank)
      requires Inv() && rfc == 0 && |open| == |lp| == BANKS && open[b]
      modifies `cyc, `open, `rp, `ras, `rc, `wr, `rrd, `wtr, `rfc, `refi, `refPend, `lp, `log, `err
      ensures Inv() && rfc == 0 && open == old(open)[b := false] && cyc >= old(cyc)
      ensures |lp| == BANKS && log == old(log) + [Pre(lp[b], b)] && lp == old(lp)[b := lp[b]]
    {
      hide Sound;
      ViewSizes(V());
      WaitPre(b);
      ViewSizes(V());
      IssuePre(b);
    }

    /** Opening row r of a closed bank. */
    method OpenRow(b: Bank, r: int)
      requires Inv() && rfc == 0 && r >= 0 && |open| == |row| == |la| == BANKS && !open[b]
      modifies `cyc, `open, `row, `rp, `ras, `rc, `wr, `rrd, `wtr, `rfc, `refi, `refPend, `la, `laa, `log, `err
      ensures Inv() && rfc == 0 && open == old(open)[b := true] && row == old(row)[b := r]
      ensures |la| == BANKS && la == old(la)[b := la[b]] && la[b] >= old(cyc) && cyc == la[b] + T_RCD - 1
      ensures log == old(log) + [Act(la[b], b, r)]
    {
      hide Sound;
      ViewSizes(V());
      WaitAct(b);
      ViewSizes(V());
      IssueAct(b, r);
      Ticks(T_RCD - 1);
    }

    method Transact(we: bool, b: Bank, r: int, ln: int)
      requires Valid() && r >= 0
      modifies this
      ensures Valid() && old(log) <= log && |old(open)| == |old(row)| == BANKS
      ensures Serves(old(open[b] && row[b] == r), old(open[b]), log[|old(log)|..], we, b, r, ln)
      ensures mem == if we then old(mem) + {(b, r, ln)} else old(mem)
      ensures refCount == old(refCount) && lref == old(lref)
      ensures |la| == BANKS && StartsAfter(old(open[b] && row[b] == r), log[|log| - 1].at - Burst(we) - la[b])
      ensures !old(open[b] && row[b] == r) ==> log[|log| - 2] == Act(la[b], b, r)
    {
      hide Sound, Serves;
      ViewSizes(V());
      ghost var opening := Open(we, b, r);
      Access(we, b, r, ln);
      assert log[|old(log)|..] == opening + [log[|log| - 1]];
      OpensServes(old(open[b] && row[b] == r), old(open[b]), opening, log[|log| - 1], we, b, r, ln);
    }

    method Access(we: bool, b: Bank, r: int, ln: int)
      requires Inv() && rfc == 0 && |open| == |row| == |la| == BANKS && open[b] && row[b] == r
      requires cyc - la[b] >= T_RCD - 1 && (we ==> cyc - lr >= T_WTR)
      modifies `cyc, `rp, `ras, `rc, `wr, `rrd, `wtr, `rfc, `refi, `refPend, `mem, `lw, `lr, `log
      ensures Inv() && rfc == 0 && cyc == old(cyc) + Burst(we)
      ensures log == old(log) + [if we then Write(cyc, b, r, ln) else Read(cyc, b, r, ln)]
      ensures mem == if we then old(mem) + {(b, r, ln)} else old(mem)
    {
      hide Sound;
      if we {
        DoWrite(b, r, ln);
      } else {
        DoRead(b, r, ln);
      }
    }

    /** A hit waits; a miss opens the row. */
    method Open(we: bool, b: Bank, r: int) returns (ghost added: seq<Command>)
      requires Valid() && r >= 0 && |open| == |row| == |lp| == BANKS
      modifies `cyc, `open, `row, `rp, `ras, `rc, `wr, `rrd, `wtr, `rfc, `refi, `refPend, `la, `lp, `laa, `log, `err
      ensures Inv() && rfc == 0 && |open| == |row| == |la| == BANKS && open[b] && row[b] == r
      ensures cyc - la[b] >= T_RCD - 1
      ensures (we ==> cyc - lr >= T_WTR) && log == old(log) + added
      ensures Opens(old(open[b] && row[b] == r), old(open[b]), added, b, r)
      ensures forall c: Bank :: c != b && open[c] ==> cyc - la[c] >= T_RCD
      ensures StartsAfter(old(open[b] && row[b] == r), cyc - la[b])
      ensures !old(open[b] && row[b] == r) ==> added != [] && added[|added| - 1] == Act(la[b], b, r)
    {
      hide Sound;
      if open[b] && row[b] == r {
        Hit(we, b);
        added := [];
      } else {
        added := if open[b] then [Pre(0, b), Act(0, b, r)] else [Act(0, b, r)];
        Miss(b, r);
        added := if |added| == 2 then [Pre(lp[b], b), Act(la[b], b, r)] else [Act(la[b], b, r)];
      }
    }

    method Hit(we: bool, b: Bank)
      requires Valid() && open[b]
      modifies `cyc, `rp, `ras, `rc, `wr, `rrd, `wtr, `rfc, `refi, `refPend, `err
      ensures Inv() && rfc == 0 && cyc - la[b] >= T_RCD && (we ==> cyc - lr >= T_WTR) && cyc >= old(cyc)
    {
      hide Sound;
      ViewSizes(V());
      WaitHit(we, b);
      if we {
        ReadLongAgo(V());
      }
      Chk(cyc - la[b] >= T_RCD);
    }

    method Miss(b: Bank, r: int)
      requires Valid() && r >= 0 && |open| == |row| == |lp| == BANKS
      modifies `cyc, `open, `row, `rp, `ras, `rc, `wr, `rrd, `wtr, `rfc, `refi, `refPend, `la, `lp, `laa, `log, `err
      ensures Inv() && rfc == 0 && open == old(open)[b := true] && row == old(row)[b := r] && cyc - lr >= T_WTR
      ensures cyc >= old(cyc)
      ensures |la| == |lp| == BANKS && la == old(la)[b := la[b]] && cyc == la[b] + T_RCD - 1
      ensures log == old(log) + (if old(open[b]) then [Pre(lp[b], b)] else []) + [Act(la[b], b, r)]
    {
      hide Sound;
      ViewSizes(V());
      if open[b] {
        CloseRow(b);
      }
      OpenRow(b, r);
    }

    method DoWrite(b: Bank, r: int, ln: int)
      requires Inv() && rfc == 0 && |open| == |row| == |la| == BANKS && open[b] && row[b] == r
      requires cyc - la[b] >= T_RCD - 1 && cyc - lr >= T_WTR
      modifies `cyc, `rp, `ras, `rc, `wr, `rrd, `wtr, `rfc, `refi, `refPend, `mem, `lw, `log
      ensures Inv() && rfc == 0 && cyc == old(cyc) + CWL - 1
      ensures mem == old(mem) + {(b, r, ln)} && log == old(log) + [Write(cyc, b, r, ln)]
    {
      hide Sound;
      Ticks(CWL - 1);
      ViewSizes(V());
      WriteSound(V(), b, r, ln);
      RecordWrite(b, r, ln);
    }

    method RecordWrite(b: Bank, r: int, ln: int)
      requires |wr| == |lw| == BANKS
      modifies `wr, `lw, `log, `mem
      ensures V() == Written(old(V()), b, r, ln) && mem == old(mem) + {(b, r, ln)}
    {
      mem := mem + {(b, r, ln)};
      wr, lw := wr[b := T_WR], lw[b := cyc];
      log := log + [Write(cyc, b, r, ln)];
    }

    method DoRead(b: Bank, r: int, ln: int)
      requires Inv() && rfc == 0 && |open| == |row| == |la| == BANKS && open[b] && row[b] == r
      requires cyc - la[b] >= T_RCD - 1
      modifies `cyc, `rp, `ras, `rc, `wr, `rrd, `wtr, `rfc, `refi, `refPend, `lr, `log
      ensures Inv() && rfc == 0 && cyc == old(cyc) + CL - 1 && log == old(log) + [Read(cyc, b, r, ln)]
    {
      hide Sound;
      Ticks(CL - 1);
      ViewSizes(V());
      ReadSound(V(), b, r, ln);
      RecordRead(b, r, ln);
    }

    method RecordRead(b: Bank, r: int, ln: int)
      modifies `wtr, `lr, `log
      ensures wtr == T_WTR && lr == cyc && log == old(log) + [Read(cyc, b, r, ln)]
    {
      wtr, lr := T_WTR, cyc;
      log := log + [Read(cyc, b, r, ln)];
    }

    /** Closes every bank and refreshes, unless none is due or a bank is still busy. */
    method ServiceRefresh() returns (done: bool)
      requires Valid()
      modifies this
      ensures Valid() && done == old(refPend && !AnyLeft(wr) && !AnyLeft(ras))
      ensures !done ==> V() == old(V()) && refPend == old(refPend) && refCount == old(refCount)
      ensures done ==>
        !refPend && refCount == old(refCount) + 1 && log == old(log) + Closing(old(open), old(cyc), BANKS) + [Ref(lref)]
      ensures done ==> cyc == lref + T_RFC && open == [false, false, false, false]
      ensures mem == old(mem)
    {
      hide Sound, Closing, AnyLeft;
      if !refPend { return false; }
      if AnyLeft(wr) || AnyLeft(ras) { return false; }
      Refresh();
      done := true;
    }

    method Refresh()
      requires Valid() && !AnyLeft(wr) && !AnyLeft(ras)
      modifies this
      ensures Valid() && !refPend && refCount == old(refCount) + 1 && mem == old(mem)
      ensures log == old(log) + Closing(old(open), old(cyc), BANKS) + [Ref(lref)]
      ensures cyc == lref + T_RFC && open == [false, false, false, false]
    {
      hide Sound, Closing, AnyLeft;
      ViewSizes(V());
      CloseAll();
      WaitAll();
      IssueRef();
      WaitRefresh();
      refPend := false;
      ViewSizes(V());
    }

    method IssueRef()
      requires Inv() && !AnyLeft(rp) && rfc == 0 && open == [false, false, false, false]
      modifies `rfc, `lref, `refCount, `log, `err
      ensures Inv() && V() == Refreshed(old(V())) && refCount == old(refCount) + 1
    {
      hide Sound, AnyLeft;
      RefSound(V());
      Chk(cyc - lref >= T_RFC);
      Chk(cyc - lprea >= T_RP);
      rfc, lref, refCount := T_RFC, cyc, refCount + 1;
      log := log + [Ref(cyc)];
    }

    method CloseAll()
      requires Valid() && !AnyLeft(wr) && !AnyLeft(ras)
      modifies `open, `rp, `lp, `log, `err
      ensures Inv() && open == [false, false, false, false] && log == old(log) + Closing(old(open), cyc, BANKS)
    {
      hide Sound, Closing;
      ViewSizes(V());
      NothingToClose(open, cyc);
      for b := 0 to BANKS
        invariant Inv() && |open| == |old(open)| == BANKS
        invariant forall i :: 0 <= i < BANKS ==> open[i] == if i < b then false else old(open[i])
        invariant log == old(log) + Closing(old(open), cyc, b)
      {
        ViewSizes(V());
        CloseNext(old(open), cyc, b);
        if open[b] {
          IssuePre(b);
        }
      }
    }

    method WaitAll()
      requires Inv() && rfc == 0
      modifies `cyc, `rp, `ras, `rc, `wr, `rrd, `wtr, `rfc, `refi, `refPend
      ensures Inv() && rfc == 0 && !AnyLeft(rp)
    {
      hide Sound;
      ghost var start := cyc;
      StartsBefore(V());
      while AnyLeft(rp)
        invariant Inv() && rfc == 0 && cyc >= start && |lp| == BANKS && forall b: Bank :: lp[b] <= start
        decreases start + T_RP - cyc
      {
        LeftBefore(V(), start);
        Tick();
      }
    }

    method WaitRefresh()
      requires Inv() && rfc == T_RFC && lref == cyc
      modifies `cyc, `rp, `ras, `rc, `wr, `rrd, `wtr, `rfc, `refi, `refPend
      ensures Inv() && rfc == 0 && cyc == lref + T_RFC
    {
      hide Sound;
      while rfc > 0
        invariant Inv() && rfc + cyc == lref + T_RFC
      {
        Tick();
      }
    }
  }

  /** What the callers of the engine do with it. */
  datatype Call = Transaction(we: bool, bank: Bank, row: nat, line: int) | Refresh

  /** Every run of calls leaves no error, exact timers, and a log within the fences and the bank protocol. */
  method Drive(calls: seq<Call>) returns (e: Eng)
    ensures e.Valid() && fresh(e) && e.err == 0 && Fenced(e.log) && Disciplined(e.log) && TimersExact(e.V())
  {
    hide TimersExact, Fenced, Disciplined, Recorded, RowsKnown;
    e := new Eng();
    for i := 0 to |calls|
      invariant e.Valid() && fresh(e)
    {
      match calls[i] {
        case Transaction(we, b, r, ln) => e.Transact(we, b, r, ln);
        case Refresh => var done := e.ServiceRefresh();
      }
    }
  }

  /** The first write of a new engine starts T_RCD - 1 after its activation. */
  method FirstMiss() returns (e: Eng)
    ensures e.Valid() && fresh(e) && |e.log| == 2 && e.log[0].Act? && e.log[1].Write?
    ensures e.log[1].at - Burst(true) - e.log[0].at == T_RCD - 1
  {
    e := new Eng();
    e.Transact(true, 0, 0, 0);
  }

  /** The precharges of the first n banks. */
  function Closing(open: seq<bool>, at: int, n: nat): seq<Command>
    requires n <= |open| == BANKS
  {
    if n == 0 then [] else Closing(open, at, n - 1) + if open[n - 1] then [Pre(at, n - 1)] else []
  }

  lemma NothingToClose(open: seq<bool>, at: int)
    requires |open| == BANKS
    ensures Closing(open, at, 0) == []
  {}

  lemma CloseNext(open: seq<bool>, at: int, n: nat)
    requires n < |open| == BANKS
    ensures Closing(open, at, n + 1) == Closing(open, at, n) + if open[n] then [Pre(at, n)] else []
  {}

  lemma ReadLongAgo(v: View)
    requires Sound(v) && v.wtr == 0
    ensures v.cyc - v.lr >= T_WTR
  {
    hide RowAfter, Disciplined, Fenced, Recorded;
  }

  lemma StartsBefore(v: View)
    requires Sound(v)
    ensures |v.lp| == BANKS && forall b: Bank :: v.lp[b] <= v.cyc
  {
    hide RowAfter, Disciplined, Fenced, Recorded;
  }

  lemma LeftBefore(v: View, start: int)
    requires Sound(v) && AnyLeft(v.rp) && |v.lp| == BANKS && forall b: Bank :: v.lp[b] <= start
    ensures v.cyc < start + T_RP
  {
    hide RowAfter, Disciplined, Fenced, Recorded;
    var b: nat :| b < |v.rp| && v.rp[b] > 0;
    assert b < BANKS;
  }

  lemma ViewSizes(v: View)
    requires Sound(v)
    ensures |v.open| == |v.row| == |v.rp| == |v.ras| == |v.rc| == |v.wr| == |v.la| == |v.lp| == |v.lw| == BANKS
    ensures v.laa <= v.cyc && v.lr <= v.cyc && v.lref <= v.cyc
  {
    hide RowAfter, Disciplined, Fenced, Recorded;
  }
}
