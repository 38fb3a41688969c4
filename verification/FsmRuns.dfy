/** What a clocked block does in a clock cycle, and that the arcs extracted from it over-approximate its runs. */
module FsmRuns {
  import opened Arithmetic
  import opened Options
  import opened FsmExtract

  // ---------- what a block does ----------

  type Env = map<Sym, int>

  /** The value of an operator or expression that the extractor does not look into. */
  type Meaning = (string, Env, seq<int>) -> int

  /** Current values, and the values that nonblocking assignments have scheduled. */
  datatype Sim = Sim(env: Env, pending: Env)

  function Look(env: Env, s: Sym): int {
    if s in env then env[s] else 0
  }

  const LOGICAL_NOT := "UnaryOperator.LogicalNot"
  const BITWISE_NOT := "UnaryOperator.BitwiseNot"

  function Eval(e: Expr, env: Env, m: Meaning): int {
    match e
    case Constant(value) => if value.Some? then value.value else m("x", env, [])
    case Var(s) => Look(env, s)
    case Conversion(width, operand) => Eval(operand, env, m) % Pow2(width)
    case Unary(op, operand) =>
      var v := Eval(operand, env, m);
      if op == LOGICAL_NOT then (if v == 0 then 1 else 0) else m(op, env, [v])
    case Binary(op, left, right) =>
      var v, w := Eval(left, env, m), Eval(right, env, m);
      if IsEquality(op) then (if v == w then 1 else 0) else m(op, env, [v, w])
    case Conditional(test, left, right) => if Eval(test, env, m) != 0 then Eval(left, env, m) else Eval(right, env, m)
    case Other(name, _) => m(name, env, [])
  }

  /** ~ of a one-bit signal. */
  ghost predicate OneBitNot(m: Meaning) {
    forall env :: m(BITWISE_NOT, env, [1]) == 0
  }

  /** The variables that an assignment to this left side changes. */
  function Written(left: Expr): set<Sym> {
    var l := Strip(left);
    match l
    case Var(s) => {s}
    case Other(_, bases) => bases
    case _ => {}
  }

  function NewValues(left: Expr, v: int, env: Env, m: Meaning): Env {
    map s | s in Written(left) :: if Named(left).Some? then v else m(s, env, [v])
  }

  function RunAssign(left: Expr, right: Expr, nonblocking: bool, sim: Sim, m: Meaning): Sim {
    var values := NewValues(left, Eval(right, sim.env, m), sim.env, m);
    if nonblocking then sim.(pending := sim.pending + values) else sim.(env := sim.env + values)
  }

  /** None when a loop does not end within n steps. */
  function Run(st: Stmt, sim: Sim, m: Meaning, n: nat): Option<Sim>
    decreases n, st
  {
    match st
    case List(stmts) => RunList(stmts, sim, m, n)
    case Block(body) => Run(body, sim, m, n)
    case If(cond, ifTrue, ifFalse) =>
      if Eval(cond, sim.env, m) != 0 then Run(ifTrue, sim, m, n)
      else if ifFalse.Some? then Run(ifFalse.value, sim, m, n)
      else Some(sim)
    case Case(expr, items, defaultCase) =>
      var v := Eval(expr, sim.env, m);
      if Matches(items, v, sim.env, m) then RunItems(items, v, sim, m, n)
      else if defaultCase.Some? then Run(defaultCase.value, sim, m, n)
      else Some(sim)
    case Assign(left, right, nonblocking) => Some(RunAssign(left, right, nonblocking, sim, m))
    case Loop(cond, body, step) =>
      if Eval(cond, sim.env, m) == 0 then Some(sim)
      else if n == 0 then None
      else
        var s1 := Run(body, sim, m, n - 1);
        var s2 := if s1.Some? then Run(step, s1.value, m, n - 1) else None;
        if s2.Some? then Run(st, s2.value, m, n - 1) else None
    case Nothing => Some(sim)
  }

  function RunList(stmts: Stmts, sim: Sim, m: Meaning, n: nat): Option<Sim>
    decreases n, stmts
  {
    match stmts
    case End => Some(sim)
    case More(head, tail) =>
      var s1 := Run(head, sim, m, n);
      if s1.Some? then RunList(tail, s1.value, m, n) else None
  }

  predicate LabelMatches(labels: seq<Expr>, v: int, env: Env, m: Meaning) {
    exists i :: 0 <= i < |labels| && Eval(labels[i], env, m) == v
  }

  predicate Matches(items: Items, v: int, env: Env, m: Meaning) {
    items.Item? && (LabelMatches(items.labels, v, env, m) || Matches(items.rest, v, env, m))
  }

  /** The first item with a label of this value. */
  function RunItems(items: Items, v: int, sim: Sim, m: Meaning, n: nat): Option<Sim>
    requires Matches(items, v, sim.env, m)
    decreases n, items
  {
    if LabelMatches(items.labels, v, sim.env, m) then Run(items.stmt, sim, m, n) else RunItems(items.rest, v, sim, m, n)
  }

  // ---------- the blocks that the extractor is meant for ----------

  /** The state variables with their enumerators and widths, and the resets, some of them active low. */
  datatype Config = Config(fsm: States, widths: map<Sym, nat>, resets: set<Sym>, low: set<Sym>) {
    predicate Valid() {
      widths.Keys == fsm.Keys && fsm.Keys !! resets
    }

    /** No reset is active. */
    predicate Released(env: Env) {
      forall r :: r in resets ==> Look(env, r) == if r in low then 1 else 0
    }

    /** Every state variable holds one of its enumerators, and these fit in its width. */
    predicate InStates(env: Env)
      requires Valid()
    {
      forall s :: s in fsm ==> Look(env, s) in fsm[s] && 0 <= Look(env, s) < Pow2(widths[s])
    }

    /** An expression of which the extractor looks at the value keeps that value in a conversion to w bits. */
    predicate Fits(e: Expr, w: nat)
      requires Valid()
    {
      match e
      case Constant(value) => value.Some? ==> 0 <= value.value < Pow2(w)
      case Var(s) => if s in fsm then widths[s] <= w else w >= 1
      case Conversion(_, operand) => Fits(operand, w)
      case Unary(_, _) => w >= 1
      case Binary(_, _, _) => w >= 1
      case Conditional(_, left, right) => Fits(left, w) && Fits(right, w)
      case Other(_, _) => true
    }

    predicate Keeps(e: Expr)
      requires Valid()
    {
      match e
      case Conversion(w, operand) => Fits(operand, w) && Keeps(operand)
      case Unary(_, operand) => Keeps(operand)
      case Binary(_, left, right) => Keeps(left) && Keeps(right)
      case Conditional(_, left, right) => Keeps(left) && Keeps(right)
      case _ => true
    }

    /** A reset test that is true only while the reset is active. */
    predicate AtActiveLevel(cond: Expr)
      requires IsResetCond(cond, resets)
    {
      var r := Strip(cond);
      if r.Unary? then r.op in {LOGICAL_NOT, BITWISE_NOT} && Named(r.operand).value in low
      else if r.Var? then r.sym !in low
      else Named(r.left).value in low
    }

    /** Neither a state variable nor a reset. */
    predicate Free(left: Expr) {
      Written(left) !! fsm.Keys && Written(left) !! resets
    }

    predicate Handled(st: Stmt)
      requires Valid()
    {
      match st
      case List(stmts) => HandledList(stmts)
      case Block(body) => Handled(body)
      case If(cond, ifTrue, ifFalse) =>
        && (IsResetCond(cond, resets) ==> Keeps(cond) && AtActiveLevel(cond))
        && (Compared(cond, fsm).Some? ==> Keeps(cond))
        && Handled(ifTrue) && (ifFalse.Some? ==> Handled(ifFalse.value))
      case Case(expr, items, defaultCase) =>
        && (IsNamedIn(expr, fsm.Keys) ==> Keeps(expr) && ConstantLabels(items))
        && HandledItems(items) && (defaultCase.Some? ==> Handled(defaultCase.value))
      case Assign(left, right, nonblocking) => Free(left) || (IsNamedIn(left, fsm.Keys) && nonblocking && Keeps(right))
      case Loop(_, body, step) => Handled(body) && (step.Nothing? || (step.Assign? && Free(step.left)))
      case Nothing => true
    }

    predicate HandledList(stmts: Stmts)
      requires Valid()
    {
      stmts.More? ==> Handled(stmts.head) && HandledList(stmts.tail)
    }

    predicate HandledItems(items: Items)
      requires Valid()
    {
      items.Item? ==> Handled(items.stmt) && HandledItems(items.rest)
    }

    predicate ConstantLabels(items: Items)
      requires Valid()
    {
      items.Item? ==> (forall i :: 0 <= i < |items.labels| ==>
                         ConstVal(items.labels[i]).Some? && Keeps(items.labels[i])) && ConstantLabels(items.rest)
    }
  }

  // ---------- the values of what the extractor looks at ----------

  ghost predicate Quiet(cfg: Config, env: Env, m: Meaning) {
    cfg.Valid() && cfg.InStates(env) && cfg.Released(env) && OneBitNot(m)
  }

  /** The expressions whose value a conversion may have to keep. */
  predicate Clear(cfg: Config, e: Expr)
    requires cfg.Valid()
  {
    match e
    case Constant(value) => value.Some?
    case Var(s) => s in cfg.fsm || s in cfg.resets
    case Conversion(_, operand) => Clear(cfg, operand)
    case Unary(op, operand) =>
      op == LOGICAL_NOT || (op == BITWISE_NOT && IsNamedIn(operand, cfg.low) && IsNamedIn(operand, cfg.resets))
    case Binary(op, _, _) => IsEquality(op)
    case Conditional(_, left, right) =>
      ConstVal(left).Some? && ConstVal(right).Some? && Clear(cfg, left) && Clear(cfg, right)
    case Other(_, _) => false
  }

  lemma {:induction false} FitsValue(cfg: Config, e: Expr, w: nat, env: Env, m: Meaning)
    requires Quiet(cfg, env, m) && cfg.Keeps(e) && cfg.Fits(e, w) && Clear(cfg, e)
    ensures 0 <= Eval(e, env, m) < Pow2(w)
    decreases e
  {
    PowMono(0, w);
    match e
    case Constant(_) =>
    case Var(s) =>
      if s in cfg.fsm {
        PowMono(cfg.widths[s], w);
      } else {
        PowMono(1, w);
        assert Pow2(1) == 2;
      }
    case Conversion(w', operand) =>
      FitsValue(cfg, operand, w', env, m);
      FitsValue(cfg, operand, w, env, m);
      Small(Eval(operand, env, m), Pow2(w'));
    case Unary(op, operand) =>
      PowMono(1, w);
      assert Pow2(1) == 2;
      if op != LOGICAL_NOT {
        StripValue(cfg, operand, env, m);
      }
    case Binary(_, _, _) =>
      PowMono(1, w);
      assert Pow2(1) == 2;
    case Conditional(_, left, right) =>
      FitsValue(cfg, left, w, env, m);
      FitsValue(cfg, right, w, env, m);
    case Other(_, _) =>
  }

  lemma Small(v: int, p: int)
    requires 0 <= v < p
    ensures v % p == v
  {}

  /** Taking conversions off does not change the value. */
  lemma {:induction false} StripValue(cfg: Config, e: Expr, env: Env, m: Meaning)
    requires Quiet(cfg, env, m) && cfg.Keeps(e) && (Clear(cfg, e) || Clear(cfg, Strip(e)))
    ensures Eval(Strip(e), env, m) == Eval(e, env, m) && cfg.Keeps(Strip(e)) && Clear(cfg, Strip(e)) && Clear(cfg, e)
    decreases e
  {
    if e.Conversion? {
      StripValue(cfg, e.operand, env, m);
      FitsValue(cfg, e.operand, e.width, env, m);
      Small(Eval(e.operand, env, m), Pow2(e.width));
    }
  }

  lemma ConstEval(cfg: Config, e: Expr, env: Env, m: Meaning)
    requires Quiet(cfg, env, m) && cfg.Keeps(e) && ConstVal(e).Some?
    ensures Eval(e, env, m) == ConstVal(e).value
  {
    StripValue(cfg, e, env, m);
  }

  lemma NamedEval(cfg: Config, e: Expr, env: Env, m: Meaning)
    requires Quiet(cfg, env, m) && cfg.Keeps(e) && (IsNamedIn(e, cfg.fsm.Keys) || IsNamedIn(e, cfg.resets))
    ensures Eval(e, env, m) == Look(env, Named(e).value)
  {
    StripValue(cfg, e, env, m);
  }

  /** A reset test at its active level is false while no reset is active. */
  lemma ResetTestFalse(cfg: Config, cond: Expr, env: Env, m: Meaning)
    requires Quiet(cfg, env, m) && IsResetCond(cond, cfg.resets) && cfg.Keeps(cond) && cfg.AtActiveLevel(cond)
    ensures Eval(cond, env, m) == 0
  {
    StripValue(cfg, cond, env, m);
    var r := Strip(cond);
    if r.Unary? {
      NamedEval(cfg, r.operand, env, m);
    } else if r.Binary? {
      NamedEval(cfg, r.left, env, m);
      ConstEval(cfg, r.right, env, m);
    }
  }

  lemma ComparedTrue(cfg: Config, cond: Expr, env: Env, m: Meaning)
    requires Quiet(cfg, env, m) && Compared(cond, cfg.fsm).Some? && cfg.Keeps(cond) && Eval(cond, env, m) != 0
    ensures Look(env, Compared(cond, cfg.fsm).value.0) == Compared(cond, cfg.fsm).value.1
  {
    StripValue(cfg, cond, env, m);
    var r := Strip(cond);
    NamedEval(cfg, r.left, env, m);
    ConstEval(cfg, r.right, env, m);
  }

  lemma MatchedLabel(cfg: Config, labels: seq<Expr>, v: int, env: Env, m: Meaning)
    requires Quiet(cfg, env, m)
    requires forall i :: 0 <= i < |labels| ==> ConstVal(labels[i]).Some? && cfg.Keeps(labels[i])
    ensures LabelMatches(labels, v, env, m) <==> v in LabelValues(labels)
  {
    forall i | 0 <= i < |labels|
      ensures Eval(labels[i], env, m) == ConstVal(labels[i]).value
    {
      ConstEval(cfg, labels[i], env, m);
    }
  }

  lemma {:induction false} MatchedItem(cfg: Config, items: Items, v: int, env: Env, m: Meaning)
    requires Quiet(cfg, env, m) && cfg.ConstantLabels(items)
    ensures Matches(items, v, env, m) <==> v in AllLabels(items)
    decreases items
  {
    if items.Item? {
      MatchedLabel(cfg, items.labels, v, env, m);
      MatchedItem(cfg, items.rest, v, env, m);
    }
  }

  // ---------- every scheduled value is reported ----------

  function Scheduled(sim: Sim, s: Sym): Option<int> {
    if s in sim.pending then Some(sim.pending[s]) else None
  }

  /** Running from before to after schedules nothing new for s, or something that the walk reports. */
  ghost predicate Explained(before: Sim, after: Sim, s: Sym, arcs: set<Arc>, flagged: bool) {
    flagged || Scheduled(after, s) == Scheduled(before, s) ||
    (s in after.pending && (Arc(Look(before.env, s), after.pending[s]) in arcs || FromAny(after.pending[s]) in arcs))
  }

  /** The state variables and the resets keep their values during a run. */
  ghost predicate SameState(cfg: Config, before: Sim, after: Sim) {
    forall s :: s in cfg.fsm || s in cfg.resets ==> Look(after.env, s) == Look(before.env, s)
  }

  ghost predicate Sound(cfg: Config, ctx: Context, env: Env) {
    ctx.Keys <= cfg.fsm.Keys && forall s :: s in ctx ==> Look(env, s) in ctx[s]
  }

  /** What a run of a statement is to satisfy. */
  ghost predicate Follows(cfg: Config, before: Sim, after: Sim, s: Sym, arcs: set<Arc>, flagged: bool) {
    SameState(cfg, before, after) && (s in cfg.fsm ==> Explained(before, after, s, arcs, flagged))
  }

  lemma Chained(cfg: Config, a: Sim, b: Sim, c: Sim, s: Sym, arcs: set<Arc>, arcs': set<Arc>, f: bool, f': bool)
    requires Follows(cfg, a, b, s, arcs, f) && Follows(cfg, b, c, s, arcs', f')
    ensures Follows(cfg, a, c, s, arcs + arcs', f || f')
  {}

  lemma Widened(cfg: Config, a: Sim, b: Sim, s: Sym, arcs: set<Arc>, more: set<Arc>, f: bool, f': bool)
    requires Follows(cfg, a, b, s, arcs, f) && arcs <= more && (f ==> f')
    ensures Follows(cfg, a, b, s, more, f')
  {}

  /** A value that the walk flags or reports. */
  lemma AssignedValue(cfg: Config, right: Expr, env: Env, m: Meaning, s: Sym, ctx: Context)
    requires Quiet(cfg, env, m) && cfg.Keeps(right) && Sound(cfg, ctx, env) && None !in Targets(right)
    ensures Arc(Look(env, s), Eval(right, env, m)) in AssignArcs(right, s, ctx)
      || FromAny(Eval(right, env, m)) in AssignArcs(right, s, ctx)
  {
    var r := Strip(right);
    if r.Conditional? {
      assert Targets(right)[0] == ConstVal(r.left) && Targets(right)[1] == ConstVal(r.right);
      KeepsStripped(cfg, right);
      StripConstant(cfg, r.left);
      StripConstant(cfg, r.right);
      StripValue(cfg, right, env, m);
      ConstEval(cfg, r.left, env, m);
      ConstEval(cfg, r.right, env, m);
    } else {
      assert Targets(right)[0] == ConstVal(r);
      ConstEval(cfg, right, env, m);
    }
  }

  lemma {:induction false} KeepsStripped(cfg: Config, e: Expr)
    requires cfg.Valid() && cfg.Keeps(e)
    ensures cfg.Keeps(Strip(e))
    decreases e
  {
    if e.Conversion? {
      KeepsStripped(cfg, e.operand);
    }
  }

  lemma {:induction false} StripConstant(cfg: Config, e: Expr)
    requires cfg.Valid() && ConstVal(e).Some?
    ensures Clear(cfg, e)
    decreases e
  {
    if e.Conversion? {
      StripConstant(cfg, e.operand);
    }
  }

  lemma AssignFollows(cfg: Config, left: Expr, right: Expr, nonblocking: bool, sim: Sim, m: Meaning, s: Sym,
                      ctx: Context)
    requires Quiet(cfg, sim.env, m) && Sound(cfg, ctx, sim.env) && cfg.Handled(Assign(left, right, nonblocking))
    ensures var st := Assign(left, right, nonblocking);
      Follows(cfg, sim, RunAssign(left, right, nonblocking, sim, m), s, ArcsOf(st, ctx, false, cfg.fsm, cfg.resets, s),
              Flags(st, false, cfg.fsm, cfg.resets, s))
  {
    var after := RunAssign(left, right, nonblocking, sim, m);
    if Writes(left, cfg.fsm, s) {
      if None !in Targets(right) {
        AssignedValue(cfg, right, sim.env, m, s, ctx);
      }
    } else if s in cfg.fsm {
      assert s !in Written(left);
    }
  }

  lemma Unmoved(cfg: Config, sim: Sim, s: Sym)
    ensures Follows(cfg, sim, sim, s, {}, false)
  {}

  lemma StillSound(cfg: Config, ctx: Context, before: Sim, after: Sim, m: Meaning, s: Sym, arcs: set<Arc>, f: bool)
    requires Quiet(cfg, before.env, m) && Follows(cfg, before, after, s, arcs, f) && Sound(cfg, ctx, before.env)
    ensures Quiet(cfg, after.env, m) && Sound(cfg, ctx, after.env)
  {}

  lemma TrueSound(cfg: Config, cond: Expr, ctx: Context, env: Env, m: Meaning)
    requires Quiet(cfg, env, m) && Sound(cfg, ctx, env) && (Compared(cond, cfg.fsm).Some? ==> cfg.Keeps(cond))
    requires Eval(cond, env, m) != 0
    ensures Sound(cfg, TrueContext(cond, ctx, cfg.fsm), env)
  {
    if Compared(cond, cfg.fsm).Some? {
      ComparedTrue(cfg, cond, env, m);
    }
  }

  /** A statement followed. */
  ghost predicate Covered(cfg: Config, st: Stmt, ctx: Context, sim: Sim, after: Sim, s: Sym) {
    Follows(cfg, sim, after, s, ArcsOf(st, ctx, false, cfg.fsm, cfg.resets, s),
            Flags(st, false, cfg.fsm, cfg.resets, s))
  }

  lemma {:induction false} RunFollows(cfg: Config, st: Stmt, ctx: Context, sim: Sim, m: Meaning, n: nat, s: Sym)
    requires Quiet(cfg, sim.env, m) && Sound(cfg, ctx, sim.env) && cfg.Handled(st) && Run(st, sim, m, n).Some?
    ensures Covered(cfg, st, ctx, sim, Run(st, sim, m, n).value, s)
    decreases n, st, 1
  {
    hide Quiet, Follows, Sound, Explained;
    match st
    case List(stmts) => ListFollows(cfg, stmts, ctx, sim, m, n, s);
    case Block(body) => RunFollows(cfg, body, ctx, sim, m, n, s);
    case If(_, _, _) => IfFollows(cfg, st, ctx, sim, m, n, s);
    case Case(_, _, _) => CaseFollows(cfg, st, ctx, sim, m, n, s);
    case Assign(left, right, nonblocking) => AssignFollows(cfg, left, right, nonblocking, sim, m, s, ctx);
    case Loop(_, _, _) => LoopFollows(cfg, st, ctx, sim, m, n, s);
    case Nothing => Unmoved(cfg, sim, s);
  }

  lemma {:induction false} ListFollows(cfg: Config, stmts: Stmts, ctx: Context, sim: Sim, m: Meaning, n: nat, s: Sym)
    requires Quiet(cfg, sim.env, m) && Sound(cfg, ctx, sim.env) && cfg.HandledList(stmts)
    requires RunList(stmts, sim, m, n).Some?
    ensures Follows(cfg, sim, RunList(stmts, sim, m, n).value, s, ListArcs(stmts, ctx, false, cfg.fsm, cfg.resets, s),
                    ListFlags(stmts, false, cfg.fsm, cfg.resets, s))
    decreases n, stmts, 1
  {
    hide Quiet, Follows, Sound, Explained;
    match stmts
    case End => Unmoved(cfg, sim, s);
    case More(head, tail) =>
      RunFollows(cfg, head, ctx, sim, m, n, s);
      var s1 := Run(head, sim, m, n).value;
      var a, f := ArcsOf(head, ctx, false, cfg.fsm, cfg.resets, s), Flags(head, false, cfg.fsm, cfg.resets, s);
      StillSound(cfg, ctx, sim, s1, m, s, a, f);
      ListFollows(cfg, tail, ctx, s1, m, n, s);
      Chained(cfg, sim, s1, RunList(tail, s1, m, n).value, s, a, ListArcs(tail, ctx, false, cfg.fsm, cfg.resets, s),
              f, ListFlags(tail, false, cfg.fsm, cfg.resets, s));
  }

  /** One branch of several. */
  lemma Branch(cfg: Config, part: Stmt, ctx': Context, whole: Stmt, ctx: Context, sim: Sim, after: Sim, s: Sym)
    requires Covered(cfg, part, ctx', sim, after, s)
    requires ArcsOf(part, ctx', false, cfg.fsm, cfg.resets, s) <= ArcsOf(whole, ctx, false, cfg.fsm, cfg.resets, s)
    requires Flags(part, false, cfg.fsm, cfg.resets, s) ==> Flags(whole, false, cfg.fsm, cfg.resets, s)
    ensures Covered(cfg, whole, ctx, sim, after, s)
  {
    hide Follows, ArcsOf, Flags;
    Widened(cfg, sim, after, s, ArcsOf(part, ctx', false, cfg.fsm, cfg.resets, s),
            ArcsOf(whole, ctx, false, cfg.fsm, cfg.resets, s),
            Flags(part, false, cfg.fsm, cfg.resets, s), Flags(whole, false, cfg.fsm, cfg.resets, s));
  }

  lemma NoBranch(cfg: Config, whole: Stmt, ctx: Context, sim: Sim, s: Sym)
    ensures Covered(cfg, whole, ctx, sim, sim, s)
  {}

  lemma {:induction false} IfFollows(cfg: Config, st: Stmt, ctx: Context, sim: Sim, m: Meaning, n: nat, s: Sym)
    requires st.If? && Quiet(cfg, sim.env, m) && Sound(cfg, ctx, sim.env) && cfg.Handled(st) && Run(st, sim, m, n).Some?
    ensures Covered(cfg, st, ctx, sim, Run(st, sim, m, n).value, s)
    decreases n, st, 0
  {
    hide Quiet, Covered, Sound, TrueContext, Compared, IsResetCond;
    var If(cond, ifTrue, ifFalse) := st;
    NoBranch(cfg, st, ctx, sim, s);
    if IsResetCond(cond, cfg.resets) {
      ResetTestFalse(cfg, cond, sim.env, m);
    }
    if Eval(cond, sim.env, m) != 0 {
      var ctx' := TrueContext(cond, ctx, cfg.fsm);
      TrueSound(cfg, cond, ctx, sim.env, m);
      RunFollows(cfg, ifTrue, ctx', sim, m, n, s);
      Branch(cfg, ifTrue, ctx', st, ctx, sim, Run(st, sim, m, n).value, s);
    } else if ifFalse.Some? {
      RunFollows(cfg, ifFalse.value, ctx, sim, m, n, s);
      Branch(cfg, ifFalse.value, ctx, st, ctx, sim, Run(st, sim, m, n).value, s);
    }
  }

  /** In an item, the variable of the case has one of the item's values. */
  lemma ItemSound(cfg: Config, e: Expr, vals: set<int>, ctx: Context, env: Env, v: int)
    requires Sound(cfg, ctx, env) && (IsNamedIn(e, cfg.fsm.Keys) ==> v == Look(env, Named(e).value) && v in vals)
    ensures Sound(cfg, ItemContext(e, vals, ctx, cfg.fsm), env)
  {}

  lemma {:induction false} ItemsFollow(cfg: Config, e: Expr, items: Items, v: int, ctx: Context, sim: Sim, m: Meaning,
                                       n: nat, s: Sym)
    requires Quiet(cfg, sim.env, m) && Sound(cfg, ctx, sim.env) && cfg.HandledItems(items)
    requires Matches(items, v, sim.env, m) && RunItems(items, v, sim, m, n).Some?
    requires IsNamedIn(e, cfg.fsm.Keys) ==> v == Look(sim.env, Named(e).value) && cfg.ConstantLabels(items)
    ensures Follows(cfg, sim, RunItems(items, v, sim, m, n).value, s,
                    ItemArcs(e, items, ctx, false, cfg.fsm, cfg.resets, s),
                    ItemFlags(items, false, cfg.fsm, cfg.resets, s))
    decreases n, items, 1
  {
    hide Quiet, Follows, Sound, LabelMatches, ItemContext, IsNamedIn, LabelValues;
    var after := RunItems(items, v, sim, m, n).value;
    var all := ItemArcs(e, items, ctx, false, cfg.fsm, cfg.resets, s);
    var flags := ItemFlags(items, false, cfg.fsm, cfg.resets, s);
    var Item(labels, stmt, rest) := items;
    if LabelMatches(labels, v, sim.env, m) {
      if IsNamedIn(e, cfg.fsm.Keys) {
        MatchedLabel(cfg, labels, v, sim.env, m);
      }
      var ctx' := ItemContext(e, LabelValues(labels), ctx, cfg.fsm);
      ItemSound(cfg, e, LabelValues(labels), ctx, sim.env, v);
      RunFollows(cfg, stmt, ctx', sim, m, n, s);
      Widened(cfg, sim, after, s, ArcsOf(stmt, ctx', false, cfg.fsm, cfg.resets, s), all,
              Flags(stmt, false, cfg.fsm, cfg.resets, s), flags);
    } else {
      ItemsFollow(cfg, e, rest, v, ctx, sim, m, n, s);
      Widened(cfg, sim, after, s, ItemArcs(e, rest, ctx, false, cfg.fsm, cfg.resets, s), all,
              ItemFlags(rest, false, cfg.fsm, cfg.resets, s), flags);
    }
  }

  /** In the default item, the variable has an enumerator that no item lists. */
  lemma DefaultSound(cfg: Config, e: Expr, items: Items, ctx: Context, env: Env, m: Meaning)
    requires Quiet(cfg, env, m) && Sound(cfg, ctx, env) && !Matches(items, Eval(e, env, m), env, m)
    requires IsNamedIn(e, cfg.fsm.Keys) ==> cfg.Keeps(e) && cfg.ConstantLabels(items)
    ensures Sound(cfg, ItemContext(e, RestOf(e, cfg.fsm, AllLabels(items)), ctx, cfg.fsm), env)
  {
    if IsNamedIn(e, cfg.fsm.Keys) {
      NamedEval(cfg, e, env, m);
      MatchedItem(cfg, items, Eval(e, env, m), env, m);
    }
  }

  lemma {:induction false} CaseFollows(cfg: Config, st: Stmt, ctx: Context, sim: Sim, m: Meaning, n: nat, s: Sym)
    requires st.Case? && Quiet(cfg, sim.env, m) && Sound(cfg, ctx, sim.env) && cfg.Handled(st)
    requires Run(st, sim, m, n).Some?
    ensures Covered(cfg, st, ctx, sim, Run(st, sim, m, n).value, s)
    decreases n, st, 0
  {
    hide Quiet, Sound, Follows, ItemContext, RestOf, AllLabels;
    var Case(e, items, defaultCase) := st;
    NoBranch(cfg, st, ctx, sim, s);
    var v := Eval(e, sim.env, m);
    if Matches(items, v, sim.env, m) {
      if IsNamedIn(e, cfg.fsm.Keys) {
        NamedEval(cfg, e, sim.env, m);
      }
      ItemsFollow(cfg, e, items, v, ctx, sim, m, n, s);
      Widened(cfg, sim, Run(st, sim, m, n).value, s, ItemArcs(e, items, ctx, false, cfg.fsm, cfg.resets, s),
              ArcsOf(st, ctx, false, cfg.fsm, cfg.resets, s), ItemFlags(items, false, cfg.fsm, cfg.resets, s),
              Flags(st, false, cfg.fsm, cfg.resets, s));
    } else if defaultCase.Some? {
      var ctx' := ItemContext(e, RestOf(e, cfg.fsm, AllLabels(items)), ctx, cfg.fsm);
      DefaultSound(cfg, e, items, ctx, sim.env, m);
      RunFollows(cfg, defaultCase.value, ctx', sim, m, n, s);
      Branch(cfg, defaultCase.value, ctx', st, ctx, sim, Run(st, sim, m, n).value, s);
    }
  }

  /** The step of a loop leaves the state alone. */
  lemma StepFollows(cfg: Config, step: Stmt, sim: Sim, m: Meaning, n: nat, s: Sym)
    requires cfg.Valid() && (step.Nothing? || (step.Assign? && cfg.Free(step.left)))
    ensures Run(step, sim, m, n).Some? && Follows(cfg, sim, Run(step, sim, m, n).value, s, {}, false)
  {}

  lemma {:induction false} LoopFollows(cfg: Config, st: Stmt, ctx: Context, sim: Sim, m: Meaning, n: nat, s: Sym)
    requires st.Loop? && Quiet(cfg, sim.env, m) && Sound(cfg, ctx, sim.env) && cfg.Handled(st)
    requires Run(st, sim, m, n).Some?
    ensures Covered(cfg, st, ctx, sim, Run(st, sim, m, n).value, s)
    decreases n, st, 0
  {
    hide Quiet, Sound, Follows;
    NoBranch(cfg, st, ctx, sim, s);
    if Eval(st.cond, sim.env, m) != 0 {
      var a, f := ArcsOf(st, ctx, false, cfg.fsm, cfg.resets, s), Flags(st, false, cfg.fsm, cfg.resets, s);
      RunFollows(cfg, st.body, ctx, sim, m, n - 1, s);
      var s1 := Run(st.body, sim, m, n - 1).value;
      StillSound(cfg, ctx, sim, s1, m, s, a, f);
      StepFollows(cfg, st.step, s1, m, n - 1, s);
      var s2 := Run(st.step, s1, m, n - 1).value;
      StillSound(cfg, ctx, s1, s2, m, s, {}, false);
      Chained(cfg, sim, s1, s2, s, a, {}, f, false);
      RunFollows(cfg, st, ctx, s2, m, n - 1, s);
      Chained(cfg, sim, s2, Run(st, s2, m, n - 1).value, s, a + {}, a, f, f);
      assert a + {} + a == a;
    }
  }

  // ---------- the graph and the runs ----------

  function Graph(cfg: Config, body: Stmt, s: Sym): set<Arc> {
    ArcsOf(body, map[], false, cfg.fsm, cfg.resets, s)
  }

  predicate Flagged(cfg: Config, body: Stmt, s: Sym) {
    Flags(body, false, cfg.fsm, cfg.resets, s)
  }

  /** One clock cycle: the scheduled values become current; other variables may take any value. */
  ghost predicate Cycle(cfg: Config, body: Stmt, env: Env, env': Env, m: Meaning, n: nat) {
    var r := Run(body, Sim(env, map[]), m, n);
    r.Some? && forall s :: s in cfg.fsm ==>
      Look(env', s) == if s in r.value.pending then r.value.pending[s] else Look(env, s)
  }

  ghost predicate Reported(cfg: Config, body: Stmt, s: Sym, from: int, to: int) {
    from == to || Arc(from, to) in Graph(cfg, body, s) || FromAny(to) in Graph(cfg, body, s)
  }

  /** Every change of a state variable in a cycle outside reset is an arc of its graph, or the variable is flagged. */
  lemma EveryTransitionReported(cfg: Config, body: Stmt, env: Env, env': Env, m: Meaning, n: nat, s: Sym)
    requires Quiet(cfg, env, m) && cfg.Handled(body) && Cycle(cfg, body, env, env', m, n) && s in cfg.fsm
    ensures Flagged(cfg, body, s) || Reported(cfg, body, s, Look(env, s), Look(env', s))
  {
    RunFollows(cfg, body, map[], Sim(env, map[]), m, n, s);
  }

  /** The graph of every state variable is closed: nothing is flagged and every arc leads to an enumerator. */
  ghost predicate Closed(cfg: Config, body: Stmt)
    requires cfg.Valid()
  {
    forall s :: s in cfg.fsm ==>
      !Flagged(cfg, body, s) && forall a :: a in Graph(cfg, body, s) ==>
        a.to in cfg.fsm[s] && 0 <= a.to < Pow2(cfg.widths[s])
  }

  ghost predicate IsRunOf(cfg: Config, body: Stmt, envs: seq<Env>, m: Meaning, n: nat) {
    forall i :: 0 <= i < |envs| - 1 ==> cfg.Released(envs[i]) && Cycle(cfg, body, envs[i], envs[i + 1], m, n)
  }

  /** A whole run outside reset, from enumerators, stays in the enumerators and follows the graph. */
  lemma {:induction false} RunStaysInGraph(cfg: Config, body: Stmt, envs: seq<Env>, m: Meaning, n: nat, k: nat)
    requires cfg.Valid() && OneBitNot(m) && cfg.Handled(body) && Closed(cfg, body)
    requires k < |envs| && IsRunOf(cfg, body, envs, m, n) && cfg.InStates(envs[0])
    ensures cfg.InStates(envs[k])
    ensures k > 0 ==> forall s :: s in cfg.fsm ==> Reported(cfg, body, s, Look(envs[k - 1], s), Look(envs[k], s))
    decreases k
  {
    hide Cycle, Graph, Flagged;
    if k > 0 {
      RunStaysInGraph(cfg, body, envs, m, n, k - 1);
      forall s | s in cfg.fsm
        ensures Reported(cfg, body, s, Look(envs[k - 1], s), Look(envs[k], s))
        ensures Look(envs[k], s) in cfg.fsm[s] && 0 <= Look(envs[k], s) < Pow2(cfg.widths[s])
      {
        EveryTransitionReported(cfg, body, envs[k - 1], envs[k], m, n, s);
      }
    }
  }

  // ---------- why the conditions on the block are needed ----------

  const STATE := "state"
  const RST_N := "rst_n"

  /** A one-bit state variable and an active-low reset. */
  function Example(): Config {
    Config(map[STATE := {0, 1}], map[STATE := 1], {RST_N}, {RST_N})
  }

  /** The same with a variable of two bits, which has values outside its enumerators. */
  function TwoBits(): Config {
    Config(map[STATE := {0, 1}], map[STATE := 2], {RST_N}, {RST_N})
  }

  /** `if (rst_n) state <= 1;` is taken for a reset branch: the change from 0 to 1 is lost. */
  lemma ResetTestMatters(m: Meaning)
    ensures var body := If(Var(RST_N), Assign(Var(STATE), Constant(Some(1)), true), None);
      var env, env' := map[STATE := 0, RST_N := 1], map[STATE := 1, RST_N := 1];
      Cycle(Example(), body, env, env', m, 0) && !Flagged(Example(), body, STATE)
        && !Reported(Example(), body, STATE, 0, 1)
  {
    var body := If(Var(RST_N), Assign(Var(STATE), Constant(Some(1)), true), None);
    assert Example().resets == {RST_N};
    assert IsResetCond(Var(RST_N), {RST_N});
    assert Graph(Example(), body, STATE) == {};
  }

  /** `case (state) x: state <= 1; endcase` with a variable x: the item is taken for unreachable. */
  lemma ConstantLabelsMatter(m: Meaning)
    ensures var body := Case(Var(STATE), Item([Var("x")], Assign(Var(STATE), Constant(Some(1)), true), NoItems), None);
      var env, env' := map[STATE := 0, RST_N := 1], map[STATE := 1, RST_N := 1];
      Cycle(Example(), body, env, env', m, 0) && !Flagged(Example(), body, STATE)
        && !Reported(Example(), body, STATE, 0, 1)
  {
    var set1 := Assign(Var(STATE), Constant(Some(1)), true);
    var items := Item([Var("x")], set1, NoItems);
    var body := Case(Var(STATE), items, None);
    var env := map[STATE := 0, RST_N := 1];
    assert LabelMatches([Var("x")], 0, env, m) by {
      assert Eval([Var("x")][0], env, m) == 0;
    }
    assert LabelValues([Var("x")]) == {};
    assert ItemContext(Var(STATE), {}, map[], Example().fsm)[STATE] == {};
    assert Graph(Example(), body, STATE) == {};
  }

  /** `case (state) 0: ; 1: ; default: state <= 1; endcase` outside the enumerators: the default is
      taken for unreachable. */
  lemma EnumeratorsMatter(m: Meaning)
    ensures var body := Case(Var(STATE), Item([Constant(Some(0)), Constant(Some(1))], Nothing, NoItems),
                             Some(Assign(Var(STATE), Constant(Some(1)), true)));
      var env, env' := map[STATE := 2, RST_N := 1], map[STATE := 1, RST_N := 1];
      && 0 <= Look(env, STATE) < Pow2(TwoBits().widths[STATE])
      && Cycle(TwoBits(), body, env, env', m, 0) && !Flagged(TwoBits(), body, STATE)
      && !Reported(TwoBits(), body, STATE, 2, 1)
  {
    var labels := [Constant(Some(0)), Constant(Some(1))];
    var items := Item(labels, Nothing, NoItems);
    var body := Case(Var(STATE), items, Some(Assign(Var(STATE), Constant(Some(1)), true)));
    assert ConstVal(labels[0]).value == 0 && ConstVal(labels[1]).value == 1;
    var env := map[STATE := 2, RST_N := 1];
    assert !Matches(items, 2, env, m) by {
      assert Eval(labels[0], env, m) == 0 && Eval(labels[1], env, m) == 1;
      assert !Matches(NoItems, 2, env, m);
    }
    assert LabelValues(labels) == {0, 1};
    assert AllLabels(items) == {0, 1};
    assert RestOf(Var(STATE), TwoBits().fsm, {0, 1}) == {};
    assert ItemContext(Var(STATE), {}, map[], TwoBits().fsm)[STATE] == {};
    assert Graph(TwoBits(), body, STATE) == {};
  }

  /** `state <= 1'(3);` is reported as an arc to 3, not to 1. */
  lemma ConversionsMatter(m: Meaning)
    ensures var body := Assign(Var(STATE), Conversion(1, Constant(Some(3))), true);
      var env, env' := map[STATE := 0, RST_N := 1], map[STATE := 1, RST_N := 1];
      Cycle(Example(), body, env, env', m, 0) && !Flagged(Example(), body, STATE)
        && !Reported(Example(), body, STATE, 0, 1)
  {
    var body := Assign(Var(STATE), Conversion(1, Constant(Some(3))), true);
    assert Pow2(1) == 2;
    assert Eval(Conversion(1, Constant(Some(3))), map[STATE := 0, RST_N := 1], m) == 1;
    assert Graph(Example(), body, STATE) == {FromAny(3)};
  }
}
