/** The state-machine extractor of scripts/cov/fsm_extract.py over an abstract syntax tree of a clocked block, and
    what its arcs have to do with the block's runs: every transition of a step outside reset is reported. */
module FsmExtract {
  import opened Options

  type Sym = string

  // ---------- the tree ----------

  datatype Expr =
    | Constant(value: Option<int>)                       // a literal, parameter or enumerator; None for x or z digits
    | Var(sym: Sym)
    | Conversion(width: nat, operand: Expr)
    | Unary(op: string, operand: Expr)
    | Binary(op: string, left: Expr, right: Expr)
    | Conditional(test: Expr, left: Expr, right: Expr)
    | Other(name: string, bases: set<Sym>)               // a select or concatenation of variables, a call, ...

  datatype Stmt =
    | List(stmts: Stmts)
    | Block(body: Stmt)                                  // begin-end, and the body of a timing control
    | If(cond: Expr, ifTrue: Stmt, ifFalse: Option<Stmt>)
    | Case(expr: Expr, items: Items, defaultCase: Option<Stmt>)
    | Assign(left: Expr, right: Expr, nonblocking: bool)
    | Loop(cond: Expr, body: Stmt, step: Stmt)           // for, repeat, while
    | Nothing                                            // any other statement

  datatype Stmts = End | More(head: Stmt, tail: Stmts)

  datatype Items = NoItems | Item(labels: seq<Expr>, stmt: Stmt, rest: Items)

  // ---------- the lookups ----------

  function Strip(e: Expr): (r: Expr)
    ensures !r.Conversion?
  {
    if e.Conversion? then Strip(e.operand) else e
  }

  function ConstVal(e: Expr): Option<int> {
    var r := Strip(e);
    if r.Constant? then r.value else None
  }

  function Named(e: Expr): Option<Sym> {
    var r := Strip(e);
    if r.Var? then Some(r.sym) else None
  }

  predicate IsNamedIn(e: Expr, names: set<Sym>) {
    var n := Named(e);
    n.Some? && n.value in names
  }

  predicate EndsWith(s: string, t: string) {
    |t| <= |s| && s[|s| - |t|..] == t
  }

  predicate IsEquality(op: string) {
    EndsWith(op, "Equality")
  }

  predicate IsResetCond(e: Expr, resets: set<Sym>) {
    var r := Strip(e);
    if r.Unary? then IsNamedIn(r.operand, resets)
    else
      || IsNamedIn(r, resets)
      || (r.Binary? && IsEquality(r.op) && IsNamedIn(r.left, resets) && ConstVal(r.right) == Some(0))
  }

  // ---------- the walk ----------

  datatype Arc = Arc(from: int, to: int) | FromAny(to: int)

  /** The enumerators of each state variable. */
  type States = map<Sym, set<int>>

  /** What is known of the state variables at a place. */
  type Context = map<Sym, set<int>>

  /** The variable and the value that a branch condition compares, if it is such a comparison. */
  function Compared(e: Expr, fsm: States): Option<(Sym, int)> {
    var r := Strip(e);
    if r.Binary? && IsEquality(r.op) && !("Wildcard" <= r.op) && IsNamedIn(r.left, fsm.Keys) && ConstVal(r.right).Some?
    then Some((Named(r.left).value, ConstVal(r.right).value))
    else None
  }

  function TrueContext(e: Expr, ctx: Context, fsm: States): Context {
    match Compared(e, fsm)
    case Some(c) => ctx[c.0 := {c.1}]
    case None => ctx
  }

  function LabelValues(labels: seq<Expr>): set<int> {
    set l | l in labels && ConstVal(l).Some? :: ConstVal(l).value
  }

  function ItemContext(e: Expr, vals: set<int>, ctx: Context, fsm: States): Context {
    if IsNamedIn(e, fsm.Keys) then ctx[Named(e).value := vals] else ctx
  }

  function AllLabels(items: Items): set<int> {
    match items
    case NoItems => {}
    case Item(labels, _, rest) => LabelValues(labels) + AllLabels(rest)
  }

  function RestOf(e: Expr, fsm: States, listed: set<int>): set<int> {
    if IsNamedIn(e, fsm.Keys) then fsm[Named(e).value] - listed else {}
  }

  /** The constants that an assigned value may be. */
  function Targets(right: Expr): seq<Option<int>> {
    var r := Strip(right);
    if r.Conditional? then [ConstVal(r.left), ConstVal(r.right)] else [ConstVal(r)]
  }

  predicate Writes(left: Expr, fsm: States, s: Sym) {
    s in fsm && Named(left) == Some(s)
  }

  /** The arcs that one target adds. */
  function TargetArcs(target: Option<int>, s: Sym, ctx: Context): set<Arc> {
    if target == None then {}
    else if s in ctx then set f | f in ctx[s] :: Arc(f, target.value)
    else {FromAny(target.value)}
  }

  function AssignArcs(right: Expr, s: Sym, ctx: Context): set<Arc> {
    var t := Targets(right);
    TargetArcs(t[0], s, ctx) + if |t| > 1 then TargetArcs(t[1], s, ctx) else {}
  }

  /** The arcs of the variable s that the walk of a statement adds. */
  function ArcsOf(st: Stmt, ctx: Context, inReset: bool, fsm: States, resets: set<Sym>, s: Sym): set<Arc>
    decreases st
  {
    match st
    case List(stmts) => ListArcs(stmts, ctx, inReset, fsm, resets, s)
    case Block(body) => ArcsOf(body, ctx, inReset, fsm, resets, s)
    case If(cond, ifTrue, ifFalse) =>
      if IsResetCond(cond, resets) then
        ArcsOf(ifTrue, ctx, true, fsm, resets, s)
          + (if ifFalse.Some? then ArcsOf(ifFalse.value, ctx, false, fsm, resets, s) else {})
      else
        ArcsOf(ifTrue, TrueContext(cond, ctx, fsm), inReset, fsm, resets, s) +
        (if ifFalse.Some? then ArcsOf(ifFalse.value, ctx, inReset, fsm, resets, s) else {})
    case Case(expr, items, defaultCase) =>
      ItemArcs(expr, items, ctx, inReset, fsm, resets, s) +
      (if defaultCase.Some? then
         var rest := ItemContext(expr, RestOf(expr, fsm, AllLabels(items)), ctx, fsm);
         ArcsOf(defaultCase.value, rest, inReset, fsm, resets, s)
       else {})
    case Assign(left, right, _) => if !inReset && Writes(left, fsm, s) then AssignArcs(right, s, ctx) else {}
    case Loop(_, body, _) => ArcsOf(body, ctx, inReset, fsm, resets, s)
    case Nothing => {}
  }

  function ListArcs(stmts: Stmts, ctx: Context, inReset: bool, fsm: States, resets: set<Sym>, s: Sym): set<Arc>
    decreases stmts
  {
    match stmts
    case End => {}
    case More(head, tail) => ArcsOf(head, ctx, inReset, fsm, resets, s) + ListArcs(tail, ctx, inReset, fsm, resets, s)
  }

  function ItemArcs(e: Expr, items: Items, ctx: Context, inReset: bool, fsm: States, resets: set<Sym>, s: Sym): set<Arc>
    decreases items
  {
    match items
    case NoItems => {}
    case Item(labels, stmt, rest) =>
      ArcsOf(stmt, ItemContext(e, LabelValues(labels), ctx, fsm), inReset, fsm, resets, s)
        + ItemArcs(e, rest, ctx, inReset, fsm, resets, s)
  }

  /** Whether the walk flags an assignment to s of something that is not constant. */
  predicate Flags(st: Stmt, inReset: bool, fsm: States, resets: set<Sym>, s: Sym) {
    match st
    case List(stmts) => ListFlags(stmts, inReset, fsm, resets, s)
    case Block(body) => Flags(body, inReset, fsm, resets, s)
    case If(cond, ifTrue, ifFalse) =>
      var r := IsResetCond(cond, resets);
      Flags(ifTrue, inReset || r, fsm, resets, s)
        || (ifFalse.Some? && Flags(ifFalse.value, inReset && !r, fsm, resets, s))
    case Case(_, items, defaultCase) =>
      ItemFlags(items, inReset, fsm, resets, s)
        || (defaultCase.Some? && Flags(defaultCase.value, inReset, fsm, resets, s))
    case Assign(left, right, _) => !inReset && Writes(left, fsm, s) && None in Targets(right)
    case Loop(_, body, _) => Flags(body, inReset, fsm, resets, s)
    case Nothing => false
  }

  predicate ListFlags(stmts: Stmts, inReset: bool, fsm: States, resets: set<Sym>, s: Sym) {
    match stmts
    case End => false
    case More(head, tail) => Flags(head, inReset, fsm, resets, s) || ListFlags(tail, inReset, fsm, resets, s)
  }

  predicate ItemFlags(items: Items, inReset: bool, fsm: States, resets: set<Sym>, s: Sym) {
    match items
    case NoItems => false
    case Item(_, stmt, rest) => Flags(stmt, inReset, fsm, resets, s) || ItemFlags(rest, inReset, fsm, resets, s)
  }

  /** The walker: it adds to the records of the state variables while it walks. */
  class Walker {
    const fsm: States
    const resets: set<Sym>
    var arcs: map<Sym, set<Arc>>
    var nonconst: set<Sym>

    ghost predicate Valid()
      reads this
    {
      arcs.Keys == fsm.Keys
    }

    constructor (fsm: States, resets: set<Sym>)
      ensures Valid() && this.fsm == fsm && this.resets == resets && nonconst == {}
      ensures forall s :: s in fsm ==> arcs[s] == {}
    {
      this.fsm, this.resets := fsm, resets;
      arcs := map s | s in fsm :: {};
      nonconst := {};
    }

    method Walk(st: Stmt, ctx: Context, inReset: bool)
      requires Valid()
      modifies this
      ensures Valid()
      ensures forall s :: s in fsm ==> arcs[s] == old(arcs[s]) + ArcsOf(st, ctx, inReset, fsm, resets, s)
      ensures forall s :: s in fsm ==> (s in nonconst <==> s in old(nonconst) || Flags(st, inReset, fsm, resets, s))
      decreases st
    {
      match st
      case List(stmts) => WalkList(stmts, ctx, inReset);
      case Block(body) => Walk(body, ctx, inReset);
      case If(cond, ifTrue, ifFalse) =>
        if IsResetCond(cond, resets) {
          Walk(ifTrue, ctx, true);
          if ifFalse.Some? {
            Walk(ifFalse.value, ctx, false);
          }
        } else {
          Walk(ifTrue, TrueContext(cond, ctx, fsm), inReset);
          if ifFalse.Some? {
            Walk(ifFalse.value, ctx, inReset);
          }
        }
      case Case(expr, items, defaultCase) =>
        var listed := WalkItems(expr, items, ctx, inReset);
        if defaultCase.Some? {
          Walk(defaultCase.value, ItemContext(expr, RestOf(expr, fsm, listed), ctx, fsm), inReset);
        }
      case Assign(left, right, _) => WalkAssign(left, right, ctx, inReset);
      case Loop(_, body, _) => Walk(body, ctx, inReset);
      case Nothing =>
    }

    method WalkList(stmts: Stmts, ctx: Context, inReset: bool)
      requires Valid()
      modifies this
      ensures Valid()
      ensures forall s :: s in fsm ==> arcs[s] == old(arcs[s]) + ListArcs(stmts, ctx, inReset, fsm, resets, s)
      ensures forall s :: s in fsm ==>
        (s in nonconst <==> s in old(nonconst) || ListFlags(stmts, inReset, fsm, resets, s))
      decreases stmts
    {
      match stmts
      case End =>
      case More(head, tail) =>
        Walk(head, ctx, inReset);
        WalkList(tail, ctx, inReset);
    }

    method WalkItems(e: Expr, items: Items, ctx: Context, inReset: bool) returns (listed: set<int>)
      requires Valid()
      modifies this
      ensures Valid() && listed == AllLabels(items)
      ensures forall s :: s in fsm ==> arcs[s] == old(arcs[s]) + ItemArcs(e, items, ctx, inReset, fsm, resets, s)
      ensures forall s :: s in fsm ==>
        (s in nonconst <==> s in old(nonconst) || ItemFlags(items, inReset, fsm, resets, s))
      decreases items
    {
      match items
      case NoItems => listed := {};
      case Item(labels, stmt, rest) =>
        var vals := LabelValues(labels);
        Walk(stmt, ItemContext(e, vals, ctx, fsm), inReset);
        listed := WalkItems(e, rest, ctx, inReset);
        listed := vals + listed;
    }

    method WalkAssign(left: Expr, right: Expr, ctx: Context, inReset: bool)
      requires Valid()
      modifies this
      ensures Valid()
      ensures forall s :: s in fsm ==>
        arcs[s] == old(arcs[s]) + if !inReset && Writes(left, fsm, s) then AssignArcs(right, s, ctx) else {}
      ensures forall s :: s in fsm ==>
        (s in nonconst <==> s in old(nonconst) || (!inReset && Writes(left, fsm, s) && None in Targets(right)))
    {
      var n := Named(left);
      if n == None || n.value !in fsm || inReset { return; }
      var s, tos, i := n.value, Targets(right), 0;
      hide Targets, TargetArcs;
      ghost var was, flagged := arcs, nonconst;
      while i < |tos|
        invariant 0 <= i <= |tos| && Valid()
        invariant forall t :: t in fsm && t != s ==> arcs[t] == was[t]
        invariant arcs[s] == was[s] + (if i > 0 then TargetArcs(tos[0], s, ctx) else {})
          + (if i > 1 then TargetArcs(tos[1], s, ctx) else {})
        invariant nonconst == if None in tos[..i] then flagged + {s} else flagged
      {
        AddTarget(tos[i], s, ctx);
        assert tos[..i + 1] == tos[..i] + [tos[i]];
        i := i + 1;
      }
      assert tos[..i] == tos;
    }

    method AddTarget(t: Option<int>, s: Sym, ctx: Context)
      requires Valid() && s in fsm
      modifies this
      ensures arcs == old(arcs)[s := old(arcs)[s] + TargetArcs(t, s, ctx)]
      ensures nonconst == if t == None then old(nonconst) + {s} else old(nonconst)
    {
      if t == None {
        nonconst := nonconst + {s};
        assert arcs[s] + TargetArcs(t, s, ctx) == arcs[s];
      } else if s !in ctx {
        arcs := arcs[s := arcs[s] + {FromAny(t.value)}];
      } else {
        arcs := arcs[s := arcs[s] + set f | f in ctx[s] :: Arc(f, t.value)];
      }
    }
  }
}
