/** What the extractor reports, read off the places of the assignments: an arc has a source exactly where a comparison
    or a case of the variable encloses the assignment, and then only the values that the innermost of them allows. */
module FsmPrecise {
  import opened Options
  import opened FsmExtract

  /** What encloses a statement: a branch of a condition, an item of a case, or its default. */
  datatype Guard =
    | Then(cond: Expr)
    | Else(cond: Expr)
    | Label(expr: Expr, labels: seq<Expr>)
    | Default(expr: Expr, items: Items)

  /** What encloses a place, from the outside. */
  datatype Path = Here | Under(outer: Guard, inner: Path)

  /** The assignment `left <= right` stands in the statement under these guards. */
  ghost predicate Occurs(st: Stmt, guards: Path, left: Expr, right: Expr)
    decreases st
  {
    match st
    case List(stmts) => OccursInList(stmts, guards, left, right)
    case Block(body) => Occurs(body, guards, left, right)
    case If(cond, ifTrue, ifFalse) =>
      guards.Under? &&
      ((guards.outer == Then(cond) && Occurs(ifTrue, guards.inner, left, right)) ||
       (guards.outer == Else(cond) && ifFalse.Some? && Occurs(ifFalse.value, guards.inner, left, right)))
    case Case(expr, items, defaultCase) =>
      guards.Under? &&
      (OccursInItems(expr, items, guards, left, right) ||
       (guards.outer == Default(expr, items) && defaultCase.Some?
          && Occurs(defaultCase.value, guards.inner, left, right)))
    case Assign(l, r, _) => guards.Here? && left == l && right == r
    case Loop(_, body, _) => Occurs(body, guards, left, right)
    case Nothing => false
  }

  ghost predicate OccursInList(stmts: Stmts, guards: Path, left: Expr, right: Expr)
    decreases stmts
  {
    stmts.More? && (Occurs(stmts.head, guards, left, right) || OccursInList(stmts.tail, guards, left, right))
  }

  ghost predicate OccursInItems(expr: Expr, items: Items, guards: Path, left: Expr, right: Expr)
    requires guards.Under?
    decreases items
  {
    items.Item? &&
    ((guards.outer == Label(expr, items.labels) && Occurs(items.stmt, guards.inner, left, right)) ||
     OccursInItems(expr, items.rest, guards, left, right))
  }

  ghost predicate Resetting(g: Guard, resets: set<Sym>, outside: bool) {
    if (g.Then? || g.Else?) && IsResetCond(g.cond, resets) then g.Then? else outside
  }

  /** In the reset branch of the innermost reset test, if there is one. */
  ghost predicate InReset(guards: Path, resets: set<Sym>, outside: bool) {
    if guards.Here? then outside
    else InReset(guards.inner, resets, Resetting(guards.outer, resets, outside))
  }

  /** `s == v` for a constant v. */
  ghost predicate Equates(cond: Expr, s: Sym, v: int) {
    var r := Strip(cond);
    r.Binary? && IsEquality(r.op) && !("Wildcard" <= r.op) && Named(r.left) == Some(s) && ConstVal(r.right) == Some(v)
  }

  /** The guard says something of s: a comparison that is no reset test, or a case of s. */
  ghost predicate About(g: Guard, s: Sym, resets: set<Sym>) {
    match g
    case Then(cond) => !IsResetCond(cond, resets) && exists v :: Equates(cond, s, v)
    case Else(_) => false
    case Label(expr, _) => Named(expr) == Some(s)
    case Default(expr, _) => Named(expr) == Some(s)
  }

  ghost predicate Lists(labels: seq<Expr>, v: int) {
    exists i :: 0 <= i < |labels| && ConstVal(labels[i]) == Some(v)
  }

  ghost predicate ItemsList(items: Items, v: int) {
    items.Item? && (Lists(items.labels, v) || ItemsList(items.rest, v))
  }

  /** The value f of s passes the guard: the compared constant, a label, or an enumerator that no item lists. */
  ghost predicate Passes(g: Guard, s: Sym, fsm: States, f: int) {
    match g
    case Then(cond) => Equates(cond, s, f)
    case Else(_) => true
    case Label(_, labels) => Lists(labels, f)
    case Default(_, items) => s in fsm && f in fsm[s] && !ItemsList(items, f)
  }

  /** The innermost guard about s. */
  ghost function Innermost(guards: Path, s: Sym, resets: set<Sym>): Option<Guard> {
    if guards.Here? then None
    else
      var inner := Innermost(guards.inner, s, resets);
      if inner.Some? then inner else if About(guards.outer, s, resets) then Some(guards.outer) else None
  }

  /** The assigned value, or one of the two of a conditional, is this constant, or is none for None. */
  ghost predicate MayAssign(right: Expr, t: Option<int>) {
    var r := Strip(right);
    if r.Conditional? then t == ConstVal(r.left) || t == ConstVal(r.right) else t == ConstVal(r)
  }

  /** The arcs of s that an assignment at such a place gives, with nothing known of s outside. */
  ghost predicate Gives(guards: Path, left: Expr, right: Expr, s: Sym, fsm: States, resets: set<Sym>, a: Arc) {
    && !InReset(guards, resets, false) && Named(left) == Some(s) && MayAssign(right, Some(a.to))
    && match Innermost(guards, s, resets)
       case None => a.FromAny?
       case Some(g) => a.Arc? && Passes(g, s, fsm, a.from)
  }

  // ---------- what the walk looks at ----------

  /** e is d under any number of conversions. */
  ghost predicate Converts(e: Expr, d: Expr) {
    !d.Conversion? && (e == d || (e.Conversion? && Converts(e.operand, d)))
  }

  /** Conversions are looked through: a constant is a literal, and a name is a variable, under any of them. */
  lemma {:induction false} LookedThrough(e: Expr, d: Expr)
    ensures Converts(e, d) <==> d == Strip(e)
    ensures Converts(e, d) ==> ConstVal(e) == (if d.Constant? then d.value else None)
    ensures Converts(e, d) ==> Named(e) == (if d.Var? then Some(d.sym) else None)
    decreases e
  {
    if e.Conversion? {
      LookedThrough(e.operand, d);
    }
  }

  /** A reset test is a reset, a unary operator of one, or its comparison with 0, each under any conversions. */
  lemma ResetTests(e: Expr, resets: set<Sym>)
    ensures IsResetCond(e, resets) <==> exists d :: Converts(e, d) && IsTest(d, resets)
  {
    LookedThrough(e, Strip(e));
    forall d | Converts(e, d)
      ensures d == Strip(e)
    {
      LookedThrough(e, d);
    }
    TestIs(Strip(e), resets);
  }

  ghost predicate IsTest(d: Expr, resets: set<Sym>) {
    || (d.Var? && d.sym in resets)
    || (d.Unary? && exists r :: r in resets && Converts(d.operand, Var(r)))
    || (d.Binary? && IsEquality(d.op) && Converts(d.right, Constant(Some(0)))
        && exists r :: r in resets && Converts(d.left, Var(r)))
  }

  lemma NamedIs(e: Expr, names: set<Sym>)
    ensures IsNamedIn(e, names) <==> exists r :: r in names && Converts(e, Var(r))
  {
    forall r
      ensures Converts(e, Var(r)) <==> Named(e) == Some(r)
    {
      LookedThrough(e, Var(r));
      LookedThrough(e, Strip(e));
    }
  }

  lemma TestIs(d: Expr, resets: set<Sym>)
    requires !d.Conversion?
    ensures IsResetCond(d, resets) <==> IsTest(d, resets)
  {
    hide IsEquality, Converts, Named, ConstVal;
    if d.Unary? {
      NamedIs(d.operand, resets);
    } else if d.Binary? {
      NamedIs(d.left, resets);
      ZeroIs(d.right);
    }
    PlainNamed(d, resets);
  }

  lemma PlainNamed(d: Expr, names: set<Sym>)
    requires !d.Conversion?
    ensures Strip(d) == d && (IsNamedIn(d, names) <==> d.Var? && d.sym in names)
  {}

  lemma ZeroIs(e: Expr)
    ensures ConstVal(e) == Some(0) <==> Converts(e, Constant(Some(0)))
  {
    LookedThrough(e, Constant(Some(0)));
    LookedThrough(e, Strip(e));
  }

  /** The operators that are taken for equality, by the end of their names. */
  lemma EqualityNames()
    ensures IsEquality("BinaryOperator.Equality") && IsEquality("BinaryOperator.CaseEquality")
    ensures !IsEquality("BinaryOperator.Inequality") && !IsEquality("BinaryOperator.CaseInequality")
    ensures !IsEquality("BinaryOperator.LessThan") && !IsEquality("Equal")
  {}

  // ---------- from any context ----------

  /** The same where the context ctx is known of s. */
  ghost predicate GivesIn(guards: Path, left: Expr, right: Expr, s: Sym, ctx: Context, inReset: bool, fsm: States,
                          resets: set<Sym>, a: Arc)
  {
    && !InReset(guards, resets, inReset) && Named(left) == Some(s) && MayAssign(right, Some(a.to))
    && match Innermost(guards, s, resets)
       case None => if s in ctx then a.Arc? && a.from in ctx[s] else a.FromAny?
       case Some(g) => a.Arc? && Passes(g, s, fsm, a.from)
  }

  ghost predicate After(g: Guard, ctx: Context, inReset: bool, ctx': Context, inReset': bool, s: Sym, fsm: States,
                        resets: set<Sym>)
  {
    && inReset' == Resetting(g, resets, inReset)
    && (if About(g, s, resets) then s in ctx' && forall f :: f in ctx'[s] <==> Passes(g, s, fsm, f)
        else (s in ctx' <==> s in ctx) && (s in ctx ==> ctx'[s] == ctx[s]))
  }

  /** A guard may be taken into the context. */
  lemma Entered(g: Guard, guards: Path, left: Expr, right: Expr, s: Sym, ctx: Context, inReset: bool,
                ctx': Context, inReset': bool, fsm: States, resets: set<Sym>, a: Arc)
    requires After(g, ctx, inReset, ctx', inReset', s, fsm, resets)
    ensures GivesIn(Under(g, guards), left, right, s, ctx, inReset, fsm, resets, a)
       <==> GivesIn(guards, left, right, s, ctx', inReset', fsm, resets, a)
  {
    hide About, Passes, MayAssign, Resetting;
  }

  lemma ThenAfter(cond: Expr, ctx: Context, inReset: bool, s: Sym, fsm: States, resets: set<Sym>)
    requires s in fsm
    ensures if IsResetCond(cond, resets) then After(Then(cond), ctx, inReset, ctx, true, s, fsm, resets)
            else After(Then(cond), ctx, inReset, TrueContext(cond, ctx, fsm), inReset, s, fsm, resets)
    ensures After(Else(cond), ctx, inReset, ctx, inReset && !IsResetCond(cond, resets), s, fsm, resets)
  {
    hide IsResetCond, IsEquality;
    var c := Compared(cond, fsm);
    if c.Some? {
      assert Equates(cond, c.value.0, c.value.1);
    }
  }

  lemma LabelsListed(labels: seq<Expr>, v: int)
    ensures v in LabelValues(labels) <==> Lists(labels, v)
  {}

  lemma {:induction false} ItemsListed(items: Items, v: int)
    ensures v in AllLabels(items) <==> ItemsList(items, v)
  {
    hide LabelValues, Lists;
    if items.Item? {
      LabelsListed(items.labels, v);
      ItemsListed(items.rest, v);
    }
  }

  lemma CaseAfter(e: Expr, labels: seq<Expr>, items: Items, ctx: Context, inReset: bool, s: Sym, fsm: States,
                  resets: set<Sym>)
    requires s in fsm
    ensures After(Label(e, labels), ctx, inReset, ItemContext(e, LabelValues(labels), ctx, fsm), inReset, s, fsm,
                  resets)
    ensures After(Default(e, items), ctx, inReset, ItemContext(e, RestOf(e, fsm, AllLabels(items)), ctx, fsm), inReset,
                  s, fsm, resets)
  {
    hide LabelValues, Lists, AllLabels, ItemsList, IsResetCond;
    forall f
      ensures f in LabelValues(labels) <==> Lists(labels, f)
      ensures f in AllLabels(items) <==> ItemsList(items, f)
    {
      LabelsListed(labels, f);
      ItemsListed(items, f);
    }
  }

  lemma TargetGives(t: Option<int>, s: Sym, ctx: Context, a: Arc)
    ensures a in TargetArcs(t, s, ctx) <==>
      t == Some(a.to) && if s in ctx then a.Arc? && a.from in ctx[s] else a.FromAny?
  {}

  lemma AssignGives(left: Expr, right: Expr, s: Sym, ctx: Context, inReset: bool, fsm: States, resets: set<Sym>, a: Arc)
    requires s in fsm
    ensures GivesIn(Here, left, right, s, ctx, inReset, fsm, resets, a)
       <==> !inReset && Writes(left, fsm, s) && a in AssignArcs(right, s, ctx)
  {
    hide Strip, ConstVal, TargetArcs;
    var t := Targets(right);
    TargetGives(t[0], s, ctx, a);
    if |t| > 1 {
      TargetGives(t[1], s, ctx, a);
    }
  }

  // ---------- the walk gives these arcs and no others ----------

  /** Every reported arc comes from a place that gives it. */
  lemma {:induction false} Found(st: Stmt, ctx: Context, inReset: bool, fsm: States, resets: set<Sym>, s: Sym, a: Arc)
    returns (guards: Path, left: Expr, right: Expr)
    requires s in fsm && a in ArcsOf(st, ctx, inReset, fsm, resets, s)
    ensures Occurs(st, guards, left, right) && GivesIn(guards, left, right, s, ctx, inReset, fsm, resets, a)
    decreases st
  {
    hide GivesIn, After, TrueContext, ItemContext, AssignArcs, Writes, LabelValues, AllLabels, RestOf, IsResetCond;
    match st
    case List(stmts) => guards, left, right := FoundInList(stmts, ctx, inReset, fsm, resets, s, a);
    case Block(body) => guards, left, right := Found(body, ctx, inReset, fsm, resets, s, a);
    case If(cond, ifTrue, ifFalse) =>
      ThenAfter(cond, ctx, inReset, s, fsm, resets);
      var r := IsResetCond(cond, resets);
      var ctx' := if r then ctx else TrueContext(cond, ctx, fsm);
      if a in ArcsOf(ifTrue, ctx', inReset || r, fsm, resets, s) {
        guards, left, right := Found(ifTrue, ctx', inReset || r, fsm, resets, s, a);
        Entered(Then(cond), guards, left, right, s, ctx, inReset, ctx', inReset || r, fsm, resets, a);
        guards := Under(Then(cond), guards);
      } else {
        guards, left, right := Found(ifFalse.value, ctx, inReset && !r, fsm, resets, s, a);
        Entered(Else(cond), guards, left, right, s, ctx, inReset, ctx, inReset && !r, fsm, resets, a);
        guards := Under(Else(cond), guards);
      }
    case Case(expr, items, defaultCase) =>
      if a in ItemArcs(expr, items, ctx, inReset, fsm, resets, s) {
        guards, left, right := FoundInItems(expr, items, ctx, inReset, fsm, resets, s, a);
      } else {
        CaseAfter(expr, [], items, ctx, inReset, s, fsm, resets);
        var ctx' := ItemContext(expr, RestOf(expr, fsm, AllLabels(items)), ctx, fsm);
        guards, left, right := Found(defaultCase.value, ctx', inReset, fsm, resets, s, a);
        Entered(Default(expr, items), guards, left, right, s, ctx, inReset, ctx', inReset, fsm, resets, a);
        guards := Under(Default(expr, items), guards);
      }
    case Assign(l, r, _) =>
      guards, left, right := Here, l, r;
      AssignGives(l, r, s, ctx, inReset, fsm, resets, a);
    case Loop(_, body, _) => guards, left, right := Found(body, ctx, inReset, fsm, resets, s, a);
  }

  lemma {:induction false} FoundInList(stmts: Stmts, ctx: Context, inReset: bool, fsm: States, resets: set<Sym>, s: Sym,
                                       a: Arc)
    returns (guards: Path, left: Expr, right: Expr)
    requires s in fsm && a in ListArcs(stmts, ctx, inReset, fsm, resets, s)
    ensures OccursInList(stmts, guards, left, right)
         && GivesIn(guards, left, right, s, ctx, inReset, fsm, resets, a)
    decreases stmts
  {
    hide GivesIn, ArcsOf, Occurs;
    if a in ArcsOf(stmts.head, ctx, inReset, fsm, resets, s) {
      guards, left, right := Found(stmts.head, ctx, inReset, fsm, resets, s, a);
    } else {
      guards, left, right := FoundInList(stmts.tail, ctx, inReset, fsm, resets, s, a);
    }
  }

  lemma {:induction false} FoundInItems(e: Expr, items: Items, ctx: Context, inReset: bool, fsm: States,
                                        resets: set<Sym>, s: Sym, a: Arc)
    returns (guards: Path, left: Expr, right: Expr)
    requires s in fsm && a in ItemArcs(e, items, ctx, inReset, fsm, resets, s)
    ensures guards.Under? && OccursInItems(e, items, guards, left, right)
    ensures GivesIn(guards, left, right, s, ctx, inReset, fsm, resets, a)
    decreases items
  {
    hide GivesIn, After, ItemContext, LabelValues;
    var ctx' := ItemContext(e, LabelValues(items.labels), ctx, fsm);
    if a in ArcsOf(items.stmt, ctx', inReset, fsm, resets, s) {
      CaseAfter(e, items.labels, items, ctx, inReset, s, fsm, resets);
      guards, left, right := Found(items.stmt, ctx', inReset, fsm, resets, s, a);
      Entered(Label(e, items.labels), guards, left, right, s, ctx, inReset, ctx', inReset, fsm, resets, a);
      guards := Under(Label(e, items.labels), guards);
    } else {
      guards, left, right := FoundInItems(e, items.rest, ctx, inReset, fsm, resets, s, a);
    }
  }

  lemma IfPlaces(st: Stmt, guards: Path, left: Expr, right: Expr)
    requires st.If? && Occurs(st, guards, left, right)
    ensures guards.Under? &&
      ((guards.outer == Then(st.cond) && Occurs(st.ifTrue, guards.inner, left, right)) ||
       (guards.outer == Else(st.cond) && st.ifFalse.Some? && Occurs(st.ifFalse.value, guards.inner, left, right)))
  {}

  lemma IfParts(st: Stmt, ctx: Context, inReset: bool, fsm: States, resets: set<Sym>, s: Sym)
    requires st.If?
    ensures var r := IsResetCond(st.cond, resets);
      && ArcsOf(st.ifTrue, if r then ctx else TrueContext(st.cond, ctx, fsm), inReset || r, fsm, resets, s)
         <= ArcsOf(st, ctx, inReset, fsm, resets, s)
      && (st.ifFalse.Some? ==> ArcsOf(st.ifFalse.value, ctx, inReset && !r, fsm, resets, s)
                               <= ArcsOf(st, ctx, inReset, fsm, resets, s))
  {
    hide TrueContext, IsResetCond;
  }

  lemma CasePlaces(st: Stmt, guards: Path, left: Expr, right: Expr)
    requires st.Case? && Occurs(st, guards, left, right)
    ensures guards.Under? &&
      (OccursInItems(st.expr, st.items, guards, left, right) ||
       (guards.outer == Default(st.expr, st.items) && st.defaultCase.Some?
          && Occurs(st.defaultCase.value, guards.inner, left, right)))
  {
    hide OccursInItems;
  }

  lemma CaseParts(st: Stmt, ctx: Context, inReset: bool, fsm: States, resets: set<Sym>, s: Sym)
    requires st.Case?
    ensures ItemArcs(st.expr, st.items, ctx, inReset, fsm, resets, s) <= ArcsOf(st, ctx, inReset, fsm, resets, s)
    ensures st.defaultCase.Some? ==>
      ArcsOf(st.defaultCase.value, ItemContext(st.expr, RestOf(st.expr, fsm, AllLabels(st.items)), ctx, fsm), inReset,
             fsm, resets, s) <= ArcsOf(st, ctx, inReset, fsm, resets, s)
  {
    hide ItemContext, RestOf, AllLabels, ItemArcs;
  }

  lemma ItemPlaces(e: Expr, items: Items, guards: Path, left: Expr, right: Expr)
    requires guards.Under? && OccursInItems(e, items, guards, left, right)
    ensures items.Item? &&
      ((guards.outer == Label(e, items.labels) && Occurs(items.stmt, guards.inner, left, right)) ||
       OccursInItems(e, items.rest, guards, left, right))
  {
    hide Occurs;
  }

  lemma ItemParts(e: Expr, items: Items, ctx: Context, inReset: bool, fsm: States, resets: set<Sym>, s: Sym)
    requires items.Item?
    ensures ArcsOf(items.stmt, ItemContext(e, LabelValues(items.labels), ctx, fsm), inReset, fsm, resets, s)
         <= ItemArcs(e, items, ctx, inReset, fsm, resets, s)
    ensures ItemArcs(e, items.rest, ctx, inReset, fsm, resets, s) <= ItemArcs(e, items, ctx, inReset, fsm, resets, s)
  {
    hide ItemContext, LabelValues, ArcsOf;
  }

  lemma SimpleParts(st: Stmt, guards: Path, left: Expr, right: Expr, ctx: Context, inReset: bool, fsm: States,
                    resets: set<Sym>, s: Sym)
    requires !st.If? && !st.Case? && Occurs(st, guards, left, right)
    ensures !st.Nothing?
    ensures st.List? ==>
      OccursInList(st.stmts, guards, left, right) &&
      ArcsOf(st, ctx, inReset, fsm, resets, s) == ListArcs(st.stmts, ctx, inReset, fsm, resets, s)
    ensures st.Block? || st.Loop? ==>
      Occurs(st.body, guards, left, right) &&
      ArcsOf(st, ctx, inReset, fsm, resets, s) == ArcsOf(st.body, ctx, inReset, fsm, resets, s)
    ensures st.Assign? ==>
      guards.Here? && left == st.left && right == st.right &&
      ArcsOf(st, ctx, inReset, fsm, resets, s) ==
        if !inReset && Writes(left, fsm, s) then AssignArcs(right, s, ctx) else {}
  {
    hide OccursInList, ListArcs, AssignArcs, Writes;
  }

  /** Every place reports what it gives. */
  lemma {:induction false} Added(st: Stmt, guards: Path, left: Expr, right: Expr, ctx: Context, inReset: bool,
                                 fsm: States, resets: set<Sym>, s: Sym, a: Arc)
    requires s in fsm && Occurs(st, guards, left, right)
    requires GivesIn(guards, left, right, s, ctx, inReset, fsm, resets, a)
    ensures a in ArcsOf(st, ctx, inReset, fsm, resets, s)
    decreases st
  {
    hide *;
    if st.If? {
      var If(cond, ifTrue, ifFalse) := st;
      IfPlaces(st, guards, left, right);
      IfParts(st, ctx, inReset, fsm, resets, s);
      ThenAfter(cond, ctx, inReset, s, fsm, resets);
      var r := IsResetCond(cond, resets);
      var ctx' := if r then ctx else TrueContext(cond, ctx, fsm);
      if guards.outer == Then(cond) && Occurs(ifTrue, guards.inner, left, right) {
        Entered(Then(cond), guards.inner, left, right, s, ctx, inReset, ctx', inReset || r, fsm, resets, a);
        Added(ifTrue, guards.inner, left, right, ctx', inReset || r, fsm, resets, s, a);
      } else {
        Entered(Else(cond), guards.inner, left, right, s, ctx, inReset, ctx, inReset && !r, fsm, resets, a);
        Added(ifFalse.value, guards.inner, left, right, ctx, inReset && !r, fsm, resets, s, a);
      }
    } else if st.Case? {
      var Case(expr, items, defaultCase) := st;
      CasePlaces(st, guards, left, right);
      CaseParts(st, ctx, inReset, fsm, resets, s);
      if OccursInItems(expr, items, guards, left, right) {
        AddedInItems(expr, items, guards, left, right, ctx, inReset, fsm, resets, s, a);
      } else {
        CaseAfter(expr, [], items, ctx, inReset, s, fsm, resets);
        var ctx' := ItemContext(expr, RestOf(expr, fsm, AllLabels(items)), ctx, fsm);
        Entered(Default(expr, items), guards.inner, left, right, s, ctx, inReset, ctx', inReset, fsm, resets, a);
        Added(defaultCase.value, guards.inner, left, right, ctx', inReset, fsm, resets, s, a);
      }
    } else {
      SimpleParts(st, guards, left, right, ctx, inReset, fsm, resets, s);
      if st.List? {
        AddedInList(st.stmts, guards, left, right, ctx, inReset, fsm, resets, s, a);
      } else if st.Assign? {
        AssignGives(left, right, s, ctx, inReset, fsm, resets, a);
      } else {
        Added(st.body, guards, left, right, ctx, inReset, fsm, resets, s, a);
      }
    }
  }

  lemma {:induction false} ListParts(stmts: Stmts, guards: Path, left: Expr, right: Expr, ctx: Context, inReset: bool,
                                     fsm: States, resets: set<Sym>, s: Sym)
    requires OccursInList(stmts, guards, left, right)
    ensures stmts.More? && (Occurs(stmts.head, guards, left, right) || OccursInList(stmts.tail, guards, left, right))
    ensures ArcsOf(stmts.head, ctx, inReset, fsm, resets, s) <= ListArcs(stmts, ctx, inReset, fsm, resets, s)
    ensures ListArcs(stmts.tail, ctx, inReset, fsm, resets, s) <= ListArcs(stmts, ctx, inReset, fsm, resets, s)
  {
    hide ArcsOf, Occurs;
  }

  lemma {:induction false} AddedInList(stmts: Stmts, guards: Path, left: Expr, right: Expr, ctx: Context,
                                       inReset: bool, fsm: States, resets: set<Sym>, s: Sym, a: Arc)
    requires s in fsm && OccursInList(stmts, guards, left, right)
    requires GivesIn(guards, left, right, s, ctx, inReset, fsm, resets, a)
    ensures a in ListArcs(stmts, ctx, inReset, fsm, resets, s)
    decreases stmts
  {
    hide *;
    ListParts(stmts, guards, left, right, ctx, inReset, fsm, resets, s);
    if Occurs(stmts.head, guards, left, right) {
      Added(stmts.head, guards, left, right, ctx, inReset, fsm, resets, s, a);
    } else {
      AddedInList(stmts.tail, guards, left, right, ctx, inReset, fsm, resets, s, a);
    }
  }

  lemma {:induction false} AddedInItems(e: Expr, items: Items, guards: Path, left: Expr, right: Expr, ctx: Context,
                                        inReset: bool, fsm: States, resets: set<Sym>, s: Sym, a: Arc)
    requires s in fsm && guards.Under? && OccursInItems(e, items, guards, left, right)
    requires GivesIn(guards, left, right, s, ctx, inReset, fsm, resets, a)
    ensures a in ItemArcs(e, items, ctx, inReset, fsm, resets, s)
    decreases items
  {
    hide *;
    ItemPlaces(e, items, guards, left, right);
    ItemParts(e, items, ctx, inReset, fsm, resets, s);
    if guards.outer == Label(e, items.labels) && Occurs(items.stmt, guards.inner, left, right) {
      var ctx' := ItemContext(e, LabelValues(items.labels), ctx, fsm);
      CaseAfter(e, items.labels, items, ctx, inReset, s, fsm, resets);
      Entered(guards.outer, guards.inner, left, right, s, ctx, inReset, ctx', inReset, fsm, resets, a);
      Added(items.stmt, guards.inner, left, right, ctx', inReset, fsm, resets, s, a);
    } else {
      AddedInItems(e, items.rest, guards, left, right, ctx, inReset, fsm, resets, s, a);
    }
  }

  /** An arc of s is reported if and only if some assignment outside reset gives it: its target is a constant that may
      be assigned there, and it has a source exactly where a comparison or a case of s encloses the place, namely each
      value that passes the innermost of them. */
  lemma ArcsExact(st: Stmt, fsm: States, resets: set<Sym>, s: Sym, a: Arc)
    requires s in fsm
    ensures a in ArcsOf(st, map[], false, fsm, resets, s) <==>
      exists guards, left, right :: Occurs(st, guards, left, right) && Gives(guards, left, right, s, fsm, resets, a)
  {
    hide ArcsOf, Occurs;
    if a in ArcsOf(st, map[], false, fsm, resets, s) {
      var guards, left, right := Found(st, map[], false, fsm, resets, s, a);
      assert Gives(guards, left, right, s, fsm, resets, a);
    }
    forall guards, left, right | Occurs(st, guards, left, right) && Gives(guards, left, right, s, fsm, resets, a)
      ensures a in ArcsOf(st, map[], false, fsm, resets, s)
    {
      Added(st, guards, left, right, map[], false, fsm, resets, s, a);
    }
  }

  // ---------- the flag ----------

  /** A place outside reset assigns something to s that is no constant. */
  ghost predicate Unknown(guards: Path, left: Expr, right: Expr, s: Sym, resets: set<Sym>, inReset: bool) {
    !InReset(guards, resets, inReset) && Named(left) == Some(s) && MayAssign(right, None)
  }

  lemma UnknownUnder(g: Guard, guards: Path, left: Expr, right: Expr, s: Sym, resets: set<Sym>, inReset: bool)
    ensures Unknown(Under(g, guards), left, right, s, resets, inReset)
       <==> Unknown(guards, left, right, s, resets, Resetting(g, resets, inReset))
  {
    hide MayAssign, Resetting;
  }

  lemma UnknownHere(left: Expr, right: Expr, s: Sym, fsm: States, resets: set<Sym>, inReset: bool)
    requires s in fsm
    ensures Unknown(Here, left, right, s, resets, inReset)
       <==> !inReset && Writes(left, fsm, s) && None in Targets(right)
  {
    hide Strip, ConstVal;
    var t := Targets(right);
    assert None in t <==> t[0] == None || (|t| > 1 && t[1] == None);
  }

  lemma {:induction false} FlagFound(st: Stmt, inReset: bool, fsm: States, resets: set<Sym>, s: Sym)
    returns (guards: Path, left: Expr, right: Expr)
    requires s in fsm && Flags(st, inReset, fsm, resets, s)
    ensures Occurs(st, guards, left, right) && Unknown(guards, left, right, s, resets, inReset)
    decreases st
  {
    hide Unknown, Writes, IsResetCond, Targets;
    match st
    case List(stmts) => guards, left, right := FlagFoundInList(stmts, inReset, fsm, resets, s);
    case Block(body) => guards, left, right := FlagFound(body, inReset, fsm, resets, s);
    case If(cond, ifTrue, ifFalse) =>
      var r := IsResetCond(cond, resets);
      if Flags(ifTrue, inReset || r, fsm, resets, s) {
        guards, left, right := FlagFound(ifTrue, inReset || r, fsm, resets, s);
        UnknownUnder(Then(cond), guards, left, right, s, resets, inReset);
        guards := Under(Then(cond), guards);
      } else {
        guards, left, right := FlagFound(ifFalse.value, inReset && !r, fsm, resets, s);
        UnknownUnder(Else(cond), guards, left, right, s, resets, inReset);
        guards := Under(Else(cond), guards);
      }
    case Case(expr, items, defaultCase) =>
      if ItemFlags(items, inReset, fsm, resets, s) {
        guards, left, right := FlagFoundInItems(expr, items, inReset, fsm, resets, s);
      } else {
        guards, left, right := FlagFound(defaultCase.value, inReset, fsm, resets, s);
        UnknownUnder(Default(expr, items), guards, left, right, s, resets, inReset);
        guards := Under(Default(expr, items), guards);
      }
    case Assign(l, r, _) =>
      guards, left, right := Here, l, r;
      UnknownHere(l, r, s, fsm, resets, inReset);
    case Loop(_, body, _) => guards, left, right := FlagFound(body, inReset, fsm, resets, s);
  }

  lemma {:induction false} FlagFoundInList(stmts: Stmts, inReset: bool, fsm: States, resets: set<Sym>, s: Sym)
    returns (guards: Path, left: Expr, right: Expr)
    requires s in fsm && ListFlags(stmts, inReset, fsm, resets, s)
    ensures OccursInList(stmts, guards, left, right) && Unknown(guards, left, right, s, resets, inReset)
    decreases stmts
  {
    hide Unknown, Flags, Occurs;
    if Flags(stmts.head, inReset, fsm, resets, s) {
      guards, left, right := FlagFound(stmts.head, inReset, fsm, resets, s);
    } else {
      guards, left, right := FlagFoundInList(stmts.tail, inReset, fsm, resets, s);
    }
  }

  lemma {:induction false} FlagFoundInItems(e: Expr, items: Items, inReset: bool, fsm: States, resets: set<Sym>, s: Sym)
    returns (guards: Path, left: Expr, right: Expr)
    requires s in fsm && ItemFlags(items, inReset, fsm, resets, s)
    ensures guards.Under? && OccursInItems(e, items, guards, left, right)
    ensures Unknown(guards, left, right, s, resets, inReset)
    decreases items
  {
    hide Unknown, Flags, Occurs;
    if Flags(items.stmt, inReset, fsm, resets, s) {
      guards, left, right := FlagFound(items.stmt, inReset, fsm, resets, s);
      UnknownUnder(Label(e, items.labels), guards, left, right, s, resets, inReset);
      guards := Under(Label(e, items.labels), guards);
    } else {
      guards, left, right := FlagFoundInItems(e, items.rest, inReset, fsm, resets, s);
    }
  }

  lemma {:induction false} FlagAdded(st: Stmt, guards: Path, left: Expr, right: Expr, inReset: bool, fsm: States,
                                     resets: set<Sym>, s: Sym)
    requires s in fsm && Occurs(st, guards, left, right) && Unknown(guards, left, right, s, resets, inReset)
    ensures Flags(st, inReset, fsm, resets, s)
    decreases st, 1
  {
    hide Unknown, Writes, IsResetCond, Targets, ListFlags, ItemFlags, OccursInList, OccursInItems;
    match st
    case List(stmts) => FlagAddedInList(stmts, guards, left, right, inReset, fsm, resets, s);
    case Block(body) => FlagAdded(body, guards, left, right, inReset, fsm, resets, s);
    case If(_, _, _) => FlagAddedInIf(st, guards, left, right, inReset, fsm, resets, s);
    case Case(_, _, _) => FlagAddedInCase(st, guards, left, right, inReset, fsm, resets, s);
    case Assign(l, r, _) => UnknownHere(l, r, s, fsm, resets, inReset);
    case Loop(_, body, _) => FlagAdded(body, guards, left, right, inReset, fsm, resets, s);
  }

  lemma {:induction false} FlagAddedInIf(st: Stmt, guards: Path, left: Expr, right: Expr, inReset: bool, fsm: States,
                                         resets: set<Sym>, s: Sym)
    requires st.If? && s in fsm && Occurs(st, guards, left, right)
    requires Unknown(guards, left, right, s, resets, inReset)
    ensures Flags(st, inReset, fsm, resets, s)
    decreases st, 0
  {
    hide Unknown, IsResetCond, Occurs;
    var If(cond, ifTrue, ifFalse) := st;
    IfPlaces(st, guards, left, right);
    UnknownUnder(guards.outer, guards.inner, left, right, s, resets, inReset);
    var r := IsResetCond(cond, resets);
    if guards.outer == Then(cond) && Occurs(ifTrue, guards.inner, left, right) {
      FlagAdded(ifTrue, guards.inner, left, right, inReset || r, fsm, resets, s);
    } else {
      FlagAdded(ifFalse.value, guards.inner, left, right, inReset && !r, fsm, resets, s);
    }
  }

  lemma {:induction false} FlagAddedInCase(st: Stmt, guards: Path, left: Expr, right: Expr, inReset: bool, fsm: States,
                                           resets: set<Sym>, s: Sym)
    requires st.Case? && s in fsm && Occurs(st, guards, left, right)
    requires Unknown(guards, left, right, s, resets, inReset)
    ensures Flags(st, inReset, fsm, resets, s)
    decreases st, 0
  {
    hide Unknown, Occurs, OccursInItems, ItemFlags;
    var Case(expr, items, defaultCase) := st;
    CasePlaces(st, guards, left, right);
    if OccursInItems(expr, items, guards, left, right) {
      FlagAddedInItems(expr, items, guards, left, right, inReset, fsm, resets, s);
    } else {
      UnknownUnder(guards.outer, guards.inner, left, right, s, resets, inReset);
      FlagAdded(defaultCase.value, guards.inner, left, right, inReset, fsm, resets, s);
    }
  }

  lemma {:induction false} FlagAddedInList(stmts: Stmts, guards: Path, left: Expr, right: Expr, inReset: bool,
                                           fsm: States, resets: set<Sym>, s: Sym)
    requires s in fsm && OccursInList(stmts, guards, left, right) && Unknown(guards, left, right, s, resets, inReset)
    ensures ListFlags(stmts, inReset, fsm, resets, s)
    decreases stmts, 1
  {
    hide Unknown, Flags, Occurs;
    if Occurs(stmts.head, guards, left, right) {
      FlagAdded(stmts.head, guards, left, right, inReset, fsm, resets, s);
    } else {
      FlagAddedInList(stmts.tail, guards, left, right, inReset, fsm, resets, s);
    }
  }

  lemma {:induction false} FlagAddedInItems(e: Expr, items: Items, guards: Path, left: Expr, right: Expr, inReset: bool,
                                            fsm: States, resets: set<Sym>, s: Sym)
    requires s in fsm && guards.Under? && OccursInItems(e, items, guards, left, right)
    requires Unknown(guards, left, right, s, resets, inReset)
    ensures ItemFlags(items, inReset, fsm, resets, s)
    decreases items, 1
  {
    hide Unknown, Flags, Occurs, OccursInItems;
    ItemPlaces(e, items, guards, left, right);
    if guards.outer == Label(e, items.labels) && Occurs(items.stmt, guards.inner, left, right) {
      UnknownUnder(guards.outer, guards.inner, left, right, s, resets, inReset);
      FlagAdded(items.stmt, guards.inner, left, right, inReset, fsm, resets, s);
    } else {
      FlagAddedInItems(e, items.rest, guards, left, right, inReset, fsm, resets, s);
    }
  }

  /** s is flagged if and only if an assignment outside reset may give it a value that is no constant. */
  lemma FlagExact(st: Stmt, fsm: States, resets: set<Sym>, s: Sym)
    requires s in fsm
    ensures Flags(st, false, fsm, resets, s) <==>
      exists guards, left, right :: Occurs(st, guards, left, right) && Unknown(guards, left, right, s, resets, false)
  {
    hide Flags, Occurs, Unknown;
    if Flags(st, false, fsm, resets, s) {
      var guards, left, right := FlagFound(st, false, fsm, resets, s);
    }
    forall guards, left, right | Occurs(st, guards, left, right) && Unknown(guards, left, right, s, resets, false)
      ensures Flags(st, false, fsm, resets, s)
    {
      FlagAdded(st, guards, left, right, false, fsm, resets, s);
    }
  }
}
