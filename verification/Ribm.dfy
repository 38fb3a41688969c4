/** The reformulated inversionless Berlekamp-Massey that the hardware runs, proved to compute a
    multiple of the same recurrence as the division-based loop of `decode`. */
module Ribm {
  import opened GF1024
  import opened GFPowers
  import opened Poly
  import opened RsCode
  import opened BerlekampMassey

  /** The syndromes as a polynomial, plus x^45. */
  function Extended(S: seq<Symbol>): (A: seq<Symbol>)
    requires |S| == NSYM
    ensures |A| == 3 * T + 1
  {
    S + seq(T, i => 0) + [1]
  }

  // ---------- discrepancies against S and against S + x^45 ----------

  lemma ExtendedDiscrepancy(lam: seq<Symbol>, S: seq<Symbol>, i: int)
    requires |S| == NSYM && i < 3 * T
    ensures Discrepancy(lam, Extended(S), i) == Discrepancy(lam, S, i)
  {
    hide Add, Mul;
    SumCong(|lam|, j => Mul(At(lam, j), At(Extended(S), i - j)), j => Mul(At(lam, j), At(S, i - j)));
  }

  /** Beyond the degree of the product, nothing. */
  lemma DiscrepancyHigh(lam: seq<Symbol>, A: seq<Symbol>, L: nat, i: int)
    requires forall j :: L < j < |lam| ==> lam[j] == 0
    requires i >= L + |A|
    ensures Discrepancy(lam, A, i) == 0
  {
    hide Add, Mul;
    forall j: nat | j < |lam|
      ensures Mul(At(lam, j), At(A, i - j)) == 0
    {
      MulZero(At(lam, j));
      MulZero(At(A, i - j));
    }
    SumZero(|lam|, j => Mul(At(lam, j), At(A, i - j)));
  }

  /** The coefficient 45 + j of lam (S + x^45) is lam[j] when lam has degree at most 15. */
  lemma DiscrepancyTop(lam: seq<Symbol>, S: seq<Symbol>, L: nat, j: nat)
    requires |S| == NSYM && L <= T && j <= T && |lam| == NSYM + 1
    requires forall i :: L < i < |lam| ==> lam[i] == 0
    ensures Discrepancy(lam, Extended(S), 3 * T + j) == lam[j]
  {
    hide Add, Mul;
    var f := (i: nat) => Mul(At(lam, i), At(Extended(S), 3 * T + j - i));
    forall i: nat | i < |lam| && i != j
      ensures f(i) == 0
    {
      MulZero(At(lam, i));
      MulZero(At(Extended(S), 3 * T + j - i));
    }
    SumSingle(|lam|, j, f);
    MulOne(lam[j]);
    SumCong(|lam|, f, i => Mul(At(lam, i), At(Extended(S), (3 * T + j) - i)));
  }

  lemma DiscrepancyOne(A: seq<Symbol>, i: int)
    ensures Discrepancy(One(), A, i) == At(A, i)
  {
    hide Add, Mul;
    var f := (j: nat) => Mul(At(One(), j), At(A, i - j));
    forall j: nat | j < NSYM + 1 && j != 0
      ensures f(j) == 0
    {
      MulZero(At(A, i - j));
    }
    SumSingle(NSYM + 1, 0, f);
    MulOne(At(A, i));
    SumCong(NSYM + 1, f, j => Mul(At(One(), j), At(A, i - j)));
  }

  /** The constant polynomial 1 in 31 coefficients. */
  function One(): (r: seq<Symbol>)
    ensures |r| == NSYM + 1
  {
    [1] + seq(NSYM, i => 0)
  }

  lemma DiscrepancyScale(c: Symbol, lam: seq<Symbol>, p: seq<Symbol>, S: seq<Symbol>, i: int)
    requires |p| <= |lam|
    requires forall j :: 0 <= j < |p| ==> p[j] == Mul(c, lam[j])
    requires forall j :: |p| <= j < |lam| ==> lam[j] == 0
    ensures Discrepancy(p, S, i) == Mul(c, Discrepancy(lam, S, i))
  {
    hide Add, Mul;
    var f := (j: nat) => Mul(At(lam, j), At(S, i - j));
    SumScale(|lam|, c, f);
    forall j: nat | |p| <= j < |lam|
      ensures f(j) == 0
    {
      MulZero(At(S, i - j));
    }
    SumTail(|lam|, |p|, f);
    SumScale(|p|, c, f);
    forall j: nat | j < |p|
      ensures Mul(At(p, j), At(S, i - j)) == Mul(c, f(j))
    {
      MulAssoc(c, At(lam, j), At(S, i - j));
    }
    SumCong(|p|, j => Mul(At(p, j), At(S, i - j)), j => Mul(c, f(j)));
    SumCong(|lam|, f, j => Mul(At(lam, j), At(S, i - j)));
  }

  // ---------- the simulation ----------

  /** The state of the division-based loop before step r, and the two scale factors. */
  datatype Shadow = Shadow(lam: seq<Symbol>, b: seq<Symbol>, L: nat, m: nat, bb: Symbol, c: Symbol, c': Symbol)

  ghost predicate ShadowValid(s: Shadow, S: seq<Symbol>, r: nat) {
    && |s.lam| == |s.b| == NSYM + 1 && s.L <= r
    && Generates(s.lam, s.L, S, r) && Shortest(s.L, S, r)
    && Fallback(s.b, s.bb, s.m, s.L, S, r)
    && s.c != 0 && s.c' != 0
  }

  /** The registers hold the two scaled products from coefficient r up. */
  ghost predicate Simulates(s: Shadow, S: seq<Symbol>, r: nat, d: seq<Symbol>, th: seq<Symbol>, g: Symbol, k: int)
    requires |S| == NSYM
  {
    && |d| == 3 * T + 2 && |th| == 3 * T + 1
    && k == r - 2 * s.L && g == Mul(s.c', s.bb)
    && (forall i :: 0 <= i < |d| ==> d[i] == Mul(s.c, Discrepancy(s.lam, Extended(S), r + i)))
    && (forall i :: 0 <= i < |th| ==> th[i] == Mul(s.c', Discrepancy(s.b, Extended(S), r + i + 1 - s.m)))
  }

  /** One step of the division-based loop. */
  ghost function ShadowStep(s: Shadow, S: seq<Symbol>, r: nat, g: Symbol): Shadow {
    var d := Discrepancy(s.lam, S, r);
    if d == 0 then s.(m := s.m + 1, c := Mul(g, s.c))
    else
      var lam := Update(s.lam, Mul(d, Inv(s.bb)), s.m, s.b);
      if 2 * s.L <= r then Shadow(lam, s.lam, if s.L <= r + 1 then r + 1 - s.L else 0, 1, d, Mul(g, s.c), s.c)
      else s.(lam := lam, m := s.m + 1, c := Mul(g, s.c))
  }

  lemma ShadowStepValid(s: Shadow, S: seq<Symbol>, r: nat, g: Symbol)
    requires |S| == NSYM && r < NSYM && ShadowValid(s, S, r) && g != 0
    ensures ShadowValid(ShadowStep(s, S, r, g), S, r + 1)
  {
    hide Discrepancy, Mul, Add, Inv;
    var d := Discrepancy(s.lam, S, r);
    MulNonzero(g, s.c);
    ShortestKept(s.L, S, r, r + 1);
    if d != 0 {
      var coef := Mul(d, Inv(s.bb));
      InvMul(s.bb);
      MulAssoc(d, Inv(s.bb), s.bb);
      MulComm(Inv(s.bb), s.bb);
      MulOne(d);
      UpdateGenerates(s.lam, s.L, s.b, s.bb, s.m, S, r, coef, if 2 * s.L <= r then r + 1 - s.L else s.L);
      if 2 * s.L <= r {
        ShortestGrows(s.lam, s.L, S, r, r + 1);
      }
    }
  }

  /** gamma Lambda + delta x B is the scaled update, coefficient by coefficient. */
  lemma StepCoefficient(s: Shadow, S: seq<Symbol>, r: nat, g: Symbol, d0: Symbol, i: int)
    requires |S| == NSYM && r < NSYM && ShadowValid(s, S, r)
    requires g == Mul(s.c', s.bb) && d0 == Mul(s.c, Discrepancy(s.lam, S, r))
    ensures var t := ShadowStep(s, S, r, g); var A := Extended(S);
      Mul(t.c, Discrepancy(t.lam, A, i)) ==
        Add(Mul(g, Mul(s.c, Discrepancy(s.lam, A, i))), Mul(d0, Mul(s.c', Discrepancy(s.b, A, i - s.m))))
  {
    hide Discrepancy, Mul, Add, Inv;
    var A := Extended(S);
    var d := Discrepancy(s.lam, S, r);
    var x, y := Discrepancy(s.lam, A, i), Discrepancy(s.b, A, i - s.m);
    var gc := Mul(g, s.c);
    MulAssoc(g, s.c, x);
    if d == 0 {
      MulZero(s.c);
      MulZero(Mul(s.c', y));
      AddZero(Mul(gc, x));
    } else {
      var coef := Mul(d, Inv(s.bb));
      UpdateDiscrepancy(s.lam, coef, s.m, s.b, A, i);
      MulLinearRight(gc, x, Mul(coef, y));
      ScaleFactors(s.c, s.c', s.bb, d, y);
    }
  }

  /** (c' bb c) ((d / bb) y) = (c d) (c' y). */
  lemma ScaleFactors(c: Symbol, c': Symbol, bb: Symbol, d: Symbol, y: Symbol)
    requires bb != 0
    ensures Mul(Mul(Mul(c', bb), c), Mul(Mul(d, Inv(bb)), y)) == Mul(Mul(c, d), Mul(c', y))
  {
    hide *;
    InvMul(bb);
    var q := Inv(bb);
    // move every product into the order c (d (c' y))
    MulAssoc(d, q, y);
    MulSwap(d, q, y);
    MulAssoc(Mul(c', bb), c, Mul(q, Mul(d, y)));
    MulSwap(c, q, Mul(d, y));
    MulAssoc(c', bb, Mul(q, Mul(c, Mul(d, y))));
    MulAssoc(bb, q, Mul(c, Mul(d, y)));
    MulComm(1, Mul(c, Mul(d, y)));
    MulOne(Mul(c, Mul(d, y)));
    MulAssoc(c, d, Mul(c', y));
    MulSwap(c', c, Mul(d, y));
    MulSwap(c', d, y);
  }

  lemma StepSimulates(s: Shadow, S: seq<Symbol>, r: nat, d: seq<Symbol>, th: seq<Symbol>, g: Symbol, k: int,
                      nd: seq<Symbol>)
    requires |S| == NSYM && r < NSYM && ShadowValid(s, S, r) && Simulates(s, S, r, d, th, g, k)
    requires |nd| == 3 * T + 2 && nd[3 * T + 1] == 0
    requires forall i :: 0 <= i < 3 * T + 1 ==> nd[i] == Add(Mul(g, d[i + 1]), Mul(d[0], th[i]))
    ensures var swap := d[0] != 0 && k >= 0;
            Simulates(ShadowStep(s, S, r, g), S, r + 1, nd,
                      if swap then d[1..] else th, if swap then d[0] else g, if swap then -k - 1 else k + 1)
    ensures ShadowValid(ShadowStep(s, S, r, g), S, r + 1)
  {
    hide Discrepancy, Mul, Add, Inv;
    var A := Extended(S);
    var t := ShadowStep(s, S, r, g);
    MulNonzero(s.c', s.bb);
    ShadowStepValid(s, S, r, g);
    ExtendedDiscrepancy(s.lam, S, r);
    assert d[0] == Mul(s.c, Discrepancy(s.lam, A, r + 0));
    MulNonzero(s.c, Discrepancy(s.lam, S, r));
    forall i | 0 <= i < |nd|
      ensures nd[i] == Mul(t.c, Discrepancy(t.lam, A, r + 1 + i))
    {
      if i < 3 * T + 1 {
        StepCoefficient(s, S, r, g, d[0], r + 1 + i);
        assert d[i + 1] == Mul(s.c, Discrepancy(s.lam, A, r + (i + 1)));
        assert r + 1 + i - s.m == r + i + 1 - s.m;
      } else {
        DiscrepancyHigh(t.lam, A, t.L, r + 1 + i);
        MulZero(t.c);
      }
    }
    var swap := d[0] != 0 && k >= 0;
    if swap {
      forall i | 0 <= i < 3 * T + 1
        ensures d[1..][i] == Mul(t.c', Discrepancy(t.b, A, r + 1 + i + 1 - t.m))
      {
        assert d[1..][i] == d[i + 1] == Mul(s.c, Discrepancy(s.lam, A, r + (i + 1)));
      }
    } else {
      assert t.b == s.b && t.c' == s.c' && t.bb == s.bb && t.m == s.m + 1;
      forall i | 0 <= i < 3 * T + 1
        ensures th[i] == Mul(t.c', Discrepancy(t.b, A, r + 1 + i + 1 - t.m))
      {
        assert r + 1 + i + 1 - t.m == r + i + 1 - s.m;
      }
    }
  }

  /** What the registers yield: the length and, for at most 15 errors, a multiple of the shortest
      recurrence together with coefficients 30..44 of its product with the syndromes. */
  ghost predicate Yields(lam: seq<Symbol>, L: nat, S: seq<Symbol>, c: Symbol, Lambda: seq<Symbol>, Omega: seq<Symbol>) {
    && |Lambda| == T + 1 && |Omega| == T
    && |lam| == NSYM + 1 && Generates(lam, L, S, NSYM) && Shortest(L, S, NSYM) && c != 0
    && (L <= T ==>
          && (forall j :: 0 <= j <= T ==> Lambda[j] == Mul(c, lam[j]))
          && (forall i :: 0 <= i < T ==> Omega[i] == Discrepancy(Lambda, S, 2 * T + i)))
  }

  /** For any syndromes the length is that of every shortest recurrence, hence of the one `decode`
      finds, and up to 15 errors that recurrence is recovered up to a nonzero factor. */
  method Ribm(t: Tables, S: seq<Symbol>) returns (Lambda: seq<Symbol>, Omega: seq<Symbol>, L: nat)
    requires t.Valid() && |S| == NSYM
    ensures exists lam, c :: Yields(lam, L, S, c, Lambda, Omega)
    ensures forall lam, l :: |lam| == NSYM + 1 && Generates(lam, l, S, NSYM) && Shortest(l, S, NSYM) ==>
      l == L && (L <= T ==> exists c :: Yields(lam, L, S, c, Lambda, Omega))
  {
    hide Discrepancy, Mul, Add, Inv, Exp, Simulates;
    var d: seq<Symbol> := S + seq(T, i => 0) + [1, 0];
    var th: seq<Symbol> := S + seq(T, i => 0) + [1];
    var k, g: Symbol := 0, 1;
    ghost var s := Shadow(One(), One(), 0, 1, 1, 1, 1);
    InitialSimulates(S, d, th);
    for r := 0 to 2 * T
      invariant |d| == 3 * T + 2 && |th| == 3 * T + 1
      invariant ShadowValid(s, S, r) && Simulates(s, S, r, d, th, g, k)
    {
      var d0 := d[0];
      var nd: seq<Symbol> := [];
      for i := 0 to 3 * T + 1
        invariant |nd| == i
        invariant forall j :: 0 <= j < i ==> nd[j] == Add(Mul(g, d[j + 1]), Mul(d0, th[j]))
      {
        nd := nd + [Add(t.Times(g, d[i + 1]), t.Times(d0, th[i]))];
      }
      nd := nd + [0];
      StepSimulates(s, S, r, d, th, g, k, nd);
      s := ShadowStep(s, S, r, g);
      if d0 != 0 && k >= 0 {
        th, g, k := d[1..3 * T + 2], d0, -k - 1;
        assert d[1..3 * T + 2] == d[1..];
      } else {
        k := k + 1;
      }
      d := nd;
    }
    SimulatedLength(s, S, d, th, g, k);
    Lambda := d[T..2 * T + 1];
    Omega := d[..T];
    L := (2 * T - k) / 2;
    FinalYields(s, S, d, th, g, k);
    forall lam, l | |lam| == NSYM + 1 && Generates(lam, l, S, NSYM) && Shortest(l, S, NSYM)
      ensures l == L && (L <= T ==> exists c :: Yields(lam, L, S, c, Lambda, Omega))
    {
      if L <= T {
        ShortestUnique(lam, s.lam, L, S);
      }
    }
  }

  // ---------- a short recurrence is unique ----------

  /** A shortest recurrence of length at most half the sequence is the only one. */
  lemma ShortestUnique(a: seq<Symbol>, b: seq<Symbol>, L: nat, S: seq<Symbol>)
    requires |a| == |b| == NSYM + 1 && |S| == NSYM && 2 * L <= NSYM
    requires Generates(a, L, S, NSYM) && Generates(b, L, S, NSYM) && Shortest(L, S, NSYM)
    ensures a == b
  {
    hide Discrepancy;
    if a != b {
      var s := FirstDifference(a, b);
      var c := Difference(a, b, s);
      DifferenceGenerates(a, b, L, S, s);
      ExtendTo(c, L - s, a, L, S, NSYM - s, NSYM);
    }
  }

  lemma FirstDifference(a: seq<Symbol>, b: seq<Symbol>) returns (s: nat)
    requires |a| == |b| && a != b
    ensures s < |a| && a[s] != b[s] && forall j :: 0 <= j < s ==> a[j] == b[j]
  {
    s := 0;
    while s < |a| && a[s] == b[s]
      invariant s <= |a| && forall j :: 0 <= j < s ==> a[j] == b[j]
    {
      s := s + 1;
    }
  }

  /** (a - b) / x^s, normalised to constant term 1. */
  ghost function Difference(a: seq<Symbol>, b: seq<Symbol>, s: nat): (c: seq<Symbol>)
    requires |a| == |b| && s < |a| && a[s] != b[s]
    ensures |c| == |a| - s
  {
    seq<Symbol>(|a| - s, j requires 0 <= j < |a| - s => Mul(Inv(Add(a[s], b[s])), Add(a[j + s], b[j + s])))
  }

  lemma DifferenceDiscrepancy(a: seq<Symbol>, b: seq<Symbol>, S: seq<Symbol>, s: nat, i: int)
    requires |a| == |b| && s < |a| && a[s] != b[s] && forall j :: 0 <= j < s ==> a[j] == b[j]
    ensures Discrepancy(Difference(a, b, s), S, i) ==
      Mul(Inv(Add(a[s], b[s])), Add(Discrepancy(a, S, i + s), Discrepancy(b, S, i + s)))
  {
    hide Add, Mul, Inv;
    var n, q := |a|, Inv(Add(a[s], b[s]));
    var c := Difference(a, b, s);
    var fa := (j: nat) => Mul(At(a, j), At(S, i + s - j));
    var fb := (j: nat) => Mul(At(b, j), At(S, i + s - j));
    var f := (j: nat) => Mul(At(c, j), At(S, i - j));
    SumAdd(n, fa, fb);
    var both := (j: nat) => Add(fa(j), fb(j));
    var scaled := (j: nat) => Mul(q, both(j));
    SumScale(n, q, both);
    forall j: nat | j < n
      ensures j < s ==> scaled(j) == 0
      ensures j >= s ==> scaled(j) == f(j - s)
    {
      MulLinearLeft(At(a, j), At(b, j), At(S, i + s - j));
      MulAssoc(q, Add(At(a, j), At(b, j)), At(S, i + s - j));
      if j < s {
        AddSelf(a[j]);
        MulZero(At(S, i + s - j));
        MulZero(q);
      } else {
        assert i + s - j == i - (j - s);
      }
    }
    SumCong(n, both, j => Add(fa(j), fb(j)));
    SumCong(n, scaled, j => Mul(q, both(j)));
    SumShift(n, s, scaled, f);
    SumCong(n - s, f, j => Mul(At(c, j), At(S, i - j)));
    SumCong(n, fa, j => Mul(At(a, j), At(S, (i + s) - j)));
    SumCong(n, fb, j => Mul(At(b, j), At(S, (i + s) - j)));
  }

  lemma DifferenceGenerates(a: seq<Symbol>, b: seq<Symbol>, L: nat, S: seq<Symbol>, s: nat)
    requires |a| == |b| == NSYM + 1 && s <= NSYM && a[s] != b[s] && forall j :: 0 <= j < s ==> a[j] == b[j]
    requires Generates(a, L, S, NSYM) && Generates(b, L, S, NSYM)
    ensures 1 <= s <= L && Generates(Difference(a, b, s), L - s, S, NSYM - s)
  {
    hide Discrepancy, Mul, Add, Inv;
    var d := Add(a[s], b[s]);
    AddIsZero(a[s], b[s]);
    InvMul(d);
    MulComm(d, Inv(d));
    AddSelf(0);
    MulZero(Inv(d));
    var c := Difference(a, b, s);
    forall i | L - s <= i < NSYM - s
      ensures Discrepancy(c, S, i) == 0
    {
      DifferenceDiscrepancy(a, b, S, s, i);
    }
  }

  /** By Massey's bound a recurrence c that is much shorter than a cannot fail where a does not. */
  lemma {:induction false} ExtendTo(c: seq<Symbol>, l: nat, a: seq<Symbol>, L: nat, S: seq<Symbol>, r: nat, n: nat)
    requires Generates(c, l, S, r) && Generates(a, L, S, n) && Shortest(L, S, n)
    requires r <= n && l < L && l + L <= r
    ensures false
    decreases n - r
  {
    hide Discrepancy;
    if r < n {
      assert Generates(a, L, S, r + 1);
      if Discrepancy(c, S, r) != 0 {
        LengthBound(c, l, a, L, S, r);
      } else {
        ExtendTo(c, l, a, L, S, r + 1, n);
      }
    }
  }

  lemma SimulatedLength(s: Shadow, S: seq<Symbol>, d: seq<Symbol>, th: seq<Symbol>, g: Symbol, k: int)
    requires |S| == NSYM && Simulates(s, S, 2 * T, d, th, g, k)
    ensures k == 2 * T - 2 * s.L
  {}

  lemma InitialSimulates(S: seq<Symbol>, d: seq<Symbol>, th: seq<Symbol>)
    requires |S| == NSYM && d == S + seq(T, i => 0) + [1, 0] && th == S + seq(T, i => 0) + [1]
    ensures var s := Shadow(One(), One(), 0, 1, 1, 1, 1); ShadowValid(s, S, 0) && Simulates(s, S, 0, d, th, 1, 0)
  {
    hide Discrepancy, Mul, Add;
    MulOne(1);
    forall i | 0 <= i < |d|
      ensures d[i] == Mul(1, Discrepancy(One(), Extended(S), 0 + i))
    {
      DiscrepancyOne(Extended(S), 0 + i);
      MulOne(d[i]);
    }
    forall i | 0 <= i < |th|
      ensures th[i] == Mul(1, Discrepancy(One(), Extended(S), 0 + i + 1 - 1))
    {
      DiscrepancyOne(Extended(S), 0 + i + 1 - 1);
      MulOne(th[i]);
    }
  }

  lemma FinalYields(s: Shadow, S: seq<Symbol>, d: seq<Symbol>, th: seq<Symbol>, g: Symbol, k: int)
    requires |S| == NSYM && ShadowValid(s, S, 2 * T) && Simulates(s, S, 2 * T, d, th, g, k)
    ensures Yields(s.lam, s.L, S, s.c, d[T..2 * T + 1], d[..T])
  {
    hide Discrepancy, Mul, Add;
    var Lambda, Omega := d[T..2 * T + 1], d[..T];
    if s.L <= T {
      forall j | 0 <= j <= T
        ensures Lambda[j] == Mul(s.c, s.lam[j])
      {
        DiscrepancyTop(s.lam, S, s.L, j);
        assert d[T + j] == Mul(s.c, Discrepancy(s.lam, Extended(S), 2 * T + (T + j)));
      }
      forall i | 0 <= i < T
        ensures Omega[i] == Discrepancy(Lambda, S, 2 * T + i)
      {
        assert d[i] == Mul(s.c, Discrepancy(s.lam, Extended(S), 2 * T + i));
        ExtendedDiscrepancy(s.lam, S, 2 * T + i);
        DiscrepancyScale(s.c, s.lam, Lambda, S, 2 * T + i);
      }
    }
  }
}
