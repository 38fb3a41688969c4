/** Why the roots of a shortest recurrence for the syndromes are the error positions, and why
    Forney's quotient gives the error values. */
module Locator {
  import opened GF1024
  import opened GFPowers
  import opened Poly
  import opened PowerSums
  import opened RsCode
  import opened RsDistance
  import opened BerlekampMassey

  /** S holds the syndromes of an error pattern e with at most 15 nonzero symbols, and lam is a
      shortest recurrence of length L for them. */
  ghost predicate Locates(e: seq<Symbol>, S: seq<Symbol>, lam: seq<Symbol>, L: nat) {
    && |e| == N && Weight(e) <= T
    && |S| == NSYM && (forall j: nat :: j < NSYM ==> S[j] == PowerSum(e, j))
    && |lam| == NSYM + 1 && L <= NSYM
    && Generates(lam, L, S, NSYM) && Shortest(L, S, NSYM)
  }

  // ---------- the recurrence as a polynomial ----------

  /** A discrepancy is a linear combination of power sums. */
  lemma {:induction false} DiscrepancyIsDot(p: seq<Symbol>, e: seq<Symbol>, S: seq<Symbol>, i: nat)
    requires |p| <= i + 1 <= |S|
    requires forall j: nat :: j < |S| ==> S[j] == PowerSum(e, j)
    ensures Discrepancy(p, S, i) == Dot(Reverse(p), e, i + 1 - |p|)
  {
    hide Add, Mul, PowerSum;
    var rp := Reverse(p);
    if p != [] {
      var l := |p| - 1;
      var p' := p[..l];
      DiscrepancyIsDot(p', e, S, i);
      assert rp[0] == p[l] && rp[1..] == Reverse(p');
      SumCong(l, j => Mul(At(p, j), At(S, i - j)), j => Mul(At(p', j), At(S, i - j)));
      AddComm(Mul(p[l], S[i - l]), Discrepancy(p', S, i));
    }
  }

  lemma {:induction false} ReverseEval(p: seq<Symbol>, k: nat)
    ensures EvalHigh(p, Alpha(k)) == Mul(Alpha(k * (|p| - 1)), Eval(p, AlphaNeg(k)))
  {
    hide Add, Mul, Alpha;
    MulZero(Alpha(k * (|p| - 1)));
    if p != [] {
      var r := p[1..];
      var x, y, er := Alpha(k), AlphaNeg(k), Eval(r, AlphaNeg(k));
      ReverseEval(r, k);
      assert p == [p[0]] + r;
      EvalHighConcat([p[0]], r, k);
      EvalHighOne(p[0], x);
      var z := Alpha(k * |r|);
      MulLinearRight(z, p[0], Mul(y, er));
      MulComm(z, p[0]);
      MulAssoc(z, y, er);
      AlphaAdds(k * |r|, -(k as int));
      assert k * |r| + -(k as int) == k * (|r| - 1);
    }
  }

  lemma {:induction false} ScaledWeight(e: seq<Symbol>, q: seq<Symbol>, n: nat)
    requires n <= |e|
    ensures WeightBelow(Scaled(e, q), n) <= WeightBelow(e, n)
  {
    hide Mul, Eval;
    if n > 0 {
      ScaledWeight(e, q, n - 1);
      MulZero(Eval(q, Alpha(n - 1)));
    }
  }

  lemma CutDiscrepancy(lam: seq<Symbol>, L: nat, S: seq<Symbol>, i: nat)
    requires L < |lam| && forall j :: L < j < |lam| ==> lam[j] == 0
    ensures Discrepancy(lam[..L + 1], S, i) == Discrepancy(lam, S, i)
  {
    hide Mul, Add;
    var f := (j: nat) => Mul(At(lam, j), At(S, i - j));
    forall j: nat | L + 1 <= j < |lam|
      ensures f(j) == 0
    {
      MulZero(At(S, i - j));
    }
    SumTail(|lam|, L + 1, f);
    SumCong(|lam|, f, j => Mul(At(lam, j), At(S, i - j)));
    SumCong(L + 1, f, j => Mul(At(lam[..L + 1], j), At(S, i - j)));
  }

  /** The true locator is a recurrence as long as there are errors, so L is at most that. */
  lemma LengthAtMostWeight(e: seq<Symbol>, S: seq<Symbol>, lam: seq<Symbol>, L: nat)
    requires Locates(e, S, lam, L)
    ensures L <= Weight(e)
  {
    hide Add, Mul, Alpha, Discrepancy, PowerSum;
    var q := Annihilator(e, |e|, -1);
    var v := Weight(e);
    AnnihilatorLast(e, |e|, -1);
    var sigma := Reverse(q);
    forall p | 0 <= p < |e|
      ensures Scaled(e, q)[p] == 0
    {
      AnnihilatorRoots(e, |e|, -1, p);
      MulZero(e[p]);
      MulZero(Eval(q, Alpha(p)));
    }
    forall i | v <= i < NSYM
      ensures Discrepancy(sigma, S, i) == 0
    {
      DiscrepancyIsDot(sigma, e, S, i);
      assert Reverse(sigma) == q;
      DotIsPowerSum(q, e, i - v);
      PowerSumZero(Scaled(e, q), i - v);
    }
    assert Generates(sigma, v, S, NSYM);
  }

  lemma PowerSumZero(e: seq<Symbol>, j: int)
    requires forall p :: 0 <= p < |e| ==> e[p] == 0
    ensures PowerSum(e, j) == 0
  {
    hide Mul, Alpha;
    forall p: nat | p < |e|
      ensures Mul(At(e, p), Alpha(p * j)) == 0
    {
      MulZero(Alpha(p * j));
    }
    SumZero(|e|, p => Mul(At(e, p), Alpha(p * j)));
  }

  /** Every error position is a root. */
  lemma ErrorsAreRoots(e: seq<Symbol>, S: seq<Symbol>, lam: seq<Symbol>, L: nat)
    requires Locates(e, S, lam, L)
    ensures forall p: nat :: p < N && e[p] != 0 ==> IsRoot(lam[..L + 1], p)
  {
    hide Add, Mul, Alpha, Discrepancy, PowerSum, Eval, EvalHigh;
    LengthAtMostWeight(e, S, lam, L);
    var p := lam[..L + 1];
    var q := Reverse(p);
    var s := Scaled(e, q);
    ScaledWeight(e, q, |e|);
    WeightPrefix(s, s, |e|);
    forall j | 0 <= j < 0 + (NSYM - L)
      ensures PowerSum(s, j) == 0
    {
      DotIsPowerSum(q, e, j);
      DiscrepancyIsDot(p, e, S, j + L);
      CutDiscrepancy(lam, L, S, j + L);
    }
    VanishingPowerSums(s, 0, NSYM - L);
    forall k: nat | k < N && e[k] != 0
      ensures IsRoot(p, k)
    {
      assert s[k] == Mul(e[k], Eval(q, Alpha(k)));
      MulNonzero(e[k], Eval(q, Alpha(k)));
      EvalHighIsEval(p, Alpha(k));
      ReverseEval(p, k);
      AlphaNonzero(k * (|p| - 1));
      MulNonzero(Alpha(k * (|p| - 1)), Eval(p, AlphaNeg(k)));
    }
  }

  lemma {:induction false} RootsCoverErrors(p: seq<Symbol>, e: seq<Symbol>, n: nat)
    requires n <= |e|
    requires forall k: nat :: k < n && e[k] != 0 ==> IsRoot(p, k)
    ensures Roots(p, n) >= WeightBelow(e, n)
    ensures (exists k: nat :: k < n && IsRoot(p, k) && e[k] == 0) ==> Roots(p, n) > WeightBelow(e, n)
  {
    hide IsRoot;
    if n > 0 {
      RootsCoverErrors(p, e, n - 1);
      if k: nat :| k < n && IsRoot(p, k) && e[k] == 0 {
        assert k == n - 1 || k < n - 1;
      }
    }
  }

  /** The recurrence is as long as there are errors, and its roots are exactly the error positions. */
  lemma RootsAreErrors(e: seq<Symbol>, S: seq<Symbol>, lam: seq<Symbol>, L: nat)
    requires Locates(e, S, lam, L)
    ensures L == Weight(e)
    ensures forall p: nat :: p < N ==> (IsRoot(lam[..L + 1], p) <==> e[p] != 0)
  {
    hide IsRoot, PowerSum, Discrepancy;
    LengthAtMostWeight(e, S, lam, L);
    ErrorsAreRoots(e, S, lam, L);
    var p := lam[..L + 1];
    assert p[0] == 1;
    RootBound(p, N);
    RootsCoverErrors(p, e, N);
  }

  // ---------- Forney's formula ----------

  /** Coefficient i of lam(x) / (1 - alpha^k x). */
  function Chain(lam: seq<Symbol>, k: int, i: nat): Symbol {
    if i == 0 then At(lam, 0) else Add(At(lam, i), Mul(Alpha(k), Chain(lam, k, i - 1)))
  }

  lemma {:induction false} ChainSum(lam: seq<Symbol>, k: int, i: nat)
    ensures Sum(i + 1, j => Mul(Alpha(k * j), At(lam, i - j))) == Chain(lam, k, i)
  {
    hide Add, Mul, Alpha;
    var f := (j: nat) => Mul(Alpha(k * j), At(lam, i - j));
    SumFirst(i, f);
    AlphaZero();
    MulOne(At(lam, i));
    assert k * 0 == 0;
    if i == 0 {
      AddZero(At(lam, 0));
    } else {
      ChainSum(lam, k, i - 1);
      var g := (j: nat) => Mul(Alpha(k * j), At(lam, (i - 1) - j));
      forall j: nat | j < i
        ensures f(j + 1) == Mul(Alpha(k), g(j))
      {
        AlphaAdds(k, k * j);
        assert k + k * j == k * (j + 1);
        MulAssoc(Alpha(k), Alpha(k * j), At(lam, i - 1 - j));
      }
      SumCong(i, j => f(j + 1), j => Mul(Alpha(k), g(j)));
      SumScale(i, Alpha(k), g);
      SumCong(i, g, j => Mul(Alpha(k * j), At(lam, i - 1 - j)));
    }
    SumCong(i + 1, f, j => Mul(Alpha(k * j), At(lam, i - j)));
  }

  lemma {:induction false} ChainClosed(lam: seq<Symbol>, k: int, i: nat)
    ensures Chain(lam, k, i) == Mul(Alpha(k * i), Sum(i + 1, j => Mul(At(lam, j), Alpha(-k * j))))
  {
    hide Add, Mul, Alpha;
    var f := (j: nat) => Mul(At(lam, j), Alpha(-k * j));
    AlphaZero();
    assert k * 0 == 0 && -k * 0 == 0;
    if i == 0 {
      MulOne(At(lam, 0));
      assert Sum(1, f) == Add(Sum(0, f), f(0));
      AddZero(f(0));
      MulOne(f(0));
    } else {
      ChainClosed(lam, k, i - 1);
      var y := Alpha(k * i);
      MulLinearRight(y, Sum(i, f), f(i));
      AlphaAdds(k, k * (i - 1));
      assert k + k * (i - 1) == k * i;
      MulAssoc(Alpha(k), Alpha(k * (i - 1)), Sum(i, f));
      MulSwap(y, At(lam, i), Alpha(-k * i));
      AlphaAdds(k * i, -k * i);
      assert k * i + -k * i == 0;
      MulOne(At(lam, i));
      AddComm(At(lam, i), Mul(y, Sum(i, f)));
      SumCong(i, f, j => Mul(At(lam, j), Alpha(-k * j)));
    }
    SumCong(i + 1, f, j => Mul(At(lam, j), Alpha(-k * j)));
  }

  /** At a root the division is exact: the quotient has degree below L. */
  lemma ChainEnds(lam: seq<Symbol>, L: nat, k: nat, i: nat)
    requires L < |lam| && forall j :: L < j < |lam| ==> lam[j] == 0
    requires IsRoot(lam[..L + 1], k) && i >= L
    ensures Chain(lam, k, i) == 0
  {
    hide Add, Mul, Alpha, Eval, Chain;
    var p := lam[..L + 1];
    var kn := -(k as int);
    ChainClosed(lam, k, i);
    EvalSum(p, kn);
    var f := (j: nat) => Mul(At(lam, j), Alpha(kn * j));
    forall j: nat | L + 1 <= j < i + 1
      ensures f(j) == 0
    {
      MulZero(Alpha(kn * j));
    }
    SumTail(i + 1, L + 1, f);
    SumCong(i + 1, f, j => Mul(At(lam, j), Alpha(-(k as int) * j)));
    SumCong(L + 1, f, j => Mul(At(p, j), Alpha(kn * j)));
    MulZero(Alpha(k * i));
  }

  /** The value at alpha^(-q) of lam(x) / (1 - alpha^k x), cut after n terms. */
  function ChainValue(lam: seq<Symbol>, k: int, q: int, n: nat): Symbol {
    Sum(n, i => Mul(Chain(lam, k, i), Alpha(-q * i)))
  }

  lemma {:induction false} ChainTimesFactor(lam: seq<Symbol>, k: int, q: int, n: nat)
    ensures Add(ChainValue(lam, k, q, n + 1), Mul(Alpha(k - q), ChainValue(lam, k, q, n + 1))) ==
      Add(Sum(n + 1, i => Mul(At(lam, i), Alpha(-q * i))), Mul(Alpha(k), Mul(Chain(lam, k, n), Alpha(-q * (n + 1)))))
  {
    hide Add, Mul, Alpha;
    var f := (i: nat) => Mul(Chain(lam, k, i), Alpha(-q * i));
    var g := (i: nat) => Mul(At(lam, i), Alpha(-q * i));
    var w := Alpha(k - q);
    // (alpha^k x) (c x^n) = alpha^k (c x^(n+1))
    var c, x, y := Chain(lam, k, n), Alpha(-q * n), Alpha(-q * (n + 1));
    MulSwap(w, c, x);
    AlphaAdds(k - q, -q * n);
    AlphaAdds(k, -q * (n + 1));
    assert k - q + -q * n == k + -q * (n + 1);
    MulSwap(c, Alpha(k), y);
    var top := Mul(Alpha(k), Mul(c, y));
    assert Mul(w, f(n)) == top;
    assert ChainValue(lam, k, q, n + 1) == Add(ChainValue(lam, k, q, n), f(n));
    MulLinearRight(w, ChainValue(lam, k, q, n), f(n));
    var v := ChainValue(lam, k, q, n);
    AddSwap(v, f(n), Mul(w, v), top);
    assert Sum(n + 1, i => Mul(At(lam, i), Alpha(-q * i))) == Add(Sum(n, i => Mul(At(lam, i), Alpha(-q * i))), g(n));
    if n == 0 {
      MulZero(w); AddZero(0); AddZero(f(0)); AddZero(g(0)); AddZero(Add(f(0), top));
    } else {
      ChainTimesFactor(lam, k, q, n - 1);
      // c = lam[n] + alpha^k c', so c x^n = lam[n] x^n + alpha^k c' x^n
      var c' := Chain(lam, k, n - 1);
      MulLinearLeft(At(lam, n), Mul(Alpha(k), c'), x);
      MulAssoc(Alpha(k), c', x);
      var low, r := Sum(n, i => Mul(At(lam, i), Alpha(-q * i))), Mul(Alpha(k), Mul(c', x));
      assert Add(v, Mul(w, v)) == Add(low, r);
      AddComm(g(n), r);
      TwoCancel(low, r, g(n), top);
    }
  }

  lemma TwoCancel(a: Symbol, r: Symbol, g: Symbol, t: Symbol)
    ensures Add(Add(a, r), Add(Add(r, g), t)) == Add(Add(a, g), t)
  {
    hide *;
    AddAssoc(r, g, t);
    AddAssoc(a, r, Add(r, Add(g, t)));
    AddCancel(Add(g, t), r);
    AddAssoc(a, g, t);
  }

  /** At a root alpha^(-q) of lam, the quotient by another root's factor vanishes. */
  lemma OtherQuotientsVanish(lam: seq<Symbol>, L: nat, k: nat, q: nat)
    requires |lam| == NSYM + 1 && L < NSYM && forall j :: L < j < |lam| ==> lam[j] == 0
    requires IsRoot(lam[..L + 1], k) && IsRoot(lam[..L + 1], q) && k < N && q < N && k != q
    ensures ChainValue(lam, k, q, NSYM) == 0
  {
    hide Add, Mul, Alpha, Chain, Eval, ChainValue;
    var n: nat := NSYM - 1;
    var v := ChainValue(lam, k, q, NSYM);
    ChainTimesFactor(lam, k, q, n);
    ChainEnds(lam, L, k, n);
    RootSum(lam, L, q, NSYM);
    var y := Alpha(-(q as int) * NSYM);
    MulZero(y); MulZero(Alpha(k)); AddZero(0);
    AddIsZero(v, Mul(Alpha(k - q), v));
    // v = alpha^(k-q) v with alpha^(k-q) != 1
    if v != 0 {
      MulOne(v);
      MulLinearLeft(1, Alpha(k - q), v);
      AddSelf(v);
      MulNonzero(Add(1, Alpha(k - q)), v);
      AddIsZero(1, Alpha(k - q));
      AlphaZero();
      if k < q { AlphaDistinct(k - q, 0); } else { AlphaDistinct(0, k - q); }
    }
  }

  lemma RootSum(lam: seq<Symbol>, L: nat, q: nat, n: nat)
    requires L < |lam| && forall j :: L < j < |lam| ==> lam[j] == 0
    requires IsRoot(lam[..L + 1], q) && n > L
    ensures Sum(n, i => Mul(At(lam, i), Alpha(-(q as int) * i))) == 0
  {
    hide Add, Mul, Alpha, Eval;
    var p := lam[..L + 1];
    var qn := -(q as int);
    EvalSum(p, qn);
    var f := (i: nat) => Mul(At(lam, i), Alpha(qn * i));
    forall i: nat | L + 1 <= i < n
      ensures f(i) == 0
    {
      MulZero(Alpha(qn * i));
    }
    SumTail(n, L + 1, f);
    SumCong(n, f, i => Mul(At(lam, i), Alpha(-(q as int) * i)));
    SumCong(L + 1, f, i => Mul(At(p, i), Alpha(qn * i)));
  }
}
