/** Power sums of a vector of symbols at the points alpha^0, alpha^1, ...: what the syndromes of
    an error pattern are. Too few errors cannot make many consecutive power sums vanish. */
module PowerSums {
  import opened GF1024
  import opened GFPowers
  import opened Poly

  /** The j-th power sum: sum over positions p of e[p] alpha^(p j). */
  function PowerSum(e: seq<Symbol>, j: int): Symbol {
    Sum(|e|, p => Mul(At(e, p), Alpha(p * j)))
  }

  function Weight(e: seq<Symbol>): nat {
    WeightBelow(e, |e|)
  }

  /** How many of the first n entries are nonzero. */
  function WeightBelow(e: seq<Symbol>, n: nat): nat
    requires n <= |e|
  {
    if n == 0 then 0 else WeightBelow(e, n - 1) + if e[n - 1] != 0 then 1 else 0
  }

  /** Each entry of e times the value of q at its point. */
  function Scaled(e: seq<Symbol>, q: seq<Symbol>): (r: seq<Symbol>)
    ensures |r| == |e|
  {
    seq(|e|, p requires 0 <= p < |e| => Mul(e[p], Eval(q, Alpha(p))))
  }

  /** sum over k of q[k] S(m + k), where S is the power sum of e. */
  function Dot(q: seq<Symbol>, e: seq<Symbol>, m: int): Symbol {
    if q == [] then 0 else Add(Mul(q[0], PowerSum(e, m)), Dot(q[1..], e, m + 1))
  }

  /** A linear recurrence on the power sums weighs every position by the value of its polynomial. */
  lemma {:induction false} DotIsPowerSum(q: seq<Symbol>, e: seq<Symbol>, m: int)
    ensures Dot(q, e, m) == PowerSum(Scaled(e, q), m)
  {
    hide Add, Mul, Alpha;
    var s := Scaled(e, q);
    var f := (p: nat) => Mul(At(s, p), Alpha(p * m));
    if q == [] {
      forall p: nat | p < |e|
        ensures f(p) == 0
      {
        MulZero(e[p]);
        MulZero(Alpha(p * m));
        assert At(s, p) == 0;
      }
      SumZero(|e|, f);
      SumCong(|e|, f, p => Mul(At(s, p), Alpha(p * m)));
    } else {
      var r := q[1..];
      var t := Scaled(e, r);
      DotIsPowerSum(r, e, m + 1);
      var g := (p: nat) => Mul(At(e, p), Alpha(p * m));
      var gq := (p: nat) => Mul(q[0], g(p));
      var h := (p: nat) => Mul(At(t, p), Alpha(p * (m + 1)));
      SumScale(|e|, q[0], g);
      SumAdd(|e|, gq, h);
      SumCong(|e|, p => Mul(At(e, p), Alpha(p * m)), g);
      SumCong(|e|, p => Mul(q[0], g(p)), gq);
      SumCong(|e|, p => Mul(At(t, p), Alpha(p * (m + 1))), h);
      forall p: nat | p < |e|
        ensures Add(gq(p), h(p)) == f(p)
      {
        DotTerm(q[0], e[p], p, m, Eval(r, Alpha(p)));
      }
      SumCong(|e|, p => Add(gq(p), h(p)), f);
      SumCong(|e|, p => Mul(At(s, p), Alpha(p * m)), f);
    }
  }

  lemma DotTerm(c: Symbol, a: Symbol, p: nat, m: int, v: Symbol)
    ensures Add(Mul(c, Mul(a, Alpha(p * m))), Mul(Mul(a, v), Alpha(p * (m + 1)))) ==
      Mul(Mul(a, Add(c, Mul(Alpha(p), v))), Alpha(p * m))
  {
    hide *;
    var x, y := Alpha(p), Alpha(p * m);
    AlphaAdds(p, p * m);
    assert p + p * m == p * (m + 1);
    // (a v) (x y) = a (x v) y
    MulAssoc(a, v, Mul(x, y));
    MulAssoc(v, x, y);
    MulComm(v, x);
    MulAssoc(a, Mul(x, v), y);
    // c (a y) = a c y
    MulSwap(c, a, y);
    MulAssoc(a, c, y);
    MulLinearRight(a, c, Mul(x, v));
    MulLinearLeft(Mul(a, c), Mul(a, Mul(x, v)), y);
  }

  // ---------- the polynomial with a root at every error position ----------

  /** (x + a) q. */
  function TimesLinear(q: seq<Symbol>, a: Symbol): (r: seq<Symbol>)
    ensures |r| == |q| + 1
  {
    if q == [] then [0]
    else [Mul(a, q[0])] + AddHead(q[0], TimesLinear(q[1..], a))
  }

  /** p with c added to its constant term. */
  function AddHead(c: Symbol, p: seq<Symbol>): (r: seq<Symbol>)
    requires p != []
    ensures |r| == |p|
  {
    [Add(c, p[0])] + p[1..]
  }

  lemma {:induction false} TimesLinearEval(q: seq<Symbol>, a: Symbol, x: Symbol)
    ensures Eval(TimesLinear(q, a), x) == Mul(Add(x, a), Eval(q, x))
  {
    hide Mul, Add;
    MulZero(Add(x, a)); MulZero(x); AddZero(0);
    if q != [] {
      var r := q[1..];
      var t := TimesLinear(r, a);
      var h := AddHead(q[0], t);
      TimesLinearEval(r, a, x);
      var l := TimesLinear(q, a);
      assert l[0] == Mul(a, q[0]) && l[1..] == h;
      assert h[1..] == t[1..];
      hide TimesLinear;
      TimesLinearStep(q[0], t[0], Eval(t[1..], x), Eval(r, x), x, a);
    } else {
      assert TimesLinear(q, a)[1..] == [];
    }
  }

  lemma TimesLinearStep(c: Symbol, t0: Symbol, t1: Symbol, rx: Symbol, x: Symbol, a: Symbol)
    requires Add(t0, Mul(x, t1)) == Mul(Add(x, a), rx)
    ensures Add(Mul(a, c), Mul(x, Add(Add(c, t0), Mul(x, t1)))) == Mul(Add(x, a), Add(c, Mul(x, rx)))
  {
    hide *;
    var d := Add(x, a);
    AddAssoc(c, t0, Mul(x, t1));
    MulLinearRight(x, c, Mul(d, rx));
    MulSwap(x, d, rx);
    MulLinearRight(d, c, Mul(x, rx));
    MulLinearLeft(x, a, c);
    AddComm(Mul(x, c), Mul(a, c));
    AddAssoc(Mul(a, c), Mul(x, c), Mul(d, Mul(x, rx)));
  }

  lemma {:induction false} TimesLinearLast(q: seq<Symbol>, a: Symbol)
    requires q != []
    ensures TimesLinear(q, a)[|q|] == q[|q| - 1]
  {
    var t := TimesLinear(q[1..], a);
    assert TimesLinear(q, a)[|q|] == AddHead(q[0], t)[|q| - 1];
    if |q| == 1 {
      assert q[1..] == [];
      AddZero(q[0]);
    } else {
      TimesLinearLast(q[1..], a);
    }
  }

  /** The product of (x - alpha^p) over the positions p < n, p != skip, where e is nonzero. */
  function Annihilator(e: seq<Symbol>, n: nat, skip: int): (q: seq<Symbol>)
    requires n <= |e|
    ensures q != []
  {
    if n == 0 then [1]
    else
      var q := Annihilator(e, n - 1, skip);
      if e[n - 1] != 0 && n - 1 != skip then TimesLinear(q, Alpha(n - 1)) else q
  }

  lemma {:induction false} AnnihilatorLast(e: seq<Symbol>, n: nat, skip: int)
    requires n <= |e|
    ensures var q := Annihilator(e, n, skip); q[|q| - 1] == 1
    ensures |Annihilator(e, n, skip)| == WeightBelow(e, n) + if 0 <= skip < n && e[skip] != 0 then 0 else 1
  {
    hide TimesLinear;
    if n > 0 {
      AnnihilatorLast(e, n - 1, skip);
      TimesLinearLast(Annihilator(e, n - 1, skip), Alpha(n - 1));
    }
  }

  /** It vanishes exactly at the positions it was built from. */
  lemma {:induction false} AnnihilatorRoots(e: seq<Symbol>, n: nat, skip: int, p: nat)
    requires n <= |e| <= 1023 && p < 1023
    ensures Eval(Annihilator(e, n, skip), Alpha(p)) == 0 <==> p < n && e[p] != 0 && p != skip
  {
    hide Mul, Add, TimesLinear, Alpha;
    if n == 0 {
      MulZero(Alpha(p)); AddZero(1);
      assert [1 as Symbol][1..] == [];
    } else {
      var q := Annihilator(e, n - 1, skip);
      AnnihilatorRoots(e, n - 1, skip, p);
      TimesLinearEval(q, Alpha(n - 1), Alpha(p));
      MulNonzero(Add(Alpha(p), Alpha(n - 1)), Eval(q, Alpha(p)));
      AddIsZero(Alpha(p), Alpha(n - 1));
      if p < n - 1 { AlphaDistinct(p, n - 1); }
      if n - 1 < p { AlphaDistinct(n - 1, p); }
    }
  }

  /** A vector with at most v nonzero entries and v consecutive vanishing power sums is zero. */
  lemma VanishingPowerSums(e: seq<Symbol>, m: int, v: nat)
    requires |e| <= 1023 && Weight(e) <= v
    requires forall j :: m <= j < m + v ==> PowerSum(e, j) == 0
    ensures forall p :: 0 <= p < |e| ==> e[p] == 0
  {
    forall p | 0 <= p < |e|
      ensures e[p] == 0
    {
      if e[p] != 0 {
        VanishingAt(e, m, v, p);
      }
    }
  }

  lemma VanishingAt(e: seq<Symbol>, m: int, v: nat, k: nat)
    requires |e| <= 1023 && Weight(e) <= v && k < |e|
    requires forall j :: m <= j < m + v ==> PowerSum(e, j) == 0
    ensures e[k] == 0
  {
    hide Mul, Add, Alpha, Eval, Annihilator;
    if e[k] != 0 {
      var q := Annihilator(e, |e|, k);
      AnnihilatorLast(e, |e|, k);
      DotZero(q, e, m);
      DotIsPowerSum(q, e, m);
      var s := Scaled(e, q);
      var f := (p: nat) => Mul(At(s, p), Alpha(p * m));
      forall p: nat | p < |e| && p != k
        ensures f(p) == 0
      {
        AnnihilatorRoots(e, |e|, k, p);
        MulNonzero(e[p], Eval(q, Alpha(p)));
        MulNonzero(s[p], Alpha(p * m));
      }
      SumSingle(|e|, k, f);
      SumCong(|e|, f, p => Mul(At(s, p), Alpha(p * m)));
      AnnihilatorRoots(e, |e|, k, k);
      MulNonzero(e[k], Eval(q, Alpha(k)));
      AlphaNonzero(k * m);
      MulNonzero(s[k], Alpha(k * m));
    }
  }

  lemma {:induction false} DotZero(q: seq<Symbol>, e: seq<Symbol>, m: int)
    requires forall j :: m <= j < m + |q| ==> PowerSum(e, j) == 0
    ensures Dot(q, e, m) == 0
  {
    hide PowerSum;
    if q != [] {
      DotZero(q[1..], e, m + 1);
      MulZero(q[0]);
      AddZero(0);
    }
  }
}
