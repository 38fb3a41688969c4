/** Sums and polynomials over GF(2^10): Horner evaluation, interchange of sums, and the bound on
    the number of roots. A polynomial is its sequence of coefficients, lowest degree first. */
module Poly {
  import opened GF1024
  import opened GFPowers

  // ---------- sums ----------

  function Sum(n: nat, f: nat -> Symbol): Symbol {
    if n == 0 then 0 else Add(Sum(n - 1, f), f(n - 1))
  }

  lemma {:induction false} SumCong(n: nat, f: nat -> Symbol, g: nat -> Symbol)
    requires forall i: nat :: i < n ==> f(i) == g(i)
    ensures Sum(n, f) == Sum(n, g)
  {
    hide Add;
    if n > 0 {
      SumCong(n - 1, f, g);
    }
  }

  lemma {:induction false} SumZero(n: nat, f: nat -> Symbol)
    requires forall i: nat :: i < n ==> f(i) == 0
    ensures Sum(n, f) == 0
  {
    if n > 0 {
      SumZero(n - 1, f);
      AddZero(0);
    }
  }

  lemma {:induction false} SumAdd(n: nat, f: nat -> Symbol, g: nat -> Symbol)
    ensures Sum(n, i => Add(f(i), g(i))) == Add(Sum(n, f), Sum(n, g))
  {
    AddZero(0);
    hide Add;
    if n > 0 {
      SumAdd(n - 1, f, g);
      AddSwap(Sum(n - 1, f), Sum(n - 1, g), f(n - 1), g(n - 1));
    }
  }

  lemma {:induction false} SumScale(n: nat, c: Symbol, f: nat -> Symbol)
    ensures Sum(n, i => Mul(c, f(i))) == Mul(c, Sum(n, f))
  {
    MulZero(c);
    hide Add, Mul;
    if n > 0 {
      SumScale(n - 1, c, f);
      MulLinearRight(c, Sum(n - 1, f), f(n - 1));
    }
  }

  /** Only one term is nonzero. */
  lemma {:induction false} SumSingle(n: nat, k: nat, f: nat -> Symbol)
    requires k < n
    requires forall i: nat :: i < n && i != k ==> f(i) == 0
    ensures Sum(n, f) == f(k)
  {
    AddZero(f(k));
    hide Add;
    if k == n - 1 {
      SumZero(n - 1, f);
    } else {
      SumSingle(n - 1, k, f);
    }
  }

  lemma {:induction false} SumFirst(n: nat, f: nat -> Symbol)
    ensures Sum(n + 1, f) == Add(f(0), Sum(n, i => f(i + 1)))
  {
    var g := (i: nat) => f(i + 1);
    if n == 0 {
      AddComm(f(0), 0);
      assert Sum(1, f) == Add(Sum(0, f), f(0));
    } else {
      hide Add;
      SumFirst(n - 1, f);
      AddAssoc(f(0), Sum(n - 1, g), f(n));
      assert Sum(n, g) == Add(Sum(n - 1, g), g(n - 1));
      SumCong(n - 1, i => f(i + 1), g);
      SumCong(n, i => f(i + 1), g);
    }
  }

  function RowSum(h: (nat, nat) -> Symbol, n: nat): nat -> Symbol {
    i => Sum(n, j => h(i, j))
  }

  function ColSum(h: (nat, nat) -> Symbol, m: nat): nat -> Symbol {
    j => Sum(m, i => h(i, j))
  }

  lemma {:induction false} SumSwap(m: nat, n: nat, h: (nat, nat) -> Symbol)
    ensures Sum(m, RowSum(h, n)) == Sum(n, ColSum(h, m))
  {
    hide Add;
    if m == 0 {
      SumZero(n, ColSum(h, 0));
    } else {
      SumSwap(m - 1, n, h);
      var last := (j: nat) => h(m - 1, j);
      var both := (j: nat) => Add(ColSum(h, m - 1)(j), last(j));
      SumAdd(n, ColSum(h, m - 1), last);
      SumCong(n, both, i => Add(ColSum(h, m - 1)(i), last(i)));
      forall j: nat | j < n
        ensures both(j) == ColSum(h, m)(j)
      {
        SumCong(m - 1, i => h(i, j), i => h(i, j));
      }
      SumCong(n, both, ColSum(h, m));
      SumCong(n, last, j => h(m - 1, j));
    }
  }

  // ---------- polynomials ----------

  /** Coefficient i, zero outside the sequence. */
  function At(p: seq<Symbol>, i: int): Symbol {
    if 0 <= i < |p| then p[i] else 0
  }

  /** p(x) by Horner's rule. */
  function Eval(p: seq<Symbol>, x: Symbol): Symbol {
    if p == [] then 0 else Add(p[0], Mul(x, Eval(p[1..], x)))
  }

  /** p(alpha^k) as a sum of terms. */
  lemma {:induction false} EvalSum(p: seq<Symbol>, k: int)
    ensures Eval(p, Alpha(k)) == Sum(|p|, i => Mul(At(p, i), Alpha(k * i)))
  {
    hide Add, Mul, Alpha;
    if p != [] {
      var x := Alpha(k);
      var q := p[1..];
      var f := (i: nat) => Mul(At(p, i), Alpha(k * i));
      var g := (i: nat) => Mul(At(q, i), Alpha(k * i));
      EvalSum(q, k);
      SumCong(|q|, i => Mul(At(q, i), Alpha(k * i)), g);
      SumScale(|q|, x, g);
      SumFirst(|q|, f);
      forall i: nat | i < |q|
        ensures Mul(x, g(i)) == f(i + 1)
      {
        MulSwap(x, q[i], Alpha(k * i));
        AlphaAdds(k, k * i);
        assert k + k * i == k * (i + 1);
      }
      SumCong(|q|, i => Mul(x, g(i)), i => f(i + 1));
      assert f(0) == p[0] by {
        AlphaZero();
        MulOne(p[0]);
        assert k * 0 == 0;
      }
      SumCong(|p|, f, i => Mul(At(p, i), Alpha(k * i)));
    }
  }

  lemma MulSwap(a: Symbol, b: Symbol, c: Symbol)
    ensures Mul(a, Mul(b, c)) == Mul(b, Mul(a, c))
  {
    hide *;
    MulAssoc(a, b, c);
    MulComm(a, b);
    MulAssoc(b, a, c);
  }

  // ---------- division by a linear factor, and the number of roots ----------

  /** The quotient of p by (x - a). */
  function Quotient(p: seq<Symbol>, a: Symbol): (q: seq<Symbol>)
    ensures |q| == if |p| == 0 then 0 else |p| - 1
  {
    if |p| <= 1 then [] else [Eval(p[1..], a)] + Quotient(p[1..], a)
  }

  lemma {:induction false} QuotientEval(p: seq<Symbol>, a: Symbol, x: Symbol)
    ensures Add(Eval(p, x), Eval(p, a)) == Mul(Add(x, a), Eval(Quotient(p, a), x))
  {
    hide Mul;
    var d := Add(x, a);
    MulZero(d); MulZero(x); MulZero(a);
    AddSelf(0); AddZero(0);
    if |p| == 0 {
    } else if |p| == 1 {
      assert p[1..] == [];
      AddZero(p[0]);
      AddSelf(p[0]);
    } else {
      var r := p[1..];
      var q := Quotient(r, a);
      QuotientEval(r, a, x);
      assert Quotient(p, a) == [Eval(r, a)] + q;
      assert ([Eval(r, a)] + q)[1..] == q;
      hide Eval, Quotient, Add;
      QuotientStep(p[0], x, a, Eval(r, x), Eval(r, a), Eval(q, x));
    }
  }

  lemma QuotientStep(c: Symbol, x: Symbol, a: Symbol, rx: Symbol, ra: Symbol, qx: Symbol)
    requires Add(rx, ra) == Mul(Add(x, a), qx)
    ensures Add(Add(c, Mul(x, rx)), Add(c, Mul(a, ra))) == Mul(Add(x, a), Add(ra, Mul(x, qx)))
  {
    hide *;
    var d := Add(x, a);
    AddSwap(c, Mul(x, rx), c, Mul(a, ra)); AddSelf(c); AddZero(Add(Mul(x, rx), Mul(a, ra)));
    // x rx + a ra = x (rx + ra) + (x + a) ra
    MulLinearRight(d, ra, Mul(x, qx));
    MulSwap(d, x, qx);
    MulLinearRight(x, rx, ra);
    MulLinearLeft(x, a, ra);
    AddSwap(Mul(x, ra), Mul(a, ra), Mul(x, ra), Mul(x, rx));
    AddSelf(Mul(x, ra));
    AddComm(Mul(x, rx), Mul(x, ra));
    AddComm(Mul(a, ra), Mul(x, rx));
    AddZero(Add(Mul(x, rx), Mul(a, ra)));
  }

  /** If the quotient by (x - a) vanishes and p(a) = 0, then p vanishes. */
  lemma {:induction false} QuotientZero(p: seq<Symbol>, a: Symbol)
    requires Eval(p, a) == 0
    requires forall i :: 0 <= i < |p| - 1 ==> Quotient(p, a)[i] == 0
    ensures forall i :: 0 <= i < |p| ==> p[i] == 0
  {
    if |p| == 1 {
      assert p[1..] == [];
      MulZero(a);
      AddZero(p[0]);
    } else if |p| > 1 {
      var r := p[1..];
      var q := Quotient(r, a);
      assert Quotient(p, a)[0] == Eval(r, a);
      forall i | 0 <= i < |r| - 1
        ensures q[i] == 0
      {
        assert Quotient(p, a)[i + 1] == q[i];
      }
      QuotientZero(r, a);
      MulZero(a);
      AddZero(p[0]);
    }
  }

  /** alpha^(-k). */
  function AlphaNeg(k: nat): Symbol {
    Alpha(-(k as int))
  }

  predicate IsRoot(p: seq<Symbol>, k: nat) {
    Eval(p, AlphaNeg(k)) == 0
  }

  /** How many k below n make alpha^(-k) a root of p. */
  ghost function Roots(p: seq<Symbol>, n: nat): nat {
    if n == 0 then 0 else Roots(p, n - 1) + if IsRoot(p, n - 1) then 1 else 0
  }

  /** A nonzero polynomial has fewer roots than coefficients. */
  lemma {:induction false} RootBound(p: seq<Symbol>, n: nat)
    requires n <= 1023
    requires exists i :: 0 <= i < |p| && p[i] != 0
    ensures Roots(p, n) < |p|
    decreases |p|
  {
    hide AlphaNeg, Eval, Quotient;
    if k: nat :| k < n && IsRoot(p, k) {
      var a := AlphaNeg(k);
      var q := Quotient(p, a);
      if forall i :: 0 <= i < |q| ==> q[i] == 0 {
        QuotientZero(p, a);
      } else {
        RootBound(q, n);
        RootsQuotient(p, q, k, n, n);
      }
    } else {
      NoRoots(p, n);
    }
  }

  lemma {:induction false} NoRoots(p: seq<Symbol>, n: nat)
    requires forall k: nat :: k < n ==> !IsRoot(p, k)
    ensures Roots(p, n) == 0
  {
    hide IsRoot;
    if n > 0 {
      NoRoots(p, n - 1);
    }
  }

  lemma {:induction false} RootsQuotient(p: seq<Symbol>, q: seq<Symbol>, k: nat, n: nat, top: nat)
    requires n <= top <= 1023 && k < top
    requires IsRoot(p, k) && q == Quotient(p, AlphaNeg(k))
    ensures Roots(p, n) <= Roots(q, n) + if k < n then 1 else 0
  {
    hide Alpha, Eval, Quotient;
    if n > 0 {
      RootsQuotient(p, q, k, n - 1, top);
      var x, a := AlphaNeg(n - 1), AlphaNeg(k);
      if n - 1 != k && IsRoot(p, n - 1) {
        QuotientEval(p, a, x);
        hide Mul, Add;
        AddZero(0);
        MulNonzero(Add(x, a), Eval(q, x));
        AddIsZero(x, a);
        AlphaNegDistinct(n - 1, k);
      }
    }
  }

  lemma AlphaNegDistinct(k: nat, l: nat)
    requires k < 1023 && l < 1023 && k != l
    ensures AlphaNeg(k) != AlphaNeg(l)
  {
    hide Alpha;
    if k < l {
      AlphaDistinct(-(l as int), -(k as int));
    } else {
      AlphaDistinct(-(k as int), -(l as int));
    }
  }
}
