/** The Berlekamp-Massey loop of `decode`: it finds a shortest linear recurrence for any thirty
    symbols, not only for those that come from a correctable error. */
module BerlekampMassey {
  import opened GF1024
  import opened GFPowers
  import opened Poly
  import opened RsCode

  /** Coefficient r of lam(x) S(x): the discrepancy of the recurrence lam at S[r]. */
  function Discrepancy(lam: seq<Symbol>, S: seq<Symbol>, r: int): Symbol {
    Sum(|lam|, j => Mul(At(lam, j), At(S, r - j)))
  }

  /** lam, with constant term 1 and degree at most L, predicts S[L..n) from the L symbols before each. */
  ghost predicate Generates(lam: seq<Symbol>, L: nat, S: seq<Symbol>, n: nat) {
    && lam != [] && lam[0] == 1
    && (forall j :: L < j < |lam| ==> lam[j] == 0)
    && (forall i :: L <= i < n ==> Discrepancy(lam, S, i) == 0)
  }

  /** Massey's bound: if lam first fails at S[r], every recurrence that also predicts S[r] is at least r
      + 1 - L long. */
  lemma LengthBound(lam: seq<Symbol>, L: nat, c: seq<Symbol>, l: nat, S: seq<Symbol>, r: nat)
    requires Generates(lam, L, S, r) && Discrepancy(lam, S, r) != 0
    requires Generates(c, l, S, r + 1)
    ensures l + L >= r + 1
  {
    hide Add, Mul, Discrepancy;
    if l + L <= r {
      SumSwap(|c|, |lam|, DoubleTerm(c, lam, S, r));
      RowsTotal(lam, L, c, l, S, r);
      ColumnsTotal(lam, L, c, l, S, r);
    }
  }

  /** The term of the double sum over both polynomials. */
  function DoubleTerm(c: seq<Symbol>, lam: seq<Symbol>, S: seq<Symbol>, r: nat): (nat, nat) -> Symbol {
    (i: nat, j: nat) => Mul(At(c, i), Mul(At(lam, j), At(S, r - i - j)))
  }

  /** Summed by rows only the discrepancy of the old register is left. */
  lemma RowsTotal(lam: seq<Symbol>, L: nat, c: seq<Symbol>, l: nat, S: seq<Symbol>, r: nat)
    requires Generates(lam, L, S, r) && Generates(c, l, S, r + 1) && l + L <= r
    ensures Sum(|c|, RowSum(DoubleTerm(c, lam, S, r), |lam|)) == Discrepancy(lam, S, r)
  {
    hide Add, Mul, Discrepancy;
    var h := DoubleTerm(c, lam, S, r);
    forall i: nat | i < |c|
      ensures RowSum(h, |lam|)(i) == Mul(At(c, i), Discrepancy(lam, S, r - i))
    {
      RowOfDouble(c, lam, S, r, i);
      SumCong(|lam|, j => h(i, j), j => Mul(At(c, i), Mul(At(lam, j), At(S, r - i - j))));
    }
    forall i: nat | i < |c| && i != 0
      ensures RowSum(h, |lam|)(i) == 0
    {
      MulZero(Discrepancy(lam, S, r - i));
      MulZero(At(c, i));
    }
    SumSingle(|c|, 0, RowSum(h, |lam|));
    MulOne(Discrepancy(lam, S, r));
  }

  /** Summed by columns nothing is left. */
  lemma ColumnsTotal(lam: seq<Symbol>, L: nat, c: seq<Symbol>, l: nat, S: seq<Symbol>, r: nat)
    requires Generates(lam, L, S, r) && Generates(c, l, S, r + 1) && l + L <= r
    ensures Sum(|lam|, ColSum(DoubleTerm(c, lam, S, r), |c|)) == 0
  {
    hide Add, Mul, Discrepancy;
    var h := DoubleTerm(c, lam, S, r);
    forall j: nat | j < |lam|
      ensures ColSum(h, |c|)(j) == 0
    {
      ColOfDouble(c, lam, S, r, j);
      SumCong(|c|, i => h(i, j), i => Mul(At(c, i), Mul(At(lam, j), At(S, r - i - j))));
      MulZero(Discrepancy(c, S, r - j));
      MulZero(At(lam, j));
    }
    SumZero(|lam|, ColSum(h, |c|));
  }

  lemma RowOfDouble(c: seq<Symbol>, lam: seq<Symbol>, S: seq<Symbol>, r: int, i: nat)
    ensures Sum(|lam|, j => Mul(At(c, i), Mul(At(lam, j), At(S, r - i - j))))
      == Mul(At(c, i), Discrepancy(lam, S, r - i))
  {
    hide Add, Mul;
    var f := (j: nat) => Mul(At(lam, j), At(S, r - i - j));
    SumScale(|lam|, At(c, i), f);
    SumCong(|lam|, j => Mul(At(c, i), f(j)), j => Mul(At(c, i), Mul(At(lam, j), At(S, r - i - j))));
    SumCong(|lam|, f, j => Mul(At(lam, j), At(S, (r - i) - j)));
  }

  lemma ColOfDouble(c: seq<Symbol>, lam: seq<Symbol>, S: seq<Symbol>, r: int, j: nat)
    ensures Sum(|c|, i => Mul(At(c, i), Mul(At(lam, j), At(S, r - i - j)))) == Mul(At(lam, j), Discrepancy(c, S, r - j))
  {
    hide Add, Mul;
    var f := (i: nat) => Mul(At(c, i), At(S, r - j - i));
    SumScale(|c|, At(lam, j), f);
    forall i: nat | i < |c|
      ensures Mul(At(c, i), Mul(At(lam, j), At(S, r - i - j))) == Mul(At(lam, j), f(i))
    {
      MulSwap(At(c, i), At(lam, j), At(S, r - i - j));
      assert r - i - j == r - j - i;
    }
    SumCong(|c|, i => Mul(At(c, i), Mul(At(lam, j), At(S, r - i - j))), i => Mul(At(lam, j), f(i)));
    SumCong(|c|, f, i => Mul(At(c, i), At(S, (r - j) - i)));
  }

  // ---------- lam + coef x^m b ----------

  /** lam(x) + coef x^m b(x), cut to the length of lam. */
  function Update(lam: seq<Symbol>, coef: Symbol, m: nat, b: seq<Symbol>): (r: seq<Symbol>)
    ensures |r| == |lam|
  {
    seq(|lam|, i requires 0 <= i < |lam| => Add(lam[i], Mul(coef, At(b, i - m))))
  }

  /** A sum whose first m terms vanish. */
  lemma {:induction false} SumShift(n: nat, m: nat, f: nat -> Symbol, g: nat -> Symbol)
    requires m <= n
    requires forall i: nat :: i < m ==> f(i) == 0
    requires forall i: nat :: m <= i < n ==> f(i) == g(i - m)
    ensures Sum(n, f) == Sum(n - m, g)
  {
    hide Add;
    if n == m {
      SumZero(n, f);
    } else {
      SumShift(n - 1, m, f, g);
    }
  }

  lemma {:induction false} SumTail(n: nat, k: nat, f: nat -> Symbol)
    requires k <= n
    requires forall i: nat :: k <= i < n ==> f(i) == 0
    ensures Sum(n, f) == Sum(k, f)
  {
    if n > k {
      SumTail(n - 1, k, f);
      AddZero(Sum(k, f));
    }
  }

  /** The terms of x^m b against S at r. */
  function ShiftedTerms(b: seq<Symbol>, m: nat, S: seq<Symbol>, r: int): nat -> Symbol {
    j => Mul(At(b, j - m), At(S, r - j))
  }

  lemma ShiftedDiscrepancy(b: seq<Symbol>, m: nat, S: seq<Symbol>, r: int)
    requires m <= |b|
    requires forall i :: |b| - m <= i < |b| ==> b[i] == 0
    ensures Sum(|b|, ShiftedTerms(b, m, S, r)) == Discrepancy(b, S, r - m)
  {
    hide Add, Mul;
    var n := |b|;
    var g := (i: nat) => Mul(At(b, i), At(S, r - m - i));
    var gs := ShiftedTerms(b, m, S, r);
    forall j: nat | j < n
      ensures j < m ==> gs(j) == 0
      ensures j >= m ==> gs(j) == g(j - m)
    {
      MulZero(At(S, r - j));
      if j >= m {
        assert r - m - (j - m) == r - j;
      } else {
        assert gs(j) == Mul(At(b, j - m), At(S, r - j)) == Mul(0, At(S, r - j));
      }
    }
    SumShift(n, m, gs, g);
    forall i: nat | n - m <= i < n
      ensures g(i) == 0
    {
      MulZero(At(S, r - m - i));
    }
    SumTail(n, n - m, g);
    SumCong(n, g, j => Mul(At(b, j), At(S, (r - m) - j)));
  }

  /** The discrepancy of the update, when x^m b keeps within the length of lam. */
  lemma UpdateDiscrepancy(lam: seq<Symbol>, coef: Symbol, m: nat, b: seq<Symbol>, S: seq<Symbol>, r: int)
    requires |lam| == |b| && m <= |b|
    requires forall i :: |b| - m <= i < |b| ==> b[i] == 0
    ensures Discrepancy(Update(lam, coef, m, b), S, r) ==
      Add(Discrepancy(lam, S, r), Mul(coef, Discrepancy(b, S, r - m)))
  {
    hide Add, Mul;
    var n := |lam|;
    var u := Update(lam, coef, m, b);
    var f := (j: nat) => Mul(At(lam, j), At(S, r - j));
    var gs := ShiftedTerms(b, m, S, r);
    var cg := (j: nat) => Mul(coef, gs(j));
    forall j: nat | j < n
      ensures Mul(At(u, j), At(S, r - j)) == Add(f(j), cg(j))
    {
      MulLinearLeft(lam[j], Mul(coef, At(b, j - m)), At(S, r - j));
      MulAssoc(coef, At(b, j - m), At(S, r - j));
    }
    SumCong(n, j => Mul(At(u, j), At(S, r - j)), j => Add(f(j), cg(j)));
    SumAdd(n, f, cg);
    SumCong(n, cg, j => Mul(coef, gs(j)));
    SumScale(n, coef, gs);
    ShiftedDiscrepancy(b, m, S, r);
    SumCong(n, f, j => Mul(At(lam, j), At(S, r - j)));
  }

  // ---------- the algorithm ----------

  /** What the loop knows about the recurrence b it fell back from: it first failed at S[r - m], by bb. */
  ghost predicate Fallback(b: seq<Symbol>, bb: Symbol, m: nat, L: nat, S: seq<Symbol>, r: nat) {
    var k := r - m;
    && 1 <= m <= r + 1 && bb != 0 && k + 1 >= L
    && (forall j :: k + 1 - L < j < |b| ==> b[j] == 0)
    && (k == -1 ==> L == 0)
    && (k >= 0 ==> Discrepancy(b, S, k) == bb)
    && (forall i :: k + 1 - L <= i < k ==> Discrepancy(b, S, i) == 0)
  }

  /** One update keeps what lam predicted and makes it predict S[r] as well. */
  lemma UpdateGenerates(lam: seq<Symbol>, L: nat, b: seq<Symbol>, bb: Symbol, m: nat, S: seq<Symbol>, r: nat,
                        coef: Symbol, L': nat)
    requires |lam| == |b| == NSYM + 1 && r < NSYM
    requires Generates(lam, L, S, r) && Fallback(b, bb, m, L, S, r) && L <= r
    requires Mul(coef, bb) == Discrepancy(lam, S, r)
    requires L' == if 2 * L <= r then r + 1 - L else L
    ensures Generates(Update(lam, coef, m, b), L', S, r + 1)
  {
    hide Add, Mul, Discrepancy;
    var u := Update(lam, coef, m, b);
    MulZero(coef);
    AddZero(0);
    AddZero(1);
    forall i | L' <= i < r + 1
      ensures Discrepancy(u, S, i) == 0
    {
      UpdateDiscrepancy(lam, coef, m, b, S, i);
      if i == r {
        AddSelf(Discrepancy(lam, S, r));
      }
    }
  }

  /** No recurrence shorter than L predicts S[..n). */
  ghost predicate Shortest(L: nat, S: seq<Symbol>, n: nat) {
    forall c, l :: Generates(c, l, S, n) ==> L <= l
  }

  lemma ShortestKept(L: nat, S: seq<Symbol>, r: nat, n: nat)
    requires Shortest(L, S, r) && r <= n
    ensures Shortest(L, S, n)
  {
    hide Discrepancy;
    forall c, l | Generates(c, l, S, n)
      ensures L <= l
    {
      assert Generates(c, l, S, r);
    }
  }

  lemma ShortestGrows(lam: seq<Symbol>, L: nat, S: seq<Symbol>, r: nat, n: nat)
    requires Generates(lam, L, S, r) && Discrepancy(lam, S, r) != 0 && n == r + 1 && L <= n
    ensures Shortest(n - L, S, n)
  {
    forall c, l | Generates(c, l, S, n)
      ensures n - L <= l
    {
      LengthBound(lam, L, c, l, S, r);
    }
  }

  method BerlekampMassey(t: Tables, S: seq<Symbol>) returns (lam: seq<Symbol>, L: nat)
    requires t.Valid() && |S| == NSYM
    ensures |lam| == NSYM + 1 && L <= NSYM
    ensures Generates(lam, L, S, NSYM)
    ensures Shortest(L, S, NSYM)
  {
    hide Discrepancy, Mul, Add, Exp;
    lam := [1] + seq(NSYM, i => 0);
    var b := lam;
    var m, bb: Symbol := 1, 1;
    L := 0;
    for r := 0 to NSYM
      invariant |lam| == |b| == NSYM + 1 && L <= r
      invariant Generates(lam, L, S, r)
      invariant Fallback(b, bb, m, L, S, r)
      invariant Shortest(L, S, r)
    {
      var d := ComputeDiscrepancy(t, lam, L, S, r);
      ShortestKept(L, S, r, r + 1);
      if d == 0 {
        m := m + 1;
      } else {
        var coef := t.Times(d, t.Inverse(bb));
        MulAssoc(d, t.Inverse(bb), bb);
        MulComm(t.Inverse(bb), bb);
        MulOne(d);
        if 2 * L <= r {
          ShortestGrows(lam, L, S, r, r + 1);
          UpdateGenerates(lam, L, b, bb, m, S, r, coef, r + 1 - L);
          var tmp := lam;
          lam := AddShifted(t, lam, coef, m, b);
          L, b, bb, m := r + 1 - L, tmp, d, 1;
        } else {
          UpdateGenerates(lam, L, b, bb, m, S, r, coef, L);
          lam := AddShifted(t, lam, coef, m, b);
          m := m + 1;
        }
      }
    }
  }

  method ComputeDiscrepancy(t: Tables, lam: seq<Symbol>, L: nat, S: seq<Symbol>, r: nat) returns (d: Symbol)
    requires t.Valid() && L <= r < |S| && L < |lam| && lam[0] == 1
    requires forall j :: L < j < |lam| ==> lam[j] == 0
    ensures d == Discrepancy(lam, S, r)
  {
    hide Mul, Add, Exp;
    ghost var f := (j: nat) => Mul(At(lam, j), At(S, r - j));
    d := S[r];
    MulOne(d); AddZero(d);
    assert Sum(1, f) == Add(Sum(0, f), f(0));
    for i := 1 to L + 1
      invariant d == Sum(i, f)
    {
      d := Add(d, t.Times(lam[i], S[r - i]));
    }
    forall i: nat | L + 1 <= i < |lam|
      ensures f(i) == 0
    {
      MulZero(At(S, r - i));
    }
    SumTail(|lam|, L + 1, f);
    SumCong(|lam|, f, j => Mul(At(lam, j), At(S, r - j)));
  }

  method AddShifted(t: Tables, lam: seq<Symbol>, coef: Symbol, m: nat, b: seq<Symbol>) returns (r: seq<Symbol>)
    requires t.Valid() && |lam| == |b| == NSYM + 1 && m <= NSYM + 1
    ensures r == Update(lam, coef, m, b)
  {
    hide Mul, Add, Exp;
    r := lam;
    MulZero(coef);
    forall k | 0 <= k < m
      ensures Add(lam[k], Mul(coef, At(b, k - m))) == lam[k]
    {
      AddZero(lam[k]);
    }
    for i := 0 to NSYM + 1 - m
      invariant |r| == |lam|
      invariant forall k :: 0 <= k < m + i ==> r[k] == Add(lam[k], Mul(coef, At(b, k - m)))
      invariant forall k :: m + i <= k < |lam| ==> r[k] == lam[k]
    {
      r := r[i + m := Add(r[i + m], t.Times(coef, b[i]))];
    }
  }
}
