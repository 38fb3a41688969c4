/** The ring that the transformed polynomials of scripts/mlkem/mlkem_ref.py form, and the exchange of the
    order of summation by which the matrix cancels in decryption. */
module MlKemAlgebra {
  import opened Modular
  import opened MlKemNtt

  function Add(f: Poly, g: Poly): Poly {
    seq(256, j requires 0 <= j < 256 => C(Q, f[j] + g[j]))
  }

  function Sub(f: Poly, g: Poly): Poly {
    seq(256, j requires 0 <= j < 256 => C(Q, f[j] - g[j]))
  }

  function Zero(): Poly {
    seq(256, _ => 0)
  }

  ghost predicate IsReduced(f: Poly) {
    forall j :: 0 <= j < 256 ==> 0 <= f[j] < Q
  }

  // ---------- addition ----------

  lemma AddCommutes(f: Poly, g: Poly)
    ensures Add(f, g) == Add(g, f)
  {}

  lemma AddAssociates(f: Poly, g: Poly, h: Poly)
    ensures Add(Add(f, g), h) == Add(f, Add(g, h))
  {
    hide C;
    forall j | 0 <= j < 256
      ensures Add(Add(f, g), h)[j] == Add(f, Add(g, h))[j]
    {
      CAdd(Q, f[j] + g[j], h[j]);
      CAdd(Q, f[j], g[j] + h[j]);
    }
  }

  lemma AddZero(f: Poly)
    requires IsReduced(f)
    ensures Add(Zero(), f) == f
  {
    hide C;
    forall j | 0 <= j < 256
      ensures Add(Zero(), f)[j] == f[j]
    {
      CRange(Q, f[j]);
    }
  }

  lemma AddReduced(f: Poly, g: Poly)
    ensures IsReduced(Add(f, g))
  {
    hide C;
  }

  /** (a + b) + (c + d) = (a + c) + (b + d). */
  lemma AddExchange(a: Poly, b: Poly, c: Poly, d: Poly)
    ensures Add(Add(a, b), Add(c, d)) == Add(Add(a, c), Add(b, d))
  {
    hide Add;
    AddAssociates(a, b, Add(c, d));
    AddAssociates(b, c, d);
    AddCommutes(b, c);
    AddAssociates(c, b, d);
    AddAssociates(a, c, Add(b, d));
  }

  // ---------- multiplication ----------

  lemma ByPairs(f: Poly, g: Poly)
    requires forall i :: 0 <= i < 128 ==> f[2 * i] == g[2 * i] && f[2 * i + 1] == g[2 * i + 1]
    ensures f == g
  {
    forall j | 0 <= j < 256
      ensures f[j] == g[j]
    {
      var i := j / 2;
      assert j == 2 * i || j == 2 * i + 1;
      assert f[2 * i] == g[2 * i] && f[2 * i + 1] == g[2 * i + 1];
    }
  }

  lemma MulCommutes(f: Poly, g: Poly)
    ensures MulNttOf(f, g) == MulNttOf(g, f)
  {
    hide Gamma;
    forall i | 0 <= i < 128
      ensures MulNttOf(f, g)[2 * i] == MulNttOf(g, f)[2 * i] && MulNttOf(f, g)[2 * i + 1] == MulNttOf(g, f)[2 * i + 1]
    {
      MulNttEntries(f, g, i);
      MulNttEntries(g, f, i);
      hide MulNttOf;
      PairCommutes(f[2 * i], f[2 * i + 1], g[2 * i], g[2 * i + 1], Gamma(i));
    }
    ByPairs(MulNttOf(f, g), MulNttOf(g, f));
  }

  lemma PairCommutes(a0: int, a1: int, b0: int, b1: int, g: int)
    ensures PairEven(a0, a1, b0, b1, g) == PairEven(b0, b1, a0, a1, g)
    ensures PairOdd(a0, a1, b0, b1) == PairOdd(b0, b1, a0, a1)
  {
    hide C;
    assert a0 * b0 == b0 * a0 && a1 * b1 == b1 * a1 && a0 * b1 == b1 * a0 && a1 * b0 == b0 * a1;
  }

  lemma MulAssociates(f: Poly, g: Poly, h: Poly)
    ensures MulNttOf(MulNttOf(f, g), h) == MulNttOf(f, MulNttOf(g, h))
  {
    hide Gamma, MulNttOf, PairEven, PairOdd;
    var l, r, fg, gh := MulNttOf(MulNttOf(f, g), h), MulNttOf(f, MulNttOf(g, h)), MulNttOf(f, g), MulNttOf(g, h);
    forall i | 0 <= i < 128
      ensures l[2 * i] == r[2 * i] && l[2 * i + 1] == r[2 * i + 1]
    {
      MulNttEntries(f, g, i);
      MulNttEntries(g, h, i);
      MulNttEntries(fg, h, i);
      MulNttEntries(f, gh, i);
      PairAssociates(f[2 * i], f[2 * i + 1], g[2 * i], g[2 * i + 1], h[2 * i], h[2 * i + 1], Gamma(i));
    }
    ByPairs(l, r);
  }

  lemma PairAssociates(a0: int, a1: int, b0: int, b1: int, c0: int, c1: int, g: int)
    ensures var e, o := PairEven(a0, a1, b0, b1, g), PairOdd(a0, a1, b0, b1);
      var e', o' := PairEven(b0, b1, c0, c1, g), PairOdd(b0, b1, c0, c1);
      PairEven(e, o, c0, c1, g) == PairEven(a0, a1, e', o', g) && PairOdd(e, o, c0, c1) == PairOdd(a0, a1, e', o')
  {
    hide C;
    var e, o, e', o' := a0 * b0 + a1 * b1 * g, a0 * b1 + a1 * b0, b0 * c0 + b1 * c1 * g, b0 * c1 + b1 * c0;
    CIdem(Q, e); CIdem(Q, o); CIdem(Q, e'); CIdem(Q, o');
    PairsCongruent(C(Q, e), C(Q, o), c0, c1, e, o, c0, c1, g);
    PairsCongruent(a0, a1, C(Q, e'), C(Q, o'), a0, a1, e', o', g);
    EvenTerms(a0, a1, b0, b1, c0, c1, g);
    OddTerms(a0, a1, b0, b1, c0, c1, g);
  }

  lemma EvenTerms(a0: int, a1: int, b0: int, b1: int, c0: int, c1: int, g: int)
    ensures (a0 * b0 + a1 * b1 * g) * c0 + (a0 * b1 + a1 * b0) * c1 * g
      == a0 * (b0 * c0 + b1 * c1 * g) + a1 * (b0 * c1 + b1 * c0) * g
  {
    assert (a0 * b0 + a1 * b1 * g) * c0 == (a0 * b0) * c0 + (a1 * b1 * g) * c0;
    assert (a0 * b1 + a1 * b0) * c1 * g == (a0 * b1) * c1 * g + (a1 * b0) * c1 * g;
    assert a0 * (b0 * c0 + b1 * c1 * g) == a0 * (b0 * c0) + a0 * (b1 * c1 * g);
    assert a1 * (b0 * c1 + b1 * c0) * g == a1 * (b0 * c1) * g + a1 * (b1 * c0) * g;
    MulAssoc(a0, b0, c0);
    MulAssoc(a0, b1, c1);
    MulAssoc(a0, b1 * c1, g);
    MulAssoc(a1, b0, c1);
    MoveFactor(a1, b1, g, c0);
    MulAssoc(a1, b1 * c0, g);
  }

  lemma OddTerms(a0: int, a1: int, b0: int, b1: int, c0: int, c1: int, g: int)
    ensures (a0 * b0 + a1 * b1 * g) * c1 + (a0 * b1 + a1 * b0) * c0
      == a0 * (b0 * c1 + b1 * c0) + a1 * (b0 * c0 + b1 * c1 * g)
  {
    assert (a0 * b0 + a1 * b1 * g) * c1 == (a0 * b0) * c1 + (a1 * b1 * g) * c1;
    assert (a0 * b1 + a1 * b0) * c0 == (a0 * b1) * c0 + (a1 * b0) * c0;
    assert a0 * (b0 * c1 + b1 * c0) == a0 * (b0 * c1) + a0 * (b1 * c0);
    assert a1 * (b0 * c0 + b1 * c1 * g) == a1 * (b0 * c0) + a1 * (b1 * c1 * g);
    MulAssoc(a0, b0, c1);
    MulAssoc(a0, b1, c0);
    MulAssoc(a1, b0, c0);
    MoveFactor(a1, b1, g, c1);
  }

  lemma MoveFactor(a: int, b: int, g: int, c: int)
    ensures (a * b * g) * c == a * (b * c * g)
  {
    assert a * b * g == a * (b * g);
    assert (a * (b * g)) * c == a * ((b * g) * c);
    assert (b * g) * c == b * c * g;
  }

  lemma MulDistributes(f: Poly, g: Poly, h: Poly)
    ensures MulNttOf(f, Add(g, h)) == Add(MulNttOf(f, g), MulNttOf(f, h))
  {
    hide Gamma, MulNttOf, PairEven, PairOdd, C;
    var l, r, fg, fh := MulNttOf(f, Add(g, h)), Add(MulNttOf(f, g), MulNttOf(f, h)), MulNttOf(f, g), MulNttOf(f, h);
    forall i | 0 <= i < 128
      ensures l[2 * i] == r[2 * i] && l[2 * i + 1] == r[2 * i + 1]
    {
      MulNttEntries(f, Add(g, h), i);
      MulNttEntries(f, g, i);
      MulNttEntries(f, h, i);
      PairDistributes(f[2 * i], f[2 * i + 1], g[2 * i], g[2 * i + 1], h[2 * i], h[2 * i + 1], Gamma(i));
    }
    ByPairs(l, r);
  }

  lemma PairDistributes(a0: int, a1: int, b0: int, b1: int, c0: int, c1: int, g: int)
    ensures PairEven(a0, a1, C(Q, b0 + c0), C(Q, b1 + c1), g)
      == C(Q, PairEven(a0, a1, b0, b1, g) + PairEven(a0, a1, c0, c1, g))
    ensures PairOdd(a0, a1, C(Q, b0 + c0), C(Q, b1 + c1)) == C(Q, PairOdd(a0, a1, b0, b1) + PairOdd(a0, a1, c0, c1))
  {
    hide C;
    CIdem(Q, b0 + c0); CIdem(Q, b1 + c1);
    PairsCongruent(a0, a1, C(Q, b0 + c0), C(Q, b1 + c1), a0, a1, b0 + c0, b1 + c1, g);
    CAdd(Q, a0 * b0 + a1 * b1 * g, a0 * c0 + a1 * c1 * g);
    CAdd(Q, a0 * b1 + a1 * b0, a0 * c1 + a1 * c0);
    SumTerms(a0, a1, b0, b1, c0, c1, g);
  }

  lemma SumTerms(a0: int, a1: int, b0: int, b1: int, c0: int, c1: int, g: int)
    ensures a0 * (b0 + c0) + a1 * (b1 + c1) * g == (a0 * b0 + a1 * b1 * g) + (a0 * c0 + a1 * c1 * g)
    ensures a0 * (b1 + c1) + a1 * (b0 + c0) == (a0 * b1 + a1 * b0) + (a0 * c1 + a1 * c0)
  {
    assert a1 * (b1 + c1) == a1 * b1 + a1 * c1;
    assert (a1 * b1 + a1 * c1) * g == a1 * b1 * g + a1 * c1 * g;
  }

  lemma MulZero(f: Poly)
    ensures MulNttOf(f, Zero()) == Zero()
  {
    hide Gamma, MulNttOf;
    forall i | 0 <= i < 128
      ensures MulNttOf(f, Zero())[2 * i] == Zero()[2 * i] && MulNttOf(f, Zero())[2 * i + 1] == Zero()[2 * i + 1]
    {
      MulNttEntries(f, Zero(), i);
      PairZero(f[2 * i], f[2 * i + 1], Gamma(i));
    }
    ByPairs(MulNttOf(f, Zero()), Zero());
  }

  lemma PairZero(a0: int, a1: int, g: int)
    ensures PairEven(a0, a1, 0, 0, g) == 0 && PairOdd(a0, a1, 0, 0) == 0
  {
    assert a0 * 0 == 0 && a1 * 0 == 0 && 0 * g == 0;
  }

  // ---------- sums of products ----------

  /** acc = add(acc, mul_ntt(a[i], b[i])) for i < n, from zero. */
  function Dot(a: seq<Poly>, b: seq<Poly>, n: nat): Poly
    requires n <= |a| && n <= |b|
  {
    if n == 0 then Zero() else Add(Dot(a, b, n - 1), MulNttOf(a[n - 1], b[n - 1]))
  }

  /** The same from a given start. */
  function DotFrom(e: Poly, a: seq<Poly>, b: seq<Poly>, n: nat): Poly
    requires n <= |a| && n <= |b|
  {
    if n == 0 then e else Add(DotFrom(e, a, b, n - 1), MulNttOf(a[n - 1], b[n - 1]))
  }

  lemma {:induction false} DotFromIsSum(e: Poly, a: seq<Poly>, b: seq<Poly>, n: nat)
    requires n <= |a| && n <= |b| && IsReduced(e)
    ensures DotFrom(e, a, b, n) == Add(e, Dot(a, b, n))
  {
    hide Add, MulNttOf, Zero, IsReduced;
    if n == 0 {
      AddZero(e);
      AddCommutes(Zero(), e);
    } else {
      DotFromIsSum(e, a, b, n - 1);
      AddAssociates(e, Dot(a, b, n - 1), MulNttOf(a[n - 1], b[n - 1]));
    }
  }

  lemma {:induction false} DotReduced(a: seq<Poly>, b: seq<Poly>, n: nat)
    requires n <= |a| && n <= |b|
    ensures IsReduced(Dot(a, b, n))
  {
    if n > 0 {
      AddReduced(Dot(a, b, n - 1), MulNttOf(a[n - 1], b[n - 1]));
    }
  }

  /** A sum of products distributes over a sum in its second argument. */
  lemma {:induction false} DotDistributes(a: seq<Poly>, b: seq<Poly>, c: seq<Poly>, d: seq<Poly>, n: nat)
    requires n <= |a| && n <= |b| && n <= |c| && n <= |d| && forall i :: 0 <= i < n ==> b[i] == Add(c[i], d[i])
    ensures Dot(a, b, n) == Add(Dot(a, c, n), Dot(a, d, n))
  {
    hide Add, MulNttOf, Zero;
    if n == 0 {
      ZeroReduced();
      AddZero(Zero());
    } else {
      DotDistributes(a, b, c, d, n - 1);
      MulDistributes(a[n - 1], c[n - 1], d[n - 1]);
      AddExchange(Dot(a, c, n - 1), Dot(a, d, n - 1), MulNttOf(a[n - 1], c[n - 1]), MulNttOf(a[n - 1], d[n - 1]));
    }
  }

  lemma ZeroReduced()
    ensures IsReduced(Zero())
  {}

  lemma {:induction false} DotCommutes(a: seq<Poly>, b: seq<Poly>, n: nat)
    requires n <= |a| && n <= |b|
    ensures Dot(a, b, n) == Dot(b, a, n)
  {
    hide Add, MulNttOf, Zero;
    if n > 0 {
      DotCommutes(a, b, n - 1);
      MulCommutes(a[n - 1], b[n - 1]);
    }
  }

  /** (sum of a_j s_j) y = sum of s_j (a_j y). */
  lemma {:induction false} DotTimes(a: seq<Poly>, s: seq<Poly>, y: Poly, c: seq<Poly>, m: nat)
    requires m <= |a| && m <= |s| && m <= |c| && forall j :: 0 <= j < m ==> c[j] == MulNttOf(a[j], y)
    ensures MulNttOf(y, Dot(a, s, m)) == Dot(s, c, m)
  {
    hide Add, MulNttOf, Zero;
    if m == 0 {
      MulZero(y);
    } else {
      DotTimes(a, s, y, c, m - 1);
      MulDistributes(y, Dot(a, s, m - 1), MulNttOf(a[m - 1], s[m - 1]));
      MulCommutes(a[m - 1], s[m - 1]);
      MulCommutes(y, MulNttOf(s[m - 1], a[m - 1]));
      MulAssociates(s[m - 1], a[m - 1], y);
    }
  }

  type Matrix = seq<seq<Poly>>

  ghost predicate IsMatrix(a: Matrix, k: nat) {
    |a| == k && forall i :: 0 <= i < k ==> |a[i]| == k
  }

  /** Column j. */
  function Column(a: Matrix, j: nat, k: nat): (c: seq<Poly>)
    requires IsMatrix(a, k) && j < k
    ensures |c| == k
  {
    seq(k, i requires 0 <= i < k => a[i][j])
  }

  /** Row sums of A s over all rows, and column sums of A^T y over the first n rows. */
  function RowSums(a: Matrix, s: seq<Poly>, k: nat): (r: seq<Poly>)
    requires IsMatrix(a, k) && |s| == k
    ensures |r| == k
  {
    seq(k, i requires 0 <= i < k => Dot(a[i], s, k))
  }

  function ColumnSums(a: Matrix, y: seq<Poly>, n: nat, k: nat): (r: seq<Poly>)
    requires IsMatrix(a, k) && |y| == k && n <= k
    ensures |r| == k
  {
    seq(k, j requires 0 <= j < k => Dot(Column(a, j, k), y, n))
  }

  /** y^T (A s) = s^T (A^T y): the order of summation does not matter. */
  lemma {:induction false} MatrixCancels(a: Matrix, s: seq<Poly>, y: seq<Poly>, n: nat, k: nat)
    requires IsMatrix(a, k) && |s| == k && |y| == k && n <= k
    ensures Dot(y, RowSums(a, s, k), n) == Dot(s, ColumnSums(a, y, n, k), k)
    decreases n
  {
    hide Add, MulNttOf, Zero;
    if n == 0 {
      DotZeros(s, ColumnSums(a, y, 0, k), k);
    } else {
      var m := n - 1;
      MatrixCancels(a, s, y, m, k);
      var c := seq(k, j requires 0 <= j < k => MulNttOf(a[m][j], y[m]));
      DotTimes(a[m], s, y[m], c, k);
      forall j | 0 <= j < k
        ensures ColumnSums(a, y, n, k)[j] == Add(ColumnSums(a, y, m, k)[j], c[j])
      {}
      DotDistributes(s, ColumnSums(a, y, n, k), ColumnSums(a, y, m, k), c, k);
    }
  }

  lemma {:induction false} DotZeros(a: seq<Poly>, b: seq<Poly>, n: nat)
    requires n <= |a| && n <= |b| && forall i :: 0 <= i < n ==> b[i] == Zero()
    ensures Dot(a, b, n) == Zero()
  {
    hide Add, MulNttOf, Zero;
    if n > 0 {
      DotZeros(a, b, n - 1);
      MulZero(a[n - 1]);
      ZeroReduced();
      AddZero(Zero());
    }
  }
}
