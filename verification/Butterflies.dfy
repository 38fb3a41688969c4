/** The number-theoretic transforms of scripts/mldsa/mldsa_ref.py (8 layers) and scripts/mlkem/mlkem_ref.py
    (7 layers) as layers of butterflies over 256 coefficients: each undoes the other, and both are linear. */
module Butterflies {
  import opened Arithmetic
  import opened Modular

  /** A modulus with a root of unity zeta of order 2^(bits + 1), and the inverse of 2^bits. */
  datatype Ring = Ring(q: nat, zeta: nat, bits: nat, inv: nat) {
    predicate Valid() {
      && q > 1 && 1 <= bits <= 8
      && Pow(q, zeta, Pow2(bits)) == q - 1
      && C(q, inv * Pow2(bits)) == 1
    }
  }

  // ---------- the table of zetas ----------

  /** ZETAS[m] = zeta^brv(m). */
  function Zeta(R: Ring, m: nat): (z: int)
    requires R.q > 1
    ensures 0 <= z < R.q
  {
    Pow(R.q, R.zeta, Rev(m, R.bits))
  }

  /** The square of a table entry is the entry of its parent in the splitting tree, negated for odd children. */
  lemma ZetaSquare(R: Ring, m: nat)
    requires R.Valid() && 2 <= m < Pow2(R.bits)
    ensures C(R.q, Zeta(R, m) * Zeta(R, m)) == C(R.q, if m % 2 == 0 then Zeta(R, m / 2) else -Zeta(R, m / 2))
  {
    hide C, Pow, Rev, Pow2;
    RevHalf(m, R.bits);
    var e, h := Rev(m, R.bits), Rev(m / 2, R.bits);
    PowAdds(R.q, R.zeta, e, e);
    if m % 2 == 1 {
      PowAdds(R.q, R.zeta, Pow2(R.bits), h);
      MinusOne(R.q, Zeta(R, m / 2));
    } else {
      CRange(R.q, Zeta(R, m / 2));
    }
  }

  lemma ZetaOne(R: Ring)
    requires R.Valid()
    ensures C(R.q, Zeta(R, 1) * Zeta(R, 1)) == R.q - 1
  {
    hide C, Pow, Rev, Pow2;
    RevOne(R.bits);
    PowAdds(R.q, R.zeta, Rev(1, R.bits), Rev(1, R.bits));
  }

  /** The key to inverting a layer: the descending entry is minus the inverse of the ascending one. */
  lemma ZetaMirror(R: Ring, t: nat, k: nat, p: nat)
    requires R.Valid() && t < R.bits && p == Pow2(t) && k < p
    ensures C(R.q, Zeta(R, p + k) * Zeta(R, 2 * p - 1 - k)) == R.q - 1
  {
    hide C, Pow, Rev, Pow2;
    RevMirror(R.bits, t, k, p);
    PowAdds(R.q, R.zeta, Rev(p + k, R.bits), Rev(2 * p - 1 - k, R.bits));
  }

  // ---------- one layer ----------

  /** One entry of a layer of butterflies over blocks of 2 ln, of which there are p = 128 / ln;
      block b uses ZETAS[p + b]. */
  function Butterfly(R: Ring, w: Poly, ln: nat, p: nat, j: nat): int
    requires R.q > 1 && ln > 0 && ln * p == 128 && j < 256
  {
    Half(j, ln, p);
    var z := Zeta(R, p + j / (2 * ln));
    if j % (2 * ln) < ln then C(R.q, w[j] + C(R.q, z * w[j + ln])) else C(R.q, w[j - ln] - C(R.q, z * w[j]))
  }

  function Layer(R: Ring, w: Poly, ln: nat, p: nat): (r: Poly)
    requires R.q > 1 && ln > 0 && ln * p == 128
  {
    seq(256, j requires 0 <= j < 256 => Butterfly(R, w, ln, p, j))
  }

  /** One entry of an inverse layer; block b uses minus ZETAS[2p - 1 - b]. */
  function InvButterfly(R: Ring, w: Poly, ln: nat, p: nat, j: nat): int
    requires R.q > 1 && ln > 0 && ln * p == 128 && j < 256
  {
    Half(j, ln, p);
    var z := R.q - Zeta(R, 2 * p - 1 - j / (2 * ln));
    if j % (2 * ln) < ln then C(R.q, w[j] + w[j + ln]) else C(R.q, z * (w[j - ln] - w[j]))
  }

  function InvLayer(R: Ring, w: Poly, ln: nat, p: nat): (r: Poly)
    requires R.q > 1 && ln > 0 && ln * p == 128
  {
    seq(256, j requires 0 <= j < 256 => InvButterfly(R, w, ln, p, j))
  }

  /** Where index j lies: its block, and its partner in the other half of the block. */
  lemma Half(j: nat, ln: nat, p: nat)
    requires j < 256 && ln > 0 && ln * p == 128
    ensures j / (2 * ln) < p
    ensures j % (2 * ln) < ln ==>
      j + ln < 256 && (j + ln) / (2 * ln) == j / (2 * ln) && (j + ln) % (2 * ln) == j % (2 * ln) + ln
    ensures j % (2 * ln) >= ln ==>
      j >= ln && (j - ln) / (2 * ln) == j / (2 * ln) && (j - ln) % (2 * ln) == j % (2 * ln) - ln
  {
    var d := 2 * ln;
    var b, o := j / d, j % d;
    DivMod(j, d);
    assert d * p == 256;
    hide *;
    HalfOf(j, ln, d, b, o, p);
  }

  lemma HalfOf(j: nat, ln: nat, d: nat, b: nat, o: nat, p: nat)
    requires d == 2 * ln && ln > 0 && d * p == 256 && j < 256 && j == d * b + o && o < d
    ensures b < p
    ensures o < ln ==> j + ln < 256 && (j + ln) / d == b && (j + ln) % d == o + ln
    ensures o >= ln ==> j >= ln && (j - ln) / d == b && (j - ln) % d == o - ln
  {
    if b >= p {
      MulMono(d, p, b);
    }
    MulMono(d, b + 1, p);
    assert d * (b + 1) == d * b + d;
    if o < ln {
      Divide(b, o + ln, d);
    } else {
      Divide(b, o - ln, d);
      assert d * b >= 0;
    }
  }

  /** j and j + ln are the two ends of a butterfly of block b. */
  predicate IsPair(j: nat, ln: nat, p: nat, b: nat) {
    && ln > 0 && ln * p == 128 && b < p && j + ln < 256
    && j / (2 * ln) == b && j % (2 * ln) < ln
  }

  lemma LayerAt(R: Ring, w: Poly, ln: nat, p: nat, b: nat, j: nat)
    requires R.q > 1 && IsPair(j, ln, p, b)
    ensures Layer(R, w, ln, p)[j] == C(R.q, w[j] + C(R.q, Zeta(R, p + b) * w[j + ln]))
    ensures Layer(R, w, ln, p)[j + ln] == C(R.q, w[j] - C(R.q, Zeta(R, p + b) * w[j + ln]))
  {
    hide C, Zeta;
    Half(j, ln, p);
  }

  lemma InvLayerAt(R: Ring, w: Poly, ln: nat, p: nat, b: nat, j: nat)
    requires R.q > 1 && IsPair(j, ln, p, b)
    ensures InvLayer(R, w, ln, p)[j] == C(R.q, w[j] + w[j + ln])
    ensures InvLayer(R, w, ln, p)[j + ln] == C(R.q, (R.q - Zeta(R, 2 * p - 1 - b)) * (w[j] - w[j + ln]))
  {
    hide C, Zeta;
    Half(j, ln, p);
  }

  lemma BlockIndex(ln: nat, p: nat, b: nat, o: nat)
    requires ln > 0 && ln * p == 128 && b < p && o < ln
    ensures IsPair(2 * ln * b + o, ln, p, b)
  {
    var d := 2 * ln;
    assert d * p == 256;
    MulMono(d, b + 1, p);
    assert d * (b + 1) == d * b + d;
    Divide(b, o, d);
  }

  lemma BlocksLeft(ln: nat, p: nat, b: nat)
    requires ln > 0 && ln * p == 128 && b <= p
    ensures 2 * ln * b < 256 <==> b < p
    ensures b < p ==> 2 * ln * b + 2 * ln <= 256
  {
    assert 2 * ln * p == 256;
    if b < p {
      MulMono(2 * ln, b + 1, p);
      NextBlock(ln, b);
    }
  }

  lemma NextBlock(ln: nat, b: nat)
    ensures 2 * ln * (b + 1) == 2 * ln * b + 2 * ln
  {}

  /** The entries before st have gone through the layer, the others have not. */
  ghost predicate LayerUpTo(a: seq<int>, l: Poly, w: Poly, st: nat) {
    |a| == 256 && forall i :: 0 <= i < 256 ==> a[i] == if i < st then l[i] else w[i]
  }

  // ---------- the transforms ----------

  /** The first t layers, ln = 128, 64, ... */
  function Forward(R: Ring, w: Poly, t: nat): Poly
    requires R.q > 1 && t <= 8
  {
    if t == 0 then w
    else
      LayerShape(t - 1);
      Layer(R, Forward(R, w, t - 1), Pow2(8 - t), Pow2(t - 1))
  }

  lemma {:induction false} LayerShape(t: nat)
    requires t < 8
    ensures Pow2(7 - t) > 0 && Pow2(7 - t) * Pow2(t) == 128
  {
    if t == 0 {
      assert Pow2(7) == 128;
    } else {
      LayerShape(t - 1);
      assert Pow2(8 - t) == 2 * Pow2(7 - t) && Pow2(t) == 2 * Pow2(t - 1);
      Regroup(Pow2(7 - t), Pow2(t - 1));
    }
  }

  lemma Regroup(x: nat, y: nat)
    ensures (2 * x) * y == x * (2 * y)
  {}

  function NttOf(R: Ring, w: Poly): Poly
    requires R.q > 1 && R.bits <= 8
  {
    Forward(R, w, R.bits)
  }

  /** n inverse layers, from the one with the shortest blocks. */
  function Backward(R: Ring, w: Poly, n: nat): Poly
    requires R.q > 1 && n <= R.bits <= 8
  {
    if n == 0 then w
    else
      LayerShape(R.bits - n);
      InvLayer(R, Backward(R, w, n - 1), Pow2(7 - (R.bits - n)), Pow2(R.bits - n))
  }

  function InttOf(R: Ring, w: Poly): (r: Poly)
    requires R.q > 1 && R.bits <= 8
  {
    var b := Backward(R, w, R.bits);
    seq(256, j requires 0 <= j < 256 => C(R.q, R.inv * b[j]))
  }

  // ---------- linearity ----------

  /** u = a + c b modulo q, entry by entry. */
  ghost predicate Combines(q: nat, u: Poly, a: Poly, c: int, b: Poly)
    requires q > 1
  {
    forall j :: 0 <= j < 256 ==> C(q, u[j]) == C(q, a[j] + c * b[j])
  }

  /** The butterfly an index belongs to. */
  lemma PairOf(j: nat, ln: nat, p: nat) returns (i: nat, b: nat)
    requires j < 256 && ln > 0 && ln * p == 128
    ensures IsPair(i, ln, p, b) && (j == i || j == i + ln)
  {
    Half(j, ln, p);
    b := j / (2 * ln);
    i := if j % (2 * ln) < ln then j else j - ln;
  }

  lemma LayerCombines(R: Ring, u: Poly, a: Poly, c: int, b: Poly, ln: nat, p: nat)
    requires R.q > 1 && ln > 0 && ln * p == 128 && Combines(R.q, u, a, c, b)
    ensures Combines(R.q, Layer(R, u, ln, p), Layer(R, a, ln, p), c, Layer(R, b, ln, p))
  {
    hide C, Zeta, Layer, IsPair;
    forall j | 0 <= j < 256
      ensures C(R.q, Layer(R, u, ln, p)[j]) == C(R.q, Layer(R, a, ln, p)[j] + c * Layer(R, b, ln, p)[j])
    {
      var i, k := PairOf(j, ln, p);
      LayerAt(R, u, ln, p, k, i);
      LayerAt(R, a, ln, p, k, i);
      LayerAt(R, b, ln, p, k, i);
      CombinedButterfly(R.q, u[i], u[i + ln], c, a[i], a[i + ln], b[i], b[i + ln], Zeta(R, p + k));
    }
  }

  lemma CombinedButterfly(q: nat, u0: int, u1: int, c: int, a0: int, a1: int, b0: int, b1: int, z: int)
    requires q > 1 && C(q, u0) == C(q, a0 + c * b0) && C(q, u1) == C(q, a1 + c * b1)
    ensures C(q, C(q, u0 + C(q, z * u1))) == C(q, C(q, a0 + C(q, z * a1)) + c * C(q, b0 + C(q, z * b1)))
    ensures C(q, C(q, u0 - C(q, z * u1))) == C(q, C(q, a0 - C(q, z * a1)) + c * C(q, b0 - C(q, z * b1)))
  {
    hide C;
    ScaledTerm(q, z, u1, c, a1, b1);
    var u, a, b := C(q, z * u1), C(q, z * a1), C(q, z * b1);
    CombinedSum(q, u0, u, c, a0, a, b0, b);
    CombinedDifference(q, u0, u, c, a0, a, b0, b);
  }

  lemma CombinedDifference(q: nat, u0: int, u1: int, c: int, a0: int, a1: int, b0: int, b1: int)
    requires q > 1 && C(q, u0) == C(q, a0 + c * b0) && C(q, u1) == C(q, a1 + c * b1)
    ensures C(q, C(q, u0 - u1)) == C(q, C(q, a0 - a1) + c * C(q, b0 - b1))
  {
    hide C;
    NegateBoth(q, u1, a1 + c * b1);
    assert -a1 + c * -b1 == -(a1 + c * b1) by { assert c * -b1 == -(c * b1); }
    CombinedSum(q, u0, -u1, c, a0, -a1, b0, -b1);
  }

  lemma NegateBoth(q: nat, x: int, y: int)
    requires q > 1 && C(q, x) == C(q, y)
    ensures C(q, -x) == C(q, -y)
  {
    hide C;
    CEqSub(q, 0, 0, x, y);
  }

  lemma ScaledTerm(q: nat, z: int, u: int, c: int, a: int, b: int)
    requires q > 1 && C(q, u) == C(q, a + c * b)
    ensures C(q, C(q, z * u)) == C(q, C(q, z * a) + c * C(q, z * b))
  {
    hide C;
    CEqMul(q, z, z, u, a + c * b);
    Distribute(z, a, c * b);
    Commute(z, c, b);
    CIdem(q, z * u);
    CMul(q, c, z * b);
    CIdem(q, z * a);
    CEqAdd(q, C(q, z * a), z * a, c * C(q, z * b), c * (z * b));
  }

  lemma CombinedSum(q: nat, u0: int, u1: int, c: int, a0: int, a1: int, b0: int, b1: int)
    requires q > 1 && C(q, u0) == C(q, a0 + c * b0) && C(q, u1) == C(q, a1 + c * b1)
    ensures C(q, C(q, u0 + u1)) == C(q, C(q, a0 + a1) + c * C(q, b0 + b1))
  {
    hide C;
    CEqAdd(q, u0, a0 + c * b0, u1, a1 + c * b1);
    CIdem(q, u0 + u1);
    CIdem(q, a0 + a1);
    CMul(q, c, b0 + b1);
    CEqAdd(q, C(q, a0 + a1), a0 + a1, c * C(q, b0 + b1), c * (b0 + b1));
    Distribute(c, b0, b1);
  }

  lemma InvLayerCombines(R: Ring, u: Poly, a: Poly, c: int, b: Poly, ln: nat, p: nat)
    requires R.q > 1 && ln > 0 && ln * p == 128 && Combines(R.q, u, a, c, b)
    ensures Combines(R.q, InvLayer(R, u, ln, p), InvLayer(R, a, ln, p), c, InvLayer(R, b, ln, p))
  {
    hide C, Zeta, InvLayer, IsPair;
    forall j | 0 <= j < 256
      ensures C(R.q, InvLayer(R, u, ln, p)[j]) == C(R.q, InvLayer(R, a, ln, p)[j] + c * InvLayer(R, b, ln, p)[j])
    {
      var i, k := PairOf(j, ln, p);
      InvLayerAt(R, u, ln, p, k, i);
      InvLayerAt(R, a, ln, p, k, i);
      InvLayerAt(R, b, ln, p, k, i);
      CombinedInvButterfly(R.q, u[i], u[i + ln], c, a[i], a[i + ln], b[i], b[i + ln], R.q - Zeta(R, 2 * p - 1 - k));
    }
  }

  lemma CombinedInvButterfly(q: nat, u0: int, u1: int, c: int, a0: int, a1: int, b0: int, b1: int, z: int)
    requires q > 1 && C(q, u0) == C(q, a0 + c * b0) && C(q, u1) == C(q, a1 + c * b1)
    ensures C(q, C(q, u0 + u1)) == C(q, C(q, a0 + a1) + c * C(q, b0 + b1))
    ensures C(q, C(q, z * (u0 - u1))) == C(q, C(q, z * (a0 - a1)) + c * C(q, z * (b0 - b1)))
  {
    hide C;
    CombinedSum(q, u0, u1, c, a0, a1, b0, b1);
    CEqSub(q, u0, a0 + c * b0, u1, a1 + c * b1);
    Distribute(c, b0, b1);
    ScaledTerm(q, z, u0 - u1, c, a0 - a1, b0 - b1);
  }

  lemma {:induction false} ForwardCombines(R: Ring, u: Poly, a: Poly, c: int, b: Poly, t: nat)
    requires R.q > 1 && t <= 8 && Combines(R.q, u, a, c, b)
    ensures Combines(R.q, Forward(R, u, t), Forward(R, a, t), c, Forward(R, b, t))
  {
    hide Combines, Layer;
    if t > 0 {
      LayerShape(t - 1);
      ForwardCombines(R, u, a, c, b, t - 1);
      LayerCombines(R, Forward(R, u, t - 1), Forward(R, a, t - 1), c, Forward(R, b, t - 1), Pow2(8 - t), Pow2(t - 1));
    }
  }

  lemma {:induction false} BackwardCombines(R: Ring, u: Poly, a: Poly, c: int, b: Poly, n: nat)
    requires R.q > 1 && n <= R.bits <= 8 && Combines(R.q, u, a, c, b)
    ensures Combines(R.q, Backward(R, u, n), Backward(R, a, n), c, Backward(R, b, n))
  {
    hide Combines, InvLayer;
    if n > 0 {
      var t := R.bits - n;
      LayerShape(t);
      BackwardCombines(R, u, a, c, b, n - 1);
      InvLayerCombines(R, Backward(R, u, n - 1), Backward(R, a, n - 1), c, Backward(R, b, n - 1), Pow2(7 - t), Pow2(t));
    }
  }

  /** The transform is linear. */
  lemma NttLinear(R: Ring, u: Poly, a: Poly, c: int, b: Poly)
    requires R.q > 1 && R.bits <= 8 && Combines(R.q, u, a, c, b)
    ensures Combines(R.q, NttOf(R, u), NttOf(R, a), c, NttOf(R, b))
  {
    hide Combines;
    ForwardCombines(R, u, a, c, b, R.bits);
  }

  /** v is c times w modulo q, entry by entry. */
  ghost predicate Multiple(q: nat, v: Poly, c: int, w: Poly)
    requires q > 1
  {
    forall j :: 0 <= j < 256 ==> C(q, v[j]) == C(q, c * w[j])
  }

  lemma MultipleCombines(q: nat, v: Poly, c: int, w: Poly)
    requires q > 1
    ensures Multiple(q, v, c, w) <==> Combines(q, v, w, c - 1, w)
  {
    hide C;
    forall j | 0 <= j < 256
      ensures w[j] + (c - 1) * w[j] == c * w[j]
    {
      OneMore(w[j], c);
    }
  }

  lemma OneMore(x: int, c: int)
    ensures x + (c - 1) * x == c * x
  {}

  lemma MultipleChain(q: nat, u: Poly, a: int, v: Poly, b: int, w: Poly)
    requires q > 1 && Multiple(q, u, a, v) && Multiple(q, v, b, w)
    ensures Multiple(q, u, a * b, w)
  {
    hide C;
    forall j | 0 <= j < 256
      ensures C(q, u[j]) == C(q, a * b * w[j])
    {
      CEqMul(q, a, a, v[j], b * w[j]);
      MulAssoc(a, b, w[j]);
    }
  }

  // ---------- inverting one layer ----------

  /** The two twiddles of a block are inverse to each other. */
  lemma TwiddlesInvert(R: Ring, t: nat, b: nat, p: nat)
    requires R.Valid() && t < R.bits && p == Pow2(t) && b < p
    ensures C(R.q, Zeta(R, p + b) * (R.q - Zeta(R, 2 * p - 1 - b))) == 1
  {
    hide Zeta, C, Pow2, Pow;
    ZetaMirror(R, t, b, p);
    NegateFactor(R.q, Zeta(R, p + b), Zeta(R, 2 * p - 1 - b));
  }

  lemma NegateFactor(q: nat, x: int, y: int)
    requires q > 1 && C(q, x * y) == q - 1
    ensures C(q, x * (q - y)) == 1
  {
    var k := CQuot(q, x * y);
    hide C;
    assert x * (q - y) == x * q - x * y;
    assert (x - 1 - k) * q == x * q - q - k * q;
    CUnique(q, x * (q - y), x - 1 - k, 1);
  }

  /** An inverse butterfly after a butterfly doubles both entries. */
  lemma UndoButterfly(q: nat, x: int, y: int, z: int, z': int)
    requires q > 1 && C(q, z * z') == 1
    ensures var u, v := C(q, x + C(q, z * y)), C(q, x - C(q, z * y));
            C(q, u + v) == C(q, 2 * x) && C(q, z' * (u - v)) == C(q, 2 * y)
  {
    var t := C(q, z * y);
    var u, v := C(q, x + t), C(q, x - t);
    CRange(q, 1);
    hide C;
    CAdd(q, x + t, x - t);
    CSub(q, x + t, x - t);
    assert (x + t) + (x - t) == 2 * x && (x + t) - (x - t) == 2 * t;
    CIdem(q, u - v);
    CEqMul(q, z', z', u - v, 2 * t);
    CIdem(q, z * y);
    CEqMul(q, 2, 2, t, z * y);
    CEqMul(q, z', z', 2 * t, 2 * (z * y));
    Rearrange(z', z, y);
    CEqMul(q, z * z', 1, 2 * y, 2 * y);
  }

  lemma Rearrange(a: int, b: int, y: int)
    ensures a * (2 * (b * y)) == (b * a) * (2 * y)
  {}

  /** A butterfly after an inverse butterfly doubles both entries. */
  lemma RedoButterfly(q: nat, x: int, y: int, z: int, z': int)
    requires q > 1 && C(q, z * z') == 1
    ensures var u, v := C(q, x + y), C(q, z' * (x - y));
            C(q, u + C(q, z * v)) == C(q, 2 * x) && C(q, u - C(q, z * v)) == C(q, 2 * y)
  {
    var u, v, d := C(q, x + y), C(q, z' * (x - y)), x - y;
    CRange(q, 1);
    hide C;
    CMul(q, z, z' * d);
    MulAssoc(z, z', d);
    CEqMul(q, z * z', 1, d, d);
    CAdd(q, x + y, d);
    CSub(q, x + y, d);
  }

  lemma InvLayerUndoes(R: Ring, w: Poly, t: nat, ln: nat, p: nat)
    requires R.Valid() && t < R.bits && p == Pow2(t) && ln > 0 && ln * p == 128
    ensures Multiple(R.q, InvLayer(R, Layer(R, w, ln, p), ln, p), 2, w)
  {
    hide C, Zeta, Layer, InvLayer, IsPair, Pow, Pow2;
    var l := Layer(R, w, ln, p);
    forall j | 0 <= j < 256
      ensures C(R.q, InvLayer(R, l, ln, p)[j]) == C(R.q, 2 * w[j])
    {
      var i, b := PairOf(j, ln, p);
      PairBlock(i, ln, p, b);
      LayerAt(R, w, ln, p, b, i);
      InvLayerAt(R, l, ln, p, b, i);
      TwiddlesInvert(R, t, b, p);
      UndoButterfly(R.q, w[i], w[i + ln], Zeta(R, p + b), R.q - Zeta(R, 2 * p - 1 - b));
      CIdem(R.q, 2 * w[i]); CIdem(R.q, 2 * w[i + ln]);
    }
  }

  lemma PairBlock(j: nat, ln: nat, p: nat, b: nat)
    requires IsPair(j, ln, p, b)
    ensures b < p && j + ln < 256
  {}

  lemma LayerUndoes(R: Ring, w: Poly, t: nat, ln: nat, p: nat)
    requires R.Valid() && t < R.bits && p == Pow2(t) && ln > 0 && ln * p == 128
    ensures Multiple(R.q, Layer(R, InvLayer(R, w, ln, p), ln, p), 2, w)
  {
    hide C, Zeta, Layer, InvLayer, IsPair, Pow, Pow2;
    var l := InvLayer(R, w, ln, p);
    forall j | 0 <= j < 256
      ensures C(R.q, Layer(R, l, ln, p)[j]) == C(R.q, 2 * w[j])
    {
      var i, b := PairOf(j, ln, p);
      PairBlock(i, ln, p, b);
      InvLayerAt(R, w, ln, p, b, i);
      LayerAt(R, l, ln, p, b, i);
      TwiddlesInvert(R, t, b, p);
      RedoButterfly(R.q, w[i], w[i + ln], Zeta(R, p + b), R.q - Zeta(R, 2 * p - 1 - b));
      CIdem(R.q, 2 * w[i]); CIdem(R.q, 2 * w[i + ln]);
    }
  }

  // ---------- the transforms are inverse to each other ----------

  lemma {:induction false} BackwardUndoes(R: Ring, w: Poly, n: nat)
    requires R.Valid() && n <= R.bits
    ensures Multiple(R.q, Backward(R, NttOf(R, w), n), Pow2(n), Forward(R, w, R.bits - n))
  {
    hide C, Layer, InvLayer, Pow, Multiple, Combines;
    if n > 0 {
      var t := R.bits - n;
      var ln, p := Pow2(7 - t), Pow2(t);
      LayerShape(t);
      BackwardUndoes(R, w, n - 1);
      var f, u := Forward(R, w, t), Backward(R, NttOf(R, w), n - 1);
      var l := Layer(R, f, ln, p);
      assert Forward(R, w, t + 1) == l;
      MultipleCombines(R.q, u, Pow2(n - 1), l);
      InvLayerCombines(R, u, l, Pow2(n - 1) - 1, l, ln, p);
      MultipleCombines(R.q, InvLayer(R, u, ln, p), Pow2(n - 1), InvLayer(R, l, ln, p));
      InvLayerUndoes(R, f, t, ln, p);
      MultipleChain(R.q, InvLayer(R, u, ln, p), Pow2(n - 1), InvLayer(R, l, ln, p), 2, f);
    } else {
      SelfMultiple(R.q, NttOf(R, w));
    }
  }

  lemma SelfMultiple(q: nat, w: Poly)
    requires q > 1
    ensures Multiple(q, w, 1, w)
  {
    hide C;
  }

  /** intt(ntt(w)) = w modulo q. */
  lemma InttNtt(R: Ring, w: Poly)
    requires R.Valid()
    ensures forall j :: 0 <= j < 256 ==> InttOf(R, NttOf(R, w))[j] == C(R.q, w[j])
  {
    hide C, Backward, NttOf, Pow, Pow2;
    BackwardUndoes(R, w, R.bits);
    forall j | 0 <= j < 256
      ensures InttOf(R, NttOf(R, w))[j] == C(R.q, w[j])
    {
      ForwardNone(R, w);
      Descale(R.q, R.inv, Pow2(R.bits), Backward(R, NttOf(R, w), R.bits)[j], w[j]);
    }
  }

  lemma ForwardNone(R: Ring, w: Poly)
    requires R.q > 1
    ensures Forward(R, w, 0) == w
  {}

  lemma Descale(q: nat, inv: nat, n: nat, v: int, x: int)
    requires q > 1 && C(q, inv * n) == 1 && C(q, v) == C(q, n * x)
    ensures C(q, inv * v) == C(q, x)
  {
    CRange(q, 1);
    hide C;
    CEqMul(q, inv, inv, v, n * x);
    MulAssoc(inv, n, x);
    CEqMul(q, inv * n, 1, x, x);
  }

  lemma {:induction false} ForwardUndoes(R: Ring, w: Poly, u: Poly, t: nat)
    requires R.Valid() && t <= R.bits && u == Backward(R, w, R.bits)
    ensures Multiple(R.q, Forward(R, u, t), Pow2(t), Backward(R, w, R.bits - t))
  {
    hide C, Layer, InvLayer, Pow, Multiple, Combines;
    if t > 0 {
      var s := t - 1;
      var ln, p := Pow2(7 - s), Pow2(s);
      LayerShape(s);
      ForwardUndoes(R, w, u, s);
      var f, v := Backward(R, w, R.bits - t), Forward(R, u, s);
      var l := InvLayer(R, f, ln, p);
      assert Backward(R, w, R.bits - s) == l;
      MultipleCombines(R.q, v, Pow2(s), l);
      LayerCombines(R, v, l, Pow2(s) - 1, l, ln, p);
      MultipleCombines(R.q, Layer(R, v, ln, p), Pow2(s), Layer(R, l, ln, p));
      LayerUndoes(R, f, s, ln, p);
      MultipleChain(R.q, Layer(R, v, ln, p), Pow2(s), Layer(R, l, ln, p), 2, f);
    } else {
      SelfMultiple(R.q, u);
    }
  }

  /** ntt(intt(w)) = w modulo q. */
  lemma NttIntt(R: Ring, w: Poly)
    requires R.Valid()
    ensures forall j :: 0 <= j < 256 ==> C(R.q, NttOf(R, InttOf(R, w))[j]) == C(R.q, w[j])
  {
    hide C, Backward, Forward, Pow, Pow2, Combines;
    var u, v := Backward(R, w, R.bits), InttOf(R, w);
    assert Multiple(R.q, v, R.inv, u) by {
      forall j | 0 <= j < 256
        ensures C(R.q, v[j]) == C(R.q, R.inv * u[j])
      {
        CIdem(R.q, R.inv * u[j]);
      }
    }
    MultipleCombines(R.q, v, R.inv, u);
    ForwardCombines(R, v, u, R.inv - 1, u, R.bits);
    MultipleCombines(R.q, NttOf(R, v), R.inv, Forward(R, u, R.bits));
    ForwardUndoes(R, w, u, R.bits);
    BackwardNone(R, w);
    MultipleChain(R.q, NttOf(R, v), R.inv, Forward(R, u, R.bits), Pow2(R.bits), w);
    forall j | 0 <= j < 256
      ensures C(R.q, NttOf(R, v)[j]) == C(R.q, w[j])
    {
      MulAssoc(R.inv, Pow2(R.bits), w[j]);
      Descale(R.q, R.inv, Pow2(R.bits), Pow2(R.bits) * w[j], w[j]);
    }
  }

  lemma BackwardNone(R: Ring, w: Poly)
    requires R.q > 1 && R.bits <= 8
    ensures Backward(R, w, 0) == w
  {}

  // ---------- residues ----------

  ghost predicate Congruent(q: nat, u: Poly, v: Poly)
    requires q > 1
  {
    forall j :: 0 <= j < 256 ==> C(q, u[j]) == C(q, v[j])
  }

  lemma CongruentCombines(q: nat, u: Poly, v: Poly)
    requires q > 1
    ensures Congruent(q, u, v) <==> Combines(q, u, v, 0, v)
  {
    hide C;
    forall j | 0 <= j < 256
      ensures v[j] + 0 * v[j] == v[j]
    {}
  }

  lemma NttRange(R: Ring, w: Poly)
    requires R.Valid()
    ensures forall j :: 0 <= j < 256 ==> 0 <= NttOf(R, w)[j] < R.q
  {
    LayerShape(R.bits - 1);
    hide C, Zeta, Pow, Pow2;
  }

  /** The transform depends on the residues only. */
  lemma NttCongruent(R: Ring, u: Poly, v: Poly)
    requires R.Valid() && Congruent(R.q, u, v)
    ensures NttOf(R, u) == NttOf(R, v)
  {
    hide NttOf, C, Combines, Pow, Pow2;
    CongruentCombines(R.q, u, v);
    NttLinear(R, u, v, 0, v);
    CongruentCombines(R.q, NttOf(R, u), NttOf(R, v));
    NttRange(R, u);
    NttRange(R, v);
    forall j | 0 <= j < 256
      ensures NttOf(R, u)[j] == NttOf(R, v)[j]
    {
      CRange(R.q, NttOf(R, u)[j]);
      CRange(R.q, NttOf(R, v)[j]);
    }
  }

  /** The inverse transform depends on the residues only. */
  lemma InttCongruent(R: Ring, u: Poly, v: Poly)
    requires R.q > 1 && R.bits <= 8 && Congruent(R.q, u, v)
    ensures InttOf(R, u) == InttOf(R, v)
  {
    hide C, Backward, Combines;
    CongruentCombines(R.q, u, v);
    BackwardCombines(R, u, v, 0, v, R.bits);
    CongruentCombines(R.q, Backward(R, u, R.bits), Backward(R, v, R.bits));
    forall j | 0 <= j < 256
      ensures InttOf(R, u)[j] == InttOf(R, v)[j]
    {
      CEqMul(R.q, R.inv, R.inv, Backward(R, u, R.bits)[j], Backward(R, v, R.bits)[j]);
    }
  }

  /** Whatever has u as its transform is the inverse transform of u. */
  lemma InttUnique(R: Ring, u: Poly, v: Poly)
    requires R.Valid() && Congruent(R.q, NttOf(R, v), u)
    ensures forall j :: 0 <= j < 256 ==> InttOf(R, u)[j] == C(R.q, v[j])
  {
    hide C, NttOf, InttOf, Pow, Pow2;
    InttCongruent(R, u, NttOf(R, v));
    InttNtt(R, v);
  }

  /** The inverse transform is linear. */
  lemma InttLinear(R: Ring, u: Poly, a: Poly, c: int, b: Poly)
    requires R.Valid() && Combines(R.q, u, a, c, b)
    ensures forall j :: 0 <= j < 256 ==> InttOf(R, u)[j] == C(R.q, InttOf(R, a)[j] + c * InttOf(R, b)[j])
  {
    hide C, NttOf, InttOf, Pow, Pow2;
    var x, y := InttOf(R, a), InttOf(R, b);
    var v := seq(256, j requires 0 <= j < 256 => x[j] + c * y[j]);
    NttLinear(R, v, x, c, y);
    NttIntt(R, a);
    NttIntt(R, b);
    forall j | 0 <= j < 256
      ensures C(R.q, NttOf(R, v)[j]) == C(R.q, u[j])
    {
      CEqMul(R.q, c, c, NttOf(R, y)[j], b[j]);
      CEqAdd(R.q, NttOf(R, x)[j], a[j], c * NttOf(R, y)[j], c * b[j]);
    }
    InttUnique(R, u, v);
  }
}
