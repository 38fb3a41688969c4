/** The transform of scripts/mlkem/mlkem_ref.py: the in-place loops over 7 layers, and that it turns
    multiplication in Z_q[X] / (X^256 + 1) into 128 multiplications of linear polynomials. */
module MlKemNtt {
  import opened Arithmetic
  import opened Modular
  import opened Butterflies
  import opened NttRing

  const Q: nat := 3329

  const ZETA: nat := 17

  const KEM: Ring := Ring(3329, 17, 7, 3303)

  /** zeta = 17 has order 256 modulo q, and 3303 is the inverse of 128. */
  lemma KemValid()
    ensures KEM.Valid() && KEM.q == Q
  {
    assert Pow2(7) == 128;
    assert Pow(Q, ZETA, 128) == Q - 1 by {
      PowOne(Q, ZETA);
      hide Pow;
      Square(1, 17); Square(2, 289); Square(4, 296); Square(8, 1062); Square(16, 2642); Square(32, 2580);
      Square(64, 1729);
    }
    assert 3303 * 128 == 1 + 127 * Q;
  }

  lemma Square(n: nat, v: int)
    requires Pow(Q, ZETA, n) == v
    ensures Pow(Q, ZETA, 2 * n) == C(Q, v * v)
  {
    PowAdds(Q, ZETA, n, n);
  }

  // ---------- the loops ----------

  method Ntt(w: Poly) returns (r: Poly)
    ensures r == NttOf(KEM, w)
  {
    hide C, Zeta, Layer;
    var f := new int[256](i requires 0 <= i < 256 => w[i]);
    assert f[..] == w;
    var k, ln := 1, 128;
    ghost var t := 0;
    assert Pow2(7) == 128;
    while ln >= 2
      invariant 0 <= t <= 7 && f[..] == Forward(KEM, w, t)
      invariant ln == Pow2(7 - t) && k == Pow2(t)
      decreases 7 - t
    {
      AtLeastTwo(7 - t);
      LayerShape(t);
      k := ForwardLayer(f, k, ln, Pow2(t));
      t := t + 1;
      ln := ln / 2;
    }
    AtLeastTwo(7 - t);
    r := f[..];
  }

  lemma AtLeastTwo(n: nat)
    ensures Pow2(n) >= 2 <==> n > 0
  {}

  method ForwardLayer(f: array<int>, k0: nat, ln: nat, ghost p: nat) returns (k: nat)
    requires f.Length == 256 && ln > 0 && ln * p == 128 && k0 == p
    modifies f
    ensures f[..] == Layer(KEM, old(f[..]), ln, p)
    ensures k == 2 * p
  {
    hide C, Zeta, Layer, IsPair;
    k := k0;
    var start := 0;
    ghost var b := 0;
    ghost var w := f[..];
    ghost var l := Layer(KEM, w, ln, p);
    while start < 256
      invariant 0 <= b <= p && start == 2 * ln * b && k == p + b && start <= 256
      invariant LayerUpTo(f[..], l, w, start)
      decreases 256 - start
    {
      BlocksLeft(ln, p, b);
      var z := Zeta(KEM, k);
      k := k + 1;
      ForwardBlock(f, z, start, ln, p, b, w);
      NextBlock(ln, b);
      b := b + 1;
      start := start + 2 * ln;
    }
    BlocksLeft(ln, p, b);
    assert f[..] == l;
  }

  method ForwardBlock(f: array<int>, z: int, start: nat, ln: nat, ghost p: nat, ghost b: nat, ghost w: Poly)
    requires f.Length == 256 && ln > 0 && ln * p == 128 && b < p && start == 2 * ln * b && start + 2 * ln <= 256
    requires z == Zeta(KEM, p + b) && LayerUpTo(f[..], Layer(KEM, w, ln, p), w, start)
    modifies f
    ensures LayerUpTo(f[..], Layer(KEM, w, ln, p), w, start + 2 * ln)
  {
    hide C, Zeta, Layer, IsPair;
    ghost var l := Layer(KEM, w, ln, p);
    for j := start to start + ln
      invariant forall i :: 0 <= i < 256 ==> f[i] == if i < j || start + ln <= i < j + ln then l[i] else w[i]
    {
      BlockIndex(ln, p, b, j - start);
      LayerAt(KEM, w, ln, p, b, j);
      var t := C(Q, z * f[j + ln]);
      f[j + ln] := C(Q, f[j] - t);
      f[j] := C(Q, f[j] + t);
    }
  }

  method Intt(w: Poly) returns (r: Poly)
    ensures r == InttOf(KEM, w)
  {
    hide C, Zeta, InvLayer;
    var f := new int[256](i requires 0 <= i < 256 => w[i]);
    assert f[..] == w;
    var k, ln := 127, 2;
    ghost var n := 0;
    assert Pow2(7) == 128 && Pow2(1) == 2;
    while ln <= 128
      invariant 0 <= n <= 7 && f[..] == Backward(KEM, w, n)
      invariant ln == Pow2(n + 1) && k == Pow2(7 - n) - 1
      decreases 7 - n
    {
      AtMost128(n);
      LayerShape(6 - n);
      k := BackwardLayer(f, k, ln, Pow2(6 - n));
      n := n + 1;
      ln := ln * 2;
    }
    AtMost128(n);
    var b: Poly := f[..];
    r := seq(256, i requires 0 <= i < 256 => C(Q, b[i] * 3303));
    assert r == InttOf(KEM, w);
  }

  lemma AtMost128(n: nat)
    requires n <= 7
    ensures Pow2(n + 1) <= 128 <==> n < 7
  {
    assert Pow2(8) == 256;
    if n < 7 {
      PowMono(n + 1, 7);
      assert Pow2(7) == 128;
    }
  }

  method BackwardLayer(f: array<int>, k0: nat, ln: nat, ghost p: nat) returns (k: nat)
    requires f.Length == 256 && ln > 0 && ln * p == 128 && k0 == 2 * p - 1
    modifies f
    ensures f[..] == InvLayer(KEM, old(f[..]), ln, p)
    ensures k == p - 1
  {
    hide C, Zeta, InvLayer, IsPair;
    var k1: int := k0;
    var start := 0;
    ghost var b := 0;
    ghost var w := f[..];
    ghost var l := InvLayer(KEM, w, ln, p);
    while start < 256
      invariant 0 <= b <= p && start == 2 * ln * b && k1 == 2 * p - 1 - b && start <= 256
      invariant LayerUpTo(f[..], l, w, start)
      decreases 256 - start
    {
      BlocksLeft(ln, p, b);
      var z := Zeta(KEM, k1);
      k1 := k1 - 1;
      BackwardBlock(f, z, start, ln, p, b, w);
      NextBlock(ln, b);
      b := b + 1;
      start := start + 2 * ln;
    }
    BlocksLeft(ln, p, b);
    assert f[..] == l;
    k := k1;
  }

  method BackwardBlock(f: array<int>, z: int, start: nat, ln: nat, ghost p: nat, ghost b: nat, ghost w: Poly)
    requires f.Length == 256 && ln > 0 && ln * p == 128 && b < p && start == 2 * ln * b && start + 2 * ln <= 256
    requires z == Zeta(KEM, 2 * p - 1 - b) && LayerUpTo(f[..], InvLayer(KEM, w, ln, p), w, start)
    modifies f
    ensures LayerUpTo(f[..], InvLayer(KEM, w, ln, p), w, start + 2 * ln)
  {
    hide C, Zeta, InvLayer, IsPair;
    ghost var l := InvLayer(KEM, w, ln, p);
    for j := start to start + ln
      invariant forall i :: 0 <= i < 256 ==> f[i] == if i < j || start + ln <= i < j + ln then l[i] else w[i]
    {
      BlockIndex(ln, p, b, j - start);
      InvLayerAt(KEM, w, ln, p, b, j);
      NegatedTwiddle(z, f[j], f[j + ln]);
      var t := f[j];
      f[j] := C(Q, t + f[j + ln]);
      f[j + ln] := C(Q, z * (f[j + ln] - t));
    }
  }

  /** Subtracting in the other order is multiplying by minus the twiddle. */
  lemma NegatedTwiddle(z: int, x: int, y: int)
    ensures C(Q, z * (y - x)) == C(Q, (Q - z) * (x - y))
  {
    CMultiple(Q, z * (y - x), x - y);
    assert (Q - z) * (x - y) == z * (y - x) + (x - y) * Q;
  }

  // ---------- products in the transformed domain ----------

  /** GAMMAS[i] = zeta^(2 brv(i) + 1). */
  function Gamma(i: nat): int {
    Root(KEM, i)
  }

  /** Coefficient 0 of (a0 + a1 X)(b0 + b1 X) modulo X^2 - g. */
  function PairEven(a0: int, a1: int, b0: int, b1: int, g: int): int {
    C(Q, a0 * b0 + a1 * b1 * g)
  }

  function PairOdd(a0: int, a1: int, b0: int, b1: int): int {
    C(Q, a0 * b1 + a1 * b0)
  }

  /** The product in each Z_q[X] / (X^2 - gamma_i). */
  function MulNttOf(f: Poly, g: Poly): Poly {
    seq(256, j requires 0 <= j < 256 => MulNttAt(f, g, j / 2, j % 2))
  }

  function MulNttAt(f: Poly, g: Poly, i: nat, o: nat): int
    requires i < 128 && o < 2
  {
    var a0, a1, b0, b1 := f[2 * i], f[2 * i + 1], g[2 * i], g[2 * i + 1];
    if o == 0 then PairEven(a0, a1, b0, b1, Gamma(i)) else PairOdd(a0, a1, b0, b1)
  }

  method MulNtt(f: Poly, g: Poly) returns (r: Poly)
    ensures r == MulNttOf(f, g)
  {
    hide C, Gamma;
    var h := new int[256](_ => 0);
    for i := 0 to 128
      invariant forall j :: 0 <= j < 2 * i ==> h[j] == MulNttOf(f, g)[j]
    {
      var a0, a1, b0, b1 := f[2 * i], f[2 * i + 1], g[2 * i], g[2 * i + 1];
      h[2 * i] := C(Q, a0 * b0 + a1 * b1 * Gamma(i));
      h[2 * i + 1] := C(Q, a0 * b1 + a1 * b0);
      assert (2 * i) / 2 == i && (2 * i) % 2 == 0 && (2 * i + 1) / 2 == i && (2 * i + 1) % 2 == 1;
    }
    r := h[..];
  }

  lemma MulNttEntries(f: Poly, g: Poly, i: nat)
    requires i < 128
    ensures MulNttOf(f, g)[2 * i] == PairEven(f[2 * i], f[2 * i + 1], g[2 * i], g[2 * i + 1], Gamma(i))
    ensures MulNttOf(f, g)[2 * i + 1] == PairOdd(f[2 * i], f[2 * i + 1], g[2 * i], g[2 * i + 1])
  {
    hide Gamma, PairEven, PairOdd;
    assert (2 * i) / 2 == i && (2 * i) % 2 == 0 && (2 * i + 1) / 2 == i && (2 * i + 1) % 2 == 1;
  }

  // ---------- what the transform evaluates to ----------

  /** The even and the odd part of w at y. */
  function Even(w: seq<int>, y: int): int {
    Eval(w, 2, 0, y)
  }

  function Odd(w: seq<int>, y: int): int {
    Eval(w, 2, 1, y)
  }

  /** Entries 2i and 2i + 1 of the transform are w modulo X^2 - gamma_i. */
  lemma NttIsResidue(w: Poly, i: nat)
    requires i < 128
    ensures C(Q, NttOf(KEM, w)[2 * i]) == C(Q, Even(w, Gamma(i)))
    ensures C(Q, NttOf(KEM, w)[2 * i + 1]) == C(Q, Odd(w, Gamma(i)))
  {
    hide C, Pow, NttOf, Eval, Root;
    KemValid();
    assert Pow2(7) == 128 && Pow2(1) == 2;
    hide Pow2;
    NttEvaluates(KEM, w, i, 0, 2 * i);
    NttEvaluates(KEM, w, i, 1, 2 * i + 1);
  }

  lemma {:induction false} OddAsEven(u: seq<int>, z: int, y: int)
    requires |u| % 2 == 0 && |u| > 0
    ensures Odd(u, y) == Even(u[1..] + [z], y)
  {
    if |u| > 2 {
      OddAsEven(u[2..], z, y);
      assert (u[1..] + [z])[2..] == u[2..][1..] + [z];
    } else {
      assert u[2..] == [] && (u[1..] + [z])[2..] == [];
      assert Eval(u[2..], 2, 1, y) == 0 && Eval((u[1..] + [z])[2..], 2, 0, y) == 0;
    }
  }

  /** Multiplying by X moves the odd part to the even one times y, and the even part to the odd one. */
  lemma TimesXParts(v: Poly, y: int)
    requires C(Q, Pow(Q, y, 128)) == Q - 1
    ensures C(Q, Even(TimesX(v), y)) == C(Q, y * Odd(v, y)) && Odd(TimesX(v), y) == Even(v, y)
  {
    hide C, Pow;
    var l, last, top := v[..254], v[254..], v[255];
    var tx, tail := TimesX(v), v[1..255];
    assert tx[2..] == tail;
    OddAsEven(tail, top, y);
    assert tail[1..] + [top] == v[2..];
    OddAsEven(l, v[254], y);
    assert l[1..] + [v[254]] == tail;
    assert v == l + last;
    EvalConcat(Q, l, last, 2, 1, y, 127);
    assert Odd(last, y) == top by { assert last[2..] == []; assert y * 0 == 0; }
    var p, e := Pow(Q, y, 127), Odd(l, y);
    assert Even(tx, y) == -top + y * e;
    hide Eval, Even, Odd;
    PowStepOf(y, 127);
    WrapAround(y, p, e, top, Odd(v, y));
  }

  lemma PowStepOf(y: int, n: nat)
    ensures Pow(Q, y, n + 1) == C(Q, y * Pow(Q, y, n))
  {}

  lemma WrapAround(y: int, p: int, e: int, top: int, o: int)
    requires C(Q, o) == C(Q, e + p * top) && C(Q, C(Q, y * p)) == Q - 1
    ensures C(Q, -top + y * e) == C(Q, y * o)
  {
    CRange(Q, Q - 1);
    hide C;
    CEqMul(Q, y, y, o, e + p * top);
    Distribute(y, e, p * top);
    MulAssoc(y, p, top);
    CIdem(Q, y * p);
    CEqMul(Q, y * p, Q - 1, top, top);
    MinusOne(Q, top);
    CEqAdd(Q, y * e, y * e, (y * p) * top, -top);
  }

  const ONE: Poly := [1] + Zeros255()

  function Zeros255(): (s: seq<int>)
    ensures |s| == 255 && forall i :: 0 <= i < 255 ==> s[i] == 0
  {
    seq(255, _ => 0)
  }

  /** X^i b has the parts of X^i times the parts of b, multiplied modulo X^2 - y. */
  lemma {:induction false} ShiftedParts(b: Poly, i: nat, y: int)
    requires C(Q, Pow(Q, y, 128)) == Q - 1
    ensures var e, o := Even(Shifted(ONE, i), y), Odd(Shifted(ONE, i), y);
      && C(Q, Even(Shifted(b, i), y)) == C(Q, e * Even(b, y) + o * Odd(b, y) * y)
      && C(Q, Odd(Shifted(b, i), y)) == C(Q, e * Odd(b, y) + o * Even(b, y))
  {
    hide C, Pow, Even, Odd, TimesX;
    if i == 0 {
      OneParts(y);
      assert 1 * Even(b, y) + 0 * Odd(b, y) * y == Even(b, y);
    } else {
      ShiftedParts(b, i - 1, y);
      TimesXParts(Shifted(b, i - 1), y);
      TimesXParts(Shifted(ONE, i - 1), y);
      ShiftStep(y, Even(b, y), Odd(b, y), Even(Shifted(ONE, i - 1), y), Odd(Shifted(ONE, i - 1), y),
                Even(Shifted(ONE, i), y), Even(Shifted(b, i - 1), y), Odd(Shifted(b, i - 1), y),
                Even(Shifted(b, i), y));
    }
  }

  lemma ShiftStep(y: int, eb: int, ob: int, e: int, o: int, e': int, es: int, os: int, es': int)
    requires C(Q, es) == C(Q, e * eb + o * ob * y) && C(Q, os) == C(Q, e * ob + o * eb)
    requires C(Q, e') == C(Q, y * o) && C(Q, es') == C(Q, y * os)
    ensures C(Q, es') == C(Q, e' * eb + e * ob * y) && C(Q, es) == C(Q, e' * ob + e * eb)
  {
    hide C;
    CEqMul(Q, y, y, os, e * ob + o * eb);
    CEqMul(Q, e', y * o, eb, eb);
    CEqAdd(Q, e' * eb, (y * o) * eb, e * ob * y, e * ob * y);
    assert y * (e * ob + o * eb) == (y * o) * eb + e * ob * y;
    CEqMul(Q, e', y * o, ob, ob);
    CEqAdd(Q, e' * ob, (y * o) * ob, e * eb, e * eb);
    assert (y * o) * ob == o * ob * y;
  }

  lemma OneParts(y: int)
    ensures Even(ONE, y) == 1 && Odd(ONE, y) == 0
  {
    assert ONE[2..] == seq(254, j => 0);
    EvalZeros(254, 2, 0, y);
    EvalZeros(254, 2, 1, y);
    assert y * 0 == 0;
  }

  // ---------- the ring isomorphism ----------

  /** The parts of the sum over i < n of a[i] X^i b, from those of the sum over i < n of a[i] X^i. */
  lemma {:induction false} PartialProductParts(a: Poly, b: Poly, n: nat, y: int)
    requires n <= 256 && C(Q, Pow(Q, y, 128)) == Q - 1
    ensures var e, o := Even(PartialProduct(a, ONE, n), y), Odd(PartialProduct(a, ONE, n), y);
      && C(Q, Even(PartialProduct(a, b, n), y)) == C(Q, e * Even(b, y) + o * Odd(b, y) * y)
      && C(Q, Odd(PartialProduct(a, b, n), y)) == C(Q, e * Odd(b, y) + o * Even(b, y))
  {
    hide C, Pow, Eval, Shifted;
    if n == 0 {
      EvalZeros(256, 2, 0, y);
      EvalZeros(256, 2, 1, y);
      assert 0 * Even(b, y) + 0 * Odd(b, y) * y == 0 && 0 * Odd(b, y) + 0 * Even(b, y) == 0;
    } else {
      PartialProductParts(a, b, n - 1, y);
      PartialProductNext(a, b, n - 1, y);
    }
  }

  lemma PartialProductNext(a: Poly, b: Poly, m: nat, y: int)
    requires m < 256 && C(Q, Pow(Q, y, 128)) == Q - 1
    requires var e, o := Even(PartialProduct(a, ONE, m), y), Odd(PartialProduct(a, ONE, m), y);
      && C(Q, Even(PartialProduct(a, b, m), y)) == C(Q, e * Even(b, y) + o * Odd(b, y) * y)
      && C(Q, Odd(PartialProduct(a, b, m), y)) == C(Q, e * Odd(b, y) + o * Even(b, y))
    ensures var e, o := Even(PartialProduct(a, ONE, m + 1), y), Odd(PartialProduct(a, ONE, m + 1), y);
      && C(Q, Even(PartialProduct(a, b, m + 1), y)) == C(Q, e * Even(b, y) + o * Odd(b, y) * y)
      && C(Q, Odd(PartialProduct(a, b, m + 1), y)) == C(Q, e * Odd(b, y) + o * Even(b, y))
  {
    hide C, Pow, Eval, Shifted, PartialProduct;
    ShiftedParts(b, m, y);
    PartialProductStep(Q, a, b, m, 2, 0, y);
    PartialProductStep(Q, a, b, m, 2, 1, y);
    PartialProductStep(Q, a, ONE, m, 2, 0, y);
    PartialProductStep(Q, a, ONE, m, 2, 1, y);
    var eb, ob, c := Even(b, y), Odd(b, y), a[m];
    var pe, po := Even(PartialProduct(a, ONE, m), y), Odd(PartialProduct(a, ONE, m), y);
    var se, so := Even(Shifted(ONE, m), y), Odd(Shifted(ONE, m), y);
    var te, to := Even(PartialProduct(a, ONE, m + 1), y), Odd(PartialProduct(a, ONE, m + 1), y);
    PartsAssoc(po, so, to, ob, y);
    PartsStep(c, eb, ob * y, pe, po, se, so, te, to,
              Even(PartialProduct(a, b, m), y), Even(Shifted(b, m), y), Even(PartialProduct(a, b, m + 1), y));
    PartsStep(c, ob, eb, pe, po, se, so, te, to,
              Odd(PartialProduct(a, b, m), y), Odd(Shifted(b, m), y), Odd(PartialProduct(a, b, m + 1), y));
  }

  lemma PartsAssoc(p: int, s: int, t: int, ob: int, y: int)
    ensures p * ob * y == p * (ob * y) && s * ob * y == s * (ob * y) && t * ob * y == t * (ob * y)
  {}

  /** One more term of the sum, in one part: values u and v of b that the parts multiply. */
  lemma PartsStep(c: int, u: int, v: int, pe: int, po: int, se: int, so: int, te: int, to: int, p: int, s: int, t: int)
    requires C(Q, p) == C(Q, pe * u + po * v) && C(Q, s) == C(Q, se * u + so * v)
    requires C(Q, te) == C(Q, pe + c * se) && C(Q, to) == C(Q, po + c * so) && C(Q, t) == C(Q, p + c * s)
    ensures C(Q, t) == C(Q, te * u + to * v)
  {
    hide C;
    CEqMul(Q, c, c, s, se * u + so * v);
    CEqAdd(Q, p, pe * u + po * v, c * s, c * (se * u + so * v));
    CEqMul(Q, te, pe + c * se, u, u);
    CEqMul(Q, to, po + c * so, v, v);
    CEqAdd(Q, te * u, (pe + c * se) * u, to * v, (po + c * so) * v);
    PartsTerms(c, u, v, pe, po, se, so);
  }

  lemma PartsTerms(c: int, u: int, v: int, pe: int, po: int, se: int, so: int)
    ensures pe * u + po * v + c * (se * u + so * v) == (pe + c * se) * u + (po + c * so) * v
  {
    assert c * (se * u) == (c * se) * u && c * (so * v) == (c * so) * v;
  }

  lemma {:induction false} TimesOne(a: Poly, n: nat)
    requires n <= 256
    ensures forall j :: 0 <= j < 256 ==> PartialProduct(a, ONE, n)[j] == if j < n then a[j] else 0
  {
    if n > 0 {
      TimesOne(a, n - 1);
      hide Shifted;
      forall j | 0 <= j < 256
        ensures PartialProduct(a, ONE, n)[j] == if j < n then a[j] else 0
      {
        ShiftedAt(ONE, n - 1, j);
      }
    }
  }

  /** The parts of a ring product at y multiply as linear polynomials modulo X^2 - y. */
  lemma ProductParts(a: Poly, b: Poly, y: int)
    requires C(Q, Pow(Q, y, 128)) == Q - 1
    ensures C(Q, Even(Product(a, b), y)) == C(Q, Even(a, y) * Even(b, y) + Odd(a, y) * Odd(b, y) * y)
    ensures C(Q, Odd(Product(a, b), y)) == C(Q, Even(a, y) * Odd(b, y) + Odd(a, y) * Even(b, y))
  {
    hide C, Pow, Eval, PartialProduct;
    PartialProductParts(a, b, 256, y);
    TimesOne(a, 256);
    assert PartialProduct(a, ONE, 256) == a;
  }

  /** Products of congruent pairs are equal. */
  lemma PairsCongruent(a0: int, a1: int, b0: int, b1: int, c0: int, c1: int, d0: int, d1: int, g: int)
    requires C(Q, a0) == C(Q, c0) && C(Q, a1) == C(Q, c1) && C(Q, b0) == C(Q, d0) && C(Q, b1) == C(Q, d1)
    ensures PairEven(a0, a1, b0, b1, g) == PairEven(c0, c1, d0, d1, g)
    ensures PairOdd(a0, a1, b0, b1) == PairOdd(c0, c1, d0, d1)
  {
    hide C;
    CEqMul(Q, a0, c0, b0, d0);
    CEqMul(Q, a1, c1, b1, d1);
    CEqMul(Q, a1 * b1, c1 * d1, g, g);
    CEqAdd(Q, a0 * b0, c0 * d0, a1 * b1 * g, c1 * d1 * g);
    CEqMul(Q, a0, c0, b1, d1);
    CEqMul(Q, a1, c1, b0, d0);
    CEqAdd(Q, a0 * b1, c0 * d1, a1 * b0, c1 * d0);
  }

  /** The transform is multiplicative. */
  lemma NttProduct(a: Poly, b: Poly, i: nat)
    requires i < 128
    ensures var t, m := NttOf(KEM, Product(a, b)), MulNttOf(NttOf(KEM, a), NttOf(KEM, b));
      C(Q, t[2 * i]) == m[2 * i] && C(Q, t[2 * i + 1]) == m[2 * i + 1]
  {
    hide C, Pow, Root, Eval, NttOf, Product, MulNttOf;
    KemValid();
    assert Pow2(7) == 128;
    hide Pow2;
    RootOfMinusOne(KEM, i);
    NttIsResidue(Product(a, b), i);
    NttIsResidue(a, i);
    NttIsResidue(b, i);
    var y, f, g := Gamma(i), NttOf(KEM, a), NttOf(KEM, b);
    ProductParts(a, b, y);
    MulNttEntries(f, g, i);
    PairsCongruent(f[2 * i], f[2 * i + 1], g[2 * i], g[2 * i + 1], Even(a, y), Odd(a, y), Even(b, y), Odd(b, y), y);
  }

  /** Multiplying transforms pair by pair multiplies in Z_q[X] / (X^256 + 1). */
  lemma RingIsomorphism(a: Poly, b: Poly)
    ensures forall j :: 0 <= j < 256 ==>
      InttOf(KEM, MulNttOf(NttOf(KEM, a), NttOf(KEM, b)))[j] == C(Q, Product(a, b)[j])
  {
    hide C, NttOf, InttOf, Product, Pow, Pow2, MulNttOf;
    KemValid();
    var u, v := MulNttOf(NttOf(KEM, a), NttOf(KEM, b)), Product(a, b);
    forall j | 0 <= j < 256
      ensures C(Q, NttOf(KEM, v)[j]) == C(Q, u[j])
    {
      var i := j / 2;
      NttProduct(a, b, i);
      assert j == 2 * i || j == 2 * i + 1;
      CIdem(Q, NttOf(KEM, v)[j]);
    }
    InttUnique(KEM, u, v);
  }
}
