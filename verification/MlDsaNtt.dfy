/** The transform of scripts/mldsa/mldsa_ref.py: the in-place loops over 8 layers, and that it turns
    multiplication in Z_q[X] / (X^256 + 1) into multiplication point by point. */
module MlDsaNtt {
  import opened Arithmetic
  import opened Modular
  import opened Butterflies
  import opened NttRing

  const Q: nat := 8380417

  const ZETA: nat := 1753

  const DSA: Ring := Ring(8380417, 1753, 8, 8347681)

  /** zeta = 1753 has order 512 modulo q, and 8347681 is the inverse of 256. */
  lemma DsaValid()
    ensures DSA.Valid() && DSA.q == Q
  {
    assert Pow2(8) == 256;
    assert Pow(Q, ZETA, 256) == Q - 1 by {
      PowOne(Q, ZETA);
      hide Pow;
      Square(1, 1753); Square(2, 3073009); Square(4, 3602218); Square(8, 5010068);
      Square(16, 7778734); Square(32, 5178923); Square(64, 3765607); Square(128, 4808194);
    }
    assert 8347681 * 256 == 1 + 255 * Q;
  }

  lemma Square(n: nat, v: int)
    requires Pow(Q, ZETA, n) == v
    ensures Pow(Q, ZETA, 2 * n) == C(Q, v * v)
  {
    PowAdds(Q, ZETA, n, n);
  }

  // ---------- the loops ----------

  method Ntt(w: Poly) returns (r: Poly)
    ensures r == NttOf(DSA, w)
  {
    hide C, Zeta, Layer;
    var a := new int[256](i requires 0 <= i < 256 => w[i]);
    assert a[..] == w;
    var m, ln := 0, 128;
    ghost var t := 0;
    assert Pow2(7) == 128;
    while ln >= 1
      invariant 0 <= t <= 8 && a[..] == Forward(DSA, w, t)
      invariant t < 8 ==> ln == Pow2(7 - t)
      invariant t == 8 ==> ln == 0
      invariant m == Pow2(t) - 1
    {
      ghost var p := Pow2(t);
      LayerShape(t);
      m := ForwardLayer(a, m, ln, p);
      t := t + 1;
      ln := ln / 2;
    }
    r := a[..];
  }

  /** One pass of the outer loop: the blocks from left to right. */
  method ForwardLayer(a: array<int>, m0: nat, ln: nat, ghost p: nat) returns (m: nat)
    requires a.Length == 256 && ln > 0 && ln * p == 128 && m0 == p - 1
    modifies a
    ensures a[..] == Layer(DSA, old(a[..]), ln, p)
    ensures m == 2 * p - 1
  {
    hide C, Zeta, Layer, IsPair;
    m := m0;
    var st := 0;
    ghost var b := 0;
    ghost var w := a[..];
    ghost var l := Layer(DSA, w, ln, p);
    while st < 256
      invariant 0 <= b <= p && st == 2 * ln * b && m == p - 1 + b && st <= 256
      invariant LayerUpTo(a[..], l, w, st)
      decreases 256 - st
    {
      BlocksLeft(ln, p, b);
      m := m + 1;
      ForwardBlock(a, Zeta(DSA, m), st, ln, p, b, w);
      NextBlock(ln, b);
      b := b + 1;
      st := st + 2 * ln;
    }
    BlocksLeft(ln, p, b);
    assert a[..] == l;
  }

  /** The butterflies of one block. */
  method ForwardBlock(a: array<int>, z: int, st: nat, ln: nat, ghost p: nat, ghost b: nat, ghost w: Poly)
    requires a.Length == 256 && ln > 0 && ln * p == 128 && b < p && st == 2 * ln * b && st + 2 * ln <= 256
    requires z == Zeta(DSA, p + b) && LayerUpTo(a[..], Layer(DSA, w, ln, p), w, st)
    modifies a
    ensures LayerUpTo(a[..], Layer(DSA, w, ln, p), w, st + 2 * ln)
  {
    hide C, Zeta, Layer, IsPair;
    ghost var l := Layer(DSA, w, ln, p);
    for j := st to st + ln
      invariant forall i :: 0 <= i < 256 ==> a[i] == if i < j || st + ln <= i < j + ln then l[i] else w[i]
    {
      BlockIndex(ln, p, b, j - st);
      LayerAt(DSA, w, ln, p, b, j);
      var t := C(Q, z * a[j + ln]);
      a[j + ln] := C(Q, a[j] - t);
      a[j] := C(Q, a[j] + t);
    }
  }

  method Intt(w: Poly) returns (r: Poly)
    ensures r == InttOf(DSA, w)
  {
    hide C, Zeta, InvLayer;
    var a := new int[256](i requires 0 <= i < 256 => w[i]);
    assert a[..] == w;
    var m, ln := 256, 1;
    ghost var n := 0;
    assert Pow2(8) == 256;
    while ln < 256
      invariant 0 <= n <= 8 && a[..] == Backward(DSA, w, n)
      invariant ln == Pow2(n) && m == Pow2(8 - n)
      decreases 8 - n
    {
      Pow2Below(n);
      LayerShape(7 - n);
      m := BackwardLayer(a, m, ln, Pow2(7 - n));
      n := n + 1;
      ln := ln * 2;
    }
    Pow2Below(n);
    var b: Poly := a[..];
    r := seq(256, i requires 0 <= i < 256 => C(Q, 8347681 * b[i]));
    assert r == InttOf(DSA, w);
  }

  lemma Pow2Below(n: nat)
    requires n <= 8
    ensures Pow2(n) < 256 <==> n < 8
  {
    assert Pow2(8) == 256;
    if n < 8 {
      PowMono(n, 7);
      assert Pow2(7) == 128;
    }
  }

  method BackwardLayer(a: array<int>, m0: nat, ln: nat, ghost p: nat) returns (m: nat)
    requires a.Length == 256 && ln > 0 && ln * p == 128 && m0 == 2 * p
    modifies a
    ensures a[..] == InvLayer(DSA, old(a[..]), ln, p)
    ensures m == p
  {
    hide C, Zeta, InvLayer, IsPair;
    m := m0;
    var st := 0;
    ghost var b := 0;
    ghost var w := a[..];
    ghost var l := InvLayer(DSA, w, ln, p);
    while st < 256
      invariant 0 <= b <= p && st == 2 * ln * b && m == 2 * p - b && st <= 256
      invariant LayerUpTo(a[..], l, w, st)
      decreases 256 - st
    {
      BlocksLeft(ln, p, b);
      m := m - 1;
      BackwardBlock(a, Q - Zeta(DSA, m), st, ln, p, b, w);
      NextBlock(ln, b);
      b := b + 1;
      st := st + 2 * ln;
    }
    BlocksLeft(ln, p, b);
    assert a[..] == l;
  }

  method BackwardBlock(a: array<int>, z: int, st: nat, ln: nat, ghost p: nat, ghost b: nat, ghost w: Poly)
    requires a.Length == 256 && ln > 0 && ln * p == 128 && b < p && st == 2 * ln * b && st + 2 * ln <= 256
    requires z == Q - Zeta(DSA, 2 * p - 1 - b) && LayerUpTo(a[..], InvLayer(DSA, w, ln, p), w, st)
    modifies a
    ensures LayerUpTo(a[..], InvLayer(DSA, w, ln, p), w, st + 2 * ln)
  {
    hide C, Zeta, InvLayer, IsPair;
    ghost var l := InvLayer(DSA, w, ln, p);
    for j := st to st + ln
      invariant forall i :: 0 <= i < 256 ==> a[i] == if i < j || st + ln <= i < j + ln then l[i] else w[i]
    {
      BlockIndex(ln, p, b, j - st);
      InvLayerAt(DSA, w, ln, p, b, j);
      var t := a[j];
      a[j] := C(Q, t + a[j + ln]);
      a[j + ln] := C(Q, z * (t - a[j + ln]));
    }
  }

  // ---------- the ring isomorphism ----------

  function Pmul(a: Poly, b: Poly): Poly {
    seq(256, j requires 0 <= j < 256 => C(Q, a[j] * b[j]))
  }

  /** ntt(w)[j] is the value of w at the j-th odd power of zeta, in bit-reversed order. */
  lemma NttIsEvaluation(w: Poly, j: nat)
    requires j < 256
    ensures C(Q, NttOf(DSA, w)[j]) == C(Q, Eval(w, 1, 0, Root(DSA, j)))
  {
    hide C, Pow, NttOf, Eval, Root;
    DsaValid();
    assert Pow2(8) == 256 && Pow2(0) == 1;
    hide Pow2;
    NttEvaluates(DSA, w, j, 0, j);
  }

  lemma TimesXEval(v: Poly, x: int)
    requires C(Q, Pow(Q, x, 256)) == Q - 1
    ensures C(Q, Eval(TimesX(v), 1, 0, x)) == C(Q, x * Eval(v, 1, 0, x))
  {
    hide C, Pow;
    var l, top := v[..255], v[255];
    assert v == l + [top];
    EvalConcat(Q, l, [top], 1, 0, x, 255);
    EvalSingle(top, x);
    assert TimesX(v)[1..] == l;
    assert Eval(TimesX(v), 1, 0, x) == -top + x * Eval(l, 1, 0, x);
    hide Eval;
    var p, e := Pow(Q, x, 255), Eval(l, 1, 0, x);
    PowStepOf(x, 255);
    // x v(x) = x l(x) + x^256 top = x l(x) - top
    CEqMul(Q, x, x, Eval(v, 1, 0, x), e + p * top);
    Distribute(x, e, p * top);
    MulAssoc(x, p, top);
    CIdem(Q, x * p);
    MinusOneCanonical();
    CEqMul(Q, x * p, Q - 1, top, top);
    MinusOne(Q, top);
    CEqAdd(Q, x * e, x * e, (x * p) * top, -top);
  }

  lemma EvalSingle(top: int, x: int)
    ensures Eval([top], 1, 0, x) == top
  {
    assert [top][1..] == [];
    assert x * 0 == 0;
  }

  lemma MinusOneCanonical()
    ensures C(Q, Q - 1) == Q - 1
  {}

  lemma PowStepOf(x: int, n: nat)
    ensures Pow(Q, x, n + 1) == C(Q, x * Pow(Q, x, n))
  {}

  lemma {:induction false} ShiftedEval(v: Poly, i: nat, x: int)
    requires C(Q, Pow(Q, x, 256)) == Q - 1
    ensures C(Q, Eval(Shifted(v, i), 1, 0, x)) == C(Q, Pow(Q, x, i) * Eval(v, 1, 0, x))
  {
    hide C, Eval, TimesX;
    if i > 0 {
      ShiftedEval(v, i - 1, x);
      TimesXEval(Shifted(v, i - 1), x);
      var p, e := Pow(Q, x, i - 1), Eval(v, 1, 0, x);
      CEqMul(Q, x, x, Eval(Shifted(v, i - 1), 1, 0, x), p * e);
      MulAssoc(x, p, e);
      CMul(Q, x * p, e);
    }
  }

  lemma {:induction false} PartialProductEval(a: Poly, b: Poly, n: nat, x: int)
    requires n <= 256 && C(Q, Pow(Q, x, 256)) == Q - 1
    ensures C(Q, Eval(PartialProduct(a, b, n), 1, 0, x)) == C(Q, Eval(a[..n], 1, 0, x) * Eval(b, 1, 0, x))
  {
    hide C, Pow;
    if n == 0 {
      EvalZeros(256, 1, 0, x);
      assert a[..0] == [];
    } else {
      var m := n - 1;
      PartialProductEval(a, b, m, x);
      PartialProductStep(Q, a, b, m, 1, 0, x);
      ShiftedEval(b, m, x);
      AppendEval(a, m, x);
      hide Eval, PartialProduct, Shifted;
      var s, t := PartialProduct(a, b, m), Shifted(b, m);
      ProductStep(Eval(s, 1, 0, x), Eval(a[..m], 1, 0, x), Eval(b, 1, 0, x), a[m], Eval(t, 1, 0, x), Pow(Q, x, m),
                  Eval(a[..n], 1, 0, x));
    }
  }

  lemma AppendEval(a: Poly, m: nat, x: int)
    requires m < 256
    ensures C(Q, Eval(a[..m + 1], 1, 0, x)) == C(Q, Eval(a[..m], 1, 0, x) + Pow(Q, x, m) * a[m])
  {
    hide C;
    assert a[..m + 1] == a[..m] + [a[m]];
    EvalConcat(Q, a[..m], [a[m]], 1, 0, x, m);
    EvalSingle(a[m], x);
  }

  lemma ProductStep(es: int, ea: int, eb: int, c: int, et: int, p: int, en: int)
    requires C(Q, es) == C(Q, ea * eb) && C(Q, et) == C(Q, p * eb) && C(Q, en) == C(Q, ea + p * c)
    ensures C(Q, es + c * et) == C(Q, en * eb)
  {
    hide C;
    CEqMul(Q, c, c, et, p * eb);
    CEqAdd(Q, es, ea * eb, c * et, c * (p * eb));
    CEqMul(Q, en, ea + p * c, eb, eb);
    ProductTerms(ea, p, c, eb);
  }

  lemma ProductTerms(ea: int, p: int, c: int, eb: int)
    ensures (ea + p * c) * eb == ea * eb + c * (p * eb)
  {
    assert (p * c) * eb == c * (p * eb);
  }

  /** Evaluation at every point turns the ring product into the product of the values. */
  lemma ProductEval(a: Poly, b: Poly, j: nat)
    requires j < 256
    ensures var x := Root(DSA, j); C(Q, Eval(Product(a, b), 1, 0, x)) == C(Q, Eval(a, 1, 0, x) * Eval(b, 1, 0, x))
  {
    hide C, Pow, Eval, Root, PartialProduct;
    DsaValid();
    assert Pow2(8) == 256;
    hide Pow2;
    RootOfMinusOne(DSA, j);
    PartialProductEval(a, b, 256, Root(DSA, j));
    assert a[..256] == a;
  }

  /** The transform is multiplicative. */
  lemma NttProduct(a: Poly, b: Poly, j: nat)
    requires j < 256
    ensures C(Q, NttOf(DSA, Product(a, b))[j]) == C(Q, NttOf(DSA, a)[j] * NttOf(DSA, b)[j])
  {
    hide C, Root, Eval, NttOf, Product;
    NttIsEvaluation(Product(a, b), j);
    NttIsEvaluation(a, j);
    NttIsEvaluation(b, j);
    ProductEval(a, b, j);
    var x := Root(DSA, j);
    CEqMul(Q, NttOf(DSA, a)[j], Eval(a, 1, 0, x), NttOf(DSA, b)[j], Eval(b, 1, 0, x));
  }

  /** Multiplying transforms point by point multiplies in Z_q[X] / (X^256 + 1). */
  lemma RingIsomorphism(a: Poly, b: Poly)
    ensures forall j :: 0 <= j < 256 ==> InttOf(DSA, Pmul(NttOf(DSA, a), NttOf(DSA, b)))[j] == C(Q, Product(a, b)[j])
  {
    hide C, NttOf, InttOf, Product, Pow, Pow2;
    DsaValid();
    var u, v := Pmul(NttOf(DSA, a), NttOf(DSA, b)), Product(a, b);
    forall j | 0 <= j < 256
      ensures C(Q, NttOf(DSA, v)[j]) == C(Q, u[j])
    {
      NttProduct(a, b, j);
      CIdem(Q, NttOf(DSA, a)[j] * NttOf(DSA, b)[j]);
    }
    InttUnique(DSA, u, v);
  }
}
