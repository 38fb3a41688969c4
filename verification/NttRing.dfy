/** What the transforms mean: a coefficient of the transform is the value of the polynomial, or of the
    part of it in one class of exponents, at an odd power of zeta; and the ring in which they multiply. */
module NttRing {
  import opened Arithmetic
  import opened Modular
  import opened Butterflies

  // ---------- evaluation ----------

  /** The value at x of the part of w at the positions congruent to o modulo s, as an integer. */
  function Eval(w: seq<int>, s: nat, o: nat, x: int): int
    requires o < s
    decreases |w|, s
  {
    if |w| < s then 0 else w[o] + x * Eval(w[s..], s, o, x)
  }

  /** The i-th evaluation point: zeta^(2 brv(i) + 1). */
  function Root(R: Ring, i: nat): int
    requires R.q > 1
  {
    Pow(R.q, R.zeta, 2 * Rev(i, R.bits) + 1)
  }

  lemma {:induction false} EvalConcat(q: nat, a: seq<int>, b: seq<int>, s: nat, o: nat, x: int, n: nat)
    requires q > 1 && o < s && |a| == s * n
    ensures C(q, Eval(a + b, s, o, x)) == C(q, Eval(a, s, o, x) + Pow(q, x, n) * Eval(b, s, o, x))
    decreases n
  {
    hide C;
    if n == 0 {
      assert a == [] by { assert s * 0 == 0; }
      assert a + b == b;
    } else {
      StrideLess(s, n);
      EvalConcat(q, a[s..], b, s, o, x, n - 1);
      assert (a + b)[s..] == a[s..] + b;
      ConcatStep(q, a[o], x, Eval(a[s..] + b, s, o, x), Eval(a[s..], s, o, x), Pow(q, x, n - 1), Eval(b, s, o, x));
    }
  }

  lemma StrideLess(s: nat, n: nat)
    requires n > 0
    ensures s * n == s + s * (n - 1) && s * (n - 1) >= 0
  {}

  lemma ConcatStep(q: nat, a0: int, x: int, e: int, ea: int, p: int, eb: int)
    requires q > 1 && C(q, e) == C(q, ea + p * eb)
    ensures C(q, a0 + x * e) == C(q, (a0 + x * ea) + C(q, x * p) * eb)
  {
    hide C;
    CEqMul(q, x, x, e, ea + p * eb);
    CEqAdd(q, a0, a0, x * e, x * (ea + p * eb));
    Distribute(x, ea, p * eb);
    MulAssoc(x, p, eb);
    CMul(q, x * p, eb);
    CEqAdd(q, a0 + x * ea, a0 + x * ea, x * p * eb, C(q, x * p) * eb);
  }

  /** A combination of vectors evaluates to the combination of the values. */
  lemma {:induction false} EvalCombine(q: nat, v: seq<int>, a: seq<int>, c: int, b: seq<int>, s: nat, o: nat, x: int)
    requires q > 1 && o < s && |v| == |a| == |b| && forall i :: 0 <= i < |v| ==> C(q, v[i]) == C(q, a[i] + c * b[i])
    ensures C(q, Eval(v, s, o, x)) == C(q, Eval(a, s, o, x) + c * Eval(b, s, o, x))
    decreases |v|
  {
    hide C;
    if |v| >= s {
      EvalCombine(q, v[s..], a[s..], c, b[s..], s, o, x);
      var e, ea, eb := Eval(v[s..], s, o, x), Eval(a[s..], s, o, x), Eval(b[s..], s, o, x);
      CEqMul(q, x, x, e, ea + c * eb);
      CEqAdd(q, v[o], a[o] + c * b[o], x * e, x * (ea + c * eb));
      CombineTerms(a[o], b[o], c, x, ea, eb);
    }
  }

  lemma CombineTerms(a: int, b: int, c: int, x: int, ea: int, eb: int)
    ensures a + c * b + x * (ea + c * eb) == a + x * ea + c * (b + x * eb)
  {
    assert x * (c * eb) == c * (x * eb);
  }

  // ---------- the evaluation points ----------

  /** The twiddle of half-block c among 2p, negated for the second half of a block. */
  function HalfTwiddle(R: Ring, c: nat, p: nat): int
    requires R.q > 1
  {
    if c % 2 == 0 then Zeta(R, p + c / 2) else -Zeta(R, p + c / 2)
  }

  function DivBy(j: nat, d: nat): (n: nat)
    requires d > 0
    ensures d * n <= j < d * n + d
  {
    DivMod(j, d);
    j / d
  }

  /** The twiddle of the butterfly that point i meets at layer t, with the sign of its half. */
  function SignedZeta(R: Ring, i: nat, t: nat): int
    requires R.q > 1 && t < R.bits
  {
    HalfTwiddle(R, DivBy(i, Pow2(R.bits - 1 - t)), Pow2(t))
  }

  lemma DivideTwice(j: nat, a: nat)
    requires a > 0
    ensures DivBy(j, a) / 2 == DivBy(j, 2 * a)
  {
    var x, r := j / a, j % a;
    DivMod(j, a);
    assert j == (2 * a) * (x / 2) + (a * (x % 2) + r) by {
      assert x == 2 * (x / 2) + x % 2;
      assert a * x == a * (2 * (x / 2)) + a * (x % 2);
      assert a * (2 * (x / 2)) == (2 * a) * (x / 2);
    }
    if x % 2 == 0 { assert a * (x % 2) == 0; } else { assert a * (x % 2) == a; }
    Divide(x / 2, a * (x % 2) + r, 2 * a);
  }

  lemma DivBelow(j: nat, d: nat, n: nat)
    requires d > 0 && j < d * n
    ensures DivBy(j, d) < n
  {
    var k := DivBy(j, d);
    hide DivBy;
    if k >= n {
      MulMono(d, n, k);
    }
  }

  lemma RootIsLastTwiddle(R: Ring, i: nat)
    requires R.Valid() && i < Pow2(R.bits)
    ensures C(R.q, Root(R, i)) == C(R.q, SignedZeta(R, i, R.bits - 1))
  {
    hide Pow, Rev, C, SignedZeta, Pow2;
    var p, h := Pow2(R.bits - 1), i / 2;
    LastTwiddle(R, i);
    LastIndex(i, R.bits, p, h);
    if i % 2 == 1 {
      PowAdds(R.q, R.zeta, Pow2(R.bits), Rev(p + h, R.bits));
      MinusOne(R.q, Zeta(R, p + h));
      CIdem(R.q, (R.q - 1) * Zeta(R, p + h));
    }
  }

  lemma LastIndex(i: nat, n: nat, p: nat, h: nat)
    requires n > 0 && i < Pow2(n) && p == Pow2(n - 1) && h == i / 2
    ensures 2 * Rev(i, n) + 1 == (if i % 2 == 1 then Pow2(n) else 0) + Rev(p + h, n)
  {
    hide Rev;
    RevHalf(i, n);
    assert Pow2(n) == 2 * p;
    RevTop(h, n - 1);
  }

  lemma LastTwiddle(R: Ring, i: nat)
    requires R.q > 1 && R.bits > 0
    ensures SignedZeta(R, i, R.bits - 1) ==
      if i % 2 == 0 then Zeta(R, Pow2(R.bits - 1) + i / 2) else -Zeta(R, Pow2(R.bits - 1) + i / 2)
  {
    hide Zeta;
    assert Pow2(0) == 1;
    hide Pow2;
    assert DivBy(i, 1) == i;
  }

  /** The table index of a twiddle one layer further down, and how it yields the twiddle above it. */
  lemma SignedParent(R: Ring, i: nat, t: nat) returns (m: nat)
    requires R.q > 1 && t + 1 < R.bits && i < Pow2(R.bits)
    ensures 2 <= m < Pow2(R.bits)
    ensures SignedZeta(R, i, t + 1) == Zeta(R, m) || SignedZeta(R, i, t + 1) == -Zeta(R, m)
    ensures SignedZeta(R, i, t) == if m % 2 == 0 then Zeta(R, m / 2) else -Zeta(R, m / 2)
  {
    hide Zeta, HalfTwiddle, DivBy;
    var h, p := Pow2(R.bits - 2 - t), Pow2(t);
    assert Pow2(R.bits - 1 - t) == 2 * h && Pow2(t + 1) == 2 * p;
    Pow2Adds(R.bits - 1 - t, t + 1);
    PowMono(t + 2, R.bits);
    assert Pow2(t + 2) == 4 * p;
    hide Pow2;
    DivideTwice(i, h);
    DivBelow(i, 2 * h, 2 * p);
    m := ParentIndex(R, p, DivBy(i, 2 * h), DivBy(i, h));
  }

  lemma ParentIndex(R: Ring, p: nat, b: nat, c: nat) returns (m: nat)
    requires R.q > 1 && b == c / 2
    ensures m == 2 * p + b
    ensures HalfTwiddle(R, c, 2 * p) == Zeta(R, m) || HalfTwiddle(R, c, 2 * p) == -Zeta(R, m)
    ensures HalfTwiddle(R, b, p) == if m % 2 == 0 then Zeta(R, m / 2) else -Zeta(R, m / 2)
  {
    hide Zeta;
    m := 2 * p + b;
    TwoPlus(p, b);
  }

  lemma TwoPlus(p: nat, b: nat)
    ensures (2 * p + b) % 2 == b % 2 && (2 * p + b) / 2 == p + b / 2
  {}

  /** Raising the point of index i to the half-length of a block gives the signed twiddle. */
  lemma {:induction false} RootPower(R: Ring, i: nat, t: nat)
    requires R.Valid() && i < Pow2(R.bits) && t < R.bits
    ensures C(R.q, Pow(R.q, Root(R, i), Pow2(R.bits - 1 - t))) == C(R.q, SignedZeta(R, i, t))
    decreases R.bits - t
  {
    hide C, Zeta, Root, SignedZeta;
    if t == R.bits - 1 {
      RootIsLastTwiddle(R, i);
      PowOne(R.q, Root(R, i));
      CIdem(R.q, Root(R, i));
      assert Pow2(0) == 1;
    } else {
      RootPower(R, i, t + 1);
      var h := Pow2(R.bits - 2 - t);
      assert Pow2(R.bits - 1 - t) == h + h;
      PowAdds(R.q, Root(R, i), h, h);
      var m := SignedParent(R, i, t);
      var r, z := Pow(R.q, Root(R, i), h), SignedZeta(R, i, t + 1);
      CEqMul(R.q, r, z, r, z);
      SignSquare(Zeta(R, m));
      ZetaSquare(R, m);
      CIdem(R.q, r * r);
    }
  }

  lemma SignSquare(z: int)
    ensures (-z) * (-z) == z * z
  {}

  /** Every evaluation point is a root of X^(2^bits) + 1. */
  lemma RootOfMinusOne(R: Ring, i: nat)
    requires R.Valid() && i < Pow2(R.bits)
    ensures C(R.q, Pow(R.q, Root(R, i), Pow2(R.bits))) == R.q - 1
  {
    FirstTwiddle(R, i);
    RootPower(R, i, 0);
    var z, h := SignedZeta(R, i, 0), Pow2(R.bits - 1);
    assert Pow2(R.bits) == h + h;
    hide C, Pow, Zeta, Root, SignedZeta, Pow2;
    ZetaOne(R);
    SignSquare(Zeta(R, 1));
    var r := Pow(R.q, Root(R, i), h);
    PowAdds(R.q, Root(R, i), h, h);
    CEqMul(R.q, r, z, r, z);
    CIdem(R.q, r * r);
  }

  lemma FirstTwiddle(R: Ring, i: nat)
    requires R.q > 1 && R.bits > 0 && i < Pow2(R.bits)
    ensures SignedZeta(R, i, 0) == Zeta(R, 1) || SignedZeta(R, i, 0) == -Zeta(R, 1)
  {
    hide Zeta, DivBy;
    assert Pow2(0) == 1;
    assert Pow2(R.bits) == Pow2(R.bits - 1) * 2;
    hide Pow2;
    DivBelow(i, Pow2(R.bits - 1), 2);
  }

  // ---------- the transform evaluates ----------

  /** Where the block starts that point i belongs to after t layers. */
  function BlockStart(R: Ring, i: nat, t: nat): (st: nat)
    requires t <= R.bits <= 8 && i < Pow2(R.bits)
    ensures st + Pow2(8 - t) <= 256
  {
    BlockShape(t);
    Pow2Adds(R.bits - t, t);
    hide Pow2;
    var n := DivBy(i, Pow2(R.bits - t));
    DivBelow(i, Pow2(R.bits - t), Pow2(t));
    StartBelow(Pow2(8 - t), n, Pow2(t));
    Pow2(8 - t) * n
  }

  lemma StartBelow(d: nat, n: nat, p: nat)
    requires n < p && d * p == 256
    ensures d * n + d <= 256
  {
    MulMono(d, n + 1, p);
    assert d * (n + 1) == d * n + d;
  }

  lemma BlockShape(t: nat)
    requires t <= 8
    ensures Pow2(8 - t) * Pow2(t) == 256
  {
    Pow2Adds(8 - t, t);
    assert Pow2(8) == 256;
  }

  /** The block of length Pow2(8 - t) of point i. */
  function BlockOf(R: Ring, w: Poly, i: nat, t: nat): seq<int>
    requires t <= R.bits <= 8 && i < Pow2(R.bits)
  {
    w[BlockStart(R, i, t)..BlockStart(R, i, t) + Pow2(8 - t)]
  }

  /** The distance of the exponents in one class: 1 for 8 layers, 2 for 7. */
  function Stride(R: Ring): (s: nat)
    requires R.bits <= 8
    ensures s > 0
  {
    Pow2(8 - R.bits)
  }

  /** After t layers, the block of point i still has the value of the whole at that point. */
  lemma {:induction false} ForwardKeepsValues(R: Ring, w: Poly, i: nat, t: nat, o: nat)
    requires R.Valid() && i < Pow2(R.bits) && t <= R.bits && o < Stride(R)
    ensures C(R.q, Eval(BlockOf(R, Forward(R, w, t), i, t), Stride(R), o, Root(R, i)))
      == C(R.q, Eval(w, Stride(R), o, Root(R, i)))
  {
    hide C, Root, Eval, Layer, Pow, BlockOf, Stride;
    if t == 0 {
      WholeBlock(R, w, i);
    } else {
      ForwardKeepsValues(R, w, i, t - 1, o);
      LayerShape(t - 1);
      BlockStep(R, Forward(R, w, t - 1), Forward(R, w, t), i, t - 1, Pow2(8 - t), Pow2(t - 1), o);
    }
  }

  lemma WholeBlock(R: Ring, w: Poly, i: nat)
    requires R.bits <= 8 && i < Pow2(R.bits)
    ensures BlockOf(R, w, i, 0) == w
  {
    assert Pow2(8) == 256;
    assert Pow2(0) == 1;
    DivBelow(i, Pow2(R.bits), 1);
    hide Pow2, DivBy;
  }

  lemma BlockStep(R: Ring, f: Poly, g: Poly, i: nat, t: nat, ln: nat, p: nat, o: nat)
    requires R.Valid() && i < Pow2(R.bits) && t < R.bits && o < Stride(R)
    requires ln == Pow2(7 - t) && p == Pow2(t) && ln * p == 128 && g == Layer(R, f, ln, p)
    ensures C(R.q, Eval(BlockOf(R, g, i, t + 1), Stride(R), o, Root(R, i)))
      == C(R.q, Eval(BlockOf(R, f, i, t), Stride(R), o, Root(R, i)))
  {
    hide *;
    var b, e, z, st, at, h := Placement(R, f, g, i, t, ln, p);
    ModulusOf(R);
    BlockValue(R, f, g, ln, p, b, e, z, Root(R, i), st, at, Stride(R), o, h);
  }

  lemma ModulusOf(R: Ring)
    requires R.Valid()
    ensures R.q > 1 && R.bits <= 8
  {}

  /** Block, half and twiddle of point i at layer t. */
  lemma Placement(R: Ring, f: Poly, g: Poly, i: nat, t: nat, ln: nat, p: nat)
    returns (b: nat, e: nat, z: int, st: nat, at: nat, h: nat)
    requires R.Valid() && i < Pow2(R.bits) && t < R.bits && ln == Pow2(7 - t) && p == Pow2(t) && ln * p == 128
    ensures b < p && e < 2 && ln > 0 && ln == Stride(R) * h
    ensures z == if e == 0 then Zeta(R, p + b) else -Zeta(R, p + b)
    ensures C(R.q, Pow(R.q, Root(R, i), h)) == C(R.q, z)
    ensures st == 2 * ln * b && at == (if e == 0 then st else st + ln) && st + 2 * ln <= 256
    ensures BlockOf(R, f, i, t) == f[st..st + 2 * ln] && BlockOf(R, g, i, t + 1) == g[at..at + ln]
  {
    hide *;
    ModulusOf(R);
    LayerPowers(R, t);
    h := Pow2(R.bits - 1 - t);
    var c := DivBy(i, h);
    z := SignedZeta(R, i, t);
    RootPower(R, i, t);
    DivideTwice(i, h);
    b, e := BlockAndHalf(R, i, t, h, p, c);
    st, at := Located(R, f, g, i, t, ln, h, b, e, c);
  }

  lemma Located(R: Ring, f: Poly, g: Poly, i: nat, t: nat, ln: nat, h: nat, b: nat, e: nat, c: nat)
    returns (st: nat, at: nat)
    requires R.bits <= 8 && i < Pow2(R.bits) && t < R.bits && ln == Pow2(7 - t) && Pow2(8 - t) == 2 * ln
    requires h == Pow2(R.bits - 1 - t) && h > 0 && Pow2(R.bits - t) == 2 * h && c == DivBy(i, h)
    requires b == DivBy(i, 2 * h) && b == c / 2 && e == c % 2
    ensures st == 2 * ln * b && at == (if e == 0 then st else st + ln) && st + 2 * ln <= 256
    ensures BlockOf(R, f, i, t) == f[st..st + 2 * ln] && BlockOf(R, g, i, t + 1) == g[at..at + ln]
  {
    hide *;
    HalfStart(ln, c, b, e);
    Starts(R, i, t, ln, h, b, c);
    Slices(R, f, g, i, t, ln);
    st, at := BlockStart(R, i, t), BlockStart(R, i, t + 1);
  }

  lemma BlockAndHalf(R: Ring, i: nat, t: nat, h: nat, p: nat, c: nat) returns (b: nat, e: nat)
    requires R.Valid() && i < Pow2(R.bits) && t < R.bits && (2 * h) * p == Pow2(R.bits) && h > 0 && p == Pow2(t)
    requires h == Pow2(R.bits - 1 - t) && c == DivBy(i, h) && c / 2 == DivBy(i, 2 * h)
    ensures b == c / 2 && e == c % 2 && b < p
    ensures SignedZeta(R, i, t) == if e == 0 then Zeta(R, p + b) else -Zeta(R, p + b)
  {
    hide Zeta, Pow, Pow2, DivBy;
    DivBelow(i, 2 * h, p);
    b, e := c / 2, c % 2;
  }

  lemma Starts(R: Ring, i: nat, t: nat, ln: nat, h: nat, b: nat, c: nat)
    requires R.bits <= 8 && i < Pow2(R.bits) && t < R.bits && ln == Pow2(7 - t) && Pow2(8 - t) == 2 * ln
    requires h == Pow2(R.bits - 1 - t) && h > 0 && Pow2(R.bits - t) == 2 * h && b == DivBy(i, 2 * h) && c == DivBy(i, h)
    ensures BlockStart(R, i, t) == 2 * ln * b && BlockStart(R, i, t + 1) == ln * c
  {
    hide Pow2, DivBy;
  }

  lemma Slices(R: Ring, f: Poly, g: Poly, i: nat, t: nat, ln: nat)
    requires R.bits <= 8 && i < Pow2(R.bits) && t < R.bits && ln == Pow2(7 - t) && Pow2(8 - t) == 2 * ln
    ensures var st, at := BlockStart(R, i, t), BlockStart(R, i, t + 1);
      BlockOf(R, f, i, t) == f[st..st + 2 * ln] && BlockOf(R, g, i, t + 1) == g[at..at + ln]
  {
    hide BlockStart, Pow2;
  }

  lemma LayerPowers(R: Ring, t: nat)
    requires R.bits <= 8 && t < R.bits
    ensures Pow2(R.bits - t) == 2 * Pow2(R.bits - 1 - t) && Pow2(8 - t) == 2 * Pow2(7 - t)
    ensures Pow2(7 - t) == Stride(R) * Pow2(R.bits - 1 - t) && Pow2(R.bits - t) * Pow2(t) == Pow2(R.bits)
  {
    Pow2Adds(8 - R.bits, R.bits - 1 - t);
    Pow2Adds(R.bits - t, t);
  }

  lemma HalfStart(ln: nat, c: nat, b: nat, e: nat)
    requires b == c / 2 && e == c % 2
    ensures ln * c == 2 * ln * b + (if e == 0 then 0 else ln)
  {
    assert c == 2 * b + e;
    assert ln * (2 * b) == 2 * ln * b;
    if e == 0 {} else { assert ln * (2 * b + 1) == ln * (2 * b) + ln; }
  }

  /** One half of a block after a layer has the value of the whole block at a point whose power is the
      twiddle with that half's sign. */
  lemma BlockValue(R: Ring, f: Poly, g: Poly, ln: nat, p: nat, b: nat, e: nat, z: int, x: int, st: nat, at: nat, s: nat,
                   o: nat, h: nat)
    requires R.q > 1 && ln > 0 && ln * p == 128 && b < p && e < 2 && g == Layer(R, f, ln, p) && o < s && ln == s * h
    requires st == 2 * ln * b && at == (if e == 0 then st else st + ln) && st + 2 * ln <= 256
    requires z == if e == 0 then Zeta(R, p + b) else -Zeta(R, p + b)
    requires C(R.q, Pow(R.q, x, h)) == C(R.q, z)
    ensures C(R.q, Eval(g[at..at + ln], s, o, x)) == C(R.q, Eval(f[st..st + 2 * ln], s, o, x))
  {
    hide C, Eval, Layer, Zeta, IsPair, Pow;
    var lo, hi := f[st..st + ln], f[st + ln..st + 2 * ln];
    forall i | 0 <= i < ln
      ensures C(R.q, g[at..at + ln][i]) == C(R.q, lo[i] + z * hi[i])
    {
      BlockIndex(ln, p, b, i);
      LayerAt(R, f, ln, p, b, st + i);
      ChildEntry(R.q, lo[i], hi[i], Zeta(R, p + b));
    }
    HalvesValue(R.q, f[st..st + 2 * ln], lo, hi, g[at..at + ln], z, x, s, o, h);
  }

  lemma HalvesValue(q: nat, whole: seq<int>, lo: seq<int>, hi: seq<int>, child: seq<int>, z: int, x: int, s: nat,
                    o: nat, h: nat)
    requires q > 1 && o < s && |child| == |lo| == |hi| == s * h && whole == lo + hi && C(q, Pow(q, x, h)) == C(q, z)
    requires forall i :: 0 <= i < |lo| ==> C(q, child[i]) == C(q, lo[i] + z * hi[i])
    ensures C(q, Eval(child, s, o, x)) == C(q, Eval(whole, s, o, x))
  {
    hide C, Eval, Pow;
    EvalCombine(q, child, lo, z, hi, s, o, x);
    EvalConcat(q, lo, hi, s, o, x, h);
    var l, u := Eval(lo, s, o, x), Eval(hi, s, o, x);
    CEqMul(q, Pow(q, x, h), z, u, u);
    CEqAdd(q, l, l, Pow(q, x, h) * u, z * u);
  }

  lemma ChildEntry(q: nat, x: int, y: int, z: int)
    requires q > 1
    ensures C(q, C(q, x + C(q, z * y))) == C(q, x + z * y) && C(q, C(q, x - C(q, z * y))) == C(q, x + (-z) * y)
  {
    hide C;
    CIdem(q, x + C(q, z * y)); CIdem(q, x - C(q, z * y));
    CAdd(q, x, z * y);
    CSub(q, x, z * y);
    assert (-z) * y == -(z * y);
  }

  /** Entry s i + o of the transform is the value at point i of the part of w in class o. */
  lemma NttEvaluates(R: Ring, w: Poly, i: nat, o: nat, j: nat)
    requires R.Valid() && i < Pow2(R.bits) && o < Stride(R) && j == Stride(R) * i + o
    ensures j < 256 && C(R.q, NttOf(R, w)[j]) == C(R.q, Eval(w, Stride(R), o, Root(R, i)))
  {
    hide C, Root, Forward, Pow, Stride;
    ForwardKeepsValues(R, w, i, R.bits, o);
    LastBlock(R, NttOf(R, w), i, o, j, Root(R, i));
  }

  lemma LastBlock(R: Ring, f: Poly, i: nat, o: nat, j: nat, x: int)
    requires R.Valid() && i < Pow2(R.bits) && o < Stride(R) && j == Stride(R) * i + o
    ensures j < 256 && Eval(BlockOf(R, f, i, R.bits), Stride(R), o, x) == f[j]
  {
    hide C, Pow;
    assert Pow2(0) == 1;
    assert DivBy(i, 1) == i;
    hide Pow2, DivBy;
    var s, st := Stride(R), BlockStart(R, i, R.bits);
    assert f[st..st + s][s..] == [];
    assert x * 0 == 0;
  }

  // ---------- multiplication modulo X^256 + 1 ----------

  /** X times v. */
  function TimesX(v: Poly): Poly {
    [-v[255]] + v[..255]
  }

  /** X^i times v. */
  function Shifted(v: Poly, i: nat): Poly {
    if i == 0 then v else TimesX(Shifted(v, i - 1))
  }

  /** The sum over i < n of a[i] X^i b. */
  function PartialProduct(a: Poly, b: Poly, n: nat): Poly
    requires n <= 256
  {
    if n == 0 then seq(256, j => 0)
    else
      var s, t := PartialProduct(a, b, n - 1), Shifted(b, n - 1);
      seq(256, j requires 0 <= j < 256 => s[j] + a[n - 1] * t[j])
  }

  /** The product in Z[X] / (X^256 + 1). */
  function Product(a: Poly, b: Poly): Poly {
    PartialProduct(a, b, 256)
  }

  /** Multiplication by X^i moves the coefficients up by i and negates those that wrap around. */
  lemma {:induction false} ShiftedAt(v: Poly, i: nat, j: nat)
    requires i <= 256 && j < 256
    ensures Shifted(v, i)[j] == if j >= i then v[j - i] else -v[256 + j - i]
  {
    if i > 0 {
      ShiftedAt(v, i - 1, if j == 0 then 255 else j - 1);
    }
  }

  lemma PartialProductStep(q: nat, a: Poly, b: Poly, m: nat, s: nat, o: nat, x: int)
    requires q > 1 && m < 256 && o < s
    ensures C(q, Eval(PartialProduct(a, b, m + 1), s, o, x))
      == C(q, Eval(PartialProduct(a, b, m), s, o, x) + a[m] * Eval(Shifted(b, m), s, o, x))
  {
    hide C, Eval, Shifted;
    EvalCombine(q, PartialProduct(a, b, m + 1), PartialProduct(a, b, m), a[m], Shifted(b, m), s, o, x);
  }

  lemma {:induction false} EvalZeros(n: nat, s: nat, o: nat, x: int)
    requires o < s
    ensures Eval(seq(n, j => 0), s, o, x) == 0
  {
    if n >= s {
      EvalZeros(n - s, s, o, x);
      assert (seq(n, j => 0))[s..] == seq(n - s, j => 0);
      assert x * 0 == 0;
    }
  }

  // ---------- the size of a product ----------

  /** The sum of the absolute values of the first n coefficients. */
  function Weight(c: Poly, n: nat): nat
    requires n <= 256
  {
    if n == 0 then 0 else Weight(c, n - 1) + Abs(c[n - 1])
  }

  function Abs(x: int): nat {
    if x < 0 then -x else x
  }

  ghost predicate Bounded(v: Poly, e: int) {
    forall j :: 0 <= j < 256 ==> -e <= v[j] <= e
  }

  lemma {:induction false} ShiftedBounded(v: Poly, i: nat, e: int)
    requires Bounded(v, e)
    ensures Bounded(Shifted(v, i), e)
  {
    if i > 0 {
      ShiftedBounded(v, i - 1, e);
    }
  }

  lemma {:induction false} PartialProductBounded(c: Poly, s: Poly, n: nat, e: nat)
    requires n <= 256 && Bounded(s, e)
    ensures Bounded(PartialProduct(c, s, n), Weight(c, n) * e)
  {
    if n > 0 {
      PartialProductBounded(c, s, n - 1, e);
      ShiftedBounded(s, n - 1, e);
      var p, t, w, a := PartialProduct(c, s, n - 1), Shifted(s, n - 1), Weight(c, n - 1), c[n - 1];
      assert (w + Abs(a)) * e == w * e + Abs(a) * e;
      hide Shifted;
      forall j | 0 <= j < 256
        ensures -((w + Abs(a)) * e) <= p[j] + a * t[j] <= (w + Abs(a)) * e
      {
        ScaledBound(a, t[j], e);
      }
    }
  }

  lemma ScaledBound(a: int, x: int, e: nat)
    requires -(e as int) <= x <= e
    ensures -(Abs(a) * e) <= a * x <= Abs(a) * e
  {
    if x >= 0 {
      assert Abs(a) * x <= Abs(a) * e;
      assert Abs(a) * x >= 0;
    } else {
      assert Abs(a) * (-x) <= Abs(a) * e;
      assert Abs(a) * (-x) >= 0;
      assert a * x == -(a * (-x));
    }
  }

  /** A product with a polynomial of weight t is at most t times as large in the infinity norm. */
  lemma ProductBounded(c: Poly, s: Poly, e: nat)
    requires Bounded(s, e)
    ensures Bounded(Product(c, s), Weight(c, 256) * e)
  {
    PartialProductBounded(c, s, 256, e);
  }
}
