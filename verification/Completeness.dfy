/** ML-DSA completeness: every signature that sign returns under a key from keygen is accepted. */
module Completeness {
  import opened Arithmetic
  import opened Modular
  import opened MlDsaNtt
  import opened Options
  import opened Butterflies
  import opened NttRing
  import opened Rounding
  import opened BitFields
  import opened BitPacking
  import opened HintPacking
  import opened Sampling
  import opened Hashing
  import opened KeyCodec
  import opened MlDsa

  // ---------- transforms of centred polynomials ----------

  lemma CentredSame(x: int)
    ensures C(Q, ModPm(x, Q)) == C(Q, x)
  {}

  lemma NttOfCentred(v: seq<Poly>)
    ensures NttAll(CentredAll(v)) == NttAll(v)
  {
    DsaValid();
    hide Pow, Pow2;
    hide NttOf, C, ModPm;
    forall i | 0 <= i < |v|
      ensures NttAll(CentredAll(v))[i] == NttAll(v)[i]
    {
      forall j | 0 <= j < 256
        ensures C(Q, CentredPoly(v[i])[j]) == C(Q, v[i][j])
      {
        CentredSame(v[i][j]);
      }
      NttCongruent(DSA, CentredPoly(v[i]), v[i]);
    }
  }

  // ---------- the linear algebra of verification ----------

  /** A row product is linear in the vector, with a polynomial of the transformed domain as the scalar. */
  lemma {:induction false} RowCombines(a: seq<Poly>, u: seq<Poly>, x: seq<Poly>, c: int, y: seq<Poly>, n: nat, j: nat)
    requires n <= |a| && n <= |u| && n <= |x| && n <= |y| && j < 256
    requires forall s :: 0 <= s < n ==> C(Q, u[s][j]) == C(Q, x[s][j] + c * y[s][j])
    ensures C(Q, Row(a, u, n)[j]) == C(Q, Row(a, x, n)[j] + c * Row(a, y, n)[j])
  {
    hide C;
    if n > 0 {
      RowCombines(a, u, x, c, y, n - 1, j);
      RowCombineStep(Row(a, u, n - 1)[j], Row(a, x, n - 1)[j], Row(a, y, n - 1)[j], c, a[n - 1][j],
                     u[n - 1][j], x[n - 1][j], y[n - 1][j]);
    }
  }

  lemma RowCombineStep(ru: int, rx: int, ry: int, c: int, a: int, u: int, x: int, y: int)
    requires C(Q, ru) == C(Q, rx + c * ry) && C(Q, u) == C(Q, x + c * y)
    ensures C(Q, C(Q, ru + C(Q, a * u))) == C(Q, C(Q, rx + C(Q, a * x)) + c * C(Q, ry + C(Q, a * y)))
  {
    hide C;
    CIdem(Q, ru + C(Q, a * u));
    CAdd(Q, ru, a * u);
    CEqMul(Q, a, a, u, x + c * y);
    CEqAdd(Q, ru, rx + c * ry, a * u, a * (x + c * y));
    Distribute(a, x, c * y);
    Commute(a, c, y);
    Distribute(c, ry, a * y);
    CAdd(Q, rx, a * x);
    CAdd(Q, ry, a * y);
    CIdem(Q, rx + a * x); CIdem(Q, ry + a * y);
    CEqMul(Q, c, c, C(Q, ry + a * y), ry + a * y);
    CEqAdd(Q, C(Q, rx + a * x), rx + a * x, c * C(Q, ry + a * y), c * (ry + a * y));
  }

  /** The transform of a response entry: ntt(y + c s1) = yh + ch s1h. */
  lemma ResponseTransform(zr: Poly, y: Poly, ch: Poly, sh: Poly)
    requires forall j :: 0 <= j < 256 ==> C(Q, zr[j]) == C(Q, y[j] + InttOf(DSA, Pmul(ch, sh))[j])
    ensures forall j :: 0 <= j < 256 ==> C(Q, NttOf(DSA, zr)[j]) == C(Q, NttOf(DSA, y)[j] + ch[j] * sh[j])
  {
    DsaValid();
    hide Pow, Pow2;
    hide C, NttOf, InttOf;
    var m := Pmul(ch, sh);
    NttLinear(DSA, zr, y, 1, InttOf(DSA, m));
    NttIntt(DSA, m);
    forall j | 0 <= j < 256
      ensures C(Q, NttOf(DSA, zr)[j]) == C(Q, NttOf(DSA, y)[j] + ch[j] * sh[j])
    {
      CIdem(Q, ch[j] * sh[j]);
      CEqAdd(Q, NttOf(DSA, y)[j], NttOf(DSA, y)[j], NttOf(DSA, InttOf(DSA, m))[j], ch[j] * sh[j]);
    }
  }

  /** The transform of t1 2^13 = t - t0: ntt(t1 2^13) = S + s2h - t0h, where t = intt(S) + s2. */
  lemma PublicTransform(rs: Poly, s2: Poly, t: Poly)
    requires t == Padd(InttOf(DSA, rs), s2)
    ensures forall j :: 0 <= j < 256 ==>
      C(Q, NttOf(DSA, ShiftedUp(HighPoly(t)))[j]) == C(Q, rs[j] + NttOf(DSA, s2)[j] - NttOf(DSA, LowPoly(t))[j])
  {
    DsaValid();
    hide Pow, Pow2;
    hide C, NttOf, InttOf, Power2Round;
    var up, lo, x := ShiftedUp(HighPoly(t)), LowPoly(t), InttOf(DSA, rs);
    forall j | 0 <= j < 256
      ensures C(Q, t[j]) == C(Q, x[j] + 1 * s2[j])
    {
      CIdem(Q, x[j] + s2[j]);
    }
    NttLinear(DSA, t, x, 1, s2);
    forall j | 0 <= j < 256
      ensures C(Q, up[j]) == C(Q, t[j] + -1 * lo[j])
    {
      HighIsRest(t[j]);
    }
    NttLinear(DSA, up, t, -1, lo);
    NttIntt(DSA, rs);
    forall j | 0 <= j < 256
      ensures C(Q, NttOf(DSA, up)[j]) == C(Q, rs[j] + NttOf(DSA, s2)[j] - NttOf(DSA, lo)[j])
    {
      CEqAdd(Q, NttOf(DSA, x)[j], rs[j], NttOf(DSA, s2)[j], NttOf(DSA, s2)[j]);
      CEqSub(Q, NttOf(DSA, t)[j], rs[j] + NttOf(DSA, s2)[j], NttOf(DSA, lo)[j], NttOf(DSA, lo)[j]);
    }
  }

  lemma HighIsRest(x: int)
    ensures C(Q, Power2Round(x).0 * 8192 % Q) == C(Q, x + -1 * Power2Round(x).1)
  {
    var (r1, r0) := Power2Round(x);
    Power2RoundParts(x);
    hide Power2Round;
    assert C(Q, r1 * 8192) == r1 * 8192 % Q;
    hide C;
    CIdem(Q, r1 * 8192);
    CSub(Q, x, r0);
  }

  /** What verification recomputes in one row: w - c s2 + c t0. */
  lemma RecomputedRow(z: Poly, y: Poly, rs: Poly, s2h: Poly, t0h: Poly, th: Poly, ch: Poly)
    requires forall j :: 0 <= j < 256 ==> C(Q, z[j]) == C(Q, y[j] + ch[j] * rs[j])
    requires forall j :: 0 <= j < 256 ==> C(Q, th[j]) == C(Q, rs[j] + s2h[j] - t0h[j])
    ensures forall j :: 0 <= j < 256 ==>
      InttOf(DSA, Psub(z, Pmul(ch, th)))[j]
        == C(Q, Psub(InttOf(DSA, y), InttOf(DSA, Pmul(ch, s2h)))[j] + InttOf(DSA, Pmul(ch, t0h))[j])
  {
    DsaValid();
    hide Pow, Pow2;
    hide C, InttOf;
    var ms, mt := Pmul(ch, s2h), Pmul(ch, t0h);
    var v, part := Psub(z, Pmul(ch, th)), Psub(y, ms);
    forall j | 0 <= j < 256
      ensures C(Q, part[j]) == C(Q, y[j] + -1 * ms[j])
    {
      CIdem(Q, y[j] - ms[j]);
    }
    InttLinear(DSA, part, y, -1, ms);
    forall j | 0 <= j < 256
      ensures C(Q, v[j]) == C(Q, part[j] + 1 * mt[j])
    {
      RecomputedEntry(z[j], y[j], rs[j], s2h[j], t0h[j], th[j], ch[j]);
    }
    InttLinear(DSA, v, part, 1, mt);
  }

  lemma RecomputedEntry(z: int, y: int, s: int, s2: int, t0: int, t: int, c: int)
    requires C(Q, z) == C(Q, y + c * s) && C(Q, t) == C(Q, s + s2 - t0)
    ensures C(Q, C(Q, z - C(Q, c * t))) == C(Q, C(Q, y - C(Q, c * s2)) + C(Q, c * t0))
  {
    hide C;
    CIdem(Q, z - C(Q, c * t));
    CSub(Q, z, c * t);
    CEqMul(Q, c, c, t, s + s2 - t0);
    CEqSub(Q, z, y + c * s, c * t, c * (s + s2 - t0));
    assert c * (s + s2 - t0) == c * s + c * s2 - c * t0;
    CAdd(Q, y - C(Q, c * s2), c * t0);
    CSub(Q, y, c * s2);
    CEqAdd(Q, y - C(Q, c * s2), y - c * s2, c * t0, c * t0);
  }

  // ---------- hints and high parts ----------

  lemma NegatedCentred(x: int)
    ensures ModPm((Q - x) % Q, Q) == -ModPm(x, Q)
    ensures C(Q, (x + (Q - x) % Q)) == 0
  {
    var r := x % Q;
    assert (Q - x) % Q == if r == 0 then 0 else Q - r;
  }

  /** The hint turns the recomputed row into the high parts of w - c s2. */
  lemma HintEntry(wp: int, wm: int, ct0: int, g2: int)
    requires IsG2(g2) && wp == C(Q, wm + ct0) && -g2 <= ModPm(ct0, Q) <= g2
    ensures UseHint(MakeHint((Q - ct0) % Q, (wm + ct0) % Q, g2), wp, g2) == HighBits(wm, g2)
  {
    NegatedCentred(ct0);
    assert wp == (wm + ct0) % Q;
    var n := (Q - ct0) % Q;
    HintRecovers(n, wp, g2);
    HighBitsMod(wp + n, wm, g2) by {
      NegatedSum(wp, wm, ct0);
    }
  }

  lemma NegatedSum(wp: int, wm: int, x: int)
    requires wp == C(Q, wm + x)
    ensures C(Q, wp + (Q - x) % Q) == C(Q, wm)
  {
    var n := (Q - x) % Q;
    assert n == C(Q, Q - x);
    hide C;
    CAdd(Q, wm + x, Q - x);
    CMultiple(Q, wm, 1);
    assert wm + x + (Q - x) == wm + 1 * Q;
  }

  /** The parts depend on the residue only. */
  lemma HighBitsMod(x: int, y: int, g2: int)
    requires IsG2(g2) && C(Q, x) == C(Q, y)
    ensures HighBits(x, g2) == HighBits(y, g2) && LowBits(x, g2) == LowBits(y, g2)
  {}

  /** Subtracting a small c s2 leaves the high parts of w alone. */
  lemma StableEntry(w: int, cs2: int, g2: int, b: int)
    requires IsG2(g2) && -b <= ModPm(cs2, Q) <= b && Abs(LowBits(C(Q, w - cs2), g2)) < g2 - b
    ensures HighBits(C(Q, w - cs2), g2) == HighBits(w, g2)
  {
    var wm, d := C(Q, w - cs2), ModPm(cs2, Q);
    CentredSame(cs2);
    hide ModPm, C, HighBits, LowBits;
    HighBitsStable(wm, d, g2, b);
    CEqAdd(Q, w - cs2, wm, cs2, d) by { CIdem(Q, w - cs2); }
    HighBitsMod(wm + d, w, g2);
  }

  // ---------- norms ----------

  lemma {:induction false} MaxOfBound(w: Poly, n: nat, j: nat)
    requires j < n <= 256
    ensures Abs(w[j]) <= MaxOf(w, n)
  {
    if j < n - 1 {
      MaxOfBound(w, n - 1, j);
    }
  }

  lemma {:induction false} MaxAbsBound(v: seq<Poly>, i: nat, j: nat)
    requires i < |v| && j < 256
    ensures Abs(v[i][j]) <= MaxAbs(v)
  {
    if i == 0 {
      MaxOfBound(v[0], 256, j);
    } else {
      MaxAbsBound(v[1..], i - 1, j);
    }
  }

  lemma InfNormBound(v: seq<Poly>, i: nat, j: nat)
    requires i < |v| && j < 256
    ensures Abs(ModPm(v[i][j], Q)) <= InfNorm(v)
  {
    MaxAbsBound(CentredAll(v), i, j);
  }

  /** c s2 is at most tau eta in the infinity norm. */
  lemma ChallengeProduct(c: Poly, s: Poly, tau: nat, eta: nat, j: nat)
    requires IsTernary(c) && Units(c, 256) == tau && 2 * (tau * eta) < Q && j < 256
    requires forall i :: 0 <= i < 256 ==> -(eta as int) <= ModPm(s[i], Q) <= eta
    ensures -(tau * eta) <= ModPm(InttOf(DSA, Pmul(NttOf(DSA, c), NttOf(DSA, s)))[j], Q) <= tau * eta
  {
    DsaValid();
    hide Pow, Pow2;
    hide C, NttOf, InttOf, Product, Units, IsTernary, ModPm;
    var c', s' := Centred(c), CentredPoly(s);
    CongruentCentred(c);
    CongruentCentred(s);
    NttCongruent(DSA, c', c);
    NttCongruent(DSA, s', s);
    RingIsomorphism(c', s');
    UnitsAreWeight(c, 256);
    ProductBounded(c', s', eta);
    CentredOfResidue(Product(c', s')[j], tau * eta);
  }

  lemma CongruentCentred(w: Poly)
    ensures forall j :: 0 <= j < 256 ==> C(Q, CentredPoly(w)[j]) == C(Q, w[j])
    ensures Centred(w) == CentredPoly(w)
  {
    hide C, ModPm;
    forall j | 0 <= j < 256
      ensures C(Q, CentredPoly(w)[j]) == C(Q, w[j])
    {
      CentredSame(w[j]);
    }
  }

  lemma CentredOfResidue(x: int, b: nat)
    requires -(b as int) <= x <= b && 2 * b < Q
    ensures ModPm(C(Q, x), Q) == x
  {}

  // ---------- one row of the recomputed commitment ----------

  /** The row products behind w' are those of w plus the challenge times those of the secret. */
  lemma ResponseRow(a: seq<Poly>, y: seq<Poly>, zr: seq<Poly>, s1: seq<Poly>, ch: Poly, l: nat)
    requires |a| == |y| == |zr| == |s1| == l
    requires forall s, j :: 0 <= s < l && 0 <= j < 256 ==>
      C(Q, zr[s][j]) == C(Q, y[s][j] + InttOf(DSA, Pmul(ch, NttOf(DSA, s1[s])))[j])
    ensures forall j :: 0 <= j < 256 ==>
      C(Q, Row(a, NttAll(zr), l)[j]) == C(Q, Row(a, NttAll(y), l)[j] + ch[j] * Row(a, NttAll(s1), l)[j])
  {
    hide C, NttOf, InttOf, Row, Pmul;
    forall j | 0 <= j < 256
      ensures C(Q, Row(a, NttAll(zr), l)[j]) == C(Q, Row(a, NttAll(y), l)[j] + ch[j] * Row(a, NttAll(s1), l)[j])
    {
      forall s | 0 <= s < l
        ensures C(Q, NttAll(zr)[s][j]) == C(Q, NttAll(y)[s][j] + ch[j] * NttAll(s1)[s][j])
      {
        ResponseTransform(zr[s], y[s], ch, NttOf(DSA, s1[s]));
      }
      RowCombines(a, NttAll(zr), NttAll(y), ch[j], NttAll(s1), l, j);
    }
  }

  /** Verification recomputes w - c s2 + c t0. */
  lemma RowRecomputes(a: seq<Poly>, y: seq<Poly>, zr: seq<Poly>, s1: seq<Poly>, s2: Poly, ch: Poly, l: nat, t: Poly)
    requires |a| == |y| == |zr| == |s1| == l && t == Padd(InttOf(DSA, Row(a, NttAll(s1), l)), s2)
    requires forall s, j :: 0 <= s < l && 0 <= j < 256 ==>
      C(Q, zr[s][j]) == C(Q, y[s][j] + InttOf(DSA, Pmul(ch, NttOf(DSA, s1[s])))[j])
    ensures var w, wp := InttOf(DSA, Row(a, NttAll(y), l)),
                InttOf(DSA, Psub(Row(a, NttAll(zr), l), Pmul(ch, NttOf(DSA, ShiftedUp(HighPoly(t))))));
      forall j :: 0 <= j < 256 ==>
        wp[j] == C(Q,
                   Psub(w, InttOf(DSA, Pmul(ch, NttOf(DSA, s2))))[j] + InttOf(DSA, Pmul(ch, NttOf(DSA, LowPoly(t))))[j])
  {
    hide C, NttOf, InttOf, Row, Pmul, Psub, Padd, NttAll, ShiftedUp, HighPoly, LowPoly;
    ResponseRow(a, y, zr, s1, ch, l);
    PublicTransform(Row(a, NttAll(s1), l), s2, t);
    RecomputedRow(Row(a, NttAll(zr), l), Row(a, NttAll(y), l), Row(a, NttAll(s1), l), NttOf(DSA, s2),
                  NttOf(DSA, LowPoly(t)), NttOf(DSA, ShiftedUp(HighPoly(t))), ch);
  }

  /** With the bounds that sign checks, the hint recovers the high parts of w. */
  lemma HintsRecoverRow(w: Poly, cs2: Poly, ct0: Poly, wp: Poly, g2: int, b: nat)
    requires IsG2(g2)
    requires forall j :: 0 <= j < 256 ==> wp[j] == C(Q, Psub(w, cs2)[j] + ct0[j])
    requires forall j :: 0 <= j < 256 ==> -(b as int) <= ModPm(cs2[j], Q) <= b
    requires forall j :: 0 <= j < 256 ==> Abs(LowBits(Psub(w, cs2)[j], g2)) < g2 - b
    requires forall j :: 0 <= j < 256 ==> Abs(ModPm(ct0[j], Q)) < g2
    ensures UseHintPoly(HintPoly(ct0, Psub(w, cs2), g2), wp, g2) == HighBitsPoly(w, g2)
  {
    hide C, ModPm, LowBits, HighBits, UseHint, MakeHint;
    var wm := Psub(w, cs2);
    forall j | 0 <= j < 256
      ensures UseHintPoly(HintPoly(ct0, wm, g2), wp, g2)[j] == HighBitsPoly(w, g2)[j]
    {
      HintEntry(wp[j], wm[j], ct0[j], g2);
      StableEntry(w[j], cs2[j], g2, b);
    }
  }

  // ---------- signing and verifying ----------

  /** A signature comes from an attempt that passed. */
  lemma {:induction false} SignedAttempt(shake: Shake, x: Signer, kappa: nat, p: Params)
    returns (y: seq<Poly>, t: Attempt)
    requires shake.Valid() && IsParams(p) && IsSigner(x, p) && SignFrom(shake, x, kappa, p).Some?
    ensures |y| == p.l && AttemptOf(shake, x, y, p) == Some(t)
    ensures Passes(t, p) && SignFrom(shake, x, kappa, p).value == Encoded(t, p)
    decreases 65536 - kappa
  {
    hide AttemptOf, Passes, ExpandMask, Encoded;
    y := ExpandMask(shake, x.rhopp, kappa, p);
    t := AttemptOf(shake, x, y, p).value;
    if !Passes(t, p) {
      y, t := SignedAttempt(shake, x, kappa + p.l, p);
    }
  }

  /** The secrets of keygen fit their encodings. */
  lemma SmallVectorFits(shake: Shake, rho: Bytes, first: nat, count: nat, eta: nat)
    requires first + count <= 65536 && SmallVector(shake, rho, first, count, eta).Some?
    ensures Fits(SmallVector(shake, rho, first, count, eta).value, eta, eta)
  {
    hide ModPm, RejBoundedOf;
    var v := SmallVector(shake, rho, first, count, eta).value;
    forall i | 0 <= i < count
      ensures forall j :: 0 <= j < 256 ==> -(eta as int) <= ModPm(v[i][j], Q) <= eta
    {
      RejBoundedRange(shake.shake256(rho + TwoBytes(first + i), XOF_BYTES), eta);
      assert SmallPoly(shake, rho, first + i, eta).Some?;
    }
  }

  lemma RoundedFits(t: seq<Poly>)
    ensures forall i, j :: 0 <= i < |t| && 0 <= j < 256 ==> 0 <= HighAll(t)[i][j] <= 1023
    ensures Fits(LowAll(t), 4095, 4096)
  {
    hide Power2Round, ModPm;
    forall i, j | 0 <= i < |t| && 0 <= j < 256
      ensures 0 <= HighAll(t)[i][j] <= 1023 && -4095 <= ModPm(LowAll(t)[i][j], Q) <= 4096
    {
      Power2RoundParts(t[i][j]);
      CentredIsItself(Power2Round(t[i][j]).1);
    }
  }

  /** The response of a passing attempt fits its encoding. */
  lemma ResponseFits(z: seq<Poly>, p: Params)
    requires IsParams(p) && InfNorm(z) < p.g1 - p.Beta()
    ensures Fits(z, p.g1 - 1, p.g1)
  {
    hide InfNorm, ModPm;
    Shape(p);
    forall i, j | 0 <= i < |z| && 0 <= j < 256
      ensures -(p.g1 - 1) <= ModPm(z[i][j], Q) <= p.g1
    {
      InfNormBound(z, i, j);
    }
  }

  /** The hints of a passing attempt, applied to what verification recomputes, give the high parts of w. */
  lemma AttemptRecovers(shake: Shake, x: Signer, y: seq<Poly>, p: Params, s1: seq<Poly>, s2: seq<Poly>, t: seq<Poly>,
                        at: Attempt)
    requires shake.Valid() && IsParams(p) && IsSigner(x, p) && |y| == p.l && |s1| == p.l && |s2| == p.k
    requires t == TOf(x.a, s1, s2, p) && Fits(s2, p.eta, p.eta)
    requires x.s1h == NttAll(s1) && x.s2h == NttAll(s2) && x.t0h == NttAll(LowAll(t))
    requires AttemptOf(shake, x, y, p) == Some(at) && Passes(at, p)
    ensures UseHintAll(at.h, Recomputed(x.a, NttAll(ReducedAll(CentredAll(at.z))), NttOf(DSA, at.c), HighAll(t), p),
                       p.g2)
      == HighBitsAll(at.w, p.g2)
  {
    hide C, NttOf, InttOf, Row, Pmul, Psub, Padd, ModPm, BallOf, HighPoly, LowPoly, ShiftedUp, W1Encode;
    hide UseHintPoly, HintPoly, HighBitsPoly, InfNorm, MaxAbs, LowBits;
    Shape(p);
    var ch := NttOf(DSA, at.c);
    var zr := ReducedAll(CentredAll(at.z));
    BallShape(shake.shake256(at.ct, XOF_BYTES), p.tau);
    forall s, j | 0 <= s < p.l && 0 <= j < 256
      ensures C(Q, zr[s][j]) == C(Q, y[s][j] + InttOf(DSA, Pmul(ch, NttOf(DSA, s1[s])))[j])
    {
      ResponseEntry(at.z[s][j], y[s], InttOf(DSA, Pmul(ch, NttOf(DSA, s1[s]))), j);
    }
    var wp := Recomputed(x.a, NttAll(zr), ch, HighAll(t), p);
    forall r | 0 <= r < p.k
      ensures UseHintAll(at.h, wp, p.g2)[r] == HighBitsAll(at.w, p.g2)[r]
    {
      RowRecomputes(x.a[r], y, zr, s1, s2[r], ch, p.l, t[r]);
      var cs2, ct0 := InttOf(DSA, Pmul(ch, NttOf(DSA, s2[r]))), InttOf(DSA, Pmul(ch, NttOf(DSA, LowPoly(t[r]))));
      assert at.wm[r] == Psub(at.w[r], cs2) && at.ct0[r] == ct0;
      forall j | 0 <= j < 256
        ensures -(p.Beta() as int) <= ModPm(cs2[j], Q) <= p.Beta()
        ensures Abs(LowBits(at.wm[r][j], p.g2)) < p.g2 - p.Beta() && Abs(ModPm(ct0[j], Q)) < p.g2
      {
        ChallengeProduct(at.c, s2[r], p.tau, p.eta, j);
        MaxAbsBound(LowBitsAll(at.wm, p.g2), r, j);
        InfNormBound(at.ct0, r, j);
      }
      HintsRecoverRow(at.w[r], cs2, ct0, wp[r], p.g2, p.Beta());
    }
  }

  lemma ResponseEntry(z: int, y: Poly, m: Poly, j: nat)
    requires j < 256 && z == Padd(y, m)[j]
    ensures C(Q, ModPm(z, Q) % Q) == C(Q, y[j] + m[j])
  {
    CentredSame(z);
    CIdem(Q, y[j] + m[j]);
  }

  /** What keygen put into a key pair. */
  lemma KeyParts(shake: Shake, xi: Bytes, p: Params) returns (a: Matrix, s: Secret, t: seq<Poly>)
    requires shake.Valid() && IsParams(p) && KeyGenOf(shake, xi, p).Some?
    ensures ExpandA(shake, s.rho, p) == Some(a) && |s.s1| == p.l && |s.s2| == p.k
    ensures t == TOf(a, s.s1, s.s2, p) && s.t0 == LowAll(t)
    ensures |s.rho| == 32 && |s.key| == 32 && |s.tr| == 64
    ensures Fits(s.s1, p.eta, p.eta) && Fits(s.s2, p.eta, p.eta)
    ensures s.tr == shake.shake256(PkEncode(s.rho, HighAll(t)), 64)
    ensures KeyGenOf(shake, xi, p) == Some((PkEncode(s.rho, HighAll(t)), SkEncode(s, p)))
  {
    hide ExpandA, SmallVector, TOf, HighAll, LowAll, PkEncode, SkEncode, Fits;
    var hb := shake.shake256(xi + [p.k, p.l], 128);
    var rho, rhop := hb[..32], hb[32..96];
    a := ExpandA(shake, rho, p).value;
    var s1, s2 := SmallVector(shake, rhop, 0, p.l, p.eta).value, SmallVector(shake, rhop, p.l, p.k, p.eta).value;
    t := TOf(a, s1, s2, p);
    s := Secret(rho, hb[96..], shake.shake256(PkEncode(rho, HighAll(t)), 64), s1, s2, LowAll(t));
    SmallVectorFits(shake, rhop, 0, p.l, p.eta);
    SmallVectorFits(shake, rhop, p.l, p.k, p.eta);
  }

  /** The values that signing works with under a generated key are those of key generation. */
  lemma SignerParts(shake: Shake, s: Secret, a: Matrix, msg: Bytes, rnd: Bytes, p: Params, mu: Option<Bytes>)
    requires shake.Valid() && IsParams(p) && ExpandA(shake, s.rho, p) == Some(a)
    requires |s.rho| == 32 && |s.key| == 32 && |s.tr| == 64 && |s.s1| == p.l && |s.s2| == p.k && |s.t0| == p.k
    requires Fits(s.s1, p.eta, p.eta) && Fits(s.s2, p.eta, p.eta) && Fits(s.t0, 4095, 4096)
    ensures |SkEncode(s, p)| == SkLen(p)
    ensures var x := SignerOf(shake, SkEncode(s, p), msg, rnd, p, mu);
      && x.Some? && x.value.a == a
      && x.value.s1h == NttAll(s.s1) && x.value.s2h == NttAll(s.s2) && x.value.t0h == NttAll(s.t0)
      && x.value.mu == if mu.Some? then mu.value else shake.shake256(s.tr + msg, 64)
  {
    hide ExpandA, SkEncode, SkDecode, Fits, NttAll, CentredAll;
    SkRoundTrip(s, p);
    NttOfCentred(s.s1);
    NttOfCentred(s.s2);
    NttOfCentred(s.t0);
  }

  /** Verification accepts the encoding of an attempt that passed. */
  lemma VerifyAccepts(shake: Shake, rho: Bytes, t1: seq<Poly>, a: Matrix, x: Signer, y: seq<Poly>, at: Attempt,
                      msg: Bytes, p: Params, mu: Option<Bytes>)
    requires shake.Valid() && IsParams(p) && IsSigner(x, p) && |y| == p.l && |rho| == 32 && |t1| == p.k
    requires forall i, j :: 0 <= i < p.k && 0 <= j < 256 ==> 0 <= t1[i][j] <= 1023
    requires ExpandA(shake, rho, p) == Some(a) && a == x.a
    requires x.mu == if mu.Some? then mu.value else shake.shake256(shake.shake256(PkEncode(rho, t1), 64) + msg, 64)
    requires AttemptOf(shake, x, y, p) == Some(at) && Passes(at, p)
    requires UseHintAll(at.h, Recomputed(a, NttAll(ReducedAll(CentredAll(at.z))), NttOf(DSA, at.c), t1, p), p.g2)
      == HighBitsAll(at.w, p.g2)
    ensures VerifyOf(shake, PkEncode(rho, t1), msg, Encoded(at, p), p, mu) == Some(true)
  {
    hide ExpandA, PkEncode, PkDecode, SigDecode, SigEncode, Recomputed, UseHintAll, HighBitsAll, NttAll, NttOf;
    hide ReducedAll, CentredAll, BallOf, W1Encode, Fits, MaxAbs, LowBitsAll, AllOnes, PaddAll, PsubAll, MulAll, HintAll;
    hide WOf;
    Shape(p);
    PkRoundTrip(rho, t1, p);
    ResponseFits(at.z, p);
    SumAllIsCount(at.h, p.k);
    SigRoundTrip(at.ct, at.z, at.h, p);
  }

  /** Completeness: for every parameter set, seed, message and randomness, a signature that sign returns
      under a key that keygen returned is accepted by verify, with or without an external mu. */
  lemma SignaturesVerify(shake: Shake, xi: Bytes, msg: Bytes, rnd: Bytes, p: Params, mu: Option<Bytes>)
    requires shake.Valid() && IsParams(p) && KeyGenOf(shake, xi, p).Some?
    ensures var (pk, sk) := KeyGenOf(shake, xi, p).value;
      && |pk| == PkLen(p) && |sk| == SkLen(p)
      && var sig := SignOf(shake, sk, msg, rnd, p, mu);
         sig.Some? ==> |sig.value| == SigLen(p) && VerifyOf(shake, pk, msg, sig.value, p, mu) == Some(true)
  {
    hide KeyGenOf, SignerOf, AttemptOf, SignFrom, VerifyOf, Passes, Encoded, ExpandA, PkEncode, SkEncode, TOf, HighAll;
    hide LowAll, Fits, NttAll, UseHintAll, Recomputed, HighBitsAll;
    Shape(p);
    var a, s, t := KeyParts(shake, xi, p);
    RoundedFits(t);
    PkRoundTrip(s.rho, HighAll(t), p);
    SignerParts(shake, s, a, msg, rnd, p, mu);
    var x := SignerOf(shake, SkEncode(s, p), msg, rnd, p, mu).value;
    if SignFrom(shake, x, 0, p).Some? {
      var y, at := SignedAttempt(shake, x, 0, p);
      AttemptRecovers(shake, x, y, p, s.s1, s.s2, t, at);
      VerifyAccepts(shake, s.rho, HighAll(t), a, x, y, at, msg, p, mu);
      EncodedLength(at, p);
    }
  }

  lemma EncodedLength(t: Attempt, p: Params)
    requires IsParams(p) && IsAttempt(t, p) && Passes(t, p)
    ensures |Encoded(t, p)| == SigLen(p)
  {
    hide SigEncode, Fits, AllOnes, MaxAbs, LowBitsAll;
    Shape(p);
    ResponseFits(t.z, p);
    SumAllIsCount(t.h, p.k);
    SigRoundTrip(t.ct, t.z, t.h, p);
  }
}
