/** A bound on the decryption noise from the weights of the secrets, the ranges of the sampled errors and
    the rounding of the ciphertext. Light secrets always decrypt. */
module NoiseBound {
  import opened Arithmetic
  import opened Modular
  import opened Butterflies
  import opened NttRing
  import opened MlKemNtt
  import opened MlKemAlgebra
  import opened BitFields
  import opened MlKemCodec
  import opened MlKem
  import opened Decapsulation

  /** The centred representatives. */
  function Small(f: Poly): Poly {
    seq(256, j requires 0 <= j < 256 => Centred(f[j]))
  }

  function SmallAll(v: seq<Poly>): (r: seq<Poly>)
    ensures |r| == |v|
  {
    seq(|v|, i requires 0 <= i < |v| => Small(v[i]))
  }

  /** The sum of the absolute values of the centred coefficients of the first n polynomials. */
  function TotalWeight(v: seq<Poly>, n: nat): nat
    requires n <= |v|
  {
    if n == 0 then 0 else TotalWeight(v, n - 1) + Weight(Small(v[n - 1]), 256)
  }

  function Scaled(v: seq<Poly>, n: nat, e: nat): nat
    requires n <= |v|
  {
    TotalWeight(v, n) * e
  }

  /** The most that rounding to d bits adds: q / 2^(d + 1), rounded. */
  function MaxRounding(d: nat): (m: int)
    ensures m >= 0
  {
    (3328 + Pow2(d)) / (2 * Pow2(d))
  }

  lemma RoundingsOfParameters(p: Params)
    requires IsParams(p)
    ensures MaxRounding(p.du) == (if p == ML_KEM_1024 then 1 else 2)
    ensures MaxRounding(p.dv) == (if p == ML_KEM_1024 then 52 else 104)
  {
    assert Pow2(4) == 16 && Pow2(5) == 32 && Pow2(10) == 1024 && Pow2(11) == 2048;
  }

  ghost predicate AllBounded(v: seq<Poly>, e: int) {
    forall i :: 0 <= i < |v| ==> Bounded(v[i], e)
  }

  // ---------- congruent factors ----------

  ghost predicate CongruentAll(a: seq<Poly>, b: seq<Poly>) {
    |a| == |b| && forall i, j :: 0 <= i < |a| && 0 <= j < 256 ==> C(Q, a[i][j]) == C(Q, b[i][j])
  }

  lemma SameTransforms(a: seq<Poly>, b: seq<Poly>)
    requires CongruentAll(a, b)
    ensures NttAll(a) == NttAll(b)
  {
    KemValid();
    hide C, NttOf, Pow, Pow2;
    forall i | 0 <= i < |a|
      ensures NttOf(KEM, a[i]) == NttOf(KEM, b[i])
    {
      NttCongruent(KEM, a[i], b[i]);
    }
  }

  /** Ring sums of congruent factors are congruent, since their transforms are the same. */
  lemma RingSumCongruent(a: seq<Poly>, b: seq<Poly>, f: seq<Poly>, g: seq<Poly>, n: nat)
    requires n <= |a| == |b| && CongruentAll(a, f) && CongruentAll(b, g)
    ensures forall j :: 0 <= j < 256 ==> C(Q, RingSum(a, b, n)[j]) == C(Q, RingSum(f, g, n)[j])
  {
    hide C, NttAll, InttOf, Dot, RingSum, CongruentAll;
    SameTransforms(a, f);
    SameTransforms(b, g);
    DotIsRingSum(a, b, n);
    DotIsRingSum(f, g, n);
  }

  lemma SmallCongruent(v: seq<Poly>)
    ensures CongruentAll(v, SmallAll(v))
  {
    hide C, Centred;
  }

  // ---------- the bound ----------

  lemma {:induction false} RingSumBounded(a: seq<Poly>, b: seq<Poly>, n: nat, e: nat)
    requires n <= |a| == |b| && AllBounded(b, e)
    ensures Bounded(RingSum(SmallAll(a), b, n), Scaled(a, n, e))
  {
    hide Product, Weight, Small;
    if n > 0 {
      RingSumBounded(a, b, n - 1, e);
      ProductBounded(Small(a[n - 1]), b[n - 1], e);
      var t, w := TotalWeight(a, n - 1), Weight(Small(a[n - 1]), 256);
      assert (t + w) * e == t * e + w * e;
    }
  }

  /** Rounding a reduced polynomial adds at most MaxRounding to each coefficient, modulo q. */
  lemma RoundingBounded(f: Poly, d: nat)
    requires IsReduced(f) && 0 < d < 12
    ensures Bounded(Small(Rounding(f, d)), MaxRounding(d))
  {
    hide Centred, Compress, Decompress, MaxRounding;
    forall j | 0 <= j < 256
      ensures -MaxRounding(d) <= Small(Rounding(f, d))[j] <= MaxRounding(d)
    {
      assert CompressPoly(f, d)[j] == Compress(f[j], d);
      assert Rounded(f, d)[j] == Decompress(CompressPoly(f, d)[j], d);
      EntryRounding(f[j], d);
    }
  }

  lemma EntryRounding(x: int, d: nat)
    requires 0 <= x < Q && 0 < d < 12
    ensures -MaxRounding(d) <= Centred(Decompress(Compress(x, d), d) - x) <= MaxRounding(d)
  {
    hide Centred, Compress, Decompress, Pow2;
    CompressError(x, d);
    Halved(Centred(Decompress(Compress(x, d), d) - x), Pow2(d));
  }

  lemma Halved(e: int, p: nat)
    requires p > 0 && -3328 - p <= 2 * (p * e) <= 3328 + p
    ensures -((3328 + p) / (2 * p)) <= e <= (3328 + p) / (2 * p)
  {
    assert 2 * (p * e) == e * (2 * p) && 2 * (p * -e) == -e * (2 * p) == -(2 * (p * e));
    AtMostQuotient(e, 2 * p, 3328 + p);
    AtMostQuotient(-e, 2 * p, 3328 + p);
  }

  lemma AtMostQuotient(e: int, d: nat, m: nat)
    requires d > 0 && e * d <= m
    ensures e <= m / d
  {
    var q := m / d;
    assert m == d * q + m % d;
    if e > q {
      MulMono(d, q + 1, e);
    }
  }

  /** e1_i and the rounding of u_i, both centred. */
  function SmallPerturbed(u: seq<Poly>, e1: seq<Poly>, d: nat): (g: seq<Poly>)
    requires |u| == |e1| && d > 0
    ensures |g| == |u|
  {
    seq(|u|, i requires 0 <= i < |u| => SumOf(Small(e1[i]), Small(Rounding(u[i], d))))
  }

  function SumOf(f: Poly, g: Poly): Poly {
    seq(256, j requires 0 <= j < 256 => f[j] + g[j])
  }

  lemma PerturbedCongruent(u: seq<Poly>, e1: seq<Poly>, d: nat)
    requires |u| == |e1| && d > 0
    ensures CongruentAll(Perturbed(u, e1, d), SmallPerturbed(u, e1, d))
  {
    hide C, Centred, Rounded;
    forall i, j | 0 <= i < |u| && 0 <= j < 256
      ensures C(Q, Perturbed(u, e1, d)[i][j]) == C(Q, SmallPerturbed(u, e1, d)[i][j])
    {
      var x, y := e1[i][j], Rounding(u[i], d)[j];
      CEqAdd(Q, x, Centred(x), y, Centred(y));
    }
  }

  /** The noise of one encryption at most. */
  function NoiseBoundOf(x: Session, eta1: nat, eta2: nat, p: Params): nat
    requires IsSession(x, p.k)
  {
    Scaled(x.y, p.k, eta1) + eta2 + MaxRounding(p.dv) + Scaled(x.s, p.k, eta2 + MaxRounding(p.du))
  }

  ghost predicate ErrorsBounded(x: Session, eta1: nat, eta2: nat) {
    AllBounded(SmallAll(x.e), eta1) && AllBounded(SmallAll(x.e1), eta2) && Bounded(Small(x.e2), eta2)
  }

  lemma SenderBounded(y: seq<Poly>, e: seq<Poly>, k: nat, eta: nat)
    requires |y| == |e| == k && AllBounded(SmallAll(e), eta)
    ensures Bounded(RingSum(SmallAll(y), SmallAll(e), k), Scaled(y, k, eta))
    ensures forall j :: 0 <= j < 256 ==> C(Q, RingSum(y, e, k)[j]) == C(Q, RingSum(SmallAll(y), SmallAll(e), k)[j])
  {
    hide RingSum, Scaled, SmallAll, C, CongruentAll, AllBounded;
    SmallCongruent(y);
    SmallCongruent(e);
    RingSumCongruent(y, e, SmallAll(y), SmallAll(e), k);
    RingSumBounded(y, SmallAll(e), k, eta);
  }

  lemma ReceiverBounded(s: seq<Poly>, u: seq<Poly>, e1: seq<Poly>, k: nat, d: nat, eta: nat)
    requires |s| == |u| == |e1| == k && 0 < d < 12 && AllBounded(SmallAll(e1), eta)
    requires forall i :: 0 <= i < k ==> IsReduced(u[i])
    ensures var g := SmallPerturbed(u, e1, d);
      && Bounded(RingSum(SmallAll(s), g, k), Scaled(s, k, eta + MaxRounding(d)))
      && forall j :: 0 <= j < 256 ==> C(Q, RingSum(s, Perturbed(u, e1, d), k)[j]) == C(Q, RingSum(SmallAll(s), g, k)[j])
  {
    hide RingSum, Scaled, SmallAll, C, CongruentAll, AllBounded, MaxRounding, Perturbed, SmallPerturbed, IsReduced;
    SmallCongruent(s);
    PerturbedCongruent(u, e1, d);
    RingSumCongruent(s, Perturbed(u, e1, d), SmallAll(s), SmallPerturbed(u, e1, d), k);
    SmallPerturbedBounded(u, e1, d, eta);
    RingSumBounded(s, SmallPerturbed(u, e1, d), k, eta + MaxRounding(d));
  }

  /** The noise is within the bound that the weights of the secrets give. */
  lemma NoiseBounded(x: Session, eta1: nat, eta2: nat, p: Params)
    requires IsParams(p) && IsSession(x, p.k) && ErrorsBounded(x, eta1, eta2)
    requires NoiseBoundOf(x, eta1, eta2, p) <= 1664
    ensures Bounded(Small(SessionNoise(x, p)), NoiseBoundOf(x, eta1, eta2, p))
  {
    hide IsParams, Scaled, Bounded, Small, SessionNoise, MaxRounding, AllBounded, SmallAll;
    SmallParams(p);
    PartsBounded(x, eta1, eta2, p, p.k, Scaled(x.y, p.k, eta1), Scaled(x.s, p.k, eta2 + MaxRounding(p.du)),
                 MaxRounding(p.dv));
  }

  lemma PartsBounded(x: Session, eta1: nat, eta2: nat, p: Params, k: nat, wa: nat, wb: nat, wr: nat)
    requires IsParams(p) && IsSession(x, p.k) && k == p.k && 0 < p.du < 12 && 0 < p.dv < 12
    requires |x.y| == |x.e| == |x.s| == |x.e1| == k
    requires AllBounded(SmallAll(x.e), eta1) && AllBounded(SmallAll(x.e1), eta2) && Bounded(Small(x.e2), eta2)
    requires wa == Scaled(x.y, k, eta1) && wb == Scaled(x.s, k, eta2 + MaxRounding(p.du)) && wr == MaxRounding(p.dv)
    requires wa + eta2 + wr + wb <= 1664
    ensures Bounded(Small(SessionNoise(x, p)), wa + eta2 + wr + wb)
  {
    hide *;
    var u, v := SentU(x, k), SentV(x, k);
    SentReduced(x, k);
    SenderBounded(x.y, x.e, k, eta1);
    ReceiverBounded(x.s, u, x.e1, k, p.du, eta2);
    RoundingBounded(v, p.dv);
    NoiseParts(x, p);
    var a, b := RingSum(x.y, x.e, k), RingSum(x.s, Perturbed(u, x.e1, p.du), k);
    var a', b' := RingSum(SmallAll(x.y), SmallAll(x.e), k), RingSum(SmallAll(x.s), SmallPerturbed(u, x.e1, p.du), k);
    Together(a, b, a', b', x.e2, Rounding(v, p.dv), wa, wb, eta2, wr, SessionNoise(x, p));
  }

  lemma NoiseParts(x: Session, p: Params)
    requires IsParams(p) && IsSession(x, p.k)
    ensures p.du > 0 && p.dv > 0
    ensures var a, b := RingSum(x.y, x.e, p.k), RingSum(x.s, Perturbed(SentU(x, p.k), x.e1, p.du), p.k);
      forall j :: 0 <= j < 256 ==>
        SessionNoise(x, p)[j] == a[j] + x.e2[j] + Rounding(SentV(x, p.k), p.dv)[j] - b[j]
  {
    hide RingSum, Perturbed, SentU, SentV, Rounding;
  }

  /** The four parts of the noise, each within its bound. */
  lemma Together(a: Poly, b: Poly, a': Poly, b': Poly, e2: Poly, r: Poly, wa: nat, wb: nat, we: nat, wr: nat, n: Poly)
    requires forall j :: 0 <= j < 256 ==> C(Q, a[j]) == C(Q, a'[j])
    requires forall j :: 0 <= j < 256 ==> C(Q, b[j]) == C(Q, b'[j])
    requires Bounded(a', wa) && Bounded(b', wb) && Bounded(Small(e2), we) && Bounded(Small(r), wr)
    requires wa + we + wr + wb <= 1664 && forall j :: 0 <= j < 256 ==> n[j] == a[j] + e2[j] + r[j] - b[j]
    ensures Bounded(Small(n), wa + we + wr + wb)
  {
    hide C, Centred;
    var w: int := wa + we + wr + wb;
    forall j | 0 <= j < 256
      ensures -w <= Small(n)[j] <= w
    {
      assert Small(e2)[j] == Centred(e2[j]) && Small(r)[j] == Centred(r[j]) && Small(n)[j] == Centred(n[j]);
      EntryBounded(a[j], e2[j], r[j], b[j], a'[j], b'[j], w);
    }
  }

  lemma EntryBounded(a: int, e2: int, r: int, b: int, a': int, b': int, w: int)
    requires C(Q, a) == C(Q, a') && C(Q, b) == C(Q, b') && w <= 1664
    requires -w <= a' + Centred(e2) + Centred(r) - b' <= w
    ensures -w <= Centred(a + e2 + r - b) <= w
  {
    var z := a' + Centred(e2) + Centred(r) - b';
    hide C, Centred;
    CEqAdd(Q, a, a', e2, Centred(e2));
    CEqAdd(Q, a + e2, a' + Centred(e2), r, Centred(r));
    CEqSub(Q, a + e2 + r, a' + Centred(e2) + Centred(r), b, b');
    CentredOf(a + e2 + r - b, z);
  }

  lemma SmallPerturbedBounded(u: seq<Poly>, e1: seq<Poly>, d: nat, eta2: nat)
    requires |u| == |e1| && 0 < d < 12 && AllBounded(SmallAll(e1), eta2) && forall i :: 0 <= i < |u| ==> IsReduced(u[i])
    ensures AllBounded(SmallPerturbed(u, e1, d), eta2 + MaxRounding(d))
  {
    hide Small, Rounding, MaxRounding, IsReduced;
    forall i | 0 <= i < |u|
      ensures Bounded(SmallPerturbed(u, e1, d)[i], eta2 + MaxRounding(d))
    {
      RoundingBounded(u[i], d);
      assert Bounded(SmallAll(e1)[i], eta2);
    }
  }

  lemma SentReduced(x: Session, k: nat)
    requires IsSession(x, k)
    ensures IsReduced(SentV(x, k)) && forall i :: 0 <= i < k ==> IsReduced(SentU(x, k)[i])
  {
    hide NttAll, TOf, InttOf, Dot;
  }

  // ---------- light secrets ----------

  /** The samples of a session stay within their parameters. */
  lemma SampledBounded(h: Hashes, d: Bytes, m: Bytes, r: Bytes, p: Params)
    requires h.Valid() && IsParams(p) && PkeKeyGenOf(h, d, p).Some?
    ensures ErrorsBounded(SessionOf(h, d, m, r, p), p.eta1, p.eta2)
  {
    hide MatrixOf, IsParams, PkeKeyGenOf, CbdVector, CbdPoly, MessagePoly, Small;
    SmallParams(p);
    var sigma := G(h, d + [p.k]).1;
    VectorBounded(h, sigma, p.k, p.k, p.eta1);
    VectorBounded(h, r, p.k, p.k, p.eta2);
    PolyBounded(h, r, 2 * p.k, p.eta2);
  }

  lemma PolyBounded(h: Hashes, s: Bytes, n: nat, eta: nat)
    requires h.Valid() && n < 256 && eta < 1000
    ensures Bounded(Small(CbdPoly(h, s, n, eta)), eta)
  {
    hide Centred, SampleCbdOf;
    forall j | 0 <= j < 256
      ensures -(eta as int) <= Small(CbdPoly(h, s, n, eta))[j] <= eta
    {
      CbdSmall(Prf(h, eta, s, n), eta, j);
    }
  }

  lemma {:induction false} VectorBounded(h: Hashes, s: Bytes, first: nat, count: nat, eta: nat)
    requires h.Valid() && first + count <= 256 && eta < 1000
    ensures AllBounded(SmallAll(CbdVector(h, s, first, count, eta)), eta)
  {
    hide Small, Bounded, CbdPoly;
    if count > 0 {
      VectorBounded(h, s, first, count - 1, eta);
      PolyBounded(h, s, first + count - 1, eta);
      var v, w := CbdVector(h, s, first, count - 1, eta), CbdVector(h, s, first, count, eta);
      forall i | 0 <= i < count
        ensures Bounded(SmallAll(w)[i], eta)
      {
        if i < count - 1 {
          assert SmallAll(w)[i] == SmallAll(v)[i];
        }
      }
    }
  }

  /** Decryption cannot fail when the secrets are light enough, whatever the message, the matrix and the
      errors. This is the worst case over the errors: sampled secrets have hundreds of nonzero
      coefficients, so that hardly any meets the bound, although decryption nearly always succeeds. */
  lemma LightSecretsDecrypt(h: Hashes, d: Bytes, m: Bytes, r: Bytes, p: Params)
    requires h.Valid() && IsParams(p) && |m| == 32 && PkeKeyGenOf(h, d, p).Some?
    requires NoiseBoundOf(SessionOf(h, d, m, r, p), p.eta1, p.eta2, p) <= 831
    ensures var (ek, dk) := PkeKeyGenOf(h, d, p).value; var c := PkeEncryptOf(h, ek, m, r, p);
      c.Some? && PkeDecryptOf(dk, c.value, p) == m
  {
    hide PkeKeyGenOf, PkeEncryptOf, PkeDecryptOf, IsParams, SessionOf, SessionNoise, NoiseFits, NoiseBoundOf;
    hide ErrorsBounded, Bounded;
    hide Small;
    var x := SessionOf(h, d, m, r, p);
    SampledBounded(h, d, m, r, p);
    NoiseBounded(x, p.eta1, p.eta2, p);
    LightNoise(SessionNoise(x, p), NoiseBoundOf(x, p.eta1, p.eta2, p), m);
    DecryptionCorrect(h, d, m, r, p);
    assert EncryptionNoise(h, d, m, r, p) == SessionNoise(x, p);
  }

  lemma LightNoise(noise: Poly, w: nat, m: Bytes)
    requires |m| == 32 && w <= 831 && Bounded(Small(noise), w)
    ensures NoiseFits(noise, m)
  {
    hide Centred, Fits;
    forall j | 0 <= j < 256
      ensures -831 <= Centred(noise[j]) <= 831
    {
      assert -(w as int) <= Small(noise)[j] <= w;
    }
    SmallNoiseFits(noise, m);
  }
}
