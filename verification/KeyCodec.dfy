/** Parameter sets and the encodings of keys and signatures, scripts/mldsa/mldsa_ref.py (FIPS 204,
    Algorithms 22 to 28). */
module KeyCodec {
  import opened Arithmetic
  import opened Modular
  import opened MlDsaNtt
  import opened Options
  import opened Rounding
  import opened BitFields
  import opened Concatenation
  import opened BitPacking
  import opened HintPacking

  datatype Params = Params(k: nat, l: nat, eta: nat, tau: nat, lam: nat, g1: nat, g2: nat, omega: nat) {
    function Beta(): nat { tau * eta }
  }

  const ML_DSA_44 := Params(4, 4, 2, 39, 128, 131072, 95232, 80)
  const ML_DSA_65 := Params(6, 5, 4, 49, 192, 524288, 261888, 55)
  const ML_DSA_87 := Params(8, 7, 2, 60, 256, 524288, 261888, 75)

  predicate IsParams(p: Params) {
    p == ML_DSA_44 || p == ML_DSA_65 || p == ML_DSA_87
  }

  /** The numbers in which the parameter sets differ only by table. */
  lemma Shape(p: Params)
    requires IsParams(p)
    ensures IsG2(p.g2) && 0 < p.k <= 8 && 0 < p.l <= 7 && p.omega < 256 && p.tau <= 64
    ensures (p.eta == 2 || p.eta == 4) && p.Beta() < p.g2 && p.Beta() < p.g1 && 2 * p.g1 < Q && p.lam % 4 == 0
  {}

  // ---------- bit lengths of the constants ----------

  lemma {:induction false} BitLengthOnes(n: nat)
    ensures BitLength(Pow2(n) - 1) == n
  {
    if n > 0 {
      BitLengthOnes(n - 1);
      assert (Pow2(n) - 1) / 2 == Pow2(n - 1) - 1;
    }
  }

  function EtaBytes(p: Params): nat {
    32 * BitLength(2 * p.eta)
  }

  function ZBits(p: Params): nat
    requires p.g1 > 0
  {
    1 + BitLength(p.g1 - 1)
  }

  lemma ZBitsIsLength(p: Params)
    requires IsParams(p)
    ensures BitLength(p.g1 - 1 + p.g1) == ZBits(p)
  {
    var n := if p == ML_DSA_44 then 17 else 19;
    BigPowers();
    assert p.g1 == Pow2(n);
    BitLengthOnes(n);
    BitLengthOnes(n + 1);
  }

  lemma BigPowers()
    ensures Pow2(10) == 1024 && Pow2(13) == 8192 && Pow2(17) == 131072 && Pow2(19) == 524288
  {}

  lemma TBits()
    ensures BitLength(1023) == 10 && BitLength(8191) == 13
  {
    BigPowers();
    BitLengthOnes(10);
    BitLengthOnes(13);
  }

  // ---------- the public key ----------

  function PkLen(p: Params): nat {
    32 + 320 * p.k
  }

  function PkEncode(rho: Bytes, t1: seq<Poly>): Bytes {
    rho + Join(seq(|t1|, i requires 0 <= i < |t1| => SimpleBitPack(t1[i], 1023)))
  }

  function PkDecode(pk: Bytes, p: Params): (r: (Bytes, seq<Poly>))
    requires |pk| == PkLen(p)
    ensures |r.0| == 32 && |r.1| == p.k
  {
    TBits();
    (pk[..32], seq(p.k, i requires 0 <= i < p.k => SimpleBitUnpack(Part(pk, 32, 320, i, p.k), 1023)))
  }

  lemma PkRoundTrip(rho: Bytes, t1: seq<Poly>, p: Params)
    requires |rho| == 32 && |t1| == p.k
    requires forall i, j :: 0 <= i < p.k && 0 <= j < 256 ==> 0 <= t1[i][j] <= 1023
    ensures |PkEncode(rho, t1)| == PkLen(p)
    ensures PkDecode(PkEncode(rho, t1), p) == (rho, t1)
  {
    hide SimpleBitPack, SimpleBitUnpack, Part;
    TBits();
    var parts := seq(|t1|, i requires 0 <= i < |t1| => SimpleBitPack(t1[i], 1023));
    JoinLength(parts, 320);
    var pk := PkEncode(rho, t1);
    assert pk == rho + Join(parts) + [];
    forall i | 0 <= i < p.k
      ensures PkDecode(pk, p).1[i] == t1[i]
    {
      PartOfJoin(rho, parts, [], 320, i);
      SimpleRoundTrip(t1[i], 1023);
    }
    assert pk[..32] == rho;
    assert PkDecode(pk, p).1 == t1;
  }

  // ---------- the secret key ----------

  datatype Secret = Secret(rho: Bytes, key: Bytes, tr: Bytes, s1: seq<Poly>, s2: seq<Poly>, t0: seq<Poly>)

  function SkLen(p: Params): nat {
    128 + EtaBytes(p) * p.l + EtaBytes(p) * p.k + 416 * p.k
  }

  function PackAll(v: seq<Poly>, a: nat, b: nat): Bytes {
    Join(seq(|v|, i requires 0 <= i < |v| => BitPack(v[i], a, b)))
  }

  function UnpackAll(v: Bytes, o: nat, len: nat, count: nat, a: nat, b: nat): (r: seq<Poly>)
    requires len == 32 * BitLength(a + b) && o + len * count <= |v|
    ensures |r| == count
  {
    seq(count, i requires 0 <= i < count => BitUnpack(Part(v, o, len, i, count), a, b))
  }

  function SkEncode(s: Secret, p: Params): Bytes {
    s.rho + s.key + s.tr + PackAll(s.s1, p.eta, p.eta) + PackAll(s.s2, p.eta, p.eta) + PackAll(s.t0, 4095, 4096)
  }

  function SkDecode(sk: Bytes, p: Params): (s: Secret)
    requires |sk| >= SkLen(p)
    ensures |s.rho| == 32 && |s.s1| == p.l && |s.s2| == p.k && |s.t0| == p.k
  {
    TBits();
    hide BitLength;
    var e, eb := p.eta, EtaBytes(p);
    var o2 := 128 + eb * p.l;
    var o0 := o2 + eb * p.k;
    Secret(sk[..32], sk[32..64], sk[64..128], UnpackAll(sk, 128, eb, p.l, e, e), UnpackAll(sk, o2, eb, p.k, e, e),
           UnpackAll(sk, o0, 416, p.k, 4095, 4096))
  }

  /** Every centred coefficient of v is in [-a, b]. */
  ghost predicate Fits(v: seq<Poly>, a: nat, b: nat) {
    forall i, j :: 0 <= i < |v| && 0 <= j < 256 ==> -(a as int) <= ModPm(v[i][j], Q) <= b
  }

  function CentredAll(v: seq<Poly>): (r: seq<Poly>)
    ensures |r| == |v|
  {
    seq(|v|, i requires 0 <= i < |v| => CentredPoly(v[i]))
  }

  function CentredPoly(w: Poly): Poly {
    seq(256, j requires 0 <= j < 256 => ModPm(w[j], Q))
  }

  lemma PackAllLength(v: seq<Poly>, a: nat, b: nat, len: nat)
    requires len == 32 * BitLength(a + b)
    ensures |PackAll(v, a, b)| == len * |v|
  {
    hide BitPack;
    JoinLength(seq(|v|, i requires 0 <= i < |v| => BitPack(v[i], a, b)), len);
  }

  /** A packed vector comes back centred, wherever it sits in a string. */
  lemma VectorRoundTrip(pre: Bytes, v: seq<Poly>, post: Bytes, o: nat, len: nat, count: nat, a: nat, b: nat)
    requires len == 32 * BitLength(a + b) && o == |pre| && count == |v| && Fits(v, a, b)
    ensures o + len * count <= |pre + PackAll(v, a, b) + post|
    ensures UnpackAll(pre + PackAll(v, a, b) + post, o, len, count, a, b) == CentredAll(v)
  {
    hide BitPack, BitUnpack, ModPm, BitLength, Part;
    PackAllLength(v, a, b, len);
    var parts := seq(|v|, i requires 0 <= i < |v| => BitPack(v[i], a, b));
    var s := pre + PackAll(v, a, b) + post;
    forall i | 0 <= i < count
      ensures UnpackAll(s, o, len, count, a, b)[i] == CentredAll(v)[i]
    {
      PartOfJoin(pre, parts, post, len, i);
      CentredRoundTrip(v[i], a, b);
    }
  }

  /** Decoding an encoded secret key gives the same secrets with centred coefficients. */
  lemma SkRoundTrip(s: Secret, p: Params)
    requires |s.rho| == 32 && |s.key| == 32 && |s.tr| == 64 && |s.s1| == p.l && |s.s2| == p.k && |s.t0| == p.k
    requires Fits(s.s1, p.eta, p.eta) && Fits(s.s2, p.eta, p.eta) && Fits(s.t0, 4095, 4096)
    ensures |SkEncode(s, p)| == SkLen(p)
    ensures SkDecode(SkEncode(s, p), p)
      == Secret(s.rho, s.key, s.tr, CentredAll(s.s1), CentredAll(s.s2), CentredAll(s.t0))
  {
    hide PackAll, UnpackAll, CentredAll, Fits, BitLength;
    TBits();
    var e, eb, sk := p.eta, EtaBytes(p), SkEncode(s, p);
    var head := s.rho + s.key + s.tr;
    var p1, p2, p0 := PackAll(s.s1, e, e), PackAll(s.s2, e, e), PackAll(s.t0, 4095, 4096);
    PackAllLength(s.s1, e, e, eb);
    PackAllLength(s.s2, e, e, eb);
    PackAllLength(s.t0, 4095, 4096, 416);
    assert sk == head + p1 + (p2 + p0);
    assert sk == (head + p1) + p2 + p0;
    assert sk == (head + p1 + p2) + p0 + [];
    VectorRoundTrip(head, s.s1, p2 + p0, 128, eb, p.l, e, e);
    VectorRoundTrip(head + p1, s.s2, p0, 128 + eb * p.l, eb, p.k, e, e);
    VectorRoundTrip(head + p1 + p2, s.t0, [], 128 + eb * p.l + eb * p.k, 416, p.k, 4095, 4096);
    assert sk[..32] == s.rho && sk[32..64] == s.key && sk[64..128] == s.tr;
  }

  // ---------- the signature ----------

  function SigLen(p: Params): nat
    requires p.g1 > 0
  {
    p.lam / 4 + 32 * ZBits(p) * p.l + p.omega + p.k
  }

  function SigEncode(ct: Bytes, z: seq<Poly>, h: seq<Poly>, p: Params): Bytes
    requires p.g1 > 0 && |h| == p.k && |AllOnes(h, p.k)| <= p.omega < 256
  {
    ct + PackAll(z, p.g1 - 1, p.g1) + PackOf(h, p.k, p.omega)
  }

  ghost function SigDecode(sig: Bytes, p: Params): (r: (Bytes, seq<Poly>, Option<seq<Poly>>))
    requires IsParams(p) && |sig| == SigLen(p)
    ensures |r.0| == p.lam / 4 && |r.1| == p.l && (r.2.Some? ==> |r.2.value| == p.k)
  {
    ZBitsIsLength(p);
    var cl, zb := p.lam / 4, 32 * ZBits(p);
    (sig[..cl], UnpackAll(sig, cl, zb, p.l, p.g1 - 1, p.g1), HintOf(sig[cl + zb * p.l..], p.k, p.omega))
  }

  lemma ThreeParts(ct: Bytes, zs: Bytes, hs: Bytes, cl: nat, n: nat)
    requires |ct| == cl && |zs| == n
    ensures (ct + zs + hs)[..cl] == ct && (ct + zs + hs)[cl + n..] == hs
  {}

  lemma SigRoundTrip(ct: Bytes, z: seq<Poly>, h: seq<Poly>, p: Params)
    requires IsParams(p) && |ct| == p.lam / 4 && |z| == p.l && Fits(z, p.g1 - 1, p.g1) && IsHint(h, p.k, p.omega)
    ensures |SigEncode(ct, z, h, p)| == SigLen(p)
    ensures SigDecode(SigEncode(ct, z, h, p), p) == (ct, CentredAll(z), Some(h))
  {
    hide PackAll, UnpackAll, CentredAll, Fits, BitLength, ZBits, HintOf, AllOnes, PackOf;
    Shape(p);
    ZBitsIsLength(p);
    hide IsParams;
    var cl, zb, a, b := p.lam / 4, 32 * ZBits(p), p.g1 - 1, p.g1;
    var zs, hs := PackAll(z, a, b), PackOf(h, p.k, p.omega);
    PackAllLength(z, a, b, zb);
    ThreeParts(ct, zs, hs, cl, zb * p.l);
    VectorRoundTrip(ct, z, hs, cl, zb, p.l, a, b);
    HintRoundTrip(h, p.k, p.omega);
  }
}
