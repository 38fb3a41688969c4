/** When verification of scripts/mldsa/mldsa_ref.py accepts: exactly the encodings whose commitment is the hash of the
    high parts of A z - c t1 2^13, computed in Z_q[x]/(x^256 + 1), and what that says of a signature accepted twice. */
module MlDsaVerdict {
  import opened Arithmetic
  import opened Modular
  import opened MlDsaNtt
  import opened Options
  import opened Butterflies
  import opened NttRing
  import opened Rounding
  import opened BitFields
  import opened Concatenation
  import opened BitPacking
  import opened HintPacking
  import opened Sampling
  import opened Hashing
  import opened KeyCodec
  import opened MlDsa

  // ---------- products in the quotient ring ----------

  /** Coefficient j of the sum over s < n of a_s z_s, where a_s is given by its transform. */
  function RowProduct(a: seq<Poly>, z: seq<Poly>, n: nat, j: nat): int
    requires n <= |a| && n <= |z| && j < 256
  {
    if n == 0 then 0 else RowProduct(a, z, n - 1, j) + Product(InttOf(DSA, a[n - 1]), z[n - 1])[j]
  }

  /** A row of A z - c t1 2^13. */
  function Commitment(a: seq<Poly>, z: seq<Poly>, c: Poly, t1: Poly, l: nat): Poly
    requires l <= |a| && l <= |z|
  {
    seq(256, j requires 0 <= j < 256 => C(Q, RowProduct(a, z, l, j) - 8192 * Product(c, t1)[j]))
  }

  lemma InttOfZero()
    ensures forall j :: 0 <= j < 256 ==> InttOf(DSA, Zero())[j] == 0
  {
    DsaValid();
    hide C, InttOf, Pow, Pow2;
    var x := InttOf(DSA, Zero());
    forall j | 0 <= j < 256
      ensures C(Q, Zero()[j]) == C(Q, Zero()[j] + -1 * Zero()[j])
    {}
    InttLinear(DSA, Zero(), Zero(), -1, Zero());
    forall j | 0 <= j < 256
      ensures x[j] == 0
    {
      CRange(Q, 0);
      assert x[j] + -1 * x[j] == 0;
    }
  }

  /** One product: the transform of a is given. */
  lemma EntryIsRing(a: Poly, z: Poly)
    ensures forall j :: 0 <= j < 256 ==>
      InttOf(DSA, Pmul(a, NttOf(DSA, z)))[j] == C(Q, Product(InttOf(DSA, a), z)[j])
  {
    DsaValid();
    hide C, InttOf, NttOf, Pow, Pow2, Product;
    var b, u := NttOf(DSA, InttOf(DSA, a)), NttOf(DSA, z);
    NttIntt(DSA, a);
    forall j | 0 <= j < 256
      ensures C(Q, Pmul(a, u)[j]) == C(Q, Pmul(b, u)[j])
    {
      CIdem(Q, a[j] * u[j]);
      CIdem(Q, b[j] * u[j]);
      CEqMul(Q, a[j], b[j], u[j], u[j]);
    }
    InttCongruent(DSA, Pmul(a, u), Pmul(b, u));
    RingIsomorphism(InttOf(DSA, a), z);
  }

  lemma {:induction false} RowIsRing(a: seq<Poly>, z: seq<Poly>, n: nat)
    requires n <= |a| && n <= |z|
    ensures forall j :: 0 <= j < 256 ==> InttOf(DSA, Row(a, NttAll(z), n))[j] == C(Q, RowProduct(a, z, n, j))
  {
    DsaValid();
    hide C, InttOf, NttOf, Pow, Pow2, Product;
    if n == 0 {
      InttOfZero();
      CRange(Q, 0);
    } else {
      RowIsRing(a, z, n - 1);
      EntryIsRing(a[n - 1], z[n - 1]);
      var u, v := Row(a, NttAll(z), n - 1), Pmul(a[n - 1], NttAll(z)[n - 1]);
      forall j | 0 <= j < 256
        ensures C(Q, Padd(u, v)[j]) == C(Q, u[j] + 1 * v[j])
      {
        CIdem(Q, u[j] + v[j]);
      }
      InttLinear(DSA, Padd(u, v), u, 1, v);
      forall j | 0 <= j < 256
        ensures InttOf(DSA, Padd(u, v))[j] == C(Q, RowProduct(a, z, n, j))
      {
        CAdd(Q, RowProduct(a, z, n - 1, j), Product(InttOf(DSA, a[n - 1]), z[n - 1])[j]);
      }
    }
  }

  function Scaled(k: int, b: Poly): Poly {
    seq(256, j requires 0 <= j < 256 => k * b[j])
  }

  lemma {:induction false} PartialScaled(a: Poly, b: Poly, k: int, n: nat)
    requires n <= 256
    ensures forall j :: 0 <= j < 256 ==> PartialProduct(a, Scaled(k, b), n)[j] == k * PartialProduct(a, b, n)[j]
  {
    if n > 0 {
      PartialScaled(a, b, k, n - 1);
      forall j | 0 <= j < 256
        ensures PartialProduct(a, Scaled(k, b), n)[j] == k * PartialProduct(a, b, n)[j]
      {
        ShiftedAt(b, n - 1, j);
        ShiftedAt(Scaled(k, b), n - 1, j);
        hide Shifted;
        ScaledTerm(PartialProduct(a, b, n - 1)[j], a[n - 1], Shifted(b, n - 1)[j], k);
      }
    }
  }

  lemma ScaledTerm(p: int, a: int, t: int, k: int)
    ensures k * p + a * (k * t) == k * (p + a * t)
  {
    assert a * (k * t) == k * (a * t);
  }

  /** The challenge times t1 2^13. */
  lemma ChallengeTimesT(c: Poly, t: Poly)
    ensures forall j :: 0 <= j < 256 ==>
      InttOf(DSA, Pmul(NttOf(DSA, c), NttOf(DSA, ShiftedUp(t))))[j] == C(Q, 8192 * Product(c, t)[j])
  {
    DsaValid();
    hide C, InttOf, NttOf, Pow, Pow2, Shifted;
    var up := Scaled(8192, t);
    forall j | 0 <= j < 256
      ensures C(Q, ShiftedUp(t)[j]) == C(Q, up[j])
    {
      ResidueSame(t[j] * 8192);
    }
    NttCongruent(DSA, ShiftedUp(t), up);
    RingIsomorphism(c, up);
    PartialScaled(c, t, 8192, 256);
  }

  lemma ResidueSame(x: int)
    ensures C(Q, x % Q) == C(Q, x)
  {}

  lemma NttOfReduced(z: seq<Poly>)
    ensures NttAll(ReducedAll(z)) == NttAll(z)
  {
    DsaValid();
    hide C, NttOf, Pow, Pow2;
    forall i | 0 <= i < |z|
      ensures NttAll(ReducedAll(z))[i] == NttAll(z)[i]
    {
      forall j | 0 <= j < 256
        ensures C(Q, Reduced(z[i])[j]) == C(Q, z[i][j])
      {
        ResidueSame(z[i][j]);
      }
      NttCongruent(DSA, Reduced(z[i]), z[i]);
    }
  }

  /** What verification recomputes is A z - c t1 2^13. */
  lemma RecomputedIsRing(a: Matrix, z: seq<Poly>, c: Poly, t1: seq<Poly>, p: Params, r: nat)
    requires IsMatrix(a, p) && |z| == p.l && |t1| == p.k && r < p.k
    ensures Recomputed(a, NttAll(ReducedAll(z)), NttOf(DSA, c), t1, p)[r] == Commitment(a[r], z, c, t1[r], p.l)
  {
    DsaValid();
    hide C, InttOf, NttOf, Pow, Pow2, Product, Row, RowProduct, ShiftedUp, NttAll, ReducedAll;
    NttOfReduced(z);
    RowIsRing(a[r], z, p.l);
    ChallengeTimesT(c, t1[r]);
    var u, v := Row(a[r], NttAll(z), p.l), Pmul(NttOf(DSA, c), NttOf(DSA, ShiftedUp(t1[r])));
    forall j | 0 <= j < 256
      ensures C(Q, Psub(u, v)[j]) == C(Q, u[j] + -1 * v[j])
    {
      CIdem(Q, u[j] - v[j]);
    }
    InttLinear(DSA, Psub(u, v), u, -1, v);
    var w := InttOf(DSA, Psub(u, v));
    forall j | 0 <= j < 256
      ensures w[j] == Commitment(a[r], z, c, t1[r], p.l)[j]
    {
      CSub(Q, RowProduct(a[r], z, p.l, j), 8192 * Product(c, t1[r])[j]);
    }
  }

  // ---------- encodings ----------

  /** pk is the encoding of a seed and of coefficients of ten bits. */
  ghost predicate IsPublicKey(pk: Bytes, rho: Bytes, t1: seq<Poly>, p: Params) {
    && |rho| == 32 && |t1| == p.k && (forall i, j :: 0 <= i < p.k && 0 <= j < 256 ==> 0 <= t1[i][j] <= 1023)
    && pk == PkEncode(rho, t1)
  }

  /** Every coefficient is below b in absolute value. */
  ghost predicate Below(z: seq<Poly>, b: int) {
    forall i, j :: 0 <= i < |z| && 0 <= j < 256 ==> -b < z[i][j] < b
  }

  /** sig is the encoding of a commitment, a short response, and a hint with at most omega ones. */
  ghost predicate IsEncoding(sig: Bytes, ct: Bytes, z: seq<Poly>, h: seq<Poly>, p: Params)
    requires IsParams(p)
  {
    && |ct| == p.lam / 4 && |z| == p.l && Below(z, p.g1 - p.Beta()) && IsHint(h, p.k, p.omega)
    && sig == SigEncode(ct, z, h, p)
  }

  /** The high parts of A z - c t1 2^13 that the hint gives. */
  function Opened(a: Matrix, z: seq<Poly>, h: seq<Poly>, c: Poly, t1: seq<Poly>, p: Params): (w: seq<Poly>)
    requires IsParams(p) && IsMatrix(a, p) && |z| == p.l && |h| == p.k && |t1| == p.k
    ensures |w| == p.k
  {
    Shape(p);
    seq(p.k, r requires 0 <= r < p.k => UseHintPoly(h[r], Commitment(a[r], z, c, t1[r], p.l), p.g2))
  }

  /** The commitment is the hash of the message's hash and those high parts. */
  ghost predicate Convinces(shake: Shake, rho: Bytes, t1: seq<Poly>, ct: Bytes, z: seq<Poly>, h: seq<Poly>, m: Bytes,
                            p: Params)
    requires shake.Valid() && IsParams(p) && |z| == p.l && |h| == p.k && |t1| == p.k
  {
    Shape(p);
    var a, c := ExpandA(shake, rho, p), BallOf(shake.shake256(ct, XOF_BYTES), p.tau);
    && a.Some? && c.Some?
    && ct == shake.shake256(m + W1Encode(Opened(a.value, z, h, c.value, t1, p), p.g2), p.lam / 4)
  }

  function MessageHash(shake: Shake, pk: Bytes, msg: Bytes, mu: Option<Bytes>): Bytes {
    if mu.Some? then mu.value else shake.shake256(shake.shake256(pk, 64) + msg, 64)
  }

  lemma {:induction false} JoinOfParts(v: Bytes, o: nat, len: nat, count: nat, parts: seq<Bytes>, n: nat)
    requires o + len * count <= |v| && |parts| == n <= count
    requires forall i :: 0 <= i < n ==> parts[i] == Part(v, o, len, count - n + i, count)
    ensures len * (count - n) >= 0 && Join(parts) == v[o + len * (count - n)..o + len * count]
  {
    PartsFit(len, count, n);
    if n > 0 {
      PartBounds(len, count - n, count);
      assert parts[0] == v[o + len * (count - n)..o + len * (count - n + 1)];
      JoinOfParts(v, o, len, count, parts[1..], n - 1);
      assert count - (n - 1) == count - n + 1;
    }
  }

  lemma PartsFit(len: nat, count: nat, n: nat)
    requires n <= count
    ensures 0 <= len * (count - n) <= len * count
  {
    assert len * count == len * (count - n) + len * n;
  }

  lemma PackUnpacked(v: Bytes, o: nat, len: nat, count: nat, a: nat, b: nat)
    requires len == 32 * BitLength(a + b) && o + len * count <= |v|
    requires a + b + 1 == Pow2(BitLength(a + b)) && 2 * a < Q && 2 * b < Q
    ensures PackAll(UnpackAll(v, o, len, count, a, b), a, b) == v[o..o + len * count]
  {
    hide BitPack, BitUnpack, BitLength, Pow2, Part;
    var z := UnpackAll(v, o, len, count, a, b);
    var parts := seq(|z|, i requires 0 <= i < |z| => BitPack(z[i], a, b));
    forall i | 0 <= i < count
      ensures parts[i] == Part(v, o, len, i, count)
    {
      CentredCanonical(Part(v, o, len, i, count), a, b);
    }
    JoinOfParts(v, o, len, count, parts, count);
    assert len * 0 == 0;
  }

  lemma PkCanonical(pk: Bytes, p: Params)
    requires |pk| == PkLen(p)
    ensures IsPublicKey(pk, PkDecode(pk, p).0, PkDecode(pk, p).1, p)
  {
    hide SimpleBitPack, SimpleBitUnpack, Part;
    TBits();
    var (rho, t1) := PkDecode(pk, p);
    var parts := seq(|t1|, i requires 0 <= i < |t1| => SimpleBitPack(t1[i], 1023));
    forall i | 0 <= i < p.k
      ensures parts[i] == Part(pk, 32, 320, i, p.k)
    {
      SimpleCanonical(Part(pk, 32, 320, i, p.k), 1023);
    }
    JoinOfParts(pk, 32, 320, p.k, parts, p.k);
    assert pk == pk[..32] + pk[32..32 + 320 * p.k];
    forall i, j | 0 <= i < p.k && 0 <= j < 256
      ensures 0 <= t1[i][j] <= 1023
    {
      UnpackedBelow(Part(pk, 32, 320, i, p.k), j);
    }
  }

  lemma UnpackedBelow(v: Bytes, j: nat)
    requires |v| == 320 && j < 256
    ensures 32 * BitLength(1023) == 320 && 0 <= SimpleBitUnpack(v, 1023)[j] <= 1023
  {
    TBits();
    BigPowers();
    hide BitLength, Pow2;
    FieldsOfReadFields(BitsOf(v), 10, 256);
  }

  /** A signature of the right length whose hint decodes is the encoding of what it decodes to. */
  lemma SigCanonical(sig: Bytes, p: Params)
    requires IsParams(p) && |sig| == SigLen(p) && SigDecode(sig, p).2.Some?
    ensures var (ct, z, h) := SigDecode(sig, p);
      p.omega < 256 && IsHint(h.value, p.k, p.omega) && sig == SigEncode(ct, z, h.value, p)
  {
    Shape(p);
    ZBitsIsLength(p);
    ResponseBits(p);
    SigParts(sig, p);
    hide *;
    var cl, zb := p.lam / 4, 32 * ZBits(p);
    PackUnpacked(sig, cl, zb, p.l, p.g1 - 1, p.g1);
    ThreeSlices(sig, cl, zb * p.l);
  }

  /** What decoding and encoding a signature are made of. */
  lemma SigParts(sig: Bytes, p: Params)
    requires IsParams(p) && |sig| == SigLen(p) && SigDecode(sig, p).2.Some?
    ensures p.g1 > 0 && p.omega < 256 && 32 * ZBits(p) == 32 * BitLength(p.g1 - 1 + p.g1)
    ensures var cl, zb := p.lam / 4, 32 * ZBits(p); var (ct, z, h) := SigDecode(sig, p);
      && cl + zb * p.l <= |sig| && ct == sig[..cl] && z == UnpackAll(sig, cl, zb, p.l, p.g1 - 1, p.g1)
      && IsHint(h.value, p.k, p.omega) && sig[cl + zb * p.l..] == PackOf(h.value, p.k, p.omega)
      && SigEncode(ct, z, h.value, p) == ct + PackAll(z, p.g1 - 1, p.g1) + PackOf(h.value, p.k, p.omega)
  {
    Shape(p);
    ZBitsIsLength(p);
    hide BitLength, ZBits, IsParams, PackOf, AllOnes, PackAll, UnpackAll;
  }

  lemma ThreeSlices(v: Bytes, m: nat, n: nat)
    requires m + n <= |v|
    ensures v == v[..m] + v[m..m + n] + v[m + n..]
  {}

  lemma ResponseBits(p: Params)
    requires IsParams(p)
    ensures p.g1 > 0 && p.g1 - 1 + p.g1 + 1 == Pow2(BitLength(p.g1 - 1 + p.g1)) && 2 * p.g1 < Q
  {
    Shape(p);
    ZBitsIsLength(p);
    BigPowers();
    var n := if p == ML_DSA_44 then 17 else 19;
    assert p.g1 == Pow2(n);
    BitLengthOnes(n + 1);
    assert Pow2(n + 1) == 2 * p.g1;
    hide BitLength;
  }

  lemma {:induction false} MaxOfBelow(w: Poly, n: nat, b: int)
    requires n <= 256 && b > 0
    ensures MaxOf(w, n) < b <==> forall j :: 0 <= j < n ==> -b < w[j] < b
  {
    if n > 0 {
      MaxOfBelow(w, n - 1, b);
    }
  }

  lemma {:induction false} MaxAbsBelow(z: seq<Poly>, b: int)
    requires b > 0
    ensures MaxAbs(z) < b <==> Below(z, b)
  {
    if z != [] {
      MaxAbsBelow(z[1..], b);
      MaxOfBelow(z[0], 256, b);
      hide MaxOf;
      assert Below(z, b) ==> Below(z[1..], b);
      assert Below(z[1..], b) && (forall j :: 0 <= j < 256 ==> -b < z[0][j] < b) ==> Below(z, b) by {
        forall i, j | Below(z[1..], b) && (forall j :: 0 <= j < 256 ==> -b < z[0][j] < b)
            && 0 <= i < |z| && 0 <= j < 256
          ensures -b < z[i][j] < b
        {
          if i > 0 {
            assert z[i] == z[1..][i - 1];
          }
        }
      }
    }
  }

  lemma {:induction false} BelowFits(z: seq<Poly>, p: Params)
    requires IsParams(p) && Below(z, p.g1 - p.Beta())
    ensures Fits(z, p.g1 - 1, p.g1) && CentredAll(z) == z
  {
    Shape(p);
    forall i, j | 0 <= i < |z| && 0 <= j < 256
      ensures ModPm(z[i][j], Q) == z[i][j]
    {
      CentredIsItself(z[i][j]);
    }
    hide ModPm;
    forall i | 0 <= i < |z|
      ensures CentredAll(z)[i] == z[i]
    {}
  }

  /** An encoding has the right length and decodes to what it encodes. */
  lemma EncodingDecodes(sig: Bytes, ct: Bytes, z: seq<Poly>, h: seq<Poly>, p: Params)
    requires IsParams(p) && IsEncoding(sig, ct, z, h, p)
    ensures |sig| == SigLen(p) && SigDecode(sig, p) == (ct, z, Some(h))
  {
    hide Fits, SigEncode, SigDecode, AllOnes, Below;
    Shape(p);
    BelowFits(z, p);
    SigRoundTrip(ct, z, h, p);
  }

  // ---------- the verdict ----------

  /** The verdict on decoded parts. */
  lemma DecodedVerdict(shake: Shake, pk: Bytes, msg: Bytes, sig: Bytes, p: Params, mu: Option<Bytes>)
    requires shake.Valid() && IsParams(p) && |pk| == PkLen(p) && |sig| == SigLen(p)
    ensures var (rho, t1) := PkDecode(pk, p); var (ct, z, h) := SigDecode(sig, p);
      VerifyOf(shake, pk, msg, sig, p, mu) == Some(true) <==>
        && h.Some? && Below(z, p.g1 - p.Beta())
        && Convinces(shake, rho, t1, ct, z, h.value, MessageHash(shake, pk, msg, mu), p)
  {
    Shape(p);
    VerifyUnfolds(shake, pk, msg, sig, p, mu);
    hide VerifyOf, PkDecode, SigDecode, ExpandA, BallOf, W1Encode, MaxAbs, Below, UseHintAll, Opened, Recomputed;
    hide IsParams, NttAll, NttOf, ReducedAll;
    var (rho, t1) := PkDecode(pk, p);
    var (ct, z, h) := SigDecode(sig, p);
    MaxAbsBelow(z, p.g1 - p.Beta());
    var a, c := ExpandA(shake, rho, p), BallOf(shake.shake256(ct, XOF_BYTES), p.tau);
    if h.Some? && a.Some? && c.Some? {
      OpenedSame(a.value, z, h.value, c.value, t1, p);
    }
  }

  lemma OpenedSame(a: Matrix, z: seq<Poly>, h: seq<Poly>, c: Poly, t1: seq<Poly>, p: Params)
    requires IsParams(p) && IsMatrix(a, p) && |z| == p.l && |h| == p.k && |t1| == p.k
    ensures IsG2(p.g2)
    ensures UseHintAll(h, Recomputed(a, NttAll(ReducedAll(z)), NttOf(DSA, c), t1, p), p.g2) == Opened(a, z, h, c, t1, p)
  {
    Shape(p);
    hide Recomputed, Commitment, NttAll, NttOf, ReducedAll, UseHintPoly, IsParams;
    var w := Recomputed(a, NttAll(ReducedAll(z)), NttOf(DSA, c), t1, p);
    forall r | 0 <= r < p.k
      ensures UseHintAll(h, w, p.g2)[r] == Opened(a, z, h, c, t1, p)[r]
    {
      RecomputedIsRing(a, z, c, t1, p, r);
    }
  }

  lemma VerifyUnfolds(shake: Shake, pk: Bytes, msg: Bytes, sig: Bytes, p: Params, mu: Option<Bytes>)
    requires shake.Valid() && IsParams(p) && |pk| == PkLen(p) && |sig| == SigLen(p)
    ensures IsG2(p.g2) && p.tau <= 64 && p.k <= 256 && p.l <= 256
    ensures var (rho, t1) := PkDecode(pk, p); var (ct, z, h) := SigDecode(sig, p);
      var a, c := ExpandA(shake, rho, p), BallOf(shake.shake256(ct, XOF_BYTES), p.tau);
      VerifyOf(shake, pk, msg, sig, p, mu) == Some(true) <==>
        && h.Some? && a.Some? && c.Some? && MaxAbs(z) < p.g1 - p.Beta()
        && ct == shake.shake256(MessageHash(shake, pk, msg, mu)
                                + W1Encode(UseHintAll(h.value, Recomputed(a.value, NttAll(ReducedAll(z)),
                                                                          NttOf(DSA, c.value), t1, p), p.g2), p.g2),
                                p.lam / 4)
  {
    hide PkDecode, SigDecode, ExpandA, BallOf, W1Encode, Recomputed, NttAll, NttOf, ReducedAll, MaxAbs, UseHintAll;
    hide IsParams, PkLen, SigLen, IsMatrix, Params.Beta;
    Shape(p);
    var (rho, t1) := PkDecode(pk, p);
    var (ct, z, h) := SigDecode(sig, p);
    assert |pk| == PkLen(p) && |sig| == SigLen(p);
  }

  ghost predicate Accepted(shake: Shake, pk: Bytes, msg: Bytes, sig: Bytes, p: Params, mu: Option<Bytes>, rho: Bytes,
                           t1: seq<Poly>, ct: Bytes, z: seq<Poly>, h: seq<Poly>)
    requires shake.Valid() && IsParams(p)
  {
    && IsPublicKey(pk, rho, t1, p) && IsEncoding(sig, ct, z, h, p)
    && Convinces(shake, rho, t1, ct, z, h, MessageHash(shake, pk, msg, mu), p)
  }

  /** For every public key, message and signature, verification answers True if and only if the key encodes a seed and
      a vector t1, the signature encodes a commitment, a response z below gamma1 - beta and a hint with at most omega
      ones, and the commitment is the hash of the message's hash and of the high parts of A z - c t1 2^13 with that
      hint. */
  lemma VerdictIff(shake: Shake, pk: Bytes, msg: Bytes, sig: Bytes, p: Params, mu: Option<Bytes>)
    requires shake.Valid() && IsParams(p)
    ensures VerifyOf(shake, pk, msg, sig, p, mu) == Some(true) <==>
      exists rho, t1, ct, z, h :: Accepted(shake, pk, msg, sig, p, mu, rho, t1, ct, z, h)
  {
    hide PkDecode, SigDecode, Convinces, IsParams, Below, SigEncode, PkEncode, IsHint;
    Shape(p);
    if |pk| == PkLen(p) && |sig| == SigLen(p) {
      DecodedVerdict(shake, pk, msg, sig, p, mu);
      PkCanonical(pk, p);
      if SigDecode(sig, p).2.Some? {
        SigCanonical(sig, p);
      }
    }
    hide VerifyOf;
    if VerifyOf(shake, pk, msg, sig, p, mu) == Some(true) {
      RightLengths(shake, pk, msg, sig, p, mu);
      var (rho, t1) := PkDecode(pk, p);
      var (ct, z, h) := SigDecode(sig, p);
      assert Accepted(shake, pk, msg, sig, p, mu, rho, t1, ct, z, h.value);
    }
    if exists rho, t1, ct, z, h :: Accepted(shake, pk, msg, sig, p, mu, rho, t1, ct, z, h) {
      var rho, t1, ct, z, h :| Accepted(shake, pk, msg, sig, p, mu, rho, t1, ct, z, h);
      PkRoundTrip(rho, t1, p);
      EncodingDecodes(sig, ct, z, h, p);
    }
  }

  lemma RightLengths(shake: Shake, pk: Bytes, msg: Bytes, sig: Bytes, p: Params, mu: Option<Bytes>)
    requires shake.Valid() && IsParams(p) && VerifyOf(shake, pk, msg, sig, p, mu) == Some(true)
    ensures |pk| == PkLen(p) && |sig| == SigLen(p)
  {}

  /** The encoded high parts behind an accepted signature; they do not depend on the message. */
  ghost function HighParts(shake: Shake, pk: Bytes, sig: Bytes, p: Params): Bytes
    requires shake.Valid() && IsParams(p)
  {
    hide PkDecode, SigDecode, ExpandA, BallOf, W1Encode, Opened, IsParams, PkLen, SigLen;
    Shape(p);
    if |pk| != PkLen(p) || |sig| != SigLen(p) then []
    else
      var (rho, t1) := PkDecode(pk, p);
      var (ct, z, h) := SigDecode(sig, p);
      var a, c := ExpandA(shake, rho, p), BallOf(shake.shake256(ct, XOF_BYTES), p.tau);
      if h.None? || a.None? || c.None? then []
      else W1Encode(Opened(a.value, z, h.value, c.value, t1, p), p.g2)
  }

  lemma AcceptedHash(shake: Shake, pk: Bytes, msg: Bytes, sig: Bytes, p: Params, mu: Option<Bytes>)
    requires shake.Valid() && IsParams(p) && VerifyOf(shake, pk, msg, sig, p, mu) == Some(true)
    ensures |sig| >= p.lam / 4
    ensures shake.shake256(MessageHash(shake, pk, msg, mu) + HighParts(shake, pk, sig, p), p.lam / 4)
      == sig[..p.lam / 4]
  {
    hide PkDecode, SigDecode, VerifyOf, IsParams, Below, ExpandA, BallOf, W1Encode, Opened, PkLen, SigLen, MessageHash;
    RightLengths(shake, pk, msg, sig, p, mu);
    Shape(p);
    DecodedVerdict(shake, pk, msg, sig, p, mu);
    CommitmentIs(sig, p);
    hide Convinces;
    HighPartsConvince(shake, pk, sig, MessageHash(shake, pk, msg, mu), p);
  }

  lemma CommitmentIs(sig: Bytes, p: Params)
    requires IsParams(p) && |sig| == SigLen(p)
    ensures p.lam / 4 <= |sig| && SigDecode(sig, p).0 == sig[..p.lam / 4]
  {
    hide ZBits, UnpackAll, HintOf;
  }

  lemma HighPartsConvince(shake: Shake, pk: Bytes, sig: Bytes, m: Bytes, p: Params)
    requires shake.Valid() && IsParams(p) && |pk| == PkLen(p) && |sig| == SigLen(p) && SigDecode(sig, p).2.Some?
    requires var (rho, t1) := PkDecode(pk, p); var (ct, z, h) := SigDecode(sig, p);
      Convinces(shake, rho, t1, ct, z, h.value, m, p)
    ensures shake.shake256(m + HighParts(shake, pk, sig, p), p.lam / 4) == SigDecode(sig, p).0
  {
    hide PkDecode, SigDecode, IsParams, ExpandA, BallOf, W1Encode, Opened, PkLen, SigLen;
    Shape(p);
  }

  /** A signature that one key accepts for two messages makes the hash collide in its first lam / 4 bytes: some encoded
      high parts give the signature's commitment behind both message hashes. */
  lemma AcceptedTwice(shake: Shake, pk: Bytes, msg: Bytes, mu: Option<Bytes>, msg': Bytes, mu': Option<Bytes>,
                      sig: Bytes, p: Params)
    requires shake.Valid() && IsParams(p)
    requires VerifyOf(shake, pk, msg, sig, p, mu) == Some(true)
    requires VerifyOf(shake, pk, msg', sig, p, mu') == Some(true)
    ensures |sig| >= p.lam / 4
    ensures exists w1: Bytes ::
      shake.shake256(MessageHash(shake, pk, msg, mu) + w1, p.lam / 4) == sig[..p.lam / 4]
      && shake.shake256(MessageHash(shake, pk, msg', mu') + w1, p.lam / 4) == sig[..p.lam / 4]
  {
    hide VerifyOf, IsParams, HighParts, MessageHash;
    AcceptedHash(shake, pk, msg, sig, p, mu);
    AcceptedHash(shake, pk, msg', sig, p, mu');
    var w1 := HighParts(shake, pk, sig, p);
    assert shake.shake256(MessageHash(shake, pk, msg, mu) + w1, p.lam / 4) == sig[..p.lam / 4];
  }

  /** The encoding of high parts determines them. */
  lemma HighPartsBound(u: seq<Poly>, v: seq<Poly>, g2: int)
    requires IsG2(g2) && |u| == |v| && W1Encode(u, g2) == W1Encode(v, g2)
    requires forall i, j :: 0 <= i < |u| && 0 <= j < 256 ==> 0 <= u[i][j] < Highs(g2) && 0 <= v[i][j] < Highs(g2)
    ensures u == v
  {
    hide SimpleBitPack, Part, BitLength;
    var b := Highs(g2) - 1;
    var len := 32 * BitLength(b);
    var x := seq(|u|, i requires 0 <= i < |u| => SimpleBitPack(u[i], b));
    var y := seq(|v|, i requires 0 <= i < |v| => SimpleBitPack(v[i], b));
    assert [] + Join(x) + [] == [] + Join(y) + [];
    forall i | 0 <= i < |u|
      ensures u[i] == v[i]
    {
      PartOfJoin([], x, [], len, i);
      PartOfJoin([], y, [], len, i);
      SimpleRoundTrip(u[i], b);
      SimpleRoundTrip(v[i], b);
    }
  }
}
