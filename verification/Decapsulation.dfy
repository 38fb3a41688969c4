/** Decryption recovers the message exactly when the noise is small, whatever the matrix and the message;
    and decapsulation then returns the encapsulated key. */
module Decapsulation {
  import opened Arithmetic
  import opened Modular
  import opened Options
  import opened Butterflies
  import opened NttRing
  import opened MlKemNtt
  import opened MlKemAlgebra
  import opened BitFields
  import opened Concatenation
  import opened MlKemCodec
  import opened MlKem

  // ---------- the noise ----------

  /** The sum over i < n of a_i b_i in Z[X] / (X^256 + 1). */
  function RingSum(a: seq<Poly>, b: seq<Poly>, n: nat): Poly
    requires n <= |a| && n <= |b|
  {
    if n == 0 then Zero()
    else
      var s, t := RingSum(a, b, n - 1), Product(a[n - 1], b[n - 1]);
      seq(256, j requires 0 <= j < 256 => s[j] + t[j])
  }

  /** A polynomial compressed to d bits and back, and what that adds. */
  function Rounded(f: Poly, d: nat): Poly
    requires d > 0
  {
    DecompressPoly(CompressPoly(f, d), d)
  }

  function Rounding(f: Poly, d: nat): Poly
    requires d > 0
  {
    seq(256, j requires 0 <= j < 256 => Rounded(f, d)[j] - f[j])
  }

  /** e1_i plus the rounding of u_i. */
  function Perturbed(u: seq<Poly>, e1: seq<Poly>, d: nat): (g: seq<Poly>)
    requires |u| == |e1| && d > 0
    ensures |g| == |u|
  {
    seq(|u|, i requires 0 <= i < |u| => PerturbedPoly(u[i], e1[i], d))
  }

  function PerturbedPoly(u: Poly, e1: Poly, d: nat): Poly
    requires d > 0
  {
    seq(256, j requires 0 <= j < 256 => e1[j] + Rounding(u, d)[j])
  }

  /** sum of y_i e_i + e2 + rounding of v - sum of s_i (e1_i + rounding of u_i). */
  function NoiseOf(s: seq<Poly>, e: seq<Poly>, y: seq<Poly>, e1: seq<Poly>, e2: Poly, u: seq<Poly>, v: Poly,
                   p: Params): Poly
    requires IsParams(p) && |s| == p.k && |e| == p.k && |y| == p.k && |e1| == p.k && |u| == p.k
  {
    SmallParams(p);
    var a, b := RingSum(y, e, p.k), RingSum(s, Perturbed(u, e1, p.du), p.k);
    seq(256, j requires 0 <= j < 256 => a[j] + e2[j] + Rounding(v, p.dv)[j] - b[j])
  }

  // ---------- transformed sums ----------

  /** A sum of products of transforms is the transform of the ring sum. */
  lemma {:induction false} DotIsRingSum(a: seq<Poly>, b: seq<Poly>, n: nat)
    requires n <= |a| && n <= |b|
    ensures forall j :: 0 <= j < 256 ==> InttOf(KEM, Dot(NttAll(a), NttAll(b), n))[j] == C(Q, RingSum(a, b, n)[j])
  {
    KemValid();
    hide C, InttOf, NttOf, Product, MulNttOf, Pow, Pow2;
    if n == 0 {
      InttZero();
      CRange(Q, 0);
    } else {
      DotIsRingSum(a, b, n - 1);
      var d, m := Dot(NttAll(a), NttAll(b), n - 1), MulNttOf(NttOf(KEM, a[n - 1]), NttOf(KEM, b[n - 1]));
      AddCombines(d, m);
      InttLinear(KEM, Add(d, m), d, 1, m);
      RingIsomorphism(a[n - 1], b[n - 1]);
      forall j | 0 <= j < 256
        ensures InttOf(KEM, Add(d, m))[j] == C(Q, RingSum(a, b, n)[j])
      {
        CAdd(Q, RingSum(a, b, n - 1)[j], Product(a[n - 1], b[n - 1])[j]);
      }
    }
  }

  lemma AddCombines(f: Poly, g: Poly)
    ensures Combines(Q, Add(f, g), f, 1, g)
  {
    hide C;
    forall j | 0 <= j < 256
      ensures C(Q, Add(f, g)[j]) == C(Q, f[j] + 1 * g[j])
    {
      CIdem(Q, f[j] + g[j]);
    }
  }

  lemma InttZero()
    ensures InttOf(KEM, Zero()) == Zero()
  {
    KemValid();
    hide C, InttOf, Pow, Pow2;
    var x := InttOf(KEM, Zero());
    assert Combines(Q, Zero(), Zero(), -1, Zero()) by {
      assert forall j :: 0 <= j < 256 ==> Zero()[j] + -1 * Zero()[j] == 0;
    }
    InttLinear(KEM, Zero(), Zero(), -1, Zero());
    forall j | 0 <= j < 256
      ensures x[j] == 0
    {
      CRange(Q, 0);
      assert x[j] + -1 * x[j] == 0;
    }
  }

  // ---------- what the receiver computes ----------

  /** Compressed coefficients survive encoding. */
  lemma CompressedSurvives(f: Poly, d: nat)
    requires 0 < d < 12
    ensures ByteDecode(ByteEncodeOf(CompressPoly(f, d), d), d) == CompressPoly(f, d)
  {
    hide Compress, ByteDecode, ByteEncodeOf;
    var c := CompressPoly(f, d);
    DecodeEncode(c, d);
    forall j | 0 <= j < 256
      ensures ReducedFields(c, d)[j] == c[j]
    {
      ResidueOf(c[j], d);
    }
  }

  /** ntt(u_i + rounding) = sum of A_ji y_j + ntt(e1_i + rounding). */
  lemma ReceivedTransform(col: Poly, e1: Poly, d: nat)
    requires d > 0 && IsReduced(col)
    ensures var u := Add(InttOf(KEM, col), e1);
      NttOf(KEM, Rounded(u, d)) == Add(col, NttOf(KEM, PerturbedPoly(u, e1, d)))
  {
    KemValid();
    hide C, InttOf, NttOf, Rounded, Pow, Pow2, IsReduced;
    var x := InttOf(KEM, col);
    var u := Add(x, e1);
    var g, r := PerturbedPoly(u, e1, d), Rounded(u, d);
    forall j | 0 <= j < 256
      ensures C(Q, r[j]) == C(Q, x[j] + 1 * g[j])
    {
      CAdd(Q, x[j] + e1[j], Rounding(u, d)[j]);
    }
    NttLinear(KEM, r, x, 1, g);
    NttIntt(KEM, col);
    NttRange(KEM, r);
    forall j | 0 <= j < 256
      ensures NttOf(KEM, r)[j] == Add(col, NttOf(KEM, g))[j]
    {
      CEqAdd(Q, NttOf(KEM, x)[j], col[j], NttOf(KEM, g)[j], NttOf(KEM, g)[j]);
      CRange(Q, NttOf(KEM, r)[j]);
    }
  }

  lemma {:induction false} DotNttReduced(a: Matrix, y: seq<Poly>, k: nat)
    requires IsMatrix(a, k) && |y| == k
    ensures forall i :: 0 <= i < k ==> IsReduced(ColumnSums(a, y, k, k)[i])
  {
    hide Dot, IsReduced;
    forall i | 0 <= i < k
      ensures IsReduced(ColumnSums(a, y, k, k)[i])
    {
      DotReduced(Column(a, i, k), y, k);
    }
  }

  /** What the sender adds to the message: the matrix part plus noise. */
  lemma SenderSum(a: Matrix, sh: seq<Poly>, eh: seq<Poly>, yh: seq<Poly>, k: nat)
    requires IsMatrix(a, k) && |sh| == k && |eh| == k && |yh| == k && forall i :: 0 <= i < k ==> IsReduced(eh[i])
    ensures Dot(TOf(a, sh, eh, k), yh, k) == Add(Dot(yh, eh, k), Dot(sh, ColumnSums(a, yh, k, k), k))
  {
    hide Dot, Add, IsReduced, MulNttOf;
    var t := TOf(a, sh, eh, k);
    forall i | 0 <= i < k
      ensures t[i] == Add(eh[i], RowSums(a, sh, k)[i])
    {
      DotFromIsSum(eh[i], a[i], sh, k);
    }
    DotCommutes(t, yh, k);
    DotDistributes(yh, t, eh, RowSums(a, sh, k), k);
    MatrixCancels(a, sh, yh, k, k);
  }

  /** What the receiver subtracts: the same matrix part plus noise. */
  lemma ReceiverSum(a: Matrix, sh: seq<Poly>, yh: seq<Poly>, e1: seq<Poly>, ur: seq<Poly>, k: nat, d: nat)
    requires IsMatrix(a, k) && |sh| == k && |yh| == k && |e1| == k && |ur| == k && d > 0
    requires forall i :: 0 <= i < k ==> ur[i] == Rounded(UOf(a, yh, e1, k)[i], d)
    ensures Dot(sh, NttAll(ur), k)
      == Add(Dot(sh, ColumnSums(a, yh, k, k), k), Dot(sh, NttAll(Perturbed(UOf(a, yh, e1, k), e1, d)), k))
  {
    hide Dot, Add, IsReduced, Rounded, NttOf, InttOf, PerturbedPoly;
    var u, cols := UOf(a, yh, e1, k), ColumnSums(a, yh, k, k);
    var g := Perturbed(u, e1, d);
    DotNttReduced(a, yh, k);
    forall i | 0 <= i < k
      ensures NttAll(ur)[i] == Add(cols[i], NttAll(g)[i])
    {
      ReceivedTransform(cols[i], e1[i], d);
    }
    DotDistributes(sh, NttAll(ur), cols, NttAll(g), k);
  }

  /** The decrypted polynomial is the message polynomial plus the noise: the matrix has cancelled. */
  lemma DecryptedIsMessagePlusNoise(a: Matrix, s: seq<Poly>, e: seq<Poly>, y: seq<Poly>, e1: seq<Poly>, e2: Poly,
                                    mu: Poly,
                                    ur: seq<Poly>, vr: Poly, p: Params)
    requires IsParams(p) && IsMatrix(a, p.k) && |s| == p.k && |e| == p.k && |y| == p.k && |e1| == p.k && |ur| == p.k
    requires p.du > 0 && p.dv > 0
    requires var u := UOf(a, NttAll(y), e1, p.k); forall i :: 0 <= i < p.k ==> ur[i] == Rounded(u[i], p.du)
    requires vr == Rounded(VOf(TOf(a, NttAll(s), NttAll(e), p.k), NttAll(y), e2, mu, p.k), p.dv)
    ensures var u, v := UOf(a, NttAll(y), e1, p.k), VOf(TOf(a, NttAll(s), NttAll(e), p.k), NttAll(y), e2, mu, p.k);
      var n := NoiseOf(s, e, y, e1, e2, u, v, p);
      forall j :: 0 <= j < 256 ==> WOf(NttAll(s), ur, vr, p.k)[j] == C(Q, mu[j] + n[j])
  {
    hide C, InttOf, NttOf, Dot, Rounded, RingSum, UOf, TOf, Perturbed, Pow, Pow2, IsParams, IsReduced, Add;
    SmallParams(p);
    var k, sh, eh, yh := p.k, NttAll(s), NttAll(e), NttAll(y);
    var u := UOf(a, yh, e1, k);
    var g := Perturbed(u, e1, p.du);
    TransformsReduced(e);
    SenderSum(a, sh, eh, yh, k);
    ReceiverSum(a, sh, yh, e1, ur, k, p.du);
    var common := Dot(sh, ColumnSums(a, yh, k, k), k);
    DotIsRingSum(y, e, k);
    DotIsRingSum(s, g, k);
    var v := VOf(TOf(a, sh, eh, k), yh, e2, mu, k);
    Assembled(Dot(yh, eh, k), common, Dot(sh, NttAll(g), k), RingSum(y, e, k), RingSum(s, g, k), e2, mu, v, vr,
              Rounding(v, p.dv));
  }

  /** The common part drops out of the difference. */
  lemma Assembled(nx: Poly, common: Poly, nr: Poly, ye: Poly, sg: Poly, e2: Poly, mu: Poly, v: Poly, vr: Poly, dv: Poly)
    requires forall j :: 0 <= j < 256 ==> InttOf(KEM, nx)[j] == C(Q, ye[j])
    requires forall j :: 0 <= j < 256 ==> InttOf(KEM, nr)[j] == C(Q, sg[j])
    requires v == Add(Add(InttOf(KEM, Add(nx, common)), e2), mu) && forall j :: 0 <= j < 256 ==> vr[j] == v[j] + dv[j]
    ensures forall j :: 0 <= j < 256 ==>
      Sub(vr, InttOf(KEM, Add(common, nr)))[j] == C(Q, mu[j] + (ye[j] + e2[j] + dv[j] - sg[j]))
  {
    KemValid();
    hide C, InttOf, Pow, Pow2;
    AddCombines(nx, common);
    AddCombines(common, nr);
    InttLinear(KEM, Add(nx, common), nx, 1, common);
    InttLinear(KEM, Add(common, nr), common, 1, nr);
    forall j | 0 <= j < 256
      ensures Sub(vr, InttOf(KEM, Add(common, nr)))[j] == C(Q, mu[j] + (ye[j] + e2[j] + dv[j] - sg[j]))
    {
      NoiseEntry(ye[j], InttOf(KEM, common)[j], sg[j], e2[j], mu[j], dv[j]);
    }
  }

  lemma TransformsReduced(v: seq<Poly>)
    ensures forall i :: 0 <= i < |v| ==> IsReduced(NttAll(v)[i])
  {
    KemValid();
    hide NttOf, Pow, Pow2;
    forall i | 0 <= i < |v|
      ensures IsReduced(NttAll(v)[i])
    {
      NttRange(KEM, v[i]);
    }
  }

  lemma NoiseEntry(ye: int, m: int, sg: int, e2: int, mu: int, dv: int)
    ensures var x := C(Q, C(Q, ye) + 1 * m); var z := C(Q, m + 1 * C(Q, sg)); var v := C(Q, C(Q, x + e2) + mu);
      C(Q, (v + dv) - z) == C(Q, mu + (ye + e2 + dv - sg))
  {
    hide C;
    CAdd(Q, ye, m);
    CAdd(Q, m, sg);
    CAdd(Q, ye + m, e2);
    CAdd(Q, ye + m + e2, mu);
    CAdd(Q, ye + m + e2 + mu, dv);
    CEqSub(Q, C(Q, ye + m + e2 + mu) + dv, ye + m + e2 + mu + dv, C(Q, m + sg), m + sg) by { CIdem(Q, m + sg); }
  }

  // ---------- keys and ciphertexts come apart again ----------

  /** Encoded polynomials are found again at the start of a string. */
  lemma DecodeJoin(v: seq<Poly>, post: Bytes, k: nat, d: nat)
    requires |v| == k && forall i, j :: 0 <= i < k && 0 <= j < 256 ==> 0 <= v[i][j] < FieldModulus(d)
    ensures DecodeAll(Join(EncodeAll(v, d)) + post, k, d) == v
    ensures |Join(EncodeAll(v, d))| == 32 * d * k
    ensures Slice(Join(EncodeAll(v, d)) + post, 32 * d * k, |Join(EncodeAll(v, d)) + post|) == post
  {
    hide FieldModulus, ByteDecode, ByteEncodeOf, Slice, Residue;
    var parts := EncodeAll(v, d);
    var b := Join(parts) + post;
    assert [] + Join(parts) + post == b;
    forall i | 0 <= i < k
      ensures DecodeAll(b, k, d)[i] == v[i]
    {
      SliceOfJoin([], parts, post, 32 * d, i);
      DecodeReduced(v[i], d);
    }
    JoinLength(parts, 32 * d);
    SliceTail(Join(parts), post, 32 * d * k);
  }

  lemma SliceTail(a: Bytes, b: Bytes, n: nat)
    requires |a| == n
    ensures Slice(a + b, n, |a + b|) == b
  {}

  lemma DecodeReduced(f: Poly, d: nat)
    requires forall j :: 0 <= j < 256 ==> 0 <= f[j] < FieldModulus(d)
    ensures ByteDecode(ByteEncodeOf(f, d), d) == f
  {
    hide FieldModulus, ByteDecode, ByteEncodeOf, Residue;
    DecodeEncode(f, d);
    forall j | 0 <= j < 256
      ensures ReducedFields(f, d)[j] == f[j]
    {
      ResidueOf(f[j], d);
    }
  }

  /** What the receiver reads from a ciphertext: u and v rounded. */
  lemma CiphertextRead(u: seq<Poly>, v: Poly, p: Params)
    requires IsParams(p) && |u| == p.k
    ensures p.du > 0 && p.dv > 0
    ensures var c := CiphertextOf(u, v, p);
      && (forall i :: 0 <= i < p.k ==> DecompressAll(DecodeAll(c, p.k, p.du), p.du)[i] == Rounded(u[i], p.du))
      && DecompressPoly(ByteDecode(Slice(c, 32 * p.du * p.k, |c|), p.dv), p.dv) == Rounded(v, p.dv)
  {
    hide ByteDecode, ByteEncodeOf, Slice, DecompressPoly, IsParams, Compress;
    SmallParams(p);
    DecodeJoin(CompressAll(u, p.du), ByteEncodeOf(CompressPoly(v, p.dv), p.dv), p.k, p.du);
    CompressedSurvives(v, p.dv);
  }

  lemma MatrixReduced(a: Matrix, s: seq<Poly>, e: seq<Poly>, k: nat)
    requires IsMatrix(a, k) && |s| == k && |e| == k && forall i :: 0 <= i < k ==> IsReduced(e[i])
    ensures forall i :: 0 <= i < k ==> IsReduced(TOf(a, s, e, k)[i])
  {
    hide Dot, Add, IsReduced;
    forall i | 0 <= i < k
      ensures IsReduced(TOf(a, s, e, k)[i])
    {
      DotFromIsSum(e[i], a[i], s, k);
      AddReduced(e[i], Dot(a[i], s, k));
    }
  }

  // ---------- the message bits ----------

  /** Encoding bits gives m exactly when they are the bits of m. */
  lemma SameBits(f: Poly, m: Bytes)
    requires |m| == 32 && forall j :: 0 <= j < 256 ==> 0 <= f[j] < 2
    ensures ByteEncodeOf(f, 1) == m <==> f == ByteDecode(m, 1)
  {
    hide ByteDecode, ByteEncodeOf;
    assert FieldModulus(1) == 2 by { assert Pow2(1) == 2; }
    DecodeReduced(f, 1);
    EncodeDecode(m, 1);
    FieldsOfReadFields(BitsOf(m), 1, 256);
  }

  /** A coefficient fits when the noise leaves it on the side of its bit. */
  predicate Fits(noise: int, bit: int) {
    -832 <= Centred(noise) <= 832 - bit
  }

  lemma CentredSame(x: int, y: int)
    requires C(Q, x) == C(Q, y)
    ensures Centred(x) == Centred(y)
  {}

  lemma BitFits(w: int, bit: nat, n: int)
    requires bit < 2 && 0 <= w < Q && w == C(Q, Decompress(bit, 1) + n)
    ensures Compress(w, 1) == bit <==> Fits(n, bit)
  {
    hide C, Compress, Centred;
    var mu := Decompress(bit, 1);
    CSub(Q, mu + n, mu);
    CentredSame(w - mu, n);
    BitSurvives(bit, w);
  }

  // ---------- encryption and decryption ----------

  /** The polynomials behind one key and one encryption. */
  datatype Session = Session(a: Matrix, s: seq<Poly>, e: seq<Poly>, y: seq<Poly>, e1: seq<Poly>, e2: Poly, mu: Poly)

  ghost predicate IsSession(x: Session, k: nat) {
    IsMatrix(x.a, k) && |x.s| == k && |x.e| == k && |x.y| == k && |x.e1| == k
  }

  function SentU(x: Session, k: nat): (u: seq<Poly>)
    requires IsSession(x, k)
    ensures |u| == k
  {
    UOf(x.a, NttAll(x.y), x.e1, k)
  }

  function SentV(x: Session, k: nat): Poly
    requires IsSession(x, k)
  {
    VOf(TOf(x.a, NttAll(x.s), NttAll(x.e), k), NttAll(x.y), x.e2, x.mu, k)
  }

  function SessionNoise(x: Session, p: Params): Poly
    requires IsParams(p) && IsSession(x, p.k)
  {
    NoiseOf(x.s, x.e, x.y, x.e1, x.e2, SentU(x, p.k), SentV(x, p.k), p)
  }

  /** The session of encrypting m with coins r under the key of seed d. */
  function SessionOf(h: Hashes, d: Bytes, m: Bytes, r: Bytes, p: Params): (x: Session)
    requires h.Valid() && IsParams(p) && PkeKeyGenOf(h, d, p).Some?
    ensures IsSession(x, p.k) && x.mu == MessagePoly(m)
  {
    SmallParams(p);
    var (rho, sigma) := G(h, d + [p.k]);
    Session(MatrixOf(h, rho, p.k).value,
            CbdVector(h, sigma, 0, p.k, p.eta1), CbdVector(h, sigma, p.k, p.k, p.eta1),
            CbdVector(h, r, 0, p.k, p.eta1), CbdVector(h, r, p.k, p.k, p.eta2), CbdPoly(h, r, 2 * p.k, p.eta2),
            MessagePoly(m))
  }

  function EncryptionNoise(h: Hashes, d: Bytes, m: Bytes, r: Bytes, p: Params): Poly
    requires h.Valid() && IsParams(p) && PkeKeyGenOf(h, d, p).Some?
  {
    SessionNoise(SessionOf(h, d, m, r, p), p)
  }

  /** The bits of m all survive the noise. */
  ghost predicate NoiseFits(noise: Poly, m: Bytes) {
    forall j :: 0 <= j < 256 ==> Fits(noise[j], ByteDecode(m, 1)[j])
  }

  /** The public polynomials of a session are reduced. */
  lemma SessionReduced(x: Session, k: nat)
    requires IsSession(x, k)
    ensures forall i :: 0 <= i < k ==> IsReduced(NttAll(x.s)[i]) && IsReduced(TOf(x.a, NttAll(x.s), NttAll(x.e), k)[i])
  {
    hide NttAll, TOf, IsReduced;
    TransformsReduced(x.s);
    TransformsReduced(x.e);
    MatrixReduced(x.a, NttAll(x.s), NttAll(x.e), k);
  }

  /** The keys are the encodings of the session's polynomials. */
  lemma KeysOfSession(h: Hashes, d: Bytes, m: Bytes, r: Bytes, p: Params)
    requires h.Valid() && IsParams(p) && PkeKeyGenOf(h, d, p).Some?
    ensures var x := SessionOf(h, d, m, r, p); var t := TOf(x.a, NttAll(x.s), NttAll(x.e), p.k);
      var rho := G(h, d + [p.k]).0;
      && MatrixOf(h, rho, p.k) == Some(x.a)
      && PkeKeyGenOf(h, d, p) == Some((Join(EncodeAll(t, 12)) + rho, Join(EncodeAll(NttAll(x.s), 12))))
  {
    hide MatrixOf, CbdVector, CbdPoly, NttAll, TOf, EncodeAll, Join, IsParams, MessagePoly;
    SmallParams(p);
  }

  /** What encryption computes from a generated key: the matrix and vector of key generation. */
  lemma EncryptsUnderKey(h: Hashes, d: Bytes, m: Bytes, r: Bytes, p: Params)
    requires h.Valid() && IsParams(p) && PkeKeyGenOf(h, d, p).Some?
    ensures var x := SessionOf(h, d, m, r, p); var (ek, dk) := PkeKeyGenOf(h, d, p).value;
      && |ek| == 384 * p.k + 32 && |dk| == 384 * p.k
      && PkeEncryptOf(h, ek, m, r, p) == Some(CiphertextOf(SentU(x, p.k), SentV(x, p.k), p))
      && DecodeAll(dk, p.k, 12) == NttAll(x.s)
  {
    hide MatrixOf, CbdVector, CbdPoly, NttAll, TOf, UOf, VOf, DecodeAll, EncodeAll, Join, IsParams, CiphertextOf;
    hide MessagePoly, Slice, IsReduced;
    SmallParams(p);
    var x := SessionOf(h, d, m, r, p);
    var rho, s := G(h, d + [p.k]).0, NttAll(x.s);
    KeysOfSession(h, d, m, r, p);
    hide PkeKeyGenOf;
    SessionReduced(x, p.k);
    var t := TOf(x.a, s, NttAll(x.e), p.k);
    ReducedFor12(t);
    ReducedFor12(s);
    DecodeJoin(t, rho, p.k, 12);
    DecodeJoin(s, [], p.k, 12);
    assert Join(EncodeAll(s, 12)) + [] == Join(EncodeAll(s, 12));
  }

  lemma ReducedFor12(v: seq<Poly>)
    requires forall i :: 0 <= i < |v| ==> IsReduced(v[i])
    ensures forall i, j :: 0 <= i < |v| && 0 <= j < 256 ==> 0 <= v[i][j] < FieldModulus(12)
  {}

  /** What the receiver computes in a session: the message polynomial plus the noise. */
  lemma SessionDecrypts(x: Session, m: Bytes, p: Params)
    requires IsParams(p) && IsSession(x, p.k) && |m| == 32 && x.mu == MessagePoly(m) && p.du > 0 && p.dv > 0
    ensures var c := CiphertextOf(SentU(x, p.k), SentV(x, p.k), p);
      var ur, vr := DecompressAll(DecodeAll(c, p.k, p.du), p.du),
        DecompressPoly(ByteDecode(Slice(c, 32 * p.du * p.k, |c|), p.dv), p.dv);
      ByteEncodeOf(CompressPoly(WOf(NttAll(x.s), ur, vr, p.k), 1), 1) == m <==> NoiseFits(SessionNoise(x, p), m)
  {
    hide NttAll, TOf, UOf, VOf, DecodeAll, IsParams, CiphertextOf, Slice, NoiseFits;
    hide DecompressAll, DecompressPoly, CompressPoly, ByteDecode, ByteEncodeOf, Rounded, NoiseOf, WOf, MessagePoly;
    var u, v := SentU(x, p.k), SentV(x, p.k);
    var c := CiphertextOf(u, v, p);
    CiphertextRead(u, v, p);
    var ur, vr := DecompressAll(DecodeAll(c, p.k, p.du), p.du),
      DecompressPoly(ByteDecode(Slice(c, 32 * p.du * p.k, |c|), p.dv), p.dv);
    DecryptedIsMessagePlusNoise(x.a, x.s, x.e, x.y, x.e1, x.e2, x.mu, ur, vr, p);
    MessageRead(WOf(NttAll(x.s), ur, vr, p.k), SessionNoise(x, p), m);
  }

  /** Decryption returns the message if and only if every coefficient of the noise fits its bit: at most
      832 up or down for a 0, at most 832 down and 831 up for a 1. */
  lemma DecryptionCorrect(h: Hashes, d: Bytes, m: Bytes, r: Bytes, p: Params)
    requires h.Valid() && IsParams(p) && |m| == 32 && PkeKeyGenOf(h, d, p).Some?
    ensures var (ek, dk) := PkeKeyGenOf(h, d, p).value; var c := PkeEncryptOf(h, ek, m, r, p);
      c.Some? && (PkeDecryptOf(dk, c.value, p) == m <==> NoiseFits(EncryptionNoise(h, d, m, r, p), m))
  {
    SmallParams(p);
    EncryptsUnderKey(h, d, m, r, p);
    hide PkeKeyGenOf, PkeEncryptOf, SessionNoise, SentU, SentV, NoiseFits, SessionOf, CiphertextOf, IsParams, DecodeAll;
    hide NttAll, WOf;
    hide DecompressAll, DecompressPoly, CompressPoly, ByteDecode, ByteEncodeOf, Slice, MessagePoly;
    SessionDecrypts(SessionOf(h, d, m, r, p), m, p);
  }

  /** Reading the bits of the message polynomial plus noise. */
  lemma MessageRead(w: Poly, n: Poly, m: Bytes)
    requires |m| == 32 && forall j :: 0 <= j < 256 ==> w[j] == C(Q, MessagePoly(m)[j] + n[j])
    ensures ByteEncodeOf(CompressPoly(w, 1), 1) == m <==> NoiseFits(n, m)
  {
    hide ByteDecode, ByteEncodeOf, Compress, Decompress, Fits;
    assert Pow2(1) == 2;
    var f, b := CompressPoly(w, 1), ByteDecode(m, 1);
    assert FieldModulus(1) == 2;
    SameBits(f, m);
    forall j | 0 <= j < 256
      ensures f[j] == b[j] <==> Fits(n[j], b[j])
    {
      BitFits(w[j], b[j], n[j]);
    }
    if NoiseFits(n, m) {
      assert f == b;
    }
  }

  // ---------- decapsulation ----------

  lemma SliceMiddle(a: Bytes, b: Bytes, c: Bytes, lo: nat, hi: nat)
    requires |a| == lo && |a| + |b| == hi
    ensures Slice(a + b + c, lo, hi) == b
  {}

  /** The four parts of a decapsulation key. */
  lemma KeyParts(dkp: Bytes, ek: Bytes, hk: Bytes, z: Bytes, k: nat)
    requires |dkp| == 384 * k && |ek| == 384 * k + 32 && |hk| == 32
    ensures var dk := dkp + ek + hk + z;
      && Slice(dk, 0, 384 * k) == dkp && Slice(dk, 384 * k, 768 * k + 32) == ek
      && Slice(dk, 768 * k + 32, 768 * k + 64) == hk && Slice(dk, 768 * k + 64, |dk|) == z
  {
    hide Slice;
    var dk := dkp + ek + hk + z;
    assert [] + dkp + (ek + hk + z) == dk;
    SliceMiddle([], dkp, ek + hk + z, 0, 384 * k);
    assert dkp + ek + (hk + z) == dk;
    SliceMiddle(dkp, ek, hk + z, 384 * k, 768 * k + 32);
    assert (dkp + ek) + hk + z == dk;
    SliceMiddle(dkp + ek, hk, z, 768 * k + 32, 768 * k + 64);
    SliceTail(dkp + ek + hk, z, 768 * k + 64);
  }

  /** The coins of encapsulating m under ek. */
  function Coins(h: Hashes, ek: Bytes, m: Bytes): Bytes
    requires h.Valid()
  {
    G(h, m + H(h, ek)).1
  }

  /** Decapsulation returns the encapsulated key whenever the noise of the encryption inside fits. */
  lemma DecapsulationCorrect(h: Hashes, d: Bytes, z: Bytes, m: Bytes, p: Params)
    requires h.Valid() && IsParams(p) && |m| == 32 && KeyGenOf(h, d, z, p).Some?
    ensures PkeKeyGenOf(h, d, p).Some? && EncapsOf(h, KeyGenOf(h, d, z, p).value.0, m, p).Some?
    ensures var (ek, dk) := KeyGenOf(h, d, z, p).value; var (key, c) := EncapsOf(h, ek, m, p).value;
      NoiseFits(EncryptionNoise(h, d, m, Coins(h, ek, m), p), m) ==> DecapsOf(h, dk, c, p) == Some(key)
  {
    hide PkeKeyGenOf, PkeEncryptOf, PkeDecryptOf, EncryptionNoise, NoiseFits, IsParams, Slice, SessionOf, SentU, SentV;
    hide CiphertextOf, DecodeAll, NttAll, DecapsOf;
    var (ek, dkp) := PkeKeyGenOf(h, d, p).value;
    EncryptsUnderKey(h, d, m, Coins(h, ek, m), p);
    DecryptionCorrect(h, d, m, Coins(h, ek, m), p);
    var (key, c) := EncapsOf(h, ek, m, p).value;
    if PkeDecryptOf(dkp, c, p) == m {
      Reencrypts(h, dkp, ek, z, c, c, p);
    }
  }

  /** Decapsulation with the four parts of its key. */
  lemma Reencrypts(h: Hashes, dkp: Bytes, ek: Bytes, z: Bytes, c: Bytes, again: Bytes, p: Params)
    requires h.Valid() && IsParams(p) && |dkp| == 384 * p.k && |ek| == 384 * p.k + 32
    requires var m := PkeDecryptOf(dkp, c, p); PkeEncryptOf(h, ek, m, Coins(h, ek, m), p) == Some(again)
    ensures var m := PkeDecryptOf(dkp, c, p);
      DecapsOf(h, dkp + ek + H(h, ek) + z, c, p) == Some(if again == c then G(h, m + H(h, ek)).0 else J(h, z + c))
  {
    hide PkeEncryptOf, PkeDecryptOf, IsParams, Slice, H, G;
    KeyParts(dkp, ek, H(h, ek), z, p.k);
  }

  /** Decapsulating any ciphertext under a generated key: if encapsulating the message that it decrypts to gives the
      same ciphertext, the key of that encapsulation, and else the hash of key generation's secret z and the
      ciphertext. */
  lemma ImplicitRejection(h: Hashes, d: Bytes, z: Bytes, c: Bytes, p: Params)
    requires h.Valid() && IsParams(p) && KeyGenOf(h, d, z, p).Some?
    ensures PkeKeyGenOf(h, d, p).Some?
    ensures var (ek, dk) := KeyGenOf(h, d, z, p).value; var m := PkeDecryptOf(PkeKeyGenOf(h, d, p).value.1, c, p);
      && EncapsOf(h, ek, m, p).Some?
      && var (key, same) := EncapsOf(h, ek, m, p).value;
         DecapsOf(h, dk, c, p) == Some(if same == c then key else h.shake.shake256(z + c, 32))
  {
    hide PkeKeyGenOf, PkeEncryptOf, PkeDecryptOf, IsParams, Slice, SessionOf, SentU, SentV, CiphertextOf, DecodeAll;
    hide NttAll, H, G, DecapsOf;
    var (ek, dkp) := PkeKeyGenOf(h, d, p).value;
    var m := PkeDecryptOf(dkp, c, p);
    EncryptsUnderKey(h, d, m, Coins(h, ek, m), p);
    Reencrypts(h, dkp, ek, z, c, EncapsOf(h, ek, m, p).value.1, p);
  }

  /** The encapsulated key and the coins are the halves of one hash of the message and the hashed encapsulation key. */
  lemma EncapsulatedKey(h: Hashes, ek: Bytes, m: Bytes, p: Params)
    requires h.Valid() && IsParams(p) && EncapsOf(h, ek, m, p).Some?
    ensures var s := h.sha3.sha3_512(m + h.sha3.sha3_256(ek)); var (key, c) := EncapsOf(h, ek, m, p).value;
      key == s[..32] && PkeEncryptOf(h, ek, m, s[32..], p) == Some(c)
  {
    hide PkeEncryptOf, IsParams;
  }

  /** Noise of at most 831 in absolute value fits whatever the message. */
  lemma SmallNoiseFits(noise: Poly, m: Bytes)
    requires |m| == 32 && forall j :: 0 <= j < 256 ==> -831 <= Centred(noise[j]) <= 831
    ensures NoiseFits(noise, m)
  {
    hide Centred;
    assert FieldModulus(1) == 2 by { assert Pow2(1) == 2; }
    hide ByteDecode;
  }

  lemma GeneratedEkPasses(h: Hashes, d: Bytes, p: Params)
    requires h.Valid() && IsParams(p) && PkeKeyGenOf(h, d, p).Some?
    ensures EkCheck(PkeKeyGenOf(h, d, p).value.0, p)
  {
    hide MatrixOf, NttAll, TOf, IsParams, EncodeAll, IsReduced, MessagePoly;
    SmallParams(p);
    KeysOfSession(h, d, [], [], p);
    var x := SessionOf(h, d, [], [], p);
    SessionReduced(x, p.k);
    hide PkeKeyGenOf, SessionOf, EkCheck;
    EncodedPasses(TOf(x.a, NttAll(x.s), NttAll(x.e), p.k), G(h, d + [p.k]).0, p);
  }

  /** Generated keys pass the key checks. */
  lemma GeneratedKeysPass(h: Hashes, d: Bytes, z: Bytes, p: Params)
    requires h.Valid() && IsParams(p) && |z| == 32 && KeyGenOf(h, d, z, p).Some?
    ensures var (ek, dk) := KeyGenOf(h, d, z, p).value; EkCheck(ek, p) && DkCheck(h, dk, p)
  {
    hide IsParams, PkeKeyGenOf, SessionOf, PkeEncryptOf, DecodeAll, EkCheck, Slice, SentU, SentV, CiphertextOf, NttAll;
    GeneratedEkPasses(h, d, p);
    EncryptsUnderKey(h, d, [], [], p);
    var (ek, dkp) := PkeKeyGenOf(h, d, p).value;
    KeyParts(dkp, ek, H(h, ek), z, p.k);
  }

  lemma EncodedPasses(t: seq<Poly>, rho: Bytes, p: Params)
    requires |t| == p.k && |rho| == 32 && forall i :: 0 <= i < p.k ==> IsReduced(t[i])
    ensures EkCheck(Join(EncodeAll(t, 12)) + rho, p)
  {
    hide Slice, ByteEncodeOf, ByteDecode;
    var parts := EncodeAll(t, 12);
    var ek := Join(parts) + rho;
    JoinLength(parts, 384);
    assert [] + Join(parts) + rho == ek;
    forall i | 0 <= i < p.k
      ensures var part := Slice(ek, 384 * i, 384 * (i + 1)); ByteEncodeOf(ByteDecode(part, 12), 12) == part
    {
      SliceOfJoin([], parts, rho, 384, i);
      DecodeReduced(t[i], 12);
    }
  }

  /** The modulus check of an encapsulation key: every 12-bit field is below q. */
  lemma EkCheckMeans(ek: Bytes, p: Params)
    requires |ek| == 384 * p.k + 32
    ensures EkCheck(ek, p) <==>
      forall i :: 0 <= i < p.k ==>
        |Slice(ek, 384 * i, 384 * (i + 1))| == 384 && FieldsBelow(Slice(ek, 384 * i, 384 * (i + 1)), 12)
  {
    hide FieldsBelow, ByteEncodeOf, ByteDecode;
    forall i | 0 <= i < p.k
      ensures var part := Slice(ek, 384 * i, 384 * (i + 1));
        |part| == 384 && (ByteEncodeOf(ByteDecode(part, 12), 12) == part <==> FieldsBelow(part, 12))
    {
      EncodeDecode(Slice(ek, 384 * i, 384 * (i + 1)), 12);
    }
  }
}
