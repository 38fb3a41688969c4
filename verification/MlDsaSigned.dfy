/** What key generation and signing of scripts/mldsa/mldsa_ref.py make, in Z_q[x]/(x^256 + 1): the key satisfies
    t1 2^13 + t0 = A s1 + s2, and the signature is that of the first attempt whose response, low parts and hint pass. */
module MlDsaSigned {
  import opened Arithmetic
  import opened Modular
  import opened MlDsaNtt
  import opened Options
  import opened Butterflies
  import opened NttRing
  import opened Rounding
  import opened BitFields
  import opened BitPacking
  import opened HintPacking
  import opened Sampling
  import opened Hashing
  import opened KeyCodec
  import opened MlDsa
  import opened MlDsaVerdict
  import opened Completeness

  // ---------- key generation ----------

  /** The matrix of a seed: the stream of entry (r, s) is that of the seed followed by s and r. */
  ghost predicate IsMatrixOf(shake: Shake, rho: Bytes, a: Matrix, p: Params) {
    && IsMatrix(a, p) && p.k <= 256 && p.l <= 256
    && forall r, s :: 0 <= r < p.k && 0 <= s < p.l ==> RejNttOf(shake.shake128(rho + [s, r], 8192)) == Some(a[r][s])
  }

  /** The secret vector whose streams are those of the seed followed by the numbers from first on, in two bytes, the
      lower first. */
  ghost predicate IsSecretOf(shake: Shake, seed: Bytes, first: nat, v: seq<Poly>, eta: nat) {
    && first + |v| <= 65536
    && forall i :: 0 <= i < |v| ==>
      RejBoundedOf(shake.shake256(seed + [(first + i) % 256, (first + i) / 256], 8192), eta) == Some(v[i])
  }

  lemma MatrixIs(shake: Shake, rho: Bytes, p: Params)
    requires IsParams(p) && ExpandA(shake, rho, p).Some?
    ensures IsMatrixOf(shake, rho, ExpandA(shake, rho, p).value, p)
  {
    Shape(p);
    hide RejNttOf, IsParams;
    var a := ExpandA(shake, rho, p).value;
    forall r, s | 0 <= r < p.k && 0 <= s < p.l
      ensures RejNttOf(shake.shake128(rho + [s, r], 8192)) == Some(a[r][s])
    {
      assert MatrixEntry(shake, rho, r, s).Some?;
    }
  }

  lemma SecretIs(shake: Shake, seed: Bytes, first: nat, count: nat, eta: nat)
    requires first + count <= 65536 && SmallVector(shake, seed, first, count, eta).Some?
    ensures IsSecretOf(shake, seed, first, SmallVector(shake, seed, first, count, eta).value, eta)
  {
    hide RejBoundedOf;
    var v := SmallVector(shake, seed, first, count, eta).value;
    forall i | 0 <= i < |v|
      ensures RejBoundedOf(shake.shake256(seed + [(first + i) % 256, (first + i) / 256], 8192), eta) == Some(v[i])
    {
      assert SmallPoly(shake, seed, first + i, eta).Some?;
    }
  }

  /** Coefficient j of t1 2^13 + t0 = A s1 + s2. */
  ghost predicate Splits(a: seq<Poly>, s1: seq<Poly>, s2: Poly, t1: Poly, t0: Poly, l: nat, j: nat)
    requires l <= |a| && l <= |s1| && j < 256
  {
    && 0 <= t1[j] < 1024 && -4096 < t0[j] <= 4096
    && C(Q, t1[j] * 8192 + t0[j]) == C(Q, RowProduct(a, s1, l, j) + s2[j])
  }

  /** What a generated key holds, for the seed xi. */
  ghost predicate IsKey(shake: Shake, xi: Bytes, p: Params, pk: Bytes, sk: Bytes, a: Matrix, s1: seq<Poly>,
                        s2: seq<Poly>, t1: seq<Poly>, t0: seq<Poly>)
    requires shake.Valid() && IsParams(p)
  {
    var hb := shake.shake256(xi + [p.k, p.l], 128);
    && IsMatrixOf(shake, hb[..32], a, p)
    && |s1| == p.l && IsSecretOf(shake, hb[32..96], 0, s1, p.eta)
    && |s2| == p.k && IsSecretOf(shake, hb[32..96], p.l, s2, p.eta)
    && |t1| == p.k && |t0| == p.k
    && (forall r, j :: 0 <= r < p.k && 0 <= j < 256 ==> Splits(a[r], s1, s2[r], t1[r], t0[r], p.l, j))
    && pk == PkEncode(hb[..32], t1)
    && sk == SkEncode(Secret(hb[..32], hb[96..128], shake.shake256(pk, 64), s1, s2, t0), p)
  }

  lemma RowSplits(a: seq<Poly>, s1: seq<Poly>, s2: Poly, l: nat, j: nat)
    requires l <= |a| && l <= |s1| && j < 256
    ensures var t := Padd(InttOf(DSA, Row(a, NttAll(s1), l)), s2); Splits(a, s1, s2, HighPoly(t), LowPoly(t), l, j)
  {
    hide InttOf, Row, NttAll, C, RowProduct, Power2Round;
    RowIsRing(a, s1, l);
    var u := InttOf(DSA, Row(a, NttAll(s1), l));
    Power2RoundParts(C(Q, u[j] + s2[j]));
    CIdem(Q, u[j] + s2[j]);
    CAdd(Q, RowProduct(a, s1, l, j), s2[j]);
    CIdem(Q, C(Q, u[j] + s2[j]));
  }

  /** The generated key of a seed holds the matrix and the secrets of its streams, and a t1 and t0 that split
      A s1 + s2. */
  lemma KeyGenMakes(shake: Shake, xi: Bytes, p: Params)
    returns (a: Matrix, s1: seq<Poly>, s2: seq<Poly>, t1: seq<Poly>, t0: seq<Poly>)
    requires shake.Valid() && IsParams(p)
    ensures var r := KeyGenOf(shake, xi, p); r.Some? ==> IsKey(shake, xi, p, r.value.0, r.value.1, a, s1, s2, t1, t0)
  {
    hide ExpandA, SmallVector, IsMatrixOf, IsSecretOf, Row, InttOf, NttAll, HighPoly, LowPoly, PkEncode, SkEncode;
    hide Splits;
    a, s1, s2, t1, t0 := [], [], [], [], [];
    Shape(p);
    hide IsParams;
    if KeyGenOf(shake, xi, p).Some? {
      var hb := shake.shake256(xi + [p.k, p.l], 128);
      a := ExpandA(shake, hb[..32], p).value;
      s1 := SmallVector(shake, hb[32..96], 0, p.l, p.eta).value;
      s2 := SmallVector(shake, hb[32..96], p.l, p.k, p.eta).value;
      MatrixIs(shake, hb[..32], p);
      SecretIs(shake, hb[32..96], 0, p.l, p.eta);
      SecretIs(shake, hb[32..96], p.l, p.k, p.eta);
      var t := TOf(a, s1, s2, p);
      t1, t0 := HighAll(t), LowAll(t);
      forall r, j | 0 <= r < p.k && 0 <= j < 256
        ensures Splits(a[r], s1, s2[r], t1[r], t0[r], p.l, j)
      {
        RowSplits(a[r], s1, s2[r], p.l, j);
      }
      assert hb[96..] == hb[96..128];
    }
  }

  lemma SecretOnly(shake: Shake, seed: Bytes, first: nat, v: seq<Poly>, eta: nat)
    requires IsSecretOf(shake, seed, first, v, eta)
    ensures SmallVector(shake, seed, first, |v|, eta) == Some(v)
  {
    hide RejBoundedOf;
    forall r | first <= r < first + |v|
      ensures SmallPoly(shake, seed, r, eta) == Some(v[r - first])
    {
      assert r == first + (r - first);
    }
    var w := SmallVector(shake, seed, first, |v|, eta);
    assert w.Some?;
    forall i | 0 <= i < |v|
      ensures w.value[i] == v[i]
    {
      assert SmallPoly(shake, seed, first + i, eta) == Some(v[i]);
    }
    assert w.value == v;
  }

  /** If all streams are long enough a key is generated. */
  lemma KeyGenSucceeds(shake: Shake, xi: Bytes, p: Params, a: Matrix, s1: seq<Poly>, s2: seq<Poly>)
    requires shake.Valid() && IsParams(p) && |s1| == p.l && |s2| == p.k
    requires var hb := shake.shake256(xi + [p.k, p.l], 128);
      IsMatrixOf(shake, hb[..32], a, p) && IsSecretOf(shake, hb[32..96], 0, s1, p.eta)
      && IsSecretOf(shake, hb[32..96], p.l, s2, p.eta)
    ensures KeyGenOf(shake, xi, p).Some?
  {
    hide ExpandA, SmallVector, IsMatrixOf, IsSecretOf, TOf, PkEncode, SkEncode;
    Shape(p);
    hide IsParams;
    var hb := shake.shake256(xi + [p.k, p.l], 128);
    MatrixOnly(shake, hb[..32], a, p);
    SecretOnly(shake, hb[32..96], 0, s1, p.eta);
    SecretOnly(shake, hb[32..96], p.l, s2, p.eta);
  }

  // ---------- one attempt ----------

  /** The bytes of one mask polynomial. */
  function MaskBytes(p: Params): nat {
    if p.g1 == 131072 then 576 else 640
  }

  predicate Within(y: Poly, g: int) {
    forall j :: 0 <= j < 256 ==> -g < y[j] <= g
  }

  /** The masks of attempt kappa / l: entry i is packed in the stream of the seed followed by kappa + i in two bytes. */
  ghost predicate IsMask(shake: Shake, seed: Bytes, kappa: nat, y: seq<Poly>, p: Params)
    requires IsParams(p)
  {
    && |y| == p.l && p.g1 > 0 && kappa + p.l <= 65536
    && forall i :: 0 <= i < p.l ==>
      Within(y[i], p.g1) &&
      BitPack(y[i], p.g1 - 1, p.g1) == shake.shake256(seed + [(kappa + i) % 256, (kappa + i) / 256], MaskBytes(p))
  }

  lemma Unpacked(v: Bytes, g: nat)
    requires g > 0 && 2 * g < Q && |v| == 32 * BitLength(g - 1 + g) && g - 1 + g + 1 == Pow2(BitLength(g - 1 + g))
    ensures BitPack(BitUnpack(v, g - 1, g), g - 1, g) == v && Within(BitUnpack(v, g - 1, g), g)
  {
    hide BitLength;
    CentredCanonical(v, g - 1, g);
    FieldsOfReadFields(BitsOf(v), BitLength(g - 1 + g), 256);
  }

  lemma AlreadyCentred(y: Poly, g: nat)
    requires 2 * g < Q && Within(y, g)
    ensures forall j :: 0 <= j < 256 ==> ModPm(y[j], Q) == y[j]
  {
    hide ModPm;
    forall j | 0 <= j < 256
      ensures ModPm(y[j], Q) == y[j]
    {
      CentredIsItself(y[j]);
    }
  }

  lemma Repacked(y: Poly, g: nat)
    requires g > 0 && 2 * g < Q && Within(y, g)
    ensures BitUnpack(BitPack(y, g - 1, g), g - 1, g) == y
  {
    hide ModPm, BitPack, BitUnpack, BitLength;
    AlreadyCentred(y, g);
    CentredRoundTrip(y, g - 1, g);
    var u := BitUnpack(BitPack(y, g - 1, g), g - 1, g);
    assert forall j :: 0 <= j < 256 ==> u[j] == y[j];
  }

  lemma MaskIs(v: Bytes, y: Poly, p: Params)
    requires IsParams(p) && |v| == MaskBytes(p)
    ensures p.g1 > 0 && MaskBytes(p) == 32 * BitLength(p.g1 - 1 + p.g1)
    ensures y == BitUnpack(v, p.g1 - 1, p.g1) <==> Within(y, p.g1) && BitPack(y, p.g1 - 1, p.g1) == v
  {
    ResponseBits(p);
    MaskWidth(p);
    hide *;
    Unpacked(v, p.g1);
    if Within(y, p.g1) {
      Repacked(y, p.g1);
    }
  }

  lemma MaskWidth(p: Params)
    requires IsParams(p)
    ensures MaskBytes(p) == 32 * BitLength(p.g1 - 1 + p.g1) && MaskBytes(p) == 32 * ZBits(p)
  {
    ZBitsIsLength(p);
    BigPowers();
    var n := if p == ML_DSA_44 then 17 else 19;
    BitLengthOnes(n + 1);
    assert Pow2(n + 1) == 2 * Pow2(n);
    hide BitLength, Pow2;
    assert p.g1 == Pow2(n);
  }

  lemma {:induction false} MasksAt(shake: Shake, seed: Bytes, kappa: nat, n: nat, p: Params, i: nat)
    requires shake.Valid() && IsParams(p) && kappa + n <= 65536 && i < n
    ensures Masks(shake, seed, kappa, n, p)[i] == MaskPoly(shake, seed, kappa + i, p)
  {
    hide MaskPoly;
    if i < n - 1 {
      MasksAt(shake, seed, kappa, n - 1, p, i);
    }
  }

  /** The expanded masks are the only ones. */
  lemma MasksAre(shake: Shake, seed: Bytes, kappa: nat, y: seq<Poly>, p: Params)
    requires shake.Valid() && IsParams(p) && kappa + p.l <= 65536
    ensures IsMask(shake, seed, kappa, y, p) <==> y == ExpandMask(shake, seed, kappa, p)
  {
    hide BitPack, BitUnpack, BitLength, Masks, Within;
    MaskWidth(p);
    ResponseBits(p);
    var e := ExpandMask(shake, seed, kappa, p);
    forall i | 0 <= i < p.l && |y| == p.l
      ensures y[i] == e[i] <==>
        Within(y[i], p.g1) &&
        BitPack(y[i], p.g1 - 1, p.g1) == shake.shake256(seed + [(kappa + i) % 256, (kappa + i) / 256], MaskBytes(p))
    {
      MasksAt(shake, seed, kappa, p.l, p, i);
      MaskIs(shake.shake256(seed + [(kappa + i) % 256, (kappa + i) / 256], MaskBytes(p)), y[i], p);
    }
  }

  /** One attempt with the masks y: the commitment is the hash of the message's hash and the high parts of w = A y, the
      challenge c is drawn from it, z = y + c s1, and the hint marks where c t0 changes a high part of w - c s2. */
  ghost predicate IsTry(shake: Shake, a: Matrix, s: Secret, m: Bytes, y: seq<Poly>, p: Params, t: Attempt)
    requires shake.Valid() && IsParams(p) && IsMatrix(a, p) && |y| == p.l && |s.s1| == p.l && |s.s2| == |s.t0| == p.k
  {
    Shape(p);
    && IsAttempt(t, p)
    && t.ct == shake.shake256(m + W1Encode(HighBitsAll(t.w, p.g2), p.g2), p.lam / 4)
    && BallOf(shake.shake256(t.ct, 8192), p.tau) == Some(t.c)
    && (forall i, j :: 0 <= i < p.l && 0 <= j < 256 ==> t.z[i][j] == C(Q, y[i][j] + Product(t.c, s.s1[i])[j]))
    && forall r :: 0 <= r < p.k ==> IsTryRow(a[r], y, s.s2[r], s.t0[r], t.c, p, t.w[r], t.wm[r], t.ct0[r], t.h[r])
  }

  /** a y, for a row of the matrix. */
  function RowOf(a: seq<Poly>, y: seq<Poly>, l: nat): Poly
    requires l <= |a| && l <= |y|
  {
    seq(256, j requires 0 <= j < 256 => C(Q, RowProduct(a, y, l, j)))
  }

  /** u - c v. */
  function Less(u: Poly, c: Poly, v: Poly): Poly {
    seq(256, j requires 0 <= j < 256 => C(Q, u[j] - Product(c, v)[j]))
  }

  /** c v. */
  function Multiplied(c: Poly, v: Poly): Poly {
    seq(256, j requires 0 <= j < 256 => C(Q, Product(c, v)[j]))
  }

  /** Where adding e to u changes the high part. */
  function Changes(u: Poly, e: Poly, g2: int): Poly
    requires IsG2(g2)
  {
    seq(256, j requires 0 <= j < 256 => if HighBits(u[j] + e[j], g2) == HighBits(u[j], g2) then 0 else 1)
  }

  /** Row r of an attempt. */
  ghost predicate IsTryRow(a: seq<Poly>, y: seq<Poly>, s2: Poly, t0: Poly, c: Poly, p: Params, w: Poly, wm: Poly,
                           ct0: Poly, h: Poly)
    requires IsParams(p) && |a| == |y| == p.l
  {
    Shape(p);
    w == RowOf(a, y, p.l) && wm == Less(w, c, s2) && ct0 == Multiplied(c, t0) && h == Changes(wm, ct0, p.g2)
  }

  lemma HintMarks(w: int, c: int, g2: int)
    requires IsG2(g2)
    ensures MakeHint((Q - c) % Q, (w + c) % Q, g2) == if HighBits(w + c, g2) == HighBits(w, g2) then 0 else 1
  {
    hide HighBits, IsG2, C;
    ResidueIs(w + c);
    ResidueIs(Q - c);
    CIdem(Q, w + c);
    HighBitsMod(C(Q, w + c), w + c, g2);
    NegatedSum(C(Q, w + c), w, c);
    HighBitsMod(C(Q, w + c) + C(Q, Q - c), w, g2);
  }

  lemma ResidueIs(x: int)
    ensures C(Q, x) == x % Q
  {}

  /** The products of the challenge with a vector. */
  lemma MulAllIsRing(c: Poly, v: seq<Poly>, i: nat)
    requires i < |v|
    ensures MulAll(NttOf(DSA, c), NttAll(v))[i] == Multiplied(c, v[i])
  {
    hide C, NttOf, InttOf, Product, Pmul;
    RingIsomorphism(c, v[i]);
  }

  /** What every attempt with this secret and message hash shares. */
  function SignerWith(a: Matrix, s: Secret, m: Bytes, seed: Bytes): Signer {
    Signer(a, NttAll(s.s1), NttAll(s.s2), NttAll(s.t0), m, seed)
  }

  lemma WIsRing(a: Matrix, y: seq<Poly>, p: Params, r: nat)
    requires IsMatrix(a, p) && |y| == p.l && r < p.k
    ensures WOf(a, NttAll(y), p)[r] == RowOf(a[r], y, p.l)
  {
    hide C, NttOf, InttOf, Product, Row, RowProduct, NttAll;
    RowIsRing(a[r], y, p.l);
  }

  lemma HintIs(ct0: Poly, wm: Poly, g2: int)
    requires IsG2(g2)
    ensures HintPoly(ct0, wm, g2) == Changes(wm, ct0, g2)
  {
    hide HighBits, MakeHint, IsG2;
    forall j | 0 <= j < 256
      ensures HintPoly(ct0, wm, g2)[j] == Changes(wm, ct0, g2)[j]
    {
      HintMarks(wm[j], ct0[j], g2);
    }
  }

  lemma DifferenceIs(w: Poly, c: Poly, v: Poly)
    ensures Psub(w, Multiplied(c, v)) == Less(w, c, v)
  {
    hide C, Product;
    forall j | 0 <= j < 256
      ensures Psub(w, Multiplied(c, v))[j] == Less(w, c, v)[j]
    {
      CSub(Q, w[j], Product(c, v)[j]);
    }
  }

  /** The entries of one row are determined. */
  lemma RowIsTry(a: Matrix, s: Secret, y: seq<Poly>, p: Params, c: Poly, r: nat, w: Poly, wm: Poly, ct0: Poly, h: Poly)
    requires IsParams(p) && IsMatrix(a, p) && |y| == p.l && |s.s2| == |s.t0| == p.k && r < p.k
    ensures IsG2(p.g2)
    ensures var ch := NttOf(DSA, c);
      IsTryRow(a[r], y, s.s2[r], s.t0[r], c, p, w, wm, ct0, h) <==>
        && w == WOf(a, NttAll(y), p)[r] && wm == Psub(w, MulAll(ch, NttAll(s.s2))[r])
        && ct0 == MulAll(ch, NttAll(s.t0))[r] && h == HintPoly(ct0, wm, p.g2)
  {
    Shape(p);
    WIsRing(a, y, p, r);
    MulAllIsRing(c, s.s2, r);
    MulAllIsRing(c, s.t0, r);
    HintIs(ct0, wm, p.g2);
    hide *;
    DifferenceIs(w, c, s.s2[r]);
    TryRowIs(a[r], y, s.s2[r], s.t0[r], c, p, w, wm, ct0, h);
  }

  lemma TryRowIs(a: seq<Poly>, y: seq<Poly>, s2: Poly, t0: Poly, c: Poly, p: Params, w: Poly, wm: Poly, ct0: Poly,
                 h: Poly)
    requires IsParams(p) && |a| == |y| == p.l
    ensures IsG2(p.g2)
    ensures IsTryRow(a, y, s2, t0, c, p, w, wm, ct0, h) <==>
      w == RowOf(a, y, p.l) && wm == Less(w, c, s2) && ct0 == Multiplied(c, t0) && h == Changes(wm, ct0, p.g2)
  {
    Shape(p);
    hide RowOf, Less, Multiplied, Changes;
  }

  lemma ResponseIs(c: Poly, s1: seq<Poly>, y: seq<Poly>, i: nat)
    requires i < |s1| == |y|
    ensures forall j :: 0 <= j < 256 ==>
      PaddAll(y, MulAll(NttOf(DSA, c), NttAll(s1)))[i][j] == C(Q, y[i][j] + Product(c, s1[i])[j])
  {
    MulAllIsRing(c, s1, i);
    hide C, NttOf, InttOf, Product, MulAll, NttAll;
    var u := Multiplied(c, s1[i]);
    forall j | 0 <= j < 256
      ensures PaddAll(y, MulAll(NttOf(DSA, c), NttAll(s1)))[i][j] == C(Q, y[i][j] + Product(c, s1[i])[j])
    {
      CAdd(Q, y[i][j], Product(c, s1[i])[j]);
    }
  }

  /** The attempt that the code makes is the only one, if the challenge can be drawn. */
  lemma AttemptIs(shake: Shake, a: Matrix, s: Secret, m: Bytes, seed: Bytes, y: seq<Poly>, p: Params, t: Attempt)
    requires shake.Valid() && IsParams(p) && IsMatrix(a, p) && |y| == p.l && |s.s1| == p.l && |s.s2| == |s.t0| == p.k
    ensures AttemptOf(shake, SignerWith(a, s, m, seed), y, p) == Some(t) <==> IsTry(shake, a, s, m, y, p, t)
  {
    Shape(p);
    SomeAttempt(shake, a, s, m, seed, y, p, t);
    TryUnfolds(shake, a, s, m, y, p, t);
    hide *;
    if IsAttempt(t, p) {
      AttemptShape(t, p);
      RowsAreTry(a, s, y, p, t);
      ResponsesAre(s, y, p, t);
    }
  }

  lemma AttemptShape(t: Attempt, p: Params)
    requires IsAttempt(t, p)
    ensures |t.w| == |t.wm| == |t.ct0| == |t.h| == p.k && |t.z| == p.l
  {}

  ghost predicate AreResponses(s: Secret, y: seq<Poly>, p: Params, t: Attempt)
    requires |t.z| == |s.s1| == |y| == p.l
  {
    forall i, j :: 0 <= i < p.l && 0 <= j < 256 ==> t.z[i][j] == C(Q, y[i][j] + Product(t.c, s.s1[i])[j])
  }

  ghost predicate AreRows(a: Matrix, s: Secret, y: seq<Poly>, p: Params, t: Attempt)
    requires IsParams(p) && IsMatrix(a, p) && |y| == p.l && |s.s2| == |s.t0| == p.k
    requires |t.w| == |t.wm| == |t.ct0| == |t.h| == p.k
  {
    forall r :: 0 <= r < p.k ==> IsTryRow(a[r], y, s.s2[r], s.t0[r], t.c, p, t.w[r], t.wm[r], t.ct0[r], t.h[r])
  }

  lemma TryUnfolds(shake: Shake, a: Matrix, s: Secret, m: Bytes, y: seq<Poly>, p: Params, t: Attempt)
    requires shake.Valid() && IsParams(p) && IsMatrix(a, p) && |y| == p.l && |s.s1| == p.l && |s.s2| == |s.t0| == p.k
    requires IsG2(p.g2) && p.tau <= 64
    ensures IsAttempt(t, p) ==> |t.w| == |t.wm| == |t.ct0| == |t.h| == p.k && |t.z| == p.l
    ensures IsTry(shake, a, s, m, y, p, t) <==>
      && IsAttempt(t, p) && t.ct == shake.shake256(m + W1Encode(HighBitsAll(t.w, p.g2), p.g2), p.lam / 4)
      && BallOf(shake.shake256(t.ct, 8192), p.tau) == Some(t.c) && AreResponses(s, y, p, t) && AreRows(a, s, y, p, t)
  {
    hide IsParams, BallOf, W1Encode, HighBitsAll, Product, IsTryRow, C, IsMatrix;
  }

  lemma ResponsesAre(s: Secret, y: seq<Poly>, p: Params, t: Attempt)
    requires |t.z| == |s.s1| == |y| == p.l
    ensures AreResponses(s, y, p, t) <==> t.z == PaddAll(y, MulAll(NttOf(DSA, t.c), NttAll(s.s1)))
  {
    hide C, NttOf, NttAll, MulAll, PaddAll, Product;
    var z := PaddAll(y, MulAll(NttOf(DSA, t.c), NttAll(s.s1)));
    forall i | 0 <= i < p.l
      ensures forall j :: 0 <= j < 256 ==> z[i][j] == C(Q, y[i][j] + Product(t.c, s.s1[i])[j])
    {
      ResponseIs(t.c, s.s1, y, i);
    }
    if AreResponses(s, y, p, t) {
      forall i | 0 <= i < p.l
        ensures t.z[i] == z[i]
      {
        assert forall j :: 0 <= j < 256 ==> t.z[i][j] == z[i][j];
      }
    }
  }

  lemma RowsAreTry(a: Matrix, s: Secret, y: seq<Poly>, p: Params, t: Attempt)
    requires IsParams(p) && IsMatrix(a, p) && |y| == p.l && |s.s2| == |s.t0| == p.k && IsG2(p.g2)
    requires |t.w| == |t.wm| == |t.ct0| == |t.h| == p.k
    ensures AreRows(a, s, y, p, t) <==>
      && t.w == WOf(a, NttAll(y), p) && t.wm == PsubAll(t.w, MulAll(NttOf(DSA, t.c), NttAll(s.s2)))
      && t.ct0 == MulAll(NttOf(DSA, t.c), NttAll(s.t0)) && t.h == HintAll(t.ct0, t.wm, p.g2)
  {
    hide IsParams, NttOf, NttAll, WOf, MulAll, Psub, HintPoly, IsTryRow, IsG2;
    var ch := NttOf(DSA, t.c);
    forall r | 0 <= r < p.k
      ensures IsTryRow(a[r], y, s.s2[r], s.t0[r], t.c, p, t.w[r], t.wm[r], t.ct0[r], t.h[r]) <==>
        && t.w[r] == WOf(a, NttAll(y), p)[r] && t.wm[r] == PsubAll(t.w, MulAll(ch, NttAll(s.s2)))[r]
        && t.ct0[r] == MulAll(ch, NttAll(s.t0))[r] && t.h[r] == HintAll(t.ct0, t.wm, p.g2)[r]
    {
      RowIsTry(a, s, y, p, t.c, r, t.w[r], t.wm[r], t.ct0[r], t.h[r]);
    }
  }

  /** The equations of an attempt. */
  lemma SomeAttempt(shake: Shake, a: Matrix, s: Secret, m: Bytes, seed: Bytes, y: seq<Poly>, p: Params, t: Attempt)
    requires shake.Valid() && IsParams(p) && IsMatrix(a, p) && |y| == p.l && |s.s1| == p.l && |s.s2| == |s.t0| == p.k
    requires IsG2(p.g2) && p.tau <= 64
    ensures var ch := NttOf(DSA, t.c);
      AttemptOf(shake, SignerWith(a, s, m, seed), y, p) == Some(t) <==>
        && IsAttempt(t, p) && t.w == WOf(a, NttAll(y), p)
        && t.ct == shake.shake256(m + W1Encode(HighBitsAll(t.w, p.g2), p.g2), p.lam / 4)
        && BallOf(shake.shake256(t.ct, 8192), p.tau) == Some(t.c)
        && t.z == PaddAll(y, MulAll(ch, NttAll(s.s1)))
        && t.wm == PsubAll(t.w, MulAll(ch, NttAll(s.s2))) && t.ct0 == MulAll(ch, NttAll(s.t0))
        && t.h == HintAll(t.ct0, t.wm, p.g2)
  {
    hide IsParams, BallOf, W1Encode, HighBitsAll, NttOf, NttAll, WOf, MulAll, PaddAll, PsubAll, HintAll;
  }

  // ---------- the first attempt that passes ----------

  /** The four tests. */
  ghost predicate IsGood(t: Attempt, p: Params)
    requires IsParams(p) && IsAttempt(t, p)
  {
    Shape(p);
    && MlDsaVerdict.Below(CentredAll(t.z), p.g1 - p.Beta()) && MlDsaVerdict.Below(CentredAll(t.ct0), p.g2)
    && |AllOnes(t.h, p.k)| <= p.omega
    && forall r, j :: 0 <= r < p.k && 0 <= j < 256 ==>
      -(p.g2 - p.Beta()) < LowBits(t.wm[r][j], p.g2) < p.g2 - p.Beta()
  }

  lemma PassesMeans(t: Attempt, p: Params)
    requires IsParams(p) && IsAttempt(t, p)
    ensures Passes(t, p) <==> IsGood(t, p)
  {
    Shape(p);
    MaxAbsBelow(CentredAll(t.z), p.g1 - p.Beta());
    MaxAbsBelow(CentredAll(t.ct0), p.g2);
    MaxAbsBelow(LowBitsAll(t.wm, p.g2), p.g2 - p.Beta());
    SumAllIsCount(t.h, p.k);
    hide IsParams, CentredAll, LowBits, AllOnes, SumAll, MaxAbs;
    var low := LowBitsAll(t.wm, p.g2);
    assert forall r, j :: 0 <= r < p.k && 0 <= j < 256 ==> low[r][j] == LowBits(t.wm[r][j], p.g2);
  }

  /** Attempt i is made, and these are its values. */
  ghost predicate IsTryAt(shake: Shake, a: Matrix, s: Secret, m: Bytes, seed: Bytes, i: nat, p: Params, y: seq<Poly>,
                          t: Attempt)
    requires shake.Valid() && IsParams(p) && IsMatrix(a, p) && |s.s1| == p.l && |s.s2| == |s.t0| == p.k
  {
    IsMask(shake, seed, i * p.l, y, p) && IsTry(shake, a, s, m, y, p, t)
  }

  /** The counter of attempt i. */
  function Kappa(i: nat, p: Params): nat {
    i * p.l
  }

  /** Attempt i, None when its counter does not fit in two bytes or its challenge cannot be drawn. */
  function Made(shake: Shake, x: Signer, i: nat, p: Params): (t: Option<Attempt>)
    requires shake.Valid() && IsParams(p) && IsSigner(x, p)
    ensures t.Some? ==> IsAttempt(t.value, p)
  {
    if Kappa(i, p) + p.l > 65536 then None else AttemptOf(shake, x, ExpandMask(shake, x.rhopp, Kappa(i, p), p), p)
  }

  lemma MadeIs(shake: Shake, a: Matrix, s: Secret, m: Bytes, seed: Bytes, i: nat, p: Params, t: Attempt)
    requires shake.Valid() && IsParams(p) && IsMatrix(a, p) && |s.s1| == p.l && |s.s2| == |s.t0| == p.k
    ensures IsSigner(SignerWith(a, s, m, seed), p)
    ensures Made(shake, SignerWith(a, s, m, seed), i, p) == Some(t) <==>
      exists y :: IsTryAt(shake, a, s, m, seed, i, p, y, t)
  {
    hide IsTry, AttemptOf, ExpandMask, IsParams, IsMatrix, NttAll, Within, BitPack;
    if i * p.l + p.l > 65536 { return; }
    var e := ExpandMask(shake, seed, i * p.l, p);
    MasksAre(shake, seed, i * p.l, e, p);
    AttemptIs(shake, a, s, m, seed, e, p, t);
    forall y | IsTryAt(shake, a, s, m, seed, i, p, y, t)
      ensures y == e
    {
      MasksAre(shake, seed, i * p.l, y, p);
    }
    if Made(shake, SignerWith(a, s, m, seed), i, p) == Some(t) {
      assert IsTryAt(shake, a, s, m, seed, i, p, e, t);
    }
  }

  /** Attempt n is the first that passes: those from i on before it are made and fail, and it is made and passes. */
  predicate FirstMade(shake: Shake, x: Signer, i: nat, n: nat, p: Params)
    requires shake.Valid() && IsParams(p) && IsSigner(x, p)
  {
    && (forall u :: i <= u < n ==> Made(shake, x, u, p).Some? && !Passes(Made(shake, x, u, p).value, p))
    && Made(shake, x, n, p).Some? && Passes(Made(shake, x, n, p).value, p)
  }

  function SignatureOf(shake: Shake, x: Signer, n: nat, p: Params): Option<Bytes>
    requires shake.Valid() && IsParams(p) && IsSigner(x, p)
  {
    var t := Made(shake, x, n, p);
    if t.Some? && Passes(t.value, p) then Some(Encoded(t.value, p)) else None
  }

  lemma NextKappa(i: nat, p: Params)
    ensures Kappa(i + 1, p) == Kappa(i, p) + p.l
  {}

  /** One step of the search. */
  lemma SearchStep(shake: Shake, x: Signer, i: nat, p: Params)
    requires shake.Valid() && IsParams(p) && IsSigner(x, p)
    ensures var t := Made(shake, x, i, p);
      SignFrom(shake, x, Kappa(i, p), p) ==
        if t.None? then None
        else if Passes(t.value, p) then SignatureOf(shake, x, i, p)
        else SignFrom(shake, x, Kappa(i + 1, p), p)
    ensures Made(shake, x, i, p).Some? ==> Kappa(i + 1, p) > Kappa(i, p) && Kappa(i, p) < 65536
  {
    Shape(p);
    NextKappa(i, p);
    hide IsParams, AttemptOf, ExpandMask, Passes, Encoded, Kappa;
  }

  lemma {:induction false} SearchFinds(shake: Shake, x: Signer, i: nat, p: Params) returns (n: nat)
    requires shake.Valid() && IsParams(p) && IsSigner(x, p) && SignFrom(shake, x, Kappa(i, p), p).Some?
    ensures i <= n && FirstMade(shake, x, i, n, p)
    ensures SignFrom(shake, x, Kappa(i, p), p) == SignatureOf(shake, x, n, p)
    decreases 65536 - Kappa(i, p)
  {
    hide SignFrom, IsParams, Made, Passes, SignatureOf, Kappa;
    SearchStep(shake, x, i, p);
    if Passes(Made(shake, x, i, p).value, p) {
      n := i;
    } else {
      n := SearchFinds(shake, x, i + 1, p);
    }
  }

  lemma {:induction false} SearchReaches(shake: Shake, x: Signer, i: nat, n: nat, p: Params)
    requires shake.Valid() && IsParams(p) && IsSigner(x, p) && i <= n && FirstMade(shake, x, i, n, p)
    ensures SignFrom(shake, x, Kappa(i, p), p) == SignatureOf(shake, x, n, p)
    decreases n - i
  {
    hide SignFrom, IsParams, Made, Passes, SignatureOf, Kappa;
    SearchStep(shake, x, i, p);
    if i < n {
      SearchReaches(shake, x, i + 1, n, p);
    }
  }

  /** What the values y and t of attempt i are, and whether they pass. */
  ghost predicate IsPassing(shake: Shake, a: Matrix, s: Secret, m: Bytes, seed: Bytes, i: nat, p: Params, good: bool,
                            y: seq<Poly>, t: Attempt)
    requires shake.Valid() && IsParams(p) && IsMatrix(a, p) && |s.s1| == p.l && |s.s2| == |s.t0| == p.k
  {
    IsTryAt(shake, a, s, m, seed, i, p, y, t) && IsGood(t, p) == good
  }

  /** Attempt i is made and fails. */
  ghost predicate Fails(shake: Shake, a: Matrix, s: Secret, m: Bytes, seed: Bytes, i: nat, p: Params)
    requires shake.Valid() && IsParams(p) && IsMatrix(a, p) && |s.s1| == p.l && |s.s2| == |s.t0| == p.k
  {
    exists y, t :: IsPassing(shake, a, s, m, seed, i, p, false, y, t)
  }

  /** The bytes of a good attempt. */
  function Signature(t: Attempt, p: Params): Bytes
    requires IsParams(p) && IsAttempt(t, p) && |AllOnes(t.h, p.k)| <= p.omega
  {
    Shape(p);
    SigEncode(t.ct, t.z, t.h, p)
  }

  /** sig is the signature of attempt n, and all before it are made and fail. */
  ghost predicate IsFirst(shake: Shake, a: Matrix, s: Secret, m: Bytes, seed: Bytes, p: Params, n: nat, y: seq<Poly>,
                          t: Attempt, sig: Bytes)
    requires shake.Valid() && IsParams(p) && IsMatrix(a, p) && |s.s1| == p.l && |s.s2| == |s.t0| == p.k
  {
    && (forall i :: 0 <= i < n ==> Fails(shake, a, s, m, seed, i, p))
    && IsPassing(shake, a, s, m, seed, n, p, true, y, t) && IsGood(t, p) && sig == Signature(t, p)
  }

  lemma MadePasses(shake: Shake, a: Matrix, s: Secret, m: Bytes, seed: Bytes, i: nat, p: Params, good: bool)
    requires shake.Valid() && IsParams(p) && IsMatrix(a, p) && |s.s1| == p.l && |s.s2| == |s.t0| == p.k
    ensures IsSigner(SignerWith(a, s, m, seed), p)
    ensures var o := Made(shake, SignerWith(a, s, m, seed), i, p);
      && (forall y, t :: IsPassing(shake, a, s, m, seed, i, p, good, y, t) ==> o == Some(t) && Passes(t, p) == good)
      && (o.Some? && Passes(o.value, p) == good ==>
            exists y :: IsPassing(shake, a, s, m, seed, i, p, good, y, o.value))
  {
    hide IsTryAt, Made, IsParams, IsMatrix, Passes, IsGood, NttAll;
    var o := Made(shake, SignerWith(a, s, m, seed), i, p);
    forall y, t | IsPassing(shake, a, s, m, seed, i, p, good, y, t)
      ensures o == Some(t) && Passes(t, p) == good
    {
      MadeIs(shake, a, s, m, seed, i, p, t);
      PassesMeans(t, p);
    }
    if o.Some? && Passes(o.value, p) == good {
      MadeIs(shake, a, s, m, seed, i, p, o.value);
      PassesMeans(o.value, p);
      var y :| IsTryAt(shake, a, s, m, seed, i, p, y, o.value);
      assert IsPassing(shake, a, s, m, seed, i, p, good, y, o.value);
    }
  }

  lemma PassingIsGood(shake: Shake, a: Matrix, s: Secret, m: Bytes, seed: Bytes, i: nat, p: Params, y: seq<Poly>,
                      t: Attempt)
    requires shake.Valid() && IsParams(p) && IsMatrix(a, p) && |s.s1| == p.l && |s.s2| == |s.t0| == p.k
    requires IsPassing(shake, a, s, m, seed, i, p, true, y, t)
    ensures IsAttempt(t, p) && IsGood(t, p) && Passes(t, p) && Encoded(t, p) == Signature(t, p)
  {
    PassesMeans(t, p);
    hide IsGood, Passes, IsParams, SigEncode;
  }

  /** sig is the signature of the first attempt that passes. */
  ghost predicate Yields(shake: Shake, a: Matrix, s: Secret, m: Bytes, seed: Bytes, p: Params, sig: Bytes)
    requires shake.Valid() && IsParams(p) && IsMatrix(a, p) && |s.s1| == p.l && |s.s2| == |s.t0| == p.k
  {
    exists n: nat, y, t :: IsFirst(shake, a, s, m, seed, p, n, y, t, sig)
  }

  /** The search from the first attempt on yields sig if and only if sig is the signature of the first attempt that
      passes. */
  lemma SearchIsFirst(shake: Shake, a: Matrix, s: Secret, m: Bytes, seed: Bytes, p: Params, sig: Bytes)
    requires shake.Valid() && IsParams(p) && IsMatrix(a, p) && |s.s1| == p.l && |s.s2| == |s.t0| == p.k
    ensures IsSigner(SignerWith(a, s, m, seed), p)
    ensures SignFrom(shake, SignerWith(a, s, m, seed), 0, p) == Some(sig) <==> Yields(shake, a, s, m, seed, p, sig)
  {
    hide IsPassing, Made, IsParams, IsMatrix, Passes, NttAll, SignFrom, SigEncode;
    var x := SignerWith(a, s, m, seed);
    MadePasses(shake, a, s, m, seed, 0, p, true);
    assert 0 * p.l == 0;
    if SignFrom(shake, x, 0, p) == Some(sig) {
      var n := SearchFinds(shake, x, 0, p);
      MadePasses(shake, a, s, m, seed, n, p, true);
      forall i | 0 <= i < n
        ensures Fails(shake, a, s, m, seed, i, p)
      {
        MadePasses(shake, a, s, m, seed, i, p, false);
      }
      var t := Made(shake, x, n, p).value;
      var y :| IsPassing(shake, a, s, m, seed, n, p, true, y, t);
      PassingIsGood(shake, a, s, m, seed, n, p, y, t);
      assert IsFirst(shake, a, s, m, seed, p, n, y, t, sig);
    }
    forall n: nat, y, t | IsFirst(shake, a, s, m, seed, p, n, y, t, sig)
      ensures SignFrom(shake, x, 0, p) == Some(sig)
    {
      MadePasses(shake, a, s, m, seed, n, p, true);
      PassingIsGood(shake, a, s, m, seed, n, p, y, t);
      forall i | 0 <= i < n
        ensures Made(shake, x, i, p).Some? && !Passes(Made(shake, x, i, p).value, p)
      {
        MadePasses(shake, a, s, m, seed, i, p, false);
        assert Fails(shake, a, s, m, seed, i, p);
      }
      SearchReaches(shake, x, 0, n, p);
    }
  }

  /** Signing: with the matrix and the secrets of the key, the message's hash, and the seed of the masks, sig is
      returned if and only if it is the signature of the first attempt that passes the four tests. */
  lemma SignIsFirst(shake: Shake, sk: Bytes, msg: Bytes, rnd: Bytes, p: Params, mu: Option<Bytes>, sig: Bytes)
    requires shake.Valid() && IsParams(p) && |sk| >= SkLen(p)
    ensures var s := SkDecode(sk, p);
      var m := if mu.Some? then mu.value else shake.shake256(s.tr + msg, 64);
      SignOf(shake, sk, msg, rnd, p, mu) == Some(sig) <==>
        exists a :: IsMatrixOf(shake, s.rho, a, p)
          && Yields(shake, a, s, m, shake.shake256(s.key + rnd + m, 64), p, sig)
  {
    hide Yields, RejNttOf, IsParams, SkDecode, SignFrom, SkLen, NttAll, ExpandA;
    Shape(p);
    var s := SkDecode(sk, p);
    var m := if mu.Some? then mu.value else shake.shake256(s.tr + msg, 64);
    var seed := shake.shake256(s.key + rnd + m, 64);
    var e := ExpandA(shake, s.rho, p);
    if e.Some? {
      MatrixIs(shake, s.rho, p);
      SearchIsFirst(shake, e.value, s, m, seed, p, sig);
      assert SignOf(shake, sk, msg, rnd, p, mu) == SignFrom(shake, SignerWith(e.value, s, m, seed), 0, p);
      assert SignOf(shake, sk, msg, rnd, p, mu) == Some(sig) ==>
        IsMatrixOf(shake, s.rho, e.value, p) && Yields(shake, e.value, s, m, seed, p, sig);
    }
    forall a | IsMatrixOf(shake, s.rho, a, p) && Yields(shake, a, s, m, seed, p, sig)
      ensures SignOf(shake, sk, msg, rnd, p, mu) == Some(sig)
    {
      MatrixOnly(shake, s.rho, a, p);
    }
  }

  lemma MatrixOnly(shake: Shake, rho: Bytes, a: Matrix, p: Params)
    requires IsParams(p) && IsMatrixOf(shake, rho, a, p)
    ensures ExpandA(shake, rho, p) == Some(a)
  {
    hide RejNttOf, IsParams;
    forall r, s | 0 <= r < p.k && 0 <= s < p.l
      ensures MatrixEntry(shake, rho, r, s) == Some(a[r][s])
    {}
    assert ExpandA(shake, rho, p).Some?;
    var e := ExpandA(shake, rho, p).value;
    forall r | 0 <= r < p.k
      ensures e[r] == a[r]
    {
      assert forall s :: 0 <= s < p.l ==> e[r][s] == a[r][s];
    }
    assert e == a;
  }
}
