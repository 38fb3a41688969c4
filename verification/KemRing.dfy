/** What key generation and encryption of scripts/mlkem/mlkem_ref.py compute in Z_q[x]/(x^256 + 1), from which streams,
    and the numbers that the keys and the ciphertext spell (FIPS 203, sections 5.1 and 5.2). */
module KemRing {
  import opened Arithmetic
  import opened Modular
  import opened Options
  import opened Butterflies
  import opened NttRing
  import opened MlKemNtt
  import opened MlKemAlgebra
  import opened BitFields
  import opened Concatenation
  import opened Numerals
  import opened MlKemCodec
  import opened MlKem
  import opened Decapsulation

  // ---------- sums in the ring ----------

  function Inverses(v: seq<Poly>): (r: seq<Poly>)
    ensures |r| == |v|
  {
    seq(|v|, i requires 0 <= i < |v| => InttOf(KEM, v[i]))
  }

  ghost predicate AllReduced(v: seq<Poly>) {
    forall i :: 0 <= i < |v| ==> IsReduced(v[i])
  }

  lemma InverseTransform(f: Poly)
    requires IsReduced(f)
    ensures NttOf(KEM, InttOf(KEM, f)) == f
  {
    KemValid();
    hide C, InttOf, NttOf, Pow, Pow2;
    var g := NttOf(KEM, InttOf(KEM, f));
    NttIntt(KEM, f);
    NttRange(KEM, InttOf(KEM, f));
    forall j | 0 <= j < 256
      ensures g[j] == f[j]
    {
      CRange(Q, g[j]);
      CRange(Q, f[j]);
    }
  }

  /** A sum of products with given transforms, in the ring. */
  lemma DotInRing(a: seq<Poly>, y: seq<Poly>, n: nat)
    requires n <= |a| && n <= |y| && AllReduced(a)
    ensures forall j :: 0 <= j < 256 ==>
      InttOf(KEM, Dot(a, NttAll(y), n))[j] == C(Q, RingSum(Inverses(a), y, n)[j])
  {
    hide InttOf, NttOf, Dot, RingSum, C;
    forall i | 0 <= i < |a|
      ensures NttAll(Inverses(a))[i] == a[i]
    {
      InverseTransform(a[i]);
    }
    assert NttAll(Inverses(a)) == a;
    DotIsRingSum(Inverses(a), y, n);
  }

  /** Coefficient by coefficient, f is b_1 y_1 + ... + b_k y_k + e, where a holds the transforms of b. */
  ghost predicate IsSum(f: Poly, a: seq<Poly>, y: seq<Poly>, e: Poly)
    requires |a| == |y|
  {
    forall j :: 0 <= j < 256 ==> C(Q, f[j]) == C(Q, RingSum(Inverses(a), y, |a|)[j] + e[j])
  }

  lemma AddAt(f: Poly, g: Poly, j: nat)
    requires j < 256
    ensures Add(f, g)[j] == C(Q, f[j] + g[j])
  {}

  lemma SumEntry(x: int, e: int, s: int, u: int)
    requires x == C(Q, s) && C(Q, e) == C(Q, u)
    ensures C(Q, C(Q, x + e)) == C(Q, s + u) && C(Q, C(Q, e + 1 * x)) == C(Q, s + u)
  {
    hide C;
    CIdem(Q, s);
    CEqAdd(Q, x, s, e, u);
    CIdem(Q, x + e);
  }

  /** The inverse transform of an entry of t is A s + e. */
  lemma KeyRow(a: seq<Poly>, s: seq<Poly>, e: Poly)
    requires |a| == |s| && AllReduced(a)
    ensures IsSum(InttOf(KEM, DotFrom(NttOf(KEM, e), a, NttAll(s), |a|)), a, s, e)
  {
    hide C, InttOf, NttOf, Pow, Pow2, Dot, DotFrom, RingSum, Add, AllReduced, NttAll;
    KemValid();
    var eh, d, k := NttOf(KEM, e), Dot(a, NttAll(s), |a|), |a|;
    NttRange(KEM, e);
    DotFromIsSum(eh, a, NttAll(s), k);
    DotInRing(a, s, k);
    AddCombines(eh, d);
    InttLinear(KEM, Add(eh, d), eh, 1, d);
    InttNtt(KEM, e);
    var sum := RingSum(Inverses(a), s, k);
    forall j | 0 <= j < 256
      ensures C(Q, InttOf(KEM, Add(eh, d))[j]) == C(Q, sum[j] + e[j])
    {
      CIdem(Q, e[j]);
      SumEntry(InttOf(KEM, d)[j], InttOf(KEM, eh)[j], sum[j], e[j]);
    }
  }

  /** An entry of u or v is a sum in the ring plus an error. */
  lemma SentRow(a: seq<Poly>, y: seq<Poly>, e: Poly)
    requires |a| == |y| && AllReduced(a)
    ensures IsSum(Add(InttOf(KEM, Dot(a, NttAll(y), |a|)), e), a, y, e)
  {
    hide C, InttOf, NttOf, Dot, RingSum, Add, AllReduced, NttAll;
    DotInRing(a, y, |a|);
    var x, sum := InttOf(KEM, Dot(a, NttAll(y), |a|)), RingSum(Inverses(a), y, |a|);
    forall j | 0 <= j < 256
      ensures C(Q, Add(x, e)[j]) == C(Q, sum[j] + e[j])
    {
      AddAt(x, e, j);
      SumEntry(x[j], e[j], sum[j], e[j]);
    }
  }

  // ---------- the streams ----------

  /** The stream of entry (i, j) of the matrix is that of the seed followed by j and i. */
  ghost predicate IsMatrixOf(h: Hashes, rho: Bytes, a: Matrix, k: nat) {
    && IsMatrix(a, k) && k <= 256
    && forall i, j :: 0 <= i < k && 0 <= j < k ==>
      SampleNttOf(h.shake.shake128(rho + [j, i], 2520)) == Some(a[i][j])
  }

  /** Entry i is sampled from the stream of the seed followed by first + i. */
  ghost predicate IsNoise(h: Hashes, seed: Bytes, first: nat, v: seq<Poly>, eta: nat)
    requires h.Valid()
  {
    && first + |v| <= 256
    && forall i :: 0 <= i < |v| ==> v[i] == SampleCbdOf(h.shake.shake256(seed + [first + i], 64 * eta), eta)
  }

  lemma MatrixIs(h: Hashes, rho: Bytes, k: nat)
    requires k <= 256
    ensures MatrixOf(h, rho, k).Some? ==> IsMatrixOf(h, rho, MatrixOf(h, rho, k).value, k)
    ensures forall a :: IsMatrixOf(h, rho, a, k) ==> MatrixOf(h, rho, k) == Some(a)
  {
    hide SampleNttOf;
    if MatrixOf(h, rho, k).Some? {
      var a := MatrixOf(h, rho, k).value;
      forall i, j | 0 <= i < k && 0 <= j < k
        ensures SampleNttOf(h.shake.shake128(rho + [j, i], 2520)) == Some(a[i][j])
      {
        assert MatrixEntry(h, rho, i, j).Some?;
      }
    }
    forall a | IsMatrixOf(h, rho, a, k)
      ensures MatrixOf(h, rho, k) == Some(a)
    {
      forall i, j | 0 <= i < k && 0 <= j < k
        ensures MatrixEntry(h, rho, i, j) == Some(a[i][j])
      {}
      assert MatrixOf(h, rho, k).Some?;
      var m := MatrixOf(h, rho, k).value;
      forall i | 0 <= i < k
        ensures m[i] == a[i]
      {
        assert forall j :: 0 <= j < k ==> m[i][j] == a[i][j];
      }
      assert m == a;
    }
  }

  lemma {:induction false} NoiseIs(h: Hashes, seed: Bytes, first: nat, count: nat, eta: nat)
    requires h.Valid() && first + count <= 256
    ensures IsNoise(h, seed, first, CbdVector(h, seed, first, count, eta), eta)
  {
    hide SampleCbdOf;
    if count > 0 {
      NoiseIs(h, seed, first, count - 1, eta);
    }
  }

  lemma EntriesReduced(h: Hashes, rho: Bytes, a: Matrix, k: nat)
    requires IsMatrixOf(h, rho, a, k)
    ensures forall i :: 0 <= i < k ==> AllReduced(a[i]) && AllReduced(Column(a, i, k))
  {
    forall i, j | 0 <= i < k && 0 <= j < k
      ensures IsReduced(a[i][j])
    {
      assert SampleNttOf(h.shake.shake128(rho + [j, i], 2520)) == Some(a[i][j]);
    }
    hide IsReduced, SampleNttOf;
  }

  // ---------- key generation ----------

  /** What the keys hold: t = A s + e, and the transforms of t and of s. */
  ghost predicate IsKey(h: Hashes, d: Bytes, p: Params, ek: Bytes, dk: Bytes, a: Matrix, s: seq<Poly>, e: seq<Poly>,
                        t: seq<Poly>)
    requires h.Valid() && IsParams(p)
  {
    var g := h.sha3.sha3_512(d + [p.k]);
    && IsMatrixOf(h, g[..32], a, p.k) && |s| == |e| == |t| == p.k
    && IsNoise(h, g[32..], 0, s, p.eta1) && IsNoise(h, g[32..], p.k, e, p.eta1)
    && (forall i :: 0 <= i < p.k ==> IsReduced(t[i]) && IsSum(InttOf(KEM, t[i]), a[i], s, e[i]))
    && ek == Join(EncodeAll(t, 12)) + g[..32] && dk == Join(EncodeAll(NttAll(s), 12))
  }

  lemma KeyIs(h: Hashes, d: Bytes, p: Params) returns (a: Matrix, s: seq<Poly>, e: seq<Poly>, t: seq<Poly>)
    requires h.Valid() && IsParams(p)
    ensures var r := PkeKeyGenOf(h, d, p); r.Some? ==> IsKey(h, d, p, r.value.0, r.value.1, a, s, e, t)
    ensures PkeKeyGenOf(h, d, p).Some? <==> exists b :: IsMatrixOf(h, h.sha3.sha3_512(d + [p.k])[..32], b, p.k)
  {
    hide MatrixOf, IsMatrixOf, CbdVector, NttOf, InttOf, DotFrom, IsSum, IsReduced, EncodeAll, Join;
    SmallParams(p);
    hide IsParams;
    var g := h.sha3.sha3_512(d + [p.k]);
    a, s, e, t := [], CbdVector(h, g[32..], 0, p.k, p.eta1), CbdVector(h, g[32..], p.k, p.k, p.eta1), [];
    MatrixIs(h, g[..32], p.k);
    if PkeKeyGenOf(h, d, p).Some? {
      a := MatrixOf(h, g[..32], p.k).value;
      t := TOf(a, NttAll(s), NttAll(e), p.k);
      NoiseIs(h, g[32..], 0, p.k, p.eta1);
      NoiseIs(h, g[32..], p.k, p.k, p.eta1);
      EntriesReduced(h, g[..32], a, p.k);
      TransformsReduced(e);
      MatrixReduced(a, NttAll(s), NttAll(e), p.k);
      forall i | 0 <= i < p.k
        ensures IsReduced(t[i]) && IsSum(InttOf(KEM, t[i]), a[i], s, e[i])
      {
        KeyRow(a[i], s, e[i]);
      }
    }
  }

  // ---------- encryption ----------

  /** Half of q, rounded up, for every bit of the message, plus the second error. */
  function MessageError(m: Bytes, e2: Poly): Poly
    requires |m| == 32
  {
    seq(256, j requires 0 <= j < 256 => e2[j] + if StreamBit(m, j) == 1 then 1665 else 0)
  }

  /** What a ciphertext holds: u = A^T y + e1 and v = t^T y + e2 + the message, compressed. */
  ghost predicate IsCiphertext(h: Hashes, ek: Bytes, m: Bytes, r: Bytes, p: Params, c: Bytes, a: Matrix, y: seq<Poly>,
                               e1: seq<Poly>, e2: Poly, u: seq<Poly>, v: Poly)
    requires h.Valid() && IsParams(p) && |m| == 32
  {
    var t := DecodeAll(ek, p.k, 12);
    && IsMatrixOf(h, Slice(ek, 384 * p.k, |ek|), a, p.k) && |y| == |e1| == |u| == p.k
    && IsNoise(h, r, 0, y, p.eta1) && IsNoise(h, r, p.k, e1, p.eta2) && IsNoise(h, r, 2 * p.k, [e2], p.eta2)
    && (forall i :: 0 <= i < p.k ==> IsSum(u[i], Column(a, i, p.k), y, e1[i]))
    && IsSum(v, t, y, MessageError(m, e2))
    && c == CiphertextOf(u, v, p)
  }

  lemma MessageIs(m: Bytes, j: nat)
    requires |m| == 32 && j < 256
    ensures MessagePoly(m)[j] == if StreamBit(m, j) == 1 then 1665 else 0
  {
    hide *;
    MessageAt(m, j);
    DecodedBit(m, j);
    BitsOfAt(m, j);
    StreamBitSmall(m, j);
    DecompressedBit(StreamBit(m, j));
  }

  lemma StreamBitSmall(m: Bytes, j: nat)
    requires j / 8 < |m|
    ensures StreamBit(m, j) < 2
  {}

  lemma MessageAt(m: Bytes, j: nat)
    requires j < 256
    ensures MessagePoly(m)[j] == Decompress(ByteDecode(m, 1)[j], 1)
  {
    hide ByteDecode, Decompress;
  }

  lemma DecompressedBit(b: nat)
    requires b < 2
    ensures Decompress(b, 1) == if b == 1 then 1665 else 0
  {
    assert Pow2(1) == 2 && Pow2(0) == 1;
  }

  lemma DecodedBit(m: Bytes, j: nat)
    requires |m| == 32 && j < 256
    ensures |BitsOf(m)| == 256 && ByteDecode(m, 1)[j] == BitsOf(m)[j]
  {
    hide BitsOf, ByteDecode, Residue, ReadFields;
    DecodedFields(m, 1);
    OneBitFields(BitsOf(m), 256, j);
    OneBit();
    ResidueOf(BitsOf(m)[j], 1);
  }

  lemma OneBit()
    ensures FieldModulus(1) == 2
  {
    assert Pow2(1) == 2;
  }

  lemma {:induction false} OneBitFields(s: Bits, n: nat, j: nat)
    requires |s| == n && AreBits(s) && j < n
    ensures ReadFields(s, 1, n)[j] == s[j]
  {
    FieldsLength(n, 1);
    if j > 0 {
      OneBitFields(s[1..], n - 1, j - 1);
    } else {
      assert s[..1] == [s[0]] && [s[0]][1..] == [];
      assert Value(s[..1]) == s[0] + 2 * Value([]);
    }
  }

  lemma SentMessage(f: Poly, t: seq<Poly>, y: seq<Poly>, e2: Poly, m: Bytes)
    requires |m| == 32 && |t| == |y| && AllReduced(t) && f == InttOf(KEM, Dot(t, NttAll(y), |t|))
    ensures IsSum(Add(Add(f, e2), MessagePoly(m)), t, y, MessageError(m, e2))
  {
    hide C, InttOf, NttOf, Dot, RingSum, MessagePoly, StreamBit, Add, AllReduced, NttAll;
    DotInRing(t, y, |t|);
    var mu, sum, u := MessagePoly(m), RingSum(Inverses(t), y, |t|), MessageError(m, e2);
    forall j | 0 <= j < 256
      ensures C(Q, Add(Add(f, e2), mu)[j]) == C(Q, sum[j] + u[j])
    {
      MessageIs(m, j);
      AddAt(f, e2, j);
      AddAt(Add(f, e2), mu, j);
      MessageEntry(f[j], e2[j], mu[j], sum[j]);
    }
  }

  lemma MessageEntry(x: int, e: int, mu: int, s: int)
    requires x == C(Q, s)
    ensures C(Q, C(Q, C(Q, x + e) + mu)) == C(Q, s + (e + mu))
  {
    hide C;
    CAdd(Q, x + e, mu);
    SumEntry(x, e + mu, s, e + mu);
  }

  lemma CiphertextIs(h: Hashes, ek: Bytes, m: Bytes, r: Bytes, p: Params)
    returns (a: Matrix, y: seq<Poly>, e1: seq<Poly>, e2: Poly, u: seq<Poly>, v: Poly)
    requires h.Valid() && IsParams(p) && |m| == 32
    ensures var c := PkeEncryptOf(h, ek, m, r, p);
      c.Some? ==> IsCiphertext(h, ek, m, r, p, c.value, a, y, e1, e2, u, v)
    ensures PkeEncryptOf(h, ek, m, r, p).Some? <==> exists b :: IsMatrixOf(h, Slice(ek, 384 * p.k, |ek|), b, p.k)
  {
    hide MatrixOf, IsMatrixOf, CbdVector, NttOf, InttOf, Dot, IsSum, IsReduced, ByteDecode, Slice, CiphertextOf;
    hide MessagePoly, Add;
    SmallParams(p);
    hide IsParams;
    var rho, t := Slice(ek, 384 * p.k, |ek|), DecodeAll(ek, p.k, 12);
    a, u, v := [], [], Zero();
    y, e1, e2 := CbdVector(h, r, 0, p.k, p.eta1), CbdVector(h, r, p.k, p.k, p.eta2), CbdPoly(h, r, 2 * p.k, p.eta2);
    MatrixIs(h, rho, p.k);
    if PkeEncryptOf(h, ek, m, r, p).Some? {
      a := MatrixOf(h, rho, p.k).value;
      u, v := UOf(a, NttAll(y), e1, p.k), VOf(t, NttAll(y), e2, MessagePoly(m), p.k);
      NoiseIs(h, r, 0, p.k, p.eta1);
      NoiseIs(h, r, p.k, p.k, p.eta2);
      EntriesReduced(h, rho, a, p.k);
      DecodedReduced(ek, p.k);
      SentMessage(InttOf(KEM, Dot(t, NttAll(y), p.k)), t, y, e2, m);
      forall i | 0 <= i < p.k
        ensures IsSum(u[i], Column(a, i, p.k), y, e1[i])
      {
        SentRow(Column(a, i, p.k), y, e1[i]);
      }
    }
  }

  lemma DecodedReduced(ek: Bytes, k: nat)
    ensures AllReduced(DecodeAll(ek, k, 12))
  {
    hide ByteDecode, Slice;
  }

  // ---------- the bytes ----------

  /** The encoding of reduced coefficients of d bits. */
  lemma EncodedNumber(f: Poly, d: nat)
    requires forall j :: 0 <= j < 256 ==> 0 <= f[j] < FieldModulus(d)
    ensures Number(ByteEncodeOf(f, d)) == Digits(f, Pow2(d))
  {
    ModulusFits(d);
    hide FieldModulus, Pow2, Number, Digits, Fields, BytesOf, Residue;
    forall j | 0 <= j < 256
      ensures ReducedFields(f, d)[j] == f[j]
    {
      ResidueOf(f[j], d);
    }
    assert ReducedFields(f, d) == f;
    PackedNumber(f, d);
  }

  /** Place i of joined encodings. */
  lemma JoinedNumber(v: seq<Poly>, post: Bytes, d: nat, i: nat)
    requires i < |v| && forall j :: 0 <= j < 256 ==> 0 <= v[i][j] < FieldModulus(d)
    ensures |Join(EncodeAll(v, d))| == 32 * d * |v|
    ensures Holds(Join(EncodeAll(v, d)) + post, 0, 32 * d, i, v[i], Pow2(d))
  {
    hide FieldModulus, Pow2, Number, Digits, ByteEncodeOf, Holds;
    var parts := EncodeAll(v, d);
    PartOfJoin([], parts, post, 32 * d, i);
    JoinLength(parts, 32 * d);
    assert [] + Join(parts) + post == Join(parts) + post;
    EncodedNumber(v[i], d);
    PartHolds(Join(parts) + post, 0, 32 * d, i, |v|, v[i], Pow2(d));
  }

  /** The public key spells the transforms of t in digits of twelve bits, and ends with the seed of the matrix. */
  lemma PublicKeyBytes(t: seq<Poly>, rho: Bytes, i: nat)
    requires i < |t| && forall i :: 0 <= i < |t| ==> IsReduced(t[i])
    ensures var ek := Join(EncodeAll(t, 12)) + rho;
      |ek| == 384 * |t| + |rho| && ek[384 * |t|..] == rho && Holds(ek, 0, 384, i, t[i], 4096)
  {
    assert Pow2(12) == 4096;
    assert IsReduced(t[i]);
    JoinedNumber(t, rho, 12, i);
  }

  /** A ciphertext spells the compressed coefficients in digits of du and of dv bits. */
  lemma CiphertextBytes(u: seq<Poly>, v: Poly, p: Params, i: nat)
    requires IsParams(p) && |u| == p.k && i < p.k
    ensures var c := CiphertextOf(u, v, p);
      && |c| == 32 * p.du * p.k + 32 * p.dv
      && Holds(c, 0, 32 * p.du, i, CompressPoly(u[i], p.du), Pow2(p.du))
      && Holds(c, 32 * p.du * p.k, 32 * p.dv, 0, CompressPoly(v, p.dv), Pow2(p.dv))
  {
    SmallParams(p);
    hide *;
    var x, y := CompressAll(u, p.du), CompressPoly(v, p.dv);
    var b, e := Join(EncodeAll(x, p.du)), ByteEncodeOf(y, p.dv);
    CompressedFields(u, p.du, i);
    CompressedField(v, p.dv);
    JoinedNumber(x, e, p.du, i);
    EncodedNumber(y, p.dv);
    CiphertextParts(u, v, p);
    LastPart(b, e, 32 * p.dv, y, Pow2(p.dv));
  }

  lemma CompressedField(f: Poly, d: nat)
    requires d < 12
    ensures forall j :: 0 <= j < 256 ==> 0 <= CompressPoly(f, d)[j] < FieldModulus(d)
  {}

  lemma CompressedFields(u: seq<Poly>, d: nat, i: nat)
    requires d < 12 && i < |u|
    ensures |CompressAll(u, d)| == |u| && CompressAll(u, d)[i] == CompressPoly(u[i], d)
    ensures forall j :: 0 <= j < 256 ==> 0 <= CompressAll(u, d)[i][j] < FieldModulus(d)
  {
    CompressedField(u[i], d);
  }

  lemma CiphertextParts(u: seq<Poly>, v: Poly, p: Params)
    ensures CiphertextOf(u, v, p)
      == Join(EncodeAll(CompressAll(u, p.du), p.du)) + ByteEncodeOf(CompressPoly(v, p.dv), p.dv)
  {}

  lemma LastPart(b: Bytes, e: Bytes, n: nat, w: Poly, base: nat)
    requires |e| == n && Number(e) == Digits(w, base)
    ensures Holds(b + e, |b|, n, 0, w, base)
  {
    hide Number, Digits;
    assert n * 0 == 0 && n * 1 == n;
    assert (b + e)[|b|..|b| + n] == e;
  }

  // ---------- the decapsulation key ----------

  /** Some secret part of 384 k bytes, a public key of 384 k + 32, its hash, and 32 bytes. */
  ghost predicate IsDecapsulationKey(h: Hashes, dk: Bytes, k: nat, dkp: Bytes, ek: Bytes, z: Bytes) {
    |dkp| == 384 * k && |ek| == 384 * k + 32 && |z| == 32 && dk == dkp + ek + h.sha3.sha3_256(ek) + z
  }

  /** The check of a decapsulation key accepts exactly these. */
  lemma DkCheckMeans(h: Hashes, dk: Bytes, p: Params)
    requires h.Valid()
    ensures DkCheck(h, dk, p) <==> exists dkp, ek, z :: IsDecapsulationKey(h, dk, p.k, dkp, ek, z)
  {
    var n := 384 * p.k;
    if |dk| == 2 * n + 96 {
      var dkp, ek, z := dk[..n], dk[n..2 * n + 32], dk[2 * n + 64..];
      assert dk == dkp + ek + dk[2 * n + 32..2 * n + 64] + z;
      KeyParts(dkp, ek, dk[2 * n + 32..2 * n + 64], z, p.k);
      if DkCheck(h, dk, p) {
        assert IsDecapsulationKey(h, dk, p.k, dkp, ek, z);
      }
    }
    hide Slice;
    forall dkp, ek, z | IsDecapsulationKey(h, dk, p.k, dkp, ek, z)
      ensures DkCheck(h, dk, p)
    {
      KeyParts(dkp, ek, h.sha3.sha3_256(ek), z, p.k);
    }
  }

  /** A generated key pair: the public key, and the decapsulation key with its secret part and z. */
  lemma KeyPair(h: Hashes, d: Bytes, z: Bytes, p: Params)
    requires h.Valid() && IsParams(p) && |z| == 32 && KeyGenOf(h, d, z, p).Some?
    ensures PkeKeyGenOf(h, d, p).Some?
    ensures var (ek, dk) := KeyGenOf(h, d, z, p).value; var (e, dkp) := PkeKeyGenOf(h, d, p).value;
      ek == e && IsDecapsulationKey(h, dk, p.k, dkp, ek, z)
  {
    EncryptsUnderKey(h, d, seq(32, _ => 0), [], p);
    hide PkeKeyGenOf, PkeEncryptOf, SentU, SentV, SessionOf, IsParams, DecodeAll, CiphertextOf, NttAll;
  }
}
