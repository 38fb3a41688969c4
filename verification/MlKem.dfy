/** Key generation, encryption, decryption, encapsulation and decapsulation of
    scripts/mlkem/mlkem_ref.py (FIPS 203, sections 5 and 6). A sampler that runs out of stream is None. */
module MlKem {
  import opened Modular
  import opened Options
  import opened Butterflies
  import opened MlKemNtt
  import opened MlKemAlgebra
  import opened BitFields
  import opened Concatenation
  import opened Hashing
  import opened MlKemCodec

  datatype Params = Params(k: nat, eta1: nat, eta2: nat, du: nat, dv: nat)

  const ML_KEM_512 := Params(2, 3, 2, 10, 4)
  const ML_KEM_768 := Params(3, 2, 2, 10, 4)
  const ML_KEM_1024 := Params(4, 2, 2, 11, 5)

  predicate IsParams(p: Params) {
    p == ML_KEM_512 || p == ML_KEM_768 || p == ML_KEM_1024
  }

  datatype Hashes = Hashes(shake: Shake, sha3: Sha3) {
    ghost predicate Valid() {
      shake.Valid() && sha3.Valid()
    }
  }

  function G(h: Hashes, b: Bytes): (r: (Bytes, Bytes))
    requires h.Valid()
    ensures |r.0| == 32 && |r.1| == 32
  {
    var d := h.sha3.sha3_512(b);
    (d[..32], d[32..])
  }

  function H(h: Hashes, b: Bytes): (r: Bytes)
    requires h.Valid()
    ensures |r| == 32
  {
    h.sha3.sha3_256(b)
  }

  function J(h: Hashes, b: Bytes): (r: Bytes)
    requires h.Valid()
    ensures |r| == 32
  {
    h.shake.shake256(b, 32)
  }

  function Prf(h: Hashes, eta: nat, s: Bytes, b: Byte): (r: Bytes)
    requires h.Valid()
    ensures |r| == 64 * eta
  {
    h.shake.shake256(s + [b], 64 * eta)
  }

  // ---------- vectors ----------

  function MatrixEntry(h: Hashes, rho: Bytes, i: nat, j: nat): Option<Poly>
    requires i < 256 && j < 256
  {
    SampleNttOf(h.shake.shake128(rho + [j, i], XOF_BYTES))
  }

  function MatrixOf(h: Hashes, rho: Bytes, k: nat): (a: Option<Matrix>)
    requires k <= 256
    ensures a.Some? ==> IsMatrix(a.value, k)
  {
    if forall i, j :: 0 <= i < k && 0 <= j < k ==> MatrixEntry(h, rho, i, j).Some? then
      Some(seq(k, i requires 0 <= i < k => seq(k, j requires 0 <= j < k => MatrixEntry(h, rho, i, j).value)))
    else None
  }

  /** The inner comprehension of the matrix. */
  method MatrixRow(h: Hashes, rho: Bytes, i: nat, k: nat) returns (row: Option<seq<Poly>>)
    requires h.Valid() && i < 256 && k <= 256
    ensures row.None? ==> exists j :: 0 <= j < k && MatrixEntry(h, rho, i, j).None?
    ensures row.Some? ==> |row.value| == k
    ensures row.Some? ==> forall j :: 0 <= j < k ==> MatrixEntry(h, rho, i, j) == Some(row.value[j])
  {
    hide SampleNttOf;
    var a: seq<Poly> := [];
    for j := 0 to k
      invariant |a| == j
      invariant forall m :: 0 <= m < j ==> MatrixEntry(h, rho, i, m) == Some(a[m])
    {
      var e := SampleNtt(h.shake, rho + [j, i]);
      if e.None? {
        assert MatrixEntry(h, rho, i, j).None?;
        return None;
      }
      a := a + [e.value];
    }
    row := Some(a);
  }

  method MatrixLoop(h: Hashes, rho: Bytes, k: nat) returns (a: Option<Matrix>)
    requires h.Valid() && k <= 256
    ensures a == MatrixOf(h, rho, k)
  {
    hide MatrixEntry;
    var m: Matrix := [];
    for i := 0 to k
      invariant |m| == i && forall r :: 0 <= r < i ==> |m[r]| == k
      invariant forall r, j :: 0 <= r < i && 0 <= j < k ==> MatrixEntry(h, rho, r, j) == Some(m[r][j])
    {
      var row := MatrixRow(h, rho, i, k);
      if row.None? { return None; }
      m := m + [row.value];
    }
    ghost var e := MatrixOf(h, rho, k);
    forall i | 0 <= i < k
      ensures m[i] == e.value[i]
    {
      assert forall j :: 0 <= j < k ==> m[i][j] == e.value[i][j];
    }
    assert m == e.value;
    a := Some(m);
  }

  function CbdPoly(h: Hashes, s: Bytes, n: nat, eta: nat): Poly
    requires h.Valid() && n < 256
  {
    SampleCbdOf(Prf(h, eta, s, n), eta)
  }

  /** The samples numbered first, first + 1, ... */
  function CbdVector(h: Hashes, s: Bytes, first: nat, count: nat, eta: nat): (v: seq<Poly>)
    requires h.Valid() && first + count <= 256
    ensures |v| == count
  {
    if count == 0 then [] else CbdVector(h, s, first, count - 1, eta) + [CbdPoly(h, s, first + count - 1, eta)]
  }

  method CbdLoop(h: Hashes, s: Bytes, first: nat, count: nat, eta: nat) returns (v: seq<Poly>)
    requires h.Valid() && first + count <= 256
    ensures v == CbdVector(h, s, first, count, eta)
  {
    hide SampleCbdOf;
    v := [];
    for i := 0 to count
      invariant v == CbdVector(h, s, first, i, eta)
    {
      var f := SampleCbd(Prf(h, eta, s, first + i), eta);
      v := v + [f];
    }
  }

  function NttAll(v: seq<Poly>): (r: seq<Poly>)
    ensures |r| == |v|
  {
    seq(|v|, i requires 0 <= i < |v| => NttOf(KEM, v[i]))
  }

  method TransformAll(v: seq<Poly>) returns (r: seq<Poly>)
    ensures r == NttAll(v)
  {
    hide NttOf;
    r := [];
    for i := 0 to |v|
      invariant r == NttAll(v)[..i]
    {
      var t := Ntt(v[i]);
      r := r + [t];
    }
  }

  function EncodeAll(v: seq<Poly>, d: nat): (r: seq<Bytes>)
    ensures |r| == |v| && forall i :: 0 <= i < |r| ==> |r[i]| == 32 * d
  {
    seq(|v|, i requires 0 <= i < |v| => ByteEncodeOf(v[i], d))
  }

  /** The join of the encodings. */
  method EncodeEach(v: seq<Poly>, d: nat) returns (b: Bytes)
    ensures b == Join(EncodeAll(v, d))
  {
    hide ByteEncodeOf;
    var parts: seq<Bytes> := [];
    for i := 0 to |v|
      invariant parts == EncodeAll(v, d)[..i]
    {
      var e := ByteEncode(v[i], d);
      parts := parts + [e];
    }
    assert parts == EncodeAll(v, d);
    b := Join(parts);
  }

  /** The k polynomials that consecutive slices of 32 d bytes hold. */
  function DecodeAll(b: Bytes, k: nat, d: nat): (r: seq<Poly>)
    ensures |r| == k
  {
    seq(k, i requires 0 <= i < k => ByteDecode(Piece(b, d, i), d))
  }

  function Piece(b: Bytes, d: nat, i: nat): Bytes {
    Slice(b, 32 * d * i, 32 * d * (i + 1))
  }

  function CompressPoly(f: Poly, d: nat): Poly {
    seq(256, j requires 0 <= j < 256 => Compress(f[j], d))
  }

  function DecompressPoly(f: Poly, d: nat): Poly
    requires d > 0
  {
    seq(256, j requires 0 <= j < 256 => Decompress(f[j], d))
  }

  function CompressAll(v: seq<Poly>, d: nat): (r: seq<Poly>)
    ensures |r| == |v|
  {
    seq(|v|, i requires 0 <= i < |v| => CompressPoly(v[i], d))
  }

  function DecompressAll(v: seq<Poly>, d: nat): (r: seq<Poly>)
    requires d > 0
    ensures |r| == |v|
  {
    seq(|v|, i requires 0 <= i < |v| => DecompressPoly(v[i], d))
  }

  method Accumulate(e: Poly, a: seq<Poly>, b: seq<Poly>, k: nat) returns (acc: Poly)
    requires k <= |a| && k <= |b|
    ensures acc == DotFrom(e, a, b, k)
  {
    hide MulNttOf, Add;
    acc := e;
    for j := 0 to k
      invariant acc == DotFrom(e, a, b, j)
    {
      var m := MulNtt(a[j], b[j]);
      acc := Add(acc, m);
    }
  }

  lemma {:induction false} FromZero(a: seq<Poly>, b: seq<Poly>, n: nat)
    requires n <= |a| && n <= |b|
    ensures DotFrom(Zero(), a, b, n) == Dot(a, b, n)
  {
    if n > 0 {
      FromZero(a, b, n - 1);
    }
  }

  // ---------- K-PKE ----------

  /** t_i = e_i + sum of A_ij s_j. */
  function TOf(a: Matrix, s: seq<Poly>, e: seq<Poly>, k: nat): (t: seq<Poly>)
    requires IsMatrix(a, k) && |s| == k && |e| == k
    ensures |t| == k
  {
    seq(k, i requires 0 <= i < k => DotFrom(e[i], a[i], s, k))
  }

  function PkeKeyGenOf(h: Hashes, d: Bytes, p: Params): Option<(Bytes, Bytes)>
    requires h.Valid() && IsParams(p)
  {
    var (rho, sigma) := G(h, d + [p.k]);
    match MatrixOf(h, rho, p.k)
    case None => None
    case Some(a) =>
      var s := NttAll(CbdVector(h, sigma, 0, p.k, p.eta1));
      var e := NttAll(CbdVector(h, sigma, p.k, p.k, p.eta1));
      Some((Join(EncodeAll(TOf(a, s, e, p.k), 12)) + rho, Join(EncodeAll(s, 12))))
  }

  method TLoop(a: Matrix, s: seq<Poly>, e: seq<Poly>, k: nat) returns (t: seq<Poly>)
    requires IsMatrix(a, k) && |s| == k && |e| == k
    ensures t == TOf(a, s, e, k)
  {
    hide DotFrom;
    t := [];
    for i := 0 to k
      invariant t == TOf(a, s, e, k)[..i]
    {
      var acc := Accumulate(e[i], a[i], s, k);
      t := t + [acc];
    }
  }

  method PkeKeyGen(h: Hashes, d: Bytes, p: Params) returns (r: Option<(Bytes, Bytes)>)
    requires h.Valid() && IsParams(p)
    ensures r == PkeKeyGenOf(h, d, p)
  {
    hide MatrixOf, CbdVector, NttAll, TOf, EncodeAll, Join, IsParams;
    SmallParams(p);
    var (rho, sigma) := G(h, d + [p.k]);
    var a := MatrixLoop(h, rho, p.k);
    if a.None? { return None; }
    var s := CbdLoop(h, sigma, 0, p.k, p.eta1);
    s := TransformAll(s);
    var e := CbdLoop(h, sigma, p.k, p.k, p.eta1);
    e := TransformAll(e);
    var t := TLoop(a.value, s, e, p.k);
    var ek := EncodeEach(t, 12);
    var dk := EncodeEach(s, 12);
    r := Some((ek + rho, dk));
  }

  lemma SmallParams(p: Params)
    requires IsParams(p)
    ensures 2 <= p.k <= 4 && 0 < p.du < 12 && 0 < p.dv < 12 && p.eta1 < 1000 && p.eta2 < 1000
  {}

  /** u_i = intt(sum of A_ji y_j) + e1_i. */
  function UOf(a: Matrix, y: seq<Poly>, e1: seq<Poly>, k: nat): (u: seq<Poly>)
    requires IsMatrix(a, k) && |y| == k && |e1| == k
    ensures |u| == k
  {
    seq(k, i requires 0 <= i < k => Add(InttOf(KEM, Dot(Column(a, i, k), y, k)), e1[i]))
  }

  /** v = intt(sum of t_i y_i) + e2 + mu. */
  function VOf(t: seq<Poly>, y: seq<Poly>, e2: Poly, mu: Poly, k: nat): Poly
    requires |t| == k && |y| == k
  {
    Add(Add(InttOf(KEM, Dot(t, y, k)), e2), mu)
  }

  function MessagePoly(m: Bytes): Poly {
    DecompressPoly(ByteDecode(m, 1), 1)
  }

  /** The ciphertext of u and v. */
  function CiphertextOf(u: seq<Poly>, v: Poly, p: Params): Bytes {
    Join(EncodeAll(CompressAll(u, p.du), p.du)) + ByteEncodeOf(CompressPoly(v, p.dv), p.dv)
  }

  function PkeEncryptOf(h: Hashes, ek: Bytes, m: Bytes, r: Bytes, p: Params): Option<Bytes>
    requires h.Valid() && IsParams(p)
  {
    var t := DecodeAll(ek, p.k, 12);
    match MatrixOf(h, Slice(ek, 384 * p.k, |ek|), p.k)
    case None => None
    case Some(a) =>
      var y := NttAll(CbdVector(h, r, 0, p.k, p.eta1));
      var e1 := CbdVector(h, r, p.k, p.k, p.eta2);
      var e2 := CbdPoly(h, r, 2 * p.k, p.eta2);
      Some(CiphertextOf(UOf(a, y, e1, p.k), VOf(t, y, e2, MessagePoly(m), p.k), p))
  }

  method ULoop(a: Matrix, y: seq<Poly>, e1: seq<Poly>, k: nat) returns (u: seq<Poly>)
    requires IsMatrix(a, k) && |y| == k && |e1| == k
    ensures u == UOf(a, y, e1, k)
  {
    hide InttOf, Add, Dot, DotFrom, Zero;
    u := [];
    for i := 0 to k
      invariant u == UOf(a, y, e1, k)[..i]
    {
      var acc := Accumulate(Zero(), Column(a, i, k), y, k);
      FromZero(Column(a, i, k), y, k);
      var f := Intt(acc);
      u := u + [Add(f, e1[i])];
    }
  }

  method PkeEncrypt(h: Hashes, ek: Bytes, m: Bytes, r: Bytes, p: Params) returns (c: Option<Bytes>)
    requires h.Valid() && IsParams(p)
    ensures c == PkeEncryptOf(h, ek, m, r, p)
  {
    hide MatrixOf, CbdVector, SampleCbdOf, Prf, NttAll, DotFrom, Dot, ByteEncodeOf, DecodeAll, MessagePoly, InttOf, Add;
    hide IsParams, CompressAll, CompressPoly, Join, EncodeAll, Zero;
    SmallParams(p);
    var t := DecodeAll(ek, p.k, 12);
    var rho := Slice(ek, 384 * p.k, |ek|);
    var a := MatrixLoop(h, rho, p.k);
    if a.None? { return None; }
    var y := CbdLoop(h, r, 0, p.k, p.eta1);
    y := TransformAll(y);
    var e1 := CbdLoop(h, r, p.k, p.k, p.eta2);
    var e2 := SampleCbd(Prf(h, p.eta2, r, 2 * p.k), p.eta2);
    assert e2 == CbdPoly(h, r, 2 * p.k, p.eta2);
    var u := ULoop(a.value, y, e1, p.k);
    var mu := MessagePoly(m);
    var acc := Accumulate(Zero(), t, y, p.k);
    FromZero(t, y, p.k);
    var f := Intt(acc);
    var v := Add(Add(f, e2), mu);
    var c1 := EncodeEach(CompressAll(u, p.du), p.du);
    var c2 := ByteEncode(CompressPoly(v, p.dv), p.dv);
    c := Some(c1 + c2);
  }

  /** w = v - intt(sum of s_i ntt(u_i)). */
  function WOf(s: seq<Poly>, u: seq<Poly>, v: Poly, k: nat): Poly
    requires |s| == k && |u| == k
  {
    Sub(v, InttOf(KEM, Dot(s, NttAll(u), k)))
  }

  function PkeDecryptOf(dk: Bytes, c: Bytes, p: Params): (m: Bytes)
    requires IsParams(p)
    ensures |m| == 32
  {
    var u := DecompressAll(DecodeAll(c, p.k, p.du), p.du);
    var v := DecompressPoly(ByteDecode(Slice(c, 32 * p.du * p.k, |c|), p.dv), p.dv);
    ByteEncodeOf(CompressPoly(WOf(DecodeAll(dk, p.k, 12), u, v, p.k), 1), 1)
  }

  method PkeDecrypt(dk: Bytes, c: Bytes, p: Params) returns (m: Bytes)
    requires IsParams(p)
    ensures m == PkeDecryptOf(dk, c, p)
  {
    hide DotFrom, Dot, ByteEncodeOf, DecodeAll, InttOf, Add, IsParams, Zero, NttAll, DecompressAll, DecompressPoly;
    hide CompressPoly;
    SmallParams(p);
    var u := DecompressAll(DecodeAll(c, p.k, p.du), p.du);
    var v := DecompressPoly(ByteDecode(Slice(c, 32 * p.du * p.k, |c|), p.dv), p.dv);
    var s := DecodeAll(dk, p.k, 12);
    var uh := TransformAll(u);
    var acc := Accumulate(Zero(), s, uh, p.k);
    FromZero(s, uh, p.k);
    var f := Intt(acc);
    var w := Sub(v, f);
    m := ByteEncode(CompressPoly(w, 1), 1);
  }

  // ---------- ML-KEM ----------

  function KeyGenOf(h: Hashes, d: Bytes, z: Bytes, p: Params): Option<(Bytes, Bytes)>
    requires h.Valid() && IsParams(p)
  {
    match PkeKeyGenOf(h, d, p)
    case None => None
    case Some((ek, dkp)) => Some((ek, dkp + ek + H(h, ek) + z))
  }

  function EncapsOf(h: Hashes, ek: Bytes, m: Bytes, p: Params): Option<(Bytes, Bytes)>
    requires h.Valid() && IsParams(p)
  {
    var (key, r) := G(h, m + H(h, ek));
    match PkeEncryptOf(h, ek, m, r, p)
    case None => None
    case Some(c) => Some((key, c))
  }

  function DecapsOf(h: Hashes, dk: Bytes, c: Bytes, p: Params): Option<Bytes>
    requires h.Valid() && IsParams(p)
  {
    var k := p.k;
    var dkp, ek := Slice(dk, 0, 384 * k), Slice(dk, 384 * k, 768 * k + 32);
    var hk, z := Slice(dk, 768 * k + 32, 768 * k + 64), Slice(dk, 768 * k + 64, |dk|);
    var m := PkeDecryptOf(dkp, c, p);
    var (key, r) := G(h, m + hk);
    match PkeEncryptOf(h, ek, m, r, p)
    case None => None
    case Some(c') => Some(if c' == c then key else J(h, z + c))
  }

  // ---------- key checks ----------

  predicate EkCheck(ek: Bytes, p: Params) {
    && |ek| == 384 * p.k + 32
    && forall i :: 0 <= i < p.k ==>
      var part := Slice(ek, 384 * i, 384 * (i + 1));
      ByteEncodeOf(ByteDecode(part, 12), 12) == part
  }

  predicate DkCheck(h: Hashes, dk: Bytes, p: Params)
    requires h.Valid()
  {
    && |dk| == 768 * p.k + 96
    && H(h, Slice(dk, 384 * p.k, 768 * p.k + 32)) == Slice(dk, 768 * p.k + 32, 768 * p.k + 64)
  }
}
