/** What the byte strings of scripts/mldsa/mldsa_ref.py spell: every packed polynomial is one little-endian number whose
    digits are its coefficients (FIPS 204, section 7.1), and a hint lists the positions of its ones row by row. */
module SignatureBytes {
  import opened Arithmetic
  import opened Modular
  import opened MlDsaNtt
  import opened Rounding
  import opened BitFields
  import opened Concatenation
  import opened Numerals
  import opened BitPacking
  import opened HintPacking
  import opened KeyCodec
  import opened MlDsa

  lemma SimpleNumber(w: Poly, b: nat)
    requires forall i :: 0 <= i < 256 ==> 0 <= w[i] <= b
    ensures Number(SimpleBitPack(w, b)) == Digits(w, Pow2(BitLength(b)))
  {
    BelowBitLength(b);
    hide Fields, BytesOf, BitLength, Pow2, Digits, Number;
    PackedNumber(w, BitLength(b));
  }

  /** Distances from b downwards. */
  function Down(w: Poly, b: int): Poly {
    seq(256, i requires 0 <= i < 256 => b - ModPm(w[i], Q))
  }

  lemma CentredNumber(w: Poly, a: nat, b: nat)
    requires forall i :: 0 <= i < 256 ==> -(a as int) <= ModPm(w[i], Q) <= b
    ensures Number(BitPack(w, a, b)) == Digits(Down(w, b), Pow2(BitLength(a + b)))
  {
    BelowBitLength(a + b);
    hide Fields, BytesOf, BitLength, Pow2, Digits, Number, ModPm;
    PackedNumber(Down(w, b), BitLength(a + b));
  }

  // ---------- keys ----------

  /** A public key is the seed and, for every entry of t1, 320 bytes with its coefficients as digits of ten bits. */
  lemma PublicKeyBytes(rho: Bytes, t1: seq<Poly>, i: nat)
    requires |rho| == 32 && i < |t1| && forall i, j :: 0 <= i < |t1| && 0 <= j < 256 ==> 0 <= t1[i][j] < 1024
    ensures var pk := PkEncode(rho, t1);
      |pk| == 32 + 320 * |t1| && pk[..32] == rho && Holds(pk, 32, 320, i, t1[i], 1024)
  {
    hide SimpleBitPack, BitLength, Pow2, Digits, Number, Holds;
    TBits();
    BigPowers();
    var parts := seq(|t1|, i requires 0 <= i < |t1| => SimpleBitPack(t1[i], 1023));
    var pk := PkEncode(rho, t1);
    assert pk == rho + Join(parts) + [];
    JoinLength(parts, 320);
    PartOfJoin(rho, parts, [], 320, i);
    SimpleNumber(t1[i], 1023);
    PartHolds(pk, 32, 320, i, |t1|, t1[i], 1024);
  }

  lemma PackedVector(s: Bytes, pre: Bytes, v: seq<Poly>, post: Bytes, a: nat, b: nat, len: nat, base: nat, i: nat)
    requires len == 32 * BitLength(a + b) && base == Pow2(BitLength(a + b)) && i < |v| && Fits(v, a, b)
    requires s == pre + PackAll(v, a, b) + post
    ensures Holds(s, |pre|, len, i, Down(v[i], b), base)
  {
    hide BitPack, BitLength, Pow2, Digits, Number, ModPm, Holds;
    var parts := seq(|v|, i requires 0 <= i < |v| => BitPack(v[i], a, b));
    PartOfJoin(pre, parts, post, len, i);
    CentredNumber(v[i], a, b);
    PartHolds(s, |pre|, len, i, |v|, Down(v[i], b), base);
  }

  lemma Widths(eta: nat)
    requires eta == 2 || eta == 4
    ensures BitLength(eta + eta) == (if eta == 2 then 3 else 4) && BitLength(8191) == 13
    ensures Pow2(3) == 8 && Pow2(4) == 16 && Pow2(13) == 8192
  {
    TBits();
    BigPowers();
    assert BitLength(4) == 3 && BitLength(8) == 4;
    assert Pow2(3) == 8 && Pow2(4) == 16;
  }

  lemma Lengths(v: seq<Poly>, a: nat, b: nat, len: nat)
    requires len == 32 * BitLength(a + b)
    ensures |PackAll(v, a, b)| == len * |v|
  {
    PackAllLength(v, a, b, len);
  }

  /** A secret key is the seed, the key of the mask, the hash of the public key, and the coefficients of s1, of s2 and
      of t0, as their distances from eta and from 4096, as digits of three or four bits and of thirteen bits. */
  lemma SecretKeyBytes(s: Secret, p: Params, i: nat, j: nat)
    requires IsParams(p) && |s.rho| == 32 && |s.key| == 32 && |s.tr| == 64 && |s.s1| == p.l && |s.s2| == p.k
    requires |s.t0| == p.k && Fits(s.s1, p.eta, p.eta) && Fits(s.s2, p.eta, p.eta) && Fits(s.t0, 4095, 4096)
    requires i < p.l && j < p.k
    ensures var sk := SkEncode(s, p); var e, base := if p.eta == 2 then 96 else 128, if p.eta == 2 then 8 else 16;
      && |sk| == 128 + e * p.l + e * p.k + 416 * p.k && sk[..32] == s.rho && sk[32..64] == s.key && sk[64..128] == s.tr
      && Holds(sk, 128, e, i, Down(s.s1[i], p.eta), base)
      && Holds(sk, 128 + e * p.l, e, j, Down(s.s2[j], p.eta), base)
      && Holds(sk, 128 + e * p.l + e * p.k, 416, j, Down(s.t0[j], 4096), 8192)
  {
    Shape(p);
    Widths(p.eta);
    SecretParts(s, p);
    hide *;
    var e, base := if p.eta == 2 then 96 else 128, if p.eta == 2 then 8 else 16;
    var head, a := s.rho + s.key + s.tr, p.eta;
    var p1, p2, p0 := PackAll(s.s1, a, a), PackAll(s.s2, a, a), PackAll(s.t0, 4095, 4096);
    var sk := SkEncode(s, p);
    Regrouped(s.rho, s.key, s.tr, p1, p2, p0);
    Lengths(s.s1, a, a, e);
    Lengths(s.s2, a, a, e);
    Lengths(s.t0, 4095, 4096, 416);
    PackedVector(sk, head, s.s1, p2 + p0, a, a, e, base, i);
    PackedVector(sk, head + p1, s.s2, p0, a, a, e, base, j);
    PackedVector(sk, head + p1 + p2, s.t0, [], 4095, 4096, 416, 8192, j);
  }

  lemma Regrouped(a: Bytes, b: Bytes, c: Bytes, x: Bytes, y: Bytes, z: Bytes)
    requires |a| == 32 && |b| == 32 && |c| == 64
    ensures var v := a + b + c + x + y + z; var head := a + b + c;
      && head + x + (y + z) == v && (head + x) + y + z == v && (head + x + y) + z + [] == v
      && v[..32] == a && v[32..64] == b && v[64..128] == c && |head| == 128
  {}

  lemma SecretParts(s: Secret, p: Params)
    ensures SkEncode(s, p)
      == s.rho + s.key + s.tr + PackAll(s.s1, p.eta, p.eta) + PackAll(s.s2, p.eta, p.eta) + PackAll(s.t0, 4095, 4096)
  {}

  // ---------- signatures ----------

  /** A signature is the commitment, the coefficients of the response as their distances from gamma1, as digits of 18 or
      20 bits, and the encoded hint. */
  lemma ResponseBytes(ct: Bytes, z: seq<Poly>, h: seq<Poly>, p: Params, i: nat)
    requires IsParams(p) && |ct| == p.lam / 4 && |z| == p.l && Fits(z, p.g1 - 1, p.g1) && IsHint(h, p.k, p.omega)
    requires i < p.l && p.g1 > 0 && p.omega < 256
    ensures var sig, n := SigEncode(ct, z, h, p), if p.g1 == 131072 then 576 else 640;
      && |sig| == |ct| + n * p.l + p.omega + p.k && sig[..|ct|] == ct
      && Holds(sig, |ct|, n, i, Down(z[i], p.g1), 2 * p.g1) && sig[|ct| + n * p.l..] == PackOf(h, p.k, p.omega)
  {
    ResponseWidth(p);
    hide *;
    SigPartsOf(ct, z, h, p);
    var n := if p.g1 == 131072 then 576 else 640;
    Lengths(z, p.g1 - 1, p.g1, n);
    PackedVector(SigEncode(ct, z, h, p), ct, z, PackOf(h, p.k, p.omega), p.g1 - 1, p.g1, n, 2 * p.g1, i);
    HintLength(h, p.k, p.omega);
  }

  lemma HintLength(h: seq<Poly>, k: nat, om: nat)
    requires IsHint(h, k, om) && om < 256
    ensures |h| == k && |AllOnes(h, k)| <= om && |PackOf(h, k, om)| == om + k
  {}

  lemma SigPartsOf(ct: Bytes, z: seq<Poly>, h: seq<Poly>, p: Params)
    requires p.g1 > 0 && IsHint(h, p.k, p.omega) && p.omega < 256
    ensures |h| == p.k && |AllOnes(h, p.k)| <= p.omega
    ensures SigEncode(ct, z, h, p) == ct + PackAll(z, p.g1 - 1, p.g1) + PackOf(h, p.k, p.omega)
  {
    hide PackAll, AllOnes, PackOf;
  }

  lemma ResponseWidth(p: Params)
    requires IsParams(p)
    ensures var n := if p.g1 == 131072 then 576 else 640; n == 32 * BitLength(p.g1 - 1 + p.g1)
    ensures 2 * p.g1 == Pow2(BitLength(p.g1 - 1 + p.g1))
  {
    BigPowers();
    var n := if p == ML_DSA_44 then 17 else 19;
    BitLengthOnes(n + 1);
    assert Pow2(n + 1) == 2 * Pow2(n);
    hide BitLength, Pow2;
    assert p.g1 == Pow2(n);
  }

  /** The positions of the ones of row i in the encoding. */
  lemma HintSegment(h: seq<Poly>, k: nat, om: nat, i: nat) returns (b: nat, e: nat)
    requires IsHint(h, k, om) && om < 256 && i < k
    ensures var y := PackOf(h, k, om);
      && b == (if i == 0 then 0 else y[om + i - 1]) && e == y[om + i] && b <= e <= y[om + k - 1] <= om
      && y[b..e] == Ones(h[i], 256) && forall m :: y[om + k - 1] <= m < om ==> y[m] == 0
  {
    hide AllOnes, Ones, PackOf;
    b, e := |AllOnes(h, i)|, |AllOnes(h, i + 1)|;
    RowColumns(h, i, k);
    EncodedColumns(h, k, om);
    EncodedEnd(h, k, om, i);
    EncodedEnd(h, k, om, k - 1);
    if i > 0 {
      EncodedEnd(h, k, om, i - 1);
    } else {
      NoOnes(h);
    }
    CutAgain(PackOf(h, k, om), b, e, |AllOnes(h, k)|);
  }

  lemma CutAgain(y: Bytes, b: nat, e: nat, n: nat)
    requires b <= e <= n <= |y|
    ensures y[..n][b..e] == y[b..e]
  {}

  /** Between the ends of the rows before and of row i stand, ascending, exactly the positions of its ones; the ends
      follow the omega places for positions, of which those that are left hold zeros. */
  lemma HintBytes(h: seq<Poly>, k: nat, om: nat, i: nat)
    requires IsHint(h, k, om) && om < 256 && i < k
    ensures var y := PackOf(h, k, om); var b, e := if i == 0 then 0 else y[om + i - 1], y[om + i];
      && b <= e <= y[om + k - 1] <= om
      && (forall m, n :: 0 <= m < n < e - b ==> y[b..e][m] < y[b..e][n])
      && (forall x :: 0 <= x < 256 ==> (x in y[b..e] <==> h[i][x] == 1))
      && (forall m :: y[om + k - 1] <= m < om ==> y[m] == 0)
  {
    hide AllOnes, Ones, PackOf;
    var b, e := HintSegment(h, k, om, i);
    var row := Ones(h[i], 256);
    forall m, n | 0 <= m < n < e - b
      ensures row[m] < row[n]
    {
      OnesAscend(h[i], 256, m, n);
    }
    forall x | 0 <= x < 256
      ensures x in row <==> h[i][x] == 1
    {
      OnesMembers(h[i], 256, x);
      assert IsBinary(h[i]);
    }
  }

  /** The encoded high parts are digits of six bits for gamma2 = 95232 and of four bits for 261888. */
  lemma HighPartBytes(w1: seq<Poly>, g2: int, i: nat)
    requires IsG2(g2) && i < |w1| && forall i, j :: 0 <= i < |w1| && 0 <= j < 256 ==> 0 <= w1[i][j] < Highs(g2)
    ensures var n, base := if g2 == 95232 then 192 else 128, if g2 == 95232 then 64 else 16;
      |W1Encode(w1, g2)| == n * |w1| && Holds(W1Encode(w1, g2), 0, n, i, w1[i], base)
  {
    hide IsG2, Highs, SimpleBitPack, BitLength, Pow2, Digits, Number, Holds;
    HighWidth(g2);
    var n, base := if g2 == 95232 then 192 else 128, if g2 == 95232 then 64 else 16;
    var parts := seq(|w1|, i requires 0 <= i < |w1| => SimpleBitPack(w1[i], Highs(g2) - 1));
    JoinLength(parts, n);
    PartOfJoin([], parts, [], n, i);
    assert [] + Join(parts) + [] == W1Encode(w1, g2);
    SimpleNumber(w1[i], Highs(g2) - 1);
    PartHolds(W1Encode(w1, g2), 0, n, i, |w1|, w1[i], base);
  }

  lemma HighWidth(g2: int)
    requires IsG2(g2)
    ensures Highs(g2) == if g2 == 95232 then 44 else 16
    ensures BitLength(Highs(g2) - 1) == if g2 == 95232 then 6 else 4
    ensures Pow2(6) == 64 && Pow2(4) == 16
  {
    assert Highs(g2) == if g2 == 95232 then 44 else 16;
    assert BitLength(43) == 6 && BitLength(15) == 4;
  }
}
