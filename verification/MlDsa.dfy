/** Key generation, signing and verification of scripts/mldsa/mldsa_ref.py (FIPS 204, Algorithms 6, 7
    and 8). What raises an exception in the reference model is None here. */
module MlDsa {
  import opened Modular
  import opened MlDsaNtt
  import opened Options
  import opened Butterflies
  import opened NttRing
  import opened Rounding
  import opened BitFields
  import opened Concatenation
  import opened BitPacking
  import opened HintPacking
  import opened Sampling
  import opened Hashing
  import opened KeyCodec

  // ---------- polynomials and vectors ----------

  function Zero(): Poly {
    seq(256, _ => 0)
  }

  function Padd(a: Poly, b: Poly): Poly {
    seq(256, j requires 0 <= j < 256 => C(Q, a[j] + b[j]))
  }

  function Psub(a: Poly, b: Poly): Poly {
    seq(256, j requires 0 <= j < 256 => C(Q, a[j] - b[j]))
  }

  function NttAll(v: seq<Poly>): (r: seq<Poly>)
    ensures |r| == |v|
  {
    seq(|v|, i requires 0 <= i < |v| => NttOf(DSA, v[i]))
  }

  method TransformAll(v: seq<Poly>) returns (r: seq<Poly>)
    ensures r == NttAll(v)
  {
    hide NttOf;
    r := [];
    for i := 0 to |v|
      invariant r == NttAll(v)[..i]
    {
      var t := Ntt(v[i]);
      r := r + [t];
    }
  }

  /** A matrix row times a vector in the transformed domain, over the first n entries. */
  function Row(a: seq<Poly>, v: seq<Poly>, n: nat): Poly
    requires n <= |a| && n <= |v|
  {
    if n == 0 then Zero() else Padd(Row(a, v, n - 1), Pmul(a[n - 1], v[n - 1]))
  }

  method RowTimes(a: seq<Poly>, v: seq<Poly>, l: nat) returns (acc: Poly)
    requires l <= |a| && l <= |v|
    ensures acc == Row(a, v, l)
  {
    acc := Zero();
    for s := 0 to l
      invariant acc == Row(a, v, s)
    {
      acc := Padd(acc, Pmul(a[s], v[s]));
    }
  }

  type Matrix = seq<seq<Poly>>

  ghost predicate IsMatrix(a: Matrix, p: Params) {
    |a| == p.k && forall r :: 0 <= r < p.k ==> |a[r]| == p.l
  }

  // ---------- expanding seeds ----------

  function MatrixEntry(shake: Shake, rho: Bytes, r: nat, s: nat): Option<Poly>
    requires r < 256 && s < 256
  {
    RejNttOf(shake.shake128(rho + [s, r], XOF_BYTES))
  }

  function ExpandA(shake: Shake, rho: Bytes, p: Params): (a: Option<Matrix>)
    requires p.k <= 256 && p.l <= 256
    ensures a.Some? ==> IsMatrix(a.value, p)
  {
    if forall r, s :: 0 <= r < p.k && 0 <= s < p.l ==> MatrixEntry(shake, rho, r, s).Some? then
      Some(seq(p.k,
               r requires 0 <= r < p.k => seq(p.l, s requires 0 <= s < p.l => MatrixEntry(shake, rho, r, s).value)))
    else None
  }

  /** The inner comprehension of the matrix. */
  method ExpandRow(shake: Shake, rho: Bytes, r: nat, l: nat) returns (row: Option<seq<Poly>>)
    requires shake.Valid() && r < 256 && l <= 256
    ensures row.None? ==> exists s :: 0 <= s < l && MatrixEntry(shake, rho, r, s).None?
    ensures row.Some? ==> |row.value| == l
    ensures row.Some? ==> forall s :: 0 <= s < l ==> MatrixEntry(shake, rho, r, s) == Some(row.value[s])
  {
    hide RejNttOf;
    var a: seq<Poly> := [];
    for s := 0 to l
      invariant |a| == s
      invariant forall j :: 0 <= j < s ==> MatrixEntry(shake, rho, r, j) == Some(a[j])
    {
      var e := RejNttPoly(shake, rho + [s, r]);
      if e.None? {
        assert MatrixEntry(shake, rho, r, s).None?;
        return None;
      }
      a := a + [e.value];
    }
    row := Some(a);
  }

  method ExpandMatrix(shake: Shake, rho: Bytes, p: Params) returns (a: Option<Matrix>)
    requires shake.Valid() && p.k <= 256 && p.l <= 256
    ensures a == ExpandA(shake, rho, p)
  {
    hide MatrixEntry;
    var m: Matrix := [];
    for r := 0 to p.k
      invariant |m| == r && forall i :: 0 <= i < r ==> |m[i]| == p.l
      invariant forall i, s :: 0 <= i < r && 0 <= s < p.l ==> MatrixEntry(shake, rho, i, s) == Some(m[i][s])
    {
      var row := ExpandRow(shake, rho, r, p.l);
      if row.None? { return None; }
      m := m + [row.value];
    }
    ghost var e := ExpandA(shake, rho, p);
    forall i | 0 <= i < p.k
      ensures m[i] == e.value[i]
    {
      assert forall s :: 0 <= s < p.l ==> m[i][s] == e.value[i][s];
    }
    assert m == e.value;
    a := Some(m);
  }

  /** n.to_bytes(2, 'little'). */
  function TwoBytes(n: nat): Bytes
    requires n < 65536
  {
    [n % 256, n / 256]
  }

  function SmallPoly(shake: Shake, rho: Bytes, r: nat, eta: nat): Option<Poly>
    requires r < 65536
  {
    RejBoundedOf(shake.shake256(rho + TwoBytes(r), XOF_BYTES), eta)
  }

  /** The secret vector whose entries are numbered from first on. */
  function SmallVector(shake: Shake, rho: Bytes, first: nat, count: nat, eta: nat): (v: Option<seq<Poly>>)
    requires first + count <= 65536
    ensures v.Some? ==> |v.value| == count
  {
    if forall r :: first <= r < first + count ==> SmallPoly(shake, rho, r, eta).Some? then
      Some(seq(count, r requires 0 <= r < count => SmallPoly(shake, rho, first + r, eta).value))
    else None
  }

  method ExpandSmall(shake: Shake, rho: Bytes, first: nat, count: nat, eta: nat) returns (v: Option<seq<Poly>>)
    requires shake.Valid() && first + count <= 65536
    ensures v == SmallVector(shake, rho, first, count, eta)
  {
    hide RejBoundedOf;
    var a: seq<Poly> := [];
    for i := 0 to count
      invariant |a| == i
      invariant forall r :: first <= r < first + i ==> SmallPoly(shake, rho, r, eta) == Some(a[r - first])
    {
      var e := RejBoundedPoly(shake, rho + TwoBytes(first + i), eta);
      if e.None? {
        assert SmallPoly(shake, rho, first + i, eta).None?;
        return None;
      }
      a := a + [e.value];
    }
    ghost var e := SmallVector(shake, rho, first, count, eta);
    assert forall i :: 0 <= i < count ==> a[i] == e.value[i] by {
      assert forall i :: 0 <= i < count ==> SmallPoly(shake, rho, first + i, eta) == Some(a[i]);
    }
    assert a == e.value;
    v := Some(a);
  }

  function MaskPoly(shake: Shake, rho: Bytes, n: nat, p: Params): Poly
    requires shake.Valid() && IsParams(p) && n < 65536
  {
    ZBitsIsLength(p);
    BitUnpack(shake.shake256(rho + TwoBytes(n), 32 * ZBits(p)), p.g1 - 1, p.g1)
  }

  /** The masks numbered mu, mu + 1, ... */
  function Masks(shake: Shake, rho: Bytes, mu: nat, n: nat, p: Params): (y: seq<Poly>)
    requires shake.Valid() && IsParams(p) && mu + n <= 65536
    ensures |y| == n
  {
    if n == 0 then [] else Masks(shake, rho, mu, n - 1, p) + [MaskPoly(shake, rho, mu + n - 1, p)]
  }

  function ExpandMask(shake: Shake, rho: Bytes, mu: nat, p: Params): (y: seq<Poly>)
    requires shake.Valid() && IsParams(p) && mu + p.l <= 65536
    ensures |y| == p.l
  {
    Masks(shake, rho, mu, p.l, p)
  }

  // ---------- key generation ----------

  /** t = intt(A s1) + s2. */
  function TOf(a: Matrix, s1: seq<Poly>, s2: seq<Poly>, p: Params): (t: seq<Poly>)
    requires IsMatrix(a, p) && |s1| == p.l && |s2| == p.k
    ensures |t| == p.k
  {
    seq(p.k, r requires 0 <= r < p.k => Padd(InttOf(DSA, Row(a[r], NttAll(s1), p.l)), s2[r]))
  }

  function HighPoly(t: Poly): Poly {
    seq(256, j requires 0 <= j < 256 => Power2Round(t[j]).0)
  }

  function LowPoly(t: Poly): Poly {
    seq(256, j requires 0 <= j < 256 => Power2Round(t[j]).1)
  }

  function HighAll(t: seq<Poly>): (r: seq<Poly>)
    ensures |r| == |t|
  {
    seq(|t|, i requires 0 <= i < |t| => HighPoly(t[i]))
  }

  function LowAll(t: seq<Poly>): (r: seq<Poly>)
    ensures |r| == |t|
  {
    seq(|t|, i requires 0 <= i < |t| => LowPoly(t[i]))
  }

  function KeyGenOf(shake: Shake, xi: Bytes, p: Params): Option<(Bytes, Bytes)>
    requires shake.Valid() && IsParams(p)
  {
    var hb := shake.shake256(xi + [p.k, p.l], 128);
    var rho, rhop, key := hb[..32], hb[32..96], hb[96..];
    var a := ExpandA(shake, rho, p);
    var s1, s2 := SmallVector(shake, rhop, 0, p.l, p.eta), SmallVector(shake, rhop, p.l, p.k, p.eta);
    if a.None? || s1.None? || s2.None? then None
    else
      var t := TOf(a.value, s1.value, s2.value, p);
      var pk := PkEncode(rho, HighAll(t));
      Some((pk, SkEncode(Secret(rho, key, shake.shake256(pk, 64), s1.value, s2.value, LowAll(t)), p)))
  }

  method KeyGen(shake: Shake, xi: Bytes, p: Params) returns (r: Option<(Bytes, Bytes)>)
    requires shake.Valid() && IsParams(p)
    ensures r == KeyGenOf(shake, xi, p)
  {
    hide NttOf, InttOf, Row, Power2Round, PkEncode, SkEncode, ExpandA, SmallVector;
    var hb := shake.shake256(xi + [p.k, p.l], 128);
    var rho, rhop, key := hb[..32], hb[32..96], hb[96..];
    var a := ExpandMatrix(shake, rho, p);
    var s1 := ExpandSmall(shake, rhop, 0, p.l, p.eta);
    var s2 := ExpandSmall(shake, rhop, p.l, p.k, p.eta);
    if a.None? || s1.None? || s2.None? { return None; }
    var s1h := TransformAll(s1.value);
    ghost var full := TOf(a.value, s1.value, s2.value, p);
    var t: seq<Poly> := [];
    for r := 0 to p.k
      invariant t == full[..r]
    {
      var acc := RowTimes(a.value[r], s1h, p.l);
      var f := Intt(acc);
      t := t + [Padd(f, s2.value[r])];
    }
    var t1: seq<Poly>, t0: seq<Poly> := [], [];
    for r := 0 to p.k
      invariant t1 == HighAll(t)[..r] && t0 == LowAll(t)[..r]
    {
      t1, t0 := t1 + [HighPoly(t[r])], t0 + [LowPoly(t[r])];
    }
    assert t == full && t1 == HighAll(t) && t0 == LowAll(t);
    var pk := PkEncode(rho, t1);
    var tr := shake.shake256(pk, 64);
    r := Some((pk, SkEncode(Secret(rho, key, tr, s1.value, s2.value, t0), p)));
  }

  // ---------- signing ----------

  function MulAll(c: Poly, v: seq<Poly>): (r: seq<Poly>)
    ensures |r| == |v|
  {
    seq(|v|, i requires 0 <= i < |v| => InttOf(DSA, Pmul(c, v[i])))
  }

  method MulEach(c: Poly, v: seq<Poly>) returns (r: seq<Poly>)
    ensures r == MulAll(c, v)
  {
    hide InttOf, Pmul;
    r := [];
    for i := 0 to |v|
      invariant r == MulAll(c, v)[..i]
    {
      var t := Intt(Pmul(c, v[i]));
      r := r + [t];
    }
  }

  function PaddAll(a: seq<Poly>, b: seq<Poly>): (r: seq<Poly>)
    requires |a| == |b|
    ensures |r| == |a|
  {
    seq(|a|, i requires 0 <= i < |a| => Padd(a[i], b[i]))
  }

  function PsubAll(a: seq<Poly>, b: seq<Poly>): (r: seq<Poly>)
    requires |a| == |b|
    ensures |r| == |a|
  {
    seq(|a|, i requires 0 <= i < |a| => Psub(a[i], b[i]))
  }

  /** w = intt(A yh). */
  function WOf(a: Matrix, yh: seq<Poly>, p: Params): (w: seq<Poly>)
    requires IsMatrix(a, p) && |yh| == p.l
    ensures |w| == p.k
  {
    seq(p.k, r requires 0 <= r < p.k => InttOf(DSA, Row(a[r], yh, p.l)))
  }

  function HighBitsPoly(w: Poly, g2: int): Poly
    requires IsG2(g2)
  {
    seq(256, j requires 0 <= j < 256 => HighBits(w[j], g2))
  }

  function LowBitsPoly(w: Poly, g2: int): Poly
    requires IsG2(g2)
  {
    seq(256, j requires 0 <= j < 256 => LowBits(w[j], g2))
  }

  function HighBitsAll(w: seq<Poly>, g2: int): (r: seq<Poly>)
    requires IsG2(g2)
    ensures |r| == |w|
  {
    seq(|w|, i requires 0 <= i < |w| => HighBitsPoly(w[i], g2))
  }

  function LowBitsAll(w: seq<Poly>, g2: int): (r: seq<Poly>)
    requires IsG2(g2)
    ensures |r| == |w|
  {
    seq(|w|, i requires 0 <= i < |w| => LowBitsPoly(w[i], g2))
  }

  function W1Encode(w1: seq<Poly>, g2: int): Bytes
    requires IsG2(g2)
  {
    Join(seq(|w1|, i requires 0 <= i < |w1| => SimpleBitPack(w1[i], Highs(g2) - 1)))
  }

  function HintPoly(ct0: Poly, wm: Poly, g2: int): (h: Poly)
    requires IsG2(g2)
    ensures IsBinary(h)
  {
    seq(256, j requires 0 <= j < 256 => MakeHint((Q - ct0[j]) % Q, (wm[j] + ct0[j]) % Q, g2))
  }

  function HintAll(ct0: seq<Poly>, wm: seq<Poly>, g2: int): (h: seq<Poly>)
    requires IsG2(g2) && |ct0| == |wm|
    ensures |h| == |ct0| && forall i :: 0 <= i < |h| ==> IsBinary(h[i])
  {
    seq(|ct0|, i requires 0 <= i < |ct0| => HintPoly(ct0[i], wm[i], g2))
  }

  function Max(x: nat, y: nat): nat {
    if x < y then y else x
  }

  /** The largest absolute value among the first n coefficients. */
  function MaxOf(w: Poly, n: nat): nat
    requires n <= 256
  {
    if n == 0 then 0 else Max(MaxOf(w, n - 1), Abs(w[n - 1]))
  }

  function MaxAbs(v: seq<Poly>): nat {
    if v == [] then 0 else Max(MaxOf(v[0], 256), MaxAbs(v[1..]))
  }

  /** The infinity norm of a vector stored modulo q. */
  function InfNorm(v: seq<Poly>): nat {
    MaxAbs(CentredAll(v))
  }

  /** sum(row). */
  function SumOf(row: Poly, n: nat): int
    requires n <= 256
  {
    if n == 0 then 0 else SumOf(row, n - 1) + row[n - 1]
  }

  /** sum(map(sum, h[:n])). */
  function SumAll(h: seq<Poly>, n: nat): int
    requires n <= |h|
  {
    if n == 0 then 0 else SumAll(h, n - 1) + SumOf(h[n - 1], 256)
  }

  /** In rows of zeros and ones the sum counts the ones. */
  lemma {:induction false} SumIsCount(row: Poly, n: nat)
    requires n <= 256 && IsBinary(row)
    ensures SumOf(row, n) == |Ones(row, n)|
  {
    if n > 0 {
      SumIsCount(row, n - 1);
    }
  }

  lemma {:induction false} SumAllIsCount(h: seq<Poly>, n: nat)
    requires n <= |h| && forall i :: 0 <= i < |h| ==> IsBinary(h[i])
    ensures SumAll(h, n) == |AllOnes(h, n)|
  {
    if n > 0 {
      SumAllIsCount(h, n - 1);
      SumIsCount(h[n - 1], 256);
    }
  }

  /** What every attempt at a signature shares. */
  datatype Signer = Signer(a: Matrix, s1h: seq<Poly>, s2h: seq<Poly>, t0h: seq<Poly>, mu: Bytes, rhopp: Bytes)

  ghost predicate IsSigner(x: Signer, p: Params) {
    IsMatrix(x.a, p) && |x.s1h| == p.l && |x.s2h| == p.k && |x.t0h| == p.k
  }

  /** The values of one attempt. */
  datatype Attempt = Attempt(ct: Bytes, c: Poly, w: seq<Poly>, z: seq<Poly>, wm: seq<Poly>, ct0: seq<Poly>,
                             h: seq<Poly>)

  ghost predicate IsAttempt(t: Attempt, p: Params) {
    && |t.ct| == p.lam / 4 && |t.w| == p.k && |t.z| == p.l && |t.wm| == p.k && |t.ct0| == p.k && |t.h| == p.k
    && forall i :: 0 <= i < p.k ==> IsBinary(t.h[i])
  }

  /** The attempt with mask y; the challenge may run out of stream. */
  function AttemptOf(shake: Shake, x: Signer, y: seq<Poly>, p: Params): (t: Option<Attempt>)
    requires shake.Valid() && IsParams(p) && IsSigner(x, p) && |y| == p.l
    ensures t.Some? ==> IsAttempt(t.value, p)
  {
    var w := WOf(x.a, NttAll(y), p);
    var ct := shake.shake256(x.mu + W1Encode(HighBitsAll(w, p.g2), p.g2), p.lam / 4);
    match BallOf(shake.shake256(ct, XOF_BYTES), p.tau)
    case None => None
    case Some(c) =>
      var ch := NttOf(DSA, c);
      var wm, ct0 := PsubAll(w, MulAll(ch, x.s2h)), MulAll(ch, x.t0h);
      Some(Attempt(ct, c, w, PaddAll(y, MulAll(ch, x.s1h)), wm, ct0, HintAll(ct0, wm, p.g2)))
  }

  /** None of the four reasons to reject applies. */
  predicate Passes(t: Attempt, p: Params)
    requires IsParams(p) && IsAttempt(t, p)
  {
    && InfNorm(t.z) < p.g1 - p.Beta()
    && MaxAbs(LowBitsAll(t.wm, p.g2)) < p.g2 - p.Beta()
    && InfNorm(t.ct0) < p.g2
    && SumAll(t.h, p.k) <= p.omega
  }

  function Encoded(t: Attempt, p: Params): Bytes
    requires IsParams(p) && IsAttempt(t, p) && Passes(t, p)
  {
    SumAllIsCount(t.h, p.k);
    SigEncode(t.ct, t.z, t.h, p)
  }

  /** The first attempt from kappa on that passes; the two-byte counter of the mask bounds the search. */
  function SignFrom(shake: Shake, x: Signer, kappa: nat, p: Params): Option<Bytes>
    requires shake.Valid() && IsParams(p) && IsSigner(x, p)
    decreases 65536 - kappa
  {
    if kappa + p.l > 65536 then None
    else
      match AttemptOf(shake, x, ExpandMask(shake, x.rhopp, kappa, p), p)
      case None => None
      case Some(t) => if Passes(t, p) then Some(Encoded(t, p)) else SignFrom(shake, x, kappa + p.l, p)
  }

  /** A key that is too short raises an exception while it is decoded. */
  function SignerOf(shake: Shake, sk: Bytes, msg: Bytes, rnd: Bytes, p: Params, mu: Option<Bytes>): (x: Option<Signer>)
    requires shake.Valid() && IsParams(p)
    ensures x.Some? ==> IsSigner(x.value, p)
  {
    if |sk| < SkLen(p) then None
    else
      var s := SkDecode(sk, p);
      match ExpandA(shake, s.rho, p)
      case None => None
      case Some(a) =>
        var m := if mu.Some? then mu.value else shake.shake256(s.tr + msg, 64);
        Some(Signer(a, NttAll(s.s1), NttAll(s.s2), NttAll(s.t0), m, shake.shake256(s.key + rnd + m, 64)))
  }

  function SignOf(shake: Shake, sk: Bytes, msg: Bytes, rnd: Bytes, p: Params, mu: Option<Bytes>): Option<Bytes>
    requires shake.Valid() && IsParams(p)
  {
    match SignerOf(shake, sk, msg, rnd, p, mu)
    case None => None
    case Some(x) => SignFrom(shake, x, 0, p)
  }

  method WLoop(a: Matrix, yh: seq<Poly>, p: Params) returns (w: seq<Poly>)
    requires IsMatrix(a, p) && |yh| == p.l
    ensures w == WOf(a, yh, p)
  {
    hide InttOf, Row;
    w := [];
    for r := 0 to p.k
      invariant w == WOf(a, yh, p)[..r]
    {
      var acc := RowTimes(a[r], yh, p.l);
      var f := Intt(acc);
      w := w + [f];
    }
  }

  /** What precedes the loop. */
  method Prepare(shake: Shake, sk: Bytes, msg: Bytes, rnd: Bytes, p: Params, mu: Option<Bytes>)
    returns (x: Option<Signer>)
    requires shake.Valid() && IsParams(p)
    ensures x == SignerOf(shake, sk, msg, rnd, p, mu)
  {
    hide NttAll, ExpandA, SkDecode;
    if |sk| < SkLen(p) { return None; }
    var s := SkDecode(sk, p);
    var s1h := TransformAll(s.s1);
    var s2h := TransformAll(s.s2);
    var t0h := TransformAll(s.t0);
    var a := ExpandMatrix(shake, s.rho, p);
    if a.None? { return None; }
    var m := if mu.Some? then mu.value else shake.shake256(s.tr + msg, 64);
    x := Some(Signer(a.value, s1h, s2h, t0h, m, shake.shake256(s.key + rnd + m, 64)));
  }

  method Sign(shake: Shake, sk: Bytes, msg: Bytes, rnd: Bytes, p: Params, mu: Option<Bytes>)
    returns (sig: Option<Bytes>)
    requires shake.Valid() && IsParams(p)
    ensures sig == SignOf(shake, sk, msg, rnd, p, mu)
  {
    hide SignerOf, AttemptOf, ExpandMask, Passes, Encoded;
    var signer := Prepare(shake, sk, msg, rnd, p, mu);
    if signer.None? { return None; }
    var x := signer.value;
    var kappa := 0;
    while true
      invariant SignOf(shake, sk, msg, rnd, p, mu) == SignFrom(shake, x, kappa, p)
      decreases 65536 - kappa
    {
      if kappa + p.l > 65536 { return None; }
      var t := TryOnce(shake, x, ExpandMask(shake, x.rhopp, kappa, p), p);
      kappa := kappa + p.l;
      if t.None? { return None; }
      if Passes(t.value, p) {
        var e := Encode(t.value, p);
        return Some(e);
      }
    }
  }

  method Encode(t: Attempt, p: Params) returns (b: Bytes)
    requires IsParams(p) && IsAttempt(t, p) && Passes(t, p)
    ensures b == Encoded(t, p)
  {
    hide AllOnes, SumAll, InfNorm, MaxAbs, LowBitsAll;
    SumAllIsCount(t.h, p.k);
    Shape(p);
    var y := HintBitPack(t.h, p.k, p.omega);
    b := t.ct + PackAll(t.z, p.g1 - 1, p.g1) + y.value;
  }

  /** The body of the loop up to the tests. */
  method TryOnce(shake: Shake, x: Signer, y: seq<Poly>, p: Params) returns (t: Option<Attempt>)
    requires shake.Valid() && IsParams(p) && IsSigner(x, p) && |y| == p.l
    ensures t == AttemptOf(shake, x, y, p)
  {
    hide W1Encode, HighBitsAll, MulAll, NttAll, NttOf, PsubAll, PaddAll, HintAll, WOf, BallOf;
    var yh := TransformAll(y);
    var w := WLoop(x.a, yh, p);
    var w1 := HighBitsAll(w, p.g2);
    var ct := shake.shake256(x.mu + W1Encode(w1, p.g2), p.lam / 4);
    var cc := SampleInBall(shake, ct, p.tau);
    if cc.None? { return None; }
    var ch := Ntt(cc.value);
    var cs1 := MulEach(ch, x.s1h);
    var cs2 := MulEach(ch, x.s2h);
    var z, wm := PaddAll(y, cs1), PsubAll(w, cs2);
    var ct0 := MulEach(ch, x.t0h);
    t := Some(Attempt(ct, cc.value, w, z, wm, ct0, HintAll(ct0, wm, p.g2)));
  }

  // ---------- verification ----------

  function UseHintPoly(h: Poly, w: Poly, g2: int): Poly
    requires IsG2(g2)
  {
    seq(256, j requires 0 <= j < 256 => UseHint(h[j], w[j], g2))
  }

  function UseHintAll(h: seq<Poly>, w: seq<Poly>, g2: int): (r: seq<Poly>)
    requires IsG2(g2) && |h| == |w|
    ensures |r| == |h|
  {
    seq(|h|, i requires 0 <= i < |h| => UseHintPoly(h[i], w[i], g2))
  }

  function Reduced(w: Poly): Poly {
    seq(256, j requires 0 <= j < 256 => w[j] % Q)
  }

  function ReducedAll(v: seq<Poly>): (r: seq<Poly>)
    ensures |r| == |v|
  {
    seq(|v|, i requires 0 <= i < |v| => Reduced(v[i]))
  }

  /** (x << D) % Q. */
  function ShiftedUp(w: Poly): Poly {
    seq(256, j requires 0 <= j < 256 => w[j] * 8192 % Q)
  }

  /** w' = intt(A zh - ch ntt(t1 2^13)). */
  function Recomputed(a: Matrix, zh: seq<Poly>, ch: Poly, t1: seq<Poly>, p: Params): (w: seq<Poly>)
    requires IsMatrix(a, p) && |zh| == p.l && |t1| == p.k
    ensures |w| == p.k
  {
    seq(p.k, r requires 0 <= r < p.k => InttOf(DSA, Psub(Row(a[r], zh, p.l), Pmul(ch, NttOf(DSA, ShiftedUp(t1[r]))))))
  }

  ghost function VerifyOf(shake: Shake, pk: Bytes, msg: Bytes, sig: Bytes, p: Params, mu: Option<Bytes>): Option<bool>
    requires shake.Valid() && IsParams(p)
  {
    if |sig| != SigLen(p) || |pk| != PkLen(p) then Some(false)
    else
      var (rho, t1) := PkDecode(pk, p);
      var (ct, z, h) := SigDecode(sig, p);
      if h.None? then Some(false)
      else
        match ExpandA(shake, rho, p)
        case None => None
        case Some(a) =>
          var m := if mu.Some? then mu.value else shake.shake256(shake.shake256(pk, 64) + msg, 64);
          match BallOf(shake.shake256(ct, XOF_BYTES), p.tau)
          case None => None
          case Some(c) =>
            var w := Recomputed(a, NttAll(ReducedAll(z)), NttOf(DSA, c), t1, p);
            var w1 := UseHintAll(h.value, w, p.g2);
            var ct2 := shake.shake256(m + W1Encode(w1, p.g2), p.lam / 4);
            Some(MaxAbs(z) < p.g1 - p.Beta() && ct == ct2)
  }

  method Verify(shake: Shake, pk: Bytes, msg: Bytes, sig: Bytes, p: Params, mu: Option<Bytes>) returns (r: Option<bool>)
    requires shake.Valid() && IsParams(p)
    ensures r == VerifyOf(shake, pk, msg, sig, p, mu)
  {
    hide W1Encode, UseHintAll, NttAll, NttOf, Recomputed, BallOf, ReducedAll, MaxAbs, ExpandA, HintOf, PkDecode;
    hide UnpackAll;
    hide BitLength, Row, RejNttOf;
    Shape(p);
    if |sig| != SigLen(p) || |pk| != PkLen(p) { return Some(false); }
    var (rho, t1) := PkDecode(pk, p);
    ZBitsIsLength(p);
    var cl, zb := p.lam / 4, 32 * ZBits(p);
    var ct, z := sig[..cl], UnpackAll(sig, cl, zb, p.l, p.g1 - 1, p.g1);
    var h := HintBitUnpack(sig[cl + zb * p.l..], p.k, p.omega);
    if h.None? { return Some(false); }
    var a := ExpandMatrix(shake, rho, p);
    if a.None? { return None; }
    var m := if mu.Some? then mu.value else shake.shake256(shake.shake256(pk, 64) + msg, 64);
    var c := SampleInBall(shake, ct, p.tau);
    if c.None? { return None; }
    var ch := Ntt(c.value);
    var zh := TransformAll(ReducedAll(z));
    var w := RecomputeLoop(a.value, zh, ch, t1, p);
    var w1 := UseHintAll(h.value, w, p.g2);
    var ct2 := shake.shake256(m + W1Encode(w1, p.g2), p.lam / 4);
    var zn := MaxAbs(z);
    r := Some(zn < p.g1 - p.Beta() && ct == ct2);
  }

  method RecomputeLoop(a: Matrix, zh: seq<Poly>, ch: Poly, t1: seq<Poly>, p: Params) returns (w: seq<Poly>)
    requires IsMatrix(a, p) && |zh| == p.l && |t1| == p.k
    ensures w == Recomputed(a, zh, ch, t1, p)
  {
    hide InttOf, NttOf, Row, Psub, Pmul, ShiftedUp;
    w := [];
    for r := 0 to p.k
      invariant w == Recomputed(a, zh, ch, t1, p)[..r]
    {
      var acc := RowTimes(a[r], zh, p.l);
      var t := Ntt(ShiftedUp(t1[r]));
      var f := Intt(Psub(acc, Pmul(ch, t)));
      w := w + [f];
    }
  }
}
