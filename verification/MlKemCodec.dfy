/** Encoding, compression and sampling of scripts/mlkem/mlkem_ref.py (FIPS 203, sections 4.2.1 and 4.2.2). */
module MlKemCodec {
  import opened Arithmetic
  import opened Modular
  import opened Options
  import opened MlKemNtt
  import opened BitFields
  import opened Hashing

  // ---------- encoding ----------

  /** The modulus of d-bit coefficients. */
  function FieldModulus(d: nat): (m: nat)
    ensures m > 0
  {
    if d == 12 then Q else Pow2(d)
  }

  function ReducedFields(f: Poly, d: nat): (r: seq<nat>)
    ensures |r| == 256 && forall i :: 0 <= i < 256 ==> r[i] < FieldModulus(d)
  {
    seq(256, i requires 0 <= i < 256 => Residue(f[i], d))
  }

  /** x modulo the modulus of d-bit coefficients. */
  function Residue(x: int, d: nat): (r: nat)
    ensures r < FieldModulus(d)
  {
    C(FieldModulus(d), x)
  }

  lemma ModulusFits(d: nat)
    ensures FieldModulus(d) <= Pow2(d)
  {
    if d == 12 {
      Pow2Is4096();
    }
  }

  lemma Pow2Is4096()
    ensures Pow2(12) == 4096
  {}

  lemma ResidueOf(x: nat, d: nat)
    requires x < FieldModulus(d)
    ensures Residue(x, d) == x
  {
    hide FieldModulus;
    CRange(FieldModulus(d), x);
  }

  function ByteEncodeOf(f: Poly, d: nat): (b: Bytes)
    ensures |b| == 32 * d
  {
    BytesOf(Fields(ReducedFields(f, d), d))
  }

  /** The encoder builds one large integer by or-ing in shifted coefficients. */
  method ByteEncode(f: Poly, d: nat) returns (b: Bytes)
    ensures b == ByteEncodeOf(f, d)
  {
    hide Fields, Value, Or, BytesOf, FieldModulus, Pow2;
    ghost var r := ReducedFields(f, d);
    var bits: nat := 0;
    EmptyFields(d);
    for i := 0 to 256
      invariant bits == Value(Fields(r[..i], d))
    {
      OredStep(r, i, d);
      bits := Or(bits, Residue(f[i], d) * Pow2(d * i));
    }
    assert r[..256] == r;
    LittleBytesOfValue(Fields(r, d));
    b := LittleBytes(bits, 32 * d);
  }

  lemma OredStep(r: seq<nat>, i: nat, d: nat)
    requires i < |r| && r[i] < FieldModulus(d)
    ensures Or(Value(Fields(r[..i], d)), r[i] * Pow2(d * i)) == Value(Fields(r[..i + 1], d))
  {
    ModulusFits(d);
    hide Fields, Value, Or, FieldModulus, Pow2;
    var s := Fields(r[..i], d);
    FieldStep(r, i, d);
    assert |s| == d * i;
    ToBitsValue(s);
    OrAboveIsSum(Value(s), r[i], d * i);
  }

  lemma EmptyFields(d: nat)
    ensures Value(Fields([], d)) == 0
  {}

  lemma FieldStep(r: seq<nat>, i: nat, d: nat)
    requires i < |r| && r[i] < Pow2(d)
    ensures Value(Fields(r[..i + 1], d)) == Value(Fields(r[..i], d)) + r[i] * Pow2(i * d)
  {
    assert r[..i + 1] == r[..i] + [r[i]];
    FieldsAppend(r[..i], r[i], d);
    ValueConcat(Fields(r[..i], d), ToBits(r[i], d));
    ValueToBits(r[i], d);
  }

  function ZeroBits(n: nat): (s: Bits)
    ensures |s| == n && AreBits(s)
  {
    seq(n, _ => 0)
  }

  /** Fields of d bits of a little-endian integer; beyond the end of the bytes its bits are zero. */
  function ByteDecode(b: Bytes, d: nat): (f: Poly)
    ensures forall i :: 0 <= i < 256 ==> 0 <= f[i] < FieldModulus(d)
  {
    var w := ReadFields(BitsOf(b) + ZeroBits(256 * d), d, 256);
    seq(256, i requires 0 <= i < 256 => Residue(w[i], d))
  }

  lemma {:induction false} ReadFieldsPrefix(s: Bits, t: Bits, n: nat, count: nat)
    requires |s| >= count * n
    ensures ReadFields(s + t, n, count) == ReadFields(s, n, count)
  {
    if count > 0 {
      FieldsLength(count, n);
      ReadFieldsPrefix(s[n..], t, n, count - 1);
      assert (s + t)[n..] == s[n..] + t && (s + t)[..n] == s[..n];
    }
  }

  lemma DecodedFields(b: Bytes, d: nat)
    requires |b| == 32 * d
    ensures ByteDecode(b, d) ==
      seq(256, i requires 0 <= i < 256 => Residue(ReadFields(BitsOf(b), d, 256)[i], d))
  {
    hide FieldModulus;
    ReadFieldsPrefix(BitsOf(b), ZeroBits(256 * d), d, 256);
  }

  lemma EncodedFields(f: Poly, d: nat)
    ensures ReadFields(BitsOf(ByteEncodeOf(f, d)), d, 256) == ReducedFields(f, d)
  {
    hide FieldModulus, Residue;
    var r := ReducedFields(f, d);
    ModulusFits(d);
    BitsOfBytesOf(Fields(r, d));
    ReadFieldsOfFields(r, d);
  }

  /** Decoding an encoding gives the coefficients reduced. */
  lemma DecodeEncode(f: Poly, d: nat)
    ensures ByteDecode(ByteEncodeOf(f, d), d) == ReducedFields(f, d)
  {
    hide FieldModulus, ReadFields, Residue, ByteEncodeOf, BitsOf, ByteDecode;
    var r, b := ReducedFields(f, d), ByteEncodeOf(f, d);
    EncodedFields(f, d);
    DecodedFields(b, d);
    forall i | 0 <= i < 256
      ensures ByteDecode(b, d)[i] == r[i]
    {
      ResidueOf(r[i], d);
    }
  }

  /** Every coefficient field of b is below the modulus. */
  ghost predicate FieldsBelow(b: Bytes, d: nat)
    requires |b| == 32 * d
  {
    forall i :: 0 <= i < 256 ==> ReadFields(BitsOf(b), d, 256)[i] < FieldModulus(d)
  }

  /** Encoding what was decoded gives the bytes back exactly when every field is below the modulus. */
  lemma EncodeDecode(b: Bytes, d: nat)
    requires |b| == 32 * d
    ensures ByteEncodeOf(ByteDecode(b, d), d) == b <==> FieldsBelow(b, d)
  {
    hide FieldModulus, Fields, ReadFields, BitsOf, BytesOf, Residue;
    var w := ReadFields(BitsOf(b), d, 256);
    DecodedFields(b, d);
    var f := ByteDecode(b, d);
    var r := ReducedFields(f, d);
    forall i | 0 <= i < 256
      ensures r[i] == Residue(w[i], d)
    {
      ResidueOf(f[i], d);
    }
    if FieldsBelow(b, d) {
      forall i | 0 <= i < 256
        ensures r[i] == w[i]
      {
        ResidueOf(w[i], d);
      }
      assert r == w;
      FieldsOfReadFields(BitsOf(b), d, 256);
      BytesOfBitsOf(b);
    }
    if ByteEncodeOf(f, d) == b {
      EncodedFields(f, d);
    }
  }

  // ---------- compression ----------

  function Compress(x: int, d: nat): (y: int)
    ensures 0 <= y < Pow2(d)
  {
    (x * Pow2(d) + Q / 2) / Q % Pow2(d)
  }

  function Decompress(y: int, d: nat): int
    requires d > 0
  {
    (y * Q + Pow2(d - 1)) / Pow2(d)
  }

  /** The representative of x nearest to zero. */
  function Centred(x: int): (c: int)
    ensures -1664 <= c <= 1664 && C(Q, c) == C(Q, x)
  {
    var r := x % Q;
    if r > 1664 then r - Q else r
  }

  lemma CentredOf(x: int, c: int)
    requires -1664 <= c <= 1664 && C(Q, c) == C(Q, x)
    ensures Centred(x) == c
  {}

  lemma Scale(a: int, b: int, p: nat)
    requires a <= b
    ensures a * p <= b * p
  {}

  /** Compression rounds x 2^d / q to the nearest integer and wraps 2^d around to 0. */
  lemma CompressRounds(x: int, d: nat, p: nat) returns (n: int)
    requires 0 <= x < Q && p == Pow2(d)
    ensures 0 <= n <= p && n * Q <= x * p + 1664 < n * Q + Q
    ensures Compress(x, d) == if n < p then n else 0
  {
    hide Pow2;
    n := Nearest(x, p);
    WrapAtTop(n, p);
  }

  lemma Nearest(x: int, p: nat) returns (n: int)
    requires 0 <= x < Q && p > 0
    ensures n == (x * p + 1664) / Q && 0 <= n <= p && n * Q <= x * p + 1664 < n * Q + Q
  {
    Scale(x, 3328, p);
    Scale(0, x, p);
    var t := x * p;
    n := (t + 1664) / Q;
  }

  lemma WrapAtTop(n: nat, p: nat)
    requires 0 < p && n <= p
    ensures n % p == if n < p then n else 0
  {
    if n < p {
      ModBelow(n, p);
    }
  }

  lemma ModBelow(x: nat, m: nat)
    requires x < m
    ensures x % m == x
  {}

  lemma DecompressRounds(y: int, d: nat, p: nat)
    requires d > 0 && p == Pow2(d)
    ensures var m := Decompress(y, d); m * p <= y * Q + p / 2 < m * p + p
  {
    assert Pow2(d - 1) == p / 2;
    var t := y * Q + p / 2;
    assert t == (t / p) * p + t % p;
  }

  /** Compressing to d bits and back moves a coefficient by at most q / 2^(d + 1), rounded, modulo q. */
  lemma CompressError(x: int, d: nat)
    requires 0 <= x < Q && 0 < d < 12
    ensures 0 <= Decompress(Compress(x, d), d) <= Q
    ensures var e := Centred(Decompress(Compress(x, d), d) - x);
      -3328 - Pow2(d) <= 2 * (Pow2(d) * e) <= 3328 + Pow2(d)
  {
    hide Compress, Decompress, Centred, C;
    var p, y := Pow2(d), Compress(x, d);
    assert p >= 2;
    var n := CompressRounds(x, d, p);
    DecompressRounds(y, d, p);
    hide Pow2;
    var m := Decompress(y, d);
    RoundingError(x, p, n, y, m);
    var w := if n < p then m - x else m - x + Q;
    SmallError(w, p);
    CMultiple(Q, m - x, 1);
    CentredOf(m - x, w);
  }

  /** The rounding error of decompressing, with the wrap of the largest value to zero undone. */
  lemma RoundingError(x: int, p: nat, n: int, y: int, m: int)
    requires 0 <= x < Q && p >= 2 && 0 <= n <= p && n * Q <= x * p + 1664 < n * Q + Q && y == (if n < p then n else 0)
    requires m * p <= y * Q + p / 2 < m * p + p
    ensures var w := if n < p then m - x else m - x + Q; -3328 - p <= 2 * (p * w) <= 3328 + p
    ensures 0 <= m <= Q
  {
    assert p * (m - x) == m * p - x * p;
    assert p * (m - x + Q) == m * p - x * p + p * Q;
    if m < 0 {
      Scale(m, -1, p);
    } else if m > Q {
      Scale(Q + 1, m, p);
    }
  }

  lemma SmallError(w: int, p: nat)
    requires p >= 2 && -3328 - p <= 2 * (p * w) <= 3328 + p
    ensures -1664 <= w <= 1664
  {
    if w > 1664 {
      Scale(1665, w, p);
    } else if w < -1664 {
      Scale(w, -1665, p);
    }
  }

  /** A bit sent as 0 or 1665 is read back exactly when the noise added to it is within -832 and 832 less
      the bit. */
  lemma BitSurvives(bit: nat, w: int)
    requires bit < 2 && 0 <= w < Q
    ensures Compress(w, 1) == bit <==> -832 <= Centred(w - Decompress(bit, 1)) <= 832 - bit
  {
    assert Pow2(1) == 2 && Pow2(0) == 1;
    var mu := Decompress(bit, 1);
    assert mu == if bit == 0 then 0 else 1665;
    var n := (2 * w + 1664) / 3329;
    assert Compress(w, 1) == n % 2 && 0 <= n <= 2;
  }

  // ---------- sampling ----------

  /** The candidates of one group of three bytes that are below q. */
  function Candidates(c0: nat, c1: nat, c2: nat): (a: seq<int>)
    ensures forall i :: 0 <= i < |a| ==> 0 <= a[i] < Q
  {
    var d1, d2 := c0 + 256 * (c1 % 16), c1 / 16 + 16 * c2;
    (if d1 < Q then [d1] else []) + (if d2 < Q then [d2] else [])
  }

  function Accepted(buf: Bytes, n: nat): (a: seq<int>)
    requires 3 * n <= |buf|
    ensures forall i :: 0 <= i < |a| ==> 0 <= a[i] < Q
  {
    if n == 0 then []
    else Accepted(buf, n - 1) + Candidates(buf[3 * n - 3], buf[3 * n - 2], buf[3 * n - 1])
  }

  lemma {:induction false} AcceptedPrefix(buf: Bytes, m: nat, n: nat)
    requires m <= n && 3 * n <= |buf|
    ensures Accepted(buf, m) <= Accepted(buf, n)
  {
    if m < n {
      AcceptedPrefix(buf, m, n - 1);
    }
  }

  /** The first 256 accepted candidates of the stream. */
  function SampleNttOf(buf: Bytes): (r: Option<Poly>)
    ensures r.Some? ==> forall i :: 0 <= i < 256 ==> 0 <= r.value[i] < Q
  {
    var a := Accepted(buf, |buf| / 3);
    if |a| >= 256 then Some(a[..256]) else None
  }

  const XOF_BYTES: nat := 2520

  method SampleNtt(shake: Shake, seed: Bytes) returns (r: Option<Poly>)
    requires shake.Valid()
    ensures r == SampleNttOf(shake.shake128(seed, XOF_BYTES))
  {
    var xof := shake.shake128(seed, XOF_BYTES);
    var a: seq<int>, i := [], 0;
    ghost var n := 0;
    while |a| < 256
      invariant i == 3 * n <= |xof| && a == First256(Accepted(xof, n))
      decreases |xof| - i
    {
      if i + 2 >= |xof| {
        assert n == |xof| / 3;
        return None;
      }
      var c0, c1, c2: nat := xof[i], xof[i + 1], xof[i + 2];
      i := i + 3;
      var d1: nat, d2: nat := c0 + 256 * (c1 % 16), c1 / 16 + 16 * c2;
      ghost var before := Accepted(xof, n);
      assert Candidates(c0, c1, c2) == (if d1 < Q then [d1] else []) + (if d2 < Q then [d2] else []);
      n := n + 1;
      assert Accepted(xof, n) == before + Candidates(c0, c1, c2);
      if d1 < Q {
        a := a + [d1];
      }
      if d2 < Q && |a| < 256 {
        a := a + [d2];
      }
    }
    AcceptedPrefix(xof, n, |xof| / 3);
    assert a == Accepted(xof, |xof| / 3)[..256];
    r := Some(a);
  }

  /** The number of ones among n bits from position i. */
  function BitSum(s: Bits, i: nat, n: nat): (x: nat)
    requires i + n <= |s| && AreBits(s)
    ensures x <= n
  {
    if n == 0 then 0 else BitSum(s, i, n - 1) + s[i + n - 1]
  }

  /** The difference of two sums of eta bits. */
  function CbdAt(s: Bits, i: nat, eta: nat): (x: int)
    requires AreBits(s) && 2 * eta * i + 2 * eta <= |s|
    ensures 0 <= x < Q && (eta < 1000 ==> -(eta as int) <= Centred(x) <= eta)
  {
    var x, y := BitSum(s, 2 * eta * i, eta), BitSum(s, 2 * eta * i + eta, eta);
    if eta < 1000 then
      CIdem(Q, x - y);
      CentredOf(C(Q, x - y), x - y);
      C(Q, x - y)
    else C(Q, x - y)
  }

  lemma CbdBound(eta: nat, i: nat, n: nat)
    requires i < 256 && n >= 512 * eta
    ensures 2 * eta * i + 2 * eta <= n
  {
    assert 2 * eta * i <= 2 * eta * 255;
  }

  function SampleCbdOf(b: Bytes, eta: nat): (f: Poly)
    requires |b| == 64 * eta
    ensures forall i :: 0 <= i < 256 ==> 0 <= f[i] < Q
  {
    seq(256, i requires 0 <= i < 256 => (CbdBound(eta, i, 512 * eta); CbdAt(BitsOf(b), i, eta)))
  }

  method SampleCbd(b: Bytes, eta: nat) returns (f: Poly)
    requires |b| == 64 * eta
    ensures f == SampleCbdOf(b, eta)
  {
    hide CbdAt, BitsOf;
    var bits := BitsOf(b);
    var a: seq<int> := [];
    ghost var full := SampleCbdOf(b, eta);
    for i := 0 to 256
      invariant a == full[..i]
    {
      CbdBound(eta, i, 512 * eta);
      a := a + [CbdAt(bits, i, eta)];
    }
    f := a;
  }

  /** A centred binomial sample is small. */
  lemma CbdSmall(b: Bytes, eta: nat, i: nat)
    requires |b| == 64 * eta && eta < 1000 && i < 256
    ensures -(eta as int) <= Centred(SampleCbdOf(b, eta)[i]) <= eta
  {
    CbdBound(eta, i, 512 * eta);
  }
}
