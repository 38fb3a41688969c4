/** Packing of coefficients into bytes, scripts/mldsa/mldsa_ref.py (FIPS 204, Algorithms 16 to 19). */
module BitPacking {
  import opened Arithmetic
  import opened Modular
  import opened MlDsaNtt
  import opened Rounding
  import opened BitFields

  // ---------- the packing functions ----------

  function SimpleBitPack(w: Poly, b: nat): (v: Bytes)
    ensures |v| == 32 * BitLength(b)
  {
    BytesOf(Fields(w, BitLength(b)))
  }

  function SimpleBitUnpack(v: Bytes, b: nat): (w: Poly)
    requires |v| >= 32 * BitLength(b)
    ensures forall i :: 0 <= i < 256 ==> w[i] >= 0
  {
    ReadFields(BitsOf(v), BitLength(b), 256)
  }

  function BitPack(w: Poly, a: nat, b: nat): (v: Bytes)
    ensures |v| == 32 * BitLength(a + b)
  {
    BytesOf(Fields(seq(256, i requires 0 <= i < 256 => b - ModPm(w[i], Q)), BitLength(a + b)))
  }

  function BitUnpack(v: Bytes, a: nat, b: nat): (w: Poly)
    requires |v| >= 32 * BitLength(a + b)
  {
    var f := ReadFields(BitsOf(v), BitLength(a + b), 256);
    seq(256, i requires 0 <= i < 256 => b - f[i])
  }

  /** Coefficients up to b survive packing. */
  lemma SimpleRoundTrip(w: Poly, b: nat)
    requires forall i :: 0 <= i < 256 ==> 0 <= w[i] <= b
    ensures SimpleBitUnpack(SimpleBitPack(w, b), b) == w
  {
    var n := BitLength(b);
    BelowBitLength(b);
    hide BitLength, Fields, BitsOf, BytesOf, ReadFields, Pow2;
    BitsOfBytesOf(Fields(w, n));
    ReadFieldsOfFields(w, n);
  }

  /** Every byte string of the right length is the packing of what it unpacks to. */
  lemma SimpleCanonical(v: Bytes, b: nat)
    requires |v| == 32 * BitLength(b)
    ensures SimpleBitPack(SimpleBitUnpack(v, b), b) == v
  {
    FieldsOfReadFields(BitsOf(v), BitLength(b), 256);
    BytesOfBitsOf(v);
  }

  /** Coefficients whose centred value is in [-a, b] come back centred. */
  lemma CentredRoundTrip(w: Poly, a: nat, b: nat)
    requires forall i :: 0 <= i < 256 ==> -(a as int) <= ModPm(w[i], Q) <= b
    ensures forall i :: 0 <= i < 256 ==> BitUnpack(BitPack(w, a, b), a, b)[i] == ModPm(w[i], Q)
  {
    hide ModPm;
    var n := BitLength(a + b);
    var f := seq(256, i requires 0 <= i < 256 => b - ModPm(w[i], Q));
    BelowBitLength(a + b);
    BitsOfBytesOf(Fields(f, n));
    ReadFieldsOfFields(f, n);
  }

  /** When a + b + 1 is a power of two every byte string of the right length is a packing. */
  lemma CentredCanonical(v: Bytes, a: nat, b: nat)
    requires |v| == 32 * BitLength(a + b) && a + b + 1 == Pow2(BitLength(a + b)) && 2 * a < Q && 2 * b < Q
    ensures BitPack(BitUnpack(v, a, b), a, b) == v
  {
    var n := BitLength(a + b);
    var f := ReadFields(BitsOf(v), n, 256);
    var w := BitUnpack(v, a, b);
    FieldsOfReadFields(BitsOf(v), n, 256);
    forall i | 0 <= i < 256
      ensures b - ModPm(w[i], Q) == f[i]
    {
      CentredIsItself(w[i]);
    }
    assert seq(256, i requires 0 <= i < 256 => b - ModPm(w[i], Q)) == f;
    BytesOfBitsOf(v);
  }

  lemma CentredIsItself(x: int)
    requires -(Q as int) < 2 * x < Q
    ensures ModPm(x, Q) == x
  {}
}
