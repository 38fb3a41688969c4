/** Byte strings as numbers: packed fields are the digits of one little-endian number. */
module Numerals {
  import opened Arithmetic
  import opened Modular
  import opened BitFields
  import opened Concatenation

  /** The number that bytes spell, the lowest byte first. */
  function Number(v: Bytes): nat {
    if v == [] then 0 else v[0] + 256 * Number(v[1..])
  }

  /** The number with these digits, the lowest first. */
  function Digits(w: seq<int>, base: nat): int {
    if w == [] then 0 else w[0] + base * Digits(w[1..], base)
  }

  lemma {:induction false} NumberOfBits(s: Bits)
    requires AreBits(s) && |s| % 8 == 0
    ensures Number(BytesOf(s)) == Value(s)
  {
    if s != [] {
      NumberOfBits(s[8..]);
      assert s == s[..8] + s[8..];
      ValueConcat(s[..8], s[8..]);
      ByteBits();
      assert BytesOf(s) == [Value(s[..8])] + BytesOf(s[8..]) by { ValueBelow(s[..8], 8); }
    }
  }

  lemma {:induction false} FieldsAreDigits(w: seq<int>, n: nat)
    requires forall i :: 0 <= i < |w| ==> 0 <= w[i] < Pow2(n)
    ensures Value(Fields(w, n)) == Digits(w, Pow2(n))
  {
    if w != [] {
      FieldsLength(|w|, n);
      FieldsAreDigits(w[1..], n);
      ValueConcat(ToBits(w[0], n), Fields(w[1..], n));
      ValueToBits(w[0], n);
      Commuted(Digits(w[1..], Pow2(n)), Pow2(n));
    }
  }

  lemma Commuted(a: int, b: int)
    ensures a * b == b * a
  {}

  lemma PackedNumber(w: Poly, n: nat)
    requires forall i :: 0 <= i < 256 ==> 0 <= w[i] < Pow2(n)
    ensures Number(BytesOf(Fields(w, n))) == Digits(w, Pow2(n))
  {
    hide Fields, BytesOf, Value, Pow2, Number, Digits;
    FieldsAreDigits(w, n);
    WholeBytes(n);
    NumberOfBits(Fields(w, n));
  }

  lemma WholeBytes(n: nat)
    ensures (256 * n) % 8 == 0
  {
    assert 256 * n == 8 * (32 * n);
  }

  /** Place i, of len bytes, after the first o bytes of s spells the number with these digits. */
  predicate Holds(s: Bytes, o: nat, len: nat, i: nat, w: Poly, base: nat) {
    0 <= len * i <= len * (i + 1) && o + len * (i + 1) <= |s|
      && Number(s[o + len * i..o + len * (i + 1)]) == Digits(w, base)
  }

  lemma PartHolds(s: Bytes, o: nat, len: nat, i: nat, count: nat, w: Poly, base: nat)
    requires i < count && o + len * count <= |s| && Number(Part(s, o, len, i, count)) == Digits(w, base)
    ensures Holds(s, o, len, i, w, base)
  {
    PartBounds(len, i, count);
  }

  /** Bit k of a byte string, the lowest bit of the first byte first. */
  function StreamBit(b: Bytes, k: nat): nat
    requires k / 8 < |b|
  {
    BitAt(b[k / 8], k % 8)
  }

  lemma {:induction false} ToBitsAt(x: nat, n: nat, k: nat)
    requires k < n
    ensures ToBits(x, n)[k] == BitAt(x, k)
  {
    if k > 0 {
      ToBitsAt(x / 2, n - 1, k - 1);
    }
  }

  lemma {:induction false} BitsOfAt(b: Bytes, k: nat)
    requires k < 8 * |b|
    ensures BitsOf(b)[k] == StreamBit(b, k)
  {
    if k < 8 {
      ToBitsAt(b[0], 8, k);
    } else {
      BitsOfAt(b[1..], k - 8);
    }
  }
}
