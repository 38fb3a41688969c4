/** Bits, bytes and fixed-width fields, least significant bit first: the common part of the codecs of
    scripts/mldsa/mldsa_ref.py and scripts/mlkem/mlkem_ref.py. */
module BitFields {
  import opened Arithmetic

  type Byte = x: int | 0 <= x < 256
  type Bytes = seq<Byte>
  type Bits = seq<nat>

  predicate AreBits(s: Bits) {
    forall i :: 0 <= i < |s| ==> s[i] < 2
  }

  // ---------- numbers and bits ----------

  /** b.bit_length(). */
  function BitLength(b: nat): nat {
    if b == 0 then 0 else 1 + BitLength(b / 2)
  }

  /** The n low bits of x, least significant first; shifts round down, also below zero. */
  function ToBits(x: int, n: nat): (s: Bits)
    ensures |s| == n && AreBits(s)
    decreases n, x
  {
    if n == 0 then [] else [x % 2] + ToBits(x / 2, n - 1)
  }

  /** The sum of bit i shifted left by i. */
  function Value(s: Bits): nat {
    if s == [] then 0 else s[0] + 2 * Value(s[1..])
  }

  lemma {:induction false} BelowBitLength(b: nat)
    ensures b < Pow2(BitLength(b))
  {
    if b > 0 {
      BelowBitLength(b / 2);
    }
  }

  lemma {:induction false} ValueToBits(x: nat, n: nat)
    requires x < Pow2(n)
    ensures Value(ToBits(x, n)) == x
  {
    if n > 0 {
      ValueToBits(x / 2, n - 1);
      assert ToBits(x, n)[1..] == ToBits(x / 2, n - 1);
    }
  }

  lemma {:induction false} ToBitsValue(s: Bits)
    requires AreBits(s)
    ensures ToBits(Value(s), |s|) == s && Value(s) < Pow2(|s|)
  {
    if s != [] {
      ToBitsValue(s[1..]);
      assert s == [s[0]] + s[1..];
    }
  }

  lemma {:induction false} ValueAppend(s: Bits, b: nat)
    ensures Value(s + [b]) == Value(s) + b * Pow2(|s|)
  {
    if s == [] {
      assert s + [b] == [b];
      assert Value([b]) == b + 2 * Value([b][1..]);
    } else {
      ValueAppend(s[1..], b);
      assert (s + [b])[1..] == s[1..] + [b];
      AppendTerms(b, Pow2(|s| - 1));
    }
  }

  lemma AppendTerms(b: nat, p: nat)
    ensures 2 * (b * p) == b * (2 * p)
  {}

  // ---------- bits and bytes ----------

  lemma ByteBits()
    ensures Pow2(8) == 256
  {}

  lemma {:induction false} ValueBelow(s: Bits, n: nat)
    requires AreBits(s) && |s| <= n
    ensures Value(s) < Pow2(n)
  {
    ToBitsValue(s);
    PowMono(|s|, n);
  }

  /** Eight bits to a byte, the last byte filled up with zeros. */
  function BytesOf(s: Bits): (v: Bytes)
    requires AreBits(s)
    ensures |v| == (|s| + 7) / 8
  {
    if s == [] then []
    else
      var h := if |s| < 8 then |s| else 8;
      ValueBelow(s[..h], 8);
      ByteBits();
      [Value(s[..h])] + BytesOf(s[h..])
  }

  function BitsOf(v: Bytes): (s: Bits)
    ensures |s| == 8 * |v| && AreBits(s)
  {
    if v == [] then [] else ToBits(v[0], 8) + BitsOf(v[1..])
  }

  /** Unpacking the bytes of whole bytes of bits gives the bits back. */
  lemma {:induction false} BitsOfBytesOf(s: Bits)
    requires AreBits(s) && |s| % 8 == 0
    ensures BitsOf(BytesOf(s)) == s
  {
    if s != [] {
      BitsOfBytesOf(s[8..]);
      ToBitsValue(s[..8]);
      assert BytesOf(s)[1..] == BytesOf(s[8..]);
      assert s == s[..8] + s[8..];
    }
  }

  lemma {:induction false} BytesOfBitsOf(v: Bytes)
    ensures BytesOf(BitsOf(v)) == v
  {
    if v != [] {
      BytesOfBitsOf(v[1..]);
      ByteBits();
      ValueToBits(v[0], 8);
      var s := BitsOf(v);
      assert s[..8] == ToBits(v[0], 8) && s[8..] == BitsOf(v[1..]);
      assert v == [v[0]] + v[1..];
    }
  }

  /** The bits that byte k is made of. */
  function Octet(s: Bits, k: nat): Bits
    requires 8 * k < |s|
  {
    s[8 * k..if |s| < 8 * k + 8 then |s| else 8 * k + 8]
  }

  lemma {:induction false} BytesOfAt(s: Bits, k: nat)
    requires AreBits(s) && 8 * k < |s|
    ensures BytesOf(s)[k] == Value(Octet(s, k))
  {
    if k > 0 {
      BytesOfAt(s[8..], k - 1);
      assert Octet(s[8..], k - 1) == Octet(s, k);
    } else {
      assert Octet(s, 0) == s[..if |s| < 8 then |s| else 8];
    }
  }

  /** x | y. */
  function Or(x: nat, y: nat): nat
    decreases x + y
  {
    if x == 0 && y == 0 then 0
    else (if x % 2 == 1 || y % 2 == 1 then 1 else 0) + 2 * Or(x / 2, y / 2)
  }

  /** An or with a number shifted beyond the other is their sum. */
  lemma {:induction false} OrAboveIsSum(x: nat, b: nat, t: nat)
    requires x < Pow2(t)
    ensures Or(x, b * Pow2(t)) == x + b * Pow2(t)
  {
    if t == 0 {
      OrZeroLeft(b);
      assert b * Pow2(0) == b;
    } else {
      OrAboveIsSum(x / 2, b, t - 1);
      AppendTerms(b, Pow2(t - 1));
      var y := b * Pow2(t);
      assert y == 2 * (b * Pow2(t - 1));
      if x == 0 && y == 0 {
      } else {
        assert y / 2 == b * Pow2(t - 1) && y % 2 == 0;
      }
    }
  }

  lemma {:induction false} OrZeroLeft(y: nat)
    ensures Or(0, y) == y
  {
    if y > 0 {
      OrZeroLeft(y / 2);
    }
  }

  /** What the byte under construction holds before and after bit i goes in. */
  lemma OrStep(bits: Bits, i: nat, k: nat, t: nat)
    requires AreBits(bits) && i < |bits| && i == 8 * k + t && t < 8
    ensures Or(Value(bits[8 * k..i]), bits[i] * Pow2(t)) == Value(bits[8 * k..i + 1]) < 256
    ensures t == 7 || i + 1 == |bits| ==> BytesOf(bits)[k] == Value(bits[8 * k..i + 1])
  {
    var s := bits[8 * k..i];
    ToBitsValue(s);
    ValueAppend(s, bits[i]);
    OrAboveIsSum(Value(s), bits[i], t);
    assert bits[8 * k..i + 1] == s + [bits[i]];
    ValueBelow(bits[8 * k..i + 1], 8);
    ByteBits();
    BytesOfAt(bits, k);
  }

  lemma NextBit(i: nat)
    ensures i == 8 * (i / 8) + i % 8
    ensures if i % 8 == 7 then (i + 1) / 8 == i / 8 + 1 && (i + 1) % 8 == 0
            else (i + 1) / 8 == i / 8 && (i + 1) % 8 == i % 8 + 1
  {}

  method BitsToBytes(bits: Bits) returns (v: Bytes)
    requires AreBits(bits)
    ensures v == BytesOf(bits)
  {
    hide Value, BytesOf, Or, Pow2, AreBits;
    var out := new Byte[(|bits| + 7) / 8](_ => 0);
    ghost var full := BytesOf(bits);
    ghost var k, t := 0, 0;
    EmptyValue();
    for i := 0 to |bits|
      invariant i == 8 * k + t && t < 8 && k == i / 8 && t == i % 8
      invariant forall m :: 0 <= m < k ==> out[m] == full[m]
      invariant k < out.Length ==> out[k] == if i == |bits| then full[k] else Value(bits[8 * k..i])
      invariant forall m :: k < m < out.Length ==> out[m] == 0
    {
      OrStep(bits, i, k, t);
      NextBit(i);
      out[i / 8] := Or(out[i / 8], bits[i] * Pow2(i % 8));
      if t == 7 {
        assert bits[8 * (k + 1)..i + 1] == [];
        k, t := k + 1, 0;
      } else {
        t := t + 1;
      }
    }
    v := out[..];
    assert v == full;
  }

  lemma EmptyValue()
    ensures Value([]) == 0
  {}

  // ---------- fixed-width fields ----------

  /** n bits of every entry, one entry after the other. */
  function Fields(w: seq<int>, n: nat): (s: Bits)
    ensures AreBits(s) && |s| == |w| * n
  {
    if w == [] then [] else
      FieldsLength(|w|, n);
      ToBits(w[0], n) + Fields(w[1..], n)
  }

  lemma FieldsLength(k: nat, n: nat)
    requires k > 0
    ensures n + (k - 1) * n == k * n
  {}

  /** count fields of n bits from the front. */
  function ReadFields(s: Bits, n: nat, count: nat): (w: seq<nat>)
    requires |s| >= count * n
    ensures |w| == count
    decreases count, n
  {
    if count == 0 then []
    else
      FieldsLength(count, n);
      [Value(s[..n])] + ReadFields(s[n..], n, count - 1)
  }

  lemma {:induction false} ReadFieldsOfFields(w: seq<nat>, n: nat)
    requires forall i :: 0 <= i < |w| ==> w[i] < Pow2(n)
    ensures ReadFields(Fields(w, n), n, |w|) == w
  {
    if w != [] {
      ReadFieldsOfFields(w[1..], n);
      ValueToBits(w[0], n);
      FieldsLength(|w|, n);
      var s := Fields(w, n);
      assert s[..n] == ToBits(w[0], n) && s[n..] == Fields(w[1..], n);
      assert w == [w[0]] + w[1..];
    }
  }

  lemma {:induction false} FieldsOfReadFields(s: Bits, n: nat, count: nat)
    requires AreBits(s) && |s| == count * n
    ensures Fields(ReadFields(s, n, count), n) == s
    ensures forall i :: 0 <= i < count ==> ReadFields(s, n, count)[i] < Pow2(n)
  {
    if count > 0 {
      FieldsLength(count, n);
      FieldsOfReadFields(s[n..], n, count - 1);
      ToBitsValue(s[..n]);
      var w := ReadFields(s, n, count);
      assert w[1..] == ReadFields(s[n..], n, count - 1);
      assert s == s[..n] + s[n..];
    }
  }

  // ---------- little-endian integers ----------

  lemma {:induction false} ValueConcat(a: Bits, b: Bits)
    ensures Value(a + b) == Value(a) + Value(b) * Pow2(|a|)
  {
    if a == [] {
      assert a + b == b;
      assert Value(b) * 1 == Value(b);
    } else {
      ValueConcat(a[1..], b);
      assert (a + b)[1..] == a[1..] + b;
      AppendTerms(Value(b), Pow2(|a| - 1));
    }
  }

  lemma {:induction false} FieldsAppend(w: seq<int>, x: int, n: nat)
    ensures Fields(w + [x], n) == Fields(w, n) + ToBits(x, n)
  {
    if w == [] {
      assert w + [x] == [x] && [x][1..] == [];
      assert Fields([x], n) == ToBits(x, n) + Fields([x][1..], n);
    } else {
      FieldsAppend(w[1..], x, n);
      assert (w + [x])[1..] == w[1..] + [x] && (w + [x])[0] == w[0];
      hide ToBits;
    }
  }

  /** v.to_bytes(n, "little") of a number that fits. */
  function LittleBytes(v: nat, n: nat): (b: Bytes)
    ensures |b| == n
    decreases n, v
  {
    if n == 0 then [] else [v % 256] + LittleBytes(v / 256, n - 1)
  }

  /** The little-endian bytes of the number that bits spell are those bits, eight at a time. */
  lemma {:induction false} LittleBytesOfValue(s: Bits)
    requires AreBits(s) && |s| % 8 == 0
    ensures LittleBytes(Value(s), |s| / 8) == BytesOf(s)
  {
    if s != [] {
      LittleBytesOfValue(s[8..]);
      assert s == s[..8] + s[8..];
      ValueConcat(s[..8], s[8..]);
      ValueBelow(s[..8], 8);
      ByteBits();
      assert (Value(s[..8]) + Value(s[8..]) * 256) % 256 == Value(s[..8]);
      assert (Value(s[..8]) + Value(s[8..]) * 256) / 256 == Value(s[8..]);
    }
  }
}
