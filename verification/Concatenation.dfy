/** Byte strings made of equal parts, and the slices that take them apart again. */
module Concatenation {
  import opened BitFields

  function Join(parts: seq<Bytes>): Bytes {
    if parts == [] then [] else parts[0] + Join(parts[1..])
  }

  /** v[o + len * i:o + len * (i + 1)]. */
  function Part(v: Bytes, o: nat, len: nat, i: nat, count: nat): (r: Bytes)
    requires i < count && o + len * count <= |v|
    ensures |r| == len
  {
    PartBounds(len, i, count);
    v[o + len * i..o + len * (i + 1)]
  }

  lemma PartBounds(len: nat, i: nat, count: nat)
    requires i < count
    ensures 0 <= len * i && len * (i + 1) == len * i + len && len * (i + 1) <= len * count
  {
    assert len * count == len * (i + 1) + len * (count - i - 1);
  }

  lemma {:induction false} JoinLength(parts: seq<Bytes>, len: nat)
    requires forall i :: 0 <= i < |parts| ==> |parts[i]| == len
    ensures |Join(parts)| == len * |parts|
  {
    if parts != [] {
      JoinLength(parts[1..], len);
      PartBounds(len, |parts| - 1, |parts|);
    }
  }

  /** Part i of a join is its i-th element. */
  lemma {:induction false} PartOfJoin(a: Bytes, parts: seq<Bytes>, b: Bytes, len: nat, i: nat)
    requires i < |parts| && forall m :: 0 <= m < |parts| ==> |parts[m]| == len
    ensures |a| + len * |parts| <= |a + Join(parts) + b|
    ensures Part(a + Join(parts) + b, |a|, len, i, |parts|) == parts[i]
    decreases i
  {
    JoinLength(parts, len);
    var v := a + Join(parts) + b;
    PartBounds(len, i, |parts|);
    if i > 0 {
      var a', rest := a + parts[0], parts[1..];
      PartOfJoin(a', rest, b, len, i - 1);
      assert a' + Join(rest) + b == v;
      PartBounds(len, i - 1, |rest|);
      assert |a'| + len * (i - 1) == |a| + len * i;
    } else {
      assert len * 0 == 0;
    }
  }

  /** b[lo:hi], which stops at the end of b. */
  function Slice(b: Bytes, lo: nat, hi: nat): Bytes {
    var l, h := if lo < |b| then lo else |b|, if hi < |b| then hi else |b|;
    if l <= h then b[l..h] else []
  }

  /** Element i of a join, cut out by a slice. */
  lemma SliceOfJoin(a: Bytes, parts: seq<Bytes>, b: Bytes, len: nat, i: nat)
    requires i < |parts| && forall m :: 0 <= m < |parts| ==> |parts[m]| == len
    ensures Slice(a + Join(parts) + b, |a| + len * i, |a| + len * (i + 1)) == parts[i]
  {
    PartOfJoin(a, parts, b, len, i);
    PartBounds(len, i, |parts|);
  }
}
