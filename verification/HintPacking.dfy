/** The hint encoding of scripts/mldsa/mldsa_ref.py (FIPS 204, Algorithms 20 and 21): the positions of
    the ones, row after row, then where each row ends. It is a bijection onto what the decoder accepts. */
module HintPacking {
  import opened Modular
  import opened Options
  import opened BitFields

  /** The columns before n with a nonzero entry, in order. */
  function Ones(row: Poly, n: nat): (s: seq<nat>)
    requires n <= 256
    ensures forall i :: 0 <= i < |s| ==> s[i] < n
  {
    if n == 0 then []
    else Ones(row, n - 1) + (if row[n - 1] != 0 then [n - 1] else [])
  }

  /** The columns of the first i rows. */
  function AllOnes(h: seq<Poly>, i: nat): (s: seq<nat>)
    requires i <= |h|
    ensures forall j :: 0 <= j < |s| ==> s[j] < 256
  {
    if i == 0 then [] else AllOnes(h, i - 1) + Ones(h[i - 1], 256)
  }

  ghost predicate IsBinary(row: Poly) {
    forall j :: 0 <= j < 256 ==> row[j] == 0 || row[j] == 1
  }

  /** k rows of zeros and ones, at most om ones in all. */
  ghost predicate IsHint(h: seq<Poly>, k: nat, om: nat) {
    && |h| == k
    && (forall i :: 0 <= i < k ==> IsBinary(h[i]))
    && |AllOnes(h, k)| <= om
  }

  lemma {:induction false} CountMono(h: seq<Poly>, i: nat, j: nat)
    requires i <= j <= |h|
    ensures |AllOnes(h, i)| <= |AllOnes(h, j)| && AllOnes(h, j)[..|AllOnes(h, i)|] == AllOnes(h, i)
  {
    if i < j {
      CountMono(h, i, j - 1);
    } else {
      assert AllOnes(h, j)[..|AllOnes(h, i)|] == AllOnes(h, i);
    }
  }

  lemma {:induction false} OnesMono(row: Poly, m: nat, n: nat)
    requires m <= n <= 256
    ensures |Ones(row, m)| <= |Ones(row, n)|
  {
    if m < n {
      OnesMono(row, m, n - 1);
    }
  }

  /** The encoding: om bytes of columns and filling, then k row ends. */
  function PackOf(h: seq<Poly>, k: nat, om: nat): (y: Bytes)
    requires |h| == k && |AllOnes(h, k)| <= om < 256
    ensures |y| == om + k
  {
    AllOnes(h, k) + seq(om - |AllOnes(h, k)|, _ => 0) + seq(k, i requires 0 <= i < k => RowEnd(h, i, om))
  }

  function RowEnd(h: seq<Poly>, i: nat, om: nat): Byte
    requires i < |h| && |AllOnes(h, |h|)| <= om < 256
  {
    CountMono(h, i + 1, |h|);
    |AllOnes(h, i + 1)|
  }

  /** Up to om ones the encoding. Up to k more, bytes that no decoder accepts: the last row end is too
      large. Beyond that the index runs past the buffer, or a row end exceeds a byte. */
  method HintBitPack(h: seq<Poly>, k: nat, om: nat) returns (r: Option<Bytes>)
    requires |h| == k && om < 256
    ensures |AllOnes(h, k)| <= om ==> r == Some(PackOf(h, k, om))
    ensures r.None? <==> |AllOnes(h, k)| > om + k || |AllOnes(h, k)| > 255
    ensures om < |AllOnes(h, k)| && r.Some? ==> HintOf(r.value, k, om).None?
  {
    hide AllOnes, Ones;
    NoOnes(h);
    ghost var total := |AllOnes(h, k)|;
    var y := new Byte[om + k](_ => 0);
    var idx := 0;
    for i := 0 to k
      invariant idx == |AllOnes(h, i)| <= om + k
      invariant total <= om ==> RowsDone(y[..], h, i, om)
      invariant idx <= 255 && (i > 0 ==> y[om + i - 1] == idx)
    {
      CountMono(h, i + 1, k);
      AllOnesStep(h, i);
      var ok: bool;
      idx, ok := PackRow(y, h, i, k, om, idx);
      if !ok || idx > 255 { return None; }
      y[om + i] := idx;
    }
    r := Some(y[..]);
    if total <= om {
      assert r.value == PackOf(h, k, om);
    } else {
      forall g | Packs(g, r.value, k, om) ensures false { EndsAscend(g, r.value, k, om, k - 1); }
    }
  }

  /** The inner loop: the columns of row i, unless the index runs past the buffer. */
  method PackRow(y: array<Byte>, h: seq<Poly>, i: nat, k: nat, om: nat, first: nat) returns (idx: nat, ok: bool)
    requires i < |h| == k && om < 256 && y.Length == om + k
    requires first == |AllOnes(h, i)| <= om + k
    requires |AllOnes(h, k)| <= om ==> RowsDone(y[..], h, i, om)
    modifies y
    ensures ok <==> |AllOnes(h, i) + Ones(h[i], 256)| <= om + k
    ensures ok ==> idx == |AllOnes(h, i) + Ones(h[i], 256)|
    ensures ok && |AllOnes(h, k)| <= om ==> ColumnsDone(y[..], AllOnes(h, i) + Ones(h[i], 256), h, i, om)
  {
    hide AllOnes, Ones;
    CountMono(h, i + 1, k);
    AllOnesStep(h, i);
    OnesStart(h[i]);
    idx := first;
    ghost var before, fits := AllOnes(h, i), |AllOnes(h, k)| <= om;
    for j := 0 to 256
      invariant idx == |before| + |Ones(h[i], j)| <= om + k
      invariant fits ==> ColumnsDone(y[..], before + Ones(h[i], j), h, i, om)
    {
      OnesStep(h[i], j);
      OnesMono(h[i], j + 1, 256);
      if h[i][j] != 0 {
        if idx >= om + k { return idx, false; }
        ghost var was, c := y[..], before + Ones(h[i], j);
        y[idx] := j;
        idx := idx + 1;
        if fits {
          ColumnAdded(was, y[..], c, j, h, i, om);
          assert before + Ones(h[i], j + 1) == c + [j];
        }
      } else {
        assert before + Ones(h[i], j + 1) == before + Ones(h[i], j);
      }
    }
    ok := true;
  }

  lemma ColumnAdded(was: Bytes, y: Bytes, c: seq<nat>, j: Byte, h: seq<Poly>, i: nat, om: nat)
    requires om < 256 && ColumnsDone(was, c, h, i, om) && |c| < om && y == was[|c| := j]
    ensures ColumnsDone(y, c + [j], h, i, om)
  {
    hide AllOnes;
    assert y[..|c| + 1] == was[..|c|] + [j];
  }

  /** The columns written so far, zeros up to om, and the ends of the first i rows. */
  ghost predicate ColumnsDone(y: Bytes, c: seq<nat>, h: seq<Poly>, i: nat, om: nat) {
    && i <= |h| && |y| == om + |h| && |c| <= om && y[..|c|] == c
    && (forall m :: |c| <= m < om ==> y[m] == 0)
    && (forall m :: om <= m < om + i ==> y[m] == |AllOnes(h, m - om + 1)|)
  }

  ghost predicate RowsDone(y: Bytes, h: seq<Poly>, i: nat, om: nat) {
    i <= |h| && ColumnsDone(y, AllOnes(h, i), h, i, om)
  }

  lemma NoOnes(h: seq<Poly>)
    ensures AllOnes(h, 0) == []
  {}

  lemma AllOnesStep(h: seq<Poly>, i: nat)
    requires i < |h|
    ensures AllOnes(h, i + 1) == AllOnes(h, i) + Ones(h[i], 256)
  {}

  lemma OnesStart(row: Poly)
    ensures Ones(row, 0) == []
  {}

  lemma OnesStep(row: Poly, j: nat)
    requires j < 256
    ensures Ones(row, j + 1) == Ones(row, j) + if row[j] != 0 then [j] else []
  {}

  // ---------- what an encoding looks like ----------

  ghost predicate Packs(h: seq<Poly>, y: Bytes, k: nat, om: nat)
    requires om < 256
  {
    IsHint(h, k, om) && y == PackOf(h, k, om)
  }

  lemma {:induction false} OnesAscend(row: Poly, n: nat, i: nat, j: nat)
    requires n <= 256 && i < j < |Ones(row, n)|
    ensures Ones(row, n)[i] < Ones(row, n)[j]
  {
    if j < |Ones(row, n - 1)| {
      OnesAscend(row, n - 1, i, j);
    }
  }

  lemma {:induction false} OnesMembers(row: Poly, n: nat, j: nat)
    requires n <= 256 && j < n
    ensures j in Ones(row, n) <==> row[j] != 0
  {
    if j < n - 1 {
      OnesMembers(row, n - 1, j);
    }
  }

  /** The columns of row i sit between the ends of rows i - 1 and i. */
  lemma RowColumns(h: seq<Poly>, i: nat, k: nat)
    requires i < k <= |h|
    ensures |AllOnes(h, i)| <= |AllOnes(h, i + 1)| <= |AllOnes(h, k)|
    ensures AllOnes(h, k)[|AllOnes(h, i)|..|AllOnes(h, i + 1)|] == Ones(h[i], 256)
  {
    CountMono(h, i + 1, k);
    var a, b, c := AllOnes(h, i), AllOnes(h, i + 1), AllOnes(h, k);
    assert b == a + Ones(h[i], 256);
    assert c[|a|..|b|] == c[..|b|][|a|..];
  }

  /** Two hints with the same encoding are the same. */
  lemma PackInjective(g: seq<Poly>, h: seq<Poly>, k: nat, om: nat)
    requires om < 256 && IsHint(g, k, om) && IsHint(h, k, om) && PackOf(g, k, om) == PackOf(h, k, om)
    ensures g == h
  {
    hide Ones, AllOnes;
    var y := PackOf(g, k, om);
    forall i | 0 <= i <= k
      ensures |AllOnes(g, i)| == |AllOnes(h, i)|
    {
      if i > 0 {
        EncodedEnd(g, k, om, i - 1);
        EncodedEnd(h, k, om, i - 1);
      } else {
        NoOnes(g);
        NoOnes(h);
      }
    }
    EncodedColumns(g, k, om);
    EncodedColumns(h, k, om);
    forall i | 0 <= i < k
      ensures g[i] == h[i]
    {
      RowColumns(g, i, k);
      RowColumns(h, i, k);
      SameRow(g[i], h[i]);
    }
  }

  lemma EncodedEnd(h: seq<Poly>, k: nat, om: nat, i: nat)
    requires |h| == k && |AllOnes(h, k)| <= om < 256 && i < k
    ensures PackOf(h, k, om)[om + i] == |AllOnes(h, i + 1)|
  {
    hide AllOnes;
  }

  lemma EncodedColumns(h: seq<Poly>, k: nat, om: nat)
    requires |h| == k && |AllOnes(h, k)| <= om < 256
    ensures PackOf(h, k, om)[..|AllOnes(h, k)|] == AllOnes(h, k)
    ensures forall m :: |AllOnes(h, k)| <= m < om ==> PackOf(h, k, om)[m] == 0
  {
    hide AllOnes;
  }

  lemma SameRow(a: Poly, b: Poly)
    requires IsBinary(a) && IsBinary(b) && Ones(a, 256) == Ones(b, 256)
    ensures a == b
  {
    hide Ones;
    forall j | 0 <= j < 256
      ensures a[j] == b[j]
    {
      OnesMembers(a, 256, j);
      OnesMembers(b, 256, j);
    }
  }

  // ---------- the decoder ----------

  /** The hint that y encodes, if there is one. */
  ghost function HintOf(y: Bytes, k: nat, om: nat): (r: Option<seq<Poly>>)
    requires om < 256
    ensures r.Some? ==> Packs(r.value, y, k, om)
    ensures r.None? ==> forall h :: !Packs(h, y, k, om)
  {
    if exists h :: Packs(h, y, k, om) then
      var h :| Packs(h, y, k, om);
      Some(h)
    else None
  }

  /** Every hint vector survives encoding and decoding. */
  lemma HintRoundTrip(h: seq<Poly>, k: nat, om: nat)
    requires om < 256 && IsHint(h, k, om)
    ensures HintOf(PackOf(h, k, om), k, om) == Some(h)
  {
    var y := PackOf(h, k, om);
    assert Packs(h, y, k, om);
    var r := HintOf(y, k, om);
    PackInjective(r.value, h, k, om);
  }

  /** In an encoding the row ends do not decrease and stay within om. */
  lemma EndsAscend(h: seq<Poly>, y: Bytes, k: nat, om: nat, i: nat)
    requires om < 256 && Packs(h, y, k, om) && i < k
    ensures (if i == 0 then 0 else y[om + i - 1]) <= y[om + i] <= om
  {
    hide AllOnes;
    EncodedEnd(h, k, om, i);
    RowColumns(h, i, k);
    if i > 0 {
      EncodedEnd(h, k, om, i - 1);
    }
  }

  /** In an encoding the columns of a row ascend strictly. */
  lemma ColumnsAscend(h: seq<Poly>, y: Bytes, k: nat, om: nat, i: nat, m: nat)
    requires om < 256 && Packs(h, y, k, om) && i < k
    requires (if i == 0 then 0 else y[om + i - 1]) < m < y[om + i]
    ensures m < om && y[m - 1] < y[m]
  {
    hide AllOnes, Ones;
    EncodedEnd(h, k, om, i);
    RowColumns(h, i, k);
    EncodedColumns(h, k, om);
    if i > 0 {
      EncodedEnd(h, k, om, i - 1);
    } else {
      NoOnes(h);
    }
    var c, a := AllOnes(h, k), |AllOnes(h, i)|;
    OnesAscend(h[i], 256, m - 1 - a, m - a);
    assert c[a..|AllOnes(h, i + 1)|][m - a] == c[m] && c[a..|AllOnes(h, i + 1)|][m - 1 - a] == c[m - 1];
    assert y[..|c|][m] == y[m] && y[..|c|][m - 1] == y[m - 1];
  }

  lemma TailIsZero(h: seq<Poly>, y: Bytes, k: nat, om: nat, m: nat)
    requires om < 256 && Packs(h, y, k, om) && (if k == 0 then 0 else y[om + k - 1]) <= m < om
    ensures y[m] == 0
  {
    hide AllOnes;
    EncodedColumns(h, k, om);
    if k > 0 {
      EncodedEnd(h, k, om, k - 1);
    } else {
      NoOnes(h);
    }
  }

  /** Setting a column beyond all the others appends it. */
  lemma {:induction false} OnesSet(row: Poly, p: nat, n: nat)
    requires p < n <= 256 && forall j :: p <= j < 256 ==> row[j] == 0
    ensures Ones(row[p := 1], n) == Ones(row, p) + [p] && Ones(row, n) == Ones(row, p)
  {
    if n == p + 1 {
      OnesSame(row, row[p := 1], p);
    } else {
      OnesSet(row, p, n - 1);
    }
  }

  lemma {:induction false} OnesSame(a: Poly, b: Poly, n: nat)
    requires n <= 256 && forall j :: 0 <= j < n ==> a[j] == b[j]
    ensures Ones(a, n) == Ones(b, n)
  {
    if n > 0 {
      OnesSame(a, b, n - 1);
    }
  }

  lemma {:induction false} AllOnesSame(g: seq<Poly>, h: seq<Poly>, i: nat)
    requires i <= |g| && i <= |h| && forall m :: 0 <= m < i ==> g[m] == h[m]
    ensures AllOnes(g, i) == AllOnes(h, i)
  {
    if i > 0 {
      AllOnesSame(g, h, i - 1);
    }
  }

  lemma {:induction false} OnesOfZeros(row: Poly, n: nat)
    requires n <= 256 && forall j :: 0 <= j < 256 ==> row[j] == 0
    ensures Ones(row, n) == []
  {
    if n > 0 {
      OnesOfZeros(row, n - 1);
    }
  }

  /** What the decoder has built when it is about to start row i. */
  ghost predicate Built(h: seq<Poly>, y: Bytes, k: nat, om: nat, i: nat, idx: nat)
    requires i <= k && om < 256
  {
    && |h| == k && |y| == om + k && idx <= om
    && idx == (if i == 0 then 0 else y[om + i - 1])
    && (forall m :: 0 <= m < k ==> IsBinary(h[m]))
    && (forall m, j :: i <= m < k && 0 <= j < 256 ==> h[m][j] == 0)
    && AllOnes(h, i) == y[..idx]
    && (forall m :: om <= m < om + i ==> y[m] == |AllOnes(h, m - om + 1)|)
  }

  method HintBitUnpack(y: Bytes, k: nat, om: nat) returns (r: Option<seq<Poly>>)
    requires |y| == om + k && om < 256
    ensures r == HintOf(y, k, om)
  {
    hide AllOnes, Ones, IsBinary;
    var h: seq<Poly> := seq(k, _ => seq(256, _ => 0));
    BuiltStart(h, y, k, om);
    var idx := 0;
    for i := 0 to k
      invariant Built(h, y, k, om, i, idx)
    {
      if y[om + i] < idx || y[om + i] > om {
        forall g | Packs(g, y, k, om) ensures false { EndsAscend(g, y, k, om, i); }
        return None;
      }
      var ok: bool;
      h, idx, ok := UnpackRow(h, y, k, om, i, idx);
      if !ok {
        return None;
      }
    }
    for i := idx to om
      invariant forall m :: idx <= m < i ==> y[m] == 0
    {
      if y[i] != 0 {
        forall g | Packs(g, y, k, om) ensures false { TailIsZero(g, y, k, om, i); }
        return None;
      }
    }
    BuiltEnd(h, y, k, om, idx);
    HintRoundTrip(h, k, om);
    r := Some(h);
  }

  lemma BuiltStart(h: seq<Poly>, y: Bytes, k: nat, om: nat)
    requires om < 256 && |y| == om + k && |h| == k && forall m, j :: 0 <= m < k && 0 <= j < 256 ==> h[m][j] == 0
    ensures Built(h, y, k, om, 0, 0)
  {}

  lemma BuiltEnd(h: seq<Poly>, y: Bytes, k: nat, om: nat, idx: nat)
    requires om < 256 && Built(h, y, k, om, k, idx) && forall m :: idx <= m < om ==> y[m] == 0
    ensures Packs(h, y, k, om)
  {
    hide AllOnes, Ones, IsBinary;
    var p := PackOf(h, k, om);
    EncodedColumns(h, k, om);
    forall m | 0 <= m < |y|
      ensures p[m] == y[m]
    {
      if m < idx {
        assert y[..idx][m] == p[..idx][m];
      } else if m >= om {
        EncodedEnd(h, k, om, m - om);
      }
    }
  }

  /** The inner loop: the columns of row i. */
  method UnpackRow(h0: seq<Poly>, y: Bytes, k: nat, om: nat, i: nat, first: nat)
    returns (h: seq<Poly>, idx: nat, ok: bool)
    requires om < 256 && i < k && Built(h0, y, k, om, i, first) && first <= y[om + i] <= om
    ensures ok ==> Built(h, y, k, om, i + 1, idx)
    ensures !ok ==> forall g :: !Packs(g, y, k, om)
  {
    hide AllOnes, Ones, IsBinary;
    ghost var zeros := h0[i];
    OnesOfZeros(zeros, 256);
    var row := h0[i];
    idx := first;
    h := h0;
    while idx < y[om + i]
      invariant first <= idx <= y[om + i]
      invariant IsBinary(row) && Ones(row, 256) == y[first..idx]
      invariant forall j :: (if idx > first then y[idx - 1] as int else -1) < j < 256 ==> row[j] == 0
    {
      if idx > first && y[idx - 1] >= y[idx] {
        forall g | Packs(g, y, k, om) ensures false { ColumnsAscend(g, y, k, om, i, idx); }
        return h, idx, false;
      }
      OnesSet(row, y[idx], 256);
      StillBinary(row, y[idx]);
      row := row[y[idx] := 1];
      idx := idx + 1;
    }
    h := h0[i := row];
    RowDone(h0, h, y, k, om, i, first, idx);
    ok := true;
  }

  lemma StillBinary(row: Poly, p: nat)
    requires p < 256 && IsBinary(row)
    ensures IsBinary(row[p := 1])
  {}

  lemma RowDone(h0: seq<Poly>, h: seq<Poly>, y: Bytes, k: nat, om: nat, i: nat, first: nat, idx: nat)
    requires om < 256 && i < k && Built(h0, y, k, om, i, first) && first <= idx == y[om + i] <= om
    requires |h| == k && h == h0[i := h[i]] && IsBinary(h[i]) && Ones(h[i], 256) == y[first..idx]
    ensures Built(h, y, k, om, i + 1, idx)
  {
    hide AllOnes, Ones, IsBinary;
    AllOnesSame(h0, h, i);
    AllOnesStep(h, i);
    assert y[..idx] == y[..first] + y[first..idx];
    forall m | om <= m <= om + i
      ensures y[m] == |AllOnes(h, m - om + 1)|
    {
      if m < om + i {
        AllOnesSame(h0, h, m - om + 1);
      }
    }
  }
}
