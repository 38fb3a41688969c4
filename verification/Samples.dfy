/** What the samplers of scripts/mldsa/mldsa_ref.py and scripts/mlkem/mlkem_ref.py take out of a stream: the candidates
    that qualify, each once and in order, none passed over; the challenge as the trace of its swaps; and the differences
    of sums of bits. */
module Samples {
  import opened Modular
  import opened Options
  import opened BitFields
  import opened Numerals
  import Sampling
  import MlKemCodec

  // ---------- rejection sampling ----------

  /** The candidate at a place of the stream, if there is one and it qualifies. */
  type Candidates = nat -> Option<int>

  /** a holds the qualifying candidates of the first n places: a[i] is the one at at[i]. */
  ghost predicate Selects(a: seq<int>, at: seq<nat>, cand: Candidates, n: nat) {
    && |at| == |a|
    && (forall i :: 0 <= i < |at| ==> at[i] < n && cand(at[i]) == Some(a[i]))
    && (forall i, j :: 0 <= i < j < |at| ==> at[i] < at[j])
    && (forall t :: 0 <= t < n && t !in at ==> cand(t) == None)
  }

  function Kept(c: Option<int>): seq<int> {
    if c.Some? then [c.value] else []
  }

  function Keep(cand: Candidates, n: nat): seq<int> {
    if n == 0 then [] else Keep(cand, n - 1) + Kept(cand(n - 1))
  }

  lemma {:induction false} KeepSelects(cand: Candidates, n: nat) returns (at: seq<nat>)
    ensures Selects(Keep(cand, n), at, cand, n)
  {
    hide *;
    if n == 0 {
      at := [];
      SelectsNone(cand);
    } else {
      at := KeepSelects(cand, n - 1);
      SelectsMore(Keep(cand, n - 1), at, cand, n - 1);
      KeepOne(cand, n - 1);
      at := if cand(n - 1).Some? then at + [n - 1] else at;
    }
  }

  lemma SelectsNone(cand: Candidates)
    ensures Keep(cand, 0) == [] && Selects([], [], cand, 0)
  {}

  lemma SelectsMore(a: seq<int>, at: seq<nat>, cand: Candidates, n: nat)
    requires Selects(a, at, cand, n)
    ensures Selects(a + Kept(cand(n)), if cand(n).Some? then at + [n] else at, cand, n + 1)
  {
    if cand(n).Some? {
      var more := at + [n];
      assert more[|at|] == n;
      forall t | 0 <= t < n + 1 && t !in more
        ensures cand(t) == None
      {
        assert t !in at;
      }
    }
  }

  /** w holds the first 256 qualifying candidates of the stream. */
  ghost predicate First(w: Poly, at: seq<nat>, cand: Candidates) {
    |at| == 256 && Selects(w, at, cand, at[255] + 1)
  }

  lemma FirstOfSelected(a: seq<int>, at: seq<nat>, cand: Candidates, n: nat)
    requires Selects(a, at, cand, n) && |a| >= 256
    ensures First(a[..256], at[..256], cand)
  {
    var u := at[..256];
    forall t | 0 <= t <= u[255] && t !in u
      ensures cand(t) == None
    {
      if t in at {
        assert false;
      }
    }
  }

  // ---------- the candidates ----------

  /** 23 bits of bytes 3t to 3t + 2, below 8380417. */
  function MatrixValue(buf: Bytes, t: nat): Option<int> {
    if 3 * t + 3 > |buf| then None
    else
      var b0: nat, b1: nat, b2: nat := buf[3 * t], buf[3 * t + 1], buf[3 * t + 2];
      if b0 + 256 * b1 + 65536 * (b2 % 128) < 8380417 then Some(b0 + 256 * b1 + 65536 * (b2 % 128)) else None
  }

  /** Half bytes, the low one of each byte first: below 15, 2 - b mod 5 for eta 2, and below 9, 4 - b for eta 4, as
      residues modulo 8380417. */
  function SecretValue(buf: Bytes, eta: nat, t: nat): Option<int> {
    if t / 2 >= |buf| then None
    else
      var v: nat := buf[t / 2];
      Small(if t % 2 == 0 then v % 16 else v / 16, eta)
  }

  function Small(b: nat, eta: nat): Option<int> {
    if eta == 2 && b < 15 then Some(if b % 5 <= 2 then 2 - b % 5 else 8380419 - b % 5)
    else if eta == 4 && b < 9 then Some(if b <= 4 then 4 - b else 8380421 - b)
    else None
  }

  /** Twelve bits of bytes 3t to 3t + 2, the low ones first, below 3329. */
  function KemValue(buf: Bytes, t: nat): Option<int> {
    var u := 3 * (t / 2);
    if u + 3 > |buf| then None
    else
      var b0: nat, b1: nat, b2: nat := buf[u], buf[u + 1], buf[u + 2];
      Twelve(if t % 2 == 0 then b0 + 256 * (b1 % 16) else b1 / 16 + 16 * b2)
  }

  function Twelve(d: nat): Option<int> {
    if d < 3329 then Some(d) else None
  }

  function MatrixCandidate(buf: Bytes): Candidates {
    (t: nat) => MatrixValue(buf, t)
  }

  function SecretCandidate(buf: Bytes, eta: nat): Candidates {
    (t: nat) => SecretValue(buf, eta, t)
  }

  function KemCandidate(buf: Bytes): Candidates {
    (t: nat) => KemValue(buf, t)
  }

  lemma {:induction false} MatrixKept(buf: Bytes, n: nat)
    requires 3 * n <= |buf|
    ensures Sampling.Accepted(buf, n) == Keep(MatrixCandidate(buf), n)
  {
    hide *;
    if n > 0 {
      MatrixKept(buf, n - 1);
      MatrixStep(buf, n);
      KeepOne(MatrixCandidate(buf), n - 1);
    } else {
      KeepNone(MatrixCandidate(buf));
      NoneYet(buf, 2);
    }
  }

  lemma NoneYet(buf: Bytes, eta: nat)
    ensures Sampling.Accepted(buf, 0) == [] && Sampling.Small(buf, 0, eta) == []
  {}

  lemma KeepOne(c: Candidates, t: nat)
    ensures Keep(c, t + 1) == Keep(c, t) + Kept(c(t))
  {}

  lemma MatrixStep(buf: Bytes, n: nat)
    requires n > 0 && 3 * n <= |buf|
    ensures Sampling.Accepted(buf, n) == Sampling.Accepted(buf, n - 1) + Kept(MatrixCandidate(buf)(n - 1))
  {
    MatrixValueIs(buf, n - 1);
    hide Keep, MatrixValue, Sampling.Triple;
  }

  lemma MatrixValueIs(buf: Bytes, t: nat)
    requires 3 * t + 3 <= |buf|
    ensures var d := Sampling.Triple(buf, t); MatrixValue(buf, t) == if d < 8380417 then Some(d) else None
  {}

  lemma {:induction false} SecretKept(buf: Bytes, n: nat, eta: nat)
    requires n <= |buf|
    ensures Sampling.Small(buf, n, eta) == Keep(SecretCandidate(buf, eta), 2 * n)
  {
    hide *;
    if n > 0 {
      SecretKept(buf, n - 1, eta);
      SecretStep(buf, n, eta);
      KeepTwo(SecretCandidate(buf, eta), 2 * n - 2);
    } else {
      KeepNone(SecretCandidate(buf, eta));
      NoneYet(buf, eta);
    }
  }

  lemma SecretStep(buf: Bytes, n: nat, eta: nat)
    requires 0 < n <= |buf|
    ensures var c := SecretCandidate(buf, eta);
      Sampling.Small(buf, n, eta) == Sampling.Small(buf, n - 1, eta) + Kept(c(2 * n - 2)) + Kept(c(2 * n - 1))
  {
    var v: nat := buf[n - 1];
    Halves(n);
    ContributionIs(v % 16, eta);
    ContributionIs(v / 16, eta);
    hide Sampling.Contribution, Small, Keep, Kept;
  }

  lemma KeepTwo(c: Candidates, t: nat)
    ensures Keep(c, t + 2) == Keep(c, t) + Kept(c(t)) + Kept(c(t + 1))
    ensures Keep(c, t + 2) == Keep(c, t) + (Kept(c(t)) + Kept(c(t + 1)))
  {
    assert Keep(c, t + 1) == Keep(c, t) + Kept(c(t));
  }

  lemma Halves(n: nat)
    requires n > 0
    ensures (2 * n - 2) / 2 == n - 1 && (2 * n - 2) % 2 == 0 && (2 * n - 1) / 2 == n - 1 && (2 * n - 1) % 2 == 1
  {}

  lemma ContributionIs(b: nat, eta: nat)
    ensures Sampling.Contribution(b, eta) == Kept(Small(b, eta))
  {}

  lemma {:induction false} KemKept(buf: Bytes, n: nat)
    requires 3 * n <= |buf|
    ensures MlKemCodec.Accepted(buf, n) == Keep(KemCandidate(buf), 2 * n)
  {
    hide *;
    var c := KemCandidate(buf);
    if n > 0 {
      KemKept(buf, n - 1);
      KemStep(buf, n);
    } else {
      KeepNone(c);
      assert MlKemCodec.Accepted(buf, 0) == [] by { AcceptedNone(buf); }
    }
  }

  lemma KeepNone(c: Candidates)
    ensures Keep(c, 0) == []
  {}

  lemma AcceptedNone(buf: Bytes)
    ensures MlKemCodec.Accepted(buf, 0) == []
  {}

  lemma KemStep(buf: Bytes, n: nat)
    requires n > 0 && 3 * n <= |buf| && MlKemCodec.Accepted(buf, n - 1) == Keep(KemCandidate(buf), 2 * n - 2)
    ensures MlKemCodec.Accepted(buf, n) == Keep(KemCandidate(buf), 2 * n)
  {
    hide *;
    var c, t := KemCandidate(buf), 2 * n - 2;
    KemValues(buf, n);
    AcceptedStep(buf, n);
    CandidateIs(buf, t);
    CandidateIs(buf, t + 1);
    KeepTwo(c, t);
  }

  lemma CandidateIs(buf: Bytes, t: nat)
    ensures KemCandidate(buf)(t) == KemValue(buf, t)
  {}

  lemma AcceptedStep(buf: Bytes, n: nat)
    requires n > 0 && 3 * n <= |buf|
    ensures var b0: nat, b1: nat, b2: nat := buf[3 * n - 3], buf[3 * n - 2], buf[3 * n - 1];
      MlKemCodec.Accepted(buf, n) == MlKemCodec.Accepted(buf, n - 1)
        + (Kept(Twelve(b0 + 256 * (b1 % 16))) + Kept(Twelve(b1 / 16 + 16 * b2)))
  {
    hide Twelve, Kept, MlKemCodec.Candidates;
    CandidatesAre(buf[3 * n - 3], buf[3 * n - 2], buf[3 * n - 1]);
  }

  lemma KemValues(buf: Bytes, n: nat)
    requires n > 0 && 3 * n <= |buf|
    ensures var b0: nat, b1: nat, b2: nat := buf[3 * n - 3], buf[3 * n - 2], buf[3 * n - 1];
      && KemValue(buf, 2 * n - 2) == Twelve(b0 + 256 * (b1 % 16))
      && KemValue(buf, 2 * n - 1) == Twelve(b1 / 16 + 16 * b2)
  {
    Halves(n);
    hide Twelve;
    var t, u: nat := 2 * n - 2, 3 * n - 3;
    assert 3 * (t / 2) == u && 3 * ((t + 1) / 2) == u;
  }

  lemma CandidatesAre(b0: nat, b1: nat, b2: nat)
    ensures MlKemCodec.Candidates(b0, b1, b2) == Kept(Twelve(b0 + 256 * (b1 % 16))) + Kept(Twelve(b1 / 16 + 16 * b2))
  {}

  /** An entry of the signature scheme's matrix: the first 256 qualifying candidates of its stream. */
  lemma MatrixSample(buf: Bytes) returns (at: seq<nat>)
    ensures var r := Sampling.RejNttOf(buf); r.Some? ==> First(r.value, at, MatrixCandidate(buf))
    ensures Sampling.RejNttOf(buf).None? ==>
      |at| < 256 && Selects(Sampling.Accepted(buf, |buf| / 3), at, MatrixCandidate(buf), |buf| / 3)
  {
    hide Selects;
    var n := |buf| / 3;
    MatrixKept(buf, n);
    at := KeepSelects(MatrixCandidate(buf), n);
    SameLength(Keep(MatrixCandidate(buf), n), at, MatrixCandidate(buf), n);
    if |at| >= 256 {
      FirstOfSelected(Keep(MatrixCandidate(buf), n), at, MatrixCandidate(buf), n);
      at := at[..256];
    }
  }

  lemma SameLength(a: seq<int>, at: seq<nat>, cand: Candidates, n: nat)
    requires Selects(a, at, cand, n)
    ensures |a| == |at|
  {}

  /** A secret polynomial of the signature scheme. */
  lemma SecretSample(buf: Bytes, eta: nat) returns (at: seq<nat>)
    ensures var r := Sampling.RejBoundedOf(buf, eta); r.Some? ==> First(r.value, at, SecretCandidate(buf, eta))
  {
    hide Selects;
    var c := SecretCandidate(buf, eta);
    SecretKept(buf, |buf|, eta);
    at := KeepSelects(c, 2 * |buf|);
    SameLength(Keep(c, 2 * |buf|), at, c, 2 * |buf|);
    if |at| >= 256 {
      FirstOfSelected(Keep(c, 2 * |buf|), at, c, 2 * |buf|);
      at := at[..256];
    }
  }

  /** An entry of the encapsulation scheme's matrix. */
  lemma KemSample(buf: Bytes) returns (at: seq<nat>)
    ensures var r := MlKemCodec.SampleNttOf(buf); r.Some? ==> First(r.value, at, KemCandidate(buf))
  {
    hide Selects;
    var c, n := KemCandidate(buf), |buf| / 3;
    KemKept(buf, n);
    at := KeepSelects(c, 2 * n);
    SameLength(Keep(c, 2 * n), at, c, 2 * n);
    if |at| >= 256 {
      FirstOfSelected(Keep(c, 2 * n), at, c, 2 * n);
      at := at[..256];
    }
  }

  // ---------- binomial samples ----------

  lemma Sums(s: Bits, i: nat, n: nat)
    requires (n == 2 || n == 3) && i + n <= |s| && AreBits(s)
    ensures MlKemCodec.BitSum(s, i, n) == s[i] + s[i + 1] + if n == 3 then s[i + 2] else 0
  {
    assert MlKemCodec.BitSum(s, i, 0) == 0;
    assert MlKemCodec.BitSum(s, i, 1) == s[i];
    assert MlKemCodec.BitSum(s, i, 2) == s[i] + s[i + 1];
  }

  lemma Difference(b: Bytes, eta: nat, i: nat)
    requires |b| == 64 * eta && i < 256 && (eta == 2 || eta == 3)
    ensures var s, o := BitsOf(b), 2 * eta * i;
      && o + 2 * eta <= |s|
      && MlKemCodec.SampleCbdOf(b, eta)[i]
         == (MlKemCodec.BitSum(s, o, eta) - MlKemCodec.BitSum(s, o + eta, eta)) % 3329
  {
    hide BitsOf, MlKemCodec.BitSum;
    MlKemCodec.CbdBound(eta, i, 512 * eta);
  }

  /** A binomial coefficient for eta 2: two bits less two bits. */
  lemma BinomialTwo(b: Bytes, i: nat)
    requires |b| == 128 && i < 256
    ensures MlKemCodec.SampleCbdOf(b, 2)[i] ==
      (StreamBit(b, 4 * i) + StreamBit(b, 4 * i + 1) - StreamBit(b, 4 * i + 2) - StreamBit(b, 4 * i + 3)) % 3329
  {
    hide *;
    var s, o := BitsOf(b), 4 * i;
    Difference(b, 2, i);
    assert 2 * 2 * i == o;
    Sums(s, o, 2);
    Sums(s, o + 2, 2);
    BitsOfAt(b, o); BitsOfAt(b, o + 1); BitsOfAt(b, o + 2); BitsOfAt(b, o + 3);
  }

  /** A binomial coefficient for eta 3: three bits less three bits. */
  lemma BinomialThree(b: Bytes, i: nat)
    requires |b| == 192 && i < 256
    ensures MlKemCodec.SampleCbdOf(b, 3)[i] ==
      (StreamBit(b, 6 * i) + StreamBit(b, 6 * i + 1) + StreamBit(b, 6 * i + 2)
        - StreamBit(b, 6 * i + 3) - StreamBit(b, 6 * i + 4) - StreamBit(b, 6 * i + 5)) % 3329
  {
    hide *;
    var s, o := BitsOf(b), 6 * i;
    Difference(b, 3, i);
    assert 2 * 3 * i == o;
    Sums(s, o, 3);
    Sums(s, o + 3, 3);
    BitsOfAt(b, o); BitsOfAt(b, o + 1); BitsOfAt(b, o + 2);
    BitsOfAt(b, o + 3); BitsOfAt(b, o + 4); BitsOfAt(b, o + 5);
  }

  // ---------- the challenge ----------

  /** Where the search for pass n begins. */
  function Behind(at: seq<nat>, n: nat): nat
    requires n <= |at|
  {
    if n == 0 then 8 else at[n - 1] + 1
  }

  /** Pass k of the challenge, for place 256 - tau + k, takes the byte at at[k], the first one of at most that place
      behind the byte of the pass before. */
  ghost predicate IsPass(buf: Bytes, tau: nat, at: seq<nat>, k: nat)
    requires k < |at| && k < tau <= 64
  {
    && 8 <= Behind(at, k) <= at[k] < |buf| && buf[at[k]] <= 256 - tau + k
    && forall m :: Behind(at, k) <= m < at[k] ==> buf[m] > 256 - tau + k
  }

  ghost predicate Draws(buf: Bytes, tau: nat, at: seq<nat>, n: nat) {
    n <= |at| && n <= tau <= 64 <= 8 * |buf| && forall k :: 0 <= k < n ==> IsPass(buf, tau, at, k)
  }

  /** The value at place x after n passes, traced back: the sign that the last pass put there, or the value at the place
      from which it was moved. */
  ghost function Traced(buf: Bytes, tau: nat, at: seq<nat>, n: nat, x: nat): int
    requires Draws(buf, tau, at, n)
  {
    if n == 0 then 0
    else
      assert IsPass(buf, tau, at, n - 1);
      if x == buf[at[n - 1]] then (if StreamBit(buf, n - 1) == 0 then 1 else 8380416)
      else if x == 256 - tau + n - 1 then Traced(buf, tau, at, n - 1, buf[at[n - 1]])
      else Traced(buf, tau, at, n - 1, x)
  }

  lemma {:induction false} NextIs(buf: Bytes, pos: nat, i: nat)
    ensures var q := Sampling.NextAtMost(buf, pos, i);
      if q.Some? then forall m :: pos <= m < q.value ==> buf[m] > i
      else forall m :: pos <= m < |buf| ==> buf[m] > i
    decreases |buf| - pos
  {
    if pos < |buf| && buf[pos] > i {
      NextIs(buf, pos + 1, i);
    }
  }

  lemma StillDraws(buf: Bytes, tau: nat, at: seq<nat>, n: nat, q: nat)
    requires |at| == n < tau && Draws(buf, tau, at, n)
    requires Sampling.NextAtMost(buf, Behind(at, n), 256 - tau + n) == Some(q)
    ensures Draws(buf, tau, at + [q], n + 1)
  {
    var at' := at + [q];
    NextIs(buf, Behind(at, n), 256 - tau + n);
    BehindEnough(buf, tau, at, n);
    forall k | 0 <= k < n + 1
      ensures IsPass(buf, tau, at', k)
    {
      if k < n {
        SamePass(buf, tau, at, at', k);
      }
    }
  }

  lemma BehindEnough(buf: Bytes, tau: nat, at: seq<nat>, n: nat)
    requires Draws(buf, tau, at, n)
    ensures Behind(at, n) >= 8
  {
    if n > 0 {
      assert IsPass(buf, tau, at, n - 1);
    }
  }

  lemma SamePass(buf: Bytes, tau: nat, at: seq<nat>, at': seq<nat>, k: nat)
    requires k < |at| <= |at'| && k < tau <= 64 && at'[..|at|] == at && IsPass(buf, tau, at, k)
    ensures IsPass(buf, tau, at', k)
  {
    assert at[k] == at'[..|at|][k] == at'[k];
    if k > 0 {
      assert at[k - 1] == at'[..|at|][k - 1] == at'[k - 1];
    }
  }

  lemma DrawsFewer(buf: Bytes, tau: nat, at: seq<nat>, n: nat)
    requires Draws(buf, tau, at, n + 1)
    ensures n < |at| && n < tau <= 64 && Draws(buf, tau, at, n)
    ensures 8 <= at[n] < |buf| && buf[at[n]] <= 256 - tau + n < 256
  {
    assert IsPass(buf, tau, at, n);
  }

  lemma {:induction false} TracedPrefix(buf: Bytes, tau: nat, at: seq<nat>, at': seq<nat>, n: nat, x: nat)
    requires Draws(buf, tau, at, n) && Draws(buf, tau, at', n) && forall k :: 0 <= k < n ==> at[k] == at'[k]
    ensures Traced(buf, tau, at, n, x) == Traced(buf, tau, at', n, x)
  {
    hide Draws, StreamBit;
    if n > 0 {
      DrawsFewer(buf, tau, at, n - 1);
      DrawsFewer(buf, tau, at', n - 1);
      TracedPrefix(buf, tau, at, at', n - 1, x);
      TracedPrefix(buf, tau, at, at', n - 1, buf[at[n - 1]]);
    }
  }

  /** One pass. */
  lemma PassTraced(buf: Bytes, tau: nat, at: seq<nat>, n: nat, c: Poly)
    requires Draws(buf, tau, at, n + 1) && n < tau
    requires forall x :: 0 <= x < 256 ==> c[x] == Traced(buf, tau, at, n, x)
    ensures at[n] < |buf| && |BitsOf(buf[..8])| == 64
    ensures var c' := Sampling.Swapped(c, 256 - tau + n, buf[at[n]], BitsOf(buf[..8])[n]);
      forall x :: 0 <= x < 256 ==> c'[x] == Traced(buf, tau, at, n + 1, x)
  {
    DrawsFewer(buf, tau, at, n);
    BitsOfAt(buf[..8], n);
    hide BitsOf, StreamBit, Draws;
    var i, j, bit := 256 - tau + n, buf[at[n]], BitsOf(buf[..8])[n];
    assert bit == StreamBit(buf, n) by { SameBit(buf, n); }
    var c' := Sampling.Swapped(c, i, j, bit);
    forall x | 0 <= x < 256
      ensures c'[x] == Traced(buf, tau, at, n + 1, x)
    {
      assert c'[x] == if x == j then Sampling.UnitOf(bit) else if x == i then c[j] else c[x];
    }
  }

  lemma SameBit(buf: Bytes, n: nat)
    requires |buf| >= 8 && n < 64
    ensures StreamBit(buf[..8], n) == StreamBit(buf, n)
  {}

  /** What the first n passes leave for the others. */
  lemma {:induction false} BallTraced(buf: Bytes, tau: nat, at: seq<nat>, n: nat, c: Poly) returns (all: seq<nat>)
    requires |at| == n <= tau <= 64 && |buf| >= 8 && Draws(buf, tau, at, n)
    requires forall x :: 0 <= x < 256 ==> c[x] == Traced(buf, tau, at, n, x)
    ensures Draws(buf, tau, all, |all|)
    ensures var r := Sampling.BallFrom(buf, BitsOf(buf[..8]), tau, 256 - tau + n, Behind(at, n), c);
      if r.Some? then |all| == tau && forall x :: 0 <= x < 256 ==> r.value[x] == Traced(buf, tau, all, tau, x)
      else |all| < tau && forall m :: Behind(all, |all|) <= m < |buf| ==> buf[m] > 256 - tau + |all|
    decreases tau - n
  {
    hide BitsOf, Draws, Sampling.NextAtMost, Sampling.Swapped, StreamBit, Traced;
    all := at;
    if n < tau {
      var i, pos, h := 256 - tau + n, Behind(at, n), BitsOf(buf[..8]);
      NextIs(buf, pos, i);
      var q := Sampling.NextAtMost(buf, pos, i);
      if q.Some? {
        var at' := at + [q.value];
        StillDraws(buf, tau, at, n, q.value);
        DrawsFewer(buf, tau, at', n);
        forall x | 0 <= x < 256
          ensures c[x] == Traced(buf, tau, at', n, x)
        {
          TracedPrefix(buf, tau, at, at', n, x);
        }
        PassTraced(buf, tau, at', n, c);
        all := BallTraced(buf, tau, at', n + 1, Sampling.Swapped(c, i, buf[q.value], h[n]));
      }
    }
  }

  /** The challenge of a stream: every entry is the traced value after tau passes, and the sampler fails exactly when
      after some passes no byte is left that the next one may take. */
  lemma ChallengeSample(buf: Bytes, tau: nat) returns (at: seq<nat>)
    requires tau <= 64 && |buf| >= 8
    ensures Draws(buf, tau, at, |at|)
    ensures var r := Sampling.BallOf(buf, tau);
      if r.Some? then |at| == tau && forall x :: 0 <= x < 256 ==> r.value[x] == Traced(buf, tau, at, tau, x)
      else |at| < tau && forall m :: Behind(at, |at|) <= m < |buf| ==> buf[m] > 256 - tau + |at|
  {
    hide BitsOf, Sampling.BallFrom;
    at := BallTraced(buf, tau, [], 0, seq(256, _ => 0));
  }
}
