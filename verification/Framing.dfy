/** From 257-bit blocks to symbols and lanes: the two messages of a pair, the distribution of their
    codewords over the lanes, and the alignment markers. */
module Framing {
  import opened Arithmetic
  import opened GF1024
  import opened RsCode
  import opened Transcoder

  const NBLK: nat := 40
  const AMBLK: nat := 8
  const PAIR_BITS: nat := 10280

  // ---------- symbols as bits ----------

  function ToBits(v: nat, n: nat): (b: Bits)
    ensures |b| == n
    decreases n, v
  {
    if n == 0 then [] else [v % 2 == 1] + ToBits(v / 2, n - 1)
  }

  lemma {:induction false} ToBitsValue(b: Bits)
    ensures ToBits(Value(b), |b|) == b
  {
    if b != [] {
      ToBitsValue(b[1..]);
    }
  }

  lemma {:induction false} ValueBound(b: Bits, n: nat, top: nat)
    requires |b| == n && top == Pow2(n)
    ensures Value(b) < top
  {
    if b != [] {
      ValueBound(b[1..], n - 1, Pow2(n - 1));
    }
  }

  function SymbolOf(b: Bits): (s: Symbol)
    requires |b| == 10
  {
    assert Pow2(10) == 1024;
    ValueBound(b, 10, 1024);
    Value(b)
  }

  function BitsOf(s: Symbol): (b: Bits)
    ensures |b| == 10
  {
    ToBits(s, 10)
  }

  lemma SymbolBits(b: Bits)
    requires |b| == 10
    ensures BitsOf(SymbolOf(b)) == b
  {
    ToBitsValue(b);
  }

  // ---------- pre-FEC distribution ----------

  type Pair = b: Bits | |b| == PAIR_BITS witness seq(PAIR_BITS, i => false)

  /** Symbols go to the two messages alternately. */
  function Split(pair: Pair): (r: (seq<Symbol>, seq<Symbol>))
    ensures |r.0| == |r.1| == K
  {
    (seq(K, i requires 0 <= i < K => SymbolOf(pair[20 * i..20 * i + 10])),
     seq(K, i requires 0 <= i < K => SymbolOf(pair[20 * i + 10..20 * i + 20])))
  }

  /** The bits of the first n symbols of each word, alternately. */
  function Merged(a: seq<Symbol>, b: seq<Symbol>, n: nat): (r: Bits)
    requires n <= |a| && n <= |b|
    ensures |r| == 20 * n
  {
    if n == 0 then [] else Merged(a, b, n - 1) + BitsOf(a[n - 1]) + BitsOf(b[n - 1])
  }

  method Merge(a: seq<Symbol>, b: seq<Symbol>) returns (pair: Pair)
    requires |a| >= K && |b| >= K
    ensures pair == Merged(a, b, K)
  {
    var p: Bits := [];
    for i := 0 to K
      invariant p == Merged(a, b, i)
    {
      p := p + BitsOf(a[i]) + BitsOf(b[i]);
    }
    pair := p;
  }

  lemma {:induction false} MergeSplit(pair: Pair, a: seq<Symbol>, b: seq<Symbol>, n: nat)
    requires n <= K && |a| >= K && |b| >= K && a[..K] == Split(pair).0 && b[..K] == Split(pair).1
    ensures Merged(a, b, n) == pair[..20 * n]
  {
    hide SymbolOf, BitsOf;
    if n > 0 {
      MergeSplit(pair, a, b, n - 1);
      var m := 20 * (n - 1);
      assert a[n - 1] == a[..K][n - 1] == SymbolOf(pair[m..m + 10]);
      assert b[n - 1] == b[..K][n - 1] == SymbolOf(pair[m + 10..m + 20]);
      SymbolBits(pair[m..m + 10]);
      SymbolBits(pair[m + 10..m + 20]);
      assert pair[..m + 10] == pair[..m] + pair[m..m + 10];
      assert pair[..m + 20] == pair[..m + 10] + pair[m + 10..m + 20];
    }
  }

  // ---------- distribution of the codewords ----------

  /** Whether transmitted symbol n comes from the first codeword. */
  predicate FromFirst(n: nat) {
    (n / 16) % 2 == n % 2
  }

  /** The index in its codeword of transmitted symbol n. */
  function CodewordIndex(n: nat): nat {
    8 * (n / 16) + (n % 16) / 2
  }

  method Interleave(ca: seq<Symbol>, cb: seq<Symbol>) returns (out: seq<Symbol>)
    requires |ca| == |cb| == N
    ensures out == Interleaved(ca, cb)
  {
    var buf := new Symbol[1088](i => 0);
    for k := 0 to 68
      invariant forall n :: 0 <= n < 16 * k ==> buf[n] == Interleaved(ca, cb)[n]
    {
      for j := 0 to 8
        invariant forall n :: 0 <= n < 16 * k + 2 * j ==> buf[n] == Interleaved(ca, cb)[n]
      {
        var p, q := if k % 2 == 0 then ca else cb, if k % 2 == 0 then cb else ca;
        InterleaveIndex(k, j);
        buf[16 * k + 2 * j] := p[8 * k + j];
        buf[16 * k + 2 * j + 1] := q[8 * k + j];
      }
    }
    out := buf[..];
  }

  function Interleaved(ca: seq<Symbol>, cb: seq<Symbol>): (out: seq<Symbol>)
    requires |ca| == |cb| == N
    ensures |out| == 1088
  {
    seq(1088, n requires 0 <= n < 1088 => if FromFirst(n) then ca[CodewordIndex(n)] else cb[CodewordIndex(n)])
  }

  lemma InterleaveIndex(k: nat, j: nat)
    requires j < 8
    ensures var n := 16 * k + 2 * j;
      && CodewordIndex(n) == CodewordIndex(n + 1) == 8 * k + j
      && FromFirst(n) == (k % 2 == 0) && FromFirst(n + 1) == (k % 2 == 1)
  {
    assert (16 * k + 2 * j) / 16 == k && (16 * k + 2 * j + 1) / 16 == k;
  }

  /** Where symbol m of the first (or second) codeword is transmitted. */
  function LanePosition(m: nat, first: bool): nat {
    16 * (m / 8) + 2 * (m % 8) + if ((m / 8) % 2 == 0) == first then 0 else 1
  }

  function FirstWord(out: seq<Symbol>): (c: seq<Symbol>)
    requires |out| == 1088
    ensures |c| == N
  {
    seq(N, m requires 0 <= m < N => out[LanePosition(m, true)])
  }

  function SecondWord(out: seq<Symbol>): (c: seq<Symbol>)
    requires |out| == 1088
    ensures |c| == N
  {
    seq(N, m requires 0 <= m < N => out[LanePosition(m, false)])
  }

  method Deinterleave(out: seq<Symbol>) returns (ca: seq<Symbol>, cb: seq<Symbol>)
    requires |out| == 1088
    ensures ca == FirstWord(out) && cb == SecondWord(out)
  {
    var a, b := new Symbol[N](i => 0), new Symbol[N](i => 0);
    for k := 0 to 68
      invariant forall m :: 0 <= m < 8 * k ==> a[m] == FirstWord(out)[m] && b[m] == SecondWord(out)[m]
    {
      for j := 0 to 8
        invariant forall m :: 0 <= m < 8 * k + j ==> a[m] == FirstWord(out)[m] && b[m] == SecondWord(out)[m]
      {
        assert (8 * k + j) / 8 == k && (8 * k + j) % 8 == j;
        var p, q := if k % 2 == 0 then a else b, if k % 2 == 0 then b else a;
        p[8 * k + j] := out[16 * k + 2 * j];
        q[8 * k + j] := out[16 * k + 2 * j + 1];
      }
    }
    ca, cb := a[..], b[..];
  }

  /** Deinterleaving inverts interleaving. */
  lemma DeinterleaveInterleave(ca: seq<Symbol>, cb: seq<Symbol>)
    requires |ca| == |cb| == N
    ensures FirstWord(Interleaved(ca, cb)) == ca && SecondWord(Interleaved(ca, cb)) == cb
  {
    forall m | 0 <= m < N
      ensures FirstWord(Interleaved(ca, cb))[m] == ca[m] && SecondWord(Interleaved(ca, cb))[m] == cb[m]
    {
      var k, j := m / 8, m % 8;
      InterleaveIndex(k, j);
      assert m == 8 * k + j;
    }
  }

  lemma PlaceOfIndex(n: nat)
    requires n < 1088
    ensures LanePosition(CodewordIndex(n), FromFirst(n)) == n
  {
    var k, j, e := n / 16, (n % 16) / 2, n % 2;
    assert n == 16 * k + 2 * j + e;
    var m := 8 * k + j;
    assert m / 8 == k && m % 8 == j;
    assert CodewordIndex(n) == m;
  }

  /** Interleaving inverts deinterleaving: no transmitted symbol is lost or sent twice. */
  lemma InterleaveDeinterleave(out: seq<Symbol>)
    requires |out| == 1088
    ensures Interleaved(FirstWord(out), SecondWord(out)) == out
  {
    forall n | 0 <= n < 1088
      ensures Interleaved(FirstWord(out), SecondWord(out))[n] == out[n]
    {
      PlaceOfIndex(n);
    }
  }
}
