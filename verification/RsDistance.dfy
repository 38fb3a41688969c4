/** Distance between words, and what thirty zero syndromes force: distinct codewords differ in at
    least 31 symbols, and a codeword is determined by its message part. */
module RsDistance {
  import opened GF1024
  import opened GFPowers
  import opened Poly
  import opened PowerSums
  import opened RsCode

  /** The number of positions in which two words differ. */
  function Hamming(a: seq<Symbol>, b: seq<Symbol>): nat
    requires |a| == |b|
  {
    if a == [] then 0 else Hamming(a[1..], b[1..]) + if a[0] != b[0] then 1 else 0
  }

  /** The difference of two words by degree: entry p belongs to the coefficient of x^p. */
  function ErrorVector(a: seq<Symbol>, b: seq<Symbol>): (e: seq<Symbol>)
    requires |a| == |b|
    ensures |e| == |a|
  {
    seq(|a|, p requires 0 <= p < |a| => Add(a[|a| - 1 - p], b[|a| - 1 - p]))
  }

  lemma {:induction false} HammingIsWeight(a: seq<Symbol>, b: seq<Symbol>)
    requires |a| == |b|
    ensures Weight(ErrorVector(a, b)) == Hamming(a, b)
  {
    hide Add;
    if a != [] {
      var n := |a|;
      HammingIsWeight(a[1..], b[1..]);
      var e, f := ErrorVector(a, b), ErrorVector(a[1..], b[1..]);
      assert e[..n - 1] == f;
      WeightPrefix(e, f, n - 1);
      AddIsZero(a[0], b[0]);
      assert e[n - 1] == Add(a[0], b[0]);
    }
  }

  lemma {:induction false} WeightPrefix(e: seq<Symbol>, f: seq<Symbol>, n: nat)
    requires n <= |e| && n <= |f| && e[..n] == f[..n]
    ensures WeightBelow(e, n) == WeightBelow(f, n)
  {
    if n > 0 {
      assert e[..n - 1] == e[..n][..n - 1];
      assert f[..n - 1] == f[..n][..n - 1];
      assert e[n - 1] == e[..n][n - 1] && f[n - 1] == f[..n][n - 1];
      WeightPrefix(e, f, n - 1);
    }
  }

  lemma {:induction false} HammingZero(a: seq<Symbol>, b: seq<Symbol>)
    requires |a| == |b|
    ensures Hamming(a, b) == 0 <==> a == b
  {
    if a != [] {
      HammingZero(a[1..], b[1..]);
      assert a == [a[0]] + a[1..] && b == [b[0]] + b[1..];
    }
  }

  lemma {:induction false} HammingComm(a: seq<Symbol>, b: seq<Symbol>)
    requires |a| == |b|
    ensures Hamming(a, b) == Hamming(b, a)
  {
    if a != [] {
      HammingComm(a[1..], b[1..]);
    }
  }

  lemma {:induction false} HammingTriangle(a: seq<Symbol>, b: seq<Symbol>, c: seq<Symbol>)
    requires |a| == |b| == |c|
    ensures Hamming(a, c) <= Hamming(a, b) + Hamming(b, c)
  {
    if a != [] {
      HammingTriangle(a[1..], b[1..], c[1..]);
    }
  }

  /** Words that agree on a prefix differ in at most the rest. */
  lemma {:induction false} HammingPrefix(a: seq<Symbol>, b: seq<Symbol>, n: nat)
    requires |a| == |b| && n <= |a| && a[..n] == b[..n]
    ensures Hamming(a, b) <= |a| - n
  {
    if a != [] {
      if n == 0 {
        HammingPrefix(a[1..], b[1..], 0);
      } else {
        assert a[0] == a[..n][0] && b[0] == b[..n][0];
        assert a[1..][..n - 1] == a[..n][1..] && b[1..][..n - 1] == b[..n][1..];
        HammingPrefix(a[1..], b[1..], n - 1);
      }
    }
  }

  /** Changing one symbol moves a word by at most one. */
  lemma {:induction false} HammingUpdate(a: seq<Symbol>, b: seq<Symbol>, i: nat, v: Symbol)
    requires |a| == |b| && i < |a|
    ensures Hamming(a[i := v], b) <= Hamming(a, b) + 1
  {
    if i == 0 {
      assert a[0 := v][1..] == a[1..];
    } else {
      HammingUpdate(a[1..], b[1..], i - 1, v);
      assert a[i := v][1..] == a[1..][i - 1 := v];
    }
  }

  lemma {:induction false} HammingLast(a: seq<Symbol>, b: seq<Symbol>, n: nat)
    requires |a| == |b| == n + 1
    ensures Hamming(a, b) == Hamming(a[..n], b[..n]) + if a[n] != b[n] then 1 else 0
    decreases n
  {
    if n == 0 {
      assert a[1..] == [] && b[1..] == [] && a[..0] == [] && b[..0] == [];
    } else {
      HammingLast(a[1..], b[1..], n - 1);
      assert a[1..][..n - 1] == a[..n][1..] && b[1..][..n - 1] == b[..n][1..];
    }
  }

  /** A word and the word with errors added differ in as many symbols as the errors have nonzero ones. */
  lemma {:induction false} HammingOfErrors(a: seq<Symbol>, e: seq<Symbol>, n: nat)
    requires |a| == |e| && n <= |a|
    ensures Hamming(a[..n], XorSeq(a, e)[..n]) == WeightBelow(e, n)
  {
    hide Add;
    if n > 0 {
      HammingOfErrors(a, e, n - 1);
      var b := XorSeq(a, e);
      HammingLast(a[..n], b[..n], n - 1);
      assert a[..n][..n - 1] == a[..n - 1] && b[..n][..n - 1] == b[..n - 1];
      AddCancel(e[n - 1], a[n - 1]);
      AddComm(e[n - 1], a[n - 1]);
      AddSelf(a[n - 1]);
      AddZero(a[n - 1]);
    }
  }

  // ---------- syndromes are power sums ----------

  function Reverse(c: seq<Symbol>): (r: seq<Symbol>)
    ensures |r| == |c|
  {
    seq(|c|, p requires 0 <= p < |c| => c[|c| - 1 - p])
  }

  lemma {:induction false} EvalHighIsEval(c: seq<Symbol>, x: Symbol)
    ensures EvalHigh(c, x) == Eval(Reverse(c), x)
  {
    hide Add, Mul;
    if c != [] {
      var m := |c| - 1;
      EvalHighIsEval(c[..m], x);
      assert Reverse(c)[1..] == Reverse(c[..m]);
      MulComm(EvalHigh(c[..m], x), x);
      AddComm(c[m], Mul(x, EvalHigh(c[..m], x)));
    }
  }

  lemma SyndromeIsPowerSum(c: seq<Symbol>, j: nat)
    ensures Syndrome(c, j) == PowerSum(Reverse(c), j)
  {
    hide Add, Mul, Exp, Alpha;
    AlphaNat(j);
    EvalHighIsEval(c, Exp(j));
    EvalSum(Reverse(c), j);
    forall p: nat | p < |c|
      ensures Mul(At(Reverse(c), p), Alpha(j * p)) == Mul(At(Reverse(c), p), Alpha(p * j))
    {
      assert j * p == p * j;
    }
    SumCong(|c|, p => Mul(At(Reverse(c), p), Alpha(j * p)), p => Mul(At(Reverse(c), p), Alpha(p * j)));
  }

  /** The syndromes of a word see only its difference from a codeword. */
  lemma SyndromeOfError(c: seq<Symbol>, w: seq<Symbol>, j: nat)
    requires IsCodeword(w) && |c| == N && j < NSYM
    ensures Syndrome(c, j) == PowerSum(ErrorVector(c, w), j)
  {
    hide Add, Mul, Exp;
    var d := XorSeq(c, w);
    EvalHighXor(c, w, Exp(j));
    AddZero(Syndrome(c, j));
    assert Syndrome(w, j) == 0;
    SyndromeIsPowerSum(d, j);
    assert Reverse(d) == ErrorVector(c, w);
  }

  /** Any two distinct codewords differ in at least 31 symbols. */
  lemma MinimumDistance(a: seq<Symbol>, b: seq<Symbol>)
    requires IsCodeword(a) && IsCodeword(b) && a != b
    ensures Hamming(a, b) >= 31
  {
    hide Syndrome, Add;
    var e := ErrorVector(a, b);
    HammingIsWeight(a, b);
    if Weight(e) <= 30 {
      forall j | 0 <= j < 0 + 30
        ensures PowerSum(e, j) == 0
      {
        SyndromeOfError(a, b, j);
      }
      VanishingPowerSums(e, 0, 30);
      NoDifference(a, b);
    }
  }

  lemma NoDifference(a: seq<Symbol>, b: seq<Symbol>)
    requires |a| == |b|
    requires forall p :: 0 <= p < |a| ==> ErrorVector(a, b)[p] == 0
    ensures a == b
  {
    hide Add;
    forall i | 0 <= i < |a|
      ensures a[i] == b[i]
    {
      AddIsZero(a[i], b[i]);
      assert ErrorVector(a, b)[|a| - 1 - i] == Add(a[i], b[i]);
    }
  }

  /** A word is a codeword exactly when it is the encoding of its first 514 symbols. */
  lemma CodewordIff(c: seq<Symbol>)
    requires |c| == N
    ensures IsCodeword(c) <==> c == Codeword(c[..K])
  {
    hide Syndrome, Parity;
    var w := Codeword(c[..K]);
    CodewordIsCodeword(c[..K]);
    if IsCodeword(c) && c != w {
      assert w[..K] == c[..K];
      HammingPrefix(c, w, K);
      MinimumDistance(c, w);
    }
  }

  /** Encoding is linear over GF(2). */
  lemma EncodeLinear(a: seq<Symbol>, b: seq<Symbol>)
    requires |a| == |b| == K
    ensures Codeword(XorSeq(a, b)) == XorSeq(Codeword(a), Codeword(b))
  {
    hide Exp, Parity, Add;
    var w := XorSeq(Codeword(a), Codeword(b));
    CodewordIsCodeword(a);
    CodewordIsCodeword(b);
    forall j: nat | j < NSYM
      ensures Syndrome(w, j) == 0
    {
      assert Syndrome(Codeword(a), j) == 0 && Syndrome(Codeword(b), j) == 0;
      EvalHighXor(Codeword(a), Codeword(b), Exp(j));
      AddSelf(0);
    }
    CodewordIff(w);
    assert w[..K] == XorSeq(a, b);
  }

  /** At most one codeword lies within 15 symbols of a word. */
  lemma NearestUnique(c: seq<Symbol>, a: seq<Symbol>, b: seq<Symbol>)
    requires |c| == N && IsCodeword(a) && IsCodeword(b)
    requires Hamming(a, c) <= T && Hamming(b, c) <= T
    ensures a == b
  {
    hide Syndrome;
    if a != b {
      MinimumDistance(a, b);
      HammingTriangle(a, c, b);
      HammingComm(b, c);
    }
  }
}
