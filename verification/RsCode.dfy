/** The RS(544,514) code: tables, generator polynomial, LFSR encoder, syndromes, and its distance.
    Codewords are transmitted first symbol first: c[0] is the coefficient of x^543. */
module RsCode {
  import opened GF1024
  import opened GFPowers

  const N: nat := 544
  const K: nat := 514
  const NSYM: nat := 30
  const T: nat := 15

  // ---------- the log/antilog tables ----------

  datatype Tables = Tables(exp: seq<Symbol>, log: seq<nat>) {
    ghost predicate Valid() {
      && |exp| == 2048 && |log| == 1024
      && (forall i :: 0 <= i < 2048 ==> exp[i] == Exp(i))
      && (forall a: Symbol :: log[a] == Log(a))
    }

    /** Multiplication by adding logarithms. */
    function Times(a: Symbol, b: Symbol): (r: Symbol)
      requires Valid()
      ensures r == Mul(a, b)
    {
      hide Exp, Mul;
      MulZero(a); MulZero(b);
      if a == 0 || b == 0 then 0
      else
        ExpAdds(Log(a), Log(b));
        exp[log[a] + log[b]]
    }

    function Inverse(a: Symbol): (r: Symbol)
      requires Valid()
      ensures r == Inv(a)
      ensures a != 0 ==> Mul(a, r) == 1
      ensures a == 0 ==> r == 1
    {
      hide Exp, Mul;
      if a != 0 then
        InvMul(a);
        exp[1023 - log[a]]
      else
        Order();
        exp[1023 - log[a]]
    }

    function Power(a: Symbol, e: nat): (r: Symbol)
      requires Valid()
      ensures r == if a == 0 then 0 else Alpha(Log(a) * e)
    {
      if a == 0 then 0 else exp[(log[a] * e) % 1023]
    }
  }

  /** The set-up loops of the module. */
  method BuildTables() returns (t: Tables)
    ensures t.Valid()
  {
    hide Times2, Mul;
    var exp: seq<Symbol> := seq(2048, i => 0);
    var log: seq<nat> := seq(1024, i => 0);
    var x: Symbol := 1;
    for i := 0 to 1023
      invariant |exp| == 2048 && |log| == 1024
      invariant x == Exp(i)
      invariant forall k :: 0 <= k < i ==> exp[k] == Exp(k)
      invariant log[0] == 0
      invariant forall k :: 0 <= k < i ==> log[Exp(k)] == k
    {
      forall k | 0 <= k < i
        ensures Exp(k) != x
      {
        ExpInjective(k, i);
      }
      ExpNonzero(i);
      exp := exp[i := x];
      log := log[x as int := i];
      x := Times2(x);
    }
    hide Exp;
    forall a: Symbol
      ensures log[a] == Log(a)
    {
      assert a != 0 ==> log[Exp(Log(a))] == Log(a);
    }
    for i := 1023 to 2048
      invariant |exp| == 2048
      invariant forall k :: 0 <= k < i ==> exp[k] == Exp(k)
    {
      ExpMod(i);
      ExpMod(i - 1023);
      exp := exp[i := exp[i - 1023]];
    }
    t := Tables(exp, log);
  }

  // ---------- polynomials, highest degree first ----------

  /** Horner's rule over the symbols in transmit order. */
  function EvalHigh(c: seq<Symbol>, x: Symbol): Symbol {
    if c == [] then 0 else Add(Mul(EvalHigh(c[..|c| - 1], x), x), c[|c| - 1])
  }

  function XorSeq(a: seq<Symbol>, b: seq<Symbol>): (r: seq<Symbol>)
    requires |a| == |b|
    ensures |r| == |a|
  {
    seq(|a|, i requires 0 <= i < |a| => Add(a[i], b[i]))
  }

  function Scale(k: Symbol, a: seq<Symbol>): (r: seq<Symbol>)
    ensures |r| == |a|
  {
    seq(|a|, i requires 0 <= i < |a| => Mul(k, a[i]))
  }

  lemma {:induction false} EvalHighXor(a: seq<Symbol>, b: seq<Symbol>, x: Symbol)
    requires |a| == |b|
    ensures EvalHigh(XorSeq(a, b), x) == Add(EvalHigh(a, x), EvalHigh(b, x))
  {
    AddZero(0);
    hide Add, Mul;
    if a != [] {
      var m := |a| - 1;
      EvalHighXor(a[..m], b[..m], x);
      assert XorSeq(a, b)[..m] == XorSeq(a[..m], b[..m]);
      MulLinearLeft(EvalHigh(a[..m], x), EvalHigh(b[..m], x), x);
      AddSwap(Mul(EvalHigh(a[..m], x), x), Mul(EvalHigh(b[..m], x), x), a[m], b[m]);
    }
  }

  lemma {:induction false} EvalHighScale(k: Symbol, a: seq<Symbol>, x: Symbol)
    ensures EvalHigh(Scale(k, a), x) == Mul(k, EvalHigh(a, x))
  {
    MulZero(k);
    hide Add, Mul;
    if a != [] {
      var m := |a| - 1;
      EvalHighScale(k, a[..m], x);
      assert Scale(k, a)[..m] == Scale(k, a[..m]);
      MulAssoc(k, EvalHigh(a[..m], x), x);
      MulLinearRight(k, Mul(EvalHigh(a[..m], x), x), a[m]);
    }
  }

  lemma {:induction false} EvalHighConcat(a: seq<Symbol>, b: seq<Symbol>, j: int)
    ensures EvalHigh(a + b, Alpha(j)) == Add(Mul(EvalHigh(a, Alpha(j)), Alpha(j * |b|)), EvalHigh(b, Alpha(j)))
  {
    hide Add, Mul, Alpha;
    var x := Alpha(j);
    var ea := EvalHigh(a, x);
    if b == [] {
      assert a + b == a;
      AlphaZero();
      MulOne(ea);
      AddZero(ea);
      assert j * 0 == 0;
    } else {
      var m := |b| - 1;
      EvalHighConcat(a, b[..m], j);
      assert (a + b)[..|a + b| - 1] == a + b[..m];
      var y := Alpha(j * m);
      MulLinearLeft(Mul(ea, y), EvalHigh(b[..m], x), x);
      MulAssoc(ea, y, x);
      AlphaAdds(j * m, j);
      assert j * m + j == j * |b|;
      AddAssoc(Mul(Mul(ea, y), x), Mul(EvalHigh(b[..m], x), x), b[m]);
    }
  }

  lemma EvalHighOne(a: Symbol, x: Symbol)
    ensures EvalHigh([a], x) == a
  {
    assert [a][..0] == [];
    MulZero(x);
    AddZero(a);
  }

  lemma EvalHighPush(a: seq<Symbol>, s: Symbol, x: Symbol)
    ensures EvalHigh(a + [s], x) == Add(Mul(EvalHigh(a, x), x), s)
  {
    assert (a + [s])[..|a|] == a;
  }

  // ---------- the generator polynomial ----------

  /** (x - r) g. */
  function GenStep(g: seq<Symbol>, r: Symbol): (h: seq<Symbol>)
    ensures |h| == |g| + 1
  {
    XorSeq(g + [0], [0] + Scale(r, g))
  }

  /** The product of (x - alpha^j) for j < n. */
  function Generator(n: nat): (g: seq<Symbol>)
    ensures |g| == n + 1
  {
    if n == 0 then [1] else GenStep(Generator(n - 1), Exp(n - 1))
  }

  lemma GenStepEval(g: seq<Symbol>, r: Symbol, j: int)
    ensures EvalHigh(GenStep(g, r), Alpha(j)) == Mul(EvalHigh(g, Alpha(j)), Add(Alpha(j), r))
  {
    hide Add, Mul, Alpha;
    var x := Alpha(j);
    EvalHighXor(g + [0], [0] + Scale(r, g), x);
    EvalHighPush(g, 0, x);
    AddZero(Mul(EvalHigh(g, x), x));
    EvalHighConcat([0], Scale(r, g), j);
    EvalHighOne(0, x);
    MulZero(Alpha(j * |g|));
    EvalHighScale(r, g, x);
    AddZero(Mul(r, EvalHigh(g, x)));
    MulComm(r, EvalHigh(g, x));
    MulLinearRight(EvalHigh(g, x), x, r);
  }

  /** The generator of degree n is monic with roots alpha^0 .. alpha^(n-1). */
  lemma {:induction false} GeneratorRoots(n: nat, j: nat)
    requires j < n <= 1023
    ensures EvalHigh(Generator(n), Alpha(j)) == 0
  {
    hide Add, Mul, Alpha, GenStep;
    var g, r := Generator(n - 1), Exp(n - 1);
    GenStepEval(g, r, j);
    if j == n - 1 {
      AlphaNat(j);
      AddSelf(r);
    } else {
      GeneratorRoots(n - 1, j);
    }
    MulZero(EvalHigh(g, Alpha(j)));
    MulZero(Add(Alpha(j), r));
  }

  lemma {:induction false} GeneratorMonic(n: nat)
    ensures Generator(n)[0] == 1
  {
    if n > 0 {
      GeneratorMonic(n - 1);
      AddZero(1);
    }
  }

  lemma GenStepAt(g: seq<Symbol>, r: Symbol)
    requires g != []
    ensures GenStep(g, r)[0] == g[0]
    ensures forall i :: 0 <= i < |g| ==> GenStep(g, r)[i + 1] == Add((g + [0])[i + 1], Mul(g[i], r))
  {
    AddZero(g[0]);
    forall i | 0 <= i < |g|
      ensures GenStep(g, r)[i + 1] == Add((g + [0])[i + 1], Mul(g[i], r))
    {
      MulComm(r, g[i]);
    }
  }

  method GenPoly(t: Tables) returns (g: seq<Symbol>)
    requires t.Valid()
    ensures g == Generator(NSYM)
  {
    hide Exp, Mul, Add, GenStep;
    g := [1];
    for j := 0 to NSYM
      invariant g == Generator(j)
    {
      var r := t.exp[j];
      var out := g + [0];
      ghost var padded, next := out, GenStep(g, r);
      GenStepAt(g, r);
      for i := 0 to |g|
        invariant |out| == |g| + 1
        invariant forall k :: 0 <= k <= i ==> out[k] == next[k]
        invariant forall k :: i < k <= |g| ==> out[k] == padded[k]
      {
        out := out[i + 1 := Add(out[i + 1], t.Times(g[i], r))];
      }
      assert out == next;
      g := out;
    }
  }

  // ---------- the encoder ----------

  /** The shift register after one more message symbol. */
  function LfsrStep(rem: seq<Symbol>, s: Symbol): (r: seq<Symbol>)
    requires |rem| == NSYM
    ensures |r| == NSYM
  {
    XorSeq(rem[1..] + [0], Scale(Add(s, rem[0]), Generator(NSYM)[1..]))
  }

  /** The parity symbols of a message: its register content after all of its symbols. */
  function Parity(msg: seq<Symbol>): (r: seq<Symbol>)
    ensures |r| == NSYM
  {
    if msg == [] then seq(NSYM, i => 0) else LfsrStep(Parity(msg[..|msg| - 1]), msg[|msg| - 1])
  }

  function Codeword(msg: seq<Symbol>): seq<Symbol> {
    msg + Parity(msg)
  }

  method Encode(t: Tables, g: seq<Symbol>, msg: seq<Symbol>) returns (c: seq<Symbol>)
    requires t.Valid() && g == Generator(NSYM) && |msg| == K
    ensures c == Codeword(msg)
    ensures IsCodeword(c) && c[..K] == msg
  {
    hide Exp, Generator;
    var rem: seq<Symbol> := seq(NSYM, i => 0);
    for k := 0 to |msg|
      invariant rem == Parity(msg[..k])
    {
      var s := msg[k];
      var fb := Add(s, rem[0]);
      ghost var next := LfsrStep(rem, s);
      rem := rem[1..] + [0];
      ghost var shifted := rem;
      if fb != 0 {
        for i := 0 to NSYM
          invariant |rem| == NSYM
          invariant forall m :: 0 <= m < i ==> rem[m] == next[m]
          invariant forall m :: i <= m < NSYM ==> rem[m] == shifted[m]
        {
          MulComm(g[i + 1], fb);
          rem := rem[i := Add(rem[i], t.Times(g[i + 1], fb))];
        }
      } else {
        forall m | 0 <= m < NSYM
          ensures rem[m] == next[m]
        {
          MulZero(g[m + 1]);
          AddZero(rem[m]);
        }
      }
      assert rem == next;
      assert msg[..k + 1][..k] == msg[..k];
    }
    assert msg[..|msg|] == msg;
    c := msg + rem;
    CodewordIsCodeword(msg);
  }

  // ---------- syndromes and codewords ----------

  /** The word as a polynomial, at alpha^j. */
  function Syndrome(c: seq<Symbol>, j: nat): Symbol {
    EvalHigh(c, Exp(j))
  }

  /** A codeword has all thirty syndromes zero. */
  ghost predicate IsCodeword(c: seq<Symbol>) {
    |c| == N && forall j: nat :: j < NSYM ==> Syndrome(c, j) == 0
  }

  method Syndromes(t: Tables, c: seq<Symbol>) returns (out: seq<Symbol>)
    requires t.Valid()
    ensures |out| == NSYM && forall j: nat :: j < NSYM ==> out[j] == Syndrome(c, j)
  {
    hide Exp, Mul, Add;
    out := [];
    for j := 0 to NSYM
      invariant |out| == j && forall k: nat :: k < j ==> out[k] == Syndrome(c, k)
    {
      var a, s: Symbol := t.exp[j], 0;
      for i := 0 to |c|
        invariant s == EvalHigh(c[..i], a)
      {
        s := Add(t.Times(s, a), c[i]);
        assert c[..i + 1][..i] == c[..i];
      }
      assert c[..|c|] == c;
      out := out + [s];
    }
  }

  /** The register is the message times x^30 modulo the generator, at each root of the generator. */
  lemma {:induction false} ParityEval(msg: seq<Symbol>, j: nat)
    requires j < NSYM
    ensures EvalHigh(Parity(msg), Alpha(j)) == Mul(EvalHigh(msg, Alpha(j)), Alpha(j * NSYM))
  {
    hide Add, Mul, Alpha, Generator, LfsrStep;
    var x, z := Alpha(j), Alpha(j * NSYM);
    if msg == [] {
      EvalHighZeros(NSYM, x);
      MulZero(z);
    } else {
      var m := msg[..|msg| - 1];
      var s := msg[|msg| - 1];
      ParityEval(m, j);
      LfsrStepEval(Parity(m), s, j);
      var e := EvalHigh(m, x);
      MulLinearLeft(Mul(e, x), s, z);
      MulAssoc(e, x, z); MulComm(x, z); MulAssoc(e, z, x);
    }
  }

  lemma {:induction false} EvalHighZeros(n: nat, x: Symbol)
    ensures EvalHigh(seq(n, i => 0), x) == 0
  {
    if n > 0 {
      EvalHighZeros(n - 1, x);
      assert (seq(n, i => 0 as Symbol))[..n - 1] == seq(n - 1, i => 0);
      MulZero(x);
      AddZero(0);
    }
  }

  lemma LfsrStepEval(rem: seq<Symbol>, s: Symbol, j: nat)
    requires |rem| == NSYM && j < NSYM
    ensures EvalHigh(LfsrStep(rem, s), Alpha(j)) ==
      Add(Mul(EvalHigh(rem, Alpha(j)), Alpha(j)), Mul(s, Alpha(j * NSYM)))
  {
    hide Add, Mul, Alpha, Generator;
    var x, z := Alpha(j), Alpha(j * NSYM);
    var g, rest, fb := Generator(NSYM), rem[1..], Add(s, rem[0]);
    var er := EvalHigh(rest, x);
    EvalHighXor(rest + [0], Scale(fb, g[1..]), x);
    EvalHighPush(rest, 0, x);
    AddZero(Mul(er, x));
    EvalHighScale(fb, g[1..], x);
    // g(x) = x^30 + g'(x) = 0
    GeneratorMonic(NSYM);
    GeneratorRoots(NSYM, j);
    assert g == [1] + g[1..];
    EvalHighConcat([1], g[1..], j);
    EvalHighOne(1, x);
    MulOne(z);
    AddIsZero(z, EvalHigh(g[1..], x));
    // rem(x) x = rem[0] x^30 + rest(x) x
    assert rem == [rem[0]] + rest;
    EvalHighConcat([rem[0]], rest, j);
    EvalHighOne(rem[0], x);
    MulLinearLeft(Mul(rem[0], Alpha(j * |rest|)), er, x);
    MulAssoc(rem[0], Alpha(j * |rest|), x);
    AlphaAdds(j * |rest|, j);
    assert j * |rest| + j == j * NSYM;
    MulLinearLeft(s, rem[0], z);
    var p, q, r := Mul(er, x), Mul(s, z), Mul(rem[0], z);
    assert EvalHigh(LfsrStep(rem, s), x) == Add(p, Add(q, r));
    AddComm(q, r);
    AddAssoc(p, r, q);
    AddComm(p, r);
  }

  lemma CodewordIsCodeword(msg: seq<Symbol>)
    requires |msg| == K
    ensures IsCodeword(Codeword(msg))
  {
    hide Add, Mul, Alpha, Exp, Parity;
    forall j: nat | j < NSYM
      ensures Syndrome(Codeword(msg), j) == 0
    {
      AlphaNat(j);
      ParityEval(msg, j);
      EvalHighConcat(msg, Parity(msg), j);
      AddSelf(EvalHigh(Parity(msg), Alpha(j)));
    }
  }
}
