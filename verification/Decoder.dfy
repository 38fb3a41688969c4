/** `decode`: Berlekamp-Massey, Chien search, Forney's formula and the final re-check, proved to be
    bounded-distance decoding. */
module Decoder {
  import opened Options
  import opened GF1024
  import opened GFPowers
  import opened Poly
  import opened PowerSums
  import opened RsCode
  import opened RsDistance
  import opened BerlekampMassey
  import opened Locator

  // ---------- the derivative in the denominator ----------

  /** The odd terms, up to index n, of the derivative of lam at alpha^(-q). */
  function Derivative(lam: seq<Symbol>, q: nat, n: nat): Symbol {
    if n == 0 then 0
    else
      Add(Derivative(lam, q, n - 1),
          if n % 2 == 1 then Mul(At(lam, n), Alpha(-(q as int) * (n - 1))) else 0)
  }

  /** The derivative is alpha^q times the quotient of lam by its own factor. */
  lemma {:induction false} DerivativeIsQuotient(lam: seq<Symbol>, q: nat, n: nat)
    ensures Derivative(lam, q, n) == Mul(Alpha(q), ChainValue(lam, q, q, if n % 2 == 1 then n + 1 else n))
  {
    hide Add, Mul, Alpha, Chain, ChainValue;
    var X := Alpha(q);
    if n == 0 {
      MulZero(X);
      ChainValueStart(lam, q);
    } else if n % 2 == 0 {
      DerivativeIsQuotient(lam, q, n - 1);
      AddZero(Derivative(lam, q, n - 1));
    } else {
      DerivativeIsQuotient(lam, q, n - 1);
      var v := ChainValue(lam, q, q, n - 1);
      var a := Mul(Chain(lam, q, n - 1), Alpha(-(q as int) * (n - 1)));
      var b := Mul(Chain(lam, q, n), Alpha(-(q as int) * n));
      ChainValueStep(lam, q, n - 1);
      ChainValueStep(lam, q, n);
      DerivativeStep(lam, q, n);
      AddAssoc(v, a, b);
      MulLinearRight(X, v, Add(a, b));
    }
  }

  lemma ChainValueStart(lam: seq<Symbol>, q: int)
    ensures ChainValue(lam, q, q, 0) == 0
  {}

  lemma ChainValueStep(lam: seq<Symbol>, q: int, n: nat)
    ensures ChainValue(lam, q, q, n + 1) == Add(ChainValue(lam, q, q, n), Mul(Chain(lam, q, n), Alpha(-q * n)))
  {
    hide Add, Mul, Alpha, Chain;
  }

  /** Two successive terms of the quotient make one term of the derivative. */
  lemma DerivativeStep(lam: seq<Symbol>, q: nat, n: nat)
    requires n >= 1
    ensures Mul(Alpha(q), Add(Mul(Chain(lam, q, n - 1), Alpha(-(q as int) * (n - 1))),
                              Mul(Chain(lam, q, n), Alpha(-(q as int) * n))))
         == Mul(At(lam, n), Alpha(-(q as int) * (n - 1)))
  {
    hide Add, Mul, Alpha;
    var X, y, z := Alpha(q), Alpha(-(q as int) * (n - 1)), Alpha(-(q as int) * n);
    var c, c', a := Chain(lam, q, n), Chain(lam, q, n - 1), At(lam, n);
    AlphaAdds(q, -(q as int) * n);
    assert q + -(q as int) * n == -(q as int) * (n - 1);
    MulSwap(X, c, z);
    MulLinearRight(X, Mul(c', y), Mul(c, z));
    MulLinearLeft(a, Mul(X, c'), y);
    MulAssoc(X, c', y);
    var r := Mul(X, Mul(c', y));
    AddComm(Mul(a, y), r);
    AddCancel(Mul(a, y), r);
  }

  // ---------- the error value ----------

  /** The quotient of lam by its own factor does not vanish at a root: the roots are simple. */
  lemma OwnQuotientNonzero(e: seq<Symbol>, S: seq<Symbol>, lam: seq<Symbol>, L: nat, q: nat)
    requires Locates(e, S, lam, L) && q < N && e[q] != 0
    ensures ChainValue(lam, q, q, NSYM) != 0
  {
    hide Add, Mul, Alpha, Chain, Eval, Discrepancy, PowerSum, IsRoot, ChainValue;
    RootsAreErrors(e, S, lam, L);
    WeightPositive(e, q, |e|);
    var h := seq(L, i requires 0 <= i < L => Chain(lam, q, i));
    assert h[0] == 1 by {
      ChainStart(lam, q);
    }
    if ChainValue(lam, q, q, NSYM) == 0 {
      forall k: nat | k < N && e[k] != 0
        ensures IsRoot(h, k)
      {
        if k != q {
          OtherQuotientsVanish(lam, L, q, k);
        }
        QuotientAsPolynomial(lam, L, q, k, h);
        RootByValue(h, k);
      }
      RootsCoverErrors(h, e, N);
      RootBound(h, N);
    }
  }

  lemma ChainStart(lam: seq<Symbol>, q: int)
    ensures Chain(lam, q, 0) == At(lam, 0)
  {}

  lemma RootByValue(p: seq<Symbol>, k: nat)
    requires Eval(p, AlphaNeg(k)) == 0
    ensures IsRoot(p, k)
  {}

  lemma {:induction false} WeightPositive(e: seq<Symbol>, q: nat, n: nat)
    requires q < n <= |e| && e[q] != 0
    ensures WeightBelow(e, n) > 0
  {
    if q < n - 1 {
      WeightPositive(e, q, n - 1);
    }
  }

  lemma QuotientAsPolynomial(lam: seq<Symbol>, L: nat, q: nat, k: nat, h: seq<Symbol>)
    requires |lam| == NSYM + 1 && L <= NSYM && forall j :: L < j < |lam| ==> lam[j] == 0
    requires IsRoot(lam[..L + 1], q)
    requires h == seq(L, i requires 0 <= i < L => Chain(lam, q, i))
    ensures Eval(h, AlphaNeg(k)) == ChainValue(lam, q, k, NSYM)
  {
    hide Add, Mul, Alpha, Eval, Chain, IsRoot;
    ChainValueEnds(lam, L, q, k, L);
    ChainValueIsEval(lam, L, q, k, h);
  }

  lemma ChainValueIsEval(lam: seq<Symbol>, L: nat, q: nat, k: nat, h: seq<Symbol>)
    requires L <= |lam| && h == seq(L, i requires 0 <= i < L => Chain(lam, q, i))
    ensures Eval(h, AlphaNeg(k)) == ChainValue(lam, q, k, L)
  {
    hide Add, Mul, Alpha, Eval, Chain;
    EvalSum(h, -(k as int));
    SumCong(L, i => Mul(At(h, i), Alpha(-(k as int) * i)), i => Mul(Chain(lam, q, i), Alpha(-(k as int) * i)));
  }

  /** The quotient by a root's factor may be cut anywhere from L on. */
  lemma ChainValueEnds(lam: seq<Symbol>, L: nat, q: nat, k: nat, n: nat)
    requires |lam| == NSYM + 1 && L <= n <= NSYM && forall j :: L < j < |lam| ==> lam[j] == 0
    requires IsRoot(lam[..L + 1], q)
    ensures ChainValue(lam, q, k, n) == ChainValue(lam, q, k, NSYM)
  {
    hide Add, Mul, Alpha, Chain, IsRoot;
    var f := (i: nat) => Mul(Chain(lam, q, i), Alpha(-(k as int) * i));
    forall i: nat | n <= i < NSYM
      ensures f(i) == 0
    {
      ChainEnds(lam, L, q, i);
      MulZero(Alpha(-(k as int) * i));
    }
    SumTail(NSYM, n, f);
    SumCong(NSYM, f, i => Mul(Chain(lam, q, i), Alpha(-(k as int) * i)));
    SumCong(n, f, i => Mul(Chain(lam, q, i), Alpha(-(k as int) * i)));
  }

  /** Coefficient i of S(x) lam(x). */
  function OmegaAt(S: seq<Symbol>, lam: seq<Symbol>, i: nat): Symbol {
    Sum(i + 1, j => Mul(At(S, j), At(lam, i - j)))
  }

  /** The terms of that coefficient by syndrome j and position p. */
  function OmegaTerms(e: seq<Symbol>, lam: seq<Symbol>, i: nat): (nat, nat) -> Symbol {
    (j, p) => Mul(Mul(At(e, p), Alpha(p * j)), At(lam, i - j))
  }

  lemma OmegaTermsRow(e: seq<Symbol>, lam: seq<Symbol>, i: nat, j: nat)
    ensures RowSum(OmegaTerms(e, lam, i), |e|)(j) == Mul(PowerSum(e, j), At(lam, i - j))
  {
    hide Add, Mul, Alpha;
    var a := At(lam, i - j);
    var f := (p: nat) => Mul(At(e, p), Alpha(p * j));
    SumScale(|e|, a, f);
    forall p: nat | p < |e|
      ensures Mul(a, f(p)) == OmegaTerms(e, lam, i)(j, p)
    {
      MulComm(a, f(p));
    }
    SumCong(|e|, f, p => Mul(At(e, p), Alpha(p * j)));
    SumCong(|e|, p => Mul(a, f(p)), p => OmegaTerms(e, lam, i)(j, p));
    MulComm(a, PowerSum(e, j));
  }

  lemma OmegaTermsCol(e: seq<Symbol>, lam: seq<Symbol>, i: nat, p: nat)
    ensures ColSum(OmegaTerms(e, lam, i), i + 1)(p) == Mul(At(e, p), Chain(lam, p, i))
  {
    hide Add, Mul, Alpha, Chain;
    var a := At(e, p);
    var g := (j: nat) => Mul(Alpha(p * j), At(lam, i - j));
    ChainSum(lam, p, i);
    SumScale(i + 1, a, g);
    forall j: nat | j < i + 1
      ensures Mul(a, g(j)) == OmegaTerms(e, lam, i)(j, p)
    {
      MulAssoc(a, Alpha(p * j), At(lam, i - j));
    }
    SumCong(i + 1, g, j => Mul(Alpha(p * j), At(lam, i - j)));
    SumCong(i + 1, j => Mul(a, g(j)), j => OmegaTerms(e, lam, i)(j, p));
  }

  /** It is the sum over the positions of the error value times the quotient by the position's factor. */
  lemma OmegaIsChains(e: seq<Symbol>, S: seq<Symbol>, lam: seq<Symbol>, i: nat)
    requires i < |S| && forall j: nat :: j < |S| ==> S[j] == PowerSum(e, j)
    ensures OmegaAt(S, lam, i) == Sum(|e|, p => Mul(At(e, p), Chain(lam, p, i)))
  {
    hide Add, Mul, Alpha, Chain, PowerSum, OmegaTerms;
    var h := OmegaTerms(e, lam, i);
    forall j: nat | j < i + 1
      ensures RowSum(h, |e|)(j) == Mul(At(S, j), At(lam, i - j))
    {
      OmegaTermsRow(e, lam, i, j);
    }
    forall p: nat | p < |e|
      ensures ColSum(h, i + 1)(p) == Mul(At(e, p), Chain(lam, p, i))
    {
      OmegaTermsCol(e, lam, i, p);
    }
    SumSwap(i + 1, |e|, h);
    hide RowSum, ColSum;
    SumCong(i + 1, RowSum(h, |e|), j => Mul(At(S, j), At(lam, i - j)));
    SumCong(|e|, ColSum(h, i + 1), p => Mul(At(e, p), Chain(lam, p, i)));
  }

  /** The terms of Omega at alpha^(-q) by coefficient i and position p. */
  function ValueTerms(e: seq<Symbol>, lam: seq<Symbol>, q: nat): (nat, nat) -> Symbol {
    (i, p) => Mul(Mul(At(e, p), Chain(lam, p, i)), Alpha(-(q as int) * i))
  }

  lemma ValueTermsRow(e: seq<Symbol>, lam: seq<Symbol>, q: nat, i: nat)
    ensures RowSum(ValueTerms(e, lam, q), |e|)(i) ==
      Mul(Sum(|e|, p => Mul(At(e, p), Chain(lam, p, i))), Alpha(-(q as int) * i))
  {
    hide Add, Mul, Alpha, Chain;
    var y := Alpha(-(q as int) * i);
    var f := (p: nat) => Mul(At(e, p), Chain(lam, p, i));
    SumScale(|e|, y, f);
    forall p: nat | p < |e|
      ensures Mul(y, f(p)) == ValueTerms(e, lam, q)(i, p)
    {
      MulComm(y, f(p));
    }
    SumCong(|e|, p => Mul(y, f(p)), p => ValueTerms(e, lam, q)(i, p));
    SumCong(|e|, f, p => Mul(At(e, p), Chain(lam, p, i)));
    MulComm(y, Sum(|e|, f));
  }

  lemma ValueTermsCol(e: seq<Symbol>, lam: seq<Symbol>, q: nat, p: nat, n: nat)
    ensures ColSum(ValueTerms(e, lam, q), n)(p) == Mul(At(e, p), ChainValue(lam, p, q, n))
  {
    hide Add, Mul, Alpha, Chain;
    var a := At(e, p);
    var f := (i: nat) => Mul(Chain(lam, p, i), Alpha(-(q as int) * i));
    SumScale(n, a, f);
    forall i: nat | i < n
      ensures Mul(a, f(i)) == ValueTerms(e, lam, q)(i, p)
    {
      MulAssoc(a, Chain(lam, p, i), Alpha(-(q as int) * i));
    }
    SumCong(n, f, i => Mul(Chain(lam, p, i), Alpha(-(q as int) * i)));
    SumCong(n, i => Mul(a, f(i)), i => ValueTerms(e, lam, q)(i, p));
  }

  /** Omega at alpha^(-q): only position q contributes. */
  lemma OmegaValue(e: seq<Symbol>, S: seq<Symbol>, lam: seq<Symbol>, L: nat, om: seq<Symbol>, q: nat)
    requires Locates(e, S, lam, L) && q < N && e[q] != 0
    requires |om| == NSYM && forall i :: 0 <= i < NSYM ==> om[i] == OmegaAt(S, lam, i)
    ensures Eval(om, AlphaNeg(q)) == Mul(e[q], ChainValue(lam, q, q, NSYM))
  {
    hide Add, Mul, Alpha, Chain, Eval, RowSum, ColSum, OmegaAt, ValueTerms, ChainValue, Locates;
    OmegaRows(e, S, lam, L, om, q);
    OmegaColumns(e, S, lam, L, q);
    SumSwap(NSYM, N, ValueTerms(e, lam, q));
  }

  /** Summed by rows the terms give Omega's value. */
  lemma OmegaRows(e: seq<Symbol>, S: seq<Symbol>, lam: seq<Symbol>, L: nat, om: seq<Symbol>, q: nat)
    requires Locates(e, S, lam, L) && q < N
    requires |om| == NSYM && forall i :: 0 <= i < NSYM ==> om[i] == OmegaAt(S, lam, i)
    ensures Sum(NSYM, RowSum(ValueTerms(e, lam, q), N)) == Eval(om, AlphaNeg(q))
  {
    hide Add, Mul, Alpha, Chain, Eval, Discrepancy, PowerSum, IsRoot, OmegaAt, ValueTerms;
    var qn := -(q as int);
    var h := ValueTerms(e, lam, q);
    forall i: nat | i < NSYM
      ensures RowSum(h, N)(i) == Mul(At(om, i), Alpha(qn * i))
    {
      OmegaIsChains(e, S, lam, i);
      ValueTermsRow(e, lam, q, i);
    }
    hide RowSum;
    EvalSum(om, qn);
    SumCong(NSYM, RowSum(h, N), i => Mul(At(om, i), Alpha(qn * i)));
  }

  /** Summed by columns only position q is left. */
  lemma OmegaColumns(e: seq<Symbol>, S: seq<Symbol>, lam: seq<Symbol>, L: nat, q: nat)
    requires Locates(e, S, lam, L) && q < N && e[q] != 0
    ensures Sum(N, ColSum(ValueTerms(e, lam, q), NSYM)) == Mul(e[q], ChainValue(lam, q, q, NSYM))
  {
    hide Add, Mul, Alpha, Chain, Eval, Discrepancy, PowerSum, IsRoot, ValueTerms, ChainValue;
    RootsAreErrors(e, S, lam, L);
    var h := ValueTerms(e, lam, q);
    forall p: nat | p < N
      ensures ColSum(h, NSYM)(p) == Mul(At(e, p), ChainValue(lam, p, q, NSYM))
      ensures p != q ==> ColSum(h, NSYM)(p) == 0
    {
      ValueTermsCol(e, lam, q, p, NSYM);
      MulZero(ChainValue(lam, p, q, NSYM));
      MulZero(e[p]);
      if e[p] != 0 && p != q {
        OtherQuotientsVanish(lam, L, p, q);
      }
    }
    hide ColSum;
    SumSingle(N, q, ColSum(h, NSYM));
  }

  /** Forney: at an error position the denominator is nonzero and the quotient is the error value. */
  lemma ForneyValue(e: seq<Symbol>, S: seq<Symbol>, lam: seq<Symbol>, L: nat, om: seq<Symbol>, q: nat)
    requires Locates(e, S, lam, L) && q < N && e[q] != 0
    requires |om| == NSYM && forall i :: 0 <= i < NSYM ==> om[i] == OmegaAt(S, lam, i)
    ensures var den := Derivative(lam, q, L);
            den != 0 && Mul(Alpha(q), Mul(Eval(om, AlphaNeg(q)), Inv(den))) == e[q]
  {
    hide Add, Mul, Alpha, Chain, Eval, Discrepancy, PowerSum, IsRoot, OmegaAt, ChainValue, Inv, Derivative;
    var g := ChainValue(lam, q, q, NSYM);
    RootsAreErrors(e, S, lam, L);
    OwnQuotientNonzero(e, S, lam, L, q);
    OmegaValue(e, S, lam, L, om, q);
    DerivativeIsQuotient(lam, q, L);
    ChainValueEnds(lam, L, q, q, if L % 2 == 1 then L + 1 else L);
    var X, den := Alpha(q), Derivative(lam, q, L);
    assert den == Mul(X, g);
    AlphaNonzero(q);
    MulNonzero(X, g);
    // X (e g) / (X g) = e
    var a := Inv(den);
    InvMul(den);
    MulAssoc(e[q], g, a);
    MulSwap(X, e[q], Mul(g, a));
    MulAssoc(X, g, a);
    MulOne(e[q]);
  }

  // ---------- the decoder ----------

  /** w is a codeword within 15 symbols of the received word. */
  ghost predicate Near(w: seq<Symbol>, c: seq<Symbol>) {
    |c| == N && IsCodeword(w) && Hamming(w, c) <= T
  }

  /** Bounded-distance decoding: the corrected codeword and the number of corrected symbols if some
      codeword lies within 15 symbols of the received word, and None otherwise. */
  method Decode(t: Tables, c: seq<Symbol>) returns (out: Option<seq<Symbol>>, n: nat)
    requires t.Valid() && |c| == N
    ensures forall w :: Near(w, c) ==> out == Some(w)
    ensures out.Some? ==> Near(out.value, c) && n == Hamming(out.value, c)
    ensures out.None? ==> n == 0
  {
    hide Exp, Mul, Add, Syndrome;
    var S := Syndromes(t, c);
    if forall j :: 0 <= j < NSYM ==> S[j] == 0 {
      HammingZero(c, c);
      forall w | Near(w, c)
        ensures w == c
      {
        NearestUnique(c, w, c);
      }
      return Some(c), 0;
    }
    var lam, L := BerlekampMassey.BerlekampMassey(t, S);
    ghost var near := exists w :: Near(w, c);
    ghost var w, e: seq<Symbol> := c, [];
    if near {
      w :| Near(w, c);
      e := ErrorVector(c, w);
      HammingComm(w, c);
      HammingIsWeight(c, w);
      forall j: nat | j < NSYM
        ensures S[j] == PowerSum(e, j)
      {
        SyndromeOfError(c, w, j);
      }
      assert Locates(e, S, lam, L);
      RootsAreErrors(e, S, lam, L);
      forall v | Near(v, c)
        ensures v == w
      {
        NearestUnique(c, v, w);
      }
    }
    if L > T {
      return None, 0;
    }
    var om := Omega(t, S, lam);
    var o, m := Correct(t, c, S, lam, L, om, near, w, e);
    if o.None? || m != L {
      return None, 0;
    }
    var check := Syndromes(t, o.value);
    if exists j :: 0 <= j < NSYM && check[j] != 0 {
      return None, 0;
    }
    assert Near(o.value, c);
    return o, m;
  }

  /** Encoding, symbol errors, decoding: for every message, with at most 15 errors exactly the codeword and their number
      come out, and with more not the codeword. */
  method DecodeEncoded(t: Tables, g: seq<Symbol>, msg: seq<Symbol>, e: seq<Symbol>)
    returns (out: Option<seq<Symbol>>, n: nat)
    requires t.Valid() && g == Generator(NSYM) && |msg| == K && |e| == N
    ensures Weight(e) <= T ==> out == Some(Codeword(msg)) && n == Weight(e)
    ensures Weight(e) > T ==> out != Some(Codeword(msg))
  {
    hide Exp, Mul, Add, Syndrome, Codeword, Generator;
    var c := Encode(t, g, msg);
    HammingOfErrors(c, e, N);
    assert c[..N] == c && XorSeq(c, e)[..N] == XorSeq(c, e);
    assert Weight(e) <= T ==> Near(c, XorSeq(c, e));
    out, n := Decode(t, XorSeq(c, e));
  }

  /** S(x) lam(x) mod x^30. */
  method Omega(t: Tables, S: seq<Symbol>, lam: seq<Symbol>) returns (om: seq<Symbol>)
    requires t.Valid() && |S| == NSYM && |lam| == NSYM + 1
    ensures |om| == NSYM && forall i :: 0 <= i < NSYM ==> om[i] == OmegaAt(S, lam, i)
  {
    hide Exp, Mul, Add;
    om := [];
    for i := 0 to NSYM
      invariant |om| == i && forall k :: 0 <= k < i ==> om[k] == OmegaAt(S, lam, k)
    {
      ghost var f := (j: nat) => Mul(At(S, j), At(lam, i - j));
      var v: Symbol := 0;
      for j := 0 to i + 1
        invariant v == Sum(j, f)
      {
        v := Add(v, t.Times(S[j], lam[i - j]));
      }
      SumCong(i + 1, f, j => Mul(At(S, j), At(lam, i - j)));
      om := om + [v];
    }
  }

  /** Horner's rule from the highest coefficient down. */
  method EvalDown(t: Tables, p: seq<Symbol>, x: Symbol) returns (v: Symbol)
    requires t.Valid()
    ensures v == Eval(p, x)
  {
    hide Exp, Mul, Add;
    v := 0;
    assert p[|p|..] == [];
    for i := |p| downto 0
      invariant v == Eval(p[i..], x)
    {
      v := Add(t.Times(v, x), p[i]);
      MulComm(Eval(p[i + 1..], x), x);
      AddComm(Mul(x, Eval(p[i + 1..], x)), p[i]);
      assert p[i..][1..] == p[i + 1..];
    }
  }

  lemma DerivativeOddStep(lam: seq<Symbol>, q: nat, i: nat)
    requires i % 2 == 1
    ensures Derivative(lam, q, i) == Add(Derivative(lam, q, i - 1), Mul(At(lam, i), Alpha(-(q as int) * (i - 1))))
    ensures Derivative(lam, q, i + 1) == Derivative(lam, q, i)
  {
    hide Alpha, Mul, Add;
    AddZero(Derivative(lam, q, i));
  }

  method Denominator(t: Tables, lam: seq<Symbol>, L: nat, q: nat, xi: Symbol) returns (den: Symbol)
    requires t.Valid() && L < |lam| && xi == AlphaNeg(q)
    ensures den == Derivative(lam, q, L)
  {
    hide Exp, Mul, Add, Alpha, Derivative;
    den := 0;
    assert Derivative(lam, q, 0) == 0 by { DerivativeZero(lam, q); }
    var i := 1;
    while i < L + 1
      invariant i % 2 == 1 && 1 <= i <= L + 2
      invariant den == Derivative(lam, q, i - 1)
    {
      PowerOfPoint(q, i - 1);
      AlphaNonzero(-(q as int));
      DerivativeOddStep(lam, q, i);
      den := Add(den, t.Times(lam[i], t.Power(xi, i - 1)));
      i := i + 2;
    }
    if i == L + 2 {
      DerivativeOddStep(lam, q, L);
    }
  }

  lemma DerivativeZero(lam: seq<Symbol>, q: nat)
    ensures Derivative(lam, q, 0) == 0
  {}

  lemma PowerOfPoint(q: nat, n: nat)
    ensures Alpha(Log(AlphaNeg(q)) * n) == Alpha(-(q as int) * n)
  {
    hide Exp;
    var k := -(q as int);
    var r, d := k % 1023, k / 1023;
    LogExp(r);
    MultipleOfPeriod(d, r, n);
  }

  lemma MultipleOfPeriod(d: int, r: int, n: nat)
    ensures Alpha(r * n) == Alpha((1023 * d + r) * n)
  {
    Scaled(d, r, n);
    PeriodGone(d * n, r * n);
    hide Exp;
  }

  lemma Scaled(d: int, r: int, n: nat)
    ensures (1023 * d + r) * n == 1023 * (d * n) + r * n
  {}

  lemma PeriodGone(x: int, y: int)
    ensures (1023 * x + y) % 1023 == y % 1023
  {}

  /** The search over all 544 positions. The ghost arguments name the codeword to be found, if any. */
  method Correct(t: Tables, c: seq<Symbol>, S: seq<Symbol>, lam: seq<Symbol>, L: nat, om: seq<Symbol>,
                 ghost near: bool, ghost w: seq<Symbol>, ghost e: seq<Symbol>)
    returns (out: Option<seq<Symbol>>, n: nat)
    requires t.Valid() && |c| == N && |lam| == NSYM + 1 && L <= T && |S| == NSYM
    requires |om| == NSYM && forall i :: 0 <= i < NSYM ==> om[i] == OmegaAt(S, lam, i)
    requires near ==> |w| == N && e == ErrorVector(c, w) && Locates(e, S, lam, L)
    ensures out.Some? ==> |out.value| == N && Hamming(out.value, c) <= n
    ensures near ==> out == Some(w) && n == L
  {
    hide Exp, Mul, Add, Eval, Locates, OmegaAt;
    var o: seq<Symbol> := c;
    n := 0;
    HammingZero(c, c);
    if near {
      RootsAreErrors(e, S, lam, L);
    }
    for pos := 0 to N
      invariant |o| == N && Hamming(o, c) <= n
      invariant forall i :: 0 <= i < N - pos ==> o[i] == c[i]
      invariant near ==> n == WeightBelow(e, pos)
      invariant near ==> forall i :: N - pos <= i < N ==> o[i] == w[i]
    {
      var xi := if pos > 0 then t.Inverse(t.exp[pos % 1023]) else 1;
      PointOf(pos);
      assert xi == AlphaNeg(pos);
      var ev := EvalDown(t, lam[..L + 1], xi);
      if near {
        AddIsZero(c[N - 1 - pos], w[N - 1 - pos]);
        assert e[pos] == Add(c[N - 1 - pos], w[N - 1 - pos]);
      }
      if ev == 0 {
        var num := EvalDown(t, om, xi);
        var den := Denominator(t, lam, L, pos, xi);
        if near {
          ForneyValue(e, S, lam, L, om, pos);
        }
        if den == 0 {
          return None, 0;
        }
        AlphaNat(pos);
        var v: Symbol := t.Times(t.exp[pos % 1023], t.Times(num, t.Inverse(den)));
        if near {
          AddCancel(w[N - 1 - pos], c[N - 1 - pos]);
        }
        HammingUpdate(o, c, N - 1 - pos, Add(o[N - 1 - pos], v));
        o := o[N - 1 - pos := Add(o[N - 1 - pos], v)];
        n := n + 1;
      }
    }
    assert near ==> o == w;
    out := Some(o);
  }

  /** The point of a position: the inverse of alpha^pos. */
  lemma PointOf(pos: nat)
    requires pos < 1023
    ensures AlphaNeg(pos) == if pos > 0 then Inv(Exp(pos)) else 1
  {
    hide Exp;
    AlphaZero();
    if pos > 0 {
      LogExp(pos);
    }
  }
}
