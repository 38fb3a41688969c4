/** The beat-parallel maps of scripts/ethfec/gen_tables.py: 32 symbols at a time they compute what the
    serial encoder, the syndrome loop and the root search of scripts/ethfec/rs_ref.py compute, and each is
    GF(2)-linear, so that its row-mask table computes it. */
module Beats {
  import opened Arithmetic
  import opened GF1024
  import opened GFPowers
  import opened Poly
  import opened RsCode
  import opened MaskTables

  // ---------- vectors of symbols ----------

  function Zeros(n: nat): (z: seq<Symbol>)
    ensures |z| == n && forall i :: 0 <= i < n ==> z[i] == 0
  {
    seq(n, _ => 0)
  }

  function Reversed(s: seq<Symbol>): (r: seq<Symbol>)
    ensures |r| == |s|
  {
    seq(|s|, i requires 0 <= i < |s| => s[|s| - 1 - i])
  }

  lemma XorZeros(a: seq<Symbol>)
    ensures XorSeq(a, Zeros(|a|)) == a && XorSeq(Zeros(|a|), a) == a
  {
    hide Add;
    forall i | 0 <= i < |a|
      ensures XorSeq(a, Zeros(|a|))[i] == a[i] && XorSeq(Zeros(|a|), a)[i] == a[i]
    {
      AddZero(a[i]);
    }
  }

  lemma XorExchange(a: seq<Symbol>, b: seq<Symbol>, c: seq<Symbol>, d: seq<Symbol>)
    requires |a| == |b| == |c| == |d|
    ensures XorSeq(XorSeq(a, b), XorSeq(c, d)) == XorSeq(XorSeq(a, c), XorSeq(b, d))
  {
    hide Add;
    var l, r := XorSeq(XorSeq(a, b), XorSeq(c, d)), XorSeq(XorSeq(a, c), XorSeq(b, d));
    forall i | 0 <= i < |a|
      ensures l[i] == r[i]
    {
      AddSwap(a[i], b[i], c[i], d[i]);
    }
  }

  lemma ScaleXor(k: Symbol, a: seq<Symbol>, b: seq<Symbol>)
    requires |a| == |b|
    ensures Scale(k, XorSeq(a, b)) == XorSeq(Scale(k, a), Scale(k, b))
  {
    hide Add, Mul;
    forall i | 0 <= i < |a|
      ensures Scale(k, XorSeq(a, b))[i] == XorSeq(Scale(k, a), Scale(k, b))[i]
    {
      MulLinearRight(k, a[i], b[i]);
    }
  }

  lemma ScaleSum(k: Symbol, l: Symbol, a: seq<Symbol>)
    ensures Scale(Add(k, l), a) == XorSeq(Scale(k, a), Scale(l, a))
  {
    hide Add, Mul;
    forall i | 0 <= i < |a|
      ensures Scale(Add(k, l), a)[i] == XorSeq(Scale(k, a), Scale(l, a))[i]
    {
      MulLinearLeft(k, l, a[i]);
    }
  }

  lemma ScaleTwice(k: Symbol, l: Symbol, a: seq<Symbol>)
    ensures Scale(k, Scale(l, a)) == Scale(Mul(k, l), a)
  {
    hide Add, Mul;
    forall i | 0 <= i < |a|
      ensures Scale(k, Scale(l, a))[i] == Scale(Mul(k, l), a)[i]
    {
      MulAssoc(k, l, a[i]);
    }
  }

  // ---------- powers of x modulo the generator ----------

  /** x^30 modulo g, lowest degree first. */
  function Top(): (r: seq<Symbol>)
    ensures |r| == NSYM
  {
    var g := Generator(NSYM);
    seq(NSYM, j requires 0 <= j < NSYM => g[NSYM - j])
  }

  /** x r modulo g. */
  function TimesXMod(r: seq<Symbol>): (s: seq<Symbol>)
    requires |r| == NSYM
    ensures |s| == NSYM
  {
    XorSeq([0] + r[..NSYM - 1], Scale(r[NSYM - 1], Top()))
  }

  /** x^e modulo g. */
  function XMod(e: nat): (r: seq<Symbol>)
    ensures |r| == NSYM
  {
    if e == 0 then [1] + Zeros(NSYM - 1) else TimesXMod(XMod(e - 1))
  }

  method XModLoop(t: Tables, g: seq<Symbol>, e: nat) returns (r: seq<Symbol>)
    requires t.Valid() && g == Generator(NSYM)
    ensures r == XMod(e)
  {
    hide Exp, Generator, Mul, Add;
    r := [1] + Zeros(NSYM - 1);
    for n := 0 to e
      invariant r == XMod(n)
    {
      var top := r[NSYM - 1];
      ghost var next := TimesXMod(r);
      r := [0] + r[..NSYM - 1];
      ghost var shifted := r;
      if top != 0 {
        for j := 0 to NSYM
          invariant |r| == NSYM
          invariant forall m :: 0 <= m < j ==> r[m] == next[m]
          invariant forall m :: j <= m < NSYM ==> r[m] == shifted[m]
        {
          r := r[j := Add(r[j], t.Times(top, g[NSYM - j]))];
        }
      } else {
        forall m | 0 <= m < NSYM
          ensures r[m] == next[m]
        {
          MulZero(g[NSYM - m]);
          AddZero(r[m]);
        }
      }
      assert r == next;
    }
  }

  lemma TimesXModXor(a: seq<Symbol>, b: seq<Symbol>)
    requires |a| == |b| == NSYM
    ensures TimesXMod(XorSeq(a, b)) == XorSeq(TimesXMod(a), TimesXMod(b))
  {
    hide Add, Mul, Top;
    var n := NSYM - 1;
    AddZero(0);
    assert [0] + XorSeq(a, b)[..n] == XorSeq([0] + a[..n], [0] + b[..n]);
    ScaleSum(a[n], b[n], Top());
    XorExchange([0] + a[..n], [0] + b[..n], Scale(a[n], Top()), Scale(b[n], Top()));
  }

  lemma TimesXModScale(k: Symbol, a: seq<Symbol>)
    requires |a| == NSYM
    ensures TimesXMod(Scale(k, a)) == Scale(k, TimesXMod(a))
  {
    hide Add, Mul, Top;
    var n := NSYM - 1;
    MulZero(k);
    assert [0] + Scale(k, a)[..n] == Scale(k, [0] + a[..n]);
    ScaleTwice(k, a[n], Top());
    ScaleXor(k, [0] + a[..n], Scale(a[n], Top()));
  }

  /** The powers below 30 are unit vectors. */
  lemma {:induction false} SmallPower(e: nat)
    requires e < NSYM
    ensures XMod(e) == Zeros(e) + [1] + Zeros(NSYM - 1 - e)
  {
    hide Add, Mul, Top, XorSeq, Scale, Zeros;
    if e > 0 {
      SmallPower(e - 1);
      UnitShifts(XMod(e - 1), e);
      ScaleByZero(Top());
      XorZeros([0] + XMod(e - 1)[..NSYM - 1]);
    } else {
      assert Zeros(0) == [];
    }
  }

  lemma UnitShifts(r: seq<Symbol>, e: nat)
    requires 0 < e < NSYM && r == Zeros(e - 1) + [1] + Zeros(NSYM - e)
    ensures |r| == NSYM && r[NSYM - 1] == 0 && [0] + r[..NSYM - 1] == Zeros(e) + [1] + Zeros(NSYM - 1 - e)
  {}

  lemma ScaleByZero(a: seq<Symbol>)
    ensures Scale(0, a) == Zeros(|a|)
  {
    hide Mul;
    forall i | 0 <= i < |a|
      ensures Scale(0, a)[i] == 0
    {
      MulZero(a[i]);
    }
  }

  lemma PowerThirty()
    ensures XMod(NSYM) == Top()
  {
    hide Add, Mul, Top;
    SmallPower(NSYM - 1);
    var r := XMod(NSYM - 1);
    assert [0] + r[..NSYM - 1] == Zeros(NSYM);
    forall i | 0 <= i < NSYM
      ensures Scale(1, Top())[i] == Top()[i]
    {
      MulOne(Top()[i]);
    }
    XorZeros(Top());
  }

  // ---------- the encoder beat ----------

  /** The sum over i < n of c_i x^(e + i) modulo g. */
  function Combo(c: seq<Symbol>, e: nat, n: nat): (r: seq<Symbol>)
    requires n <= |c|
    ensures |r| == NSYM
  {
    if n == 0 then Zeros(NSYM) else XorSeq(Combo(c, e, n - 1), Scale(c[n - 1], XMod(e + n - 1)))
  }

  /** The sum over k < i of m_k x^(29 + n - k) modulo g. */
  function ComboDown(m: seq<Symbol>, n: nat, i: nat): (r: seq<Symbol>)
    requires i <= |m| && i <= n
    ensures |r| == NSYM
  {
    if i == 0 then Zeros(NSYM) else XorSeq(ComboDown(m, n, i - 1), Scale(m[i - 1], XMod(NSYM + n - i)))
  }

  /** r x^n + sum of m_k x^(29 + n - k) modulo g. */
  function EncBeat(r: seq<Symbol>, m: seq<Symbol>): (s: seq<Symbol>)
    requires |r| == NSYM
    ensures |s| == NSYM
  {
    XorSeq(Combo(r, |m|, NSYM), ComboDown(m, |m|, |m|))
  }

  method EncLoop(t: Tables, pm: seq<seq<Symbol>>, r: seq<Symbol>, m: seq<Symbol>) returns (out: seq<Symbol>)
    requires t.Valid() && |r| == NSYM && |pm| >= NSYM + |m| && forall e :: 0 <= e < |pm| ==> pm[e] == XMod(e)
    ensures out == EncBeat(r, m)
  {
    hide XMod, Exp, Mul, Add;
    var n := |m|;
    out := Zeros(NSYM);
    for i := 0 to NSYM
      invariant out == Combo(r, n, i)
    {
      out := AddScaled(t, out, r[i], pm[i + n]);
    }
    ghost var first := out;
    XorZeros(first);
    for k := 0 to n
      invariant out == XorSeq(first, ComboDown(m, n, k))
    {
      XorAssociates(first, ComboDown(m, n, k), Scale(m[k], pm[n - 1 - k + 30]));
      out := AddScaled(t, out, m[k], pm[n - 1 - k + 30]);
    }
  }

  lemma XorAssociates(a: seq<Symbol>, b: seq<Symbol>, c: seq<Symbol>)
    requires |a| == |b| == |c|
    ensures XorSeq(XorSeq(a, b), c) == XorSeq(a, XorSeq(b, c))
  {
    hide Add;
    forall i | 0 <= i < |a|
      ensures XorSeq(XorSeq(a, b), c)[i] == XorSeq(a, XorSeq(b, c))[i]
    {
      AddAssoc(a[i], b[i], c[i]);
    }
  }

  /** for j: out[j] ^= mul(k, v[j]). */
  method AddScaled(t: Tables, out0: seq<Symbol>, k: Symbol, v: seq<Symbol>) returns (out: seq<Symbol>)
    requires t.Valid() && |out0| == |v| == NSYM
    ensures out == XorSeq(out0, Scale(k, v))
  {
    hide Exp, Mul, Add, XorSeq, Scale;
    out := out0;
    ghost var full := XorSeq(out0, Scale(k, v));
    for j := 0 to NSYM
      invariant |out| == NSYM
      invariant forall i :: 0 <= i < j ==> out[i] == full[i]
      invariant forall i :: j <= i < NSYM ==> out[i] == out0[i]
    {
      ScaledEntry(out0, k, v, j);
      out := out[j := Add(out[j], t.Times(k, v[j]))];
    }
    assert out == full;
  }

  lemma ScaledEntry(a: seq<Symbol>, k: Symbol, v: seq<Symbol>, j: nat)
    requires |a| == |v| && j < |v|
    ensures XorSeq(a, Scale(k, v))[j] == Add(a[j], Mul(k, v[j]))
  {
    hide Add, Mul;
  }

  /** The serial register in low-first order after one more symbol. */
  function Step(r: seq<Symbol>, s: Symbol): (q: seq<Symbol>)
    requires |r| == NSYM
    ensures |q| == NSYM
  {
    XorSeq(TimesXMod(r), Scale(s, Top()))
  }

  function Run(r: seq<Symbol>, m: seq<Symbol>): (q: seq<Symbol>)
    requires |r| == NSYM
    ensures |q| == NSYM
  {
    if m == [] then r else Step(Run(r, m[..|m| - 1]), m[|m| - 1])
  }

  /** The step is the encoder's shift register read backwards. */
  lemma StepIsLfsr(r: seq<Symbol>, s: Symbol)
    requires |r| == NSYM
    ensures Reversed(Step(r, s)) == LfsrStep(Reversed(r), s)
  {
    hide Add, Mul, Generator;
    var g, rem := Generator(NSYM), Reversed(r);
    forall i | 0 <= i < NSYM
      ensures Reversed(Step(r, s))[i] == LfsrStep(rem, s)[i]
    {
      var j := NSYM - 1 - i;
      var x := ([0] + r[..NSYM - 1])[j];
      assert x == (rem[1..] + [0])[i];
      assert Top()[j] == g[1..][i];
      var c := g[1..][i];
      AddAssoc(x, Mul(r[NSYM - 1], c), Mul(s, c));
      MulLinearLeft(s, r[NSYM - 1], c);
      AddComm(Mul(s, c), Mul(r[NSYM - 1], c));
    }
  }

  lemma {:induction false} ComboUp(c: seq<Symbol>, e: nat, n: nat)
    requires n <= |c|
    ensures TimesXMod(Combo(c, e, n)) == Combo(c, e + 1, n)
  {
    hide Add, Mul, TimesXMod, Scale, XorSeq;
    if n == 0 {
      TimesXModZero();
    } else {
      ComboUp(c, e, n - 1);
      TimesXModXor(Combo(c, e, n - 1), Scale(c[n - 1], XMod(e + n - 1)));
      TimesXModScale(c[n - 1], XMod(e + n - 1));
    }
  }

  lemma TimesXModZero()
    ensures TimesXMod(Zeros(NSYM)) == Zeros(NSYM)
  {
    hide Add, Mul, Top;
    ScaleByZero(Top());
    XorZeros(Zeros(NSYM));
    assert [0] + Zeros(NSYM)[..NSYM - 1] == Zeros(NSYM);
  }

  lemma {:induction false} ComboDownUp(m: seq<Symbol>, n: nat, i: nat)
    requires i <= |m| && i <= n
    ensures TimesXMod(ComboDown(m, n, i)) == ComboDown(m, n + 1, i)
  {
    hide Add, Mul, TimesXMod, Scale, XorSeq;
    if i == 0 {
      TimesXModZero();
    } else {
      ComboDownUp(m, n, i - 1);
      TimesXModXor(ComboDown(m, n, i - 1), Scale(m[i - 1], XMod(NSYM + n - i)));
      TimesXModScale(m[i - 1], XMod(NSYM + n - i));
    }
  }

  lemma {:induction false} ComboDownPrefix(m: seq<Symbol>, l: seq<Symbol>, n: nat, i: nat)
    requires i <= |l| <= |m| && i <= n && l == m[..|l|]
    ensures ComboDown(m, n, i) == ComboDown(l, n, i)
  {
    hide XMod, Scale, XorSeq;
    if i > 0 {
      ComboDownPrefix(m, l, n, i - 1);
    }
  }

  lemma {:induction false} ComboIsVector(c: seq<Symbol>, n: nat)
    requires |c| == NSYM && n <= NSYM
    ensures Combo(c, 0, n) == c[..n] + Zeros(NSYM - n)
  {
    hide Add, Mul, XMod, XorSeq, Scale;
    if n > 0 {
      ComboIsVector(c, n - 1);
      SmallPower(n - 1);
      var l, k := Combo(c, 0, n - 1), c[n - 1];
      var s, t := XorSeq(l, Scale(k, XMod(n - 1))), c[..n] + Zeros(NSYM - n);
      forall i | 0 <= i < NSYM
        ensures s[i] == t[i]
      {
        ScaledEntry(l, k, XMod(n - 1), i);
        MulZero(k);
        MulOne(k);
        AddZero(l[i]);
        AddZero(k);
      }
    }
  }

  /** A beat does what the register does for its symbols one after the other. */
  lemma {:induction false} BeatIsRun(r: seq<Symbol>, m: seq<Symbol>)
    requires |r| == NSYM
    ensures EncBeat(r, m) == Run(r, m)
    decreases |m|
  {
    hide Add, Mul, TimesXMod, Scale, XorSeq, Top, XMod, Zeros;
    var n := |m|;
    if n == 0 {
      ComboIsVector(r, NSYM);
      assert r[..NSYM] + Zeros(0) == r;
      XorZeros(r);
    } else {
      var l, s := m[..n - 1], m[n - 1];
      BeatIsRun(r, l);
      PowerThirty();
      var a, b := Combo(r, n - 1, NSYM), ComboDown(l, n - 1, n - 1);
      ComboUp(r, n - 1, NSYM);
      ComboDownUp(l, n - 1, n - 1);
      ComboDownPrefix(m, l, n, n - 1);
      TimesXModXor(a, b);
      XorAssociates(TimesXMod(a), TimesXMod(b), Scale(s, Top()));
    }
  }

  lemma {:induction false} RunConcat(r: seq<Symbol>, a: seq<Symbol>, b: seq<Symbol>)
    requires |r| == NSYM
    ensures Run(r, a + b) == Run(Run(r, a), b)
    decreases |b|
  {
    hide Step;
    if b == [] {
      assert a + b == a;
    } else {
      RunConcat(r, a, b[..|b| - 1]);
      assert (a + b)[..|a + b| - 1] == a + b[..|b| - 1];
    }
  }

  lemma {:induction false} RunIsParity(m: seq<Symbol>)
    ensures Reversed(Run(Zeros(NSYM), m)) == Parity(m)
    decreases |m|
  {
    hide Step, LfsrStep;
    if m == [] {
      assert Reversed(Zeros(NSYM)) == seq(NSYM, i => 0);
    } else {
      RunIsParity(m[..|m| - 1]);
      StepIsLfsr(Run(Zeros(NSYM), m[..|m| - 1]), m[|m| - 1]);
    }
  }

  /** The register after b beats of 32 symbols. */
  function EncBeats(msg: seq<Symbol>, b: nat): (r: seq<Symbol>)
    requires 32 * b <= |msg|
    ensures |r| == NSYM
  {
    if b == 0 then Zeros(NSYM) else EncBeat(EncBeats(msg, b - 1), msg[32 * b - 32..32 * b])
  }

  lemma {:induction false} EncBeatsRun(msg: seq<Symbol>, b: nat)
    requires 32 * b <= |msg|
    ensures EncBeats(msg, b) == Run(Zeros(NSYM), msg[..32 * b])
  {
    hide EncBeat, Step;
    if b > 0 {
      EncBeatsRun(msg, b - 1);
      BeatIsRun(EncBeats(msg, b - 1), msg[32 * b - 32..32 * b]);
      RunConcat(Zeros(NSYM), msg[..32 * b - 32], msg[32 * b - 32..32 * b]);
      assert msg[..32 * b] == msg[..32 * b - 32] + msg[32 * b - 32..32 * b];
    }
  }

  /** Sixteen beats of 32 symbols and one of 2 give the parity of the serial encoder. */
  lemma BeatsEncode(msg: seq<Symbol>)
    requires |msg| == K
    ensures Reversed(EncBeat(EncBeats(msg, 16), msg[512..])) == Parity(msg)
  {
    hide EncBeat, EncBeats, Run, Parity;
    EncBeatsRun(msg, 16);
    BeatIsRun(EncBeats(msg, 16), msg[512..]);
    RunConcat(Zeros(NSYM), msg[..512], msg[512..]);
    assert msg[..512] + msg[512..] == msg;
    RunIsParity(msg);
  }

  // ---------- the syndrome beat ----------

  /** The sum over k < n of c_k alpha^(j (top - k)). */
  function Powers(c: seq<Symbol>, j: int, top: int): nat -> Symbol {
    k => Mul(At(c, k), Alpha(j * (top - k)))
  }

  /** S_j alpha^(32 j) + sum of c_k alpha^(j (31 - k)). */
  function SynBeat(s: seq<Symbol>, c: seq<Symbol>): (r: seq<Symbol>)
    requires |s| == NSYM
    ensures |r| == NSYM
  {
    seq(NSYM, j requires 0 <= j < NSYM => Add(Mul(s[j], Alpha(32 * j)), Sum(32, Powers(c, j, 31))))
  }

  lemma {:induction false} EvalHighIsSum(c: seq<Symbol>, j: int)
    ensures EvalHigh(c, Alpha(j)) == Sum(|c|, Powers(c, j, |c| - 1))
    decreases |c|
  {
    hide Add, Mul, Alpha, Powers;
    if c != [] {
      var n := |c| - 1;
      EvalHighIsSum(c[..n], j);
      PowersShift(c, c[..n], j, n);
      PowersLast(c, j, n);
    }
  }

  /** One more symbol multiplies the sum so far by alpha^j. */
  lemma PowersShift(c: seq<Symbol>, l: seq<Symbol>, j: int, n: nat)
    requires n < |c| && l == c[..n]
    ensures Mul(Sum(n, Powers(l, j, n - 1)), Alpha(j)) == Sum(n, Powers(c, j, n))
  {
    hide Add, Mul, Alpha, Sum;
    var f, x := Powers(l, j, n - 1), Alpha(j);
    SumScale(n, x, f);
    MulComm(x, Sum(n, f));
    forall k: nat | k < n
      ensures Mul(x, f(k)) == Powers(c, j, n)(k)
    {
      PowerTerm(c[k], j, n - 1 - k);
    }
    SumCong(n, k => Mul(x, f(k)), Powers(c, j, n));
  }

  lemma PowerTerm(c: Symbol, j: int, e: int)
    ensures Mul(Alpha(j), Mul(c, Alpha(j * e))) == Mul(c, Alpha(j * (e + 1)))
  {
    hide Mul, Alpha;
    MulSwap(Alpha(j), c, Alpha(j * e));
    AlphaAdds(j, j * e);
    OneMoreStep(j, e);
  }

  lemma PowersLast(c: seq<Symbol>, j: int, n: nat)
    requires n < |c|
    ensures Powers(c, j, n)(n) == c[n]
  {
    hide Mul;
    AlphaZero();
    MulOne(c[n]);
    assert j * (n - n) == 0;
  }

  lemma OneMoreStep(j: int, e: int)
    ensures j + j * e == j * (e + 1)
  {}

  /** A beat advances every syndrome by 32 symbols. */
  lemma SynBeatAdvances(prev: seq<Symbol>, s: seq<Symbol>, c: seq<Symbol>, j: nat)
    requires |s| == NSYM && |c| == 32 && j < NSYM && s[j] == EvalHigh(prev, Alpha(j))
    ensures SynBeat(s, c)[j] == EvalHigh(prev + c, Alpha(j))
  {
    hide Add, Mul, Alpha, Sum, Powers, EvalHigh;
    EvalHighConcat(prev, c, j);
    EvalHighIsSum(c, j);
    assert j * 32 == 32 * j;
  }

  function SynBeats(c: seq<Symbol>, b: nat): (s: seq<Symbol>)
    requires 32 * b <= |c|
    ensures |s| == NSYM
  {
    if b == 0 then Zeros(NSYM) else SynBeat(SynBeats(c, b - 1), c[32 * b - 32..32 * b])
  }

  lemma {:induction false} SynBeatsAdvance(c: seq<Symbol>, b: nat, j: nat)
    requires 32 * b <= |c| && j < NSYM
    ensures SynBeats(c, b)[j] == EvalHigh(c[..32 * b], Alpha(j))
  {
    hide SynBeat, Alpha;
    if b > 0 {
      SynBeatsAdvance(c, b - 1, j);
      SynBeatAdvances(c[..32 * b - 32], SynBeats(c, b - 1), c[32 * b - 32..32 * b], j);
      assert c[..32 * b] == c[..32 * b - 32] + c[32 * b - 32..32 * b];
    } else {
      assert c[..0] == [];
    }
  }

  /** Seventeen beats give the thirty syndromes of a received word. */
  lemma BeatsSyndromes(c: seq<Symbol>, j: nat)
    requires |c| == N && j < NSYM
    ensures SynBeats(c, 17)[j] == Syndrome(c, j)
  {
    hide SynBeats, Alpha, Exp;
    SynBeatsAdvance(c, 17, j);
    assert c[..544] == c;
    AlphaNat(j);
  }

  // ---------- the root search ----------

  /** r_i alpha^(e (i + off)). */
  function ScaleBeat(r: seq<Symbol>, off: nat, e: int): (s: seq<Symbol>)
    ensures |s| == |r|
  {
    seq(|r|, i requires 0 <= i < |r| => Mul(r[i], Alpha(e * (i + off))))
  }

  /** The terms of the value at k: r_i alpha^((i + off) k), those with i of the wrong parity left out. */
  function Terms(r: seq<Symbol>, off: nat, k: nat, odd: bool, even: bool): nat -> Symbol {
    i => if (i % 2 == 0 && even) || (i % 2 == 1 && odd) then Mul(At(r, i), Alpha((i + off) * k)) else 0
  }

  /** The values for k < 32, over all, even or odd terms. */
  function EvBeat(r: seq<Symbol>, off: nat, odd: bool, even: bool): (s: seq<Symbol>)
    ensures |s| == 32
  {
    seq(32, k requires 0 <= k < 32 => Sum(|r|, Terms(r, off, k, odd, even)))
  }

  /** The coefficients at beat b: scaled once by alpha^(-543 i) and b times by alpha^(32 i). */
  function Stepped(r: seq<Symbol>, off: nat, b: nat): (s: seq<Symbol>)
    ensures |s| == |r|
  {
    if b == 0 then ScaleBeat(r, off, 1023 - 543) else ScaleBeat(Stepped(r, off, b - 1), off, 32)
  }

  lemma {:induction false} SteppedAt(r: seq<Symbol>, off: nat, b: nat, i: nat)
    requires i < |r|
    ensures Stepped(r, off, b)[i] == Mul(r[i], Alpha((32 * b - 543) * (i + off)))
  {
    hide Mul, Alpha;
    var n := i + off;
    if b == 0 {
      PeriodDrops(n);
      assert (32 * 0 - 543) * n == -543 * n;
    } else {
      SteppedAt(r, off, b - 1, i);
      var e := (32 * (b - 1) - 543) * n;
      MulAssoc(r[i], Alpha(e), Alpha(32 * n));
      AlphaAdds(e, 32 * n);
      assert e + 32 * n == (32 * b - 543) * n;
    }
  }

  lemma PeriodDrops(n: nat)
    ensures Alpha((1023 - 543) * n) == Alpha(-543 * n)
  {
    hide Exp;
    var x := -543 * n;
    WholePeriods(x, n);
    assert (1023 - 543) * n == x + 1023 * n;
  }

  lemma WholePeriods(x: int, n: nat)
    ensures (x + 1023 * n) % 1023 == x % 1023
  {}

  /** At beat b and lane k the sum is the polynomial at alpha^(32 b + k - 543), times the power of that
      point that the offset stands for. */
  lemma LaneValue(r: seq<Symbol>, off: nat, b: nat, k: nat)
    requires k < 32
    ensures var q := 32 * b + k - 543;
      EvBeat(Stepped(r, off, b), off, true, true)[k] == Mul(Alpha(off * q), Eval(r, Alpha(q)))
  {
    hide Add, Mul, Alpha, Eval, Sum, Terms;
    var q, s := 32 * b + k - 543, Stepped(r, off, b);
    EvalSum(r, q);
    var g := (i: nat) => Mul(At(r, i), Alpha(q * i));
    SumScale(|r|, Alpha(off * q), g);
    SumCong(|r|, g, i => Mul(At(r, i), Alpha(q * i)));
    forall i: nat | i < |r|
      ensures Terms(s, off, k, true, true)(i) == Mul(Alpha(off * q), g(i))
    {
      LaneTermAt(r, off, b, k, i, q);
    }
    SumCong(|r|, Terms(s, off, k, true, true), i => Mul(Alpha(off * q), g(i)));
  }

  lemma LaneTermAt(r: seq<Symbol>, off: nat, b: nat, k: nat, i: nat, q: int)
    requires k < 32 && i < |r| && q == 32 * b + k - 543
    ensures Terms(Stepped(r, off, b), off, k, true, true)(i) == Mul(Alpha(off * q), Mul(At(r, i), Alpha(q * i)))
  {
    hide Mul, Alpha;
    SteppedAt(r, off, b, i);
    LaneTerm(r[i], off, b, k, i, q);
  }

  lemma LaneTerm(c: Symbol, off: nat, b: nat, k: nat, i: nat, q: int)
    requires q == 32 * b + k - 543
    ensures Mul(Mul(c, Alpha((32 * b - 543) * (i + off))), Alpha((i + off) * k))
      == Mul(Alpha(off * q), Mul(c, Alpha(q * i)))
  {
    hide Mul, Alpha;
    var n := i + off;
    var e, f := (32 * b - 543) * n, n * k;
    MulAssoc(c, Alpha(e), Alpha(f));
    AlphaAdds(e, f);
    MulSwap(Alpha(off * q), c, Alpha(q * i));
    AlphaAdds(off * q, q * i);
    assert e + f == off * q + q * i by {
      assert f == k * n;
      assert (32 * b - 543) * n + k * n == q * n;
      assert q * n == q * i + q * off;
    }
  }

  /** The value of the locator that the root search needs at every one of the 544 positions. */
  lemma BeatsSearch(lam: seq<Symbol>, pos: nat)
    requires pos < N
    ensures var n := N - 1 - pos; var b, k := n / 32, n % 32;
      b < 17 && EvBeat(Stepped(lam, 0, b), 0, true, true)[k] == Eval(lam, AlphaNeg(pos))
  {
    hide Add, Mul, Alpha, Eval, EvBeat, Stepped;
    var n := N - 1 - pos;
    LaneValue(lam, 0, n / 32, n % 32);
    var q := 32 * (n / 32) + n % 32 - 543;
    assert q == -(pos as int);
    assert 0 * q == 0;
    AlphaZero();
    MulOne(Eval(lam, Alpha(q)));
  }

  /** The odd and the even terms add up to the value. */
  lemma OddPlusEven(r: seq<Symbol>, off: nat, k: nat)
    requires k < 32
    ensures Add(EvBeat(r, off, true, false)[k], EvBeat(r, off, false, true)[k]) == EvBeat(r, off, true, true)[k]
  {
    hide Add, Mul, Alpha, Sum;
    var o, e, a := Terms(r, off, k, true, false), Terms(r, off, k, false, true), Terms(r, off, k, true, true);
    SumAdd(|r|, o, e);
    forall i: nat | i < |r|
      ensures Add(o(i), e(i)) == a(i)
    {
      AddZero(a(i));
    }
    SumCong(|r|, i => Add(o(i), e(i)), a);
  }

  // ---------- the maps are linear, so their tables compute them ----------

  function EncMap(n: nat): seq<Symbol> -> seq<Symbol> {
    s => if |s| == NSYM + n then EncBeat(s[..NSYM], s[NSYM..]) else []
  }

  function SynMap(): seq<Symbol> -> seq<Symbol> {
    s => if |s| == NSYM + 32 then SynBeat(s[..NSYM], s[NSYM..]) else []
  }

  function ScaleMap(off: nat, e: int): seq<Symbol> -> seq<Symbol> {
    s => ScaleBeat(s, off, e)
  }

  function EvMap(off: nat, odd: bool, even: bool): seq<Symbol> -> seq<Symbol> {
    s => EvBeat(s, off, odd, even)
  }

  /** x^(2^n), by squaring n times. */
  function SquareMap(n: nat): seq<Symbol> -> seq<Symbol> {
    s => if |s| == 1 then [Squared(s[0], n)] else []
  }

  function Squared(x: Symbol, n: nat): Symbol {
    if n == 0 then x else Mul(Squared(x, n - 1), Squared(x, n - 1))
  }

  lemma {:induction false} ComboXor(a: seq<Symbol>, b: seq<Symbol>, e: nat, n: nat)
    requires |a| == |b| && n <= |a|
    ensures Combo(XorSeq(a, b), e, n) == XorSeq(Combo(a, e, n), Combo(b, e, n))
  {
    hide Add, Mul, XMod, Scale;
    if n == 0 {
      XorZeros(Zeros(NSYM));
    } else {
      ComboXor(a, b, e, n - 1);
      ScaleSum(a[n - 1], b[n - 1], XMod(e + n - 1));
      XorExchange(Combo(a, e, n - 1), Combo(b, e, n - 1), Scale(a[n - 1], XMod(e + n - 1)),
                  Scale(b[n - 1], XMod(e + n - 1)));
    }
  }

  lemma {:induction false} ComboDownXor(a: seq<Symbol>, b: seq<Symbol>, n: nat, i: nat)
    requires |a| == |b| && i <= |a| && i <= n
    ensures ComboDown(XorSeq(a, b), n, i) == XorSeq(ComboDown(a, n, i), ComboDown(b, n, i))
  {
    hide Add, Mul, XMod, Scale;
    if i == 0 {
      XorZeros(Zeros(NSYM));
    } else {
      var x := XMod(NSYM + n - i);
      ComboDownXor(a, b, n, i - 1);
      ScaleSum(a[i - 1], b[i - 1], x);
      XorExchange(ComboDown(a, n, i - 1), ComboDown(b, n, i - 1), Scale(a[i - 1], x), Scale(b[i - 1], x));
    }
  }

  lemma EncMapAdditive(n: nat)
    ensures IsAdditive(EncMap(n), NSYM + n, NSYM)
  {
    hide Add, Combo, ComboDown;
    forall a: seq<Symbol>, b: seq<Symbol> | |a| == |b| == NSYM + n
      ensures EncMap(n)(XorSeq(a, b)) == XorSeq(EncMap(n)(a), EncMap(n)(b))
    {
      var r, q, m, l := a[..NSYM], b[..NSYM], a[NSYM..], b[NSYM..];
      assert XorSeq(a, b)[..NSYM] == XorSeq(r, q) && XorSeq(a, b)[NSYM..] == XorSeq(m, l);
      ComboXor(r, q, n, NSYM);
      ComboDownXor(m, l, n, n);
      XorExchange(Combo(r, n, NSYM), Combo(q, n, NSYM), ComboDown(m, n, n), ComboDown(l, n, n));
    }
  }

  lemma ScaleMapAdditive(n: nat, off: nat, e: int)
    ensures IsAdditive(ScaleMap(off, e), n, n)
  {
    hide Add, Mul, Alpha;
    forall a: seq<Symbol>, b: seq<Symbol> | |a| == |b| == n
      ensures ScaleBeat(XorSeq(a, b), off, e) == XorSeq(ScaleBeat(a, off, e), ScaleBeat(b, off, e))
    {
      forall i | 0 <= i < n
        ensures ScaleBeat(XorSeq(a, b), off, e)[i] == XorSeq(ScaleBeat(a, off, e), ScaleBeat(b, off, e))[i]
      {
        MulLinearLeft(a[i], b[i], Alpha(e * (i + off)));
      }
    }
  }

  /** Sums of terms that are additive in the vector are additive. */
  lemma SumOfXor(n: nat, f: nat -> Symbol, g: nat -> Symbol, h: nat -> Symbol)
    requires forall i: nat :: i < n ==> h(i) == Add(f(i), g(i))
    ensures Sum(n, h) == Add(Sum(n, f), Sum(n, g))
  {
    hide Add;
    SumAdd(n, f, g);
    SumCong(n, h, i => Add(f(i), g(i)));
  }

  lemma EvAdds(a: seq<Symbol>, b: seq<Symbol>, off: nat, k: nat, odd: bool, even: bool)
    requires |a| == |b| && k < 32
    ensures EvBeat(XorSeq(a, b), off, odd, even)[k]
      == Add(EvBeat(a, off, odd, even)[k], EvBeat(b, off, odd, even)[k])
  {
    hide Add, Mul, Alpha, Sum;
    var f, g, h := Terms(a, off, k, odd, even), Terms(b, off, k, odd, even), Terms(XorSeq(a, b), off, k, odd, even);
    AddZero(0);
    forall i: nat | i < |a|
      ensures h(i) == Add(f(i), g(i))
    {
      MulLinearLeft(a[i], b[i], Alpha((i + off) * k));
    }
    SumOfXor(|a|, f, g, h);
  }

  lemma EvMapAdditive(n: nat, off: nat, odd: bool, even: bool)
    ensures IsAdditive(EvMap(off, odd, even), n, 32)
  {
    hide Add, Mul, Alpha, Sum;
    forall a: seq<Symbol>, b: seq<Symbol> | |a| == |b| == n
      ensures EvBeat(XorSeq(a, b), off, odd, even) == XorSeq(EvBeat(a, off, odd, even), EvBeat(b, off, odd, even))
    {
      forall k | 0 <= k < 32
        ensures EvBeat(XorSeq(a, b), off, odd, even)[k]
          == Add(EvBeat(a, off, odd, even)[k], EvBeat(b, off, odd, even)[k])
      {
        EvAdds(a, b, off, k, odd, even);
      }
    }
  }

  lemma SynMapAdditive()
    ensures IsAdditive(SynMap(), NSYM + 32, NSYM)
  {
    hide Add, Mul, Alpha, Sum, SynBeat;
    forall a: seq<Symbol>, b: seq<Symbol> | |a| == |b| == NSYM + 32
      ensures SynMap()(XorSeq(a, b)) == XorSeq(SynMap()(a), SynMap()(b))
    {
      assert XorSeq(a, b)[..NSYM] == XorSeq(a[..NSYM], b[..NSYM])
        && XorSeq(a, b)[NSYM..] == XorSeq(a[NSYM..], b[NSYM..]);
      SynBeatXor(a[..NSYM], b[..NSYM], a[NSYM..], b[NSYM..]);
    }
  }

  lemma SynBeatXor(s: seq<Symbol>, t: seq<Symbol>, c: seq<Symbol>, d: seq<Symbol>)
    requires |s| == |t| == NSYM && |c| == |d| == 32
    ensures SynBeat(XorSeq(s, t), XorSeq(c, d)) == XorSeq(SynBeat(s, c), SynBeat(t, d))
  {
    hide Add, Mul, Alpha, Sum;
    forall j | 0 <= j < NSYM
      ensures SynBeat(XorSeq(s, t), XorSeq(c, d))[j] == Add(SynBeat(s, c)[j], SynBeat(t, d)[j])
    {
      var f, g, h := Powers(c, j, 31), Powers(d, j, 31), Powers(XorSeq(c, d), j, 31);
      forall k: nat | k < 32
        ensures h(k) == Add(f(k), g(k))
      {
        MulLinearLeft(c[k], d[k], Alpha(j * (31 - k)));
      }
      SumOfXor(32, f, g, h);
      MulLinearLeft(s[j], t[j], Alpha(32 * j));
      AddSwap(Mul(s[j], Alpha(32 * j)), Mul(t[j], Alpha(32 * j)), Sum(32, f), Sum(32, g));
    }
  }

  lemma {:induction false} SquaredXor(x: Symbol, y: Symbol, n: nat)
    ensures Squared(Add(x, y), n) == Add(Squared(x, n), Squared(y, n))
  {
    hide Add, Mul;
    if n > 0 {
      SquaredXor(x, y, n - 1);
      var a, b := Squared(x, n - 1), Squared(y, n - 1);
      MulLinearLeft(a, b, Add(a, b));
      MulLinearRight(a, a, b);
      MulLinearRight(b, a, b);
      MulComm(a, b);
      AddAssoc(Mul(a, a), Mul(a, b), Add(Mul(a, b), Mul(b, b)));
      AddAssoc(Mul(a, b), Mul(a, b), Mul(b, b));
      AddSelf(Mul(a, b));
      AddZero(Mul(b, b));
    }
  }

  lemma SquareMapAdditive(n: nat)
    ensures IsAdditive(SquareMap(n), 1, 1)
  {
    hide Add, Squared;
    forall a: seq<Symbol>, b: seq<Symbol> | |a| == |b| == 1
      ensures SquareMap(n)(XorSeq(a, b)) == XorSeq(SquareMap(n)(a), SquareMap(n)(b))
    {
      SquaredXor(a[0], b[0], n);
    }
  }

  /** pw(x, 2^n) is n squarings. */
  lemma {:induction false} PowerIsSquared(x: Symbol, n: nat, e: nat)
    requires e == Pow2(n)
    ensures Squared(x, n) == if x == 0 then 0 else Alpha(Log(x) * e)
  {
    hide Mul, Alpha;
    if n == 0 {
      if x != 0 {
        AlphaNat(Log(x));
      }
    } else {
      PowerIsSquared(x, n - 1, Pow2(n - 1));
      MulZero(0);
      if x != 0 {
        var k := Log(x) * Pow2(n - 1);
        AlphaAdds(k, k);
        assert k + k == Log(x) * e;
      }
    }
  }

  /** Every generated table computes its beat: the parity of the input bits that row o masks is output
      bit o, for the encoder, the syndromes, the scalings, the evaluations and the squarings. */
  lemma TablesCompute(s: seq<Symbol>, o: nat, n: nat, off: nat, e: int, odd: bool, even: bool)
    ensures |s| == NSYM + n ==> TableBit(EncMap(n), s, o) == BitAt(Vec(EncBeat(s[..NSYM], s[NSYM..])), o)
    ensures |s| == NSYM + 32 ==> TableBit(SynMap(), s, o) == BitAt(Vec(SynBeat(s[..NSYM], s[NSYM..])), o)
    ensures TableBit(ScaleMap(off, e), s, o) == BitAt(Vec(ScaleBeat(s, off, e)), o)
    ensures TableBit(EvMap(off, odd, even), s, o) == BitAt(Vec(EvBeat(s, off, odd, even)), o)
    ensures |s| == 1 ==> TableBit(SquareMap(n), s, o) == BitAt(Squared(s[0], n), o)
  {
    hide Add, Mul, Alpha, EncBeat, SynBeat, ScaleBeat, EvBeat, BitAt, MaskParity, Columns, RowMask, Squared;
    if |s| == NSYM + n {
      EncMapAdditive(n);
      TableComputes(EncMap(n), NSYM + n, NSYM, s, o);
    }
    if |s| == NSYM + 32 {
      SynMapAdditive();
      TableComputes(SynMap(), NSYM + 32, NSYM, s, o);
    }
    ScaleMapAdditive(|s|, off, e);
    TableComputes(ScaleMap(off, e), |s|, |s|, s, o);
    EvMapAdditive(|s|, off, odd, even);
    TableComputes(EvMap(off, odd, even), |s|, 32, s, o);
    if |s| == 1 {
      SquareMapAdditive(n);
      TableComputes(SquareMap(n), 1, 1, s, o);
      assert Vec([Squared(s[0], n)]) == Squared(s[0], n) by { assert [Squared(s[0], n)][1..] == []; }
    }
  }

  /** Output bit o as the generated table computes it. */
  function TableBit(f: seq<Symbol> -> seq<Symbol>, s: seq<Symbol>, o: nat): nat {
    var n := |s|;
    MaskParity(RowMask(Columns(Packed(f, n), 10 * n), o), Vec(s), 10 * n)
  }
}
