/** The row-mask tables of scripts/ethfec/gen_tables.py: probing a GF(2)-linear map on unit vectors gives
    masks whose parities compute the map on every input. */
module MaskTables {
  import opened Arithmetic
  import opened XorNat
  import opened GF1024
  import opened RsCode

  // ---------- bits of a number ----------

  /** The n low bits of v. */
  function Low(v: nat, n: nat): (r: nat)
    ensures r < Pow2(n)
    decreases n, v
  {
    if n == 0 then 0 else 2 * Low(v / 2, n - 1) + v % 2
  }

  lemma {:induction false} BitOfXor(a: nat, b: nat, i: nat)
    ensures BitAt(Xor(a, b), i) == (BitAt(a, i) + BitAt(b, i)) % 2
    decreases i
  {
    XorStep(a, b);
    hide Xor;
    if i > 0 {
      BitOfXor(a / 2, b / 2, i - 1);
    }
  }

  /** The next bit of a number is added on top of the lower ones. */
  lemma {:induction false} LowStep(v: nat, n: nat)
    ensures Low(v, n + 1) == if BitAt(v, n) == 1 then Xor(Low(v, n), Pow2(n)) else Low(v, n)
    decreases n
  {
    XorHigh(Low(v, n), n);
    hide Xor;
    LowSum(v, n);
  }

  lemma {:induction false} LowSum(v: nat, n: nat)
    ensures Low(v, n + 1) == Low(v, n) + BitAt(v, n) * Pow2(n)
    decreases n
  {
    if n > 0 {
      LowSum(v / 2, n - 1);
      Doubled(BitAt(v / 2, n - 1), Pow2(n - 1));
    }
  }

  lemma Doubled(b: nat, p: nat)
    ensures 2 * (b * p) == b * (2 * p)
  {}

  lemma {:induction false} LowIsAll(v: nat, n: nat)
    requires v < Pow2(n)
    ensures Low(v, n) == v
    decreases n
  {
    if n > 0 {
      LowIsAll(v / 2, n - 1);
    }
  }

  // ---------- tables of row masks ----------

  /** f is additive on nin-bit numbers. */
  ghost predicate IsLinear(f: nat -> nat, nin: nat) {
    forall a: nat, b: nat :: a < Pow2(nin) && b < Pow2(nin) ==> f(Xor(a, b)) == Xor(f(a), f(b))
  }

  /** The images of the unit vectors. */
  function Columns(f: nat -> nat, nin: nat): (c: seq<nat>)
    ensures |c| == nin
  {
    if nin == 0 then [] else Columns(f, nin - 1) + [f(Pow2(nin - 1))]
  }

  /** The mask of output bit o: the inputs whose image has it. */
  function RowMask(cols: seq<nat>, o: nat): (row: seq<nat>)
    ensures |row| == |cols|
  {
    seq(|cols|, j requires 0 <= j < |cols| => BitAt(cols[j], o))
  }

  method BuildMasks(f: nat -> nat, nin: nat, nout: nat) returns (rows: seq<seq<nat>>)
    ensures |rows| == nout && forall o :: 0 <= o < nout ==> rows[o] == RowMask(Columns(f, nin), o)
  {
    var cols: seq<nat> := [];
    for j := 0 to nin
      invariant cols == Columns(f, j)
    {
      cols := cols + [f(Pow2(j))];
    }
    rows := [];
    for o := 0 to nout
      invariant |rows| == o && forall k :: 0 <= k < o ==> rows[k] == RowMask(cols, k)
    {
      var row: seq<nat> := [];
      for j := 0 to nin
        invariant row == RowMask(cols, o)[..j]
      {
        row := row + [if BitAt(cols[j], o) == 1 then 1 else 0];
      }
      rows := rows + [row];
    }
  }

  /** The parity of the first n input bits that a mask selects. */
  function MaskParity(row: seq<nat>, v: nat, n: nat): nat
    requires n <= |row|
  {
    if n == 0 then 0 else (MaskParity(row, v, n - 1) + row[n - 1] * BitAt(v, n - 1)) % 2
  }

  /** The sum of the columns that the first n bits of v select. */
  function Selected(cols: seq<nat>, v: nat, n: nat): nat
    requires n <= |cols|
  {
    if n == 0 then 0
    else if BitAt(v, n - 1) == 1 then Xor(Selected(cols, v, n - 1), cols[n - 1])
    else Selected(cols, v, n - 1)
  }

  lemma {:induction false} ParityOfSelected(cols: seq<nat>, o: nat, v: nat, n: nat)
    requires n <= |cols|
    ensures MaskParity(RowMask(cols, o), v, n) == BitAt(Selected(cols, v, n), o)
  {
    hide Xor;
    if n == 0 {
      BitOfZero(o);
    } else {
      ParityOfSelected(cols, o, v, n - 1);
      BitOfXor(Selected(cols, v, n - 1), cols[n - 1], o);
    }
  }

  lemma {:induction false} BitOfZero(o: nat)
    ensures BitAt(0, o) == 0
  {
    if o > 0 {
      BitOfZero(o - 1);
    }
  }

  lemma {:induction false} ColumnsAt(f: nat -> nat, nin: nat, j: nat)
    requires j < nin
    ensures Columns(f, nin)[j] == f(Pow2(j))
  {
    if j < nin - 1 {
      ColumnsAt(f, nin - 1, j);
    }
  }

  lemma {:induction false} SelectedIsImage(f: nat -> nat, nin: nat, v: nat, n: nat)
    requires IsLinear(f, nin) && n <= nin
    ensures Selected(Columns(f, nin), v, n) == f(Low(v, n))
  {
    hide Xor, Low, BitAt;
    if n == 0 {
      ZeroToZero(f, nin);
    } else {
      SelectedIsImage(f, nin, v, n - 1);
      LowStep(v, n - 1);
      ColumnsAt(f, nin, n - 1);
      LowBelow(v, n - 1, nin);
    }
  }

  lemma LowBelow(v: nat, n: nat, nin: nat)
    requires n < nin
    ensures Low(v, n) < Pow2(nin) && Pow2(n) < Pow2(nin)
  {
    hide Low;
    PowMono(n + 1, nin);
  }

  lemma ZeroToZero(f: nat -> nat, nin: nat)
    requires IsLinear(f, nin)
    ensures Low(0, 0) == 0 && f(0) == 0
  {
    XorSelf(0);
    XorSelf(f(0));
    assert f(Xor(0, 0)) == Xor(f(0), f(0));
  }

  /** The parities of the masks are the bits of the map, for every input. */
  lemma MasksCompute(f: nat -> nat, nin: nat, v: nat, o: nat)
    requires IsLinear(f, nin) && v < Pow2(nin)
    ensures MaskParity(RowMask(Columns(f, nin), o), v, nin) == BitAt(f(v), o)
  {
    ParityOfSelected(Columns(f, nin), o, v, nin);
    SelectedIsImage(f, nin, v, nin);
    LowIsAll(v, nin);
  }

  // ---------- vectors of symbols as numbers ----------

  /** Symbol i at bits 10 i to 10 i + 9. */
  function Vec(ss: seq<Symbol>): nat {
    if ss == [] then 0 else ss[0] + 1024 * Vec(ss[1..])
  }

  function Syms(v: nat, n: nat): (ss: seq<Symbol>)
    ensures |ss| == n
    decreases n, v
  {
    if n == 0 then [] else [v % 1024] + Syms(v / 1024, n - 1)
  }

  lemma {:induction false} SymsOfVec(ss: seq<Symbol>)
    ensures Syms(Vec(ss), |ss|) == ss && Vec(ss) < Pow2(10 * |ss|)
  {
    if ss != [] {
      SymsOfVec(ss[1..]);
      assert ss == [ss[0]] + ss[1..];
      Pow2Ten(10 * |ss[1..]|);
    } else {
      assert Pow2(0) == 1;
    }
  }

  lemma Pow2Ten(n: nat)
    ensures Pow2(n + 10) == 1024 * Pow2(n)
  {
    Pow2Adds(10, n);
    assert Pow2(10) == 1024;
  }

  /** The bits from n up. */
  function High(v: nat, n: nat): nat
    decreases n, v
  {
    if n == 0 then v else High(v / 2, n - 1)
  }

  /** Exclusive or acts on the low and the high bits separately. */
  lemma {:induction false} XorSplit(a: nat, b: nat, n: nat)
    ensures High(Xor(a, b), n) == Xor(High(a, n), High(b, n)) && Low(Xor(a, b), n) == Xor(Low(a, n), Low(b, n))
    decreases n
  {
    if n == 0 {
      XorZero(0);
    } else {
      XorStep(a, b);
      XorSplit(a / 2, b / 2, n - 1);
      LowXorStep(a, b, n);
      hide Xor, Low;
    }
  }

  lemma LowXorStep(a: nat, b: nat, n: nat)
    requires n > 0 && Low(Xor(a / 2, b / 2), n - 1) == Xor(Low(a / 2, n - 1), Low(b / 2, n - 1))
    ensures Low(Xor(a, b), n) == Xor(Low(a, n), Low(b, n))
  {
    XorStep(a, b);
    XorStep(Low(a, n), Low(b, n));
    hide Xor;
  }

  lemma {:induction false} HighLow(v: nat, n: nat)
    ensures v == Pow2(n) * High(v, n) + Low(v, n)
    decreases n
  {
    if n > 0 {
      HighLow(v / 2, n - 1);
      Regroup(Pow2(n - 1), High(v, n));
    }
  }

  lemma TenBits(v: nat)
    ensures High(v, 10) == v / 1024 && Low(v, 10) == v % 1024
  {
    HighLow(v, 10);
    assert Pow2(10) == 1024;
  }

  lemma {:induction false} SymsOfXor(a: nat, b: nat, n: nat)
    ensures Syms(Xor(a, b), n) == XorSeq(Syms(a, n), Syms(b, n))
    decreases n
  {
    hide Xor;
    if n > 0 {
      SymsOfXor(a / 1024, b / 1024, n - 1);
      XorSplit(a, b, 10);
      TenBits(a); TenBits(b); TenBits(Xor(a, b));
    }
  }

  lemma {:induction false} VecOfXor(a: seq<Symbol>, b: seq<Symbol>)
    requires |a| == |b|
    ensures Vec(XorSeq(a, b)) == Xor(Vec(a), Vec(b))
  {
    if a == [] {
      XorZero(0);
    } else {
      hide Xor;
      VecOfXor(a[1..], b[1..]);
      assert XorSeq(a, b)[1..] == XorSeq(a[1..], b[1..]);
      var x, y := Vec(a), Vec(b);
      XorSplit(x, y, 10);
      TenBits(x); TenBits(y); TenBits(Xor(x, y));
      assert x / 1024 == Vec(a[1..]) && x % 1024 == a[0] && y / 1024 == Vec(b[1..]) && y % 1024 == b[0];
    }
  }

  /** f is a map of n symbols to m symbols that respects addition. */
  ghost predicate IsAdditive(f: seq<Symbol> -> seq<Symbol>, n: nat, m: nat) {
    && (forall a: seq<Symbol> :: |a| == n ==> |f(a)| == m)
    && (forall a: seq<Symbol>, b: seq<Symbol> :: |a| == n && |b| == n ==> f(XorSeq(a, b)) == XorSeq(f(a), f(b)))
  }

  /** The map on packed vectors. */
  function Packed(f: seq<Symbol> -> seq<Symbol>, n: nat): nat -> nat {
    v => Vec(f(Syms(v, n)))
  }

  /** The masks of an additive map of symbols compute it on every packed vector. */
  lemma TableComputes(f: seq<Symbol> -> seq<Symbol>, n: nat, m: nat, s: seq<Symbol>, o: nat)
    requires IsAdditive(f, n, m) && |s| == n
    ensures MaskParity(RowMask(Columns(Packed(f, n), 10 * n), o), Vec(s), 10 * n) == BitAt(Vec(f(s)), o)
  {
    hide Xor, BitAt, XorSeq, Vec, Syms;
    var g := Packed(f, n);
    forall a: nat, b: nat
      ensures g(Xor(a, b)) == Xor(g(a), g(b))
    {
      SymsOfXor(a, b, n);
      VecOfXor(f(Syms(a, n)), f(Syms(b, n)));
    }
    SymsOfVec(s);
    MasksCompute(g, 10 * n, Vec(s), o);
  }
}
