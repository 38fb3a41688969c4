/** AES-128 and AES-256 of scripts/aes_gcm/gcm_ref.py (FIPS 197): the rounds, the key expansion, and that
    encryption under any key maps different blocks to different blocks. */
module Aes {
  import opened Options
  import opened BitFields
  import opened AesField
  import opened AesSbox

  type Block = s: Bytes | |s| == 16 witness seq(16, i => 0)

  // ---------- the steps of a round ----------

  /** zip stops at the shorter list. */
  function XorOf(a: Bytes, b: Bytes): (c: Bytes)
    ensures |c| == if |a| < |b| then |a| else |b|
  {
    seq(if |a| < |b| then |a| else |b|, i requires 0 <= i < |a| && i < |b| => Add(a[i], b[i]))
  }

  lemma XorCancels(a: Bytes, b: Bytes)
    requires |a| <= |b|
    ensures XorOf(XorOf(a, b), b) == a
  {
    hide Add;
    forall i | 0 <= i < |a|
      ensures XorOf(XorOf(a, b), b)[i] == a[i]
    {
      AddCancel(a[i], b[i]);
    }
  }

  function Sub(s: Bytes): (t: Bytes)
    ensures |t| == |s|
  {
    seq(|s|, i requires 0 <= i < |s| => SboxOf(s[i]))
  }

  lemma SubInjective(a: Bytes, b: Bytes)
    requires Sub(a) == Sub(b)
    ensures a == b
  {
    hide SboxOf;
    assert |Sub(a)| == |a| && |Sub(b)| == |b|;
    forall i | 0 <= i < |a|
      ensures a[i] == b[i]
    {
      assert Sub(a)[i] == SboxOf(a[i]) && Sub(b)[i] == SboxOf(b[i]);
      SboxInjective(a[i], b[i]);
    }
  }

  /** Byte i of the shifted state comes from this place: row i % 4 turns left by i % 4 columns. */
  function Source(i: nat): (j: nat)
    ensures j < 16
  {
    4 * ((i / 4 + i % 4) % 4) + i % 4
  }

  function Shifted(s: Block): Block {
    seq(16, i requires 0 <= i < 16 => s[Source(i)])
  }

  lemma SourceOnto(j: nat)
    requires j < 16
    ensures exists i: nat :: i < 16 && Source(i) == j
  {
    var i := 4 * ((j / 4 + 4 - j % 4) % 4) + j % 4;
    assert Source(i) == j;
  }

  lemma ShiftInjective(a: Block, b: Block)
    requires Shifted(a) == Shifted(b)
    ensures a == b
  {
    forall j | 0 <= j < 16
      ensures a[j] == b[j]
    {
      SourceOnto(j);
      var i: nat :| i < 16 && Source(i) == j;
      hide Source;
      assert Shifted(a)[i] == a[j] && Shifted(b)[i] == b[j];
    }
  }

  // ---------- MixColumns ----------

  function Sum4(a: Byte, b: Byte, c: Byte, d: Byte): Byte {
    Add(Add(a, b), Add(c, d))
  }

  /** The four sums of a column, in the order of the program. */
  function Column(a: Byte, b: Byte, c: Byte, d: Byte): (m: Bytes)
    ensures |m| == 4
  {
    [Sum5(Xt(a), Xt(b), b, c, d), Sum5(a, Xt(b), Xt(c), c, d), Sum5(a, b, Xt(c), Xt(d), d), Sum5(Xt(a), a, b, c, Xt(d))]
  }

  /** What each of them comes to, with t = a + b + c + d. */
  function Row(a: Byte, b: Byte, t: Byte): Byte {
    Add(Add(a, t), Xt(Add(a, b)))
  }

  lemma Sum5Regroup(a: Byte, b: Byte, c: Byte, d: Byte, e: Byte)
    ensures Sum5(a, b, c, d, e) == Add(Add(c, Add(d, e)), Add(a, b))
  {
    hide Add;
    AddAssoc(Add(a, b), c, d);
    AddAssoc(Add(a, b), Add(c, d), e);
    AddAssoc(c, d, e);
    AddComm(Add(a, b), Add(Add(c, d), e));
  }

  /** The other three are the first plus the sum of all four. */
  lemma OtherThree(a: Byte, b: Byte, c: Byte, d: Byte)
    ensures Add(b, Add(c, d)) == Add(a, Sum4(a, b, c, d))
  {
    hide Add;
    AddAssoc(a, b, Add(c, d));
    AddAssoc(a, a, Add(b, Add(c, d)));
    AddSelf(a);
    AddZero(Add(b, Add(c, d)));
  }

  lemma Turn(a: Byte, b: Byte, c: Byte, d: Byte)
    ensures Sum4(b, c, d, a) == Sum4(a, b, c, d)
  {
    hide Add;
    AddComm(Add(b, c), Add(d, a));
    AddComm(d, a);
    AddExchange(a, d, b, c);
    AddComm(d, c);
  }

  lemma ColumnRows(a: Byte, b: Byte, c: Byte, d: Byte)
    ensures var t := Sum4(a, b, c, d); Column(a, b, c, d) == [Row(a, b, t), Row(b, c, t), Row(c, d, t), Row(d, a, t)]
  {
    Turn(a, b, c, d);
    Turn(b, c, d, a);
    Turn(c, d, a, b);
    FirstRow(a, b, c, d);
    SecondRow(a, b, c, d);
    ThirdRow(a, b, c, d);
    FourthRow(a, b, c, d);
  }

  lemma FirstRow(a: Byte, b: Byte, c: Byte, d: Byte)
    ensures Sum5(Xt(a), Xt(b), b, c, d) == Row(a, b, Sum4(a, b, c, d))
  {
    hide Add, Xt;
    Sum5Regroup(Xt(a), Xt(b), b, c, d);
    XtAdd(a, b);
    OtherThree(a, b, c, d);
  }

  lemma SecondRow(a: Byte, b: Byte, c: Byte, d: Byte)
    ensures Sum5(a, Xt(b), Xt(c), c, d) == Row(b, c, Sum4(b, c, d, a))
  {
    hide Add, Xt;
    var p, q := Xt(b), Xt(c);
    AddComm(a, p);
    AddAssoc(p, a, q); AddComm(a, q); AddAssoc(p, q, a);
    Sum5Regroup(p, q, a, c, d);
    XtAdd(b, c);
    Rotate3(a, c, d);
    OtherThree(b, c, d, a);
  }

  lemma ThirdRow(a: Byte, b: Byte, c: Byte, d: Byte)
    ensures Sum5(a, b, Xt(c), Xt(d), d) == Row(c, d, Sum4(c, d, a, b))
  {
    hide Add, Xt;
    var p, q := Xt(c), Xt(d);
    AddAssoc(Add(a, b), p, q);
    AddAssoc(Add(a, b), Add(p, q), d);
    AddComm(Add(p, q), d);
    AddAssoc(Add(a, b), d, Add(p, q));
    AddComm(Add(a, b), d);
    XtAdd(c, d);
    OtherThree(c, d, a, b);
  }

  lemma FourthRow(a: Byte, b: Byte, c: Byte, d: Byte)
    ensures Sum5(Xt(a), a, b, c, Xt(d)) == Row(d, a, Sum4(d, a, b, c))
  {
    hide Add, Xt;
    var p, q := Xt(a), Xt(d);
    AddAssoc(p, a, b);
    AddAssoc(p, Add(a, b), c);
    AddAssoc(a, b, c);
    var s := Add(a, Add(b, c));
    AddComm(p, s);
    AddAssoc(s, p, q);
    AddComm(p, q);
    XtAdd(d, a);
    OtherThree(d, a, b, c);
  }

  lemma Rotate3(a: Byte, c: Byte, d: Byte)
    ensures Add(a, Add(c, d)) == Add(c, Add(d, a))
  {
    hide Add;
    AddComm(a, Add(c, d));
    AddAssoc(c, d, a);
  }

  /** Two rows added. */
  lemma RowsAdded(a: Byte, b: Byte, c: Byte, d: Byte, t: Byte)
    ensures Add(Row(a, b, t), Row(c, d, t)) == Add(Add(a, c), Xt(Sum4(a, b, c, d)))
  {
    hide Add, Xt;
    AddExchange(Add(a, t), Xt(Add(a, b)), Add(c, t), Xt(Add(c, d)));
    AddExchange(a, t, c, t);
    AddSelf(t);
    AddZero(Add(a, c));
    XtAdd(Add(a, b), Add(c, d));
  }

  lemma AddMiddle(a: Byte, b: Byte, c: Byte)
    ensures Sum4(a, b, b, c) == Add(a, c)
  {
    hide Add;
    AddExchange(a, b, b, c);
    AddComm(b, c);
    AddExchange(a, b, c, b);
    AddSelf(b);
    AddZero(Add(a, c));
  }

  /** The four rows add up to the four bytes. */
  lemma RowsTotal(a: Byte, b: Byte, c: Byte, d: Byte, t: Byte)
    ensures Sum4(Row(a, b, t), Row(b, c, t), Row(c, d, t), Row(d, a, t)) == Sum4(a, b, c, d)
  {
    hide Add, Xt, Row;
    RowsAdded(a, b, b, c, t);
    AddMiddle(a, b, c);
    RowsAdded(c, d, d, a, t);
    AddMiddle(c, d, a);
    AddComm(c, a);
    AddExchange(Add(a, b), Xt(Add(a, c)), Add(c, d), Xt(Add(a, c)));
    AddSelf(Xt(Add(a, c)));
    AddZero(Sum4(a, b, c, d));
  }

  lemma AddDetermines(a: Byte, b: Byte, c: Byte, d: Byte)
    requires Add(a, b) == Add(c, d) && b == d
    ensures a == c
  {
    hide Add;
    AddCancel(a, b);
    AddCancel(c, d);
  }

  /** A mixed column determines the column: first the sum t of its bytes, then a + c, then a + b, then a. */
  lemma MixedDetermines(a: Byte, b: Byte, c: Byte, d: Byte, e: Byte, f: Byte, g: Byte, h: Byte, t: Byte, u: Byte)
    requires t == Sum4(a, b, c, d) && u == Sum4(e, f, g, h)
    requires Row(a, b, t) == Row(e, f, u) && Row(b, c, t) == Row(f, g, u) && Row(c, d, t) == Row(g, h, u)
    requires Row(d, a, t) == Row(h, e, u)
    ensures t == u && Add(a, c) == Add(e, g) && Add(a, b) == Add(e, f) && a == e
  {
    hide Add, Xt, Row;
    RowsTotal(a, b, c, d, t);
    RowsTotal(e, f, g, h, u);
    RowsAdded(a, b, c, d, t);
    RowsAdded(e, f, g, h, u);
    AddDetermines(Add(a, c), Xt(t), Add(e, g), Xt(u));
    RowsAdded(a, b, b, c, t);
    RowsAdded(e, f, f, g, u);
    AddMiddle(a, b, c);
    AddMiddle(e, f, g);
    AddDetermines(Add(a, b), Xt(Add(a, c)), Add(e, f), Xt(Add(e, g)));
    RowMeans(a, b, t);
    RowMeans(e, f, u);
    AddDetermines(Add(a, t), Xt(Add(a, b)), Add(e, u), Xt(Add(e, f)));
    AddDetermines(a, t, e, u);
  }

  lemma RowMeans(a: Byte, b: Byte, t: Byte)
    ensures Row(a, b, t) == Add(Add(a, t), Xt(Add(a, b)))
  {}

  lemma ColumnInjective(a: Byte, b: Byte, c: Byte, d: Byte, e: Byte, f: Byte, g: Byte, h: Byte)
    requires Column(a, b, c, d) == Column(e, f, g, h)
    ensures a == e && b == f && c == g && d == h
  {
    ColumnRows(a, b, c, d);
    ColumnRows(e, f, g, h);
    hide *;
    var t, u := Sum4(a, b, c, d), Sum4(e, f, g, h);
    FourSame(Row(a, b, t), Row(b, c, t), Row(c, d, t), Row(d, a, t), Row(e, f, u), Row(f, g, u), Row(g, h, u),
             Row(h, e, u));
    MixedDetermines(a, b, c, d, e, f, g, h, t, u);
    Turn(a, b, c, d); Turn(b, c, d, a); Turn(c, d, a, b);
    Turn(e, f, g, h); Turn(f, g, h, e); Turn(g, h, e, f);
    MixedDetermines(b, c, d, a, f, g, h, e, t, u);
    MixedDetermines(c, d, a, b, g, h, e, f, t, u);
    MixedDetermines(d, a, b, c, h, e, f, g, t, u);
  }

  lemma FourSame(a: Byte, b: Byte, c: Byte, d: Byte, e: Byte, f: Byte, g: Byte, h: Byte)
    requires [a, b, c, d] == [e, f, g, h]
    ensures a == e && b == f && c == g && d == h
  {
    assert [a, b, c, d][0] == e && [a, b, c, d][1] == f && [a, b, c, d][2] == g && [a, b, c, d][3] == h;
  }

  function ColumnAt(s: Block, c: nat): (m: Bytes)
    requires c < 4
    ensures |m| == 4
  {
    Column(s[4 * c], s[4 * c + 1], s[4 * c + 2], s[4 * c + 3])
  }

  function Mixed(s: Block): Block {
    ColumnAt(s, 0) + ColumnAt(s, 1) + ColumnAt(s, 2) + ColumnAt(s, 3)
  }

  lemma MixInjective(a: Block, b: Block)
    requires Mixed(a) == Mixed(b)
    ensures a == b
  {
    hide Column;
    MixedColumns(a);
    MixedColumns(b);
    ColumnInjective(a[0], a[1], a[2], a[3], b[0], b[1], b[2], b[3]);
    ColumnInjective(a[4], a[5], a[6], a[7], b[4], b[5], b[6], b[7]);
    ColumnInjective(a[8], a[9], a[10], a[11], b[8], b[9], b[10], b[11]);
    ColumnInjective(a[12], a[13], a[14], a[15], b[12], b[13], b[14], b[15]);
    assert a == b;
  }

  lemma MixedColumns(s: Block)
    ensures var m := Mixed(s);
      m[..4] == ColumnAt(s, 0) && m[4..8] == ColumnAt(s, 1) && m[8..12] == ColumnAt(s, 2) && m[12..] == ColumnAt(s, 3)
  {
    hide Column;
  }

  // ---------- the rounds ----------

  /** The round keys of a schedule. */
  predicate IsSchedule(rk: seq<Bytes>) {
    |rk| > 0 && forall r :: 0 <= r < |rk| ==> |rk[r]| == 16
  }

  /** The state after round r. */
  function StateAfter(rk: seq<Bytes>, block: Block, r: nat): Block
    requires IsSchedule(rk) && r < |rk|
    decreases r
  {
    if r == 0 then XorOf(block, rk[0])
    else
      var s := Shifted(Sub(StateAfter(rk, block, r - 1)));
      XorOf(if r != |rk| - 1 then Mixed(s) else s, rk[r])
  }

  lemma KeyAddInjective(a: Block, b: Block, k: Block)
    requires XorOf(a, k) == XorOf(b, k)
    ensures a == b
  {
    hide XorOf;
    XorCancels(a, k);
    XorCancels(b, k);
  }

  lemma {:induction false} RoundsInjective(rk: seq<Bytes>, a: Block, b: Block, r: nat)
    requires IsSchedule(rk) && r < |rk| && StateAfter(rk, a, r) == StateAfter(rk, b, r)
    ensures a == b
    decreases r
  {
    hide XorOf, Mixed, Shifted, Sub;
    if r == 0 {
      KeyAddInjective(a, b, rk[0]);
    } else {
      var p, q := StateAfter(rk, a, r - 1), StateAfter(rk, b, r - 1);
      var s, t := Shifted(Sub(p)), Shifted(Sub(q));
      if r != |rk| - 1 {
        KeyAddInjective(Mixed(s), Mixed(t), rk[r]);
        MixInjective(s, t);
      } else {
        KeyAddInjective(s, t, rk[r]);
      }
      ShiftInjective(Sub(p), Sub(q));
      SubInjective(p, q);
      RoundsInjective(rk, a, b, r - 1);
    }
  }

  // ---------- the key schedule ----------

  /** The number of key words, which the program asserts to be 4 or 8. */
  predicate IsKey(key: Bytes) {
    |key| / 4 == 4 || |key| / 4 == 8
  }

  function Rounds(key: Bytes): nat {
    |key| / 4 + 6
  }

  /** What is added to word i - nk to give word i, from word i - 1. */
  function Twisted(nk: nat, i: nat, previous: Bytes): (t: Bytes)
    requires nk in {4, 8} && |previous| == 4
    ensures |t| == 4
  {
    if i % nk == 0 then
      var s := Sub(previous[1..] + previous[..1]);
      s[0 := Add(s[0], Xts(1, if i / nk > 0 then i / nk - 1 else 0))]
    else if nk > 6 && i % nk == 4 then Sub(previous)
    else previous
  }

  /** Word i of the schedule. */
  function Word(key: Bytes, i: nat): (w: Bytes)
    requires IsKey(key)
    ensures |w| == 4
  {
    var nk := |key| / 4;
    if i < nk then key[4 * i..4 * i + 4] else XorOf(Word(key, i - nk), Twisted(nk, i, Word(key, i - 1)))
  }

  function RoundKey(key: Bytes, r: nat): (k: Bytes)
    requires IsKey(key)
    ensures |k| == 16
  {
    Word(key, 4 * r) + Word(key, 4 * r + 1) + Word(key, 4 * r + 2) + Word(key, 4 * r + 3)
  }

  function Schedule(key: Bytes): (rk: seq<Bytes>)
    requires IsKey(key)
    ensures IsSchedule(rk) && |rk| == Rounds(key) + 1
  {
    seq(Rounds(key) + 1, r requires 0 <= r => RoundKey(key, r))
  }

  /** nk words in a row, anywhere in the schedule, determine the whole key. */
  lemma {:induction false} WordsDetermineKey(k: Bytes, l: Bytes, nk: nat, i: nat)
    requires |k| == |l| == 4 * nk && nk in {4, 8}
    requires forall j: nat :: i <= j < i + nk ==> Word(k, j) == Word(l, j)
    ensures k == l
    decreases i
  {
    hide XorOf, Twisted;
    if i == 0 {
      forall m | 0 <= m < |k|
        ensures k[m] == l[m]
      {
        var j := m / 4;
        assert Word(k, j) == k[4 * j..4 * j + 4] && Word(l, j) == l[4 * j..4 * j + 4];
        assert k[m] == Word(k, j)[m % 4] && l[m] == Word(l, j)[m % 4];
      }
    } else {
      var j := i - 1 + nk;
      var t := Twisted(nk, j, Word(k, j - 1));
      assert Word(k, j) == XorOf(Word(k, i - 1), t);
      assert Word(l, j) == XorOf(Word(l, i - 1), t);
      hide Word;
      XorCancels(Word(k, i - 1), t);
      XorCancels(Word(l, i - 1), t);
      WordsDetermineKey(k, l, nk, i - 1);
    }
  }

  /** The table that the module sets up. */
  predicate IsTable(sbox: seq<Byte>) {
    |sbox| == 256 && forall x: Byte :: sbox[x] == SboxOf(x)
  }

  function SubWith(sbox: seq<Byte>, s: Bytes): (t: Bytes)
    requires |sbox| == 256
  {
    seq(|s|, i requires 0 <= i < |s| => sbox[s[i]])
  }

  lemma SubWithIsSub(sbox: seq<Byte>, s: Bytes)
    requires IsTable(sbox)
    ensures SubWith(sbox, s) == Sub(s)
  {
    hide SboxOf;
  }

  /** How many words before word i have used a round constant. */
  function Turns(nk: nat, i: nat): nat
    requires nk in {4, 8} && i >= nk
  {
    if nk == 4 then (i - 1) / 4 else (i - 1) / 8
  }

  lemma NextTurn(nk: nat, i: nat)
    requires nk in {4, 8} && i >= nk
    ensures Turns(nk, i + 1) == if i % nk == 0 then Turns(nk, i) + 1 else Turns(nk, i)
    ensures i % nk == 0 ==> Turns(nk, i) == i / nk - 1
  {}

  method Twist(nk: nat, i: nat, previous: Bytes, rcon: Byte, sbox: seq<Byte>) returns (t: Bytes, next: Byte)
    requires nk in {4, 8} && i >= nk && |previous| == 4 && IsTable(sbox)
    requires rcon == Xts(1, Turns(nk, i))
    ensures t == Twisted(nk, i, previous) && next == Xts(1, Turns(nk, i + 1))
  {
    hide Add, Xt, SboxOf, Sub, SubWith, Turns;
    NextTurn(nk, i);
    t, next := previous, rcon;
    if i % nk == 0 {
      SubWithIsSub(sbox, t[1..] + t[..1]);
      t := SubWith(sbox, t[1..] + t[..1]);
      t := t[0 := Add(t[0], rcon)];
      next := Xt(rcon);
    } else if nk > 6 && i % nk == 4 {
      SubWithIsSub(sbox, t);
      t := SubWith(sbox, t);
    }
  }

  predicate AreWords(w: seq<Bytes>, key: Bytes)
    requires IsKey(key)
  {
    forall j :: 0 <= j < |w| ==> w[j] == Word(key, j)
  }

  method ExpandKey(key: Bytes, sbox: seq<Byte>) returns (rk: Option<seq<Bytes>>)
    requires IsTable(sbox)
    ensures rk == if IsKey(key) then Some(Schedule(key)) else None
  {
    hide IsTable, Xts, Twisted, Word, XorOf, AreWords, Turns;
    var nk := |key| / 4;
    if nk != 4 && nk != 8 { return None; }
    var nr := nk + 6;
    var w: seq<Bytes> := seq(nk, i requires 0 <= i < nk => key[4 * i..4 * i + 4]);
    FirstWords(key, w);
    var rcon: Byte := 1;
    FirstTurn(nk);
    var i := nk;
    while i < 4 * (nr + 1)
      invariant nk <= i <= 4 * (nr + 1) && |w| == i
      invariant AreWords(w, key)
      invariant rcon == Xts(1, Turns(nk, i))
    {
      WordsAt(key, w, nk);
      var t;
      t, rcon := Twist(nk, i, w[i - 1], rcon, sbox);
      WordsGrow(key, w, nk, t);
      w := w + [XorOf(w[i - nk], t)];
      i := i + 1;
    }
    WordsAreKeys(key, w);
    rk := Some(KeysFrom(w, nr + 1));
  }

  /** Four words to a round key. */
  function KeysFrom(w: seq<Bytes>, n: nat): (rk: seq<Bytes>)
    requires |w| == 4 * n
    ensures |rk| == n
  {
    seq(n, r requires 0 <= r < n => w[4 * r] + w[4 * r + 1] + w[4 * r + 2] + w[4 * r + 3])
  }

  lemma FirstTurn(nk: nat)
    requires nk in {4, 8}
    ensures 1 == Xts(1, Turns(nk, nk))
  {}

  lemma FirstWords(key: Bytes, w: seq<Bytes>)
    requires IsKey(key) && |w| == |key| / 4 && forall i :: 0 <= i < |w| ==> w[i] == key[4 * i..4 * i + 4]
    ensures AreWords(w, key)
  {}

  lemma WordsAt(key: Bytes, w: seq<Bytes>, nk: nat)
    requires IsKey(key) && AreWords(w, key) && nk == |key| / 4 <= |w|
    ensures w[|w| - 1] == Word(key, |w| - 1) && w[|w| - nk] == Word(key, |w| - nk)
  {
    hide Word;
  }

  lemma WordsGrow(key: Bytes, w: seq<Bytes>, nk: nat, t: Bytes)
    requires IsKey(key) && AreWords(w, key) && nk == |key| / 4 <= |w|
    requires t == Twisted(nk, |w|, Word(key, |w| - 1))
    ensures AreWords(w + [XorOf(w[|w| - nk], t)], key)
  {
    hide Word, Twisted, XorOf, AreWords;
    WordsAt(key, w, nk);
    LaterWord(key, |w|, nk);
    OneMoreWord(key, w, XorOf(w[|w| - nk], t));
  }

  lemma OneMoreWord(key: Bytes, w: seq<Bytes>, x: Bytes)
    requires IsKey(key) && AreWords(w, key) && x == Word(key, |w|)
    ensures AreWords(w + [x], key)
  {
    hide Word;
  }

  lemma LaterWord(key: Bytes, i: nat, nk: nat)
    requires IsKey(key) && nk == |key| / 4 <= i
    ensures Word(key, i) == XorOf(Word(key, i - nk), Twisted(nk, i, Word(key, i - 1)))
  {
    hide Twisted, XorOf;
  }

  lemma WordsAreKeys(key: Bytes, w: seq<Bytes>)
    requires IsKey(key) && AreWords(w, key) && |w| == 4 * (Rounds(key) + 1)
    ensures KeysFrom(w, Rounds(key) + 1) == Schedule(key)
  {
    hide Word;
    var a := KeysFrom(w, Rounds(key) + 1);
    forall r | 0 <= r < |a|
      ensures a[r] == Schedule(key)[r]
    {
      assert Schedule(key)[r] == RoundKey(key, r);
    }
  }

  // ---------- the cipher ----------

  function EncryptOf(key: Bytes, block: Block): Block
    requires IsKey(key)
  {
    StateAfter(Schedule(key), block, Rounds(key))
  }

  /** Under every key, different blocks encrypt to different blocks. */
  lemma EncryptInjective(key: Bytes, a: Block, b: Block)
    requires IsKey(key) && EncryptOf(key, a) == EncryptOf(key, b)
    ensures a == b
  {
    RoundsInjective(Schedule(key), a, b, Rounds(key));
  }

  method AesEncrypt(key: Bytes, block: Block, sbox: seq<Byte>) returns (out: Option<Block>)
    requires IsTable(sbox)
    ensures out == if IsKey(key) then Some(EncryptOf(key, block)) else None
  {
    hide SboxOf, Schedule, XorOf, Mixed, Shifted, Sub, SubWith, Rounds;
    var keys := ExpandKey(key, sbox);
    if keys == None { return None; }
    var rk := keys.value;
    var s: Block := XorOf(block, rk[0]);
    var r := 1;
    while r < |rk|
      invariant 1 <= r <= |rk| && s == StateAfter(rk, block, r - 1)
    {
      SubWithIsSub(sbox, s);
      s := SubWith(sbox, s);
      s := Shifted(s);
      if r != |rk| - 1 {
        s := MixColumns(s);
      }
      s := XorOf(s, rk[r]);
      r := r + 1;
    }
    out := Some(s);
  }

  method MixColumns(s: Block) returns (m: Block)
    ensures m == Mixed(s)
  {
    hide Column;
    var l: Bytes := [];
    for c := 0 to 4
      invariant |l| == 4 * c
      invariant c == 1 ==> l == ColumnAt(s, 0)
      invariant c == 2 ==> l == ColumnAt(s, 0) + ColumnAt(s, 1)
      invariant c == 3 ==> l == ColumnAt(s, 0) + ColumnAt(s, 1) + ColumnAt(s, 2)
      invariant c == 4 ==> l == Mixed(s)
    {
      l := l + ColumnAt(s, c);
    }
    m := l;
  }
}
