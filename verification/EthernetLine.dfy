/** What goes out on the lanes, bit by bit: the order of the symbols, the layout of a pair, the scrambler's recurrence
    over the whole line, the 257-bit blocks, and the structure of the marker and block type tables. */
module EthernetLine {
  import opened Arithmetic
  import opened RsCode
  import opened Transcoder
  import opened Scrambling
  import opened Framing
  import opened Markers
  import opened Link

  // ---------- the order of the symbols ----------

  /** How many of the first n places carry symbols of this codeword. */
  function Earlier(n: nat, first: bool): nat {
    if n == 0 then 0 else Earlier(n - 1, first) + if FromFirst(n - 1) == first then 1 else 0
  }

  lemma {:induction false} EarlierAt(q: nat, m: nat, first: bool)
    requires m < 16
    ensures Earlier(16 * q + m, first) == 8 * q + if (q % 2 == 0) == first then (m + 1) / 2 else m / 2
    decreases q, m
  {
    hide FromFirst, Earlier;
    if m > 0 {
      EarlierAt(q, m - 1, first);
      EarlierMore(16 * q + (m - 1), first);
      LaneIndex(q, m - 1);
    } else if q > 0 {
      EarlierAt(q - 1, 15, first);
      EarlierMore(16 * (q - 1) + 15, first);
      LaneIndex(q - 1, 15);
      assert 16 * (q - 1) + 15 + 1 == 16 * q;
    } else {
      EarlierNone(first);
    }
  }

  lemma EarlierMore(n: nat, first: bool)
    ensures Earlier(n + 1, first) == Earlier(n, first) + if FromFirst(n) == first then 1 else 0
  {}

  lemma EarlierNone(first: bool)
    ensures Earlier(0, first) == 0
  {}

  /** Each codeword is sent in the order of its symbols. */
  lemma SentInOrder(n: nat)
    ensures CodewordIndex(n) == Earlier(n, FromFirst(n))
  {
    var q, m := n / 16, n % 16;
    DivMod(n, 16);
    LaneIndex(q, m);
    EarlierAt(q, m, FromFirst(n));
    hide FromFirst, Earlier;
    assert CodewordIndex(n) == 8 * q + m / 2;
  }

  /** Lane x, at place x of every row of sixteen, carries the codewords alternately; lanes next to each other carry
      different ones, and lane 0 starts with the first. */
  lemma LanesAlternate(row: nat, x: nat)
    requires x < 16
    ensures FromFirst(16 * row + x) <==> row % 2 == x % 2
  {
    LaneIndex(row, x);
  }

  // ---------- the bits of the symbols ----------

  lemma {:induction false} ValueBit(b: Bits, k: nat)
    requires k < |b|
    ensures BitAt(Value(b), k) == if b[k] then 1 else 0
  {
    if k > 0 {
      ValueBit(b[1..], k - 1);
    }
  }

  /** Bit k of symbol i of the messages, in the order of the pair: ten bits to each in turn, the lowest first. */
  lemma SplitBits(pair: Pair, i: nat, k: nat)
    requires i < K && k < 10
    ensures BitAt(Split(pair).0[i], k) == (if pair[20 * i + k] then 1 else 0)
    ensures BitAt(Split(pair).1[i], k) == (if pair[20 * i + 10 + k] then 1 else 0)
  {
    hide BitAt, Value;
    ValueBit(pair[20 * i..20 * i + 10], k);
    ValueBit(pair[20 * i + 10..20 * i + 20], k);
  }

  /** Bit k of the symbol that goes out n-th, while messages are sent: if it is symbol number i of its codeword, the
      pair has the bit at 20 i + k for the first codeword and at 20 i + 10 + k for the second. */
  lemma SentBit(pair: Pair, n: nat, k: nat)
    requires n < 1088 && k < 10 && Earlier(n, FromFirst(n)) < K
    ensures var (a, b) := Split(pair); var i := Earlier(n, FromFirst(n));
      BitAt(Interleaved(Codeword(a), Codeword(b))[n], k) ==
        if pair[20 * i + (if FromFirst(n) then 0 else 10) + k] then 1 else 0
  {
    hide BitAt, FromFirst, Earlier, Parity, CodewordIndex;
    SentInOrder(n);
    SplitBits(pair, Earlier(n, FromFirst(n)), k);
  }

  // ---------- the pair ----------

  lemma {:induction false} ToBitsBit(v: nat, n: nat, k: nat)
    requires k < n
    ensures ToBits(v, n)[k] == (BitAt(v, k) == 1)
  {
    if k > 0 {
      ToBitsBit(v / 2, n - 1, k - 1);
    }
  }

  /** A pair that carries no marker is the line of 40 groups. */
  lemma DataPair(st: TxState, groups: seq<Group>, sf: nat)
    requires |st.h| == 58 && |st.s| == 9 && st.pc != 0 && |groups| == GroupCount(st.pc)
    ensures |groups| == 40 && TxPair(st, groups, sf) == Line(st.h, groups)
  {}

  /** A marker pair: 96 slots of marker bits, 133 bits of the pad, each the sum of those nine and five before it, the
      three status bits, the lowest first, and the line of 32 groups. */
  lemma MarkerPairLayout(st: TxState, groups: seq<Group>, sf: nat, t: nat, i: nat, k: nat)
    requires |st.h| == 58 && |st.s| == 9 && st.pc == 0 && |groups| == GroupCount(0) && t < 96 && i < 133 && k < 3
    ensures var p := TxPair(st, groups, sf);
      && |groups| == 32 && p[2056..] == Line(st.h, groups)
      && p[20 * t..20 * t + 20] == Slot(AllMarkers(), t)
      && p[1920 + i] == Xor(if i >= 9 then p[1911 + i] else st.s[8 - i], if i >= 5 then p[1915 + i] else st.s[4 - i])
      && p[2053 + k] == (BitAt(sf % 8, k) == 1)
  {
    PrbsRecurrence(st.s, 133, i);
    ToBitsBit(sf % 8, 3, k);
    SlotAt(AllMarkers(), 96, t);
    hide *;
    MarkerPairIs(st, groups, sf);
    Parts(TxPair(st, groups, sf), Slots(AllMarkers(), 96), PrbsBits(st.s, 133), ToBits(sf % 8, 3), Line(st.h, groups),
          t, i, k);
  }

  lemma MarkerPairIs(st: TxState, groups: seq<Group>, sf: nat)
    requires |st.h| == 58 && |st.s| == 9 && st.pc == 0 && |groups| == GroupCount(0)
    ensures |groups| == 32
    ensures TxPair(st, groups, sf)
         == Slots(AllMarkers(), 96) + PrbsBits(st.s, 133) + ToBits(sf % 8, 3) + Line(st.h, groups)
  {
    hide Slots, PrbsBits, Line, ToBits;
  }

  lemma Parts(p: Bits, a: Bits, b: Bits, c: Bits, d: Bits, t: nat, i: nat, k: nat)
    requires |a| == 1920 && |b| == 133 && |c| == 3 && p == a + b + c + d && t < 96 && i < 133 && k < 3
    ensures p[2056..] == d && p[20 * t..20 * t + 20] == a[20 * t..20 * t + 20] && p[2053 + k] == c[k]
    ensures p[1920 + i] == b[i] && (i >= 9 ==> p[1911 + i] == b[i - 9]) && (i >= 5 ==> p[1915 + i] == b[i - 5])
  {}

  // ---------- the line ----------

  /** The 257-bit blocks of some groups, one after another. */
  function Transcoded(groups: seq<Group>): (x: Bits)
    ensures |x| == 257 * |groups|
  {
    if groups == [] then [] else Transcoded(groups[..|groups| - 1]) + Transcode(groups[|groups| - 1])
  }

  /** Every bit on the line is that of the blocks, plus the bits sent 39 and 58 before it, over all blocks. */
  lemma {:induction false} LineRecurrence(h: Bits, groups: seq<Group>, k: nat)
    requires |h| == 58 && k < 257 * |groups|
    ensures var sent := h + Line(h, groups);
      sent[58 + k] == Xor(Transcoded(groups)[k], Xor(sent[58 + k - 39], sent[58 + k - 58]))
  {
    hide Transcode, Scrambled, Xor;
    var n := |groups| - 1;
    var l, line := Line(h, groups[..n]), Line(h, groups);
    if k < 257 * n {
      LineRecurrence(h, groups[..n], k);
      assert (h + line)[..58 + 257 * n] == h + l;
      assert forall j :: 0 <= j < 58 + 257 * n ==> (h + line)[j] == (h + l)[j];
    } else {
      var i, v := k - 257 * n, Transcode(groups[n]);
      var h' := History(h, l);
      var o := Scrambled(h', v);
      ScrambledAt(h', v, i);
      assert line == l + o;
      assert forall j :: 0 <= j < 58 + 257 ==> (h' + o)[j] == (h + line)[257 * n + j];
    }
  }

  // ---------- over many pairs ----------

  /** The transmitter after pairs with these groups. */
  ghost function After(amp: nat, st: TxState, pairs: seq<seq<Group>>): (r: TxState)
    requires TxValid(amp, st)
    ensures TxValid(amp, r)
    decreases |pairs|
  {
    if pairs == [] then st else After(amp, TxNext(amp, st, pairs[0]), pairs[1..])
  }

  function Joined(pairs: seq<seq<Group>>): seq<Group> {
    if pairs == [] then [] else pairs[0] + Joined(pairs[1..])
  }

  lemma {:induction false} LineMore(h: Bits, a: seq<Group>, b: seq<Group>)
    requires |h| == 58
    ensures Line(h, a + b) == Line(h, a) + Line(History(h, Line(h, a)), b)
  {
    hide Transcode, Scrambled, History;
    if b == [] {
      assert a + b == a;
    } else {
      var n := |b| - 1;
      LineMore(h, a, b[..n]);
      assert (a + b)[..|a + b| - 1] == a + b[..n];
      HistoryConcat(h, Line(h, a), Line(History(h, Line(h, a)), b[..n]));
    }
  }

  /** Scrambling goes on over the pairs as if their groups were one line: a marker group between them leaves no
      trace. */
  lemma {:induction false} LineContinues(amp: nat, st: TxState, pairs: seq<seq<Group>>)
    requires TxValid(amp, st)
    ensures After(amp, st, pairs).h == History(st.h, Line(st.h, Joined(pairs)))
    decreases |pairs|
  {
    hide Line, History;
    if pairs == [] {
      NoGroups(st.h);
    } else {
      var l := Line(st.h, pairs[0]);
      LineContinues(amp, TxNext(amp, st, pairs[0]), pairs[1..]);
      LineMore(st.h, pairs[0], Joined(pairs[1..]));
      HistoryConcat(st.h, l, Line(History(st.h, l), Joined(pairs[1..])));
    }
  }

  lemma NoGroups(h: Bits)
    requires |h| == 58
    ensures Line(h, []) == [] && History(h, []) == h
  {}

  /** How many of n pairs, from place pc of the period on, carry a marker. */
  function MarkersIn(amp: nat, pc: nat, n: nat): nat
    requires amp > 0
    decreases n
  {
    if n == 0 then 0 else (if pc == 0 then 1 else 0) + MarkersIn(amp, (pc + 1) % amp, n - 1)
  }

  lemma {:induction false} PadMore(s: Bits, m: nat, n: nat)
    requires |s| == 9
    ensures PrbsState(s, m + n) == PrbsState(PrbsState(s, m), n)
    decreases m
  {
    if m > 0 {
      PadMore([Xor(s[8], s[4])] + s[..8], m - 1, n);
    }
  }

  /** Every amp-th pair carries a marker, and the pad of each goes on where that of the last ended. */
  lemma {:induction false} PeriodCounts(amp: nat, st: TxState, pairs: seq<seq<Group>>)
    requires TxValid(amp, st)
    ensures var r := After(amp, st, pairs);
      r.pc == (st.pc + |pairs|) % amp && r.s == PrbsState(st.s, 133 * MarkersIn(amp, st.pc, |pairs|))
    decreases |pairs|
  {
    hide *;
    if pairs == [] {
      AfterNone(amp, st);
    } else {
      var u, n := TxNext(amp, st, pairs[0]), |pairs| - 1;
      NextIs(amp, st, pairs[0]);
      AfterMore(amp, st, pairs);
      PeriodCounts(amp, u, pairs[1..]);
      Wrapped(amp, st.pc, n);
      MarkersMore(amp, st.pc, n);
      if st.pc == 0 {
        PadMore(st.s, 133, 133 * MarkersIn(amp, u.pc, n));
      }
    }
  }

  lemma AfterNone(amp: nat, st: TxState)
    requires TxValid(amp, st)
    ensures After(amp, st, []) == st && st.pc < amp && |st.s| == 9 && MarkersIn(amp, st.pc, 0) == 0
    ensures PrbsState(st.s, 133 * 0) == st.s && (st.pc + 0) % amp == st.pc
  {
    InRange(st.pc, amp);
  }

  lemma AfterMore(amp: nat, st: TxState, pairs: seq<seq<Group>>)
    requires TxValid(amp, st) && pairs != []
    ensures After(amp, st, pairs) == After(amp, TxNext(amp, st, pairs[0]), pairs[1..])
  {}

  lemma NextIs(amp: nat, st: TxState, groups: seq<Group>)
    requires TxValid(amp, st)
    ensures var u := TxNext(amp, st, groups);
      && st.pc < amp && |st.s| == 9 && u.pc == (st.pc + 1) % amp
      && u.s == if st.pc == 0 then PrbsState(st.s, 133) else st.s
  {
    hide Line, History, PrbsState;
  }

  lemma MarkersMore(amp: nat, pc: nat, n: nat)
    requires amp > 0
    ensures MarkersIn(amp, pc, n + 1) == (if pc == 0 then 1 else 0) + MarkersIn(amp, (pc + 1) % amp, n)
  {}

  lemma Wrapped(amp: nat, pc: nat, n: nat)
    requires pc < amp
    ensures ((pc + 1) % amp + n) % amp == (pc + (n + 1)) % amp && pc % amp == pc
  {
    InRange(pc, amp);
    if pc + 1 == amp {
      OnceAround(amp, 0);
      InRange(0, amp);
      OnceAround(amp, n);
      assert pc + (n + 1) == amp + n;
    } else {
      InRange(pc + 1, amp);
      assert pc + 1 + n == pc + (n + 1);
    }
  }

  lemma InRange(x: nat, d: nat)
    requires x < d
    ensures x % d == x
  {}

  lemma OnceAround(amp: nat, n: nat)
    requires amp > 0
    ensures (amp + n) % amp == n % amp
  {
    DivMod(n, amp);
    var q, r := n / amp, n % amp;
    assert amp + n == amp * (q + 1) + r;
    Divide(q + 1, r, amp);
  }

  // ---------- the 257-bit block ----------

  /** The first block that is not data, if all headers are valid; the first block if not. */
  ghost predicate IsShortened(g: Group, c: nat) {
    c < 4 && if HeadersValid(g) then IsControl(g[c]) && forall j :: 0 <= j < c ==> IsData(g[j]) else c == 0
  }

  /** The block of a group: one bit says whether all four blocks are data; if so their payloads follow in order, and if
      not a flag for every block, on for data (and all on for invalid headers), and the payloads without the second half
      of the shortened block's type. */
  lemma BlockBits(g: Group, c: nat, j: nat, i: nat)
    requires (!AllData(g) ==> IsShortened(g, c)) && j < 4 && i < 64
    ensures var x := Transcode(g);
      && x[0] == AllData(g)
      && (if x[0] then x[1 + 64 * j + i] == g[j][2 + i]
          else
            && x[1 + j] == (!HeadersValid(g) || IsData(g[j]))
            && (64 * j + i < 64 * c + 4 ==> x[5 + 64 * j + i] == g[j][2 + i])
            && (64 * j + i >= 64 * c + 8 ==> x[1 + 64 * j + i] == g[j][2 + i]))
  {
    PayloadBit(g, j, i);
    var x, pay := Transcode(g), Payload(g);
    if AllData(g) {
      assert x == [true] + pay;
    } else {
      ShortenedIs(g, c);
      var mask := if HeadersValid(g) then Mask(g) else [true, true, true, true];
      assert x == [false] + mask + pay[..64 * c + 4] + pay[64 * c + 8..];
      FlagsAre(g);
      hide *;
      ShortenedBit(x, mask, pay, c, 64 * j + i, j);
    }
  }

  lemma ShortenedBit(x: Bits, mask: Bits, pay: Bits, c: nat, k: nat, j: nat)
    requires |mask| == 4 && |pay| == 256 && c < 4 && k < 256 && j < 4
    requires x == [false] + mask + pay[..64 * c + 4] + pay[64 * c + 8..]
    ensures |x| == 257 && !x[0] && x[1 + j] == mask[j]
    ensures k < 64 * c + 4 ==> x[5 + k] == pay[k]
    ensures k >= 64 * c + 8 ==> x[1 + k] == pay[k]
  {}

  lemma PayloadBit(g: Group, j: nat, i: nat)
    requires j < 4 && i < 64
    ensures Payload(g)[64 * j + i] == g[j][2 + i]
  {
    if j == 0 {} else if j == 1 {} else if j == 2 {} else {}
  }

  lemma FlagsAre(g: Group)
    ensures HeadersValid(g) ==> forall j :: 0 <= j < 4 ==> Mask(g)[j] == IsData(g[j])
  {
    forall j | 0 <= j < 4 && HeadersValid(g)
      ensures Mask(g)[j] == IsData(g[j])
    {
      HeaderOfMask(g, j);
    }
  }

  lemma ShortenedIs(g: Group, c: nat)
    requires !AllData(g) && IsShortened(g, c)
    ensures c == if HeadersValid(g) then FirstOff(Mask(g), 0) else 0
  {
    if HeadersValid(g) {
      FlagsAre(g);
      HeaderOfMask(g, c);
      assert SH_CTRL[1] != SH_DATA[1];
      hide FirstOff;
      var d := FirstOff(Mask(g), 0);
    }
  }

  // ---------- the block, read back ----------

  /** The first flag that is off. */
  ghost predicate IsFirstOff(x: Block257, c: nat) {
    var mask := x[1..5];
    c < 4 && !mask[c] && forall j :: 0 <= j < c ==> mask[j]
  }

  ghost predicate AllFlags(x: Block257) {
    x[1] && x[2] && x[3] && x[4]
  }

  /** The half of a block type that is sent, in the block with the first flag that is off. */
  function SentHalf(x: Block257, c: nat): nat
    requires c < 4
  {
    Value(x[5 + 64 * c..9 + 64 * c])
  }

  /** Bit k of the 256 payload bits: those received, with the missing half of the type put back, or zeros where the half
      that was sent belongs to no type, or at the end where no block is marked. */
  ghost predicate IsPayloadBit(x: Block257, c: nat, k: nat, b: bool)
    requires k < 256 && c < 4
  {
    if x[0] then b == x[1 + k]
    else if AllFlags(x) then b == (k < 252 && x[5 + k])
    else if k < 64 * c + 4 then b == x[5 + k]
    else if k >= 64 * c + 8 then b == x[1 + k]
    else b <==> SentHalf(x, c) in BTF && BitAt(BTF[SentHalf(x, c)] / 16, k - 64 * c - 4) == 1
  }

  /** What any 257 bits give back: headers, payload and flag. */
  lemma ReadBackBits(x: Block257, c: nat, j: nat, i: nat)
    requires (!x[0] && !AllFlags(x) ==> IsFirstOff(x, c)) && c < 4 && j < 4 && i < 64
    ensures var (g, bad) := RevTranscode(x);
      && (bad <==> !x[0] && (AllFlags(x) || SentHalf(x, c) !in BTF))
      && g[j][..2] == (if bad then SH_ERR else if x[0] || x[1 + j] then SH_DATA else SH_CTRL)
      && IsPayloadBit(x, c, 64 * j + i, g[j][2 + i])
  {
    hide BitAt, FirstOff, Nibble, Value;
    if x[0] {
      BlockBit([SH_DATA, SH_DATA, SH_DATA, SH_DATA], x[1..], j, i);
    } else if AllFlags(x) {
      assert x[1..5] == [true, true, true, true];
      BlockBit([SH_ERR, SH_ERR, SH_ERR, SH_ERR], x[5..] + [false, false, false, false], j, i);
    } else {
      MarkedBits(x, c, j, i);
    }
  }

  lemma BlockBit(sh: seq<Bits>, pay: Bits, j: nat, i: nat)
    requires |sh| == 4 && |pay| == 256 && (forall m :: 0 <= m < 4 ==> |sh[m]| == 2) && j < 4 && i < 64
    ensures Blocks(sh, pay)[j][..2] == sh[j] && Blocks(sh, pay)[j][2 + i] == pay[64 * j + i]
  {
    if j == 0 {} else if j == 1 {} else if j == 2 {} else {}
  }

  lemma FirstOffIs(x: Block257, c: nat)
    requires IsFirstOff(x, c)
    ensures FirstOff(x[1..5], 0) == c && x[1..5] != [true, true, true, true]
  {
    var mask := x[1..5];
    hide FirstOff;
    var d := FirstOff(mask, 0);
    assert !mask[d] && d == c;
    assert mask != [true, true, true, true] by { assert [true, true, true, true][c]; }
  }

  lemma NibbleBit(v: nat, k: nat)
    requires k < 4
    ensures Nibble(v)[k] == (BitAt(v, k) == 1)
  {
    assert v / 2 / 2 == v / 4 && v / 4 / 2 == v / 8;
  }

  lemma NoBit(k: nat)
    ensures BitAt(0, k) == 0
  {
    if k > 0 {
      NoBit(k - 1);
    }
  }

  lemma MarkedBits(x: Block257, c: nat, j: nat, i: nat)
    requires !x[0] && !AllFlags(x) && IsFirstOff(x, c) && j < 4 && i < 64
    ensures var (g, bad) := RevTranscode(x);
      && (bad <==> SentHalf(x, c) !in BTF)
      && g[j][..2] == (if bad then SH_ERR else if x[1 + j] then SH_DATA else SH_CTRL)
      && IsPayloadBit(x, c, 64 * j + i, g[j][2 + i])
  {
    hide BitAt, FirstOff, Nibble, Value;
    FirstOffIs(x, c);
    var mask, nib := x[1..5], SentHalf(x, c);
    var bad := nib !in BTF;
    var up := Nibble(if bad then 0 else BTF[nib] / 16);
    var pay := x[5..64 * c + 9] + up + x[64 * c + 9..];
    var sh := seq(4, j requires 0 <= j < 4 => if bad then SH_ERR else if mask[j] then SH_DATA else SH_CTRL);
    assert RevTranscode(x) == (Blocks(sh, pay), bad);
    BlockBit(sh, pay, j, i);
    var k := 64 * j + i;
    if 64 * c + 4 <= k < 64 * c + 8 {
      NibbleBit(if bad then 0 else BTF[nib] / 16, k - 64 * c - 4);
      NoBit(k - 64 * c - 4);
    }
    hide BTF;
    PutBack(x, up, c, k);
  }

  lemma PutBack(x: Block257, up: Bits, c: nat, k: nat)
    requires c < 4 && k < 256 && |up| == 4
    ensures var pay := x[5..64 * c + 9] + up + x[64 * c + 9..];
      |pay| == 256 && pay[k] ==
        if k < 64 * c + 4 then x[5 + k] else if k >= 64 * c + 8 then x[1 + k] else up[k - 64 * c - 4]
  {}

  // ---------- the tables ----------

  /** How many of the low four bits are on. */
  function Weight4(n: nat): nat {
    n % 2 + n / 2 % 2 + n / 4 % 2 + n / 8 % 2
  }

  /** The low half of a block type is the half that is sent; the high half is the same for an even number of ones, and
      its complement for an odd number. */
  lemma BlockTypes(n: nat)
    requires n in BTF
    ensures n < 16 && BTF[n] == (if Weight4(n) % 2 == 0 then n else 15 - n) * 16 + n
  {
    if n < 8 {
      assert n in {1, 2, 4, 7};
    } else {
      assert n in {8, 9, 10, 11, 12, 14, 15};
    }
  }

  /** Every half but 0, 3, 5, 6 and 13 is that of a block type. */
  lemma BlockTypesSent(n: nat)
    ensures n in BTF <==> n < 16 && n !in {0, 3, 5, 6, 13}
  {}

  /** The second half of a marker is the complement of its first. */
  predicate Balanced(row: seq<nat>) {
    && |row| == 15
    && row[4] + row[0] == 255 && row[5] + row[1] == 255 && row[6] + row[2] == 255
    && row[11] + row[7] == 255
    && row[12] + row[8] == 255 && row[13] + row[9] == 255 && row[14] + row[10] == 255
  }

  /** Every marker is balanced. */
  lemma MarkersBalanced(x: nat)
    requires x < 16
    ensures Balanced(AM_TABLE[x])
  {}

  lemma CommonOctets(x: nat)
    requires x < 16
    ensures |AM_TABLE[x]| == 15 && AM_TABLE[x][0] == 0x9A && AM_TABLE[x][1] == 0x4A && AM_TABLE[x][2] == 0x26
  {}

  /** The unique octets of two lanes differ. */
  lemma MarkersDiffer(x: nat, y: nat)
    requires x < y < 16
    ensures AM_TABLE[x][8] != AM_TABLE[y][8] || AM_TABLE[x][9] != AM_TABLE[y][9]
    ensures AM_TABLE[x][3] != AM_TABLE[y][3] && AM_TABLE[x][7] != AM_TABLE[y][7]
  {}
}
