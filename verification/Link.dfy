/** The two ends of a 400GBASE-R link as state machines over codeword pairs, and what a receiver
    gets out of a stream in which every codeword has at most 15 symbol errors. */
module Link {
  import opened GF1024
  import opened RsCode
  import opened RsDistance
  import opened Decoder
  import opened Transcoder
  import opened Scrambling
  import opened Framing
  import opened Markers

  // ---------- the transmitter ----------

  /** Position in the marker period, scrambler history, and pad generator state. */
  datatype TxState = TxState(pc: nat, h: Bits, s: Bits)

  ghost predicate TxValid(amp: nat, st: TxState) {
    amp >= 1 && st.pc < amp && |st.h| == 58 && |st.s| == 9
  }

  const TX_RESET := TxState(0, seq(58, i => true), seq(9, i => true))

  /** How many groups a pair carries. */
  function GroupCount(pc: nat): nat {
    if pc == 0 then NBLK - AMBLK else NBLK
  }

  /** The scrambled line of a sequence of groups. */
  function Line(h: Bits, groups: seq<Group>): (l: Bits)
    requires |h| == 58
    ensures |l| == 257 * |groups|
  {
    if groups == [] then []
    else
      var n := |groups| - 1;
      var l := Line(h, groups[..n]);
      l + Scrambled(History(h, l), Transcode(groups[n]))
  }

  function TxPair(st: TxState, groups: seq<Group>, sf: nat): (p: Pair)
    requires |st.h| == 58 && |st.s| == 9 && |groups| == GroupCount(st.pc)
  {
    hide AmGroup, Line;
    if st.pc == 0 then AmGroup(st.s, sf) + Line(st.h, groups) else Line(st.h, groups)
  }

  function TxSymbols(st: TxState, groups: seq<Group>, sf: nat): (out: seq<Symbol>)
    requires |st.h| == 58 && |st.s| == 9 && |groups| == GroupCount(st.pc)
    ensures |out| == 1088
  {
    var (a, b) := Split(TxPair(st, groups, sf));
    Interleaved(Codeword(a), Codeword(b))
  }

  function TxNext(amp: nat, st: TxState, groups: seq<Group>): (r: TxState)
    requires TxValid(amp, st)
    ensures TxValid(amp, r)
  {
    TxState((st.pc + 1) % amp, History(st.h, Line(st.h, groups)), if st.pc == 0 then PrbsState(st.s, 133) else st.s)
  }

  // ---------- the receiver ----------

  /** Marker lock, position in the period, missed markers in a row, status bits, line history. */
  datatype RxState = RxState(lock: bool, pc: nat, miss: nat, sf: nat, h: Bits)

  datatype Events = Events(bad: bool, amErr: bool, found: bool, itb: nat)

  const RX_RESET := RxState(false, 0, 0, 0, seq(58, i => true))

  /** The decoded word if a codeword lies within 15 symbols, and the word as received otherwise. */
  ghost function Decoded(c: seq<Symbol>): (r: (seq<Symbol>, bool))
    requires |c| == N
    ensures |r.0| == N
  {
    if exists w :: Near(w, c) then (NearestWord(c), true) else (c, false)
  }

  ghost function NearestWord(c: seq<Symbol>): (w: seq<Symbol>)
    requires exists w :: Near(w, c)
    ensures Near(w, c)
  {
    var w :| Near(w, c);
    w
  }

  /** The 10280 bits of a received pair, and whether a codeword of it was beyond repair. */
  ghost function RxPair(syms: seq<Symbol>): (r: (Pair, bool))
    requires |syms| == 1088
  {
    var (da, oka) := Decoded(FirstWord(syms));
    var (db, okb) := Decoded(SecondWord(syms));
    (Merged(da, db, K), !oka || !okb)
  }

  predicate HasMarker(p: Pair) {
    p[..1920] == AmFixed()
  }

  /** The status bits of a marker group. */
  function StatusBits(p: Pair): nat {
    Value(p[2053..2056])
  }

  /** The first n blocks of a line, descrambled and reverse transcoded. */
  function Received(h: Bits, line: Bits, n: nat): (r: seq<(Group, bool)>)
    requires |h| == 58 && 257 * n <= |line|
    ensures |r| == n
    decreases n, line
  {
    if n == 0 then []
    else
      var before := line[..257 * (n - 1)];
      Received(h, line, n - 1) + [RevTranscode(Descrambled(History(h, before), line[257 * (n - 1)..257 * n]))]
  }

  /** The group as handed on: with error headers when the pair was beyond repair. */
  function Marked(g: Group, bad: bool): (r: Group) {
    if bad then [SH_ERR + g[0][2..], SH_ERR + g[1][2..], SH_ERR + g[2][2..], SH_ERR + g[3][2..]] else g
  }

  function Groups(r: seq<(Group, bool)>, bad: bool): (gs: seq<Group>)
    ensures |gs| == |r|
  {
    seq(|r|, i requires 0 <= i < |r| => Marked(r[i].0, bad))
  }

  /** How many blocks reverse transcoding flagged. */
  function Flagged(r: seq<(Group, bool)>): nat {
    if r == [] then 0 else Flagged(r[..|r| - 1]) + if r[|r| - 1].1 then 1 else 0
  }

  /** Marker lock after a pair, from the lock before it: acquired by a marker, dropped by the third
      marker in a row that is missing from a repaired pair at its place. */
  function LockAfter(st: RxState, found: bool, bad: bool): bool {
    if !st.lock then found
    else !(st.pc == 0 && !found && !bad && st.miss + 1 == 3)
  }

  /** Whether the marker group is taken off the pair. */
  predicate Strips(st: RxState, found: bool) {
    if st.lock then st.pc == 0 else true
  }

  function RxNext(amp: nat, st: RxState, p: Pair, bad: bool): (r: RxState)
    requires amp >= 1 && |st.h| == 58
    ensures |r.h| == 58
  {
    var found := HasMarker(p);
    var start := if Strips(st, found) then 257 * AMBLK else 0;
    var h := History(st.h, p[start..]);
    if !st.lock && !found then st.(h := h)
    else if !st.lock then RxState(true, 1 % amp, 0, StatusBits(p), h)
    else
      var miss := if st.pc != 0 then st.miss else if found then 0 else if bad then st.miss else st.miss + 1;
      var sf := if st.pc == 0 && found then StatusBits(p) else st.sf;
      RxState(LockAfter(st, found, bad), (st.pc + 1) % amp, miss, sf, h)
  }

  /** What comes out: nothing while the receiver is out of lock. */
  function RxOut(st: RxState, p: Pair, bad: bool): seq<Group>
    requires |st.h| == 58
  {
    var found := HasMarker(p);
    var start := if Strips(st, found) then AMBLK else 0;
    if LockAfter(st, found, bad) then Groups(Received(st.h, p[257 * start..], NBLK - start), bad) else []
  }

  function RxEvents(st: RxState, p: Pair, bad: bool): Events
    requires |st.h| == 58
  {
    var found := HasMarker(p);
    var start := if Strips(st, found) then AMBLK else 0;
    Events(bad,
           st.lock && (if st.pc == 0 then !found && !bad else found && !bad),
           found,
           if LockAfter(st, found, bad) && !bad then Flagged(Received(st.h, p[257 * start..], NBLK - start)) else 0)
  }

  // ---------- one pair over a channel with at most 15 symbol errors per codeword ----------

  /** The received symbols of a pair: each of its two codewords has at most 15 wrong. */
  ghost predicate Delivered(sent: seq<Symbol>, got: seq<Symbol>)
    requires |sent| == 1088
  {
    && |got| == 1088
    && Hamming(FirstWord(sent), FirstWord(got)) <= T
    && Hamming(SecondWord(sent), SecondWord(got)) <= T
  }

  lemma DecodedNear(c: seq<Symbol>, w: seq<Symbol>)
    requires |c| == N && Near(w, c)
    ensures Decoded(c) == (w, true)
  {
    hide IsCodeword;
    NearestUniqueHere(c, NearestWord(c), w);
  }

  lemma NearestUniqueHere(c: seq<Symbol>, a: seq<Symbol>, b: seq<Symbol>)
    requires Near(a, c) && Near(b, c)
    ensures a == b
  {
    NearestUnique(c, a, b);
  }

  /** Error correction recovers the transmitted bits. */
  lemma PairRecovered(tx: TxState, groups: seq<Group>, sf: nat, got: seq<Symbol>)
    requires |tx.h| == 58 && |tx.s| == 9 && |groups| == GroupCount(tx.pc)
    requires Delivered(TxSymbols(tx, groups, sf), got)
    ensures RxPair(got) == (TxPair(tx, groups, sf), false)
  {
    hide Parity, IsCodeword, TxPair;
    var pair := TxPair(tx, groups, sf);
    var (a, b) := Split(pair);
    DeinterleaveInterleave(Codeword(a), Codeword(b));
    CodewordIsCodeword(a);
    CodewordIsCodeword(b);
    DecodedNear(FirstWord(got), Codeword(a));
    DecodedNear(SecondWord(got), Codeword(b));
    assert Codeword(a)[..K] == a && Codeword(b)[..K] == b;
    MergeSplit(pair, Codeword(a), Codeword(b), K);
    assert pair[..20 * K] == pair;
  }

  /** Descrambling and reverse transcoding invert the transmitter's line, given its history. */
  lemma {:induction false} ReceivedLine(h: Bits, groups: seq<Group>)
    requires |h| == 58 && forall g :: g in groups ==> Carried(g)
    ensures var r := Received(h, Line(h, groups), |groups|);
            && (forall i :: 0 <= i < |groups| ==> r[i] == (groups[i], false))
            && Flagged(r) == 0
  {
    hide Transcode, RevTranscode, Scrambled, Descrambled, Carried, History;
    if groups != [] {
      var n := |groups| - 1;
      var l, line := Line(h, groups[..n]), Line(h, groups);
      ReceivedLine(h, groups[..n]);
      assert line[..257 * n] == l;
      ReceivedPrefix(h, l, line, n);
      var x := Transcode(groups[n]);
      assert line[257 * n..257 * (n + 1)] == Scrambled(History(h, l), x);
      DescrambleScrambled(History(h, l), x);
      RoundTrip(groups[n]);
      var r := Received(h, line, n + 1);
      assert r[..n] == Received(h, l, n);
    }
  }

  lemma {:induction false} ReceivedPrefix(h: Bits, a: Bits, b: Bits, n: nat)
    requires |h| == 58 && 257 * n <= |a| && a <= b
    ensures Received(h, a, n) == Received(h, b, n)
  {
    hide RevTranscode, Descrambled, History;
    if n > 0 {
      ReceivedPrefix(h, a, b, n - 1);
      assert a[..257 * (n - 1)] == b[..257 * (n - 1)];
      assert a[257 * (n - 1)..257 * n] == b[257 * (n - 1)..257 * n];
    }
  }

  lemma GroupsExact(r: seq<(Group, bool)>, groups: seq<Group>)
    requires |r| == |groups| && forall i :: 0 <= i < |r| ==> r[i] == (groups[i], false)
    ensures Groups(r, false) == groups
  {}

  // ---------- the receiver in step with the transmitter ----------

  /** Locked, at the same place of the period, with the transmitter's line history. */
  ghost predicate InStep(amp: nat, tx: TxState, rx: RxState) {
    TxValid(amp, tx) && rx.lock && rx.pc == tx.pc && rx.h == tx.h
  }

  /** Out of lock, but with the transmitter's line history. */
  ghost predicate Waiting(amp: nat, tx: TxState, rx: RxState) {
    TxValid(amp, tx) && !rx.lock && rx.h == tx.h
  }

  lemma MarkerPair(st: TxState, groups: seq<Group>, sf: nat)
    requires |st.h| == 58 && |st.s| == 9 && st.pc == 0 && |groups| == GroupCount(0)
    ensures var p := TxPair(st, groups, sf);
            HasMarker(p) && p[257 * AMBLK..] == Line(st.h, groups) && StatusBits(p) == sf % 8
  {
    hide AmFixed, Line, PrbsBits;
    var p := TxPair(st, groups, sf);
    assert p[..1920] == AmFixed();
    assert p[2053..2056] == ToBits(sf % 8, 3);
    StatusValue(sf % 8);
  }

  lemma StatusValue(v: nat)
    requires v < 8
    ensures Value(ToBits(v, 3)) == v
  {
    var b := ToBits(v, 3);
    var c := ToBits(v / 2, 2);
    var d := ToBits(v / 2 / 2, 1);
    assert ToBits(v / 2 / 2 / 2, 0) == [];
    assert b[1..] == c && c[1..] == d && d[1..] == [];
    assert b == [v % 2 == 1] + c && c == [v / 2 % 2 == 1] + d && d == [v / 2 / 2 % 2 == 1];
    assert Value(d) == v / 2 / 2 && Value(c) == v / 2;
  }

  /** A pair received in step, or a marker pair received while waiting: exactly its groups come out,
      nothing is flagged, and the receiver is in step afterwards. */
  lemma PairExact(amp: nat, tx: TxState, rx: RxState, groups: seq<Group>, sf: nat)
    requires InStep(amp, tx, rx) || (Waiting(amp, tx, rx) && tx.pc == 0)
    requires |groups| == GroupCount(tx.pc) && forall g :: g in groups ==> Carried(g)
    ensures var p := TxPair(tx, groups, sf);
      && RxOut(rx, p, false) == groups
      && InStep(amp, TxNext(amp, tx, groups), RxNext(amp, rx, p, false))
      && RxEvents(rx, p, false).itb == 0 && !RxEvents(rx, p, false).bad
      && (tx.pc == 0 ==>
            && !RxEvents(rx, p, false).amErr && RxNext(amp, rx, p, false).sf == sf % 8
            && RxNext(amp, rx, p, false).miss == 0)
  {
    hide AmFixed, Line, Received, StatusBits, Carried, HasMarker, PrbsState;
    var p := TxPair(tx, groups, sf);
    ReceivedLine(tx.h, groups);
    GroupsExact(Received(tx.h, Line(tx.h, groups), |groups|), groups);
    if tx.pc == 0 {
      MarkerPair(tx, groups, sf);
    } else {
      assert p[257 * 0..] == p;
      assert p[0..] == p;
    }
  }

  /** A data pair received out of lock: nothing comes out, and if it does not look like a marker the
      receiver waits on with the transmitter's history, whatever its own was before. */
  lemma PairSkipped(amp: nat, tx: TxState, rx: RxState, groups: seq<Group>, sf: nat)
    requires TxValid(amp, tx) && !rx.lock && |rx.h| == 58 && tx.pc != 0 && |groups| == GroupCount(tx.pc)
    requires !HasMarker(TxPair(tx, groups, sf))
    ensures var p := TxPair(tx, groups, sf);
            RxOut(rx, p, false) == [] && Waiting(amp, TxNext(amp, tx, groups), RxNext(amp, rx, p, false))
  {
    hide Line, HasMarker;
    var p := TxPair(tx, groups, sf);
    var m := 257 * AMBLK;
    assert p == p[..m] + p[m..];
    HistoryConcat(tx.h, p[..m], p[m..]);
    SelfSynchronising(History(tx.h, p[..m]), rx.h, p[m..]);
  }

  // ---------- whole runs ----------

  /** The symbols of a pair on the lanes. */
  type Lanes = s: seq<Symbol> | |s| == 1088 witness seq(1088, i => 0)

  /** One pair of a run: what was sent with it, and the symbols that arrived. */
  datatype Step = Step(groups: seq<Group>, sf: nat, got: Lanes)

  /** The run is one the transmitter can send from this state, over a channel that damages at most
      15 symbols of any codeword. */
  ghost predicate CleanRun(amp: nat, tx: TxState, steps: seq<Step>)
    requires TxValid(amp, tx)
    decreases |steps|
  {
    steps == [] ||
    (var s := steps[0];
     && |s.groups| == GroupCount(tx.pc)
     && (forall g :: g in s.groups ==> Carried(g))
     && Delivered(TxSymbols(tx, s.groups, s.sf), s.got)
     && CleanRun(amp, TxNext(amp, tx, s.groups), steps[1..]))
  }

  /** Everything that comes out of the receiver over a run. */
  ghost function RxRun(amp: nat, rx: RxState, steps: seq<Step>): seq<Group>
    requires amp >= 1 && |rx.h| == 58
    decreases |steps|
  {
    if steps == [] then []
    else
      var (p, bad) := RxPair(steps[0].got);
      RxOut(rx, p, bad) + RxRun(amp, RxNext(amp, rx, p, bad), steps[1..])
  }

  /** Everything that was sent over a run. */
  function Sent(steps: seq<Step>): seq<Group> {
    if steps == [] then [] else steps[0].groups + Sent(steps[1..])
  }

  /** Once in step, the receiver yields exactly what is sent. */
  lemma {:induction false} InStepRun(amp: nat, tx: TxState, rx: RxState, steps: seq<Step>)
    requires InStep(amp, tx, rx) && CleanRun(amp, tx, steps)
    ensures RxRun(amp, rx, steps) == Sent(steps)
    decreases |steps|
  {
    hide Carried, TxPair, Split, Interleaved, RxOut, RxNext, TxNext, Codeword, RxPair;
    if steps != [] {
      var s := steps[0];
      var p := TxPair(tx, s.groups, s.sf);
      PairRecovered(tx, s.groups, s.sf, s.got);
      PairExact(amp, tx, rx, s.groups, s.sf);
      InStepRun(amp, TxNext(amp, tx, s.groups), RxNext(amp, rx, p, false), steps[1..]);
    }
  }

  /** Link identity: transmitter and receiver both from reset. Every group sent comes out, once, in
      order and unchanged, and nothing else does. */
  lemma LinkIdentity(amp: nat, steps: seq<Step>)
    requires amp >= 1 && CleanRun(amp, TX_RESET, steps)
    ensures RxRun(amp, RX_RESET, steps) == Sent(steps)
  {
    hide Carried, TxPair, Split, Interleaved, RxOut, RxNext, TxNext, Codeword, RxPair;
    WaitingRun(amp, TX_RESET, RX_RESET, steps);
  }

  /** A waiting receiver at a marker pair. */
  lemma WaitingRun(amp: nat, tx: TxState, rx: RxState, steps: seq<Step>)
    requires Waiting(amp, tx, rx) && tx.pc == 0 && CleanRun(amp, tx, steps)
    ensures RxRun(amp, rx, steps) == Sent(steps)
  {
    hide Carried, TxPair, Split, Interleaved, RxOut, RxNext, TxNext, Codeword, RxPair;
    if steps != [] {
      var s := steps[0];
      var p := TxPair(tx, s.groups, s.sf);
      PairRecovered(tx, s.groups, s.sf, s.got);
      PairExact(amp, tx, rx, s.groups, s.sf);
      InStepRun(amp, TxNext(amp, tx, s.groups), RxNext(amp, rx, p, false), steps[1..]);
    }
  }

  /** The steps from the first marker pair on. */
  function FromMarker(amp: nat, pc: nat, steps: seq<Step>): seq<Step>
    requires amp >= 1
    decreases |steps|
  {
    if steps == [] || pc == 0 then steps else FromMarker(amp, (pc + 1) % amp, steps[1..])
  }

  /** No data pair before the first marker pair happens to begin with the marker bits. */
  ghost predicate NoFalseMarker(amp: nat, tx: TxState, steps: seq<Step>)
    requires TxValid(amp, tx) && CleanRun(amp, tx, steps)
    decreases |steps|
  {
    || steps == [] || tx.pc == 0
    || (!HasMarker(TxPair(tx, steps[0].groups, steps[0].sf))
        && NoFalseMarker(amp, TxNext(amp, tx, steps[0].groups), steps[1..]))
  }

  lemma NextPlace(amp: nat, tx: TxState, groups: seq<Group>)
    requires TxValid(amp, tx)
    ensures TxNext(amp, tx, groups).pc == (tx.pc + 1) % amp
  {}

  /** A receiver that joins a running stream, with any line history, and sees at least one data pair
      first: it yields exactly what is sent from the first marker pair on. */
  lemma {:induction false} LateJoin(amp: nat, tx: TxState, rx: RxState, steps: seq<Step>)
    requires TxValid(amp, tx) && !rx.lock && |rx.h| == 58
    requires tx.pc != 0 || rx.h == tx.h
    requires CleanRun(amp, tx, steps) && NoFalseMarker(amp, tx, steps)
    ensures RxRun(amp, rx, steps) == Sent(FromMarker(amp, tx.pc, steps))
    decreases |steps|
  {
    hide Carried, TxPair, TxSymbols, RxOut, RxNext, RxPair, HasMarker, TxNext;
    if steps != [] {
      if tx.pc == 0 {
        WaitingRun(amp, tx, rx, steps);
      } else {
        var s := steps[0];
        var p := TxPair(tx, s.groups, s.sf);
        PairRecovered(tx, s.groups, s.sf, s.got);
        PairSkipped(amp, tx, rx, s.groups, s.sf);
        NextPlace(amp, tx, s.groups);
        LateJoin(amp, TxNext(amp, tx, s.groups), RxNext(amp, rx, p, false), steps[1..]);
      }
    }
  }

  // ---------- damage beyond repair ----------

  /** Locked at the transmitter's place of the period, with any line history. */
  ghost predicate Locked(amp: nat, tx: TxState, rx: RxState) {
    TxValid(amp, tx) && rx.lock && rx.pc == tx.pc && |rx.h| == 58 && rx.miss < 3
  }

  /** Whatever arrives in place of a pair, a locked receiver keeps its place in the period, and loses
      lock exactly when a repaired pair lacks its marker for the third time in a row. */
  lemma AnyPairKeepsPlace(amp: nat, tx: TxState, rx: RxState, groups: seq<Group>, p: Pair, bad: bool)
    requires Locked(amp, tx, rx)
    ensures var r := RxNext(amp, rx, p, bad);
      && (r.lock ==> Locked(amp, TxNext(amp, tx, groups), r))
      && (!r.lock <==> rx.pc == 0 && rx.miss == 2 && !bad && !HasMarker(p))
      && (bad ==> forall i, j :: 0 <= i < |RxOut(rx, p, bad)| && 0 <= j < 4 ==> RxOut(rx, p, bad)[i][j][..2] == SH_ERR)
  {
    hide HasMarker, Line, Received, StatusBits, PrbsState;
  }

  /** The groups after the first of a line do not depend on the receiver's history. */
  lemma {:induction false} ReceivedAnyHistory(h1: Bits, h2: Bits, line: Bits, n: nat)
    requires |h1| == |h2| == 58 && 257 * n <= |line|
    ensures forall i :: 1 <= i < n ==> Received(h1, line, n)[i] == Received(h2, line, n)[i]
  {
    hide RevTranscode, Descrambled, History;
    if n > 0 {
      ReceivedAnyHistory(h1, h2, line, n - 1);
      var before := line[..257 * (n - 1)];
      if n > 1 {
        SelfSynchronising(h1, h2, before);
      }
    }
  }

  /** After any damage, or when joining at a marker pair, one clean pair is enough: all of its groups
      but the first are exact, and the receiver is in step afterwards. */
  lemma Resynchronises(amp: nat, tx: TxState, rx: RxState, groups: seq<Group>, sf: nat)
    requires Locked(amp, tx, rx) || (TxValid(amp, tx) && !rx.lock && |rx.h| == 58 && tx.pc == 0)
    requires |groups| == GroupCount(tx.pc) && forall g :: g in groups ==> Carried(g)
    ensures var p := TxPair(tx, groups, sf);
      && |RxOut(rx, p, false)| == |groups|
      && (forall i :: 1 <= i < |groups| ==> RxOut(rx, p, false)[i] == groups[i])
      && InStep(amp, TxNext(amp, tx, groups), RxNext(amp, rx, p, false))
  {
    hide AmFixed, Line, Received, StatusBits, Carried, HasMarker, PrbsState;
    var p := TxPair(tx, groups, sf);
    var line := Line(tx.h, groups);
    ReceivedLine(tx.h, groups);
    ReceivedAnyHistory(tx.h, rx.h, line, |groups|);
    SelfSynchronising(tx.h, rx.h, line);
    if tx.pc == 0 {
      MarkerPair(tx, groups, sf);
    } else {
      assert p[0..] == p;
    }
  }
}
