/** What the receiver of gen_framework.py (module CAN_top) makes of any line, whoever drives it: it takes the fields
    from the bits without the stuff bits, and it accepts exactly when the checksum is right. */
module CanHeard {
  import opened Arithmetic
  import opened Gf2
  import opened Can
  import opened CanLine

  /** The receiver after a line, bit after bit. */
  function Feed(r: Rx, line: Bits): (s: Rx)
    requires r.Valid()
    ensures s.Valid()
  {
    if line == [] then r else Sample(Feed(r, line[..|line| - 1]), line[|line| - 1])
  }

  /** The checksum field starts here. */
  function CheckAt(bits: Bits): nat
    requires |bits| >= 19
  {
    19 + 8 * ByteCount(bits[15..19])
  }

  /** Bit j of byte i of the data. */
  function DataAt(bits: Bits, i: nat, j: nat): bool
    requires 19 + 8 * i + j < |bits|
  {
    bits[19 + 8 * i + j]
  }

  /** The identifier and the length code are those of the bits. */
  predicate TookHeader(r: Rx, bits: Bits) {
    |bits| >= 19 && r.id == bits[1..12] && r.dlc == bits[15..19]
  }

  /** The first n data bits are in the memory. */
  ghost predicate TookData(r: Rx, bits: Bits, n: nat)
    requires r.Valid()
  {
    && n <= 64 && |bits| >= 19 + n
    && forall i, j :: 0 <= i < 8 && 0 <= j < 8 && 8 * i + j < n ==> r.mem[i][j] == DataAt(bits, i, j)
  }

  /** What the receiver holds inside the stuffed part. */
  ghost predicate Hears(r: Rx, h: Heard) {
    && r.Valid() && InField(r.stage) && h.last == r.last && h.run == r.run && h.bits != [] && !h.bits[0]
    && (if r.stage.Hdr? then
          && |h.bits| == 1 + r.bit && r.sh[18 - r.bit..] == h.bits[1..] && r.crc == CrcOf(h.bits[1..]) && !r.err
          && r.byte == 0
        else if r.stage.Data? then
          && TookHeader(r, h.bits) && !IsZero(r.dlc) && r.byte <= LastByte(r.dlc)
          && |h.bits| == 19 + 8 * r.byte + r.bit && TookData(r, h.bits, 8 * r.byte + r.bit)
          && r.crc == CrcOf(h.bits[1..]) && !r.err
        else
          && TookHeader(r, h.bits) && |h.bits| == CheckAt(h.bits) + r.bit && TookData(r, h.bits, 8 * ByteCount(r.dlc))
          && r.crc == CrcOf(h.bits[1..CheckAt(h.bits)]) && (r.err <==> h.bits[CheckAt(h.bits)..] != r.crc[..r.bit]))
  }

  /** What it holds behind the checksum. */
  ghost predicate Judged(r: Rx, bits: Bits)
    requires r.Valid()
  {
    && TookHeader(r, bits) && |bits| == CheckAt(bits) + 15 && TookData(r, bits, 8 * ByteCount(r.dlc))
    && (r.err <==> bits[CheckAt(bits)..] != CrcOf(bits[1..CheckAt(bits)]))
  }

  lemma HearFirst(r: Rx)
    requires r.Valid() && r.stage.Idle?
    ensures Hears(Sample(r, false), Destuffed([false]))
  {
    HearBit([], false);
    assert [] + [false] == [false];
    var s := Sample(r, false);
    assert s.sh[18..] == [] == [false][1..];
  }

  /** One more bit of the stuffed part. */
  function NextHeard(h: Heard, b: bool): Heard {
    if h.run == 5 then Heard(h.bits, b, 1) else Heard(h.bits + [b], b, if b == h.last then h.run + 1 else 1)
  }

  lemma HearStep(r: Rx, h: Heard, b: bool)
    requires Hears(r, h)
    ensures var s := Sample(r, b); var g := NextHeard(h, b);
      if InField(s.stage) then Hears(s, g) else s.stage.CrcDelim? && Judged(s, g.bits) && h.run != 5
  {
    hide CrcNext, IsZero, LastByte, ByteCount, CrcOf;
    if h.run == 5 {
      assert Sample(r, b) == r.(valid := false, run := 1, last := b);
    } else if r.stage.Hdr? {
      HearHdr(r, h, b);
    } else if r.stage.Data? {
      HearData(r, h, b);
    } else {
      HearCrc(r, h, b);
    }
  }

  lemma HearHdr(r: Rx, h: Heard, b: bool)
    requires Hears(r, h) && h.run != 5 && r.stage.Hdr?
    ensures InField(Sample(r, b).stage) && Hears(Sample(r, b), NextHeard(h, b))
  {
    hide CrcNext, IsZero, LastByte, CrcOf;
    var s, g := Sample(r, b), NextHeard(h, b);
    CrcMore(h.bits[1..], b);
    assert g.bits[1..] == h.bits[1..] + [b];
    assert (r.sh[1..] + [b])[17 - r.bit..] == r.sh[18 - r.bit..] + [b];
    if r.bit == 17 {
      NoBytes(s.dlc);
      hide ByteCount;
      HeaderTaken(r.sh, h.bits, b);
      if s.stage.Crc? {
        assert g.bits[1..19] == g.bits[1..];
      }
    }
  }

  lemma HeaderTaken(sh: Bits, bits: Bits, b: bool)
    requires |sh| == 18 && |bits| == 18 && sh[1..] == bits[1..]
    ensures sh[1..12] == (bits + [b])[1..12] && sh[15..] + [b] == (bits + [b])[15..19]
  {
    assert sh[1..12] == sh[1..][..11] && sh[15..] == sh[1..][14..];
    assert bits[1..12] == bits[1..][..11] && bits[15..] == bits[1..][14..];
  }

  lemma HearCrc(r: Rx, h: Heard, b: bool)
    requires Hears(r, h) && h.run != 5 && r.stage.Crc?
    ensures var s := Sample(r, b); var g := NextHeard(h, b);
      if InField(s.stage) then Hears(s, g) else s.stage.CrcDelim? && Judged(s, g.bits)
  {
    CrcTaken(r, b);
    hide CrcNext, IsZero, LastByte, CrcOf, ByteCount, Sample;
    var s, n := Sample(r, b), CheckAt(h.bits);
    CheckGrows(h.bits, b);
    SameEnds(h.bits[n..], b, r.crc[..r.bit], r.crc[r.bit]);
    assert TookData(s, h.bits + [b], 8 * ByteCount(r.dlc)) by { DataKept(r, s, h.bits, b, 8 * ByteCount(r.dlc)); }
  }

  /** A bit of the checksum, in the receiver. */
  lemma CrcTaken(r: Rx, b: bool)
    requires r.Valid() && r.stage.Crc? && r.run != 5
    ensures var s := Sample(r, b);
      && s.id == r.id && s.dlc == r.dlc && s.mem == r.mem && s.crc == r.crc && s.last == b
      && s.run == (if b == r.last then r.run + 1 else 1) && (s.err <==> r.err || b != r.crc[r.bit])
      && (if r.bit == 14 then s.stage.CrcDelim? else s.stage.Crc? && s.bit == r.bit + 1)
      && r.crc[..r.bit + 1] == r.crc[..r.bit] + [r.crc[r.bit]] && r.crc[..15] == r.crc
  {}

  lemma CheckGrows(bits: Bits, b: bool)
    requires |bits| >= 19 && |bits| >= CheckAt(bits)
    ensures var g := bits + [b]; var n := CheckAt(bits);
      && CheckAt(g) == n && g[15..19] == bits[15..19] && g[1..12] == bits[1..12]
      && g[1..n] == bits[1..n] && g[n..] == bits[n..] + [b]
  {
    hide ByteCount;
    assert (bits + [b])[15..19] == bits[15..19];
  }

  lemma DataKept(r: Rx, s: Rx, bits: Bits, b: bool, n: nat)
    requires r.Valid() && s.Valid() && s.mem == r.mem && TookData(r, bits, n)
    ensures TookData(s, bits + [b], n)
  {
    forall i, j | 0 <= i < 8 && 0 <= j < 8 && 8 * i + j < n
      ensures s.mem[i][j] == DataAt(bits + [b], i, j)
    {
      assert r.mem[i][j] == DataAt(bits, i, j);
    }
  }

  lemma SameEnds(a: Bits, x: bool, b: Bits, y: bool)
    requires |a| == |b|
    ensures a + [x] == b + [y] <==> a == b && x == y
  {
    if a + [x] == b + [y] {
      assert a == (a + [x])[..|a|] && b == (b + [y])[..|b|];
      assert (a + [x])[|a|] == x && (b + [y])[|b|] == y;
    }
  }

  lemma HearData(r: Rx, h: Heard, b: bool)
    requires Hears(r, h) && h.run != 5 && r.stage.Data?
    ensures InField(Sample(r, b).stage) && Hears(Sample(r, b), NextHeard(h, b))
  {
    hide CrcNext, IsZero, LastByte, CrcOf;
    NoBytes(r.dlc);
    hide ByteCount;
    var s, g := Sample(r, b), NextHeard(h, b);
    CrcMore(h.bits[1..], b);
    assert g.bits[1..] == h.bits[1..] + [b];
    assert g.bits[15..19] == h.bits[15..19] && g.bits[1..12] == h.bits[1..12];
    DataTaken(r, s, h, b);
    if s.stage.Crc? {
      assert g.bits[CheckAt(g.bits)..] == [] && s.crc[..0] == [];
      assert g.bits[1..CheckAt(g.bits)] == g.bits[1..];
    }
  }

  lemma DataTaken(r: Rx, s: Rx, h: Heard, b: bool)
    requires r.Valid() && s.Valid() && r.byte < 8 && r.bit < 8 && |h.bits| == 19 + 8 * r.byte + r.bit
    requires TookData(r, h.bits, 8 * r.byte + r.bit)
    requires s.mem == r.mem[r.byte := r.mem[r.byte][r.bit := b]]
    ensures TookData(s, h.bits + [b], 8 * r.byte + r.bit + 1)
  {
    forall i, j | 0 <= i < 8 && 0 <= j < 8 && 8 * i + j < 8 * r.byte + r.bit + 1
      ensures s.mem[i][j] == DataAt(h.bits + [b], i, j)
    {
      if i == r.byte && j == r.bit {
      } else {
        assert 8 * i + j < 8 * r.byte + r.bit;
        assert r.mem[i][j] == DataAt(h.bits, i, j);
      }
    }
  }

  // ---------- whole frames ----------

  /** A line that starts with a dominant bit and whose last bit is the last of as many bits, stuff bits not counted, as
      its length code asks for. */
  predicate IsFrame(line: Bits) {
    && line != [] && !line[0]
    && var bits := Destuffed(line).bits;
       && |bits| >= 19 && |bits| == CheckAt(bits) + 15 && |Destuffed(line[..|line| - 1]).bits| < |bits|
  }

  lemma {:induction false} HeardGrows(line: Bits, m: nat)
    requires m <= |line|
    ensures Destuffed(line[..m]).bits <= Destuffed(line).bits
    decreases |line| - m
  {
    if m < |line| {
      var k := line[..m + 1];
      assert k[..m] == line[..m];
      HearBit(line[..m], line[m]);
      assert k == line[..m] + [line[m]];
      HeardGrows(line, m + 1);
    } else {
      assert line[..m] == line;
    }
  }

  lemma SameCheck(a: Bits, b: Bits)
    requires a <= b && |a| >= 19
    ensures CheckAt(a) == CheckAt(b)
  {
    assert a[15..19] == b[15..19];
  }

  /** A judged prefix leaves no bits to come. */
  lemma JudgedLast(line: Bits, m: nat, r: Rx)
    requires IsFrame(line) && 0 < m < |line| && r.Valid()
    ensures !Judged(r, Destuffed(line[..m]).bits)
  {
    hide Destuffed, ByteCount, CrcOf, TookData;
    var a, b := Destuffed(line[..m]).bits, Destuffed(line).bits;
    if Judged(r, a) {
      HeardGrows(line, m);
      var l := line[..|line| - 1];
      HeardGrows(l, m);
      assert l[..m] == line[..m];
      SameCheck(a, b);
      assert false;
    }
  }

  lemma NotYet(line: Bits, r: Rx)
    requires IsFrame(line)
    ensures !Hears(r, Destuffed(line))
  {
    hide Destuffed, CrcOf, TookData, IsZero, LastByte;
    var h := Destuffed(line);
    if Hears(r, h) {
      if r.stage.Data? {
        NoBytes(r.dlc);
      }
      hide ByteCount;
      assert false;
    }
  }

  lemma {:induction false} FeedPrefix(r: Rx, line: Bits, m: nat)
    requires r.Valid() && r.stage.Idle? && IsFrame(line) && 0 < m <= |line|
    ensures var s := Feed(r, line[..m]); var h := Destuffed(line[..m]);
      if m < |line| then Hears(s, h) else s.stage.CrcDelim? && Judged(s, h.bits)
    decreases m
  {
    hide Hears, Judged, Sample, Destuffed, CheckAt;
    var l := line[..m];
    if m == 1 {
      assert l == [false] && l[..0] == [];
      HearFirst(r);
      if |line| == 1 {
        assert line == [false];
        NotYet(line, Sample(r, false));
      }
    } else {
      FeedPrefix(r, line, m - 1);
      assert l[..m - 1] == line[..m - 1];
      HearBit(l[..m - 1], l[m - 1]);
      assert l == l[..m - 1] + [l[m - 1]];
      HearStep(Feed(r, l[..m - 1]), Destuffed(l[..m - 1]), l[m - 1]);
      if m < |line| {
        JudgedLast(line, m, Feed(r, l));
      } else {
        assert l == line;
        NotYet(line, Feed(r, l));
      }
    }
  }

  lemma FeedAppend(r: Rx, a: Bits, b: bool)
    requires r.Valid()
    ensures Feed(r, a + [b]) == Sample(Feed(r, a), b)
  {
    assert (a + [b])[..|a|] == a;
  }

  lemma {:induction false} FeedConcat(r: Rx, a: Bits, b: Bits)
    requires r.Valid()
    ensures Feed(r, a + b) == Feed(Feed(r, a), b)
    decreases |b|
  {
    hide Sample;
    if b == [] {
      assert a + b == a;
    } else {
      var n := |b| - 1;
      FeedConcat(r, a, b[..n]);
      assert a + b == (a + b[..n]) + [b[n]];
      FeedAppend(r, a + b[..n], b[n]);
    }
  }

  /** The receiver n bits behind the checksum: it acknowledges exactly without error, and after ten bits it is idle and
      says so. */
  predicate Ending(s: Rx, e: Rx, n: nat) {
    && e.id == s.id && e.dlc == s.dlc && e.mem == s.mem && e.err == s.err && (e.ack <==> n == 1 && !s.err)
    && (e.valid <==> n == 10 && !s.err)
    && e.stage == (if n == 1 then Ack else if n == 2 then AckDelim else if n < 10 then Eof else Idle)
    && (e.stage.Eof? ==> e.bit == n - 3)
  }

  lemma EndBit(s: Rx, e: Rx, n: nat, b: bool)
    requires e.Valid() && 1 <= n < 10 && Ending(s, e, n)
    ensures Ending(s, Sample(e, b), n + 1)
  {}

  lemma EndStarts(s: Rx, b: bool)
    requires s.Valid() && s.stage.CrcDelim?
    ensures Ending(s, Sample(s, b), 1)
  {}

  lemma {:induction false} EndOfFrame(s: Rx, tail: Bits)
    requires s.Valid() && s.stage.CrcDelim? && 0 < |tail| <= 10
    ensures Ending(s, Feed(s, tail), |tail|)
    decreases |tail|
  {
    hide Ending, Sample;
    var n := |tail| - 1;
    if n == 0 {
      assert tail[..0] == [];
      EndStarts(s, tail[0]);
    } else {
      EndOfFrame(s, tail[..n]);
      EndBit(s, Feed(s, tail[..n]), n, tail[n]);
    }
  }

  lemma {:induction false} NumberDetermines(a: Bits, b: Bits)
    requires |a| == |b| && Number(a) == Number(b)
    ensures a == b
    decreases |a|
  {
    if a != [] {
      var n := |a| - 1;
      NumberDetermines(a[..n], b[..n]);
      assert a == a[..n] + [a[n]] && b == b[..n] + [b[n]];
    }
  }

  /** Fifteen bits are the register exactly when they are the remainder. */
  lemma CheckMeans(b: Bits, c: Bits)
    requires |c| == 15
    ensures c == CrcOf(b) <==> IsRemainder(Number(b) * Pow2(15), CRC15, 15, Number(c))
  {
    hide Number, CrcOf, IsRemainder, Pow2;
    CrcIsRemainder(b);
    Exponents();
    if IsRemainder(Number(b) * Pow2(15), CRC15, 15, Number(c)) {
      RemainderUnique(Number(b) * Pow2(15), CRC15, 15, Number(c), Number(CrcOf(b)));
      NumberDetermines(c, CrcOf(b));
    }
  }

  /** For every stuffed line that has the form of a frame and every ten bits after it, an idle receiver takes the
      identifier, the length code and the data bytes from the bits without the stuff bits, and it acknowledges, clears
      its error flag and reports a frame if and only if the last fifteen bits are the remainder of all before them. */
  lemma ReceiverJudges(r: Rx, line: Bits, tail: Bits)
    requires r.Valid() && r.stage.Idle? && IsFrame(line) && |tail| == 10
    ensures var s := Feed(r, line + tail); var bits := Destuffed(line).bits; var n := CheckAt(bits);
      var good := IsRemainder(Number(bits[..n]) * Pow2(15), CRC15, 15, Number(bits[n..]));
      && s.stage.Idle? && s.id == bits[1..12] && s.dlc == bits[15..19] && TookData(s, bits, 8 * ByteCount(s.dlc))
      && (s.valid <==> good) && (s.err <==> !good) && (Feed(r, line + tail[..1]).ack <==> good)
  {
    assert line != [];
    hide *;
    FeedPrefix(r, line, |line|);
    assert line[..|line|] == line;
    var s := Feed(r, line);
    FeedConcat(r, line, tail);
    FeedConcat(r, line, tail[..1]);
    EndOfFrame(s, tail);
    EndOfFrame(s, tail[..1]);
    Ended(s, Feed(s, tail), Feed(s, tail[..1]));
    JudgedMeans(s, Feed(s, tail), line);
  }

  lemma Ended(s: Rx, e: Rx, a: Rx)
    requires Ending(s, e, 10) && Ending(s, a, 1)
    ensures e.id == s.id && e.dlc == s.dlc && e.mem == s.mem && e.stage.Idle?
    ensures e.valid == !s.err && e.err == s.err && a.ack == !s.err
  {}

  lemma JudgedMeans(r: Rx, e: Rx, line: Bits)
    requires IsFrame(line) && r.Valid() && e.Valid() && Judged(r, Destuffed(line).bits)
    requires e.id == r.id && e.dlc == r.dlc && e.mem == r.mem
    ensures var bits := Destuffed(line).bits; |bits| >= 19 && var n := CheckAt(bits);
      var good := n <= |bits| && IsRemainder(Number(bits[..n]) * Pow2(15), CRC15, 15, Number(bits[n..]));
      && n <= |bits| && e.id == bits[1..12] && e.dlc == bits[15..19] && TookData(e, bits, 8 * ByteCount(e.dlc))
      && (r.err <==> !good)
  {
    var bits := Destuffed(line).bits;
    FirstBit(line);
    hide Destuffed, CrcOf, IsRemainder, Number, Pow2;
    var n := CheckAt(bits);
    CheckMeans(bits[1..n], bits[n..]);
    assert bits[..n] == [false] + bits[1..n];
    LeadingZero(bits[1..n]);
  }

  lemma FirstBit(line: Bits)
    requires line != []
    ensures Destuffed(line).bits != [] && Destuffed(line).bits[0] == line[0]
  {
    HearBit([], line[0]);
    assert [] + [line[0]] == line[..1];
    HeardGrows(line, 1);
  }
}
