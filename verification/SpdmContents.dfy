/** What the responses of scripts/spdm/spdm_ref.py say, read from their bytes: every field of every response that has
    one meaning to the requester. */
module SpdmContents {
  import opened Arithmetic
  import opened Options
  import opened BitFields
  import opened KeyCodec
  import opened Spdm
  import opened SpdmRuns
  import opened SpdmLengths

  // ---------- measurement records ----------

  /** Block b carries measurement i: its number, which counts from 1, its type, and its value. */
  predicate BlockHolds(cfg: Config, i: nat, b: Bytes)
    requires i < |cfg.mType| && i < |cfg.mVal|
  {
    && |b| == 55 && Field(b, 0) == i + 1 && b[1] == 1 && FromLittle(b[2..4]) == 51 && b[4] == cfg.mType[i]
    && FromLittle(b[5..7]) == 48 && b[7..] == cfg.mVal[i]
  }

  /** The k-th piece of 55 bytes. */
  function BlockAt(rec: Bytes, k: nat): Bytes
    requires 55 * k + 55 <= |rec|
  {
    rec[55 * k..55 * k + 55]
  }

  /** The record carries the measurements idx, in that order. */
  ghost predicate RecordHolds(cfg: Config, idx: seq<nat>, rec: Bytes) {
    && |rec| == 55 * |idx|
    && forall k :: 0 <= k < |idx| ==>
      idx[k] < |cfg.mType| && idx[k] < |cfg.mVal| && BlockHolds(cfg, idx[k], BlockAt(rec, k))
  }

  /** idx lists s in ascending order. */
  ghost predicate Lists(idx: seq<nat>, s: set<nat>) {
    && (forall k, m :: 0 <= k < m < |idx| ==> idx[k] < idx[m])
    && forall i :: i in idx <==> i in s
  }

  /** The enabled measurements, those outside the trusted base left out if asked. */
  ghost function EnabledIn(cfg: Config, n: nat, tcbOnly: bool): set<nat> {
    set i: nat | i < n && BitAt(cfg.mEn, i) == 1 && (tcbOnly ==> BitAt(cfg.mTcb, i) == 1)
  }

  lemma {:induction false} EnabledLists(cfg: Config, n: nat, tcbOnly: bool)
    ensures Lists(Enabled(cfg, n, tcbOnly), EnabledIn(cfg, n, tcbOnly))
  {
    if n > 0 {
      EnabledLists(cfg, n - 1, tcbOnly);
      var l := Enabled(cfg, n - 1, tcbOnly);
      var last := BitAt(cfg.mEn, n - 1) == 1 && (!tcbOnly || BitAt(cfg.mTcb, n - 1) == 1);
      hide BitAt;
      var s, t := EnabledIn(cfg, n - 1, tcbOnly), EnabledIn(cfg, n, tcbOnly);
      assert t == if last then s + {n - 1} else s;
      hide EnabledIn, Enabled;
      if last {
        ListsMore(l, s, n - 1);
      }
    }
  }

  lemma ListsMore(l: seq<nat>, s: set<nat>, n: nat)
    requires Lists(l, s) && forall k :: 0 <= k < |l| ==> l[k] < n
    ensures Lists(l + [n], s + {n})
  {
    var m := l + [n];
    forall i
      ensures i in m <==> i in s + {n}
    {
      assert i in m <==> i in l || i == n;
    }
  }

  lemma BlockIs(cfg: Config, nm: nat, i: nat)
    requires cfg.Valid(nm) && i < nm < 256
    ensures BlockHolds(cfg, i, Block(cfg, nm, i))
  {
    TwoBytes(51);
    TwoBytes(48);
    hide FromLittle, LittleBytes;
    var b := Block(cfg, nm, i);
    assert b[2..4] == U16(51) && b[5..7] == U16(48) && b[7..] == cfg.mVal[i];
  }

  lemma {:induction false} BlockOf(cfg: Config, nm: nat, sel: seq<nat>, k: nat)
    requires cfg.Valid(nm) && nm < 256 && (forall i :: 0 <= i < |sel| ==> sel[i] < nm) && k < |sel|
    ensures BlockAt(Blocks(cfg, nm, sel), k) == Block(cfg, nm, sel[k])
    decreases k
  {
    hide Block;
    var rec, rest := Blocks(cfg, nm, sel), Blocks(cfg, nm, sel[1..]);
    if k > 0 {
      BlockOf(cfg, nm, sel[1..], k - 1);
      var n := 55 * (k - 1);
      assert rec[55 * k..55 * k + 55] == rest[n..n + 55];
    }
  }

  lemma BlocksHold(cfg: Config, nm: nat, sel: seq<nat>)
    requires cfg.Valid(nm) && nm < 256 && forall i :: 0 <= i < |sel| ==> sel[i] < nm
    ensures RecordHolds(cfg, sel, Blocks(cfg, nm, sel))
  {
    hide Blocks, Block, BlockHolds, BlockAt;
    forall k | 0 <= k < |sel|
      ensures BlockHolds(cfg, sel[k], BlockAt(Blocks(cfg, nm, sel), k))
    {
      BlockOf(cfg, nm, sel, k);
      BlockIs(cfg, nm, sel[k]);
    }
  }

  // ---------- the responses ----------

  /** MEASUREMENTS: the record has the block of the measurement that was asked for, or those of all enabled ones, or
      none; the nonce follows. */
  ghost predicate MeasurementsSay(s: State, op: nat, nonce: Bytes, r: Bytes) {
    && |r| >= 8 && r[0] == 0x12 && r[1] == 0x60 && r[3] == 0
    && var n := 55 * Field(r, 4);
       && |r| >= n + 40 && r[8 + n..40 + n] == nonce
       && RecordSays(s, op, r[8..8 + n])
  }

  ghost predicate RecordSays(s: State, op: nat, rec: Bytes) {
    exists idx :: RecordHolds(s.cfg, idx, rec) && IsSelection(s, op, idx)
  }

  ghost predicate IsSelection(s: State, op: nat, idx: seq<nat>) {
    if op == 0 then idx == []
    else if op == 0xFF then Lists(idx, EnabledIn(s.cfg, s.nm, false))
    else idx == [op - 1]
  }

  /** CHALLENGE_AUTH: the hash of the chain, the nonce, and the hash of a record of all enabled measurements, or of
      those in the trusted base. */
  ghost predicate ChallengeSays(env: Env, s: State, op: Byte, nonce: Bytes, r: Bytes) {
    && |r| >= 84 && r[..4] == [0x12, 0x03, 0, 1] && r[4..52] == env.sha384(s.cfg.cc) && r[52..84] == nonce
    && (op != 0 ==>
          |r| >= 132 && exists idx, rec :: Lists(idx, EnabledIn(s.cfg, s.nm, op != 0xFF))
                                    && RecordHolds(s.cfg, idx, rec) && r[84..132] == env.sha384(rec))
  }

  ghost predicate CapabilitiesSay(s: State, r: Bytes) {
    && |r| == 20 && r[..5] == [0x12, 0x61, 0, 0, 0] && r[5] == s.cfg.ctExp && r[6] == r[7] == 0
    && FromLittle(r[8..12]) == 22 && FromLittle(r[12..16]) == FromLittle(r[16..20]) == s.DtsMax()
  }

  /** ALGORITHMS: what was selected, from the bits of the request. */
  ghost predicate AlgorithmsSay(s: State, q: Bytes, r: Bytes)
    requires |q| >= 32 && 32 + 4 * q[28] <= |q|
  {
    var meas, hash := q[6] % 2 == 1, FromLittle(q[12..16]) / 16 % 2 == 1;
    var asym := exists i: nat :: i < q[28] && FromLittle(q[32 + 4 * i..36 + 4 * i]) == s.cfg.asymId;
    && |r| == (if asym then 40 else 36) && r[0] == 0x12 && r[1] == 0x63 && r[2] == r[3] == r[7] == 0
    && Field(r, 6) == (if meas then 1 else 0) && FromLittle(r[8..12]) == (if meas then 32 else 0)
    && FromLittle(r[12..16]) == 0 && FromLittle(r[16..20]) == (if hash then 16 else 0)
    && r[20..32] == [0, 0, 0, 0, 0, 0, 0, 0, 0, 0, 0, 0]
    && Field(r, 32) == (if asym then 1 else 0) && r[33] == r[34] == r[35] == 0
    && (asym ==> FromLittle(r[36..40]) == s.cfg.asymId)
  }

  /** CERTIFICATE: as much of the chain from the offset as was asked for, as there is, and as fits. */
  ghost predicate CertificateSays(s: State, q: Bytes, r: Bytes)
    requires |q| == 8
  {
    var off, ln := FromLittle(q[4..6]), FromLittle(q[6..8]);
    && off < |s.cfg.cc| && |r| >= 8 && r[..4] == [0x12, 0x02, 0, 0]
    && var n := |r| - 8;
       && n <= ln && off + n <= |s.cfg.cc| && n + 8 <= s.conn.dts
       && (n == ln || off + n == |s.cfg.cc| || n + 8 == s.conn.dts)
       && r[8..] == s.cfg.cc[off..off + n]
  }

  ghost predicate DigestsSay(env: Env, s: State, r: Bytes) {
    r == if |s.cfg.cc| != 0 && s.key.Some? then [0x12, 0x01, 0, 1] + env.sha384(s.cfg.cc) else [0x12, 0x01, 0, 0]
  }

  /** What an accepted request is answered with. */
  ghost predicate Says(env: Env, s: State, q: Bytes, nonce: Bytes, r: Bytes) {
    && |q| >= 4
    && (q[1] == 0x84 ==> r == [0x10, 0x04, 0, 0, 0, 1, 0x00, 0x12])
    && (q[1] == 0xE1 ==> CapabilitiesSay(s, r))
    && (q[1] == 0xE3 ==> |q| >= 32 && 32 + 4 * q[28] <= |q| && AlgorithmsSay(s, q, r))
    && (q[1] == 0x81 ==> DigestsSay(env, s, r))
    && (q[1] == 0x82 ==> |q| == 8 && CertificateSays(s, q, r))
    && (q[1] == 0x83 ==> ChallengeSays(env, s, q[3], nonce, r))
    && (q[1] == 0xE0 ==> MeasurementsSay(s, q[3], nonce, r))
  }

  lemma VersionSays(s: State, q: Bytes)
    ensures OnVersion(s, q).1 == Some([0x10, 0x04, 0, 0, 0, 1, 0x00, 0x12])
  {
    TwoLittle(0x1200);
    hide LittleBytes;
    assert 0x1200 % 256 == 0 && 0x1200 / 256 % 256 == 0x12;
    assert U16(0x1200) == [0, 0x12];
    assert [0x10, 0x04, 0, 0, 0, 1] + [0, 0x12] == [0x10, 0x04, 0, 0, 0, 1, 0, 0x12];
  }

  lemma TwoLittle(v: nat)
    ensures LittleBytes(v, 2) == [v % 256, v / 256 % 256]
  {
    assert LittleBytes(v / 256, 1) == [v / 256 % 256] + LittleBytes(v / 256 / 256, 0);
  }

  lemma FourByteValue(v: nat)
    requires v < 0x1_0000_0000
    ensures FromLittle(U32(v)) == v
  {
    FourBytes();
    FromLittleBytes(v, 4);
  }

  lemma CapabilitiesAre(s: State, q: Bytes)
    requires |q| == 20 && s.nm < 256
    ensures CapabilitiesSay(s, OnCapabilities(s, q).1.value)
  {
    FourByteValue(22);
    FourByteValue(s.DtsMax());
    hide FromLittle, LittleBytes;
    var r := OnCapabilities(s, q).1.value;
    assert r[8..12] == U32(RSP_FLAGS) && r[12..16] == U32(s.DtsMax()) && r[16..20] == U32(s.DtsMax());
  }

  lemma DigestsAre(env: Env, s: State, q: Bytes)
    requires env.Valid()
    ensures DigestsSay(env, s, OnDigests(env, s, q).1.value)
  {}

  lemma CertificateIs(s: State, q: Bytes)
    requires |q| == 8 && FromLittle(q[4..6]) < |s.cfg.cc| && s.conn.dts >= 8
    ensures var r := OnCertificate(s, q).1; r.Some? ==> CertificateSays(s, q, r.value)
  {
    hide FromLittle, LittleBytes;
  }

  lemma MeasurementsAre(s: State, op: Byte, nonce: Bytes)
    requires s.cfg.Valid(s.nm) && s.nm < 256 && (op == 0 || op == 0xFF || op <= s.nm) && |nonce| == 32
    ensures MeasurementsSay(s, op, nonce, MeasurementsBody(s, op, nonce))
  {
    var sel := Selection(s, op);
    var b, rec := MeasurementsBody(s, op, nonce), Blocks(s.cfg, s.nm, sel);
    BlocksHold(s.cfg, s.nm, sel);
    EnabledLists(s.cfg, s.nm, false);
    assert IsSelection(s, op, sel);
    hide Blocks, RecordHolds, IsSelection, LittleBytes, Enabled;
    assert RecordSays(s, op, rec);
    hide RecordSays, U16;
    var head := [0x12, 0x60, if op == 0 then |Enabled(s.cfg, s.nm, false)| else 0, 0, |sel|];
    assert b == head + LittleBytes(|rec|, 3) + rec + nonce + U16(0);
    hide Selection, MeasurementsBody;
    RecordBetween(s, op, head, LittleBytes(|rec|, 3), rec, nonce, U16(0));
  }

  lemma RecordBetween(s: State, op: Byte, head: Bytes, len: Bytes, rec: Bytes, nonce: Bytes, last: Bytes)
    requires |head| == 5 && |len| == 3 && |nonce| == 32 && |last| == 2 && RecordSays(s, op, rec)
    requires head[0] == 0x12 && head[1] == 0x60 && head[3] == 0 && |rec| == 55 * Field(head, 4)
    ensures MeasurementsSay(s, op, nonce, head + len + rec + nonce + last)
  {
    hide RecordSays;
    NonceAfter(head + len, rec, nonce, last);
    RecordParts(head, len, rec, nonce, last);
    var b := head + len + rec + nonce + last;
    assert b[..8] == head + len;
    assert b[0] == b[..8][0] && b[1] == b[..8][1] && b[3] == b[..8][3];
  }

  lemma NonceAfter(head: Bytes, rec: Bytes, nonce: Bytes, last: Bytes)
    requires |head| == 8 && |nonce| == 32
    ensures var b, n := head + rec + nonce + last, |rec|; |b| >= n + 40 && b[8 + n..40 + n] == nonce && b[..8] == head
  {}

  lemma MeasurementsSigned(s: State, op: Byte, nonce: Bytes, b: Bytes, sig: Bytes)
    requires MeasurementsSay(s, op, nonce, b)
    ensures MeasurementsSay(s, op, nonce, b + sig)
  {
    hide RecordSays;
    var n := 55 * Field(b, 4);
    assert (b + sig)[8..8 + n] == b[8..8 + n] && (b + sig)[8 + n..40 + n] == b[8 + n..40 + n];
  }

  lemma ChallengeIs(env: Env, s: State, op: Byte, nonce: Bytes)
    requires env.Valid() && s.cfg.Valid(s.nm) && s.nm < 256 && |nonce| == 32
    ensures ChallengeSays(env, s, op, nonce, ChallengeBody(env, s, op, nonce))
  {
    var sel := Enabled(s.cfg, s.nm, op != 0xFF);
    var rec := Blocks(s.cfg, s.nm, sel);
    BlocksHold(s.cfg, s.nm, sel);
    EnabledLists(s.cfg, s.nm, op != 0xFF);
    hide Blocks, RecordHolds, Lists, LittleBytes, Enabled;
    var b := ChallengeBody(env, s, op, nonce);
    assert b[4..52] == env.sha384(s.cfg.cc) && b[52..84] == nonce;
    if op != 0 {
      assert b[84..132] == env.sha384(rec);
    }
  }

  lemma ChallengeSigned(env: Env, s: State, op: Byte, nonce: Bytes, b: Bytes, sig: Bytes)
    requires ChallengeSays(env, s, op, nonce, b)
    ensures ChallengeSays(env, s, op, nonce, b + sig)
  {
    hide RecordHolds, Lists;
    assert (b + sig)[..4] == b[..4] && (b + sig)[4..52] == b[4..52] && (b + sig)[52..84] == b[52..84];
    if op != 0 {
      assert (b + sig)[84..132] == b[84..132];
    }
  }

  lemma BitFour(v: nat)
    ensures BitAt(v, 4) == v / 16 % 2
  {
    assert BitAt(v, 4) == BitAt(v / 2, 3) == BitAt(v / 2 / 2, 2) == BitAt(v / 2 / 2 / 2, 1) == v / 2 / 2 / 2 / 2 % 2;
    assert v / 2 / 2 / 2 / 2 == v / 16;
  }

  /** The pieces of ALGORITHMS, where they are. */
  lemma Pieces(a: Bytes, b: Bytes, c: Bytes, d: Bytes, e: Bytes, f: Bytes, g: Bytes, h: Bytes, i: Bytes)
    requires |a| == |d| == |e| == |f| == |h| == 4 && |b| == |c| == 2 && |g| == 12 && (|i| == 0 || |i| == 4)
    ensures var r := a + b + c + d + e + f + g + h + i;
      && |r| == 36 + |i| && r[..4] == a && r[6..8] == c && r[8..12] == d && r[12..16] == e && r[16..20] == f
      && r[20..32] == g && r[32..36] == h && (|i| == 4 ==> r[36..40] == i)
  {
    var x, y := a + b + c + d, e + f + g + h + i;
    assert a + b + c + d + e + f + g + h + i == x + y by { Grouped(x, e, f, g, h, i); }
    assert y[..4] == e && y[4..8] == f && y[8..20] == g && y[20..24] == h && y[24..] == i;
    assert x[..4] == a && x[6..8] == c && x[8..12] == d;
    var r := x + y;
    assert r[..12] == x && r[12..] == y;
    assert r[..4] == x[..4] && r[6..8] == x[6..8] && r[8..12] == x[8..12];
    assert r[12..16] == y[..4] && r[16..20] == y[4..8] && r[20..32] == y[8..20] && r[32..36] == y[20..24];
  }

  lemma Grouped(x: Bytes, e: Bytes, f: Bytes, g: Bytes, h: Bytes, i: Bytes)
    ensures x + e + f + g + h + i == x + (e + f + g + h + i)
  {
    assert x + e + f == x + (e + f);
    assert x + (e + f) + g == x + (e + f + g);
    assert x + (e + f + g) + h == x + (e + f + g + h);
  }

  lemma AlgorithmsAre(s: State, q: Bytes)
    requires |q| >= 32 && 32 + 4 * q[28] <= |q| && s.cfg.asymId < 0x1_0000_0000
    ensures AlgorithmsSay(s, q, OnAlgorithms(s, q).1.value)
  {
    var hash, asym, meas := BitAt(FromLittle(q[12..16]), 4) == 1, Offers(q, q[28], s.cfg.asymId), q[6] % 2 == 1;
    BitFour(FromLittle(q[12..16]));
    assert asym <==> exists i: nat :: i < q[28] && FromLittle(q[32 + 4 * i..36 + 4 * i]) == s.cfg.asymId;
    assert OnAlgorithms(s, q).1 == Some(AlgorithmsResponse(s, hash, asym, meas));
    hide FromLittle, BitAt, AlgorithmsResponse, Offers, OnAlgorithms;
    AlgorithmsRead(s, hash, asym, meas);
  }

  lemma AlgorithmsRead(s: State, hash: bool, asym: bool, meas: bool)
    requires s.cfg.asymId < 0x1_0000_0000
    ensures var r := AlgorithmsResponse(s, hash, asym, meas);
      && |r| == (if asym then 40 else 36) && r[0] == 0x12 && r[1] == 0x63 && r[2] == r[3] == r[7] == 0
      && Field(r, 6) == (if meas then 1 else 0) && FromLittle(r[8..12]) == (if meas then 32 else 0)
      && FromLittle(r[12..16]) == 0 && FromLittle(r[16..20]) == (if hash then 16 else 0)
      && r[20..32] == [0, 0, 0, 0, 0, 0, 0, 0, 0, 0, 0, 0]
      && Field(r, 32) == (if asym then 1 else 0) && r[33] == r[34] == r[35] == 0
      && (asym ==> FromLittle(r[36..40]) == s.cfg.asymId)
  {
    FourByteValue(0);
    FourByteValue(32);
    FourByteValue(16);
    FourByteValue(s.cfg.asymId);
    assert ZeroBytes(12) == [0, 0, 0, 0, 0, 0, 0, 0, 0, 0, 0, 0];
    AlgorithmsShape(s, hash, asym, meas);
    hide FromLittle, U16, U32, ZeroBytes, AlgorithmsResponse;
    var a, c, h := [0x12, 0x63, 0, 0], [if meas then 1 else 0, 0], [if asym then 1 else 0, 0, 0, 0];
    var r := AlgorithmsResponse(s, hash, asym, meas);
    Pieces(a, U16(if asym then 40 else 36), c, U32(if meas then MEAS_HASH_SHA3_384 else 0), U32(0),
           U32(if hash then BASE_HASH_SHA3_384 else 0), ZeroBytes(12), h, if asym then U32(s.cfg.asymId) else []);
    SingleBytes(r, a, c, h);
  }

  lemma SingleBytes(r: Bytes, a: Bytes, c: Bytes, h: Bytes)
    requires |r| >= 36 && r[..4] == a && r[6..8] == c && r[32..36] == h
    ensures r[0] == a[0] && r[1] == a[1] && r[2] == a[2] && r[3] == a[3] && r[6] == c[0] && r[7] == c[1]
    ensures r[32] == h[0] && r[33] == h[1] && r[34] == h[2] && r[35] == h[3]
  {
    assert r[6] == r[6..8][0] && r[7] == r[6..8][1] && r[0] == r[..4][0] && r[1] == r[..4][1];
    assert r[2] == r[..4][2] && r[3] == r[..4][3];
    assert r[32] == r[32..36][0] && r[33] == r[32..36][1] && r[34] == r[32..36][2] && r[35] == r[32..36][3];
  }

  lemma AlgorithmsShape(s: State, hash: bool, asym: bool, meas: bool)
    ensures AlgorithmsResponse(s, hash, asym, meas) == [0x12, 0x63, 0, 0] + U16(if asym then 40 else 36)
      + [if meas then 1 else 0, 0] + U32(if meas then MEAS_HASH_SHA3_384 else 0) + U32(0)
      + U32(if hash then BASE_HASH_SHA3_384 else 0) + ZeroBytes(12) + [if asym then 1 else 0, 0, 0, 0]
      + (if asym then U32(s.cfg.asymId) else [])
  {
    hide U16, U32, ZeroBytes;
  }

  lemma SignedChallenge(env: Env, s: State, q: Bytes, nonce: Bytes, rnd: Bytes)
    requires env.Valid() && s.Valid(env) && s.SlotOk() && |q| == 36 && |nonce| == 32
    ensures var r := OnChallenge(env, s, q, nonce, rnd).1; r.Some? ==> ChallengeSays(env, s, q[3], nonce, r.value)
  {
    hide SigLen, SkLen, IsGenerated, FromLittle, ChallengeBody, SignatureOf, ChallengeSays;
    ChallengeIs(env, s, q[3], nonce);
    KeyLength(env, s.key.value);
    var b := ChallengeBody(env, s, q[3], nonce);
    var sig := SignatureOf(env, s.key.value, CTX_CHAL, s.conn.vca + s.conn.tm + q + b, rnd);
    if sig.Some? {
      ChallengeSigned(env, s, q[3], nonce, b, sig.value);
    }
  }

  lemma SignedMeasurements(env: Env, s: State, q: Bytes, nonce: Bytes, rnd: Bytes)
    requires env.Valid() && s.Valid(env) && |q| >= 4 && (q[3] == 0 || q[3] == 0xFF || q[3] <= s.nm) && |nonce| == 32
    requires q[2] % 2 == 1 ==> s.SlotOk()
    ensures var r := OnMeasurements(env, s, q, nonce, rnd).1; r.Some? ==> MeasurementsSay(s, q[3], nonce, r.value)
  {
    hide SigLen, SkLen, IsGenerated, FromLittle, SignatureOf, MeasurementsSay;
    MeasurementsAre(s, q[3], nonce);
    hide MeasurementsBody;
    if q[2] % 2 == 1 {
      KeyLength(env, s.key.value);
      var b := MeasurementsBody(s, q[3], nonce);
      var sig := SignatureOf(env, s.key.value, CTX_MEAS, s.conn.vca + s.conn.tl + q + b, rnd);
      if sig.Some? {
        MeasurementsSigned(s, q[3], nonce, b, sig.value);
      }
    }
  }

  /** The answer to an accepted request says what the responder holds: version, capabilities, what was selected, the
      hash of the certificate chain, the portion of the chain, the hash of the enabled measurements, or exactly the
      measurements that were asked for. */
  lemma ResponsesSay(env: Env, s: State, q: Bytes, nonce: Bytes, rnd: Bytes)
    requires env.Valid() && Inv(env, s) && |nonce| == 32 && Check(s, q) == 0
    ensures var r := Answer(env, s, q, nonce, rnd).1; r.Some? ==> Says(env, s, q, nonce, r.value)
  {
    hide SigLen, SkLen, IsGenerated, FromLittle, OnVersion, OnCapabilities, OnAlgorithms, OnDigests, OnCertificate;
    hide OnChallenge, OnMeasurements, ErrorOf, BlockCount, CapabilitiesSay, AlgorithmsSay, DigestsSay, CertificateSays;
    hide ChallengeSays, MeasurementsSay;
    Passed(s, q);
    if q[1] == GET_VERSION {
      VersionSays(s, q);
    } else if q[1] == GET_CAPABILITIES {
      CapabilitiesAre(s, q);
    } else if q[1] == NEGOTIATE_ALGORITHMS {
      AlgorithmsAre(s, q);
    } else {
      PassedSizes(s, q);
      if q[1] == GET_DIGESTS {
        DigestsAre(env, s, q);
      } else if q[1] == GET_CERTIFICATE {
        CertificateIs(s, q);
      } else if q[1] == CHALLENGE {
        SignedChallenge(env, s, q, nonce, rnd);
      } else {
        SignedMeasurements(env, s, q, nonce, rnd);
      }
    }
    hide Check;
  }

  /** A request for one measurement is answered with its number, its type and its value, and no other is accepted. */
  lemma OneMeasurement(env: Env, s: State, q: Bytes, nonce: Bytes, rnd: Bytes)
    requires env.Valid() && Inv(env, s) && |nonce| == 32 && Check(s, q) == 0 && |q| >= 4
    requires q[1] == 0xE0 && 0 < q[3] < 0xFF && Answer(env, s, q, nonce, rnd).1.Some?
    ensures var r := Answer(env, s, q, nonce, rnd).1.value;
      && |r| >= 63 && q[3] <= s.nm && BitAt(s.cfg.mEn, q[3] - 1) == 1
      && r[8] == q[3] && r[12] == s.cfg.mType[q[3] - 1] && r[15..63] == s.cfg.mVal[q[3] - 1]
  {
    hide Answer, Check, Says, MeasurementsSay, IsGenerated, SkLen, FromLittle, BitAt;
    ResponsesSay(env, s, q, nonce, rnd);
    OneChecked(s, q);
    SaysMeasurement(env, s, q, nonce, Answer(env, s, q, nonce, rnd).1.value);
    OneBlock(s, q[3], nonce, Answer(env, s, q, nonce, rnd).1.value);
  }

  lemma SaysMeasurement(env: Env, s: State, q: Bytes, nonce: Bytes, r: Bytes)
    requires Says(env, s, q, nonce, r) && |q| >= 4 && q[1] == 0xE0
    ensures MeasurementsSay(s, q[3], nonce, r)
  {}

  lemma OneBlock(s: State, op: nat, nonce: Bytes, r: Bytes)
    requires 0 < op < 0xFF && MeasurementsSay(s, op, nonce, r)
    ensures op <= |s.cfg.mType| && op <= |s.cfg.mVal|
    ensures |r| >= 63 && Field(r, 8) == op && r[12] == s.cfg.mType[op - 1] && r[15..63] == s.cfg.mVal[op - 1]
  {
    hide FromLittle;
    var i := op - 1;
    var rec := r[8..8 + 55 * Field(r, 4)];
    assert RecordHolds(s.cfg, [i], rec);
    assert BlockHolds(s.cfg, [i][0], BlockAt(rec, 0));
    assert BlockAt(rec, 0) == r[8..63];
    assert r[8] == r[8..63][0] && r[12] == r[8..63][4] && r[15..63] == r[8..63][7..];
  }

  lemma OneChecked(s: State, q: Bytes)
    requires Check(s, q) == 0 && |q| >= 4 && q[1] == 0xE0 && 0 < q[3] < 0xFF
    ensures q[3] <= s.nm && BitAt(s.cfg.mEn, q[3] - 1) == 1
  {
    hide FromLittle, BitAt, BlockCount;
  }

  // ---------- what is signed ----------

  /** The bytes spell the text. */
  predicate Spells(b: Bytes, text: string) {
    |b| == |text| && forall i :: 0 <= i < |b| ==> b[i] == text[i] as int
  }

  lemma ContextsSpelled()
    ensures Spells(PREFIX, "dmtf-spdm-v1.2.*") && Spells(CTX_CHAL, "responder-challenge_auth signing")
    ensures Spells(CTX_MEAS, "responder-measurements signing")
  {}

  /** A signature covers two zero bytes, four times the prefix of the version, the context on 36 bytes with zeros in
      front, and the hash of the transcript. */
  lemma MessageSpelled(env: Env, ctx: Bytes, transcript: Bytes)
    requires env.Valid() && |ctx| <= 36
    ensures var m := SignedMessage(env, ctx, transcript);
      && |m| == 150 && m[0] == m[1] == 0
      && Spells(m[2..18], "dmtf-spdm-v1.2.*") && m[18..34] == m[34..50] == m[50..66] == m[2..18]
      && (forall i :: 66 <= i < 102 - |ctx| ==> m[i] == 0) && m[102 - |ctx|..102] == ctx
      && m[102..] == env.sha384(transcript)
  {
    var m := SignedMessage(env, ctx, transcript);
    ContextsSpelled();
    hide PREFIX, Spells;
    assert m[2..18] == PREFIX;
  }
}
