/** The responses of scripts/spdm/spdm_ref.py fit the agreed transfer size, and every length and count field in them is
    true. */
module SpdmLengths {
  import opened Arithmetic
  import opened BitFields
  import opened KeyCodec
  import opened Spdm
  import opened SpdmRuns

  /** A one-byte field as a number. */
  function Field(r: Bytes, i: nat): nat
    requires i < |r|
  {
    r[i]
  }

  /** The i-th block of a measurement record: its size field counts what follows it, its value size field the value. */
  predicate BlockTrue(rec: Bytes, i: nat)
    requires 55 * i + 55 <= |rec|
  {
    var b := rec[55 * i..55 * i + 55];
    FromLittle(b[2..4]) == 51 && FromLittle(b[5..7]) == 48
  }

  ghost predicate RecordTrue(rec: Bytes, n: nat) {
    |rec| == 55 * n && forall i: nat :: i < n ==> BlockTrue(rec, i)
  }

  /** The lengths of a MEASUREMENTS response: block count, record length, the blocks, opaque length. */
  ghost predicate MeasurementsTrue(r: Bytes, sig: nat) {
    && |r| >= 8
    && var n := 55 * Field(r, 4);
       && FromLittle(r[5..8]) == n
       && OpaqueTrue(r, n + 40, sig)
       && RecordTrue(r[8..8 + n], Field(r, 4))
  }

  /** Every length and count field of a response, read from its bytes, is the length or count of what it stands
      for; sig is the length of a signature and available the number of enabled measurements. ERROR and
      CAPABILITIES have no such field. */
  ghost predicate LengthsTrue(q: Bytes, r: Bytes, cc: Bytes, sig: nat, available: nat) {
    && |r| >= 4
    && (r[1] == 0x7F ==> |r| == 4)
    && (r[1] == 0x61 ==> |r| == 20)
    && (r[1] == 0x04 ==> |r| >= 6 && |r| == 6 + 2 * Field(r, 5))
    && (r[1] == 0x63 ==> |r| >= 6 && |r| == FromLittle(r[4..6]))
    && (r[1] == 0x01 ==> |r| == 4 + 48 * Field(r, 3))
    && (r[1] == 0x02 ==> PortionTrue(q, r, cc))
    && (r[1] == 0x03 ==> |q| >= 4 && OpaqueTrue(r, 84 + if q[3] != 0 then 48 else 0, sig))
    && (r[1] == 0x60 ==>
          && |q| >= 4 && MeasurementsTrue(r, if q[2] % 2 == 1 then sig else 0)
          && Field(r, 2) == if q[3] == 0 then available else 0)
  }

  /** CERTIFICATE: the length of the portion, and what remains of the chain after it. */
  ghost predicate PortionTrue(q: Bytes, r: Bytes, cc: Bytes) {
    && |q| == 8 && |r| >= 8 && |r| == 8 + FromLittle(r[4..6])
    && FromLittle(q[4..6]) + FromLittle(r[4..6]) + FromLittle(r[6..8]) == |cc|
  }

  /** The length of the opaque data at o, which the signature follows. */
  ghost predicate OpaqueTrue(r: Bytes, o: nat, sig: nat) {
    |r| >= o + 2 && |r| == o + 2 + FromLittle(r[o..o + 2]) + sig
  }

  ghost function EnabledSet(cfg: Config, n: nat): set<nat> {
    set i: nat | i < n && BitAt(cfg.mEn, i) == 1
  }

  ghost function Available(s: State): nat {
    |EnabledSet(s.cfg, s.nm)|
  }

  /** The list that the response counts has every enabled measurement once. */
  lemma {:induction false} EnabledCount(cfg: Config, n: nat)
    ensures |Enabled(cfg, n, false)| == |EnabledSet(cfg, n)|
  {
    hide BitAt;
    if n > 0 {
      EnabledCount(cfg, n - 1);
      if BitAt(cfg.mEn, n - 1) == 1 {
        assert EnabledSet(cfg, n) == EnabledSet(cfg, n - 1) + {n - 1};
      } else {
        assert EnabledSet(cfg, n) == EnabledSet(cfg, n - 1);
      }
    }
  }

  lemma TwoBytes(v: nat)
    requires v < 65536
    ensures FromLittle(U16(v)) == v
  {
    FourBytes();
    FromLittleBytes(v, 2);
  }

  lemma BlockFields(cfg: Config, nm: nat, i: nat)
    requires cfg.Valid(nm) && i < nm < 256
    ensures var b := Block(cfg, nm, i); FromLittle(b[2..4]) == 51 && FromLittle(b[5..7]) == 48
  {
    TwoBytes(51);
    TwoBytes(48);
    hide FromLittle, LittleBytes;
    var b := Block(cfg, nm, i);
    assert b[2..4] == U16(51) && b[5..7] == U16(48);
  }

  lemma {:induction false} BlocksTrue(cfg: Config, nm: nat, sel: seq<nat>, i: nat)
    requires cfg.Valid(nm) && nm < 256 && (forall k :: 0 <= k < |sel| ==> sel[k] < nm) && i < |sel|
    ensures BlockTrue(Blocks(cfg, nm, sel), i)
    decreases i
  {
    hide FromLittle, Block;
    var rec, rest := Blocks(cfg, nm, sel), Blocks(cfg, nm, sel[1..]);
    if i == 0 {
      BlockFields(cfg, nm, sel[0]);
      assert rec[..55] == Block(cfg, nm, sel[0]);
    } else {
      BlocksTrue(cfg, nm, sel[1..], i - 1);
      var n := 55 * (i - 1);
      assert rec[55 * i..55 * i + 55] == rest[n..n + 55];
    }
  }

  lemma RecordParts(head: Bytes, len: Bytes, rec: Bytes, nonce: Bytes, last: Bytes)
    requires |head| == 5 && |len| == 3 && |nonce| == 32 && |last| == 2
    ensures var b, n := head + len + rec + nonce + last, |rec|;
      && |b| == n + 42 && b[2] == head[2] && b[4] == head[4]
      && b[5..8] == len && b[8..8 + n] == rec && b[n + 40..n + 42] == last
  {}

  /** The fields of the unsigned part of MEASUREMENTS. */
  lemma MeasurementsFields(s: State, op: Byte, nonce: Bytes)
    requires s.cfg.Valid(s.nm) && s.nm < 256 && (op == 0 || op == 0xFF || op <= s.nm) && |nonce| == 32
    ensures var b := MeasurementsBody(s, op, nonce);
      MeasurementsTrue(b, 0) && Field(b, 2) == if op == 0 then Available(s) else 0
  {
    EnabledCount(s.cfg, s.nm);
    assert Available(s) == |Enabled(s.cfg, s.nm, false)|;
    hide Available, EnabledSet;
    var sel := Selection(s, op);
    var b, rec := MeasurementsBody(s, op, nonce), Blocks(s.cfg, s.nm, sel);
    FourBytes();
    FromLittleBytes(|rec|, 3);
    TwoBytes(0);
    var head := [0x12, 0x60, if op == 0 then |Enabled(s.cfg, s.nm, false)| else 0, 0, |sel|];
    RecordParts(head, LittleBytes(|rec|, 3), rec, nonce, U16(0));
    RecordOf(s, sel);
    hide FromLittle, LittleBytes, Blocks, Enabled, Selection, Pow256, RecordTrue, U16;
    assert b == head + LittleBytes(|rec|, 3) + rec + nonce + U16(0);
  }

  lemma RecordOf(s: State, sel: seq<nat>)
    requires s.cfg.Valid(s.nm) && s.nm < 256 && forall k :: 0 <= k < |sel| ==> sel[k] < s.nm
    ensures RecordTrue(Blocks(s.cfg, s.nm, sel), |sel|)
  {
    hide Blocks, BlockTrue;
    forall i: nat | i < |sel|
      ensures BlockTrue(Blocks(s.cfg, s.nm, sel), i)
    {
      BlocksTrue(s.cfg, s.nm, sel, i);
    }
  }

  lemma SignedFields(b: Bytes, sig: Bytes)
    requires MeasurementsTrue(b, 0)
    ensures MeasurementsTrue(b + sig, |sig|)
  {
    var r, n := b + sig, 55 * Field(b, 4);
    assert |b| >= n + 42;
    hide FromLittle, RecordTrue, OpaqueTrue;
    SignedOpaque(b, n + 40, sig);
    assert Field(r, 4) == Field(b, 4) && r[5..8] == b[5..8] && r[8..8 + n] == b[8..8 + n];
  }

  lemma MeasurementsLengths(env: Env, s: State, q: Bytes, nonce: Bytes, rnd: Bytes)
    requires env.Valid() && s.Valid(env) && |q| >= 4 && (q[3] == 0 || q[3] == 0xFF || q[3] <= s.nm) && |nonce| == 32
    requires q[2] % 2 == 1 ==> s.SlotOk()
    ensures var r := OnMeasurements(env, s, q, nonce, rnd).1;
      r.Some? ==> LengthsTrue(q, r.value, s.cfg.cc, s.SignatureLen(), Available(s))
  {
    hide SigLen, SkLen, IsGenerated, FromLittle, SignatureOf, MeasurementsTrue;
    var b := MeasurementsBody(s, q[3], nonce);
    MeasurementsFields(s, q[3], nonce);
    BodyHeads(env, s, q[3], nonce);
    assert |b| >= 42 by { hide Enabled, Selection, LittleBytes; }
    hide MeasurementsBody;
    if q[2] % 2 == 1 {
      KeyLength(env, s.key.value);
      var t := s.conn.vca + s.conn.tl + q + b;
      var sig := SignatureOf(env, s.key.value, CTX_MEAS, t, rnd);
      if sig.Some? {
        SignatureLength(env, s.key.value, CTX_MEAS, t, rnd);
        SignedFields(b, sig.value);
      }
    }
  }

  /** The fields of the unsigned part of CHALLENGE_AUTH. */
  lemma ChallengeFields(env: Env, s: State, op: Byte, nonce: Bytes)
    requires env.Valid() && s.cfg.Valid(s.nm) && s.nm < 256 && |nonce| == 32
    ensures var b := ChallengeBody(env, s, op, nonce);
      |b| >= 4 && b[1] == 0x03 && OpaqueTrue(b, 84 + if op != 0 then 48 else 0, 0)
  {
    TwoBytes(0);
    SummaryLength(env, s, op);
    hide FromLittle, LittleBytes, Summary;
    var b, o := ChallengeBody(env, s, op, nonce), 84 + if op != 0 then 48 else 0;
    assert |env.sha384(s.cfg.cc)| == 48;
    assert |b| == o + 2 && b[o..o + 2] == U16(0);
  }

  lemma SignedOpaque(b: Bytes, o: nat, sig: Bytes)
    requires OpaqueTrue(b, o, 0)
    ensures OpaqueTrue(b + sig, o, |sig|)
  {
    hide FromLittle;
    assert (b + sig)[o..o + 2] == b[o..o + 2];
  }

  lemma ChallengeLengths(env: Env, s: State, q: Bytes, nonce: Bytes, rnd: Bytes)
    requires env.Valid() && s.Valid(env) && s.SlotOk() && |q| == 36 && |nonce| == 32
    ensures var r := OnChallenge(env, s, q, nonce, rnd).1;
      r.Some? ==> LengthsTrue(q, r.value, s.cfg.cc, s.SignatureLen(), Available(s))
  {
    hide SigLen, SkLen, IsGenerated, FromLittle, ChallengeBody, SignatureOf, MeasurementsTrue, OpaqueTrue;
    ChallengeFields(env, s, q[3], nonce);
    KeyLength(env, s.key.value);
    var b := ChallengeBody(env, s, q[3], nonce);
    var t := s.conn.vca + s.conn.tm + q + b;
    var sig := SignatureOf(env, s.key.value, CTX_CHAL, t, rnd);
    if sig.Some? {
      SignatureLength(env, s.key.value, CTX_CHAL, t, rnd);
      SignedOpaque(b, 84 + if q[3] != 0 then 48 else 0, sig.value);
    }
  }

  lemma SummaryLength(env: Env, s: State, op: Byte)
    requires env.Valid() && s.cfg.Valid(s.nm) && s.nm < 256
    ensures |Summary(env, s, op)| == if op != 0 then 48 else 0
  {
    hide Blocks, Enabled;
  }

  lemma VersionLengths(s: State, q: Bytes)
    requires |q| >= 4
    ensures var r := OnVersion(s, q).1;
      r.Some? && |r.value| == 8 && LengthsTrue(q, r.value, s.cfg.cc, s.SignatureLen(), Available(s))
  {
    hide FromLittle, LittleBytes, MeasurementsTrue, SigLen;
  }

  lemma CapabilitiesLengths(s: State, q: Bytes)
    requires |q| == 20
    ensures var r := OnCapabilities(s, q).1;
      r.Some? && |r.value| == 20 && LengthsTrue(q, r.value, s.cfg.cc, s.SignatureLen(), Available(s))
  {
    hide FromLittle, LittleBytes, MeasurementsTrue, SigLen;
  }

  lemma HeadParts(head: Bytes, len: Bytes, r: Bytes)
    requires |head| == 4 && |len| == 2 && head + len <= r
    ensures r[4..6] == len && r[1] == head[1]
  {
    assert r[..6] == head + len;
    assert r[1] == r[..6][1] && r[4..6] == r[..6][4..6];
  }

  lemma CertificateParts(head: Bytes, por: Bytes, rem: Bytes, chain: Bytes)
    requires |head| == 4 && |por| == 2 && |rem| == 2
    ensures var r := head + por + rem + chain; r[1] == head[1] && r[4..6] == por && r[6..8] == rem && |r| == 8 + |chain|
  {}

  lemma AlgorithmsLengths(s: State, q: Bytes)
    requires |q| >= 32 && 32 + 4 * q[28] <= |q|
    ensures var r := OnAlgorithms(s, q).1;
      r.Some? && |r.value| <= 40 && LengthsTrue(q, r.value, s.cfg.cc, s.SignatureLen(), Available(s))
  {
    TwoBytes(36);
    TwoBytes(40);
    hide FromLittle, LittleBytes, MeasurementsTrue, SigLen, Offers, U16, U32, ZeroBytes;
    var r := OnAlgorithms(s, q).1.value;
    var len := U16(if |r| == 40 then 40 else 36);
    var head: Bytes := [0x12, 0x63, 0, 0];
    assert head + len <= r;
    HeadParts(head, len, r);
  }

  lemma DigestsLengths(env: Env, s: State, q: Bytes)
    requires env.Valid()
    ensures var r := OnDigests(env, s, q).1;
      && r.Some? && LengthsTrue(q, r.value, s.cfg.cc, s.SignatureLen(), Available(s))
      && |r.value| == if s.SlotOk() then 52 else 4
  {}

  lemma CertificateLengths(s: State, q: Bytes)
    requires |q| == 8 && FromLittle(q[4..6]) < |s.cfg.cc| && s.conn.dts >= 8
    ensures var r := OnCertificate(s, q).1;
      r.Some? ==> |r.value| <= s.conn.dts && LengthsTrue(q, r.value, s.cfg.cc, s.SignatureLen(), Available(s))
  {
    var off, ln := FromLittle(q[4..6]), FromLittle(q[6..8]);
    var por := Portion(s, off, ln);
    var rem := |s.cfg.cc| - off - por;
    TwoByteValue(q[6..8]);
    if rem < 65536 {
      TwoBytes(por);
      TwoBytes(rem);
      hide FromLittle, LittleBytes, MeasurementsTrue, SigLen, U16;
      var head: Bytes := [0x12, 0x02, 0, 0];
      CertificateParts(head, U16(por), U16(rem), s.cfg.cc[off..off + por]);
    }
  }

  lemma TwoByteValue(b: Bytes)
    requires |b| == 2
    ensures FromLittle(b) == Field(b, 0) + 256 * Field(b, 1)
  {
    assert b[1..] == [b[1]] && b[1..][1..] == [];
    assert FromLittle([]) == 0;
  }

  /** Only GET_VERSION and GET_CAPABILITIES touch the transfer size. */
  lemma DtsSame(env: Env, s: State, q: Bytes, nonce: Bytes, rnd: Bytes)
    requires env.Valid() && Inv(env, s) && Check(s, q) == 0
    ensures |q| >= 4
    ensures var c := Answer(env, s, q, nonce, rnd).0;
      if q[1] == GET_VERSION then c.stage == 1 else q[1] != GET_CAPABILITIES ==> c.dts == s.conn.dts
  {
    hide SignatureOf, Check, Offers, BitAt, Blocks, AlgorithmsResponse, FromLittle, LittleBytes, Summary;
    hide MeasurementsBody, ChallengeBody, IsGenerated, SkLen;
    Passed(s, q);
  }

  lemma AcceptedFits(env: Env, s: State, q: Bytes, nonce: Bytes, rnd: Bytes)
    requires env.Valid() && Inv(env, s) && |nonce| == 32 && Check(s, q) == 0
    ensures var (c, r) := Answer(env, s, q, nonce, rnd);
      r.Some? ==>
        && LengthsTrue(q, r.value, s.cfg.cc, s.SignatureLen(), Available(s))
        && (s.conn.stage >= 2 ==> |r.value| <= s.conn.dts)
        && (c.stage >= 2 ==> |r.value| <= c.dts)
  {
    hide SigLen, SkLen, IsGenerated, FromLittle, OnVersion, OnCapabilities, OnAlgorithms, OnDigests, OnCertificate;
    hide OnChallenge, OnMeasurements, LengthsTrue, ErrorOf, BlockCount;
    DtsKept(env, s, q, nonce, rnd);
    DtsSame(env, s, q, nonce, rnd);
    Passed(s, q);
    assert s.conn.stage >= 2 ==> s.conn.dts >= 42;
    if q[1] == GET_VERSION {
      VersionLengths(s, q);
    } else if q[1] == GET_CAPABILITIES {
      CapabilitiesLengths(s, q);
    } else if q[1] == NEGOTIATE_ALGORITHMS {
      AlgorithmsLengths(s, q);
    } else {
      PassedSizes(s, q);
      if q[1] == GET_DIGESTS {
        DigestsLengths(env, s, q);
      } else if q[1] == GET_CERTIFICATE {
        CertificateLengths(s, q);
      } else if q[1] == CHALLENGE {
        ChallengeLength(env, s, q, nonce, rnd);
        ChallengeLengths(env, s, q, nonce, rnd);
      } else {
        MeasurementsLength(env, s, q, nonce, rnd);
        MeasurementsLengths(env, s, q, nonce, rnd);
      }
    }
    hide Check;
  }

  lemma ErrorLengths(q: Bytes, r: Bytes, cc: Bytes, sig: nat, available: nat)
    requires |r| == 4 && r[1] == 0x7F
    ensures LengthsTrue(q, r, cc, sig, available)
  {}

  /** Once a transfer size is agreed every response fits it, whatever the request, and also the one that agrees on
      it; and every length or count field of every response is true. */
  lemma ResponsesFit(env: Env, s: State, q: Bytes, nonce: Bytes, rnd: Bytes)
    requires env.Valid() && Inv(env, s) && |nonce| == 32
    ensures var (c, r) := Answer(env, s, q, nonce, rnd);
      r.Some? ==>
        && LengthsTrue(q, r.value, s.cfg.cc, s.SignatureLen(), Available(s))
        && (s.conn.stage >= 2 ==> |r.value| <= s.conn.dts)
        && (c.stage >= 2 ==> |r.value| <= c.dts)
  {
    hide SigLen, SkLen, IsGenerated, FromLittle, OnVersion, OnAlgorithms, OnDigests, OnCertificate, OnChallenge;
    hide OnMeasurements;
    hide LengthsTrue, Check, BlockCount, OnCapabilities;
    if Check(s, q) == 0 {
      AcceptedFits(env, s, q, nonce, rnd);
    } else {
      ErrorLengths(q, Answer(env, s, q, nonce, rnd).1.value, s.cfg.cc, s.SignatureLen(), Available(s));
    }
  }
}
