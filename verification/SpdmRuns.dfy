/** Runs of the SPDM responder: what a requester that only sees the messages on the wire knows about the
    connection, that its transcripts are the responder's, and that it accepts every signed response. */
module SpdmRuns {
  import opened Arithmetic
  import opened Options
  import opened BitFields
  import opened KeyCodec
  import opened Spdm
  import MlDsa
  import Completeness

  // ---------- events ----------

  datatype Event =
    | Request(q: Bytes, nonce: Bytes, rnd: Bytes)
    | KeyGen(pset: nat, seed: Bytes) | Clear | Configure(cfg: Config)

  /** What the host may do and the random source returns. */
  predicate IsEvent(e: Event, nm: nat) {
    match e
    case Request(_, nonce, rnd) => |nonce| == 32 && |rnd| == 32
    case KeyGen(pset, _) => pset < 3
    case Clear => true
    case Configure(cfg) => cfg.Valid(nm)
  }

  /** One exchange on the wire. */
  datatype Exchange = Exchange(q: Bytes, r: Bytes)

  ghost predicate Inv(env: Env, s: State)
    requires env.Valid()
  {
    s.Valid(env) && ConnValid(s)
  }

  /** The responder after an event, and what appears on the wire. */
  function Next(env: Env, s: State, e: Event): (State, seq<Exchange>)
    requires env.Valid() && Inv(env, s) && IsEvent(e, s.nm)
  {
    match e
    case Request(q, nonce, rnd) =>
      var (c, r) := Answer(env, s, q, nonce, rnd);
      (s.(conn := c), if r.Some? then [Exchange(q, r.value)] else [])
    case KeyGen(pset, seed) =>
      var kp := MlDsa.KeyGenOf(env.shake, seed, ParamsOf(pset));
      (if kp.Some? then s.(key := Some(Key(pset, kp.value.0, kp.value.1))) else s, [])
    case Clear => (s.(key := None, conn := NO_CONN), [])
    case Configure(cfg) => (s.(cfg := cfg), [])
  }

  // ---------- the requester's view ----------

  /** What a requester makes of one exchange, from the bytes alone. */
  function Observe(v: Conn, x: Exchange): Conn {
    var q, r := x.q, x.r;
    if |r| < 2 || r[1] == 0x7F then v
    else if r[1] == 0x04 then NO_CONN.(stage := 1, vca := q + r)
    else if r[1] == 0x61 && |q| >= 16 && |r| >= 16 then
      var asked, offered := FromLittle(q[12..16]), FromLittle(r[12..16]);
      v.(stage := 2, vca := v.vca + q + r, dts := if asked < offered then asked else offered)
    else if r[1] == 0x63 && |r| >= 33 then
      v.(stage := 3, vca := v.vca + q + r, hashOk := FromLittle(r[16..20]) == BASE_HASH_SHA3_384, asymOk := r[32] == 1,
         measOk := r[6] == 1)
    else if r[1] == 0x01 || r[1] == 0x02 then v.(tm := v.tm + q + r)
    else if r[1] == 0x03 then v.(tm := [])
    else if r[1] == 0x60 && |q| >= 3 then v.(tl := if q[2] % 2 == 1 then [] else v.tl + q + r)
    else v
  }

  function Folded(log: seq<Exchange>): Conn {
    if log == [] then NO_CONN else Observe(Folded(log[..|log| - 1]), log[|log| - 1])
  }

  // ---------- single steps ----------

  lemma {:induction false} FromLittleBytes(v: nat, n: nat)
    requires v < Pow256(n)
    ensures FromLittle(LittleBytes(v, n)) == v
  {
    if n > 0 {
      FromLittleBytes(v / 256, n - 1);
      assert LittleBytes(v, n)[1..] == LittleBytes(v / 256, n - 1);
    }
  }

  function Pow256(n: nat): (p: nat)
    ensures p > 0
  {
    if n == 0 then 1 else 256 * Pow256(n - 1)
  }

  lemma FourBytes()
    ensures Pow256(2) == 65536 && Pow256(4) == 0x1_0000_0000
  {
    assert Pow256(3) == 256 * Pow256(2);
  }

  /** What a request that passes the checks is. */
  lemma Passed(s: State, q: Bytes)
    requires Check(s, q) == 0
    ensures |q| >= 4 && (q[1] == GET_VERSION || IsKnown(q[1]))
    ensures q[1] != GET_VERSION ==> s.conn.stage != 0
    ensures q[1] == GET_CAPABILITIES ==> s.conn.stage == 1 && |q| == 20 && FromLittle(q[12..16]) >= 42
    ensures q[1] == NEGOTIATE_ALGORITHMS ==> s.conn.stage == 2 && |q| >= 32 && 32 + 4 * q[28] <= |q|
    ensures q[1] == GET_DIGESTS || q[1] == GET_CERTIFICATE || q[1] == CHALLENGE || q[1] == GET_MEASUREMENTS ==>
      s.conn.stage == 3
  {
    hide CheckMeasurements, FromLittle;
  }

  /** The three requests that move the stage, each from the stage before. */
  predicate StageMoves(from: nat, q: Bytes, to: nat) {
    |q| >= 4 && ((q[1] == GET_VERSION && to == 1) || (q[1] == GET_CAPABILITIES && from == 1 && to == 2)
                 || (q[1] == NEGOTIATE_ALGORITHMS && from == 2 && to == 3))
  }

  /** An accepted request was answered as a requester with view v sees it, or failed without effect. */
  ghost predicate Seen(s: State, v: Conn, q: Bytes, a: (Conn, Option<Bytes>)) {
    && (match a.1
        case Some(r) => |r| >= 2 && r[1] != 0x7F && a.0.stage != 0 && Observe(v, Exchange(q, r)) == a.0
        case None => a.0 == s.conn)
    && (a.0.stage == s.conn.stage || StageMoves(s.conn.stage, q, a.0.stage))
  }

  lemma VersionSeen(s: State, v: Conn, q: Bytes)
    requires |q| >= 4 && q[1] == GET_VERSION
    ensures Seen(s, v, q, OnVersion(s, q))
  {
    hide FromLittle, LittleBytes;
  }

  lemma CapabilitiesSeen(s: State, q: Bytes)
    requires |q| == 20 && q[1] == GET_CAPABILITIES && s.nm < 256 && s.conn.stage == 1
    ensures Seen(s, s.conn, q, OnCapabilities(s, q))
  {
    var r := OnCapabilities(s, q).1.value;
    FourBytes();
    FromLittleBytes(s.DtsMax(), 4);
    hide FromLittle, Pow256, LittleBytes;
    assert r[12..16] == U32(s.DtsMax());
    assert r[1] == 0x61;
  }

  lemma AlgorithmsSeen(s: State, q: Bytes)
    requires |q| >= 32 && 32 + 4 * q[28] <= |q| && q[1] == NEGOTIATE_ALGORITHMS && s.conn.stage == 2
    ensures Seen(s, s.conn, q, OnAlgorithms(s, q))
  {
    hide Offers, BitAt;
    hide FromLittle, AlgorithmsResponse;
    var h, a, m := BitAt(FromLittle(q[12..16]), 4) == 1, Offers(q, q[28], s.cfg.asymId), q[6] % 2 == 1;
    AlgorithmsFields(s, h, a, m);
  }

  /** The fields of ALGORITHMS tell what was agreed on. */
  lemma AlgorithmsFields(s: State, h: bool, a: bool, m: bool)
    ensures var r := AlgorithmsResponse(s, h, a, m);
      && r[1] == 0x63 && (FromLittle(r[16..20]) == BASE_HASH_SHA3_384 <==> h) && (r[32] == 1 <==> a)
      && (r[6] == 1 <==> m)
  {
    FourBytes();
    FromLittleBytes(BASE_HASH_SHA3_384, 4);
    FromLittleBytes(0, 4);
    hide FromLittle, LittleBytes, Pow256, U16, U32, ZeroBytes;
    var head := [0x12, 0x63, 0, 0] + U16(if a then 40 else 36)
      + [if m then 1 else 0, 0] + U32(if m then MEAS_HASH_SHA3_384 else 0) + U32(0);
    var zeros, count, id := ZeroBytes(12), [if a then 1 else 0, 0, 0, 0], if a then U32(s.cfg.asymId) else [];
    var hash := U32(if h then BASE_HASH_SHA3_384 else 0);
    HeadFields(a, m);
    Regrouped(head + hash, zeros, count, id);
    assert (zeros + count + id)[12] == count[0];
    ThreeParts(head, hash, zeros + count + id);
  }

  lemma HeadFields(a: bool, m: bool)
    ensures var head := [0x12, 0x63, 0, 0] + U16(if a then 40 else 36)
      + [if m then 1 else 0, 0] + U32(if m then MEAS_HASH_SHA3_384 else 0) + U32(0);
      |head| == 16 && head[1] == 0x63 && head[6] == if m then 1 else 0
  {
    hide U16, U32;
  }

  lemma Regrouped(x: Bytes, a: Bytes, b: Bytes, c: Bytes)
    ensures x + a + b + c == x + (a + b + c)
  {}

  lemma ThreeParts(head: Bytes, mid: Bytes, tail: Bytes)
    requires |head| == 16 && |mid| == 4 && |tail| >= 13
    ensures var r := head + mid + tail; r[16..20] == mid && r[1] == head[1] && r[6] == head[6] && r[32] == tail[12]
  {}

  lemma DigestsSeen(env: Env, s: State, q: Bytes)
    requires s.conn.stage == 3
    ensures Seen(s, s.conn, q, OnDigests(env, s, q))
  {
    hide FromLittle;
  }

  lemma CertificateSeen(s: State, q: Bytes)
    requires s.conn.stage == 3 && |q| == 8 && FromLittle(q[4..6]) < |s.cfg.cc| && s.conn.dts >= 42
    ensures Seen(s, s.conn, q, OnCertificate(s, q))
  {
    hide FromLittle, LittleBytes;
  }

  lemma BodyHeads(env: Env, s: State, op: Byte, nonce: Bytes)
    requires env.Valid() && s.cfg.Valid(s.nm) && s.nm < 256
    ensures var b := ChallengeBody(env, s, op, nonce); |b| >= 4 && b[1] == 0x03
    ensures op == 0 || op == 0xFF || op <= s.nm ==> var b := MeasurementsBody(s, op, nonce); |b| >= 4 && b[1] == 0x60
  {
    hide Summary, LittleBytes, Blocks, Enabled, Selection;
  }

  lemma KeyLength(env: Env, key: Key)
    requires env.Valid() && IsGenerated(env, key)
    ensures |key.sk| == SkLen(ParamsOf(key.pset))
  {}

  lemma ObserveSigned(v: Conn, q: Bytes, b: Bytes, sig: Bytes)
    requires |b| >= 4 && |q| >= 3
    ensures |b + sig| >= 2 && (b + sig)[1] == b[1]
    ensures b[1] == 0x03 ==> Observe(v, Exchange(q, b + sig)) == v.(tm := [])
    ensures b[1] == 0x60 && q[2] % 2 == 1 ==> Observe(v, Exchange(q, b + sig)) == v.(tl := [])
  {
    hide FromLittle;
  }

  lemma ChallengeSeen(env: Env, s: State, q: Bytes, nonce: Bytes, rnd: Bytes)
    requires env.Valid() && s.Valid(env) && s.SlotOk() && |q| == 36 && s.conn.stage == 3
    ensures Seen(s, s.conn, q, OnChallenge(env, s, q, nonce, rnd))
  {
    hide SignatureOf, FromLittle, ChallengeBody, SkLen, IsGenerated, Observe;
    KeyLength(env, s.key.value);
    BodyHeads(env, s, q[3], nonce);
    var r := ChallengeBody(env, s, q[3], nonce);
    var sig := SignatureOf(env, s.key.value, CTX_CHAL, s.conn.vca + s.conn.tm + q + r, rnd);
    if sig.Some? {
      ObserveSigned(s.conn, q, r, sig.value);
    }
  }

  lemma MeasurementsSeen(env: Env, s: State, q: Bytes, nonce: Bytes, rnd: Bytes)
    requires env.Valid() && s.Valid(env) && s.conn.stage == 3 && |q| >= 4 && (q[3] == 0 || q[3] == 0xFF || q[3] <= s.nm)
    requires q[2] % 2 == 1 ==> s.SlotOk()
    ensures Seen(s, s.conn, q, OnMeasurements(env, s, q, nonce, rnd))
  {
    hide SignatureOf, FromLittle, MeasurementsBody, SkLen, IsGenerated;
    BodyHeads(env, s, q[3], nonce);
    var r := MeasurementsBody(s, q[3], nonce);
    if q[2] % 2 == 1 {
      hide Observe;
      KeyLength(env, s.key.value);
      var sig := SignatureOf(env, s.key.value, CTX_MEAS, s.conn.vca + s.conn.tl + q + r, rnd);
      if sig.Some? {
        ObserveSigned(s.conn, q, r, sig.value);
      }
    }
  }

  /** A requester that knows the connection still knows it after the answer, whatever the request; the answer
      to GET_VERSION makes any requester know it; a failed request leaves the connection alone; and the stage
      moves only by GET_VERSION, GET_CAPABILITIES and NEGOTIATE_ALGORITHMS, in that order. */
  lemma AcceptedSeen(env: Env, s: State, v: Conn, q: Bytes, nonce: Bytes, rnd: Bytes)
    requires env.Valid() && Inv(env, s) && (s.conn.stage != 0 ==> v == s.conn) && Check(s, q) == 0
    ensures Seen(s, v, q, Answer(env, s, q, nonce, rnd))
  {
    Passed(s, q);
    hide OnVersion, OnCapabilities, OnAlgorithms, OnDigests, OnCertificate, OnChallenge, OnMeasurements, SignatureOf;
    hide Seen, Observe, FromLittle;
    var code := q[1];
    if code == GET_VERSION {
      VersionSeen(s, v, q);
    } else if code == GET_CAPABILITIES {
      CapabilitiesSeen(s, q);
    } else if code == NEGOTIATE_ALGORITHMS {
      AlgorithmsSeen(s, q);
    } else if code == GET_DIGESTS {
      DigestsSeen(env, s, q);
    } else if code == GET_CERTIFICATE {
      CertificateSeen(s, q);
    } else if code == CHALLENGE {
      ChallengeSeen(env, s, q, nonce, rnd);
    } else {
      MeasurementsSeen(env, s, q, nonce, rnd);
    }
  }

  /** A rejected request is answered with ERROR and changes nothing. */
  lemma RejectedChangesNothing(env: Env, s: State, q: Bytes, nonce: Bytes, rnd: Bytes)
    requires env.Valid() && Inv(env, s) && Check(s, q) != 0
    ensures var (c, r) := Answer(env, s, q, nonce, rnd);
      c == s.conn && r.Some? && |r.value| == 4 && r.value[1] == 0x7F && r.value[2] == Check(s, q)
      && forall v: Conn :: Observe(v, Exchange(q, r.value)) == v
  {
    hide Check, OnVersion, OnCapabilities, OnAlgorithms, OnDigests, OnCertificate, OnChallenge, OnMeasurements;
    hide FromLittle;
  }

  // ---------- runs ----------

  /** The data transfer size stays within what was negotiated. */
  lemma InvKept(env: Env, s: State, e: Event)
    requires env.Valid() && Inv(env, s) && IsEvent(e, s.nm)
    ensures Inv(env, Next(env, s, e).0) && Next(env, s, e).0.nm == s.nm
  {
    hide IsGenerated, SkLen, Check, ConnValid, Answer;
    match e
    case Request(q, nonce, rnd) => RequestKeeps(env, s, q, nonce, rnd);
    case KeyGen(pset, seed) => KeyGenKeeps(env, s, pset, seed);
    case Clear => ClearKeeps(env, s);
    case Configure(cfg) => ConfigureKeeps(env, s, cfg);
  }

  lemma RequestKeeps(env: Env, s: State, q: Bytes, nonce: Bytes, rnd: Bytes)
    requires env.Valid() && Inv(env, s)
    ensures Inv(env, s.(conn := Answer(env, s, q, nonce, rnd).0))
  {
    DtsKept(env, s, q, nonce, rnd);
    hide IsGenerated, Answer;
  }

  lemma KeyGenKeeps(env: Env, s: State, pset: nat, seed: Bytes)
    requires env.Valid() && Inv(env, s) && pset < 3
    ensures var kp := MlDsa.KeyGenOf(env.shake, seed, ParamsOf(pset));
      kp.Some? ==> Inv(env, s.(key := Some(Key(pset, kp.value.0, kp.value.1))))
  {
    hide IsGenerated, MlDsa.KeyGenOf, ParamsOf, SkLen;
    if MlDsa.KeyGenOf(env.shake, seed, ParamsOf(pset)).Some? {
      GeneratedKey(env, pset, seed);
    }
  }

  lemma ClearKeeps(env: Env, s: State)
    requires env.Valid() && Inv(env, s)
    ensures Inv(env, s.(key := None, conn := NO_CONN))
  {}

  lemma ConfigureKeeps(env: Env, s: State, cfg: Config)
    requires env.Valid() && Inv(env, s) && cfg.Valid(s.nm)
    ensures Inv(env, s.(cfg := cfg))
  {
    hide IsGenerated;
  }

  lemma GeneratedKey(env: Env, pset: nat, seed: Bytes)
    requires env.Valid() && MlDsa.KeyGenOf(env.shake, seed, ParamsOf(pset)).Some?
    ensures var kp := MlDsa.KeyGenOf(env.shake, seed, ParamsOf(pset)).value; IsGenerated(env, Key(pset, kp.0, kp.1))
  {
    Completeness.SignaturesVerify(env.shake, seed, [], [], ParamsOf(pset), None);
    hide MlDsa.KeyGenOf, SkLen, ParamsOf;
  }

  lemma DtsKept(env: Env, s: State, q: Bytes, nonce: Bytes, rnd: Bytes)
    requires env.Valid() && Inv(env, s)
    ensures var c := Answer(env, s, q, nonce, rnd).0;
      c.stage <= 3 && (c.stage >= 2 ==> 42 <= c.dts <= s.DtsMax())
  {
    hide SignatureOf, Check, Offers, BitAt, Blocks, AlgorithmsResponse, FromLittle, LittleBytes, Summary;
    hide MeasurementsBody, ChallengeBody, IsGenerated, SkLen;
    if Check(s, q) == 0 {
      Passed(s, q);
    }
  }

  /** The responder and the wire after a list of events. */
  function After(env: Env, s: State, events: seq<Event>): (State, seq<Exchange>)
    requires env.Valid() && Inv(env, s) && forall i :: 0 <= i < |events| ==> IsEvent(events[i], s.nm)
    ensures Inv(env, After(env, s, events).0) && After(env, s, events).0.nm == s.nm
    decreases |events|
  {
    if events == [] then (s, [])
    else
      var (t, log) := After(env, s, events[..|events| - 1]);
      InvKept(env, t, events[|events| - 1]);
      var (u, more) := Next(env, t, events[|events| - 1]);
      (u, log + more)
  }

  function Fresh(nm: nat, cfg: Config): State {
    State(nm, cfg, None, NO_CONN)
  }

  lemma FreshInv(env: Env, nm: nat, cfg: Config)
    requires env.Valid() && nm < 256 && cfg.Valid(nm)
    ensures Inv(env, Fresh(nm, cfg))
  {}

  /** Over every interleaving of requests, key generation, clearing and configuration, while a connection is
      open its stage, transcripts, algorithms and transfer size are what a requester folding the wire holds. */
  lemma {:induction false} RequesterKnows(env: Env, nm: nat, cfg: Config, events: seq<Event>)
    requires env.Valid() && nm < 256 && cfg.Valid(nm) && forall i :: 0 <= i < |events| ==> IsEvent(events[i], nm)
    ensures Inv(env, Fresh(nm, cfg))
    ensures var (s, log) := After(env, Fresh(nm, cfg), events); s.conn.stage != 0 ==> s.conn == Folded(log)
    decreases |events|
  {
    FreshInv(env, nm, cfg);
    hide Answer, Observe, Inv, IsEvent, Fresh;
    if events != [] {
      var n := |events| - 1;
      RequesterKnows(env, nm, cfg, events[..n]);
      var (s, log) := After(env, Fresh(nm, cfg), events[..n]);
      StepKnown(env, s, events[n], log);
    } else {
      assert Fresh(nm, cfg).conn.stage == 0;
    }
  }

  lemma StepKnown(env: Env, s: State, e: Event, log: seq<Exchange>)
    requires env.Valid() && Inv(env, s) && IsEvent(e, s.nm) && (s.conn.stage != 0 ==> s.conn == Folded(log))
    ensures var (t, more) := Next(env, s, e); t.conn.stage != 0 ==> t.conn == Folded(log + more)
  {
    hide Observe, Check, IsGenerated, SkLen, FromLittle;
    match e
    case Request(q, nonce, rnd) =>
      var v := Folded(log);
      if Check(s, q) == 0 {
        AcceptedSeen(env, s, v, q, nonce, rnd);
      } else {
        RejectedChangesNothing(env, s, q, nonce, rnd);
      }
      hide Answer;
      var (c, r) := Answer(env, s, q, nonce, rnd);
      if r.Some? {
        assert (log + [Exchange(q, r.value)])[..|log|] == log;
      } else {
        assert log + [] == log;
      }
    case KeyGen(pset, seed) => assert log + [] == log;
    case Clear => assert log + [] == log;
    case Configure(cfg) => assert log + [] == log;
  }

  // ---------- the size of responses ----------

  lemma {:induction false} EnabledCount(cfg: Config, n: nat, v: nat)
    requires v == cfg.mEn
    ensures |Enabled(cfg, n, false)| == Ones(v, n)
  {
    hide BitAt;
    if n > 0 {
      EnabledCount(cfg, n - 1, v);
    }
  }

  /** How many of the n low bits of v are set. */
  function Ones(v: nat, n: nat): nat {
    if n == 0 then 0 else Ones(v, n - 1) + BitAt(v, n - 1)
  }

  lemma {:induction false} OnesHalf(v: nat, n: nat)
    ensures Ones(v, n + 1) == v % 2 + Ones(v / 2, n)
  {
    if n > 0 {
      OnesHalf(v, n - 1);
    } else {
      assert Ones(v, 1) == BitAt(v, 0);
    }
  }

  lemma {:induction false} OnesBelowCount(v: nat, n: nat)
    ensures Ones(v, n) <= PopCount(v)
    decreases n
  {
    if n > 0 {
      OnesHalf(v, n - 1);
      OnesBelowCount(v / 2, n - 1);
      if v == 0 {
        OnesOfZero(n);
      }
    }
  }

  lemma {:induction false} OnesOfZero(n: nat)
    ensures Ones(0, n) == 0
  {
    if n > 0 {
      OnesOfZero(n - 1);
      ZeroBit(n - 1);
    }
  }

  lemma {:induction false} ZeroBit(i: nat)
    ensures BitAt(0, i) == 0
  {
    if i > 0 {
      ZeroBit(i - 1);
    }
  }

  /** A signature has the length of its parameter set. */
  lemma SignatureLength(env: Env, key: Key, ctx: Bytes, transcript: Bytes, rnd: Bytes)
    requires env.Valid() && IsGenerated(env, key) && SignatureOf(env, key, ctx, transcript, rnd).Some?
    ensures |SignatureOf(env, key, ctx, transcript, rnd).value| == SigLen(ParamsOf(key.pset))
  {
    var p := ParamsOf(key.pset);
    var xi :| MlDsa.KeyGenOf(env.shake, xi, p) == Some((key.pk, key.sk));
    Completeness.SignaturesVerify(env.shake, xi, SignedMessage(env, ctx, transcript), rnd, p, None);
    hide MlDsa.KeyGenOf, MlDsa.SignOf, MlDsa.VerifyOf, SkLen, SigLen, PkLen, SignedMessage, ParamsOf;
  }

  lemma ChallengeLength(env: Env, s: State, q: Bytes, nonce: Bytes, rnd: Bytes)
    requires env.Valid() && s.Valid(env) && s.SlotOk() && |q| == 36 && |nonce| == 32
    ensures var r := OnChallenge(env, s, q, nonce, rnd).1;
      r.Some? ==> |r.value| == 86 + (if q[3] != 0 then 48 else 0) + s.SignatureLen()
  {
    hide SigLen, SkLen, IsGenerated;
    var b, t := ChallengeBody(env, s, q[3], nonce), s.conn.vca + s.conn.tm + q + ChallengeBody(env, s, q[3], nonce);
    assert |b| == 86 + (if q[3] != 0 then 48 else 0) by {
      hide Blocks, Enabled;
    }
    assert |s.key.value.sk| == SkLen(ParamsOf(s.key.value.pset)) by { KeyLength(env, s.key.value); }
    hide ChallengeBody;
    if SignatureOf(env, s.key.value, CTX_CHAL, t, rnd).Some? {
      SignatureLength(env, s.key.value, CTX_CHAL, t, rnd);
    }
    hide SignatureOf;
  }

  lemma MeasurementsLength(env: Env, s: State, q: Bytes, nonce: Bytes, rnd: Bytes)
    requires env.Valid() && s.Valid(env) && |q| >= 4 && (q[3] == 0 || q[3] == 0xFF || q[3] <= s.nm) && |nonce| == 32
    requires q[2] % 2 == 1 ==> s.SlotOk()
    ensures var r := OnMeasurements(env, s, q, nonce, rnd).1;
      r.Some? ==> |r.value| <= 42 + 55 * BlockCount(s, q[3]) + (if q[2] % 2 == 1 then s.SignatureLen() else 0)
  {
    hide SigLen, SkLen, IsGenerated, Blocks, BitAt;
    var sel := Selection(s, q[3]);
    assert |sel| <= BlockCount(s, q[3]) by {
      EnabledCount(s.cfg, s.nm, s.cfg.mEn);
      OnesBelowCount(s.cfg.mEn, s.nm);
      hide Enabled, Ones, PopCount;
    }
    hide Enabled;
    var b := MeasurementsBody(s, q[3], nonce);
    assert |b| == 42 + 55 * |sel|;
    hide MeasurementsBody, Selection;
    if q[2] % 2 == 1 {
      KeyLength(env, s.key.value);
      var t := s.conn.vca + s.conn.tl + q + b;
      if SignatureOf(env, s.key.value, CTX_MEAS, t, rnd).Some? {
        SignatureLength(env, s.key.value, CTX_MEAS, t, rnd);
      }
    }
    hide SignatureOf;
  }

  /** What the checks of a negotiated connection establish about sizes. */
  lemma PassedSizes(s: State, q: Bytes)
    requires Check(s, q) == 0 && s.conn.stage == 3
    ensures |q| >= 4
    ensures q[1] == GET_DIGESTS && s.SlotOk() ==> s.conn.dts >= 52
    ensures q[1] == GET_CERTIFICATE ==> |q| == 8 && FromLittle(q[4..6]) < |s.cfg.cc| && s.SlotOk()
    ensures q[1] == CHALLENGE ==>
      |q| == 36 && s.SlotOk() && 86 + (if q[3] != 0 then 48 else 0) + s.SignatureLen() <= s.conn.dts
    ensures q[1] == GET_MEASUREMENTS ==> (q[3] == 0 || q[3] == 0xFF || q[3] <= s.nm) && (q[2] % 2 == 1 ==> s.SlotOk())
    ensures q[1] == GET_MEASUREMENTS ==>
      42 + 55 * BlockCount(s, q[3]) + (if q[2] % 2 == 1 then s.SignatureLen() else 0) <= s.conn.dts
    ensures q[1] != GET_CAPABILITIES && q[1] != NEGOTIATE_ALGORITHMS && (q[1] == GET_VERSION || IsKnown(q[1]))
  {
    hide FromLittle, SigLen, BlockCount, BitAt;
  }

  // ---------- signatures ----------

  lemma SplitAt(b: Bytes, sig: Bytes, n: nat)
    requires n == |b + sig| - |sig|
    ensures (b + sig)[..n] == b && (b + sig)[n..] == sig
  {}

  /** The requester's check of r with its own transcript succeeds under the responder's public key. */
  ghost predicate Accepts(env: Env, key: Option<Key>, before: Bytes, q: Bytes, r: Bytes, ctx: Bytes)
    requires env.Valid()
  {
    && key.Some? && |r| >= SigLen(ParamsOf(key.value.pset))
    && VerifyChallengeAuth(env, key.value.pk, key.value.pset, before, q, r, ctx) == Some(true)
  }

  /** A signature over a transcript and its response passes the requester's check of the same transcript. */
  lemma SignatureAccepted(env: Env, key: Key, ctx: Bytes, before: Bytes, q: Bytes, body: Bytes, rnd: Bytes)
    requires env.Valid() && IsGenerated(env, key)
    requires SignatureOf(env, key, ctx, before + q + body, rnd).Some?
    ensures var r := body + SignatureOf(env, key, ctx, before + q + body, rnd).value;
      |r| >= SigLen(ParamsOf(key.pset)) && VerifyChallengeAuth(env, key.pk, key.pset, before, q, r, ctx) == Some(true)
  {
    var p := ParamsOf(key.pset);
    var sig := SignatureOf(env, key, ctx, before + q + body, rnd).value;
    var xi :| MlDsa.KeyGenOf(env.shake, xi, p) == Some((key.pk, key.sk));
    Completeness.SignaturesVerify(env.shake, xi, SignedMessage(env, ctx, before + q + body), rnd, p, None);
    hide MlDsa.KeyGenOf, MlDsa.SignOf, MlDsa.VerifyOf, SkLen, SigLen, PkLen, SignedMessage, ParamsOf;
    SplitAt(body, sig, |body|);
  }

  /** In every run, a requester that folded the wire accepts every CHALLENGE_AUTH and every signed
      MEASUREMENTS response under the responder's public key. */
  lemma SignedResponsesVerify(env: Env, nm: nat, cfg: Config, events: seq<Event>, q: Bytes, nonce: Bytes, rnd: Bytes)
    requires env.Valid() && nm < 256 && cfg.Valid(nm) && forall i :: 0 <= i < |events| ==> IsEvent(events[i], nm)
    ensures Inv(env, Fresh(nm, cfg))
    ensures var (s, log) := After(env, Fresh(nm, cfg), events); var v := Folded(log);
      var r := Answer(env, s, q, nonce, rnd).1;
      Check(s, q) == 0 && s.conn.stage != 0 && r.Some? ==>
        && (q[1] == CHALLENGE ==> Accepts(env, s.key, v.vca + v.tm, q, r.value, CTX_CHAL))
        && (q[1] == GET_MEASUREMENTS && q[2] % 2 == 1 ==> Accepts(env, s.key, v.vca + v.tl, q, r.value, CTX_MEAS))
  {
    FreshInv(env, nm, cfg);
    RequesterKnows(env, nm, cfg, events);
    hide IsEvent, Fresh, Folded;
    var (s, log) := After(env, Fresh(nm, cfg), events);
    hide After;
    if Check(s, q) == 0 && s.conn.stage != 0 {
      Passed(s, q);
      if q[1] == CHALLENGE || q[1] == GET_MEASUREMENTS {
        AnswerVerifies(env, s, q, nonce, rnd);
      }
    }
  }

  lemma AnswerVerifies(env: Env, s: State, q: Bytes, nonce: Bytes, rnd: Bytes)
    requires env.Valid() && Inv(env, s) && Check(s, q) == 0 && s.conn.stage == 3 && |q| >= 4
    ensures var r := Answer(env, s, q, nonce, rnd).1;
      r.Some? ==>
        && (q[1] == CHALLENGE ==> Accepts(env, s.key, s.conn.vca + s.conn.tm, q, r.value, CTX_CHAL))
        && (q[1] == GET_MEASUREMENTS && q[2] % 2 == 1 ==>
              Accepts(env, s.key, s.conn.vca + s.conn.tl, q, r.value, CTX_MEAS))
  {
    hide SigLen, SkLen, FromLittle, OnVersion, OnCapabilities, OnAlgorithms, OnDigests, OnCertificate, BlockCount;
    hide SignatureOf, VerifyChallengeAuth, ChallengeBody, MeasurementsBody, IsGenerated;
    PassedSizes(s, q);
    hide Check;
    if q[1] == CHALLENGE {
      var b := ChallengeBody(env, s, q[3], nonce);
      KeyLength(env, s.key.value);
      if SignatureOf(env, s.key.value, CTX_CHAL, s.conn.vca + s.conn.tm + q + b, rnd).Some? {
        SignatureAccepted(env, s.key.value, CTX_CHAL, s.conn.vca + s.conn.tm, q, b, rnd);
      }
    } else if q[1] == GET_MEASUREMENTS && q[2] % 2 == 1 {
      var b := MeasurementsBody(s, q[3], nonce);
      KeyLength(env, s.key.value);
      if SignatureOf(env, s.key.value, CTX_MEAS, s.conn.vca + s.conn.tl + q + b, rnd).Some? {
        SignatureAccepted(env, s.key.value, CTX_MEAS, s.conn.vca + s.conn.tl, q, b, rnd);
      }
    }
  }

  // ---------- fetching the certificate chain ----------

  function CertificateRequest(off: nat, ln: nat): (q: Bytes)
    ensures |q| == 8
  {
    [0x12, GET_CERTIFICATE, 0, 0] + U16(off) + U16(ln)
  }

  /** A connection on which certificates can be read. */
  ghost predicate CanFetch(env: Env, s: State)
    requires env.Valid()
  {
    && Inv(env, s) && s.conn.stage == 3 && s.conn.hashOk && s.conn.asymOk && s.SlotOk()
  }

  /** What a portion of the chain looks like to the requester. */
  ghost predicate IsPortion(r: Bytes, cc: Bytes, off: nat, ln: nat, dts: nat) {
    && |r| >= 8 && r[1] == 0x02
    && FromLittle(r[4..6]) <= ln && (ln > 0 ==> FromLittle(r[4..6]) > 0)
    && off + FromLittle(r[4..6]) + FromLittle(r[6..8]) == |cc|
    && |r| == 8 + FromLittle(r[4..6]) <= dts
    && r[8..] == cc[off..off + FromLittle(r[4..6])]
  }

  /** What a certificate request leaves unread. */
  function Remainder(s: State, off: nat, ln: nat): (n: nat)
    requires off < |s.cfg.cc| && s.conn.dts >= 8
  {
    |s.cfg.cc| - off - Portion(s, off, ln)
  }

  lemma PortionFields(s: State, q: Bytes, off: nat, ln: nat)
    requires |q| == 8 && FromLittle(q[4..6]) == off < |s.cfg.cc| && FromLittle(q[6..8]) == ln < 65536
    requires s.conn.dts >= 42
    ensures var (c, r) := OnCertificate(s, q);
      if Remainder(s, off, ln) >= 65536 then r == None && c == s.conn
      else r.Some? && IsPortion(r.value, s.cfg.cc, off, ln, s.conn.dts) && c == s.conn.(tm := c.tm)
  {
    FourBytes();
    var por, rem := Portion(s, off, ln), Remainder(s, off, ln);
    if rem < 65536 {
      FromLittleBytes(por, 2);
      FromLittleBytes(rem, 2);
      hide FromLittle, LittleBytes, Pow256;
      var r := [0x12, 0x02, 0, 0] + U16(por) + U16(rem) + s.cfg.cc[off..off + por];
      assert OnCertificate(s, q).1 == Some(r);
      assert r[4..6] == U16(por) && r[6..8] == U16(rem) && r[8..] == s.cfg.cc[off..off + por];
    }
  }

  lemma CertificatePasses(s: State, q: Bytes)
    requires s.conn.stage == 3 && s.conn.hashOk && s.conn.asymOk && s.SlotOk()
    requires |q| == 8 && q[0] == 0x12 && q[1] == GET_CERTIFICATE && q[2] == 0 && FromLittle(q[4..6]) < |s.cfg.cc|
    ensures Check(s, q) == 0
  {
    hide FromLittle;
  }

  /** One GET_CERTIFICATE, whatever the chain: it is answered exactly when the remainder fits its two bytes. Then the
      portion is empty only if the length is zero, its two length fields are true, it is the chain from the offset on,
      and it fits the transfer size. Otherwise the conversion of the remainder overflows, and nothing changes. */
  lemma PortionReturned(env: Env, s: State, off: nat, ln: nat)
    requires env.Valid() && CanFetch(env, s) && off < |s.cfg.cc| && off < 65536 && ln < 65536
    ensures s.conn.dts >= 42
    ensures var (c, r) := Answer(env, s, CertificateRequest(off, ln), [], []);
      && (r.None? <==> Remainder(s, off, ln) >= 65536)
      && (if r.None? then c == s.conn
          else IsPortion(r.value, s.cfg.cc, off, ln, s.conn.dts) && c == s.conn.(tm := c.tm))
      && CanFetch(env, s.(conn := c))
  {
    hide Answer, Check, OnCertificate, IsPortion, FromLittle, IsGenerated, ConnValid, CertificateRequest, Remainder;
    var q := CertificateRequest(off, ln);
    RequestFields(off, ln);
    CertificatePasses(s, q);
    assert s.conn.dts >= 42 by { TransferSize(s); }
    PortionFields(s, q, off, ln);
    CertificateAnswer(env, s, q);
    RequestKeeps(env, s, q, [], []);
  }

  /** Every request with an offset in the chain and a nonzero length is answered if and only if the chain has at most
      65536 bytes; in a longer chain the request for its first byte is not. */
  lemma EveryPortionAnswered(env: Env, s: State)
    requires env.Valid() && CanFetch(env, s)
    ensures (forall off: nat, ln: nat :: off < |s.cfg.cc| && off < 65536 && 0 < ln < 65536 ==>
               Answer(env, s, CertificateRequest(off, ln), [], []).1.Some?) <==> |s.cfg.cc| <= 65536
  {
    hide Answer, CertificateRequest, IsGenerated, IsPortion, Remainder;
    forall off: nat, ln: nat | off < |s.cfg.cc| && off < 65536 && 0 < ln < 65536 && |s.cfg.cc| <= 65536
      ensures Answer(env, s, CertificateRequest(off, ln), [], []).1.Some?
    {
      PortionReturned(env, s, off, ln);
      RemainderBound(s, off, ln);
    }
    if |s.cfg.cc| > 65536 {
      PortionReturned(env, s, 0, 1);
      RemainderBound(s, 0, 1);
      assert Answer(env, s, CertificateRequest(0, 1), [], []).1.None?;
    }
  }

  lemma RemainderBound(s: State, off: nat, ln: nat)
    requires off < |s.cfg.cc| && s.conn.dts >= 42
    ensures ln > 0 ==> Remainder(s, off, ln) < |s.cfg.cc| - off
    ensures Remainder(s, off, ln) >= |s.cfg.cc| - off - ln
  {}

  /** A chain of 65537 bytes, from its start, one byte asked for. */
  lemma FirstByteFails(env: Env, s: State)
    requires env.Valid() && CanFetch(env, s) && |s.cfg.cc| == 65537
    ensures Answer(env, s, CertificateRequest(0, 1), [], []) == (s.conn, None)
  {
    hide Answer, CertificateRequest, IsGenerated, IsPortion, Remainder;
    PortionReturned(env, s, 0, 1);
    RemainderBound(s, 0, 1);
  }

  lemma TransferSize(s: State)
    requires ConnValid(s) && s.conn.stage == 3
    ensures s.conn.dts >= 42
  {}

  lemma RequestFields(off: nat, ln: nat)
    requires off < 65536 && ln < 65536
    ensures var q := CertificateRequest(off, ln);
      q[0] == 0x12 && q[1] == GET_CERTIFICATE && q[2] == 0 && FromLittle(q[4..6]) == off && FromLittle(q[6..8]) == ln
  {
    FourBytes();
    FromLittleBytes(off, 2);
    FromLittleBytes(ln, 2);
    hide FromLittle, LittleBytes, Pow256;
    var q := CertificateRequest(off, ln);
    assert q[4..6] == U16(off) && q[6..8] == U16(ln);
  }

  lemma CertificateAnswer(env: Env, s: State, q: Bytes)
    requires env.Valid() && Inv(env, s) && Check(s, q) == 0 && |q| == 8 && q[1] == GET_CERTIFICATE && s.conn.dts >= 42
    requires FromLittle(q[4..6]) < |s.cfg.cc|
    ensures Answer(env, s, q, [], []) == OnCertificate(s, q)
  {
    hide Check, OnCertificate, OnVersion, OnCapabilities, OnAlgorithms, OnDigests, OnChallenge, OnMeasurements;
    hide FromLittle, IsGenerated;
  }

  /** A requester that reads portion after portion, with any nonzero lengths, gets nothing but the whole chain, and
      gets it whenever the chain has at most 65536 bytes. None stands for an offset or a remainder that does not fit
      two bytes. */
  method FetchChain(env: Env, resp: Responder, lens: nat -> nat) returns (chain: Option<Bytes>)
    requires env.Valid() && CanFetch(env, resp.View()) && forall i: nat :: 0 < lens(i) < 65536
    modifies resp
    ensures chain == None || chain == Some(old(resp.View()).cfg.cc)
    ensures |old(resp.View()).cfg.cc| <= 65536 ==> chain.Some?
    ensures resp.View().cfg == old(resp.View()).cfg && resp.View().conn.stage == 3
  {
    hide FromLittle, LittleBytes, IsGenerated, SkLen, Answer, Check;
    ghost var s0 := resp.View();
    var got: Bytes := [];
    var n := 0;
    var more := true;
    while more
      invariant CanFetch(env, resp.View()) && resp.View().cfg == s0.cfg
      invariant |got| <= |s0.cfg.cc| && got == s0.cfg.cc[..|got|]
      invariant more <==> |got| < |s0.cfg.cc|
      decreases |s0.cfg.cc| - |got|
    {
      if |got| >= 65536 { return None; }
      ghost var s := resp.View();
      PortionReturned(env, s, |got|, lens(n));
      RemainderBound(s, |got|, lens(n));
      var r := resp.Handle(env, CertificateRequest(|got|, lens(n)), [], []);
      if r == None { return None; }
      got := got + r.value[8..];
      more := FromLittle(r.value[6..8]) != 0;
      n := n + 1;
    }
    assert got == s0.cfg.cc;
    chain := Some(got);
  }
}
