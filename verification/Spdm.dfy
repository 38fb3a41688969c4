/** The SPDM 1.2 responder of scripts/spdm/spdm_ref.py: request checks, the connection state, the
    transcripts and the signed responses. What raises an exception is None and changes nothing. */
module Spdm {
  import opened Arithmetic
  import opened Options
  import opened BitFields
  import opened Hashing
  import opened KeyCodec
  import MlDsa

  datatype Env = Env(shake: Shake, sha384: Bytes -> Bytes) {
    ghost predicate Valid() {
      shake.Valid() && forall b :: |sha384(b)| == 48
    }
  }

  // ---------- constants ----------

  const RQ_MAX: nat := 128
  const GET_VERSION: Byte := 0x84
  const GET_CAPABILITIES: Byte := 0xE1
  const NEGOTIATE_ALGORITHMS: Byte := 0xE3
  const GET_DIGESTS: Byte := 0x81
  const GET_CERTIFICATE: Byte := 0x82
  const CHALLENGE: Byte := 0x83
  const GET_MEASUREMENTS: Byte := 0xE0
  const INVALID_REQUEST: Byte := 0x01
  const UNEXPECTED_REQUEST: Byte := 0x04
  const UNSUPPORTED_REQUEST: Byte := 0x07
  const RESPONSE_TOO_LARGE: Byte := 0x0D
  const VERSION_MISMATCH: Byte := 0x41
  const RSP_FLAGS: nat := 22
  const BASE_HASH_SHA3_384: nat := 16
  const MEAS_HASH_SHA3_384: nat := 32

  predicate IsKnown(code: Byte) {
    code == GET_CAPABILITIES || code == NEGOTIATE_ALGORITHMS || code == GET_DIGESTS || code == GET_CERTIFICATE
    || code == CHALLENGE || code == GET_MEASUREMENTS
  }

  /** int.from_bytes(b, "little"). */
  function FromLittle(b: Bytes): nat {
    if b == [] then 0 else b[0] + 256 * FromLittle(b[1..])
  }

  function U16(v: nat): (b: Bytes)
    ensures |b| == 2
  {
    LittleBytes(v, 2)
  }

  function U32(v: nat): (b: Bytes)
    ensures |b| == 4
  {
    LittleBytes(v, 4)
  }

  function ZeroBytes(n: nat): (b: Bytes)
    ensures |b| == n
  {
    seq(n, _ => 0)
  }

  // ---------- state ----------

  function ParamsOf(pset: nat): (p: Params)
    ensures IsParams(p)
  {
    if pset == 0 then ML_DSA_44 else if pset == 1 then ML_DSA_65 else ML_DSA_87
  }

  datatype Key = Key(pset: nat, pk: Bytes, sk: Bytes)

  /** A key pair that key generation returned for some seed. */
  ghost predicate IsGenerated(env: Env, key: Key)
    requires env.Valid()
  {
    && |key.sk| == SkLen(ParamsOf(key.pset))
    && exists xi :: MlDsa.KeyGenOf(env.shake, xi, ParamsOf(key.pset)) == Some((key.pk, key.sk))
  }

  /** What the host configures. */
  datatype Config = Config(ctExp: Byte, asymId: nat, cc: Bytes, mEn: nat, mTcb: nat, mType: seq<Byte>,
                           mVal: seq<Bytes>) {
    predicate Valid(nm: nat) {
      && asymId < 0x1_0000_0000 && |mType| == nm && |mVal| == nm
      && forall i :: 0 <= i < nm ==> |mVal[i]| == 48
    }
  }

  /** What a connection has agreed on and exchanged so far. */
  datatype Conn = Conn(stage: nat, vca: Bytes, tm: Bytes, tl: Bytes, hashOk: bool, asymOk: bool, measOk: bool, dts: nat)

  const NO_CONN: Conn := Conn(0, [], [], [], false, false, false, 0)

  datatype State = State(nm: nat, cfg: Config, key: Option<Key>, conn: Conn) {
    /** Key pairs come from key generation. */
    ghost predicate Valid(env: Env)
      requires env.Valid()
    {
      && nm < 256 && cfg.Valid(nm) && conn.stage <= 3
      && (key.Some? ==> IsGenerated(env, key.value))
    }

    function DtsMax(): (m: nat)
      ensures m >= 4761
    {
      var a := 8 + 55 * nm + 34 + 4627;
      if a > 4761 then a else 4761
    }

    predicate SlotOk() {
      |cfg.cc| != 0 && key.Some?
    }

    function SignatureLen(): nat {
      SigLen(ParamsOf(if key.Some? then key.value.pset else 0))
    }
  }

  /** The measurement block of index i. */
  function Block(cfg: Config, nm: nat, i: nat): (b: Bytes)
    requires cfg.Valid(nm) && i < nm < 256
    ensures |b| == 55
  {
    [i + 1, 1] + U16(51) + [cfg.mType[i]] + U16(48) + cfg.mVal[i]
  }

  /** The enabled indices below n, those outside the trusted base left out if asked. */
  function Enabled(cfg: Config, n: nat, tcbOnly: bool): (s: seq<nat>)
    ensures |s| <= n && forall i :: 0 <= i < |s| ==> s[i] < n
  {
    if n == 0 then []
    else
      var last := BitAt(cfg.mEn, n - 1) == 1 && (!tcbOnly || BitAt(cfg.mTcb, n - 1) == 1);
      Enabled(cfg, n - 1, tcbOnly) + if last then [n - 1] else []
  }

  function Blocks(cfg: Config, nm: nat, sel: seq<nat>): (b: Bytes)
    requires cfg.Valid(nm) && nm < 256 && forall i :: 0 <= i < |sel| ==> sel[i] < nm
    ensures |b| == 55 * |sel|
  {
    if sel == [] then [] else Block(cfg, nm, sel[0]) + Blocks(cfg, nm, sel[1..])
  }

  /** bin(v).count("1"). */
  function PopCount(v: nat): nat {
    if v == 0 then 0 else v % 2 + PopCount(v / 2)
  }

  // ---------- signatures ----------

  /** b"dmtf-spdm-v1.2.*". */
  const PREFIX: Bytes := [100, 109, 116, 102, 45, 115, 112, 100, 109, 45, 118, 49, 46, 50, 46, 42]

  /** b"responder-challenge_auth signing". */
  const CTX_CHAL: Bytes := [114, 101, 115, 112, 111, 110, 100, 101, 114, 45, 99, 104, 97, 108, 108, 101, 110, 103, 101,
                            95, 97, 117, 116, 104, 32, 115, 105, 103, 110, 105, 110, 103]

  /** b"responder-measurements signing". */
  const CTX_MEAS: Bytes := [114, 101, 115, 112, 111, 110, 100, 101, 114, 45, 109, 101, 97, 115, 117, 114, 101, 109, 101,
                            110, 116, 115, 32, 115, 105, 103, 110, 105, 110, 103]

  /** combined_spdm_prefix || message_hash. */
  function SigningInput(ctx: Bytes, digest: Bytes): Bytes {
    PREFIX + PREFIX + PREFIX + PREFIX + ZeroBytes(if |ctx| < 36 then 36 - |ctx| else 0) + ctx + digest
  }

  /** The message that is signed: pure ML-DSA with an empty context. */
  function SignedMessage(env: Env, ctx: Bytes, transcript: Bytes): Bytes {
    [0, 0] + SigningInput(ctx, env.sha384(transcript))
  }

  function SignatureOf(env: Env, key: Key, ctx: Bytes, transcript: Bytes, rnd: Bytes): Option<Bytes>
    requires env.Valid() && |key.sk| >= SkLen(ParamsOf(key.pset))
  {
    MlDsa.SignOf(env.shake, key.sk, SignedMessage(env, ctx, transcript), rnd, ParamsOf(key.pset), None)
  }

  /** The requester's check of a signed response. */
  ghost function VerifyChallengeAuth(env: Env, pk: Bytes, pset: nat, before: Bytes, req: Bytes, rsp: Bytes,
                                     ctx: Bytes): Option<bool>
    requires env.Valid() && |rsp| >= SigLen(ParamsOf(pset))
  {
    var n := |rsp| - SigLen(ParamsOf(pset));
    MlDsa.VerifyOf(env.shake, pk, SignedMessage(env, ctx, before + req + rsp[..n]), rsp[n..], ParamsOf(pset), None)
  }

  // ---------- requests ----------

  function ErrorOf(s: State, q: Bytes, code: Byte, data: Byte): (r: Bytes)
    ensures |r| == 4 && r[1] == 0x7F
  {
    var ver := if s.conn.stage == 0 || |q| < 2 || q[1] == GET_VERSION then 0x10 else 0x12;
    [ver, 0x7F, code, data]
  }

  /** How many blocks an unsigned or signed measurement response carries at most. */
  function BlockCount(s: State, op: Byte): nat {
    if op == 0 then 0 else if op == 0xFF then PopCount(s.cfg.mEn) else 1
  }

  /** The ERROR code for request q, or 0. */
  function Check(s: State, q: Bytes): (e: Byte)
  {
    var n := |q|;
    if n > RQ_MAX || n < 4 then INVALID_REQUEST
    else
      var ver, code, p1, p2 := q[0], q[1], q[2], q[3];
      if code == GET_VERSION then
        if ver != 0x10 then VERSION_MISMATCH else if n != 4 then INVALID_REQUEST else 0
      else if !IsKnown(code) then UNSUPPORTED_REQUEST
      else if s.conn.stage == 0 then UNEXPECTED_REQUEST
      else if ver != 0x12 then VERSION_MISMATCH
      else if code == GET_CAPABILITIES then
        if s.conn.stage != 1 then UNEXPECTED_REQUEST
        else if n != 20 then INVALID_REQUEST
        else
          var dts, msz := FromLittle(q[12..16]), FromLittle(q[16..20]);
          if dts < 42 || msz < dts then INVALID_REQUEST else 0
      else if code == NEGOTIATE_ALGORITHMS then
        if s.conn.stage != 2 then UNEXPECTED_REQUEST
        else if n < 32 then INVALID_REQUEST
        else
          var length: nat, a: nat, e: nat := FromLittle(q[4..6]), q[28], q[29];
          if length != n || a + e > 20 || length < 32 + 4 * (a + e) then INVALID_REQUEST else 0
      else if !(s.conn.stage == 3 && s.conn.hashOk && s.conn.asymOk) then UNEXPECTED_REQUEST
      else if code == GET_DIGESTS then
        if n != 4 then INVALID_REQUEST
        else if s.SlotOk() && s.conn.dts < 52 then RESPONSE_TOO_LARGE else 0
      else if code == GET_CERTIFICATE then
        if n != 8 || p1 % 16 != 0 || !s.SlotOk() || FromLittle(q[4..6]) >= |s.cfg.cc| then INVALID_REQUEST else 0
      else if code == CHALLENGE then
        if n != 36 || p1 != 0 || !s.SlotOk() || !(p2 == 0 || p2 == 1 || p2 == 0xFF) then INVALID_REQUEST
        else if 86 + (if p2 != 0 then 48 else 0) + s.SignatureLen() > s.conn.dts then RESPONSE_TOO_LARGE else 0
      else
        CheckMeasurements(s, q)
  }

  /** The checks of GET_MEASUREMENTS. */
  function CheckMeasurements(s: State, q: Bytes): Byte
    requires |q| >= 4
  {
    var p1: nat, p2: nat := q[2], q[3];
    var sig := p1 % 2 == 1;
    if !s.conn.measOk then UNSUPPORTED_REQUEST
    else if |q| != (if sig then 37 else 4) then INVALID_REQUEST
    else if p2 != 0 && p2 != 0xFF && !(p2 <= s.nm && BitAt(s.cfg.mEn, p2 - 1) == 1) then INVALID_REQUEST
    else if sig && (q[36] != 0 || !s.SlotOk()) then INVALID_REQUEST
    else if 42 + 55 * BlockCount(s, q[3]) + (if sig then s.SignatureLen() else 0) > s.conn.dts then RESPONSE_TOO_LARGE
    else 0
  }

  function Exchanged(c: Conn, q: Bytes, r: Bytes): Conn {
    c.(vca := c.vca + q + r)
  }

  function OnVersion(s: State, q: Bytes): (Conn, Option<Bytes>) {
    var r := [0x10, 0x04, 0, 0, 0, 1] + U16(0x1200);
    (NO_CONN.(stage := 1, vca := q + r), Some(r))
  }

  function OnCapabilities(s: State, q: Bytes): (Conn, Option<Bytes>)
    requires |q| == 20
  {
    var dts := FromLittle(q[12..16]);
    var r := [0x12, 0x61, 0, 0, 0, s.cfg.ctExp, 0, 0] + U32(RSP_FLAGS) + U32(s.DtsMax()) + U32(s.DtsMax());
    (Exchanged(s.conn, q, r).(stage := 2, dts := if dts < s.DtsMax() then dts else s.DtsMax()), Some(r))
  }

  /** Whether id is among the first n extended algorithms of the request. */
  predicate Offers(q: Bytes, n: nat, id: nat)
    requires 32 + 4 * n <= |q|
  {
    exists i :: 0 <= i < n && FromLittle(q[32 + 4 * i..36 + 4 * i]) == id
  }

  function AlgorithmsResponse(s: State, hashOk: bool, asymOk: bool, measOk: bool): (r: Bytes)
    ensures |r| == if asymOk then 40 else 36
  {
    [0x12, 0x63, 0, 0] + U16(if asymOk then 40 else 36)
    + [if measOk then 1 else 0, 0] + U32(if measOk then MEAS_HASH_SHA3_384 else 0)
    + U32(0) + U32(if hashOk then BASE_HASH_SHA3_384 else 0) + ZeroBytes(12)
    + [if asymOk then 1 else 0, 0, 0, 0] + (if asymOk then U32(s.cfg.asymId) else [])
  }

  function OnAlgorithms(s: State, q: Bytes): (Conn, Option<Bytes>)
    requires |q| >= 32 && 32 + 4 * q[28] <= |q|
  {
    var hashOk := BitAt(FromLittle(q[12..16]), 4) == 1;
    var asymOk := Offers(q, q[28], s.cfg.asymId);
    var measOk := q[6] % 2 == 1;
    var r := AlgorithmsResponse(s, hashOk, asymOk, measOk);
    (Exchanged(s.conn, q, r).(stage := 3, hashOk := hashOk, asymOk := asymOk, measOk := measOk), Some(r))
  }

  function OnDigests(env: Env, s: State, q: Bytes): (Conn, Option<Bytes>) {
    var r := [0x12, 0x01, 0, if s.SlotOk() then 1 else 0] + (if s.SlotOk() then env.sha384(s.cfg.cc) else []);
    (s.conn.(tm := s.conn.tm + q + r), Some(r))
  }

  function Min(a: int, b: int): int {
    if a < b then a else b
  }

  /** The portion of the chain that is returned from an offset on. */
  function Portion(s: State, off: nat, ln: nat): (n: int)
    requires off < |s.cfg.cc|
    ensures n <= ln && n <= |s.cfg.cc| - off && n <= s.conn.dts - 8
  {
    Min(Min(ln, |s.cfg.cc| - off), s.conn.dts - 8)
  }

  function OnCertificate(s: State, q: Bytes): (Conn, Option<Bytes>)
    requires |q| == 8 && FromLittle(q[4..6]) < |s.cfg.cc| && s.conn.dts >= 8
  {
    var off, ln := FromLittle(q[4..6]), FromLittle(q[6..8]);
    var por := Portion(s, off, ln);
    var rem := |s.cfg.cc| - off - por;
    if rem >= 65536 then (s.conn, None)
    else
      var r := [0x12, 0x02, 0, 0] + U16(por) + U16(rem) + s.cfg.cc[off..off + por];
      (s.conn.(tm := s.conn.tm + q + r), Some(r))
  }

  /** The measurement summary of a challenge. */
  function Summary(env: Env, s: State, op: Byte): Bytes
    requires s.cfg.Valid(s.nm) && s.nm < 256
  {
    if op == 0 then [] else env.sha384(Blocks(s.cfg, s.nm, Enabled(s.cfg, s.nm, op != 0xFF)))
  }

  /** The signed part of CHALLENGE_AUTH. */
  function ChallengeBody(env: Env, s: State, op: Byte, nonce: Bytes): Bytes
    requires s.cfg.Valid(s.nm) && s.nm < 256
  {
    [0x12, 0x03, 0, 1] + env.sha384(s.cfg.cc) + nonce + Summary(env, s, op) + U16(0)
  }

  function OnChallenge(env: Env, s: State, q: Bytes, nonce: Bytes, rnd: Bytes): (Conn, Option<Bytes>)
    requires env.Valid() && s.Valid(env) && s.SlotOk() && |q| == 36
  {
    var r := ChallengeBody(env, s, q[3], nonce);
    match SignatureOf(env, s.key.value, CTX_CHAL, s.conn.vca + s.conn.tm + q + r, rnd)
    case None => (s.conn, None)
    case Some(sig) => (s.conn.(tm := []), Some(r + sig))
  }

  /** The selected measurement blocks. */
  function Selection(s: State, op: Byte): (sel: seq<nat>)
    requires op == 0 || op == 0xFF || op <= s.nm
    ensures forall i :: 0 <= i < |sel| ==> sel[i] < s.nm
    ensures |sel| < 256 || |sel| <= s.nm
  {
    if op == 0 then [] else if op == 0xFF then Enabled(s.cfg, s.nm, false) else [op - 1]
  }

  function MeasurementsBody(s: State, op: Byte, nonce: Bytes): Bytes
    requires s.cfg.Valid(s.nm) && s.nm < 256 && (op == 0 || op == 0xFF || op <= s.nm)
  {
    var sel := Selection(s, op);
    var rec := Blocks(s.cfg, s.nm, sel);
    [0x12, 0x60, if op == 0 then |Enabled(s.cfg, s.nm, false)| else 0, 0, |sel|] + LittleBytes(|rec|, 3) + rec + nonce
      + U16(0)
  }

  function OnMeasurements(env: Env, s: State, q: Bytes, nonce: Bytes, rnd: Bytes): (Conn, Option<Bytes>)
    requires env.Valid() && s.Valid(env) && |q| >= 4 && (q[3] == 0 || q[3] == 0xFF || q[3] <= s.nm)
    requires q[2] % 2 == 1 ==> s.SlotOk()
  {
    var r := MeasurementsBody(s, q[3], nonce);
    if q[2] % 2 == 1 then
      match SignatureOf(env, s.key.value, CTX_MEAS, s.conn.vca + s.conn.tl + q + r, rnd)
      case None => (s.conn, None)
      case Some(sig) => (s.conn.(tl := []), Some(r + sig))
    else
      (s.conn.(tl := s.conn.tl + q + r), Some(r))
  }

  /** What a connection that has passed the stage of capabilities keeps. */
  ghost predicate ConnValid(s: State) {
    s.conn.stage >= 2 ==> 42 <= s.conn.dts <= s.DtsMax()
  }

  /** The answer to request q and the connection afterwards. */
  function Answer(env: Env, s: State, q: Bytes, nonce: Bytes, rnd: Bytes): (Conn, Option<Bytes>)
    requires env.Valid() && s.Valid(env) && ConnValid(s)
  {
    var e := Check(s, q);
    if e != 0 then (s.conn, Some(ErrorOf(s, q, e, if e == UNSUPPORTED_REQUEST then q[1] else 0)))
    else
      var code := q[1];
      if code == GET_VERSION then OnVersion(s, q)
      else if code == GET_CAPABILITIES then OnCapabilities(s, q)
      else if code == NEGOTIATE_ALGORITHMS then OnAlgorithms(s, q)
      else if code == GET_DIGESTS then OnDigests(env, s, q)
      else if code == GET_CERTIFICATE then OnCertificate(s, q)
      else if code == CHALLENGE then OnChallenge(env, s, q, nonce, rnd)
      else OnMeasurements(env, s, q, nonce, rnd)
  }

  // ---------- the responder ----------

  class Responder {
    const nm: nat
    var ctExp: Byte
    var asymId: nat
    var cc: Bytes
    var mEn: nat
    var mTcb: nat
    var mType: seq<Byte>
    var mVal: seq<Bytes>
    var key: Option<Key>
    var conn: nat
    var vca: Bytes
    var tm: Bytes
    var tl: Bytes
    var hashOk: bool
    var asymOk: bool
    var measOk: bool
    var dts: nat

    function View(): State
      reads this
    {
      State(nm, Config(ctExp, asymId, cc, mEn, mTcb, mType, mVal), key,
            Conn(conn, vca, tm, tl, hashOk, asymOk, measOk, dts))
    }

    constructor (n: nat)
      ensures nm == n
      ensures View() == State(n, Config(0, 0, [], 0, 0, seq(n, _ => 0), seq(n, _ => ZeroBytes(48))), None, NO_CONN)
    {
      nm := n;
      ctExp, asymId, cc, mEn, mTcb := 0, 0, [], 0, 0;
      mType, mVal := seq(n, _ => 0), seq(n, _ => ZeroBytes(48));
      key := None;
      conn, vca, tm, tl := 0, [], [], [];
      hashOk, asymOk, measOk, dts := false, false, false, 0;
    }

    method ResetConn()
      modifies this`conn, this`vca, this`tm, this`tl, this`hashOk, this`asymOk, this`measOk, this`dts
      ensures View() == old(View()).(conn := NO_CONN)
    {
      conn, dts := 0, 0;
      ForgetTranscripts();
      hashOk, asymOk, measOk := false, false, false;
    }

    method ForgetTranscripts()
      modifies this`vca, this`tm, this`tl
      ensures vca == [] && tm == [] && tl == []
    {
      vca, tm, tl := [], [], [];
    }

    method KeyGen(env: Env, pset: nat, seed: Bytes) returns (pk: Option<Bytes>)
      requires env.Valid() && pset < 3
      modifies this
      ensures var kp := MlDsa.KeyGenOf(env.shake, seed, ParamsOf(pset));
        if kp.None? then pk == None && View() == old(View())
        else pk == Some(kp.value.0) && View() == old(View()).(key := Some(Key(pset, kp.value.0, kp.value.1)))
    {
      var kp := MlDsa.KeyGen(env.shake, seed, ParamsOf(pset));
      if kp.None? { return None; }
      key := Some(Key(pset, kp.value.0, kp.value.1));
      pk := Some(kp.value.0);
    }

    method Clear()
      modifies this
      ensures View() == old(View()).(key := None, conn := NO_CONN)
    {
      key := None;
      ResetConn();
    }

    method Handle(env: Env, q: Bytes, nonce: Bytes, rnd: Bytes) returns (r: Option<Bytes>)
      requires env.Valid() && View().Valid(env) && ConnValid(View())
      modifies this
      ensures var a := Answer(env, old(View()), q, nonce, rnd); View() == old(View()).(conn := a.0) && r == a.1
    {
      hide OnMeasurements, OnChallenge, OnVersion, OnCapabilities, OnAlgorithms, OnCertificate, Offers, BitAt;
      var s := View();
      var e := Check(s, q);
      if e != 0 {
        return Some(ErrorOf(s, q, e, if e == UNSUPPORTED_REQUEST then q[1] else 0));
      }
      var code := q[1];
      if code == GET_VERSION {
        r := Version(s, q);
      } else if code == GET_CAPABILITIES {
        r := Capabilities(s, q);
      } else if code == NEGOTIATE_ALGORITHMS {
        r := Algorithms(s, q);
      } else if code == GET_DIGESTS {
        var v := [0x12, 0x01, 0, if s.SlotOk() then 1 else 0] + (if s.SlotOk() then env.sha384(cc) else []);
        tm := tm + q + v;
        r := Some(v);
      } else if code == GET_CERTIFICATE {
        r := Certificate(s, q);
      } else if code == CHALLENGE {
        r := Challenge(env, s, q, nonce, rnd);
      } else {
        r := Measurements(env, s, q, nonce, rnd);
      }
    }

    method Version(s: State, q: Bytes) returns (r: Option<Bytes>)
      requires s == View()
      modifies this
      ensures View() == s.(conn := OnVersion(s, q).0) && r == OnVersion(s, q).1
    {
      ResetConn();
      var v := [0x10, 0x04, 0, 0, 0, 1] + U16(0x1200);
      conn := 1;
      vca := q + v;
      r := Some(v);
    }

    method Capabilities(s: State, q: Bytes) returns (r: Option<Bytes>)
      requires s == View() && |q| == 20
      modifies this
      ensures View() == s.(conn := OnCapabilities(s, q).0) && r == OnCapabilities(s, q).1
    {
      var d := FromLittle(q[12..16]);
      dts := if d < s.DtsMax() then d else s.DtsMax();
      var v := [0x12, 0x61, 0, 0, 0, ctExp, 0, 0] + U32(RSP_FLAGS) + U32(s.DtsMax()) + U32(s.DtsMax());
      conn := 2;
      vca := vca + q + v;
      r := Some(v);
    }

    method Algorithms(s: State, q: Bytes) returns (r: Option<Bytes>)
      requires s == View() && |q| >= 32 && 32 + 4 * q[28] <= |q|
      modifies this
      ensures View() == s.(conn := OnAlgorithms(s, q).0) && r == OnAlgorithms(s, q).1
    {
      hide AlgorithmsResponse, Offers, BitAt;
      hashOk := BitAt(FromLittle(q[12..16]), 4) == 1;
      asymOk := Offers(q, q[28], asymId);
      measOk := q[6] % 2 == 1;
      var v := AlgorithmsResponse(s, hashOk, asymOk, measOk);
      conn := 3;
      vca := vca + q + v;
      r := Some(v);
      assert Conn(conn, vca, tm, tl, hashOk, asymOk, measOk, dts) == OnAlgorithms(s, q).0;
    }

    method Certificate(s: State, q: Bytes) returns (r: Option<Bytes>)
      requires s == View() && |q| == 8 && FromLittle(q[4..6]) < |s.cfg.cc| && s.conn.dts >= 8
      modifies this
      ensures View() == s.(conn := OnCertificate(s, q).0) && r == OnCertificate(s, q).1
    {
      var off, ln := FromLittle(q[4..6]), FromLittle(q[6..8]);
      var por := Portion(s, off, ln);
      var rem := |cc| - off - por;
      if rem >= 65536 { return None; }
      var v := [0x12, 0x02, 0, 0] + U16(por) + U16(rem) + cc[off..off + por];
      tm := tm + q + v;
      r := Some(v);
    }

    method Challenge(env: Env, s: State, q: Bytes, nonce: Bytes, rnd: Bytes) returns (r: Option<Bytes>)
      requires s == View() && env.Valid() && s.Valid(env) && s.SlotOk() && |q| == 36
      modifies this
      ensures var a := OnChallenge(env, s, q, nonce, rnd); View() == s.(conn := a.0) && r == a.1
    {
      hide SignatureOf, ChallengeBody;
      var v := ChallengeBody(env, s, q[3], nonce);
      var sig := SignatureOf(env, s.key.value, CTX_CHAL, vca + tm + q + v, rnd);
      if sig.None? { return None; }
      tm := [];
      r := Some(v + sig.value);
    }

    method Measurements(env: Env, s: State, q: Bytes, nonce: Bytes, rnd: Bytes) returns (r: Option<Bytes>)
      requires s == View() && env.Valid() && s.Valid(env) && |q| >= 4 && (q[3] == 0 || q[3] == 0xFF || q[3] <= s.nm)
      requires q[2] % 2 == 1 ==> s.SlotOk()
      modifies this
      ensures var a := OnMeasurements(env, s, q, nonce, rnd); View() == s.(conn := a.0) && r == a.1
    {
      hide SignatureOf, MeasurementsBody;
      var v := MeasurementsBody(s, q[3], nonce);
      if q[2] % 2 == 1 {
        var sig := SignatureOf(env, s.key.value, CTX_MEAS, vca + tl + q + v, rnd);
        if sig.None? { return None; }
        tl := [];
        r := Some(v + sig.value);
      } else {
        tl := tl + q + v;
        r := Some(v);
      }
    }
  }
}
