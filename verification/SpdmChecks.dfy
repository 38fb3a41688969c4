/** Which requests scripts/spdm/spdm_ref.py accepts, and the error code of every other, rule by rule. */
module SpdmChecks {
  import opened Arithmetic
  import opened Options
  import opened BitFields
  import opened KeyCodec
  import opened Spdm
  import opened SpdmRuns
  import opened SpdmLengths

  // ---------- the rules ----------

  /** Requests have 4 to 128 bytes. */
  predicate HasSize(q: Bytes) {
    4 <= |q| <= 128
  }

  predicate IsRequest(code: Byte) {
    code in [0xE1, 0xE3, 0x81, 0x82, 0x83, 0xE0]
  }

  /** The stage that a request other than GET_VERSION belongs to. */
  predicate InTurn(c: Conn, code: Byte) {
    if code == 0xE1 then c.stage == 1
    else if code == 0xE3 then c.stage == 2
    else c.stage == 3 && c.hashOk && c.asymOk
  }

  /** The bytes of the request are consistent and name something that the responder has. */
  predicate WellFormed(s: State, q: Bytes)
    requires HasSize(q)
  {
    var p1: nat, p2: nat := q[2], q[3];
    var slot := |s.cfg.cc| != 0 && s.key.Some?;
    match q[1] as int
    case 0x84 => |q| == 4
    case 0xE1 => |q| == 20 && 42 <= FromLittle(q[12..16]) <= FromLittle(q[16..20])
    case 0xE3 =>
      |q| >= 32 && FromLittle(q[4..6]) == |q| && Field(q, 28) + Field(q, 29) <= 20
      && 32 + 4 * (Field(q, 28) + Field(q, 29)) <= |q|
    case 0x81 => |q| == 4
    case 0x82 => |q| == 8 && p1 % 16 == 0 && slot && FromLittle(q[4..6]) < |s.cfg.cc|
    case 0x83 => |q| == 36 && p1 == 0 && p2 in [0, 1, 0xFF] && slot
    case _ =>
      && |q| == (if p1 % 2 == 1 then 37 else 4)
      && (p2 == 0 || p2 == 0xFF || (p2 <= s.nm && BitAt(s.cfg.mEn, p2 - 1) == 1))
      && (p1 % 2 == 1 ==> q[36] == 0 && slot)
  }

  /** How long the response would be, as far as the check knows; portions of a chain are cut to fit. */
  function Needed(s: State, q: Bytes): nat
    requires HasSize(q)
  {
    var p1: nat, p2: nat := q[2], q[3];
    match q[1] as int
    case 0x81 => if s.SlotOk() then 52 else 4
    case 0x83 => 86 + (if p2 != 0 then 48 else 0) + s.SignatureLen()
    case 0xE0 =>
      42 + 55 * (if p2 == 0 then 0 else if p2 == 0xFF then PopCount(s.cfg.mEn) else 1)
      + (if p1 % 2 == 1 then s.SignatureLen() else 0)
    case _ => 0
  }

  /** The version byte is the one that the request must have. */
  predicate VersionRight(q: Bytes)
    requires HasSize(q)
  {
    if q[1] == 0x84 then q[0] == 0x10 else q[0] == 0x12
  }

  /** The request is known, it is its turn, and measurements were agreed on if they are asked for. */
  predicate Supported(s: State, q: Bytes)
    requires HasSize(q)
  {
    q[1] == 0x84 || (IsRequest(q[1]) && s.conn.stage != 0 && InTurn(s.conn, q[1]) && (q[1] == 0xE0 ==> s.conn.measOk))
  }

  /** A request is accepted if and only if it has a right size, a right version, is supported in the present stage, is
      well formed, and is answered within the agreed transfer size. */
  lemma AcceptedIff(s: State, q: Bytes)
    ensures Check(s, q) == 0 <==>
      HasSize(q) && VersionRight(q) && Supported(s, q) && WellFormed(s, q) && (q[1] in [0x81, 0x83, 0xE0] ==>
        Needed(s, q) <= s.conn.dts || (q[1] == 0x81 && !s.SlotOk()))
  {
    hide FromLittle, BitAt, PopCount;
  }

  /** The response would be longer than the transfer size. */
  predicate TooLarge(s: State, q: Bytes)
    requires HasSize(q)
  {
    q[1] in [0x81, 0x83, 0xE0] && Needed(s, q) > s.conn.dts && (q[1] == 0x81 ==> s.SlotOk())
  }

  /** When each error code is given: of the rules that are broken, the size comes first, then whether the request is
      known, then whether there is a connection, then the version, its turn, and last its form and the size of the
      response. */
  lemma ErrorCodes(s: State, q: Bytes)
    ensures Check(s, q) in [0, 0x01, 0x04, 0x07, 0x0D, 0x41]
    ensures Check(s, q) == 0x41 <==>
      HasSize(q) && (q[1] == 0x84 || (IsRequest(q[1]) && s.conn.stage != 0)) && !VersionRight(q)
    ensures Check(s, q) == 0x07 <==>
      HasSize(q) && q[1] != 0x84
      && (!IsRequest(q[1])
          || (q[1] == 0xE0 && s.conn.stage != 0 && VersionRight(q) && InTurn(s.conn, 0xE0) && !s.conn.measOk))
    ensures Check(s, q) == 0x04 <==>
      HasSize(q) && IsRequest(q[1]) && (s.conn.stage == 0 || (VersionRight(q) && !InTurn(s.conn, q[1])))
    ensures Check(s, q) == 0x01 <==>
      !HasSize(q) || (VersionRight(q) && Supported(s, q) && !WellFormed(s, q))
    ensures Check(s, q) == 0x0D <==>
      HasSize(q) && VersionRight(q) && Supported(s, q) && WellFormed(s, q) && TooLarge(s, q)
  {
    hide FromLittle, BitAt, PopCount;
  }

  // ---------- the size of a response ----------

  /** The host has enabled no measurement that does not exist. */
  predicate NoSpareBits(cfg: Config, nm: nat) {
    cfg.mEn < Pow2(nm)
  }

  lemma {:induction false} PopCountPositive(v: nat)
    requires v > 0
    ensures PopCount(v) > 0
  {
    if v > 1 {
      PopCountPositive(v / 2);
    }
  }

  lemma {:induction false} CountExact(v: nat, n: nat)
    ensures Ones(v, n) == PopCount(v) <==> v < Pow2(n)
  {
    if n > 0 {
      OnesHalf(v, n - 1);
      CountExact(v / 2, n - 1);
      if v == 0 {
        OnesOfZero(n);
      }
    } else if v > 0 {
      PopCountPositive(v);
    }
  }

  /** An unsigned request for all measurements. */
  const GET_ALL: Bytes := [0x12, 0xE0, 0, 0xFF]

  /** The check counts every bit that the host has set, the response those of existing measurements. A request for all
      measurements is refused for its size although the response would just fit, if and only if the host has set a bit
      beyond the last measurement. */
  lemma SpareBitsRefuse(s: State)
    requires s.conn.stage == 3 && s.conn.hashOk && s.conn.asymOk && s.conn.measOk
    requires s.conn.dts == 42 + 55 * |Enabled(s.cfg, s.nm, false)|
    ensures Check(s, GET_ALL) == 0x0D <==> !NoSpareBits(s.cfg, s.nm)
    ensures Check(s, GET_ALL) == 0 <==> NoSpareBits(s.cfg, s.nm)
  {
    var v := s.cfg.mEn;
    SpdmRuns.EnabledCount(s.cfg, s.nm, v);
    OnesBelowCount(v, s.nm);
    CountExact(v, s.nm);
    ErrorCodes(s, GET_ALL);
    AcceptedIff(s, GET_ALL);
    hide Check, PopCount, Ones, Enabled, FromLittle, Pow2, BitAt;
    assert Needed(s, GET_ALL) == 42 + 55 * PopCount(v);
  }

  /** The lengths that the check adds up are those of the responses. */
  lemma NeededIsLength(env: Env, s: State, q: Bytes, nonce: Bytes, rnd: Bytes)
    requires env.Valid() && Inv(env, s) && |nonce| == 32 && Check(s, q) == 0 && HasSize(q)
    requires q[1] in [0x81, 0x83, 0xE0] && Answer(env, s, q, nonce, rnd).1.Some?
    ensures var r := Answer(env, s, q, nonce, rnd).1.value;
      if q[1] == 0xE0 && q[3] == 0xFF then |r| <= Needed(s, q) && (|r| == Needed(s, q) <==> NoSpareBits(s.cfg, s.nm))
      else |r| == Needed(s, q)
  {
    hide SigLen, SkLen, IsGenerated, FromLittle, OnDigests, OnChallenge, OnMeasurements, BitAt, PopCount, NoSpareBits;
    assert s.conn.stage == 3 by { AcceptedIff(s, q); }
    PassedSizes(s, q);
    if q[1] == 0x81 {
      DigestsLengths(env, s, q);
    } else if q[1] == 0x83 {
      ChallengeLength(env, s, q, nonce, rnd);
    } else {
      RecordLength(env, s, q, nonce, rnd);
      SpdmRuns.EnabledCount(s.cfg, s.nm, s.cfg.mEn);
      OnesBelowCount(s.cfg.mEn, s.nm);
      CountExact(s.cfg.mEn, s.nm);
      assert NoSpareBits(s.cfg, s.nm) <==> s.cfg.mEn < Pow2(s.nm) by { SpareMeans(s.cfg, s.nm); }
    }
    hide Check;
  }

  lemma SpareMeans(cfg: Config, nm: nat)
    ensures NoSpareBits(cfg, nm) <==> cfg.mEn < Pow2(nm)
  {}

  /** The exact length of MEASUREMENTS. */
  lemma RecordLength(env: Env, s: State, q: Bytes, nonce: Bytes, rnd: Bytes)
    requires env.Valid() && s.Valid(env) && |q| >= 4 && (q[3] == 0 || q[3] == 0xFF || q[3] <= s.nm) && |nonce| == 32
    requires q[2] % 2 == 1 ==> s.SlotOk()
    ensures var r := OnMeasurements(env, s, q, nonce, rnd).1;
      r.Some? ==> |r.value| == 42 + 55 * |Selection(s, q[3])| + (if q[2] % 2 == 1 then s.SignatureLen() else 0)
  {
    hide SigLen, SkLen, IsGenerated, Blocks, BitAt, Enabled;
    var sel := Selection(s, q[3]);
    var b := MeasurementsBody(s, q[3], nonce);
    assert |b| == 42 + 55 * |sel|;
    hide MeasurementsBody, Selection;
    if q[2] % 2 == 1 {
      KeyLength(env, s.key.value);
      var t := s.conn.vca + s.conn.tl + q + b;
      if SignatureOf(env, s.key.value, CTX_MEAS, t, rnd).Some? {
        SignatureLength(env, s.key.value, CTX_MEAS, t, rnd);
      }
    }
    hide SignatureOf;
  }
}
