/** 256B/257B transcoding of scripts/ethpcs/pcs_ref.py. A bit vector is a sequence of bits, bit 0
    (the first bit transmitted) first; a 66-bit block has its sync header in bits 0 and 1. */
module Transcoder {

  type Bits = seq<bool>
  type Block = b: Bits | |b| == 66 witness seq(66, i => false)
  /** Four 66-bit blocks. */
  type Group = g: seq<Block> | |g| == 4 witness seq(4, i => seq(66, j => false))
  type Block257 = b: Bits | |b| == 257 witness seq(257, i => false)

  const SH_DATA: Bits := [false, true]
  const SH_CTRL: Bits := [true, false]
  const SH_ERR: Bits := [true, true]

  predicate IsData(b: Block) { b[..2] == SH_DATA }
  predicate IsControl(b: Block) { b[..2] == SH_CTRL }

  /** The value of a few bits, bit 0 least significant. */
  function Value(b: Bits): nat {
    if b == [] then 0 else (if b[0] then 1 else 0) + 2 * Value(b[1..])
  }

  function Nibble(v: nat): (b: Bits)
    ensures |b| == 4
  {
    [v % 2 == 1, (v / 2) % 2 == 1, (v / 4) % 2 == 1, (v / 8) % 2 == 1]
  }

  /** The block types by their first nibble sent. */
  const BTF: map<nat, nat> := map[
    0xE := 0x1E, 0x8 := 0x78, 0xB := 0x4B, 0x7 := 0x87, 0x9 := 0x99, 0xA := 0xAA,
    0x4 := 0xB4, 0xC := 0xCC, 0x2 := 0xD2, 0x1 := 0xE1, 0xF := 0xFF]

  /** A block type byte (its bits 2..9 in a control block) that the code uses. */
  predicate KnownType(t: Bits)
    requires |t| == 8
  {
    Value(t[..4]) in BTF && t[4..] == Nibble(BTF[Value(t[..4])] / 16)
  }

  function Payload(g: Group): (p: Bits)
    ensures |p| == 256
  {
    g[0][2..] + g[1][2..] + g[2][2..] + g[3][2..]
  }

  /** The index of the first flag that is off, counting from j; 3 if there is none below it. */
  function FirstOff(mask: Bits, j: nat): (c: nat)
    requires |mask| == 4 && j < 4
    ensures j <= c < 4
    ensures forall k :: j <= k < c ==> mask[k]
    ensures (exists k :: j <= k < 4 && !mask[k]) ==> !mask[c]
    decreases 4 - j
  {
    if !mask[j] || j == 3 then j else FirstOff(mask, j + 1)
  }

  /** One flag per block, on for data. */
  function Mask(g: Group): (m: Bits)
    ensures |m| == 4
  {
    [g[0][1], g[1][1], g[2][1], g[3][1]]
  }

  predicate AllData(g: Group) {
    forall j :: 0 <= j < 4 ==> IsData(g[j])
  }

  predicate HeadersValid(g: Group) {
    forall j :: 0 <= j < 4 ==> IsData(g[j]) || IsControl(g[j])
  }

  /** tx_xcoded: the second nibble of the first control block's type is dropped. */
  function Transcode(g: Group): (x: Block257) {
    var pay := Payload(g);
    if AllData(g) then [true] + pay
    else
      var c, mask := if HeadersValid(g) then FirstOff(Mask(g), 0) else 0,
                     if HeadersValid(g) then Mask(g) else [true, true, true, true];
      [false] + mask + pay[..64 * c + 4] + pay[64 * c + 8..]
  }

  /** Four blocks with one header each from 256 payload bits. */
  function Blocks(sh: seq<Bits>, pay: Bits): (g: Group)
    requires |sh| == 4 && |pay| == 256 && forall j :: 0 <= j < 4 ==> |sh[j]| == 2
  {
    [sh[0] + pay[..64], sh[1] + pay[64..128], sh[2] + pay[128..192], sh[3] + pay[192..]]
  }

  function RevTranscode(x: Block257): (r: (Group, bool)) {
    if x[0] then (Blocks([SH_DATA, SH_DATA, SH_DATA, SH_DATA], x[1..]), false)
    else
      var mask := x[1..5];
      if mask == [true, true, true, true] then
        (Blocks([SH_ERR, SH_ERR, SH_ERR, SH_ERR], x[5..] + [false, false, false, false]), true)
      else
        var c := FirstOff(mask, 0);
        var nib := Value(x[5 + 64 * c..9 + 64 * c]);
        var bad := nib !in BTF;
        var pay := x[5..64 * c + 9] + Nibble(if bad then 0 else BTF[nib] / 16) + x[64 * c + 9..];
        (Blocks(seq(4, j requires 0 <= j < 4 => if bad then SH_ERR else if mask[j] then SH_DATA else SH_CTRL), pay),
         bad)
  }

  /** What the line code can carry: valid headers, and a known type in the first control block. */
  predicate Carried(g: Group) {
    && HeadersValid(g)
    && (AllData(g) || KnownType(g[FirstOff(Mask(g), 0)][2..10]))
  }

  // ---------- the round trip, and exactly when it holds ----------

  lemma BlocksPayload(g: Group, sh: seq<Bits>)
    requires |sh| == 4 && forall j :: 0 <= j < 4 ==> sh[j] == g[j][..2]
    ensures Blocks(sh, Payload(g)) == g
  {
    var p := Payload(g);
    assert p[..64] == g[0][2..];
    assert p[64..128] == g[1][2..];
    assert p[128..192] == g[2][2..];
    assert p[192..] == g[3][2..];
    forall j | 0 <= j < 4
      ensures Blocks(sh, p)[j] == g[j]
    {
      assert g[j][..2] + g[j][2..] == g[j];
    }
  }

  /** The type byte of block c sits at bit 64 c of the payload. */
  lemma PayloadType(g: Group, c: nat)
    requires c < 4
    ensures Payload(g)[64 * c..64 * c + 8] == g[c][2..10]
  {
    if c == 0 {} else if c == 1 {} else if c == 2 {} else {}
  }

  lemma HeaderOfMask(g: Group, j: nat)
    requires j < 4 && HeadersValid(g)
    ensures g[j][..2] == if Mask(g)[j] then SH_DATA else SH_CTRL
  {
    assert g[j][..2][0] == g[j][0] && g[j][..2][1] == g[j][1];
    assert IsData(g[j]) || IsControl(g[j]);
  }

  /** The receiver can tell: the headers are valid and the nibble sent of the first control
      block's type is one of the code's. */
  predicate Recognised(g: Group) {
    && HeadersValid(g)
    && (AllData(g) || Value(g[FirstOff(Mask(g), 0)][2..6]) in BTF)
  }

  /** Reverse transcoding gives back the group exactly for the groups the code carries, and flags
      exactly those it does not recognise. A known first nibble with a wrong second one is neither. */
  lemma RoundTrip(g: Group)
    ensures RevTranscode(Transcode(g)) == (g, false) <==> Carried(g)
    ensures RevTranscode(Transcode(g)).1 <==> !Recognised(g)
  {
    var x, pay := Transcode(g), Payload(g);
    if AllData(g) {
      assert x[1..] == pay;
      forall j | 0 <= j < 4
        ensures g[j][..2] == SH_DATA
      {
        assert IsData(g[j]);
      }
      BlocksPayload(g, [SH_DATA, SH_DATA, SH_DATA, SH_DATA]);
    } else if !HeadersValid(g) {
      assert x[1..5] == [true, true, true, true];
    } else {
      ControlRoundTrip(g);
    }
  }

  /** The groups that come back changed and unflagged: those that are recognised and not carried, whose first control
      block has the first nibble of a known type and another second nibble. */
  lemma ChangedUnflagged(g: Group)
    ensures RevTranscode(Transcode(g)).0 != g && !RevTranscode(Transcode(g)).1 <==> Recognised(g) && !Carried(g)
  {
    hide Transcode, RevTranscode, Recognised, Carried;
    RoundTrip(g);
  }

  /** A control block of type 0x0E, whose first nibble is that of the known type 0x1E. */
  function Type0E(): (b: Block) {
    SH_CTRL + Nibble(0xE) + seq(60, i => false)
  }

  lemma Type0EFields()
    ensures var b := Type0E(); IsControl(b) && !b[1] && b[2..6] == Nibble(0xE) && b[2..10][4..] != Nibble(BTF[0xE] / 16)
  {
    assert Nibble(BTF[0xE] / 16)[0] && !Type0E()[6];
    assert Type0E()[2..10][4..][0] == Type0E()[6];
  }

  lemma AllType0E(g: Group)
    requires forall j :: 0 <= j < 4 ==> g[j] == Type0E()
    ensures Recognised(g) && !Carried(g)
  {
    Type0EFields();
    NibbleValue();
    var b := g[0];
    assert b[2..10][..4] == b[2..6];
    assert FirstOff(Mask(g), 0) == 0;
    hide Type0E, Nibble, Value, Mask, FirstOff;
  }

  /** Four such blocks come back changed and unflagged. */
  lemma Type0EChanged(g: Group)
    requires forall j :: 0 <= j < 4 ==> g[j] == Type0E()
    ensures RevTranscode(Transcode(g)).0 != g && !RevTranscode(Transcode(g)).1
  {
    hide *;
    AllType0E(g);
    ChangedUnflagged(g);
  }

  lemma NibbleValue()
    ensures Value(Nibble(0xE)) == 0xE
  {
    var n := Nibble(0xE);
    assert n == [false, true, true, true];
    assert n[1..] == [true, true, true] && n[1..][1..] == [true, true] && n[1..][1..][1..] == [true];
    assert n[1..][1..][1..][1..] == [];
  }

  /** The fields of a transcoded group with a control block, as the receiver slices them. */
  lemma ControlFields(g: Group, c: nat)
    requires HeadersValid(g) && !AllData(g) && c == FirstOff(Mask(g), 0)
    ensures var x, pay := Transcode(g), Payload(g);
      && x[1..5] == Mask(g) && !Mask(g)[c]
      && x[5..64 * c + 9] == pay[..64 * c + 4]
      && x[64 * c + 9..] == pay[64 * c + 8..]
      && x[5 + 64 * c..9 + 64 * c] == g[c][2..6]
  {
    var x, pay, mask := Transcode(g), Payload(g), Mask(g);
    var k :| 0 <= k < 4 && !IsData(g[k]);
    HeaderOfMask(g, k);
    assert !mask[k];
    PayloadType(g, c);
    hide Payload, FirstOff, HeadersValid, AllData;
    var t := pay[64 * c..64 * c + 8];
    assert g[c][2..6] == g[c][2..10][..4];
    assert t[..4] == pay[64 * c..64 * c + 4];
    FieldSlices(mask, pay, c, x);
  }

  lemma FieldSlices(mask: Bits, pay: Bits, c: nat, x: Bits)
    requires |mask| == 4 && |pay| == 256 && c < 4
    requires x == [false] + mask + pay[..64 * c + 4] + pay[64 * c + 8..]
    ensures x[1..5] == mask
    ensures x[5..64 * c + 9] == pay[..64 * c + 4]
    ensures x[64 * c + 9..] == pay[64 * c + 8..]
    ensures x[5 + 64 * c..9 + 64 * c] == pay[64 * c..64 * c + 4]
  {
    var m := 64 * c;
    var lo, hi := pay[..m + 4], pay[m + 8..];
    assert |lo| == m + 4;
  }

  /** Headers of control and data blocks from the flags. */
  function Headers(mask: Bits): (sh: seq<Bits>)
    requires |mask| == 4
    ensures |sh| == 4 && forall j :: 0 <= j < 4 ==> |sh[j]| == 2
  {
    seq(4, j requires 0 <= j < 4 => if mask[j] then SH_DATA else SH_CTRL)
  }

  lemma RevControl(x: Block257, mask: Bits, c: nat, nib: nat)
    requires !x[0] && x[1..5] == mask && mask != [true, true, true, true] && c == FirstOff(mask, 0)
    requires nib == Value(x[5 + 64 * c..9 + 64 * c])
    ensures nib in BTF ==>
      RevTranscode(x) == (Blocks(Headers(mask), x[5..64 * c + 9] + Nibble(BTF[nib] / 16) + x[64 * c + 9..]), false)
    ensures nib !in BTF ==> RevTranscode(x).1
  {
    hide Nibble, Value, FirstOff;
    if nib in BTF {
      assert Headers(mask)
        == seq(4, j requires 0 <= j < 4 => if false then SH_ERR else if mask[j] then SH_DATA else SH_CTRL);
    }
  }

  lemma ControlRoundTrip(g: Group)
    requires HeadersValid(g) && !AllData(g)
    ensures RevTranscode(Transcode(g)) == (g, false) <==> Carried(g)
    ensures RevTranscode(Transcode(g)).1 <==> !Recognised(g)
  {
    var x, pay, mask := Transcode(g), Payload(g), Mask(g);
    var c := FirstOff(mask, 0);
    ControlFields(g, c);
    var t := g[c][2..10];
    assert t[..4] == g[c][2..6];
    var nib := Value(t[..4]);
    RevControl(x, mask, c, nib);
    hide Payload, Transcode, RevTranscode, Blocks;
    if nib in BTF {
      RestoredPayload(g, c, Nibble(BTF[nib] / 16));
    }
  }

  /** Putting a second nibble back restores the group exactly when it is the one that was dropped. */
  lemma RestoredPayload(g: Group, c: nat, up: Bits)
    requires HeadersValid(g) && c < 4 && |up| == 4
    ensures Blocks(Headers(Mask(g)), Payload(g)[..64 * c + 4] + up + Payload(g)[64 * c + 8..]) == g <==>
      up == g[c][2..10][4..]
  {
    var pay, sh := Payload(g), Headers(Mask(g));
    var t := g[c][2..10];
    PayloadType(g, c);
    forall j | 0 <= j < 4
      ensures sh[j] == g[j][..2]
    {
      HeaderOfMask(g, j);
    }
    hide Payload, Blocks, Headers;
    var p := pay[..64 * c + 4] + up + pay[64 * c + 8..];
    assert p[64 * c + 4..64 * c + 8] == up;
    assert pay[64 * c + 4..64 * c + 8] == t[4..] by {
      assert pay[64 * c..64 * c + 8][4..] == pay[64 * c + 4..64 * c + 8];
    }
    if up == t[4..] {
      assert p == pay;
      BlocksPayload(g, sh);
    } else {
      WrongType(g, c, p, sh);
    }
  }

  lemma WrongType(g: Group, c: nat, p: Bits, sh: seq<Bits>)
    requires c < 4 && |p| == 256 && |sh| == 4 && forall j :: 0 <= j < 4 ==> |sh[j]| == 2
    requires p[64 * c + 4..64 * c + 8] != g[c][2..10][4..]
    ensures Blocks(sh, p) != g
  {
    var b := Blocks(sh, p)[c];
    assert b == sh[c] + p[64 * c..64 * c + 64] by {
      if c == 0 {} else if c == 1 {} else if c == 2 {} else {
        assert p[192..] == p[192..256];
      }
    }
    assert b[6..10] == p[64 * c..64 * c + 64][4..8] == p[64 * c + 4..64 * c + 8];
    assert g[c][2..10][4..] == g[c][6..10];
  }
}
