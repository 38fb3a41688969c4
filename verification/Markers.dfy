/** The alignment markers: the table, the 10-bit interleaved group, and which lane carries what. */
module Markers {
  import opened RsCode
  import opened Transcoder
  import opened Scrambling
  import opened Framing

  /** Octets of each lane's marker, in the order sent. */
  const AM_TABLE: seq<seq<nat>> := [
    [0x9A, 0x4A, 0x26, 0xB6, 0x65, 0xB5, 0xD9, 0xD9, 0x01, 0x71, 0xF3, 0x26, 0xFE, 0x8E, 0x0C],
    [0x9A, 0x4A, 0x26, 0x04, 0x65, 0xB5, 0xD9, 0x67, 0x5A, 0xDE, 0x7E, 0x98, 0xA5, 0x21, 0x81],
    [0x9A, 0x4A, 0x26, 0x46, 0x65, 0xB5, 0xD9, 0xFE, 0x3E, 0xF3, 0x56, 0x01, 0xC1, 0x0C, 0xA9],
    [0x9A, 0x4A, 0x26, 0x5A, 0x65, 0xB5, 0xD9, 0x84, 0x86, 0x80, 0xD0, 0x7B, 0x79, 0x7F, 0x2F],
    [0x9A, 0x4A, 0x26, 0xE1, 0x65, 0xB5, 0xD9, 0x19, 0x2A, 0x51, 0xF2, 0xE6, 0xD5, 0xAE, 0x0D],
    [0x9A, 0x4A, 0x26, 0xF2, 0x65, 0xB5, 0xD9, 0x4E, 0x12, 0x4F, 0xD1, 0xB1, 0xED, 0xB0, 0x2E],
    [0x9A, 0x4A, 0x26, 0x3D, 0x65, 0xB5, 0xD9, 0xEE, 0x42, 0x9C, 0xA1, 0x11, 0xBD, 0x63, 0x5E],
    [0x9A, 0x4A, 0x26, 0x22, 0x65, 0xB5, 0xD9, 0x32, 0xD6, 0x76, 0x5B, 0xCD, 0x29, 0x89, 0xA4],
    [0x9A, 0x4A, 0x26, 0x60, 0x65, 0xB5, 0xD9, 0x9F, 0xE1, 0x73, 0x75, 0x60, 0x1E, 0x8C, 0x8A],
    [0x9A, 0x4A, 0x26, 0x6B, 0x65, 0xB5, 0xD9, 0xA2, 0x71, 0xC4, 0x3C, 0x5D, 0x8E, 0x3B, 0xC3],
    [0x9A, 0x4A, 0x26, 0xFA, 0x65, 0xB5, 0xD9, 0x04, 0x95, 0xEB, 0xD8, 0xFB, 0x6A, 0x14, 0x27],
    [0x9A, 0x4A, 0x26, 0x6C, 0x65, 0xB5, 0xD9, 0x71, 0x22, 0x66, 0x38, 0x8E, 0xDD, 0x99, 0xC7],
    [0x9A, 0x4A, 0x26, 0x18, 0x65, 0xB5, 0xD9, 0x5B, 0xA2, 0xF6, 0x95, 0xA4, 0x5D, 0x09, 0x6A],
    [0x9A, 0x4A, 0x26, 0x14, 0x65, 0xB5, 0xD9, 0xCC, 0x31, 0x97, 0xC3, 0x33, 0xCE, 0x68, 0x3C],
    [0x9A, 0x4A, 0x26, 0xD0, 0x65, 0xB5, 0xD9, 0xB1, 0xCA, 0xFB, 0xA6, 0x4E, 0x35, 0x04, 0x59],
    [0x9A, 0x4A, 0x26, 0xB4, 0x65, 0xB5, 0xD9, 0x56, 0xA6, 0xBA, 0x79, 0xA9, 0x59, 0x45, 0x86]
  ]

  /** The first n octets of a row, each sent least significant bit first. */
  function RowBits(row: seq<nat>, n: nat): (b: Bits)
    requires n <= |row|
    ensures |b| == 8 * n
  {
    if n == 0 then [] else RowBits(row, n - 1) + ToBits(row[n - 1], 8)
  }

  /** The 120 bits of the marker of lane x. */
  function Marker(x: nat): (b: Bits)
    requires x < 16
    ensures |b| == 120
  {
    RowBits(AM_TABLE[x], |AM_TABLE[x]|)
  }

  type MarkerList = am: seq<Bits> | |am| == 16 && forall x :: 0 <= x < 16 ==> |am[x]| == 120
    witness seq(16, x => seq(120, i => false))

  function AllMarkers(): (am: MarkerList)
    ensures forall x :: 0 <= x < 16 ==> am[x] == Marker(x)
  {
    seq(16, x requires 0 <= x < 16 => Marker(x))
  }

  /** Ten bits of the markers of lanes 2j and 2j+1 for slot t = 8k + j, swapped in odd rows k. */
  function Slot(am: MarkerList, t: nat): (b: Bits)
    requires t < 96
    ensures |b| == 20
  {
    var k, j := t / 8, t % 8;
    var a, b := if k % 2 == 0 then am[2 * j] else am[2 * j + 1], if k % 2 == 0 then am[2 * j + 1] else am[2 * j];
    a[10 * k..10 * k + 10] + b[10 * k..10 * k + 10]
  }

  function Slots(am: MarkerList, n: nat): (b: Bits)
    requires n <= 96
    ensures |b| == 20 * n
    decreases n, am
  {
    if n == 0 then [] else Slots(am, n - 1) + Slot(am, n - 1)
  }

  /** The marker bits proper, the same in every group. */
  function AmFixed(): (b: Bits)
    ensures |b| == 1920
  {
    Slots(AllMarkers(), 96)
  }

  lemma SlotIs(am: MarkerList, k: nat, j: nat)
    requires k < 12 && j < 8
    ensures Slot(am, 8 * k + j) ==
      if k % 2 == 0 then am[2 * j][10 * k..10 * k + 10] + am[2 * j + 1][10 * k..10 * k + 10]
      else am[2 * j + 1][10 * k..10 * k + 10] + am[2 * j][10 * k..10 * k + 10]
  {
    assert (8 * k + j) / 8 == k && (8 * k + j) % 8 == j;
  }

  method AmMappedFixed() returns (v: Bits)
    ensures v == AmFixed()
  {
    hide Slot, Marker;
    var am := AllMarkers();
    v := [];
    for k := 0 to 12
      invariant v == Slots(am, 8 * k)
    {
      for j := 0 to 8
        invariant v == Slots(am, 8 * k + j)
      {
        SlotIs(am, k, j);
        var a, b := am[2 * j], am[2 * j + 1];
        if k % 2 != 0 {
          a, b := b, a;
        }
        v := v + (a[10 * k..10 * k + 10] + b[10 * k..10 * k + 10]);
      }
    }
  }

  /** A marker group: the fixed bits, 133 pad bits and three status bits. */
  function AmGroup(s: Bits, sf: nat): (b: Bits)
    requires |s| == 9
    ensures |b| == 257 * AMBLK
  {
    AmFixed() + PrbsBits(s, 133) + ToBits(sf % 8, 3)
  }

  lemma {:induction false} SlotAt(am: MarkerList, n: nat, t: nat)
    requires t < n <= 96
    ensures Slots(am, n)[20 * t..20 * t + 20] == Slot(am, t)
  {
    hide Slot;
    if t < n - 1 {
      SlotAt(am, n - 1, t);
      assert Slots(am, n)[20 * t..20 * t + 20] == Slots(am, n - 1)[20 * t..20 * t + 20];
    }
  }

  /** The first twelve symbols that PCS lane x carries of a marker pair are its own marker. */
  lemma LaneCarriesMarker(pair: Pair, x: nat, m: nat)
    requires pair[..1920] == AmFixed() && x < 16 && m < 12
    ensures var (a, b) := Split(pair);
      Interleaved(Codeword(a), Codeword(b))[16 * m + x] == SymbolOf(Marker(x)[10 * m..10 * m + 10])
  {
    hide SymbolOf, Parity, Marker, Slot, Slots;
    var am, t := AllMarkers(), 8 * m + x / 2;
    LaneIndex(m, x);
    SlotAt(am, 96, t);
    var s := pair[20 * t..20 * t + 20];
    assert pair[..1920][20 * t..20 * t + 20] == s;
    SlotHalves(am, t, x, s);
    assert pair[20 * t..20 * t + 10] == s[..10];
    assert pair[20 * t + 10..20 * t + 20] == s[10..];
    hide FromFirst, CodewordIndex;
  }

  lemma LaneIndex(m: nat, x: nat)
    requires x < 16
    ensures var t := 8 * m + x / 2; t / 8 == m && t % 8 == x / 2 && CodewordIndex(16 * m + x) == t
    ensures FromFirst(16 * m + x) == (m % 2 == x % 2)
  {
    assert (16 * m + x) / 16 == m;
  }

  lemma SlotHalves(am: MarkerList, t: nat, x: nat, s: Bits)
    requires t < 96 && x < 16 && t % 8 == x / 2 && s == Slot(am, t)
    ensures var k := t / 8; am[x][10 * k..10 * k + 10] == if k % 2 == x % 2 then s[..10] else s[10..]
  {
    assert x == 2 * (x / 2) + x % 2;
  }
}
