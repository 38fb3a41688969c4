/** The samplers of scripts/mldsa/mldsa_ref.py (FIPS 204, Algorithms 29 to 34). */
module Sampling {
  import opened Modular
  import opened MlDsaNtt
  import opened Options
  import opened Rounding
  import opened BitFields
  import opened NttRing
  import opened Hashing

  /** The length of the buffer behind a byte stream. */
  const XOF_BYTES: nat := 8192

  /** A byte stream over a buffer that is long enough in practice; running past its end is an error. */
  class Xof {
    const buf: Bytes
    var pos: nat

    constructor (b: Bytes)
      ensures buf == b && pos == 0
    {
      buf := b;
      pos := 0;
    }

    method Get(n: nat) returns (r: Option<Bytes>)
      modifies this`pos
      ensures pos == old(pos) + n
      ensures r == if pos <= |buf| then Some(buf[old(pos)..pos]) else None
    {
      r := if pos + n <= |buf| then Some(buf[pos..pos + n]) else None;
      pos := pos + n;
    }
  }

  // ---------- the challenge ----------

  /** Where the first byte of at most i stands, from pos on. */
  function NextAtMost(buf: Bytes, pos: nat, i: nat): (r: Option<nat>)
    ensures r.Some? ==> pos <= r.value < |buf| && buf[r.value] <= i
    decreases |buf| - pos
  {
    if pos >= |buf| then None
    else if buf[pos] <= i then Some(pos)
    else NextAtMost(buf, pos + 1, i)
  }

  /** 1 or -1 as a residue. */
  function UnitOf(bit: nat): int {
    if bit == 0 then 1 else Q - 1
  }

  /** One pass of the loop: c[i] takes the value of c[j], c[j] becomes the sign. */
  function Swapped(c: Poly, i: nat, j: nat, bit: nat): Poly
    requires i < 256 && j < 256
  {
    c[i := c[j]][j := UnitOf(bit)]
  }

  /** The passes from i on. */
  function BallFrom(buf: Bytes, h: Bits, tau: nat, i: nat, pos: nat, c: Poly): Option<Poly>
    requires tau <= |h| && 256 - tau <= i <= 256
    decreases 256 - i, pos
  {
    if i == 256 then Some(c)
    else match NextAtMost(buf, pos, i)
      case None => None
      case Some(q) => BallFrom(buf, h, tau, i + 1, q + 1, Swapped(c, i, buf[q], h[i + tau - 256]))
  }

  /** The challenge polynomial drawn from a stream: the first 64 bits are the signs. */
  function BallOf(buf: Bytes, tau: nat): Option<Poly>
    requires tau <= 64 && |buf| >= 8
  {
    BallFrom(buf, BitsOf(buf[..8]), tau, 256 - tau, 8, seq(256, _ => 0))
  }

  method SampleInBall(shake: Shake, rho: Bytes, tau: nat) returns (r: Option<Poly>)
    requires shake.Valid() && tau <= 64
    ensures r == BallOf(shake.shake256(rho, XOF_BYTES), tau)
  {
    hide Swapped, BitsOf;
    ghost var buf := shake.shake256(rho, XOF_BYTES);
    var x := new Xof(shake.shake256(rho, XOF_BYTES));
    var first := x.Get(8);
    var h := BitsOf(first.value);
    var c: Poly := seq(256, _ => 0);
    for i := 256 - tau to 256
      invariant 8 <= x.pos <= |buf|
      invariant BallOf(buf, tau) == BallFrom(buf, h, tau, i, x.pos, c)
    {
      ghost var start := x.pos;
      var b := x.Get(1);
      if b.None? { return None; }
      while b.value[0] > i
        invariant start < x.pos <= |buf| && b.Some? && |b.value| == 1 && b.value[0] == buf[x.pos - 1]
        invariant NextAtMost(buf, start, i) == NextAtMost(buf, x.pos - 1, i)
        decreases |buf| - x.pos
      {
        b := x.Get(1);
        if b.None? { return None; }
      }
      var j := b.value[0];
      c := SwapIn(c, i, j, h[i + tau - 256]);
    }
    r := Some(c);
  }

  method SwapIn(c0: Poly, i: nat, j: nat, bit: nat) returns (c: Poly)
    requires i < 256 && j < 256
    ensures c == Swapped(c0, i, j, bit)
  {
    c := c0;
    c := c[i := c[j]];
    c := c[j := if bit == 0 then 1 else Q - 1];
  }

  /** Entries that are 1 or -1 modulo q. */
  function Units(c: Poly, n: nat): nat
    requires n <= 256
  {
    if n == 0 then 0 else Units(c, n - 1) + UnitAt(c[n - 1])
  }

  function UnitAt(x: int): nat {
    if x == 1 || x == Q - 1 then 1 else 0
  }

  ghost predicate IsTernary(c: Poly) {
    forall j :: 0 <= j < 256 ==> c[j] == 0 || c[j] == 1 || c[j] == Q - 1
  }

  lemma {:induction false} UnitsUpdate(c: Poly, p: nat, v: int, n: nat)
    requires p < 256 && n <= 256
    ensures Units(c[p := v], n) == Units(c, n) + (if p < n then UnitAt(v) - UnitAt(c[p]) else 0)
  {
    if n > 0 {
      UnitsUpdate(c, p, v, n - 1);
    }
  }

  /** A pass adds exactly one nonzero entry and leaves the entries beyond i alone. */
  lemma SwapAddsOne(c: Poly, i: nat, j: nat, bit: nat)
    requires j <= i < 256 && IsTernary(c) && forall m :: i <= m < 256 ==> c[m] == 0
    ensures IsTernary(Swapped(c, i, j, bit)) && Units(Swapped(c, i, j, bit), 256) == Units(c, 256) + 1
    ensures forall m :: i < m < 256 ==> Swapped(c, i, j, bit)[m] == 0
  {
    UnitsUpdate(c, i, c[j], 256);
    UnitsUpdate(c[i := c[j]], j, UnitOf(bit), 256);
  }

  lemma {:induction false} BallFromShape(buf: Bytes, h: Bits, tau: nat, i: nat, pos: nat, c: Poly)
    requires tau <= |h| && 256 - tau <= i <= 256
    requires IsTernary(c) && Units(c, 256) == i + tau - 256 && forall m :: i <= m < 256 ==> c[m] == 0
    ensures var r := BallFrom(buf, h, tau, i, pos, c); r.Some? ==> IsTernary(r.value) && Units(r.value, 256) == tau
    decreases 256 - i
  {
    hide Units, IsTernary, Swapped;
    if i < 256 {
      match NextAtMost(buf, pos, i)
      case None =>
      case Some(q) =>
        SwapAddsOne(c, i, buf[q], h[i + tau - 256]);
        BallFromShape(buf, h, tau, i + 1, q + 1, Swapped(c, i, buf[q], h[i + tau - 256]));
    }
  }

  lemma {:induction false} NoUnits(c: Poly, n: nat)
    requires n <= 256 && forall j :: 0 <= j < 256 ==> c[j] == 0
    ensures Units(c, n) == 0
  {
    if n > 0 {
      NoUnits(c, n - 1);
    }
  }

  /** Whatever the stream, a challenge has exactly tau entries 1 or -1 and zeros elsewhere. */
  lemma BallShape(buf: Bytes, tau: nat)
    requires tau <= 64 && |buf| >= 8
    ensures var r := BallOf(buf, tau); r.Some? ==> IsTernary(r.value) && Units(r.value, 256) == tau
  {
    var c: Poly := seq(256, _ => 0);
    NoUnits(c, 256);
    BallFromShape(buf, BitsOf(buf[..8]), tau, 256 - tau, 8, c);
  }

  /** The challenge with its entries centred. */
  function Centred(c: Poly): Poly {
    seq(256, j requires 0 <= j < 256 => ModPm(c[j], Q))
  }

  lemma {:induction false} UnitsAreWeight(c: Poly, n: nat)
    requires n <= 256 && IsTernary(c)
    ensures Weight(Centred(c), n) == Units(c, n)
  {
    if n > 0 {
      UnitsAreWeight(c, n - 1);
    }
  }

  // ---------- uniform coefficients ----------

  /** b0 | b1 << 8 | (b2 & 0x7F) << 16. */
  function Assembled(b0: nat, b1: nat, b2: nat): nat {
    b0 + 256 * b1 + 65536 * (b2 % 128)
  }

  function Triple(buf: Bytes, t: nat): nat
    requires 3 * t + 3 <= |buf|
  {
    Assembled(buf[3 * t], buf[3 * t + 1], buf[3 * t + 2])
  }

  /** The candidates below q among the first n triples. */
  function Accepted(buf: Bytes, n: nat): (a: seq<int>)
    requires 3 * n <= |buf|
    ensures forall i :: 0 <= i < |a| ==> 0 <= a[i] < Q
  {
    if n == 0 then []
    else Accepted(buf, n - 1) + if Triple(buf, n - 1) < Q then [Triple(buf, n - 1)] else []
  }

  lemma {:induction false} AcceptedPrefix(buf: Bytes, m: nat, n: nat)
    requires m <= n && 3 * n <= |buf|
    ensures Accepted(buf, m) <= Accepted(buf, n)
  {
    if m < n {
      AcceptedPrefix(buf, m, n - 1);
    }
  }

  /** The first 256 accepted candidates of the stream. */
  function RejNttOf(buf: Bytes): (r: Option<Poly>)
    ensures r.Some? ==> forall i :: 0 <= i < 256 ==> 0 <= r.value[i] < Q
  {
    var a := Accepted(buf, |buf| / 3);
    if |a| >= 256 then Some(a[..256]) else None
  }

  method RejNttPoly(shake: Shake, rho: Bytes) returns (r: Option<Poly>)
    requires shake.Valid()
    ensures r == RejNttOf(shake.shake128(rho, XOF_BYTES))
  {
    ghost var buf := shake.shake128(rho, XOF_BYTES);
    var x := new Xof(shake.shake128(rho, XOF_BYTES));
    var a: seq<int> := [];
    ghost var t := 0;
    while |a| < 256
      invariant x.pos == 3 * t <= |buf| && |a| <= 256 && a == Accepted(buf, t)
      decreases |buf| - x.pos
    {
      var b := x.Get(3);
      if b.None? {
        assert t == |buf| / 3;
        return None;
      }
      var z := Assembled(b.value[0], b.value[1], b.value[2]);
      assert z == Triple(buf, t);
      if z < Q {
        a := a + [z];
      }
      t := t + 1;
    }
    AcceptedPrefix(buf, t, |buf| / 3);
    assert a == Accepted(buf, |buf| / 3)[..256];
    r := Some(a);
  }

  // ---------- small coefficients ----------

  function CoeffFromHalfByte(b: nat, eta: nat): (r: Option<int>)
    ensures r.Some? ==> -(eta as int) <= r.value <= eta
  {
    if eta == 2 && b < 15 then Some(2 - b % 5)
    else if eta == 4 && b < 9 then Some(4 - b)
    else None
  }

  /** The residues that one half byte contributes. */
  function Contribution(b: nat, eta: nat): seq<int> {
    match CoeffFromHalfByte(b, eta)
    case None => []
    case Some(c) => [c % Q]
  }

  /** The residues that the first n bytes contribute, low halves first. */
  function Small(buf: Bytes, n: nat, eta: nat): (a: seq<int>)
    requires n <= |buf|
  {
    if n == 0 then []
    else Small(buf, n - 1, eta) + Contribution(buf[n - 1] % 16, eta) + Contribution(buf[n - 1] / 16, eta)
  }

  lemma {:induction false} SmallPrefix(buf: Bytes, m: nat, n: nat, eta: nat)
    requires m <= n <= |buf|
    ensures Small(buf, m, eta) <= Small(buf, n, eta)
  {
    if m < n {
      SmallPrefix(buf, m, n - 1, eta);
    }
  }

  lemma {:induction false} SmallRange(buf: Bytes, n: nat, eta: nat)
    requires n <= |buf|
    ensures forall i :: 0 <= i < |Small(buf, n, eta)| ==>
      0 <= Small(buf, n, eta)[i] < Q && -(eta as int) <= ModPm(Small(buf, n, eta)[i], Q) <= eta
  {
    hide ModPm, Contribution;
    if n > 0 {
      SmallRange(buf, n - 1, eta);
      ContributionRange(buf[n - 1] % 16, eta);
      ContributionRange(buf[n - 1] / 16, eta);
    }
  }

  lemma ContributionRange(b: nat, eta: nat)
    ensures forall i :: 0 <= i < |Contribution(b, eta)| ==>
      0 <= Contribution(b, eta)[i] < Q && -(eta as int) <= ModPm(Contribution(b, eta)[i], Q) <= eta
  {}

  /** The first 256 contributions of the stream. */
  function RejBoundedOf(buf: Bytes, eta: nat): Option<Poly> {
    var a := Small(buf, |buf|, eta);
    if |a| >= 256 then Some(a[..256]) else None
  }

  lemma RejBoundedRange(buf: Bytes, eta: nat)
    ensures var r := RejBoundedOf(buf, eta); r.Some? ==>
      forall i :: 0 <= i < 256 ==> 0 <= r.value[i] < Q && -(eta as int) <= ModPm(r.value[i], Q) <= eta
  {
    SmallRange(buf, |buf|, eta);
  }

  method RejBoundedPoly(shake: Shake, rho: Bytes, eta: nat) returns (r: Option<Poly>)
    requires shake.Valid()
    ensures r == RejBoundedOf(shake.shake256(rho, XOF_BYTES), eta)
  {
    hide Contribution;
    ghost var buf := shake.shake256(rho, XOF_BYTES);
    var x := new Xof(shake.shake256(rho, XOF_BYTES));
    var a: seq<int> := [];
    while |a| < 256
      invariant x.pos <= |buf| && a == First256(Small(buf, x.pos, eta))
      decreases |buf| - x.pos
    {
      ghost var s := Small(buf, x.pos, eta);
      var z := x.Get(1);
      if z.None? { return None; }
      ghost var lo, hi := Contribution(z.value[0] % 16, eta), Contribution(z.value[0] / 16, eta);
      a := Take(a, z.value[0] % 16, eta, s);
      a := Take(a, z.value[0] / 16, eta, s + lo);
    }
    SmallPrefix(buf, x.pos, |buf|, eta);
    assert a == Small(buf, |buf|, eta)[..256];
    r := Some(a);
  }

  /** The body of the inner loop: one half byte, unless there are enough coefficients already. */
  method Take(a0: seq<int>, v: nat, eta: nat, ghost s: seq<int>) returns (a: seq<int>)
    requires a0 == First256(s)
    ensures a == First256(s + Contribution(v, eta))
  {
    a := a0;
    var c := CoeffFromHalfByte(v, eta);
    if c.Some? && |a| < 256 {
      a := a + [c.value % Q];
    }
  }
}
