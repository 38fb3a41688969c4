/** The self-synchronising scrambler 1 + x^39 + x^58 and the PRBS9 of the marker pad. */
module Scrambling {
  import opened Transcoder

  function Xor(a: bool, b: bool): bool { a != b }

  /** The last 58 bits of the line after `sent` has followed the history h, oldest first. */
  function History(h: Bits, sent: Bits): (r: Bits)
    requires |h| == 58
    ensures |r| == 58
  {
    (h + sent)[|sent|..]
  }

  /** out[n] = in[n] ^ out[n-39] ^ out[n-58], the history supplying the bits before the first. */
  function Scrambled(h: Bits, v: Bits): (o: Bits)
    requires |h| == 58
    ensures |o| == |v|
  {
    if v == [] then []
    else
      var n := |v| - 1;
      var o := Scrambled(h, v[..n]);
      var line := h + o;
      o + [Xor(v[n], Xor(line[n + 19], line[n]))]
  }

  /** The inverse map: every output depends on the received line alone. */
  function Descrambled(h: Bits, v: Bits): (o: Bits)
    requires |h| == 58
    ensures |o| == |v|
  {
    var line := h + v;
    seq(|v|, i requires 0 <= i < |v| => Xor(v[i], Xor(line[i + 19], line[i])))
  }

  lemma {:induction false} ScrambledAt(h: Bits, v: Bits, i: nat)
    requires |h| == 58 && i < |v|
    ensures var o := Scrambled(h, v); var line := h + o; o[i] == Xor(v[i], Xor(line[i + 19], line[i]))
  {
    var n := |v| - 1;
    var o' := Scrambled(h, v[..n]);
    if i < n {
      ScrambledAt(h, v[..n], i);
      assert (h + o')[i + 19] == (h + Scrambled(h, v))[i + 19];
      assert (h + o')[i] == (h + Scrambled(h, v))[i];
    }
  }

  lemma DescrambledAt(h: Bits, v: Bits, i: nat)
    requires |h| == 58 && i < |v|
    ensures Descrambled(h, v)[i] == Xor(v[i], Xor((h + v)[i + 19], (h + v)[i]))
  {}

  /** Descrambling with the transmitter's history undoes scrambling. */
  lemma DescrambleScrambled(h: Bits, v: Bits)
    requires |h| == 58
    ensures Descrambled(h, Scrambled(h, v)) == v
  {
    forall i | 0 <= i < |v|
      ensures Descrambled(h, Scrambled(h, v))[i] == v[i]
    {
      ScrambledAt(h, v, i);
    }
  }

  /** Self-synchronisation: whatever the histories were, after 58 bits of a common line they agree,
      and so does everything descrambled from then on. */
  lemma SelfSynchronising(h1: Bits, h2: Bits, line: Bits)
    requires |h1| == |h2| == 58 && |line| >= 58
    ensures History(h1, line) == History(h2, line)
    ensures Descrambled(h1, line)[58..] == Descrambled(h2, line)[58..]
  {
    forall i | 58 <= i < |h1 + line|
      ensures (h1 + line)[i] == (h2 + line)[i]
    {}
    forall i | 58 <= i < |line|
      ensures Descrambled(h1, line)[i] == Descrambled(h2, line)[i]
    {
      assert (h1 + line)[i + 19] == (h2 + line)[i + 19] && (h1 + line)[i] == (h2 + line)[i];
    }
  }

  lemma HistoryConcat(h: Bits, a: Bits, b: Bits)
    requires |h| == 58
    ensures History(h, a + b) == History(History(h, a), b)
  {
    assert h + (a + b) == (h + a) + b;
    assert ((h + a) + b)[|a|..] == (h + a)[|a|..] + b;
  }

  lemma HistoryStep(h: Bits, v: Bits, i: nat)
    requires |h| == 58 && i < |v|
    ensures var r := History(h, v[..i]);
            r[0] == (h + v)[i] && r[19] == (h + v)[i + 19] && History(h, v[..i + 1]) == r[1..] + [v[i]]
  {
    var r := History(h, v[..i]);
    assert h + v == (h + v[..i]) + v[i..];
    assert h + v[..i + 1] == (h + v[..i]) + [v[i]];
  }

  lemma HistoryEmpty(h: Bits)
    requires |h| == 58
    ensures History(h, []) == h
  {}

  lemma XorOrder(a: bool, b: bool, c: bool)
    ensures Xor(Xor(a, b), c) == Xor(a, Xor(b, c))
  {}

  class Scrambler {
    /** The last 58 line bits, the newest last. */
    var h: Bits

    constructor ()
      ensures h == seq(58, i => true)
    {
      h := seq(58, i => true);
    }

    method Scramble(v: Bits) returns (o: Bits)
      requires |h| == 58
      modifies this
      ensures o == Scrambled(old(h), v)
      ensures h == History(old(h), o)
    {
      ghost var h0 := h;
      o := [];
      for i := 0 to |v|
        invariant o == Scrambled(h0, v[..i])
        invariant h == History(h0, o)
      {
        var b := Xor(Xor(v[i], h[19]), h[0]);
        assert v[..i + 1][..i] == v[..i];
        o := o + [b];
        h := h[1..] + [b];
      }
      assert v[..|v|] == v;
    }

    method Descramble(v: Bits) returns (o: Bits)
      requires |h| == 58
      modifies this
      ensures o == Descrambled(old(h), v)
      ensures h == History(old(h), v)
    {
      hide History, Descrambled, Xor;
      ghost var h0, full := h, Descrambled(h, v);
      HistoryEmpty(h);
      assert v[..0] == [];
      o := [];
      for i := 0 to |v|
        invariant o == full[..i]
        invariant |h| == 58 && h == History(h0, v[..i])
      {
        var b := v[i];
        HistoryStep(h0, v, i);
        DescrambledAt(h0, v, i);
        XorOrder(b, h[19], h[0]);
        o := o + [Xor(Xor(b, h[19]), h[0])];
        h := h[1..] + [b];
      }
      assert v[..|v|] == v;
    }
  }

  // ---------- PRBS9 ----------

  /** n bits of b[n] = b[n-9] ^ b[n-5]; the state holds the last nine, the newest first. */
  function PrbsBits(s: Bits, n: nat): (v: Bits)
    requires |s| == 9
    ensures |v| == n
    decreases n, s
  {
    if n == 0 then [] else
      var b := Xor(s[8], s[4]);
      [b] + PrbsBits([b] + s[..8], n - 1)
  }

  function PrbsState(s: Bits, n: nat): (r: Bits)
    requires |s| == 9
    ensures |r| == 9
    decreases n, s
  {
    if n == 0 then s else PrbsState([Xor(s[8], s[4])] + s[..8], n - 1)
  }

  class Prbs9 {
    var s: Bits

    constructor ()
      ensures s == seq(9, i => true)
    {
      s := seq(9, i => true);
    }

    method Take(n: nat) returns (v: Bits)
      requires |s| == 9
      modifies this
      ensures v == PrbsBits(old(s), n)
      ensures s == PrbsState(old(s), n)
    {
      v := [];
      ghost var s0 := s;
      for i := 0 to n
        invariant |s| == 9
        invariant v + PrbsBits(s, n - i) == PrbsBits(s0, n)
        invariant PrbsState(s, n - i) == PrbsState(s0, n)
      {
        var b := Xor(s[8], s[4]);
        assert v + ([b] + PrbsBits([b] + s[..8], n - i - 1)) == (v + [b]) + PrbsBits([b] + s[..8], n - i - 1);
        s := [b] + s[..8];
        v := v + [b];
      }
    }
  }

  /** The recurrence of the pad: each bit is the xor of the ones nine and five before it. */
  lemma {:induction false} PrbsRecurrence(s: Bits, n: nat, i: nat)
    requires |s| == 9 && i < n
    decreases n
    ensures var v := PrbsBits(s, n);
      v[i] == Xor(if i >= 9 then v[i - 9] else s[8 - i], if i >= 5 then v[i - 5] else s[4 - i])
  {
    var b := Xor(s[8], s[4]);
    if i > 0 {
      PrbsRecurrence([b] + s[..8], n - 1, i - 1);
    }
  }
}
