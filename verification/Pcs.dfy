/** The objects of scripts/ethpcs/pcs_ref.py: a transmitter and a receiver whose methods update
    their fields pair by pair, proved against the state machines of module Link. */
module Pcs {
  import opened GF1024
  import opened RsCode
  import opened Decoder
  import opened Transcoder
  import opened Scrambling
  import opened Framing
  import opened Markers
  import opened Link

  class Tx {
    const amp: nat
    const gf: Tables
    const gen: seq<Symbol>
    const scr: Scrambler
    const prbs: Prbs9
    var pc: nat

    ghost predicate Valid()
      reads this, scr, prbs
    {
      gf.Valid() && gen == Generator(NSYM) && TxValid(amp, State())
    }

    ghost function State(): TxState
      reads this, scr, prbs
    {
      TxState(pc, scr.h, prbs.s)
    }

    constructor (amp: nat, gf: Tables, gen: seq<Symbol>)
      requires amp >= 1 && gf.Valid() && gen == Generator(NSYM)
      ensures Valid() && fresh(scr) && fresh(prbs) && this.amp == amp && State() == TX_RESET
    {
      this.amp, this.gf, this.gen, pc := amp, gf, gen, 0;
      scr := new Scrambler();
      prbs := new Prbs9();
    }

    /** The scrambled blocks of some groups. */
    method ScrambleGroups(groups: seq<Group>) returns (blks: Bits)
      requires |scr.h| == 58
      modifies scr
      ensures blks == Line(old(scr.h), groups) && scr.h == History(old(scr.h), blks)
    {
      hide History, Scrambled, Transcode;
      ghost var h := scr.h;
      HistoryEmpty(h);
      blks := [];
      for i := 0 to |groups|
        invariant blks == Line(h, groups[..i]) && scr.h == History(h, blks)
      {
        var o := scr.Scramble(Transcode(groups[i]));
        assert groups[..i + 1][..i] == groups[..i];
        HistoryConcat(h, blks, o);
        blks := blks + o;
      }
      assert groups[..|groups|] == groups;
    }

    /** The bits of one pair, with the marker group when it is due. */
    method FormPair(groups: seq<Group>, sf: nat) returns (p: Pair)
      requires TxValid(amp, State()) && |groups| == GroupCount(pc)
      modifies this, scr, prbs
      ensures p == TxPair(old(State()), groups, sf)
      ensures State() == TxNext(amp, old(State()), groups)
    {
      hide AmFixed, History, Line, PrbsState, PrbsBits;
      var head: Bits := [];
      if pc == 0 {
        var fixed := AmMappedFixed();
        var pad := prbs.Take(133);
        head := fixed + pad + ToBits(sf % 8, 3);
      }
      var blks := ScrambleGroups(groups);
      pc := (pc + 1) % amp;
      p := head + blks;
    }

    /** One pair of codewords, from 32 groups when the marker group is due and 40 otherwise. */
    method SendPair(groups: seq<Group>, sf: nat) returns (out: seq<Symbol>)
      requires Valid() && |groups| == GroupCount(pc)
      modifies this, scr, prbs
      ensures Valid()
      ensures out == TxSymbols(old(State()), groups, sf)
      ensures State() == TxNext(amp, old(State()), groups)
    {
      hide Tables.Valid, Generator, TxPair, Parity, IsCodeword, TxNext;
      var p := FormPair(groups, sf);
      var (a, b) := Split(p);
      var ca := Encode(gf, gen, a);
      var cb := Encode(gf, gen, b);
      out := Interleave(ca, cb);
    }
  }

  /** Decoding with the fallback to the received word. */
  method DecodeOrRaw(gf: Tables, c: seq<Symbol>) returns (d: seq<Symbol>, ok: bool)
    requires gf.Valid() && |c| == N
    ensures (d, ok) == Decoded(c)
  {
    hide Tables.Valid, IsCodeword;
    var out, n := Decode(gf, c);
    if out.Some? {
      DecodedNear(c, out.value);
      d, ok := out.value, true;
    } else {
      d, ok := c, false;
    }
  }

  class Rx {
    const amp: nat
    const gf: Tables
    const dsc: Scrambler
    var lock: bool
    var pc: nat
    var miss: nat
    var sf: nat

    ghost predicate Valid()
      reads this, dsc
    {
      gf.Valid() && amp >= 1 && |dsc.h| == 58
    }

    ghost function State(): RxState
      reads this, dsc
    {
      RxState(lock, pc, miss, sf, dsc.h)
    }

    constructor (amp: nat, gf: Tables)
      requires amp >= 1 && gf.Valid()
      ensures Valid() && fresh(dsc) && this.amp == amp && State() == RX_RESET
    {
      this.amp, this.gf, lock, pc, miss, sf := amp, gf, false, 0, 0, 0;
      dsc := new Scrambler();
    }

    method ReceivePair(syms: seq<Symbol>) returns (out: seq<Group>, ev: Events)
      requires Valid() && |syms| == 1088
      modifies this, dsc
      ensures Valid()
      ensures var (p, bad) := RxPair(syms);
        && out == RxOut(old(State()), p, bad)
        && ev == RxEvents(old(State()), p, bad)
        && State() == RxNext(amp, old(State()), p, bad)
    {
      hide Tables.Valid, AmFixed, Received, History, Merged, Decoded, StatusBits;
      ghost var st := State();
      var ca, cb := Deinterleave(syms);
      var da, oka := DecodeOrRaw(gf, ca);
      var db, okb := DecodeOrRaw(gf, cb);
      var bad := !oka || !okb;
      var pair := Merge(da, db);
      assert RxPair(syms) == (pair, bad);
      var fixed := AmMappedFixed();
      var found := pair[..1920] == fixed;
      assert found == HasMarker(pair);
      hide HasMarker, RxPair;
      out, ev := [], Events(bad, false, found, 0);
      var start := AMBLK;
      if !lock {
        if found {
          lock, pc, miss, sf := true, 0, 0, StatusBits(pair);
        } else {
          Skip(pair[257 * AMBLK..]);
          return;
        }
      } else if pc == 0 {
        if found {
          miss, sf := 0, StatusBits(pair);
        } else if !bad {
          ev := ev.(amErr := true);
          miss := miss + 1;
          if miss == 3 {
            lock := false;
          }
        }
      } else {
        start := 0;
        if found && !bad {
          ev := ev.(amErr := true);
        }
      }
      pc := (pc + 1) % amp;
      if !lock {
        Skip(pair[257 * start..]);
        return;
      }
      var itb: nat;
      out, itb := Receive(pair[257 * start..], NBLK - start, bad);
      ev := ev.(itb := itb);
    }

    /** Descrambles and drops, to keep the history of the line. */
    method Skip(line: Bits)
      requires |dsc.h| == 58 && |line| % 257 == 0
      modifies dsc
      ensures dsc.h == History(old(dsc.h), line)
    {
      ghost var h := dsc.h;
      for i := 0 to |line| / 257
        invariant dsc.h == History(h, line[..257 * i])
      {
        var d := dsc.Descramble(line[257 * i..257 * i + 257]);
        HistoryConcat(h, line[..257 * i], line[257 * i..257 * i + 257]);
        assert line[..257 * i] + line[257 * i..257 * i + 257] == line[..257 * (i + 1)];
      }
      assert line[..257 * (|line| / 257)] == line;
    }

    /** Descrambles and reverse transcodes n blocks. */
    method Receive(line: Bits, n: nat, bad: bool) returns (out: seq<Group>, itb: nat)
      requires |dsc.h| == 58 && |line| == 257 * n
      modifies dsc
      ensures dsc.h == History(old(dsc.h), line)
      ensures out == Groups(Received(old(dsc.h), line, n), bad)
      ensures itb == if bad then 0 else Flagged(Received(old(dsc.h), line, n))
    {
      hide History, Descrambled, RevTranscode;
      ghost var h := dsc.h;
      HistoryEmpty(h);
      assert line[..257 * 0] == [];
      out, itb := [], 0;
      for i := 0 to n
        invariant |dsc.h| == 58 && dsc.h == History(h, line[..257 * i])
        invariant out == Groups(Received(h, line, i), bad)
        invariant itb == if bad then 0 else Flagged(Received(h, line, i))
      {
        var d := dsc.Descramble(line[257 * i..257 * i + 257]);
        HistoryConcat(h, line[..257 * i], line[257 * i..257 * i + 257]);
        assert line[..257 * i] + line[257 * i..257 * i + 257] == line[..257 * (i + 1)];
        var (g, inv) := RevTranscode(d);
        assert Received(h, line, i + 1)[..i] == Received(h, line, i);
        itb := if inv && !bad then itb + 1 else itb;
        out := out + [Marked(g, bad)];
      }
      assert line[..257 * n] == line;
    }
  }
}
