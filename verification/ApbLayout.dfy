/** The register words of scripts/apb/gen_apb.py: how the ports of a register are packed into 32-bit words, and the
    reset value of a word. */
module ApbLayout {
  import opened Arithmetic
  import opened BitFields

  datatype Port = Port(name: string, width: nat, reset: int)

  /** w bits of a port from bit plo, at bit lo of a word. */
  datatype Field = Field(port: string, lo: nat, w: nat, plo: nat, reset: int)

  type Word = seq<Field>

  datatype Packing = Packing(words: seq<Word>, cur: Word, pos: nat)

  function Flushed(p: Packing): Packing {
    Packing(if p.cur != [] then p.words + [p.cur] else p.words, [], 0)
  }

  /** The words of a port wider than 32 bits, from word k on. */
  function Pieces(f: Port, k: nat): seq<Word>
    decreases f.width - 32 * k
  {
    if 32 * k >= f.width then []
    else
      var w := if f.width - 32 * k < 32 then f.width - 32 * k else 32;
      [[Field(f.name, 0, w, 32 * k, f.reset / Pow2(32 * k))]] + Pieces(f, k + 1)
  }

  function Packed(p: Packing, f: Port): Packing {
    if f.width > 32 then
      var q := Flushed(p);
      q.(words := q.words + Pieces(f, 0))
    else
      var q := if p.pos + f.width > 32 then Flushed(p) else p;
      Packing(q.words, q.cur + [Field(f.name, q.pos, f.width, 0, f.reset)], q.pos + f.width)
  }

  function PackedAll(fields: seq<Port>): Packing {
    if fields == [] then Packing([], [], 0) else Packed(PackedAll(fields[..|fields| - 1]), fields[|fields| - 1])
  }

  function PackOf(fields: seq<Port>): seq<Word> {
    Flushed(PackedAll(fields)).words
  }

  method Pack(fields: seq<Port>) returns (words: seq<Word>)
    ensures words == PackOf(fields)
  {
    hide Pow2;
    words := [];
    var cur: Word, pos, n := [], 0, 0;
    while n < |fields|
      invariant n <= |fields| && Packing(words, cur, pos) == PackedAll(fields[..n])
    {
      var f := fields[n];
      assert fields[..n + 1][..n] == fields[..n];
      var w := f.width;
      if w > 32 {
        if cur != [] { words := words + [cur]; }
        cur, pos := [], 0;
        ghost var before := words;
        var k := 0;
        while k < (w + 31) / 32
          invariant 0 <= k <= (w + 31) / 32 && words + Pieces(f, k) == before + Pieces(f, 0)
        {
          var cw := if w - 32 * k < 32 then w - 32 * k else 32;
          words := words + [[Field(f.name, 0, cw, 32 * k, f.reset / Pow2(32 * k))]];
          k := k + 1;
        }
      } else {
        if pos + w > 32 {
          if cur != [] { words := words + [cur]; }
          cur, pos := [], 0;
        }
        cur := cur + [Field(f.name, pos, w, 0, f.reset)];
        pos := pos + w;
      }
      n := n + 1;
    }
    assert fields[..n] == fields;
    if cur != [] { words := words + [cur]; }
  }

  // ---------- every bit of every port has one place ----------

  type Bit = (string, nat)

  function PortBits(f: Port): seq<Bit> {
    seq(f.width, i => (f.name, i))
  }

  function AllPortBits(fields: seq<Port>): seq<Bit> {
    if fields == [] then [] else AllPortBits(fields[..|fields| - 1]) + PortBits(fields[|fields| - 1])
  }

  function FieldBits(f: Field): seq<Bit> {
    seq(f.w, i => (f.port, f.plo + i))
  }

  function WordBits(word: Word): seq<Bit> {
    if word == [] then [] else WordBits(word[..|word| - 1]) + FieldBits(word[|word| - 1])
  }

  function AllWordBits(words: seq<Word>): seq<Bit> {
    if words == [] then [] else AllWordBits(words[..|words| - 1]) + WordBits(words[|words| - 1])
  }

  /** How many bits the fields of a word take. */
  function End(word: Word): nat {
    if word == [] then 0 else End(word[..|word| - 1]) + word[|word| - 1].w
  }

  /** The fields lie one after the other from bit 0 and end within the 32 bits: no bit is used twice. */
  predicate Tiled(word: Word) {
    word == [] || (Tiled(word[..|word| - 1]) && word[|word| - 1].lo == End(word[..|word| - 1]) && End(word) <= 32)
  }

  lemma WordMore(word: Word, f: Field)
    ensures WordBits(word + [f]) == WordBits(word) + FieldBits(f) && End(word + [f]) == End(word) + f.w
    ensures Tiled(word + [f]) <==> Tiled(word) && f.lo == End(word) && End(word) + f.w <= 32
  {
    assert (word + [f])[..|word|] == word;
  }

  lemma WordsMore(words: seq<Word>, word: Word)
    ensures AllWordBits(words + [word]) == AllWordBits(words) + WordBits(word)
  {
    assert (words + [word])[..|words|] == words;
  }

  lemma {:induction false} WordsAppend(a: seq<Word>, b: seq<Word>)
    ensures AllWordBits(a + b) == AllWordBits(a) + AllWordBits(b)
    decreases |b|
  {
    hide WordBits;
    if b == [] {
      assert a + b == a;
    } else {
      var l, w := b[..|b| - 1], b[|b| - 1];
      assert AllWordBits(b) == AllWordBits(l) + WordBits(w);
      hide AllWordBits;
      WordsAppend(a, l);
      WordsMore(a + l, w);
      assert a + b == (a + l) + [w];
      Associates(AllWordBits(a), AllWordBits(l), WordBits(w));
    }
  }

  lemma Associates(a: seq<Bit>, b: seq<Bit>, c: seq<Bit>)
    ensures a + b + c == a + (b + c)
  {}

  lemma OneField(f: Field)
    ensures WordBits([f]) == FieldBits(f) && End([f]) == f.w && AllWordBits([[f]]) == FieldBits(f)
    ensures Tiled([f]) <==> f.lo == 0 && f.w <= 32
  {
    WordMore([], f);
    WordsMore([], [f]);
    assert [] + [f] == [f];
    assert [] + [[f]] == [[f]];
  }

  /** The k-th piece of a wide port. */
  function Piece(f: Port, k: nat): (p: Field)
    requires 32 * k < f.width
  {
    Field(f.name, 0, if f.width - 32 * k < 32 then f.width - 32 * k else 32, 32 * k, f.reset / Pow2(32 * k))
  }

  lemma PieceBits(f: Port, k: nat)
    requires 32 * k < f.width
    ensures FieldBits(Piece(f, k)) == PortBits(f)[32 * k..32 * k + Piece(f, k).w]
    ensures FieldBits(Piece(f, k)) + (if 32 * (k + 1) < f.width then PortBits(f)[32 * (k + 1)..] else [])
      == PortBits(f)[32 * k..]
  {
    hide Pow2;
    assert FieldBits(Piece(f, k)) == PortBits(f)[32 * k..32 * k + Piece(f, k).w];
  }

  /** The bits of a port from the k-th piece on. */
  function BitsFrom(f: Port, k: nat): seq<Bit> {
    if 32 * k < f.width then PortBits(f)[32 * k..] else []
  }

  lemma PiecesStep(f: Port, k: nat)
    requires 32 * k < f.width
    ensures Pieces(f, k) == [[Piece(f, k)]] + Pieces(f, k + 1)
    ensures BitsFrom(f, k) == FieldBits(Piece(f, k)) + BitsFrom(f, k + 1)
  {
    hide Pow2, FieldBits, PortBits;
    PieceBits(f, k);
  }

  lemma {:induction false} PiecesCover(f: Port, k: nat)
    ensures AllWordBits(Pieces(f, k)) == BitsFrom(f, k)
    ensures forall i :: 0 <= i < |Pieces(f, k)| ==> Tiled(Pieces(f, k)[i])
    decreases f.width - 32 * k
  {
    if 32 * k < f.width {
      var p := Piece(f, k);
      PiecesStep(f, k);
      assert p.lo == 0 && p.w <= 32;
      hide *;
      PiecesCover(f, k + 1);
      OneField(p);
      WordsAppend([[p]], Pieces(f, k + 1));
    }
  }

  /** The state of the packing loop. */
  ghost predicate Exact(p: Packing, bits: seq<Bit>) {
    && AllWordBits(p.words) + WordBits(p.cur) == bits
    && (forall i :: 0 <= i < |p.words| ==> Tiled(p.words[i])) && Tiled(p.cur) && End(p.cur) == p.pos
  }

  lemma FlushExact(p: Packing, bits: seq<Bit>)
    requires Exact(p, bits)
    ensures Exact(Flushed(p), bits)
  {
    hide Tiled, End;
    WordsMore(p.words, p.cur);
    assert End([]) == 0 && Tiled([]) by { Empty(); }
  }

  lemma Empty()
    ensures End([]) == 0 && Tiled([])
  {}

  lemma PackedExact(p: Packing, f: Port, bits: seq<Bit>)
    requires Exact(p, bits)
    ensures Exact(Packed(p, f), bits + PortBits(f))
  {
    hide Exact, Pieces;
    FlushExact(p, bits);
    if f.width > 32 {
      WideExact(Flushed(p), f, bits);
    } else {
      NarrowExact(if p.pos + f.width > 32 then Flushed(p) else p, f, bits);
    }
  }

  lemma WideExact(q: Packing, f: Port, bits: seq<Bit>)
    requires Exact(q, bits) && q.cur == [] && f.width > 32
    ensures Exact(q.(words := q.words + Pieces(f, 0)), bits + PortBits(f))
  {
    PiecesCover(f, 0);
    NoBits();
    assert BitsFrom(f, 0) == PortBits(f);
    hide AllWordBits, WordBits, Tiled, End, Pieces, PortBits;
    WordsAppend(q.words, Pieces(f, 0));
  }

  lemma NarrowExact(q: Packing, f: Port, bits: seq<Bit>)
    requires Exact(q, bits) && q.pos + f.width <= 32
    ensures Exact(Packing(q.words, q.cur + [Field(f.name, q.pos, f.width, 0, f.reset)], q.pos + f.width),
                  bits + PortBits(f))
  {
    hide AllWordBits, WordBits, Tiled, End, PortBits, FieldBits;
    WordMore(q.cur, Field(f.name, q.pos, f.width, 0, f.reset));
    WholeField(f, q.pos);
  }

  lemma NoBits()
    ensures WordBits([]) == []
  {}

  lemma WholeField(f: Port, lo: nat)
    ensures FieldBits(Field(f.name, lo, f.width, 0, f.reset)) == PortBits(f)
  {}

  lemma {:induction false} PackedAllExact(fields: seq<Port>)
    ensures Exact(PackedAll(fields), AllPortBits(fields))
    decreases |fields|
  {
    if fields != [] {
      var l := fields[..|fields| - 1];
      PackedAllExact(l);
      PackedExact(PackedAll(l), fields[|fields| - 1], AllPortBits(l));
    }
  }

  /** The fields of the words are the bits of the ports in order, each once, and do not overlap in a word. */
  lemma PackExact(fields: seq<Port>)
    ensures AllWordBits(PackOf(fields)) == AllPortBits(fields)
    ensures forall i :: 0 <= i < |PackOf(fields)| ==> Tiled(PackOf(fields)[i])
  {
    PackedAllExact(fields);
    FlushExact(PackedAll(fields), AllPortBits(fields));
  }

  // ---------- reset values ----------

  function ResetOf(word: Word): nat {
    if word == [] then 0
    else
      var f := word[|word| - 1];
      Or(ResetOf(word[..|word| - 1]), f.reset % Pow2(f.w) * Pow2(f.lo))
  }

  method Reset(word: Word) returns (v: nat)
    ensures v == ResetOf(word)
  {
    hide Or, Pow2;
    v := 0;
    for n := 0 to |word|
      invariant v == ResetOf(word[..n])
    {
      assert word[..n + 1][..n] == word[..n];
      v := Or(v, word[n].reset % Pow2(word[n].w) * Pow2(word[n].lo));
    }
    assert word[..|word|] == word;
  }

  /** In a tiled word, the or of the shifted fields is their sum, and fits below the end. */
  lemma {:induction false} ResetSum(word: Word)
    requires Tiled(word)
    ensures ResetOf(word) < Pow2(End(word))
    ensures word != [] ==> var f := word[|word| - 1];
      ResetOf(word) == ResetOf(word[..|word| - 1]) + f.reset % Pow2(f.w) * Pow2(f.lo)
    decreases |word|
  {
    hide Or, Pow2;
    if word != [] {
      var l, f := word[..|word| - 1], word[|word| - 1];
      ResetSum(l);
      OrAboveIsSum(ResetOf(l), f.reset % Pow2(f.w), f.lo);
      Pow2Adds(f.w, f.lo);
      BelowProduct(f.reset % Pow2(f.w), Pow2(f.w), ResetOf(l), Pow2(f.lo));
    }
  }

  lemma BelowProduct(b: nat, p: nat, x: nat, q: nat)
    requires b < p && x < q
    ensures x + b * q < p * q
  {
    assert (b + 1) * q <= p * q;
  }

  /** Every field of a word reads back its part of the reset value. */
  lemma {:induction false} FieldResets(word: Word, i: nat)
    requires Tiled(word) && i < |word|
    ensures ResetOf(word) / Pow2(word[i].lo) % Pow2(word[i].w) == word[i].reset % Pow2(word[i].w)
    decreases |word|
  {
    hide Or, Pow2;
    var l, f := word[..|word| - 1], word[|word| - 1];
    ResetSum(word);
    ResetSum(l);
    var g := word[i];
    var x, b := ResetOf(l), f.reset % Pow2(f.w);
    if i < |l| {
      FieldResets(l, i);
      FieldBelow(l, i);
      var d := End(l) - (g.lo + g.w);
      Pow2Adds(g.lo + g.w, d);
      Pow2Adds(g.lo, g.w);
      AboveIgnored(x, b, Pow2(d), Pow2(g.w), Pow2(g.lo));
    } else {
      Divide'(x, b, Pow2(f.lo));
      ModTwice(f.reset, Pow2(f.w));
    }
  }

  lemma {:induction false} FieldBelow(word: Word, i: nat)
    requires Tiled(word) && i < |word|
    ensures word[i].lo + word[i].w <= End(word)
    decreases |word|
  {
    if i < |word| - 1 {
      FieldBelow(word[..|word| - 1], i);
    }
  }

  lemma Divide'(x: nat, b: nat, q: nat)
    requires x < q
    ensures (x + b * q) / q == b
  {
    Divide(b, x, q);
  }

  lemma ModTwice(r: int, p: nat)
    requires p > 0
    ensures r % p % p == r % p
  {}

  lemma DivShift(x: nat, z: nat, l: nat)
    requires l > 0
    ensures (x + l * z) / l == x / l + z
  {
    DivMod(x, l);
    Divide(x / l + z, x % l, l);
    Distribute(l, x / l, z);
  }

  lemma ModShift(q: nat, y: nat, w: nat)
    requires w > 0
    ensures (q + w * y) % w == q % w
  {
    DivMod(q, w);
    Divide(q / w + y, q % w, w);
    Distribute(w, q / w, y);
  }

  lemma Distribute(l: nat, a: nat, b: nat)
    ensures l * (a + b) == l * a + l * b
  {}

  lemma AboveIgnored(x: nat, b: nat, d: nat, w: nat, l: nat)
    requires l > 0 && w > 0
    ensures (x + b * (l * w * d)) / l % w == x / l % w
  {
    Regroup(b, d, l, w);
    DivShift(x, w * (b * d), l);
    ModShift(x / l, b * d, w);
  }

  lemma Regroup(b: nat, d: nat, l: nat, w: nat)
    ensures b * (l * w * d) == l * (w * (b * d))
  {
    assert l * w * d == l * (w * d);
    assert b * (l * (w * d)) == l * (b * (w * d));
    assert b * (w * d) == w * (b * d);
  }

  // ---------- the reset values of packed ports ----------

  /** The field holds the bits of one of the ports' reset values from plo on. */
  ghost predicate HoldsReset(f: Field, fields: seq<Port>) {
    exists j :: 0 <= j < |fields| && fields[j].name == f.port && f.reset == fields[j].reset / Pow2(f.plo)
  }

  ghost predicate AllHold(words: seq<Word>, fields: seq<Port>) {
    forall k, i :: 0 <= k < |words| && 0 <= i < |words[k]| ==> HoldsReset(words[k][i], fields)
  }

  lemma HoldsMore(words: seq<Word>, fields: seq<Port>, f: Port)
    requires AllHold(words, fields)
    ensures AllHold(words, fields + [f])
  {
    hide Pow2;
    forall k, i | 0 <= k < |words| && 0 <= i < |words[k]|
      ensures HoldsReset(words[k][i], fields + [f])
    {
      assert HoldsReset(words[k][i], fields);
      var j :| 0 <= j < |fields| && fields[j].name == words[k][i].port
        && words[k][i].reset == fields[j].reset / Pow2(words[k][i].plo);
      assert (fields + [f])[j] == fields[j];
    }
  }

  lemma LastHolds(fields: seq<Port>, f: Port, g: Field)
    requires g.port == f.name && g.reset == f.reset / Pow2(g.plo)
    ensures HoldsReset(g, fields + [f])
  {
    hide Pow2;
    assert (fields + [f])[|fields|] == f;
  }

  lemma {:induction false} PiecesHold(fields: seq<Port>, f: Port, k: nat)
    ensures AllHold(Pieces(f, k), fields + [f])
    decreases f.width - 32 * k
  {
    if 32 * k < f.width {
      PiecesHold(fields, f, k + 1);
      assert Pieces(f, k) == [[Piece(f, k)]] + Pieces(f, k + 1);
      hide Pow2, HoldsReset, Pieces;
      LastHolds(fields, f, Piece(f, k));
    }
  }

  lemma {:induction false} PackedAllHold(fields: seq<Port>)
    ensures AllHold(PackedAll(fields).words, fields) && AllHold([PackedAll(fields).cur], fields)
    decreases |fields|
  {
    if fields != [] {
      var l, f := fields[..|fields| - 1], fields[|fields| - 1];
      assert fields == l + [f];
      PackedAllHold(l);
      var p := PackedAll(l);
      HoldsMore(p.words, l, f);
      HoldsMore([p.cur], l, f);
      assert Pow2(0) == 1;
      hide Pow2, HoldsReset, Pieces;
      PackedHold(l, f, p);
    }
  }

  lemma PackedHold(l: seq<Port>, f: Port, p: Packing)
    requires AllHold(p.words, l + [f]) && AllHold([p.cur], l + [f])
    ensures AllHold(Packed(p, f).words, l + [f]) && AllHold([Packed(p, f).cur], l + [f])
  {
    assert Pow2(0) == 1;
    hide Pow2, HoldsReset, Pieces;
    assert forall i :: 0 <= i < |p.cur| ==> HoldsReset([p.cur][0][i], l + [f]);
    if f.width > 32 {
      PiecesHold(l, f, 0);
    } else {
      var q := if p.pos + f.width > 32 then Flushed(p) else p;
      var g := Field(f.name, q.pos, f.width, 0, f.reset);
      WholeReset(f.reset);
      LastHolds(l, f, g);
    }
  }

  lemma WholeReset(r: int)
    ensures r == r / Pow2(0)
  {}

  /** Every field of every packed word reads back, from the word's reset value, its bits of its port's reset value. */
  lemma PortsReset(fields: seq<Port>, k: nat, i: nat)
    requires k < |PackOf(fields)| && i < |PackOf(fields)[k]|
    ensures var word := PackOf(fields)[k]; var f := word[i];
      exists j :: 0 <= j < |fields| && fields[j].name == f.port &&
        ResetOf(word) / Pow2(f.lo) % Pow2(f.w) == fields[j].reset / Pow2(f.plo) % Pow2(f.w)
  {
    hide Pow2, ResetOf, Tiled, AllWordBits, AllPortBits;
    PackExact(fields);
    PackedAllHold(fields);
    var p := PackedAll(fields);
    var word := PackOf(fields)[k];
    var f := word[i];
    assert k == |p.words| ==> word == [p.cur][0];
    assert HoldsReset(f, fields);
    FieldResets(word, i);
  }
}
