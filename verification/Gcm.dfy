/** AES-GCM of scripts/aes_gcm/gcm_ref.py (SP 800-38D with a 96-bit IV): the keystream, the tag, that decrypting
    what was encrypted returns the text with the same tag, and what the tag distinguishes. */
module Gcm {
  import opened Arithmetic
  import opened Options
  import opened XorNat
  import opened BitFields
  import opened AesField
  import opened Aes
  import opened Ghash

  // ---------- big-endian numbers ----------

  function BigEndian(s: Bytes): nat {
    if s == [] then 0 else 256 * BigEndian(s[..|s| - 1]) + s[|s| - 1]
  }

  function BigBytes(v: nat, n: nat): (s: Bytes)
    ensures |s| == n
  {
    if n == 0 then [] else BigBytes(v / 256, n - 1) + [v % 256]
  }

  lemma {:induction false} BigEndianBound(s: Bytes)
    ensures BigEndian(s) < Pow2(8 * |s|)
    decreases |s|
  {
    if s != [] {
      var l := s[..|s| - 1];
      BigEndianBound(l);
      ByteStep(8 * |l|);
      assert 8 * |s| == 8 * |l| + 8;
    }
  }

  lemma ByteStep(n: nat)
    ensures Pow2(n + 8) == 256 * Pow2(n)
  {
    ByteBits();
    Pow2Adds(n, 8);
  }

  lemma {:induction false} BigRoundTrip(v: nat, n: nat)
    requires v < Pow2(8 * n)
    ensures BigEndian(BigBytes(v, n)) == v
    decreases n
  {
    if n > 0 {
      ByteStep(8 * (n - 1));
      assert 8 * n == 8 * (n - 1) + 8;
      Quotient(v, Pow2(8 * (n - 1)));
      BigRoundTrip(v / 256, n - 1);
      assert BigBytes(v, n)[..n - 1] == BigBytes(v / 256, n - 1);
    }
  }

  lemma Quotient(v: nat, p: nat)
    requires v < 256 * p
    ensures v / 256 < p
  {}

  // ---------- the keystream ----------

  predicate IsIv(iv: Bytes) {
    |iv| == 12
  }

  const WORD: nat := 0x1_0000_0000

  /** The counter block with a 32-bit counter. */
  function CounterBlock(iv: Bytes, n: nat): Block
    requires IsIv(iv)
  {
    iv + BigBytes(n % WORD, 4)
  }

  /** Keystream block n encrypts counter n + 2; counter 1 is kept for the tag. */
  function Keystream(key: Bytes, iv: Bytes, n: nat): Block
    requires IsKey(key) && IsIv(iv)
  {
    EncryptOf(key, CounterBlock(iv, n + 2))
  }

  function TagMask(key: Bytes, iv: Bytes): Block
    requires IsKey(key) && IsIv(iv)
  {
    EncryptOf(key, CounterBlock(iv, 1))
  }

  function Crypt(key: Bytes, iv: Bytes, text: Bytes): (out: Bytes)
    requires IsKey(key) && IsIv(iv)
    ensures |out| == |text|
  {
    seq(|text|, i requires 0 <= i < |text| => Add(text[i], Keystream(key, iv, i / 16)[i % 16]))
  }

  /** The same keystream a second time takes the first away, whatever the length. */
  lemma CryptTwice(key: Bytes, iv: Bytes, text: Bytes)
    requires IsKey(key) && IsIv(iv)
    ensures Crypt(key, iv, Crypt(key, iv, text)) == text
  {
    hide Add, Keystream;
    var c := Crypt(key, iv, text);
    forall i | 0 <= i < |text|
      ensures Crypt(key, iv, c)[i] == text[i]
    {
      AddCancel(text[i], Keystream(key, iv, i / 16)[i % 16]);
    }
  }

  lemma CountersDiffer(iv: Bytes, m: nat, n: nat)
    requires IsIv(iv)
    ensures CounterBlock(iv, m) == CounterBlock(iv, n) <==> m % WORD == n % WORD
  {
    if CounterBlock(iv, m) == CounterBlock(iv, n) {
      assert CounterBlock(iv, m)[12..] == BigBytes(m % WORD, 4);
      assert CounterBlock(iv, n)[12..] == BigBytes(n % WORD, 4);
      WordBits();
      BigRoundTrip(m % WORD, 4);
      BigRoundTrip(n % WORD, 4);
    }
  }

  lemma WordBits()
    ensures Pow2(8 * 4) == WORD
  {
    ByteBits();
    assert Pow2(0) == 1;
    hide Pow2;
    ByteStep(0); ByteStep(8); ByteStep(16); ByteStep(24);
  }

  lemma SameShifted(m: nat, n: nat)
    ensures (m + 2) % WORD == (n + 2) % WORD <==> m % WORD == n % WORD
    ensures (n + 2) % WORD == 1 % WORD <==> (n + 1) % WORD == 0
  {}

  /** Encryption under one key keeps counter blocks apart. */
  lemma MasksDiffer(key: Bytes, iv: Bytes, m: nat, n: nat)
    requires IsKey(key) && IsIv(iv)
    ensures EncryptOf(key, CounterBlock(iv, m)) == EncryptOf(key, CounterBlock(iv, n)) <==> m % WORD == n % WORD
  {
    hide EncryptOf, CounterBlock;
    CountersDiffer(iv, m, n);
    if EncryptOf(key, CounterBlock(iv, m)) == EncryptOf(key, CounterBlock(iv, n)) {
      EncryptInjective(key, CounterBlock(iv, m), CounterBlock(iv, n));
    }
  }

  /** Two keystream blocks are the same exactly when their counters agree in 32 bits, and a keystream block masks
      the tag exactly when its counter has come round to 1. */
  lemma KeystreamRepeats(key: Bytes, iv: Bytes, m: nat, n: nat)
    requires IsKey(key) && IsIv(iv)
    ensures Keystream(key, iv, m) == Keystream(key, iv, n) <==> m % WORD == n % WORD
    ensures Keystream(key, iv, n) == TagMask(key, iv) <==> (n + 1) % WORD == 0
  {
    hide EncryptOf, CounterBlock;
    SameShifted(m, n);
    MasksDiffer(key, iv, m + 2, n + 2);
    MasksDiffer(key, iv, n + 2, 1);
  }

  // ---------- the tag ----------

  /** The 16-byte pieces as numbers; the last may be short. */
  function Chunk(data: Bytes, i: nat): nat
    requires 16 * i < |data|
  {
    BigEndian(data[16 * i..if 16 * i + 16 < |data| then 16 * i + 16 else |data|])
  }

  function Chunks(data: Bytes, n: nat): (c: seq<nat>)
    requires 16 * n < |data| + 16
    ensures |c| == n
  {
    seq(n, i requires 0 <= i < n => Chunk(data, i))
  }

  lemma ChunksAreBlocks(data: Bytes, n: nat)
    requires 16 * n < |data| + 16
    ensures forall i :: 0 <= i < n ==> IsBlock(Chunks(data, n)[i])
  {
    hide BigEndian, Pow2;
    forall i | 0 <= i < n
      ensures IsBlock(Chunks(data, n)[i])
    {
      var s := data[16 * i..if 16 * i + 16 < |data| then 16 * i + 16 else |data|];
      BigEndianBound(s);
      PowMono(8 * |s|, 128);
    }
  }

  method GhashBytes(h: nat, data: Bytes) returns (y: nat)
    ensures y == GhashOf(h, Chunks(data, (|data| + 15) / 16))
  {
    hide BigEndian, Xor, GfMulOf;
    y := 0;
    var i := 0;
    ghost var n: nat := 0;
    while i < |data|
      invariant i == 16 * n && 16 * n < |data| + 16
      invariant y == GhashOf(h, Chunks(data, n))
      decreases |data| - i
    {
      var x := BigEndian(data[i..if i + 16 < |data| then i + 16 else |data|]);
      assert Chunks(data, n + 1)[..n] == Chunks(data, n);
      y := GfMul(Xor(y, x), h);
      i := i + 16;
      n := n + 1;
    }
  }

  function Zeros(n: nat): (z: Bytes)
    ensures |z| == n
  {
    seq(n, i => 0)
  }

  /** Zeros up to a multiple of 16. */
  function Padded(b: Bytes): (p: Bytes)
    ensures |p| % 16 == 0 && |b| <= |p| < |b| + 16
  {
    b + Zeros(if |b| % 16 == 0 then 0 else 16 - |b| % 16)
  }

  lemma Sixteens(a: nat, b: nat)
    requires a % 16 == 0 && b % 16 == 0
    ensures (a + b + 16) % 16 == 0
  {}

  /** What is hashed: the associated data and the ciphertext, each padded, and their lengths in bits. */
  function Authenticated(aad: Bytes, c: Bytes): (d: Bytes)
    ensures |d| % 16 == 0
  {
    Sixteens(|Padded(aad)|, |Padded(c)|);
    Padded(aad) + Padded(c) + BigBytes(8 * |aad|, 8) + BigBytes(8 * |c|, 8)
  }

  function AuthBlocks(aad: Bytes, c: Bytes): seq<nat> {
    var d := Authenticated(aad, c);
    Chunks(d, (|d| + 15) / 16)
  }

  function HashKey(key: Bytes): nat
    requires IsKey(key)
  {
    BigEndian(EncryptOf(key, Zeros(16)))
  }

  function TagNumber(key: Bytes, iv: Bytes, aad: Bytes, c: Bytes): nat
    requires IsKey(key) && IsIv(iv)
  {
    Xor(GhashOf(HashKey(key), AuthBlocks(aad, c)), BigEndian(TagMask(key, iv)))
  }

  /** 8 * n fits in eight bytes. */
  predicate LengthFits(n: nat) {
    8 * n < 0x1_0000_0000_0000_0000
  }

  /** None stands for the assertion errors and for the overflow of a length field. */
  function GcmOf(key: Bytes, iv: Bytes, aad: Bytes, text: Bytes, decrypt: bool): Option<(Bytes, Bytes)> {
    if !IsIv(iv) || !IsKey(key) || !LengthFits(|aad|) || !LengthFits(|text|) then None
    else
      var out := Crypt(key, iv, text);
      Some((out, BigBytes(TagNumber(key, iv, aad, if decrypt then text else out), 16)))
  }

  method Gcm(key: Bytes, iv: Bytes, aad: Bytes, text: Bytes, decrypt: bool, sbox: seq<Byte>)
    returns (r: Option<(Bytes, Bytes)>)
    requires IsTable(sbox)
    ensures r == GcmOf(key, iv, aad, text, decrypt)
  {
    hide EncryptOf, Add, IsTable, BigEndian, BigBytes, GhashOf, Xor, Authenticated;
    if |iv| != 12 { return None; }
    var e := AesEncrypt(key, Zeros(16), sbox);
    if e == None { return None; }
    var h := BigEndian(e.value);
    var j0 := CounterBlock(iv, 1);
    var out := CryptLoop(key, iv, text, sbox);
    var c := if decrypt then text else out;
    if 8 * |aad| >= 0x1_0000_0000_0000_0000 || 8 * |c| >= 0x1_0000_0000_0000_0000 { return None; }
    var y := GhashBytes(h, Authenticated(aad, c));
    e := AesEncrypt(key, j0, sbox);
    r := Some((out, BigBytes(Xor(y, BigEndian(e.value)), 16)));
  }

  method CryptLoop(key: Bytes, iv: Bytes, text: Bytes, sbox: seq<Byte>) returns (out: Bytes)
    requires IsKey(key) && IsIv(iv) && IsTable(sbox)
    ensures out == Crypt(key, iv, text)
  {
    hide EncryptOf, Add, IsTable, BigBytes, XorOf;
    out := [];
    var i := 0;
    ghost var n: nat := 0;
    while i < |text|
      invariant i == 16 * n && |out| == (if i < |text| then i else |text|)
      invariant out == Crypt(key, iv, text)[..|out|]
      decreases |text| - i
    {
      var ks := AesEncrypt(key, CounterBlock(iv, i / 16 + 2), sbox);
      var piece := text[i..if i + 16 < |text| then i + 16 else |text|];
      PieceOfCrypt(key, iv, text, n, piece);
      out := out + XorOf(piece, ks.value);
      i := i + 16;
      n := n + 1;
    }
  }

  lemma PieceOfCrypt(key: Bytes, iv: Bytes, text: Bytes, n: nat, piece: Bytes)
    requires IsKey(key) && IsIv(iv) && 16 * n < |text|
    requires piece == text[16 * n..if 16 * n + 16 < |text| then 16 * n + 16 else |text|]
    ensures |XorOf(piece, Keystream(key, iv, n))| == |piece|
    ensures Crypt(key, iv, text)[..16 * n] + XorOf(piece, Keystream(key, iv, n))
      == Crypt(key, iv, text)[..16 * n + |piece|]
  {
    hide Add, Keystream;
    var x, c := XorOf(piece, Keystream(key, iv, n)), Crypt(key, iv, text);
    forall j | 0 <= j < |piece|
      ensures x[j] == c[16 * n + j]
    {
      assert (16 * n + j) / 16 == n && (16 * n + j) % 16 == j;
    }
    assert c[..16 * n + |piece|] == c[..16 * n] + c[16 * n..16 * n + |piece|];
  }

  // ---------- the main results ----------

  /** Decrypting what was encrypted returns the text and the same tag, and the other way round. */
  lemma DecryptEncrypted(key: Bytes, iv: Bytes, aad: Bytes, text: Bytes, first: bool)
    requires GcmOf(key, iv, aad, text, first).Some?
    ensures var (out, tag) := GcmOf(key, iv, aad, text, first).value;
      GcmOf(key, iv, aad, out, !first) == Some((text, tag))
  {
    CryptTwice(key, iv, text);
    hide Crypt, TagNumber, BigBytes;
  }

  lemma {:induction false} GhashBlock(h: nat, blocks: seq<nat>)
    requires IsBlock(h)
    ensures IsBlock(GhashOf(h, blocks))
  {
    hide Xor, Half, Halves, Partial;
    if blocks == [] {
      assert Pow2(128) > 0;
    } else {
      PartialBlock(Xor(GhashOf(h, blocks[..|blocks| - 1]), blocks[|blocks| - 1]), h, 128);
    }
  }

  lemma BlockNumber(b: Block)
    ensures IsBlock(BigEndian(b))
  {
    BigEndianBound(b);
    hide BigEndian, Pow2;
    assert 8 * |b| == 128;
  }

  lemma TagBlock(key: Bytes, iv: Bytes, aad: Bytes, c: Bytes)
    requires IsKey(key) && IsIv(iv)
    ensures IsBlock(TagNumber(key, iv, aad, c))
    ensures BigEndian(BigBytes(TagNumber(key, iv, aad, c), 16)) == TagNumber(key, iv, aad, c)
  {
    hide EncryptOf, GhashOf, Xor, BigEndian, BigBytes, Pow2, AuthBlocks;
    BlockNumber(EncryptOf(key, Zeros(16)));
    BlockNumber(TagMask(key, iv));
    var y, m := GhashOf(HashKey(key), AuthBlocks(aad, c)), BigEndian(TagMask(key, iv));
    GhashBlock(HashKey(key), AuthBlocks(aad, c));
    XorBound(y, m, 128);
    BigRoundTrip(Xor(y, m), 16);
  }

  /** The tag is the mask plus a polynomial in the hash key whose coefficients are the authenticated blocks. */
  lemma TagIsPolynomial(key: Bytes, iv: Bytes, aad: Bytes, text: Bytes, decrypt: bool)
    requires GcmOf(key, iv, aad, text, decrypt).Some?
    ensures var (out, tag) := GcmOf(key, iv, aad, text, decrypt).value;
      var b := AuthBlocks(aad, if decrypt then text else out);
      BigEndian(tag) == Xor(PolynomialSum(HashKey(key), b, |b|, |b|), BigEndian(TagMask(key, iv)))
  {
    hide EncryptOf, GhashOf, Xor, BigEndian, BigBytes, Pow2, Crypt, Authenticated, PolynomialSum, Chunks;
    var c := if decrypt then text else Crypt(key, iv, text);
    TagBlock(key, iv, aad, c);
    BlockNumber(EncryptOf(key, Zeros(16)));
    var d := Authenticated(aad, c);
    ChunksAreBlocks(d, (|d| + 15) / 16);
    GhashIsPolynomial(HashKey(key), AuthBlocks(aad, c));
  }

  // ---------- what the tag distinguishes ----------

  function XorBlocks(a: seq<nat>, b: seq<nat>): (c: seq<nat>)
    requires |a| == |b|
    ensures |c| == |a|
  {
    seq(|a|, i requires 0 <= i < |a| => Xor(a[i], b[i]))
  }

  lemma {:induction false} GhashXor(h: nat, a: seq<nat>, b: seq<nat>)
    requires |a| == |b|
    ensures GhashOf(h, XorBlocks(a, b)) == Xor(GhashOf(h, a), GhashOf(h, b))
  {
    XorSelf(0);
    hide Xor, GfMulOf;
    if |a| > 0 {
      var n := |a| - 1;
      var l, m := a[..n], b[..n];
      GhashXor(h, l, m);
      assert XorBlocks(a, b)[..n] == XorBlocks(l, m);
      var x, y := GhashOf(h, l), GhashOf(h, m);
      XorExchange(x, y, a[n], b[n]);
      MulXor(Xor(x, a[n]), Xor(y, b[n]), h);
    }
  }

  lemma XorIsZero(a: nat, b: nat)
    ensures Xor(a, b) == 0 <==> a == b
  {
    XorSelf(a);
    if Xor(a, b) == 0 {
      XorAssoc(a, b, b);
      XorSelf(b);
      XorZero(a);
      XorZero(b);
    }
  }

  lemma XorSameRight(a: nat, b: nat, m: nat)
    ensures Xor(a, m) == Xor(b, m) <==> a == b
  {
    hide Xor;
    XorExchange(a, m, b, m);
    XorSelf(m);
    XorZero(Xor(a, b));
    XorIsZero(a, b);
    XorIsZero(Xor(a, m), Xor(b, m));
  }

  /** The blocks with zero blocks in front, n in all. */
  function Aligned(blocks: seq<nat>, n: nat): (r: seq<nat>)
    requires |blocks| <= n
    ensures |r| == n
  {
    seq(n - |blocks|, i => 0) + blocks
  }

  lemma {:induction false} GhashOfZeros(h: nat, n: nat)
    ensures GhashOf(h, seq(n, i => 0)) == 0
  {
    XorSelf(0);
    MulZeroLeft(h);
    hide Xor, GfMulOf;
    if n > 0 {
      GhashOfZeros(h, n - 1);
      assert seq(n, i => 0)[..n - 1] == seq(n - 1, i => 0);
    }
  }

  /** Zero blocks in front do not change the hash. */
  lemma {:induction false} GhashAligned(h: nat, blocks: seq<nat>, n: nat)
    requires |blocks| <= n
    ensures GhashOf(h, Aligned(blocks, n)) == GhashOf(h, blocks)
    decreases |blocks|
  {
    hide Xor, GfMulOf;
    if blocks == [] {
      GhashOfZeros(h, n);
      assert Aligned(blocks, n) == seq(n, i => 0);
    } else {
      var l := blocks[..|blocks| - 1];
      GhashAligned(h, l, n - 1);
      assert Aligned(blocks, n)[..n - 1] == Aligned(l, n - 1);
    }
  }

  /** The differences of two messages' blocks, the shorter message aligned at the end. */
  function Differences(aad: Bytes, c: Bytes, aad': Bytes, c': Bytes): (d: seq<nat>)
    ensures |AuthBlocks(aad, c)| <= |d| && |AuthBlocks(aad', c')| <= |d|
    ensures |d| == |AuthBlocks(aad, c)| || |d| == |AuthBlocks(aad', c')|
  {
    var a, b := AuthBlocks(aad, c), AuthBlocks(aad', c');
    var n := if |a| < |b| then |b| else |a|;
    XorBlocks(Aligned(a, n), Aligned(b, n))
  }

  /** Under one key and IV, two messages have the same tag exactly when the hash key is a root of the
      polynomial of their differences. */
  lemma TagsAgree(key: Bytes, iv: Bytes, aad: Bytes, c: Bytes, aad': Bytes, c': Bytes)
    requires IsKey(key) && IsIv(iv)
    ensures var d := Differences(aad, c, aad', c');
      BigBytes(TagNumber(key, iv, aad, c), 16) == BigBytes(TagNumber(key, iv, aad', c'), 16) <==>
        PolynomialSum(HashKey(key), d, |d|, |d|) == 0
  {
    hide EncryptOf, GhashOf, Xor, BigEndian, BigBytes, Pow2, Authenticated, PolynomialSum, Chunks, XorBlocks;
    TagBlock(key, iv, aad, c);
    TagBlock(key, iv, aad', c');
    var h, a, b := HashKey(key), AuthBlocks(aad, c), AuthBlocks(aad', c');
    var d := Differences(aad, c, aad', c');
    BlockNumber(EncryptOf(key, Zeros(16)));
    XorSameRight(GhashOf(h, a), GhashOf(h, b), BigEndian(TagMask(key, iv)));
    XorIsZero(GhashOf(h, a), GhashOf(h, b));
    GhashAligned(h, a, |d|);
    GhashAligned(h, b, |d|);
    GhashXor(h, Aligned(a, |d|), Aligned(b, |d|));
    DifferencesAreBlocks(aad, c, aad', c');
    GhashIsPolynomial(h, d);
  }

  lemma AlignedAreBlocks(blocks: seq<nat>, n: nat)
    requires |blocks| <= n && forall i :: 0 <= i < |blocks| ==> IsBlock(blocks[i])
    ensures forall i :: 0 <= i < n ==> IsBlock(Aligned(blocks, n)[i])
  {
    assert IsBlock(0) by { assert Pow2(128) > 0; }
    hide Pow2;
  }

  lemma DifferencesAreBlocks(aad: Bytes, c: Bytes, aad': Bytes, c': Bytes)
    ensures forall i :: 0 <= i < |Differences(aad, c, aad', c')| ==> IsBlock(Differences(aad, c, aad', c')[i])
  {
    hide Xor, Authenticated, Chunks, Pow2, Aligned;
    var d, e := Authenticated(aad, c), Authenticated(aad', c');
    ChunksAreBlocks(d, (|d| + 15) / 16);
    ChunksAreBlocks(e, (|e| + 15) / 16);
    var n := |Differences(aad, c, aad', c')|;
    AlignedAreBlocks(AuthBlocks(aad, c), n);
    AlignedAreBlocks(AuthBlocks(aad', c'), n);
    var a, b := Aligned(AuthBlocks(aad, c), n), Aligned(AuthBlocks(aad', c'), n);
    forall i | 0 <= i < n
      ensures IsBlock(XorBlocks(a, b)[i])
    {
      XorBound(a[i], b[i], 128);
    }
  }

  lemma {:induction false} BytesBack(s: Bytes)
    ensures BigBytes(BigEndian(s), |s|) == s
    decreases |s|
  {
    if s != [] {
      BytesBack(s[..|s| - 1]);
    }
  }

  lemma ChunksDetermine(d: Bytes, e: Bytes)
    requires |d| % 16 == 0 && |e| % 16 == 0
    requires Chunks(d, (|d| + 15) / 16) == Chunks(e, (|e| + 15) / 16)
    ensures d == e
  {
    hide BigEndian, BigBytes;
    assert |Chunks(d, (|d| + 15) / 16)| == |Chunks(e, (|e| + 15) / 16)|;
    assert |d| == |e|;
    forall k | 0 <= k < |d|
      ensures d[k] == e[k]
    {
      var i := k / 16;
      assert Chunks(d, (|d| + 15) / 16)[i] == Chunk(d, i) && Chunks(e, (|e| + 15) / 16)[i] == Chunk(e, i);
      BytesBack(d[16 * i..16 * i + 16]);
      BytesBack(e[16 * i..16 * i + 16]);
      assert d[k] == d[16 * i..16 * i + 16][k % 16] && e[k] == e[16 * i..16 * i + 16][k % 16];
    }
  }

  /** The authenticated blocks determine the associated data and the ciphertext: no two messages share them. */
  lemma BlocksDetermine(aad: Bytes, c: Bytes, aad': Bytes, c': Bytes)
    requires LengthFits(|aad|) && LengthFits(|c|) && LengthFits(|aad'|) && LengthFits(|c'|)
    requires AuthBlocks(aad, c) == AuthBlocks(aad', c')
    ensures aad == aad' && c == c'
  {
    hide *;
    AuthenticatedSame(aad, c, aad', c');
    LengthsAt(aad, c); LengthsAt(aad', c');
    LengthBack(|c|); LengthBack(|c'|); LengthBack(|aad|); LengthBack(|aad'|);
    PaddedAt(aad, c); PaddedAt(aad', c');
  }

  lemma AuthenticatedSame(aad: Bytes, c: Bytes, aad': Bytes, c': Bytes)
    requires AuthBlocks(aad, c) == AuthBlocks(aad', c')
    ensures Authenticated(aad, c) == Authenticated(aad', c')
  {
    hide BigBytes, Chunks, Padded, Authenticated;
    ChunksDetermine(Authenticated(aad, c), Authenticated(aad', c'));
  }

  lemma LengthsAt(aad: Bytes, c: Bytes)
    ensures var d := Authenticated(aad, c);
      |d| >= 16 && d[|d| - 8..] == BigBytes(8 * |c|, 8) && d[|d| - 16..|d| - 8] == BigBytes(8 * |aad|, 8)
  {
    hide BigBytes, Padded;
  }

  lemma LengthBack(n: nat)
    requires LengthFits(n)
    ensures BigEndian(BigBytes(8 * n, 8)) == 8 * n
  {
    WordBits();
    Pow2Adds(8 * 4, 8 * 4);
    hide Pow2, BigBytes, BigEndian;
    BigRoundTrip(8 * n, 8);
  }

  /** Where the two parts are. */
  lemma PaddedAt(aad: Bytes, c: Bytes)
    ensures |Authenticated(aad, c)| >= |Padded(aad)| + |c|
    ensures Authenticated(aad, c)[..|aad|] == aad && Authenticated(aad, c)[|Padded(aad)|..|Padded(aad)| + |c|] == c
    ensures |Padded(aad)| == (|aad| + 15) / 16 * 16
  {
    hide BigBytes;
  }
}
