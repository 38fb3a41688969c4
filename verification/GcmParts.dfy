/** The parts of SP 800-38D, section 7.1, that scripts/aes_gcm/gcm_ref.py puts together, byte by byte: the hash key, the
    counter blocks, the padding and the length block. */
module GcmParts {
  import opened Arithmetic
  import opened Options
  import opened XorNat
  import opened BitFields
  import opened AesField
  import opened Aes
  import opened Ghash
  import opened Gcm

  /** The encryption of sixteen zero bytes. */
  function SubkeyBytes(key: Bytes): Block
    requires IsKey(key)
  {
    EncryptOf(key, [0, 0, 0, 0, 0, 0, 0, 0, 0, 0, 0, 0, 0, 0, 0, 0])
  }

  /** The IV followed by a counter, its most significant byte first. */
  function Counter(iv: Bytes, n: nat): Block
    requires |iv| == 12
  {
    iv + [n / 0x100_0000 % 256, n / 0x1_0000 % 256, n / 0x100 % 256, n % 256]
  }

  /** Zero bytes up to the next multiple of 16. */
  function Pad(n: nat): Bytes {
    seq((16 - n % 16) % 16, i => 0)
  }

  /** Byte k of a number on n bytes. */
  lemma {:induction false} BigDigit(v: nat, n: nat, k: nat)
    requires k < n
    ensures BigBytes(v, n)[k] == v / Pow2(8 * (n - 1 - k)) % 256
  {
    if k < n - 1 {
      BigDigit(v / 256, n - 1, k);
      var m := 8 * (n - 2 - k);
      ByteStep(m);
      assert 8 * (n - 1 - k) == m + 8;
      DivideOnce(v, Pow2(m));
    } else {
      assert Pow2(0) == 1;
    }
  }

  lemma DivideOnce(v: nat, p: nat)
    requires p > 0
    ensures v / 256 / p == v / (256 * p)
  {
    var q, r := v / 256, v % 256;
    var s, t := q / p, q % p;
    DivMod(v, 256);
    DivMod(q, p);
    assert v == 256 * (p * s + t) + r;
    assert 256 * (p * s + t) + r == 256 * p * s + (256 * t + r);
    Divide(s, 256 * t + r, 256 * p);
  }

  lemma FourDigits(v: nat)
    ensures BigBytes(v % WORD, 4) == [v / 0x100_0000 % 256, v / 0x1_0000 % 256, v / 0x100 % 256, v % 256]
  {
    var w := v % WORD;
    ByteBits();
    assert Pow2(0) == 1;
    ByteStep(0); ByteStep(8); ByteStep(16);
    hide Pow2, BigBytes;
    BigDigit(w, 4, 0); BigDigit(w, 4, 1); BigDigit(w, 4, 2); BigDigit(w, 4, 3);
    WordDigits(v);
    assert |BigBytes(w, 4)| == 4;
  }

  lemma WordDigits(v: nat)
    ensures var w := v % WORD;
      && w / 0x100_0000 % 256 == v / 0x100_0000 % 256 && w / 0x1_0000 % 256 == v / 0x1_0000 % 256
      && w / 0x100 % 256 == v / 0x100 % 256 && w % 256 == v % 256
  {
    var q := v / WORD;
    DivMod(v, WORD);
    LowDigit(v % WORD, q, 0x100_0000);
    LowDigit(v % WORD, 0x100 * q, 0x1_0000);
    LowDigit(v % WORD, 0x1_0000 * q, 0x100);
    LowDigit(v % WORD, 0x100_0000 * q, 1);
  }

  lemma LowDigit(w: nat, z: nat, m: nat)
    requires m > 0
    ensures (w + m * (256 * z)) / m % 256 == w / m % 256
  {
    DivMod(w, m);
    var q, r := w / m, w % m;
    assert w + m * (256 * z) == m * (q + 256 * z) + r;
    Divide(q + 256 * z, r, m);
    Turns(q, z);
  }

  lemma Turns(q: nat, z: nat)
    ensures (q + 256 * z) % 256 == q % 256
  {}

  lemma CounterIs(iv: Bytes, n: nat)
    requires IsIv(iv)
    ensures CounterBlock(iv, n) == Counter(iv, n)
  {
    FourDigits(n);
    hide BigBytes;
  }

  lemma PaddedIs(b: Bytes)
    ensures Padded(b) == b + Pad(|b|)
  {}

  /** Associated data and ciphertext, each padded with zeros, and their bit lengths on eight bytes each. */
  function AuthData(aad: Bytes, c: Bytes): Bytes {
    aad + Pad(|aad|) + (c + Pad(|c|)) + (BigBytes(8 * |aad|, 8) + BigBytes(8 * |c|, 8))
  }

  lemma DataIs(aad: Bytes, c: Bytes)
    ensures Authenticated(aad, c) == AuthData(aad, c)
  {
    hide BigBytes;
    PaddedIs(aad);
    PaddedIs(c);
    hide Pad, Padded;
    var p, q, r, s := aad + Pad(|aad|), c + Pad(|c|), BigBytes(8 * |aad|, 8), BigBytes(8 * |c|, 8);
    assert p + q + r + s == p + q + (r + s);
  }

  /** Byte i of the output is byte i of the text plus byte i % 16 of the encrypted counter i / 16 + 2. */
  lemma OutputIs(key: Bytes, iv: Bytes, aad: Bytes, text: Bytes, decrypt: bool)
    requires GcmOf(key, iv, aad, text, decrypt).Some?
    ensures IsKey(key) && |iv| == 12 && |GcmOf(key, iv, aad, text, decrypt).value.0| == |text|
    ensures forall i :: 0 <= i < |text| ==>
      GcmOf(key, iv, aad, text, decrypt).value.0[i]
      == Add(text[i], EncryptOf(key, Counter(iv, i / 16 + 2))[i % 16])
  {
    hide EncryptOf, TagNumber, BigBytes, Add;
    forall i | 0 <= i < |text|
      ensures Crypt(key, iv, text)[i] == Add(text[i], EncryptOf(key, Counter(iv, i / 16 + 2))[i % 16])
    {
      CounterIs(iv, i / 16 + 2);
    }
  }

  /** The hash of data under the encrypted zero block plus the encrypted counter 1. */
  function StandardTag(key: Bytes, iv: Bytes, data: Bytes): Bytes
    requires IsKey(key) && |iv| == 12
  {
    hide GhashOf, EncryptOf, BigEndian, BigBytes, Xor, IsKey, SubkeyBytes, Chunks;
    var y := GhashOf(BigEndian(SubkeyBytes(key)), Chunks(data, (|data| + 15) / 16));
    BigBytes(Xor(y, BigEndian(EncryptOf(key, iv + [0, 0, 0, 1]))), 16)
  }

  /** The tag is the hash of the authenticated data under the encrypted zero block plus the encrypted counter 1. */
  lemma TagIs(key: Bytes, iv: Bytes, aad: Bytes, text: Bytes, decrypt: bool)
    requires GcmOf(key, iv, aad, text, decrypt).Some?
    ensures IsKey(key) && |iv| == 12
    ensures var (out, tag) := GcmOf(key, iv, aad, text, decrypt).value;
      tag == StandardTag(key, iv, AuthData(aad, if decrypt then text else out))
  {
    hide EncryptOf, GhashOf, Xor, BigEndian, BigBytes, Crypt, Chunks, AuthData, Authenticated;
    CounterIs(iv, 1);
    assert Counter(iv, 1) == iv + [0, 0, 0, 1];
    ZeroBlock();
    DataIs(aad, if decrypt then text else Crypt(key, iv, text));
  }

  lemma ZeroBlock()
    ensures Zeros(16) == [0, 0, 0, 0, 0, 0, 0, 0, 0, 0, 0, 0, 0, 0, 0, 0]
  {}
}
