/** The hash functions as parameters: any deterministic functions with the right output lengths. */
module Hashing {
  import opened BitFields

  datatype Shake = Shake(shake128: (Bytes, nat) -> Bytes, shake256: (Bytes, nat) -> Bytes) {
    ghost predicate Valid() {
      forall b, n :: |shake128(b, n)| == n && |shake256(b, n)| == n
    }
  }

  /** SHA3-256 and SHA3-512. */
  datatype Sha3 = Sha3(sha3_256: Bytes -> Bytes, sha3_512: Bytes -> Bytes) {
    ghost predicate Valid() {
      forall b :: |sha3_256(b)| == 32 && |sha3_512(b)| == 64
    }
  }

  /** What a sampler keeps that stops at 256 coefficients. */
  function First256(a: seq<int>): seq<int> {
    if |a| <= 256 then a else a[..256]
  }
}
