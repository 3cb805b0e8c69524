/**
  Machine values the duplicate finder works with: bytes, the `u64` file size
  reported by `metadata(..).len()`, and digests (`Vec<u8>`), which the
  `BTreeMap` orders lexicographically.
*/
module Bytes {
  import opened Order

  newtype byte = x: int | 0 <= x < 0x100

  newtype u64 = x: int | 0 <= x < 0x1_0000_0000_0000_0000

  /** A digest as the table keys it: the bytes of a `Vec<u8>`. */
  type Digest = seq<byte>

  predicate ByteLess(x: byte, y: byte) {
    x < y
  }

  /** The order of `Vec<u8>` keys in the table: byte-wise lexicographic. */
  predicate DigestLess(a: Digest, b: Digest) {
    LexLess(a, b, ByteLess)
  }

  predicate DigestLe(a: Digest, b: Digest) {
    a == b || DigestLess(a, b)
  }

  /** The digest order is a strict total order: irreflexive, transitive, and
      any two different digests are comparable. */
  lemma DigestLessIsStrictTotal(a: Digest, b: Digest, c: Digest)
    ensures !DigestLess(a, a)
    ensures DigestLess(a, b) && DigestLess(b, c) ==> DigestLess(a, c)
    ensures a != b ==> DigestLess(a, b) || DigestLess(b, a)
  {
    LexIrreflexive(a, ByteLess);
    if DigestLess(a, b) && DigestLess(b, c) {
      LexTransitive(a, b, c, ByteLess);
    }
    if a != b {
      LexConnected(a, b, ByteLess);
    }
  }
}
