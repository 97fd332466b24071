/** The hash functions, which are not computed here: any function with digests of a fixed length will
    do (expanders.GetHash and tree.NewHash). */
module Hashing {
  import opened ByteStrings

  type HashFn = Bytes -> Bytes

  /** hash.Reset, hash.Write, hash.Sum */
  function Digest(h: HashFn, b: Bytes): Bytes {
    h(b)
  }

  ghost predicate FixedSize(h: HashFn, size: nat) {
    forall b :: |Digest(h, b)| == size
  }

  /** HashSize of the expanders */
  const HASH_SIZE: nat := 64

  type Hash = h: HashFn | forall b :: |h(b)| == HASH_SIZE witness _ => Zeros(HASH_SIZE)
}
