/** Variable-length integers, as encoding/binary writes them, and what BytesToNodeValue
    (expanders/expander.go) reads back. */
module Varints {
  import opened ByteStrings
  import opened Hashing
  import opened CalcParents
  import opened ModExp
  import opened Encodings

  /** k groups of seven bits, the lowest first; all but the last have their top bit set. */
  function Groups(x: nat, k: nat): (b: Bytes)
    requires k >= 1 && x < Pow(128, k)
    ensures |b| == k
    decreases k
  {
    if k == 1 then
      assert Pow(128, 1) == 128 * Pow(128, 0) == 128;
      [x as byte]
    else
      assert x / 128 < Pow(128, k - 1);
      [(x % 128 + 128) as byte] + Groups(x / 128, k - 1)
  }

  /** PutVarint's zig-zag: small numbers of either sign get small codes. */
  function ZigZag(x: int): nat {
    if x >= 0 then 2 * x else -2 * x - 1
  }

  /** b begins with an encoding of x in k bytes. */
  predicate Encodes(b: Bytes, x: int, k: nat) {
    1 <= k <= |b| && ZigZag(x) < Pow(128, k) && b[..k] == Groups(ZigZag(x), k)
  }

  /** No byte ends the number. */
  predicate Endless(b: Bytes) {
    forall i :: 0 <= i < |b| ==> b[i] >= 128
  }

  lemma {:induction false} ReadsGroups(b: Bytes, i: nat, acc: nat, scale: nat, x: nat, k: nat)
    requires |b| <= 9 && 1 <= k && i + k <= |b| && x < Pow(128, k) && b[i..i + k] == Groups(x, k)
    ensures Uvarint(b, i, acc, scale) == acc + x * scale
    decreases k
  {
    var g := Groups(x, k);
    assert b[i] == b[i..i + k][0] == g[0];
    if k == 1 {
      assert Pow(128, 1) == 128 * Pow(128, 0) == 128;
    } else {
      assert x / 128 < Pow(128, k - 1);
      assert b[i + 1..i + k] == b[i..i + k][1..] == g[1..] == Groups(x / 128, k - 1);
      ReadsGroups(b, i + 1, acc + x % 128 * scale, scale * 128, x / 128, k - 1);
      assert x == x / 128 * 128 + x % 128;
      Shifted(x / 128, x % 128, scale);
    }
  }

  lemma Shifted(q: nat, r: nat, scale: nat)
    ensures r * scale + q * (scale * 128) == (q * 128 + r) * scale
  {
  }

  lemma {:induction false} ReadsEndless(b: Bytes, i: nat, acc: nat, scale: nat)
    requires i <= |b| <= 9 && Endless(b)
    ensures Uvarint(b, i, acc, scale) == 0
    decreases |b| - i
  {
    if i < |b| {
      ReadsEndless(b, i + 1, acc + (b[i] as nat - 0x80) * scale, scale * 0x80);
    }
  }

  /** Round trip: whatever is encoded in front is read back, whatever stands behind it. */
  lemma VarintRoundTrip(b: Bytes, x: int, k: nat)
    requires |b| <= 9 && Encodes(b, x, k)
    ensures Varint(b) == x
  {
    assert b[0..0 + k] == b[..k];
    ReadsGroups(b, 0, 0, 1, ZigZag(x), k);
  }

  /** A string is either endless, and read as 0, or begins with the encoding of exactly one number, and is
      read as that number. */
  lemma VarintReads(b: Bytes)
    requires |b| <= 9
    ensures Endless(b) ==> Varint(b) == 0
    ensures !Endless(b) ==> exists k: nat :: Encodes(b, Varint(b), k)
    ensures forall x, k: nat :: Encodes(b, x, k) ==> x == Varint(b) && !Endless(b)
  {
    hide Varint, Encodes, Endless;
    if Endless(b) {
      ReadsEndless(b, 0, 0, 1);
      ReadAsZero(b);
    } else {
      var x, k := EncodedBy(b);
      VarintRoundTrip(b, x, k);
    }
    forall x, k: nat | Encodes(b, x, k) ensures x == Varint(b) && !Endless(b) {
      VarintRoundTrip(b, x, k);
      EncodingEnds(b, x, k);
    }
  }

  lemma ReadAsZero(b: Bytes)
    requires |b| <= 9 && Uvarint(b, 0, 0, 1) == 0
    ensures Varint(b) == 0
  {
  }

  lemma EncodingEnds(b: Bytes, x: int, k: nat)
    requires Encodes(b, x, k)
    ensures !Endless(b)
  {
    LastGroup(ZigZag(x), k);
    assert b[k - 1] == b[..k][k - 1];
  }

  function Decoded(u: int): (x: int)
    ensures u >= 0 ==> ZigZag(x) == u
  {
    if u % 2 == 0 then u / 2 else -(u / 2) - 1
  }

  lemma EncodedBy(b: Bytes) returns (x: int, k: nat)
    requires !Endless(b)
    ensures Encodes(b, x, k)
  {
    var u;
    u, k := Ended(b);
    x := Decoded(u);
  }

  lemma {:induction false} LastGroup(x: nat, k: nat)
    requires k >= 1 && x < Pow(128, k)
    ensures Groups(x, k)[k - 1] < 128
  {
    if k > 1 {
      assert x / 128 < Pow(128, k - 1);
      LastGroup(x / 128, k - 1);
    }
  }

  /** A string that ends somewhere begins with some number in groups. */
  lemma {:induction false} Ended(b: Bytes) returns (x: nat, k: nat)
    requires !Endless(b)
    ensures 1 <= k <= |b| && x < Pow(128, k) && b[..k] == Groups(x, k)
    decreases |b|
  {
    if b[0] < 128 {
      x, k := b[0] as nat, 1;
      assert Pow(128, 1) == 128 * Pow(128, 0) == 128;
    } else {
      var i :| 0 <= i < |b| && b[i] < 128;
      assert b[1..][i - 1] < 128;
      var y, m := Ended(b[1..]);
      x, k := y * 128 + (b[0] as nat - 128), m + 1;
      assert x / 128 == y && x % 128 == b[0] as nat - 128;
      assert b[..k] == [b[0]] + b[1..][..m];
    }
  }

  /** The value of the four bytes at a place of the digest, without its sign. */
  function Reading(h: Bytes, j: nat, sh: nat): (v: nat)
    requires |h| == HASH_SIZE && j < 15 && sh < 4
  {
    var v := Varint(h[j * 4 + sh..(j + 1) * 4 + sh]);
    if v < 0 then -v else v
  }

  /** What is read at number j and shift sh is what an encoder put into bytes 4j + sh to 4j + sh + 3 of the
      digest, and 0 when no byte there ends a number. */
  lemma ReadingMeans(h: Bytes, j: nat, sh: nat)
    requires |h| == 64 && j < 15 && sh < 4
    ensures var b := h[4 * j + sh..4 * j + sh + 4];
            && (forall x, k: nat :: Encodes(b, x, k) ==> Reading(h, j, sh) == if x < 0 then -x else x)
            && (Endless(b) ==> Reading(h, j, sh) == 0)
            && (!Endless(b) ==> exists x, k: nat :: Encodes(b, x, k))
  {
    hide Varint, Endless, Encodes;
    VarintReads(h[4 * j + sh..4 * j + sh + 4]);
  }

  /** And the sampled node value is its residue. */
  lemma SampledMeans(h: Bytes, n: int, j: nat, sh: nat)
    requires |h| == HASH_SIZE && j < 15 && sh < 4 && n > 0
    ensures Sampled(h, n, j, sh) == Reading(h, j, sh) % n
  {
  }
}
