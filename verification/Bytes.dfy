/** Byte strings and their two readings: big.Int's SetBytes / Bytes, and binary.Write in
    big-endian order.  A nil slice and an empty one are the same value here: bytes.Equal does
    not tell them apart. */
module ByteStrings {

  newtype byte = x: int | 0 <= x < 256

  type Bytes = seq<byte>

  /** big.Int.SetBytes */
  function FromBytes(b: Bytes): nat {
    if b == [] then 0 else FromBytes(b[..|b| - 1]) * 256 + b[|b| - 1] as nat
  }

  /** big.Int.Bytes: the shortest big-endian encoding */
  function ToBytes(n: nat): (b: Bytes)
    ensures FromBytes(b) == n
    ensures b != [] ==> b[0] != 0
  {
    if n == 0 then [] else
      var high := ToBytes(n / 256);
      var b := high + [(n % 256) as byte];
      assert b[..|b| - 1] == high;
      b
  }

  /** binary.Write(_, binary.BigEndian, v) of an integer of the given width; Euclidean division
      gives the two's complement digits of a negative value. */
  function BigEndian(v: int, width: nat): (b: Bytes)
    ensures |b| == width
    decreases width
  {
    if width == 0 then [] else BigEndian(v / 256, width - 1) + [(v % 256) as byte]
  }

  function Int64(v: int): (b: Bytes)
    ensures |b| == 8
  {
    BigEndian(v, 8)
  }

  function Int32(v: int): (b: Bytes)
    ensures |b| == 4
  {
    BigEndian(v, 4)
  }

  function Zeros(n: nat): (b: Bytes)
    ensures |b| == n
  {
    seq(n, _ => 0)
  }

  function Concat(pieces: seq<Bytes>): Bytes {
    if pieces == [] then [] else pieces[0] + Concat(pieces[1..])
  }

  lemma {:induction false} ConcatAppend(a: seq<Bytes>, b: seq<Bytes>)
    ensures Concat(a + b) == Concat(a) + Concat(b)
  {
    if a == [] {
      assert a + b == b;
    } else {
      assert (a + b)[1..] == a[1..] + b;
      ConcatAppend(a[1..], b);
    }
  }

  lemma {:induction false} ConcatLength(pieces: seq<Bytes>, width: nat)
    requires forall i :: 0 <= i < |pieces| ==> |pieces[i]| == width
    ensures |Concat(pieces)| == |pieces| * width
  {
    if pieces != [] {
      ConcatLength(pieces[1..], width);
    }
  }
}
