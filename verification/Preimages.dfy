/** Which bytes are hashed, told by what stands where: the blocks that parents are sampled from
    (expanders/generate_expanders.go), node labels (expanders/generate_idle_file.go) and file labels
    (pois/prove.go, calcFileLabel). */
module Preimages {
  import opened ByteStrings
  import opened Hashing
  import opened Encodings
  import opened CalcParents
  import opened IdleFile
  import opened CommitProving

  // ---------- pieces of one width ----------

  /** Piece number k of width w, behind at bytes. */
  function Piece(b: Bytes, at: nat, w: nat, k: nat): (p: Bytes)
    requires at + (k + 1) * w <= |b|
    ensures |p| == w
  {
    PieceInside(at, w, k, |b|);
    b[at + k * w..at + (k + 1) * w]
  }

  lemma PieceInside(at: nat, w: nat, k: nat, n: nat)
    requires at + (k + 1) * w <= n
    ensures 0 <= at + k * w && at + (k + 1) * w == at + k * w + w <= n
  {
  }

  lemma PieceFits(w: nat, k: nat, n: nat)
    requires k < n
    ensures (k + 1) * w <= n * w
  {
    assert n * w == (k + 1) * w + (n - k - 1) * w;
  }

  lemma {:induction false} PieceOfConcat(pieces: seq<Bytes>, w: nat, k: nat)
    requires k < |pieces| && forall i :: 0 <= i < |pieces| ==> |pieces[i]| == w
    ensures (k + 1) * w <= |Concat(pieces)| && Piece(Concat(pieces), 0, w, k) == pieces[k]
  {
    ConcatLength(pieces, w);
    PieceFits(w, k, |pieces|);
    if k > 0 {
      PieceOfConcat(pieces[1..], w, k - 1);
      var rest := Concat(pieces[1..]);
      assert Concat(pieces) == pieces[0] + rest;
      assert k * w == (k - 1) * w + w && (k + 1) * w == k * w + w;
      assert Concat(pieces)[k * w..(k + 1) * w] == rest[(k - 1) * w..k * w];
    }
  }

  /** What stands in front only moves a piece. */
  lemma PieceBehind(front: Bytes, b: Bytes, w: nat, k: nat)
    requires (k + 1) * w <= |b|
    ensures |front| + (k + 1) * w <= |front + b| && Piece(front + b, |front|, w, k) == Piece(b, 0, w, k)
  {
    PieceInside(0, w, k, |b|);
    assert (front + b)[|front| + k * w..|front| + (k + 1) * w] == b[k * w..(k + 1) * w];
  }

  /** Strings are equal that begin alike and have the same pieces behind. */
  lemma SamePieces(a: Bytes, b: Bytes, at: nat, w: nat, n: nat)
    requires w > 0 && |a| == |b| == at + n * w && a[..at] == b[..at]
    requires forall k :: 0 <= k < n ==> SamePiece(a, b, at, w, k)
    ensures a == b
  {
    forall i | 0 <= i < |a| ensures a[i] == b[i] {
      if i < at {
        assert a[..at][i] == b[..at][i];
      } else {
        var k, r := (i - at) / w, (i - at) % w;
        assert i - at == k * w + r;
        PieceNumber(i - at, w, n);
        assert SamePiece(a, b, at, w, k);
        assert a[i] == Piece(a, at, w, k)[r] && b[i] == Piece(b, at, w, k)[r];
      }
    }
  }

  lemma PieceNumber(i: nat, w: nat, n: nat)
    requires w > 0 && i < n * w
    ensures 0 <= i / w < n
  {
    var d := i / w - n;
    assert i == (i / w) * w + i % w && d * w == (i / w) * w - n * w;
    assert d >= 0 ==> d * w >= 0;
  }

  predicate SamePiece(a: Bytes, b: Bytes, at: nat, w: nat, k: nat) {
    at + (k + 1) * w <= |a| && at + (k + 1) * w <= |b| && Piece(a, at, w, k) == Piece(b, at, w, k)
  }

  // ---------- blocks ----------

  /** The number in field k behind the miner's ID: file, layer, and then sixteen numbers from i on. */
  function BlockField(count: int, layer: int, i: int, k: nat): int {
    if k == 0 then count else if k == 1 then layer else i + k - 2
  }

  /** The ID and eighteen numbers of eight bytes each, highest byte first. */
  predicate IsBlock(b: Bytes, id: Bytes, count: int, layer: int, i: int) {
    && |b| == |id| + 18 * 8 && b[..|id|] == id
    && forall k :: 0 <= k < 18 ==> HasField(b, |id|, k, BlockField(count, layer, i, k))
  }

  predicate HasField(b: Bytes, at: nat, k: nat, v: int) {
    at + (k + 1) * 8 <= |b| && FromBytes(Piece(b, at, 8, k)) == v % TWO_64
  }

  /** What is hashed for the parents from number i on is the one string that decodes like this. */
  lemma BlockIff(b: Bytes, id: Bytes, count: int, layer: int, i: int)
    ensures IsBlock(b, id, count, layer, i) <==> b == BlockBytes(id, count, layer, i)
  {
    hide BlockBytes, FromBytes, Piece;
    BlockDecodes(id, count, layer, i);
    if IsBlock(b, id, count, layer, i) {
      BlockUnique(b, BlockBytes(id, count, layer, i), id, count, layer, i);
    }
  }

  lemma BlockUnique(a: Bytes, b: Bytes, id: Bytes, count: int, layer: int, i: int)
    requires IsBlock(a, id, count, layer, i) && IsBlock(b, id, count, layer, i)
    ensures a == b
  {
    hide FromBytes, Piece;
    forall k | 0 <= k < 18 ensures SamePiece(a, b, |id|, 8, k) {
      var v := BlockField(count, layer, i, k);
      assert HasField(a, |id|, k, v) && HasField(b, |id|, k, v);
      FromBytesInjective(Piece(a, |id|, 8, k), Piece(b, |id|, 8, k));
    }
    SamePieces(a, b, |id|, 8, 18);
  }

  lemma BlockDecodes(id: Bytes, count: int, layer: int, i: int)
    ensures IsBlock(BlockBytes(id, count, layer, i), id, count, layer, i)
  {
    hide FromBytes, Piece, Concat, Int64;
    var numbers := seq(16, j => Int64(i + j));
    var fields := [Int64(count), Int64(layer)] + numbers;
    var b := BlockBytes(id, count, layer, i);
    BlockConcat(count, layer, numbers);
    assert b == id + Concat(fields);
    forall k | 0 <= k < 18 ensures fields[k] == Int64(BlockField(count, layer, i, k)) {
    }
    ConcatLength(fields, 8);
    forall k | 0 <= k < 18 ensures HasField(b, |id|, k, BlockField(count, layer, i, k)) {
      PieceOfConcat(fields, 8, k);
      PieceBehind(id, Concat(fields), 8, k);
      IntBytes(BlockField(count, layer, i, k));
    }
  }

  lemma BlockConcat(count: int, layer: int, numbers: seq<Bytes>)
    ensures Concat([Int64(count), Int64(layer)] + numbers) == Int64(count) + Int64(layer) + Concat(numbers)
  {
    hide Int64;
    var a, b := Int64(count), Int64(layer);
    assert ([a, b] + numbers)[1..] == [b] + numbers && ([b] + numbers)[1..] == numbers;
    assert Concat([b] + numbers) == b + Concat(numbers);
    assert Concat([a, b] + numbers) == a + (b + Concat(numbers));
  }

  // ---------- node labels ----------

  /** The ID, the file number in eight bytes, the node number in four, and D + 1 slots of 64 bytes: zeros in
      the lowest layer, above it the labels of the node's parents in order. */
  predicate IsLabelInput(f: FileId, index: int, b: Bytes)
    requires f.Ok() && index >= 0
  {
    && |b| == |f.id| + 12 + (f.e.D + 1) * 64 && b[..|f.id|] == f.id
    && FromBytes(b[|f.id|..|f.id| + 8]) == f.count % TWO_64
    && FromBytes(b[|f.id| + 8..|f.id| + 12]) == index % TWO_32
    && forall m :: 0 <= m <= f.e.D ==> SlotHolds(f, index, b, m)
  }

  predicate SlotHolds(f: FileId, index: int, b: Bytes, m: nat)
    requires f.Ok() && index >= 0 && m <= f.e.D
  {
    && |f.id| + 12 + (m + 1) * 64 <= |b|
    && Piece(b, |f.id| + 12, 64, m) == SlotLabel(f, index, m)
  }

  function SlotLabel(f: FileId, index: int, m: nat): Bytes
    requires f.Ok() && index >= 0 && m <= f.e.D
    ensures |SlotLabel(f, index, m)| == 64
  {
    if index < f.e.N then seq(64, _ => 0)
    else
      f.ParentsInRange(index);
      f.Label(f.Parents(index)[m])
  }

  /** A label is the hash of the one string that decodes like this. */
  lemma LabelPreimage(f: FileId, index: int) returns (b: Bytes)
    requires f.Ok() && index >= 0
    ensures IsLabelInput(f, index, b) && f.Label(index) == f.hash(b)
    ensures 0 <= index < f.Total() ==> FromBytes(b[|f.id| + 8..|f.id| + 12]) == index
    ensures forall b' :: IsLabelInput(f, index, b') ==> b' == b
  {
    hide FromBytes, Piece, FileId.Total, FileId.Label, FileId.Front, FileId.Tail, Expanders.Ok, Concat, SlotLabel;
    b := f.Front(index) + f.Tail(index);
    LabelIsDigest(f, index);
    forall m | 0 <= m <= f.e.D ensures SlotHolds(f, index, b, m) {
      SlotFilled(f, index, m);
    }
    TailWhole(f, index);
    FrontDecodes(f, index, f.Tail(index));
    if 0 <= index < f.Total() {
      NumberFits(f, index);
    }
    forall b' | IsLabelInput(f, index, b') ensures b' == b {
      LabelInputUnique(f, index, b', b);
    }
  }

  lemma NumberFits(f: FileId, index: int)
    requires f.Ok() && 0 <= index < f.Total()
    ensures index % TWO_32 == index
  {
    hide FileId.Total;
    TotalInInt32(f, index);
  }

  lemma FrontDecodes(f: FileId, index: int, tail: Bytes)
    ensures var b := f.Front(index) + tail;
            && |b| == |f.id| + 12 + |tail| && b[..|f.id|] == f.id && b[|f.id| + 12..] == tail
            && FromBytes(b[|f.id|..|f.id| + 8]) == f.count % TWO_64
            && FromBytes(b[|f.id| + 8..|f.id| + 12]) == index % TWO_32
  {
    hide FromBytes, Int64, Int32;
    var b, at := f.Front(index) + tail, |f.id|;
    assert b[at..at + 8] == Int64(f.count) && b[at + 8..at + 12] == Int32(index);
    IntBytes(f.count);
    IntBytes(index);
  }

  /** The labels in the slots, together. */
  lemma SlotFilled(f: FileId, index: int, m: nat)
    requires f.Ok() && index >= 0 && m <= f.e.D
    ensures SlotHolds(f, index, f.Front(index) + f.Tail(index), m)
  {
    hide Piece, FileId.Label, FileId.Front, Expanders.Ok, Concat, FileId.Parents;
    var tail := f.Tail(index);
    PieceFits(64, m, f.e.D + 1);
    if index < f.e.N {
      ZeroPiece(f.e.D + 1, m);
    } else {
      ConcatLength(f.ParentLabels(index), 64);
      PieceOfConcat(f.ParentLabels(index), 64, m);
      f.ParentLabelAt(index, m);
    }
    PieceBehind(f.Front(index), tail, 64, m);
  }

  lemma TailWhole(f: FileId, index: int)
    requires f.Ok() && index >= 0
    ensures |f.Tail(index)| == (f.e.D + 1) * 64
  {
    hide FileId.Label, Concat, FileId.Parents;
    if index >= f.e.N {
      ConcatLength(f.ParentLabels(index), 64);
    }
  }

  lemma ZeroPiece(n: nat, m: nat)
    requires m < n
    ensures (m + 1) * 64 <= n * 64 && Piece(Zeros(n * 64), 0, 64, m) == seq(64, _ => 0)
  {
  }

  lemma LabelInputUnique(f: FileId, index: int, a: Bytes, b: Bytes)
    requires f.Ok() && index >= 0 && IsLabelInput(f, index, a) && IsLabelInput(f, index, b)
    ensures a == b
  {
    hide FromBytes, Piece, SlotLabel;
    var at, front := |f.id|, |f.id| + 12;
    FromBytesInjective(a[at..at + 8], b[at..at + 8]);
    FromBytesInjective(a[at + 8..at + 12], b[at + 8..at + 12]);
    assert a[..at + 12] == a[..at] + a[at..at + 8] + a[at + 8..at + 12];
    assert b[..at + 12] == b[..at] + b[at..at + 8] + b[at + 8..at + 12];
    forall m | 0 <= m <= f.e.D ensures SamePiece(a, b, front, 64, m) {
      assert SlotHolds(f, index, a, m) && SlotHolds(f, index, b, m);
    }
    SamePieces(a, b, front, 64, f.e.D + 1);
  }
}
