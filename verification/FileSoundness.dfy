/** What accepted proofs about whole files mean (pois/verify.go: VerifyAcc, VerifySpace, VerifyDeletion),
    whoever made them: which bytes their labels are the hashes of, and what they bind the prover to. */
module FileSoundness {
  import opened ByteStrings
  import opened Hashing
  import opened Encodings
  import opened FlatAcc
  import opened WitnessChain
  import opened LightMerkle
  import opened MerklePath
  import opened IdleFile
  import opened CommitProving
  import opened CommitChecking
  import opened FileLabels

  // ---------- labels of files ----------

  /** The ID, the file number in eight bytes, highest byte first, and the root. */
  predicate IsFileInput(id: Bytes, count: int, root: Bytes, b: Bytes) {
    && |b| == |id| + 8 + |root| && b[..|id|] == id && b[|id| + 8..] == root
    && FromBytes(b[|id|..|id| + 8]) == count % TWO_64
  }

  ghost predicate IsLabelOf(f: FileId, count: int, root: Bytes, digest: Bytes) {
    exists b :: IsFileInput(f.id, count, root, b) && digest == f.hash(b)
  }

  /** A file label is the hash of the one string that decodes like this. */
  lemma FileLabelPreimage(f: FileId, count: int, root: Bytes) returns (b: Bytes)
    ensures IsFileInput(f.id, count, root, b) && FileLabel(f, count, root) == f.hash(b)
    ensures forall b' :: IsFileInput(f.id, count, root, b') ==> b' == b
  {
    hide FromBytes, Int64;
    var id := f.id;
    b := id + Int64(count) + root;
    IntBytes(count);
    assert b[|id|..|id| + 8] == Int64(count);
    forall b' | IsFileInput(id, count, root, b') ensures b' == b {
      FromBytesInjective(b'[|id|..|id| + 8], b[|id|..|id| + 8]);
      assert b' == b'[..|id|] + b'[|id|..|id| + 8] + b'[|id| + 8..];
    }
  }

  lemma LabelOfIff(f: FileId, count: int, root: Bytes, digest: Bytes)
    ensures IsLabelOf(f, count, root, digest) <==> digest == FileLabel(f, count, root)
  {
    hide FileLabel, IsFileInput;
    var b := FileLabelPreimage(f, count, root);
  }

  /** Two files with one label have the same number, in 64 bits, and the same root, or there is a
      collision. */
  lemma FileLabelBinding(f: FileId, count: int, root: Bytes, count': int, root': Bytes) returns (c: (Bytes, Bytes))
    requires |root| == |root'| && FileLabel(f, count, root) == FileLabel(f, count', root')
    ensures (count % TWO_64 == count' % TWO_64 && root == root') || IsCollision(f.hash, c)
  {
    hide FileLabel, FromBytes;
    var b := FileLabelPreimage(f, count, root);
    var b' := FileLabelPreimage(f, count', root');
    c := (b, b');
  }

  // ---------- additions ----------

  /** An accepted addition names the challenged files, and the first labels are theirs. */
  lemma AccMeans(key: Key, f: FileId, chals: seq<seq<int>>, proof: AccProof, commits: seq<Commit>, acc: Bytes, i: nat)
    requires f.Ok() && AccShaped(f, chals, proof, commits) && AccAccepted(key, f, chals, proof, commits, acc)
    requires CommitsFit(f, chals, commits) && i < |chals|
    ensures |chals[i]| >= 1 && |commits[i].Roots| > f.e.K && proof.Indexs[i] == chals[i][0]
    ensures IsLabelOf(f, chals[i][0], commits[i].Roots[f.e.K], proof.Labels[i])
    ensures ProvesInsert(key, proof.WitChains, proof.Labels, proof.AccPath, acc)
  {
    hide LabelMatches, FileLabel, IsLabelOf, ProvesInsert;
    assert CommitFits(f, chals[i], commits[i]);
    assert LabelMatches(f, chals, proof, commits, i);
    MatchesCommitted(f, chals, proof, commits, i);
    LabelOfIff(f, chals[i][0], commits[i].Roots[f.e.K], proof.Labels[i]);
  }

  // ---------- deletions ----------

  /** Deleted labels are those of the last files, in order. */
  lemma DeletedMeans(f: FileId, roots: seq<Bytes>, count: int, i: nat)
    requires i < |roots| && |roots[i]| == HASH_SIZE
    ensures IsLabelOf(f, count - |roots| + 1 + i, roots[i], DeletedLabels(f, roots, count)[i])
  {
    hide FileLabel, IsLabelOf, LabelBytes, Digest;
    LabelBytesFit(f, Zeros(LabelSize(f)), count - |roots| + 1 + i, roots[i]);
    LabelOfIff(f, count - |roots| + 1 + i, roots[i], DeletedLabels(f, roots, count)[i]);
  }

  // ---------- space ----------

  /** An accepted answer names the challenged place, its label has a path under the root, the label of the
      challenged file with this root begins the chain, and the chain ends in the accumulator. */
  lemma SpaceMeans(key: Key, f: FileId, chals: seq<seq<int>>, proof: SpaceProof, acc: Bytes, i: nat)
    requires SpaceAccepted(key, f, chals, proof, acc) && i < |chals|
    ensures |chals| == |proof.Roots| && |chals[i]| >= 2 && i < |proof.Proofs| && i < |proof.WitChains|
    ensures var m, w := proof.Proofs[i], proof.WitChains[i];
            && m.Index == chals[i][1] && AcceptsPath(f.hash, proof.Roots[i], m.Label, m.Path())
            && (|proof.Roots[i]| == HASH_SIZE ==> w.Node? && IsLabelOf(f, chals[i][0], proof.Roots[i], w.Elem))
            && Length(w) >= 1 && At(w, Length(w) - 1).Elem == acc
            && forall k :: 0 <= k < Length(w) - 1 ==> LinkComputes(key, w, k)
  {
    hide LabelBytes, Digest, AcceptsPath, ProvesMembership, SpaceMatches, IsLabelOf, SpaceBuffer, LinkComputes,
         FileLabel;
    assert SpaceMatches(key, f, chals, proof, acc, i);
    SpaceStep(key, f, chals, proof, acc, i);
    MemberMeans(key, proof.WitChains[i], acc);
    if |proof.Roots[i]| == HASH_SIZE {
      LabelBytesFit(f, SpaceBuffer(f, chals, proof, i), chals[i][0], proof.Roots[i]);
      LabelOfIff(f, chals[i][0], proof.Roots[i], proof.WitChains[i].Elem);
    }
  }

  /** When the chain begins with the label of a file whose root is over these labels, and Locs has the sides
      of a place, then the answer is about that file and holds its label at that place, or there is a
      collision. */
  lemma SpaceBinding(key: Key, f: FileId, chals: seq<seq<int>>, proof: SpaceProof, acc: Bytes, i: nat, count: int,
                     labels: seq<Bytes>, d: nat, place: nat)
    returns (c: (Bytes, Bytes))
    requires SpaceAccepted(key, f, chals, proof, acc) && i < |chals| == |proof.Roots|
    requires i < |proof.Proofs| && i < |proof.WitChains| && proof.WitChains[i].Node? && |proof.Roots[i]| == HASH_SIZE
    requires d >= 1 && |labels| == Pow2(d) && place < Pow2(d) && proof.Proofs[i].Locs == Sides(place, d)
    requires proof.WitChains[i].Elem == FileLabel(f, count, MerkleRoot(f.hash, Hashed(f.hash, labels), d))
    ensures |chals[i]| >= 2
    ensures (chals[i][0] % TWO_64 == count % TWO_64 && proof.Proofs[i].Label == labels[place]) || IsCollision(f.hash, c)
  {
    hide AcceptsPath, SpaceAccepted, IsCollision, FileLabel, MerkleRoot, Hashed, Sides, Pow2, LinkComputes, IsLabelOf;
    var root := MerkleRoot(f.hash, Hashed(f.hash, labels), d);
    SpaceMeans(key, f, chals, proof, acc, i);
    LabelOfIff(f, chals[i][0], proof.Roots[i], proof.WitChains[i].Elem);
    RootSize(f, labels, d);
    c := FileLabelBinding(f, chals[i][0], proof.Roots[i], count, root);
    if !IsCollision(f.hash, c) {
      c := PositionBinding(f.hash, HASH_SIZE, labels, d, place, proof.Proofs[i].Label, proof.Proofs[i].Path());
    }
  }

  lemma RootSize(f: FileId, labels: seq<Bytes>, d: nat)
    requires d >= 1 && |labels| == Pow2(d)
    ensures |MerkleRoot(f.hash, Hashed(f.hash, labels), d)| == HASH_SIZE && FixedSize(f.hash, HASH_SIZE)
  {
    hide MerkleRoot;
    RootIsDigest(f.hash, Hashed(f.hash, labels), d);
  }

  /** Which place it is, the verifier does not look at: whatever number is challenged, label and path of any
      place of the file are accepted, once they carry that number. */
  lemma AnyPlaceAccepted(key: Key, f: FileId, chals: seq<seq<int>>, proof: SpaceProof, acc: Bytes, i: nat,
                         labels: seq<Bytes>, d: nat, place: nat, p: PathProof)
    requires SpaceAccepted(key, f, chals, proof, acc) && i < |chals| == |proof.Roots|
    requires i < |proof.Proofs| && |chals[i]| >= 2
    requires d >= 1 && |labels| == Pow2(d) && place < Pow2(d) && IsPathOf(f.hash, Hashed(f.hash, labels), d, place, p)
    requires proof.Roots[i] == MerkleRoot(f.hash, Hashed(f.hash, labels), d)
    ensures var m := MhtProof(chals[i][1], labels[place], p.Path, p.Locs);
            SpaceAccepted(key, f, chals, proof.(Proofs := proof.Proofs[i := m]), acc)
  {
    hide AcceptsPath, IsPathOf, MerkleRoot, Hashed, Pow2, LabelBytes, ProvesMembership, Digest;
    var m := MhtProof(chals[i][1], labels[place], p.Path, p.Locs);
    var other := proof.(Proofs := proof.Proofs[i := m]);
    RootSize(f, labels, d);
    PathAccepted(f.hash, HASH_SIZE, labels, d, place, p);
    OtherShaped(chals, proof, other);
    assert m.Path() == p;
    forall k | 0 <= k < |chals| ensures SpaceMatches(key, f, chals, other, acc, k) {
      assert SpaceMatches(key, f, chals, proof, acc, k);
      SameBuffer(f, chals, proof, other, k + 1);
      assert SpaceShapedAt(chals, proof, k) && SpaceShapedAt(chals, other, k);
    }
  }

  lemma OtherShaped(chals: seq<seq<int>>, proof: SpaceProof, other: SpaceProof)
    requires SpaceShaped(chals, proof) && |other.Proofs| == |proof.Proofs|
    requires other.Roots == proof.Roots && other.WitChains == proof.WitChains
    ensures SpaceShaped(chals, other)
  {
    forall i | 0 <= i < |chals| ensures SpaceShapedAt(chals, other, i) {
      assert SpaceShapedAt(chals, proof, i);
    }
  }

  lemma {:induction false} SameBuffer(f: FileId, chals: seq<seq<int>>, proof: SpaceProof, other: SpaceProof, i: nat)
    requires SpaceShaped(chals, proof) && SpaceShaped(chals, other) && i <= |chals| && other.Roots == proof.Roots
    ensures SpaceBuffer(f, chals, other, i) == SpaceBuffer(f, chals, proof, i)
  {
    hide LabelBytes;
    if i > 0 {
      assert SpaceShapedAt(chals, proof, i - 1) && SpaceShapedAt(chals, other, i - 1);
      SameBuffer(f, chals, proof, other, i - 1);
    }
  }
}
