/** What it means that a verifier has accepted commit proofs (pois/verify.go, VerifyCommitProofs), whoever
    made them: the labels under the committed roots are hashes of each other as the graph demands. */
module CommitSoundness {
  import opened ByteStrings
  import opened Hashing
  import opened CalcParents
  import opened LightMerkle
  import opened MerklePath
  import opened IdleFile
  import opened CommitProving
  import opened CommitChecking
  import opened Verifying
  import opened Preimages

  // ---------- commits ----------

  /** The first K + 1 roots, one behind the other. */
  predicate IsRootsInput(f: FileId, roots: seq<Bytes>, b: Bytes)
    requires f.Ok() && |roots| == f.e.K + 2
  {
    |b| == (f.e.K + 1) * 64 && forall l :: 0 <= l <= f.e.K ==> RootStands(roots, b, l)
  }

  predicate RootStands(roots: seq<Bytes>, b: Bytes, l: nat)
    requires l < |roots|
  {
    (l + 1) * 64 <= |b| && Piece(b, 0, 64, l) == roots[l]
  }

  /** Roots of hash size. */
  predicate FullRoots(f: FileId, roots: seq<Bytes>)
    requires f.Ok()
  {
    |roots| == f.e.K + 2 && forall l :: 0 <= l <= f.e.K ==> |roots[l]| == HASH_SIZE
  }

  lemma RootsInput(f: FileId, roots: seq<Bytes>)
    requires f.Ok() && FullRoots(f, roots)
    ensures IsRootsInput(f, roots, Concat(roots[..f.e.K + 1]))
    ensures forall b :: IsRootsInput(f, roots, b) ==> b == Concat(roots[..f.e.K + 1])
  {
    hide Concat, Piece;
    var pieces, n: nat := roots[..f.e.K + 1], f.e.K + 1;
    ConcatLength(pieces, 64);
    forall l | 0 <= l <= f.e.K ensures RootStands(roots, Concat(pieces), l) {
      PieceOfConcat(pieces, 64, l);
    }
    forall b | IsRootsInput(f, roots, b) ensures b == Concat(pieces) {
      forall l: nat | l < n ensures SamePiece(b, Concat(pieces), 0, 64, l) {
        assert RootStands(roots, b, l) && RootStands(roots, Concat(pieces), l);
      }
      SamePieces(b, Concat(pieces), 0, 64, n);
    }
  }

  /** A commit is valid exactly when its last root is the hash of all others, in order. */
  lemma ValidIff(f: FileId, c: Commit)
    requires f.Ok() && FullRoots(f, c.Roots)
    ensures ValidCommit(f, c) <==> exists b :: IsRootsInput(f, c.Roots, b) && c.Roots[f.e.K + 1] == f.hash(b)
  {
    hide Concat, IsRootsInput;
    RootsInput(f, c.Roots);
  }

  /** So the last root stands for all of them: with it, all others are equal, or there is a collision. */
  lemma CommitBinding(f: FileId, a: Commit, b: Commit) returns (c: (Bytes, Bytes))
    requires f.Ok() && FullRoots(f, a.Roots) && FullRoots(f, b.Roots) && ValidCommit(f, a) && ValidCommit(f, b)
    requires a.Roots[f.e.K + 1] == b.Roots[f.e.K + 1]
    ensures a.Roots == b.Roots || IsCollision(f.hash, c)
  {
    hide Concat, Piece;
    RootsInput(f, a.Roots);
    RootsInput(f, b.Roots);
    c := (Concat(a.Roots[..f.e.K + 1]), Concat(b.Roots[..f.e.K + 1]));
    if c.0 == c.1 {
      forall l | 0 <= l <= f.e.K ensures a.Roots[l] == b.Roots[l] {
        assert RootStands(a.Roots, c.0, l) && RootStands(b.Roots, c.0, l);
      }
    }
  }

  /** ReceiveCommits takes valid commits from the first on, until the buffer of 64 is full, the list ends, or
      one is not valid. */
  lemma TakenMeans(n: ProverNode, f: FileId, commits: seq<Commit>)
    requires f.Ok() && n.Valid()
    ensures var k := |n.Taken(f, commits)|;
            && k <= |commits| && n.Taken(f, commits) == commits[..k] && n.BufSize + k <= 64
            && (forall i :: 0 <= i < k ==> ValidCommit(f, commits[i]))
            && (k == |commits| || n.BufSize + k == 64 || !ValidCommit(f, commits[k]))
  {
    hide ValidCommit;
    PrefixMeans(f, Clip(commits, n.BufSize), 0);
  }

  lemma {:induction false} PrefixMeans(f: FileId, commits: seq<Commit>, i: nat)
    requires f.Ok() && i <= |commits|
    ensures var k := ValidPrefix(f, commits, i);
            && (forall j :: i <= j < k ==> ValidCommit(f, commits[j]))
            && (k == |commits| || !ValidCommit(f, commits[k]))
    decreases |commits| - i
  {
    hide ValidCommit;
    if i < |commits| && ValidCommit(f, commits[i]) {
      PrefixMeans(f, commits, i + 1);
    }
  }

  // ---------- one step ----------

  function LabelsIn(ps: seq<MhtProof>): (labels: seq<Bytes>)
    ensures |labels| == |ps|
  {
    seq(|ps|, i requires 0 <= i < |ps| => ps[i].Label)
  }

  /** With all parents given, an accepted node carries the hash of miner, file number, node number and the
      parents' labels, whatever the reused buffer held. */
  lemma AcceptedLabel(f: FileId, v: int, p: CommitProof, roots: seq<Bytes>, buf: Bytes)
    requires f.Ok() && |buf| == BufferSize(f) && StepShaped(f, v, p, roots) && StepAccepted(f, v, p, roots, buf)
    requires |p.Parents| == f.e.D + 1 && forall m :: 0 <= m < |p.Parents| ==> |p.Parents[m].Label| == HASH_SIZE
    ensures p.Node.Label
            == Digest(f.hash, f.id + Int64(f.count) + Int32(v) + Concat(LabelsIn(p.Parents)))
  {
    hide Written, Concat, LayerIndex, ParentsShaped, ParentsAccepted, AcceptsPath, Digest;
    FilledBuffer(f, v, p, buf);
  }

  /** Room for D + 1 full-size labels, and D + 1 of them: nothing is left of what the buffer held. */
  lemma FilledBuffer(f: FileId, v: int, p: CommitProof, buf: Bytes)
    requires f.Ok() && |buf| == BufferSize(f)
    requires |p.Parents| == f.e.D + 1 && forall m :: 0 <= m < |p.Parents| ==> |p.Parents[m].Label| == HASH_SIZE
    ensures StepBuffer(f, v, p, buf) == f.id + Int64(f.count) + Int32(v) + Concat(LabelsIn(p.Parents))
  {
    hide Written, Concat;
    var labels, front := LabelsIn(p.Parents), f.FrontSize();
    var start := f.Front(v) + buf[front..];
    WrittenAll(start, front, p.Parents, labels, f.e.D + 1);
    assert labels[..f.e.D + 1] == labels;
    assert start[..front] == f.Front(v);
    assert start[front + (f.e.D + 1) * HASH_SIZE..] == [];
  }

  /** The roots are those over some label lists, one for each layer. */
  ghost predicate CommitsTo(f: FileId, d: nat, data: seq<seq<Bytes>>, roots: seq<Bytes>)
    requires f.Ok() && f.e.N == Pow2(d)
  {
    |data| == f.e.K + 1 <= |roots| && forall l :: 0 <= l < |data| ==> LayerCommitted(f, d, data[l], roots[l])
  }

  ghost predicate LayerCommitted(f: FileId, d: nat, labels: seq<Bytes>, root: Bytes)
    requires f.Ok() && f.e.N == Pow2(d)
  {
    |labels| == f.e.N && root == MerkleRoot(f.hash, Hashed(f.hash, labels), d)
  }

  ghost predicate Covers(f: FileId, data: seq<seq<Bytes>>, v: int)
    requires f.Ok()
  {
    v >= 0 && LayerOf(v, f.e.N) < |data| && |data[LayerOf(v, f.e.N)]| == f.e.N
  }

  /** The label committed for node v. */
  ghost function Committed(f: FileId, data: seq<seq<Bytes>>, v: int): Bytes
    requires f.Ok() && Covers(f, data, v)
  {
    data[LayerOf(v, f.e.N)][PlaceOf(v, f.e.N)]
  }

  lemma CoversAll(f: FileId, d: nat, data: seq<seq<Bytes>>, roots: seq<Bytes>, v: int)
    requires f.Ok() && f.e.N == Pow2(d) && CommitsTo(f, d, data, roots) && 0 <= v < f.Total()
    ensures Covers(f, data, v) && LayerOf(v, f.e.N) < |roots|
    ensures LayerCommitted(f, d, data[LayerOf(v, f.e.N)], roots[LayerOf(v, f.e.N)])
  {
    hide FileId.Total, Pow2, Hashed, MerkleRoot;
    LayerIndexRange(f, v);
    assert LayerCommitted(f, d, data[LayerOf(v, f.e.N)], roots[LayerOf(v, f.e.N)]);
  }

  /** A label accepted under the root of its layer, with the sides of its place in Locs, is the one that was
      committed there, or it gives a hash collision. */
  lemma LabelBinding(f: FileId, d: nat, data: seq<seq<Bytes>>, roots: seq<Bytes>, v: int, m: MhtProof)
    returns (c: (Bytes, Bytes))
    requires f.Ok() && f.e.N == Pow2(d) && CommitsTo(f, d, data, roots) && 0 <= v < f.Total()
    requires LayerOf(v, f.e.N) < |roots| && AcceptsPath(f.hash, roots[LayerOf(v, f.e.N)], m.Label, m.Path())
    requires m.Locs == Sides(PlaceOf(v, f.e.N), d)
    ensures Covers(f, data, v) && (m.Label == Committed(f, data, v) || IsCollision(f.hash, c))
  {
    hide FileId.Total, CommitsTo, Hashed, MerkleRoot, AcceptsPath, Pow2, Sides, IsCollision, Digest;
    CoversAll(f, d, data, roots, v);
    TwoLeavesAtLeast(f, d);
    HashSize(f);
    c := PositionBinding(f.hash, HASH_SIZE, data[LayerOf(v, f.e.N)], d, PlaceOf(v, f.e.N), m.Label, m.Path());
  }

  lemma NodeBinding(f: FileId, d: nat, data: seq<seq<Bytes>>, roots: seq<Bytes>, v: int, p: CommitProof, buf: Bytes)
    returns (c: (Bytes, Bytes))
    requires f.Ok() && f.e.N == Pow2(d) && |buf| == BufferSize(f) && CommitsTo(f, d, data, roots) && 0 <= v < f.Total()
    requires StepShaped(f, v, p, roots) && StepAccepted(f, v, p, roots, buf)
    requires p.Node.Locs == Sides(PlaceOf(v, f.e.N), d)
    ensures Covers(f, data, v) && (p.Node.Label == Committed(f, data, v) || IsCollision(f.hash, c))
  {
    hide FileId.Total, CommitsTo, AcceptsPath, Pow2, Sides, ParentsShaped, ParentsAccepted, StepBuffer, LayerIndex,
         IsCollision, Digest, BufferSize;
    LayerIndexRange(f, v);
    c := LabelBinding(f, d, data, roots, v, p.Node);
  }

  /** The same for a parent: its number tells which layer's root it has been checked against. */
  lemma ParentBinding(f: FileId, d: nat, data: seq<seq<Bytes>>, roots: seq<Bytes>, v: int, p: CommitProof, buf: Bytes,
                      m: nat)
    returns (c: (Bytes, Bytes))
    requires f.Ok() && f.e.N == Pow2(d) && |buf| == BufferSize(f) && CommitsTo(f, d, data, roots)
    requires f.e.N <= v < f.Total() && StepShaped(f, v, p, roots) && StepAccepted(f, v, p, roots, buf)
    requires m < |p.Parents| && v - f.e.N <= p.Parents[m].Index < v
    requires p.Parents[m].Locs == Sides(PlaceOf(p.Parents[m].Index, f.e.N), d)
    ensures Covers(f, data, p.Parents[m].Index)
    ensures p.Parents[m].Label == Committed(f, data, p.Parents[m].Index) || IsCollision(f.hash, c)
  {
    hide FileId.Total, CommitsTo, AcceptsPath, Pow2, Sides, StepBuffer, LayerIndex, LayerOf, IsCollision, Digest,
         BufferSize;
    var q := p.Parents[m].Index;
    LayerIndexRange(f, v);
    ParentLayer(f, v, q);
    assert RootKnown(f, LayerOf(v, f.e.N), p.Parents[m], roots);
    assert ParentAccepted(f, LayerOf(v, f.e.N), p.Parents[m], roots);
    c := LabelBinding(f, d, data, roots, q, p.Parents[m]);
  }

  /** Number and Locs of a parent are those of the node's parent in the graph. */
  predicate Placed(f: FileId, d: nat, v: int, p: CommitProof, m: nat)
    requires f.Ok() && v >= f.e.N && m < |p.Parents| == f.e.D + 1
  {
    f.ParentsInRange(v);
    p.Parents[m].Index == f.Parents(v)[m] && p.Parents[m].Locs == Sides(PlaceOf(f.Parents(v)[m], f.e.N), d)
  }

  /** The proof names the node's parents in the graph, with full-size labels, and has the sides of every
      node's place in Locs. */
  predicate NamesParents(f: FileId, d: nat, v: int, p: CommitProof)
    requires f.Ok() && v >= f.e.N
  {
    && p.Node.Locs == Sides(PlaceOf(v, f.e.N), d) && |p.Parents| == f.e.D + 1
    && forall m :: 0 <= m < |p.Parents| ==> Placed(f, d, v, p, m) && |p.Parents[m].Label| == HASH_SIZE
  }

  /** What the graph demands: the label of v is the hash of its front and of its parents' labels. */
  ghost predicate RightlyCommitted(f: FileId, data: seq<seq<Bytes>>, v: int)
    requires f.Ok() && v >= f.e.N
  {
    f.ParentsInRange(v);
    && Covers(f, data, v) && CoversEach(f, data, f.Parents(v))
    && Committed(f, data, v)
       == Digest(f.hash, f.id + Int64(f.count) + Int32(v) + Concat(CommittedAll(f, data, f.Parents(v))))
  }

  ghost predicate CoversEach(f: FileId, data: seq<seq<Bytes>>, nodes: seq<int>)
    requires f.Ok()
  {
    forall m :: 0 <= m < |nodes| ==> Covers(f, data, nodes[m])
  }

  /** The labels committed for these nodes. */
  ghost function CommittedAll(f: FileId, data: seq<seq<Bytes>>, nodes: seq<int>): (labels: seq<Bytes>)
    requires f.Ok() && CoversEach(f, data, nodes)
    ensures |labels| == |nodes| && forall m :: 0 <= m < |nodes| ==> labels[m] == Committed(f, data, nodes[m])
  {
    seq(|nodes|, m requires 0 <= m < |nodes| => Committed(f, data, nodes[m]))
  }

  /** The label of parent m is the one committed for the node's parent in the graph. */
  ghost predicate ParentRight(f: FileId, data: seq<seq<Bytes>>, v: int, p: CommitProof, m: nat)
    requires f.Ok() && v >= f.e.N && m < |p.Parents| == f.e.D + 1
  {
    f.ParentsInRange(v);
    Covers(f, data, f.Parents(v)[m]) && p.Parents[m].Label == Committed(f, data, f.Parents(v)[m])
  }

  /** All labels of the parents, or a collision. */
  lemma ParentsRight(f: FileId, d: nat, data: seq<seq<Bytes>>, roots: seq<Bytes>, v: int, p: CommitProof, buf: Bytes)
    returns (c: (Bytes, Bytes))
    requires f.Ok() && f.e.N == Pow2(d) && |buf| == BufferSize(f) && CommitsTo(f, d, data, roots)
    requires f.e.N <= v < f.Total() && StepShaped(f, v, p, roots) && StepAccepted(f, v, p, roots, buf)
    requires NamesParents(f, d, v, p)
    ensures IsCollision(f.hash, c) || forall m :: 0 <= m <= f.e.D ==> ParentRight(f, data, v, p, m)
  {
    hide FileId.Parents, FileId.Total, CommitsTo, StepShaped, StepAccepted, BufferSize, Pow2, IsCollision, NamesParents,
         ParentRight;
    NamedCount(f, d, v, p);
    c := ([], []);
    for k := 0 to |p.Parents|
      invariant IsCollision(f.hash, c) || forall m :: 0 <= m < k ==> ParentRight(f, data, v, p, m)
    {
      if !IsCollision(f.hash, c) {
        c := OneParentRight(f, d, data, roots, v, p, buf, k);
      }
    }
  }

  lemma NamedCount(f: FileId, d: nat, v: int, p: CommitProof)
    requires f.Ok() && v >= f.e.N && NamesParents(f, d, v, p)
    ensures |p.Parents| == f.e.D + 1
  {
  }

  lemma OneParentRight(f: FileId, d: nat, data: seq<seq<Bytes>>, roots: seq<Bytes>, v: int, p: CommitProof, buf: Bytes,
                       m: nat)
    returns (c: (Bytes, Bytes))
    requires f.Ok() && f.e.N == Pow2(d) && |buf| == BufferSize(f) && CommitsTo(f, d, data, roots)
    requires f.e.N <= v < f.Total() && StepShaped(f, v, p, roots) && StepAccepted(f, v, p, roots, buf)
    requires NamesParents(f, d, v, p) && m <= f.e.D
    ensures IsCollision(f.hash, c) || ParentRight(f, data, v, p, m)
  {
    hide FileId.Parents, FileId.Total, CommitsTo, StepShaped, StepAccepted, BufferSize, Pow2, Sides, IsCollision,
         Covers, Committed;
    f.ParentsInRange(v);
    assert Placed(f, d, v, p, m);
    c := ParentBinding(f, d, data, roots, v, p, buf, m);
  }

  /** Soundness of a step: whoever made the proof, when it is accepted and names the node's parents, then
      the labels committed are what the graph demands at this node, or there is a collision. */
  lemma AcceptedNodeIsRight(f: FileId, d: nat, data: seq<seq<Bytes>>, roots: seq<Bytes>, v: int, p: CommitProof,
                            buf: Bytes)
    returns (c: (Bytes, Bytes))
    requires f.Ok() && f.e.N == Pow2(d) && |buf| == BufferSize(f) && CommitsTo(f, d, data, roots)
    requires f.e.N <= v < f.Total() && StepShaped(f, v, p, roots) && StepAccepted(f, v, p, roots, buf)
    requires NamesParents(f, d, v, p)
    ensures RightlyCommitted(f, data, v) || IsCollision(f.hash, c)
  {
    hide FileId.Parents, FileId.Total, CommitsTo, StepShaped, StepAccepted, BufferSize, Pow2, Sides, IsCollision,
         Covers, Committed, Concat, Digest, Placed;
    c := ParentsRight(f, d, data, roots, v, p, buf);
    if !IsCollision(f.hash, c) {
      c := NodeBinding(f, d, data, roots, v, p, buf);
      f.ParentsInRange(v);
      SameLabels(f, data, v, p);
      AcceptedLabel(f, v, p, roots, buf);
    }
  }

  lemma SameLabels(f: FileId, data: seq<seq<Bytes>>, v: int, p: CommitProof)
    requires f.Ok() && v >= f.e.N && |p.Parents| == f.e.D + 1 == |f.Parents(v)|
    requires forall m :: 0 <= m <= f.e.D ==> ParentRight(f, data, v, p, m)
    ensures CoversEach(f, data, f.Parents(v)) && LabelsIn(p.Parents) == CommittedAll(f, data, f.Parents(v))
  {
    hide FileId.Parents, Covers, Committed;
    forall m | 0 <= m <= f.e.D
      ensures Covers(f, data, f.Parents(v)[m]) && LabelsIn(p.Parents)[m] == Committed(f, data, f.Parents(v)[m])
    {
      assert ParentRight(f, data, v, p, m);
    }
  }

  // ---------- a whole call ----------

  /** Step j for file i of a call that VerifyCommitProofs accepts is an accepted step, about the node that
      is named or picked, against the roots of the challenged commit. */
  lemma AcceptedStep(n: ProverNode, f: FileId, chals: seq<seq<int>>, proofs: seq<seq<CommitProof>>,
                     picks: seq<(nat, nat)>, i: nat, j: nat)
    returns (v: int, buf: Bytes)
    requires f.Ok() && n.Valid() && n.Checks(f, chals, proofs, picks) && i < |chals| && 1 <= j < |chals[i]|
    ensures |proofs| == |chals| && j <= |proofs[i]| && proofs[i][0].Node.Index == chals[i][1]
    ensures j == 1 ==> v == chals[i][1]
    ensures j >= 2 ==>
              0 <= chals[i][j] < |proofs[i][j - 2].Parents| && v == proofs[i][j - 2].Parents[chals[i][j]].Index
    ensures var g, roots := FileId(f.e, f.hash, f.id, chals[i][0]), n.Challenged(chals)[i].Roots;
            && |buf| == BufferSize(g) && StepShaped(g, v, proofs[i][j - 1], roots)
            && StepAccepted(g, v, proofs[i][j - 1], roots, buf)
  {
    hide StepShaped, StepAccepted, DependenciesHold, ProverNode.Challenged;
    var commits := n.Challenged(chals);
    FileBufferStep(f, chals, proofs, commits, i);
    assert AcceptedAt(f, chals, proofs, commits, i);
    v, buf := StepOfFile(ForFile(f, chals[i]), chals[i], proofs[i], commits[i].Roots,
                         FileBuffer(f, chals, proofs, commits, i), j);
  }

  lemma StepOfFile(f: FileId, chal: seq<int>, ps: seq<CommitProof>, roots: seq<Bytes>, start: Bytes, j: nat)
    returns (v: int, buf: Bytes)
    requires f.Ok() && |start| == BufferSize(f) && Shaped(f, chal, ps, roots) && 1 <= j < |chal|
    requires FileAccepted(f, chal, ps, roots, start)
    ensures j <= |ps| && ps[0].Node.Index == chal[1] && (j == 1 ==> v == chal[1])
    ensures j >= 2 ==> 0 <= chal[j] < |ps[j - 2].Parents| && v == ps[j - 2].Parents[chal[j]].Index
    ensures |buf| == BufferSize(f) && StepShaped(f, v, ps[j - 1], roots) && StepAccepted(f, v, ps[j - 1], roots, buf)
  {
    hide StepShaped, StepAccepted, BufferSize, Expanders.Ok, BufferBefore, StepAcceptedAt;
    FileStart(f, chal, ps, roots, start);
    StepFacts(f, chal, ps, roots, j, start);
    assert StepAcceptedAt(f, chal, ps, roots, j, start);
    v, buf := VisitedNode(chal, ps, j), BufferBefore(f, chal, ps, roots, j, start);
  }

  /** A picked proof of an accepted call names exactly its node's parents in the graph, in order. */
  lemma PickedNamesParents(n: ProverNode, f: FileId, chals: seq<seq<int>>, proofs: seq<seq<CommitProof>>,
                           picks: seq<(nat, nat)>, k: nat)
    requires f.Ok() && n.Valid() && n.Checks(f, chals, proofs, picks) && k < |picks|
    ensures picks[k].0 < |proofs| && picks[k].0 < |chals| && picks[k].1 < |proofs[picks[k].0]|
    ensures |chals[picks[k].0]| >= 1
    ensures var g, p := FileId(f.e, f.hash, f.id, chals[picks[k].0][0]), proofs[picks[k].0][picks[k].1];
            NumbersAreParents(g, p)
  {
    hide FileId.Parents, AllShaped, AllAccepted;
    assert PickHolds(f, chals, proofs, picks[k]);
  }

  /** The first numbers named are those of the node's parents. */
  predicate NumbersAreParents(f: FileId, p: CommitProof)
    requires f.Ok()
  {
    var parents := f.Parents(p.Node.Index);
    |parents| <= |p.Parents| && seq(|parents|, m requires 0 <= m < |parents| => p.Parents[m].Index) == parents
  }

  /** The file a challenge names. */
  function Named(f: FileId, chal: seq<int>): (g: FileId)
    requires |chal| >= 1
    ensures g.e == f.e && g.hash == f.hash && g.id == f.id && g.count == chal[0]
  {
    FileId(f.e, f.hash, f.id, chal[0])
  }

  /** What any step of an accepted call says: its node's label is the hash of what is named; a node in its
      place carries the label committed there; and when the graph's parents are named, the commitment is
      right at this node.  Else there is a collision. */
  lemma AcceptedCallBinds(n: ProverNode, f: FileId, d: nat, data: seq<seq<Bytes>>, chals: seq<seq<int>>,
                          proofs: seq<seq<CommitProof>>, picks: seq<(nat, nat)>, i: nat, j: nat)
    returns (v: int, c: (Bytes, Bytes))
    requires f.Ok() && f.e.N == Pow2(d) && n.Valid() && n.Checks(f, chals, proofs, picks)
    requires i < |chals| && 1 <= j < |chals[i]|
    requires CommitsTo(Named(f, chals[i]), d, data, n.Challenged(chals)[i].Roots)
    ensures |proofs| == |chals| && j <= |proofs[i]|
    ensures j == 1 ==> v == chals[i][1] == proofs[i][0].Node.Index
    ensures j >= 2 ==>
              0 <= chals[i][j] < |proofs[i][j - 2].Parents| && v == proofs[i][j - 2].Parents[chals[i][j]].Index
    ensures StepMeans(Named(f, chals[i]), d, data, v, proofs[i][j - 1], c)
  {
    hide CommitsTo, StepShaped, StepAccepted, BufferSize, Pow2, StepMeans, ProverNode.Challenged, ProverNode.Checks;
    var buf;
    v, buf := AcceptedStep(n, f, chals, proofs, picks, i, j);
    c := StepBinds(Named(f, chals[i]), d, data, n.Challenged(chals)[i].Roots, v, proofs[i][j - 1], buf);
  }

  /** The meaning of an accepted step, with the hash collision that is found otherwise. */
  ghost predicate StepMeans(f: FileId, d: nat, data: seq<seq<Bytes>>, v: int, p: CommitProof, c: (Bytes, Bytes))
    requires f.Ok()
  {
    && (|p.Parents| == f.e.D + 1 && (forall m :: 0 <= m < |p.Parents| ==> |p.Parents[m].Label| == HASH_SIZE) ==>
          p.Node.Label == Digest(f.hash, f.id + Int64(f.count) + Int32(v) + Concat(LabelsIn(p.Parents))))
    && (0 <= v < f.Total() && p.Node.Locs == Sides(PlaceOf(v, f.e.N), d) ==>
          Covers(f, data, v) && (p.Node.Label == Committed(f, data, v) || IsCollision(f.hash, c)))
    && (f.e.N <= v < f.Total() && NamesParents(f, d, v, p) ==>
          RightlyCommitted(f, data, v) || IsCollision(f.hash, c))
  }

  lemma StepBinds(f: FileId, d: nat, data: seq<seq<Bytes>>, roots: seq<Bytes>, v: int, p: CommitProof, buf: Bytes)
    returns (c: (Bytes, Bytes))
    requires f.Ok() && f.e.N == Pow2(d) && |buf| == BufferSize(f) && CommitsTo(f, d, data, roots)
    requires StepShaped(f, v, p, roots) && StepAccepted(f, v, p, roots, buf)
    ensures StepMeans(f, d, data, v, p, c)
  {
    hide FileId.Total, CommitsTo, StepShaped, StepAccepted, BufferSize, Pow2, Sides, IsCollision, Covers, Committed,
         RightlyCommitted, Digest, Concat, Placed;
    c := ([], []);
    if |p.Parents| == f.e.D + 1 && forall m :: 0 <= m < |p.Parents| ==> |p.Parents[m].Label| == HASH_SIZE {
      AcceptedLabel(f, v, p, roots, buf);
    }
    if 0 <= v < f.Total() && p.Node.Locs == Sides(PlaceOf(v, f.e.N), d) {
      c := NodeBinding(f, d, data, roots, v, p, buf);
      if f.e.N <= v && NamesParents(f, d, v, p) && !IsCollision(f.hash, c) {
        c := AcceptedNodeIsRight(f, d, data, roots, v, p, buf);
      }
    }
  }

  /** Locs and labels have the form honest ones have: Locs the sides of the numbers given, full-size labels. */
  predicate WellFormed(f: FileId, d: nat, p: CommitProof)
    requires f.Ok() && p.Node.Index >= 0
  {
    && p.Node.Locs == Sides(PlaceOf(p.Node.Index, f.e.N), d)
    && forall m :: 0 <= m < |p.Parents| ==> SidesGiven(f, d, p.Parents[m])
  }

  predicate SidesGiven(f: FileId, d: nat, m: MhtProof)
    requires f.Ok()
  {
    m.Index >= 0 && m.Locs == Sides(PlaceOf(m.Index, f.e.N), d) && |m.Label| == HASH_SIZE
  }

  /** Which nodes the graph connects is left to the pick: at a picked node above the lowest layer, a
      well-formed proof that is accepted shows that the committed labels are right there, or a collision.
      That exactly D + 1 parents are named follows from the acceptance.  Only the challenged node's own
      number is compared, so of the nodes below it the proof has to carry the number visited. */
  lemma PickedNodeIsRight(n: ProverNode, f: FileId, d: nat, data: seq<seq<Bytes>>, chals: seq<seq<int>>,
                          proofs: seq<seq<CommitProof>>, picks: seq<(nat, nat)>, k: nat)
    returns (v: int, c: (Bytes, Bytes))
    requires f.Ok() && f.e.N == Pow2(d) && n.Valid() && n.Checks(f, chals, proofs, picks)
    requires k < |picks| && picks[k].0 < |chals| && picks[k].1 + 1 < |chals[picks[k].0]|
    requires CommitsTo(Named(f, chals[picks[k].0]), d, data, n.Challenged(chals)[picks[k].0].Roots)
    ensures picks[k].0 < |proofs| && picks[k].1 < |proofs[picks[k].0]|
    ensures picks[k].1 == 0 ==> v == chals[picks[k].0][1] == proofs[picks[k].0][0].Node.Index
    ensures var g, p := Named(f, chals[picks[k].0]), proofs[picks[k].0][picks[k].1];
            f.e.N <= v < g.Total() && p.Node.Index == v && WellFormed(g, d, p) ==>
              RightlyCommitted(g, data, v) || IsCollision(f.hash, c)
  {
    hide FileId.Total, CommitsTo, StepShaped, StepAccepted, BufferSize, Pow2, Sides, IsCollision, RightlyCommitted,
         NamesParents, WellFormed, ProverNode.Challenged, ProverNode.Checks, NumbersAreParents;
    var i, r := picks[k].0, picks[k].1;
    var buf;
    v, buf := AcceptedStep(n, f, chals, proofs, picks, i, r + 1);
    PickedNamesParents(n, f, chals, proofs, picks, k);
    var g, p := Named(f, chals[i]), proofs[i][r];
    c := ([], []);
    if f.e.N <= v < g.Total() && p.Node.Index == v && WellFormed(g, d, p) {
      NamesThem(g, d, v, p, n.Challenged(chals)[i].Roots);
      c := AcceptedNodeIsRight(g, d, data, n.Challenged(chals)[i].Roots, v, p, buf);
    }
  }

  lemma NamesThem(f: FileId, d: nat, v: int, p: CommitProof, roots: seq<Bytes>)
    requires f.Ok() && p.Node.Index == v >= f.e.N && StepShaped(f, v, p, roots)
    requires NumbersAreParents(f, p) && WellFormed(f, d, p)
    ensures NamesParents(f, d, v, p)
  {
    hide FileId.Parents, Sides, RootKnown, LayerIndex;
    f.ParentsInRange(v);
    forall m | 0 <= m < |p.Parents| ensures Placed(f, d, v, p, m) && |p.Parents[m].Label| == HASH_SIZE {
      assert SidesGiven(f, d, p.Parents[m]);
      assert f.Parents(v)[m] == p.Parents[m].Index;
    }
  }

  /** With the sides of an honest file's node in Locs an accepted node carries the honest label, or there is
      a collision. */
  lemma StepBinding(f: FileId, d: nat, v: int, p: CommitProof, buf: Bytes) returns (c: (Bytes, Bytes))
    requires f.Ok() && f.e.N == Pow2(d) && |buf| == BufferSize(f) && 0 <= v < f.Total()
    requires StepShaped(f, v, p, f.Roots(d)) && StepAccepted(f, v, p, f.Roots(d), buf)
    requires p.Node.Locs == Sides(PlaceOf(v, f.e.N), d)
    ensures p.Node.Label == f.Label(v) || IsCollision(f.hash, c)
  {
    hide FileId.Label, FileId.Total, FileId.Roots, Pow2, Sides, StepShaped, StepAccepted, IsCollision, BufferSize,
         CommitsTo;
    HonestCommitsTo(f, d);
    c := NodeBinding(f, d, f.Layers(f.e.K + 1), f.Roots(d), v, p, buf);
    NumberParts(f, v, 0, 0);
    LayerIndexRange(f, v);
  }

  lemma HonestCommitsTo(f: FileId, d: nat)
    requires f.Ok() && f.e.N == Pow2(d)
    ensures CommitsTo(f, d, f.Layers(f.e.K + 1), f.Roots(d))
  {
    hide FileId.LayerLabels, FileId.Roots, Hashed, MerkleRoot, Pow2;
    forall l | 0 <= l < f.e.K + 1 ensures LayerCommitted(f, d, f.Layers(f.e.K + 1)[l], f.Roots(d)[l]) {
      RootOfRoots(f, d, l);
    }
    RootCount(f, d);
  }

  lemma RootCount(f: FileId, d: nat)
    requires f.Ok() && f.e.N == Pow2(d)
    ensures |f.Roots(d)| == f.e.K + 2
  {
  }
}
