/** Checking commit proofs (pois/verify.go): VerifyCommitProofs and VerifyNodeDependencies on the
    values they work with, and the theorem that honest proofs pass. */
module CommitChecking {
  import opened ByteStrings
  import opened Buffers
  import opened Hashing
  import opened CalcParents
  import opened LightMerkle
  import opened MerklePath
  import opened IdleFile
  import opened CommitProving

  datatype Commit = Commit(FileIndex: int, Roots: seq<Bytes>)

  // ---------- what is checked, as predicates ----------

  /** Which node step j of a challenge is about: the named one first, then a parent of the one before. */
  function VisitedNode(chal: seq<int>, ps: seq<CommitProof>, j: nat): int
    requires 1 <= j < |chal| && j <= |ps|
    requires j >= 2 ==> 0 <= chal[j] < |ps[j - 2].Parents|
  {
    if j == 1 then chal[1] else ps[j - 2].Parents[chal[j]].Index
  }

  predicate RootKnown(f: FileId, layer: nat, m: MhtProof, roots: seq<Bytes>) {
    layer < |roots| && (m.Index < layer * f.e.N ==> layer >= 1)
  }

  function RootFor(f: FileId, layer: nat, m: MhtProof, roots: seq<Bytes>): Bytes
    requires RootKnown(f, layer, m, roots)
  {
    if m.Index >= layer * f.e.N then roots[layer] else roots[layer - 1]
  }

  /** There is room in the buffer for the labels of these parents, and a root for each. */
  predicate ParentsShaped(f: FileId, layer: nat, ps: seq<MhtProof>, roots: seq<Bytes>)
    requires f.Ok()
  {
    |ps| <= f.e.D + 1 && forall m :: 0 <= m < |ps| ==> RootKnown(f, layer, ps[m], roots)
  }

  /** What the program needs of a step so as not to run out of a slice. */
  predicate StepShaped(f: FileId, v: int, p: CommitProof, roots: seq<Bytes>)
    requires f.Ok()
  {
    0 <= LayerIndex(v, f.e.N) < |roots| && ParentsShaped(f, LayerIndex(v, f.e.N), p.Parents, roots)
  }

  /** Step j of a file can be made. */
  predicate StepOk(f: FileId, chal: seq<int>, ps: seq<CommitProof>, roots: seq<Bytes>, j: nat)
    requires f.Ok() && 1 <= j < |chal|
  {
    && j <= |ps| && (j >= 2 ==> 0 <= chal[j] < |ps[j - 2].Parents|)
    && StepShaped(f, VisitedNode(chal, ps, j), ps[j - 1], roots)
  }

  predicate Shaped(f: FileId, chal: seq<int>, ps: seq<CommitProof>, roots: seq<Bytes>)
    requires f.Ok()
  {
    2 <= |chal| && forall j :: 1 <= j < |chal| ==> StepOk(f, chal, ps, roots, j)
  }

  /** copy(buf[at:at+HashSize], label) */
  function Overwrite(buf: Bytes, at: nat, piece: Bytes): (r: Bytes)
    requires at + HASH_SIZE <= |buf|
    ensures |r| == |buf|
  {
    var n := if |piece| < HASH_SIZE then |piece| else HASH_SIZE;
    buf[..at] + piece[..n] + buf[at + n..]
  }

  /** Byte by byte: at most 64 bytes of the piece, and no more than it has. */
  lemma OverwriteAt(buf: Bytes, at: nat, piece: Bytes, k: nat)
    requires at + HASH_SIZE <= |buf| && k < |buf|
    ensures Overwrite(buf, at, piece)[k] == if at <= k < at + 64 && k - at < |piece| then piece[k - at] else buf[k]
  {
  }

  /** The reused byte buffer after the labels of n parents are copied into it. */
  function Written(buf: Bytes, at: nat, ps: seq<MhtProof>, n: nat): (r: Bytes)
    requires n <= |ps| && at + n * HASH_SIZE <= |buf|
    ensures |r| == |buf|
  {
    if n == 0 then buf else Overwrite(Written(buf, at, ps, n - 1), at + (n - 1) * HASH_SIZE, ps[n - 1].Label)
  }

  function BufferSize(f: FileId): nat
    requires f.Ok()
  {
    f.FrontSize() + f.TailSize()
  }

  /** The buffer after the step for node v. */
  function StepBuffer(f: FileId, v: int, p: CommitProof, buf: Bytes): (r: Bytes)
    requires f.Ok() && |p.Parents| <= f.e.D + 1 && |buf| == BufferSize(f)
    ensures |r| == |buf|
  {
    if p.Parents == [] then buf
    else Written(f.Front(v) + buf[f.FrontSize()..], f.FrontSize(), p.Parents, |p.Parents|)
  }

  predicate ParentsAccepted(f: FileId, layer: nat, ps: seq<MhtProof>, roots: seq<Bytes>)
    requires f.Ok() && ParentsShaped(f, layer, ps, roots)
  {
    forall m :: 0 <= m < |ps| ==> ParentAccepted(f, layer, ps[m], roots)
  }

  predicate ParentAccepted(f: FileId, layer: nat, m: MhtProof, roots: seq<Bytes>)
    requires RootKnown(f, layer, m, roots)
  {
    AcceptsPath(f.hash, RootFor(f, layer, m, roots), m.Label, m.Path())
  }

  /** A step is accepted: the node's label is in its layer, and if parents are given they are in
      their layers and the buffer hashes to the label. */
  predicate StepAccepted(f: FileId, v: int, p: CommitProof, roots: seq<Bytes>, buf: Bytes)
    requires f.Ok() && StepShaped(f, v, p, roots) && |buf| == BufferSize(f)
  {
    var layer := LayerIndex(v, f.e.N);
    && AcceptsPath(f.hash, roots[layer], p.Node.Label, p.Node.Path())
    && (p.Parents != [] ==>
          && ParentsAccepted(f, layer, p.Parents, roots)
          && Digest(f.hash, StepBuffer(f, v, p, buf)) == p.Node.Label)
  }

  /** The buffer before step j. */
  function BufferBefore(f: FileId, chal: seq<int>, ps: seq<CommitProof>, roots: seq<Bytes>, j: nat,
                        buf: Bytes): (r: Bytes)
    requires f.Ok() && Shaped(f, chal, ps, roots) && 1 <= j <= |chal| && |buf| == BufferSize(f)
    ensures |r| == |buf|
  {
    if j == 1 then buf
    else
      assert StepOk(f, chal, ps, roots, j - 1);
      StepBuffer(f, VisitedNode(chal, ps, j - 1), ps[j - 2], BufferBefore(f, chal, ps, roots, j - 1, buf))
  }

  predicate StepAcceptedAt(f: FileId, chal: seq<int>, ps: seq<CommitProof>, roots: seq<Bytes>, j: nat, buf: Bytes)
    requires f.Ok() && Shaped(f, chal, ps, roots) && 1 <= j < |chal| && |buf| == BufferSize(f)
  {
    assert StepOk(f, chal, ps, roots, j);
    StepAccepted(f, VisitedNode(chal, ps, j), ps[j - 1], roots, BufferBefore(f, chal, ps, roots, j, buf))
  }

  /** All steps for one file are accepted. */
  predicate FileAccepted(f: FileId, chal: seq<int>, ps: seq<CommitProof>, roots: seq<Bytes>, buf: Bytes)
    requires f.Ok() && Shaped(f, chal, ps, roots) && |buf| == BufferSize(f)
  {
    assert StepOk(f, chal, ps, roots, 1);
    && chal[1] == ps[0].Node.Index
    && forall j :: 1 <= j < |chal| ==> StepAcceptedAt(f, chal, ps, roots, j, buf)
  }

  // ---------- the loops ----------

  method CopyLabel(content: array<byte>, at: nat, piece: Bytes)
    requires at + HASH_SIZE <= content.Length
    modifies content
    ensures content[..] == Overwrite(old(content[..]), at, piece)
  {
    Put(content, at, if |piece| < HASH_SIZE then piece else piece[..HASH_SIZE]);
  }

  lemma WrittenNone(buf: Bytes, at: nat, ps: seq<MhtProof>)
    requires at <= |buf|
    ensures Written(buf, at, ps, 0) == buf
  {
  }

  lemma WrittenStep(buf: Bytes, at: nat, ps: seq<MhtProof>, n: nat)
    requires n < |ps| && at + (n + 1) * HASH_SIZE <= |buf|
    ensures Written(buf, at, ps, n + 1) == Overwrite(Written(buf, at, ps, n), at + n * HASH_SIZE, ps[n].Label)
  {
  }

  method CheckParent(f: FileId, layer: nat, m: MhtProof, roots: seq<Bytes>) returns (ok: bool)
    requires RootKnown(f, layer, m, roots)
    ensures ok <==> ParentAccepted(f, layer, m, roots)
  {
    hide AcceptsPath;
    ok := VerifyPathProof(f.hash, RootFor(f, layer, m, roots), m.Label, m.Path());
  }

  /** Panicked: the program runs out of a slice, and stops. */
  datatype Verdict = Accepted | Rejected(reason: Reason) | Panicked

  datatype Reason = ProverNotFound | BadProofData | NodeMismatch | BadNode | BadPath | BadParentPath | BadLabel
                  | BadFileIndex | BadFileLabel | BadAccProof | CommitsPending | FileNumberOutOfRange

  /** The loop over the parents of a step. */
  method CheckParents(f: FileId, layer: nat, ps: seq<MhtProof>, roots: seq<Bytes>, content: array<byte>)
    returns (r: Verdict)
    requires f.Ok() && content.Length == BufferSize(f)
    modifies content
    ensures r.Accepted? <==> ParentsShaped(f, layer, ps, roots) && ParentsAccepted(f, layer, ps, roots)
    ensures r.Panicked? ==> !ParentsShaped(f, layer, ps, roots)
    ensures r.Accepted? ==> content[..] == Written(old(content[..]), f.FrontSize(), ps, |ps|)
  {
    hide Overwrite, Written, ParentAccepted, RootKnown, Expanders.Ok, BufferSize;
    LabelsFit(f);
    var size := f.FrontSize();
    WrittenNone(content[..], size, ps);
    for m := 0 to |ps|
      invariant size == f.FrontSize() + m * HASH_SIZE && m <= f.e.D + 1
      invariant forall k :: 0 <= k < m ==> RootKnown(f, layer, ps[k], roots) && ParentAccepted(f, layer, ps[k], roots)
      invariant content[..] == Written(old(content[..]), f.FrontSize(), ps, m)
    {
      if !RootKnown(f, layer, ps[m], roots) {
        return Panicked;
      }
      var accepted := CheckParent(f, layer, ps[m], roots);
      if !accepted {
        assert !ParentAccepted(f, layer, ps[m], roots);
        return Rejected(BadParentPath);
      }
      if m >= f.e.D + 1 {
        return Panicked;
      }
      WrittenStep(old(content[..]), f.FrontSize(), ps, m);
      CopyLabel(content, size, ps[m].Label);
      size := size + HASH_SIZE;
    }
    return Accepted;
  }

  lemma LabelsFit(f: FileId)
    requires f.Ok()
    ensures BufferSize(f) == f.FrontSize() + (f.e.D + 1) * HASH_SIZE && f.e.D > 0
  {
  }

  /** One step: the node's path, and with parents given, their paths and the label. */
  method CheckStep(f: FileId, v: int, p: CommitProof, roots: seq<Bytes>, content: array<byte>) returns (r: Verdict)
    requires f.Ok() && content.Length == BufferSize(f)
    modifies content
    ensures r.Accepted? <==> StepShaped(f, v, p, roots) && StepAccepted(f, v, p, roots, old(content[..]))
    ensures r.Panicked? ==> !StepShaped(f, v, p, roots)
    ensures r.Accepted? ==> content[..] == StepBuffer(f, v, p, old(content[..]))
  {
    hide AcceptsPath, Written, FileId.Front, FileId.TailSize, Digest, ParentsAccepted, LayerIndex;
    var layer := LayerIndex(v, f.e.N);
    if !(0 <= layer < |roots|) {
      return Panicked;
    }
    var found := VerifyPathProof(f.hash, roots[layer], p.Node.Label, p.Node.Path());
    if !found {
      return Rejected(BadPath);
    }
    if |p.Parents| <= 0 {
      return Accepted;
    }
    FrontConcat(f, v);
    CopyData(content, [f.id, Int64(f.count), Int32(v)]);
    r := CheckParents(f, layer, p.Parents, roots, content);
    if !r.Accepted? {
      return;
    }
    if Digest(f.hash, content[..]) != p.Node.Label {
      return Rejected(BadLabel);
    }
    return Accepted;
  }

  lemma StepFacts(f: FileId, chal: seq<int>, ps: seq<CommitProof>, roots: seq<Bytes>, j: nat, buf: Bytes)
    requires f.Ok() && Shaped(f, chal, ps, roots) && 1 <= j < |chal| && |buf| == BufferSize(f)
    ensures StepOk(f, chal, ps, roots, j)
    ensures BufferBefore(f, chal, ps, roots, j + 1, buf)
            == StepBuffer(f, VisitedNode(chal, ps, j), ps[j - 1], BufferBefore(f, chal, ps, roots, j, buf))
    ensures StepAcceptedAt(f, chal, ps, roots, j, buf)
            <==> StepAccepted(f, VisitedNode(chal, ps, j), ps[j - 1], roots, BufferBefore(f, chal, ps, roots, j, buf))
  {
    hide StepBuffer, StepAccepted, LayerIndex;
    assert StepOk(f, chal, ps, roots, j);
  }

  lemma FileStart(f: FileId, chal: seq<int>, ps: seq<CommitProof>, roots: seq<Bytes>, buf: Bytes)
    requires f.Ok() && Shaped(f, chal, ps, roots) && |buf| == BufferSize(f)
    ensures |chal| >= 2 && ps != [] && BufferBefore(f, chal, ps, roots, 1, buf) == buf
  {
    assert StepOk(f, chal, ps, roots, 1);
  }

  /** The steps before j could be made, and if all can, they are accepted and the buffer is as expected. */
  ghost predicate StepsDone(f: FileId, chal: seq<int>, ps: seq<CommitProof>, roots: seq<Bytes>, buf: Bytes, j: nat,
                            content: Bytes)
    requires f.Ok() && 1 <= j <= |chal| && |buf| == BufferSize(f)
  {
    && (forall k :: 1 <= k < j ==> StepOk(f, chal, ps, roots, k))
    && (Shaped(f, chal, ps, roots) ==>
          && content == BufferBefore(f, chal, ps, roots, j, buf)
          && forall k :: 1 <= k < j ==> StepAcceptedAt(f, chal, ps, roots, k, buf))
  }

  lemma StepsStart(f: FileId, chal: seq<int>, ps: seq<CommitProof>, roots: seq<Bytes>, buf: Bytes)
    requires f.Ok() && |chal| >= 2 && |buf| == BufferSize(f)
    ensures StepsDone(f, chal, ps, roots, buf, 1, buf)
  {
    hide Shaped, StepOk, BufferSize;
    if Shaped(f, chal, ps, roots) {
      FileStart(f, chal, ps, roots, buf);
    }
  }

  /** What one step makes of it, accepted or not. */
  lemma StepsNext(f: FileId, chal: seq<int>, ps: seq<CommitProof>, roots: seq<Bytes>, buf: Bytes, j: nat,
                  content: Bytes, content': Bytes, accepted: bool)
    requires f.Ok() && 1 <= j < |chal| && |buf| == BufferSize(f) == |content|
    requires StepsDone(f, chal, ps, roots, buf, j, content)
    requires accepted ==> StepOk(f, chal, ps, roots, j)
    requires StepOk(f, chal, ps, roots, j) ==>
               && (accepted <==> StepAccepted(f, VisitedNode(chal, ps, j), ps[j - 1], roots, content))
               && (accepted ==> content' == StepBuffer(f, VisitedNode(chal, ps, j), ps[j - 1], content))
    ensures accepted ==> StepsDone(f, chal, ps, roots, buf, j + 1, content')
    ensures !accepted ==> !(Shaped(f, chal, ps, roots) && FileAccepted(f, chal, ps, roots, buf))
    ensures Shaped(f, chal, ps, roots) ==> StepOk(f, chal, ps, roots, j)
  {
    hide StepOk, StepAcceptedAt, StepAccepted, StepBuffer, BufferBefore, BufferSize, Expanders.Ok;
    if Shaped(f, chal, ps, roots) {
      StepFacts(f, chal, ps, roots, j, buf);
    }
  }

  lemma StepsAll(f: FileId, chal: seq<int>, ps: seq<CommitProof>, roots: seq<Bytes>, buf: Bytes, content: Bytes)
    requires f.Ok() && |chal| >= 2 && ps != [] && |buf| == BufferSize(f) && chal[1] == ps[0].Node.Index
    requires StepsDone(f, chal, ps, roots, buf, |chal|, content)
    ensures Shaped(f, chal, ps, roots) && FileAccepted(f, chal, ps, roots, buf)
    ensures content == BufferBefore(f, chal, ps, roots, |chal|, buf)
  {
    hide StepOk, StepAcceptedAt, BufferBefore, BufferSize;
  }

  lemma FileRefused(f: FileId, chal: seq<int>, ps: seq<CommitProof>, roots: seq<Bytes>, buf: Bytes)
    requires f.Ok() && |buf| == BufferSize(f)
    ensures |chal| < 2 || ps == [] ==> !Shaped(f, chal, ps, roots)
    ensures |chal| >= 2 && ps != [] && chal[1] != ps[0].Node.Index ==>
              !(Shaped(f, chal, ps, roots) && FileAccepted(f, chal, ps, roots, buf))
  {
    hide StepAcceptedAt, BufferSize;
    if |chal| >= 2 && ps == [] {
      assert !StepOk(f, chal, ps, roots, 1);
    }
  }

  /** One step of a file, with the proof of the step before it. */
  method CheckStepOf(f: FileId, chal: seq<int>, ps: seq<CommitProof>, roots: seq<Bytes>, j: nat, content: array<byte>)
    returns (r: Verdict)
    requires f.Ok() && content.Length == BufferSize(f) && 1 <= j < |chal|
    modifies content
    ensures r.Accepted? ==> StepOk(f, chal, ps, roots, j)
    ensures r.Panicked? ==> !StepOk(f, chal, ps, roots, j)
    ensures StepOk(f, chal, ps, roots, j) ==>
              && (r.Accepted? <==> StepAccepted(f, VisitedNode(chal, ps, j), ps[j - 1], roots, old(content[..])))
              && (r.Accepted? ==> content[..] == StepBuffer(f, VisitedNode(chal, ps, j), ps[j - 1], old(content[..])))
  {
    hide StepShaped, StepAccepted, StepBuffer, BufferSize, Expanders.Ok;
    if j > |ps| || (j >= 2 && !(0 <= chal[j] < |ps[j - 2].Parents|)) {
      return Panicked;
    }
    r := CheckStep(f, VisitedNode(chal, ps, j), ps[j - 1], roots, content);
  }

  /** The steps for one file. */
  method CheckFile(f: FileId, chal: seq<int>, ps: seq<CommitProof>, roots: seq<Bytes>, content: array<byte>)
    returns (r: Verdict)
    requires f.Ok() && content.Length == BufferSize(f)
    modifies content
    ensures r.Accepted? <==> Shaped(f, chal, ps, roots) && FileAccepted(f, chal, ps, roots, old(content[..]))
    ensures r.Panicked? ==> !Shaped(f, chal, ps, roots)
    ensures r.Accepted? ==> content[..] == BufferBefore(f, chal, ps, roots, |chal|, old(content[..]))
  {
    hide Shaped, StepOk, StepsDone, StepAccepted, StepBuffer, BufferBefore, BufferSize, Expanders.Ok, FileAccepted;
    ghost var buf := content[..];
    FileRefused(f, chal, ps, roots, buf);
    if |chal| < 2 || |ps| == 0 {
      return Panicked;
    }
    if chal[1] != ps[0].Node.Index {
      return Rejected(BadNode);
    }
    StepsStart(f, chal, ps, roots, buf);
    for j := 1 to |chal|
      invariant content.Length == BufferSize(f) && StepsDone(f, chal, ps, roots, buf, j, content[..])
    {
      ghost var before := content[..];
      r := CheckStepOf(f, chal, ps, roots, j, content);
      StepsNext(f, chal, ps, roots, buf, j, before, content[..], r.Accepted?);
      if !r.Accepted? {
        return;
      }
    }
    StepsAll(f, chal, ps, roots, buf, content[..]);
    return Accepted;
  }

  // ---------- dependencies ----------

  /** The parents named in a proof are those of the node. */
  predicate DependencyHolds(f: FileId, p: CommitProof)
    requires f.Ok()
  {
    var parents := f.Parents(p.Node.Index);
    |parents| <= |p.Parents| && forall j :: 0 <= j < |parents| ==> parents[j] == p.Parents[j].Index
  }

  /** An int32 above the numbers whose truncated layer is negative. */
  predicate Numbered(f: FileId, p: CommitProof) {
    -f.e.N < p.Node.Index && InInt32(p.Node.Index)
  }

  /** The body of VerifyNodeDependencies' loop, for the node picked. */
  method CheckDependency(f: FileId, p: CommitProof) returns (r: Verdict)
    requires f.Ok() && Numbered(f, p)
    ensures r.Accepted? <==> DependencyHolds(f, p)
    ensures r.Panicked? ==> |p.Parents| < |f.Parents(p.Node.Index)|
  {
    hide FileId.Parents;
    var parents := ComputeParents(f, p.Node.Index);
    for j := 0 to |parents|
      invariant j <= |p.Parents| && forall k :: 0 <= k < j ==> parents[k] == p.Parents[k].Index
    {
      if j >= |p.Parents| {
        return Panicked;
      }
      if parents[j] != p.Parents[j].Index {
        return Rejected(NodeMismatch);
      }
    }
    return Accepted;
  }

  // ---------- honest proofs pass ----------

  lemma HashSize(f: FileId)
    ensures FixedSize(f.hash, HASH_SIZE)
  {
  }

  /** Label and path of an honest node are accepted against the root of its layer. */
  lemma HonestNodeAccepted(f: FileId, d: nat, m: MhtProof)
    requires f.Ok() && f.e.N == Pow2(d) && IsMhtProof(f, d, m) && m.Index < f.Total()
    ensures LayerOf(m.Index, f.e.N) <= f.e.K
    ensures AcceptsPath(f.hash, f.Roots(d)[LayerOf(m.Index, f.e.N)], m.Label, m.Path())
  {
    hide FileId.LayerLabels, FileId.Label, FileId.Total, Hashed, IsPathOf, MerkleRoot, AcceptsPath, Pow2;
    LayerIndexRange(f, m.Index);
    TwoLeavesAtLeast(f, d);
    NumberParts(f, m.Index, 0, 0);
    HashSize(f);
    var l := LayerOf(m.Index, f.e.N);
    PathAccepted(f.hash, HASH_SIZE, f.LayerLabels(l), d, PlaceOf(m.Index, f.e.N), m.Path());
    RootOfRoots(f, d, l);
  }

  lemma RootOfRoots(f: FileId, d: nat, l: nat)
    requires f.Ok() && f.e.N == Pow2(d) && l <= f.e.K
    ensures f.Roots(d)[l] == MerkleRoot(f.hash, Hashed(f.hash, f.LayerLabels(l)), d)
  {
    hide FileId.LayerLabels, Hashed, MerkleRoot;
  }

  /** Copying full-size labels leaves exactly their concatenation, whatever stood there. */
  lemma {:induction false} WrittenAll(buf: Bytes, at: nat, ps: seq<MhtProof>, pieces: seq<Bytes>, n: nat)
    requires n <= |ps| == |pieces| && at + n * HASH_SIZE <= |buf|
    requires forall i :: 0 <= i < |ps| ==> ps[i].Label == pieces[i] && |pieces[i]| == HASH_SIZE
    ensures |Concat(pieces[..n])| == n * HASH_SIZE
    ensures Written(buf, at, ps, n) == buf[..at] + Concat(pieces[..n]) + buf[at + n * HASH_SIZE..]
  {
    hide Concat, Written;
    if n == 0 {
      WrittenNone(buf, at, ps);
      PrefixSize(pieces, 0, HASH_SIZE);
      assert Concat(pieces[..0]) == [];
    } else {
      WrittenAll(buf, at, ps, pieces, n - 1);
      WrittenStep(buf, at, ps, n - 1);
      PrefixSize(pieces, n - 1, HASH_SIZE);
    }
  }

  /** The buffer after an honest step is what the node's label is the hash of. */
  lemma HonestBuffer(f: FileId, d: nat, c: int, p: CommitProof, buf: Bytes)
    requires f.Ok() && f.e.N == Pow2(d) && IsCommitProof(f, d, c, p) && c >= f.e.N && |buf| == BufferSize(f)
    ensures |p.Parents| == f.e.D + 1 && StepBuffer(f, c, p, buf) == f.Front(c) + f.Tail(c)
  {
    hide FileId.Parents, FileId.ParentLabels, FileId.LayerLabels, FileId.Front, FileId.Label, Written, IsPathOf, Hashed,
         Pow2, Concat;
    f.ParentsInRange(c);
    var pieces, front := f.ParentLabels(c), f.FrontSize();
    forall i | 0 <= i < |pieces| ensures p.Parents[i].Label == pieces[i] {
      f.ParentLabelAt(c, i);
    }
    var start := f.Front(c) + buf[front..];
    WrittenAll(start, front, p.Parents, pieces, f.e.D + 1);
    assert pieces[..f.e.D + 1] == pieces;
  }

  lemma HonestParents(f: FileId, d: nat, c: int, p: CommitProof)
    requires f.Ok() && f.e.N == Pow2(d) && IsCommitProof(f, d, c, p) && f.e.N <= c < f.Total()
    ensures 1 <= LayerOf(c, f.e.N) <= f.e.K
    ensures ParentsShaped(f, LayerOf(c, f.e.N), p.Parents, f.Roots(d))
    ensures ParentsAccepted(f, LayerOf(c, f.e.N), p.Parents, f.Roots(d))
  {
    hide FileId.Parents, FileId.Total, FileId.LayerRoots, IsMhtProof, LayerOf, AcceptsPath, Pow2;
    f.ParentsInRange(c);
    LayerIndexRange(f, c);
    forall m | 0 <= m < |p.Parents|
      ensures RootKnown(f, LayerOf(c, f.e.N), p.Parents[m], f.Roots(d))
      ensures ParentAccepted(f, LayerOf(c, f.e.N), p.Parents[m], f.Roots(d))
    {
      ParentLayer(f, c, p.Parents[m].Index);
      HonestNodeAccepted(f, d, p.Parents[m]);
    }
  }

  lemma HonestStepAccepted(f: FileId, d: nat, c: int, p: CommitProof, buf: Bytes)
    requires f.Ok() && f.e.N == Pow2(d) && IsCommitProof(f, d, c, p) && c < f.Total() && |buf| == BufferSize(f)
    ensures StepShaped(f, c, p, f.Roots(d)) && StepAccepted(f, c, p, f.Roots(d), buf)
  {
    hide FileId.Parents, FileId.Total, FileId.Roots, IsMhtProof, LayerOf, LayerIndex, AcceptsPath, Pow2, StepBuffer,
         FileId.Front, FileId.Tail, FileId.Label, Digest, ParentsAccepted, RootKnown;
    LayerIndexRange(f, c);
    HonestNodeAccepted(f, d, p.Node);
    if c >= f.e.N {
      HonestParents(f, d, c, p);
      HonestBuffer(f, d, c, p, buf);
      LabelIsDigest(f, c);
      NodeLabel(f, d, p.Node);
    }
  }

  lemma NodeLabel(f: FileId, d: nat, m: MhtProof)
    requires f.Ok() && f.e.N == Pow2(d) && IsMhtProof(f, d, m)
    ensures m.Label == f.Label(m.Index)
  {
  }

  /** The visited nodes of an honest proof are those of the walk. */
  lemma VisitedIsWalk(f: FileId, d: nat, chal: seq<int>, ps: seq<CommitProof>, j: nat)
    requires f.Ok() && f.e.N == Pow2(d) && IsChallenge(f.e, chal) && IsFileProof(f, d, chal, ps) && 1 <= j < |chal|
    ensures j >= 2 ==> 0 <= chal[j] < |ps[j - 2].Parents|
    ensures VisitedNode(chal, ps, j) == Walk(f, chal, j - 1)
    ensures 0 <= Walk(f, chal, j - 1) < f.Total() && IsCommitProof(f, d, Walk(f, chal, j - 1), ps[j - 1])
  {
    hide IsCommitProof, Walk, Pow2, FileId.Total;
    WalkStaysHigh(f, chal, j - 1);
    LayerIndexRange(f, Walk(f, chal, j - 1));
    if j == 1 {
      WalkStart(f, chal);
    } else {
      ChallengeIsWalkable(f, chal);
      WalkableStart(f, chal);
      WalkBack(f, chal, j - 2, |chal| - 2);
      PickedParent(f, d, chal, j - 2, ps[j - 2]);
    }
  }

  lemma WalkStart(f: FileId, chal: seq<int>)
    requires f.Ok() && |chal| >= 2
    ensures Walk(f, chal, 0) == chal[1]
  {
  }

  lemma HonestShaped(f: FileId, d: nat, chal: seq<int>, ps: seq<CommitProof>)
    requires f.Ok() && f.e.N == Pow2(d) && IsChallenge(f.e, chal) && IsFileProof(f, d, chal, ps)
    ensures Shaped(f, chal, ps, f.Roots(d))
  {
    hide IsCommitProof, IsFileProof, Walk, Pow2, FileId.Total, FileId.Roots, VisitedNode, StepShaped, StepAccepted;
    FileProofSize(f, d, chal, ps);
    forall j | 1 <= j < |chal| ensures StepOk(f, chal, ps, f.Roots(d), j) {
      VisitedIsWalk(f, d, chal, ps, j);
      HonestStepAccepted(f, d, Walk(f, chal, j - 1), ps[j - 1], Zeros(BufferSize(f)));
    }
  }

  lemma FileProofSize(f: FileId, d: nat, chal: seq<int>, ps: seq<CommitProof>)
    requires f.Ok() && f.e.N == Pow2(d) && IsChallenge(f.e, chal) && IsFileProof(f, d, chal, ps)
    ensures |ps| + 1 == |chal| == f.e.K + 2 >= 2 && |f.Roots(d)| == f.e.K + 2
  {
    hide IsCommitProof;
  }

  /** An honestly generated file passes every challenge, whatever the reused buffer holds. */
  lemma HonestFileAccepted(f: FileId, d: nat, chal: seq<int>, ps: seq<CommitProof>, buf: Bytes)
    requires f.Ok() && f.e.N == Pow2(d) && IsChallenge(f.e, chal) && IsFileProof(f, d, chal, ps)
    requires |buf| == BufferSize(f)
    ensures Shaped(f, chal, ps, f.Roots(d)) && FileAccepted(f, chal, ps, f.Roots(d), buf)
  {
    hide IsFileProof, Walk, Pow2, FileId.Total, FileId.Roots, StepShaped, StepAccepted, StepAcceptedAt, Shaped,
         IsMhtProof, AreParentProofs;
    FileProofSize(f, d, chal, ps);
    HonestShaped(f, d, chal, ps);
    forall j | 1 <= j < |chal| ensures StepAcceptedAt(f, chal, ps, f.Roots(d), j, buf) {
      VisitedIsWalk(f, d, chal, ps, j);
      HonestStepAccepted(f, d, Walk(f, chal, j - 1), ps[j - 1], BufferBefore(f, chal, ps, f.Roots(d), j, buf));
      StepFacts(f, chal, ps, f.Roots(d), j, buf);
    }
    VisitedIsWalk(f, d, chal, ps, 1);
  }

  /** Whichever node is picked, an honest proof names its parents. */
  lemma HonestDependency(f: FileId, d: nat, chal: seq<int>, ps: seq<CommitProof>, r: nat)
    requires f.Ok() && f.e.N == Pow2(d) && IsChallenge(f.e, chal) && IsFileProof(f, d, chal, ps) && r < |ps|
    ensures Numbered(f, ps[r]) && DependencyHolds(f, ps[r])
  {
    hide IsFileProof, Walk, Pow2, FileId.Total, FileId.Parents, IsMhtProof;
    FileProofSize(f, d, chal, ps);
    VisitedIsWalk(f, d, chal, ps, r + 1);
    var c := Walk(f, chal, r);
    TotalInInt32(f, c);
    if c >= f.e.N {
      f.ParentsInRange(c);
    } else {
      NoParentsInLowest(f, c);
    }
  }

  lemma NoParentsInLowest(f: FileId, c: int)
    requires f.Ok() && 0 <= c < f.e.N
    ensures f.Parents(c) == []
  {
    hide ParentsOf;
    SmallQuotient(c, f.e.N);
    NoParentsBelow(f.e, f.hash, f.id, f.count, c);
  }

  // ---------- several files ----------

  /** The first of the n buffered commits for this file; 0 when there is none. */
  function FirstMatch(buf: seq<Commit>, n: nat, file: int, k: nat): (i: nat)
    requires k <= n <= |buf|
    ensures i < n || i == 0
    decreases n - k
  {
    if k == n then 0 else if buf[k].FileIndex == file then k else FirstMatch(buf, n, file, k + 1)
  }

  lemma {:induction false} FirstMatchIs(buf: seq<Commit>, n: nat, file: int, k: nat, i: nat)
    requires k <= i < n <= |buf| && buf[i].FileIndex == file
    requires forall j :: k <= j < i ==> buf[j].FileIndex != file
    ensures FirstMatch(buf, n, file, k) == i
    decreases i - k
  {
    if k < i {
      FirstMatchIs(buf, n, file, k + 1, i);
    }
  }

  /** The first of the n buffered commits for this file, or 0 when there is none. */
  method FindCommit(buf: seq<Commit>, n: nat, file: int) returns (index: nat)
    requires n <= |buf|
    ensures index == FirstMatch(buf, n, file, 0)
    ensures (exists i :: 0 <= i < n && buf[i].FileIndex == file) ==>
              index < n && buf[index].FileIndex == file && forall j :: 0 <= j < index ==> buf[j].FileIndex != file
    ensures (forall i :: 0 <= i < n ==> buf[i].FileIndex != file) ==> index == 0
  {
    index := 0;
    for i := 0 to n
      invariant index == 0 && FirstMatch(buf, n, file, i) == FirstMatch(buf, n, file, 0)
      invariant forall j :: 0 <= j < i ==> buf[j].FileIndex != file
    {
      if file == buf[i].FileIndex {
        index := i;
        break;
      }
    }
  }

  predicate OneShaped(f: FileId, chal: seq<int>, ps: seq<CommitProof>, c: Commit)
    requires f.Ok()
  {
    |chal| >= 2 && Shaped(ForFile(f, chal), chal, ps, c.Roots)
  }

  /** What the program needs of challenges, proofs and the buffered commits they are about. */
  predicate AllShaped(f: FileId, chals: seq<seq<int>>, proofs: seq<seq<CommitProof>>, commits: seq<Commit>)
    requires f.Ok()
  {
    && |chals| == |proofs| == |commits|
    && forall i :: 0 <= i < |chals| ==> OneShaped(f, chals[i], proofs[i], commits[i])
  }

  predicate OneAccepted(f: FileId, chal: seq<int>, ps: seq<CommitProof>, c: Commit, buf: Bytes)
    requires f.Ok() && OneShaped(f, chal, ps, c) && |buf| == BufferSize(f)
  {
    FileAccepted(ForFile(f, chal), chal, ps, c.Roots, buf)
  }

  function OneBuffer(f: FileId, chal: seq<int>, ps: seq<CommitProof>, c: Commit, buf: Bytes): (r: Bytes)
    requires f.Ok() && OneShaped(f, chal, ps, c) && |buf| == BufferSize(f)
    ensures |r| == |buf|
  {
    BufferBefore(ForFile(f, chal), chal, ps, c.Roots, |chal|, buf)
  }

  /** The reused buffer when the check of file i begins. */
  function FileBuffer(f: FileId, chals: seq<seq<int>>, proofs: seq<seq<CommitProof>>, commits: seq<Commit>,
                      i: nat): (r: Bytes)
    requires f.Ok() && AllShaped(f, chals, proofs, commits) && i <= |chals|
    ensures |r| == BufferSize(f)
  {
    if i == 0 then Zeros(BufferSize(f))
    else OneBuffer(f, chals[i - 1], proofs[i - 1], commits[i - 1], FileBuffer(f, chals, proofs, commits, i - 1))
  }

  predicate AcceptedAt(f: FileId, chals: seq<seq<int>>, proofs: seq<seq<CommitProof>>, commits: seq<Commit>, i: nat)
    requires f.Ok() && AllShaped(f, chals, proofs, commits) && i < |chals|
  {
    OneAccepted(f, chals[i], proofs[i], commits[i], FileBuffer(f, chals, proofs, commits, i))
  }

  predicate AllAccepted(f: FileId, chals: seq<seq<int>>, proofs: seq<seq<CommitProof>>, commits: seq<Commit>)
    requires f.Ok() && AllShaped(f, chals, proofs, commits)
  {
    forall i :: 0 <= i < |chals| ==> AcceptedAt(f, chals, proofs, commits, i)
  }

  lemma FileBufferStart(f: FileId, chals: seq<seq<int>>, proofs: seq<seq<CommitProof>>, commits: seq<Commit>)
    requires f.Ok() && AllShaped(f, chals, proofs, commits)
    ensures |chals| == |proofs| == |commits|
    ensures FileBuffer(f, chals, proofs, commits, 0) == Zeros(BufferSize(f))
  {
  }

  lemma FileBufferStep(f: FileId, chals: seq<seq<int>>, proofs: seq<seq<CommitProof>>, commits: seq<Commit>, i: nat)
    requires f.Ok() && AllShaped(f, chals, proofs, commits) && i < |chals|
    ensures |chals| == |proofs| == |commits| && OneShaped(f, chals[i], proofs[i], commits[i])
    ensures var buf := FileBuffer(f, chals, proofs, commits, i);
            && FileBuffer(f, chals, proofs, commits, i + 1) == OneBuffer(f, chals[i], proofs[i], commits[i], buf)
            && (AcceptedAt(f, chals, proofs, commits, i) <==> OneAccepted(f, chals[i], proofs[i], commits[i], buf))
  {
    hide OneShaped, OneAccepted, OneBuffer;
  }

  method CheckOne(f: FileId, chal: seq<int>, ps: seq<CommitProof>, c: Commit, content: array<byte>) returns (r: Verdict)
    requires f.Ok() && content.Length == BufferSize(f)
    modifies content
    ensures r.Accepted? <==> OneShaped(f, chal, ps, c) && OneAccepted(f, chal, ps, c, old(content[..]))
    ensures r.Panicked? ==> !OneShaped(f, chal, ps, c)
    ensures r.Accepted? ==> content[..] == OneBuffer(f, chal, ps, c, old(content[..]))
  {
    hide Shaped, FileAccepted, BufferBefore;
    if |chal| < 2 {
      return Panicked;
    }
    r := CheckFile(ForFile(f, chal), chal, ps, c.Roots, content);
  }

  /** The files before i could be checked, and if all can, they are accepted and the buffer is as expected. */
  ghost predicate FilesDone(f: FileId, chals: seq<seq<int>>, proofs: seq<seq<CommitProof>>, commits: seq<Commit>,
                            i: nat, content: Bytes)
    requires f.Ok() && i <= |chals| == |proofs| == |commits|
  {
    && (forall k :: 0 <= k < i ==> OneShaped(f, chals[k], proofs[k], commits[k]))
    && (AllShaped(f, chals, proofs, commits) ==>
          && content == FileBuffer(f, chals, proofs, commits, i)
          && forall k :: 0 <= k < i ==> AcceptedAt(f, chals, proofs, commits, k))
  }

  /** The loop over the files. */
  method CheckFiles(f: FileId, chals: seq<seq<int>>, proofs: seq<seq<CommitProof>>, commits: seq<Commit>,
                    content: array<byte>)
    returns (r: Verdict)
    requires f.Ok() && |chals| == |proofs| == |commits| && content[..] == Zeros(BufferSize(f))
    modifies content
    ensures r.Accepted? <==> AllShaped(f, chals, proofs, commits) && AllAccepted(f, chals, proofs, commits)
    ensures r.Panicked? ==> !AllShaped(f, chals, proofs, commits)
  {
    hide AllShaped, AllAccepted, FilesDone, OneShaped, OneAccepted, OneBuffer, BufferSize;
    FilesStart(f, chals, proofs, commits);
    for i := 0 to |proofs|
      invariant content.Length == BufferSize(f) && FilesDone(f, chals, proofs, commits, i, content[..])
    {
      ghost var before := content[..];
      r := CheckOne(f, chals[i], proofs[i], commits[i], content);
      FilesNext(f, chals, proofs, commits, i, before, content[..], r.Accepted?);
      if !r.Accepted? {
        return;
      }
    }
    FilesAll(f, chals, proofs, commits, content[..]);
    return Accepted;
  }

  lemma FilesStart(f: FileId, chals: seq<seq<int>>, proofs: seq<seq<CommitProof>>, commits: seq<Commit>)
    requires f.Ok() && |chals| == |proofs| == |commits|
    ensures FilesDone(f, chals, proofs, commits, 0, Zeros(BufferSize(f)))
  {
    hide AllShaped, BufferSize;
    if AllShaped(f, chals, proofs, commits) {
      FileBufferStart(f, chals, proofs, commits);
    }
  }

  /** What the check of one more file makes of it, accepted or not. */
  lemma FilesNext(f: FileId, chals: seq<seq<int>>, proofs: seq<seq<CommitProof>>, commits: seq<Commit>, i: nat,
                  content: Bytes, content': Bytes, accepted: bool)
    requires f.Ok() && i < |chals| == |proofs| == |commits| && |content| == BufferSize(f)
    requires FilesDone(f, chals, proofs, commits, i, content)
    requires accepted <==>
               && OneShaped(f, chals[i], proofs[i], commits[i])
               && OneAccepted(f, chals[i], proofs[i], commits[i], content)
    requires accepted ==> content' == OneBuffer(f, chals[i], proofs[i], commits[i], content)
    ensures accepted ==> FilesDone(f, chals, proofs, commits, i + 1, content')
    ensures !accepted ==> !(AllShaped(f, chals, proofs, commits) && AllAccepted(f, chals, proofs, commits))
    ensures AllShaped(f, chals, proofs, commits) ==> OneShaped(f, chals[i], proofs[i], commits[i])
  {
    hide OneShaped, OneAccepted, OneBuffer, FileBuffer, AcceptedAt, BufferSize;
    if AllShaped(f, chals, proofs, commits) {
      FileBufferStep(f, chals, proofs, commits, i);
    }
  }

  lemma FilesAll(f: FileId, chals: seq<seq<int>>, proofs: seq<seq<CommitProof>>, commits: seq<Commit>, content: Bytes)
    requires f.Ok() && |chals| == |proofs| == |commits| && FilesDone(f, chals, proofs, commits, |chals|, content)
    ensures AllShaped(f, chals, proofs, commits) && AllAccepted(f, chals, proofs, commits)
  {
    hide OneShaped, FileBuffer, AcceptedAt, BufferSize;
  }

  /** The part of VerifyCommitProofs behind the dependencies. */
  method CheckAll(f: FileId, chals: seq<seq<int>>, proofs: seq<seq<CommitProof>>, commits: seq<Commit>)
    returns (r: Verdict)
    requires f.Ok() && |chals| == |proofs| == |commits|
    ensures r.Accepted? <==> AllShaped(f, chals, proofs, commits) && AllAccepted(f, chals, proofs, commits)
    ensures r.Panicked? ==> !AllShaped(f, chals, proofs, commits)
  {
    hide AllShaped, AllAccepted;
    var content := new byte[BufferSize(f)](_ => 0);
    assert content[..] == Zeros(BufferSize(f));
    r := CheckFiles(f, chals, proofs, commits, content);
  }

  /** A random pick: a file, and one of its nodes but the last, if it has two; the node is numbered. */
  predicate RandomPick(f: FileId, proofs: seq<seq<CommitProof>>, pick: (nat, nat)) {
    && pick.0 < |proofs|
    && (|proofs[pick.0]| >= 2 ==> pick.1 < |proofs[pick.0]| - 1 && Numbered(f, proofs[pick.0][pick.1]))
  }

  /** There is a node to pick, and its file is named. */
  predicate PickOk(chals: seq<seq<int>>, proofs: seq<seq<CommitProof>>, pick: (nat, nat)) {
    pick.0 < |proofs| && pick.0 < |chals| && pick.1 < |proofs[pick.0]| - 1 && |chals[pick.0]| >= 1
  }

  predicate PickHolds(f: FileId, chals: seq<seq<int>>, proofs: seq<seq<CommitProof>>, pick: (nat, nat))
    requires f.Ok()
  {
    PickOk(chals, proofs, pick) && DependencyHolds(ForFile(f, chals[pick.0]), proofs[pick.0][pick.1])
  }

  /** What the program needs of a pick so as not to run out of a slice. */
  predicate PickShaped(f: FileId, chals: seq<seq<int>>, proofs: seq<seq<CommitProof>>, pick: (nat, nat))
    requires f.Ok()
  {
    && PickOk(chals, proofs, pick)
    && var p := proofs[pick.0][pick.1];
       |ForFile(f, chals[pick.0]).Parents(p.Node.Index)| <= |p.Parents|
  }

  predicate DependenciesHold(f: FileId, chals: seq<seq<int>>, proofs: seq<seq<CommitProof>>, picks: seq<(nat, nat)>)
    requires f.Ok()
  {
    forall k :: 0 <= k < |picks| ==> PickHolds(f, chals, proofs, picks[k])
  }

  predicate PicksShaped(f: FileId, chals: seq<seq<int>>, proofs: seq<seq<CommitProof>>, picks: seq<(nat, nat)>)
    requires f.Ok()
  {
    forall k :: 0 <= k < |picks| ==> PickShaped(f, chals, proofs, picks[k])
  }

  /** VerifyNodeDependencies, with its random picks. */
  method VerifyNodeDependencies(f: FileId, chals: seq<seq<int>>, proofs: seq<seq<CommitProof>>, picks: seq<(nat, nat)>)
    returns (r: Verdict)
    requires f.Ok() && |chals| == |proofs| && forall k :: 0 <= k < |picks| ==> RandomPick(f, proofs, picks[k])
    ensures r.Accepted? <==> DependenciesHold(f, chals, proofs, picks)
    ensures r.Panicked? ==> !PicksShaped(f, chals, proofs, picks)
  {
    hide RandomPick, PickHolds, PickShaped;
    for k := 0 to |picks|
      invariant forall m :: 0 <= m < k ==> PickHolds(f, chals, proofs, picks[m])
    {
      r := CheckPick(f, chals, proofs, picks[k]);
      if !r.Accepted? {
        return;
      }
    }
    return Accepted;
  }

  method CheckPick(f: FileId, chals: seq<seq<int>>, proofs: seq<seq<CommitProof>>, pick: (nat, nat))
    returns (r: Verdict)
    requires f.Ok() && |chals| == |proofs| && RandomPick(f, proofs, pick)
    ensures r.Accepted? <==> PickHolds(f, chals, proofs, pick)
    ensures r.Panicked? ==> !PickShaped(f, chals, proofs, pick)
  {
    hide DependencyHolds, FileId.Parents;
    if |proofs[pick.0]| < 2 || |chals[pick.0]| < 1 {
      return Panicked;
    }
    r := CheckDependency(ForFile(f, chals[pick.0]), proofs[pick.0][pick.1]);
  }

  // ---------- the theorem ----------

  /** Challenge, proof and commit of an honestly generated file. */
  predicate HonestOne(f: FileId, d: nat, chal: seq<int>, ps: seq<CommitProof>, c: Commit)
    requires f.Ok() && f.e.N == Pow2(d)
  {
    && IsChallenge(f.e, chal) && |chal| >= 2 && Answers(f, d, chal, ps)
    && c == Commit(chal[0], ForFile(f, chal).Roots(d))
  }

  lemma HonestOneAccepted(f: FileId, d: nat, chal: seq<int>, ps: seq<CommitProof>, c: Commit, buf: Bytes)
    requires f.Ok() && f.e.N == Pow2(d) && HonestOne(f, d, chal, ps, c) && |buf| == BufferSize(f)
    ensures OneShaped(f, chal, ps, c) && OneAccepted(f, chal, ps, c, buf)
  {
    hide IsChallenge, IsFileProof, FileId.Roots, Shaped, FileAccepted, Pow2;
    ChallengeSize(f.e, chal);
    HonestFileAccepted(ForFile(f, chal), d, chal, ps, buf);
  }

  lemma ChallengeSize(e: Expanders, chal: seq<int>)
    requires IsChallenge(e, chal)
    ensures |chal| == e.K + 2 >= 2
  {
  }

  lemma HonestPick(f: FileId, d: nat, chal: seq<int>, ps: seq<CommitProof>, c: Commit, r: nat)
    requires f.Ok() && f.e.N == Pow2(d) && HonestOne(f, d, chal, ps, c) && r < |ps|
    ensures |chal| >= 2
    ensures Numbered(ForFile(f, chal), ps[r]) && DependencyHolds(ForFile(f, chal), ps[r])
  {
    hide IsChallenge, IsFileProof, FileId.Roots, DependencyHolds, Pow2;
    HonestDependency(ForFile(f, chal), d, chal, ps, r);
  }

  lemma HonestNumbered(f: FileId, d: nat, chal: seq<int>, ps: seq<CommitProof>, c: Commit, r: nat)
    requires f.Ok() && f.e.N == Pow2(d) && HonestOne(f, d, chal, ps, c) && r < |ps|
    ensures Numbered(f, ps[r])
  {
    hide HonestOne, DependencyHolds;
    HonestPick(f, d, chal, ps, c, r);
  }

  lemma HonestPickHolds(f: FileId, d: nat, chals: seq<seq<int>>, proofs: seq<seq<CommitProof>>, c: Commit,
                        pick: (nat, nat))
    requires f.Ok() && f.e.N == Pow2(d) && pick.0 < |chals| && pick.0 < |proofs| && pick.1 < |proofs[pick.0]| - 1
    requires HonestOne(f, d, chals[pick.0], proofs[pick.0], c)
    ensures PickHolds(f, chals, proofs, pick)
  {
    hide HonestOne, DependencyHolds;
    HonestPick(f, d, chals[pick.0], proofs[pick.0], c, pick.1);
  }

  /** Honest commits pass: for any number of honestly generated files, any challenges of the shape
      CommitChallenges gives them, and any random picks, no check fails and no slice is overrun. */
  lemma HonestCommitsAccepted(f: FileId, d: nat, chals: seq<seq<int>>, proofs: seq<seq<CommitProof>>,
                              commits: seq<Commit>, picks: seq<(nat, nat)>)
    requires f.Ok() && f.e.N == Pow2(d) && |chals| == |proofs| == |commits|
    requires forall i :: 0 <= i < |chals| ==> HonestOne(f, d, chals[i], proofs[i], commits[i])
    requires forall k :: 0 <= k < |picks| ==> picks[k].0 < |proofs| && picks[k].1 < |proofs[picks[k].0]| - 1
    ensures AllShaped(f, chals, proofs, commits) && AllAccepted(f, chals, proofs, commits)
    ensures DependenciesHold(f, chals, proofs, picks)
  {
    hide HonestOne, OneShaped, OneAccepted, OneBuffer, FileBuffer, PickHolds, BufferSize, Pow2;
    forall i | 0 <= i < |chals| ensures OneShaped(f, chals[i], proofs[i], commits[i]) {
      HonestOneAccepted(f, d, chals[i], proofs[i], commits[i], Zeros(BufferSize(f)));
    }
    forall i | 0 <= i < |chals| ensures AcceptedAt(f, chals, proofs, commits, i) {
      HonestOneAccepted(f, d, chals[i], proofs[i], commits[i], FileBuffer(f, chals, proofs, commits, i));
    }
    forall k | 0 <= k < |picks| ensures PickHolds(f, chals, proofs, picks[k]) {
      HonestPickHolds(f, d, chals, proofs, commits[picks[k].0], picks[k]);
    }
  }
}
