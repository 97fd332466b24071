/** Labels of whole files, which are the elements of the accumulator, and the checks of the proofs
    about them (pois/verify.go), on values. */
module FileLabels {
  import opened ByteStrings
  import opened Buffers
  import opened Hashing
  import opened FlatAcc
  import opened Forest
  import opened WitnessChain
  import opened AccProofs
  import opened Wrappers
  import opened MerklePath
  import opened IdleFile
  import opened CommitProving
  import opened CommitChecking

  datatype AccProof = AccProof(Indexs: seq<int>, Labels: seq<Bytes>, WitChains: WitnessNode, AccPath: seq<Bytes>)

  datatype DeletionProof = DeletionProof(Roots: seq<Bytes>, WitChain: WitnessNode, AccPath: seq<Bytes>)

  /** The label of file number count with this top root. */
  function FileLabel(f: FileId, count: int, root: Bytes): Bytes {
    Digest(f.hash, f.id + Int64(count) + root)
  }

  function LabelSize(f: FileId): nat {
    |f.id| + 8 + HASH_SIZE
  }

  /** What CopyData makes of the label buffer. */
  function LabelBytes(f: FileId, buf: Bytes, count: int, root: Bytes): (r: Bytes)
    ensures |r| == |buf|
  {
    Copied(buf, 0, [f.id, Int64(count), root])
  }

  /** With a root of the right size nothing is left of what the buffer held. */
  lemma LabelBytesFit(f: FileId, buf: Bytes, count: int, root: Bytes)
    requires |buf| == LabelSize(f) && |root| == HASH_SIZE
    ensures LabelBytes(f, buf, count, root) == f.id + Int64(count) + root
    ensures Digest(f.hash, LabelBytes(f, buf, count, root)) == FileLabel(f, count, root)
  {
    ConcatThree(f.id, Int64(count), root);
    CopiedFits(buf, 0, [f.id, Int64(count), root]);
  }

  lemma ConcatThree(a: Bytes, b: Bytes, c: Bytes)
    ensures Concat([a, b, c]) == a + b + c
  {
    assert [c][1..] == [] && [b, c][1..] == [c] && [a, b, c][1..] == [b, c];
    assert Concat([c]) == c + Concat([]) == c;
    assert Concat([b, c]) == b + c;
  }

  // ---------- additions ----------

  /** What VerifyAcc needs so as not to run out of a slice. */
  predicate AccShaped(f: FileId, chals: seq<seq<int>>, proof: AccProof, commits: seq<Commit>)
    requires f.Ok()
  {
    && |chals| == |commits| == |proof.Indexs| <= |proof.Labels|
    && forall i :: 0 <= i < |chals| ==> FileShaped(f, chals[i], commits[i])
  }

  predicate FileShaped(f: FileId, chal: seq<int>, c: Commit)
    requires f.Ok()
  {
    |chal| >= 1 && |c.Roots| > f.e.K
  }

  /** The reused label buffer after i files. */
  function LabelBuffer(f: FileId, chals: seq<seq<int>>, proof: AccProof, commits: seq<Commit>, i: nat): (r: Bytes)
    requires f.Ok() && AccShaped(f, chals, proof, commits) && i <= |chals|
    ensures |r| == LabelSize(f)
  {
    if i == 0 then Zeros(LabelSize(f))
    else LabelBytes(f, LabelBuffer(f, chals, proof, commits, i - 1), chals[i - 1][0], commits[i - 1].Roots[f.e.K])
  }

  predicate LabelMatches(f: FileId, chals: seq<seq<int>>, proof: AccProof, commits: seq<Commit>, i: nat)
    requires f.Ok() && AccShaped(f, chals, proof, commits) && i < |chals|
  {
    && chals[i][0] == proof.Indexs[i]
    && Digest(f.hash, LabelBuffer(f, chals, proof, commits, i + 1)) == proof.Labels[i]
  }

  /** An addition is accepted: the first labels are those of the challenged files, and the accumulator
      grows by all labels of the proof, which may be more. */
  predicate AccAccepted(key: Key, f: FileId, chals: seq<seq<int>>, proof: AccProof, commits: seq<Commit>, acc: Bytes)
    requires f.Ok() && AccShaped(f, chals, proof, commits)
  {
    && (forall i :: 0 <= i < |chals| ==> LabelMatches(f, chals, proof, commits, i))
    && ProvesInsert(key, proof.WitChains, proof.Labels, proof.AccPath, acc)
  }

  lemma LabelBufferStep(f: FileId, chals: seq<seq<int>>, proof: AccProof, commits: seq<Commit>, i: nat)
    requires f.Ok() && AccShaped(f, chals, proof, commits) && i < |chals|
    ensures |chals| == |commits| == |proof.Indexs| <= |proof.Labels| && |chals[i]| >= 1
    ensures |commits[i].Roots| > f.e.K >= 0
    ensures LabelBuffer(f, chals, proof, commits, i + 1)
            == LabelBytes(f, LabelBuffer(f, chals, proof, commits, i), chals[i][0], commits[i].Roots[f.e.K])
    ensures LabelMatches(f, chals, proof, commits, i)
            <==> chals[i][0] == proof.Indexs[i]
                 && Digest(f.hash, LabelBuffer(f, chals, proof, commits, i + 1)) == proof.Labels[i]
  {
    hide LabelBytes, Digest, Length;
  }

  lemma LabelBufferStart(f: FileId, chals: seq<seq<int>>, proof: AccProof, commits: seq<Commit>)
    requires f.Ok() && AccShaped(f, chals, proof, commits)
    ensures LabelBuffer(f, chals, proof, commits, 0) == Zeros(LabelSize(f))
  {
  }

  /** The files before i could be checked, and if all can, they are accepted and the buffer is as expected. */
  ghost predicate LabelsDone(f: FileId, chals: seq<seq<int>>, proof: AccProof, commits: seq<Commit>, i: nat,
                             content: Bytes)
    requires f.Ok() && i <= |chals| == |commits|
  {
    && i <= |proof.Labels| && (forall k :: 0 <= k < i ==> FileShaped(f, chals[k], commits[k]))
    && (AccShaped(f, chals, proof, commits) ==>
          && content == LabelBuffer(f, chals, proof, commits, i)
          && forall k :: 0 <= k < i ==> LabelMatches(f, chals, proof, commits, k))
  }

  ghost predicate LabelsMatch(f: FileId, chals: seq<seq<int>>, proof: AccProof, commits: seq<Commit>)
    requires f.Ok()
  {
    AccShaped(f, chals, proof, commits) && forall i :: 0 <= i < |chals| ==> LabelMatches(f, chals, proof, commits, i)
  }

  /** File i can be checked. */
  predicate LabelShaped(f: FileId, chals: seq<seq<int>>, proof: AccProof, commits: seq<Commit>, i: nat)
    requires f.Ok() && i < |chals| == |commits|
  {
    FileShaped(f, chals[i], commits[i]) && i < |proof.Labels|
  }

  /** Index and label of file i are right, when the label buffer holds this before. */
  predicate LabelMatch(f: FileId, chals: seq<seq<int>>, proof: AccProof, commits: seq<Commit>, i: nat, buf: Bytes)
    requires f.Ok() && i < |chals| == |commits| == |proof.Indexs| && LabelShaped(f, chals, proof, commits, i)
  {
    && chals[i][0] == proof.Indexs[i]
    && Digest(f.hash, LabelBytes(f, buf, chals[i][0], commits[i].Roots[f.e.K])) == proof.Labels[i]
  }

  lemma LabelsNext(f: FileId, chals: seq<seq<int>>, proof: AccProof, commits: seq<Commit>, i: nat, content: Bytes)
    requires f.Ok() && i < |chals| == |commits| == |proof.Indexs| && LabelsDone(f, chals, proof, commits, i, content)
    ensures AccShaped(f, chals, proof, commits) ==> LabelShaped(f, chals, proof, commits, i)
    ensures LabelShaped(f, chals, proof, commits, i) ==>
              if LabelMatch(f, chals, proof, commits, i, content)
              then LabelsDone(f, chals, proof, commits, i + 1,
                              LabelBytes(f, content, chals[i][0], commits[i].Roots[f.e.K]))
              else !LabelsMatch(f, chals, proof, commits)
    ensures !LabelShaped(f, chals, proof, commits, i) ==> !LabelsMatch(f, chals, proof, commits)
  {
    hide LabelBytes, Digest, LabelMatches, LabelBuffer;
    if AccShaped(f, chals, proof, commits) {
      LabelBufferStep(f, chals, proof, commits, i);
    }
  }

  lemma LabelsStart(f: FileId, chals: seq<seq<int>>, proof: AccProof, commits: seq<Commit>)
    requires f.Ok() && |chals| == |commits|
    ensures LabelsDone(f, chals, proof, commits, 0, Zeros(LabelSize(f)))
  {
    if AccShaped(f, chals, proof, commits) {
      LabelBufferStart(f, chals, proof, commits);
    }
  }

  lemma LabelsEnd(f: FileId, chals: seq<seq<int>>, proof: AccProof, commits: seq<Commit>, content: Bytes)
    requires f.Ok() && |chals| == |commits| == |proof.Indexs| && LabelsDone(f, chals, proof, commits, |chals|, content)
    ensures LabelsMatch(f, chals, proof, commits)
  {
    hide FileShaped, LabelMatches, LabelBuffer;
  }

  /** The body of the loop over the files. */
  method CheckLabel(f: FileId, chals: seq<seq<int>>, proof: AccProof, commits: seq<Commit>, i: nat,
                    content: array<byte>)
    returns (r: Verdict)
    requires f.Ok() && i < |chals| == |commits| == |proof.Indexs|
    modifies content
    ensures r.Accepted? <==>
              LabelShaped(f, chals, proof, commits, i) && LabelMatch(f, chals, proof, commits, i, old(content[..]))
    ensures r.Accepted? ==> content[..] == LabelBytes(f, old(content[..]), chals[i][0], commits[i].Roots[f.e.K])
    ensures r.Panicked? ==> !LabelShaped(f, chals, proof, commits, i)
  {
    hide LabelBytes, Digest;
    if |chals[i]| < 1 {
      return Panicked;
    }
    if chals[i][0] != proof.Indexs[i] {
      return Rejected(BadFileIndex);
    }
    if |commits[i].Roots| <= f.e.K {
      return Panicked;
    }
    SetLabel(f, content, chals[i][0], commits[i].Roots[f.e.K]);
    if i >= |proof.Labels| {
      return Panicked;
    }
    return if Digest(f.hash, content[..]) == proof.Labels[i] then Accepted else Rejected(BadFileLabel);
  }

  /** The loop over the files. */
  method CheckLabels(f: FileId, chals: seq<seq<int>>, proof: AccProof, commits: seq<Commit>, content: array<byte>)
    returns (r: Verdict)
    requires f.Ok() && |chals| == |commits| == |proof.Indexs| && content[..] == Zeros(LabelSize(f))
    modifies content
    ensures r.Accepted? <==> LabelsMatch(f, chals, proof, commits)
    ensures r.Panicked? ==> !AccShaped(f, chals, proof, commits)
  {
    hide AccShaped, LabelShaped, LabelMatch, LabelsDone, LabelsMatch, LabelBytes, LabelSize;
    LabelsStart(f, chals, proof, commits);
    for i := 0 to |chals|
      invariant LabelsDone(f, chals, proof, commits, i, content[..])
    {
      LabelsNext(f, chals, proof, commits, i, content[..]);
      r := CheckLabel(f, chals, proof, commits, i, content);
      if !r.Accepted? {
        return;
      }
    }
    LabelsEnd(f, chals, proof, commits, content[..]);
    return Accepted;
  }

  /** The part of VerifyAcc that checks. */
  method CheckAcc(key: Key, f: FileId, chals: seq<seq<int>>, proof: AccProof, commits: seq<Commit>, acc: Bytes)
    returns (r: Verdict)
    requires f.Ok() && |chals| == |commits| == |proof.Indexs|
    ensures r.Accepted? <==> AccShaped(f, chals, proof, commits) && AccAccepted(key, f, chals, proof, commits, acc)
    ensures r.Panicked? ==> !AccShaped(f, chals, proof, commits) || Length(proof.WitChains) > |proof.AccPath|
  {
    hide ProvesInsert, Length, LabelMatches, AccShaped;
    var content := NewLabel(f);
    r := CheckLabels(f, chals, proof, commits, content);
    if !r.Accepted? {
      return;
    }
    var ok := VerifyInsertUpdate(key, proof.WitChains, proof.Labels, proof.AccPath, acc);
    r := Judged(ok);
  }

  // ---------- which labels an accepted addition adds ----------

  /** The labels of the challenged files, from the committed roots. */
  function CommittedLabels(f: FileId, chals: seq<seq<int>>, commits: seq<Commit>): (labels: seq<Bytes>)
    requires f.Ok() && CommitsFit(f, chals, commits)
    ensures |labels| == |chals|
  {
    seq(|chals|, i requires 0 <= i < |chals| => CommittedLabel(f, chals[i], commits[i]))
  }

  function CommittedLabel(f: FileId, chal: seq<int>, c: Commit): Bytes
    requires f.Ok() && CommitFits(f, chal, c)
  {
    FileLabel(f, chal[0], c.Roots[f.e.K])
  }

  /** Each challenge names a file, and the top roots have the size of a hash. */
  predicate CommitsFit(f: FileId, chals: seq<seq<int>>, commits: seq<Commit>)
    requires f.Ok()
  {
    |chals| == |commits| && forall i :: 0 <= i < |chals| ==> CommitFits(f, chals[i], commits[i])
  }

  predicate CommitFits(f: FileId, chal: seq<int>, c: Commit)
    requires f.Ok()
  {
    FileShaped(f, chal, c) && |c.Roots[f.e.K]| == HASH_SIZE
  }

  lemma MatchesCommitted(f: FileId, chals: seq<seq<int>>, proof: AccProof, commits: seq<Commit>, i: nat)
    requires f.Ok() && AccShaped(f, chals, proof, commits) && CommitsFit(f, chals, commits) && i < |chals|
    ensures LabelMatches(f, chals, proof, commits, i)
            <==> chals[i][0] == proof.Indexs[i] && proof.Labels[i] == CommittedLabel(f, chals[i], commits[i])
  {
    hide LabelBytes, LabelBuffer, FileLabel, Digest;
    LabelBufferStep(f, chals, proof, commits, i);
    assert CommitFits(f, chals[i], commits[i]);
    LabelBytesFit(f, LabelBuffer(f, chals, proof, commits, i), chals[i][0], commits[i].Roots[f.e.K]);
  }

  /** An accepted proof names the labels of the challenged files first. */
  lemma BeginsWithCommitted(key: Key, f: FileId, chals: seq<seq<int>>, proof: AccProof, commits: seq<Commit>,
                            acc: Bytes)
    requires f.Ok() && AccShaped(f, chals, proof, commits) && AccAccepted(key, f, chals, proof, commits, acc)
    requires CommitsFit(f, chals, commits)
    ensures proof.Labels[..|chals|] == CommittedLabels(f, chals, commits)
  {
    hide LabelMatches, CommittedLabel, CommitFits, ProvesInsert;
    forall i | 0 <= i < |chals| ensures proof.Labels[i] == CommittedLabel(f, chals[i], commits[i]) {
      MatchesCommitted(f, chals, proof, commits, i);
    }
  }

  /** With the chain of the verifier's tree and a value for each of its nodes, an accepted proof makes the
      accumulator that of the tree with all labels of the proof added; these are the labels of the
      challenged files, and no more, if and only if there are as many as challenges. */
  lemma GrowsByCommitted(key: Key, f: FileId, chals: seq<seq<int>>, proof: AccProof, commits: seq<Commit>, t: Groups)
    requires f.Ok() && WellFormed(t) && AccShaped(f, chals, proof, commits) && CommitsFit(f, chals, commits)
    requires AccAccepted(key, f, chals, proof, commits, RootValue(key, t))
    requires proof.WitChains == InsertChain(key, t) && |proof.AccPath| == DEFAULT_LEVEL
    ensures proof.Labels != []
    ensures proof.AccPath[DEFAULT_LEVEL - 1] == RootValue(key, Append(t, proof.Labels))
    ensures Elements(Append(t, proof.Labels)) == Elements(t) + proof.Labels
    ensures Elements(Append(t, proof.Labels)) == Elements(t) + CommittedLabels(f, chals, commits)
            <==> |proof.Labels| == |chals|
  {
    hide LabelMatches, CommittedLabel, CommitFits, InsertChain, RootValue, Append, Elements, WellFormed;
    BeginsWithCommitted(key, f, chals, proof, commits, RootValue(key, t));
    LabelsNeeded(key, proof, RootValue(key, t));
    InsertAccepted(key, t, proof.Labels, proof.AccPath);
    LastIsRoot(key, Append(t, proof.Labels), proof.AccPath);
    AppendElements(t, proof.Labels);
    assert |proof.Labels| == |chals| ==> proof.Labels[..|chals|] == proof.Labels;
  }

  lemma LabelsNeeded(key: Key, proof: AccProof, acc: Bytes)
    requires ProvesInsert(key, proof.WitChains, proof.Labels, proof.AccPath, acc)
    ensures proof.Labels != []
  {
  }

  lemma LastIsRoot(key: Key, t: Groups, accs: seq<Bytes>)
    requires WellFormed(t) && t != [] && accs == PathValues(key, t)
    ensures |accs| == DEFAULT_LEVEL && accs[DEFAULT_LEVEL - 1] == RootValue(key, t)
  {
    hide RootValue, GroupValue, AccValue;
  }

  /** Labels behind those of the challenged files are not looked at: whatever the tree and whatever the
      further label, the honest chain and values for the longer list make a proof that is accepted, too,
      and the accumulator takes the further label in. */
  lemma StrayLabelAccepted(key: Key, f: FileId, chals: seq<seq<int>>, proof: AccProof, commits: seq<Commit>, t: Groups,
                           stray: Bytes)
    requires f.Ok() && WellFormed(t) && AccShaped(f, chals, proof, commits) && CommitsFit(f, chals, commits)
    requires AccAccepted(key, f, chals, proof, commits, RootValue(key, t))
    ensures var after := Append(t, proof.Labels + [stray]);
            var longer := AccProof(proof.Indexs, proof.Labels + [stray], InsertChain(key, t), PathValues(key, after));
            && AccShaped(f, chals, longer, commits)
            && AccAccepted(key, f, chals, longer, commits, RootValue(key, t))
            && |longer.AccPath| == DEFAULT_LEVEL && longer.AccPath[DEFAULT_LEVEL - 1] == RootValue(key, after)
  {
    hide LabelMatches, CommitFits, CommittedLabel, ProvesInsert, InsertChain, RootValue, PathValues, Append, WellFormed;
    var labels := proof.Labels + [stray];
    var accs := PathValues(key, Append(t, labels));
    var longer := AccProof(proof.Indexs, labels, InsertChain(key, t), accs);
    LastIsRoot(key, Append(t, labels), accs);
    InsertAccepted(key, t, labels, accs);
    forall i | 0 <= i < |chals| ensures LabelMatches(f, chals, longer, commits, i) {
      MatchesCommitted(f, chals, proof, commits, i);
      MatchesCommitted(f, chals, longer, commits, i);
    }
  }

  /** Values behind those for the nodes of the chain are not looked at either, though VerifyAcc takes the
      last one for the new accumulator: whatever that value, the longer list is accepted. */
  lemma ExtraValueAccepted(key: Key, f: FileId, chals: seq<seq<int>>, proof: AccProof, commits: seq<Commit>, acc: Bytes,
                           extra: Bytes)
    requires f.Ok() && AccShaped(f, chals, proof, commits) && CommitsFit(f, chals, commits)
    requires AccAccepted(key, f, chals, proof, commits, acc)
    ensures var longer := AccProof(proof.Indexs, proof.Labels, proof.WitChains, proof.AccPath + [extra]);
            && AccShaped(f, chals, longer, commits) && AccAccepted(key, f, chals, longer, commits, acc)
            && longer.AccPath[|longer.AccPath| - 1] == extra
  {
    hide LabelMatches, CommitFits, CommittedLabel, ProvesInsert;
    var longer := AccProof(proof.Indexs, proof.Labels, proof.WitChains, proof.AccPath + [extra]);
    MoreValues(key, proof.WitChains, proof.Labels, proof.AccPath, acc, extra);
    forall i | 0 <= i < |chals| ensures LabelMatches(f, chals, longer, commits, i) {
      MatchesCommitted(f, chals, proof, commits, i);
      MatchesCommitted(f, chals, longer, commits, i);
    }
  }

  lemma MoreValues(key: Key, w: WitnessNode, elems: seq<Bytes>, accs: seq<Bytes>, acc: Bytes, extra: Bytes)
    requires ProvesInsert(key, w, elems, accs, acc)
    ensures ProvesInsert(key, w, elems, accs + [extra], acc)
  {
    hide ProvesMembership, FirstExisting, Extended;
    forall k | 0 <= k < Length(w) - 1 ensures InsertStep(key, w, accs + [extra], k) {
      assert InsertStep(key, w, accs, k);
    }
  }

  /** The verdict that a chain check leads to. */
  function Judged(ok: Option<bool>): (r: Verdict)
    ensures r.Accepted? <==> ok == Some(true)
    ensures r.Panicked? <==> ok == None
  {
    match ok
    case Some(b) => if b then Accepted else Rejected(BadAccProof)
    case None => Panicked
  }

  method NewLabel(f: FileId) returns (content: array<byte>)
    ensures fresh(content) && content[..] == Zeros(LabelSize(f))
  {
    content := new byte[LabelSize(f)](_ => 0);
    assert content[..] == Zeros(LabelSize(f));
  }

  method SetLabel(f: FileId, content: array<byte>, count: int, root: Bytes)
    modifies content
    ensures content[..] == LabelBytes(f, old(content[..]), count, root)
  {
    hide Copied;
    CopyData(content, [f.id, Int64(count), root]);
  }

  // ---------- deletions ----------

  /** File numbers go up to count. */
  function DeletedNumber(roots: seq<Bytes>, count: int, i: nat): int {
    count - (|roots| - i - 1)
  }

  function DeletedLabel(f: FileId, roots: seq<Bytes>, count: int, i: nat): Bytes
    requires i < |roots|
  {
    Digest(f.hash, LabelBytes(f, Zeros(LabelSize(f)), DeletedNumber(roots, count, i), roots[i]))
  }

  /** The labels VerifyDeletion computes: file numbers up to count, each in a buffer of its own. */
  function DeletedLabels(f: FileId, roots: seq<Bytes>, count: int): (labels: seq<Bytes>)
    ensures |labels| == |roots|
  {
    seq(|roots|, i requires 0 <= i < |roots| => DeletedLabel(f, roots, count, i))
  }

  method ComputeDeletedLabel(f: FileId, roots: seq<Bytes>, count: int, i: nat) returns (l: Bytes)
    requires i < |roots|
    ensures l == DeletedLabel(f, roots, count, i)
  {
    hide LabelBytes, Digest, DeletedNumber, Zeros, LabelSize;
    var content := NewLabel(f);
    SetLabel(f, content, DeletedNumber(roots, count, i), roots[i]);
    l := Digest(f.hash, content[..]);
  }

  method ComputeDeletedLabels(f: FileId, roots: seq<Bytes>, count: int) returns (labels: seq<Bytes>)
    ensures labels == DeletedLabels(f, roots, count)
  {
    hide DeletedLabel;
    labels := [];
    for i := 0 to |roots|
      invariant |labels| == i && forall k :: 0 <= k < i ==> labels[k] == DeletedLabel(f, roots, count, k)
    {
      var l := ComputeDeletedLabel(f, roots, count, i);
      labels := labels + [l];
    }
  }

  // ---------- space ----------

  datatype SpaceProof = SpaceProof(Proofs: seq<MhtProof>, Roots: seq<Bytes>, WitChains: seq<WitnessNode>)

  /** What VerifySpace needs so as not to run out of a slice or into a nil chain. */
  predicate SpaceShaped(chals: seq<seq<int>>, proof: SpaceProof) {
    |chals| == |proof.Roots| && forall i :: 0 <= i < |chals| ==> SpaceShapedAt(chals, proof, i)
  }

  predicate SpaceShapedAt(chals: seq<seq<int>>, proof: SpaceProof, i: nat)
    requires i < |chals|
  {
    |chals[i]| >= 2 && i < |proof.Proofs| && i < |proof.WitChains| && proof.WitChains[i].Node?
  }

  /** The reused label buffer after i challenges. */
  function SpaceBuffer(f: FileId, chals: seq<seq<int>>, proof: SpaceProof, i: nat): (r: Bytes)
    requires SpaceShaped(chals, proof) && i <= |chals|
    ensures |r| == LabelSize(f)
  {
    if i == 0 then Zeros(LabelSize(f))
    else
      assert SpaceShapedAt(chals, proof, i - 1);
      LabelBytes(f, SpaceBuffer(f, chals, proof, i - 1), chals[i - 1][0], proof.Roots[i - 1])
  }

  /** A challenge is met: a label under the root, and the file label with this root is an element. */
  predicate SpaceMatches(key: Key, f: FileId, chals: seq<seq<int>>, proof: SpaceProof, acc: Bytes, i: nat)
    requires SpaceShaped(chals, proof) && i < |chals|
  {
    assert SpaceShapedAt(chals, proof, i);
    && chals[i][1] == proof.Proofs[i].Index
    && AcceptsPath(f.hash, proof.Roots[i], proof.Proofs[i].Label, proof.Proofs[i].Path())
    && Digest(f.hash, SpaceBuffer(f, chals, proof, i + 1)) == proof.WitChains[i].Elem
    && ProvesMembership(key, proof.WitChains[i], acc)
  }

  lemma SpaceStep(key: Key, f: FileId, chals: seq<seq<int>>, proof: SpaceProof, acc: Bytes, i: nat)
    requires SpaceShaped(chals, proof) && i < |chals|
    ensures |chals| == |proof.Roots| && SpaceShapedAt(chals, proof, i)
    ensures SpaceBuffer(f, chals, proof, i + 1)
            == LabelBytes(f, SpaceBuffer(f, chals, proof, i), chals[i][0], proof.Roots[i])
    ensures SpaceMatches(key, f, chals, proof, acc, i)
            <==> SpaceMatch(key, f, chals, proof, acc, i, SpaceBuffer(f, chals, proof, i))
  {
    hide LabelBytes, Digest, AcceptsPath, ProvesMembership;
    assert SpaceShapedAt(chals, proof, i);
  }

  /** Challenge i is met, when the label buffer holds this before. */
  predicate SpaceMatch(key: Key, f: FileId, chals: seq<seq<int>>, proof: SpaceProof, acc: Bytes, i: nat, buf: Bytes)
    requires i < |chals| == |proof.Roots| && SpaceShapedAt(chals, proof, i)
  {
    && chals[i][1] == proof.Proofs[i].Index
    && AcceptsPath(f.hash, proof.Roots[i], proof.Proofs[i].Label, proof.Proofs[i].Path())
    && Digest(f.hash, LabelBytes(f, buf, chals[i][0], proof.Roots[i])) == proof.WitChains[i].Elem
    && ProvesMembership(key, proof.WitChains[i], acc)
  }

  ghost predicate SpaceAccepted(key: Key, f: FileId, chals: seq<seq<int>>, proof: SpaceProof, acc: Bytes) {
    SpaceShaped(chals, proof) && forall i :: 0 <= i < |chals| ==> SpaceMatches(key, f, chals, proof, acc, i)
  }

  /** The challenges before i could be looked at, and if all can, they are met and the buffer is as expected. */
  ghost predicate SpaceDone(key: Key, f: FileId, chals: seq<seq<int>>, proof: SpaceProof, acc: Bytes, i: nat,
                            content: Bytes)
    requires i <= |chals| == |proof.Roots|
  {
    && (forall k :: 0 <= k < i ==> SpaceShapedAt(chals, proof, k))
    && (SpaceShaped(chals, proof) ==>
          && content == SpaceBuffer(f, chals, proof, i)
          && forall k :: 0 <= k < i ==> SpaceMatches(key, f, chals, proof, acc, k))
  }

  lemma SpaceStart(key: Key, f: FileId, chals: seq<seq<int>>, proof: SpaceProof, acc: Bytes)
    requires |chals| == |proof.Roots|
    ensures SpaceDone(key, f, chals, proof, acc, 0, Zeros(LabelSize(f)))
  {
  }

  lemma SpaceNext(key: Key, f: FileId, chals: seq<seq<int>>, proof: SpaceProof, acc: Bytes, i: nat, content: Bytes)
    requires i < |chals| == |proof.Roots| && SpaceDone(key, f, chals, proof, acc, i, content)
    ensures SpaceShaped(chals, proof) ==> SpaceShapedAt(chals, proof, i)
    ensures SpaceShapedAt(chals, proof, i) ==>
              if SpaceMatch(key, f, chals, proof, acc, i, content)
              then SpaceDone(key, f, chals, proof, acc, i + 1, LabelBytes(f, content, chals[i][0], proof.Roots[i]))
              else !SpaceAccepted(key, f, chals, proof, acc)
    ensures !SpaceShapedAt(chals, proof, i) ==> !SpaceAccepted(key, f, chals, proof, acc)
  {
    hide LabelBytes, SpaceMatch, SpaceMatches, SpaceBuffer, SpaceShapedAt;
    if SpaceShaped(chals, proof) {
      SpaceStep(key, f, chals, proof, acc, i);
    }
  }

  lemma SpaceEnd(key: Key, f: FileId, chals: seq<seq<int>>, proof: SpaceProof, acc: Bytes, content: Bytes)
    requires |chals| == |proof.Roots| && SpaceDone(key, f, chals, proof, acc, |chals|, content)
    ensures SpaceAccepted(key, f, chals, proof, acc)
  {
    hide SpaceMatches, SpaceBuffer, SpaceShapedAt;
  }

  /** The body of VerifySpace's loop. */
  method CheckChallenge(key: Key, f: FileId, chals: seq<seq<int>>, proof: SpaceProof, acc: Bytes, i: nat,
                        content: array<byte>)
    returns (r: Verdict)
    requires i < |chals| == |proof.Roots|
    modifies content
    ensures r.Accepted? <==>
              SpaceShapedAt(chals, proof, i) && SpaceMatch(key, f, chals, proof, acc, i, old(content[..]))
    ensures r.Accepted? ==> content[..] == LabelBytes(f, old(content[..]), chals[i][0], proof.Roots[i])
    ensures r.Panicked? ==> !SpaceShapedAt(chals, proof, i)
  {
    hide LabelBytes, Digest, AcceptsPath, ProvesMembership;
    if |chals[i]| < 2 || i >= |proof.Proofs| {
      return Panicked;
    }
    if chals[i][1] != proof.Proofs[i].Index {
      return Rejected(BadFileIndex);
    }
    var found := VerifyPathProof(f.hash, proof.Roots[i], proof.Proofs[i].Label, proof.Proofs[i].Path());
    if !found {
      return Rejected(BadPath);
    }
    SetLabel(f, content, chals[i][0], proof.Roots[i]);
    if i >= |proof.WitChains| || proof.WitChains[i].Nil? {
      return Panicked;
    }
    if Digest(f.hash, content[..]) != proof.WitChains[i].Elem {
      return Rejected(BadFileLabel);
    }
    var member := VerifyMutilevelAcc(key, proof.WitChains[i], acc);
    return if member then Accepted else Rejected(BadAccProof);
  }

  /** The part of VerifySpace behind the lookup and the check of sizes. */
  method CheckSpaceProof(key: Key, f: FileId, chals: seq<seq<int>>, proof: SpaceProof, acc: Bytes) returns (r: Verdict)
    requires |chals| == |proof.Roots|
    ensures r.Accepted? <==> SpaceAccepted(key, f, chals, proof, acc)
    ensures r.Panicked? ==> !SpaceShaped(chals, proof)
  {
    hide SpaceShaped, SpaceShapedAt, SpaceMatch, SpaceAccepted, SpaceDone, LabelBytes;
    var content := NewLabel(f);
    SpaceStart(key, f, chals, proof, acc);
    for i := 0 to |chals|
      invariant SpaceDone(key, f, chals, proof, acc, i, content[..])
    {
      SpaceNext(key, f, chals, proof, acc, i, content[..]);
      r := CheckChallenge(key, f, chals, proof, acc, i, content);
      if !r.Accepted? {
        return;
      }
    }
    SpaceEnd(key, f, chals, proof, acc, content[..]);
    return Accepted;
  }
}
