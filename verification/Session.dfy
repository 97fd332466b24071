/** Prover and verifier together (test/pois_test.go): commits, challenges, commit proofs, accumulator
    updates, and a deletion at the end. */
module Session {
  import opened ByteStrings
  import opened Hashing
  import opened FlatAcc
  import opened Forest
  import opened WitnessChain
  import opened AccProofs
  import opened MultiLevelAcc
  import AccService
  import opened CalcParents
  import opened LightMerkle
  import opened MerklePath
  import opened IdleFile
  import opened CommitProving
  import opened CommitChecking
  import opened FileLabels
  import opened Verifying
  import opened Proving

  // ---------- honest files, commits and labels ----------

  function HonestCommit(f: FileId, i: int, d: nat): Commit
    requires f.Ok() && f.e.N == Pow2(d)
  {
    Commit(i, FileOf(f, i).Roots(d))
  }

  /** The commits of the n files after start. */
  function HonestCommits(f: FileId, start: int, n: nat, d: nat): (cs: seq<Commit>)
    requires f.Ok() && f.e.N == Pow2(d)
    ensures |cs| == n
  {
    seq(n, i requires 0 <= i < n => HonestCommit(f, start + 1 + i, d))
  }

  function HonestLabel(f: FileId, i: int, d: nat): Bytes
    requires f.Ok() && f.e.N == Pow2(d)
  {
    FileLabel(f, i, TopRoot(f, i, d))
  }

  /** The labels of the n files after start. */
  function HonestLabels(f: FileId, start: int, n: nat, d: nat): (ls: seq<Bytes>)
    requires f.Ok() && f.e.N == Pow2(d)
    ensures |ls| == n
  {
    seq(n, i requires 0 <= i < n => HonestLabel(f, start + 1 + i, d))
  }

  /** The files there are hold what GenerateIdleFile wrote. */
  ghost predicate HonestDisk(f: FileId, layers: LabelFiles, commits: CommitFiles, d: nat)
    requires f.Ok() && f.e.N == Pow2(d)
  {
    && (forall i: int :: FilesOf(FileOf(f, i), layers))
    && forall i :: i in commits ==> commits[i] == FileOf(f, i).Roots(d)
  }

  lemma HonestDiskFacts(f: FileId, layers: LabelFiles, commits: CommitFiles, d: nat)
    requires f.Ok() && f.e.N == Pow2(d) && HonestDisk(f, layers, commits, d)
    ensures HonestTops(f, layers) && RootsComplete(f.e, commits)
  {
    hide FileId.LayerLabels, FileId.Roots, Pow2;
    forall i | HasLayer(layers, f.e.K, i) ensures layers[(i, f.e.K)] == FileOf(f, i).LayerLabels(f.e.K) {
      TrueLabels(FileOf(f, i), layers, f.e.K);
    }
  }

  lemma TopRootSize(f: FileId, i: int, d: nat)
    requires f.Ok() && f.e.N == Pow2(d)
    ensures |TopRoot(f, i, d)| == HASH_SIZE && FileOf(f, i).Roots(d)[f.e.K] == TopRoot(f, i, d)
  {
    hide FileId.LayerLabels, Hashed, MerkleRoot;
    var g := FileOf(f, i);
    RootOfRoots(g, d, f.e.K);
    TwoLeavesAtLeast(f, d);
    HashSize(f);
    RootIsDigest(f.hash, Hashed(f.hash, g.LayerLabels(f.e.K)), d);
  }

  /** An honest commit passes the check of ReceiveCommits. */
  lemma HonestCommitValid(f: FileId, i: int, d: nat)
    requires f.Ok() && f.e.N == Pow2(d)
    ensures ValidCommit(f, HonestCommit(f, i, d))
  {
    hide FileId.LayerRoots, Concat, Digest, Pow2, Expanders.Ok;
    var g := FileOf(f, i);
    RootsAre(g, d);
    assert g.Roots(d)[..f.e.K + 1] == g.LayerRoots(f.e.K + 1, d);
  }

  lemma {:induction false} HonestPrefix(f: FileId, cs: seq<Commit>, i: nat)
    requires f.Ok() && i <= |cs| && forall k :: 0 <= k < |cs| ==> ValidCommit(f, cs[k])
    ensures ValidPrefix(f, cs, i) == |cs|
    decreases |cs| - i
  {
    if i < |cs| {
      HonestPrefix(f, cs, i + 1);
    }
  }

  lemma HonestFile(f: FileId, layers: LabelFiles, commits: CommitFiles, i: int, d: nat)
    requires f.Ok() && f.e.N == Pow2(d) && HonestDisk(f, layers, commits, d) && i in commits
    ensures |commits[i]| > f.e.K >= 0
    ensures FileLabel(f, i, commits[i][f.e.K]) == HonestLabel(f, i, d) && Commit(i, commits[i]) == HonestCommit(f, i, d)
  {
    hide FileLabel, TopRoot, Pow2;
    TopRootSize(f, i, d);
  }

  lemma LabelsOfAt(f: FileId, files: CommitFiles, indexs: seq<int>, i: nat)
    requires RootsComplete(f.e, files) && AllThere(files, indexs) && i < |indexs|
    ensures indexs[i] in files && |files[indexs[i]]| > f.e.K >= 0
    ensures LabelsOf(f, files, indexs)[i] == FileLabel(f, indexs[i], files[indexs[i]][f.e.K])
  {
    hide FileLabel, Expanders.Ok;
    var x := indexs[i];
    assert x in files && |files[x]| == f.e.K + 2;
  }

  /** What the prover reads for the n files after start are the honest labels and commits. */
  lemma HonestRead(f: FileId, commits: CommitFiles, layers: LabelFiles, start: int, n: nat, d: nat)
    requires f.Ok() && f.e.N == Pow2(d) && HonestDisk(f, layers, commits, d) && AllThere(commits, Numbers(start, n))
    ensures RootsComplete(f.e, commits)
    ensures LabelsOf(f, commits, Numbers(start, n)) == HonestLabels(f, start, n, d)
    ensures CommitsOf(commits, Numbers(start, n)) == HonestCommits(f, start, n, d)
  {
    hide FileLabel, HonestLabel, HonestCommit, HonestDisk, LabelsOf, RootsComplete, Pow2, Expanders.Ok;
    HonestDiskFacts(f, layers, commits, d);
    var s, a, b := Numbers(start, n), LabelsOf(f, commits, Numbers(start, n)), HonestLabels(f, start, n, d);
    forall i | 0 <= i < n ensures a[i] == b[i] && CommitsOf(commits, s)[i] == HonestCommits(f, start, n, d)[i] {
      assert s[i] == start + 1 + i;
      LabelsOfAt(f, commits, s, i);
      HonestFile(f, layers, commits, s[i], d);
    }
  }

  lemma HonestLabelsConcat(f: FileId, n: nat, m: nat, total: nat, d: nat)
    requires f.Ok() && f.e.N == Pow2(d) && total == n + m
    ensures HonestLabels(f, 0, n, d) + HonestLabels(f, n, m, d) == HonestLabels(f, 0, total, d)
  {
    hide HonestLabel, Expanders.Ok;
  }

  lemma HonestCommitsDrop(f: FileId, start: int, n: nat, m: nat, d: nat)
    requires f.Ok() && f.e.N == Pow2(d) && m <= n
    ensures HonestCommits(f, start, n, d)[..m] == HonestCommits(f, start, m, d)
    ensures HonestCommits(f, start, n, d)[m..] == HonestCommits(f, start + m, n - m, d)
  {
    hide HonestCommit, Expanders.Ok;
  }

  lemma HonestCommitsConcat(f: FileId, start: int, n: nat, m: nat, d: nat)
    requires f.Ok() && f.e.N == Pow2(d)
    ensures HonestCommits(f, start, n, d) + HonestCommits(f, start + n, m, d) == HonestCommits(f, start, n + m, d)
  {
    hide HonestCommit, Expanders.Ok;
  }

  // ---------- honest accumulator proofs pass ----------

  /** An addition proof with honest labels, for the num files after start. */
  predicate HonestAddition(key: Key, f: FileId, start: int, chals: seq<seq<int>>, proof: AccProof, acc: Bytes, d: nat)
    requires f.Ok() && f.e.N == Pow2(d)
  {
    && 0 < |chals| && (forall i :: 0 <= i < |chals| ==> |chals[i]| >= 1 && chals[i][0] == start + 1 + i)
    && proof.Indexs == Numbers(start, |chals|) && proof.Labels == HonestLabels(f, start, |chals|, d)
    && |proof.AccPath| == DEFAULT_LEVEL == Length(proof.WitChains)
    && ProvesInsert(key, proof.WitChains, proof.Labels, proof.AccPath, acc)
  }

  lemma CommitsSized(f: FileId, start: int, n: nat, d: nat, i: nat)
    requires f.Ok() && f.e.N == Pow2(d) && i < n
    ensures |HonestCommits(f, start, n, d)[i].Roots| == f.e.K + 2
  {
    hide HonestCommit, Pow2, Expanders.Ok;
    CommitSize(f, start + 1 + i, d);
    assert HonestCommits(f, start, n, d)[i] == HonestCommit(f, start + 1 + i, d);
  }

  lemma HonestAdditionShaped(key: Key, f: FileId, start: int, chals: seq<seq<int>>, proof: AccProof, acc: Bytes, d: nat)
    requires f.Ok() && f.e.N == Pow2(d) && HonestAddition(key, f, start, chals, proof, acc, d)
    ensures AccShaped(f, chals, proof, HonestCommits(f, start, |chals|, d))
  {
    hide ProvesInsert, Length, HonestCommits, HonestLabels, Pow2, Expanders.Ok;
    var commits := HonestCommits(f, start, |chals|, d);
    forall i | 0 <= i < |chals| ensures |chals[i]| >= 1 && |commits[i].Roots| > f.e.K {
      CommitsSized(f, start, |chals|, d, i);
    }
  }

  lemma CommitSize(f: FileId, i: int, d: nat)
    requires f.Ok() && f.e.N == Pow2(d)
    ensures |HonestCommit(f, i, d).Roots| == f.e.K + 2
    ensures HonestCommit(f, i, d).Roots[f.e.K] == TopRoot(f, i, d) && HonestCommit(f, i, d).FileIndex == i
  {
    hide TopRoot, Expanders.Ok;
    TopRootSize(f, i, d);
  }

  /** What the verifier computes from an honest commit is the honest label. */
  lemma HonestCommitted(f: FileId, chal: seq<int>, d: nat)
    requires f.Ok() && f.e.N == Pow2(d) && |chal| >= 1
    ensures CommitFits(f, chal, HonestCommit(f, chal[0], d))
    ensures CommittedLabel(f, chal, HonestCommit(f, chal[0], d)) == HonestLabel(f, chal[0], d)
  {
    hide TopRoot, FileLabel, HonestCommit, Pow2, Expanders.Ok;
    CommitSize(f, chal[0], d);
    TopRootSize(f, chal[0], d);
  }

  lemma HonestCommittedIn(f: FileId, start: int, chals: seq<seq<int>>, d: nat, i: nat)
    requires f.Ok() && f.e.N == Pow2(d) && i < |chals| && |chals[i]| >= 1 && chals[i][0] == start + 1 + i
    ensures CommitFits(f, chals[i], HonestCommits(f, start, |chals|, d)[i])
    ensures CommittedLabel(f, chals[i], HonestCommits(f, start, |chals|, d)[i]) == HonestLabels(f, start, |chals|, d)[i]
  {
    hide CommitFits, CommittedLabel, HonestLabel, HonestCommit, Pow2, Expanders.Ok;
    HonestCommitted(f, chals[i], d);
    assert HonestCommits(f, start, |chals|, d)[i] == HonestCommit(f, chals[i][0], d);
    assert HonestLabels(f, start, |chals|, d)[i] == HonestLabel(f, chals[i][0], d);
  }

  /** An honest addition is accepted. */
  lemma HonestAdditionAccepted(key: Key, f: FileId, start: int, chals: seq<seq<int>>, proof: AccProof, acc: Bytes,
                               d: nat)
    requires f.Ok() && f.e.N == Pow2(d) && HonestAddition(key, f, start, chals, proof, acc, d)
    ensures AccShaped(f, chals, proof, HonestCommits(f, start, |chals|, d))
    ensures AccAccepted(key, f, chals, proof, HonestCommits(f, start, |chals|, d), acc)
  {
    hide ProvesInsert, Length, AccShaped, LabelMatches, HonestCommits, HonestLabels, CommitFits, CommittedLabel, Pow2,
         Expanders.Ok;
    HonestAdditionShaped(key, f, start, chals, proof, acc, d);
    var commits := HonestCommits(f, start, |chals|, d);
    forall i | 0 <= i < |chals| ensures CommitFits(f, chals[i], commits[i]) {
      HonestCommittedIn(f, start, chals, d, i);
    }
    forall i | 0 <= i < |chals| ensures LabelMatches(f, chals, proof, commits, i) {
      HonestCommittedIn(f, start, chals, d, i);
      MatchesCommitted(f, chals, proof, commits, i);
    }
  }

  // ---------- deletion ----------

  lemma DeletedLabelHonest(f: FileId, start: int, n: nat, count: int, d: nat, i: nat, k: int)
    requires f.Ok() && f.e.N == Pow2(d) && i < n && count == start + n && k == start + 1 + i
    ensures DeletedLabel(f, TopRoots(f, Numbers(start, n), d), count, i) == HonestLabel(f, k, d)
  {
    hide LabelBytes, FileLabel, TopRoot, Digest, Pow2, Expanders.Ok;
    assert Numbers(start, n)[i] == k;
    TopRootSize(f, k, d);
    LabelBytesFit(f, Zeros(LabelSize(f)), k, TopRoot(f, k, d));
  }

  /** What VerifyDeletion computes from the top roots of the last n files are their labels. */
  lemma DeletedLabelsHonest(f: FileId, start: int, n: nat, count: int, d: nat)
    requires f.Ok() && f.e.N == Pow2(d) && count == start + n
    ensures DeletedLabels(f, TopRoots(f, Numbers(start, n), d), count) == HonestLabels(f, start, n, d)
  {
    hide DeletedLabel, HonestLabel, TopRoots, Pow2, Expanders.Ok;
    var a, b := DeletedLabels(f, TopRoots(f, Numbers(start, n), d), count), HonestLabels(f, start, n, d);
    forall i | 0 <= i < n ensures a[i] == b[i] {
      DeletedLabelHonest(f, start, n, count, d, i, start + 1 + i);
    }
  }

  lemma DeletedAreLast(t: Groups, n: nat)
    requires WellFormed(t) && t != [] && n <= LastCount(t)
    ensures n <= |Elements(t)| && Deleted(t, n) == Elements(t)[|Elements(t)| - n..]
  {
    ChunksLast(t);
  }

  /** If the elements are the labels of the files so far, the deleted ones are those of the last n. */
  lemma DeletedHonest(f: FileId, t: Groups, start: nat, n: nat, count: nat, d: nat)
    requires f.Ok() && f.e.N == Pow2(d) && WellFormed(t) && t != [] && n <= LastCount(t) && count == start + n
    requires Elements(t) == HonestLabels(f, 0, count, d)
    ensures Deleted(t, n) == HonestLabels(f, start, n, d)
  {
    hide WellFormed, Elements, HonestLabel, Deleted, Pow2, Expanders.Ok;
    DeletedAreLast(t, n);
    HonestLabelsConcat(f, start, n, count, d);
  }

  // ---------- the state both sides keep in step ----------

  ghost predicate AccOk(acc: MutiLevelAcc)
    reads acc, acc.Accs, acc.Nodes, acc.store, acc.snapshot
    reads if acc.snapshot == null then {} else {acc.snapshot.Accs} + acc.snapshot.Nodes
  {
    acc.Valid() && acc.FilesComplete()
  }

  /** The prover's side: an accumulator in order, and files as generated. */
  ghost predicate ProverOk(p: Prover, d: nat)
    reads p`Count, p`layerFiles, p`commitFiles, p.AccManager, p.AccManager.Accs, p.AccManager.Nodes,
          p.AccManager.store, p.AccManager.snapshot
    reads if p.AccManager.snapshot == null then {} else {p.AccManager.snapshot.Accs} + p.AccManager.snapshot.Nodes
  {
    && p.Me().Ok() && p.e.N == Pow2(d) && p.Count >= 0
    && AccOk(p.AccManager) && DiskOk(p, d)
  }

  ghost predicate DiskOk(p: Prover, d: nat)
    requires p.Me().Ok() && p.e.N == Pow2(d)
    reads p`Count, p`layerFiles, p`commitFiles
  {
    DiskFine(p.Me(), p.OnDisk(), p.Count, d)
  }

  ghost predicate DiskFine(f: FileId, disk: Disk, count: int, d: nat)
    requires f.Ok() && f.e.N == Pow2(d)
  {
    HonestDisk(f, disk.layers, disk.commits, d) && TopsKept(f, disk.layers, disk.commits, count)
  }

  /** The files 1 to count and those with a commit file have their top layer. */
  ghost predicate TopsKept(f: FileId, layers: LabelFiles, commits: CommitFiles, count: int) {
    forall i :: 1 <= i <= count || i in commits ==> HasLayer(layers, f.e.K, i)
  }

  lemma TopsThere(f: FileId, layers: LabelFiles, commits: CommitFiles, count: int, numbers: seq<int>)
    requires TopsKept(f, layers, commits, count) && forall i :: 0 <= i < |numbers| ==> 1 <= numbers[i] <= count
    ensures HasTops(layers, f.e.K, numbers)
  {
    hide HasLayer, Expanders.Ok;
  }

  lemma LayersNonneg(f: FileId)
    requires f.Ok()
    ensures f.e.K >= 0
  {
  }

  lemma TopBefore(f: FileId, layers: LabelFiles, commits: CommitFiles, count: int, num: nat, i: int)
    requires TopsKept(f, layers, commits, count) && AllThere(commits, Numbers(count, num))
    requires 1 <= i <= count + num || i in commits
    ensures HasLayer(layers, f.e.K, i)
  {
    hide HasLayer, Expanders.Ok;
    if count < i <= count + num {
      assert Numbers(count, num)[i - count - 1] == i;
    }
  }

  /** UpdateCount, for files whose commit files were there, keeps all top layers. */
  lemma TopsCounted(f: FileId, before: Disk, count: int, num: nat, after: Disk, count': int, first: int, last: int)
    requires f.Ok() && TopsKept(f, before.layers, before.commits, count)
    requires AllThere(before.commits, Numbers(count, num))
    requires count' == count + num && after == before.Organized(f.e.K, first, last)
    ensures TopsKept(f, after.layers, after.commits, count')
  {
    hide Disk.Organized, AllThere, Numbers, Expanders.Ok;
    LayersNonneg(f);
    before.OnlyDeletes(f.e.K, first, last);
    forall i | 1 <= i <= count' || i in after.commits ensures HasLayer(after.layers, f.e.K, i) {
      TopBefore(f, before.layers, before.commits, count, num, i);
      before.TopsStay(f.e.K, first, last, i);
    }
  }

  /** What prover and verifier have to agree on: the prover's count, how many files it has committed,
      its accumulator's elements and value; the verifier's count, waiting commits and accumulator. */
  datatype Ledger = Ledger(count: int, commited: int, elements: seq<Bytes>, value: Bytes,
                           checkedCount: int, waiting: seq<Commit>, acc: Bytes, slots: int) {
    /** The verifier has the prover's accumulator value and count, its elements are the labels of the
        files 1 to count, the commits of the next files wait in order, and every counted file has used
        up a slot of the commit buffer. */
    ghost predicate Agrees(f: FileId, d: nat)
      requires f.Ok() && f.e.N == Pow2(d)
    {
      && 0 <= checkedCount == count && commited == checkedCount + |waiting|
      && waiting == HonestCommits(f, checkedCount, |waiting|, d)
      && acc == value && elements == HonestLabels(f, 0, checkedCount, d)
      && slots == MAX_BUF_SIZE - checkedCount
    }

    lemma Parts(f: FileId, d: nat)
      requires f.Ok() && f.e.N == Pow2(d) && Agrees(f, d)
      ensures 0 <= checkedCount == count && waiting == HonestCommits(f, checkedCount, |waiting|, d) && acc == value
    {
    }

    lemma Exchanged(f: FileId, d: nat, m: nat)
      requires f.Ok() && f.e.N == Pow2(d) && Agrees(f, d)
      ensures this.(commited := commited + m, waiting := waiting + HonestCommits(f, commited, m, d)).Agrees(f, d)
    {
      hide HonestCommits, HonestLabels, Pow2;
      HonestCommitsConcat(f, checkedCount, |waiting|, m, d);
    }

    /** m more files are in, and the accumulator has this value. */
    ghost function AfterSettling(f: FileId, d: nat, m: nat, value': Bytes): Ledger
      requires f.Ok() && f.e.N == Pow2(d) && m <= |waiting|
    {
      Ledger(count + m, commited, elements + HonestLabels(f, count, m, d), value', count + m, waiting[m..], value',
             slots - m)
    }

    lemma Settled(f: FileId, d: nat, m: nat, value': Bytes)
      requires f.Ok() && f.e.N == Pow2(d) && Agrees(f, d) && m <= |waiting|
      ensures AfterSettling(f, d, m, value').Agrees(f, d)
    {
      hide HonestCommits, HonestLabels, Pow2;
      HonestCommitsDrop(f, checkedCount, |waiting|, m, d);
      HonestLabelsConcat(f, checkedCount, m, checkedCount + m, d);
    }
  }

  ghost function LedgerOf(p: Prover, n: ProverNode): Ledger
    requires n.Valid()
    reads p`Count, p`Commited, p.AccManager, p.AccManager.Accs, n
  {
    Ledger(p.Count, p.Commited, Elements(p.AccManager.Contents), p.AccManager.Accs.Value, n.Count, n.Waiting(), n.Acc,
           |n.CommitsBuf|)
  }

  lemma LedgerIs(p: Prover, n: ProverNode, l: Ledger)
    requires n.Valid() && l.count == p.Count && l.commited == p.Commited
    requires l.elements == Elements(p.AccManager.Contents)
    requires l.value == p.AccManager.Accs.Value && l.checkedCount == n.Count && l.waiting == n.Waiting()
    requires l.acc == n.Acc && l.slots == |n.CommitsBuf|
    ensures LedgerOf(p, n) == l
  {
  }

  ghost predicate Agree(p: Prover, n: ProverNode, d: nat)
    reads p`Count, p`Commited, p.AccManager, p.AccManager.Accs, n
  {
    p.Me().Ok() && p.e.N == Pow2(d) && n.Valid() && LedgerOf(p, n).Agrees(p.Me(), d)
  }

  /** The verifier knows this prover, and both use the same key, graph and hash. */
  ghost predicate Paired(p: Prover, v: Verifier)
    reads v
  {
    && v.key == p.AccManager.key && v.Miner(p.ID) == p.Me()
    && p.ID in v.Nodes && v.Nodes[p.ID].ID == p.ID
  }

  // ---------- generating files ----------

  /** All label files of number i are there. */
  predicate LayersThere(f: FileId, layers: LabelFiles, i: int) {
    forall l :: 0 <= l <= f.e.K ==> HasLayer(layers, l, i)
  }

  /** Everything a round for the n files after start needs is there. */
  predicate FilesThere(f: FileId, layers: LabelFiles, commits: CommitFiles, start: int, n: nat) {
    AllThere(commits, Numbers(start, n)) && forall i :: 0 <= i < n ==> LayersThere(f, layers, Numbers(start, n)[i])
  }

  /** A newly generated file leaves the directory honest. */
  lemma GeneratedHonest(f: FileId, layers: LabelFiles, commits: CommitFiles, i: int, d: nat)
    requires f.Ok() && f.e.N == Pow2(d) && HonestDisk(f, layers, commits, d)
    ensures HonestDisk(f, WithLayers(layers, i, FileOf(f, i).Layers(f.e.K + 1)), commits[i := FileOf(f, i).Roots(d)], d)
  {
    hide FileId.LayerLabels, FileId.Roots, Pow2;
    var made := FileOf(f, i).Layers(f.e.K + 1);
    var after := WithLayers(layers, i, made);
    forall k: int ensures FilesOf(FileOf(f, k), after) {
      assert FilesOf(FileOf(f, k), layers);
      forall l: nat | Has(FileOf(f, k), after, l) ensures Read(FileOf(f, k), after, l) == FileOf(f, k).LayerLabels(l) {
        if k == i {
          assert after[(i, l)] == made[l];
        } else {
          assert Has(FileOf(f, k), layers, l);
        }
      }
    }
  }

  /** All of the new file's layers are there, and those of other files still are. */
  lemma GeneratedThere(f: FileId, layers: LabelFiles, i: int, k: int)
    requires f.Ok() && (k == i || LayersThere(f, layers, k))
    ensures LayersThere(f, WithLayers(layers, i, FileOf(f, i).Layers(f.e.K + 1)), k)
  {
    hide FileId.Layers;
    LayerKeys(layers, i, FileOf(f, i).Layers(f.e.K + 1));
  }

  lemma GeneratedTops(f: FileId, layers: LabelFiles, commits: CommitFiles, count: int, i: int, roots: seq<Bytes>)
    requires f.Ok() && TopsKept(f, layers, commits, count)
    ensures TopsKept(f, WithLayers(layers, i, FileOf(f, i).Layers(f.e.K + 1)), commits[i := roots], count)
  {
    hide FileId.Layers;
    LayerKeys(layers, i, FileOf(f, i).Layers(f.e.K + 1));
  }

  lemma LayerKeys(layers: LabelFiles, i: int, made: seq<seq<Bytes>>)
    ensures forall l, k ::
              HasLayer(WithLayers(layers, i, made), l, k)
              <==> if k == i then 0 <= l < |made| else HasLayer(layers, l, k)
  {
  }

  method MakeFile(p: Prover, i: int, ghost d: nat)
    requires p.Me().Ok() && p.e.N == Pow2(d) && DiskOk(p, d) && i > 0
    modifies p`layerFiles, p`commitFiles, p`Generated
    ensures DiskOk(p, d) && p.Generated == old(p.Generated) + 1
    ensures forall k :: k == i || k in old(p.commitFiles) ==> k in p.commitFiles
    ensures forall k :: k == i || LayersThere(p.Me(), old(p.layerFiles), k) ==> LayersThere(p.Me(), p.layerFiles, k)
  {
    hide HonestDisk, TopsKept, FileId.Layers, FileId.Roots, WithLayers, LayersThere, Pow2, Expanders.Ok;
    ghost var f, before := p.Me(), p.layerFiles;
    GeneratedHonest(f, p.layerFiles, p.commitFiles, i, d);
    GeneratedTops(f, p.layerFiles, p.commitFiles, p.Count, i, FileOf(f, i).Roots(d));
    p.MakeIdleFile(i, d);
    assert p.layerFiles == WithLayers(before, i, FileOf(f, i).Layers(f.e.K + 1));
    forall k | k == i || LayersThere(f, before, k) ensures LayersThere(f, p.layerFiles, k) {
      GeneratedThere(f, before, i, k);
    }
  }

  lemma AgreeParts(p: Prover, n: ProverNode, d: nat)
    requires p.Me().Ok() && p.e.N == Pow2(d) && Agree(p, n, d)
    ensures n.Valid() && n.Waiting() == HonestCommits(p.Me(), n.Count, n.BufSize, d) && 0 <= n.Count == p.Count
    ensures n.Acc == p.AccManager.Accs.Value && Elements(p.AccManager.Contents) == HonestLabels(p.Me(), 0, n.Count, d)
    ensures |n.CommitsBuf| == MAX_BUF_SIZE - n.Count && p.Commited == n.Count + n.BufSize
  {
    hide HonestCommits, HonestLabels, Elements, Expanders.Ok;
  }

  // ---------- commits ----------

  /** Honest commits are all taken that the limit allows. */
  lemma HonestCommitsTaken(f: FileId, n: ProverNode, start: int, m: nat, d: nat)
    requires f.Ok() && f.e.N == Pow2(d) && n.Valid() && n.BufSize + m <= MAX_BUF_SIZE
    ensures n.Taken(f, HonestCommits(f, start, m, d)) == HonestCommits(f, start, m, d)
    ensures n.HasRoom(f, HonestCommits(f, start, m, d)) <==> n.BufSize + m <= |n.CommitsBuf|
    ensures Clip(HonestCommits(f, start, m, d), n.BufSize) == HonestCommits(f, start, m, d)
  {
    hide HonestCommit, ValidCommit, Pow2, Expanders.Ok;
    var cs := HonestCommits(f, start, m, d);
    forall k | 0 <= k < |cs| ensures ValidCommit(f, cs[k]) {
      HonestCommitValid(f, start + 1 + k, d);
    }
    HonestPrefix(f, cs, 0);
  }

  /** In step with the prover, the verifier has room for the next m commits and takes them all if and only
      if no more than 64 files are committed in all. */
  lemma RoomIff(p: Prover, n: ProverNode, m: nat, d: nat)
    requires p.Me().Ok() && p.e.N == Pow2(d) && Agree(p, n, d)
    ensures var commits := HonestCommits(p.Me(), p.Commited, m, d);
            n.Valid() && (n.HasRoom(p.Me(), commits) && n.Taken(p.Me(), commits) == commits
                          <==> p.Commited + m <= MAX_BUF_SIZE)
  {
    hide HonestCommits, HonestLabels, Elements, Ledger.Agrees, ValidCommit, Pow2, Expanders.Ok;
    AgreeParts(p, n, d);
    if n.BufSize + m <= MAX_BUF_SIZE {
      HonestCommitsTaken(p.Me(), n, p.Commited, m, d);
    }
  }

  lemma ProverGraph(p: Prover, d: nat)
    requires ProverOk(p, d)
    ensures p.Me().Ok() && p.e.N == Pow2(d)
  {
  }

  lemma ProverBasics(p: Prover, d: nat)
    requires ProverOk(p, d)
    ensures p.Me().Ok() && p.e.N == Pow2(d) && p.Count >= 0
    ensures p.AccManager.Valid() && p.AccManager.FilesComplete()
    ensures HonestDisk(p.Me(), p.layerFiles, p.commitFiles, d) && TopsKept(p.Me(), p.layerFiles, p.commitFiles, p.Count)
    ensures HonestTops(p.Me(), p.layerFiles) && RootsComplete(p.e, p.commitFiles)
  {
    hide MutiLevelAcc.Valid, MutiLevelAcc.FilesComplete, Expanders.Ok;
    HonestDiskFacts(p.Me(), p.layerFiles, p.commitFiles, d);
  }

  /** The prover's half: honest commits of the next files. */
  method SendCommits(p: Prover, num: nat, ghost d: nat) returns (commits: seq<Commit>, ok: bool)
    requires ProverOk(p, d)
    modifies p`Commited
    ensures ok <==>
              p.Generated > old(p.Commited) && AllThere(p.commitFiles, Numbers(old(p.Commited), old(p.Available(num))))
    ensures !ok ==> p.Commited == old(p.Commited)
    ensures ok ==>
              && 0 <= old(p.Available(num)) <= num && p.Commited == old(p.Commited) + old(p.Available(num))
              && commits == HonestCommits(p.Me(), old(p.Commited), old(p.Available(num)), d)
  {
    hide HonestCommits, HonestLabels, HonestDisk, Pow2, MutiLevelAcc.Valid, MutiLevelAcc.FilesComplete, CommitsOf,
         AllThere, Numbers, Expanders.Ok;
    ghost var start, m := p.Commited, p.Available(num);
    commits, ok := p.GetCommits(num);
    if ok {
      HonestRead(p.Me(), p.commitFiles, p.layerFiles, start, m, d);
    }
  }

  /** The verifier's half: with room in the buffer honest commits are all taken. */
  method TakeCommits(v: Verifier, ID: Bytes, commits: seq<Commit>, ghost start: int, ghost d: nat)
    requires v.Miner(ID).Ok() && v.e.N == Pow2(d) && ID in v.Nodes && v.Nodes[ID].ID == ID && v.Nodes[ID].Valid()
    requires commits == HonestCommits(v.Miner(ID), start, |commits|, d)
    requires v.Nodes[ID].BufSize + |commits| <= MAX_BUF_SIZE
    requires v.Nodes[ID].BufSize + |commits| <= |v.Nodes[ID].CommitsBuf|
    modifies v.Nodes[ID]
    ensures v.Nodes[ID].Valid() && v.Nodes[ID].Acc == old(v.Nodes[ID].Acc)
    ensures v.Nodes[ID].Count == old(v.Nodes[ID].Count)
    ensures |v.Nodes[ID].CommitsBuf| == old(|v.Nodes[ID].CommitsBuf|)
    ensures v.Nodes[ID].Waiting() == old(v.Nodes[ID].Waiting()) + commits
  {
    hide HonestCommits, Pow2, Clip, Expanders.Ok;
    HonestCommitsTaken(v.Miner(ID), v.Nodes[ID], start, |commits|, d);
    var ok := v.ReceiveCommits(ID, commits);
  }

  /** GetCommits and ReceiveCommits, with room in the buffer: either the prover has nothing to send,
      or the verifier takes it all. */
  method ExchangeCommits(p: Prover, v: Verifier, num: nat, ghost d: nat) returns (ok: bool)
    requires ProverOk(p, d) && Paired(p, v) && Agree(p, v.Nodes[p.ID], d)
    requires p.Commited + num <= MAX_BUF_SIZE
    modifies p`Commited, v.Nodes[p.ID]
    ensures ProverOk(p, d) && Agree(p, v.Nodes[p.ID], d) && v.Nodes[p.ID].Count == old(v.Nodes[p.ID].Count)
    ensures ok <==>
              p.Generated > old(p.Commited) && AllThere(p.commitFiles, Numbers(old(p.Commited), old(p.Available(num))))
    ensures v.Nodes[p.ID].BufSize == old(v.Nodes[p.ID].BufSize) + if ok then old(p.Available(num)) else 0
  {
    hide ProverOk, HonestCommits, HonestLabels, HonestDisk, TopsKept, HonestTops, RootsComplete, Elements, Pow2,
         Ledger.Agrees, AllThere, Numbers, MutiLevelAcc.Valid, MutiLevelAcc.FilesComplete, Expanders.Ok;
    ProverBasics(p, d);
    AgreeParts(p, v.Nodes[p.ID], d);
    ghost var before, start, m := LedgerOf(p, v.Nodes[p.ID]), p.Commited, p.Available(num);
    var commits;
    commits, ok := SendCommits(p, num, d);
    if ok {
      before.Exchanged(p.Me(), d, m);
      TakeCommits(v, p.ID, commits, start, d);
      assert LedgerOf(p, v.Nodes[p.ID])
             == before.(commited := before.commited + m, waiting := before.waiting + commits);
      assert LedgerOf(p, v.Nodes[p.ID]).Agrees(p.Me(), d);
    } else {
      assert LedgerOf(p, v.Nodes[p.ID]) == before;
      assert before.Agrees(p.Me(), d);
    }
  }

  // ---------- challenges and commit proofs ----------

  /** The random pick: one of n files, and one of its first K nodes when there are any. */
  predicate PickFor(e: Expanders, n: int, pick: (nat, nat)) {
    pick.0 < n && (e.K >= 1 ==> pick.1 < e.K)
  }

  /** Random draws for n files, and the node that is picked. */
  predicate DrawsFor(e: Expanders, n: int, draws: seq<(int, seq<int>)>, pick: (nat, nat)) {
    |draws| == n && (forall i :: 0 <= i < |draws| ==> Drawn(e, draws[i])) && PickFor(e, n, pick)
  }

  /** Challenges of the right shape for the files after start. */
  predicate InOrder(f: FileId, start: int, chals: seq<seq<int>>) {
    forall i :: 0 <= i < |chals| ==> IsChallenge(f.e, chals[i]) && |chals[i]| >= 2 && chals[i][0] == start + 1 + i
  }

  lemma ChallengeAskable(f: FileId, layers: LabelFiles, commits: CommitFiles, chal: seq<int>, d: nat)
    requires f.Ok() && f.e.N == Pow2(d) && HonestDisk(f, layers, commits, d) && IsChallenge(f.e, chal) && |chal| >= 2
    ensures Askable(f, layers, chal)
  {
    hide Walkable, FilesOf, FileId.Roots, Pow2, Expanders.Ok;
    ChallengeIsWalkable(ForFile(f, chal), chal);
    assert FilesOf(FileOf(f, chal[0]), layers);
    assert ForFile(f, chal) == FileOf(f, chal[0]);
  }

  lemma HonestOneIs(f: FileId, d: nat, chal: seq<int>, ps: seq<CommitProof>)
    requires f.Ok() && f.e.N == Pow2(d) && IsChallenge(f.e, chal) && |chal| >= 2 && Answers(f, d, chal, ps)
    ensures HonestOne(f, d, chal, ps, HonestCommit(f, chal[0], d)) && |ps| == f.e.K + 1
  {
    hide FileId.Roots, IsFileProof, Pow2, Expanders.Ok;
    FileProofSize(ForFile(f, chal), d, chal, ps);
  }

  lemma HonestOneIn(f: FileId, d: nat, start: int, chals: seq<seq<int>>, proofs: seq<seq<CommitProof>>, i: nat)
    requires f.Ok() && f.e.N == Pow2(d) && InOrder(f, start, chals) && i < |chals| == |proofs|
    requires Answers(f, d, chals[i], proofs[i])
    ensures HonestOne(f, d, chals[i], proofs[i], HonestCommits(f, start, |chals|, d)[i])
    ensures |proofs[i]| == f.e.K + 1
  {
    hide IsChallenge, HonestOne, HonestCommit, Answers, Pow2, Expanders.Ok;
    HonestOneIs(f, d, chals[i], proofs[i]);
  }

  /** Honest proofs for the files in order pass every check against the honest commits. */
  lemma CommitRoundAccepted(f: FileId, d: nat, start: int, chals: seq<seq<int>>, proofs: seq<seq<CommitProof>>,
                            pick: (nat, nat))
    requires f.Ok() && f.e.N == Pow2(d) && InOrder(f, start, chals) && |chals| == |proofs|
    requires forall i :: 0 <= i < |chals| ==> Answers(f, d, chals[i], proofs[i])
    requires pick.0 < |chals| && pick.1 < f.e.K
    ensures var commits := HonestCommits(f, start, |chals|, d);
            && AllShaped(f, chals, proofs, commits) && AllAccepted(f, chals, proofs, commits)
            && DependenciesHold(f, chals, proofs, [pick])
  {
    hide InOrder, Answers, HonestOne, AllShaped, AllAccepted, HonestCommits, Pow2, Expanders.Ok;
    var commits, picks := HonestCommits(f, start, |chals|, d), [pick];
    forall i | 0 <= i < |chals| ensures HonestOne(f, d, chals[i], proofs[i], commits[i]) {
      HonestOneIn(f, d, start, chals, proofs, i);
    }
    HonestOneIn(f, d, start, chals, proofs, pick.0);
    HonestCommitsAccepted(f, d, chals, proofs, commits, picks);
  }

  lemma WaitingEntry(f: FileId, n: ProverNode, d: nat, i: nat)
    requires f.Ok() && f.e.N == Pow2(d) && n.Valid() && n.Waiting() == HonestCommits(f, n.Count, n.BufSize, d)
    requires i < n.BufSize
    ensures n.CommitsBuf[i].FileIndex == n.Count + 1 + i
  {
    hide HonestCommits, Pow2, Expanders.Ok;
    assert n.CommitsBuf[i] == n.Waiting()[i];
    HonestCommitAt(f, n.Count, n.BufSize, d, i);
  }

  /** Challenges for the files after these, one for each. */
  predicate Follows(start: int, chals: seq<seq<int>>) {
    forall i :: 0 <= i < |chals| ==> |chals[i]| >= 1 && chals[i][0] == start + 1 + i
  }

  lemma InOrderFollows(f: FileId, start: int, chals: seq<seq<int>>)
    requires InOrder(f, start, chals)
    ensures Follows(start, chals)
  {
    hide IsChallenge, Expanders.Ok;
  }

  /** The challenged commits are looked for, and found, where they stand in the buffer. */
  lemma WindowChallenged(f: FileId, n: ProverNode, left: nat, chals: seq<seq<int>>, d: nat)
    requires f.Ok() && f.e.N == Pow2(d) && n.Valid() && n.Waiting() == HonestCommits(f, n.Count, n.BufSize, d)
    requires chals != [] && left + |chals| <= n.BufSize && Follows(n.Count + left, chals)
    ensures n.Addressed(chals) && n.Position(chals) == left
    ensures n.Challenged(chals) == HonestCommits(f, n.Count + left, |chals|, d)
  {
    hide HonestCommits, Pow2, Expanders.Ok;
    forall j | 0 <= j <= left ensures n.CommitsBuf[j].FileIndex == n.Count + 1 + j {
      WaitingEntry(f, n, d, j);
    }
    FirstMatchIs(n.CommitsBuf, n.BufSize, chals[0][0], 0, left);
    WindowCommits(f, n.Waiting(), n.Count, left, |chals|, n.Count + left, d);
    SliceOfPrefix(n.CommitsBuf, n.BufSize, left, left + |chals|);
  }

  lemma SliceOfPrefix<T>(s: seq<T>, k: nat, i: nat, j: nat)
    requires i <= j <= k <= |s|
    ensures s[..k][i..j] == s[i..j]
  {
  }

  lemma WindowCommits(f: FileId, waiting: seq<Commit>, count: int, left: nat, n: nat, start: int, d: nat)
    requires f.Ok() && f.e.N == Pow2(d) && waiting == HonestCommits(f, count, |waiting|, d) && left + n <= |waiting|
    requires start == count + left
    ensures waiting[left..left + n] == HonestCommits(f, start, n, d)
  {
    hide HonestCommit, Pow2, Expanders.Ok;
  }

  ghost predicate AllAnswerable(f: FileId, layers: LabelFiles, chals: seq<seq<int>>)
    requires f.Ok()
  {
    forall i :: 0 <= i < |chals| ==> Answerable(f, layers, chals[i])
  }

  lemma ChallengeAnswerable(f: FileId, layers: LabelFiles, chal: seq<int>)
    requires f.Ok() && IsChallenge(f.e, chal) && |chal| >= 2 && LayersThere(f, layers, chal[0])
    ensures Answerable(f, layers, chal)
  {
    hide FileId.Parents, Walk, Expanders.Ok;
    var g := ForFile(f, chal);
    ChallengeSize(f.e, chal);
    ChallengeIsWalkable(g, chal);
    forall t: nat | t < |chal| - 1 ensures FilesFor(g, layers, Walk(g, chal, t)) {
      WalkStaysHigh(g, chal, t);
      assert HasLayer(layers, Walk(g, chal, t) / f.e.N, chal[0]);
      assert Walk(g, chal, t) / f.e.N > 0 ==> HasLayer(layers, Walk(g, chal, t) / f.e.N - 1, chal[0]);
    }
  }

  lemma ChallengesAnswerable(f: FileId, layers: LabelFiles, commits: CommitFiles, start: int, chals: seq<seq<int>>)
    requires f.Ok() && InOrder(f, start, chals) && FilesThere(f, layers, commits, start, |chals|)
    ensures AllAnswerable(f, layers, chals)
  {
    hide IsChallenge, LayersThere, Answerable, AllThere, Expanders.Ok;
    forall i | 0 <= i < |chals| ensures Answerable(f, layers, chals[i]) {
      assert Numbers(start, |chals|)[i] == chals[i][0];
      ChallengeAnswerable(f, layers, chals[i]);
    }
  }

  /** Challenges for a stretch of the waiting commits. */
  ghost predicate Window(f: FileId, n: ProverNode, left: nat, chals: seq<seq<int>>, d: nat)
    requires f.Ok() && f.e.N == Pow2(d)
    reads n
  {
    && n.Valid() && n.Waiting() == HonestCommits(f, n.Count, n.BufSize, d)
    && 0 < |chals| && left + |chals| <= n.BufSize && InOrder(f, n.Count + left, chals)
  }

  /** CommitChallenges for the waiting commits from left to right. */
  method DrawChallenges(p: Prover, v: Verifier, left: nat, right: nat, draws: seq<(int, seq<int>)>, ghost d: nat)
    returns (chals: seq<seq<int>>)
    requires ProverOk(p, d) && Paired(p, v) && Agree(p, v.Nodes[p.ID], d)
    requires left < right <= v.Nodes[p.ID].BufSize
    requires |draws| == right - left && forall i :: 0 <= i < |draws| ==> Drawn(v.e, draws[i])
    ensures |chals| == right - left && Window(p.Me(), v.Nodes[p.ID], left, chals, d)
  {
    hide ProverOk, HonestCommits, HonestLabels, Elements, Pow2, Drawn, HonestDisk, IsChallenge, Agree, Expanders.Ok;
    ProverBasics(p, d);
    AgreeParts(p, v.Nodes[p.ID], d);
    var ok;
    chals, ok := v.CommitChallenges(p.ID, left, right, draws);
    ghost var n := v.Nodes[p.ID];
    forall i | 0 <= i < |chals|
      ensures IsChallenge(p.e, chals[i]) && |chals[i]| >= 2 && chals[i][0] == n.Count + left + 1 + i
    {
      WaitingEntry(p.Me(), n, d, left + i);
    }
  }

  lemma HonestCommitAt(f: FileId, start: int, n: nat, d: nat, i: nat)
    requires f.Ok() && f.e.N == Pow2(d) && i < n
    ensures HonestCommits(f, start, n, d)[i].FileIndex == start + 1 + i
  {
    hide HonestCommit, Pow2, Expanders.Ok;
    CommitSize(f, start + 1 + i, d);
    assert HonestCommits(f, start, n, d)[i] == HonestCommit(f, start + 1 + i, d);
  }

  /** The challenges ProveCommit has a task for. */
  function Tasks(chals: seq<seq<int>>): (r: seq<seq<int>>)
    ensures |r| <= MAX_COMMIT_PROOF_THREAD && r <= chals
    ensures |chals| <= MAX_COMMIT_PROOF_THREAD ==> r == chals
  {
    if |chals| <= MAX_COMMIT_PROOF_THREAD then chals else chals[..MAX_COMMIT_PROOF_THREAD]
  }

  /** ProveCommit for challenges in order. */
  method AnswerChallenges(p: Prover, chals: seq<seq<int>>, ghost n: ProverNode, ghost left: nat, ghost d: nat)
    returns (r: CommitProving.Result<seq<seq<CommitProof>>>)
    requires ProverOk(p, d) && Window(p.Me(), n, left, chals, d)
    ensures r.Ok? <==> AllAnswerable(p.Me(), p.layerFiles, Tasks(chals))
    ensures r.Ok? ==> AllAnswered(p.Me(), d, chals, r.value)
  {
    hide HonestDisk, TopsKept, IsChallenge, Askable, Answerable, Answers, Pow2, MutiLevelAcc.Valid,
         MutiLevelAcc.FilesComplete, Expanders.Ok;
    forall i | 0 <= i < |chals| ensures Askable(p.Me(), p.layerFiles, chals[i]) {
      ChallengeAskable(p.Me(), p.layerFiles, p.commitFiles, chals[i], d);
    }
    r := ProveCommit(p.Me(), p.layerFiles, chals, d);
    assert forall i :: 0 <= i < |Tasks(chals)| ==> Tasks(chals)[i] == chals[i];
  }

  predicate AllAnswered(f: FileId, d: nat, chals: seq<seq<int>>, proofs: seq<seq<CommitProof>>)
    requires f.Ok() && f.e.N == Pow2(d)
  {
    |chals| == |proofs| && forall i :: 0 <= i < |chals| ==> AnswerFor(f, d, chals, proofs, i)
  }

  /** The first sixteen challenges are answered, further ones get no proof. */
  predicate AnswerFor(f: FileId, d: nat, chals: seq<seq<int>>, proofs: seq<seq<CommitProof>>, i: nat)
    requires f.Ok() && f.e.N == Pow2(d) && i < |chals| == |proofs|
  {
    if i < MAX_COMMIT_PROOF_THREAD then Answers(f, d, chals[i], proofs[i]) else proofs[i] == []
  }

  /** All that VerifyCommitProofs asks for holds of honest answers for any stretch of the waiting commits. */
  lemma WindowChecks(f: FileId, n: ProverNode, left: nat, chals: seq<seq<int>>, proofs: seq<seq<CommitProof>>,
                     pick: (nat, nat), d: nat)
    requires f.Ok() && f.e.N == Pow2(d) && Window(f, n, left, chals, d) && |chals| <= MAX_COMMIT_PROOF_THREAD
    requires AllAnswered(f, d, chals, proofs) && f.e.K >= 1 && PickFor(f.e, |chals|, pick)
    ensures n.Valid() && |chals| == |proofs| <= n.BufSize
    ensures n.Checks(f, chals, proofs, [pick]) && RandomPick(f, proofs, pick)
  {
    hide HonestCommits, InOrder, Follows, Answers, AllAnswered, AllShaped, AllAccepted, DependenciesHold,
         RandomPick, ProverNode.Position, ProverNode.Addressed, FirstMatch, Pow2, Expanders.Ok;
    FewAnswered(f, d, chals, proofs);
    InOrderFollows(f, n.Count + left, chals);
    WindowChallenged(f, n, left, chals, d);
    CommitRoundAccepted(f, d, n.Count + left, chals, proofs, pick);
    PickIsRandom(f, d, n.Count + left, chals, proofs, pick);
  }

  /** VerifyCommitProofs accepts honest answers for any stretch of the waiting commits, whatever node is
      picked. */
  method CheckAnswers(v: Verifier, ID: Bytes, left: nat, chals: seq<seq<int>>, proofs: seq<seq<CommitProof>>,
                      pick: (nat, nat), ghost d: nat)
    returns (r: Verdict)
    requires v.Miner(ID).Ok() && v.e.N == Pow2(d) && ID in v.Nodes && |chals| <= MAX_COMMIT_PROOF_THREAD
    requires Window(v.Miner(ID), v.Nodes[ID], left, chals, d) && AllAnswered(v.Miner(ID), d, chals, proofs)
    requires v.e.K >= 1 && PickFor(v.e, |chals|, pick)
    ensures r.Accepted?
  {
    hide Window, AllAnswered, RandomPick, ProverNode.Valid, ProverNode.CanCheck, ProverNode.Checks, Pow2,
         Expanders.Ok;
    ghost var f := v.Miner(ID);
    WindowChecks(f, v.Nodes[ID], left, chals, proofs, pick, d);
    r := v.VerifyCommitProofs(ID, chals, proofs, [pick]);
  }

  /** VerifyCommitProofs on an honest prover's answers for any stretch of the waiting commits. */
  method JudgeAnswers(v: Verifier, ID: Bytes, left: nat, chals: seq<seq<int>>, proofs: seq<seq<CommitProof>>,
                      pick: (nat, nat), ghost d: nat)
    returns (r: Verdict)
    requires v.Miner(ID).Ok() && v.e.N == Pow2(d) && ID in v.Nodes && Window(v.Miner(ID), v.Nodes[ID], left, chals, d)
    requires AllAnswered(v.Miner(ID), d, chals, proofs) && PickFor(v.e, |chals|, pick)
    ensures r.Accepted? <==> |chals| <= MAX_COMMIT_PROOF_THREAD && v.e.K >= 1
  {
    hide Window, AllAnswered, Pow2, Expanders.Ok;
    LayersNonneg(v.Miner(ID));
    if v.e.K == 0 {
      r := CheckNoLayers(v, ID, chals, proofs, pick, left, d);
    } else if |chals| <= MAX_COMMIT_PROOF_THREAD {
      r := CheckAnswers(v, ID, left, chals, proofs, pick, d);
    } else {
      r := CheckTooMany(v, ID, chals, proofs, pick, left, d);
    }
  }

  /** More than sixteen files at once are never accepted: the seventeenth has no proof. */
  method CheckTooMany(v: Verifier, ID: Bytes, chals: seq<seq<int>>, proofs: seq<seq<CommitProof>>, pick: (nat, nat),
                      ghost left: nat, ghost d: nat)
    returns (r: Verdict)
    requires v.Miner(ID).Ok() && v.e.N == Pow2(d) && ID in v.Nodes && MAX_COMMIT_PROOF_THREAD < |chals|
    requires Window(v.Miner(ID), v.Nodes[ID], left, chals, d)
    requires AllAnswered(v.Miner(ID), d, chals, proofs) && PickFor(v.e, |chals|, pick)
    ensures !r.Accepted?
  {
    hide InOrder, Answers, AllAccepted, DependenciesHold, ProverNode.CanCheck, ProverNode.Position,
         ProverNode.Addressed, OneShaped, Pow2, Expanders.Ok;
    ghost var f, n := v.Miner(ID), v.Nodes[ID];
    PickIsRandom(f, d, n.Count + left, chals, proofs, pick);
    assert AnswerFor(f, d, chals, proofs, MAX_COMMIT_PROOF_THREAD);
    r := v.VerifyCommitProofs(ID, chals, proofs, [pick]);
    NoProofNoShape(f, chals[MAX_COMMIT_PROOF_THREAD], n.Challenged(chals)[MAX_COMMIT_PROOF_THREAD]);
  }

  /** With no layer above the lowest one nothing is ever accepted: every proof is of one node, and the
      node whose dependencies are to be checked is drawn from none. */
  method CheckNoLayers(v: Verifier, ID: Bytes, chals: seq<seq<int>>, proofs: seq<seq<CommitProof>>, pick: (nat, nat),
                       ghost left: nat, ghost d: nat)
    returns (r: Verdict)
    requires v.Miner(ID).Ok() && v.e.N == Pow2(d) && ID in v.Nodes && v.e.K == 0
    requires Window(v.Miner(ID), v.Nodes[ID], left, chals, d)
    requires AllAnswered(v.Miner(ID), d, chals, proofs) && PickFor(v.e, |chals|, pick)
    ensures !r.Accepted?
  {
    hide InOrder, Answers, AllShaped, AllAccepted, ProverNode.CanCheck, ProverNode.Position, ProverNode.Addressed, Pow2,
         Expanders.Ok;
    ghost var f, n := v.Miner(ID), v.Nodes[ID];
    PickIsRandom(f, d, n.Count + left, chals, proofs, pick);
    NoNodeToPick(f, d, n.Count + left, chals, proofs, pick);
    r := v.VerifyCommitProofs(ID, chals, proofs, [pick]);
    assert !PickHolds(f, chals, proofs, [pick][0]);
  }

  lemma NoNodeToPick(f: FileId, d: nat, start: int, chals: seq<seq<int>>, proofs: seq<seq<CommitProof>>,
                     pick: (nat, nat))
    requires f.Ok() && f.e.N == Pow2(d) && InOrder(f, start, chals) && AllAnswered(f, d, chals, proofs)
    requires pick.0 < |chals| && f.e.K == 0
    ensures !PickHolds(f, chals, proofs, pick)
  {
    hide InOrder, Answers, Pow2, DependencyHolds;
    assert AnswerFor(f, d, chals, proofs, pick.0);
    if pick.0 < MAX_COMMIT_PROOF_THREAD {
      HonestOneIn(f, d, start, chals, proofs, pick.0);
    }
  }

  lemma FewAnswered(f: FileId, d: nat, chals: seq<seq<int>>, proofs: seq<seq<CommitProof>>)
    requires f.Ok() && f.e.N == Pow2(d) && AllAnswered(f, d, chals, proofs) && |chals| <= MAX_COMMIT_PROOF_THREAD
    ensures |chals| == |proofs| && forall i :: 0 <= i < |chals| ==> Answers(f, d, chals[i], proofs[i])
  {
    hide Answers, Pow2, Expanders.Ok;
    forall i | 0 <= i < |chals| ensures Answers(f, d, chals[i], proofs[i]) {
      assert AnswerFor(f, d, chals, proofs, i);
    }
  }

  lemma NoProofNoShape(f: FileId, chal: seq<int>, c: Commit)
    requires f.Ok()
    ensures !OneShaped(f, chal, [], c)
  {
    if |chal| >= 2 {
      assert !StepOk(ForFile(f, chal), chal, [], c.Roots, 1);
    }
  }

  lemma PickIsRandom(f: FileId, d: nat, start: int, chals: seq<seq<int>>, proofs: seq<seq<CommitProof>>,
                     pick: (nat, nat))
    requires f.Ok() && f.e.N == Pow2(d) && InOrder(f, start, chals) && AllAnswered(f, d, chals, proofs)
    requires PickFor(f.e, |chals|, pick)
    ensures RandomPick(f, proofs, pick)
  {
    hide InOrder, Answers, HonestOne, HonestCommits, Pow2, Numbered;
    assert AnswerFor(f, d, chals, proofs, pick.0);
    if pick.0 < MAX_COMMIT_PROOF_THREAD {
      HonestOneIn(f, d, start, chals, proofs, pick.0);
      if |proofs[pick.0]| >= 2 {
        HonestNumbered(f, d, chals[pick.0], proofs[pick.0], HonestCommits(f, start, |chals|, d)[pick.0], pick.1);
      }
    }
  }

  // ---------- accumulator updates ----------

  /** Deleting files leaves a directory honest. */
  lemma StillHonest(f: FileId, before: Disk, after: Disk, d: nat)
    requires f.Ok() && f.e.N == Pow2(d) && HonestDisk(f, before.layers, before.commits, d)
    requires after.Within(before)
    ensures HonestDisk(f, after.layers, after.commits, d)
  {
    hide FileId.LayerLabels, FileId.Roots, Pow2, Expanders.Ok;
    forall i: int ensures FilesOf(FileOf(f, i), after.layers) {
      assert FilesOf(FileOf(f, i), before.layers);
      forall l: nat | Has(FileOf(f, i), after.layers, l)
        ensures Read(FileOf(f, i), after.layers, l) == FileOf(f, i).LayerLabels(l)
      {
        assert Has(FileOf(f, i), before.layers, l);
      }
    }
  }

  /** The prover's half: a proof with honest labels, and an accumulator that has grown by them. */
  method AddFiles(p: Prover, chals: seq<seq<int>>, ghost start: int, ghost d: nat)
    returns (proof: AccProof, status: ProofStatus)
    requires ProverOk(p, d) && 0 < |chals| <= DEFAULT_ELEMS_NUM && Follows(start, chals)
    modifies p.AccManager, p.AccManager.Nodes, p.AccManager.store
    ensures fresh(p.AccManager.Nodes - old(p.AccManager.Nodes)) && ProverOk(p, d)
    ensures status == FileMissing <==> !AllThere(p.commitFiles, Numbers(start, |chals|))
    ensures AllThere(p.commitFiles, Numbers(start, |chals|)) && !old(p.AccManager.Illegal(|chals|)) ==> status == Proved
    ensures status != Proved ==>
              && p.AccManager.Contents == old(p.AccManager.Contents)
              && p.AccManager.Accs.Value == old(p.AccManager.Accs.Value)
    ensures status == Proved ==>
              && HonestAddition(p.AccManager.key, p.Me(), start, chals, proof, old(p.AccManager.Accs.Value), d)
              && Grown(old(p.AccManager.Contents), HonestLabels(p.Me(), start, |chals|, d), p.AccManager.Contents)
              && p.AccManager.Accs.Value == proof.AccPath[DEFAULT_LEVEL - 1]
  {
    hide HonestLabels, HonestDisk, TopsKept, ProvesInsert, Length, Elements, WellFormed, Append, LabelsOf, AllThere,
         Pow2, MutiLevelAcc.Valid, MutiLevelAcc.FilesComplete, HonestTops, RootsComplete, Expanders.Ok;
    ProverBasics(p, d);
    var indexs := FileNumbers(chals);
    assert indexs == Numbers(start, |chals|);
    ghost var t := p.AccManager.Contents;
    proof, status := p.ProveAcc(indexs);
    if status == Proved {
      HonestRead(p.Me(), p.commitFiles, p.layerFiles, start, |chals|, d);
      AppendElements(t, proof.Labels);
    }
  }

  /** The tree after adding these labels. */
  ghost predicate Grown(t: Groups, labels: seq<Bytes>, t': Groups) {
    && WellFormed(t) && labels != [] && t' == Append(t, labels)
    && Elements(t') == Elements(t) + labels
  }

  /** The prover's tree is t with the labels of the num files after start added. */
  ghost predicate BatchAdded(p: Prover, t: Groups, start: int, num: nat, d: nat)
    reads p.AccManager`Contents
  {
    p.Me().Ok() && p.e.N == Pow2(d) && Grown(t, HonestLabels(p.Me(), start, num, d), p.AccManager.Contents)
  }

  method FileNumbers(chals: seq<seq<int>>) returns (indexs: seq<int>)
    requires forall i :: 0 <= i < |chals| ==> chals[i] != []
    ensures |indexs| == |chals| && forall i :: 0 <= i < |chals| ==> indexs[i] == chals[i][0]
  {
    indexs := [];
    for i := 0 to |chals|
      invariant |indexs| == i && forall k :: 0 <= k < i ==> indexs[k] == chals[k][0]
    {
      indexs := indexs + [chals[i][0]];
    }
  }

  /** The verifier's half: VerifyAcc accepts, and moves on. */
  method AcceptFiles(v: Verifier, ID: Bytes, chals: seq<seq<int>>, proof: AccProof, ghost d: nat) returns (r: Verdict)
    requires v.Miner(ID).Ok() && v.e.N == Pow2(d) && ID in v.Nodes && v.Nodes[ID].Valid()
    requires v.Nodes[ID].Waiting() == HonestCommits(v.Miner(ID), v.Nodes[ID].Count, v.Nodes[ID].BufSize, d)
    requires 0 < |chals| <= v.Nodes[ID].BufSize && Follows(v.Nodes[ID].Count, chals)
    requires HonestAddition(v.key, v.Miner(ID), v.Nodes[ID].Count, chals, proof, v.Nodes[ID].Acc, d)
    modifies v.Nodes[ID]
    ensures r.Accepted? && v.Nodes[ID].Valid()
    ensures v.Nodes[ID].Count == old(v.Nodes[ID].Count) + |chals|
    ensures v.Nodes[ID].BufSize == old(v.Nodes[ID].BufSize) - |chals|
    ensures v.Nodes[ID].Waiting() == old(v.Nodes[ID].Waiting())[|chals|..]
    ensures |v.Nodes[ID].CommitsBuf| == old(|v.Nodes[ID].CommitsBuf|) - |chals|
    ensures |proof.AccPath| == DEFAULT_LEVEL && v.Nodes[ID].Acc == proof.AccPath[DEFAULT_LEVEL - 1]
  {
    hide HonestCommits, HonestLabels, Follows, AccShaped, AccAccepted, ProvesInsert, Length, FirstMatch, Pow2,
         ProverNode.CanSettle, ProverNode.Position, ProverNode.Addressed, Expanders.Ok;
    ghost var n, buf := v.Nodes[ID], v.Nodes[ID].CommitsBuf;
    WindowChallenged(v.Miner(ID), n, 0, chals, d);
    HonestAdditionAccepted(v.key, v.Miner(ID), n.Count, chals, proof, n.Acc, d);
    AdditionSizes(v.key, v.Miner(ID), n.Count, chals, proof, n.Acc, d);
    r := v.VerifyAcc(ID, chals, proof);
    assert n.CommitsBuf == buf[|chals|..];
  }

  lemma AdditionSizes(key: Key, f: FileId, start: int, chals: seq<seq<int>>, proof: AccProof, acc: Bytes, d: nat)
    requires f.Ok() && f.e.N == Pow2(d) && HonestAddition(key, f, start, chals, proof, acc, d)
    ensures |proof.Indexs| == |chals| && |proof.AccPath| == DEFAULT_LEVEL
  {
  }

  /** UpdateCount, seen from the ledger: the count follows, and what is on the disk stays honest. */
  method RaiseCount(p: Prover, num: nat, ghost d: nat)
    requires p.Me().Ok() && p.e.N == Pow2(d) && DiskOk(p, d) && AllThere(p.commitFiles, Numbers(p.Count, num))
    modifies p`Count, p`layerFiles, p`commitFiles
    ensures DiskOk(p, d) && p.Count == old(p.Count) + num
  {
    hide DiskFine, AllThere, Numbers, Disk.OrganizedAfter, Pow2, Expanders.Ok;
    ghost var before, count := p.OnDisk(), p.Count;
    p.UpdateCount(num);
    CountRaised(p.Me(), before, count, num, p.OnDisk(), p.Count, d);
  }

  lemma CountRaised(f: FileId, before: Disk, count: int, num: nat, after: Disk, count': int, d: nat)
    requires f.Ok() && f.e.N == Pow2(d) && DiskFine(f, before, count, d)
    requires AllThere(before.commits, Numbers(count, num))
    requires count' == count + num && after == before.OrganizedAfter(f.e.K, count', num)
    ensures DiskFine(f, after, count', d)
  {
    hide HonestDisk, TopsKept, AllThere, Numbers, Disk.Organized, Disk.Within, Pow2, Expanders.Ok;
    before.OnlyDeletes(f.e.K, count' + 1, count' + num);
    StillHonest(f, before, after, d);
    TopsCounted(f, before, count, num, after, count', count' + 1, count' + num);
  }

  /** The prover's accumulator has grown by the challenged files, and nothing else has happened. */
  ghost predicate GrownBy(p: Prover, n: ProverNode, chals: seq<seq<int>>, proof: AccProof, before: Ledger, d: nat)
    requires p.Me().Ok() && p.e.N == Pow2(d)
    reads p`Count, p`Commited, p.AccManager, p.AccManager.Accs, n
  {
    && n.Valid() && before.Agrees(p.Me(), d)
    && 0 < |chals| <= n.BufSize && Follows(before.count, chals)
    && HonestAddition(p.AccManager.key, p.Me(), before.count, chals, proof, before.acc, d)
    && p.AccManager.Accs.Value == proof.AccPath[DEFAULT_LEVEL - 1]
    && LedgerOf(p, n)
       == before.(elements := before.elements + HonestLabels(p.Me(), before.count, |chals|, d),
                  value := p.AccManager.Accs.Value)
  }

  /** RaiseCount leaves the accumulator alone. */
  method RaiseProver(p: Prover, num: nat, ghost d: nat)
    requires ProverOk(p, d) && AllThere(p.commitFiles, Numbers(p.Count, num))
    modifies p`Count, p`layerFiles, p`commitFiles
    ensures ProverOk(p, d) && p.Count == old(p.Count) + num
  {
    hide AccOk, DiskOk, Pow2, Disk.Organized, AllThere, Numbers, Expanders.Ok;
    RaiseCount(p, num, d);
  }

  /** VerifyAcc and UpdateCount, once the prover's accumulator has grown. */
  method FinishSettling(p: Prover, v: Verifier, chals: seq<seq<int>>, proof: AccProof, ghost before: Ledger,
                        ghost d: nat)
    returns (r: Verdict)
    requires ProverOk(p, d) && Paired(p, v) && GrownBy(p, v.Nodes[p.ID], chals, proof, before, d)
    requires AllThere(p.commitFiles, Numbers(p.Count, |chals|))
    modifies p`Count, p`layerFiles, p`commitFiles, v.Nodes[p.ID]
    ensures ProverOk(p, d) && r.Accepted? && Agree(p, v.Nodes[p.ID], d)
    ensures v.Nodes[p.ID].Count == before.count + |chals|
    ensures v.Nodes[p.ID].BufSize == old(v.Nodes[p.ID].BufSize) - |chals|
  {
    hide ProverOk, HonestCommits, HonestLabels, HonestDisk, TopsKept, HonestTops, RootsComplete, HonestAddition,
         Elements, Pow2, Ledger.Agrees, AllThere, Numbers, Follows, MutiLevelAcc.Valid, MutiLevelAcc.FilesComplete,
         Disk.Organized, Expanders.Ok;
    ProverBasics(p, d);
    before.Parts(p.Me(), d);
    assert v.Nodes[p.ID].Count == before.count && v.Nodes[p.ID].Acc == before.acc
           && v.Nodes[p.ID].Waiting() == before.waiting;
    assert p.Commited == before.commited && p.Count == before.count;
    assert Elements(p.AccManager.Contents) == before.elements + HonestLabels(p.Me(), before.count, |chals|, d);
    r := AcceptFiles(v, p.ID, chals, proof, d);
    RaiseProver(p, |chals|, d);
    assert v.Nodes[p.ID].Waiting() == before.waiting[|chals|..] && v.Nodes[p.ID].Acc == p.AccManager.Accs.Value;
    assert p.Count == before.count + |chals| == v.Nodes[p.ID].Count && p.Commited == before.commited;
    assert Elements(p.AccManager.Contents) == before.elements + HonestLabels(p.Me(), before.count, |chals|, d);
    before.Settled(p.Me(), d, |chals|, p.AccManager.Accs.Value);
    LedgerIs(p, v.Nodes[p.ID], before.AfterSettling(p.Me(), d, |chals|, p.AccManager.Accs.Value));
    assert LedgerOf(p, v.Nodes[p.ID]).Agrees(p.Me(), d);
  }

  /** The verifier has counted so many more files, whose commits wait no longer. */
  predicate Advanced(n: ProverNode, count: int, bufSize: int, files: int)
    reads n
  {
    n.Count == count + files && n.BufSize == bufSize - files
  }

  /** The commit files of the next num numbers are there, and the batch is legal. */
  predicate CanAdd(p: Prover, num: nat)
    reads p`Count, p`commitFiles, p.AccManager`CurrCount
  {
    AllThere(p.commitFiles, Numbers(p.Count, num)) && !p.AccManager.Illegal(num)
  }

  /** ProveAcc, VerifyAcc and UpdateCount: when the prover has a proof the verifier accepts it, and
      the two stay in step; when it has none nothing changes. */
  method SettleFiles(p: Prover, v: Verifier, chals: seq<seq<int>>, ghost d: nat)
    returns (status: ProofStatus, r: Verdict)
    requires ProverOk(p, d) && Paired(p, v) && Agree(p, v.Nodes[p.ID], d)
    requires 0 < |chals| <= DEFAULT_ELEMS_NUM && |chals| <= v.Nodes[p.ID].BufSize && Follows(v.Nodes[p.ID].Count, chals)
    modifies p`Count, p`layerFiles, p`commitFiles, p.AccManager, p.AccManager.Nodes, p.AccManager.store, v.Nodes[p.ID]
    ensures Advanced(v.Nodes[p.ID], old(v.Nodes[p.ID].Count), old(v.Nodes[p.ID].BufSize),
                     if status == Proved then |chals| else 0)
    ensures fresh(p.AccManager.Nodes - old(p.AccManager.Nodes)) && ProverOk(p, d) && Agree(p, v.Nodes[p.ID], d)
    ensures status == Proved ==>
              && r.Accepted?
              && BatchAdded(p, old(p.AccManager.Contents), old(p.Count), |chals|, d)
    ensures old(CanAdd(p, |chals|)) ==> status == Proved
  {
    hide ProverOk, HonestCommits, HonestLabels, HonestDisk, TopsKept, HonestTops, RootsComplete, HonestAddition,
         Elements, Pow2, Ledger.Agrees, AllThere, Numbers, Follows, MutiLevelAcc.Valid, MutiLevelAcc.FilesComplete,
         Disk.Organized, Expanders.Ok;
    ProverBasics(p, d);
    ghost var before, count := LedgerOf(p, v.Nodes[p.ID]), v.Nodes[p.ID].Count;
    before.Parts(p.Me(), d);
    var proof;
    proof, status := AddFiles(p, chals, count, d);
    if status == Proved {
      r := FinishSettling(p, v, chals, proof, before, d);
    } else {
      r := Rejected(BadProofData);
      assert LedgerOf(p, v.Nodes[p.ID]) == before;
      assert before.Agrees(p.Me(), d);
    }
  }

  // ---------- space ----------

  /** An honest answer to space challenges about verified files. */
  ghost predicate HonestSpace(key: Key, f: FileId, count: nat, chals: seq<seq<int>>, proof: SpaceProof, acc: Bytes,
                              d: nat)
    requires f.Ok() && f.e.N == Pow2(d)
  {
    && SpaceChallenges(f.e, chals) && AreSpaceParts(f, d, chals, proof.Proofs, proof.Roots)
    && |proof.WitChains| == |chals|
    && forall i :: 0 <= i < |chals| ==> HonestSpaceChain(key, f, count, chals[i], proof.WitChains[i], acc, d)
  }

  ghost predicate HonestSpaceChain(key: Key, f: FileId, count: nat, chal: seq<int>, w: WitnessNode, acc: Bytes, d: nat)
    requires f.Ok() && f.e.N == Pow2(d)
  {
    && |chal| >= 2 && 0 < chal[0] <= count && w.Node? && w.Elem == HonestLabel(f, chal[0], d)
    && ProvesMembership(key, w, acc)
  }

  lemma HonestSpaceShaped(key: Key, f: FileId, count: nat, chals: seq<seq<int>>, proof: SpaceProof, acc: Bytes, d: nat)
    requires f.Ok() && f.e.N == Pow2(d) && HonestSpace(key, f, count, chals, proof, acc, d)
    ensures SpaceShaped(chals, proof)
  {
    hide IsSpacePart, ProvesMembership, HonestLabel, SpaceChallenge, Pow2, Expanders.Ok;
    forall i | 0 <= i < |chals| ensures SpaceShapedAt(chals, proof, i) {
      assert HonestSpaceChain(key, f, count, chals[i], proof.WitChains[i], acc, d);
    }
  }

  lemma SpacePathAccepted(f: FileId, d: nat, chal: seq<int>, m: MhtProof, root: Bytes)
    requires f.Ok() && f.e.N == Pow2(d) && SpaceChallenge(f.e, chal) && IsSpacePart(f, d, chal, m, root)
    ensures m.Index == chal[1] && root == TopRoot(f, chal[0], d) && AcceptsPath(f.hash, root, m.Label, m.Path())
  {
    hide FileId.LayerLabels, Hashed, IsPathOf, MerkleRoot, AcceptsPath, Pow2, Expanders.Ok;
    var g := FileOf(f, chal[0]);
    TwoLeavesAtLeast(f, d);
    HashSize(f);
    PathAccepted(f.hash, HASH_SIZE, g.LayerLabels(f.e.K), d, SpacePlace(chal), m.Path());
  }

  lemma HonestSpaceMatches(key: Key, f: FileId, count: nat, chals: seq<seq<int>>, proof: SpaceProof, acc: Bytes, d: nat,
                           i: nat)
    requires f.Ok() && f.e.N == Pow2(d) && HonestSpace(key, f, count, chals, proof, acc, d) && i < |chals|
    ensures SpaceShaped(chals, proof) && SpaceMatches(key, f, chals, proof, acc, i)
  {
    hide IsSpacePart, ProvesMembership, SpaceChallenge, SpaceShaped, SpaceMatches, SpaceBuffer, AcceptsPath, LabelBytes,
         FileLabel, TopRoot, Digest, Pow2, Expanders.Ok;
    HonestSpaceShaped(key, f, count, chals, proof, acc, d);
    SpaceStep(key, f, chals, proof, acc, i);
    assert HonestSpaceChain(key, f, count, chals[i], proof.WitChains[i], acc, d);
    SpacePathAccepted(f, d, chals[i], proof.Proofs[i], proof.Roots[i]);
    TopRootSize(f, chals[i][0], d);
    LabelBytesFit(f, SpaceBuffer(f, chals, proof, i), chals[i][0], proof.Roots[i]);
  }

  lemma ChainIsHonest(acc: MutiLevelAcc, f: FileId, count: nat, chal: seq<int>, w: WitnessNode, d: nat)
    requires f.Ok() && f.e.N == Pow2(d) && |chal| >= 2 && 0 < chal[0] <= count
    requires AccService.IsChain(acc, chal[0], w) && Elements(acc.Contents) == HonestLabels(f, 0, count, d)
    ensures HonestSpaceChain(acc.key, f, count, chal, w, acc.Accs.Value, d)
  {
    hide Elements, ProvesMembership, HonestLabel, Pow2, Expanders.Ok;
    assert HonestLabels(f, 0, count, d)[chal[0] - 1] == HonestLabel(f, chal[0], d);
  }

  /** With all element files there, every element has a chain. */
  lemma EveryElementChained(acc: MutiLevelAcc, index: int)
    requires AccOk(acc) && 0 < index <= |Elements(acc.Contents)|
    ensures AccService.Chainable(acc, index)
  {
    hide MutiLevelAcc.TreeOk, MutiLevelAcc.SnapshotOk, Elements, Faithful, Expanders.Ok;
    AccService.ElementPlace(acc.Contents, index - 1);
  }

  predicate AskedFiles(count: int, chals: seq<seq<int>>) {
    forall i :: 0 <= i < |chals| ==> |chals[i]| >= 2 && 0 < chals[i][0] <= count
  }

  /** The commit buffer limits how many files there can be. */
  lemma FewElements(p: Prover, n: ProverNode, d: nat)
    requires p.Me().Ok() && p.e.N == Pow2(d) && Agree(p, n, d)
    ensures |Elements(p.AccManager.Contents)| == n.Count <= MAX_BUF_SIZE <= AccService.SQUARE * AccService.SQUARE
  {
    hide Agree, Elements, HonestLabels, HonestCommits, Pow2, Expanders.Ok;
    AgreeParts(p, n, d);
    BufferIsSmall();
  }

  lemma BufferIsSmall()
    ensures MAX_BUF_SIZE <= AccService.SQUARE * AccService.SQUARE
  {
  }

  lemma AskedTops(p: Prover, chals: seq<seq<int>>, d: nat)
    requires ProverOk(p, d) && SpaceChallenges(p.e, chals) && AskedFiles(p.Count, chals)
    ensures HasTops(p.layerFiles, p.e.K, ChallengedFiles(chals))
  {
    hide AccOk, HonestDisk, TopsKept, Pow2, SpaceChallenges, Expanders.Ok;
    TopsThere(p.Me(), p.layerFiles, p.commitFiles, p.Count, ChallengedFiles(chals));
  }

  /** ProveSpace for verified files. */
  method AnswerSpace(p: Prover, n: ProverNode, chals: seq<seq<int>>, ghost d: nat)
    returns (proof: SpaceProof, status: ProofStatus)
    requires ProverOk(p, d) && Agree(p, n, d) && SpaceChallenges(p.e, chals) && AskedFiles(n.Count, chals)
    modifies p.AccManager`snapshot
    ensures ProverOk(p, d) && Agree(p, n, d)
    ensures status == Proved <==> chals != []
    ensures n.Count >= 0
    ensures status == Proved ==> HonestSpace(p.AccManager.key, p.Me(), n.Count, chals, proof, n.Acc, d)
  {
    hide HonestLabels, HonestCommits, DiskOk, TopsKept, HonestTops, HasTops, RootsComplete, Elements, AreSpaceParts,
         SpaceChallenge, SpaceChallenges, HonestDisk, HonestSpaceChain, AccService.Chainable, AccService.IsChain,
         MutiLevelAcc.TreeOk, MutiLevelAcc.SnapshotOk, MutiLevelAcc.Meaning, Ledger.Agrees, Pow2, Expanders.Ok;
    ProverBasics(p, d);
    AgreeParts(p, n, d);
    AskedTops(p, chals, d);
    FewElements(p, n, d);
    forall i | 0 <= i < |chals| ensures AccService.Chainable(p.AccManager, chals[i][0]) {
      EveryElementChained(p.AccManager, chals[i][0]);
    }
    proof, status := p.ProveSpace(chals, d);
    if status == Proved {
      forall i | 0 <= i < |chals|
        ensures HonestSpaceChain(p.AccManager.key, p.Me(), n.Count, chals[i], proof.WitChains[i], n.Acc, d)
      {
        ChainIsHonest(p.AccManager, p.Me(), n.Count, chals[i], proof.WitChains[i], d);
      }
    }
  }

  /** ProveSpace and VerifySpace: about verified files there is always an answer, and it is accepted. */
  method SpaceRound(p: Prover, v: Verifier, chals: seq<seq<int>>, ghost d: nat)
    returns (status: ProofStatus, r: Verdict)
    requires ProverOk(p, d) && Paired(p, v) && Agree(p, v.Nodes[p.ID], d)
    requires SpaceChallenges(p.e, chals) && AskedFiles(v.Nodes[p.ID].Count, chals)
    modifies p.AccManager`snapshot
    ensures ProverOk(p, d) && Agree(p, v.Nodes[p.ID], d)
    ensures status == Proved <==> chals != []
    ensures status == Proved ==> r.Accepted?
  {
    hide ProverOk, Agree, HonestSpace, SpaceShaped, SpaceMatches, SpaceChallenge, HasTops, Pow2, Expanders.Ok;
    var proof;
    proof, status := AnswerSpace(p, v.Nodes[p.ID], chals, d);
    r := Rejected(BadProofData);
    if status == Proved {
      ProverBasics(p, d);
      ghost var n := v.Nodes[p.ID];
      HonestSpaceShaped(v.key, p.Me(), n.Count, chals, proof, n.Acc, d);
      SpaceSizes(v.key, p.Me(), n.Count, chals, proof, n.Acc, d);
      forall i | 0 <= i < |chals| ensures SpaceMatches(v.key, p.Me(), chals, proof, n.Acc, i) {
        HonestSpaceMatches(v.key, p.Me(), n.Count, chals, proof, n.Acc, d, i);
      }
      r := v.VerifySpace(p.ID, chals, proof);
    }
  }

  lemma SpaceSizes(key: Key, f: FileId, count: nat, chals: seq<seq<int>>, proof: SpaceProof, acc: Bytes, d: nat)
    requires f.Ok() && f.e.N == Pow2(d) && HonestSpace(key, f, count, chals, proof, acc, d)
    ensures |chals| == |proof.Roots|
  {
  }

  // ---------- rounds and runs ----------

  datatype Outcome = Settled | NoCommitProof | NoAccProof(status: ProofStatus) | Refused

  /** Challenges, commit proofs and their check, for any stretch of the waiting commits: an honest prover
      passes when all files are there, the stretch is no longer than sixteen, and there is a layer above
      the lowest one. */
  method CommitRound(p: Prover, v: Verifier, left: nat, right: nat, draws: seq<(int, seq<int>)>, pick: (nat, nat),
                     ghost d: nat)
    returns (chals: seq<seq<int>>, r: Outcome)
    requires ProverOk(p, d) && Paired(p, v) && Agree(p, v.Nodes[p.ID], d)
    requires left < right <= v.Nodes[p.ID].BufSize
    requires DrawsFor(v.e, right - left, draws, pick)
    ensures |chals| == right - left && Window(p.Me(), v.Nodes[p.ID], left, chals, d)
    ensures r == if !AllAnswerable(p.Me(), p.layerFiles, Tasks(chals)) then NoCommitProof
                 else if right - left <= MAX_COMMIT_PROOF_THREAD && v.e.K >= 1 then Settled else Refused
  {
    hide ProverOk, HonestCommits, HonestLabels, HonestDisk, TopsKept, HonestTops, RootsComplete, Elements, Pow2, Agree,
         AllAnswerable, AllAnswered, Tasks, Window, Drawn, MutiLevelAcc.Valid, MutiLevelAcc.FilesComplete, Expanders.Ok;
    ProverBasics(p, d);
    AgreeParts(p, v.Nodes[p.ID], d);
    chals := DrawChallenges(p, v, left, right, draws, d);
    var answers := AnswerChallenges(p, chals, v.Nodes[p.ID], left, d);
    if !answers.Ok? {
      return chals, NoCommitProof;
    }
    var verdict := JudgeAnswers(v, p.ID, left, chals, answers.value, pick, d);
    r := if verdict.Accepted? then Settled else Refused;
  }

  lemma FrontWindow(f: FileId, n: ProverNode, chals: seq<seq<int>>, d: nat)
    requires f.Ok() && f.e.N == Pow2(d) && Window(f, n, 0, chals, d)
    ensures InOrder(f, n.Count, chals) && Follows(n.Count, chals)
  {
    hide HonestCommits, InOrder, Follows;
    InOrderFollows(f, n.Count, chals);
  }

  lemma CommitFilesThere(f: FileId, layers: LabelFiles, commits: CommitFiles, start: int, n: nat)
    requires FilesThere(f, layers, commits, start, n)
    ensures AllThere(commits, Numbers(start, n))
  {
  }

  /** The prover has all files of the next num numbers, and the batch is legal. */
  ghost predicate Prepared(p: Prover, num: nat)
    reads p`Count, p`layerFiles, p`commitFiles, p.AccManager`CurrCount
  {
    FilesThere(p.Me(), p.layerFiles, p.commitFiles, p.Count, num) && !p.AccManager.Illegal(num)
  }

  /** One round for the first num waiting commits: challenges, commit proofs, their check, and the
      accumulator update.  An honest prover may lack a file or hold an illegal batch, and with all
      files there and a legal batch the round is settled; it is never refused. */
  method Round(p: Prover, v: Verifier, num: nat, draws: seq<(int, seq<int>)>, pick: (nat, nat), ghost d: nat)
    returns (r: Outcome)
    requires ProverOk(p, d) && Paired(p, v) && Agree(p, v.Nodes[p.ID], d)
    requires 0 < num <= MAX_COMMIT_PROOF_THREAD && num <= v.Nodes[p.ID].BufSize
    requires DrawsFor(v.e, num, draws, pick)
    modifies p`Count, p`layerFiles, p`commitFiles, p.AccManager, p.AccManager.Nodes, p.AccManager.store, v.Nodes[p.ID]
    ensures Advanced(v.Nodes[p.ID], old(v.Nodes[p.ID].Count), old(v.Nodes[p.ID].BufSize),
                     if r == Settled then num else 0)
    ensures fresh(p.AccManager.Nodes - old(p.AccManager.Nodes)) && ProverOk(p, d) && Agree(p, v.Nodes[p.ID], d)
    ensures r == Refused ==> v.e.K == 0
    ensures r == Settled ==> BatchAdded(p, old(p.AccManager.Contents), old(p.Count), num, d)
    ensures old(Prepared(p, num)) ==> r == if v.e.K >= 1 then Settled else Refused
  {
    hide ProverOk, Agree, Pow2, FilesThere, AllAnswerable, AllThere, Numbers, InOrder, Window, Follows, Drawn,
         HonestDisk, TopsKept, HonestTops, RootsComplete, HonestCommits, HonestLabels, Elements, Grown,
         MutiLevelAcc.Valid, MutiLevelAcc.FilesComplete, Expanders.Ok;
    ProverBasics(p, d);
    LayersNonneg(p.Me());
    AgreeParts(p, v.Nodes[p.ID], d);
    var chals;
    chals, r := CommitRound(p, v, 0, num, draws, pick, d);
    FrontWindow(p.Me(), v.Nodes[p.ID], chals, d);
    if Prepared(p, num) {
      ChallengesAnswerable(p.Me(), p.layerFiles, p.commitFiles, p.Count, chals);
      CommitFilesThere(p.Me(), p.layerFiles, p.commitFiles, p.Count, num);
    }
    if r == Settled {
      var status, verdict := SettleFiles(p, v, chals, d);
      r := if status != Proved then NoAccProof(status) else if verdict.Accepted? then Settled else Refused;
    }
  }

  datatype Step = Generate(file: int) | Exchange(num: nat)
                | Check(left: nat, right: nat, draws: seq<(int, seq<int>)>, pick: (nat, nat))
                | Settle(chals: seq<seq<int>>) | Ask(chals: seq<seq<int>>)

  /** There is room for the commits; the stretch to check waits and is not too long; the files to settle
      are the next ones, and no more than a batch. */
  predicate Feasible(v: Verifier, ID: Bytes, step: Step)
    requires ID in v.Nodes
    reads v, v.Nodes[ID]
  {
    var n := v.Nodes[ID];
    match step
    case Generate(file) => file > 0
    case Exchange(num) => n.Count + n.BufSize + num <= MAX_BUF_SIZE
    case Check(left, right, draws, pick) =>
      left < right <= n.BufSize && right - left <= MAX_COMMIT_PROOF_THREAD && DrawsFor(v.e, right - left, draws, pick)
    case Settle(chals) => 0 < |chals| <= DEFAULT_ELEMS_NUM && |chals| <= n.BufSize && Follows(n.Count, chals)
    case Ask(chals) => SpaceChallenges(v.e, chals) && AskedFiles(n.Count, chals)
  }

  method GenerateStep(p: Prover, ghost n: ProverNode, file: int, ghost d: nat)
    requires ProverOk(p, d) && Agree(p, n, d) && file > 0
    modifies p`layerFiles, p`commitFiles, p`Generated
    ensures ProverOk(p, d) && Agree(p, n, d)
  {
    hide AccOk, DiskOk, HasLayer, Pow2, Ledger.Agrees, Expanders.Ok;
    MakeFile(p, file, d);
  }

  lemma CommitedSoFar(p: Prover, n: ProverNode, d: nat)
    requires ProverOk(p, d) && Agree(p, n, d)
    ensures p.Commited == n.Count + n.BufSize
  {
    hide ProverOk, Agree;
    ProverGraph(p, d);
    AgreeParts(p, n, d);
  }

  method TakeStep(p: Prover, v: Verifier, step: Step, ghost d: nat) returns (refused: bool)
    requires ProverOk(p, d) && Paired(p, v) && Agree(p, v.Nodes[p.ID], d) && Feasible(v, p.ID, step)
    modifies p`Count, p`Commited, p`Generated, p`layerFiles, p`commitFiles, p.AccManager, p.AccManager.Nodes,
             p.AccManager.store, v.Nodes[p.ID]
    ensures fresh(p.AccManager.Nodes - old(p.AccManager.Nodes)) && ProverOk(p, d) && Agree(p, v.Nodes[p.ID], d)
    ensures (refused ==> v.e.K == 0) && v.Nodes[p.ID].Count >= old(v.Nodes[p.ID].Count)
  {
    hide ProverOk, Agree, AllThere, AllAnswerable, Tasks, Window, Follows, Grown, Numbers, Drawn, Pow2, Expanders.Ok;
    refused := false;
    match step
    case Generate(file) =>
      GenerateStep(p, v.Nodes[p.ID], file, d);
    case Exchange(num) =>
      CommitedSoFar(p, v.Nodes[p.ID], d);
      var ok := ExchangeCommits(p, v, num, d);
    case Check(left, right, draws, pick) =>
      ProverGraph(p, d);
      LayersNonneg(p.Me());
      var chals, r := CommitRound(p, v, left, right, draws, pick, d);
      refused := r == Refused;
    case Settle(chals) =>
      var status, r := SettleFiles(p, v, chals, d);
      refused := status == Proved && !r.Accepted?;
    case Ask(chals) =>
      var status, r := SpaceRound(p, v, chals, d);
      refused := status == Proved && !r.Accepted?;
  }

  lemma NothingYet(key: Key, f: FileId, d: nat)
    requires f.Ok() && f.e.N == Pow2(d)
    ensures Ledger(0, 0, Elements([]), RootValue(key, []), 0, [], ToBytes(key.G), MAX_BUF_SIZE).Agrees(f, d)
    ensures HonestDisk(f, map[], map[], d) && TopsKept(f, map[], map[], 0)
  {
    NewLeafGrows(key, []);
  }

  /** A prover with no files, and an accumulator with no elements. */
  method NewProver(key: Key, e: Expanders, h: Hash, ID: Bytes, store: SubAccStore, ghost d: nat) returns (p: Prover)
    requires e.Ok() && e.N == Pow2(d) && store.files == map[]
    ensures p.e == e && p.hash == h && p.ID == ID && p.AccManager.key == key && ProverOk(p, d)
    ensures p.Count == p.Commited == p.Generated == 0 && p.AccManager.CurrCount == 0
    ensures p.AccManager.Contents == [] && p.AccManager.Accs.Value == RootValue(key, [])
    ensures fresh(p) && fresh(p.AccManager) && fresh(p.AccManager.Nodes) && p.AccManager.store == store
  {
    hide HonestDisk, TopsKept, RootValue, Pow2, MutiLevelAcc.TreeOk, MutiLevelAcc.Meaning, MutiLevelAcc.FilesComplete,
         Expanders.Ok;
    var acc := new MutiLevelAcc(key, store);
    p := new Prover(e, h, ID, acc);
    NothingYet(key, p.Me(), d);
    AccService.ContentsFacts(acc);
    acc.EmptyCount();
  }

  /** A new verifier that knows the prover is in step with it. */
  method Introduce(p: Prover, ghost d: nat) returns (v: Verifier)
    requires ProverOk(p, d) && p.Count == p.Commited == 0
    requires p.AccManager.Contents == [] && p.AccManager.Accs.Value == RootValue(p.AccManager.key, [])
    ensures Paired(p, v) && Agree(p, v.Nodes[p.ID], d)
    ensures v.Nodes[p.ID].Count == 0 && v.Nodes[p.ID].BufSize == 0 && |v.Nodes[p.ID].CommitsBuf| == MAX_BUF_SIZE
    ensures fresh(v) && fresh(v.Nodes[p.ID])
  {
    hide Ledger.Agrees, RootValue, Pow2, AccOk, DiskOk, Expanders.Ok;
    v := new Verifier(p.AccManager.key, p.e, p.hash);
    var ok := v.RegisterProverNode(p.ID);
    NothingYet(p.AccManager.key, p.Me(), d);
    ghost var key := p.AccManager.key;
    LedgerIs(p, v.Nodes[p.ID], Ledger(0, 0, Elements([]), RootValue(key, []), 0, [], ToBytes(key.G), MAX_BUF_SIZE));
  }

  /** Every honest run: whatever feasible steps are taken in whatever order, both sides stay in step
      and the verifier never refuses, unless the graph has but one layer. */
  method Run(p: Prover, v: Verifier, steps: seq<Step>, ghost d: nat) returns (refused: bool)
    requires ProverOk(p, d) && Paired(p, v) && Agree(p, v.Nodes[p.ID], d)
    modifies p`Count, p`Commited, p`Generated, p`layerFiles, p`commitFiles, p.AccManager, p.AccManager.Nodes,
             p.AccManager.store, v.Nodes[p.ID]
    ensures fresh(p.AccManager.Nodes - old(p.AccManager.Nodes)) && ProverOk(p, d) && Agree(p, v.Nodes[p.ID], d)
    ensures (refused ==> v.e.K == 0) && v.Nodes[p.ID].Count >= old(v.Nodes[p.ID].Count)
  {
    hide ProverOk, Agree, Feasible, Pow2, HonestDisk, TopsKept, HonestTops, RootsComplete, MutiLevelAcc.Valid,
         MutiLevelAcc.FilesComplete, Expanders.Ok;
    ProverBasics(p, d);
    refused := false;
    for i := 0 to |steps|
      invariant fresh(p.AccManager.Nodes - old(p.AccManager.Nodes)) && ProverOk(p, d)
      invariant p.Me().Ok() && p.e.N == Pow2(d) && Agree(p, v.Nodes[p.ID], d)
      invariant (refused ==> v.e.K == 0) && v.Nodes[p.ID].Count >= old(v.Nodes[p.ID].Count)
    {
      if Feasible(v, p.ID, steps[i]) {
        var no := TakeStep(p, v, steps[i], d);
        refused := refused || no;
      }
    }
  }

  /** Everything for the files 1 to n is there. */
  ghost predicate GeneratedTo(p: Prover, n: nat)
    reads p`layerFiles, p`commitFiles
  {
    forall k :: 1 <= k <= n ==> k in p.commitFiles && LayersThere(p.Me(), p.layerFiles, k)
  }

  lemma GeneratedFilesThere(p: Prover, n: nat)
    requires GeneratedTo(p, n)
    ensures FilesThere(p.Me(), p.layerFiles, p.commitFiles, 0, n)
  {
    hide LayersThere, Expanders.Ok;
  }

  /** Generating the files 1 to num. */
  method GenerateFiles(p: Prover, ghost n: ProverNode, num: nat, ghost d: nat)
    requires ProverOk(p, d) && Agree(p, n, d)
    modifies p`layerFiles, p`commitFiles, p`Generated
    ensures ProverOk(p, d) && Agree(p, n, d) && p.Generated == old(p.Generated) + num && GeneratedTo(p, num)
  {
    hide AccOk, DiskOk, LayersThere, Pow2, Ledger.Agrees, Expanders.Ok;
    for i := 0 to num
      invariant ProverOk(p, d) && Agree(p, n, d) && p.Generated == old(p.Generated) + i && GeneratedTo(p, i)
    {
      MakeFile(p, i + 1, d);
    }
  }

  lemma FreshLedger(p: Prover, n: ProverNode, d: nat)
    requires p.Me().Ok() && p.e.N == Pow2(d) && Agree(p, n, d) && p.Commited == 0
    ensures n.Count == p.Count == 0 && n.BufSize == 0
  {
  }

  ghost predicate NothingDone(p: Prover)
    reads p, p.AccManager
  {
    p.Generated == p.Commited == 0 && p.AccManager.CurrCount == 0 && p.AccManager.Contents == []
  }

  /** The verifier has counted so many files, and no commits wait. */
  predicate CountedTo(v: Verifier, ID: Bytes, num: int)
    reads v, if ID in v.Nodes then {v.Nodes[ID]} else {}
  {
    ID in v.Nodes && v.Nodes[ID].Count == num && v.Nodes[ID].BufSize == 0
  }

  /** From the beginning: generate up to sixteen files, commit them, and settle them, for any random
      draws.  Nothing is refused or missing, and the verifier has counted them. */
  method FirstRound(p: Prover, v: Verifier, num: nat, draws: seq<(int, seq<int>)>, pick: (nat, nat), ghost d: nat)
    returns (r: Outcome)
    requires ProverOk(p, d) && Paired(p, v) && Agree(p, v.Nodes[p.ID], d)
    requires NothingDone(p)
    requires 0 < num <= MAX_COMMIT_PROOF_THREAD
    requires DrawsFor(v.e, num, draws, pick)
    modifies p`Count, p`Commited, p`Generated, p`layerFiles, p`commitFiles, p.AccManager, p.AccManager.Nodes,
             p.AccManager.store, v.Nodes[p.ID]
    ensures fresh(p.AccManager.Nodes - old(p.AccManager.Nodes)) && ProverOk(p, d) && Agree(p, v.Nodes[p.ID], d)
    ensures r == if v.e.K >= 1 then Settled else Refused
    ensures v.e.K >= 1 ==> CountedTo(v, p.ID, num) && BatchAdded(p, [], 0, num, d)
  {
    hide ProverOk, Agree, Pow2, FilesThere, AllThere, Numbers, Drawn, HonestDisk, TopsKept, HonestTops, RootsComplete,
         HonestCommits, HonestLabels, Elements, MutiLevelAcc.Valid, MutiLevelAcc.FilesComplete, GeneratedTo, Grown,
         Expanders.Ok;
    ProverBasics(p, d);
    FreshLedger(p, v.Nodes[p.ID], d);
    GenerateFiles(p, v.Nodes[p.ID], num, d);
    GeneratedFilesThere(p, num);
    CommitFilesThere(p.Me(), p.layerFiles, p.commitFiles, 0, num);
    var ok := ExchangeCommits(p, v, num, d);
    AgreeParts(p, v.Nodes[p.ID], d);
    r := Round(p, v, num, draws, pick, d);
  }

  // ---------- the deletion at the end ----------

  lemma NoElements()
    ensures Elements([]) == []
  {
  }

  /** The accumulator is not empty when the count is positive. */
  lemma SomethingToDelete(p: Prover, n: ProverNode, d: nat)
    requires ProverOk(p, d) && Agree(p, n, d) && n.Count > 0
    ensures p.AccManager.CurrCount > 0
  {
    hide HonestLabels, HonestCommits, HonestDisk, Elements, Ledger.Agrees, MutiLevelAcc.FilesComplete,
         MutiLevelAcc.TreeOk, MutiLevelAcc.Meaning, Pow2, Expanders.Ok;
    AgreeParts(p, n, d);
    NoElements();
    p.AccManager.EmptyCount();
    p.AccManager.CursorFacts();
  }

  lemma LastFileThere(p: Prover, num: int, d: nat)
    requires ProverOk(p, d) && p.AccManager.CurrCount > 0 && !p.AccManager.DeleteIllegal(num)
    ensures !p.AccManager.NeededFileMissing(num, p.AccManager.store.files)
  {
    hide HonestDisk, MutiLevelAcc.TreeOk, MutiLevelAcc.Meaning, MutiLevelAcc.FilesComplete, Expanders.Ok;
    p.AccManager.LastFilePresent();
  }

  /** The labels the verifier computes for the num files after start are the deleted elements. */
  lemma DeletionLabels(f: FileId, t: Groups, start: int, num: nat, count: nat, d: nat)
    requires f.Ok() && f.e.N == Pow2(d) && WellFormed(t) && t != [] && num <= LastCount(t) && start == count - num
    requires Elements(t) == HonestLabels(f, 0, count, d)
    ensures start >= 0
    ensures DeletedLabels(f, TopRoots(f, Numbers(start, num), d), count) == Deleted(t, num)
    ensures Elements(Truncate(t, num)) == HonestLabels(f, 0, start, d)
  {
    hide HonestLabels, WellFormed, Elements, DeletedLabels, TopRoots, Deleted, Numbers, Pow2, Expanders.Ok;
    DeletedAreLast(t, num);
    DeletedHonest(f, t, start, num, count, d);
    DeletedLabelsHonest(f, start, num, count, d);
    KeptHonest(f, t, start, num, count, d);
  }

  lemma KeptHonest(f: FileId, t: Groups, start: nat, num: nat, count: nat, d: nat)
    requires f.Ok() && f.e.N == Pow2(d) && WellFormed(t) && t != [] && num <= LastCount(t) && start == count - num
    requires Elements(t) == HonestLabels(f, 0, count, d)
    ensures Elements(Truncate(t, num)) == HonestLabels(f, 0, start, d)
  {
    hide HonestLabels, WellFormed, Elements, Truncate, Pow2, Expanders.Ok;
    TruncateElements(t, num);
    HonestLabelsConcat(f, start, num, count, d);
    var kept := HonestLabels(f, 0, start, d);
    assert Elements(t) == kept + HonestLabels(f, start, num, d);
    assert Elements(t)[..|kept|] == kept;
  }

  /** The last num files have their top layers. */
  lemma LastTops(f: FileId, layers: LabelFiles, commits: CommitFiles, count: int, start: int, num: int)
    requires TopsKept(f, layers, commits, count) && start >= 0 && start + num == count
    ensures HasTops(layers, f.e.K, Numbers(start, num))
  {
    hide TopsKept;
    TopsThere(f, layers, commits, count, Numbers(start, num));
  }

  /** Everything ProveDeletion needs for a legal number is there. */
  lemma Deletable(p: Prover, n: ProverNode, num: int, d: nat)
    requires ProverOk(p, d) && Agree(p, n, d)
    ensures p.Count == n.Count
    ensures 0 < num <= p.Count ==> p.AccManager.CurrCount > 0
    ensures 0 < num <= p.Count ==> HasTops(p.layerFiles, p.e.K, Numbers(p.Count - num, num))
    ensures 0 < num <= p.Count && !p.AccManager.DeleteIllegal(num) ==>
              !p.AccManager.NeededFileMissing(num, p.AccManager.store.files)
  {
    hide ProverOk, Agree, HasTops, Numbers, MutiLevelAcc.NeededFileMissing, Pow2, HonestLabels, HonestCommits, Elements,
         MutiLevelAcc.Valid, MutiLevelAcc.FilesComplete, HonestTops, RootsComplete, TopsKept, HonestDisk, Expanders.Ok;
    ProverBasics(p, d);
    AgreeParts(p, n, d);
    if 0 < num <= p.Count {
      SomethingToDelete(p, n, d);
      LastTops(p.Me(), p.layerFiles, p.commitFiles, p.Count, p.Count - num, num);
      if !p.AccManager.DeleteIllegal(num) {
        LastFileThere(p, num, d);
      }
    }
  }

  /** ProveDeletion and VerifyDeletion when no commits wait: there is a proof for every legal number, the
      verifier accepts it exactly when no surviving accumulator is mistaken for an empty one, and the
      prover's tree is then that of the files left. */
  method Delete(p: Prover, v: Verifier, num: int, ghost d: nat) returns (status: ProofStatus, r: Verdict)
    requires ProverOk(p, d) && Paired(p, v) && Agree(p, v.Nodes[p.ID], d) && v.Nodes[p.ID].BufSize == 0
    modifies p`Count, p`layerFiles, p`commitFiles, p.AccManager, p.AccManager.Nodes, p.AccManager.store
    ensures status == Proved <==> 0 < num <= v.Nodes[p.ID].Count && !old(p.AccManager.DeleteIllegal(num))
    ensures status == Proved ==>
              && old(WellFormed(p.AccManager.Contents) && p.AccManager.Contents != []
                     && num <= LastCount(p.AccManager.Contents))
              && (r.Accepted? <==> SurvivorsDistinguished(v.key, old(p.AccManager.Contents), num))
              && Elements(p.AccManager.Contents) == HonestLabels(p.Me(), 0, v.Nodes[p.ID].Count - num, d)
  {
    hide ProverOk, HonestCommits, HonestLabels, HonestDisk, TopsKept, HonestTops, RootsComplete, Elements, Pow2, Agree,
         WellFormed, Truncate, Deleted, DeletedLabels, TopRoots, Numbers, HasTops, SurvivorsDistinguished, ProvesDelete,
         Length, MutiLevelAcc.Valid, MutiLevelAcc.FilesComplete, MutiLevelAcc.NeededFileMissing, Expanders.Ok;
    ProverBasics(p, d);
    AgreeParts(p, v.Nodes[p.ID], d);
    Deletable(p, v.Nodes[p.ID], num, d);
    ghost var t, count := p.AccManager.Contents, v.Nodes[p.ID].Count;
    var proof;
    proof, status := p.ProveDeletion(num, d);
    r := Rejected(BadProofData);
    if status == Proved {
      DeletionLabels(p.Me(), t, count - num, num, count, d);
      r := v.VerifyDeletion(p.ID, proof);
    }
  }

  // ---------- a whole session ----------

  /** The tree after the first batch of up to sixteen labels. */
  lemma OneLeaf(t: Groups, labels: seq<Bytes>, t': Groups)
    requires t == [] && Grown(t, labels, t') && |labels| <= DEFAULT_ELEMS_NUM
    ensures t' == [[labels]] && WellFormed(t') && LastCount(t') == |labels|
  {
  }

  /** Deleting the only leaf as a whole leaves nothing that could be mistaken. */
  lemma AllDeletedDistinguished(key: Key, labels: seq<Bytes>)
    requires 0 < |labels| <= DEFAULT_ELEMS_NUM
    ensures var t: Groups := [[labels]];
            WellFormed(t) && LastCount(t) == |labels| && SurvivorsDistinguished(key, t, |labels|)
  {
    hide Distinguished, DeletePath, LastLeafNode;
  }

  /** From nothing to the end (test/pois_test.go): a new prover and a verifier that has just registered
      it; num files, at most sixteen, are generated, committed, challenged, proved and counted; any
      space challenges about them are answered; and m of the files are deleted.  Whatever the hash and the
      random draws: if the graph has a layer above the lowest one the verifier accepts everything up to
      the deletion, and else not even the commits.  The deletion is one the prover can always prove, and
      it is accepted if and only if all files go or the accumulator of those left is not mistaken for an
      empty one. */
  method WholeSession(key: Key, e: Expanders, h: Hash, ID: Bytes, store: SubAccStore, num: nat,
                      draws: seq<(int, seq<int>)>, pick: (nat, nat), chals: seq<seq<int>>, m: int, ghost d: nat)
    returns (first: Outcome, space: Verdict, status: ProofStatus, deletion: Verdict)
    requires e.Ok() && e.N == Pow2(d) && store.files == map[]
    requires 0 < num <= MAX_COMMIT_PROOF_THREAD && DrawsFor(e, num, draws, pick)
    requires chals != [] && SpaceChallenges(e, chals) && AskedFiles(num, chals)
    modifies store
    ensures first == if e.K >= 1 then Settled else Refused
    ensures first == Settled ==> space.Accepted? && (status == Proved <==> 0 < m <= num)
    ensures first == Settled && 0 < m <= num ==>
              var t: Groups := [[HonestLabels(FileId(e, h, ID, 0), 0, num, d)]];
              && WellFormed(t) && LastCount(t) == num
              && (deletion.Accepted? <==> SurvivorsDistinguished(key, t, m)) && (m == num ==> deletion.Accepted?)
  {
    hide ProverOk, Agree, SpaceChallenges, Drawn, Grown, WellFormed, SurvivorsDistinguished, HonestLabels, RootValue,
         Pow2, Expanders.Ok;
    var p := NewProver(key, e, h, ID, store, d);
    var v := Introduce(p, d);
    first := FirstRound(p, v, num, draws, pick, d);
    space, status, deletion := Panicked, BadNumber, Panicked;
    if first != Settled {
      return;
    }
    OneLeaf([], HonestLabels(p.Me(), 0, num, d), p.AccManager.Contents);
    space, status, deletion := AskThenDelete(p, v, num, chals, m, d);
  }

  /** The end of a session: space challenges, and a deletion. */
  method AskThenDelete(p: Prover, v: Verifier, num: nat, chals: seq<seq<int>>, m: int, ghost d: nat)
    returns (space: Verdict, status: ProofStatus, deletion: Verdict)
    requires ProverOk(p, d) && Paired(p, v) && Agree(p, v.Nodes[p.ID], d)
    requires CountedTo(v, p.ID, num) && 0 < num <= DEFAULT_ELEMS_NUM
    requires p.AccManager.Contents == [[HonestLabels(p.Me(), 0, num, d)]]
    requires chals != [] && SpaceChallenges(p.e, chals) && AskedFiles(num, chals)
    modifies p`Count, p`layerFiles, p`commitFiles, p.AccManager, p.AccManager.Nodes, p.AccManager.store
    ensures space.Accepted?
    ensures status == Proved <==> 0 < m <= num
    ensures 0 < m <= num ==>
              var t: Groups := [[HonestLabels(p.Me(), 0, num, d)]];
              && WellFormed(t) && LastCount(t) == num
              && (deletion.Accepted? <==> SurvivorsDistinguished(v.key, t, m)) && (m == num ==> deletion.Accepted?)
  {
    hide ProverOk, Agree, SpaceChallenges, AskedFiles, WellFormed, SurvivorsDistinguished, HonestLabels, Elements, Pow2,
         Expanders.Ok;
    ProverGraph(p, d);
    ghost var labels := HonestLabels(p.Me(), 0, num, d);
    var answered;
    answered, space := SpaceRound(p, v, chals, d);
    AllDeletedDistinguished(v.key, labels);
    CountOf(p, labels, d);
    status, deletion := Delete(p, v, m, d);
  }

  lemma CountOf(p: Prover, labels: seq<Bytes>, d: nat)
    requires ProverOk(p, d) && p.AccManager.Contents == [[labels]] && WellFormed([[labels]])
    requires LastCount([[labels]]) == |labels|
    ensures p.AccManager.CurrCount == |labels|
  {
    hide HonestDisk, DiskOk, Pow2, Expanders.Ok, MutiLevelAcc.TreeOk, MutiLevelAcc.Meaning, MutiLevelAcc.FilesComplete;
    p.AccManager.CursorFacts();
  }
}
