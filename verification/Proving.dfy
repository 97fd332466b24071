/** The prover (pois/prove.go): its files and counters, and the proofs it builds from them and from
    the accumulator. */
module Proving {
  import opened ByteStrings
  import opened Hashing
  import opened Forest
  import opened WitnessChain
  import opened AccProofs
  import opened MultiLevelAcc
  import opened AccService
  import opened CalcParents
  import opened LightMerkle
  import MerklePath
  import opened IdleFile
  import opened CommitProving
  import opened CommitChecking
  import opened FileLabels

  /** The commit files, by file number. */
  type CommitFiles = map<int, seq<Bytes>>

  /** Commit files have one root for each layer and one over all. */
  predicate RootsComplete(e: Expanders, files: CommitFiles) {
    e.K >= 0 && forall i :: i in files ==> |files[i]| == e.K + 2
  }

  predicate AllThere(files: CommitFiles, indexs: seq<int>) {
    forall i :: 0 <= i < |indexs| ==> indexs[i] in files
  }

  /** The accumulator elements for these files. */
  function LabelsOf(f: FileId, files: CommitFiles, indexs: seq<int>): (labels: seq<Bytes>)
    requires RootsComplete(f.e, files) && AllThere(files, indexs)
    ensures |labels| == |indexs|
  {
    seq(|indexs|, i requires 0 <= i < |indexs| => FileLabel(f, indexs[i], files[indexs[i]][f.e.K]))
  }

  /** File numbers from the one after start on. */
  function Numbers(start: int, n: int): (s: seq<int>)
    ensures |s| == if n > 0 then n else 0
    ensures forall i :: 0 <= i < |s| ==> s[i] == start + 1 + i
  {
    if n <= 0 then [] else seq(n, i => start + 1 + i)
  }

  function CommitsOf(files: CommitFiles, indexs: seq<int>): (cs: seq<Commit>)
    requires AllThere(files, indexs)
    ensures |cs| == |indexs|
  {
    seq(|indexs|, i requires 0 <= i < |indexs| => Commit(indexs[i], files[indexs[i]]))
  }

  /** The label files with those of file i written anew; its directory is emptied first. */
  function WithLayers(files: LabelFiles, i: int, layers: seq<seq<Bytes>>): LabelFiles {
    (map p | p in files && p.0 != i :: files[p]) + (map l | 0 <= l < |layers| :: (i, l) := layers[l])
  }

  datatype ProofStatus = Proved | FileMissing | AccFailed(reason: MultiLevelAcc.Reason) | NoChain | TooMany | BadNumber

  const NO_ACC_PROOF := AccProof([], [], Nil, [])
  const NO_DELETION_PROOF := DeletionProof([], Nil, [])
  const NO_SPACE_PROOF := SpaceProof([], [], [])

  class Prover {
    const e: Expanders
    const hash: Hash
    const ID: Bytes
    const AccManager: MutiLevelAcc
    var Count: int
    var Commited: int
    var Generated: int
    var layerFiles: LabelFiles
    var commitFiles: CommitFiles

    constructor (ex: Expanders, h: Hash, id: Bytes, acc: MutiLevelAcc)
      ensures e == ex && hash == h && ID == id && AccManager == acc
      ensures Count == Commited == Generated == 0 && layerFiles == map[] && commitFiles == map[]
    {
      e, hash, ID, AccManager := ex, h, id, acc;
      Count, Commited, Generated, layerFiles, commitFiles := 0, 0, 0, map[], map[];
    }

    function Me(): (f: FileId)
      ensures f.e == e && f.hash == hash && f.id == ID
    {
      FileId(e, hash, ID, 0)
    }

    /** What one worker does for file i: generate it and write its files (IdleFileGenerationServer and
        GenerateIdleFile); Generated counts the files that are done, in whatever order. */
    method MakeIdleFile(i: int, ghost d: nat)
      requires Me().Ok() && e.N == Pow2(d) && i > 0
      modifies this`layerFiles, this`commitFiles, this`Generated
      ensures Generated == old(Generated) + 1
      ensures commitFiles == old(commitFiles)[i := FileOf(Me(), i).Roots(d)]
      ensures layerFiles == WithLayers(old(layerFiles), i, FileOf(Me(), i).Layers(e.K + 1))
    {
      hide FileId.Layers, FileId.Roots, WithLayers, Pow2;
      var parents, labels := new Bytes[e.N], new Bytes[e.N];
      var layers, roots := GenerateIdleFile(FileOf(Me(), i), parents, labels, d);
      layerFiles := WithLayers(layerFiles, i, layers);
      commitFiles := commitFiles[i := roots];
      Generated := Generated + 1;
    }

    /** How many commits GetCommits hands out. */
    function Available(num: int): int
      reads this`Generated, this`Commited
    {
      if Generated - Commited < num then Generated - Commited else num
    }

    /** GetCommits, outside a deletion: the commits of the next files, no more than are generated. */
    method GetCommits(num: nat) returns (commits: seq<Commit>, ok: bool)
      modifies this`Commited
      ensures ok <==> Generated > old(Commited) && AllThere(commitFiles, Numbers(old(Commited), old(Available(num))))
      ensures !ok ==> Commited == old(Commited)
      ensures ok ==>
                && commits == CommitsOf(commitFiles, Numbers(old(Commited), old(Available(num))))
                && Commited == old(Commited) + |commits|
                && |commits| == (if Generated - old(Commited) <= num then Generated - old(Commited) else num)
                && forall i :: 0 <= i < |commits| ==> FileCommit(commits[i], old(Commited) + 1 + i)
    {
      if Generated - Commited <= 0 {
        return [], false;
      }
      ghost var numbers := Numbers(Commited, Available(num));
      commits := [];
      for i := 1 to Available(num) + 1
        invariant |commits| == i - 1
        invariant forall k :: 0 <= k < |commits| ==>
                    numbers[k] in commitFiles && commits[k] == Commit(numbers[k], commitFiles[numbers[k]])
      {
        assert numbers[i - 1] == Commited + i;
        if Commited + i !in commitFiles {
          return [], false;
        }
        commits := commits + [Commit(Commited + i, commitFiles[Commited + i])];
      }
      Commited := Commited + |commits|;
      ok := true;
    }

    /** The commit is what the commit file of this number holds. */
    predicate FileCommit(c: Commit, number: int)
      reads this`commitFiles
    {
      c.FileIndex == number && number in commitFiles && c.Roots == commitFiles[number]
    }

    /** ReadAndCalcFileLabel */
    method ReadAndCalcFileLabel(count: int) returns (r: CommitProving.Result<Bytes>)
      requires RootsComplete(e, commitFiles)
      ensures count !in commitFiles ==> r == NoFile
      ensures count in commitFiles ==> r == CommitProving.Ok(FileLabel(Me(), count, commitFiles[count][e.K]))
    {
      hide Digest;
      if count !in commitFiles {
        return NoFile;
      }
      var root := commitFiles[count][e.K];
      var content := ID + Int64(count);
      return CommitProving.Ok(Digest(hash, content + root));
    }

    method ReadLabels(indexs: seq<int>) returns (labels: seq<Bytes>, ok: bool)
      requires RootsComplete(e, commitFiles)
      ensures ok <==> AllThere(commitFiles, indexs)
      ensures ok ==> labels == LabelsOf(Me(), commitFiles, indexs)
    {
      hide FileLabel;
      labels := [];
      for i := 0 to |indexs|
        invariant |labels| == i && forall k :: 0 <= k < i ==> indexs[k] in commitFiles
        invariant forall k :: 0 <= k < i ==> labels[k] == FileLabel(Me(), indexs[k], commitFiles[indexs[k]][e.K])
      {
        var r := ReadAndCalcFileLabel(indexs[i]);
        if r.NoFile? {
          return [], false;
        }
        labels := labels + [r.value];
      }
      return labels, true;
    }

    /** ProveAcc.  Nothing changes when a file is missing or the accumulator refuses the batch; else
        the labels are in, and the proof is one the verifier accepts against the old root. */
    method ProveAcc(indexs: seq<int>) returns (proof: AccProof, status: ProofStatus)
      requires RootsComplete(e, commitFiles) && AccManager.Valid()
      modifies AccManager, AccManager.Nodes, AccManager.store
      ensures fresh(AccManager.Nodes - old(AccManager.Nodes))
      ensures status == FileMissing <==> !AllThere(commitFiles, indexs)
      ensures status == Proved || status == FileMissing || status.AccFailed?
      ensures status != Proved ==>
                AccManager.Contents == old(AccManager.Contents) && AccManager.Accs.Value == old(AccManager.Accs.Value)
      ensures |indexs| <= DEFAULT_ELEMS_NUM ==>
                AccManager.Valid() && (old(AccManager.FilesComplete()) ==> AccManager.FilesComplete())
      ensures AllThere(commitFiles, indexs) && !old(AccManager.Illegal(|indexs|)) && old(AccManager.FilesComplete()) ==>
                status == Proved
      ensures AllThere(commitFiles, indexs) && old(AccManager.FilesComplete()) && 1 <= |indexs| <= DEFAULT_ELEMS_NUM ==>
                && WellFormed(old(AccManager.Contents))
                && (status == Proved <==>
                      Canonical(Append(old(AccManager.Contents), LabelsOf(Me(), commitFiles, indexs))))
      ensures status == Proved ==>
                && AllThere(commitFiles, indexs) && proof.Indexs == indexs
                && proof.Labels == LabelsOf(Me(), commitFiles, indexs) && indexs != []
                && WellFormed(old(AccManager.Contents))
                && AccManager.Contents == Append(old(AccManager.Contents), proof.Labels)
                && |proof.AccPath| == DEFAULT_LEVEL == Length(proof.WitChains)
                && proof.AccPath[DEFAULT_LEVEL - 1] == AccManager.Accs.Value
                && ProvesInsert(AccManager.key, proof.WitChains, proof.Labels, proof.AccPath,
                                old(AccManager.Accs.Value))
    {
      hide MutiLevelAcc.TreeOk, MutiLevelAcc.SnapshotOk, MutiLevelAcc.Meaning, MutiLevelAcc.FilesComplete, ProvesInsert,
           Length, WellFormed, Canonical, Append, LabelsOf;
      var labels, ok := ReadLabels(indexs);
      if !ok {
        return NO_ACC_PROOF, FileMissing;
      }
      var chain, accs, s := AddLabels(AccManager, labels);
      if s.Failed? {
        return NO_ACC_PROOF, AccFailed(s.reason);
      }
      proof, status := AccProof(indexs, labels, chain, accs), Proved;
    }

    function OnDisk(): Disk
      reads this`layerFiles, this`commitFiles
    {
      Disk(layerFiles, commitFiles)
    }

    /** organizeFiles: goes through the num numbers after Count, and stops at the first file that is
        not there. */
    method OrganizeFiles(num: int)
      modifies this`layerFiles, this`commitFiles
      ensures OnDisk() == old(OnDisk()).Organized(e.K, Count + 1, Count + num)
    {
      hide Disk.LayersGone, Disk.WithoutLayers;
      ghost var before := OnDisk();
      var i := Count + 1;
      while i <= Count + num
        invariant OnDisk().Organized(e.K, i, Count + num) == before.Organized(e.K, Count + 1, Count + num)
        decreases Count + num - i
      {
        OnDisk().OrganizedStep(e.K, i, Count + num);
        var ok := DeleteLayers(i);
        if !ok {
          return;
        }
        if i !in commitFiles {
          return;
        }
        commitFiles := commitFiles - {i};
        i := i + 1;
      }
    }

    /** The inner loop of organizeFiles. */
    method DeleteLayers(i: int) returns (ok: bool)
      modifies this`layerFiles
      ensures layerFiles == old(OnDisk()).WithoutLayers(i, old(OnDisk()).LayersGone(e.K, i, 0))
      ensures ok <==> old(OnDisk()).LayersGone(e.K, i, 0) >= e.K
    {
      ghost var before := OnDisk();
      var j := 0;
      while j < e.K
        invariant j >= 0 && layerFiles == before.WithoutLayers(i, j)
        invariant before.LayersGone(e.K, i, 0) == before.LayersGone(e.K, i, j)
      {
        assert (i, j) in layerFiles <==> (i, j) in before.layers;
        if (i, j) !in layerFiles {
          return false;
        }
        layerFiles := layerFiles - {(i, j)};
        j := j + 1;
      }
      return true;
    }

    /** UpdateCount */
    method UpdateCount(num: int)
      modifies this`Count, this`layerFiles, this`commitFiles
      ensures Count == old(Count) + num
      ensures OnDisk() == old(OnDisk()).OrganizedAfter(e.K, Count, num)
    {
      Count := Count + num;
      OrganizeFiles(num);
    }

    /** ProveSpace */
    method ProveSpace(chals: seq<seq<int>>, ghost d: nat) returns (proof: SpaceProof, status: ProofStatus)
      requires Me().Ok() && e.N == Pow2(d) && HonestTops(Me(), layerFiles) && AccManager.Valid()
      requires SpaceChallenges(e, chals) && |Elements(AccManager.Contents)| <= SQUARE * SQUARE
      modifies AccManager`snapshot
      ensures AccManager.Valid()
      ensures status == Proved <==>
                && chals != [] && HasTops(layerFiles, e.K, ChallengedFiles(chals))
                && AllChainable(AccManager, ChallengedFiles(chals))
      ensures status == Proved ==>
                && AreSpaceParts(Me(), d, chals, proof.Proofs, proof.Roots)
                && AreChains(AccManager, ChallengedFiles(chals), proof.WitChains)
    {
      hide HonestTops, HasLayer, AreSpaceParts, SpaceChallenge, Chainable, IsChain, Pow2, MutiLevelAcc.TreeOk,
           MutiLevelAcc.SnapshotOk, MutiLevelAcc.Meaning;
      if |chals| <= 0 {
        return NO_SPACE_PROOF, BadNumber;
      }
      var proofs, roots, indexs, ok := SpaceParts(Me(), layerFiles, chals, d);
      if !ok {
        return NO_SPACE_PROOF, FileMissing;
      }
      var chains;
      chains, ok := GetWitnessChains(AccManager, indexs);
      if !ok {
        return NO_SPACE_PROOF, NoChain;
      }
      return SpaceProof(proofs, roots, chains), Proved;
    }

    /** util.DeleteDir of file i's directory. */
    method DeleteDir(i: int)
      requires Me().Ok() && HonestTops(Me(), layerFiles)
      modifies this`layerFiles, this`commitFiles
      ensures HonestTops(Me(), layerFiles)
      ensures OnDisk() == old(OnDisk()).WithoutFiles(i, i)
    {
      hide HonestTops;
      DirGone(layerFiles, commitFiles, i);
      TopsWithout(Me(), layerFiles, i);
      layerFiles := map p | p in layerFiles && p.0 != i :: layerFiles[p];
      commitFiles := commitFiles - {i};
    }

    /** The loop of ProveDeletion: the top roots of the num files after start, whose directories go, up to the
        first whose top layer is missing. */
    method TakeFiles(start: int, num: nat, ghost d: nat) returns (roots: seq<Bytes>, ok: bool)
      requires Me().Ok() && e.N == Pow2(d) && HonestTops(Me(), layerFiles)
      modifies this`layerFiles, this`commitFiles
      ensures ok <==> HasTops(old(layerFiles), e.K, Numbers(start, num))
      ensures ok ==> roots == TopRoots(Me(), Numbers(start, num), d)
      ensures FilesTaken(old(OnDisk()), OnDisk(), e.K, start, num, ok)
    {
      hide HonestTops, TopRoot, TopRoots, HasLayer, HasTops, Pow2, Disk.WithoutFiles, FilesTaken, Taking, Numbers,
           Expanders.Ok;
      ghost var before, done := OnDisk(), 0;
      roots := [];
      TakingStart(Me(), before, start, d);
      for i := 1 to num + 1
        invariant done == i - 1 && HonestTops(Me(), layerFiles)
        invariant Taking(Me(), before, OnDisk(), start, done, roots, d)
      {
        var more, there := TakeNext(before, start, done, roots, num, start + i, d);
        if !there {
          return [], false;
        }
        roots := more;
        done := i;
      }
      TakingEnds(Me(), before, OnDisk(), start, num, roots, d);
      return roots, true;
    }

    /** The body of that loop. */
    method TakeNext(ghost before: Disk, ghost start: int, ghost i: nat, roots: seq<Bytes>, ghost num: nat, number: int,
                    ghost d: nat)
      returns (more: seq<Bytes>, ok: bool)
      requires Me().Ok() && e.N == Pow2(d) && HonestTops(Me(), layerFiles) && i < num && number == start + i + 1
      requires Taking(Me(), before, OnDisk(), start, i, roots, d)
      modifies this`layerFiles, this`commitFiles
      ensures HonestTops(Me(), layerFiles)
      ensures ok ==> Taking(Me(), before, OnDisk(), start, i + 1, more, d)
      ensures !ok ==>
                && !HasTops(before.layers, e.K, Numbers(start, num))
                && FilesTaken(before, OnDisk(), e.K, start, num, false)
    {
      hide HonestTops, TopRoot, HasLayer, HasTops, Pow2, Disk.WithoutFiles, FilesTaken, Taking, Numbers, Expanders.Ok;
      ghost var now := OnDisk();
      var root;
      root, ok := TakeFile(number, d);
      more := roots + [root];
      if ok {
        TakingNext(Me(), before, now, OnDisk(), start, i, roots, d, number);
      } else {
        TakingStops(Me(), before, OnDisk(), start, i, roots, d, num, number);
      }
    }

    method TakeFile(i: int, ghost d: nat) returns (root: Bytes, ok: bool)
      requires Me().Ok() && e.N == Pow2(d) && HonestTops(Me(), layerFiles)
      modifies this`layerFiles, this`commitFiles
      ensures HonestTops(Me(), layerFiles)
      ensures ok <==> HasLayer(old(layerFiles), e.K, i)
      ensures OnDisk() == if ok then old(OnDisk()).WithoutFiles(i, i) else old(OnDisk())
      ensures ok ==> root == TopRoot(Me(), i, d)
    {
      hide HonestTops, TopRoot, HasLayer, Pow2, Disk.WithoutFiles;
      if !HasLayer(layerFiles, e.K, i) {
        return [], false;
      }
      root := ReadTopRoot(Me(), layerFiles, i, d);
      DeleteDir(i);
      ok := true;
    }

    /** ProveDeletion, once no commits are pending: the count goes down first, whatever happens then. */
    method ProveDeletion(num: int, ghost d: nat) returns (proof: DeletionProof, status: ProofStatus)
      requires Me().Ok() && e.N == Pow2(d) && HonestTops(Me(), layerFiles)
      requires AccManager.Valid() && (0 < num <= Count ==> AccManager.CurrCount > 0)
      modifies this`Count, this`layerFiles, this`commitFiles, AccManager, AccManager.Nodes, AccManager.store
      ensures num <= 0 <==> status == BadNumber
      ensures 0 < num && old(Count) < num <==> status == TooMany
      ensures Count == if 0 < num <= old(Count) then old(Count) - num else old(Count)
      ensures num <= 0 || old(Count) < num ==> OnDisk() == old(OnDisk())
      ensures 0 < num <= old(Count) ==>
                FilesTaken(old(OnDisk()), OnDisk(), e.K, Count, num, status != FileMissing)
      ensures 0 < num <= old(Count) ==>
                (status == FileMissing <==> !HasTops(old(layerFiles), e.K, Numbers(Count, num)))
      ensures status == Proved <==>
                && 0 < num <= old(Count) && HasTops(old(layerFiles), e.K, Numbers(Count, num))
                && !old(AccManager.DeleteIllegal(num))
                && !old(AccManager.NeededFileMissing(num, AccManager.store.files))
      ensures AccManager.Valid()
      ensures status == Proved ==>
                && proof.Roots == TopRoots(Me(), Numbers(Count, num), d)
                && WellFormed(old(AccManager.Contents)) && old(AccManager.Contents) != []
                && 0 < num <= LastCount(old(AccManager.Contents))
                && AccManager.Contents == Truncate(old(AccManager.Contents), num)
                && |proof.AccPath| == DEFAULT_LEVEL == Length(proof.WitChain)
                && proof.AccPath[DEFAULT_LEVEL - 1] == AccManager.Accs.Value
                && (ProvesDelete(AccManager.key, proof.WitChain, Deleted(old(AccManager.Contents), num), proof.AccPath,
                                 old(AccManager.Accs.Value))
                    <==> SurvivorsDistinguished(AccManager.key, old(AccManager.Contents), num))
    {
      hide MutiLevelAcc.TreeOk, MutiLevelAcc.SnapshotOk, MutiLevelAcc.Meaning, MutiLevelAcc.FilesComplete, ProvesDelete,
           Length, WellFormed, Truncate, SurvivorsDistinguished, Deleted, HonestTops, HasTops, TopRoots, Pow2,
           FilesTaken;
      if num <= 0 {
        return NO_DELETION_PROOF, BadNumber;
      }
      if Count < num {
        return NO_DELETION_PROOF, TooMany;
      }
      Count := Count - num;
      var roots, ok := TakeFiles(Count, num, d);
      if !ok {
        return NO_DELETION_PROOF, FileMissing;
      }
      var chain, accs, s := DeleteLabels(AccManager, num);
      if s.Failed? {
        return NO_DELETION_PROOF, AccFailed(s.reason);
      }
      return DeletionProof(roots, chain, accs), Proved;
    }
  }

  predicate HasLayer(files: LabelFiles, k: int, i: int) {
    (i, k) in files
  }

  predicate HasTops(files: LabelFiles, k: int, numbers: seq<int>) {
    forall i :: 0 <= i < |numbers| ==> HasLayer(files, k, numbers[i])
  }

  /** File number i of the same miner. */
  function FileOf(f: FileId, i: int): (g: FileId)
    ensures g.e == f.e && g.hash == f.hash && g.id == f.id && g.count == i
  {
    f.(count := i)
  }

  /** The top layer files are as GenerateIdleFile wrote them. */
  ghost predicate HonestTops(f: FileId, files: LabelFiles)
    requires f.Ok()
  {
    forall i :: HasLayer(files, f.e.K, i) ==> files[(i, f.e.K)] == FileOf(f, i).LayerLabels(f.e.K)
  }

  function TopRoot(f: FileId, i: int, d: nat): Bytes
    requires f.Ok() && f.e.N == Pow2(d)
  {
    FileOf(f, i).LayerRoot(f.e.K, d)
  }

  /** A space challenge names a file and a node, of which the program uses the residue modulo 64. */
  predicate SpaceChallenge(e: Expanders, chal: seq<int>) {
    |chal| >= 2 && chal[1] >= 0 && chal[1] % HASH_SIZE < e.N
  }

  function SpacePlace(chal: seq<int>): nat
    requires |chal| >= 2
  {
    chal[1] % HASH_SIZE
  }

  /** Root of the file's top layer, and label and path at the place the program picks there. */
  predicate IsSpacePart(f: FileId, d: nat, chal: seq<int>, m: MhtProof, root: Bytes)
    requires f.Ok() && f.e.N == Pow2(d) && SpaceChallenge(f.e, chal)
  {
    var labels := FileOf(f, chal[0]).LayerLabels(f.e.K);
    && m.Index == chal[1] && root == TopRoot(f, chal[0], d) && m.Label == labels[SpacePlace(chal)]
    && MerklePath.IsPathOf(f.hash, Hashed(f.hash, labels), d, SpacePlace(chal), m.Path())
  }

  /** So it is about the node of the top layer whose place there is the challenged number modulo 64: its label,
      and the sides of that place. */
  lemma SpacePartMeans(f: FileId, d: nat, chal: seq<int>, m: MhtProof, root: Bytes, place: nat, v: nat)
    requires f.Ok() && f.e.N == Pow2(d) && SpaceChallenge(f.e, chal) && IsSpacePart(f, d, chal, m, root)
    requires place == chal[1] % 64 && v == f.e.K * f.e.N + place
    ensures m.Label == FileOf(f, chal[0]).Label(v) && m.Index == chal[1] && m.Locs == MerklePath.Sides(place, d)
    ensures root == FileOf(f, chal[0]).Roots(d)[f.e.K]
  {
    hide FileId.LayerLabels, FileId.Label, FileId.Roots, Hashed, MerkleRoot, MerklePath.IsPathOf, MerklePath.Sides,
         Pow2, Expanders.Ok;
    var g := FileOf(f, chal[0]);
    PlaceLabel(g, place, v);
    RootOfRoots(g, d, g.e.K);
    MerklePath.PathSides(f.hash, Hashed(f.hash, g.LayerLabels(f.e.K)), d, place, m.Path());
  }

  lemma PlaceLabel(f: FileId, j: nat, v: nat)
    requires f.Ok() && j < f.e.N && v == f.e.K * f.e.N + j
    ensures f.LayerLabels(f.e.K)[j] == f.Label(v)
  {
    hide FileId.Label;
    assert f.Number(f.e.K, j) == v;
  }

  predicate SpaceChallenges(e: Expanders, chals: seq<seq<int>>) {
    forall i :: 0 <= i < |chals| ==> SpaceChallenge(e, chals[i])
  }

  function ChallengedFiles(chals: seq<seq<int>>): (s: seq<int>)
    requires forall i :: 0 <= i < |chals| ==> |chals[i]| >= 2
    ensures |s| == |chals| && forall i :: 0 <= i < |s| ==> s[i] == chals[i][0]
  {
    seq(|chals|, i requires 0 <= i < |chals| => chals[i][0])
  }

  predicate AreSpaceParts(f: FileId, d: nat, chals: seq<seq<int>>, proofs: seq<MhtProof>, roots: seq<Bytes>)
    requires f.Ok() && f.e.N == Pow2(d) && SpaceChallenges(f.e, chals)
  {
    && |proofs| == |roots| == |chals|
    && forall i :: 0 <= i < |chals| ==> IsSpacePart(f, d, chals[i], proofs[i], roots[i])
  }

  ghost predicate AllChainable(acc: MutiLevelAcc, indexs: seq<int>)
    reads acc`Contents, acc.store
  {
    forall i :: 0 <= i < |indexs| ==> Chainable(acc, indexs[i])
  }

  ghost predicate AreChains(acc: MutiLevelAcc, indexs: seq<int>, chains: seq<WitnessNode>)
    reads acc`Contents, acc`Accs, acc.Accs
  {
    |chains| == |indexs| && forall i :: 0 <= i < |indexs| ==> IsChain(acc, indexs[i], chains[i])
  }

  /** The loop of ProveSpace. */
  method SpaceParts(f: FileId, files: LabelFiles, chals: seq<seq<int>>, ghost d: nat)
    returns (proofs: seq<MhtProof>, roots: seq<Bytes>, indexs: seq<int>, ok: bool)
    requires f.Ok() && f.e.N == Pow2(d) && HonestTops(f, files) && SpaceChallenges(f.e, chals)
    ensures ok <==> HasTops(files, f.e.K, ChallengedFiles(chals))
    ensures ok ==>
              AreSpaceParts(f, d, chals, proofs, roots) && indexs == ChallengedFiles(chals)
  {
    hide HonestTops, HasLayer, IsSpacePart, Pow2, Expanders.Ok;
    ghost var numbers := ChallengedFiles(chals);
    proofs, roots, indexs := [], [], [];
    for i := 0 to |chals|
      invariant |proofs| == |roots| == |indexs| == i
      invariant forall k :: 0 <= k < i ==> HasLayer(files, f.e.K, numbers[k]) && indexs[k] == numbers[k]
      invariant forall k :: 0 <= k < i ==> IsSpacePart(f, d, chals[k], proofs[k], roots[k])
    {
      assert SpaceChallenge(f.e, chals[i]) && numbers[i] == chals[i][0];
      if !HasLayer(files, f.e.K, chals[i][0]) {
        return [], [], [], false;
      }
      var m, root := SpacePart(f, files, chals[i], d);
      proofs, roots, indexs := proofs + [m], roots + [root], indexs + [chals[i][0]];
    }
    ok := true;
  }

  /** The body of ProveSpace's loop. */
  method SpacePart(f: FileId, files: LabelFiles, chal: seq<int>, ghost d: nat) returns (m: MhtProof, root: Bytes)
    requires f.Ok() && f.e.N == Pow2(d) && SpaceChallenge(f.e, chal) && HonestTops(f, files)
    requires HasLayer(files, f.e.K, chal[0])
    ensures IsSpacePart(f, d, chal, m, root)
  {
    hide FileId.LayerLabels, HoldsLevels, Hashed, MerkleRoot, MerklePath.IsPathOf, Pow2;
    var labels := files[(chal[0], f.e.K)];
    var g := FileOf(f, chal[0]);
    var mht := BuildTree(g, f.e.K, labels, d);
    TwoLeavesAtLeast(g, d);
    TreeSize(g, f.e.K, d, mht[..]);
    root := GetRoot(mht, f.hash, Hashed(f.hash, labels), d);
    var idx := chal[1] % HASH_SIZE;
    var r := MerklePath.GetPathProof(f.hash, mht, labels, idx, d);
    m := MhtProof(chal[1], labels[idx], r.proof.Path, r.proof.Locs);
  }

  function TopRoots(f: FileId, numbers: seq<int>, d: nat): (roots: seq<Bytes>)
    requires f.Ok() && f.e.N == Pow2(d)
    ensures |roots| == |numbers|
  {
    seq(|numbers|, i requires 0 <= i < |numbers| => TopRoot(f, numbers[i], d))
  }

  /** ReadFileLabels and the tree over them. */
  method ReadTopRoot(f: FileId, files: LabelFiles, i: int, ghost d: nat) returns (root: Bytes)
    requires f.Ok() && f.e.N == Pow2(d) && HonestTops(f, files) && HasLayer(files, f.e.K, i)
    ensures root == TopRoot(f, i, d)
  {
    hide FileId.LayerLabels, FileId.LayerRoot, Pow2;
    root := RootOfLayer(FileOf(f, i), f.e.K, files[(i, f.e.K)], d);
  }

  /** DeleteElementsAndProof as ProveDeletion uses it. */
  method DeleteLabels(acc: MutiLevelAcc, num: int) returns (chain: WitnessNode, accs: seq<Bytes>, s: Status)
    requires acc.Valid() && acc.CurrCount > 0
    modifies acc, acc.Nodes, acc.store
    ensures acc.Valid()
    ensures s == Done <==> !old(acc.DeleteIllegal(num)) && !old(acc.NeededFileMissing(num, acc.store.files))
    ensures s == Done ==>
              && WellFormed(old(acc.Contents)) && old(acc.Contents) != [] && 0 < num <= LastCount(old(acc.Contents))
              && acc.Contents == Truncate(old(acc.Contents), num)
              && |accs| == DEFAULT_LEVEL == Length(chain) && accs[DEFAULT_LEVEL - 1] == acc.Accs.Value
              && (ProvesDelete(acc.key, chain, Deleted(old(acc.Contents), num), accs, old(acc.Accs.Value))
                  <==> SurvivorsDistinguished(acc.key, old(acc.Contents), num))
  {
    hide MutiLevelAcc.TreeOk, MutiLevelAcc.SnapshotOk, MutiLevelAcc.Meaning, MutiLevelAcc.FilesComplete, ProvesDelete,
         Length, WellFormed, Truncate, RootValue, SurvivorsDistinguished, Deleted, LastLeafNode;
    chain, accs, s := DeleteElementsAndProof(acc, num);
  }

  lemma DirGone(layers: LabelFiles, commits: CommitFiles, i: int)
    ensures var left := map p | p in layers && p.0 != i :: layers[p];
            Disk(left, commits - {i}) == Disk(layers, commits).WithoutFiles(i, i)
  {
    var left := map p | p in layers && p.0 != i :: layers[p];
    assert left == Disk(layers, commits).WithoutFiles(i, i).layers;
    assert commits - {i} == Disk(layers, commits).WithoutFiles(i, i).commits;
  }

  lemma TopsWithout(f: FileId, layers: LabelFiles, i: int)
    requires f.Ok() && HonestTops(f, layers)
    ensures HonestTops(f, map p | p in layers && p.0 != i :: layers[p])
  {
    hide FileId.LayerLabels;
    var left := map p | p in layers && p.0 != i :: layers[p];
    forall n | HasLayer(left, f.e.K, n) ensures left[(n, f.e.K)] == FileOf(f, n).LayerLabels(f.e.K) {
      assert HasLayer(layers, f.e.K, n);
    }
  }

  /** Of the num files after start all are gone, or those before the first whose top layer was missing; all
      others are as before. */
  ghost predicate FilesTaken(before: Disk, after: Disk, k: int, start: int, num: nat, all: bool) {
    if all then after == before.WithoutFiles(start + 1, start + num)
    else exists m :: FilesTakenTo(before, after, k, start, num, m)
  }

  ghost predicate FilesTakenTo(before: Disk, after: Disk, k: int, start: int, num: nat, m: int) {
    && start < m <= start + num && !HasLayer(before.layers, k, m)
    && (forall i :: start < i < m ==> HasLayer(before.layers, k, i))
    && after == before.WithoutFiles(start + 1, m - 1)
  }

  /** The first i of the files after start are taken. */
  ghost predicate Taking(f: FileId, before: Disk, now: Disk, start: int, i: nat, roots: seq<Bytes>, d: nat)
    requires f.Ok() && f.e.N == Pow2(d)
  {
    && |roots| == i && now == before.WithoutFiles(start + 1, start + i)
    && forall k :: 0 <= k < i ==> Took(f, before, start, roots, k, d)
  }

  /** File number k after start had its top layer, and its root is in the list. */
  predicate Took(f: FileId, before: Disk, start: int, roots: seq<Bytes>, k: nat, d: nat)
    requires f.Ok() && f.e.N == Pow2(d) && k < |roots|
  {
    HasLayer(before.layers, f.e.K, start + 1 + k) && roots[k] == TopRoot(f, start + 1 + k, d)
  }

  lemma TakingStart(f: FileId, before: Disk, start: int, d: nat)
    requires f.Ok() && f.e.N == Pow2(d)
    ensures Taking(f, before, before, start, 0, [], d)
  {
    before.NoneGone(start + 1, start);
  }

  lemma TakingNext(f: FileId, before: Disk, now: Disk, after: Disk, start: int, i: nat, roots: seq<Bytes>, d: nat,
                   number: int)
    requires f.Ok() && f.e.N == Pow2(d) && Taking(f, before, now, start, i, roots, d) && number == start + i + 1
    requires HasLayer(now.layers, f.e.K, number) && after == now.WithoutFiles(number, number)
    ensures Taking(f, before, after, start, i + 1, roots + [TopRoot(f, number, d)], d)
  {
    hide TopRoot, Pow2, Disk.WithoutFiles, HasLayer, Expanders.Ok;
    before.OneMoreGone(start + 1, number);
    before.TopLeft(start + 1, number - 1, f.e.K, number);
    var more := roots + [TopRoot(f, number, d)];
    forall k | 0 <= k < i + 1 ensures Took(f, before, start, more, k, d) {
      if k < i {
        assert Took(f, before, start, roots, k, d);
      }
    }
  }

  lemma TakingStops(f: FileId, before: Disk, now: Disk, start: int, i: nat, roots: seq<Bytes>, d: nat, num: nat,
                    number: int)
    requires f.Ok() && f.e.N == Pow2(d) && Taking(f, before, now, start, i, roots, d) && number == start + i + 1
    requires i < num && !HasLayer(now.layers, f.e.K, number)
    ensures !HasTops(before.layers, f.e.K, Numbers(start, num)) && FilesTaken(before, now, f.e.K, start, num, false)
  {
    hide TopRoot, Pow2, Disk.WithoutFiles, HasLayer, Expanders.Ok;
    before.TopLeft(start + 1, number - 1, f.e.K, number);
    assert Numbers(start, num)[i] == number;
    forall n | start < n < number ensures HasLayer(before.layers, f.e.K, n) {
      assert Took(f, before, start, roots, n - start - 1, d);
    }
    assert FilesTakenTo(before, now, f.e.K, start, num, number);
  }

  lemma TakingEnds(f: FileId, before: Disk, now: Disk, start: int, num: nat, roots: seq<Bytes>, d: nat)
    requires f.Ok() && f.e.N == Pow2(d) && Taking(f, before, now, start, num, roots, d)
    ensures HasTops(before.layers, f.e.K, Numbers(start, num)) && roots == TopRoots(f, Numbers(start, num), d)
    ensures FilesTaken(before, now, f.e.K, start, num, true)
  {
    hide TopRoot, Pow2, Disk.WithoutFiles, HasLayer, Expanders.Ok;
    forall k | 0 <= k < num
      ensures HasLayer(before.layers, f.e.K, Numbers(start, num)[k])
      ensures roots[k] == TopRoot(f, Numbers(start, num)[k], d)
    {
      assert Took(f, before, start, roots, k, d);
    }
  }

  /** The prover's directory. */
  datatype Disk = Disk(layers: LabelFiles, commits: CommitFiles) {
    /** How many layer files of number i, from layer j on, there are in a row below layer k. */
    function LayersGone(k: int, i: int, j: nat): (n: nat)
      ensures n >= j
      decreases k - j
    {
      if j >= k || (i, j) !in layers then j else LayersGone(k, i, j + 1)
    }

    /** Without the directories of the files from first to last. */
    function WithoutFiles(first: int, last: int): Disk {
      Disk(map p | p in layers && !(first <= p.0 <= last) :: layers[p],
           map i | i in commits && !(first <= i <= last) :: commits[i])
    }

    lemma TopLeft(first: int, last: int, k: int, n: int)
      ensures HasLayer(WithoutFiles(first, last).layers, k, n) <==> HasLayer(layers, k, n) && !(first <= n <= last)
    {
    }

    lemma NoneGone(first: int, last: int)
      requires last < first
      ensures WithoutFiles(first, last) == this
    {
      assert WithoutFiles(first, last).layers == layers && WithoutFiles(first, last).commits == commits;
    }

    lemma OneMoreGone(first: int, last: int)
      requires first <= last
      ensures WithoutFiles(first, last - 1).WithoutFiles(last, last) == WithoutFiles(first, last)
    {
      var a, b := WithoutFiles(first, last - 1).WithoutFiles(last, last), WithoutFiles(first, last);
      assert a.layers == b.layers && a.commits == b.commits;
    }

    function WithoutLayers(i: int, n: nat): LabelFiles {
      map p | p in layers && !(p.0 == i && 0 <= p.1 < n) :: layers[p]
    }

    function DropLayers(k: int, i: int): Disk {
      Disk(WithoutLayers(i, LayersGone(k, i, 0)), commits)
    }

    /** organizeFiles for the numbers i to last. */
    function Organized(k: int, i: int, last: int): Disk
      decreases last - i + 1
    {
      if i > last then this
      else
        var d := DropLayers(k, i);
        if LayersGone(k, i, 0) < k || i !in commits then d else d.(commits := commits - {i}).Organized(k, i + 1, last)
    }

    /** organizeFiles for the num numbers after count. */
    function OrganizedAfter(k: int, count: int, num: int): Disk {
      Organized(k, count + 1, count + num)
    }

    lemma OrganizedStep(k: int, i: int, last: int)
      requires i <= last
      ensures Organized(k, i, last)
              == if LayersGone(k, i, 0) < k || i !in commits then DropLayers(k, i)
                 else DropLayers(k, i).(commits := commits - {i}).Organized(k, i + 1, last)
    {
    }

    /** Files of number i as in d. */
    ghost predicate SameFiles(d: Disk, i: int) {
      && (i in commits <==> i in d.commits) && (i in commits ==> commits[i] == d.commits[i])
      && forall j: int ::
           ((i, j) in layers <==> (i, j) in d.layers) && ((i, j) in layers ==> layers[(i, j)] == d.layers[(i, j)])
    }

    /** Every file here is in d, too, and the same. */
    ghost predicate Within(d: Disk) {
      && (forall x :: x in commits ==> x in d.commits && commits[x] == d.commits[x])
      && forall x :: x in layers ==> x in d.layers && layers[x] == d.layers[x]
    }

    /** All files of number i are there up to layer k. */
    predicate HasAll(k: int, i: int) {
      i in commits && forall j :: 0 <= j < k ==> (i, j) in layers
    }

    /** Of number i only the layers from k on are left. */
    predicate OnlyTop(k: int, i: int) {
      i !in commits && forall j :: 0 <= j < k ==> (i, j) !in layers
    }

    lemma {:induction false} AllGone(k: nat, i: int, j: nat)
      requires j <= k
      ensures LayersGone(k, i, j) <= k
      ensures LayersGone(k, i, j) == k <==> forall m :: j <= m < k ==> (i, m) in layers
      decreases k - j
    {
      if j < k && (i, j) in layers {
        AllGone(k, i, j + 1);
      }
    }

    /** Numbers outside the range keep their files. */
    lemma {:induction false} OthersKept(k: nat, i: int, last: int, x: int)
      requires x < i || x > last
      ensures Organized(k, i, last).SameFiles(this, x)
      decreases last - i + 1
    {
      if i <= last {
        OrganizedStep(k, i, last);
        if !(LayersGone(k, i, 0) < k || i !in commits) {
          DropLayers(k, i).(commits := commits - {i}).OthersKept(k, i + 1, last, x);
        }
      }
    }

    /** Nothing new appears. */
    lemma {:induction false} OnlyDeletes(k: int, i: int, last: int)
      ensures Organized(k, i, last).Within(this)
      decreases last - i + 1
    {
      if i <= last {
        OrganizedStep(k, i, last);
        if !(LayersGone(k, i, 0) < k || i !in commits) {
          DropLayers(k, i).(commits := commits - {i}).OnlyDeletes(k, i + 1, last);
        }
      }
    }

    /** Top layers stay. */
    lemma {:induction false} TopsStay(k: nat, i: int, last: int, x: int)
      ensures (x, k) in layers ==> (x, k) in Organized(k, i, last).layers
      decreases last - i + 1
    {
      if i <= last {
        OrganizedStep(k, i, last);
        AllGone(k, i, 0);
        if !(LayersGone(k, i, 0) < k || i !in commits) {
          DropLayers(k, i).(commits := commits - {i}).TopsStay(k, i + 1, last, x);
        }
      }
    }

    /** It stops at the first number of which something is missing: later numbers keep all, and of this one
        only the layers below the first missing one go. */
    lemma {:induction false} StopsAtMissing(k: nat, i: int, last: int, m: int, x: int)
      requires i <= m <= last && !HasAll(k, m) && (forall y :: i <= y < m ==> HasAll(k, y)) && x > m
      ensures Organized(k, i, last).SameFiles(this, x)
      ensures var d := Organized(k, i, last);
              && (m in d.commits <==> m in commits)
              && forall j: int :: (m, j) in d.layers <==> (m, j) in layers && !(0 <= j < LayersGone(k, m, 0))
      ensures LayersGone(k, m, 0) < k ==> (m, LayersGone(k, m, 0)) !in layers
      decreases last - i + 1
    {
      hide LayersGone, Organized;
      OrganizedStep(k, i, last);
      AllGone(k, i, 0);
      FirstGap(k, m, 0);
      if i < m {
        assert HasAll(k, i);
        var d := DropLayers(k, i).(commits := commits - {i});
        forall y | i + 1 <= y < m ensures d.HasAll(k, y) {
          assert HasAll(k, y);
        }
        d.StopsAtMissing(k, i + 1, last, m, x);
        SameGap(d, k, m, 0);
      }
    }

    lemma {:induction false} FirstGap(k: int, i: int, j: nat)
      ensures LayersGone(k, i, j) < k ==> (i, LayersGone(k, i, j)) !in layers
      ensures forall l :: j <= l < LayersGone(k, i, j) ==> (i, l) in layers
      decreases k - j
    {
      if j < k && (i, j) in layers {
        FirstGap(k, i, j + 1);
      }
    }

    lemma {:induction false} SameGap(d: Disk, k: int, i: int, j: nat)
      requires forall l: int :: (i, l) in layers <==> (i, l) in d.layers
      ensures LayersGone(k, i, j) == d.LayersGone(k, i, j)
      decreases k - j
    {
      if j < k && (i, j) in layers {
        SameGap(d, k, i, j + 1);
      }
    }

    /** The file after the range's start: its commit file is lost exactly when nothing is missing. */
    lemma NextFileLost(k: nat, count: int, num: int)
      requires num >= 1
      ensures count + 1 in Organized(k, count + 1, count + num).commits <==>
                count + 1 in commits && !HasAll(k, count + 1)
    {
      AllGone(k, count + 1, 0);
      OrganizedStep(k, count + 1, count + num);
      if HasAll(k, count + 1) {
        DropLayers(k, count + 1).(commits := commits - {count + 1}).OthersKept(k, count + 2, count + num, count + 1);
      }
    }

    /** So when the next file was generated in full before UpdateCount, its commit file is gone, and
        with it every later GetCommits or ProveAcc that needs it. */
    lemma NextRoundStarved(k: nat, count: int, num: int, m: int)
      requires num >= 1 && m >= 1 && HasAll(k, count + 1)
      ensures !AllThere(Organized(k, count + 1, count + num).commits, Numbers(count, m))
    {
      NextFileLost(k, count, num);
      assert Numbers(count, m)[0] == count + 1;
    }

    /** If all was there, only top layers stay in the range. */
    lemma {:induction false} RangeEmptied(k: nat, i: int, last: int, x: int)
      requires i <= x <= last && forall m :: i <= m <= last ==> HasAll(k, m)
      ensures Organized(k, i, last).OnlyTop(k, x)
      decreases last - i + 1
    {
      hide LayersGone, Organized;
      OrganizedStep(k, i, last);
      assert HasAll(k, i);
      AllGone(k, i, 0);
      var d := DropLayers(k, i).(commits := commits - {i});
      if x == i {
        d.OthersKept(k, i + 1, last, i);
        assert d.OnlyTop(k, i);
      } else {
        forall m | i + 1 <= m <= last ensures d.HasAll(k, m) {
          assert HasAll(k, m);
        }
        d.RangeEmptied(k, i + 1, last, x);
      }
    }
  }

  /** AddElementsAndProof as ProveAcc uses it. */
  method AddLabels(acc: MutiLevelAcc, labels: seq<Bytes>) returns (chain: WitnessNode, accs: seq<Bytes>, s: Status)
    requires acc.Valid()
    modifies acc, acc.Nodes, acc.store
    ensures fresh(acc.Nodes - old(acc.Nodes))
    ensures s.Failed? ==> acc.Contents == old(acc.Contents) && acc.Accs.Value == old(acc.Accs.Value)
    ensures |labels| <= DEFAULT_ELEMS_NUM ==> acc.Valid() && (old(acc.FilesComplete()) ==> acc.FilesComplete())
    ensures !old(acc.Illegal(|labels|)) && old(acc.FilesComplete()) ==> s == Done
    ensures old(acc.FilesComplete()) && 1 <= |labels| <= DEFAULT_ELEMS_NUM ==>
              && WellFormed(old(acc.Contents))
              && (s == Done <==> Canonical(Append(old(acc.Contents), labels)))
    ensures s == Done ==>
              && labels != [] && WellFormed(old(acc.Contents)) && acc.Contents == Append(old(acc.Contents), labels)
              && |accs| == DEFAULT_LEVEL == Length(chain) && accs[DEFAULT_LEVEL - 1] == acc.Accs.Value
              && ProvesInsert(acc.key, chain, labels, accs, old(acc.Accs.Value))
  {
    hide MutiLevelAcc.TreeOk, MutiLevelAcc.SnapshotOk, MutiLevelAcc.Meaning, MutiLevelAcc.FilesComplete, ProvesInsert,
         Length, WellFormed, Canonical, Append, InsertChain, RootValue, PathValues, AddOutcome;
    if acc.FilesComplete() {
      acc.LastFilePresent();
    }
    chain, accs, s := AddElementsAndProof(acc, labels);
    if s == Done {
      AppendNonempty(old(acc.Contents), labels);
      LastIsRoot(acc.key, acc.Contents, accs);
    }
  }

  lemma AppendNonempty(t: Groups, xs: Chunk)
    requires WellFormed(t) && xs != []
    ensures WellFormed(Append(t, xs)) && Append(t, xs) != []
  {
  }
}
