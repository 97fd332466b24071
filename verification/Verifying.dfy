/** The verifier (pois/verify.go): what it keeps about each prover, and its operations. */
module Verifying {
  import opened ByteStrings
  import Buffers
  import opened Hashing
  import opened FlatAcc
  import opened WitnessChain
  import opened Wrappers
  import opened CalcParents
  import opened IdleFile
  import opened CommitProving
  import opened CommitChecking
  import opened FileLabels

  const MAX_BUF_SIZE: nat := 64
  const PICK: nat := 1

  /** Root hashes and their hash are in order. */
  predicate ValidCommit(f: FileId, c: Commit)
    requires f.Ok()
  {
    |c.Roots| == f.e.K + 2 && c.Roots[f.e.K + 1] == Digest(f.hash, Concat(c.Roots[..f.e.K + 1]))
  }

  /** How many commits from number i on are valid, up to the first that is not. */
  function ValidPrefix(f: FileId, commits: seq<Commit>, i: nat): (k: nat)
    requires f.Ok() && i <= |commits|
    ensures i <= k <= |commits|
    decreases |commits| - i
  {
    if i == |commits| || !ValidCommit(f, commits[i]) then i else ValidPrefix(f, commits, i + 1)
  }

  /** The commits there is room for under the limit. */
  function Clip(commits: seq<Commit>, bufSize: int): (r: seq<Commit>)
    requires bufSize <= MAX_BUF_SIZE
    ensures |r| <= MAX_BUF_SIZE - bufSize
  {
    if |commits| > MAX_BUF_SIZE - bufSize then commits[..MAX_BUF_SIZE - bufSize] else commits
  }

  method CheckCommit(f: FileId, c: Commit) returns (ok: bool)
    requires f.Ok()
    ensures ok <==> ValidCommit(f, c)
  {
    hide Digest;
    if |c.Roots| != f.e.K + 2 {
      return false;
    }
    var bytes: Bytes := [];
    assert c.Roots[..0] == [] && Concat([]) == [];
    for j := 0 to |c.Roots| - 1
      invariant bytes == Concat(c.Roots[..j])
    {
      Buffers.ConcatSnoc(c.Roots[..j], c.Roots[j]);
      assert c.Roots[..j + 1] == c.Roots[..j] + [c.Roots[j]];
      bytes := bytes + c.Roots[j];
    }
    return c.Roots[f.e.K + 1] == Digest(f.hash, bytes);
  }

  class ProverNode {
    const ID: Bytes
    var CommitsBuf: seq<Commit>
    var BufSize: int
    var Acc: Bytes
    var Count: int

    constructor (id: Bytes, acc: Bytes)
      ensures ID == id && Acc == acc && Count == 0 && BufSize == 0
      ensures CommitsBuf == seq(MAX_BUF_SIZE, _ => Commit(0, []))
    {
      ID, Acc, Count, BufSize := id, acc, 0, 0;
      CommitsBuf := seq(MAX_BUF_SIZE, _ => Commit(0, []));
    }

    ghost predicate Valid()
      reads this`CommitsBuf, this`BufSize
    {
      0 <= BufSize <= |CommitsBuf| && BufSize <= MAX_BUF_SIZE
    }

    /** The commits that wait to be verified. */
    function Waiting(): seq<Commit>
      requires Valid()
      reads this`CommitsBuf, this`BufSize
    {
      CommitsBuf[..BufSize]
    }

    /** When commits wait, the program asks for the file of the first challenge. */
    predicate Addressed(chals: seq<seq<int>>)
      reads this`BufSize
    {
      BufSize > 0 ==> chals != [] && chals[0] != []
    }

    /** Where the program looks for the commits of a list of challenges. */
    function Position(chals: seq<seq<int>>): (i: nat)
      requires Valid()
      reads this`CommitsBuf, this`BufSize
      ensures i <= BufSize
    {
      if BufSize > 0 && chals != [] && chals[0] != [] then FirstMatch(CommitsBuf, BufSize, chals[0][0], 0) else 0
    }

    /** The buffered entries that the challenges are taken to be about; without roots when the buffer
        ends before. */
    function Challenged(chals: seq<seq<int>>): (cs: seq<Commit>)
      requires Valid()
      reads this`CommitsBuf, this`BufSize
      ensures |cs| == |chals|
    {
      Entries(CommitsBuf, Position(chals), |chals|)
    }

    /** The commits that ReceiveCommits takes: as many as the limit allows, up to the first bad one. */
    function Taken(f: FileId, commits: seq<Commit>): seq<Commit>
      requires f.Ok() && Valid()
      reads this`CommitsBuf, this`BufSize
    {
      var clipped := Clip(commits, BufSize);
      clipped[..ValidPrefix(f, clipped, 0)]
    }

    ghost predicate HasRoom(f: FileId, commits: seq<Commit>)
      requires f.Ok()
      reads this`CommitsBuf, this`BufSize
    {
      Valid() && BufSize + |Taken(f, commits)| <= |CommitsBuf|
    }

    /** The part of ReceiveCommits behind the lookup. */
    method Receive(f: FileId, commits: seq<Commit>) returns (ok: bool)
      requires f.Ok() && HasRoom(f, commits)
      modifies this`CommitsBuf, this`BufSize
      ensures Valid() && |CommitsBuf| == old(|CommitsBuf|)
      ensures Waiting() == old(Waiting()) + old(Taken(f, commits))
      ensures ok <==> old(Taken(f, commits)) == Clip(commits, old(BufSize))
    {
      hide ValidCommit, Clip;
      ghost var start := Waiting();
      var clipped := Clip(commits, BufSize);
      for i := 0 to |clipped|
        invariant Valid() && BufSize == old(BufSize) + i && |CommitsBuf| == old(|CommitsBuf|)
        invariant Waiting() == start + clipped[..i]
        invariant ValidPrefix(f, clipped, 0) == ValidPrefix(f, clipped, i)
      {
        var good := CheckCommit(f, clipped[i]);
        if !good {
          return false;
        }
        CommitsBuf := CommitsBuf[BufSize := clipped[i]];
        BufSize := BufSize + 1;
        assert Waiting() == start + clipped[..i] + [clipped[i]];
      }
      return true;
    }

    /** What VerifyCommitProofs needs so as not to run out of a slice. */
    ghost predicate CanCheck(f: FileId, chals: seq<seq<int>>, proofs: seq<seq<CommitProof>>, picks: seq<(nat, nat)>)
      requires f.Ok() && Valid()
      reads this`CommitsBuf, this`BufSize
    {
      Addressed(chals) && PicksShaped(f, chals, proofs, picks) && AllShaped(f, chals, proofs, Challenged(chals))
    }

    /** What VerifyCommitProofs checks. */
    ghost predicate Checks(f: FileId, chals: seq<seq<int>>, proofs: seq<seq<CommitProof>>, picks: seq<(nat, nat)>)
      requires f.Ok() && Valid()
      reads this`CommitsBuf, this`BufSize
    {
      && Addressed(chals) && DependenciesHold(f, chals, proofs, picks)
      && AllShaped(f, chals, proofs, Challenged(chals)) && AllAccepted(f, chals, proofs, Challenged(chals))
    }

    /** The place of the challenged commits; none when the program runs out of the challenges. */
    method FindChallenged(chals: seq<seq<int>>) returns (index: Option<nat>)
      requires Valid()
      ensures index == if Addressed(chals) then Some(Position(chals)) else None
    {
      if BufSize > 0 && (|chals| < 1 || |chals[0]| < 1) {
        return None;
      }
      if BufSize <= 0 {
        return Some(0);
      }
      var i := FindCommit(CommitsBuf, BufSize, chals[0][0]);
      index := Some(i);
    }

    /** The part of VerifyCommitProofs behind the lookup and the check of sizes. */
    method Check(f: FileId, chals: seq<seq<int>>, proofs: seq<seq<CommitProof>>, picks: seq<(nat, nat)>)
      returns (r: Verdict)
      requires f.Ok() && Valid() && |chals| == |proofs|
      requires forall k :: 0 <= k < |picks| ==> RandomPick(f, proofs, picks[k])
      ensures r.Accepted? <==> Checks(f, chals, proofs, picks)
      ensures r.Panicked? ==> !CanCheck(f, chals, proofs, picks)
    {
      hide AllShaped, AllAccepted, DependenciesHold, PicksShaped, RandomPick, FirstMatch;
      r := VerifyNodeDependencies(f, chals, proofs, picks);
      if !r.Accepted? {
        return;
      }
      var index := FindChallenged(chals);
      if index.None? {
        return Panicked;
      }
      r := CheckAll(f, chals, proofs, Entries(CommitsBuf, index.value, |chals|));
    }

    /** What VerifyAcc needs so as not to run out of a slice. */
    ghost predicate CanSettle(f: FileId, chals: seq<seq<int>>, proof: AccProof)
      requires f.Ok() && Valid()
      reads this`CommitsBuf, this`BufSize
    {
      && Addressed(chals) && AccShaped(f, chals, proof, Challenged(chals))
      && Length(proof.WitChains) <= |proof.AccPath|
    }

    /** What VerifyAcc checks. */
    ghost predicate Settles(key: Key, f: FileId, chals: seq<seq<int>>, proof: AccProof)
      requires f.Ok() && Valid()
      reads this`CommitsBuf, this`BufSize, this`Acc
    {
      && Addressed(chals) && AccShaped(f, chals, proof, Challenged(chals))
      && AccAccepted(key, f, chals, proof, Challenged(chals), Acc)
    }

    /** The part of VerifyAcc behind the lookup and the check of sizes. */
    method Settle(key: Key, f: FileId, chals: seq<seq<int>>, proof: AccProof) returns (r: Verdict)
      requires f.Ok() && Valid() && |chals| == |proof.Indexs| && |chals| <= BufSize
      modifies this`CommitsBuf, this`BufSize, this`Acc, this`Count
      ensures r.Accepted? <==> old(Settles(key, f, chals, proof))
      ensures r.Panicked? ==> !old(CanSettle(f, chals, proof))
      ensures !r.Accepted? ==>
                CommitsBuf == old(CommitsBuf) && BufSize == old(BufSize) && Acc == old(Acc) && Count == old(Count)
      ensures r.Accepted? ==>
                && proof.AccPath != [] && Acc == proof.AccPath[|proof.AccPath| - 1] && Count == old(Count) + |chals|
                && BufSize == old(BufSize) - |chals| && old(Position(chals)) + |chals| <= old(|CommitsBuf|)
                && CommitsBuf
                   == old(CommitsBuf)[..old(Position(chals))] + old(CommitsBuf)[old(Position(chals)) + |chals|..]
    {
      hide AccShaped, FirstMatch, AccAccepted, Length;
      var index := FindChallenged(chals);
      if index.None? {
        return Panicked;
      }
      var at := index.value;
      r := CheckAcc(key, f, chals, proof, Entries(CommitsBuf, at, |chals|), Acc);
      if !r.Accepted? {
        return;
      }
      AcceptedPath(key, f, chals, proof, Challenged(chals), Acc);
      AcceptedInside(f, chals, proof, CommitsBuf, at);
      Acc := proof.AccPath[|proof.AccPath| - 1];
      CommitsBuf := CommitsBuf[..at] + CommitsBuf[at + |chals|..];
      BufSize := BufSize - |chals|;
      Count := Count + |chals|;
    }

    /** The part of VerifyDeletion behind the lookup. */
    method CheckDeletion(key: Key, f: FileId, proof: DeletionProof) returns (r: Verdict)
      ensures BufSize > 0 ==> r == Rejected(CommitsPending)
      ensures BufSize <= 0 && |proof.Roots| > Count ==> r == Rejected(FileNumberOutOfRange)
      ensures BufSize <= 0 && |proof.Roots| <= Count ==>
                && (r.Accepted? <==>
                     ProvesDelete(key, proof.WitChain, DeletedLabels(f, proof.Roots, Count), proof.AccPath, Acc))
                && (r.Panicked? ==> Length(proof.WitChain) > |proof.AccPath|)
    {
      hide ProvesDelete, DeletedLabels, Length;
      if BufSize > 0 {
        return Rejected(CommitsPending);
      }
      if |proof.Roots| > Count {
        return Rejected(FileNumberOutOfRange);
      }
      var labels := ComputeDeletedLabels(f, proof.Roots, Count);
      var ok := VerifyDeleteUpdate(key, proof.WitChain, labels, proof.AccPath, Acc);
      r := Judged(ok);
    }
  }

  /** n entries of the buffer from the one at this place; entries behind the end have no roots. */
  function Entries(buf: seq<Commit>, at: nat, n: nat): (cs: seq<Commit>)
    ensures |cs| == n
    ensures at + n <= |buf| ==> cs == buf[at..at + n]
  {
    seq(n, i requires 0 <= i < n => if at + i < |buf| then buf[at + i] else Commit(0, []))
  }

  lemma AcceptedInside(f: FileId, chals: seq<seq<int>>, proof: AccProof, buf: seq<Commit>, at: nat)
    requires f.Ok() && AccShaped(f, chals, proof, Entries(buf, at, |chals|)) && at <= |buf|
    ensures at + |chals| <= |buf|
  {
    if |chals| > 0 {
      assert FileShaped(f, chals[|chals| - 1], Entries(buf, at, |chals|)[|chals| - 1]);
    }
  }

  lemma AcceptedPath(key: Key, f: FileId, chals: seq<seq<int>>, proof: AccProof, commits: seq<Commit>, acc: Bytes)
    requires f.Ok() && AccShaped(f, chals, proof, commits) && AccAccepted(key, f, chals, proof, commits, acc)
    ensures proof.AccPath != []
  {
  }

  class Verifier {
    const key: Key
    const e: Expanders
    const hash: Hash
    var Nodes: map<Bytes, ProverNode>

    constructor (k: Key, ex: Expanders, h: Hash)
      ensures key == k && e == ex && hash == h && Nodes == map[]
    {
      key, e, hash, Nodes := k, ex, h, map[];
    }

    function Miner(ID: Bytes): (f: FileId)
      ensures f.e == e && f.hash == hash && f.id == ID
    {
      FileId(e, hash, ID, 0)
    }

    method RegisterProverNode(ID: Bytes) returns (ok: bool)
      modifies this
      ensures ok <==> ID !in old(Nodes)
      ensures !ok ==> Nodes == old(Nodes)
      ensures ok ==>
                && Nodes.Keys == old(Nodes).Keys + {ID} && fresh(Nodes[ID])
                && (forall id :: id in old(Nodes) ==> Nodes[id] == old(Nodes)[id])
                && Nodes[ID].ID == ID && Nodes[ID].Valid() && Nodes[ID].Waiting() == []
                && Nodes[ID].Acc == ToBytes(key.G) && Nodes[ID].Count == 0 && |Nodes[ID].CommitsBuf| == MAX_BUF_SIZE
    {
      if ID in Nodes {
        return false;
      }
      var node := new ProverNode(ID, ToBytes(key.G));
      Nodes := Nodes[ID := node];
      return true;
    }

    /** ReceiveCommits, for a registered prover whose buffer is long enough for what is accepted. */
    method ReceiveCommits(ID: Bytes, commits: seq<Commit>) returns (ok: bool)
      requires e.Ok() && (ID in Nodes ==> Nodes[ID].HasRoom(Miner(ID), commits))
      modifies if ID in Nodes then {Nodes[ID]} else {}
      ensures ID !in Nodes || Nodes[ID].ID != ID ==> !ok
      ensures ID in Nodes ==>
                && Nodes[ID].Valid() && Nodes[ID].Acc == old(Nodes[ID].Acc) && Nodes[ID].Count == old(Nodes[ID].Count)
                && |Nodes[ID].CommitsBuf| == old(|Nodes[ID].CommitsBuf|)
      ensures ID in Nodes && Nodes[ID].ID != ID ==> Nodes[ID].Waiting() == old(Nodes[ID].Waiting())
      ensures ID in Nodes && Nodes[ID].ID == ID ==>
                && var taken := old(Nodes[ID].Taken(Miner(ID), commits));
                   && Nodes[ID].Waiting() == old(Nodes[ID].Waiting()) + taken
                   && (ok <==> taken == Clip(commits, old(Nodes[ID].BufSize)))
    {
      if ID !in Nodes {
        return false;
      }
      var node := Nodes[ID];
      if node.ID != ID {
        return false;
      }
      ok := node.Receive(Miner(ID), commits);
    }

    /** CommitChallenges, with its random draws: for each buffered commit from left to right, a place
        in the top layer and K choices among D + 1 parents. */
    method CommitChallenges(ID: Bytes, left: int, right: int, draws: seq<(int, seq<int>)>)
      returns (chals: seq<seq<int>>, ok: bool)
      requires e.Ok() && (ID in Nodes ==> Nodes[ID].Valid())
      requires left < right ==> |draws| == right - left && forall i :: 0 <= i < |draws| ==> Drawn(e, draws[i])
      ensures ok <==> ID in Nodes && 0 <= left < right <= Nodes[ID].BufSize
      ensures ok ==>
                && |chals| == right - left
                && forall i :: 0 <= i < |chals| ==>
                     && IsChallenge(e, chals[i]) && |chals[i]| >= 2
                     && chals[i][0] == Nodes[ID].CommitsBuf[left + i].FileIndex
                     && chals[i][1] == draws[i].0 + e.N * e.K && chals[i][2..] == draws[i].1
    {
      if ID !in Nodes {
        return [], false;
      }
      var node := Nodes[ID];
      if right - left <= 0 || right > node.BufSize || left < 0 {
        return [], false;
      }
      chals, ok := [], true;
      for i := left to right
        invariant |chals| == i - left
        invariant forall j :: 0 <= j < |chals| ==>
                    chals[j] == ChallengeOf(e, node.CommitsBuf[left + j].FileIndex, draws[j])
      {
        chals := chals + [ChallengeOf(e, node.CommitsBuf[i].FileIndex, draws[i - left])];
      }
    }

    method VerifyCommitProofs(ID: Bytes, chals: seq<seq<int>>, proofs: seq<seq<CommitProof>>, picks: seq<(nat, nat)>)
      returns (r: Verdict)
      requires e.Ok() && (ID in Nodes ==> Nodes[ID].Valid())
      requires |picks| == if |proofs| < PICK then |proofs| else PICK
      requires forall k :: 0 <= k < |picks| ==> RandomPick(Miner(ID), proofs, picks[k])
      ensures ID !in Nodes ==> r == Rejected(ProverNotFound)
      ensures ID in Nodes && !(|chals| == |proofs| <= Nodes[ID].BufSize) ==> r == Rejected(BadProofData)
      ensures ID in Nodes && |chals| == |proofs| <= Nodes[ID].BufSize ==>
                && (r.Accepted? <==> Nodes[ID].Checks(Miner(ID), chals, proofs, picks))
                && (r.Panicked? ==> !Nodes[ID].CanCheck(Miner(ID), chals, proofs, picks))
    {
      hide RandomPick, ProverNode.Checks, ProverNode.CanCheck;
      if ID !in Nodes {
        return Rejected(ProverNotFound);
      }
      var node := Nodes[ID];
      if |chals| != |proofs| || |chals| > node.BufSize {
        return Rejected(BadProofData);
      }
      r := node.Check(Miner(ID), chals, proofs, picks);
    }

    /** VerifyAcc: on success the prover's accumulator, count and buffer move on; else nothing does. */
    method VerifyAcc(ID: Bytes, chals: seq<seq<int>>, proof: AccProof) returns (r: Verdict)
      requires e.Ok() && (ID in Nodes ==> Nodes[ID].Valid())
      modifies if ID in Nodes then {Nodes[ID]} else {}
      ensures ID !in Nodes ==> r == Rejected(ProverNotFound)
      ensures ID in Nodes && !(|chals| == |proof.Indexs| <= old(Nodes[ID].BufSize)) ==> r == Rejected(BadProofData)
      ensures ID in Nodes && |chals| == |proof.Indexs| <= old(Nodes[ID].BufSize) ==>
                && (r.Accepted? <==> old(Nodes[ID].Settles(key, Miner(ID), chals, proof)))
                && (r.Panicked? ==> !old(Nodes[ID].CanSettle(Miner(ID), chals, proof)))
      ensures ID in Nodes && !r.Accepted? ==>
                && Nodes[ID].CommitsBuf == old(Nodes[ID].CommitsBuf) && Nodes[ID].BufSize == old(Nodes[ID].BufSize)
                && Nodes[ID].Acc == old(Nodes[ID].Acc) && Nodes[ID].Count == old(Nodes[ID].Count)
      ensures ID in Nodes && r.Accepted? ==>
                && var n, i := Nodes[ID], old(Nodes[ID].Position(chals));
                   && proof.AccPath != [] && n.Acc == proof.AccPath[|proof.AccPath| - 1]
                   && n.Count == old(n.Count) + |chals| && n.BufSize == old(n.BufSize) - |chals|
                   && i + |chals| <= old(|n.CommitsBuf|)
                   && n.CommitsBuf == old(n.CommitsBuf)[..i] + old(n.CommitsBuf)[i + |chals|..]
    {
      hide ProverNode.Settles, ProverNode.CanSettle, ProverNode.Position;
      if ID !in Nodes {
        return Rejected(ProverNotFound);
      }
      var node := Nodes[ID];
      if |chals| != |proof.Indexs| || |chals| > node.BufSize {
        return Rejected(BadProofData);
      }
      r := node.Settle(key, Miner(ID), chals, proof);
    }

    method VerifySpace(ID: Bytes, chals: seq<seq<int>>, proof: SpaceProof) returns (r: Verdict)
      ensures ID !in Nodes ==> r == Rejected(ProverNotFound)
      ensures ID in Nodes && |chals| != |proof.Roots| ==> r == Rejected(BadProofData)
      ensures ID in Nodes && |chals| == |proof.Roots| ==>
                && (r.Accepted? <==> SpaceAccepted(key, Miner(ID), chals, proof, Nodes[ID].Acc))
                && (r.Panicked? ==> !SpaceShaped(chals, proof))
    {
      hide SpaceShaped, SpaceAccepted;
      if ID !in Nodes {
        return Rejected(ProverNotFound);
      }
      if |chals| != |proof.Roots| {
        return Rejected(BadProofData);
      }
      r := CheckSpaceProof(key, Miner(ID), chals, proof, Nodes[ID].Acc);
    }

    method VerifyDeletion(ID: Bytes, proof: DeletionProof) returns (r: Verdict)
      ensures ID !in Nodes ==> r == Rejected(ProverNotFound)
      ensures ID in Nodes && Nodes[ID].BufSize > 0 ==> r == Rejected(CommitsPending)
      ensures ID in Nodes && Nodes[ID].BufSize <= 0 && |proof.Roots| > Nodes[ID].Count ==>
                r == Rejected(FileNumberOutOfRange)
      ensures ID in Nodes && Nodes[ID].BufSize <= 0 && |proof.Roots| <= Nodes[ID].Count ==>
                && (r.Accepted? <==>
                     ProvesDelete(key, proof.WitChain, DeletedLabels(Miner(ID), proof.Roots, Nodes[ID].Count),
                                  proof.AccPath, Nodes[ID].Acc))
                && (r.Panicked? ==> Length(proof.WitChain) > |proof.AccPath|)
    {
      hide ProvesDelete, DeletedLabels, Length;
      if ID !in Nodes {
        return Rejected(ProverNotFound);
      }
      r := Nodes[ID].CheckDeletion(key, Miner(ID), proof);
    }
  }

  /** One set of random draws. */
  predicate Drawn(e: Expanders, draw: (int, seq<int>)) {
    0 <= draw.0 < e.N && |draw.1| == e.K && forall j :: 0 <= j < |draw.1| ==> 0 <= draw.1[j] <= e.D
  }

  function ChallengeOf(e: Expanders, file: int, draw: (int, seq<int>)): (chal: seq<int>)
    requires e.Ok() && Drawn(e, draw)
    ensures IsChallenge(e, chal) && |chal| >= 2
  {
    [file, draw.0 + e.N * e.K] + draw.1
  }
}
