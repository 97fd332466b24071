/** Proving that an idle file was built as it should be (pois/prove.go): the nodes of a challenge
    with their parents and Merkle paths. */
module CommitProving {
  import opened ByteStrings
  import opened Division
  import opened CalcParents
  import opened LightMerkle
  import opened MerklePath
  import opened IdleFile

  datatype MhtProof = MhtProof(Index: int, Label: Bytes, Paths: seq<Bytes>, Locs: Bytes) {
    function Path(): PathProof {
      PathProof(Locs, Paths)
    }
  }

  datatype CommitProof = CommitProof(Node: MhtProof, Parents: seq<MhtProof>)

  datatype Result<T> = Ok(value: T) | BadNodeIndex | NoFile

  // ---------- honest proofs ----------

  function LayerOf(v: int, n: int): (l: nat)
    requires v >= 0 && n > 0
  {
    v / n
  }

  function PlaceOf(v: int, n: int): (j: nat)
    requires v >= 0 && n > 0
    ensures j < n
  {
    v % n
  }

  /** A node with its true label and the path to the root of its layer. */
  predicate IsMhtProof(f: FileId, d: nat, m: MhtProof)
    requires f.Ok() && f.e.N == Pow2(d)
  {
    && m.Index >= 0 && m.Label == f.Label(m.Index)
    && IsPathOf(f.hash, Hashed(f.hash, f.LayerLabels(LayerOf(m.Index, f.e.N))), d, PlaceOf(m.Index, f.e.N), m.Path())
  }

  /** The proof of node c: the node, and above the lowest layer its parents in order. */
  predicate IsCommitProof(f: FileId, d: nat, c: int, p: CommitProof)
    requires f.Ok() && f.e.N == Pow2(d)
  {
    && c >= 0 && p.Node.Index == c && IsMhtProof(f, d, p.Node)
    && if c < f.e.N then p.Parents == [] else AreParentProofs(f, d, f.Parents(c), p.Parents)
  }

  predicate AreParentProofs(f: FileId, d: nat, parents: seq<int>, ps: seq<MhtProof>)
    requires f.Ok() && f.e.N == Pow2(d)
  {
    |ps| == |parents| && forall i :: 0 <= i < |ps| ==> ps[i].Index == parents[i] && IsMhtProof(f, d, ps[i])
  }

  // ---------- the walk of a challenge ----------

  /** Node number t of the walk: it starts at chal[1] and each further entry picks a parent; -1 once
      there is none to pick. */
  function Walk(f: FileId, chal: seq<int>, t: nat): (v: int)
    requires f.Ok() && t + 1 < |chal|
  {
    if t == 0 then chal[1]
    else
      var v := Walk(f, chal, t - 1);
      if v >= f.e.N && 0 <= chal[t + 1] <= f.e.D then ParentNumber(f, v, chal[t + 1]) else -1
  }

  function ParentNumber(f: FileId, v: int, k: nat): (p: int)
    requires f.Ok() && v >= f.e.N && k <= f.e.D
    ensures v - f.e.N <= p < v
  {
    f.ParentsInRange(v);
    f.Parents(v)[k]
  }

  /** The shape CommitChallenges gives a challenge: a file, a node of the top layer, K choices. */
  predicate IsChallenge(e: Expanders, chal: seq<int>) {
    && e.Ok() && |chal| == e.K + 2 && e.N * e.K <= chal[1] < e.N * e.K + e.N
    && forall j :: 2 <= j < |chal| ==> 0 <= chal[j] <= e.D
  }

  /** The walk goes down one layer at most with each step, so it is always defined: node t lies in
      layer K - t or above, whatever the choices. */
  lemma {:induction false} WalkStaysHigh(f: FileId, chal: seq<int>, t: nat)
    requires f.Ok() && IsChallenge(f.e, chal) && t <= f.e.K
    ensures Walk(f, chal, t) >= 0
    ensures f.e.K - t <= Walk(f, chal, t) / f.e.N <= f.e.K
  {
    hide FileId.Parents;
    var n := f.e.N;
    if t == 0 {
      DivModUnique(chal[1], f.e.K, chal[1] - n * f.e.K, n);
    } else {
      WalkStaysHigh(f, chal, t - 1);
      var v := Walk(f, chal, t - 1);
      LayerAbove(v, n, f.e.K - (t - 1));
      OneLayerDown(v, Walk(f, chal, t), n);
    }
  }

  lemma LayerAbove(v: int, n: int, k: int)
    requires n > 0 && v / n >= k >= 1
    ensures v >= n
  {
    assert v == (v / n) * n + v % n;
    assert (v / n - 1) * n >= 0;
  }

  lemma OneLayerDown(v: int, p: int, n: int)
    requires n > 0 && v - n <= p < v
    ensures v / n - 1 <= p / n <= v / n
  {
    assert v == (v / n) * n + v % n && p == (p / n) * n + p % n;
    var a := v / n - 1 - p / n;
    assert a * n == (v / n) * n - n - (p / n) * n;
    assert a >= 1 ==> a * n >= n;
    var b := p / n - v / n;
    assert b * n == (p / n) * n - (v / n) * n;
    assert b >= 1 ==> b * n >= n;
  }

  // ---------- reading proofs off the label files ----------

  /** The label files, by file number and layer. */
  type LabelFiles = map<(int, int), seq<Bytes>>

  predicate Has(f: FileId, files: LabelFiles, l: int) {
    (f.count, l) in files
  }

  /** util.ReadFileToBuf */
  function Read(f: FileId, files: LabelFiles, l: int): seq<Bytes>
    requires Has(f, files, l)
  {
    files[(f.count, l)]
  }

  /** The label files of f that exist are as GenerateIdleFile wrote them. */
  ghost predicate FilesOf(f: FileId, files: LabelFiles)
    requires f.Ok()
  {
    forall l: nat :: Has(f, files, l) ==> Read(f, files, l) == f.LayerLabels(l)
  }

  lemma TrueLabels(f: FileId, files: LabelFiles, l: nat)
    requires f.Ok() && FilesOf(f, files) && Has(f, files, l)
    ensures Read(f, files, l) == f.LayerLabels(l)
  {
  }

  /** The files needed for node c are there. */
  predicate FilesFor(f: FileId, files: LabelFiles, c: int)
    requires f.Ok()
  {
    && c >= 0
    && var l := LayerOf(c, f.e.N);
       Has(f, files, l) && (l > 0 ==> Has(f, files, l - 1))
  }

  /** l is the layer of v, and j its place there. */
  lemma NumberParts(f: FileId, v: int, l: nat, j: nat)
    requires f.e.N > 0 && v >= 0
    ensures f.Number(LayerOf(v, f.e.N), PlaceOf(v, f.e.N)) == v
    ensures j < f.e.N && v == f.Number(l, j) ==> LayerOf(v, f.e.N) == l && PlaceOf(v, f.e.N) == j
  {
    if j < f.e.N && v == f.Number(l, j) {
      assert l * f.e.N == f.e.N * l;
      DivModUnique(v, l, j, f.e.N);
    }
  }

  /** One tree over the labels of layer l. */
  ghost predicate IsTreeOf(f: FileId, l: nat, d: nat, cells: seq<Bytes>)
    requires f.Ok() && f.e.N == Pow2(d)
  {
    HoldsLevels(f.hash, cells, Hashed(f.hash, f.LayerLabels(l)), d, d)
  }

  method BuildTree(f: FileId, l: nat, labels: seq<Bytes>, ghost d: nat) returns (mht: array<Bytes>)
    requires f.Ok() && f.e.N == Pow2(d) && labels == f.LayerLabels(l)
    ensures fresh(mht) && IsTreeOf(f, l, d, mht[..])
  {
    hide FileId.LayerLabels, HoldsLevels, Hashed;
    TwoLeavesAtLeast(f, d);
    mht := CalcLightMhtWithBytes(f.hash, labels, d);
  }

  /** Label and path of node v, which stands in layer l. */
  method ProveNode(f: FileId, v: int, labels: seq<Bytes>, mht: array<Bytes>, ghost d: nat) returns (m: MhtProof)
    requires f.Ok() && f.e.N == Pow2(d) && v >= 0 && labels == f.LayerLabels(LayerOf(v, f.e.N))
    requires IsTreeOf(f, LayerOf(v, f.e.N), d, mht[..])
    ensures m.Index == v && IsMhtProof(f, d, m)
  {
    hide FileId.Label, HoldsLevels, Hashed, IsPathOf, FileId.Number, Pow2;
    var index := v % f.e.N;
    TwoLeavesAtLeast(f, d);
    TreeSize(f, LayerOf(v, f.e.N), d, mht[..]);
    NumberParts(f, v, 0, 0);
    var r := GetPathProof(f.hash, mht, labels, index, d);
    m := MhtProof(v, labels[index], r.proof.Path, r.proof.Locs);
  }

  lemma TreeSize(f: FileId, l: nat, d: nat, cells: seq<Bytes>)
    requires f.Ok() && f.e.N == Pow2(d) && IsTreeOf(f, l, d, cells)
    ensures |cells| == f.e.N
  {
  }

  lemma LayerIndexRange(f: FileId, c: int)
    requires f.Ok()
    ensures var l := LayerIndex(c, f.e.N);
            && (l < 0 <==> c <= -f.e.N)
            && (l > f.e.K <==> c >= f.Total())
    ensures c >= 0 ==> LayerIndex(c, f.e.N) == LayerOf(c, f.e.N) && (LayerIndex(c, f.e.N) == 0 <==> c < f.e.N)
  {
    if c >= 0 {
      AtLeast(c, f.e.N, f.e.K + 1);
      AtLeast(c, f.e.N, 1);
      Quotient(c, f.e.N);
    } else {
      AtLeast(-c, f.e.N, 1);
      Quotient(-c, f.e.N);
      assert f.Total() >= 0 by {
        NonNeg(f.e.K + 1, f.e.N);
      }
    }
  }

  lemma Quotient(c: int, n: int)
    requires c >= 0 && n > 0
    ensures c / n >= 0
  {
  }

  lemma AtLeast(c: int, n: int, q: int)
    requires n > 0
    ensures c / n >= q <==> c >= q * n
  {
    assert c == (c / n) * n + c % n;
    var a := c / n - q;
    assert a * n == (c / n) * n - q * n;
    assert a >= 0 ==> a * n >= 0;
    assert a <= -1 ==> a * n <= -n;
  }

  /** A parent lies in the layer of its node or in the one below; the program tells which by number. */
  lemma ParentLayer(f: FileId, c: int, p: int)
    requires f.Ok() && c >= f.e.N && c - f.e.N <= p < c
    ensures LayerOf(c, f.e.N) >= 1
    ensures LayerOf(p, f.e.N) == if p >= LayerOf(c, f.e.N) * f.e.N then LayerOf(c, f.e.N) else LayerOf(c, f.e.N) - 1
  {
    OneLayerDown(c, p, f.e.N);
    AtLeast(p, f.e.N, c / f.e.N);
    AtLeast(c, f.e.N, 1);
  }

  /** The parents' part: each from the tree of its own layer.  The program gives each parent to a
      task of its own, which writes its own slot. */
  method ProveParents(f: FileId, c: int, parents: seq<int>, data: seq<Bytes>, nodeTree: array<Bytes>,
                      pdata: seq<Bytes>, parentTree: array<Bytes>, ghost d: nat)
    returns (ps: seq<MhtProof>)
    requires f.Ok() && f.e.N == Pow2(d) && c >= f.e.N && LayerOf(c, f.e.N) >= 1 && parents == f.Parents(c)
    requires data == f.LayerLabels(LayerOf(c, f.e.N)) && IsTreeOf(f, LayerOf(c, f.e.N), d, nodeTree[..])
    requires pdata == f.LayerLabels(LayerOf(c, f.e.N) - 1) && IsTreeOf(f, LayerOf(c, f.e.N) - 1, d, parentTree[..])
    ensures AreParentProofs(f, d, parents, ps)
  {
    hide FileId.Parents, FileId.LayerLabels, IsTreeOf, IsMhtProof, LayerOf, Pow2, Expanders.Ok;
    f.ParentsInRange(c);
    ps := [];
    for i := 0 to |parents|
      invariant AreParentProofs(f, d, parents[..i], ps)
    {
      var p := parents[i];
      ParentLayer(f, c, p);
      var m;
      if p >= LayerOf(c, f.e.N) * f.e.N {
        m := ProveNode(f, p, data, nodeTree, d);
      } else {
        m := ProveNode(f, p, pdata, parentTree, d);
      }
      assert parents[..i + 1] == parents[..i] + [p];
      ps := ps + [m];
    }
    assert parents[..|parents|] == parents;
  }

  /** generateCommitProof */
  method GenerateCommitProof(f: FileId, files: LabelFiles, c: int, ghost d: nat) returns (r: Result<CommitProof>)
    requires f.Ok() && f.e.N == Pow2(d) && FilesOf(f, files) && !(-f.e.N < c < 0)
    ensures r == BadNodeIndex <==> c < 0 || c >= f.Total()
    ensures 0 <= c < f.Total() ==> (r == NoFile <==> !FilesFor(f, files, c))
    ensures r.Ok? ==> IsCommitProof(f, d, c, r.value)
  {
    hide FileId.Parents, FileId.LayerLabels, FileId.Total, LayerOf, LayerIndex, IsTreeOf, IsMhtProof, Pow2,
         Expanders.Ok, AreParentProofs, Has, Read, FilesOf;
    TwoLeavesAtLeast(f, d);
    LayerIndexRange(f, c);
    var layer := LayerIndex(c, f.e.N);
    if layer < 0 || layer > f.e.K {
      return BadNodeIndex;
    }
    if !Has(f, files, layer) {
      return NoFile;
    }
    TrueLabels(f, files, layer);
    var data := Read(f, files, layer);
    var nodeTree := BuildTree(f, layer, data, d);
    var node := ProveNode(f, c, data, nodeTree, d);
    if layer == 0 {
      return Ok(CommitProof(node, []));
    }
    r := AddParentProofs(f, files, c, data, nodeTree, node, d);
  }

  /** The rest of generateCommitProof, for a node above the lowest layer. */
  method AddParentProofs(f: FileId, files: LabelFiles, c: int, data: seq<Bytes>, nodeTree: array<Bytes>, node: MhtProof,
                         ghost d: nat)
    returns (r: Result<CommitProof>)
    requires f.Ok() && f.e.N == Pow2(d) && FilesOf(f, files) && f.e.N <= c < f.Total() && LayerOf(c, f.e.N) >= 1
    requires data == f.LayerLabels(LayerOf(c, f.e.N)) && IsTreeOf(f, LayerOf(c, f.e.N), d, nodeTree[..])
    requires node.Index == c && IsMhtProof(f, d, node)
    ensures r != BadNodeIndex && (r == NoFile <==> !Has(f, files, LayerOf(c, f.e.N) - 1))
    ensures r.Ok? ==> IsCommitProof(f, d, c, r.value)
  {
    hide FileId.Parents, FileId.LayerLabels, FileId.Total, LayerOf, IsTreeOf, IsMhtProof, Pow2, Expanders.Ok,
         AreParentProofs, Has, Read, FilesOf;
    TotalInInt32(f, c);
    var parents := ComputeParents(f, c);
    var below := LayerOf(c, f.e.N) - 1;
    if !Has(f, files, below) {
      return NoFile;
    }
    TrueLabels(f, files, below);
    var pdata := Read(f, files, below);
    var parentTree := BuildTree(f, below, pdata, d);
    var ps := ProveParents(f, c, parents, data, nodeTree, pdata, parentTree, d);
    return Ok(CommitProof(node, ps));
  }

  /** CalcParents on a new node with room for D + 1 parents. */
  method ComputeParents(f: FileId, c: int) returns (parents: seq<int>)
    requires f.Ok() && -f.e.N < c && InInt32(c)
    ensures parents == f.Parents(c)
  {
    hide ParentsOf;
    var node := NewBuffer(f.e);
    node.Index := c;
    node.len := 0;
    CalcParents.CalcParents(f.e, node, f.id, f.count, f.hash);
    parents := node.Parents();
  }

  lemma TotalInInt32(f: FileId, c: int)
    requires f.Ok() && 0 <= c < f.Total()
    ensures -f.e.N < c && InInt32(c)
  {
  }

  // ---------- whole challenges ----------

  /** The proofs for one file: one for each node of the walk. */
  predicate IsFileProof(f: FileId, d: nat, chal: seq<int>, ps: seq<CommitProof>)
    requires f.Ok() && f.e.N == Pow2(d) && |chal| >= 2
  {
    |ps| == |chal| - 1 && forall t: nat :: t < |ps| ==> IsCommitProof(f, d, Walk(f, chal, t), ps[t])
  }

  /** A challenge that proveCommit does not choke on: a start that is refused, or a walk that always
      has a parent to pick. */
  predicate Walkable(f: FileId, chal: seq<int>)
    requires f.Ok()
  {
    |chal| >= 2 && (chal[1] <= -f.e.N || chal[1] >= f.Total() || Walk(f, chal, |chal| - 2) >= 0)
  }

  predicate StartsInside(f: FileId, chal: seq<int>)
    requires |chal| >= 2
  {
    0 <= chal[1] < f.Total()
  }

  /** The start is a node of the graph, and no file the walk needs is missing. */
  predicate CanProve(f: FileId, files: LabelFiles, chal: seq<int>)
    requires f.Ok() && |chal| >= 2
  {
    StartsInside(f, chal) && forall t: nat :: t < |chal| - 1 ==> FilesFor(f, files, Walk(f, chal, t))
  }

  lemma {:induction false} WalkBack(f: FileId, chal: seq<int>, t: nat, u: nat)
    requires f.Ok() && t <= u && u + 1 < |chal| && Walk(f, chal, u) >= 0
    ensures 0 <= Walk(f, chal, t) <= chal[1]
    ensures t < u ==> Walk(f, chal, t) >= f.e.N && 0 <= chal[t + 2] <= f.e.D
    decreases u
  {
    hide FileId.Parents, Expanders.Ok;
    if u > 0 {
      WalkBack(f, chal, u - 1, u - 1);
      if t < u {
        WalkBack(f, chal, t, u - 1);
      }
    }
  }

  lemma WalkableStart(f: FileId, chal: seq<int>)
    requires f.Ok() && Walkable(f, chal)
    ensures |chal| >= 2 && !(-f.e.N < chal[1] < 0)
    ensures StartsInside(f, chal) ==> Walk(f, chal, |chal| - 2) >= 0 && Walk(f, chal, 0) == chal[1]
  {
    hide FileId.Parents, FileId.Total;
    if Walk(f, chal, |chal| - 2) >= 0 {
      WalkBack(f, chal, 0, |chal| - 2);
    }
    assert f.Total() >= 0 by {
      TotalNonNeg(f);
    }
  }

  lemma TotalNonNeg(f: FileId)
    requires f.Ok()
    ensures f.Total() >= 0
  {
    NonNeg(f.e.K + 1, f.e.N);
  }

  lemma PickedParent(f: FileId, d: nat, chal: seq<int>, t: nat, p: CommitProof)
    requires f.Ok() && f.e.N == Pow2(d) && t + 2 < |chal| && Walk(f, chal, t) >= f.e.N && 0 <= chal[t + 2] <= f.e.D
    requires IsCommitProof(f, d, Walk(f, chal, t), p)
    ensures chal[t + 2] < |p.Parents| && p.Parents[chal[t + 2]].Index == Walk(f, chal, t + 1)
  {
    f.ParentsInRange(Walk(f, chal, t));
  }

  /** proveCommit: every node is a parent, chosen by the challenge, of the one before. */
  method ProveOne(f: FileId, files: LabelFiles, chal: seq<int>, ghost d: nat) returns (r: Result<seq<CommitProof>>)
    requires f.Ok() && f.e.N == Pow2(d) && FilesOf(f, files) && Walkable(f, chal)
    ensures r == BadNodeIndex <==> !StartsInside(f, chal)
    ensures r.Ok? <==> CanProve(f, files, chal)
    ensures r.Ok? ==> IsFileProof(f, d, chal, r.value)
  {
    hide IsCommitProof, FilesFor, FilesOf, Pow2, Expanders.Ok, FileId.Total, FileId.Parents, Walk, Walkable;
    WalkableStart(f, chal);
    var first := GenerateCommitProof(f, files, chal[1], d);
    if !StartsInside(f, chal) {
      return BadNodeIndex;
    }
    if first.NoFile? {
      return NoFile;
    }
    var ps := [first.value];
    for i := 2 to |chal|
      invariant |ps| == i - 1
      invariant forall t: nat :: t < |ps| ==>
                  IsCommitProof(f, d, Walk(f, chal, t), ps[t]) && FilesFor(f, files, Walk(f, chal, t))
    {
      WalkBack(f, chal, i - 2, |chal| - 2);
      WalkBack(f, chal, i - 1, |chal| - 2);
      PickedParent(f, d, chal, i - 2, ps[i - 2]);
      var index := ps[i - 2].Parents[chal[i]].Index;
      var next := GenerateCommitProof(f, files, index, d);
      if next.NoFile? {
        return NoFile;
      }
      ps := ps + [next.value];
    }
    return Ok(ps);
  }

  lemma ChallengeIsWalkable(f: FileId, chal: seq<int>)
    requires f.Ok() && IsChallenge(f.e, chal)
    ensures Walkable(f, chal) && StartsInside(f, chal)
  {
    hide FileId.Parents;
    WalkStaysHigh(f, chal, f.e.K);
    assert f.Total() == f.e.N * f.e.K + f.e.N && f.e.N * f.e.K >= 0 by {
      NonNeg(f.e.N, f.e.K);
    }
  }

  /** The file a challenge is about. */
  function ForFile(f: FileId, chal: seq<int>): (g: FileId)
    requires |chal| >= 1
    ensures g.e == f.e && g.count == chal[0]
  {
    f.(count := chal[0])
  }

  /** Proof and challenge belong together, for the file the challenge names. */
  predicate Answers(f: FileId, d: nat, chal: seq<int>, ps: seq<CommitProof>)
    requires f.Ok() && f.e.N == Pow2(d)
  {
    |chal| >= 2 && IsFileProof(ForFile(f, chal), d, chal, ps)
  }

  predicate Answerable(f: FileId, files: LabelFiles, chal: seq<int>)
    requires f.Ok()
  {
    |chal| >= 2 && CanProve(ForFile(f, chal), files, chal)
  }

  ghost predicate Askable(f: FileId, files: LabelFiles, chal: seq<int>)
    requires f.Ok()
  {
    |chal| >= 2 && Walkable(ForFile(f, chal), chal) && FilesOf(ForFile(f, chal), files)
  }

  method ProveFor(f: FileId, files: LabelFiles, chal: seq<int>, ghost d: nat) returns (r: Result<seq<CommitProof>>)
    requires f.Ok() && f.e.N == Pow2(d) && Askable(f, files, chal)
    ensures r.Ok? <==> Answerable(f, files, chal)
    ensures r.Ok? ==> Answers(f, d, chal, r.value)
  {
    hide Walkable, CanProve, FilesOf, IsFileProof, Pow2;
    r := ProveOne(ForFile(f, chal), files, chal, d);
  }

  const MAX_COMMIT_PROOF_THREAD: nat := 16

  /** The tasks of ProveCommit; when some fail, one of their errors is reported. */
  method RunTasks(f: FileId, files: LabelFiles, chals: seq<seq<int>>, ghost d: nat)
    returns (r: Result<seq<seq<CommitProof>>>)
    requires f.Ok() && f.e.N == Pow2(d) && forall i :: 0 <= i < |chals| ==> Askable(f, files, chals[i])
    ensures r.Ok? <==> forall i :: 0 <= i < |chals| ==> Answerable(f, files, chals[i])
    ensures r.Ok? ==> |r.value| == |chals| && forall i :: 0 <= i < |chals| ==> Answers(f, d, chals[i], r.value[i])
  {
    hide Askable, Answerable, Answers, Pow2, Expanders.Ok, FileId.Ok;
    r := NoFile;
    var proofSet: seq<seq<CommitProof>>, failed := [], false;
    for idx := 0 to |chals|
      invariant |proofSet| == idx && (failed ==> !r.Ok?)
      invariant !failed <==> forall i :: 0 <= i < idx ==> Answerable(f, files, chals[i])
      invariant !failed ==> forall i :: 0 <= i < idx ==> Answers(f, d, chals[i], proofSet[i])
    {
      var one := ProveFor(f, files, chals[idx], d);
      if one.Ok? {
        proofSet := proofSet + [one.value];
      } else {
        r, failed, proofSet := if one.NoFile? then NoFile else BadNodeIndex, true, proofSet + [[]];
      }
    }
    if !failed {
      r := Ok(proofSet);
    }
  }

  /** ProveCommit: one task per challenge, sixteen at most; further challenges get no proof. */
  method ProveCommit(f: FileId, files: LabelFiles, chals: seq<seq<int>>, ghost d: nat)
    returns (r: Result<seq<seq<CommitProof>>>)
    requires f.Ok() && f.e.N == Pow2(d)
    requires forall i :: 0 <= i < |chals| && i < MAX_COMMIT_PROOF_THREAD ==> Askable(f, files, chals[i])
    ensures r.Ok? <==> forall i :: 0 <= i < |chals| && i < MAX_COMMIT_PROOF_THREAD ==> Answerable(f, files, chals[i])
    ensures r.Ok? ==>
              && |r.value| == |chals|
              && forall i :: 0 <= i < |chals| ==>
                   if i < MAX_COMMIT_PROOF_THREAD then Answers(f, d, chals[i], r.value[i]) else r.value[i] == []
  {
    hide Askable, Answerable, Answers, Pow2;
    var threads := if |chals| < MAX_COMMIT_PROOF_THREAD then |chals| else MAX_COMMIT_PROOF_THREAD;
    ghost var asked := chals[..threads];
    assert forall i :: 0 <= i < threads ==> asked[i] == chals[i];
    r := RunTasks(f, files, chals[..threads], d);
    if r.Ok? {
      r := Ok(r.value + seq(|chals| - threads, _ => []));
    }
  }
}
