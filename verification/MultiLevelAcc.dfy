/** The multi-level accumulator as the program keeps it: a mutable three-level tree with a cursor
    at its last leaf, element data in numbered files, an update flag and a deep snapshot
    (acc/muti_level_acc.go). */
module MultiLevelAcc {
  import opened ByteStrings
  import opened FlatAcc
  import opened Forest
  import opened AccNodes
  import opened AccTree
  import opened AccLinks
  import opened AccCopy

  // ---------- element files ----------

  datatype AccData = AccData(Values: seq<Bytes>, Wits: seq<Bytes>)

  /** The directory of sub-acc files; every accumulator object of the process uses the same one. */
  class SubAccStore {
    var files: map<int, AccData>

    constructor ()
      ensures files == map[]
    {
      files := map[];
    }
  }

  function WitnessList(key: Key, c: Chunk): (ws: seq<Bytes>)
    ensures |ws| == |c|
    ensures forall i :: 0 <= i < |c| ==> ws[i] == WitnessValue(key, c, i)
  {
    seq(|c|, i requires 0 <= i < |c| => WitnessValue(key, c, i))
  }

  /** The files that exist are those of the chunks: file j holds chunk j with its witnesses. */
  ghost predicate Faithful(key: Key, files: map<int, AccData>, chunks: seq<Chunk>) {
    forall j :: j in files ==> 0 <= j < |chunks| && files[j] == AccData(chunks[j], WitnessList(key, chunks[j]))
  }

  ghost predicate Complete(files: map<int, AccData>, chunks: seq<Chunk>) {
    forall j :: 0 <= j < |chunks| ==> j in files
  }

  /** The file of the last chunk is found from the element count. */
  /** What an addition must come to, by the contents alone: within 1024 elements it is refused exactly when
      the tree would not be canonical any more, beyond that exactly when the last leaf is not full; and
      it fails when the last chunk has to be extended and its file is missing. */
  ghost function AddOutcome(t: Groups, files: map<int, AccData>, xs: seq<Bytes>): Status
    requires WellFormed(t)
  {
    if xs == [] then Failed(IllegalNumber)
    else if |xs| <= DEFAULT_ELEMS_NUM && !Canonical(Append(t, xs)) then Failed(IllegalNumber)
    else if |xs| > DEFAULT_ELEMS_NUM && LastCount(t) < DEFAULT_ELEMS_NUM then Failed(IllegalNumber)
    else if t != [] && LastCount(t) < DEFAULT_ELEMS_NUM && |Flatten(t)| - 1 !in files then Failed(NoData)
    else Done
  }

  /** With no file missing, a batch of at most 1024 is added exactly when the tree stays canonical. */
  lemma AddedIffCanonical(t: Groups, files: map<int, AccData>, xs: seq<Bytes>)
    requires WellFormed(t) && Complete(files, Flatten(t)) && 1 <= |xs| <= DEFAULT_ELEMS_NUM
    ensures AddOutcome(t, files, xs) == Done <==> Canonical(Append(t, xs))
  {
    hide Canonical, Append;
    if t != [] {
      ChunksLast(t);
    }
  }

  /** And a deletion: as many elements go as the last leaf has, at most, and its file is needed when some
      stay. */
  function DeleteOutcome(t: Groups, files: map<int, AccData>, num: int): Status
    requires WellFormed(t)
  {
    if !(1 <= num <= LastCount(t)) then Failed(IllegalNumber)
    else if num < LastCount(t) && |Flatten(t)| - 1 !in files then Failed(NoData)
    else Done
  }

  lemma LastFileIndex(t: Groups)
    requires Canonical(t) && t != []
    ensures Flatten(t) != [] && (|Elements(t)| - 1) / DEFAULT_ELEMS_NUM == |Flatten(t)| - 1
    ensures |Elements(t)| > 0
  {
    ChunksLast(t);
    PackedLength(Flatten(t));
  }

  lemma FilesSnoc(key: Key, files: map<int, AccData>, cs: seq<Chunk>, rest: seq<Chunk>, c: Chunk)
    requires |rest| <= 1 && Faithful(key, files, cs + rest)
    ensures var files' := files[|cs| := AccData(c, WitnessList(key, c))];
            && Faithful(key, files', cs + [c])
            && (Complete(files, cs + rest) ==> Complete(files', cs + [c]))
  {
    var files' := files[|cs| := AccData(c, WitnessList(key, c))];
    forall j | j in files'
      ensures 0 <= j < |cs| + 1 && files'[j] == AccData((cs + [c])[j], WitnessList(key, (cs + [c])[j]))
    {
      if j != |cs| {
        assert (cs + rest)[j] == cs[j];
      }
    }
    if Complete(files, cs + rest) {
      forall j | 0 <= j < |cs| ensures j in files' {
        assert j < |cs + rest|;
      }
    }
  }

  /** The chunks an addition leaves alone. */
  function ChunksBefore(t: Groups): seq<Chunk>
    requires WellFormed(t)
  {
    if t != [] && LastCount(t) < DEFAULT_ELEMS_NUM then (ChunksLast(t); Init(Flatten(t))) else Flatten(t)
  }

  lemma ChunksBeforeRest(t: Groups) returns (rest: seq<Chunk>)
    requires WellFormed(t)
    ensures |rest| <= 1 && Flatten(t) == ChunksBefore(t) + rest
  {
    if t != [] && LastCount(t) < DEFAULT_ELEMS_NUM {
      ChunksLast(t);
      SnocParts(Flatten(t), []);
      rest := [Last(Flatten(t))];
    } else {
      rest := [];
    }
  }

  lemma AppendPlace(t: Groups, xs: Chunk)
    requires Canonical(t) && AddGuard(t, |xs|) && |xs| <= DEFAULT_ELEMS_NUM
    ensures Flatten(Append(t, xs)) == ChunksBefore(t) + [Last(Last(Append(t, xs)))]
    ensures (|Elements(t)| + |xs| - 1) / DEFAULT_ELEMS_NUM == |ChunksBefore(t)|
  {
    AppendCanonical(t, xs);
    AppendElements(t, xs);
    LastFileIndex(Append(t, xs));
    AppendChunks(t, xs);
    if t != [] && LastCount(t) < DEFAULT_ELEMS_NUM {
      ChunksLast(t);
    }
  }

  /** What addElements writes keeps the files those of the chunks. */
  lemma FilesAfterAppend(key: Key, files: map<int, AccData>, t: Groups, xs: Chunk)
    requires Canonical(t) && AddGuard(t, |xs|) && |xs| <= DEFAULT_ELEMS_NUM && Faithful(key, files, Flatten(t))
    ensures var u := Append(t, xs);
            var c := Last(Last(u));
            var files' := files[(|Elements(t)| + |xs| - 1) / DEFAULT_ELEMS_NUM := AccData(c, WitnessList(key, c))];
            && Faithful(key, files', Flatten(u))
            && (Complete(files, Flatten(t)) ==> Complete(files', Flatten(u)))
  {
    var rest := ChunksBeforeRest(t);
    AppendPlace(t, xs);
    FilesSnoc(key, files, ChunksBefore(t), rest, Last(Last(Append(t, xs))));
  }

  /** What deleteAccData leaves: the files before the given index. */
  function FilesBefore(files: map<int, AccData>, last: int): map<int, AccData> {
    map j | j in files && j < last :: files[j]
  }

  lemma FilesDropped(key: Key, files: map<int, AccData>, cs: seq<Chunk>, c: Chunk)
    requires Faithful(key, files, cs + [c])
    ensures Faithful(key, FilesBefore(files, |cs|), cs)
    ensures Complete(files, cs + [c]) ==> Complete(FilesBefore(files, |cs|), cs)
  {
    var files' := FilesBefore(files, |cs|);
    forall j | j in files' ensures 0 <= j < |cs| && files'[j] == AccData(cs[j], WitnessList(key, cs[j])) {
      assert (cs + [c])[j] == cs[j];
    }
    if Complete(files, cs + [c]) {
      forall j | 0 <= j < |cs| ensures j in files' {
        assert j < |cs + [c]|;
      }
    }
  }

  /** What DeleteElements writes for a shorter leaf does, too. */
  lemma FilesAfterShrink(key: Key, files: map<int, AccData>, t: Groups, n: nat)
    requires Canonical(t) && t != [] && 0 < n < LastCount(t) && Faithful(key, files, Flatten(t))
    ensures var c := Last(Last(Truncate(t, n)));
            var files' := files[(|Elements(t)| - 1) / DEFAULT_ELEMS_NUM := AccData(c, WitnessList(key, c))];
            && Faithful(key, files', Flatten(Truncate(t, n)))
            && (Complete(files, Flatten(t)) ==> Complete(files', Flatten(Truncate(t, n))))
  {
    hide Faithful, Complete, WitnessList, WellFormed;
    LastFileIndex(t);
    TruncateChunks(t, n);
    ChunksLast(t);
    SnocParts(Flatten(t), []);
    FilesSnoc(key, files, Init(Flatten(t)), [Last(Flatten(t))], Last(Last(Truncate(t, n))));
  }

  /** So does removing the file of a leaf that vanishes. */
  lemma FilesAfterDrop(key: Key, files: map<int, AccData>, t: Groups)
    requires Canonical(t) && t != [] && Faithful(key, files, Flatten(t))
    ensures var files' := FilesBefore(files, (|Elements(t)| - 1) / DEFAULT_ELEMS_NUM);
            && Faithful(key, files', Flatten(Truncate(t, LastCount(t))))
            && (Complete(files, Flatten(t)) ==> Complete(files', Flatten(Truncate(t, LastCount(t)))))
  {
    LastFileIndex(t);
    TruncateChunks(t, LastCount(t));
    SnocParts(Flatten(t), []);
    FilesDropped(key, files, Init(Flatten(t)), Last(Flatten(t)));
  }

  datatype Reason = IllegalNumber | UpdateOccupied | NoData

  datatype Status = Done | Failed(reason: Reason)

  // ---------- contents and tree values after an operation ----------

  lemma SamePrefix(key: Key, t: Groups, u: Groups, n: nat)
    requires n <= |t| && n <= |u| && t[..n] == u[..n]
    ensures SameGroups(SpecOf(key, u), SpecOf(key, t), n)
  {
    forall i | 0 <= i < n ensures SameGroup(SpecOf(key, u).groups[i], SpecOf(key, t).groups[i]) {
      assert t[i] == t[..n][i] == u[..n][i] == u[i];
    }
  }

  lemma SameLeafPrefix(key: Key, g: Group, h: Group, n: nat, w: Bytes, x: Bytes)
    requires n <= |g| && n <= |h| && g[..n] == h[..n]
    ensures SameLeaves(GroupSpecOf(key, h, x), GroupSpecOf(key, g, w), n)
  {
    forall j | 0 <= j < n
      ensures SameLeaf(GroupSpecOf(key, h, x).leaves[j], GroupSpecOf(key, g, w).leaves[j])
    {
      assert g[j] == g[..n][j] == h[..n][j] == h[j];
    }
  }

  lemma ReplacedSpec(key: Key, t: Groups, g: Group, c: Chunk, d: Chunk)
    ensures LeafReplaced(SpecOf(key, t + [g + [d]]), SpecOf(key, t + [g + [c]]), |d|, AccValue(key, d))
  {
    var u, v := t + [g + [d]], t + [g + [c]];
    SamePrefix(key, v, u, |t|);
    SameLeafPrefix(key, g + [c], g + [d], |g|, GroupWitness(key, v, |t|), GroupWitness(key, u, |t|));
  }

  lemma AddedSpec(key: Key, t: Groups, g: Group, c: Chunk)
    ensures LeafAdded(SpecOf(key, t + [g + [c]]), SpecOf(key, t + [g]), |c|, AccValue(key, c))
    ensures g != [] ==> LeafDropped(SpecOf(key, t + [g]), SpecOf(key, t + [g + [c]]))
  {
    hide AccValue, GroupValue, RootValue, WitnessValue, LeafWitness, GroupWitness, SameGroups, SameLeaves;
    var u, v := t + [g + [c]], t + [g];
    SamePrefix(key, v, u, |t|);
    SamePrefix(key, u, v, |t|);
    SameLeafPrefix(key, g, g + [c], |g|, GroupWitness(key, v, |t|), GroupWitness(key, u, |t|));
    SameLeafPrefix(key, g + [c], g, |g|, GroupWitness(key, u, |t|), GroupWitness(key, v, |t|));
  }

  lemma GroupAddedSpec(key: Key, t: Groups, c: Chunk)
    ensures GroupAdded(SpecOf(key, t + [[c]]), SpecOf(key, t), |c|, AccValue(key, c))
  {
    SamePrefix(key, t, t + [[c]], |t|);
  }

  lemma GroupDroppedSpec(key: Key, t: Groups, g: Group)
    ensures GroupDropped(SpecOf(key, t), SpecOf(key, t + [g]))
  {
    SamePrefix(key, t + [g], t, |t|);
  }

  /** How tree values change with the contents: one of the four cases of addSubAcc. */
  predicate GrowsFrom(a: TreeSpec, b: TreeSpec, count: int, len: int, value: Bytes) {
    if b.groups == [] then GroupAdded(a, b, len, value)
    else if count < DEFAULT_ELEMS_NUM then LeafReplaced(a, b, len, value)
    else if |Last(b.groups).leaves| + 1 <= DEFAULT_ELEMS_NUM then LeafAdded(a, b, len, value)
    else GroupAdded(a, b, len, value)
  }

  lemma SpecCount(key: Key, t: Groups)
    requires WellFormed(t) && t != []
    ensures var s := SpecOf(key, t);
            && |Last(s.groups).leaves| == |Last(t)|
            && Last(Last(s.groups).leaves).len == LastCount(t)
  {
    hide AccValue, GroupValue, RootValue, WitnessValue, LeafWitness, GroupWitness;
  }

  lemma AppendSpec(key: Key, t: Groups, xs: Chunk)
    requires WellFormed(t) && xs != []
    ensures var u := Append(t, xs);
            GrowsFrom(SpecOf(key, u), SpecOf(key, t), LastCount(t), |Last(Last(u))|, AccValue(key, Last(Last(u))))
  {
    hide LeafReplaced, LeafAdded, GroupAdded, AccValue, SpecOf;
    if t == [] {
      GroupAddedSpec(key, [], xs);
      assert [] + [[xs]] == [[xs]];
    } else {
      SpecCount(key, t);
      SnocParts(t, []);
      SnocParts(Last(t), []);
      if LastCount(t) < DEFAULT_ELEMS_NUM {
        ReplacedSpec(key, Init(t), Init(Last(t)), Last(Last(t)), Last(Last(t)) + xs);
      } else if |Last(t)| + 1 <= DEFAULT_ELEMS_NUM {
        AddedSpec(key, Init(t), Last(t), xs);
      } else {
        GroupAddedSpec(key, t, xs);
      }
    }
  }

  /** The end of a nonempty tree is a leaf with elements. */
  predicate SolidEnd(s: TreeSpec) {
    s.groups != [] ==> Last(s.groups).leaves != [] && Last(Last(s.groups).leaves).len > 0
  }

  /** One of the three cases of DeleteElements. */
  predicate ShrinksFrom(a: TreeSpec, b: TreeSpec, count: int, num: int, value: Bytes) {
    && b.groups != []
    && if num < count then LeafReplaced(a, b, count - num, value)
       else if |Last(b.groups).leaves| > 1 then LeafDropped(a, b)
       else GroupDropped(a, b)
  }

  /** File number index, if it is there, starts with the chunk c of this length. */
  ghost predicate StartsWith(files: map<int, AccData>, index: int, len: int, c: Chunk) {
    index in files ==> 0 <= len <= |files[index].Values| && files[index].Values[..len] == c
  }

  lemma CutSpec(key: Key, t: Groups, n: nat)
    requires WellFormed(t) && t != [] && 0 < n <= LastCount(t)
    ensures var u := Truncate(t, n);
            var s, c := SpecOf(key, u), if u == [] then [] else Last(Last(u));
            ShrinksFrom(s, SpecOf(key, t), LastCount(t), n, AccValue(key, c)) && Closes(key, s) && SolidEnd(s)
    ensures SpecOf(key, t).groups != []
  {
    TruncateSpec(key, t, n);
    SpecCount(key, t);
    SpecCloses(key, Truncate(t, n));
    if Truncate(t, n) != [] {
      SpecCount(key, Truncate(t, n));
    }
  }

  lemma CutKeeps(key: Key, files: map<int, AccData>, t: Groups, n: nat)
    requires Canonical(t) && t != [] && 0 < n <= LastCount(t) && Faithful(key, files, Flatten(t))
    ensures n < LastCount(t) ==>
              && Truncate(t, n) != []
              && var c := Last(Last(Truncate(t, n)));
                 && c != [] && |c| == LastCount(t) - n
                 && StartsWith(files, (|Elements(t)| - 1) / DEFAULT_ELEMS_NUM, LastCount(t) - n, c)
  {
    LastFileIndex(t);
    ChunksLast(t);
  }

  lemma TruncateSpec(key: Key, t: Groups, n: nat)
    requires WellFormed(t) && t != [] && n <= LastCount(t)
    ensures var u := Truncate(t, n);
            var a, b := SpecOf(key, u), SpecOf(key, t);
            if n < LastCount(t) then LeafReplaced(a, b, LastCount(t) - n, AccValue(key, Last(Last(u))))
            else if |Last(t)| > 1 then LeafDropped(a, b)
            else GroupDropped(a, b)
  {
    hide SpecOf, LeafReplaced, LeafDropped, GroupDropped, AccValue;
    SnocParts(t, []);
    SnocParts(Last(t), []);
    var g, c := Last(t), Last(Last(t));
    if n < LastCount(t) {
      ReplacedSpec(key, Init(t), Init(g), c, c[..|c| - n]);
    } else if |g| > 1 {
      AddedSpec(key, Init(t), Init(g), c);
    } else {
      GroupDroppedSpec(key, Init(t), g);
    }
  }

  /** The chunk addElements puts together from the last file, if it needs it, and the batch. */
  ghost predicate JoinsTo(files: map<int, AccData>, elemNums: int, currCount: int, elems: seq<Bytes>, c: Chunk) {
    var index := (elemNums - 1) / DEFAULT_ELEMS_NUM;
    if 0 < currCount < DEFAULT_ELEMS_NUM then index in files ==> files[index].Values + elems == c
    else c == elems
  }

  lemma BatchJoins(key: Key, files: map<int, AccData>, t: Groups, xs: Chunk)
    requires Canonical(t) && AddGuard(t, |xs|) && Faithful(key, files, Flatten(t))
    ensures JoinsTo(files, |Elements(t)|, LastCount(t), xs, Last(Last(Append(t, xs))))
  {
    if t != [] {
      LastFileIndex(t);
      ChunksLast(t);
    }
  }

  class MutiLevelAcc {
    const key: Key
    const store: SubAccStore
    var Accs: AccNode
    var ElemNums: int
    var CurrCount: int
    var Curr: AccNode?
    var Parent: AccNode?
    var isUpdate: bool
    var snapshot: MutiLevelAcc?

    // The groups of chunks the tree stands for, the tree's values, and its nodes.
    ghost var Contents: Groups
    ghost var Spec: TreeSpec
    ghost var Nodes: set<AccNode>

    ghost function View(): TreeView
      reads this`Accs, this`Spec, this`Nodes
    {
      TreeView(Accs, Spec, Nodes)
    }

    /** The cursor stands at the last leaf. */
    ghost predicate CursorOk()
      reads this`Accs, this`Spec, this`Nodes, this`Parent, this`Curr, this`CurrCount, Accs, Nodes
    {
      && |Accs.Children| == |Spec.groups|
      && if Spec.groups == [] then Parent == null && Curr == null && CurrCount == 0
         else
           && Last(Spec.groups).leaves != []
           && Parent == Last(Accs.Children) && Parent in Nodes
           && |Parent.Children| == |Last(Spec.groups).leaves| && Curr == Last(Parent.Children)
           && CurrCount == Last(Last(Spec.groups).leaves).len > 0
    }

    /** Every length, value and witness of the tree is the one of Spec. */
    ghost predicate TreeOk()
      reads this`Accs, this`Spec, this`Nodes, this`Parent, this`Curr, this`CurrCount, Accs, Nodes
    {
      View().IsTree() && CursorOk()
    }

    /** The snapshot, if there is one, is a separate tree with the same contents. */
    ghost predicate SnapshotOk()
      reads this, Nodes, snapshot, if snapshot == null then {} else {snapshot.Accs} + snapshot.Nodes
    {
      snapshot != null ==> IsSnapshot(snapshot)
    }

    ghost predicate IsSnapshot(other: MutiLevelAcc)
      reads this, Nodes, other, other.Accs, other.Nodes
    {
      && other != this && other.key == key && other.store == store && other.TreeOk() && other.Nodes !! Nodes
      && other.Spec == Spec && other.Contents == Contents && other.ElemNums == ElemNums
    }

    /** The tree is the canonical tree of the element list, values and witnesses included, and
        every element file holds its chunk. */
    ghost predicate Meaning()
      reads this`Contents, this`Spec, this`ElemNums, store
    {
      && Canonical(Contents) && Spec == SpecOf(key, Contents) && ElemNums == |Elements(Contents)|
      && Faithful(key, store.files, Flatten(Contents))
    }

    /** No element file is missing. */
    ghost predicate FilesComplete()
      reads this`Contents, store
    {
      Complete(store.files, Flatten(Contents))
    }

    ghost predicate Valid()
      reads this, Accs, Nodes, store, snapshot, if snapshot == null then {} else {snapshot.Accs} + snapshot.Nodes
    {
      TreeOk() && SnapshotOk() && !isUpdate && Meaning()
    }

    /** NewMutiLevelAcc: an empty root with value G.  The directory holds no element files yet. */
    constructor (key: Key, store: SubAccStore)
      requires store.files == map[]
      ensures Valid() && FilesComplete() && Contents == [] && fresh(Nodes) && this.key == key && this.store == store
    {
      this.key, this.store := key, store;
      var accs := new AccNode(0);
      accs.Value := ToBytes(key.G);
      Accs, Curr, Parent, snapshot := accs, null, null, null;
      ElemNums, CurrCount, isUpdate := 0, 0, false;
      Contents, Spec, Nodes := [], SpecOf(key, []), {accs};
      new;
      EmptyAcc(key);
      assert GroupValues(key, []) == [];
    }

    /** createSnapshot's new object, filled by copy: a deep copy of the tree; cursor and counters
        are set from it. */
    constructor Copy(other: MutiLevelAcc)
      requires other.TreeOk()
      ensures TreeOk() && fresh(Nodes) && key == other.key && store == other.store
      ensures Spec == other.Spec && Contents == other.Contents
      ensures ElemNums == other.ElemNums && snapshot == null && !isUpdate
    {
      ghost var v := other.View();
      ghost var nodes: set<AccNode>;
      var accs;
      accs, nodes := CopyTree(other.Accs, v);
      key, store := other.key, other.store;
      Accs := accs;
      ElemNums, CurrCount := other.ElemNums, other.CurrCount;
      snapshot, isUpdate := null, false;
      Contents, Spec, Nodes := other.Contents, other.Spec, nodes;
      if other.Spec.groups != [] {
        TreeView(accs, v.s, nodes).LastFacts();
      }
      var parent: AccNode?, curr: AccNode? := null, null;
      if accs.Len > 0 {
        parent := accs.Children[accs.Len - 1];
      }
      if parent != null && parent.Len > 0 {
        curr := parent.Children[parent.Len - 1];
      }
      Parent, Curr := parent, curr;
      new;
      assert View() == TreeView(accs, v.s, nodes);
      assert TreeView(accs, v.s, nodes).IsTree();
    }

    // ---------- update flag and snapshot ----------

    method CreateSnapshot()
      requires TreeOk()
      modifies this`snapshot
      ensures snapshot != null && fresh(snapshot) && fresh(snapshot.Nodes) && IsSnapshot(snapshot)
    {
      snapshot := new MutiLevelAcc.Copy(this);
    }

    /** setUpdate: taking the flag fails when it is taken; both taking and giving it back make a new
        snapshot. */
    method SetUpdate(yes: bool) returns (ok: bool)
      requires !(isUpdate && yes) ==> TreeOk()
      modifies this`snapshot, this`isUpdate
      ensures ok <==> !(old(isUpdate) && yes)
      ensures isUpdate == yes
      ensures !ok ==> snapshot == old(snapshot)
      ensures ok ==> snapshot != null && fresh(snapshot) && fresh(snapshot.Nodes) && IsSnapshot(snapshot)
    {
      if isUpdate && yes {
        return false;
      }
      CreateSnapshot();
      isUpdate := yes;
      return true;
    }

    /** GetSnapshot: the current snapshot, or a new one when there is none yet. */
    method GetSnapshot() returns (s: MutiLevelAcc)
      requires TreeOk() && SnapshotOk()
      modifies this`snapshot
      ensures snapshot == s && IsSnapshot(s)
      ensures s == old(snapshot) || (fresh(s) && fresh(s.Nodes))
    {
      if isUpdate && snapshot != null {
        return snapshot;
      }
      if snapshot == null {
        CreateSnapshot();
      }
      return snapshot;
    }

    // ---------- adding ----------

    /** The new tree values fit what addSubAcc does with a leaf of this length and value. */
    ghost predicate Grows(s: TreeSpec, len: int, value: Bytes)
      reads this`Spec, this`CurrCount
    {
      GrowsFrom(s, Spec, CurrCount, len, value)
    }

    /** The first leaf brings a new root and a new parent along. */
    method AddFirst(base: Bytes, above: Bytes, top: Bytes, subAcc: AccNode, ghost s: TreeSpec)
      requires subAcc.level == 2 && subAcc.Children == [] && SingleLeaf(s, subAcc.Len, subAcc.Value)
      requires s.groups[0].leaves[0].wit == base && s.groups[0].wit == base
      requires s.groups[0].value == above && s.value == top && subAcc.Len > 0
      modifies this`Accs, this`Parent, this`Curr, this`CurrCount, this`Spec, this`Nodes, this`ElemNums
      modifies subAcc`owner, subAcc`pos, subAcc`Wit
      ensures TreeOk() && Spec == s && subAcc in Nodes && fresh(Nodes - {subAcc})
      ensures ElemNums == old(ElemNums) + subAcc.Len
    {
      Curr, CurrCount := subAcc, subAcc.Len;
      ElemNums := ElemNums + CurrCount;
      Spec := s;
      var accs, parent := FirstTree(base, above, top, subAcc, s);
      Parent, Accs := parent, accs;
      Nodes := {accs, parent, subAcc};
      assert TreeView(accs, s, Nodes).IsTree();
    }

    /** addSubAcc: the last leaf is replaced by a longer one. */
    method LinkReplaced(subAcc: AccNode, ghost s: TreeSpec)
      requires TreeOk() && Spec.groups != []
      requires subAcc !in Nodes && subAcc.level == 2 && subAcc.Children == []
      requires LeafReplaced(s, Spec, subAcc.Len, subAcc.Value)
      requires subAcc.Len > 0
      modifies this`Curr, this`CurrCount, this`Spec, this`Nodes, this`ElemNums
      modifies Nodes`Children, subAcc`owner, subAcc`pos
      ensures View().Linked() && Spec == s && CursorOk()
      ensures subAcc in Nodes && fresh(Nodes - old(Nodes) - {subAcc})
      ensures ElemNums == old(ElemNums) + subAcc.Len - old(CurrCount)
    {
      ghost var v := View();
      v.LastFacts();
      ElemNums := ElemNums + subAcc.Len - CurrCount;
      Curr, CurrCount := subAcc, subAcc.Len;
      Spec, Nodes := s, Nodes + {subAcc};
      ReplaceLeaf(v, s, Parent, subAcc);
      assert View() == TreeView(v.root, s, v.nodes + {subAcc});
    }

    /** addSubAcc: one more leaf under the last parent. */
    method LinkAppended(subAcc: AccNode, ghost s: TreeSpec)
      requires TreeOk() && Spec.groups != []
      requires subAcc !in Nodes && subAcc.level == 2 && subAcc.Children == []
      requires LeafAdded(s, Spec, subAcc.Len, subAcc.Value)
      requires subAcc.Len > 0
      modifies this`Curr, this`CurrCount, this`Spec, this`Nodes, this`ElemNums
      modifies Nodes`Children, subAcc`owner, subAcc`pos
      ensures View().Linked() && Spec == s && CursorOk()
      ensures subAcc in Nodes && fresh(Nodes - old(Nodes) - {subAcc})
      ensures ElemNums == old(ElemNums) + subAcc.Len
    {
      ghost var v := View();
      v.LastFacts();
      ElemNums := ElemNums + subAcc.Len;
      Curr, CurrCount := subAcc, subAcc.Len;
      Spec, Nodes := s, Nodes + {subAcc};
      AppendLeaf(v, s, Parent, subAcc);
      assert View() == TreeView(v.root, s, v.nodes + {subAcc});
    }

    /** addSubAcc: the leaf goes under a new parent. */
    method LinkNewParent(subAcc: AccNode, ghost s: TreeSpec)
      requires TreeOk() && Spec.groups != []
      requires subAcc !in Nodes && subAcc.level == 2 && subAcc.Children == []
      requires GroupAdded(s, Spec, subAcc.Len, subAcc.Value)
      requires subAcc.Len > 0
      modifies this`Parent, this`Curr, this`CurrCount, this`Spec, this`Nodes, this`ElemNums
      modifies Nodes`Children, subAcc`owner, subAcc`pos
      ensures View().Linked() && Spec == s && CursorOk()
      ensures subAcc in Nodes && fresh(Nodes - old(Nodes) - {subAcc})
      ensures ElemNums == old(ElemNums) + subAcc.Len
    {
      hide TreeView.Linked, TreeView.IsTree;
      ghost var v := View();
      v.LastFacts();
      ElemNums := ElemNums + subAcc.Len;
      var node := new AccNode(1);
      node.Wit := ToBytes(key.G);
      node.Children := [subAcc];
      Curr, CurrCount, Parent := subAcc, subAcc.Len, node;
      Spec, Nodes := s, Nodes + {subAcc, node};
      AppendGroup(v, s, Accs, node, subAcc);
      assert View() == TreeView(v.root, s, v.nodes + {subAcc, node});
    }

    /** updateAcc on the parent, then on the root. */
    method Refresh()
      requires View().Linked() && CursorOk() && Closes(key, Spec)
      modifies Nodes`Value, Nodes`Len, Nodes`Wit
      ensures TreeOk()
    {
      hide GroupCloses, RootCloses;
      ghost var v := View();
      UpdateParent(v, key, Parent);
      assert CursorOk();
      UpdateRoot(v, key, Accs);
      assert CursorOk();
    }

    /** The three ways addSubAcc links a leaf into a nonempty tree. */
    method LinkSubAcc(subAcc: AccNode, ghost s: TreeSpec)
      requires TreeOk() && Spec.groups != [] && Grows(s, subAcc.Len, subAcc.Value)
      requires subAcc !in Nodes && subAcc.level == 2 && subAcc.Children == [] && subAcc.Len > 0
      modifies this`Parent, this`Curr, this`CurrCount, this`Spec, this`Nodes, this`ElemNums
      modifies Nodes`Children, subAcc`owner, subAcc`pos
      ensures View().Linked() && Spec == s && CursorOk()
      ensures subAcc in Nodes && fresh(Nodes - old(Nodes) - {subAcc})
      ensures ElemNums
              == old(ElemNums) + subAcc.Len - (if old(CurrCount) < DEFAULT_ELEMS_NUM then old(CurrCount) else 0)
    {
      if CurrCount > 0 && CurrCount < DEFAULT_ELEMS_NUM {
        LinkReplaced(subAcc, s);
      } else if |Parent.Children| + 1 <= DEFAULT_ELEMS_NUM {
        LinkAppended(subAcc, s);
      } else {
        LinkNewParent(subAcc, s);
      }
    }

    /** addSubAcc */
    method AddSubAcc(subAcc: AccNode, ghost s: TreeSpec)
      requires TreeOk() && Grows(s, subAcc.Len, subAcc.Value) && Closes(key, s)
      requires subAcc !in Nodes && subAcc.level == 2 && subAcc.Children == [] && subAcc.Len > 0
      modifies this`Accs, this`Parent, this`Curr, this`CurrCount, this`Spec, this`Nodes, this`ElemNums
      modifies Nodes, subAcc
      ensures TreeOk() && Spec == s
      ensures fresh(Nodes - old(Nodes) - {subAcc})
      ensures ElemNums
              == old(ElemNums) + old(subAcc.Len) - (if old(CurrCount) < DEFAULT_ELEMS_NUM then old(CurrCount) else 0)
    {
      if CurrCount == 0 {
        var base, above, top := FirstValues(key, subAcc.Value, s);
        AddFirst(base, above, top, subAcc, s);
        return;
      }
      LinkSubAcc(subAcc, s);
      Refresh();
    }

    /** The guard of AddElements refuses this batch. */
    predicate Illegal(n: int)
      reads this`CurrCount
    {
      n <= 0 || (CurrCount < DEFAULT_ELEMS_NUM && n + CurrCount > DEFAULT_ELEMS_NUM)
    }

    /** addElements: the leaf for the last chunk, which is the old one extended or a new one. */
    method AddElementsData(elems: seq<Bytes>, ghost c: Chunk) returns (node: AccNode?, status: Status)
      requires c != [] && JoinsTo(store.files, ElemNums, CurrCount, elems, c)
      modifies store
      ensures status == (if 0 < CurrCount < DEFAULT_ELEMS_NUM && (ElemNums - 1) / DEFAULT_ELEMS_NUM !in old(store.files)
                         then Failed(NoData) else Done)
      ensures status.Failed? ==> store.files == old(store.files)
      ensures status == Done ==> node != null && IsLeafOf(key, node, c) && fresh(node)
      ensures status == Done ==>
                store.files == old(store.files)[(ElemNums + |elems| - 1) / DEFAULT_ELEMS_NUM
                                                := AccData(c, WitnessList(key, c))]
    {
      var values: seq<Bytes>;
      if CurrCount > 0 && CurrCount < DEFAULT_ELEMS_NUM {
        var index := (ElemNums - 1) / DEFAULT_ELEMS_NUM;
        if index !in store.files {
          return null, Failed(NoData);
        }
        values := store.files[index].Values + elems;
      } else {
        values := elems;
      }
      var wits;
      node, wits := LeafOf(key, values);
      var index := (ElemNums + |elems| - 1) / DEFAULT_ELEMS_NUM;
      store.files := store.files[index := AccData(values, wits)];
      status := Done;
    }

    /** addElements needs the last file and does not find it. */
    ghost predicate LastFileMissing(files: map<int, AccData>)
      reads this`CurrCount, this`ElemNums
    {
      0 < CurrCount < DEFAULT_ELEMS_NUM && (ElemNums - 1) / DEFAULT_ELEMS_NUM !in files
    }

    /** addElements and addSubAcc, in terms of the tree values. */
    method AddLeaf(elems: seq<Bytes>, ghost c: Chunk, ghost s: TreeSpec) returns (status: Status)
      requires TreeOk() && c != [] && JoinsTo(store.files, ElemNums, CurrCount, elems, c)
      requires Grows(s, |c|, AccValue(key, c)) && Closes(key, s)
      modifies this`Accs, this`Parent, this`Curr, this`CurrCount, this`Spec, this`Nodes, this`ElemNums
      modifies Nodes, store
      ensures TreeOk() && fresh(Nodes - old(Nodes))
      ensures status == if old(LastFileMissing(store.files)) then Failed(NoData) else Done
      ensures status == Failed(NoData) ==>
                Spec == old(Spec) && ElemNums == old(ElemNums) && Nodes == old(Nodes) && store.files == old(store.files)
      ensures status == Done ==>
                && Spec == s
                && ElemNums == old(ElemNums) + |c| - (if old(CurrCount) < DEFAULT_ELEMS_NUM then old(CurrCount) else 0)
                && store.files == old(store.files)[(old(ElemNums) + |elems| - 1) / DEFAULT_ELEMS_NUM
                                                   := AccData(c, WitnessList(key, c))]
    {
      hide Closes, AccValue, WitnessList, GrowsFrom;
      var node;
      node, status := AddElementsData(elems, c);
      if status.Failed? {
        return;
      }
      AddSubAcc(node, s);
    }

    /** Addition and its effect on the contents. */
    method AddBatch(elems: seq<Bytes>) returns (status: Status)
      requires TreeOk() && Meaning() && !Illegal(|elems|)
      modifies this`Accs, this`Parent, this`Curr, this`CurrCount, this`Spec, this`Nodes, this`ElemNums, this`Contents
      modifies Nodes, store
      ensures TreeOk() && fresh(Nodes - old(Nodes))
      ensures status == if old(LastFileMissing(store.files)) then Failed(NoData) else Done
      ensures WellFormed(old(Contents)) && Spec == SpecOf(key, Contents) && ElemNums == |Elements(Contents)|
      ensures status == Failed(NoData) ==>
                Contents == old(Contents) && Nodes == old(Nodes) && store.files == old(store.files)
      ensures status == Done ==> Contents == Append(old(Contents), elems)
      ensures status == Done ==> (Canonical(Contents) <==> |elems| <= DEFAULT_ELEMS_NUM)
      ensures |elems| <= DEFAULT_ELEMS_NUM ==> Meaning() && (old(FilesComplete()) ==> FilesComplete())
    {
      hide Closes, AccValue, WitnessList, GrowsFrom, SpecOf, Canonical, Faithful, Complete, JoinsTo, Append, Elements;
      CountFacts();
      ghost var t, files := Contents, store.files;
      ghost var u := Append(t, elems);
      ghost var c, s := Last(Last(u)), SpecOf(key, u);
      BatchJoins(key, files, t, elems);
      AppendSpec(key, t, elems);
      SpecCloses(key, u);
      status := AddLeaf(elems, c, s);
      if status == Done {
        Contents := u;
        AppendElements(t, elems);
        AppendLast(t, elems);
        AppendCanonical(t, elems);
        if |elems| <= DEFAULT_ELEMS_NUM {
          FilesAfterAppend(key, files, t, elems);
        }
      }
    }

    /** The guard and the missing file, seen from the contents. */
    lemma AddOutcomeIs(elems: seq<Bytes>)
      requires TreeOk() && Meaning()
      ensures WellFormed(Contents)
      ensures AddOutcome(Contents, store.files, elems)
              == if Illegal(|elems|) then Failed(IllegalNumber)
                 else if LastFileMissing(store.files) then Failed(NoData) else Done
    {
      hide TreeView.IsTree, Faithful, SpecOf, Elements, Append;
      CursorFacts();
      EmptyCount();
      if 1 <= |elems| <= DEFAULT_ELEMS_NUM {
        AppendFits(Contents, elems);
      }
      if Contents != [] {
        LastFileIndex(Contents);
      }
    }

    lemma DeleteOutcomeIs(num: int)
      requires TreeOk() && Meaning() && (CurrCount == 0 ==> DeleteIllegal(num))
      ensures WellFormed(Contents)
      ensures DeleteOutcome(Contents, store.files, num)
              == if DeleteIllegal(num) then Failed(IllegalNumber)
                 else if NeededFileMissing(num, store.files) then Failed(NoData) else Done
    {
      hide TreeView.IsTree, Faithful, SpecOf, Elements;
      CursorFacts();
      EmptyCount();
      if Contents != [] {
        LastFileIndex(Contents);
      }
    }

    /** AddElements.  The batch is refused by its number before the flag is looked at.  On a full
        last leaf nothing bounds the batch, and beyond 1024 elements the tree is not canonical. */
    method AddElements(elems: seq<Bytes>) returns (status: Status)
      requires !isUpdate ==> Valid()
      modifies this, Nodes, store
      ensures old(Illegal(|elems|)) ==> status == Failed(IllegalNumber)
      ensures !old(Illegal(|elems|)) && old(isUpdate) ==> status == Failed(UpdateOccupied)
      ensures old(Illegal(|elems|) || isUpdate) ==> unchanged(this) && unchanged(Nodes) && unchanged(store)
      ensures !old(Illegal(|elems|)) && !old(isUpdate) ==>
                && status == (if old(LastFileMissing(store.files)) then Failed(NoData) else Done)
                && TreeOk() && SnapshotOk() && !isUpdate && snapshot != null
                && fresh(snapshot) && fresh(snapshot.Nodes) && fresh(Nodes - old(Nodes))
                && WellFormed(old(Contents)) && Spec == SpecOf(key, Contents) && ElemNums == |Elements(Contents)|
      ensures status == Failed(NoData) ==> Contents == old(Contents) && store.files == old(store.files)
      ensures status == Done ==> Contents == Append(old(Contents), elems)
      ensures status == Done ==> (Canonical(Contents) <==> |elems| <= DEFAULT_ELEMS_NUM)
      ensures !old(isUpdate) && |elems| <= DEFAULT_ELEMS_NUM ==> Valid() && (old(FilesComplete()) ==> FilesComplete())
      ensures !old(isUpdate) ==>
                WellFormed(old(Contents)) && status == AddOutcome(old(Contents), old(store.files), elems)
      ensures !old(isUpdate) && old(FilesComplete()) && 1 <= |elems| <= DEFAULT_ELEMS_NUM ==>
                (status == Done <==> Canonical(Append(old(Contents), elems)))
    {
      hide TreeOk, IsSnapshot, Meaning, Complete, SpecOf, WellFormed, Canonical, Append, Elements, AddOutcome;
      if !isUpdate {
        AddOutcomeIs(elems);
        if FilesComplete() && 1 <= |elems| <= DEFAULT_ELEMS_NUM {
          AddedIffCanonical(Contents, store.files, elems);
        }
      }
      if |elems| <= 0 || (CurrCount < DEFAULT_ELEMS_NUM && |elems| + CurrCount > DEFAULT_ELEMS_NUM) {
        return Failed(IllegalNumber);
      }
      var ok := SetUpdate(true);
      if !ok {
        return Failed(UpdateOccupied);
      }
      status := AddBatch(elems);
      ok := SetUpdate(false);
    }

    // ---------- deleting ----------

    /** The guard of DeleteElements refuses this number. */
    predicate DeleteIllegal(num: int)
      reads this`CurrCount
    {
      num <= 0 || (CurrCount > 0 && num > CurrCount) || num > DEFAULT_ELEMS_NUM
    }

    /** DeleteElements: the last leaf gets shorter. */
    method ShrinkCurr(len: int, value: Bytes, ghost s: TreeSpec)
      requires TreeOk() && LeafReplaced(s, Spec, len, value) && len > 0
      modifies this`CurrCount, this`Spec, Nodes`Len, Nodes`Value
      ensures View().Linked() && Spec == s && CursorOk()
    {
      ghost var v := View();
      v.GroupFacts(|Spec.groups| - 1);
      Spec := s;
      ShrinkLeaf(v, s, Curr, len, value);
      CurrCount := Curr.Len;
      assert View() == TreeView(v.root, s, v.nodes);
    }

    /** DeleteElements: the last leaf vanishes, its parent stays. */
    method DropCurr(ghost s: TreeSpec)
      requires TreeOk() && LeafDropped(s, Spec) && SolidEnd(s)
      modifies this`Curr, this`CurrCount, this`Spec, Nodes`Children, Nodes`Len
      ensures View().Linked() && Spec == s && CursorOk()
    {
      ghost var v := View();
      v.GroupFacts(|Spec.groups| - 1);
      Spec := s;
      DropLeaf(v, s, Parent);
      assert View() == TreeView(v.root, s, v.nodes);
      View().LastLeafFacts();
      Curr := Parent.Children[Parent.Len - 1];
      CurrCount := Curr.Len;
    }

    /** DeleteElements: the cursor moves to the end of what is left. */
    method MoveCursor()
      requires View().Linked() && SolidEnd(Spec) && Accs.Len == |Accs.Children|
      requires Spec.groups != [] ==> View().GroupDone(|Spec.groups| - 1)
      modifies this`Curr, this`Parent, this`CurrCount
      ensures CursorOk()
    {
      if Accs.Len > 0 {
        View().LastLeafFacts();
        Parent := Accs.Children[Accs.Len - 1];
      } else {
        Parent := null;
      }
      if Parent != null && Parent.Len >= 1 {
        Curr := Parent.Children[Parent.Len - 1];
        CurrCount := Curr.Len;
      } else {
        Curr := null;
        CurrCount := 0;
      }
    }

    /** DeleteElements: the last leaf vanishes and takes its parent along. */
    method DropParent(ghost s: TreeSpec)
      requires TreeOk() && GroupDropped(s, Spec) && SolidEnd(s)
      modifies this`Curr, this`Parent, this`CurrCount, this`Spec, Nodes`Children, Nodes`Len
      ensures View().Linked() && Spec == s && CursorOk()
    {
      ghost var v := View();
      v.LastFacts();
      Spec := s;
      DropGroup(v, s, Accs, Parent);
      assert View() == TreeView(v.root, s, v.nodes);
      MoveCursor();
    }

    /** The elements the shorter leaf keeps are those of the last file, if it is there. */
    ghost predicate KeepsOf(num: int, c: Chunk)
      reads this`CurrCount, this`ElemNums, store
    {
      StartsWith(store.files, (ElemNums - 1) / DEFAULT_ELEMS_NUM, CurrCount - num, c)
    }

    /** How the tree values change: the leaf shrinks, it vanishes, or its parent vanishes too. */
    ghost predicate Shrinks(s: TreeSpec, num: int, value: Bytes)
      reads this`Spec, this`CurrCount
    {
      ShrinksFrom(s, Spec, CurrCount, num, value)
    }

    /** DeleteElements: the three ways the end of the tree is cut. */
    method Unlink(num: int, value: Bytes, ghost c: Chunk, ghost s: TreeSpec)
      requires TreeOk() && 0 < num <= CurrCount && Shrinks(s, num, AccValue(key, c)) && SolidEnd(s)
      requires num < CurrCount ==> value == AccValue(key, c)
      modifies this`Parent, this`Curr, this`CurrCount, this`Spec, Nodes`Children, Nodes`Len, Nodes`Value
      ensures View().Linked() && Spec == s && CursorOk()
    {
      hide AccValue;
      if num < CurrCount {
        ShrinkCurr(CurrCount - num, value, s);
      } else {
        View().LastFacts();
        if Parent.Len - 1 == 0 && Accs.Len >= 1 {
          DropParent(s);
        } else {
          DropCurr(s);
        }
      }
    }

    /** DeleteElements after guard and flag, in terms of the tree values. */
    method DeleteLeaf(num: int, ghost c: Chunk, ghost s: TreeSpec) returns (status: Status)
      requires TreeOk() && Spec.groups != [] && 0 < num <= CurrCount
      requires num < CurrCount ==> c != [] && |c| == CurrCount - num && KeepsOf(num, c)
      requires Shrinks(s, num, AccValue(key, c)) && Closes(key, s) && SolidEnd(s)
      modifies this`Parent, this`Curr, this`CurrCount, this`Spec, this`ElemNums, Nodes, store
      ensures TreeOk()
      ensures status == if num < old(CurrCount) && (old(ElemNums) - 1) / DEFAULT_ELEMS_NUM !in old(store.files)
                        then Failed(NoData) else Done
      ensures status == Failed(NoData) ==>
                Spec == old(Spec) && ElemNums == old(ElemNums) && store.files == old(store.files)
      ensures status == Done ==> Spec == s && ElemNums == old(ElemNums) - num
      ensures status == Done ==>
                var index := (old(ElemNums) - 1) / DEFAULT_ELEMS_NUM;
                store.files == if num < old(CurrCount)
                               then old(store.files)[index := AccData(c, WitnessList(key, c))]
                               else FilesBefore(old(store.files), index)
    {
      hide AccValue, Closes, WitnessList, Shrinks;
      var index := (ElemNums - 1) / DEFAULT_ELEMS_NUM;
      var value: Bytes := [];
      if num < CurrCount {
        if index !in store.files {
          return Failed(NoData);
        }
        var values := store.files[index].Values[..CurrCount - num];
        var wits;
        wits, value := LeafData(key, values);
        store.files := store.files[index := AccData(values, wits)];
      } else {
        store.files := FilesBefore(store.files, index);
      }
      ElemNums := ElemNums - num;
      Unlink(num, value, c, s);
      Refresh();
      status := Done;
    }

    /** The file DeleteElements reads for a leaf that stays is missing. */
    ghost predicate NeededFileMissing(num: int, files: map<int, AccData>)
      reads this`CurrCount, this`ElemNums
    {
      num < CurrCount && (ElemNums - 1) / DEFAULT_ELEMS_NUM !in files
    }

    /** Deletion and its effect on the contents. */
    method DeleteBatch(num: int) returns (status: Status)
      requires TreeOk() && Meaning() && Contents != [] && !DeleteIllegal(num)
      modifies this`Parent, this`Curr, this`CurrCount, this`Spec, this`ElemNums, this`Contents, Nodes, store
      ensures TreeOk() && Meaning() && (old(FilesComplete()) ==> FilesComplete())
      ensures status == if old(NeededFileMissing(num, store.files)) then Failed(NoData) else Done
      ensures WellFormed(old(Contents)) && 0 < num <= LastCount(old(Contents))
      ensures status == Failed(NoData) ==> Contents == old(Contents) && store.files == old(store.files)
      ensures status == Done ==> Contents == Truncate(old(Contents), num)
    {
      hide Closes, AccValue, WitnessList, SpecOf, Canonical, Faithful, Complete, Elements, Truncate;
      CountFacts();
      ghost var t, files := Contents, store.files;
      ghost var u := Truncate(t, num);
      ghost var c: Chunk := if u == [] then [] else Last(Last(u));
      DeleteFacts(num, u, c);
      status := DeleteLeaf(num, c, SpecOf(key, u));
      if status == Done {
        Contents := u;
        TruncateElements(t, num);
        TruncateCanonical(t, num);
        if num < LastCount(t) {
          FilesAfterShrink(key, files, t, num);
        } else {
          FilesAfterDrop(key, files, t);
        }
      }
    }

    /** What a legal number of deletions makes of the contents. */
    lemma DeleteFacts(num: int, u: Groups, c: Chunk)
      requires CursorOk() && Meaning() && Contents != [] && !DeleteIllegal(num)
      requires WellFormed(Contents) && CurrCount == LastCount(Contents) && num <= CurrCount
      requires u == Truncate(Contents, num) && c == if u == [] then [] else Last(Last(u))
      ensures Spec.groups != [] && Closes(key, SpecOf(key, u)) && SolidEnd(SpecOf(key, u))
      ensures Shrinks(SpecOf(key, u), num, AccValue(key, c))
      ensures num < CurrCount ==> c != [] && |c| == CurrCount - num && KeepsOf(num, c)
    {
      hide Closes, SpecOf, LeafReplaced, LeafDropped, GroupDropped, SolidEnd, AccValue, Elements, Faithful;
      CutSpec(key, Contents, num);
      CutKeeps(key, store.files, Contents, num);
    }

    /** DeleteElements.  On an empty tree the code runs into a nil parent unless the number is
        refused; every other call is covered. */
    method DeleteElements(num: int) returns (status: Status)
      requires !isUpdate ==> Valid()
      requires CurrCount == 0 ==> DeleteIllegal(num)
      modifies this, Nodes, store
      ensures old(DeleteIllegal(num)) ==> status == Failed(IllegalNumber)
      ensures !old(DeleteIllegal(num)) && old(isUpdate) ==> status == Failed(UpdateOccupied)
      ensures old(DeleteIllegal(num) || isUpdate) ==> unchanged(this) && unchanged(Nodes) && unchanged(store)
      ensures !old(DeleteIllegal(num)) && !old(isUpdate) ==>
                && status == (if old(NeededFileMissing(num, store.files)) then Failed(NoData) else Done)
                && snapshot != null && fresh(snapshot) && fresh(snapshot.Nodes) && Nodes == old(Nodes)
                && WellFormed(old(Contents)) && 0 < num <= LastCount(old(Contents)) && old(Contents) != []
      ensures !old(isUpdate) ==> Valid() && (old(FilesComplete()) ==> FilesComplete())
      ensures status == Failed(NoData) ==> Contents == old(Contents) && store.files == old(store.files)
      ensures status == Done ==> Contents == Truncate(old(Contents), num)
      ensures !old(isUpdate) ==>
                WellFormed(old(Contents)) && status == DeleteOutcome(old(Contents), old(store.files), num)
    {
      hide TreeOk, IsSnapshot, Meaning, FilesComplete, SpecOf, WellFormed, Canonical, Truncate, Elements, DeleteOutcome;
      if !isUpdate {
        DeleteOutcomeIs(num);
      }
      if num <= 0 || (CurrCount > 0 && num > CurrCount) || num > DEFAULT_ELEMS_NUM {
        return Failed(IllegalNumber);
      }
      var ok := SetUpdate(true);
      if !ok {
        return Failed(UpdateOccupied);
      }
      EmptyCount();
      status := DeleteBatch(num);
      ok := SetUpdate(false);
    }

    lemma EmptyCount()
      requires TreeOk() && Meaning()
      ensures Contents == [] <==> CurrCount == 0
    {
      CountFacts();
    }

    lemma CursorFacts()
      requires TreeOk() && Meaning()
      ensures WellFormed(Contents) && CurrCount == LastCount(Contents) && ElemNums == |Elements(Contents)|
      ensures CurrCount <= DEFAULT_ELEMS_NUM
    {
      CountFacts();
      if Contents != [] {
        ChunksLast(Contents);
      }
    }

    /** With no file missing, the last file is there when the tree is not empty. */
    lemma LastFilePresent()
      requires TreeOk() && Meaning() && FilesComplete()
      ensures CurrCount > 0 ==> (ElemNums - 1) / DEFAULT_ELEMS_NUM in store.files
    {
      EmptyCount();
      if Contents != [] {
        LastFileIndex(Contents);
      }
    }

    lemma CountFacts()
      requires CursorOk() && Meaning()
      ensures WellFormed(Contents) && CurrCount == LastCount(Contents)
    {
      if Contents != [] {
        SpecCount(key, Contents);
      }
    }
  }

  /** A detached leaf with the length and value of this chunk. */
  ghost predicate IsLeafOf(key: Key, n: AccNode, c: Chunk)
    reads n
  {
    n.level == 2 && n.Children == [] && n.Len == |c| && n.Value == AccValue(key, c)
  }

  /** Witnesses of all elements, and from the last of them the value of the leaf. */
  method LeafData(key: Key, values: seq<Bytes>) returns (wits: seq<Bytes>, value: Bytes)
    requires values != []
    ensures wits == WitnessList(key, values) && value == AccValue(key, values)
  {
    wits := GenerateWitness(key, key.G, values);
    var n := |values|;
    WitnessCompletes(key, values, n - 1);
    value := GenerateAccFrom(key, wits[n - 1], [values[n - 1]]);
    assert wits == WitnessList(key, values);
  }

  method LeafOf(key: Key, values: seq<Bytes>) returns (node: AccNode, wits: seq<Bytes>)
    requires values != []
    ensures fresh(node) && IsLeafOf(key, node, values) && wits == WitnessList(key, values)
  {
    var value;
    wits, value := LeafData(key, values);
    node := new AccNode(2);
    node.Len := |values|;
    node.Value := value;
  }
}
