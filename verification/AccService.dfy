/** The accumulator's proof-giving operations: AddElementsAndProof, DeleteElementsAndProof and
    getWitnessChain (acc/muti_level_acc.go), each tied to the verifier's checkers. */
module AccService {
  import opened ByteStrings
  import opened FlatAcc
  import opened Forest
  import opened AccNodes
  import opened AccTree
  import opened WitnessChain
  import opened AccProofs
  import opened MultiLevelAcc

  // ---------- chains and paths read off tree values ----------

  function RootOf(a: TreeSpec): WitnessNode {
    Node(a.value, [], Nil)
  }

  function GroupOf(a: TreeSpec, i: nat): WitnessNode
    requires i < |a.groups|
  {
    Node(a.groups[i].value, a.groups[i].wit, RootOf(a))
  }

  function LeafOfSpec(a: TreeSpec, i: nat, j: nat): WitnessNode
    requires i < |a.groups| && j < |a.groups[i].leaves|
  {
    Node(a.groups[i].leaves[j].value, a.groups[i].leaves[j].wit, GroupOf(a, i))
  }

  function Announce(base: Bytes, above: WitnessNode): WitnessNode
    requires above.Node?
  {
    Node(base, above.Elem, above)
  }

  /** The old chain for a tree that grew from b to a. */
  function GrownChain(a: TreeSpec, b: TreeSpec, base: Bytes): WitnessNode
    requires |a.groups| >= |b.groups| && SolidEnd(a) && SolidEnd(b) && a.groups != []
  {
    if |a.groups| > |b.groups| then Announce(base, Announce(base, RootOf(b)))
    else if |Last(a.groups).leaves| > |Last(b.groups).leaves| then Announce(base, GroupOf(b, |b.groups| - 1))
    else LeafOfSpec(b, |b.groups| - 1, |Last(b.groups).leaves| - 1)
  }

  function PathOf(a: TreeSpec): seq<Bytes>
    requires SolidEnd(a) && a.groups != []
  {
    [Last(Last(a.groups).leaves).value, Last(a.groups).value, a.value]
  }

  /** The accs list for a tree that shrank from b to a. */
  function ShrunkPath(a: TreeSpec, b: TreeSpec, base: Bytes): seq<Bytes>
    requires SolidEnd(a) && b.groups != []
  {
    if |a.groups| < |b.groups| then [base, base, a.value]
    else if |Last(a.groups).leaves| < |Last(b.groups).leaves| then [base, Last(a.groups).value, a.value]
    else PathOf(a)
  }

  /** The part of AddElementsAndProof that walks down the last branch of the old and the new tree
      in step. */
  method BuildInsertChain(live: AccNode, past: AccNode, base: Bytes, ghost v: TreeView, ghost w: TreeView)
    returns (exist: WitnessNode)
    requires v.IsTree() && w.IsTree() && live == v.root && past == w.root
    requires |v.s.groups| >= |w.s.groups| && SolidEnd(v.s) && SolidEnd(w.s) && v.s.groups != []
    ensures exist == GrownChain(v.s, w.s, base)
  {
    exist := Node(past.Value, [], Nil);
    var count := 1;
    var p, q := live, past;
    v.LastFacts();
    v.LastLeafFacts();
    if w.s.groups != [] {
      w.LastFacts();
      w.LastLeafFacts();
      w.LastValues();
    }
    while count < DEFAULT_LEVEL
      invariant 1 <= count <= 3
      invariant count == 1 ==> p == live && q == past && exist == RootOf(w.s)
      invariant count >= 2 ==> |v.s.groups| == |w.s.groups|
      invariant count == 2 ==>
                  p == Last(live.Children) && q == Last(past.Children) && exist == GroupOf(w.s, |w.s.groups| - 1)
      invariant count == 3 ==>
                  && |Last(v.s.groups).leaves| <= |Last(w.s.groups).leaves|
                  && exist == LeafOfSpec(w.s, |w.s.groups| - 1, |Last(w.s.groups).leaves| - 1)
    {
      if p.Len > q.Len {
        for i := count to DEFAULT_LEVEL
          invariant exist.Node?
          invariant i == count ==> exist == if count == 1 then RootOf(w.s) else GroupOf(w.s, |w.s.groups| - 1)
          invariant count == 1 && i == 2 ==> exist == Announce(base, RootOf(w.s))
          invariant count == 1 && i == 3 ==> exist == Announce(base, Announce(base, RootOf(w.s)))
          invariant count == 2 && i == 3 ==> exist == Announce(base, GroupOf(w.s, |w.s.groups| - 1))
        {
          exist := Node(base, exist.Elem, exist);
        }
        break;
      }
      count := count + 1;
      p, q := p.Children[p.Len - 1], q.Children[q.Len - 1];
      exist := Node(q.Value, q.Wit, exist);
    }
  }

  /** The values down the last branch, bottom first. */
  method ReadPath(live: AccNode, ghost v: TreeView) returns (accs: seq<Bytes>)
    requires v.IsTree() && live == v.root && v.s.groups != [] && SolidEnd(v.s)
    ensures accs == PathOf(v.s) && |accs| == DEFAULT_LEVEL
  {
    v.LastFacts();
    v.LastLeafFacts();
    v.LastValues();
    assert Last(Last(live.Children).Children).Children == [] by {
      assert v.GroupAt(|v.s.groups| - 1);
      assert v.LeafAt(Last(live.Children), |Last(v.s.groups).leaves| - 1, Last(Last(v.s.groups).leaves));
    }
    var p := live;
    accs := [];
    for i := 0 to DEFAULT_LEVEL
      invariant i == 0 ==> p == live && accs == []
      invariant i == 1 ==> p == Last(live.Children) && accs == [v.s.value]
      invariant i == 2 ==> p == Last(Last(live.Children).Children) && accs == [Last(v.s.groups).value, v.s.value]
      invariant i == 3 ==> accs == PathOf(v.s)
    {
      accs := [p.Value] + accs;
      if p.Children != [] {
        p := p.Children[p.Len - 1];
      }
    }
  }

  /** The part of DeleteElementsAndProof that collects the new values down the last branch. */
  method BuildDeletePath(live: AccNode, past: AccNode, base: Bytes, ghost v: TreeView, ghost w: TreeView)
    returns (accs: seq<Bytes>)
    requires v.IsTree() && w.IsTree() && live == v.root && past == w.root
    requires |v.s.groups| <= |w.s.groups| && SolidEnd(v.s) && SolidEnd(w.s) && w.s.groups != []
    ensures accs == ShrunkPath(v.s, w.s, base)
  {
    accs := [[], [], live.Value];
    var count := 1;
    var p, q := live, past;
    w.LastFacts();
    w.LastLeafFacts();
    if v.s.groups != [] {
      v.LastFacts();
      v.LastLeafFacts();
      v.LastValues();
    }
    while count < DEFAULT_LEVEL
      invariant 1 <= count <= 3 && |accs| == 3
      invariant accs[2] == v.s.value
      invariant count == 1 ==> p == live && q == past
      invariant count >= 2 ==> |v.s.groups| == |w.s.groups| && accs[1] == Last(v.s.groups).value
      invariant count == 2 ==> p == Last(live.Children) && q == Last(past.Children)
      invariant count == 3 ==>
                  && |Last(v.s.groups).leaves| >= |Last(w.s.groups).leaves|
                  && accs[0] == Last(Last(v.s.groups).leaves).value
    {
      if p.Len < q.Len {
        var i := DEFAULT_LEVEL - count - 1;
        while i >= 0
          invariant -1 <= i < DEFAULT_LEVEL - count && |accs| == 3 && accs[2] == v.s.value
          invariant count == 2 ==> accs[1] == Last(v.s.groups).value
          invariant forall k :: i < k < DEFAULT_LEVEL - count ==> accs[k] == base
        {
          accs := accs[i := base];
          i := i - 1;
        }
        break;
      }
      count := count + 1;
      p, q := p.Children[p.Len - 1], q.Children[q.Len - 1];
      accs := accs[DEFAULT_LEVEL - count := p.Value];
    }
  }

  // ---------- the same as values of the contents ----------

  lemma SolidSpec(key: Key, t: Groups)
    requires WellFormed(t)
    ensures SolidEnd(SpecOf(key, t))
  {
    if t != [] {
      SpecCount(key, t);
    }
  }

  lemma LeafOfSpecAt(key: Key, t: Groups, i: nat, j: nat)
    requires i < |t| && j < |t[i]|
    ensures LeafOfSpec(SpecOf(key, t), i, j) == LeafNode(key, t, i, j)
  {
    hide AccValue, GroupValue, RootValue, WitnessValue, LeafWitness, GroupWitness;
  }

  lemma PathOfSpec(key: Key, t: Groups)
    requires WellFormed(t) && t != []
    ensures SolidEnd(SpecOf(key, t)) && PathOf(SpecOf(key, t)) == PathValues(key, t)
  {
    hide AccValue, GroupValue, RootValue, WitnessValue, LeafWitness, GroupWitness;
    SolidSpec(key, t);
  }

  lemma GrownChainOfSpec(key: Key, t: Groups, xs: Chunk)
    requires WellFormed(t) && xs != []
    ensures var a, b := SpecOf(key, Append(t, xs)), SpecOf(key, t);
            && SolidEnd(a) && SolidEnd(b) && |a.groups| >= |b.groups|
            && GrownChain(a, b, ToBytes(key.G)) == InsertChain(key, t)
  {
    hide AccValue, GroupValue, RootValue, WitnessValue, LeafWitness, GroupWitness, ToBytes;
    SolidSpec(key, t);
    SolidSpec(key, Append(t, xs));
    if t != [] {
      SpecCount(key, t);
      SpecCount(key, Append(t, xs));
      LeafOfSpecAt(key, t, |t| - 1, |Last(t)| - 1);
    }
  }

  lemma ShrunkPathOfSpec(key: Key, t: Groups, n: nat)
    requires WellFormed(t) && t != [] && 0 < n <= LastCount(t)
    ensures var a, b := SpecOf(key, Truncate(t, n)), SpecOf(key, t);
            && SolidEnd(a) && SolidEnd(b) && |a.groups| <= |b.groups|
            && ShrunkPath(a, b, ToBytes(key.G)) == DeletePath(key, t, n)
  {
    hide AccValue, GroupValue, RootValue, WitnessValue, LeafWitness, GroupWitness, ToBytes;
    var u := Truncate(t, n);
    SolidSpec(key, t);
    SolidSpec(key, u);
    SpecCount(key, t);
    if u != [] {
      SpecCount(key, u);
      PathOfSpec(key, u);
    }
  }

  // ---------- the operations ----------

  /** Chain and values for a tree that grew from the one in the snapshot. */
  method BuildInsertProof(acc: MutiLevelAcc, snapshot: MutiLevelAcc, elems: seq<Bytes>, ghost t: Groups)
    returns (exist: WitnessNode, accs: seq<Bytes>)
    requires acc.TreeOk() && snapshot.TreeOk() && WellFormed(t) && elems != []
    requires acc.Spec == SpecOf(acc.key, Append(t, elems)) && snapshot.Spec == SpecOf(acc.key, t)
    ensures exist == InsertChain(acc.key, t) && accs == PathValues(acc.key, Append(t, elems))
    ensures |accs| == DEFAULT_LEVEL == Length(exist) && ProvesInsert(acc.key, exist, elems, accs, RootValue(acc.key, t))
  {
    hide MutiLevelAcc.TreeOk, TreeView.IsTree, ProvesInsert, Length, SpecOf, WellFormed, Append, InsertChain,
         PathValues, RootValue, GrownChain, PathOf, SolidEnd;
    ghost var key, w, v := acc.key, snapshot.View(), acc.View();
    GrownChainOfSpec(key, t, elems);
    PathOfSpec(key, Append(t, elems));
    IsTreeFacts(acc);
    IsTreeFacts(snapshot);
    exist := BuildInsertChain(acc.Accs, snapshot.Accs, ToBytes(acc.key.G), v, w);
    accs := ReadPath(acc.Accs, v);
    InsertAccepted(key, t, elems, accs);
  }

  /** AddElementsAndProof.  When the addition is done, chain and values are the honest ones for the
      old and the new contents, so VerifyInsertUpdate accepts them against the old root. */
  method AddElementsAndProof(acc: MutiLevelAcc, elems: seq<Bytes>)
    returns (exist: WitnessNode, accs: seq<Bytes>, status: Status)
    requires acc.Valid()
    modifies acc, acc.Nodes, acc.store
    ensures WellFormed(old(acc.Contents)) && old(acc.Accs.Value) == RootValue(acc.key, old(acc.Contents))
    ensures old(acc.Illegal(|elems|)) ==> status == Failed(IllegalNumber)
    ensures !old(acc.Illegal(|elems|)) ==>
              status == if old(acc.LastFileMissing(acc.store.files)) then Failed(NoData) else Done
    ensures status == AddOutcome(old(acc.Contents), old(acc.store.files), elems)
    ensures old(acc.FilesComplete()) && 1 <= |elems| <= DEFAULT_ELEMS_NUM ==>
              (status == Done <==> Canonical(Append(old(acc.Contents), elems)))
    ensures status.Failed? ==> acc.Contents == old(acc.Contents)
    ensures status == Done ==>
              && elems != [] && acc.Contents == Append(old(acc.Contents), elems)
              && exist == InsertChain(acc.key, old(acc.Contents)) && accs == PathValues(acc.key, acc.Contents)
              && Length(exist) == DEFAULT_LEVEL
              && ProvesInsert(acc.key, exist, elems, accs, old(acc.Accs.Value))
    ensures |elems| <= DEFAULT_ELEMS_NUM ==> acc.Valid()
    ensures fresh(acc.Nodes - old(acc.Nodes)) && acc.Accs.Value == RootValue(acc.key, acc.Contents)
    ensures |elems| <= DEFAULT_ELEMS_NUM && old(acc.FilesComplete()) ==> acc.FilesComplete()
  {
    hide MutiLevelAcc.TreeOk, MutiLevelAcc.Meaning, MutiLevelAcc.FilesComplete, TreeView.IsTree, ProvesInsert, Length,
         SpecOf, WellFormed, Canonical, Append, Elements, InsertChain, PathValues, RootValue, GrownChain, PathOf,
         SolidEnd, AddOutcome;
    ghost var key, t := acc.key, acc.Contents;
    ContentsFacts(acc);
    var snapshot := acc.GetSnapshot();
    IsTreeFacts(snapshot);
    status := acc.AddElements(elems);
    if status.Failed? {
      if status.reason == NoData {
        RootValueFacts(acc);
      }
      return Nil, [], status;
    }
    RootValueFacts(acc);
    exist, accs := BuildInsertProof(acc, snapshot, elems, t);
  }

  /** DeleteElementsAndProof.  The chain is read before the deletion, the values after it; they are
      the honest ones, so VerifyDeleteUpdate accepts them for the deleted elements against the old
      root if and only if no surviving accumulator is mistaken for an empty one. */
  method DeleteElementsAndProof(acc: MutiLevelAcc, num: int)
    returns (exist: WitnessNode, accs: seq<Bytes>, status: Status)
    requires acc.Valid() && acc.CurrCount > 0
    modifies acc, acc.Nodes, acc.store
    ensures acc.Valid() && (old(acc.FilesComplete()) ==> acc.FilesComplete())
    ensures old(acc.DeleteIllegal(num)) ==> status == Failed(IllegalNumber)
    ensures !old(acc.DeleteIllegal(num)) ==>
              status == if old(acc.NeededFileMissing(num, acc.store.files)) then Failed(NoData) else Done
    ensures status.Failed? ==> acc.Contents == old(acc.Contents)
    ensures WellFormed(old(acc.Contents)) && old(acc.Contents) != []
    ensures status == DeleteOutcome(old(acc.Contents), old(acc.store.files), num)
    ensures old(acc.Accs.Value) == RootValue(acc.key, old(acc.Contents))
    ensures status == Done ==>
              && 0 < num <= LastCount(old(acc.Contents)) && acc.Contents == Truncate(old(acc.Contents), num)
              && exist == LastLeafNode(acc.key, old(acc.Contents))
              && accs == DeletePath(acc.key, old(acc.Contents), num)
              && accs[DEFAULT_LEVEL - 1] == acc.Accs.Value
              && Length(exist) == DEFAULT_LEVEL
              && (ProvesDelete(acc.key, exist, Deleted(old(acc.Contents), num), accs, old(acc.Accs.Value))
                  <==> SurvivorsDistinguished(acc.key, old(acc.Contents), num))
  {
    hide MutiLevelAcc.TreeOk, MutiLevelAcc.Meaning, MutiLevelAcc.FilesComplete, TreeView.IsTree, ProvesDelete, Length,
         SpecOf, WellFormed, Canonical, Truncate, Elements, LastLeafNode, DeletePath, RootValue, ShrunkPath, SolidEnd,
         SurvivorsDistinguished, Deleted, LeafOfSpec, DeleteOutcome;
    ghost var key, t := acc.key, acc.Contents;
    ContentsFacts(acc);
    exist := ReadLastChain(acc);
    var snapshot := acc.GetSnapshot();
    IsTreeFacts(snapshot);
    status := acc.DeleteElements(num);
    if status.Failed? {
      return Nil, [], status;
    }
    ghost var w, v := snapshot.View(), acc.View();
    assert snapshot.TreeOk();
    ContentsFacts(acc);
    ShrunkPathOfSpec(key, t, num);
    IsTreeFacts(acc);
    IsTreeFacts(snapshot);
    accs := BuildDeletePath(acc.Accs, snapshot.Accs, ToBytes(acc.key.G), v, w);
    DeleteAccepted(key, t, num);
    assert accs[DEFAULT_LEVEL - 1] == acc.Accs.Value by {
      DeletePathTop(key, t, num);
    }
  }

  lemma DeletePathTop(key: Key, t: Groups, n: nat)
    requires WellFormed(t) && t != [] && n <= LastCount(t)
    ensures DeletePath(key, t, n)[DEFAULT_LEVEL - 1] == RootValue(key, Truncate(t, n))
  {
  }

  /** The chain of the last leaf, read off the cursor. */
  method ReadLastChain(acc: MutiLevelAcc) returns (exist: WitnessNode)
    requires acc.TreeOk() && acc.Meaning() && acc.CurrCount > 0
    ensures WellFormed(acc.Contents) && acc.Contents != []
    ensures exist == LastLeafNode(acc.key, acc.Contents)
  {
    acc.EmptyCount();
    ContentsFacts(acc);
    LastChainFacts(acc);
    exist := Node(acc.Curr.Value, acc.Curr.Wit,
                  Node(acc.Parent.Value, acc.Parent.Wit, Node(acc.Accs.Value, [], Nil)));
  }

  lemma LastChainFacts(acc: MutiLevelAcc)
    requires acc.TreeOk() && acc.CurrCount > 0
    requires WellFormed(acc.Contents) && acc.Contents != [] && acc.Spec == SpecOf(acc.key, acc.Contents)
    ensures acc.Curr != null && acc.Parent != null
    ensures Node(acc.Curr.Value, acc.Curr.Wit, Node(acc.Parent.Value, acc.Parent.Wit, Node(acc.Accs.Value, [], Nil)))
            == LastLeafNode(acc.key, acc.Contents)
  {
    hide AccValue, GroupValue, RootValue, WitnessValue, LeafWitness, GroupWitness;
    acc.View().LastValues();
    LeafOfSpecAt(acc.key, acc.Contents, |acc.Contents| - 1, |Last(acc.Contents)| - 1);
  }

  // ---------- membership chains ----------

  datatype ChainResult = Chain(wit: WitnessNode) | BadIndex | MissingFile

  const SQUARE: int := DEFAULT_ELEMS_NUM * DEFAULT_ELEMS_NUM

  /** math.Pow(1024, DEFAULT_LEVEL - i - 1) */
  function LevelSize(i: nat): (size: int)
    requires i < DEFAULT_LEVEL
    ensures size > 0
  {
    if i == 0 then SQUARE else if i == 1 then DEFAULT_ELEMS_NUM else 1
  }

  /** Group, leaf and offset of an element of a canonical tree. */
  lemma ElementPlace(t: Groups, k: nat)
    requires Canonical(t) && k < |Elements(t)|
    ensures var i, j, o := k / SQUARE, (k / DEFAULT_ELEMS_NUM) % DEFAULT_ELEMS_NUM, k % DEFAULT_ELEMS_NUM;
            i < |t| && j < |t[i]| && o < |t[i][j]| && t[i][j][o] == Elements(t)[k]
    ensures var m := k / DEFAULT_ELEMS_NUM;
            m < |Flatten(t)| && Flatten(t)[m] == t[k / SQUARE][m % DEFAULT_ELEMS_NUM]
  {
    hide Flatten, WellFormed;
    var m := k / DEFAULT_ELEMS_NUM;
    PackedIndex(Flatten(t), k);
    PackedIndex(t, m);
    assert m / DEFAULT_ELEMS_NUM == k / SQUARE;
  }

  /** The walk from the root to the leaf that holds element number index.  The rounds in which the child
      list is too short are that of the leaf, and no other. */
  method WalkDown(root: AccNode, index: int, ghost v: TreeView) returns (wit: WitnessNode, ghost short: set<int>)
    requires v.IsTree() && root == v.root && 0 < index <= SQUARE * SQUARE
    requires (index - 1) / SQUARE < |v.s.groups|
    requires ((index - 1) / DEFAULT_ELEMS_NUM) % DEFAULT_ELEMS_NUM < |v.s.groups[(index - 1) / SQUARE].leaves|
    ensures wit == LeafOfSpec(v.s, (index - 1) / SQUARE, ((index - 1) / DEFAULT_ELEMS_NUM) % DEFAULT_ELEMS_NUM)
    ensures short == {DEFAULT_LEVEL - 1}
  {
    ghost var a, b := (index - 1) / SQUARE, ((index - 1) / DEFAULT_ELEMS_NUM) % DEFAULT_ELEMS_NUM;
    assert v.GroupAt(a) && v.GroupDone(a);
    assert v.LeafAt(root.Children[a], b, v.s.groups[a].leaves[b]);
    var p := root;
    wit, short := Nil, {};
    for i := 0 to DEFAULT_LEVEL
      invariant short == if i < DEFAULT_LEVEL then {} else {DEFAULT_LEVEL - 1}
      invariant i == 0 ==> p == root && wit == Nil
      invariant i == 1 ==> p == root.Children[a] && wit == RootOf(v.s)
      invariant i == 2 ==> p == root.Children[a].Children[b] && wit == GroupOf(v.s, a)
      invariant i == 3 ==> wit == LeafOfSpec(v.s, a, b)
    {
      wit := Node(p.Value, p.Wit, wit);
      var size := LevelSize(i);
      var idx := ((index - 1) / size) % size;
      if |p.Children| < idx + 1 {
        short := short + {i};
        continue;
      }
      p := p.Children[idx];
    }
  }

  lemma PlaceFacts(key: Key, files: map<int, AccData>, t: Groups, k: nat)
    requires Canonical(t) && k < |Elements(t)| && Faithful(key, files, Flatten(t))
    ensures var i, j, o := k / SQUARE, (k / DEFAULT_ELEMS_NUM) % DEFAULT_ELEMS_NUM, k % DEFAULT_ELEMS_NUM;
            && i < |t| && j < |t[i]| && o < |t[i][j]| && t[i][j][o] == Elements(t)[k]
            && i < |SpecOf(key, t).groups| && j < |SpecOf(key, t).groups[i].leaves|
            && LeafOfSpec(SpecOf(key, t), i, j) == LeafNode(key, t, i, j)
            && (k / DEFAULT_ELEMS_NUM in files ==>
                  files[k / DEFAULT_ELEMS_NUM] == AccData(t[i][j], WitnessList(key, t[i][j])))
  {
    hide SpecOf, LeafOfSpec, LeafNode, WitnessList, Canonical, Elements;
    ElementPlace(t, k);
    var i, j := k / SQUARE, (k / DEFAULT_ELEMS_NUM) % DEFAULT_ELEMS_NUM;
    LeafOfSpecAt(key, t, i, j);
    SpecSizes(key, t, i);
  }

  lemma SpecSizes(key: Key, t: Groups, i: nat)
    requires i < |t|
    ensures |SpecOf(key, t).groups| == |t| && |SpecOf(key, t).groups[i].leaves| == |t[i]|
  {
  }

  /** getWitnessChain on a tree that is not being updated. */
  method GetWitnessChain(acc: MutiLevelAcc, index: int) returns (r: ChainResult)
    requires acc.TreeOk() && acc.Meaning() && |Elements(acc.Contents)| <= SQUARE * SQUARE
    ensures r == BadIndex <==> index <= 0 || index > |Elements(acc.Contents)|
    ensures r == MissingFile <==>
              0 < index <= |Elements(acc.Contents)| && (index - 1) / DEFAULT_ELEMS_NUM !in acc.store.files
    ensures r.Chain? ==>
              && r.wit.Node? && r.wit.Elem == Elements(acc.Contents)[index - 1]
              && Length(r.wit) == 4 && ProvesMembership(acc.key, r.wit, acc.Accs.Value)
  {
    hide SpecOf, Canonical, Elements, WellFormed, RootValue, LeafNode, LeafOfSpec, Length, ProvesMembership, Faithful,
         TreeView.IsTree, WitnessValue;
    if index <= 0 || index > acc.ElemNums {
      return BadIndex;
    }
    ghost var t, k := acc.Contents, index - 1;
    ghost var i, j := k / SQUARE, (k / DEFAULT_ELEMS_NUM) % DEFAULT_ELEMS_NUM;
    PlaceFacts(acc.key, acc.store.files, t, k);
    var wit, short := WalkDown(acc.Accs, index, acc.View());
    if (index - 1) / DEFAULT_ELEMS_NUM !in acc.store.files {
      return MissingFile;
    }
    var data := acc.store.files[(index - 1) / DEFAULT_ELEMS_NUM];
    var idx := (index - 1) % DEFAULT_ELEMS_NUM;
    wit := Node(data.Values[idx], data.Wits[idx], wit);
    ContentsFacts(acc);
    ElementChainAccepted(acc.key, t, i, j, idx);
    return Chain(wit);
  }

  /** The element with this number is in, and its file is there. */
  ghost predicate Chainable(acc: MutiLevelAcc, index: int)
    reads acc`Contents, acc.store
  {
    0 < index <= |Elements(acc.Contents)| && (index - 1) / DEFAULT_ELEMS_NUM in acc.store.files
  }

  /** A chain for element number index, accepted against the root value. */
  ghost predicate IsChain(acc: MutiLevelAcc, index: int, w: WitnessNode)
    reads acc`Contents, acc`Accs, acc.Accs
  {
    && w.Node? && 0 < index <= |Elements(acc.Contents)| && w.Elem == Elements(acc.Contents)[index - 1]
    && ProvesMembership(acc.key, w, acc.Accs.Value)
  }

  lemma SnapshotMeaning(acc: MutiLevelAcc)
    requires acc.Valid() && acc.snapshot != null
    ensures acc.snapshot.TreeOk() && acc.snapshot.Meaning() && acc.snapshot.Accs.Value == acc.Accs.Value
    ensures acc.snapshot.Contents == acc.Contents && acc.snapshot.key == acc.key && acc.snapshot.store == acc.store
  {
    hide SpecOf, Canonical, Elements, Faithful, RootValue;
    ContentsFacts(acc);
    ContentsFacts(acc.snapshot);
  }

  /** One element's chain, off the snapshot. */
  method SnapshotChain(acc: MutiLevelAcc, snapshot: MutiLevelAcc, index: int) returns (r: ChainResult)
    requires acc.Valid() && acc.snapshot == snapshot && |Elements(acc.Contents)| <= SQUARE * SQUARE
    ensures r.Chain? <==> Chainable(acc, index)
    ensures r.Chain? ==> IsChain(acc, index, r.wit)
  {
    hide MutiLevelAcc.TreeOk, MutiLevelAcc.Meaning, MutiLevelAcc.SnapshotOk, Elements, ProvesMembership, Length;
    SnapshotMeaning(acc);
    r := GetWitnessChain(snapshot, index);
  }

  /** GetWitnessChains with no update in progress: chains for all elements, or an error when one is
      not there. */
  method GetWitnessChains(acc: MutiLevelAcc, indexs: seq<int>) returns (chains: seq<WitnessNode>, ok: bool)
    requires acc.Valid() && |Elements(acc.Contents)| <= SQUARE * SQUARE
    modifies acc`snapshot
    ensures acc.Valid()
    ensures ok <==> forall i :: 0 <= i < |indexs| ==> Chainable(acc, indexs[i])
    ensures ok ==> |chains| == |indexs| && forall i :: 0 <= i < |indexs| ==> IsChain(acc, indexs[i], chains[i])
  {
    hide MutiLevelAcc.TreeOk, MutiLevelAcc.Meaning, MutiLevelAcc.IsSnapshot, Elements, ProvesMembership, Chainable,
         IsChain;
    var snapshot := acc.GetSnapshot();
    chains := [];
    for i := 0 to |indexs|
      invariant acc.Valid() && acc.snapshot == snapshot && |chains| == i
      invariant forall k :: 0 <= k < i ==> Chainable(acc, indexs[k]) && IsChain(acc, indexs[k], chains[k])
    {
      var r := SnapshotChain(acc, snapshot, indexs[i]);
      if !r.Chain? {
        return [], false;
      }
      chains := chains + [r.wit];
    }
    ok := true;
  }

  lemma ElementChainAccepted(key: Key, t: Groups, i: nat, j: nat, k: nat)
    requires i < |t| && j < |t[i]| && k < |t[i][j]|
    ensures var w := ElementNode(key, t, i, j, k);
            && w == Node(t[i][j][k], WitnessList(key, t[i][j])[k], LeafNode(key, t, i, j))
            && Length(w) == 4 && ProvesMembership(key, w, RootValue(key, t))
  {
    ElementMember(key, t, i, j, k);
    ThreeNodesAt(LeafNode(key, t, i, j));
  }

  lemma ContentsFacts(acc: MutiLevelAcc)
    requires acc.TreeOk() && acc.Meaning()
    ensures WellFormed(acc.Contents) && acc.Spec == SpecOf(acc.key, acc.Contents)
    ensures acc.Accs.Value == RootValue(acc.key, acc.Contents)
  {
  }

  lemma RootValueFacts(acc: MutiLevelAcc)
    requires acc.TreeOk() && acc.Spec == SpecOf(acc.key, acc.Contents)
    ensures acc.Accs.Value == RootValue(acc.key, acc.Contents)
  {
  }

  lemma IsTreeFacts(acc: MutiLevelAcc)
    requires acc.TreeOk()
    ensures acc.View().IsTree() && acc.Accs in acc.Nodes
  {
  }

  lemma SameFiles(key: Key, f: map<int, AccData>, g: map<int, AccData>, chunks: seq<Chunk>)
    requires Faithful(key, f, chunks) && Faithful(key, g, chunks) && Complete(f, chunks) && Complete(g, chunks)
    ensures f == g
  {
    forall j | j in f || j in g ensures j in f && j in g && f[j] == g[j] {
      assert 0 <= j < |chunks|;
    }
    assert f.Keys == g.Keys;
  }

  /** Adding a legal batch and deleting as many elements again restores tree values, counters,
      contents and element files, and the deletion proof ends in the root from before. */
  method AddThenDelete(acc: MutiLevelAcc, elems: seq<Bytes>) returns (exist: WitnessNode, accs: seq<Bytes>)
    requires acc.Valid() && acc.FilesComplete() && !acc.Illegal(|elems|) && |elems| <= DEFAULT_ELEMS_NUM
    modifies acc, acc.Nodes, acc.store
    ensures acc.Valid() && acc.Contents == old(acc.Contents) && acc.Spec == old(acc.Spec)
    ensures acc.ElemNums == old(acc.ElemNums) && acc.CurrCount == old(acc.CurrCount)
    ensures acc.store.files == old(acc.store.files)
    ensures |accs| == DEFAULT_LEVEL && accs[DEFAULT_LEVEL - 1] == old(acc.Accs.Value)
  {
    hide MutiLevelAcc.TreeOk, SpecOf, WellFormed, Append, Elements, TreeView.IsTree, ProvesDelete, ProvesInsert, Length,
         LastLeafNode, RootValue, SurvivorsDistinguished, Deleted, Truncate, PathValues, InsertChain, DeletePath;
    ghost var t, files, key := acc.Contents, acc.store.files, acc.key;
    ContentsFacts(acc);
    acc.CursorFacts();
    acc.LastFilePresent();
    var status := acc.AddElements(elems);
    acc.CursorFacts();
    acc.LastFilePresent();
    TruncateUndoesAppend(t, elems);
    exist, accs, status := DeleteElementsAndProof(acc, |elems|);
    acc.CursorFacts();
    RootValueFacts(acc);
    SameFiles(key, files, acc.store.files, Flatten(t));
  }
}
