/** The link changes at the end of the tree that addSubAcc and DeleteElements make before they
    call updateAcc (acc/muti_level_acc.go).  Each leaves a tree whose links, leaves and earlier
    parents are those of the new contents. */
module AccLinks {
  import opened ByteStrings
  import opened FlatAcc
  import opened Forest
  import opened AccNodes
  import opened AccTree

  predicate SameGroup(a: GroupSpec, b: GroupSpec) {
    a.value == b.value && a.leaves == b.leaves
  }

  predicate SameLeaf(a: LeafSpec, b: LeafSpec) {
    a.len == b.len && a.value == b.value
  }

  /** The first n groups agree. */
  predicate SameGroups(a: TreeSpec, b: TreeSpec, n: nat) {
    n <= |a.groups| && n <= |b.groups| && forall i :: 0 <= i < n ==> SameGroup(a.groups[i], b.groups[i])
  }

  /** Group a starts with the leaves of group b, up to n. */
  predicate SameLeaves(a: GroupSpec, b: GroupSpec, n: nat) {
    n <= |a.leaves| && n <= |b.leaves| && forall j :: 0 <= j < n ==> SameLeaf(a.leaves[j], b.leaves[j])
  }

  /** Tree a is tree b with the last leaf replaced by one of this length and value. */
  predicate LeafReplaced(a: TreeSpec, b: TreeSpec, len: int, value: Bytes) {
    && b.groups != [] && |a.groups| == |b.groups| && SameGroups(a, b, |a.groups| - 1)
    && var g, h := Last(a.groups), Last(b.groups);
       && h.leaves != [] && |g.leaves| == |h.leaves| && SameLeaves(g, h, |g.leaves| - 1)
       && Last(g.leaves).len == len && Last(g.leaves).value == value
  }

  /** Tree a is tree b with one more leaf under the last parent. */
  predicate LeafAdded(a: TreeSpec, b: TreeSpec, len: int, value: Bytes) {
    && b.groups != [] && |a.groups| == |b.groups| && SameGroups(a, b, |a.groups| - 1)
    && var g, h := Last(a.groups), Last(b.groups);
       && |g.leaves| == |h.leaves| + 1 && SameLeaves(g, h, |h.leaves|)
       && Last(g.leaves).len == len && Last(g.leaves).value == value
  }

  /** Tree a is tree b with one more parent, which has one leaf. */
  predicate GroupAdded(a: TreeSpec, b: TreeSpec, len: int, value: Bytes) {
    && |a.groups| == |b.groups| + 1 && SameGroups(a, b, |b.groups|)
    && var g := Last(a.groups);
       |g.leaves| == 1 && g.leaves[0].len == len && g.leaves[0].value == value
  }

  /** Tree a is tree b without its last leaf, the parent of which has others. */
  predicate LeafDropped(a: TreeSpec, b: TreeSpec) {
    && b.groups != [] && |a.groups| == |b.groups| && SameGroups(a, b, |a.groups| - 1)
    && var g, h := Last(a.groups), Last(b.groups);
       && g.leaves != [] && |g.leaves| == |h.leaves| - 1 && SameLeaves(g, h, |g.leaves|)
  }

  /** Tree a is tree b without its last parent. */
  predicate GroupDropped(a: TreeSpec, b: TreeSpec) {
    b.groups != [] && |a.groups| == |b.groups| - 1 && SameGroups(a, b, |a.groups|)
  }

  /** A tree before a change, and the one parent whose leaves the change may touch. */
  datatype Before = Before(view: TreeView, touched: AccNode?)

  /** Nodes keep their places; parents other than the touched one, and their leaves, keep everything
      but the parents' witnesses. */
  twostate predicate OthersKept(b: Before)
    reads b.view.nodes
  {
    forall n :: n in b.view.nodes ==>
      && n.owner == old(n.owner) && n.pos == old(n.pos)
      && (n.level == 1 && n != b.touched ==>
            n.Len == old(n.Len) && n.Value == old(n.Value) && n.Children == old(n.Children))
      && (n.level == 2 && n.owner != b.touched ==>
            n.Len == old(n.Len) && n.Value == old(n.Value) && n.Children == old(n.Children) && n.Wit == old(n.Wit))
  }

  /** Parent i of the new tree is one of the old tree, not touched, and has the same contents. */
  twostate predicate KeptGroup(b: Before, root: AccNode, s: TreeSpec, i: nat)
    reads root
  {
    && i < |root.Children| && i < |old(root.Children)| && root.Children[i] == old(root.Children)[i]
    && root.Children[i] != b.touched
    && i < |s.groups| && i < |b.view.s.groups| && SameGroup(s.groups[i], b.view.s.groups[i])
  }

  datatype After = After(root: AccNode, s: TreeSpec, nodes: set<AccNode>) {
    function View(): TreeView {
      TreeView(root, s, nodes)
    }

    twostate lemma KeptGroupsLinked(b: Before)
      requires b.view.root == root && b.view.nodes <= nodes
      requires old(b.view.IsTree()) && OthersKept(b)
      ensures forall i: nat :: KeptGroup(b, root, s, i) ==> View().GroupAt(i) && View().GroupDone(i)
    {
      forall i: nat | KeptGroup(b, root, s, i) ensures View().GroupAt(i) && View().GroupDone(i) {
        assert old(b.view.GroupAt(i)) && old(b.view.GroupDone(i));
        var p, g := root.Children[i], s.groups[i];
        forall j | 0 <= j < |g.leaves|
          ensures View().LeafAt(p, j, g.leaves[j]) && p.Children[j].Wit == g.leaves[j].wit
        {
          assert old(b.view.LeafAt(p, j, b.view.s.groups[i].leaves[j]));
        }
      }
    }
  }

  /** acc.Parent.Children[lens-1] = subAcc */
  method ReplaceLeaf(ghost v: TreeView, ghost s: TreeSpec, parent: AccNode, subAcc: AccNode)
    requires v.IsTree() && v.s.groups != [] && parent == v.root.Children[|v.s.groups| - 1]
    requires subAcc !in v.nodes && subAcc.level == 2 && subAcc.Children == []
    requires LeafReplaced(s, v.s, subAcc.Len, subAcc.Value)
    modifies parent`Children, subAcc`owner, subAcc`pos
    ensures TreeView(v.root, s, v.nodes + {subAcc}).Linked()
    ensures |parent.Children| == |Last(s.groups).leaves| > 0 && Last(parent.Children) == subAcc
  {
    ghost var n := |s.groups| - 1;
    v.GroupFacts(n);
    var lens := |parent.Children|;
    parent.Children := parent.Children[lens - 1 := subAcc];
    subAcc.owner, subAcc.pos := parent, lens - 1;
    ghost var after := After(v.root, s, v.nodes + {subAcc});
    after.KeptGroupsLinked(Before(v, parent));
    forall i | 0 <= i < n ensures after.View().GroupAt(i) && after.View().GroupDone(i) {
      assert old(v.GroupAt(i));
      assert KeptGroup(Before(v, parent), v.root, s, i);
    }
    assert after.View().GroupAt(n) by {
      assert old(v.GroupAt(n));
      forall j | 0 <= j < lens ensures after.View().LeafAt(parent, j, s.groups[n].leaves[j]) {
        assert old(v.LeafAt(parent, j, v.s.groups[n].leaves[j]));
      }
    }
  }

  /** acc.Parent.Children = append(acc.Parent.Children, subAcc) */
  method AppendLeaf(ghost v: TreeView, ghost s: TreeSpec, parent: AccNode, subAcc: AccNode)
    requires v.IsTree() && v.s.groups != [] && parent == v.root.Children[|v.s.groups| - 1]
    requires subAcc !in v.nodes && subAcc.level == 2 && subAcc.Children == []
    requires LeafAdded(s, v.s, subAcc.Len, subAcc.Value)
    modifies parent`Children, subAcc`owner, subAcc`pos
    ensures TreeView(v.root, s, v.nodes + {subAcc}).Linked()
    ensures |parent.Children| == |Last(s.groups).leaves| > 0 && Last(parent.Children) == subAcc
  {
    ghost var n := |s.groups| - 1;
    v.GroupFacts(n);
    var lens := |parent.Children|;
    parent.Children := parent.Children + [subAcc];
    subAcc.owner, subAcc.pos := parent, lens;
    ghost var after := After(v.root, s, v.nodes + {subAcc});
    after.KeptGroupsLinked(Before(v, parent));
    forall i | 0 <= i < n ensures after.View().GroupAt(i) && after.View().GroupDone(i) {
      assert old(v.GroupAt(i));
      assert KeptGroup(Before(v, parent), v.root, s, i);
    }
    assert after.View().GroupAt(n) by {
      assert old(v.GroupAt(n));
      forall j | 0 <= j <= lens ensures after.View().LeafAt(parent, j, s.groups[n].leaves[j]) {
        if j < lens {
          assert old(v.LeafAt(parent, j, v.s.groups[n].leaves[j]));
        }
      }
    }
  }

  /** acc.Accs.Children = append(acc.Accs.Children, node), for a parent whose only child is subAcc */
  method AppendGroup(ghost v: TreeView, ghost s: TreeSpec, root: AccNode, node: AccNode, subAcc: AccNode)
    requires v.IsTree() && root == v.root
    requires subAcc !in v.nodes && subAcc.level == 2 && subAcc.Children == []
    requires node !in v.nodes && node.level == 1 && node.Children == [subAcc]
    requires GroupAdded(s, v.s, subAcc.Len, subAcc.Value)
    modifies root`Children, node`owner, node`pos, subAcc`owner, subAcc`pos
    ensures root.Children == old(root.Children) + [node]
    ensures TreeView(v.root, s, v.nodes + {subAcc, node}).Linked()
  {
    ghost var n := |v.s.groups|;
    subAcc.owner, subAcc.pos := node, 0;
    node.owner, node.pos := root, |root.Children|;
    root.Children := root.Children + [node];
    ghost var after := After(v.root, s, v.nodes + {subAcc, node});
    after.KeptGroupsLinked(Before(v, null));
    forall i | 0 <= i < n ensures after.View().GroupAt(i) && after.View().GroupDone(i) {
      assert old(v.GroupAt(i));
      assert KeptGroup(Before(v, null), v.root, s, i);
    }
    assert after.View().GroupAt(n) by {
      assert after.View().LeafAt(node, 0, s.groups[n].leaves[0]);
    }
  }

  /** acc.Curr.Len and acc.Curr.Value set to those of a shorter leaf. */
  method ShrinkLeaf(ghost v: TreeView, ghost s: TreeSpec, curr: AccNode, len: int, value: Bytes)
    requires v.IsTree() && LeafReplaced(s, v.s, len, value)
    requires |v.root.Children[|v.s.groups| - 1].Children| == |Last(v.s.groups).leaves|
    requires curr == Last(v.root.Children[|v.s.groups| - 1].Children)
    modifies curr`Len, curr`Value
    ensures TreeView(v.root, s, v.nodes).Linked()
    ensures curr.Len == len
  {
    ghost var n := |s.groups| - 1;
    v.GroupFacts(n);
    ghost var parent := v.root.Children[n];
    curr.Len := len;
    curr.Value := value;
    ghost var after := After(v.root, s, v.nodes);
    after.KeptGroupsLinked(Before(v, parent));
    forall i | 0 <= i < n ensures after.View().GroupAt(i) && after.View().GroupDone(i) {
      assert old(v.GroupAt(i));
      assert KeptGroup(Before(v, parent), v.root, s, i);
    }
    assert after.View().GroupAt(n) by {
      assert old(v.GroupAt(n));
      forall j | 0 <= j < |parent.Children| ensures after.View().LeafAt(parent, j, s.groups[n].leaves[j]) {
        assert old(v.LeafAt(parent, j, v.s.groups[n].leaves[j]));
      }
    }
  }

  /** The last leaf taken off a parent that keeps others. */
  method DropLeaf(ghost v: TreeView, ghost s: TreeSpec, parent: AccNode)
    requires v.IsTree() && v.s.groups != [] && parent == v.root.Children[|v.s.groups| - 1]
    requires |parent.Children| == |Last(v.s.groups).leaves| && LeafDropped(s, v.s)
    modifies parent`Children, parent`Len
    ensures TreeView(v.root, s, v.nodes).Linked()
    ensures parent.Children == Init(old(parent.Children))
    ensures parent.Len == |parent.Children| == |Last(s.groups).leaves|
  {
    ghost var n := |s.groups| - 1;
    v.GroupFacts(n);
    assert v.GroupDone(n);
    parent.Children := parent.Children[..parent.Len - 1];
    parent.Len := parent.Len - 1;
    ghost var after := After(v.root, s, v.nodes);
    after.KeptGroupsLinked(Before(v, parent));
    forall i | 0 <= i < n ensures after.View().GroupAt(i) && after.View().GroupDone(i) {
      assert old(v.GroupAt(i));
      assert KeptGroup(Before(v, parent), v.root, s, i);
    }
    assert after.View().GroupAt(n) by {
      assert old(v.GroupAt(n));
      forall j | 0 <= j < |parent.Children| ensures after.View().LeafAt(parent, j, s.groups[n].leaves[j]) {
        assert old(v.LeafAt(parent, j, v.s.groups[n].leaves[j]));
      }
    }
  }

  /** A parent that lost its only leaf, taken off the root. */
  method DropGroup(ghost v: TreeView, ghost s: TreeSpec, root: AccNode, parent: AccNode)
    requires v.IsTree() && root == v.root && GroupDropped(s, v.s)
    requires root.Len == |root.Children| == |v.s.groups| && parent == Last(root.Children)
    modifies root`Children, root`Len, parent`Children, parent`Len
    ensures TreeView(v.root, s, v.nodes).Linked()
    ensures forall i :: 0 <= i < |s.groups| ==> TreeView(v.root, s, v.nodes).GroupDone(i)
    ensures root.Children == Init(old(root.Children)) && root.Len == |root.Children| == |s.groups|
  {
    ghost var n := |s.groups|;
    v.GroupFacts(n);
    assert v.GroupDone(n);
    parent.Children := [];
    parent.Len := 0;
    root.Children := root.Children[..root.Len - 1];
    root.Len := root.Len - 1;
    ghost var after := After(v.root, s, v.nodes);
    after.KeptGroupsLinked(Before(v, parent));
    assert after.View() == TreeView(v.root, s, v.nodes);
    forall i | 0 <= i < n ensures after.View().GroupAt(i) && after.View().GroupDone(i) {
      assert old(v.GroupAt(i));
      assert KeptGroup(Before(v, parent), v.root, s, i);
    }
  }

  /** A tree with a single leaf. */
  predicate SingleLeaf(s: TreeSpec, len: int, value: Bytes) {
    && |s.groups| == 1 && |s.groups[0].leaves| == 1
    && s.groups[0].leaves[0].len == len && s.groups[0].leaves[0].value == value
  }

  /** Parent value and root value above a single leaf, whose witnesses are all G. */
  method FirstValues(key: Key, value: Bytes, ghost s: TreeSpec) returns (base: Bytes, above: Bytes, top: Bytes)
    requires |s.groups| == 1 && |s.groups[0].leaves| == 1 && s.groups[0].leaves[0].value == value
    requires Closes(key, s)
    ensures s.groups[0].leaves[0].wit == base && s.groups[0].wit == base
    ensures s.groups[0].value == above && s.value == top
  {
    ghost var g := s.groups[0];
    assert LeafSpecValues(g) == [value] && GroupSpecValues(s) == [g.value];
    base := ToBytes(key.G);
    SingletonAcc(key, value);
    above := GenerateAccFrom(key, base, [value]);
    SingletonAcc(key, above);
    top := GenerateAccFrom(key, base, [above]);
  }

  /** The tree around the very first leaf: a new parent and a new root. */
  method FirstTree(base: Bytes, above: Bytes, top: Bytes, subAcc: AccNode, ghost s: TreeSpec)
    returns (accs: AccNode, parent: AccNode)
    requires subAcc.level == 2 && subAcc.Children == [] && SingleLeaf(s, subAcc.Len, subAcc.Value)
    requires s.groups[0].leaves[0].wit == base && s.groups[0].wit == base
    requires s.groups[0].value == above && s.value == top
    modifies subAcc`owner, subAcc`pos, subAcc`Wit
    ensures fresh(accs) && fresh(parent) && accs.Children == [parent] && parent.Children == [subAcc]
    ensures TreeView(accs, s, {accs, parent, subAcc}).IsTree()
  {
    subAcc.Wit := base;
    parent := new AccNode(1);
    parent.Value, parent.Wit, parent.Children, parent.Len := above, base, [subAcc], 1;
    accs := new AccNode(0);
    accs.Value, accs.Children, accs.Len := top, [parent], 1;
    subAcc.owner, subAcc.pos, parent.owner, parent.pos := parent, 0, accs, 0;
    ghost var v := TreeView(accs, s, {accs, parent, subAcc});
    assert v.LeafAt(parent, 0, s.groups[0].leaves[0]);
    assert v.GroupAt(0) && v.GroupDone(0);
  }
}
