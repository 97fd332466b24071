/** The deep copy of an accumulator tree (copyAccNode in acc/muti_level_acc.go). */
module AccCopy {
  import opened AccNodes
  import opened AccTree

  ghost predicate BareLeaf(n: AccNode, s: set<AccNode>)
    reads s
  {
    n in s && n.level == 2 && n.Children == []
  }

  ghost predicate ParentOfLeaves(n: AccNode, s: set<AccNode>)
    reads s
  {
    n in s && n.level == 1 && forall j :: 0 <= j < |n.Children| ==> BareLeaf(n.Children[j], s)
  }

  ghost predicate RootOfParents(n: AccNode, s: set<AccNode>)
    reads s
  {
    n in s && n.level == 0 && forall i :: 0 <= i < |n.Children| ==> ParentOfLeaves(n.Children[i], s)
  }

  /** The node and all nodes below it lie in s, in at most three levels. */
  ghost predicate Copyable(n: AccNode, s: set<AccNode>)
    reads s
  {
    BareLeaf(n, s) || ParentOfLeaves(n, s) || RootOfParents(n, s)
  }

  ghost predicate SameFields(a: AccNode, b: AccNode)
    reads a, b
  {
    a.level == b.level && a.Value == b.Value && a.Len == b.Len && a.Wit == b.Wit && |a.Children| == |b.Children|
  }

  /** Child j of b is a new node with the fields of child j of a. */
  ghost predicate ChildCopied(a: AccNode, b: AccNode, j: nat, s: set<AccNode>, made: set<AccNode>)
    reads a, b, s, made
  {
    && j < |a.Children| && j < |b.Children| && a.Children[j] in s && b.Children[j] in made
    && b.Children[j].owner == b && b.Children[j].pos == j && SameFields(a.Children[j], b.Children[j])
  }

  ghost predicate ChildrenCopied(a: AccNode, b: AccNode, n: nat, s: set<AccNode>, made: set<AccNode>)
    reads a, b, s, made
  {
    forall j :: 0 <= j < n ==> ChildCopied(a, b, j, s, made)
  }

  /** Child j of b, and all children of it, are copies. */
  ghost predicate BranchCopied(a: AccNode, b: AccNode, j: nat, s: set<AccNode>, made: set<AccNode>)
    reads a, b, s, made
  {
    && ChildCopied(a, b, j, s, made)
    && ChildrenCopied(a.Children[j], b.Children[j], |a.Children[j].Children|, s, made)
  }

  datatype CopyState = CopyState(src: AccNode, target: AccNode, s: set<AccNode>, made: set<AccNode>, n: nat) {
    ghost predicate BranchesCopied()
      reads src, target, s, made
    {
      n <= |target.Children| && forall j :: 0 <= j < n ==> BranchCopied(src, target, j, s, made)
    }

    /** Copied branches stay copied while another child is appended and filled in. */
    twostate lemma BranchesKept(new made': set<AccNode>)
      requires old(BranchesCopied())
      requires made <= made' && old(target.Children) <= target.Children
      requires forall x :: x in s || x in made ==> unchanged(x)
      requires unchanged(src)
      ensures forall j :: 0 <= j < n ==> BranchCopied(src, target, j, s, made')
    {
      forall j | 0 <= j < n ensures BranchCopied(src, target, j, s, made') {
        assert old(BranchCopied(src, target, j, s, made));
        assert target.Children[j] == old(target.Children)[j];
        forall k | 0 <= k < |src.Children[j].Children|
          ensures ChildCopied(src.Children[j], target.Children[j], k, s, made')
        {
          assert old(ChildCopied(src.Children[j], target.Children[j], k, s, made));
        }
      }
    }
  }

  /** A child that has been copied with all its children is a copied branch. */
  lemma NewBranch(src: AccNode, target: AccNode, i: nat, s: set<AccNode>, below: set<AccNode>, made: set<AccNode>)
    requires i < |src.Children| && i < |target.Children| && src.Children[i] in s && target.Children[i] in made
    requires below <= made
    requires target.Children[i].owner == target && target.Children[i].pos == i
    requires SameFields(src.Children[i], target.Children[i])
    requires forall j :: 0 <= j < |src.Children[i].Children| ==>
               BranchCopied(src.Children[i], target.Children[i], j, s, below)
    ensures BranchCopied(src, target, i, s, made)
  {
    var a, b := src.Children[i], target.Children[i];
    forall k | 0 <= k < |a.Children| ensures ChildCopied(a, b, k, s, made) {
      assert BranchCopied(a, b, k, s, below);
    }
  }

  /** copyAccNode: fresh nodes, field by field, child by child. */
  method CopyAccNode(src: AccNode?, target: AccNode?, ghost s: set<AccNode>) returns (ghost made: set<AccNode>)
    requires src != null && target != null ==> Copyable(src, s) && target !in s && target.level == src.level
    modifies (if target == null then {} else {target})`Value
    modifies (if target == null then {} else {target})`Children
    modifies (if target == null then {} else {target})`Len
    modifies (if target == null then {} else {target})`Wit
    ensures fresh(made)
    ensures src != null && target != null ==>
              && SameFields(src, target)
              && forall j :: 0 <= j < |src.Children| ==> BranchCopied(src, target, j, s, made)
    decreases if src == null then 0 else if src.level > 2 then 0 else 3 - src.level, 1
  {
    hide ChildCopied, ChildrenCopied, BranchCopied;
    made := {};
    if src == null || target == null {
      return;
    }
    target.Value := src.Value;
    target.Children := [];
    target.Len := src.Len;
    target.Wit := src.Wit;
    for i := 0 to |src.Children|
      invariant fresh(made)
      invariant target.Value == src.Value && target.Len == src.Len && target.Wit == src.Wit
      invariant |target.Children| == i && forall j :: 0 <= j < i ==> BranchCopied(src, target, j, s, made)
    {
      ghost var made0 := made;
      label Before:
      ghost var added := CopyChild(src, target, i, s);
      made := made + added;
      BranchWider(src, target, i, s, added, made);
      CopyState(src, target, s, made0, i).BranchesKept@Before(made);
    }
  }

  lemma BranchWider(src: AccNode, target: AccNode, i: nat, s: set<AccNode>, made: set<AccNode>, made': set<AccNode>)
    requires BranchCopied(src, target, i, s, made) && made <= made'
    ensures BranchCopied(src, target, i, s, made')
  {
    var a, b := src.Children[i], target.Children[i];
    forall k | 0 <= k < |a.Children| ensures ChildCopied(a, b, k, s, made') {
      assert ChildCopied(a, b, k, s, made);
    }
  }

  /** The body of the loop: one more child, and all below it. */
  method CopyChild(src: AccNode, target: AccNode, i: nat, ghost s: set<AccNode>) returns (ghost made: set<AccNode>)
    requires Copyable(src, s) && target !in s && target.level == src.level && i == |target.Children| < |src.Children|
    modifies target`Children
    ensures fresh(made) && |target.Children| == i + 1 && old(target.Children) <= target.Children
    ensures BranchCopied(src, target, i, s, made)
    decreases if src.level > 2 then 0 else 3 - src.level, 0
  {
    hide ChildCopied, ChildrenCopied, BranchCopied;
    var child := new AccNode(src.level + 1);
    child.owner, child.pos := target, i;
    target.Children := target.Children + [child];
    ghost var below := CopyAccNode(src.Children[i], child, s);
    made := {child} + below;
    NewBranch(src, target, i, s, below, made);
  }

  /** A tree is copyable. */
  lemma TreeCopyable(v: TreeView)
    requires v.IsTree()
    ensures Copyable(v.root, v.nodes)
  {
    forall i | 0 <= i < |v.root.Children| ensures ParentOfLeaves(v.root.Children[i], v.nodes) {
      assert v.GroupAt(i);
      var p := v.root.Children[i];
      forall j | 0 <= j < |p.Children| ensures BareLeaf(p.Children[j], v.nodes) {
        assert v.LeafAt(p, j, v.s.groups[i].leaves[j]);
      }
    }
    assert RootOfParents(v.root, v.nodes);
  }

  /** The copy of a tree is a tree with the same contents. */
  lemma CopyIsTree(v: TreeView, w: TreeView, made: set<AccNode>)
    requires v.IsTree() && w.s == v.s && SameFields(v.root, w.root) && w.root in w.nodes && made <= w.nodes
    requires forall j :: 0 <= j < |v.root.Children| ==> BranchCopied(v.root, w.root, j, v.nodes, made)
    ensures w.IsTree()
  {
    forall i | 0 <= i < |w.s.groups|
      ensures w.GroupAt(i) && w.GroupDone(i) && w.root.Children[i].Wit == w.s.groups[i].wit
    {
      assert v.GroupAt(i) && v.GroupDone(i);
      assert BranchCopied(v.root, w.root, i, v.nodes, made);
      var p, q, g := v.root.Children[i], w.root.Children[i], w.s.groups[i];
      forall j | 0 <= j < |g.leaves|
        ensures w.LeafAt(q, j, g.leaves[j]) && q.Children[j].Wit == g.leaves[j].wit
      {
        assert v.LeafAt(p, j, g.leaves[j]);
        assert ChildCopied(p, q, j, v.nodes, made);
      }
    }
  }

  /** A new root filled by copyAccNode. */
  method CopyTree(src: AccNode, ghost v: TreeView) returns (root: AccNode, ghost nodes: set<AccNode>)
    requires v.IsTree() && src == v.root
    ensures fresh(nodes) && TreeView(root, v.s, nodes).IsTree()
  {
    root := new AccNode(0);
    TreeCopyable(v);
    ghost var made := CopyAccNode(src, root, v.nodes);
    nodes := made + {root};
    CopyIsTree(v, TreeView(root, v.s, nodes), made);
  }
}
