/** The three-level tree of accumulator nodes on the heap: what it has to hold, and how updateAcc on
    the last parent and on the root completes it after a change at the end. */
module AccTree {
  import opened ByteStrings
  import opened FlatAcc
  import opened Forest
  import opened AccNodes

  // ---------- the tree as a value ----------

  datatype LeafSpec = LeafSpec(len: nat, value: Bytes, wit: Bytes)
  datatype GroupSpec = GroupSpec(value: Bytes, wit: Bytes, leaves: seq<LeafSpec>)
  datatype TreeSpec = TreeSpec(value: Bytes, groups: seq<GroupSpec>)

  function GroupSpecOf(key: Key, g: Group, wit: Bytes): GroupSpec {
    GroupSpec(GroupValue(key, g), wit,
              seq(|g|, j requires 0 <= j < |g| => LeafSpec(|g[j]|, AccValue(key, g[j]), LeafWitness(key, g, j))))
  }

  /** Every length, value and witness of the tree of t. */
  function SpecOf(key: Key, t: Groups): (s: TreeSpec)
    ensures |s.groups| == |t|
  {
    TreeSpec(RootValue(key, t),
             seq(|t|, i requires 0 <= i < |t| => GroupSpecOf(key, t[i], GroupWitness(key, t, i))))
  }

  function LeafSpecValues(g: GroupSpec): (vs: seq<Bytes>)
    ensures |vs| == |g.leaves| && forall j :: 0 <= j < |vs| ==> vs[j] == g.leaves[j].value
  {
    seq(|g.leaves|, j requires 0 <= j < |g.leaves| => g.leaves[j].value)
  }

  function GroupSpecValues(s: TreeSpec): (vs: seq<Bytes>)
    ensures |vs| == |s.groups| && forall i :: 0 <= i < |vs| ==> vs[i] == s.groups[i].value
  {
    seq(|s.groups|, i requires 0 <= i < |s.groups| => s.groups[i].value)
  }

  /** The value is the accumulator of the leaf values, each witness that of the other leaves. */
  predicate GroupCloses(key: Key, g: GroupSpec) {
    && g.value == AccValue(key, LeafSpecValues(g))
    && forall j :: 0 <= j < |g.leaves| ==> g.leaves[j].wit == WitnessValue(key, LeafSpecValues(g), j)
  }

  predicate RootCloses(key: Key, s: TreeSpec) {
    && s.value == AccValue(key, GroupSpecValues(s))
    && forall i :: 0 <= i < |s.groups| ==> s.groups[i].wit == WitnessValue(key, GroupSpecValues(s), i)
  }

  predicate Closes(key: Key, s: TreeSpec) {
    RootCloses(key, s) && forall i :: 0 <= i < |s.groups| ==> GroupCloses(key, s.groups[i])
  }

  lemma SpecCloses(key: Key, t: Groups)
    ensures Closes(key, SpecOf(key, t))
  {
    var s := SpecOf(key, t);
    assert GroupSpecValues(s) == GroupValues(key, t);
    forall i | 0 <= i < |t| ensures GroupCloses(key, s.groups[i]) {
      assert LeafSpecValues(s.groups[i]) == LeafValues(key, t[i]);
    }
  }

  // ---------- the tree on the heap ----------

  /** A heap tree with what it should hold, and a set that contains all its nodes. */
  datatype TreeView = TreeView(root: AccNode, s: TreeSpec, nodes: set<AccNode>) {

    /** Leaf j of the parent p has the length and value of l. */
    ghost predicate LeafAt(p: AccNode, j: nat, l: LeafSpec)
      reads p, nodes
    {
      && j < |p.Children| && p.Children[j] in nodes
      && var n := p.Children[j];
         n.owner == p && n.pos == j && n.level == 2 && n.Children == [] && n.Len == l.len && n.Value == l.value
    }

    /** Parent i hangs at place i and has one leaf for every leaf of group i. */
    ghost predicate GroupAt(i: nat)
      reads root, nodes
    {
      && i < |root.Children| && i < |s.groups| && root.Children[i] in nodes
      && var p, g := root.Children[i], s.groups[i];
         && p.owner == root && p.pos == i && p.level == 1 && |p.Children| == |g.leaves|
         && forall j :: 0 <= j < |g.leaves| ==> LeafAt(p, j, g.leaves[j])
    }

    /** Shape of the tree, and lengths and values of its leaves. */
    ghost predicate Skeleton()
      reads root, nodes
    {
      && root in nodes && root.level == 0 && root.Wit == [] && |root.Children| == |s.groups|
      && forall i :: 0 <= i < |s.groups| ==> GroupAt(i)
    }

    /** Parent i has the length, value and leaf witnesses of group i. */
    ghost predicate GroupDone(i: nat)
      reads root, nodes
    {
      && i < |root.Children| && i < |s.groups| && root.Children[i] in nodes
      && var p, g := root.Children[i], s.groups[i];
         && p.Len == |g.leaves| == |p.Children|
         && p.Value == g.value
         && forall j :: 0 <= j < |g.leaves| ==> p.Children[j] in nodes && p.Children[j].Wit == g.leaves[j].wit
    }

    ghost predicate RootDone()
      reads root, nodes
    {
      && root.Len == |s.groups| == |root.Children|
      && root.Value == s.value
      && forall i :: 0 <= i < |s.groups| ==> root.Children[i] in nodes && root.Children[i].Wit == s.groups[i].wit
    }

    /** The whole tree: every length, value and witness. */
    ghost predicate IsTree()
      reads root, nodes
    {
      Skeleton() && (forall i :: 0 <= i < |s.groups| ==> GroupDone(i)) && RootDone()
    }

    /** All but the last parent are complete; nothing is known about the root's value. */
    ghost predicate Linked()
      reads root, nodes
    {
      Skeleton() && forall i :: 0 <= i < |s.groups| - 1 ==> GroupDone(i)
    }

    // ---------- what survives a change of some fields ----------

    /** Links are what they were, and so are lengths and values of the leaves; parents other than p
        and their leaves are untouched but for the parents' witnesses. */
    twostate predicate OnlyGroupChanged(p: AccNode?)
      reads root, nodes
    {
      && root.Wit == old(root.Wit)
      && forall n :: n in nodes ==>
           && n.owner == old(n.owner) && n.pos == old(n.pos) && n.Children == old(n.Children)
           && (n.level == 2 ==> n.Len == old(n.Len) && n.Value == old(n.Value))
           && (n.level == 1 && n != p ==> n.Len == old(n.Len) && n.Value == old(n.Value))
           && (n.level == 2 && n.owner != p ==> n.Wit == old(n.Wit))
    }

    twostate lemma SkeletonKept(p: AccNode?)
      requires old(Skeleton()) && OnlyGroupChanged(p)
      ensures Skeleton()
    {
      forall i | 0 <= i < |s.groups| ensures GroupAt(i) {
        assert old(GroupAt(i));
        var q, g := root.Children[i], s.groups[i];
        forall j | 0 <= j < |g.leaves| ensures LeafAt(q, j, g.leaves[j]) {
          assert old(LeafAt(q, j, g.leaves[j]));
        }
      }
    }

    twostate lemma GroupsKept(p: AccNode?)
      requires old(Skeleton()) && OnlyGroupChanged(p)
      ensures forall i :: 0 <= i < |s.groups| && old(GroupDone(i)) && root.Children[i] != p ==> GroupDone(i)
    {
      forall i | 0 <= i < |s.groups| && old(GroupDone(i)) && root.Children[i] != p ensures GroupDone(i) {
        assert old(GroupAt(i));
        var q, g := root.Children[i], s.groups[i];
        forall j | 0 <= j < |g.leaves| ensures q.Children[j] in nodes && q.Children[j].Wit == g.leaves[j].wit {
          assert old(LeafAt(q, j, g.leaves[j]));
        }
      }
    }

    /** What updateAcc leaves in the last parent completes the list of parents. */
    twostate lemma GroupsCompleted(p: AccNode?)
      requires old(Linked()) && OnlyGroupChanged(p)
      requires if s.groups == [] then p == null else p == root.Children[|s.groups| - 1] && GroupDone(|s.groups| - 1)
      ensures Skeleton() && forall i :: 0 <= i < |s.groups| ==> GroupDone(i)
    {
      SkeletonKept(p);
      GroupsKept(p);
      forall i | 0 <= i < |s.groups| ensures GroupDone(i) {
        if i < |s.groups| - 1 {
          assert old(GroupDone(i));
          assert old(GroupAt(i));
          assert old(GroupAt(|s.groups| - 1));
        }
      }
    }

    lemma GroupFacts(i: nat)
      requires Skeleton() && i < |s.groups|
      ensures var p := root.Children[i];
              && p in nodes && p.owner == root && p.pos == i && p.level == 1
              && |p.Children| == |s.groups[i].leaves|
              && Distinct(p.Children) && p !in p.Children && HaveValues(p.Children, LeafSpecValues(s.groups[i]))
              && forall c :: c in p.Children ==> c in nodes && c.owner == p && c.level == 2
    {
      assert GroupAt(i);
      var p := root.Children[i];
      forall j | 0 <= j < |p.Children|
        ensures var c := p.Children[j];
                c in nodes && c.owner == p && c.pos == j && c.level == 2 && c.Value == s.groups[i].leaves[j].value
      {
        assert LeafAt(p, j, s.groups[i].leaves[j]);
      }
    }

    lemma RootFacts()
      requires Skeleton()
      ensures Distinct(root.Children) && root !in root.Children
      ensures forall c :: c in root.Children ==> c in nodes && c.owner == root && c.level == 1
    {
      forall i | 0 <= i < |root.Children|
        ensures var c := root.Children[i]; c in nodes && c.owner == root && c.pos == i && c.level == 1
      {
        assert GroupAt(i);
      }
    }

    lemma LastFacts()
      requires IsTree() && s.groups != []
      ensures root in nodes && root.Len == |root.Children| == |s.groups|
      ensures var p, g := Last(root.Children), Last(s.groups);
              p in nodes && p.Len == |p.Children| == |g.leaves| && p.level == 1
    {
      assert GroupAt(|s.groups| - 1) && GroupDone(|s.groups| - 1);
    }

    lemma LastLeafFacts()
      requires Skeleton() && s.groups != [] && Last(s.groups).leaves != []
      ensures |root.Children| == |s.groups|
      ensures var p, g := Last(root.Children), Last(s.groups);
              p in nodes && |p.Children| == |g.leaves| && Last(p.Children).Len == Last(g.leaves).len
    {
      var n, g := |s.groups| - 1, Last(s.groups);
      assert GroupAt(n);
      assert LeafAt(root.Children[n], |g.leaves| - 1, Last(g.leaves));
    }

    /** Values and witnesses along the last branch. */
    lemma LastValues()
      requires IsTree() && s.groups != [] && Last(s.groups).leaves != []
      ensures root.Value == s.value && root.Wit == [] && |root.Children| == |s.groups|
      ensures var p, g := Last(root.Children), Last(s.groups);
              && p in nodes && p.Value == g.value && p.Wit == g.wit && |p.Children| == |g.leaves|
              && var n, l := Last(p.Children), Last(g.leaves);
                 n in nodes && n.Value == l.value && n.Wit == l.wit
    {
      var i, g := |s.groups| - 1, Last(s.groups);
      assert GroupAt(i) && GroupDone(i);
      assert LeafAt(root.Children[i], |g.leaves| - 1, Last(g.leaves));
    }

    lemma RootValuesKnown()
      requires Skeleton() && forall i :: 0 <= i < |s.groups| ==> GroupDone(i)
      ensures HaveValues(root.Children, GroupSpecValues(s))
    {
      forall i | 0 <= i < |s.groups| ensures root.Children[i].Value == s.groups[i].value {
        assert GroupDone(i);
      }
    }
  }

  /** updateAcc on the last parent completes it. */
  method UpdateParent(ghost v: TreeView, key: Key, parent: AccNode?)
    requires v.Linked()
    requires if v.s.groups == [] then parent == null
             else parent == v.root.Children[|v.s.groups| - 1] && GroupCloses(key, Last(v.s.groups))
    modifies v.nodes`Value, v.nodes`Len, v.nodes`Wit
    ensures v.Skeleton() && forall i :: 0 <= i < |v.s.groups| ==> v.GroupDone(i)
  {
    hide AccValue, WitnessValue;
    if parent == null {
      UpdateAcc(key, parent, []);
      v.GroupsCompleted(parent);
      return;
    }
    ghost var n := |v.s.groups| - 1;
    ghost var g := v.s.groups[n];
    v.GroupFacts(n);
    assert forall c :: c in v.nodes && c.owner != parent ==> c !in parent.Children;
    UpdateAcc(key, parent, LeafSpecValues(g));
    assert v.GroupDone(n) by {
      forall j | 0 <= j < |g.leaves|
        ensures parent.Children[j] in v.nodes && parent.Children[j].Wit == g.leaves[j].wit
      {
        assert parent.Children[j].Wit == WitnessValue(key, LeafSpecValues(g), j);
      }
    }
    v.GroupsCompleted(parent);
  }

  /** updateAcc on the root completes the tree. */
  method UpdateRoot(ghost v: TreeView, key: Key, root: AccNode)
    requires v.Skeleton() && (forall i :: 0 <= i < |v.s.groups| ==> v.GroupDone(i))
    requires root == v.root && RootCloses(key, v.s)
    modifies v.nodes`Value, v.nodes`Len, v.nodes`Wit
    ensures v.IsTree()
  {
    hide AccValue, WitnessValue;
    v.RootFacts();
    v.RootValuesKnown();
    UpdateAcc(key, root, GroupSpecValues(v.s));
    v.SkeletonKept(null);
    v.GroupsKept(null);
  }
}
