/** The mutable tree nodes of the multi-level accumulator and the in-place operations on one node
    and its children (acc/muti_level_acc.go). */
module AccNodes {
  import opened ByteStrings
  import opened ModExp
  import opened FlatAcc

  class AccNode {
    var Value: Bytes
    var Children: seq<AccNode>
    var Len: int
    var Wit: Bytes

    // Where the node hangs: no node is the child of two parents, or twice the child of one.
    ghost var owner: AccNode?
    ghost var pos: nat
    ghost const level: nat

    constructor (ghost level: nat)
      ensures Value == [] && Children == [] && Len == 0 && Wit == [] && owner == null && this.level == level
    {
      Value, Children, Len, Wit := [], [], 0, [];
      owner, pos := null, 0;
      this.level := level;
    }
  }

  /** The values of a list of nodes. */
  ghost predicate HaveValues(nodes: seq<AccNode>, vs: seq<Bytes>)
    reads (set n | n in nodes)`Value
  {
    |vs| == |nodes| && forall j :: 0 <= j < |nodes| ==> nodes[j].Value == vs[j]
  }

  ghost predicate Distinct(s: seq<AccNode>) {
    forall i, j :: 0 <= i < j < |s| ==> s[i] != s[j]
  }

  lemma DistinctHalves(s: seq<AccNode>, mid: nat)
    requires Distinct(s) && mid <= |s|
    ensures Distinct(s[..mid]) && Distinct(s[mid..])
    ensures forall i :: 0 <= i < mid ==> s[i] == s[..mid][i] && s[i] !in s[mid..]
    ensures forall i :: mid <= i < |s| ==> s[i] == s[mid..][i - mid]
  {
  }

  method RaiseAllNodes(key: Key, g: nat, nodes: seq<AccNode>, ghost vs: seq<Bytes>) returns (r: nat)
    requires nodes != [] && HaveValues(nodes, vs)
    ensures r == Exp(g, PrimeProduct(key, vs), key.N)
  {
    r := g;
    for i := 0 to |nodes|
      invariant r == FoldExp(key, g, vs[..i])
    {
      assert vs[..i + 1] == vs[..i] + [vs[i]];
      FoldAppend(key, g, vs[..i], vs[i]);
      r := Exp(r, PrimeOf(key, nodes[i].Value), key.N);
    }
    assert vs[..|nodes|] == vs;
    FoldIsExp(key, g, vs);
  }

  /** genWitsForAccNodes: the divide-and-conquer witnesses, written into the nodes. */
  method GenWitsForAccNodes(key: Key, g: nat, elems: seq<AccNode>, ghost vs: seq<Bytes>)
    requires g < key.N && Distinct(elems) && HaveValues(elems, vs)
    modifies (set n | n in elems)`Wit
    ensures forall i :: 0 <= i < |elems| ==> elems[i].Wit == WitnessOver(key, g, vs, i)
    decreases |elems|
  {
    if |elems| <= 0 {
      return;
    }
    if |elems| == 1 {
      WitnessOfOne(key, g, vs);
      elems[0].Wit := ToBytes(g);
      return;
    }
    var mid := |elems| / 2;
    var left, right := elems[..mid], elems[mid..];
    ghost var vl, vr := vs[..mid], vs[mid..];
    DistinctHalves(elems, mid);
    var g1 := RaiseAllNodes(key, g, right, vr);
    var g2 := RaiseAllNodes(key, g, left, vl);
    GenWitsForAccNodes(key, g1, left, vl);
    GenWitsForAccNodes(key, g2, right, vr);
    HalvesWitness(key, g, vs, mid);
  }

  /** updateAcc: length and value of a node, and the witnesses of its children, from the
      children's values. */
  method UpdateAcc(key: Key, node: AccNode?, ghost vs: seq<Bytes>)
    requires node != null ==> Distinct(node.Children) && node !in node.Children && HaveValues(node.Children, vs)
    modifies (if node == null then {} else {node})`Value
    modifies (if node == null then {} else {node})`Len
    modifies (if node == null then {} else {node} + set n | n in node.Children)`Wit
    ensures node != null ==>
              && node.Len == |node.Children|
              && node.Value == AccValue(key, vs)
              && node.Wit == (if node.Children == [] then [] else old(node.Wit))
              && forall j :: 0 <= j < |node.Children| ==> node.Children[j].Wit == WitnessValue(key, vs, j)
  {
    if node == null {
      return;
    }
    var lens := |node.Children|;
    node.Len := lens;
    if lens == 0 {
      EmptyAcc(key);
      node.Value := ToBytes(key.G);
      node.Wit := [];
      return;
    }
    GenWitsForAccNodes(key, key.G, node.Children, vs);
    var last := node.Children[lens - 1];
    WitnessCompletes(key, vs, lens - 1);
    node.Value := GenerateAccFrom(key, last.Wit, [last.Value]);
  }
}
