/** The proofs an honest prover hands out for the multi-level accumulator, as values, and the
    theorems that the checkers of WitnessChain accept them against the old root. */
module AccProofs {
  import opened ByteStrings
  import opened ModExp
  import opened FlatAcc
  import opened Forest
  import opened WitnessChain

  function RootNode(key: Key, t: Groups): WitnessNode {
    Node(RootValue(key, t), [], Nil)
  }

  function GroupNode(key: Key, t: Groups, i: nat): WitnessNode
    requires i < |t|
  {
    Node(GroupValue(key, t[i]), GroupWitness(key, t, i), RootNode(key, t))
  }

  function LeafNode(key: Key, t: Groups, i: nat, j: nat): WitnessNode
    requires i < |t| && j < |t[i]|
  {
    Node(AccValue(key, t[i][j]), LeafWitness(key, t[i], j), GroupNode(key, t, i))
  }

  function ElementNode(key: Key, t: Groups, i: nat, j: nat, k: nat): WitnessNode
    requires i < |t| && j < |t[i]| && k < |t[i][j]|
  {
    Node(t[i][j][k], WitnessValue(key, t[i][j], k), LeafNode(key, t, i, j))
  }

  lemma RootMember(key: Key, t: Groups)
    ensures ProvesMembership(key, RootNode(key, t), RootValue(key, t))
  {
    assert Length(RootNode(key, t)) == 1 by {
      assert Length(Nil) == 0;
    }
  }

  lemma GroupMember(key: Key, t: Groups, i: nat)
    requires i < |t|
    ensures ProvesMembership(key, GroupNode(key, t, i), RootValue(key, t))
  {
    RootMember(key, t);
    WitnessCompletes(key, GroupValues(key, t), i);
    MembershipStep(key, GroupNode(key, t, i), RootValue(key, t));
  }

  lemma LeafMember(key: Key, t: Groups, i: nat, j: nat)
    requires i < |t| && j < |t[i]|
    ensures ProvesMembership(key, LeafNode(key, t, i, j), RootValue(key, t))
  {
    GroupMember(key, t, i);
    WitnessCompletes(key, LeafValues(key, t[i]), j);
    MembershipStep(key, LeafNode(key, t, i, j), RootValue(key, t));
  }

  /** The four-node chain of any stored element is accepted against the root value. */
  lemma ElementMember(key: Key, t: Groups, i: nat, j: nat, k: nat)
    requires i < |t| && j < |t[i]| && k < |t[i][j]|
    ensures ProvesMembership(key, ElementNode(key, t, i, j, k), RootValue(key, t))
  {
    LeafMember(key, t, i, j);
    WitnessCompletes(key, t[i][j], k);
    MembershipStep(key, ElementNode(key, t, i, j, k), RootValue(key, t));
  }

  // ---------- insertion ----------

  /** Value of the last leaf, its parent and the root: the accs list of a proof. */
  function PathValues(key: Key, t: Groups): seq<Bytes>
    requires WellFormed(t) && t != []
  {
    [AccValue(key, Last(Last(t))), GroupValue(key, Last(t)), RootValue(key, t)]
  }

  function LastLeafNode(key: Key, t: Groups): WitnessNode
    requires WellFormed(t) && t != []
  {
    LeafNode(key, t, |t| - 1, |Last(t)| - 1)
  }

  /** A node announcing a new, still empty accumulator below the given one. */
  function NewNode(key: Key, above: WitnessNode): WitnessNode
    requires above.Node?
  {
    Node(ToBytes(key.G), above.Elem, above)
  }

  /** The chain AddElementsAndProof builds, by what the insertion has to create. */
  function InsertChain(key: Key, t: Groups): WitnessNode
    requires WellFormed(t)
  {
    if t == [] then NewNode(key, NewNode(key, RootNode(key, t)))
    else if LastCount(t) < DEFAULT_ELEMS_NUM then LastLeafNode(key, t)
    else if |Last(t)| + 1 <= DEFAULT_ELEMS_NUM then NewNode(key, GroupNode(key, t, |t| - 1))
    else NewNode(key, NewNode(key, RootNode(key, t)))
  }

  lemma {:induction false} ExistingMember(key: Key, w: WitnessNode, acc: Bytes)
    requires ProvesMembership(key, w, acc)
    ensures ProvesMembership(key, FirstExisting(w), acc)
  {
    if w.Acc.Node? && w.Acc.Elem == w.Wit {
      MembershipStep(key, w, acc);
      ExistingMember(key, w.Acc, acc);
    }
  }

  lemma InsertChainMember(key: Key, t: Groups)
    requires WellFormed(t)
    ensures ProvesMembership(key, FirstExisting(InsertChain(key, t)), RootValue(key, t))
  {
    if t == [] || (LastCount(t) >= DEFAULT_ELEMS_NUM && |Last(t)| + 1 > DEFAULT_ELEMS_NUM) {
      RootMember(key, t);
      ExistingMember(key, RootNode(key, t), RootValue(key, t));
      NewNodeSkipped(key, RootNode(key, t));
      NewNodeSkipped(key, NewNode(key, RootNode(key, t)));
    } else if LastCount(t) < DEFAULT_ELEMS_NUM {
      LeafMember(key, t, |t| - 1, |Last(t)| - 1);
      ExistingMember(key, LastLeafNode(key, t), RootValue(key, t));
    } else {
      GroupMember(key, t, |t| - 1);
      ExistingMember(key, GroupNode(key, t, |t| - 1), RootValue(key, t));
      NewNodeSkipped(key, GroupNode(key, t, |t| - 1));
    }
  }

  lemma NewNodeSkipped(key: Key, above: WitnessNode)
    requires above.Node?
    ensures FirstExisting(NewNode(key, above)) == FirstExisting(above)
  {
  }

  predicate ThreeNodes(w: WitnessNode) {
    w.Node? && w.Acc.Node? && w.Acc.Acc.Node? && w.Acc.Acc.Acc.Nil?
  }

  lemma ThreeNodesAt(w: WitnessNode)
    requires ThreeNodes(w)
    ensures Length(w) == DEFAULT_LEVEL && At(w, 0) == w && At(w, 1) == w.Acc
  {
    assert Length(w.Acc.Acc) == 1 by {
      assert Length(w.Acc.Acc.Acc) == 0;
    }
    assert Length(w.Acc) == 2;
    assert At(w, 1) == At(w.Acc, 0);
  }

  /** The two upward steps of a three-node chain, written out. */
  lemma ThreeInsertSteps(key: Key, w: WitnessNode, accs: seq<Bytes>)
    requires ThreeNodes(w) && |accs| >= DEFAULT_LEVEL
    ensures Length(w) == DEFAULT_LEVEL
    ensures (forall k :: 0 <= k < Length(w) - 1 ==> InsertStep(key, w, accs, k))
            <==> accs[1] == Extended(key, w.Wit, [accs[0]]) && accs[2] == Extended(key, w.Acc.Wit, [accs[1]])
  {
    ThreeNodesAt(w);
    assert InsertStep(key, w, accs, 0) <==> accs[1] == Extended(key, w.Wit, [accs[0]]);
    assert InsertStep(key, w, accs, 1) <==> accs[2] == Extended(key, w.Acc.Wit, [accs[1]]);
  }

  /** What a deletion step has to arrive at. */
  function Shrunk(key: Key, wit: Bytes, below: Bytes): Bytes {
    if below != ToBytes(key.G) then Extended(key, wit, [below]) else wit
  }

  lemma ThreeDeleteSteps(key: Key, w: WitnessNode, accs: seq<Bytes>)
    requires ThreeNodes(w) && |accs| >= DEFAULT_LEVEL
    ensures Length(w) == DEFAULT_LEVEL
    ensures (forall k :: 0 <= k < Length(w) - 1 ==> DeleteStep(key, w, accs, k))
            <==> accs[1] == Shrunk(key, w.Wit, accs[0]) && accs[2] == Shrunk(key, w.Acc.Wit, accs[1])
  {
    ThreeNodesAt(w);
    assert DeleteStep(key, w, accs, 0) <==> accs[1] == Shrunk(key, w.Wit, accs[0]);
    assert DeleteStep(key, w, accs, 1) <==> accs[2] == Shrunk(key, w.Acc.Wit, accs[1]);
  }

  /** Every path value comes out of the one below and of what stood beside it. */
  lemma PathGrows(key: Key, r: Groups)
    requires WellFormed(r) && r != []
    ensures var path := PathValues(key, r);
            && path[1] == Extended(key, GroupValue(key, Init(Last(r))), [path[0]])
            && path[2] == Extended(key, RootValue(key, Init(r)), [path[1]])
  {
    assert r == Init(r) + [Last(r)] && Last(r) == Init(Last(r)) + [Last(Last(r))];
    RootValueSnoc(key, Init(r), Last(r));
    GroupValueSnoc(key, Init(Last(r)), Last(Last(r)));
  }

  lemma NewLeafGrows(key: Key, xs: Chunk)
    ensures AccValue(key, xs) == Extended(key, ToBytes(key.G), xs)
    ensures GroupValue(key, []) == ToBytes(key.G)
    ensures RootValue(key, []) == ToBytes(key.G)
  {
    EmptyAcc(key);
    ExtendAcc(key, [], xs);
    assert [] + xs == xs;
    assert LeafValues(key, []) == [] && GroupValues(key, []) == [];
  }

  lemma InsertChainNodes(key: Key, t: Groups)
    requires WellFormed(t)
    ensures ThreeNodes(InsertChain(key, t))
  {
    hide AccValue, GroupValue, RootValue, WitnessValue, LeafWitness, GroupWitness, ToBytes;
  }

  /** What the two witnesses and the start value of the insertion chain stand for. */
  lemma InsertChainMeans(key: Key, t: Groups, xs: Chunk)
    requires WellFormed(t) && xs != []
    ensures var w, r := InsertChain(key, t), Append(t, xs);
            && ThreeNodes(w)
            && w.Wit == GroupValue(key, Init(Last(r)))
            && w.Acc.Wit == RootValue(key, Init(r))
  {
    hide AccValue, GroupValue, RootValue, WitnessValue, LeafWitness, GroupWitness, ToBytes, ThreeNodes;
    InsertChainNodes(key, t);
    var r := Append(t, xs);
    if t == [] {
      NewLeafGrows(key, xs);
      assert Init(r) == [] && Init(Last(r)) == [];
    } else if LastCount(t) < DEFAULT_ELEMS_NUM {
      SnocParts(Init(t), Last(r));
      SnocParts(Init(Last(t)), Last(Last(r)));
      LastLeafWitness(key, Last(t));
      LastGroupWitness(key, t);
    } else if |Last(t)| + 1 <= DEFAULT_ELEMS_NUM {
      SnocParts(Init(t), Last(r));
      SnocParts(Last(t), xs);
      LastGroupWitness(key, t);
    } else {
      NewLeafGrows(key, xs);
      SnocParts(t, [xs]);
      assert Init(Last(r)) == [];
    }
  }

  lemma InsertLeafGrows(key: Key, t: Groups, xs: Chunk)
    requires WellFormed(t) && xs != []
    ensures AccValue(key, Last(Last(Append(t, xs)))) == Extended(key, InsertChain(key, t).Elem, xs)
  {
    if t != [] && LastCount(t) < DEFAULT_ELEMS_NUM {
      ExtendAcc(key, Last(Last(t)), xs);
    } else {
      assert Last(Last(Append(t, xs))) == xs;
      NewLeafGrows(key, xs);
    }
  }

  lemma InsertReading(key: Key, w: WitnessNode, xs: seq<Bytes>, accs: seq<Bytes>, acc: Bytes)
    requires ThreeNodes(w) && |accs| == DEFAULT_LEVEL && xs != [] && ProvesMembership(key, FirstExisting(w), acc)
    ensures Length(w) == DEFAULT_LEVEL
    ensures ProvesInsert(key, w, xs, accs, acc)
            <==> && accs[0] == Extended(key, w.Elem, xs)
                 && accs[1] == Extended(key, w.Wit, [accs[0]])
                 && accs[2] == Extended(key, w.Acc.Wit, [accs[1]])
  {
    ThreeInsertSteps(key, w, accs);
  }

  /** Insertion: with the honest chain, a three-entry list is accepted against the old root
      exactly when it is the list of new leaf, parent and root values.  Every case is covered:
      leaf grows, new leaf, new parent, first insertion. */
  lemma InsertAccepted(key: Key, t: Groups, xs: Chunk, accs: seq<Bytes>)
    requires WellFormed(t) && xs != [] && |accs| == DEFAULT_LEVEL
    ensures Length(InsertChain(key, t)) == DEFAULT_LEVEL
    ensures ProvesInsert(key, InsertChain(key, t), xs, accs, RootValue(key, t))
            <==> accs == PathValues(key, Append(t, xs))
  {
    var w, path := InsertChain(key, t), PathValues(key, Append(t, xs));
    InsertChainMeans(key, t, xs);
    assert ThreeNodes(w);
    assert path[0] == Extended(key, w.Elem, xs) && path[1] == Extended(key, w.Wit, [path[0]])
           && path[2] == Extended(key, w.Acc.Wit, [path[1]]) by {
      InsertLeafGrows(key, t, xs);
      PathGrows(key, Append(t, xs));
    }
    assert accs == path <==> accs[0] == path[0] && accs[1] == path[1] && accs[2] == path[2];
    InsertChainMember(key, t);
    InsertReading(key, w, xs, accs, RootValue(key, t));
  }

  // ---------- deletion ----------

  /** The accs list DeleteElementsAndProof builds: G stands for an accumulator that vanished. */
  function DeletePath(key: Key, t: Groups, n: nat): (accs: seq<Bytes>)
    requires WellFormed(t) && t != [] && n <= LastCount(t)
    ensures |accs| == DEFAULT_LEVEL
  {
    var g, r := ToBytes(key.G), Truncate(t, n);
    if n < LastCount(t) then PathValues(key, r)
    else if |Last(t)| > 1 then [g, GroupValue(key, Last(r)), RootValue(key, r)]
    else [g, g, RootValue(key, r)]
  }

  function Deleted(t: Groups, n: nat): seq<Bytes>
    requires WellFormed(t) && t != [] && n <= LastCount(t)
  {
    Last(Last(t))[LastCount(t) - n..]
  }

  /** A surviving accumulator under this witness is not mistaken for an empty one: its value
      differs from G, or G changes nothing there. */
  predicate Distinguished(key: Key, value: Bytes, wit: Bytes) {
    value != ToBytes(key.G) || Extended(key, wit, [ToBytes(key.G)]) == wit
  }

  /** The condition under which the deletion checker tells what survived from what vanished. */
  predicate SurvivorsDistinguished(key: Key, t: Groups, n: nat)
    requires WellFormed(t) && t != [] && n <= LastCount(t)
  {
    var w, path := LastLeafNode(key, t), DeletePath(key, t, n);
    && (n < LastCount(t) ==> Distinguished(key, path[0], w.Wit))
    && (n < LastCount(t) || |Last(t)| > 1 ==> Distinguished(key, path[1], w.Acc.Wit))
  }

  lemma DeletePathSteps(key: Key, t: Groups, n: nat)
    requires WellFormed(t) && t != [] && n <= LastCount(t)
    ensures var w, path, g := LastLeafNode(key, t), DeletePath(key, t, n), ToBytes(key.G);
            && (n < LastCount(t) ==> path[1] == Extended(key, w.Wit, [path[0]]))
            && (n == LastCount(t) ==> path[0] == g && path[1] == w.Wit)
            && (n < LastCount(t) || |Last(t)| > 1 ==> path[2] == Extended(key, w.Acc.Wit, [path[1]]))
            && (n == LastCount(t) && |Last(t)| == 1 ==> path[1] == g && path[2] == w.Acc.Wit)
  {
    NewLeafGrows(key, Deleted(t, n));
    LastLeafWitness(key, Last(t));
    LastGroupWitness(key, t);
    if n < LastCount(t) || |Last(t)| > 1 {
      PathGrows(key, Truncate(t, n));
      assert Init(Truncate(t, n)) == Init(t);
      if n < LastCount(t) {
        assert Init(Last(Truncate(t, n))) == Init(Last(t));
      }
    } else {
      assert Init(Last(t)) == [];
    }
  }

  /** The deleted elements put back under the new leaf value give the old one. */
  lemma DeletedLeafGrows(key: Key, t: Groups, n: nat)
    requires WellFormed(t) && t != [] && n <= LastCount(t)
    ensures AccValue(key, Last(Last(t))) == Extended(key, DeletePath(key, t, n)[0], Deleted(t, n))
  {
    var c := Last(Last(t));
    assert c[..|c| - n] + Deleted(t, n) == c;
    if n < |c| {
      ExtendAcc(key, c[..|c| - n], Deleted(t, n));
    } else {
      assert Deleted(t, n) == c;
      NewLeafGrows(key, c);
    }
  }

  lemma DeleteReading(key: Key, w: WitnessNode, elems: seq<Bytes>, accs: seq<Bytes>, acc: Bytes)
    requires ThreeNodes(w) && |accs| == DEFAULT_LEVEL && elems != [] && ProvesMembership(key, w, acc)
    ensures Length(w) == DEFAULT_LEVEL
    ensures ProvesDelete(key, w, elems, accs, acc)
            <==> && w.Elem == Extended(key, accs[0], elems)
                 && accs[1] == Shrunk(key, w.Wit, accs[0])
                 && accs[2] == Shrunk(key, w.Acc.Wit, accs[1])
  {
    ThreeDeleteSteps(key, w, accs);
  }

  lemma DeleteStepsDistinguish(key: Key, t: Groups, n: nat)
    requires WellFormed(t) && t != [] && n <= LastCount(t)
    ensures var w, accs := LastLeafNode(key, t), DeletePath(key, t, n);
            && (accs[1] == Shrunk(key, w.Wit, accs[0]) && accs[2] == Shrunk(key, w.Acc.Wit, accs[1])
                <==> SurvivorsDistinguished(key, t, n))
  {
    DeletePathSteps(key, t, n);
  }

  /** Deletion: the honest proof is accepted against the old root if and only if no surviving
      accumulator on the path is mistaken for an empty one. */
  lemma DeleteAccepted(key: Key, t: Groups, n: nat)
    requires WellFormed(t) && t != [] && 0 < n <= LastCount(t)
    ensures Length(LastLeafNode(key, t)) == DEFAULT_LEVEL
    ensures ProvesDelete(key, LastLeafNode(key, t), Deleted(t, n), DeletePath(key, t, n), RootValue(key, t))
            <==> SurvivorsDistinguished(key, t, n)
  {
    var w, accs := LastLeafNode(key, t), DeletePath(key, t, n);
    LeafMember(key, t, |t| - 1, |Last(t)| - 1);
    DeleteReading(key, w, Deleted(t, n), accs, RootValue(key, t));
    DeletedLeafGrows(key, t, n);
    DeleteStepsDistinguish(key, t, n);
  }

  /** In particular when no accumulator of a nonempty list has the value G. */
  lemma DeleteAcceptedWithoutCollision(key: Key, t: Groups, n: nat)
    requires WellFormed(t) && t != [] && 0 < n <= LastCount(t)
    requires forall s: seq<Bytes> :: s != [] ==> AccValue(key, s) != ToBytes(key.G)
    ensures Length(LastLeafNode(key, t)) == DEFAULT_LEVEL
    ensures ProvesDelete(key, LastLeafNode(key, t), Deleted(t, n), DeletePath(key, t, n), RootValue(key, t))
  {
    DeleteAccepted(key, t, n);
    var r := Truncate(t, n);
    if n < LastCount(t) || |Last(t)| > 1 {
      assert LeafValues(key, Last(r)) != [];
    }
  }

  /** The condition can fail: N = 33, G = 4, and primes 3 for the value G and 11 for all else.
      Deleting one of two elements leaves a leaf whose value is G again, and the honest proof is
      rejected. */
  lemma DeleteRejectedOnCollision()
    ensures var key, t := CollidingKey(), [[[[1], [2]]]];
            && WellFormed(t) && LastCount(t) == 2 && Length(LastLeafNode(key, t)) == DEFAULT_LEVEL
            && !ProvesDelete(key, LastLeafNode(key, t), Deleted(t, 1), DeletePath(key, t, 1), RootValue(key, t))
  {
    var key, t: Groups, g := CollidingKey(), [[[[1], [2]]]], ToBytes(4);
    assert DeletePath(key, t, 1)[0] == g by {
      assert Last(Last(t))[..1] == [[1]];
      CollidingLeaf();
    }
    assert LastLeafNode(key, t).Wit == g by {
      LastLeafWitness(key, Last(t));
      NewLeafGrows(key, []);
      assert Init(Last(t)) == [];
    }
    CollidingStep();
    assert !SurvivorsDistinguished(key, t, 1);
    DeleteAccepted(key, t, 1);
  }

  function CollidingKey(): Key {
    RsaKey(33, 4, x => if x == 4 then 3 else 11)
  }

  lemma CollidingLeaf()
    ensures AccValue(CollidingKey(), [[1]]) == ToBytes(4)
  {
    hide Exp;
    ProductOfOne(CollidingKey(), [1]);
    assert FromBytes([1]) == 1 by {
      assert [1][..0] == [];
    }
    FourToEleven();
  }

  lemma FourToEleven()
    ensures Exp(4, 11, 33) == 4
  {
    assert Pow(4, 3) == 64 && Pow(4, 4) == 256;
    PowAdd(4, 4, 4);
    PowAdd(4, 8, 3);
    assert 4194304 == 127100 * 33 + 4;
  }

  lemma CollidingStep()
    ensures Extended(CollidingKey(), ToBytes(4), [ToBytes(4)]) != ToBytes(4)
  {
    var key, g := CollidingKey(), ToBytes(4);
    assert [g][1..] == [];
    assert Pow(4, 3) == 64;
    assert FoldExp(key, 4, [g]) == FoldExp(key, Exp(4, 3, 33), []) == 31;
    assert FromBytes(ToBytes(31)) == 31 && FromBytes(g) == 4;
  }
}
