/** Witness chains and the three checkers of the multi-level accumulator
    (acc/muti_level_acc.go): membership, insertion update, deletion update. */
module WitnessChain {
  import opened ByteStrings
  import opened ModExp
  import opened FlatAcc
  import opened Wrappers

  const DEFAULT_LEVEL: nat := 3

  /** WitnessNode, linked from the bottom accumulator up to the root; Nil is the end of the chain.
      No node is changed once its two strings are set. */
  datatype WitnessNode = Nil | Node(Elem: Bytes, Wit: Bytes, Acc: WitnessNode)

  function Length(w: WitnessNode): nat {
    match w
    case Nil => 0
    case Node(_, _, up) => 1 + Length(up)
  }

  /** The k-th node from the bottom. */
  function At(w: WitnessNode, k: nat): WitnessNode
    requires k < Length(w)
    ensures At(w, k).Node?
  {
    if k == 0 then w else At(w.Acc, k - 1)
  }

  function Top(w: WitnessNode): WitnessNode
    requires w.Node?
    ensures Top(w).Node?
  {
    if w.Acc.Nil? then w else Top(w.Acc)
  }

  /** The k-th node is a member of the accumulator in the node above it. */
  predicate LinkHolds(key: Key, w: WitnessNode, k: nat)
    requires k + 1 < Length(w)
  {
    Accepts(key, At(w, k + 1).Elem, At(w, k).Elem, At(w, k).Wit)
  }

  /** The chain proves membership under acc: every link holds and the chain ends in acc. */
  predicate ProvesMembership(key: Key, w: WitnessNode, acc: Bytes) {
    && w.Node?
    && (forall k :: 0 <= k < Length(w) - 1 ==> LinkHolds(key, w, k))
    && Top(w).Elem == acc
  }

  lemma AtUp(w: WitnessNode, k: nat)
    requires w.Node? && k < Length(w.Acc)
    ensures At(w.Acc, k) == At(w, k + 1)
  {
  }

  /** Membership by one link and the rest of the chain. */
  lemma MembershipStep(key: Key, w: WitnessNode, acc: Bytes)
    requires w.Node? && w.Acc.Node?
    ensures ProvesMembership(key, w, acc)
            <==> Accepts(key, w.Acc.Elem, w.Elem, w.Wit) && ProvesMembership(key, w.Acc, acc)
  {
    assert At(w, 0) == w && At(w, 1) == w.Acc;
    if ProvesMembership(key, w, acc) {
      assert LinkHolds(key, w, 0);
      forall k | 0 <= k < Length(w.Acc) - 1 ensures LinkHolds(key, w.Acc, k) {
        assert LinkHolds(key, w, k + 1);
        AtUp(w, k);
        AtUp(w, k + 1);
      }
    }
    if Accepts(key, w.Acc.Elem, w.Elem, w.Wit) && ProvesMembership(key, w.Acc, acc) {
      forall k | 0 <= k < Length(w) - 1 ensures LinkHolds(key, w, k) {
        if k > 0 {
          assert LinkHolds(key, w.Acc, k - 1);
          AtUp(w, k - 1);
          AtUp(w, k);
        }
      }
    }
  }

  // ---------- what acceptance means ----------

  /** A single node is accepted under its own value and no other. */
  lemma OneNodeMember(key: Key, e: Bytes, wit: Bytes, acc: Bytes)
    ensures ProvesMembership(key, Node(e, wit, Nil), acc) <==> e == acc
  {
    var w := Node(e, wit, Nil);
    assert Length(w) == 1 && Top(w) == w;
  }

  lemma {:induction false} TopIsLast(w: WitnessNode)
    requires w.Node?
    ensures Length(w) >= 1 && Top(w) == At(w, Length(w) - 1)
  {
    if w.Acc.Node? {
      TopIsLast(w.Acc);
    }
  }

  /** The k-th element under its witness gives the number of the value above. */
  predicate LinkComputes(key: Key, w: WitnessNode, k: nat)
    requires k + 1 < Length(w)
  {
    FromBytes(At(w, k + 1).Elem) == FromBytes(Extended(key, At(w, k).Wit, [At(w, k).Elem]))
  }

  /** From number n on every element under its witness gives the value above. */
  ghost predicate LinksFrom(key: Key, w: WitnessNode, n: nat) {
    forall k :: n <= k < Length(w) - 1 ==> LinkComputes(key, w, k)
  }

  /** A chain is accepted exactly when it ends in the accumulator and every element under its witness gives
      the value above. */
  lemma MemberIff(key: Key, w: WitnessNode, acc: Bytes)
    requires w.Node?
    ensures Length(w) >= 1
    ensures ProvesMembership(key, w, acc)
            <==> At(w, Length(w) - 1).Elem == acc && LinksFrom(key, w, 0)
  {
    hide LinkHolds, LinkComputes;
    TopIsLast(w);
    forall k | 0 <= k < Length(w) - 1 ensures LinkHolds(key, w, k) <==> LinkComputes(key, w, k) {
      LinkIff(key, w, k);
    }
  }

  lemma LinkIff(key: Key, w: WitnessNode, k: nat)
    requires k + 1 < Length(w)
    ensures LinkHolds(key, w, k) <==> LinkComputes(key, w, k)
  {
    hide Extended, Accepts;
    AcceptsNumber(key, At(w, k + 1).Elem, At(w, k).Elem, At(w, k).Wit);
  }

  /** So the accumulator of an accepted chain of two nodes or more is what the last witness makes of the last
      element below it. */
  lemma MemberMeans(key: Key, w: WitnessNode, acc: Bytes)
    requires ProvesMembership(key, w, acc)
    ensures Length(w) >= 1 && At(w, Length(w) - 1).Elem == acc
    ensures forall k :: 0 <= k < Length(w) - 1 ==> LinkComputes(key, w, k)
    ensures Length(w) >= 2 ==>
              FromBytes(acc)
              == FromBytes(Extended(key, At(w, Length(w) - 2).Wit, [At(w, Length(w) - 2).Elem]))
  {
    hide Extended;
    MemberIff(key, w, acc);
    assert Length(w) >= 2 ==> LinkComputes(key, w, Length(w) - 2);
  }

  lemma AcceptsNumber(key: Key, acc: Bytes, u: Bytes, wit: Bytes)
    ensures Accepts(key, acc, u, wit) <==> FromBytes(acc) == FromBytes(Extended(key, wit, [u]))
  {
    assert [u][1..] == [];
    var n := Exp(FromBytes(wit), PrimeOf(key, u), key.N);
    assert FoldExp(key, FromBytes(wit), [u]) == FoldExp(key, n, []) == n;
    assert FromBytes(ToBytes(n)) == n;
  }

  /** No chain is accepted under two accumulators. */
  lemma MemberOfOne(key: Key, w: WitnessNode, acc: Bytes, acc': Bytes)
    requires ProvesMembership(key, w, acc) && ProvesMembership(key, w, acc')
    ensures acc == acc'
  {
    MemberMeans(key, w, acc);
    MemberMeans(key, w, acc');
  }

  /** VerifyMutilevelAcc */
  method VerifyMutilevelAcc(key: Key, wits: WitnessNode, acc: Bytes) returns (ok: bool)
    ensures ok <==> ProvesMembership(key, wits, acc)
  {
    var w := wits;
    while w.Node? && w.Acc.Node?
      invariant ProvesMembership(key, wits, acc) <==> ProvesMembership(key, w, acc)
      decreases w
    {
      MembershipStep(key, w, acc);
      if !Accepts(key, w.Acc.Elem, w.Elem, w.Wit) {
        return false;
      }
      w := w.Acc;
    }
    if w.Nil? {
      return false;
    }
    assert Length(w) == 1 && Top(w) == w by {
      assert Length(w.Acc) == 0;
    }
    ok := w.Elem == acc;
  }

  /** The first node from the bottom whose witness is not the value above it, or the top: nodes
      below it announce accumulators that did not exist before the insertion. */
  function FirstExisting(w: WitnessNode): (r: WitnessNode)
    requires w.Node?
    ensures r.Node?
    ensures Top(r) == Top(w)
  {
    if w.Acc.Node? && w.Acc.Elem == w.Wit then FirstExisting(w.Acc) else w
  }

  /** accs[k + 1] is accs[k] put under the witness of the k-th node. */
  predicate InsertStep(key: Key, w: WitnessNode, accs: seq<Bytes>, k: nat)
    requires k + 1 < Length(w) && k + 1 < |accs|
  {
    accs[k + 1] == Extended(key, At(w, k).Wit, [accs[k]])
  }

  predicate ProvesInsert(key: Key, exist: WitnessNode, elems: seq<Bytes>, accs: seq<Bytes>, acc: Bytes) {
    && exist.Node? && elems != [] && |accs| >= DEFAULT_LEVEL && Length(exist) <= |accs|
    && ProvesMembership(key, FirstExisting(exist), acc)
    && accs[0] == Extended(key, exist.Elem, elems)
    && forall k :: 0 <= k < Length(exist) - 1 ==> InsertStep(key, exist, accs, k)
  }

  lemma {:induction false} AtSuffix(w: WitnessNode, k: nat)
    requires k < Length(w)
    ensures Length(At(w, k)) == Length(w) - k
    ensures At(w, k).Acc.Node? <==> k + 1 < Length(w)
    ensures k + 1 < Length(w) ==> At(w, k).Acc == At(w, k + 1)
  {
    if k > 0 {
      AtSuffix(w.Acc, k - 1);
    } else if w.Acc.Node? {
      assert At(w, 1) == At(w.Acc, 0) == w.Acc;
    }
  }

  /** VerifyInsertUpdate; None when it runs off the end of the accumulator list, which may be longer than
      the chain but not shorter. */
  method VerifyInsertUpdate(key: Key, exist: WitnessNode, elems: seq<Bytes>, accs: seq<Bytes>, acc: Bytes)
    returns (r: Option<bool>)
    ensures r == Some(true) <==> ProvesInsert(key, exist, elems, accs, acc)
    ensures r == None ==> Length(exist) > |accs| >= DEFAULT_LEVEL
  {
    if exist.Nil? || |elems| == 0 || |accs| < DEFAULT_LEVEL {
      return Some(false);
    }
    var p := exist;
    while p.Acc.Node? && p.Acc.Elem == p.Wit
      invariant p.Node? && FirstExisting(p) == FirstExisting(exist)
      decreases p
    {
      p := p.Acc;
    }
    var member := VerifyMutilevelAcc(key, p, acc);
    if !member {
      return Some(false);
    }
    var subAcc := GenerateAccFrom(key, exist.Elem, elems);
    if subAcc != accs[0] {
      return Some(false);
    }
    p := exist;
    var count := 1;
    while p.Node? && p.Acc.Node?
      invariant 1 <= count <= Length(exist) && count <= |accs| && p == At(exist, count - 1)
      invariant forall k :: 0 <= k < count - 1 ==> InsertStep(key, exist, accs, k)
      decreases p
    {
      AtSuffix(exist, count - 1);
      if count >= |accs| {
        return None;
      }
      subAcc := GenerateAccFrom(key, p.Wit, [accs[count - 1]]);
      if subAcc != accs[count] {
        assert !InsertStep(key, exist, accs, count - 1);
        return Some(false);
      }
      p := p.Acc;
      count := count + 1;
    }
    AtSuffix(exist, count - 1);
    return Some(true);
  }

  /** accs[k + 1] is accs[k] put under the witness of the k-th node, or that witness alone when
      accs[k] is the empty accumulator G. */
  predicate DeleteStep(key: Key, w: WitnessNode, accs: seq<Bytes>, k: nat)
    requires k + 1 < Length(w) && k + 1 < |accs|
  {
    accs[k + 1] == if accs[k] != ToBytes(key.G) then Extended(key, At(w, k).Wit, [accs[k]]) else At(w, k).Wit
  }

  predicate ProvesDelete(key: Key, exist: WitnessNode, elems: seq<Bytes>, accs: seq<Bytes>, acc: Bytes) {
    && exist.Node? && elems != [] && |accs| >= DEFAULT_LEVEL && Length(exist) <= |accs|
    && ProvesMembership(key, exist, acc)
    && exist.Elem == Extended(key, accs[0], elems)
    && forall k :: 0 <= k < Length(exist) - 1 ==> DeleteStep(key, exist, accs, k)
  }

  /** VerifyDeleteUpdate, likewise. */
  method VerifyDeleteUpdate(key: Key, exist: WitnessNode, elems: seq<Bytes>, accs: seq<Bytes>, acc: Bytes)
    returns (r: Option<bool>)
    ensures r == Some(true) <==> ProvesDelete(key, exist, elems, accs, acc)
    ensures r == None ==> Length(exist) > |accs| >= DEFAULT_LEVEL
  {
    if exist.Nil? || |elems| == 0 || |accs| < DEFAULT_LEVEL {
      return Some(false);
    }
    var member := VerifyMutilevelAcc(key, exist, acc);
    if !member {
      return Some(false);
    }
    var subAcc := GenerateAccFrom(key, accs[0], elems);
    if subAcc != exist.Elem {
      return Some(false);
    }
    var p := exist;
    var count := 1;
    while p.Node? && p.Acc.Node?
      invariant 1 <= count <= Length(exist) && count <= |accs| && p == At(exist, count - 1)
      invariant forall k :: 0 <= k < count - 1 ==> DeleteStep(key, exist, accs, k)
      decreases p
    {
      AtSuffix(exist, count - 1);
      if count >= |accs| {
        return None;
      }
      if accs[count - 1] != ToBytes(key.G) {
        subAcc := GenerateAccFrom(key, p.Wit, [accs[count - 1]]);
      } else {
        subAcc := p.Wit;
      }
      if subAcc != accs[count] {
        assert !DeleteStep(key, exist, accs, count - 1);
        return Some(false);
      }
      p := p.Acc;
      count := count + 1;
    }
    AtSuffix(exist, count - 1);
    return Some(true);
  }

  // ---------- what accepted updates mean ----------

  /** Where the nodes that announce new accumulators end. */
  function NewNodes(w: WitnessNode): nat
    requires w.Node?
  {
    if w.Acc.Node? && w.Acc.Elem == w.Wit then 1 + NewNodes(w.Acc) else 0
  }

  lemma {:induction false} FirstExistingAt(w: WitnessNode)
    requires w.Node?
    ensures NewNodes(w) < Length(w) && FirstExisting(w) == At(w, NewNodes(w))
    ensures forall k :: 0 <= k < NewNodes(w) ==> Announces(w, k)
    ensures NewNodes(w) + 1 < Length(w) ==> !Announces(w, NewNodes(w))
  {
    if w.Acc.Node? && w.Acc.Elem == w.Wit {
      FirstExistingAt(w.Acc);
      forall k | 0 <= k < NewNodes(w) ensures Announces(w, k) {
        if k > 0 {
          assert Announces(w.Acc, k - 1);
        }
      }
      var n := NewNodes(w.Acc);
      if n + 1 < Length(w.Acc) {
        AtUp(w, n);
        AtUp(w, n + 1);
      }
    } else if w.Acc.Node? {
      AtUp(w, 0);
    }
  }

  /** The witness of the k-th node is the value above it. */
  predicate Announces(w: WitnessNode, k: nat)
    requires k + 1 < Length(w)
  {
    At(w, k).Wit == At(w, k + 1).Elem
  }

  lemma {:induction false} AtAt(w: WitnessNode, i: nat, k: nat)
    requires i + k < Length(w)
    ensures i < Length(w) && k < Length(At(w, i)) && At(At(w, i), k) == At(w, i + k)
  {
    AtSuffix(w, i);
    if i > 0 {
      AtAt(w.Acc, i - 1, k);
    }
  }

  /** The values follow from each other under the witnesses of the chain. */
  ghost predicate ValuesGrow(key: Key, w: WitnessNode, accs: seq<Bytes>)
    requires 1 <= Length(w) <= |accs|
  {
    forall k :: 0 <= k < Length(w) - 1 ==> accs[k + 1] == Extended(key, At(w, k).Wit, [accs[k]])
  }

  /** An insertion is accepted exactly when it starts from the verifier's accumulator: the chain ends in it,
      and from the first existing node on every element under its witness gives the value above it (below
      that node every witness is the value above).  The new values begin with the elements added to the
      bottom value, and each further one is the one below under the witness. */
  lemma InsertMeans(key: Key, w: WitnessNode, elems: seq<Bytes>, accs: seq<Bytes>, acc: Bytes)
    ensures ProvesInsert(key, w, elems, accs, acc)
            <==> && elems != [] && w.Node? && 1 <= Length(w) <= |accs| && 3 <= |accs|
                 && At(w, Length(w) - 1).Elem == acc && LinksFrom(key, w, NewNodes(w))
                 && accs[0] == Extended(key, w.Elem, elems) && ValuesGrow(key, w, accs)
    ensures w.Node? ==>
              && NewNodes(w) < Length(w)
              && (forall k :: 0 <= k < NewNodes(w) ==> Announces(w, k))
              && (NewNodes(w) + 1 < Length(w) ==> !Announces(w, NewNodes(w)))
  {
    hide Extended, ProvesMembership, LinkComputes;
    if w.Node? {
      FirstExistingAt(w);
      ExistingMember(key, w, acc);
      forall k | 0 <= k < Length(w) - 1 && Length(w) <= |accs|
        ensures InsertStep(key, w, accs, k) <==> accs[k + 1] == Extended(key, At(w, k).Wit, [accs[k]])
      {
      }
    }
  }

  lemma ExistingMember(key: Key, w: WitnessNode, acc: Bytes)
    requires w.Node?
    ensures Length(w) >= 1
    ensures ProvesMembership(key, FirstExisting(w), acc)
            <==> At(w, Length(w) - 1).Elem == acc && LinksFrom(key, w, NewNodes(w))
  {
    hide Extended, ProvesMembership, LinksFrom, LinkComputes, Announces, At, Length, NewNodes, FirstExisting;
    var n := NewNodes(w);
    FirstExistingAt(w);
    AtSuffix(w, n);
    MemberIff(key, At(w, n), acc);
    AtAt(w, n, Length(w) - n - 1);
    LinksShift(key, w, n);
  }

  lemma LinksShift(key: Key, w: WitnessNode, n: nat)
    requires n < Length(w)
    ensures LinksFrom(key, w, n) <==> LinksFrom(key, At(w, n), 0)
  {
    hide LinkComputes;
    AtSuffix(w, n);
    if LinksFrom(key, w, n) {
      forall k | 0 <= k < Length(At(w, n)) - 1 ensures LinkComputes(key, At(w, n), k) {
        LinkAt(key, w, n, k);
      }
    }
    if LinksFrom(key, At(w, n), 0) {
      forall k | n <= k < Length(w) - 1 ensures LinkComputes(key, w, k) {
        LinkAt(key, w, n, k - n);
      }
    }
  }

  lemma LinkAt(key: Key, w: WitnessNode, n: nat, k: nat)
    requires n + k + 1 < Length(w)
    ensures n < Length(w) && k + 1 < Length(At(w, n))
    ensures LinkComputes(key, w, n + k) <==> LinkComputes(key, At(w, n), k)
  {
    hide Extended;
    AtSuffix(w, n);
    AtAt(w, n, k);
    AtAt(w, n, k + 1);
  }

  /** The values after a deletion: under the witness, or the witness itself above an empty accumulator. */
  ghost predicate ValuesShrink(key: Key, w: WitnessNode, accs: seq<Bytes>)
    requires 1 <= Length(w) <= |accs|
  {
    forall k :: 0 <= k < Length(w) - 1 ==>
      accs[k + 1] == if accs[k] != ToBytes(key.G) then Extended(key, At(w, k).Wit, [accs[k]]) else At(w, k).Wit
  }

  /** A deletion is accepted exactly when it starts from the verifier's accumulator, too, and what is deleted
      gives the old bottom value back. */
  lemma DeleteMeans(key: Key, w: WitnessNode, elems: seq<Bytes>, accs: seq<Bytes>, acc: Bytes)
    ensures ProvesDelete(key, w, elems, accs, acc)
            <==> && elems != [] && w.Node? && 1 <= Length(w) <= |accs| && 3 <= |accs|
                 && At(w, Length(w) - 1).Elem == acc && LinksFrom(key, w, 0)
                 && w.Elem == Extended(key, accs[0], elems) && ValuesShrink(key, w, accs)
  {
    hide Extended, ProvesMembership, LinkComputes;
    if w.Node? {
      MemberIff(key, w, acc);
      forall k | 0 <= k < Length(w) - 1 && Length(w) <= |accs|
        ensures DeleteStep(key, w, accs, k)
                <==> accs[k + 1]
                     == if accs[k] != ToBytes(key.G) then Extended(key, At(w, k).Wit, [accs[k]]) else At(w, k).Wit
      {
      }
    }
  }

  /** So an update is accepted under one accumulator only. */
  lemma UpdateOfOne(key: Key, w: WitnessNode, elems: seq<Bytes>, accs: seq<Bytes>, acc: Bytes, acc': Bytes)
    ensures ProvesInsert(key, w, elems, accs, acc) && ProvesInsert(key, w, elems, accs, acc') ==> acc == acc'
    ensures ProvesDelete(key, w, elems, accs, acc) && ProvesDelete(key, w, elems, accs, acc') ==> acc == acc'
  {
    hide ProvesInsert, ProvesDelete;
    if ProvesInsert(key, w, elems, accs, acc) && ProvesInsert(key, w, elems, accs, acc') {
      InsertMeans(key, w, elems, accs, acc);
      InsertMeans(key, w, elems, accs, acc');
    }
    if ProvesDelete(key, w, elems, accs, acc) && ProvesDelete(key, w, elems, accs, acc') {
      DeleteMeans(key, w, elems, accs, acc);
      DeleteMeans(key, w, elems, accs, acc');
    }
  }
}
