/** AddElementsAndProof while other threads update the same accumulator (acc/muti_level_acc.go): it takes
    its snapshot before it has the update flag, and reads the live tree after it has given it back. */
module UpdateRaces {
  import opened ByteStrings
  import opened ModExp
  import opened FlatAcc
  import opened Forest
  import opened WitnessChain
  import opened AccProofs
  import opened AccTree
  import opened MultiLevelAcc
  import opened AccService
  import opened Wrappers
  import opened SnapshotProtocol

  /** One call, by its moments in a run: the thread, its batch, the steps in which it gets the snapshot,
      the flag, and gives the flag back, and the number of steps taken when it reads the live tree. */
  datatype Addition = Addition(u: Thread, xs: Chunk, looked: nat, taken: nat, released: nat, last: nat) {
    ghost predicate Within(states: seq<State<Groups>>, steps: seq<Step<Groups>>) {
      && Run(states, steps) && looked < taken < released < last <= |steps|
      && steps[looked].Read? && steps[looked].r == u && steps[taken] == Take(u) && steps[released] == Release(u)
      && WellFormed(Found(states, steps)) && xs != [] && Left(states, steps) == Append(Found(states, steps), xs)
    }

    /** The tree in the snapshot; */
    ghost function Seen(states: seq<State<Groups>>, steps: seq<Step<Groups>>): Groups
      requires looked < |steps| && steps[looked].Read?
    {
      steps[looked].seen
    }

    /** the tree the batch is added to; */
    ghost function Found(states: seq<State<Groups>>, steps: seq<Step<Groups>>): Groups
      requires taken < |states|
    {
      states[taken].live
    }

    /** the tree that this leaves; */
    ghost function Left(states: seq<State<Groups>>, steps: seq<Step<Groups>>): Groups
      requires released + 1 < |states|
    {
      states[released + 1].live
    }

    /** and the tree that chain and values are read from. */
    ghost function Got(states: seq<State<Groups>>, steps: seq<Step<Groups>>): Groups
      requires last < |states|
    {
      states[last].live
    }

    /** The snapshot is of the tree the batch is added to, and what is read is the tree that leaves. */
    ghost predicate InStep(states: seq<State<Groups>>, steps: seq<Step<Groups>>)
      requires Within(states, steps)
    {
      Seen(states, steps) == Found(states, steps) && Got(states, steps) == Left(states, steps)
    }

    /** No update finishes between snapshot and flag, and none changes the tree before it is read. */
    ghost predicate Undisturbed(states: seq<State<Groups>>, steps: seq<Step<Groups>>)
      requires Within(states, steps)
    {
      && (forall k :: looked < k < taken ==> !steps[k].Release?)
      && forall k :: released < k < last ==> !steps[k].Change?
    }
  }

  lemma {:induction false} SameCommitted<T>(states: seq<State<T>>, steps: seq<Step<T>>, m: nat, n: nat)
    requires Run(states, steps) && m <= n <= |steps| && forall k :: m <= k < n ==> !steps[k].Release?
    ensures Committed(states, steps, n) == Committed(states, steps, m)
    decreases n
  {
    if m < n {
      SameCommitted(states, steps, m, n - 1);
    }
  }

  lemma {:induction false} SameLive<T>(states: seq<State<T>>, steps: seq<Step<T>>, m: nat, n: nat)
    requires Run(states, steps) && m <= n <= |steps| && forall k :: m <= k < n ==> !steps[k].Change?
    ensures states[n].live == states[m].live
    decreases n
  {
    if m < n {
      SameLive(states, steps, m, n - 1);
      assert Next(states[n - 1], steps[n - 1], states[n]);
    }
  }

  /** What a thread finds when it gets the flag is the tree of the last finished update. */
  lemma FoundIsCommitted<T>(states: seq<State<T>>, steps: seq<Step<T>>, n: nat)
    requires Run(states, steps) && n < |steps| && steps[n].Take?
    ensures states[n].live == Committed(states, steps, n)
  {
    InvHolds(states, steps, n);
    assert Next(states[n], steps[n], states[n + 1]);
  }

  /** Left alone, a call is in step. */
  lemma UndisturbedInStep(states: seq<State<Groups>>, steps: seq<Step<Groups>>, a: Addition)
    requires a.Within(states, steps) && a.Undisturbed(states, steps)
    ensures a.InStep(states, steps)
  {
    SnapshotIsolation(states, steps, a.looked);
    FoundIsCommitted(states, steps, a.taken);
    SameCommitted(states, steps, a.looked, a.taken);
    SameLive(states, steps, a.released + 1, a.last);
  }

  // ---------- runs of additions only ----------

  /** Every change adds a batch. */
  ghost predicate OnlyAdds(states: seq<State<Groups>>, steps: seq<Step<Groups>>) {
    && |states| == |steps| + 1
    && forall i :: 0 <= i < |steps| && steps[i].Change? ==> AddsTo(states[i].live, steps[i].t)
  }

  ghost predicate AddsTo(t: Groups, t': Groups) {
    WellFormed(t) && exists xs: Chunk :: xs != [] && t' == Append(t, xs)
  }

  lemma AddsMore(t: Groups, t': Groups)
    requires AddsTo(t, t')
    ensures |Elements(t)| < |Elements(t')|
  {
    hide Elements, WellFormed, Append;
    var xs: Chunk :| xs != [] && t' == Append(t, xs);
    AppendElements(t, xs);
  }

  /** A later tree is the same or has more elements. */
  lemma {:induction false} OnlyGrows(states: seq<State<Groups>>, steps: seq<Step<Groups>>, m: nat, n: nat)
    requires Run(states, steps) && OnlyAdds(states, steps) && m <= n <= |steps|
    ensures states[m].live == states[n].live || |Elements(states[m].live)| < |Elements(states[n].live)|
    decreases n
  {
    hide Elements, AddsTo;
    if m < n {
      OnlyGrows(states, steps, m, n - 1);
      assert Next(states[n - 1], steps[n - 1], states[n]);
      if steps[n - 1].Change? {
        AddsMore(states[n - 1].live, steps[n - 1].t);
      }
    }
  }

  /** The committed tree is that of some moment before. */
  lemma {:induction false} CommittedWhen<T>(states: seq<State<T>>, steps: seq<Step<T>>, n: nat) returns (j: nat)
    requires Run(states, steps) && n <= |steps|
    ensures j <= n && Committed(states, steps, n) == states[j].live
  {
    if n == 0 || steps[n - 1].Release? {
      j := n;
    } else {
      j := CommittedWhen(states, steps, n - 1);
    }
  }

  /** The exact interleaving condition: with nothing but additions going on, what a call reads is its
      batch added to its snapshot if and only if it is in step: no other addition has come between
      snapshot and flag, and none between giving back the flag and reading. */
  lemma InStepIff(states: seq<State<Groups>>, steps: seq<Step<Groups>>, a: Addition)
    requires a.Within(states, steps) && OnlyAdds(states, steps) && WellFormed(a.Seen(states, steps))
    ensures a.Got(states, steps) == Append(a.Seen(states, steps), a.xs) <==> a.InStep(states, steps)
  {
    hide Elements, WellFormed, Append, OnlyAdds;
    SnapshotIsolation(states, steps, a.looked);
    var j := CommittedWhen(states, steps, a.looked);
    OnlyGrows(states, steps, j, a.taken);
    OnlyGrows(states, steps, a.released + 1, a.last);
    AppendElements(a.Found(states, steps), a.xs);
    AppendElements(a.Seen(states, steps), a.xs);
  }

  // ---------- what it means for the proof ----------

  /** The chain that is built from the tree read and the snapshot. */
  function BuiltChain(key: Key, got: Groups, seen: Groups): WitnessNode
    requires WellFormed(got) && WellFormed(seen) && got != [] && |got| >= |seen|
  {
    BuiltFacts(key, got, seen);
    GrownChain(SpecOf(key, got), SpecOf(key, seen), ToBytes(key.G))
  }

  lemma BuiltFacts(key: Key, got: Groups, seen: Groups)
    requires WellFormed(got) && WellFormed(seen) && got != [] && |got| >= |seen|
    ensures var a, b := SpecOf(key, got), SpecOf(key, seen);
            SolidEnd(a) && SolidEnd(b) && |a.groups| >= |b.groups| && a.groups != []
  {
    hide AccValue, GroupValue, RootValue, WitnessValue, LeafWitness, GroupWitness, ToBytes;
    SolidSpec(key, got);
    SolidSpec(key, seen);
  }

  /** In step, chain and values are those of an undisturbed call, and the proof is accepted against the
      root of the snapshot, which is the one the verifier has. */
  lemma InStepAccepted(key: Key, states: seq<State<Groups>>, steps: seq<Step<Groups>>, a: Addition)
    requires a.Within(states, steps) && a.InStep(states, steps)
    ensures var seen, got := a.Seen(states, steps), a.Got(states, steps);
            && WellFormed(seen) && WellFormed(got) && got != [] && |got| >= |seen|
            && BuiltChain(key, got, seen) == InsertChain(key, seen)
            && ProvesInsert(key, BuiltChain(key, got, seen), a.xs, PathValues(key, got), RootValue(key, seen))
  {
    hide AccValue, GroupValue, RootValue, InsertChain, GrownChain, SpecOf, ToBytes, ProvesInsert;
    var seen, got := a.Seen(states, steps), a.Got(states, steps);
    GrownChainOfSpec(key, seen, a.xs);
    InsertAccepted(key, seen, a.xs, PathValues(key, got));
  }

  /** Out of step, as long as the chain is of the same shape, the proof is accepted if and only if the
      values read are, by a collision, those of the batch added to the snapshot. */
  lemma AcceptedIffValues(key: Key, seen: Groups, got: Groups, xs: Chunk)
    requires WellFormed(got) && WellFormed(seen) && got != [] && |got| >= |seen| && xs != []
    requires BuiltChain(key, got, seen) == InsertChain(key, seen)
    ensures ProvesInsert(key, BuiltChain(key, got, seen), xs, PathValues(key, got), RootValue(key, seen))
            <==> PathValues(key, got) == PathValues(key, Append(seen, xs))
  {
    hide AccValue, GroupValue, RootValue, InsertChain, GrownChain, SpecOf, ToBytes, ProvesInsert;
    InsertAccepted(key, seen, xs, PathValues(key, got));
  }

  // ---------- an example ----------

  /** N = 33, G = 4, and the prime 3 for everything. */
  function SmallKey(): Key {
    RsaKey(33, 4, _ => 3)
  }

  lemma SmallProducts(a: Bytes, b: Bytes, c: Bytes)
    ensures PrimeProduct(SmallKey(), [a, b]) == 9 && PrimeProduct(SmallKey(), [a, c, b]) == 27
  {
    var key := SmallKey();
    ProductOfOne(key, b);
    assert [a, b][1..] == [b] && [a, c, b][1..] == [c, b] && [c, b][1..] == [b];
  }

  lemma SmallValues(a: Bytes, b: Bytes, c: Bytes)
    ensures AccValue(SmallKey(), [a, b]) != AccValue(SmallKey(), [a, c, b])
  {
    hide PrimeProduct, Exp, ToBytes, FromBytes;
    SmallProducts(a, b, c);
    FourToNine();
    TwentyFiveCubed();
    ExpExp(4, 9, 3, 33);
    assert FromBytes(ToBytes(25)) == 25 && FromBytes(ToBytes(16)) == 16;
  }

  lemma TwentyFiveCubed()
    ensures Exp(25, 3, 33) == 16
  {
    assert Pow(25, 1) == 25 && Pow(25, 2) == 625 && Pow(25, 3) == 15625;
    assert 15625 == 473 * 33 + 16;
  }

  lemma FourToNine()
    ensures Exp(4, 9, 33) == 25
  {
    assert Pow(4, 4) == 256 && Pow(4, 1) == 4;
    PowAdd(4, 4, 4);
    PowAdd(4, 8, 1);
    assert 262144 == 7943 * 33 + 25;
  }

  lemma AppendToLeaf(xs: Chunk, ys: Chunk)
    requires 0 < |xs| < DEFAULT_ELEMS_NUM && ys != []
    ensures var t: Groups := [[xs]]; WellFormed(t) && Append(t, ys) == [[xs + ys]]
  {
    var t: Groups := [[xs]];
    assert Last(Last(t)) == xs && LastCount(t) == |xs|;
    assert Forest.Init(t) + [Forest.Init(Last(t)) + [xs + ys]] == [[xs + ys]] by {
      assert Forest.Init(Last(t)) + [xs + ys] == [xs + ys];
    }
  }

  /** The run of the example: thread 0 looks at a tree of one element, thread 1 adds c, thread 0 adds b. */
  lemma RacingRun(a: Bytes, b: Bytes, c: Bytes)
    returns (states: seq<State<Groups>>, steps: seq<Step<Groups>>, call: Addition)
    ensures call.Within(states, steps) && call.xs == [b]
    ensures call.Seen(states, steps) == [[[a]]] && call.Got(states, steps) == [[[a, c, b]]]
  {
    var t0, t1, t2: Groups := [[[a]]], [[[a, c]]], [[[a, c, b]]];
    steps := [Read(0, t0), Take(1), Change(1, t1), Release(1), Take(0), Change(0, t2), Release(0)];
    states := [State(t0, None, false, {}), State(t0, Some(t0), false, {}), State(t0, Some(t0), true, {1}),
               State(t1, Some(t0), true, {1}), State(t1, Some(t1), false, {}), State(t1, Some(t1), true, {0}),
               State(t2, Some(t1), true, {0}), State(t2, Some(t2), false, {})];
    call := Addition(0, [b], 0, 4, 6, 7);
    assert {} + {1} == {1} && {1} - {1} == {} && {} + {0} == {0} && {0} - {0} == {};
    assert [a] + [c] == [a, c] && [a, c] + [b] == [a, c, b];
    AppendToLeaf([a, c], [b]);
  }

  /** A call that is out of step can fail: another thread adds an element between its snapshot and its flag,
      and the proof is rejected. */
  lemma RacingProofRejected(a: Bytes, b: Bytes, c: Bytes)
    returns (states: seq<State<Groups>>, steps: seq<Step<Groups>>, call: Addition)
    ensures call.Within(states, steps) && !call.InStep(states, steps)
    ensures var key, seen, got := SmallKey(), call.Seen(states, steps), call.Got(states, steps);
            && WellFormed(seen) && WellFormed(got) && got != [] && |got| >= |seen|
            && !ProvesInsert(key, BuiltChain(key, got, seen), call.xs, PathValues(key, got), RootValue(key, seen))
  {
    hide AccValue, GroupValue, RootValue, ProvesInsert, SpecOf, Exp, SmallKey;
    states, steps, call := RacingRun(a, b, c);
    var key, seen, got := SmallKey(), call.Seen(states, steps), call.Got(states, steps);
    SameShape(key, a, b, c);
    AcceptedIffValues(key, seen, got, call.xs);
    SmallValues(a, b, c);
    assert [a] + [b] == [a, b];
    AppendToLeaf([a], [b]);
    assert PathValues(key, got)[0] == AccValue(key, [a, c, b]);
    assert PathValues(key, [[[a, b]]])[0] == AccValue(key, [a, b]);
  }

  lemma SameShape(key: Key, a: Bytes, b: Bytes, c: Bytes)
    ensures var seen, got: Groups := [[[a]]], [[[a, c, b]]];
            && WellFormed(seen) && WellFormed(got)
            && BuiltChain(key, got, seen) == InsertChain(key, seen)
  {
    hide AccValue, GroupValue, RootValue, WitnessValue, LeafWitness, GroupWitness, ToBytes;
    var seen, got: Groups := [[[a]]], [[[a, c, b]]];
    BuiltFacts(key, got, seen);
    SpecCount(key, seen);
    SpecCount(key, got);
    LeafOfSpecAt(key, seen, 0, 0);
  }
}
