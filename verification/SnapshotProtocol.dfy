/** Readers and updaters of one accumulator, interleaved at the points where the program takes its
    mutex (acc/muti_level_acc.go): setUpdate and GetSnapshot run under the lock, everything else an
    updater does to the tree happens between them, one change at a time. */
module SnapshotProtocol {
  import opened ByteStrings
  import opened Forest
  import opened Wrappers

  type Thread = nat

  /** The live tree, the snapshot, the flag, and who holds it.  Trees are values here: that a
      snapshot shares no node with the live tree is MultiLevelAcc's business. */
  datatype State<T> = State(live: T, snapshot: Option<T>, isUpdate: bool, holders: set<Thread>)

  datatype Step<T> =
    | Take(u: Thread)            // setUpdate(true) gets the flag
    | Refused(u: Thread)         // setUpdate(true) finds it taken
    | Change(u: Thread, t: T)    // the holder changes the tree, to anything
    | Release(u: Thread)         // setUpdate(false)
    | Read(r: Thread, seen: T)   // GetSnapshot returns seen

  ghost predicate Init<T>(s: State<T>) {
    s.snapshot == None && !s.isUpdate && s.holders == {}
  }

  ghost predicate Next<T>(s: State<T>, e: Step<T>, s': State<T>) {
    match e
    case Take(u) => !s.isUpdate && s' == State(s.live, Some(s.live), true, s.holders + {u})
    case Refused(_) => s.isUpdate && s' == s
    case Change(u, t) => u in s.holders && s' == s.(live := t)
    case Release(u) => u in s.holders && s' == State(s.live, Some(s.live), false, s.holders - {u})
    case Read(_, seen) =>
      if s.isUpdate && s.snapshot.Some? then s' == s && seen == s.snapshot.value
      else
        && s' == (if s.snapshot.None? then s.(snapshot := Some(s.live)) else s)
        && seen == s'.snapshot.value
  }

  ghost predicate Run<T>(states: seq<State<T>>, steps: seq<Step<T>>) {
    && |states| == |steps| + 1 && Init(states[0])
    && forall i :: 0 <= i < |steps| ==> Next(states[i], steps[i], states[i + 1])
  }

  /** The tree as the last finished update left it, after n steps. */
  ghost function Committed<T>(states: seq<State<T>>, steps: seq<Step<T>>, n: nat): T
    requires Run(states, steps) && n <= |steps|
  {
    if n == 0 then states[0].live
    else if steps[n - 1].Release? then states[n].live
    else Committed(states, steps, n - 1)
  }

  /** At most one updater; outside updates the live tree is the committed one; any snapshot is. */
  ghost predicate Inv<T>(s: State<T>, committed: T) {
    && (forall u, v :: u in s.holders && v in s.holders ==> u == v)
    && (s.isUpdate <==> s.holders != {})
    && (!s.isUpdate ==> s.live == committed)
    && (s.snapshot.Some? ==> s.snapshot.value == committed)
    && (s.isUpdate ==> s.snapshot.Some?)
  }

  lemma {:induction false} InvHolds<T>(states: seq<State<T>>, steps: seq<Step<T>>, n: nat)
    requires Run(states, steps) && n <= |steps|
    ensures Inv(states[n], Committed(states, steps, n))
  {
    if n > 0 {
      InvHolds(states, steps, n - 1);
      assert Next(states[n - 1], steps[n - 1], states[n]);
      if steps[n - 1].Take? || steps[n - 1].Release? {
        assert steps[n - 1].u in states[n - 1].holders + {steps[n - 1].u};
      }
    }
  }

  /** In every interleaving: two threads never both hold the flag, and a reader sees the tree of
      the last finished update, never one in the middle of an update. */
  lemma SnapshotIsolation<T>(states: seq<State<T>>, steps: seq<Step<T>>, n: nat)
    requires Run(states, steps) && n < |steps|
    ensures |states[n].holders| <= 1
    ensures steps[n].Read? ==> steps[n].seen == Committed(states, steps, n)
  {
    InvHolds(states, steps, n);
    assert Next(states[n], steps[n], states[n + 1]);
    var h := states[n].holders;
    if h != {} {
      var u :| u in h;
      assert h == {u};
    }
  }

  /** What readers see goes forward only: a later read returns the tree of the same or of a later
      update. */
  lemma {:induction false} ReadsAdvance<T>(states: seq<State<T>>, steps: seq<Step<T>>, m: nat, n: nat)
    requires Run(states, steps) && m <= n < |steps| && steps[m].Read? && steps[n].Read?
    ensures || steps[m].seen == steps[n].seen
            || exists k :: m < k < n && steps[k].Release? && steps[n].seen == states[k + 1].live
  {
    SnapshotIsolation(states, steps, m);
    SnapshotIsolation(states, steps, n);
    LastRelease(states, steps, m, n);
  }

  lemma {:induction false} LastRelease<T>(states: seq<State<T>>, steps: seq<Step<T>>, m: nat, n: nat)
    requires Run(states, steps) && m <= n < |steps| && steps[m].Read?
    ensures || Committed(states, steps, n) == Committed(states, steps, m)
            || exists k :: m < k < n && steps[k].Release? && Committed(states, steps, n) == states[k + 1].live
    decreases n
  {
    if m < n {
      if steps[n - 1].Release? {
        assert Committed(states, steps, n) == states[n].live;
      } else {
        LastRelease(states, steps, m, n - 1);
      }
    }
  }

  // ---------- the guard is evaluated before the flag is taken ----------

  /** One thread's AddElements: it looks at the count, later it gets the flag and appends. */
  datatype Adder = Idle | Passed(batch: Chunk)

  datatype AddState = AddState(t: Groups, adders: seq<Adder>)

  /** The guard, on the tree as it is at this moment. */
  ghost predicate Looks(s: AddState, u: nat, xs: Chunk, s': AddState) {
    && u < |s.adders| && s.adders[u] == Idle && WellFormed(s.t) && AddGuard(s.t, |xs|)
    && s' == s.(adders := s.adders[u := Passed(xs)])
  }

  /** From taking the flag to giving it back: no other updater gets in between. */
  ghost predicate Appends(s: AddState, u: nat, s': AddState) {
    && u < |s.adders| && s.adders[u].Passed? && WellFormed(s.t) && s.adders[u].batch != []
    && s' == AddState(Append(s.t, s.adders[u].batch), s.adders[u := Idle])
  }

  /** An update leaves the tree canonical exactly when its batch has at most 1024 elements and still
      passes the guard at the moment the flag is taken. */
  lemma AppendsCanonical(s: AddState, u: nat, s': AddState)
    requires Canonical(s.t) && Appends(s, u, s')
    ensures Canonical(s'.t) <==> AddGuard(s.t, |s.adders[u].batch|) && |s.adders[u].batch| <= DEFAULT_ELEMS_NUM
  {
    var xs := s.adders[u].batch;
    if AddGuard(s.t, |xs|) {
      AppendCanonical(s.t, xs);
    } else {
      AppendLast(s.t, xs);
      ChunksLast(s'.t);
      PackedSplit(Flatten(s'.t));
    }
  }

  /** Two updaters can both pass the guard before either takes the flag: 600 elements in the leaf
      and two batches of 400 give a leaf of 1400. */
  lemma StaleGuard(e: Bytes) returns (s0: AddState, s1: AddState, s2: AddState, s3: AddState, s4: AddState)
    ensures s0 == AddState([[seq(600, _ => e)]], [Idle, Idle]) && Canonical(s0.t)
    ensures Looks(s0, 0, seq(400, _ => e), s1) && Looks(s1, 1, seq(400, _ => e), s2)
    ensures Appends(s2, 0, s3) && Appends(s3, 1, s4) && !Canonical(s4.t)
  {
    var leaf, xs := seq(600, _ => e), seq(400, _ => e);
    var t := [[leaf]];
    assert Flatten(t) == [leaf] by {
      assert t[1..] == [];
    }
    s0 := AddState(t, [Idle, Idle]);
    s1 := s0.(adders := s0.adders[0 := Passed(xs)]);
    s2 := s1.(adders := s1.adders[1 := Passed(xs)]);
    s3 := AddState(Append(s2.t, xs), s2.adders[0 := Idle]);
    s4 := AddState(Append(s3.t, xs), s3.adders[1 := Idle]);
    AppendsCanonical(s2, 0, s3);
    AppendLast(t, xs);
    AppendsCanonical(s3, 1, s4);
  }
}
