/** RunRelationalMapServer and its consumer (expanders/generate_expanders.go): a goroutine computes
    one node after another in two node buffers and passes a copy of each over an unbuffered channel.
    The copy shares the backing array of its Parents slice with the buffer. */
module RelationalMap {
  import opened Wrappers
  import opened Division
  import opened ExpanderNode

  const BUFF_SIZE: nat := 2

  /** The graph as far as it matters here: K + 1 layers of N nodes, room for `room` parents in a
      buffer, and the order in which CalcParents adds the parents of a node above the lowest layer. */
  datatype Graph = Graph(K: nat, N: nat, room: nat, order: nat -> seq<int>) {
    ghost predicate Ok() {
      N > 0 && room > 0 && forall i :: N <= i < Total() ==> OrderOk(i, order(i))
    }

    /** As many parents as there is room for, the node straight below first and no lower one. */
    ghost predicate OrderOk(i: nat, xs: seq<int>) {
      |xs| == room > 0 && xs[0] == i - N && forall m :: 0 < m < |xs| ==> xs[0] < xs[m]
    }

    function Total(): nat {
      (K + 1) * N
    }

    function Layer(i: nat): nat
      requires N > 0
    {
      i / N
    }

    /** buf[index % BuffSize], where index restarts in each layer. */
    function Buffer(i: nat): (b: nat)
      requires N > 0
      ensures b < BUFF_SIZE
    {
      (i % N) % BUFF_SIZE
    }

    /** The finished list of parents. */
    function Parents(i: nat): seq<int> {
      InsertAll(order(i))
    }
  }

  /** How far AddParent is: about to begin, room made at the end, elements moved aside. */
  datatype Stage = Idle | Grown | Shifted(at: nat)

  /** next: the node in the making; done: how many parents it has; stage: how far the next parent is;
      ready: the node is complete and the producer waits to send it; arrays: the backing arrays of
      the two buffers; using: the node the consumer has received and not finished; received:
      everything it has received. */
  datatype State = State(next: nat, done: nat, stage: Stage, ready: bool, arrays: seq<seq<int>>,
                         using: Option<nat>, received: seq<nat>)
  {
    /** Two arrays with room for all parents. */
    predicate Shape(g: Graph) {
      |arrays| == BUFF_SIZE && |arrays[0]| == g.room && |arrays[1]| == g.room
    }
  }

  datatype Step =
    | Grow    // append(node.Parents, 0)
    | Shift   // copy(node.Parents[i+1:], node.Parents[i:lens-1]), which moves nothing when i is the end
    | Put     // node.Parents[i] = parent
    | Finish  // CalcParents is done
    | Hand    // send and receive, at the same moment
    | Free    // the consumer is done with its node

  ghost predicate Init(g: Graph, s: State) {
    && s.next == 0 && s.done == 0 && s.stage == Idle && !s.ready && s.using == None && s.received == []
    && s.Shape(g)
  }

  /** The node in the making, if it is one that gets parents. */
  ghost predicate Making(g: Graph, s: State)
    requires g.N > 0
  {
    !s.ready && s.next < g.Total() && g.Layer(s.next) >= 1
  }

  /** The array of the node in the making after a step of AddParent. */
  function Moved(a: seq<int>, at: nat, done: nat): (r: seq<int>)
    requires at <= done < |a|
    ensures |r| == |a|
  {
    a[..at + 1] + a[at..done] + a[done + 1..]
  }

  ghost predicate Next(g: Graph, s: State, e: Step, s': State)
    requires g.Ok() && s.Shape(g)
  {
    var b := g.Buffer(s.next);
    var a := s.arrays[b];
    match e
    case Grow =>
      && Making(g, s) && s.stage == Idle && s.done < g.room
      && s' == s.(arrays := s.arrays[b := a[s.done := 0]], stage := Grown)
    case Shift =>
      && Making(g, s) && s.stage == Grown && s.done < |g.order(s.next)| && s.done < g.room
      && var at := Position(a[..s.done], g.order(s.next)[s.done]);
         s' == s.(arrays := s.arrays[b := Moved(a, at, s.done)], stage := Shifted(at))
    case Put =>
      && Making(g, s) && s.stage.Shifted? && s.stage.at < g.room && s.done < |g.order(s.next)|
      && s' == s.(arrays := s.arrays[b := a[s.stage.at := g.order(s.next)[s.done]]], done := s.done + 1, stage := Idle)
    case Finish =>
      && !s.ready && s.next < g.Total() && s.stage == Idle
      && (g.Layer(s.next) >= 1 ==> s.done == g.room)
      && s' == s.(ready := true)
    case Hand =>
      && s.ready && s.using == None
      && s' == s.(next := s.next + 1, done := 0, ready := false, using := Some(s.next),
                  received := s.received + [s.next])
    case Free =>
      s.using.Some? && s' == s.(using := None)
  }

  ghost predicate Run(g: Graph, states: seq<State>, steps: seq<Step>)
    requires g.Ok()
  {
    && |states| == |steps| + 1 && Init(g, states[0])
    && (forall i :: 0 <= i < |states| ==> states[i].Shape(g))
    && forall i :: 0 <= i < |steps| ==> Next(g, states[i], steps[i], states[i + 1])
  }

  /** The consumer's node still has the parents CalcParents computed for it; a node of the lowest layer
      was sent with an empty slice, which nothing can change. */
  ghost predicate Intact(g: Graph, s: State)
    requires g.Ok() && s.Shape(g)
  {
    s.using.Some? && g.Layer(s.using.value) >= 1 ==>
      s.arrays[g.Buffer(s.using.value)] == g.Parents(s.using.value)
  }

  /** The consumer has received the nodes 0, 1, 2, ... in order. */
  ghost predicate InOrder(s: State) {
    |s.received| == s.next && forall i :: 0 <= i < |s.received| ==> s.received[i] == i
  }

  /** Two nodes in a row use different buffers, except across a layer boundary when N is odd. */
  predicate Alternates(g: Graph) {
    g.N % 2 == 0 || g.K <= 1
  }

  /** What AddParent has left in the array a so far: the parents added, and of the next one what its
      stage says. */
  ghost predicate Partial(xs: seq<int>, a: seq<int>, done: nat, stage: Stage) {
    && done <= |xs| == |a|
    && var so := InsertAll(xs[..done]);
       match stage
       case Idle => a[..done] == so
       case Grown => done < |xs| && a[..done] == so
       case Shifted(at) =>
         && done < |xs| && at == Position(so, xs[done])
         && a[..at] == so[..at] && a[at + 1..done + 1] == so[at..]
  }

  ghost predicate MakingOk(g: Graph, s: State)
    requires g.Ok() && s.Shape(g)
  {
    if s.next < g.Total() && g.Layer(s.next) >= 1
    then Partial(g.order(s.next), s.arrays[g.Buffer(s.next)], s.done, s.stage)
         && (s.ready ==> s.stage == Idle && s.done == g.room)
    else s.done == 0 && s.stage == Idle
  }

  ghost predicate Inv(g: Graph, s: State)
    requires g.Ok() && s.Shape(g)
  {
    && InOrder(s)
    && s.next <= g.Total() && (s.ready ==> s.next < g.Total())
    && (s.using.Some? ==> s.using.value + 1 == s.next)
    && MakingOk(g, s)
    && (Alternates(g) ==> Intact(g, s))
  }

  lemma NextResidue(i: nat, n: nat)
    requires n > 0
    ensures (i + 1) % n == if i % n + 1 == n then 0 else i % n + 1
    ensures (i + 1) / n == if i % n + 1 == n then i / n + 1 else i / n
  {
    var q, r := i / n, i % n;
    assert i == q * n + r;
    if r + 1 == n {
      assert i + 1 == (q + 1) * n;
      DivModUnique(i + 1, q + 1, 0, n);
    } else {
      DivModUnique(i + 1, q, r + 1, n);
    }
  }

  /** The buffer of the next node is another one than that of a node with parents, if the boundary
      case cannot arise. */
  lemma OtherBuffer(g: Graph, i: nat)
    requires g.N > 0 && Alternates(g) && i + 1 < g.Total() && g.Layer(i) >= 1
    ensures g.Buffer(i + 1) != g.Buffer(i)
  {
    NextResidue(i, g.N);
    LayerAtMost(i + 1, g.K, g.N);
  }

  lemma LayerAtMost(i: nat, k: nat, n: nat)
    requires n > 0 && i < (k + 1) * n
    ensures i / n <= k
  {
    var d: int := i / n - (k + 1);
    assert d * n == (i / n) * n - (k + 1) * n;
    assert d >= 0 ==> d * n >= 0;
  }

  lemma LayerFrom(i: nat, n: nat)
    requires n > 0 && i / n >= 1
    ensures i >= n
  {
  }

  // ---------- AddParent, step by step ----------

  lemma GrowStep(xs: seq<int>, a: seq<int>, done: nat)
    requires Partial(xs, a, done, Idle) && done < |xs|
    ensures Partial(xs, a[done := 0], done, Grown)
  {
    assert a[done := 0][..done] == a[..done];
  }

  lemma ShiftStep(xs: seq<int>, a: seq<int>, done: nat)
    requires Partial(xs, a, done, Grown)
    ensures var at := Position(a[..done], xs[done]);
            Partial(xs, Moved(a, at, done), done, Shifted(at))
  {
    var at := Position(a[..done], xs[done]);
    var so, r := a[..done], Moved(a, at, done);
    assert r[..at] == so[..at];
    assert r[at + 1..done + 1] == a[at..done] == so[at..];
  }

  lemma PutStep(xs: seq<int>, a: seq<int>, done: nat, at: nat, more: nat)
    requires Partial(xs, a, done, Shifted(at)) && more == done + 1
    ensures Partial(xs, a[at := xs[done]], more, Idle)
  {
    hide InsertAll, Insert, Position;
    var so, r := InsertAll(xs[..done]), a[at := xs[done]];
    InsertAtPosition(so, xs[done]);
    assert xs[..done + 1] == xs[..done] + [xs[done]];
    InsertAllSnoc(xs[..done], xs[done]);
    assert r[..done + 1] == r[..at] + [xs[done]] + r[at + 1..done + 1];
    assert r[..at] == a[..at] && r[at + 1..done + 1] == a[at + 1..done + 1];
  }

  lemma AllDone(xs: seq<int>, a: seq<int>)
    requires Partial(xs, a, |xs|, Idle)
    ensures a == InsertAll(xs)
  {
    assert xs[..|xs|] == xs && a[..|xs|] == a;
  }

  lemma NothingDone(xs: seq<int>, a: seq<int>)
    requires |xs| == |a|
    ensures Partial(xs, a, 0, Idle)
  {
  }

  // ---------- every run ----------

  lemma MakingOkStep(g: Graph, s: State, e: Step, s': State)
    requires g.Ok() && s.Shape(g) && s'.Shape(g)
    requires MakingOk(g, s) && s.next <= g.Total() && (s.ready ==> s.next < g.Total()) && Next(g, s, e, s')
    ensures MakingOk(g, s')
  {
    hide InsertAll, Position, Partial, Moved, Graph.OrderOk;
    var b := g.Buffer(s.next);
    if s'.next < g.Total() && g.Layer(s'.next) >= 1 {
      LayerFrom(s'.next, g.N);
      var xs, a := g.order(s'.next), s'.arrays[g.Buffer(s'.next)];
      OrderFacts(g, s'.next);
      match e
      case Grow => GrowStep(xs, s.arrays[b], s.done);
      case Shift => ShiftStep(xs, s.arrays[b], s.done);
      case Put => PutStep(xs, s.arrays[b], s.done, s.stage.at, s'.done);
      case Finish =>
      case Hand => NothingDone(xs, a);
      case Free =>
    }
  }

  lemma IntactStep(g: Graph, s: State, e: Step, s': State)
    requires g.Ok() && s.Shape(g) && s'.Shape(g)
    requires Inv(g, s) && Next(g, s, e, s') && Alternates(g)
    ensures Intact(g, s')
  {
    hide InsertAll, Position, Partial, Moved;
    if e.Hand? && g.Layer(s.next) >= 1 {
      LayerFrom(s.next, g.N);
      assert g.OrderOk(s.next, g.order(s.next));
      AllDone(g.order(s.next), s.arrays[g.Buffer(s.next)]);
    } else if (e.Grow? || e.Shift? || e.Put?) && s.using.Some? && g.Layer(s.using.value) >= 1 {
      OtherBuffer(g, s.using.value);
    }
  }

  lemma {:induction false} InvStep(g: Graph, s: State, e: Step, s': State)
    requires g.Ok() && s.Shape(g) && s'.Shape(g)
    requires Inv(g, s) && Next(g, s, e, s')
    ensures Inv(g, s')
  {
    hide InsertAll, Position, Partial, Moved, Intact, MakingOk;
    MakingOkStep(g, s, e, s');
    if Alternates(g) {
      IntactStep(g, s, e, s');
    }
  }

  lemma {:induction false} InvHolds(g: Graph, states: seq<State>, steps: seq<Step>, n: nat)
    requires g.Ok() && Run(g, states, steps) && n < |states|
    ensures Inv(g, states[n])
  {
    hide InsertAll, Position, Partial, Moved;
    if n > 0 {
      InvHolds(g, states, steps, n - 1);
      assert Next(g, states[n - 1], steps[n - 1], states[n]);
      InvStep(g, states[n - 1], steps[n - 1], states[n]);
    }
  }

  /** In every run the consumer gets the nodes in order, and with N even (or no boundary between two
      layers with parents) it always finds in its node the parents computed for it. */
  lemma ConsumerSafe(g: Graph, states: seq<State>, steps: seq<Step>, n: nat)
    requires g.Ok() && Run(g, states, steps) && n < |states|
    ensures InOrder(states[n]) && states[n].next <= g.Total()
    ensures Alternates(g) ==> Intact(g, states[n])
  {
    InvHolds(g, states, steps, n);
  }

  lemma RunShape(g: Graph, states: seq<State>, steps: seq<Step>)
    requires g.Ok() && Run(g, states, steps)
    ensures |states| == |steps| + 1 && forall i :: 0 <= i < |states| ==> states[i].Shape(g)
  {
  }

  // ---------- nothing blocks ----------

  lemma Extend(g: Graph, states: seq<State>, steps: seq<Step>, e: Step, s': State)
    requires g.Ok() && Run(g, states, steps) && s'.Shape(g) && Next(g, states[|steps|], e, s')
    ensures Run(g, states + [s'], steps + [e])
  {
    hide Next, State.Shape;
  }

  /** The next thing to do while node number s.next is not handed over. */
  function Progress(g: Graph, s: State): Step
    requires g.N > 0
  {
    if s.ready then if s.using == None then Hand else Free
    else match s.stage
         case Grown => Shift
         case Shifted(_) => Put
         case Idle => if g.Layer(s.next) >= 1 && s.done < g.room then Grow else Finish
  }

  /** It can always be done. */
  lemma Enabled(g: Graph, s: State) returns (s': State)
    requires g.Ok() && s.Shape(g) && Inv(g, s) && s.next < g.Total()
    ensures s'.Shape(g) && Next(g, s, Progress(g, s), s')
  {
    hide InsertAll, Position, InOrder, Intact;
    var b := g.Buffer(s.next);
    var a := s.arrays[b];
    if g.Layer(s.next) >= 1 {
      LayerFrom(s.next, g.N);
      assert g.OrderOk(s.next, g.order(s.next));
    }
    match Progress(g, s)
    case Grow => s' := s.(arrays := s.arrays[b := a[s.done := 0]], stage := Grown);
    case Shift =>
      var at := Position(a[..s.done], g.order(s.next)[s.done]);
      s' := s.(arrays := s.arrays[b := Moved(a, at, s.done)], stage := Shifted(at));
    case Put =>
      s' := s.(arrays := s.arrays[b := a[s.stage.at := g.order(s.next)[s.done]]], done := s.done + 1, stage := Idle);
    case Finish => s' := s.(ready := true);
    case Hand =>
      s' := s.(next := s.next + 1, done := 0, ready := false, using := Some(s.next), received := s.received + [s.next]);
    case Free => s' := s.(using := None);
  }

  /** How much of AddParent is left. */
  function Rank(stage: Stage): nat {
    match stage
    case Idle => 3
    case Grown => 2
    case Shifted(_) => 1
  }

  /** Node number m - 1 has been handed over and node m not begun. */
  predicate JustHanded(s: State, m: nat) {
    s.using == Some(m - 1) && s.done == 0 && s.stage == Idle && !s.ready
  }

  /** How much is left to do: nodes to finish and to hand over, then parents of the node in the making,
      then the stages of AddParent, then the node in use. */
  function Measure(g: Graph, s: State): int {
    (Turns(g, s) * (g.room + 1) + g.room - s.done) * 6 + (Rank(s.stage) - 1) * 2 + if s.using.Some? then 1 else 0
  }

  function Turns(g: Graph, s: State): int {
    (g.Total() - s.next) * 2 + if s.ready then 0 else 1
  }

  lemma OneTurnLess(turns: int, room: nat)
    ensures (turns - 1) * (room + 1) + room == turns * (room + 1) - 1
  {
  }

  lemma MeasureNonneg(g: Graph, s: State)
    requires g.Ok() && s.Shape(g) && Inv(g, s)
    ensures s.done <= g.room && Turns(g, s) >= 0 && Measure(g, s) >= 0
  {
    hide InsertAll, Position, InOrder, Intact, Graph.OrderOk;
    if s.next < g.Total() && g.Layer(s.next) >= 1 {
      LayerFrom(s.next, g.N);
    }
    assert Turns(g, s) * (g.room + 1) >= 0;
  }

  /** Whatever step is taken, less is left. */
  lemma StepShrinks(g: Graph, s: State, e: Step, s': State)
    requires g.Ok() && s.Shape(g) && Inv(g, s) && Next(g, s, e, s')
    ensures Measure(g, s') < Measure(g, s)
    ensures s'.next != s.next ==> s'.next == s.next + 1 && JustHanded(s', s'.next)
  {
    hide InsertAll, Position, Moved, InOrder, Intact, Graph.OrderOk, Graph.Total;
    MeasureNonneg(g, s);
    if e.Hand? || e.Finish? {
      assert Turns(g, s') == Turns(g, s) - 1;
      OneTurnLess(Turns(g, s), g.room);
    }
  }

  /** n steps take at least n off. */
  lemma {:induction false} RunShrinks(g: Graph, states: seq<State>, steps: seq<Step>, n: nat)
    requires g.Ok() && Run(g, states, steps) && n < |states|
    ensures n <= Measure(g, states[0]) - Measure(g, states[n])
  {
    hide Measure, Inv, Init;
    if n > 0 {
      RunShrinks(g, states, steps, n - 1);
      InvHolds(g, states, steps, n - 1);
      assert Next(g, states[n - 1], steps[n - 1], states[n]);
      StepShrinks(g, states[n - 1], steps[n - 1], states[n]);
    }
  }

  /** The greatest number of steps. */
  function Bound(g: Graph): int {
    ((g.Total() * 2 + 1) * (g.room + 1) + g.room) * 6 + 4
  }

  /** No run is longer than that: no schedule goes on for ever. */
  lemma RunBounded(g: Graph, states: seq<State>, steps: seq<Step>)
    requires g.Ok() && Run(g, states, steps)
    ensures |steps| <= Bound(g)
  {
    RunShrinks(g, states, steps, |steps|);
    InvHolds(g, states, steps, |steps|);
    MeasureNonneg(g, states[|steps|]);
  }

  /** Neither side can do anything. */
  ghost predicate Stuck(g: Graph, s: State)
    requires g.Ok() && s.Shape(g)
  {
    forall e: Step, s': State :: s'.Shape(g) ==> !Next(g, s, e, s')
  }

  /** A run stops exactly when the consumer is done with the last node. */
  lemma StuckIffDone(g: Graph, s: State)
    requires g.Ok() && s.Shape(g) && Inv(g, s)
    ensures Stuck(g, s) <==> s.next == g.Total() && s.using == None
  {
    hide InsertAll, Position, InOrder, Intact, Graph.OrderOk, Graph.Total;
    if s.next < g.Total() {
      var s' := Enabled(g, s);
    } else if s.using.Some? {
      var s' := s.(using := None);
      assert s'.Shape(g) && Next(g, s, Free, s');
    }
  }

  /** Every run that cannot go on has handed over all nodes, in order; and as no run goes on for ever,
      the consumer receives them all whatever the schedule. */
  lemma AllReceived(g: Graph, states: seq<State>, steps: seq<Step>)
    requires g.Ok() && Run(g, states, steps)
    ensures |steps| <= Bound(g)
    ensures states[|steps|].Shape(g)
    ensures Stuck(g, states[|steps|]) ==>
              && |states[|steps|].received| == g.Total()
              && forall i :: 0 <= i < g.Total() ==> states[|steps|].received[i] == i
  {
    hide Measure, Bound, Stuck;
    RunBounded(g, states, steps);
    InvHolds(g, states, steps, |steps|);
    StuckIffDone(g, states[|steps|]);
  }

  /** From wherever it stands, a run can go on until the consumer has received any number of nodes. */
  lemma {:induction false} GoesOn(g: Graph, states: seq<State>, steps: seq<Step>, m: nat)
    returns (states': seq<State>, steps': seq<Step>)
    requires g.Ok() && Run(g, states, steps) && states[|steps|].next <= m <= g.Total()
    ensures Run(g, states', steps') && states <= states' && steps <= steps'
    ensures states'[|steps'|].next == m == |states'[|steps'|].received|
    ensures if states[|steps|].next < m then JustHanded(states'[|steps'|], m) else (states', steps') == (states, steps)
    decreases Measure(g, states[|steps|])
  {
    hide InsertAll, Position, Moved, Run, State.Shape, Measure;
    RunShape(g, states, steps);
    var s := states[|steps|];
    InvHolds(g, states, steps, |steps|);
    MeasureNonneg(g, s);
    if s.next == m {
      states', steps' := states, steps;
    } else {
      var s' := Enabled(g, s);
      Extend(g, states, steps, Progress(g, s), s');
      StepShrinks(g, s, Progress(g, s), s');
      states', steps' := GoesOn(g, states + [s'], steps + [Progress(g, s)], m);
    }
  }

  lemma Reaches(g: Graph, m: nat) returns (states: seq<State>, steps: seq<Step>)
    requires g.Ok() && m <= g.Total()
    ensures Run(g, states, steps) && states[|steps|].next == m == |states[|steps|].received|
    ensures m > 0 ==> JustHanded(states[|steps|], m)
  {
    var a := seq(g.room, _ => 0);
    states, steps := GoesOn(g, [State(0, 0, Idle, false, [a, a], None, [])], [], m);
  }

  // ---------- and otherwise it is not safe ----------

  lemma OrderFacts(g: Graph, i: nat)
    requires g.Ok() && g.N <= i < g.Total()
    ensures g.OrderOk(i, g.order(i))
  {
  }

  lemma LayersFit(k: nat, n: nat)
    requires n > 0 && k >= 2
    ensures 2 * n < (k + 1) * n
  {
    assert (k - 2) * n >= 0;
    assert (k + 1) * n == (k - 2) * n + 3 * n;
  }

  /** AddParent's first three steps for a node put the number straight below in front. */
  lemma FirstPut(g: Graph, states: seq<State>, steps: seq<Step>) returns (states': seq<State>, steps': seq<Step>)
    requires g.Ok() && Run(g, states, steps)
    requires var s := states[|steps|]; s.next < g.Total() && g.Layer(s.next) >= 1 && JustHanded(s, s.next)
    ensures Run(g, states', steps') && states'[|steps'|].using == states[|steps|].using
    ensures states'[|steps'|].arrays[g.Buffer(states[|steps|].next)][0] == states[|steps|].next - g.N
  {
    hide InsertAll, Run;
    RunShape(g, states, steps);
    InvHolds(g, states, steps, |steps|);
    var s := states[|steps|];
    LayerFrom(s.next, g.N);
    assert g.OrderOk(s.next, g.order(s.next));
    var s1 := Enabled(g, s);
    Extend(g, states, steps, Grow, s1);
    states', steps' := states + [s1], steps + [Grow];
    InvHolds(g, states', steps', |steps'|);
    var s2 := Enabled(g, s1);
    Extend(g, states', steps', Shift, s2);
    states', steps' := states' + [s2], steps' + [Shift];
    InvHolds(g, states', steps', |steps'|);
    var s3 := Enabled(g, s2);
    Extend(g, states', steps', Put, s3);
    states', steps' := states' + [s3], steps' + [Put];
  }

  /** With N odd and at least two layers with parents there is a run in which the producer overwrites
      the parents of the node the consumer is using: the last of layer 1, by the first of layer 2. */
  lemma OddUnsafe(g: Graph) returns (states: seq<State>, steps: seq<Step>)
    requires g.Ok() && !Alternates(g)
    ensures Run(g, states, steps) && states[|steps|].Shape(g)
    ensures !Intact(g, states[|steps|])
  {
    hide Run, InsertAll, Graph.Ok, Partial;
    var n := 2 * g.N - 1;
    LayersFit(g.K, g.N);
    DivModUnique(n, 1, g.N - 1, g.N);
    DivModUnique(n + 1, 2, 0, g.N);
    assert g.Buffer(n) == 0 && g.Buffer(n + 1) == 0 && g.Layer(n) == 1 && g.Layer(n + 1) == 2 && n + 1 < g.Total();
    states, steps := Reaches(g, n + 1);
    states, steps := FirstPut(g, states, steps);
    RunShape(g, states, steps);
    OrderFacts(g, n);
    FirstStays(g.order(n));
  }

  ghost predicate AlwaysIntact(g: Graph)
    requires g.Ok()
  {
    forall states: seq<State>, steps: seq<Step> ::
      Run(g, states, steps) ==> states[|steps|].Shape(g) && Intact(g, states[|steps|])
  }

  /** The exact condition: every run is safe if and only if N is even or there are no two layers with
      parents. */
  lemma SafeIffAlternates(g: Graph)
    requires g.Ok()
    ensures AlwaysIntact(g) <==> Alternates(g)
  {
    hide Next, Init, Intact;
    if Alternates(g) {
      forall states: seq<State>, steps: seq<Step> | Run(g, states, steps)
        ensures states[|steps|].Shape(g) && Intact(g, states[|steps|])
      {
        RunShape(g, states, steps);
        ConsumerSafe(g, states, steps, |steps|);
      }
    } else {
      var states, steps := OddUnsafe(g);
    }
  }
}
