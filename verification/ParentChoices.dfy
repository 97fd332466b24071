/** Which parents CalcParents (expanders/generate_expanders.go) chooses, told number by number and without
    the loops: every number is the first free one among the samples for it, or the first free one behind. */
module ParentChoices {
  import opened ByteStrings
  import opened Hashing
  import opened Division
  import opened ExpanderNode
  import opened CalcParents
  import opened Preimages
  import opened Varints

  // ---------- one number ----------

  function Members(s: seq<int>): (m: set<int>)
    ensures forall x :: x in m <==> x in s
  {
    set x | x in s
  }

  /** Some number chosen has this residue. */
  predicate Taken(n: int, xs: set<int>, z: int)
    requires n > 0
  {
    exists y :: y in xs && y % n == z % n
  }

  /** x has the first free residue behind z. */
  ghost predicate FirstFree(n: int, xs: set<int>, z: int, x: int)
    requires n > 0
  {
    exists r: int :: r >= 1 && FreeAfter(n, xs, z, x, r)
  }

  predicate FreeAfter(n: int, xs: set<int>, z: int, x: int, r: int)
    requires n > 0
  {
    x % n == (z + r) % n && !TakenAfter(n, xs, z, r) && forall t :: 1 <= t < r ==> TakenAfter(n, xs, z, t)
  }

  predicate TakenAfter(n: int, xs: set<int>, z: int, t: int)
    requires n > 0
  {
    Taken(n, xs, z + t)
  }

  /** The samples for number j before shift sh are all taken. */
  predicate TakenBefore(n: int, h: Bytes, j: nat, xs: set<int>, sh: nat)
    requires n > 0 && |h| == HASH_SIZE && j < 15 && sh <= 4
  {
    forall t: nat :: t < sh ==> Taken(n, xs, Reading(h, j, t))
  }

  /** x is sampled at shift sh, and the first sample that is free. */
  predicate SampledAt(n: int, h: Bytes, j: nat, xs: set<int>, x: int, sh: nat)
    requires n > 0 && |h| == HASH_SIZE && j < 15 && sh < 4
  {
    x % n == Reading(h, j, sh) % n && !Taken(n, xs, x) && TakenBefore(n, h, j, xs, sh)
  }

  /** Number j of a block, when xs are chosen and prev was the last: of the N nodes below the node, it is
      the one with the first free of the four samples for it, and when all are taken, with the first free
      residue behind the fourth; the last of the sixteen has the first free residue behind prev. */
  ghost predicate RightChoice(index: int, n: int, h: Bytes, j: nat, xs: set<int>, prev: int, x: int)
    requires n > 0 && |h| == HASH_SIZE && j < 16
  {
    && index - n <= x < index
    && if j == 15 then FirstFree(n, xs, prev, x)
       else if TakenBefore(n, h, j, xs, 4) then FirstFree(n, xs, Reading(h, j, 3), x)
       else exists sh: nat :: sh < 4 && SampledAt(n, h, j, xs, x, sh)
  }

  /** That leaves no choice. */
  lemma ChoiceUnique(index: int, n: int, h: Bytes, j: nat, xs: set<int>, prev: int, x: int, y: int)
    requires n > 0 && |h| == HASH_SIZE && j < 16
    requires RightChoice(index, n, h, j, xs, prev, x) && RightChoice(index, n, h, j, xs, prev, y)
    ensures x == y
  {
    hide Taken, TakenBefore, FirstFree, Reading;
    if j == 15 {
      FreeUnique(n, xs, prev, x, y);
    } else if TakenBefore(n, h, j, xs, 4) {
      FreeUnique(n, xs, Reading(h, j, 3), x, y);
    } else {
      var s: nat :| s < 4 && SampledAt(n, h, j, xs, x, s);
      var t: nat :| t < 4 && SampledAt(n, h, j, xs, y, t);
      SampleUnique(n, h, j, xs, x, y, s, t);
    }
    if x != y {
      Incongruent(if x < y then x else y, if x < y then y else x, n);
    }
  }

  lemma FreeUnique(n: int, xs: set<int>, z: int, x: int, y: int)
    requires n > 0 && FirstFree(n, xs, z, x) && FirstFree(n, xs, z, y)
    ensures x % n == y % n
  {
    hide TakenAfter;
    var r: int :| r >= 1 && FreeAfter(n, xs, z, x, r);
    var q: int :| q >= 1 && FreeAfter(n, xs, z, y, q);
  }

  lemma SampleUnique(n: int, h: Bytes, j: nat, xs: set<int>, x: int, y: int, s: nat, t: nat)
    requires n > 0 && |h| == HASH_SIZE && j < 15 && s < 4 && t < 4
    requires SampledAt(n, h, j, xs, x, s) && SampledAt(n, h, j, xs, y, t)
    ensures x % n == y % n
  {
    hide Reading, Taken;
    SampleFree(n, h, j, xs, x, s);
    SampleFree(n, h, j, xs, y, t);
  }

  lemma SampleFree(n: int, h: Bytes, j: nat, xs: set<int>, x: int, sh: nat)
    requires n > 0 && |h| == HASH_SIZE && j < 15 && sh < 4 && SampledAt(n, h, j, xs, x, sh)
    ensures !Taken(n, xs, Reading(h, j, sh))
  {
    hide Reading;
  }

  // ---------- the windows speak of residues ----------

  lemma LiftCongruent(w: Window, q: int)
    requires w.Ok() && w.base <= q < w.base + w.n
    ensures w.n > 0 && w.Lift(q) % w.n == q % w.n && w.index - w.n <= w.Lift(q) < w.index
  {
    AddModulus(q, w.n);
  }

  lemma BaseCongruent(w: Window, r: int)
    requires w.Ok()
    ensures w.n > 0 && (r % w.n + w.base) % w.n == r % w.n
  {
    ModOfMultiple(w.base / w.n, r % w.n, w.n);
    assert w.base == (w.base / w.n) * w.n;
    SmallMod(r % w.n, w.n);
  }

  lemma SmallMod(r: int, n: int)
    requires 0 <= r < n
    ensures r % n == r
  {
  }

  /** A place is free exactly when its residue is. */
  lemma FreeIff(w: Window, s: seq<int>, q: int)
    requires w.Ok() && w.Good(s) && w.base <= q < w.base + w.n
    ensures w.n > 0 && (w.Free(s, q) <==> !Taken(w.n, Members(s), q))
  {
    hide Window.Ok, Window.Lift;
    LiftCongruent(w, q);
    var x := w.Lift(q);
    if y :| y in s && y % w.n == q % w.n {
      if x != y {
        Incongruent(if x < y then x else y, if x < y then y else x, w.n);
      }
    }
  }

  lemma TakenCongruent(n: int, xs: set<int>, y: int, z: int)
    requires n > 0 && y % n == z % n
    ensures Taken(n, xs, y) <==> Taken(n, xs, z)
  {
  }

  lemma PlaceCongruent(w: Window, p: int, k: int)
    requires w.Ok()
    ensures w.n > 0 && w.base <= w.Place(p, k) < w.base + w.n && w.Place(p, k) % w.n == (p + k) % w.n
  {
    BaseCongruent(w, p + k);
  }

  lemma PlaceTaken(w: Window, s: seq<int>, p: int, k: int)
    requires w.Ok() && w.Good(s)
    ensures w.n > 0 && (w.Free(s, w.Place(p, k)) <==> !Taken(w.n, Members(s), p + k))
  {
    hide Window.Ok, Window.Good, Window.Free, Window.Place, Taken;
    PlaceCongruent(w, p, k);
    FreeIff(w, s, w.Place(p, k));
    TakenCongruent(w.n, Members(s), w.Place(p, k), p + k);
  }

  lemma FreeShift(n: int, xs: set<int>, z: int, y: int, x: int)
    requires n > 0 && z % n == y % n && FirstFree(n, xs, z, x)
    ensures FirstFree(n, xs, y, x)
  {
    hide TakenAfter;
    var r: int :| r >= 1 && FreeAfter(n, xs, z, x, r);
    forall t | 1 <= t <= r ensures TakenAfter(n, xs, y, t) <==> TakenAfter(n, xs, z, t) {
      ShiftTaken(n, xs, z, y, t);
    }
    SameShift(n, z, y, r);
    assert FreeAfter(n, xs, y, x, r);
  }

  lemma ShiftTaken(n: int, xs: set<int>, z: int, y: int, t: int)
    requires n > 0 && z % n == y % n
    ensures TakenAfter(n, xs, y, t) <==> TakenAfter(n, xs, z, t)
  {
    hide Taken;
    SameShift(n, z, y, t);
    TakenCongruent(n, xs, y + t, z + t);
  }

  lemma SameShift(n: int, z: int, y: int, t: int)
    requires n > 0 && z % n == y % n
    ensures (y + t) % n == (z + t) % n
  {
    var a, b := z / n, y / n;
    assert z == a * n + z % n && y == b * n + y % n;
    assert y + t == (b - a) * n + (z + t);
    ModOfMultiple(b - a, z + t, n);
  }

  /** The probe finds the first free residue. */
  lemma ProbeFirst(w: Window, s: seq<int>, p: int)
    requires w.Ok() && w.Good(s) && |s| < w.n && p >= 0
    ensures var x := w.Lift(w.Place(p, w.Distance(s, p, 1)));
            w.n > 0 && w.index - w.n <= x < w.index && FirstFree(w.n, Members(s), p, x)
  {
    hide Window.Ok, Window.Good, Window.Free, Window.Place, Window.Lift, Taken;
    var r := Reach(w, s, p);
    PlaceCongruent(w, p, r);
    LiftCongruent(w, w.Place(p, r));
    PlaceTaken(w, s, p, r);
    forall t | 1 <= t < r ensures TakenAfter(w.n, Members(s), p, t) {
      PlaceTaken(w, s, p, t);
    }
    assert FreeAfter(w.n, Members(s), p, w.Lift(w.Place(p, r)), r);
  }

  lemma Reach(w: Window, s: seq<int>, p: int) returns (r: int)
    requires w.Ok() && w.Good(s) && |s| < w.n && p >= 0
    ensures w.n > 0 && r == w.Distance(s, p, 1) >= 1 && w.Free(s, w.Place(p, r))
    ensures forall m :: 1 <= m < r ==> !w.Free(s, w.Place(p, m))
  {
    hide Window.Good, Window.Free, Window.Place;
    w.ProbeEnds(s, p);
    r := w.Distance(s, p, 1);
  }

  /** A sample stands for the number of the window with its residue. */
  lemma SampleLifts(w: Window, h: Bytes, s: seq<int>, j: nat, sh: nat, p: int)
    requires w.Ok() && w.Good(s) && |h| == HASH_SIZE && j < 15 && sh < 4
    ensures var x := Candidate(w, h, s, j, sh, p);
            && w.n > 0 && w.index - w.n <= x < w.index && x % w.n == Reading(h, j, sh) % w.n
            && (x in s <==> Taken(w.n, Members(s), Reading(h, j, sh)))
  {
    hide Reading, Sampled, Window.Good;
    SampledMeans(h, w.n, j, sh);
    var v := Sampled(h, w.n, j, sh);
    var q := v % w.n + w.base;
    BaseCongruent(w, v);
    SmallMod(v, w.n);
    LiftCongruent(w, q);
    FreeIff(w, s, q);
    TakenCongruent(w.n, Members(s), q, Reading(h, j, sh));
  }

  // ---------- a block ----------

  /** Number k of the list is the right choice in the block whose numbers begin at start. */
  ghost predicate ChoiceAt(index: int, n: int, h: Bytes, xs: seq<int>, start: nat, k: nat)
    requires n > 0 && |h| == HASH_SIZE && 1 <= start <= k < |xs| && k < start + 16
  {
    RightChoice(index, n, h, k - start, Members(xs[..k]), xs[k - 1], xs[k])
  }

  /** The state of the loop over a block: what is chosen, and where the next number comes from. */
  ghost predicate Choosing(w: Window, h: Bytes, s: seq<int>, j: nat, sh: nat, p: int, done: seq<int>)
    requires |h| == HASH_SIZE
  {
    && w.Ok() && w.Good(s) && j <= 16 && sh <= 4 && p >= 0 && |s| + 16 - j <= w.n
    && done != [] && Members(done) == Members(s)
    && (sh > 0 ==> j < 15 && p % w.n == Reading(h, j, sh - 1) % w.n)
    && (j < 15 ==> TakenBefore(w.n, h, j, Members(s), sh))
    && (sh == 0 && j > 0 ==> p == done[|done| - 1])
  }

  lemma ChosenRightly(w: Window, h: Bytes, s: seq<int>, j: nat, sh: nat, p: int, done: seq<int>)
    requires |h| == HASH_SIZE && Choosing(w, h, s, j, sh, p, done) && j < 16
    ensures w.n > 0 && (sh < 4 && j < 15 && Candidate(w, h, s, j, sh, p) in s ==>
              Choosing(w, h, s, j, sh + 1, Candidate(w, h, s, j, sh, p), done))
    ensures !(sh < 4 && j < 15 && Candidate(w, h, s, j, sh, p) in s) ==>
              RightChoice(w.index, w.n, h, j, Members(done), done[|done| - 1], Candidate(w, h, s, j, sh, p))
  {
    hide Reading, Taken, FirstFree, Window.Good, Candidate, Members;
    var x := Candidate(w, h, s, j, sh, p);
    CandidateFits(w, h, s, j, sh, p);
    if sh < 4 && j < 15 {
      SampleLifts(w, h, s, j, sh, p);
      TakenCongruent(w.n, Members(s), x, Reading(h, j, sh));
      if x !in s {
        assert SampledAt(w.n, h, j, Members(s), x, sh);
      }
    } else {
      CandidateProbes(w, h, s, j, sh, p);
      ProbeFirst(w, s, p);
      if j < 15 {
        FreeShift(w.n, Members(s), p, Reading(h, j, 3), x);
      }
    }
  }

  lemma CandidateProbes(w: Window, h: Bytes, s: seq<int>, j: nat, sh: nat, p: int)
    requires w.Ok() && |h| == HASH_SIZE && j < 16 && sh <= 4 && (sh == 4 || j == 15)
    ensures Candidate(w, h, s, j, sh, p) == w.Lift(w.Place(p, w.Distance(s, p, 1)))
  {
  }

  lemma Added(w: Window, h: Bytes, s: seq<int>, j: nat, sh: nat, p: int, done: seq<int>)
    requires |h| == HASH_SIZE && Choosing(w, h, s, j, sh, p, done) && j < 16
    requires !(sh < 4 && j < 15 && Candidate(w, h, s, j, sh, p) in s)
    ensures var x := Candidate(w, h, s, j, sh, p); Choosing(w, h, Insert(s, x), j + 1, 0, x, done + [x])
  {
    hide Reading, Taken, Candidate, Insert, Window.Good;
    var x := Candidate(w, h, s, j, sh, p);
    CandidateFits(w, h, s, j, sh, p);
    InsertGood(w, s, x);
    assert Members(done + [x]) == Members(Insert(s, x));
  }

  lemma {:induction false} FillChoices(w: Window, h: Bytes, s: seq<int>, j: nat, sh: nat, p: int, done: seq<int>,
                                       start: nat)
    requires |h| == HASH_SIZE && Choosing(w, h, s, j, sh, p, done) && start >= 1 && |done| == start + j
    ensures w.n > 0
    ensures var all := done + FillOrder(w, h, s, j, sh, p);
            |all| == start + 16 && forall k :: |done| <= k < |all| ==> ChoiceAt(w.index, w.n, h, all, start, k)
    decreases 16 - j, 4 - sh
  {
    hide Candidate, Insert, RightChoice, Members, Choosing;
    ChoosingBounds(w, h, s, j, sh, p, done);
    if j < 16 {
      ChosenRightly(w, h, s, j, sh, p, done);
      var x := Candidate(w, h, s, j, sh, p);
      if sh < 4 && j < 15 && x in s {
        FillChoices(w, h, s, j, sh + 1, x, done, start);
      } else {
        Added(w, h, s, j, sh, p, done);
        FillChoices(w, h, Insert(s, x), j + 1, 0, x, done + [x], start);
        var rest := FillOrder(w, h, Insert(s, x), j + 1, 0, x);
        ConcatAssociates(done, [x], rest);
        var all := done + [x] + rest;
        assert all[..|done|] == done;
      }
    }
  }

  lemma ChoosingBounds(w: Window, h: Bytes, s: seq<int>, j: nat, sh: nat, p: int, done: seq<int>)
    requires |h| == HASH_SIZE && Choosing(w, h, s, j, sh, p, done)
    ensures w.Ok() && w.n > 0 && j <= 16 && sh <= 4 && done != []
  {
  }

  // ---------- all numbers ----------

  /** Numbers are chosen in blocks of sixteen, from 1 on: where the block of number k begins, and which of the
      sixteen it is. */
  function BlockOf(k: nat): nat
    requires k >= 1
  {
    (k - 1) / 16 * 16
  }

  function InBlock(k: nat): (j: nat)
    requires k >= 1
    ensures j < 16
  {
    (k - 1) % 16
  }

  /** Number k is the right choice from the digest of its block: the only string with the fields of the
      block of sixteen that k belongs to. */
  ghost predicate NumberRight(hash: Hash, id: Bytes, count: int, index: int, n: int, xs: seq<int>, k: nat)
    requires n > 0 && 1 <= k < |xs|
  {
    forall b :: IsBlock(b, id, count, index / n, BlockOf(k)) ==>
      RightChoice(index, n, hash(b), InBlock(k), Members(xs[..k]), xs[k - 1], xs[k])
  }

  /** D + 1 numbers: the node straight below, and D right choices. */
  ghost predicate AreChoices(e: Expanders, hash: Hash, id: Bytes, count: int, index: int, xs: seq<int>)
    requires e.Ok()
  {
    && |xs| == e.D + 1 && xs[0] == index - e.N
    && forall k :: 1 <= k < |xs| ==> NumberRight(hash, id, count, index, e.N, xs, k)
  }

  lemma ChoicesUnique(e: Expanders, hash: Hash, id: Bytes, count: int, index: int, xs: seq<int>, ys: seq<int>)
    requires e.Ok() && AreChoices(e, hash, id, count, index, xs) && AreChoices(e, hash, id, count, index, ys)
    ensures xs == ys
  {
    hide NumberRight;
    assert xs[..1] == [xs[0]] == [ys[0]] == ys[..1];
    for k := 1 to |xs|
      invariant xs[..k] == ys[..k]
    {
      assert NumberRight(hash, id, count, index, e.N, xs, k) && NumberRight(hash, id, count, index, e.N, ys, k);
      NextUnique(hash, id, count, index, e.N, xs, ys, k);
      assert xs[..k + 1] == xs[..k] + [xs[k]] && ys[..k + 1] == ys[..k] + [ys[k]];
    }
  }

  lemma NextUnique(hash: Hash, id: Bytes, count: int, index: int, n: int, xs: seq<int>, ys: seq<int>, k: nat)
    requires n > 0 && 1 <= k < |xs| && k < |ys| && xs[..k] == ys[..k]
    requires NumberRight(hash, id, count, index, n, xs, k) && NumberRight(hash, id, count, index, n, ys, k)
    ensures xs[k] == ys[k]
  {
    hide RightChoice, Members, BlockBytes, IsBlock, BlockOf, InBlock;
    var b := BlockBytes(id, count, index / n, BlockOf(k));
    BlockIff(b, id, count, index / n, BlockOf(k));
    assert xs[k - 1] == xs[..k][k - 1] == ys[k - 1];
    ChoiceUnique(index, n, hash(b), InBlock(k), Members(xs[..k]), xs[k - 1], xs[k], ys[k]);
  }

  lemma BlockNumber(i: int, d: int, k: int)
    requires Aligned(i, d) && i + 1 <= k <= i + 16
    ensures k >= 1 && BlockOf(k) == i && InBlock(k) == k - (i + 1)
  {
  }

  lemma BlockRight(w: Window, hash: Hash, id: Bytes, count: int, xs: seq<int>, i: nat, k: nat)
    requires w.n > 0 && i + 1 <= k <= i + 16 && k < |xs| && BlockOf(k) == i && InBlock(k) == k - (i + 1)
    requires ChoiceAt(w.index, w.n, hash(BlockBytes(id, count, w.index / w.n, i)), xs, i + 1, k)
    ensures NumberRight(hash, id, count, w.index, w.n, xs, k)
  {
    hide RightChoice, BlockBytes, IsBlock, BlockOf, InBlock;
    forall b | IsBlock(b, id, count, w.index / w.n, i)
      ensures RightChoice(w.index, w.n, hash(b), InBlock(k), Members(xs[..k]), xs[k - 1], xs[k])
    {
      BlockIff(b, id, count, w.index / w.n, i);
    }
  }

  lemma NumberKept(hash: Hash, id: Bytes, count: int, index: int, n: int, xs: seq<int>, ys: seq<int>, k: nat)
    requires n > 0 && 1 <= k < |xs| && NumberRight(hash, id, count, index, n, xs, k)
    ensures NumberRight(hash, id, count, index, n, xs + ys, k)
  {
    hide RightChoice, IsBlock, Members, BlockOf, InBlock;
    assert (xs + ys)[..k] == xs[..k] && (xs + ys)[k - 1] == xs[k - 1] && (xs + ys)[k] == xs[k];
  }

  /** The outer loop is between two blocks. */
  ghost predicate Between(w: Window, d: int, s: seq<int>, i: int, done: seq<int>) {
    && w.Ok() && w.Good(s) && Aligned(i, d) && d + 1 <= w.n && |s| == i + 1 == |done| && Members(done) == Members(s)
  }

  /** One block: sixteen more right choices. */
  lemma BlockChoices(w: Window, hash: Hash, id: Bytes, count: int, d: int, s: seq<int>, i: int, done: seq<int>)
    returns (next: seq<int>, all: seq<int>)
    requires Between(w, d, s, i, done) && i < d
    ensures w.Ok() && i >= 0
    ensures var h := hash(BlockBytes(id, count, w.index / w.n, i));
            next == Fill(w, h, s, 0, 0, 0) && all == done + FillOrder(w, h, s, 0, 0, 0)
    ensures Between(w, d, next, i + 16, all)
    ensures forall k :: i + 1 <= k < i + 17 ==> NumberRight(hash, id, count, w.index, w.n, all, k)
  {
    hide BlockBytes, Fill, FillOrder, Choosing, ChoiceAt, NumberRight, Members, Window.Good, Window.Ok, Aligned,
         BlockOf, InBlock;
    var h := hash(BlockBytes(id, count, w.index / w.n, i));
    next, all := Fill(w, h, s, 0, 0, 0), done + FillOrder(w, h, s, 0, 0, 0);
    NextBlock(i, d);
    StartChoosing(w, h, s, d, i, done);
    FillChoices(w, h, s, 0, 0, 0, done, i + 1);
    FillGood(w, h, s, 0, 0, 0);
    FillMembers(w, h, s, 0, 0, 0, done);
    forall k | i + 1 <= k < i + 17 ensures NumberRight(hash, id, count, w.index, w.n, all, k) {
      BlockNumber(i, d, k);
      BlockRight(w, hash, id, count, all, i, k);
    }
  }

  lemma StartChoosing(w: Window, h: Bytes, s: seq<int>, d: int, i: int, done: seq<int>)
    requires |h| == HASH_SIZE && Between(w, d, s, i, done) && i < d
    ensures Choosing(w, h, s, 0, 0, 0, done) && w.n > 0
  {
    NextBlock(i, d);
  }

  lemma {:induction false} FillMembers(w: Window, h: Bytes, s: seq<int>, j: nat, sh: nat, p: int, done: seq<int>)
    requires w.Ok() && |h| == HASH_SIZE && j <= 16 && sh <= 4 && Members(done) == Members(s)
    ensures Members(done + FillOrder(w, h, s, j, sh, p)) == Members(Fill(w, h, s, j, sh, p))
    decreases 16 - j, 4 - sh
  {
    hide Candidate, Insert, Window.Ok;
    if j == 16 {
      assert done + [] == done;
    } else {
      var x := Candidate(w, h, s, j, sh, p);
      if sh < 4 && j < 15 && x in s {
        FillMembers(w, h, s, j, sh + 1, x, done);
      } else {
        assert Members(done + [x]) == Members(Insert(s, x));
        FillMembers(w, h, Insert(s, x), j + 1, 0, x, done + [x]);
        ConcatAssociates(done, [x], FillOrder(w, h, Insert(s, x), j + 1, 0, x));
      }
    }
  }

  lemma {:induction false} AllChoices(e: Expanders, w: Window, hash: Hash, id: Bytes, count: int, s: seq<int>, i: int,
                                      done: seq<int>)
    requires Between(w, e.D, s, i, done)
    ensures w.Ok() && w.n > 0
    ensures var all := done + FillAllOrder(e, w, hash, id, count, w.index / w.n, s, i);
            |all| == e.D + 1 && forall k :: i + 1 <= k <= e.D ==> NumberRight(hash, id, count, w.index, w.n, all, k)
    decreases e.D - i
  {
    hide Fill, FillOrder, BlockBytes, NumberRight, Members, Window.Good, Window.Ok, Aligned;
    NextBlock(i, e.D);
    BetweenBounds(w, e.D, s, i, done);
    var layer := w.index / w.n;
    if i >= e.D {
      assert done + [] == done;
    } else {
      var next, more := BlockChoices(w, hash, id, count, e.D, s, i, done);
      AllChoices(e, w, hash, id, count, next, i + 16, more);
      var rest := FillAllOrder(e, w, hash, id, count, layer, next, i + 16);
      ConcatAssociates(done, FillOrder(w, hash(BlockBytes(id, count, layer, i)), s, 0, 0, 0), rest);
      forall k | i + 1 <= k < i + 17 ensures NumberRight(hash, id, count, w.index, w.n, more + rest, k) {
        NumberKept(hash, id, count, w.index, w.n, more, rest, k);
      }
    }
  }

  lemma BetweenBounds(w: Window, d: int, s: seq<int>, i: int, done: seq<int>)
    requires Between(w, d, s, i, done)
    ensures w.Ok() && w.n > 0 && 0 <= i <= d && |done| == i + 1
  {
  }

  /** Exactly one list consists of right choices: the order in which CalcParents adds the parents, and they
      are that list, sorted. */
  lemma ParentsAreChoices(e: Expanders, hash: Hash, id: Bytes, count: int, index: int, xs: seq<int>)
    requires e.Ok() && index >= e.N
    ensures AreChoices(e, hash, id, count, index, xs) <==> xs == OrderOf(e, hash, id, count, index)
    ensures AreChoices(e, hash, id, count, index, xs) ==>
              && ParentsOf(e, hash, id, count, index) == InsertAll(xs)
              && Members(ParentsOf(e, hash, id, count, index)) == Members(xs)
  {
    hide FillAllOrder, ParentsOf, InsertAll, NumberRight, Members, Aligned, Expanders.Ok;
    FirstBlock(e);
    var w := WindowOf(e, index);
    var order := OrderOf(e, hash, id, count, index);
    StartBetween(e, w);
    AllChoices(e, w, hash, id, count, [index - e.N], 0, [index - e.N]);
    assert AreChoices(e, hash, id, count, index, order);
    if AreChoices(e, hash, id, count, index, xs) {
      ChoicesUnique(e, hash, id, count, index, xs, order);
      ParentsInOrder(e, hash, id, count, index);
      InsertedMembers(xs);
    }
  }

  lemma StartBetween(e: Expanders, w: Window)
    requires e.Ok() && w.Ok() && w.n == e.N
    ensures Between(w, e.D, [w.index - w.n], 0, [w.index - w.n])
  {
    FirstBlock(e);
    FirstGood(w);
  }

  lemma {:induction false} InsertedMembers(xs: seq<int>)
    ensures Members(InsertAll(xs)) == Members(xs)
  {
    if xs != [] {
      InsertedMembers(xs[..|xs| - 1]);
      assert xs == xs[..|xs| - 1] + [xs[|xs| - 1]];
    }
  }
}
