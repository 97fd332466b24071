/** The parents of a node of the stacked expander graph: hash sampling with linear probing
    (expanders/generate_expanders.go). */
module CalcParents {
  import opened ByteStrings
  import opened Hashing
  import opened Division
  import opened ExpanderNode

  datatype Expanders = Expanders(K: int, N: int, D: int) {
    /** What the program assumes of its graph: the degree is a positive multiple of 16, there are
        enough nodes per layer, and node numbers fit in an int32. */
    predicate Ok() {
      K >= 0 && D > 0 && D % 16 == 0 && D + 1 <= N && (K + 1) * N <= 0x7fff_ffff
    }
  }

  // ---------- reading a node value from hash bytes ----------

  /** binary.Uvarint of a slice too short to overflow; 0 when no byte ends the number. */
  function Uvarint(buf: Bytes, i: nat, x: nat, scale: nat): nat
    requires i <= |buf| <= 9
    decreases |buf| - i
  {
    if i == |buf| then 0
    else if buf[i] < 0x80 then x + buf[i] as nat * scale
    else Uvarint(buf, i + 1, x + (buf[i] as nat - 0x80) * scale, scale * 0x80)
  }

  /** binary.Varint: zig-zag. */
  function Varint(buf: Bytes): int
    requires |buf| <= 9
  {
    var u := Uvarint(buf, 0, 0, 1);
    if u % 2 == 0 then u / 2 else -(u / 2) - 1
  }

  /** BytesToNodeValue */
  function BytesToNodeValue(data: Bytes, max: int): (r: int)
    requires |data| <= 9 && max > 0
    ensures 0 <= r < max
  {
    var v := Varint(data);
    (if v < 0 then -v else v) % max
  }

  // ---------- the window below a node ----------

  /** A node in layer 1 or above: its index, the number of nodes per layer, and the first node of
      the layer below. */
  datatype Window = Window(index: int, n: int, base: int) {
    predicate Ok() {
      n > 0 && base >= 0 && base % n == 0 && base + n <= index < base + 2 * n
    }

    /** The node straight below. */
    function Low(): int {
      index - n
    }

    /** A node of the layer below stands for the node of the window that is congruent to it. */
    function Lift(q: int): int {
      if q < index - n then q + n else q
    }

    /** The probe moves on by k places around the layer below. */
    function Place(p: int, k: int): (q: int)
      requires Ok()
      ensures base <= q < base + n
    {
      (p + k) % n + base
    }

    lemma PlaceBelow(p: int, k: int)
      requires Ok()
      ensures n > 0 && 0 <= base <= Place(p, k) < index
    {
    }

    predicate Free(s: seq<int>, q: int) {
      Lift(q) !in s
    }

    /** How far the probe goes from p: the first k from 1 on whose place is free. */
    function Distance(s: seq<int>, p: int, k: int): (r: int)
      requires Ok() && k <= n
      ensures k <= r <= n
      ensures r < n ==> Free(s, Place(p, r))
      ensures forall m :: k <= m < r ==> !Free(s, Place(p, m))
      decreases n - k
    {
      if k == n || Free(s, Place(p, k)) then k else Distance(s, p, k + 1)
    }

    /** The parents chosen so far: sorted, inside the window, the node straight below among them. */
    predicate Good(s: seq<int>) {
      Sorted(s) && (forall x :: x in s ==> index - n <= x < index) && index - n in s
    }

    lemma LiftInWindow(q: int)
      requires Ok() && base <= q < base + n
      ensures index - n <= Lift(q) < index
    {
    }

    lemma LiftNonneg(q: int)
      requires Ok() && base <= q < base + n
      ensures index - n <= Lift(q) < index && Lift(q) >= 0
    {
    }

    /** With fewer than n parents some place is free. */
    lemma SomeFree(s: seq<int>) returns (q: int)
      requires Ok() && Good(s) && |s| < n
      ensures base <= q < base + n && Free(s, q)
    {
      var x := Missing(s, index - n, n);
      q := if x < base + n then x else x - n;
    }

    lemma PlaceStep(start: int, p: int, k: int)
      requires Ok() && start >= 0 && k >= 0 && p == if k == 0 then start else Place(start, k)
      ensures (p + 1) % n + base == Place(start, k + 1)
    {
      if k > 0 {
        var q := (start + k) % n;
        ModOfMultiple(base / n, q + 1, n);
        assert p + 1 == (base / n) * n + (q + 1);
        AddMod(start + k, 1, n);
      }
    }

    /** Every place is met within n steps of the probe. */
    lemma PlaceReached(p: int, q: int) returns (k: int)
      requires Ok() && p >= 0 && base <= q < base + n
      ensures 1 <= k <= n && Place(p, k) == q
    {
      var r := q - base;
      var d := (r - p) % n;
      k := if d == 0 then n else d;
      ModBack(p, r, n);
      if d == 0 {
        AddModulus(p, n);
      }
    }

    /** So the probe always ends, at a free place. */
    lemma ProbeEnds(s: seq<int>, p: int)
      requires Ok() && Good(s) && |s| < n && p >= 0
      ensures Free(s, Place(p, Distance(s, p, 1)))
    {
      var q := SomeFree(s);
      var k := PlaceReached(p, q);
    }

    lemma ProbeEndsHere(s: seq<int>, p: int, k: int)
      requires Ok() && Good(s) && |s| < n && p >= 0 && 1 <= k <= Distance(s, p, 1)
      ensures Free(s, Place(p, k)) <==> k == Distance(s, p, 1)
    {
      ProbeEnds(s, p);
    }
  }

  /** Stepping to r from p: the residue of the difference leads there. */
  lemma ModBack(p: nat, r: nat, n: nat)
    requires n > 0 && r < n
    ensures (p + (r - p) % n) % n == r
  {
    var d, t := (r - p) % n, (r - p) / n;
    assert r - p == t * n + d;
    MulAtLeast(t, n);
    assert p + d == (-t) * n + r;
    DivModUnique(p + d, -t, r, n);
  }

  lemma AddMod(x: nat, y: nat, n: nat)
    requires n > 0
    ensures (x % n + y) % n == (x + y) % n
  {
    assert x + y == (x / n) * n + (x % n + y);
    ModOfMultiple(x / n, x % n + y, n);
  }

  /** A strictly sorted list shorter than a stretch of integers misses one of them. */
  lemma {:induction false} Missing(s: seq<int>, a: int, n: int) returns (x: int)
    requires Sorted(s) && |s| < n && forall y :: y in s ==> a <= y < a + n
    ensures a <= x < a + n && x !in s
    decreases |s|
  {
    if s == [] {
      x := a + n - 1;
    } else if s[|s| - 1] != a + n - 1 {
      x := a + n - 1;
      LastIsMax(s);
      assert s[|s| - 1] in s;
    } else {
      var front := s[..|s| - 1];
      assert s == front + [a + n - 1];
      forall y | y in front ensures a <= y < a + n - 1 {
        var i :| 0 <= i < |front| && front[i] == y;
        assert s[i] == y && s[i] < s[|s| - 1] && s[i] in s;
      }
      x := Missing(front, a, n - 1);
    }
  }

  lemma LastIsMax(s: seq<int>)
    requires Sorted(s) && s != []
    ensures forall y :: y in s ==> y <= s[|s| - 1]
  {
    forall y | y in s ensures y <= s[|s| - 1] {
      var i :| 0 <= i < |s| && s[i] == y;
      assert i < |s| - 1 ==> s[i] < s[|s| - 1];
    }
  }

  // ---------- the parents as a function of the hash ----------

  /** Node value number j of a block, read at byte offset sh of its four bytes. */
  function Sampled(h: Bytes, n: int, j: nat, sh: nat): (r: int)
    requires n > 0 && |h| == HASH_SIZE && j < 15 && sh < 4
    ensures 0 <= r < n
  {
    BytesToNodeValue(h[j * 4 + sh..(j + 1) * 4 + sh], n)
  }

  /** The next number to try: sampled, or found by probing after four shifts and for the last parent. */
  function Candidate(w: Window, h: Bytes, s: seq<int>, j: nat, sh: nat, p: int): int
    requires w.Ok() && |h| == HASH_SIZE && j < 16 && sh <= 4
  {
    if sh < 4 && j < 15 then w.Lift(Sampled(h, w.n, j, sh) % w.n + w.base)
    else w.Lift(w.Place(p, w.Distance(s, p, 1)))
  }

  /** One block of sixteen parents; a number that is taken shifts the sample by a byte. */
  function Fill(w: Window, h: Bytes, s: seq<int>, j: nat, sh: nat, p: int): seq<int>
    requires w.Ok() && |h| == HASH_SIZE && j <= 16 && sh <= 4
    decreases 16 - j, 4 - sh
  {
    if j == 16 then s
    else
      var x := Candidate(w, h, s, j, sh, p);
      if sh < 4 && j < 15 && x in s then Fill(w, h, s, j, sh + 1, x)
      else Fill(w, h, Insert(s, x), j + 1, 0, x)
  }

  lemma FillStep(w: Window, h: Bytes, s: seq<int>, j: nat, sh: nat, p: int)
    requires w.Ok() && |h| == HASH_SIZE && j < 16 && sh <= 4
    ensures var x := Candidate(w, h, s, j, sh, p);
            Fill(w, h, s, j, sh, p)
            == if sh < 4 && j < 15 && x in s then Fill(w, h, s, j, sh + 1, x) else Fill(w, h, Insert(s, x), j + 1, 0, x)
  {
    hide Candidate;
  }

  /** The bytes hashed for the block that starts at number i. */
  function BlockBytes(id: Bytes, count: int, layer: int, i: int): Bytes {
    id + Int64(count) + Int64(layer) + Concat(seq(16, j => Int64(i + j)))
  }

  function FillAll(e: Expanders, w: Window, hash: Hash, id: Bytes, count: int, layer: int, s: seq<int>,
                   i: int): seq<int>
    requires w.Ok()
    decreases e.D - i
  {
    if i >= e.D then s
    else FillAll(e, w, hash, id, count, layer, Fill(w, hash(BlockBytes(id, count, layer, i)), s, 0, 0, 0), i + 16)
  }

  function WindowOf(e: Expanders, index: int): (w: Window)
    requires e.N > 0 && index >= e.N
    ensures w.Ok() && w.index == index && w.n == e.N
  {
    var layer := index / e.N;
    WindowBase(layer, index, e.N);
    Window(index, e.N, (layer - 1) * e.N)
  }

  lemma WindowBase(layer: int, index: int, n: int)
    requires n > 0 && index >= n && layer == index / n
    ensures layer >= 1
    ensures Window(index, n, (layer - 1) * n).Ok()
  {
    assert index == layer * n + index % n;
    assert layer <= 0 ==> layer * n <= 0;
    assert (layer - 1) * n >= 0;
    ModOfMultiple(layer - 1, 0, n);
  }

  /** c / n as the program computes it: truncated. */
  function LayerIndex(c: int, n: int): int
    requires n > 0
  {
    if c >= 0 then c / n else -(-c / n)
  }

  /** CalcParents, as a function: the parents of node number index. */
  function ParentsOf(e: Expanders, hash: Hash, id: Bytes, count: int, index: int): seq<int>
    requires e.N > 0
  {
    if index < e.N then []
    else FillAll(e, WindowOf(e, index), hash, id, count, index / e.N, [index - e.N], 0)
  }

  lemma LayerOfIndex(index: int, n: int)
    requires n > 0 && index >= n
    ensures index / n >= 1
  {
    var l := index / n;
    assert index == l * n + index % n;
    assert l <= 0 ==> l * n <= 0;
  }

  // ---------- what the parents are like ----------

  lemma InsertGood(w: Window, s: seq<int>, x: int)
    requires w.Good(s) && w.index - w.n <= x < w.index && x !in s
    ensures w.Good(Insert(s, x))
  {
    InsertSorted(s, x);
  }

  /** The number tried lies in the window, and after a probe it is a new one. */
  lemma CandidateFits(w: Window, h: Bytes, s: seq<int>, j: nat, sh: nat, p: int)
    requires w.Ok() && |h| == HASH_SIZE && j < 16 && sh <= 4 && p >= 0
    requires w.Good(s) && |s| < w.n
    ensures var x := Candidate(w, h, s, j, sh, p);
            w.index - w.n <= x < w.index && x >= 0 && (x in s ==> sh < 4 && j < 15)
  {
    if sh < 4 && j < 15 {
      w.LiftNonneg(Sampled(h, w.n, j, sh) % w.n + w.base);
    } else {
      ProbeFree(w, s, p);
      w.LiftNonneg(w.Place(p, w.Distance(s, p, 1)));
    }
  }

  lemma {:induction false} FillGood(w: Window, h: Bytes, s: seq<int>, j: nat, sh: nat, p: int)
    requires w.Ok() && |h| == HASH_SIZE && j <= 16 && sh <= 4 && p >= 0
    requires w.Good(s) && |s| + 16 - j <= w.n
    ensures w.Good(Fill(w, h, s, j, sh, p)) && |Fill(w, h, s, j, sh, p)| == |s| + 16 - j
    decreases 16 - j, 4 - sh
  {
    hide Candidate, Insert, Window.Good, Window.Ok;
    if j < 16 {
      var x := Candidate(w, h, s, j, sh, p);
      CandidateFits(w, h, s, j, sh, p);
      if sh < 4 && j < 15 && x in s {
        FillGood(w, h, s, j, sh + 1, x);
      } else {
        InsertGood(w, s, x);
        FillGood(w, h, Insert(s, x), j + 1, 0, x);
      }
    }
  }

  lemma ProbeFree(w: Window, s: seq<int>, p: int)
    requires w.Ok() && w.Good(s) && |s| < w.n && p >= 0
    ensures var x := w.Lift(w.Place(p, w.Distance(s, p, 1)));
            w.index - w.n <= x < w.index && x !in s
  {
    w.ProbeEnds(s, p);
    w.LiftInWindow(w.Place(p, w.Distance(s, p, 1)));
  }

  /** A whole number of blocks is done. */
  predicate Aligned(i: int, d: int) {
    0 <= i <= d && i % 16 == 0 && d % 16 == 0
  }

  lemma NextBlock(i: int, d: int)
    requires Aligned(i, d)
    ensures i <= d && (i < d ==> Aligned(i + 16, d) && i + 16 <= d)
  {
  }

  lemma FirstBlock(e: Expanders)
    requires e.Ok()
    ensures Aligned(0, e.D) && e.D + 1 <= e.N && e.N > 0
  {
  }

  lemma {:induction false} FillAllGood(e: Expanders, w: Window, hash: Hash, id: Bytes, count: int, layer: int,
                                       s: seq<int>, i: int)
    requires w.Ok() && w.Good(s) && Aligned(i, e.D)
    requires |s| == i + 1 && e.D + 1 <= w.n
    ensures var r := FillAll(e, w, hash, id, count, layer, s, i); w.Good(r) && |r| == e.D + 1
    decreases e.D - i
  {
    hide Fill, BlockBytes, Window.Good, Window.Ok, Aligned;
    NextBlock(i, e.D);
    if i < e.D {
      var h := hash(BlockBytes(id, count, layer, i));
      FillGood(w, h, s, 0, 0, 0);
      FillAllGood(e, w, hash, id, count, layer, Fill(w, h, s, 0, 0, 0), i + 16);
    }
  }

  /** Whatever the hash gives: a node above the lowest layer has exactly D + 1 parents, strictly
      increasing, all among the N nodes just below its number, the node straight below included;
      and no two of them are congruent modulo N. */
  lemma ParentsWellPlaced(e: Expanders, hash: Hash, id: Bytes, count: int, index: int)
    requires e.Ok() && index >= e.N
    ensures var ps := ParentsOf(e, hash, id, count, index);
            && |ps| == e.D + 1 && Sorted(ps) && index - e.N in ps
            && (forall x :: x in ps ==> index - e.N <= x < index)
            && (forall i, j :: 0 <= i < j < |ps| ==> ps[i] % e.N != ps[j] % e.N)
  {
    hide FillAll, BlockBytes, ParentsOf, WindowOf, Aligned, Expanders.Ok;
    FirstBlock(e);
    var w := WindowOf(e, index);
    ParentsStart(e, hash, id, count, index);
    FirstGood(w);
    FillAllGood(e, w, hash, id, count, index / e.N, [index - e.N], 0);
    var ps := ParentsOf(e, hash, id, count, index);
    forall i, j | 0 <= i < j < |ps| ensures ps[i] % e.N != ps[j] % e.N {
      assert ps[i] in ps && ps[j] in ps;
      Incongruent(ps[i], ps[j], e.N);
    }
  }

  lemma Incongruent(x: int, y: int, n: int)
    requires n > 0 && x < y < x + n
    ensures x % n != y % n
  {
    var a, b := x / n, y / n;
    assert x == a * n + x % n && y == b * n + y % n;
    if x % n == y % n {
      assert y - x == (b - a) * n;
      MulAtLeast(b - a, n);
      MulAtLeast(a - b, n);
      assert false;
    }
  }

  // ---------- the order in which the parents are added ----------

  /** The numbers Fill inserts, in order. */
  function FillOrder(w: Window, h: Bytes, s: seq<int>, j: nat, sh: nat, p: int): seq<int>
    requires w.Ok() && |h| == HASH_SIZE && j <= 16 && sh <= 4
    decreases 16 - j, 4 - sh
  {
    if j == 16 then []
    else
      var x := Candidate(w, h, s, j, sh, p);
      if sh < 4 && j < 15 && x in s then FillOrder(w, h, s, j, sh + 1, x)
      else [x] + FillOrder(w, h, Insert(s, x), j + 1, 0, x)
  }

  function FillAllOrder(e: Expanders, w: Window, hash: Hash, id: Bytes, count: int, layer: int, s: seq<int>,
                        i: int): seq<int>
    requires w.Ok()
    decreases e.D - i
  {
    if i >= e.D then []
    else
      var h := hash(BlockBytes(id, count, layer, i));
      FillOrder(w, h, s, 0, 0, 0)
      + FillAllOrder(e, w, hash, id, count, layer, Fill(w, h, s, 0, 0, 0), i + 16)
  }

  /** The order in which CalcParents adds the parents of a node. */
  function OrderOf(e: Expanders, hash: Hash, id: Bytes, count: int, index: int): seq<int>
    requires e.N > 0 && index >= e.N
  {
    [index - e.N] + FillAllOrder(e, WindowOf(e, index), hash, id, count, index / e.N, [index - e.N], 0)
  }

  /** Inserting in this order gives the list; every number lies above the first one. */
  lemma {:induction false} FillInserts(w: Window, h: Bytes, s: seq<int>, j: nat, sh: nat, p: int, done: seq<int>)
    requires w.Ok() && |h| == HASH_SIZE && j <= 16 && sh <= 4 && p >= 0
    requires w.Good(s) && |s| + 16 - j <= w.n && s == InsertAll(done)
    ensures Fill(w, h, s, j, sh, p) == InsertAll(done + FillOrder(w, h, s, j, sh, p))
    ensures Above(w.Low(), FillOrder(w, h, s, j, sh, p))
    decreases 16 - j, 4 - sh
  {
    hide Candidate, Insert, InsertAll, Window.Good, Window.Ok;
    if j == 16 {
      assert done + FillOrder(w, h, s, j, sh, p) == done;
    } else {
      var x := Candidate(w, h, s, j, sh, p);
      CandidateFits(w, h, s, j, sh, p);
      if sh < 4 && j < 15 && x in s {
        FillInserts(w, h, s, j, sh + 1, x, done);
      } else {
        InsertGood(w, s, x);
        InsertAllSnoc(done, x);
        StraightBelow(w, s);
        FillInserts(w, h, Insert(s, x), j + 1, 0, x, done + [x]);
        var rest := FillOrder(w, h, Insert(s, x), j + 1, 0, x);
        assert done + ([x] + rest) == (done + [x]) + rest;
      }
    }
  }

  predicate Above(low: int, xs: seq<int>) {
    forall i :: 0 <= i < |xs| ==> low < xs[i]
  }

  lemma AboveConcat(low: int, xs: seq<int>, ys: seq<int>)
    requires Above(low, xs) && Above(low, ys)
    ensures Above(low, xs + ys)
  {
  }

  lemma AboveNone(low: int)
    ensures Above(low, [])
  {
  }

  lemma ConcatAssociates(xs: seq<int>, ys: seq<int>, zs: seq<int>)
    ensures xs + (ys + zs) == (xs + ys) + zs
  {
  }

  lemma StraightBelow(w: Window, s: seq<int>)
    requires w.Good(s)
    ensures w.index - w.n in s
  {
  }

  lemma {:induction false} FillAllInserts(e: Expanders, w: Window, hash: Hash, id: Bytes, count: int, layer: int,
                                          s: seq<int>, i: int, done: seq<int>)
    requires w.Ok() && w.Good(s) && Aligned(i, e.D)
    requires |s| == i + 1 && e.D + 1 <= w.n && s == InsertAll(done)
    ensures FillAll(e, w, hash, id, count, layer, s, i)
            == InsertAll(done + FillAllOrder(e, w, hash, id, count, layer, s, i))
    ensures Above(w.Low(), FillAllOrder(e, w, hash, id, count, layer, s, i))
    decreases e.D - i
  {
    hide Fill, FillOrder, BlockBytes, InsertAll, Above, Window.Good, Window.Ok, Window.Low, Aligned;
    NextBlock(i, e.D);
    if i >= e.D {
      AboveNone(w.Low());
      assert done + [] == done;
    } else {
      var h := hash(BlockBytes(id, count, layer, i));
      var block, next := FillOrder(w, h, s, 0, 0, 0), Fill(w, h, s, 0, 0, 0);
      BlockInserts(w, h, s, i, done);
      FillAllInserts(e, w, hash, id, count, layer, next, i + 16, done + block);
      var rest := FillAllOrder(e, w, hash, id, count, layer, next, i + 16);
      AboveConcat(w.Low(), block, rest);
      ConcatAssociates(done, block, rest);
    }
  }

  lemma BlockInserts(w: Window, h: Bytes, s: seq<int>, i: int, done: seq<int>)
    requires w.Ok() && |h| == HASH_SIZE && w.Good(s) && |s| == i + 1 && i + 17 <= w.n && s == InsertAll(done)
    ensures var next := Fill(w, h, s, 0, 0, 0);
            w.Good(next) && |next| == i + 16 + 1 && next == InsertAll(done + FillOrder(w, h, s, 0, 0, 0))
    ensures Above(w.Low(), FillOrder(w, h, s, 0, 0, 0))
  {
    hide Fill, FillOrder, InsertAll, Above, Window.Good, Window.Ok;
    FillGood(w, h, s, 0, 0, 0);
    FillInserts(w, h, s, 0, 0, 0, done);
  }

  /** The list of parents is what AddParent makes of the numbers in this order: D + 1 of them, the node
      straight below first, all others above it. */
  lemma ParentsInOrder(e: Expanders, hash: Hash, id: Bytes, count: int, index: int)
    requires e.Ok() && index >= e.N
    ensures var xs := OrderOf(e, hash, id, count, index);
            && ParentsOf(e, hash, id, count, index) == InsertAll(xs)
            && |xs| == e.D + 1 && xs[0] == index - e.N && forall i :: 0 < i < |xs| ==> xs[0] < xs[i]
  {
    hide FillAll, FillAllOrder, BlockBytes, ParentsOf, WindowOf, InsertAll, Aligned, Expanders.Ok;
    FirstBlock(e);
    var w := WindowOf(e, index);
    ParentsStart(e, hash, id, count, index);
    FirstGood(w);
    OneInserted(index - e.N);
    FillAllInserts(e, w, hash, id, count, index / e.N, [index - e.N], 0, [index - e.N]);
    FillAllGood(e, w, hash, id, count, index / e.N, [index - e.N], 0);
  }

  lemma OneInserted(x: int)
    ensures InsertAll([x]) == [x]
  {
    assert [x][..0] == [];
    assert InsertAll([x]) == Insert(InsertAll([]), x) == Insert([], x);
  }

  // ---------- the method ----------

  predicate InInt32(x: int) {
    -0x8000_0000 <= x < 0x8000_0000
  }

  /** CalcParents: the loops compute exactly ParentsOf, they end whatever the hash gives, and no
      NodeType value leaves the int32 range.  Nothing happens in the lowest layer or when the slice
      has not room for exactly D + 1 parents. */
  method CalcParents(e: Expanders, node: Node, id: Bytes, count: int, hash: Hash)
    requires e.Ok() && node.Valid() && -e.N < node.Index && InInt32(node.Index)
    requires node.Parents() == []
    modifies node`len, node.buf
    ensures node.Valid() && node.buf == old(node.buf)
    ensures node.Parents() == if node.Cap() == e.D + 1 then ParentsOf(e, hash, id, count, node.Index) else []
  {
    hide FillAll, Fill, BlockBytes, ParentsOf, WindowOf, Window.Good, Window.Ok, Sorted, LayerIndex, Aligned,
         Expanders.Ok, Insert;
    FirstBlock(e);
    var layer := LayerIndex(node.Index, e.N);
    LowestLayer(node.Index, e.N);
    if layer == 0 || node.Cap() != e.D + 1 {
      NoParentsBelow(e, hash, id, count, node.Index);
      return;
    }
    ParentsStart(e, hash, id, count, node.Index);
    var w := WindowOf(e, node.Index);
    var ok := node.AddParent(node.Index - e.N);
    assert node.Parents() == [node.Index - e.N];
    FirstGood(w);
    FillBlocks(e, w, node, id, count, layer, hash);
  }

  /** The outer loop: one block of sixteen parents after the other. */
  method FillBlocks(e: Expanders, w: Window, node: Node, id: Bytes, count: int, layer: int, hash: Hash)
    requires w.Ok() && node.Valid() && node.Index == w.index && InInt32(w.index) && Aligned(0, e.D)
    requires w.Good(node.Parents()) && |node.Parents()| == 1 && node.Cap() == e.D + 1 <= w.n
    modifies node`len, node.buf
    ensures node.Valid() && node.buf == old(node.buf)
    ensures node.Parents() == FillAll(e, w, hash, id, count, layer, old(node.Parents()), 0)
  {
    hide FillAll, Fill, BlockBytes, Window.Good, Window.Ok, Sorted, Aligned, Insert;
    var i := 0;
    while i < e.D
      invariant node.Valid() && node.buf == old(node.buf)
      invariant Aligned(i, e.D) && |node.Parents()| == i + 1 && w.Good(node.Parents())
      invariant FillAll(e, w, hash, id, count, layer, node.Parents(), i)
                == FillAll(e, w, hash, id, count, layer, old(node.Parents()), 0)
    {
      NextBlock(i, e.D);
      var h := hash(BlockBytes(id, count, layer, i));
      FillAllStep(e, w, hash, id, count, layer, node.Parents(), i);
      FillBlock(w, node, h);
      i := i + 16;
    }
    NextBlock(i, e.D);
    FillAllDone(e, w, hash, id, count, layer, node.Parents(), i);
  }

  lemma LowestLayer(index: int, n: int)
    requires n > 0 && -n < index
    ensures LayerIndex(index, n) == 0 <==> index < n
    ensures index >= n ==> LayerIndex(index, n) == index / n
  {
    if index < 0 {
      DivModUnique(-index, 0, -index, n);
    } else if index < n {
      DivModUnique(index, 0, index, n);
    } else {
      LayerOfIndex(index, n);
    }
  }

  lemma NoParentsBelow(e: Expanders, hash: Hash, id: Bytes, count: int, index: int)
    requires e.N > 0
    ensures index < e.N ==> ParentsOf(e, hash, id, count, index) == []
  {
  }

  lemma ParentsStart(e: Expanders, hash: Hash, id: Bytes, count: int, index: int)
    requires e.N > 0 && index >= e.N
    ensures ParentsOf(e, hash, id, count, index)
            == FillAll(e, WindowOf(e, index), hash, id, count, index / e.N, [index - e.N], 0)
  {
  }

  lemma FirstGood(w: Window)
    requires w.Ok()
    ensures w.Good([w.index - w.n])
  {
  }

  lemma FillAllStep(e: Expanders, w: Window, hash: Hash, id: Bytes, count: int, layer: int, s: seq<int>, i: int)
    requires w.Ok() && i < e.D
    ensures FillAll(e, w, hash, id, count, layer, s, i)
            == FillAll(e, w, hash, id, count, layer, Fill(w, hash(BlockBytes(id, count, layer, i)), s, 0, 0, 0), i + 16)
  {
  }

  lemma FillAllDone(e: Expanders, w: Window, hash: Hash, id: Bytes, count: int, layer: int, s: seq<int>, i: int)
    requires w.Ok() && i >= e.D
    ensures FillAll(e, w, hash, id, count, layer, s, i) == s
  {
  }

  /** The inner loop: sixteen more parents from one hash. */
  method FillBlock(w: Window, node: Node, h: Bytes)
    requires w.Ok() && |h| == HASH_SIZE && node.Valid() && node.Index == w.index && InInt32(w.index)
    requires w.Good(node.Parents()) && |node.Parents()| + 16 <= node.Cap() <= w.n
    modifies node`len, node.buf
    ensures node.Valid() && node.buf == old(node.buf)
    ensures node.Parents() == Fill(w, h, old(node.Parents()), 0, 0, 0)
    ensures w.Good(node.Parents()) && |node.Parents()| == |old(node.Parents())| + 16
  {
    hide Fill, Insert, Candidate, Window.Ok, Window.Good, Sorted;
    ghost var goal := Fill(w, h, node.Parents(), 0, 0, 0);
    w.PlaceBelow(0, 0);
    FillGood(w, h, node.Parents(), 0, 0, 0);
    var s, p, j := 0, 0, 0;
    while j < 16
      invariant node.Valid() && node.buf == old(node.buf)
      invariant 0 <= j <= 16 && 0 <= s <= 4 && 0 <= p < w.index
      invariant w.Good(node.Parents()) && |node.Parents()| == |old(node.Parents())| + j
      invariant Fill(w, h, node.Parents(), j, s, p) == goal
      decreases 16 - j, 4 - s
    {
      ghost var parents := node.Parents();
      FillStep(w, h, parents, j, s, p);
      CandidateFits(w, h, parents, j, s, p);
      p := NextCandidate(w, node, h, j, s, p);
      if !(s < 4 && j < 15) {
        s := 0;
      }
      var ok := node.AddParent(p);
      if ok {
        InsertGood(w, parents, p);
        j := j + 1;
        s := 0;
        continue;
      }
      s := s + 1;
    }
    FillDone(w, h, node.Parents(), s, p);
  }

  /** The number to try next. */
  method NextCandidate(w: Window, node: Node, h: Bytes, j: nat, s: nat, p: int) returns (x: int)
    requires w.Ok() && |h| == HASH_SIZE && node.Valid() && node.Index == w.index && InInt32(w.index)
    requires j < 16 && s <= 4 && 0 <= p < w.index && w.Good(node.Parents()) && |node.Parents()| < w.n
    ensures x == Candidate(w, h, node.Parents(), j, s, p)
  {
    hide BytesToNodeValue, Window.Place, Window.Distance, Window.Good, Sorted;
    if s < 4 && j < 15 {
      x := BytesToNodeValue(h[j * 4 + s..(j + 1) * 4 + s], w.n);
      x := x % w.n + w.base;
    } else {
      x := Probe(w, node, p);
    }
    if x < w.index - w.n {
      assert InInt32(x + w.n);
      x := x + w.n;
    }
  }

  lemma FillDone(w: Window, h: Bytes, s: seq<int>, sh: nat, p: int)
    requires w.Ok() && |h| == HASH_SIZE && sh <= 4
    ensures Fill(w, h, s, 16, sh, p) == s
  {
  }

  /** The innermost loop: on around the layer below until a place is free. */
  method Probe(w: Window, node: Node, start: int) returns (p: int)
    requires w.Ok() && node.Valid() && node.Index == w.index && InInt32(w.index)
    requires 0 <= start < w.index
    requires w.Good(node.Parents()) && |node.Parents()| < w.n
    ensures p == w.Place(start, w.Distance(node.Parents(), start, 1)) && w.Free(node.Parents(), p)
  {
    hide Window.Distance, Window.Place, Window.Good, Window.Ok, Sorted;
    ghost var parents := node.Parents();
    w.ProbeEnds(parents, start);
    StraightBelow(w, parents);
    p := start;
    ghost var k := 0;
    while true
      invariant 0 <= k < w.Distance(parents, start, 1)
      invariant p == if k == 0 then start else w.Place(start, k)
      invariant 0 <= p < w.index
      decreases w.n - k
    {
      w.PlaceStep(start, p, k);
      assert InInt32(p + 1);
      p := (p + 1) % w.n + w.base;
      k := k + 1;
      w.ProbeEndsHere(parents, start, k);
      w.PlaceBelow(start, k);
      if p <= w.index - w.n {
        assert InInt32(p + w.n);
        var i, found := node.ParentInList(p + w.n);
        if !found && p != w.index - w.n {
          break;
        }
      } else {
        var i, found := node.ParentInList(p);
        if !found {
          break;
        }
      }
    }
  }
}
