/** Generating an idle file (expanders/generate_idle_file.go): the labels of a stacked expander
    graph, layer by layer, in two buffers that change places, and the roots over the layers. */
module IdleFile {
  import opened ByteStrings
  import opened Buffers
  import opened Hashing
  import opened Division
  import opened ExpanderNode
  import opened CalcParents
  import opened LightMerkle
  import RelationalMap

  /** One idle file of one miner: everything its contents depend on. */
  datatype FileId = FileId(e: Expanders, hash: Hash, id: Bytes, count: int) {
    predicate Ok() {
      e.Ok()
    }

    /** The number of nodes. */
    function Total(): int {
      (e.K + 1) * e.N
    }

    function Parents(index: int): seq<int>
      requires Ok()
    {
      ParentsOf(e, hash, id, count, index)
    }

    /** Miner, file number and node number: what the hashed bytes begin with. */
    function Front(index: int): (b: Bytes)
      ensures |b| == FrontSize()
    {
      id + Int64(count) + Int32(index)
    }

    function FrontSize(): nat {
      |id| + 12
    }

    function TailSize(): nat
      requires Ok()
    {
      (e.D + 1) * HASH_SIZE
    }

    lemma ParentsInRange(index: int)
      requires Ok() && index >= e.N
      ensures |Parents(index)| == e.D + 1
      ensures forall i :: 0 <= i < |Parents(index)| ==> index - e.N <= Parents(index)[i] < index
    {
      hide ParentsOf;
      ParentsWellPlaced(e, hash, id, count, index);
      var ps := Parents(index);
      forall i | 0 <= i < |ps| ensures index - e.N <= ps[i] < index {
        assert ps[i] in ps;
      }
    }

    /** The label of a node, by definition: the hash of its front and its parents' labels in order;
        nodes of the lowest layer have zeros in place of labels. */
    function Label(index: int): (b: Bytes)
      requires Ok() && index >= 0
      ensures |b| == HASH_SIZE
      decreases index, 2
    {
      Digest(hash, Front(index) + Tail(index))
    }

    function Tail(index: int): Bytes
      requires Ok() && index >= 0
      decreases index, 1
    {
      if index < e.N then Zeros(TailSize()) else Concat(ParentLabels(index))
    }

    function ParentLabels(index: int): (s: seq<Bytes>)
      requires Ok() && index >= e.N
      ensures |s| == e.D + 1 && forall m :: 0 <= m < |s| ==> |s[m]| == HASH_SIZE
      decreases index, 0
    {
      ParentsInRange(index);
      var ps := Parents(index);
      seq(|ps|, i requires 0 <= i < |ps| => Label(ps[i]))
    }

    lemma ParentLabelAt(index: int, m: nat)
      requires Ok() && index >= e.N && m <= e.D
      ensures |Parents(index)| == e.D + 1 && 0 <= Parents(index)[m] < index
      ensures ParentLabels(index)[m] == Label(Parents(index)[m])
    {
      ParentsInRange(index);
    }

    /** Node j of layer l */
    function Number(l: nat, j: nat): nat
      requires e.N > 0
    {
      NonNeg(l, e.N);
      l * e.N + j
    }

    function LayerLabels(l: nat): (s: seq<Bytes>)
      requires Ok()
      ensures |s| == e.N
      ensures forall j :: 0 <= j < e.N ==> s[j] == Label(Number(l, j))
    {
      seq(e.N, j requires 0 <= j < e.N => Label(Number(l, j)))
    }

    /** The Merkle root over the labels of a layer. */
    function LayerRoot(l: nat, d: nat): Bytes
      requires Ok() && e.N == Pow2(d)
    {
      MerkleRoot(hash, Hashed(hash, LayerLabels(l)), d)
    }

    function LayerRoots(n: nat, d: nat): (s: seq<Bytes>)
      requires Ok() && e.N == Pow2(d)
      ensures |s| == n
    {
      seq(n, l requires 0 <= l < n => LayerRoot(l, d))
    }

    function Layers(n: nat): (s: seq<seq<Bytes>>)
      requires Ok()
      ensures |s| == n
    {
      seq(n, l requires 0 <= l < n => LayerLabels(l))
    }

    /** The commitment: one root per layer, and the hash of all of them. */
    function Roots(d: nat): (s: seq<Bytes>)
      requires Ok() && e.N == Pow2(d)
      ensures |s| == e.K + 2
    {
      var rs := LayerRoots(e.K + 1, d);
      rs + [Digest(hash, Concat(rs))]
    }
  }

  lemma NonNeg(l: nat, n: nat)
    ensures l * n >= 0
  {
  }

  /** The parent with number p of node j of layer i: where its label stands. */
  lemma ParentPlace(f: FileId, i: nat, j: nat, p: int)
    requires f.e.N > 0 && i >= 1 && j < f.e.N && f.Number(i, j) - f.e.N <= p < f.Number(i, j)
    ensures p >= 0 && 0 <= p % f.e.N < f.e.N
    ensures p < i * f.e.N ==> p == f.Number(i - 1, p % f.e.N)
    ensures p >= i * f.e.N ==> p == f.Number(i, p % f.e.N) && p % f.e.N < j
  {
    var n := f.e.N;
    assert (i - 1) * n == i * n - n && (i - 1) * n >= 0;
    if p < i * n {
      DivModUnique(p, i - 1, p - (i - 1) * n, n);
    } else {
      DivModUnique(p, i, p - i * n, n);
    }
  }

  lemma NumberLayer(f: FileId, i: nat, j: nat)
    requires f.e.N > 0 && j < f.e.N
    ensures f.Number(i, j) < f.e.N <==> i == 0
    ensures i <= f.e.K ==> f.Number(i, j) < (f.e.K + 1) * f.e.N
  {
    var n := f.e.N;
    assert i >= 1 ==> (i - 1) * n >= 0 && i * n == (i - 1) * n + n;
    assert i <= f.e.K ==> (f.e.K - i) * n >= 0 && (f.e.K + 1) * n == (f.e.K - i) * n + i * n + n;
  }

  /** The two label buffers while layer i is computed up to node j. */
  ghost predicate LabelsSoFar(f: FileId, i: nat, j: nat, parents: seq<Bytes>, labels: seq<Bytes>)
    requires f.Ok()
  {
    && |parents| == |labels| == f.e.N && j <= f.e.N
    && (i > 0 ==> parents == f.LayerLabels(i - 1))
    && forall k :: 0 <= k < j ==> labels[k] == f.Label(f.Number(i, k))
  }

  /** Every parent's label is already there, and not overwritten yet, in the buffer it is read from. */
  lemma ParentLabelFound(f: FileId, i: nat, j: nat, parents: seq<Bytes>, labels: seq<Bytes>, m: nat)
    requires f.Ok() && i >= 1 && j < f.e.N && m <= f.e.D && LabelsSoFar(f, i, j, parents, labels)
    ensures f.Number(i, j) >= f.e.N && |f.Parents(f.Number(i, j))| == f.e.D + 1 && |parents| == |labels| == f.e.N
    ensures var p := f.Parents(f.Number(i, j))[m];
            && 0 <= p % f.e.N < f.e.N
            && (if p < i * f.e.N then parents[p % f.e.N] else labels[p % f.e.N]) == f.ParentLabels(f.Number(i, j))[m]
  {
    hide FileId.Label, FileId.Parents, FileId.Number, FileId.ParentLabels;
    NumberLayer(f, i, j);
    f.ParentLabelAt(f.Number(i, j), m);
    f.ParentsInRange(f.Number(i, j));
    ParentPlace(f, i, j, f.Parents(f.Number(i, j))[m]);
  }

  // ---------- the nodes ----------

  /** One of the producer's two buffers, with room for D + 1 parents. */
  ghost predicate Ready(node: Node, e: Expanders)
    reads node, node.buf
  {
    node.Valid() && node.Cap() == e.D + 1
  }

  /** What the producer does for node j of layer l, in buffer j % 2: the node that is sent. */
  method NextNode(f: FileId, even: Node, odd: Node, l: nat, j: nat) returns (index: int, parents: seq<int>)
    requires f.Ok() && Ready(even, f.e) && Ready(odd, f.e) && even != odd && even.buf != odd.buf
    requires l <= f.e.K && j < f.e.N
    modifies even`Index, even`len, even.buf, odd`Index, odd`len, odd.buf
    ensures Ready(even, f.e) && Ready(odd, f.e) && even.buf == old(even.buf) && odd.buf == old(odd.buf)
    ensures index == f.Number(l, j) && parents == f.Parents(index)
  {
    hide ParentsOf;
    var node := if j % 2 == 0 then even else odd;
    NumberLayer(f, l, j);
    index := j + f.e.N * l;
    node.Index := index;
    node.len := 0;
    CalcParents.CalcParents(f.e, node, f.id, f.count, f.hash);
    parents := node.Parents();
  }

  /** The graph as the producer goroutine sees it. */
  ghost function GraphOf(f: FileId): (g: RelationalMap.Graph)
    requires f.Ok()
    ensures g.Ok() && g.K == f.e.K && g.N == f.e.N && g.room == f.e.D + 1
  {
    var g := RelationalMap.Graph(f.e.K, f.e.N, f.e.D + 1, (i: nat) => AddingOrder(f, i));
    GraphOk(f, g);
    g
  }

  function AddingOrder(f: FileId, i: int): seq<int> {
    if f.e.N > 0 && i >= f.e.N then OrderOf(f.e, f.hash, f.id, f.count, i) else []
  }

  lemma GraphOk(f: FileId, g: RelationalMap.Graph)
    requires f.Ok() && g.N == f.e.N && g.room == f.e.D + 1 && forall i: nat :: g.order(i) == AddingOrder(f, i)
    ensures g.Ok()
  {
    hide ParentsOf, OrderOf;
    forall i | f.e.N <= i < g.Total() ensures g.OrderOk(i, g.order(i)) {
      ParentsInOrder(f.e, f.hash, f.id, f.count, i);
    }
  }

  /** AddParent calls in this order make the parents of the node. */
  lemma GraphParents(f: FileId, i: nat)
    requires f.Ok() && i >= f.e.N
    ensures GraphOf(f).Parents(i) == f.Parents(i)
  {
    hide ParentsOf, OrderOf, InsertAll, RelationalMap.Graph.Ok;
    ParentsInOrder(f.e, f.hash, f.id, f.count, i);
  }

  /** The node the consumer holds has its parents. */
  ghost predicate SentWell(f: FileId, s: RelationalMap.State)
    requires f.Ok()
  {
    && s.Shape(GraphOf(f))
    && (s.using.Some? && s.using.value >= f.e.N ==>
          s.arrays[(s.using.value % f.e.N) % RelationalMap.BUFF_SIZE] == f.Parents(s.using.value))
  }

  /** With an even number of nodes in a layer, every run of the producer and the consumer hands over the
      nodes in order, and the parents the consumer reads are those of its node. */
  lemma NodesAsSent(f: FileId, states: seq<RelationalMap.State>, steps: seq<RelationalMap.Step>, n: nat)
    requires f.Ok() && f.e.N % 2 == 0 && n < |states|
    requires RelationalMap.Run(GraphOf(f), states, steps)
    ensures RelationalMap.InOrder(states[n]) && SentWell(f, states[n])
  {
    hide FileId.Parents, RelationalMap.Run, GraphOf, RelationalMap.Graph.Parents, RelationalMap.Graph.Ok,
         RelationalMap.State.Shape, RelationalMap.InOrder;
    RelationalMap.RunShape(GraphOf(f), states, steps);
    RelationalMap.ConsumerSafe(GraphOf(f), states, steps, n);
    if states[n].using.Some? && states[n].using.value >= f.e.N {
      LayerOfIndex(states[n].using.value, f.e.N);
      GraphParents(f, states[n].using.value);
    }
  }

  /** The program's graphs have a power of two nodes in a layer. */
  lemma EvenLayers(f: FileId, d: nat)
    requires f.Ok() && f.e.N == Pow2(d)
    ensures f.e.N % 2 == 0
  {
    TwoLeavesAtLeast(f, d);
  }

  /** For the graph of a file: whatever the hash gave, the parents that GenerateIdleFile reads are safe
      from the producer if and only if N is even or there are no two layers with parents; they are
      when N is a power of two. */
  lemma SentIntact(f: FileId, d: nat)
    requires f.Ok()
    ensures RelationalMap.AlwaysIntact(GraphOf(f)) <==> f.e.N % 2 == 0 || f.e.K <= 1
    ensures f.e.N == Pow2(d) ==> RelationalMap.AlwaysIntact(GraphOf(f))
  {
    hide GraphOf, RelationalMap.AlwaysIntact, Pow2;
    RelationalMap.SafeIffAlternates(GraphOf(f));
    if f.e.N == Pow2(d) {
      EvenLayers(f, d);
    }
  }

  // ---------- the loops ----------

  /** The reused byte buffer behind the front: zeros in the lowest layer, anything above it. */
  ghost predicate TailReady(f: FileId, i: nat, content: seq<byte>)
    requires f.Ok()
  {
    |content| == f.FrontSize() + f.TailSize() && (i == 0 ==> content[f.FrontSize()..] == Zeros(f.TailSize()))
  }

  lemma FrontConcat(f: FileId, index: int)
    ensures Concat([f.id, Int64(f.count), Int32(index)]) == f.Front(index)
  {
    var a, b, c := f.id, Int64(f.count), Int32(index);
    assert [c][1..] == [] && [b, c][1..] == [c] && [a, b, c][1..] == [b, c];
    assert Concat([c]) == c + Concat([]) == c;
    assert Concat([b, c]) == b + c;
    assert Concat([a, b, c]) == a + (b + c) == a + b + c;
  }

  lemma PrefixSize(s: seq<Bytes>, m: nat, width: nat)
    requires m <= |s| && forall i :: 0 <= i < |s| ==> |s[i]| == width
    ensures |Concat(s[..m])| == m * width
    ensures m < |s| ==> Concat(s[..m + 1]) == Concat(s[..m]) + s[m]
  {
    ConcatLength(s[..m], width);
    if m < |s| {
      assert s[..m + 1] == s[..m] + [s[m]];
      ConcatSnoc(s[..m], s[m]);
    }
  }

  /** The body of the loop over the parents: which buffer holds the label of parent p, and where. */
  method PutLabel(f: FileId, i: nat, p: int, ghost piece: Bytes, content: array<byte>, at: nat, parents: seq<Bytes>,
                  labels: seq<Bytes>)
    requires f.e.N > 0 && |parents| == |labels| == f.e.N && at + |piece| <= content.Length
    requires (if p < i * f.e.N then parents[p % f.e.N] else labels[p % f.e.N]) == piece
    modifies content
    ensures content[..] == old(content[..])[..at] + piece + old(content[..])[at + |piece|..]
  {
    var idx := p % f.e.N;
    if p < i * f.e.N {
      Put(content, at, parents[idx]);
    } else {
      Put(content, at, labels[idx]);
    }
  }

  /** The loop over the parents: their labels, one after the other, behind the front. */
  method WriteTail(f: FileId, i: nat, j: nat, index: int, nodeParents: seq<int>, content: array<byte>,
                   parents: seq<Bytes>, labels: seq<Bytes>)
    requires f.Ok() && i >= 1 && j < f.e.N && index == f.Number(i, j) >= f.e.N && nodeParents == f.Parents(index)
    requires LabelsSoFar(f, i, j, parents, labels) && content.Length == f.FrontSize() + f.TailSize()
    modifies content
    ensures content[..] == old(content[..f.FrontSize()]) + Concat(f.ParentLabels(index))
  {
    hide FileId.Label, FileId.Parents, FileId.ParentLabels, FileId.Number, LabelsSoFar, Concat, Expanders.Ok;
    f.ParentsInRange(index);
    ghost var pieces, start := f.ParentLabels(index), content[..f.FrontSize()];
    var bytesCount: nat := f.FrontSize();
    PrefixSize(pieces, 0, HASH_SIZE);
    for m := 0 to |nodeParents|
      invariant TailWritten(f, start, pieces, m, bytesCount, content[..])
    {
      ParentLabelFound(f, i, j, parents, labels, m);
      TailGrows(f, start, pieces, m, bytesCount, content[..]);
      PutLabel(f, i, nodeParents[m], pieces[m], content, bytesCount, parents, labels);
      bytesCount := bytesCount + HASH_SIZE;
    }
    assert pieces[..|nodeParents|] == pieces && content[..] == content[..bytesCount];
  }

  /** The first m labels stand behind the front. */
  ghost predicate TailWritten(f: FileId, start: Bytes, pieces: seq<Bytes>, m: nat, at: nat, content: Bytes) {
    && m <= |pieces| && at == f.FrontSize() + m * HASH_SIZE <= |content|
    && content[..at] == start + Concat(pieces[..m])
  }

  lemma TailGrows(f: FileId, start: Bytes, pieces: seq<Bytes>, m: nat, at: nat, content: Bytes)
    requires TailWritten(f, start, pieces, m, at, content) && m < |pieces| && |start| == f.FrontSize()
    requires (forall i :: 0 <= i < |pieces| ==> |pieces[i]| == HASH_SIZE)
    requires f.FrontSize() + |pieces| * HASH_SIZE <= |content|
    ensures at + HASH_SIZE <= |content|
    ensures TailWritten(f, start, pieces, m + 1, at + HASH_SIZE,
                        content[..at] + pieces[m] + content[at + |pieces[m]|..])
  {
    hide Concat;
    PrefixSize(pieces, m, HASH_SIZE);
    Extend(content, content[..at] + pieces[m] + content[at + |pieces[m]|..], at, start, Concat(pieces[..m]), pieces[m]);
  }

  lemma Extend(before: seq<byte>, after: seq<byte>, at: nat, start: Bytes, done: Bytes, piece: Bytes)
    requires at + |piece| <= |before| && before[..at] == start + done
    requires after == before[..at] + piece + before[at + |piece|..]
    ensures after[..at + |piece|] == start + (done + piece)
  {
  }

  /** The bytes to hash for node j of layer i.  Whatever the buffer held before, it ends up as front
      and tail, with no stale byte. */
  method WriteLabel(f: FileId, i: nat, j: nat, index: int, nodeParents: seq<int>, content: array<byte>,
                    parents: seq<Bytes>, labels: seq<Bytes>)
    requires f.Ok() && j < f.e.N && index == f.Number(i, j) && nodeParents == f.Parents(index)
    requires LabelsSoFar(f, i, j, parents, labels) && TailReady(f, i, content[..])
    modifies content
    ensures content[..] == f.Front(index) + f.Tail(index)
    ensures TailReady(f, i, content[..])
  {
    hide FileId.Label, FileId.Parents, FileId.ParentLabels, FileId.Front, FileId.Number, LabelsSoFar, Concat,
         Expanders.Ok;
    FrontConcat(f, index);
    NumberLayer(f, i, j);
    CopyData(content, [f.id, Int64(f.count), Int32(index)]);
    if i > 0 {
      WriteTail(f, i, j, index, nodeParents, content, parents, labels);
    }
  }

  lemma LabelsStart(f: FileId, i: nat, parents: seq<Bytes>, labels: seq<Bytes>)
    requires f.Ok() && |parents| == |labels| == f.e.N && (i > 0 ==> parents == f.LayerLabels(i - 1))
    ensures LabelsSoFar(f, i, 0, parents, labels)
  {
  }

  lemma LabelStored(f: FileId, i: nat, j: nat, parents: seq<Bytes>, labels: seq<Bytes>, labels': seq<Bytes>)
    requires f.Ok() && LabelsSoFar(f, i, j, parents, labels) && j < f.e.N
    requires labels' == labels[j := f.Label(f.Number(i, j))]
    ensures LabelsSoFar(f, i, j + 1, parents, labels')
  {
  }

  lemma LabelIsDigest(f: FileId, index: int)
    requires f.Ok() && index >= 0
    ensures Digest(f.hash, f.Front(index) + f.Tail(index)) == f.Label(index)
  {
  }

  /** The labels of all parents of a node, in order. */
  predicate AreParentLabels(f: FileId, index: int, ls: seq<Bytes>)
    requires f.Ok() && index >= f.e.N
  {
    var ps := f.Parents(index);
    |ls| == |ps| == f.e.D + 1 && forall m :: 0 <= m < |ls| ==> 0 <= ps[m] < index && ls[m] == f.Label(ps[m])
  }

  /** A label is the hash of miner, file number, node number, and zeros or the labels of the parents. */
  lemma LabelMeans(f: FileId, index: int) returns (ls: seq<Bytes>)
    requires f.Ok() && index >= 0
    ensures index >= f.e.N ==> AreParentLabels(f, index, ls)
    ensures f.Label(index)
            == Digest(f.hash, f.id + Int64(f.count) + Int32(index)
                              + if index < f.e.N then Zeros((f.e.D + 1) * HASH_SIZE) else Concat(ls))
  {
    hide FileId.Parents, FileId.Label, FileId.ParentLabels, Digest, Concat, Expanders.Ok;
    LabelIsDigest(f, index);
    ls := [];
    if index >= f.e.N {
      ls := f.ParentLabels(index);
      f.ParentsInRange(index);
      forall m | 0 <= m < |ls| ensures 0 <= f.Parents(index)[m] < index && ls[m] == f.Label(f.Parents(index)[m]) {
        f.ParentLabelAt(index, m);
      }
    }
  }

  lemma LabelsDone(f: FileId, i: nat, parents: seq<Bytes>, labels: seq<Bytes>)
    requires f.Ok() && LabelsSoFar(f, i, f.e.N, parents, labels)
    ensures labels == f.LayerLabels(i)
  {
  }

  /** The body of the node loop: receive node j of layer i, hash its bytes, store its label. */
  method MakeLabel(f: FileId, i: nat, j: nat, even: Node, odd: Node, content: array<byte>, parents: array<Bytes>,
                   labels: array<Bytes>)
    requires f.Ok() && i <= f.e.K && j < f.e.N && parents != labels && labels.Length == f.e.N
    requires Ready(even, f.e) && Ready(odd, f.e) && even != odd && even.buf != odd.buf
    requires LabelsSoFar(f, i, j, parents[..], labels[..]) && TailReady(f, i, content[..])
    modifies even`Index, even`len, even.buf, odd`Index, odd`len, odd.buf, content, labels
    ensures Ready(even, f.e) && Ready(odd, f.e) && even.buf == old(even.buf) && odd.buf == old(odd.buf)
    ensures labels[..] == old(labels[..])[j := f.Label(f.Number(i, j))] && TailReady(f, i, content[..])
  {
    hide FileId.Label, FileId.Parents, FileId.Front, FileId.Tail, FileId.Number, FileId.TailSize, LabelsSoFar,
         TailReady, Digest, Ready, Expanders.Ok;
    var index, nodeParents := NextNode(f, even, odd, i, j);
    assert labels[..] == old(labels[..]) && parents[..] == old(parents[..]);
    WriteLabel(f, i, j, index, nodeParents, content, parents[..], labels[..]);
    LabelIsDigest(f, index);
    labels[j] := Digest(f.hash, content[..]);
  }

  /** One round of the layer loop: all labels of layer i, from those of the layer below. */
  method FillLayer(f: FileId, i: nat, even: Node, odd: Node, content: array<byte>, parents: array<Bytes>,
                   labels: array<Bytes>)
    requires f.Ok() && i <= f.e.K && parents != labels && parents.Length == labels.Length == f.e.N
    requires Ready(even, f.e) && Ready(odd, f.e) && even != odd && even.buf != odd.buf
    requires (i > 0 ==> parents[..] == f.LayerLabels(i - 1)) && TailReady(f, i, content[..])
    modifies even`Index, even`len, even.buf, odd`Index, odd`len, odd.buf, content, labels
    ensures Ready(even, f.e) && Ready(odd, f.e) && even.buf == old(even.buf) && odd.buf == old(odd.buf)
    ensures labels[..] == f.LayerLabels(i) && TailReady(f, i, content[..])
  {
    hide FileId.Label, FileId.Number, FileId.LayerLabels, LabelsSoFar, TailReady, Ready, Expanders.Ok;
    ghost var below := parents[..];
    LabelsStart(f, i, below, labels[..]);
    for j := 0 to f.e.N
      invariant Ready(even, f.e) && Ready(odd, f.e) && even.buf == old(even.buf) && odd.buf == old(odd.buf)
      invariant parents[..] == below && LabelsSoFar(f, i, j, below, labels[..]) && TailReady(f, i, content[..])
    {
      ghost var before := labels[..];
      MakeLabel(f, i, j, even, odd, content, parents, labels);
      LabelStored(f, i, j, below, before, labels[..]);
    }
    LabelsDone(f, i, below, labels[..]);
  }

  lemma TailKept(f: FileId, i: nat, content: seq<byte>)
    requires f.Ok() && TailReady(f, i, content)
    ensures TailReady(f, i + 1, content)
  {
  }

  lemma FreshTail(f: FileId, content: seq<byte>)
    requires f.Ok() && content == Zeros(f.FrontSize() + f.TailSize())
    ensures TailReady(f, 0, content)
  {
  }

  lemma TwoLeavesAtLeast(f: FileId, d: nat)
    requires f.Ok() && f.e.N == Pow2(d)
    ensures d >= 1 && f.e.K >= 0
  {
  }

  /** The Merkle root of a layer, from the tree built in place. */
  method RootOfLayer(f: FileId, l: nat, labels: seq<Bytes>, ghost d: nat) returns (root: Bytes)
    requires f.Ok() && f.e.N == Pow2(d) && labels == f.LayerLabels(l)
    ensures root == f.LayerRoot(l, d)
  {
    hide FileId.LayerLabels, HoldsLevels, Hashed, MerkleRoot;
    TwoLeavesAtLeast(f, d);
    var mht := CalcLightMhtWithBytes(f.hash, labels, d);
    root := GetRoot(mht, f.hash, Hashed(f.hash, labels), d);
  }

  lemma NoLayers(f: FileId, d: nat)
    requires f.Ok() && f.e.N == Pow2(d)
    ensures f.Layers(0) == [] && f.LayerRoots(0, d) == []
  {
  }

  lemma LayersSnoc(f: FileId, i: nat, d: nat)
    requires f.Ok() && f.e.N == Pow2(d)
    ensures f.Layers(i + 1) == f.Layers(i) + [f.LayerLabels(i)]
    ensures f.LayerRoots(i + 1, d) == f.LayerRoots(i, d) + [f.LayerRoot(i, d)]
  {
    hide FileId.LayerLabels, FileId.LayerRoot;
  }

  lemma RootsAre(f: FileId, d: nat)
    requires f.Ok() && f.e.N == Pow2(d)
    ensures var rs := f.LayerRoots(f.e.K + 1, d);
            f.Roots(d) == rs + [Digest(f.hash, Concat(rs))]
  {
  }

  /** The layer loop's body: labels and root of layer i. */
  method MakeLayer(f: FileId, i: nat, even: Node, odd: Node, content: array<byte>, parents: array<Bytes>,
                   labels: array<Bytes>, ghost d: nat)
    returns (root: Bytes)
    requires f.Ok() && f.e.N == Pow2(d) && i <= f.e.K && parents != labels && parents.Length == labels.Length == f.e.N
    requires Ready(even, f.e) && Ready(odd, f.e) && even != odd && even.buf != odd.buf
    requires (i > 0 ==> parents[..] == f.LayerLabels(i - 1)) && TailReady(f, i, content[..])
    modifies even`Index, even`len, even.buf, odd`Index, odd`len, odd.buf, content, labels
    ensures Ready(even, f.e) && Ready(odd, f.e) && even.buf == old(even.buf) && odd.buf == old(odd.buf)
    ensures labels[..] == f.LayerLabels(i) && TailReady(f, i + 1, content[..]) && root == f.LayerRoot(i, d)
  {
    hide FileId.LayerLabels, FileId.LayerRoot, TailReady, Ready, Expanders.Ok, Pow2;
    FillLayer(f, i, even, odd, content, parents, labels);
    TailKept(f, i, content[..]);
    root := RootOfLayer(f, i, labels[..], d);
  }

  /** The layer loop. */
  method MakeLayers(f: FileId, even: Node, odd: Node, content: array<byte>, first: array<Bytes>, second: array<Bytes>,
                    ghost d: nat)
    returns (layers: seq<seq<Bytes>>, roots: seq<Bytes>)
    requires f.Ok() && f.e.N == Pow2(d) && first != second && first.Length == second.Length == f.e.N
    requires Ready(even, f.e) && Ready(odd, f.e) && even != odd && even.buf != odd.buf
    requires TailReady(f, 0, content[..])
    modifies even`Index, even`len, even.buf, odd`Index, odd`len, odd.buf, content, first, second
    ensures f.e.K >= 0 && layers == f.Layers(f.e.K + 1) && roots == f.LayerRoots(f.e.K + 1, d)
  {
    hide FileId.LayerLabels, FileId.LayerRoot, FileId.Layers, FileId.LayerRoots, TailReady, Ready, Expanders.Ok, Pow2;
    TwoLeavesAtLeast(f, d);
    NoLayers(f, d);
    var parents, labels := first, second;
    layers, roots := [], [];
    for i := 0 to f.e.K + 1
      invariant (parents == first && labels == second) || (parents == second && labels == first)
      invariant Ready(even, f.e) && Ready(odd, f.e) && even.buf == old(even.buf) && odd.buf == old(odd.buf)
      invariant i > 0 ==> parents[..] == f.LayerLabels(i - 1)
      invariant TailReady(f, i, content[..])
      invariant layers == f.Layers(i) && roots == f.LayerRoots(i, d)
    {
      var root := MakeLayer(f, i, even, odd, content, parents, labels, d);
      roots := roots + [root];
      layers := layers + [labels[..]];
      parents, labels := labels, parents;
      LayersSnoc(f, i, d);
    }
  }

  /** GenerateIdleFile: the label files, layer by layer, and the commitment.  The two buffers come
      from a pool with any contents. */
  method GenerateIdleFile(f: FileId, first: array<Bytes>, second: array<Bytes>, ghost d: nat)
    returns (layers: seq<seq<Bytes>>, roots: seq<Bytes>)
    requires f.Ok() && f.e.N == Pow2(d) && first != second && first.Length == second.Length == f.e.N
    modifies first, second
    ensures f.e.K >= 0 && layers == f.Layers(f.e.K + 1)
    ensures roots == f.Roots(d)
  {
    hide FileId.Layers, FileId.LayerRoots, FileId.Roots, TailReady, Digest, Concat;
    var even := NewBuffer(f.e);
    var odd := NewBuffer(f.e);
    var content := new byte[f.FrontSize() + f.TailSize()](_ => 0);
    assert content[..] == Zeros(f.FrontSize() + f.TailSize());
    FreshTail(f, content[..]);
    layers, roots := MakeLayers(f, even, odd, content, first, second, d);
    roots := roots + [Digest(f.hash, Concat(roots))];
    RootsAre(f, d);
  }

  method NewBuffer(e: Expanders) returns (node: Node)
    requires e.Ok()
    ensures fresh(node) && Ready(node, e) && fresh(node.buf)
  {
    node := new Node(0);
    node.buf := new int[e.D + 1];
  }
}
