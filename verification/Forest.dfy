/** The contents of the three-level accumulator as plain values: groups of chunks of elements.
    Here are the canonical packing of an element list, what adding and deleting at the end do to
    the packing, and the accumulator values of the three levels. */
module Forest {
  import opened ByteStrings
  import opened FlatAcc

  const DEFAULT_ELEMS_NUM: nat := 1024

  type Chunk = seq<Bytes>
  type Group = seq<Chunk>
  type Groups = seq<Group>

  function Flatten<T>(s: seq<seq<T>>): seq<T> {
    if s == [] then [] else s[0] + Flatten(s[1..])
  }

  function Init<T>(s: seq<T>): seq<T>
    requires s != []
  {
    s[..|s| - 1]
  }

  function Last<T>(s: seq<T>): T
    requires s != []
  {
    s[|s| - 1]
  }

  /** Every block holds 1 to 1024 items, and all but the last hold exactly 1024. */
  predicate Packed<T>(s: seq<seq<T>>) {
    forall i :: 0 <= i < |s| ==> 1 <= |s[i]| <= DEFAULT_ELEMS_NUM && (i < |s| - 1 ==> |s[i]| == DEFAULT_ELEMS_NUM)
  }

  predicate NoEmptyBlock<T>(s: seq<seq<T>>) {
    forall i :: 0 <= i < |s| ==> s[i] != []
  }

  /** The tree has no empty parent and no empty leaf. */
  predicate WellFormed(t: Groups) {
    NoEmptyBlock(t) && forall i :: 0 <= i < |t| ==> NoEmptyBlock(t[i])
  }

  /** Leaves are full but for the last one, and so are parents. */
  predicate Canonical(t: Groups) {
    WellFormed(t) && Packed(t) && Packed(Flatten(t))
  }

  function Elements(t: Groups): seq<Bytes> {
    Flatten(Flatten(t))
  }

  function LastCount(t: Groups): nat
    requires WellFormed(t)
  {
    if t == [] then 0 else |Last(Last(t))|
  }

  /** Where AddElements puts a batch: into the last leaf while that has room, else into a new
      leaf, else into a new parent. */
  function Append(t: Groups, xs: Chunk): (r: Groups)
    requires WellFormed(t) && xs != []
    ensures WellFormed(r) && r != []
  {
    if t == [] then [[xs]]
    else if LastCount(t) < DEFAULT_ELEMS_NUM then Init(t) + [Init(Last(t)) + [Last(Last(t)) + xs]]
    else if |Last(t)| + 1 <= DEFAULT_ELEMS_NUM then Init(t) + [Last(t) + [xs]]
    else t + [[xs]]
  }

  /** What DeleteElements leaves. */
  function Truncate(t: Groups, n: nat): (r: Groups)
    requires WellFormed(t) && t != [] && n <= LastCount(t)
    ensures WellFormed(r)
  {
    var g, c := Last(t), Last(Last(t));
    if n < |c| then Init(t) + [Init(g) + [c[..|c| - n]]]
    else if |g| > 1 then Init(t) + [Init(g)]
    else Init(t)
  }

  // ---------- flattening ----------

  lemma {:induction false} FlattenConcat<T>(a: seq<seq<T>>, b: seq<seq<T>>)
    ensures Flatten(a + b) == Flatten(a) + Flatten(b)
  {
    if a == [] {
      assert a + b == b;
    } else {
      assert (a + b)[1..] == a[1..] + b;
      FlattenConcat(a[1..], b);
    }
  }

  lemma FlattenSnoc<T>(a: seq<seq<T>>, x: seq<T>)
    ensures Flatten(a + [x]) == Flatten(a) + x
  {
    FlattenConcat(a, [x]);
    assert [x][1..] == [];
  }

  lemma FlattenLast<T>(s: seq<seq<T>>)
    requires s != []
    ensures Flatten(s) == Flatten(Init(s)) + Last(s)
  {
    assert s == Init(s) + [Last(s)];
    FlattenSnoc(Init(s), Last(s));
  }

  /** The chunk list of a nonempty tree ends in its last chunk. */
  lemma ChunksLast(t: Groups)
    requires WellFormed(t) && t != []
    ensures Flatten(t) != [] && Last(Flatten(t)) == Last(Last(t))
    ensures Init(Flatten(t)) == Flatten(Init(t)) + Init(Last(t))
    ensures Elements(t) == Flatten(Init(Flatten(t))) + Last(Last(t))
  {
    FlattenLast(t);
    FlattenLast(Flatten(t));
  }

  /** Block and offset of a position in a packed list. */
  lemma {:induction false} PackedIndex<T>(s: seq<seq<T>>, k: nat)
    requires Packed(s) && k < |Flatten(s)|
    ensures k / DEFAULT_ELEMS_NUM < |s|
    ensures k % DEFAULT_ELEMS_NUM < |s[k / DEFAULT_ELEMS_NUM]|
    ensures Flatten(s)[k] == s[k / DEFAULT_ELEMS_NUM][k % DEFAULT_ELEMS_NUM]
  {
    if k >= DEFAULT_ELEMS_NUM {
      assert Flatten(s) == s[0] + Flatten(s[1..]);
      PackedLength(s);
      PackedIndex(s[1..], k - DEFAULT_ELEMS_NUM);
    }
  }

  lemma {:induction false} PackedLength<T>(s: seq<seq<T>>)
    requires Packed(s) && s != []
    ensures |Flatten(s)| == (|s| - 1) * DEFAULT_ELEMS_NUM + |Last(s)|
  {
    if |s| == 1 {
      assert s[1..] == [];
    } else {
      PackedLength(s[1..]);
    }
  }

  predicate AllFull<T>(s: seq<seq<T>>) {
    forall i :: 0 <= i < |s| ==> |s[i]| == DEFAULT_ELEMS_NUM
  }

  lemma PackedSnoc<T>(a: seq<seq<T>>, x: seq<T>)
    ensures Packed(a + [x]) <==> AllFull(a) && 1 <= |x| <= DEFAULT_ELEMS_NUM
  {
    var s := a + [x];
    assert s[|a|] == x;
    assert forall i :: 0 <= i < |a| ==> s[i] == a[i];
  }

  lemma PackedSplit<T>(s: seq<seq<T>>)
    requires s != []
    ensures Packed(s) <==> AllFull(Init(s)) && 1 <= |Last(s)| <= DEFAULT_ELEMS_NUM
    ensures Packed(s) && |Last(s)| == DEFAULT_ELEMS_NUM ==> AllFull(s)
  {
    assert s == Init(s) + [Last(s)];
    PackedSnoc(Init(s), Last(s));
  }

  // ---------- the shape after an operation ----------

  lemma AppendChunks(t: Groups, xs: Chunk)
    requires WellFormed(t) && xs != []
    ensures Flatten(Append(t, xs)) ==
              if t != [] && LastCount(t) < DEFAULT_ELEMS_NUM
              then (ChunksLast(t); Init(Flatten(t)) + [Last(Flatten(t)) + xs])
              else Flatten(t) + [xs]
  {
    if t == [] {
      assert [[xs]][1..] == [];
    } else {
      ChunksLast(t);
      var g := Last(t);
      if LastCount(t) < DEFAULT_ELEMS_NUM {
        FlattenSnoc(Init(t), Init(g) + [Last(g) + xs]);
      } else if |g| + 1 <= DEFAULT_ELEMS_NUM {
        FlattenSnoc(Init(t), g + [xs]);
        FlattenLast(t);
      } else {
        FlattenSnoc(t, [xs]);
      }
    }
  }

  /** Adding appends to the element list, whatever the shape of the tree. */
  lemma AppendElements(t: Groups, xs: Chunk)
    requires WellFormed(t) && xs != []
    ensures Elements(Append(t, xs)) == Elements(t) + xs
  {
    AppendChunks(t, xs);
    if t != [] && LastCount(t) < DEFAULT_ELEMS_NUM {
      ChunksLast(t);
      FlattenSnoc(Init(Flatten(t)), Last(Flatten(t)) + xs);
    } else {
      FlattenSnoc(Flatten(t), xs);
    }
  }

  lemma AppendLast(t: Groups, xs: Chunk)
    requires WellFormed(t) && xs != []
    ensures |Last(Last(Append(t, xs)))| == |xs| + if LastCount(t) < DEFAULT_ELEMS_NUM then LastCount(t) else 0
  {
  }

  /** The guard of AddElements: it bounds the batch only while the last leaf is not full. */
  predicate AddGuard(t: Groups, n: nat)
    requires WellFormed(t)
  {
    n > 0 && (LastCount(t) < DEFAULT_ELEMS_NUM ==> n + LastCount(t) <= DEFAULT_ELEMS_NUM)
  }

  /** A batch that passes the guard keeps the tree canonical exactly when it has at most 1024
      elements. */
  lemma AppendCanonical(t: Groups, xs: Chunk)
    requires Canonical(t) && AddGuard(t, |xs|)
    ensures Canonical(Append(t, xs)) <==> |xs| <= DEFAULT_ELEMS_NUM
  {
    AppendChunks(t, xs);
    AppendGroupsPacked(t, xs);
    if t == [] {
      PackedSnoc([], xs);
      assert [] + [xs] == [xs];
    } else {
      ChunksLast(t);
      PackedSplit(Flatten(t));
      if LastCount(t) < DEFAULT_ELEMS_NUM {
        PackedSnoc(Init(Flatten(t)), Last(Flatten(t)) + xs);
      } else {
        PackedSnoc(Flatten(t), xs);
      }
    }
  }

  /** A batch of at most 1024 elements keeps the tree canonical exactly when the last leaf is full or
      has room for all of it. */
  lemma AppendFits(t: Groups, xs: Chunk)
    requires Canonical(t) && 1 <= |xs| <= DEFAULT_ELEMS_NUM
    ensures Canonical(Append(t, xs)) <==> LastCount(t) == DEFAULT_ELEMS_NUM || |xs| + LastCount(t) <= DEFAULT_ELEMS_NUM
  {
    if t != [] {
      ChunksLast(t);
      PackedSplit(Flatten(t));
    }
    if AddGuard(t, |xs|) {
      AppendCanonical(t, xs);
    } else {
      var u := Append(t, xs);
      AppendLast(t, xs);
      ChunksLast(u);
      if Canonical(u) {
        PackedSplit(Flatten(u));
      }
    }
  }

  lemma AppendGroupsPacked(t: Groups, xs: Chunk)
    requires WellFormed(t) && Packed(t) && xs != []
    ensures Packed(Append(t, xs))
  {
    if t != [] {
      PackedSplit(t);
      PackedSplit(Append(t, xs));
    }
  }

  /** The comment above the guard promises at most 1024 elements; on a full leaf the guard lets
      any number through, and then the tree is not canonical any more. */
  lemma OversizedBatchPassesTheGuard(e: Bytes)
    ensures var t := [[seq(DEFAULT_ELEMS_NUM, _ => e)]];
            var xs := seq(DEFAULT_ELEMS_NUM + 1, _ => e);
            Canonical(t) && AddGuard(t, |xs|) && !Canonical(Append(t, xs))
  {
    var full := seq(DEFAULT_ELEMS_NUM, _ => e);
    var t := [[full]];
    assert Flatten(t) == [full] by {
      assert t[1..] == [];
    }
    AppendCanonical(t, seq(DEFAULT_ELEMS_NUM + 1, _ => e));
  }

  lemma TruncateChunks(t: Groups, n: nat)
    requires WellFormed(t) && t != [] && n <= LastCount(t)
    ensures Flatten(t) != []
    ensures Flatten(Truncate(t, n)) ==
              if n < LastCount(t)
              then (ChunksLast(t); Init(Flatten(t)) + [Last(Flatten(t))[..LastCount(t) - n]])
              else Init(Flatten(t))
  {
    hide Flatten;
    ChunksLast(t);
    var g, c := Last(t), Last(Last(t));
    if n < |c| {
      FlattenSnoc(Init(t), Init(g) + [c[..|c| - n]]);
      assert (Flatten(Init(t)) + Init(g)) + [c[..|c| - n]] == Flatten(Init(t)) + (Init(g) + [c[..|c| - n]]);
    } else if |g| > 1 {
      FlattenSnoc(Init(t), Init(g));
    } else {
      assert Init(g) == [];
    }
  }

  /** Deleting drops the last n elements of the list. */
  lemma TruncateElements(t: Groups, n: nat)
    requires WellFormed(t) && t != [] && n <= LastCount(t)
    ensures n <= |Elements(t)|
    ensures Elements(Truncate(t, n)) == Elements(t)[..|Elements(t)| - n]
  {
    ChunksLast(t);
    TruncateChunks(t, n);
    var c := Last(Last(t));
    if n < |c| {
      FlattenSnoc(Init(Flatten(t)), c[..|c| - n]);
    }
  }

  lemma TruncateCanonical(t: Groups, n: nat)
    requires Canonical(t) && t != [] && 0 < n <= LastCount(t)
    ensures Canonical(Truncate(t, n))
  {
    hide Flatten;
    ChunksLast(t);
    TruncateChunks(t, n);
  }

  /** Deleting as many elements as were just added gives back the very same tree. */
  lemma TruncateUndoesAppend(t: Groups, xs: Chunk)
    requires WellFormed(t) && xs != []
    ensures |xs| <= LastCount(Append(t, xs))
    ensures Truncate(Append(t, xs), |xs|) == t
  {
    if t == [] {
    } else if LastCount(t) < DEFAULT_ELEMS_NUM {
      UndoGrownLeaf(Init(t), Init(Last(t)), Last(Last(t)), xs);
      SnocParts(t, []);
      SnocParts(Last(t), []);
    } else if |Last(t)| + 1 <= DEFAULT_ELEMS_NUM {
      UndoNewLeaf(Init(t), Last(t), xs);
      SnocParts(t, []);
    } else {
      UndoNewParent(t, xs);
    }
  }

  lemma UndoGrownLeaf(t: Groups, g: Group, c: Chunk, xs: Chunk)
    requires WellFormed(t + [g + [c + xs]]) && c != [] && xs != []
    ensures Truncate(t + [g + [c + xs]], |xs|) == t + [g + [c]]
  {
    SnocParts(t, g + [c + xs]);
    SnocParts(g, c + xs);
    assert (c + xs)[..|c|] == c;
  }

  lemma UndoNewLeaf(t: Groups, g: Group, xs: Chunk)
    requires WellFormed(t + [g + [xs]]) && g != [] && xs != []
    ensures Truncate(t + [g + [xs]], |xs|) == t + [g]
  {
    SnocParts(t, g + [xs]);
    SnocParts(g, xs);
  }

  lemma UndoNewParent(t: Groups, xs: Chunk)
    requires WellFormed(t + [[xs]]) && xs != []
    ensures Truncate(t + [[xs]], |xs|) == t
  {
    SnocParts(t, [xs]);
  }

  lemma SnocParts<T>(s: seq<T>, x: T)
    ensures Init(s + [x]) == s && Last(s + [x]) == x
    ensures s != [] ==> Init(s) + [Last(s)] == s
  {
  }

  lemma {:induction false} PackedUnique<T>(a: seq<seq<T>>, b: seq<seq<T>>)
    requires Packed(a) && Packed(b) && Flatten(a) == Flatten(b)
    ensures a == b
  {
    if a == [] || b == [] {
    } else {
      PackedLength(a);
      PackedLength(b);
      var x, y := |a[0]|, |b[0]|;
      assert x == y by {
        assert |a| > 1 ==> x == DEFAULT_ELEMS_NUM;
        assert |b| > 1 ==> y == DEFAULT_ELEMS_NUM;
      }
      assert Flatten(a)[..x] == a[0] && Flatten(b)[..x] == b[0];
      assert Flatten(a)[x..] == Flatten(a[1..]) && Flatten(b)[x..] == Flatten(b[1..]);
      PackedUnique(a[1..], b[1..]);
      assert a == [a[0]] + a[1..] && b == [b[0]] + b[1..];
    }
  }

  /** The tree is determined by its element list: there is one canonical tree per list. */
  lemma CanonicalUnique(t: Groups, u: Groups)
    requires Canonical(t) && Canonical(u) && Elements(t) == Elements(u)
    ensures t == u
  {
    PackedUnique(Flatten(t), Flatten(u));
    PackedUnique(t, u);
  }

  // ---------- accumulator values of the three levels ----------

  function LeafValues(key: Key, g: Group): (vs: seq<Bytes>)
    ensures |vs| == |g|
    ensures forall j :: 0 <= j < |g| ==> vs[j] == AccValue(key, g[j])
  {
    seq(|g|, j requires 0 <= j < |g| => AccValue(key, g[j]))
  }

  function GroupValue(key: Key, g: Group): Bytes {
    AccValue(key, LeafValues(key, g))
  }

  function GroupValues(key: Key, t: Groups): (vs: seq<Bytes>)
    ensures |vs| == |t|
    ensures forall i :: 0 <= i < |t| ==> vs[i] == GroupValue(key, t[i])
  {
    seq(|t|, i requires 0 <= i < |t| => GroupValue(key, t[i]))
  }

  function RootValue(key: Key, t: Groups): Bytes {
    AccValue(key, GroupValues(key, t))
  }

  function LeafWitness(key: Key, g: Group, j: nat): Bytes
    requires j < |g|
  {
    WitnessValue(key, LeafValues(key, g), j)
  }

  function GroupWitness(key: Key, t: Groups, i: nat): Bytes
    requires i < |t|
  {
    WitnessValue(key, GroupValues(key, t), i)
  }

  /** Replacing or adding a last leaf leaves the values of the others alone. */
  lemma LeafValuesSnoc(key: Key, g: Group, c: Chunk)
    ensures LeafValues(key, g + [c]) == LeafValues(key, g) + [AccValue(key, c)]
  {
  }

  lemma GroupValuesSnoc(key: Key, t: Groups, g: Group)
    ensures GroupValues(key, t + [g]) == GroupValues(key, t) + [GroupValue(key, g)]
  {
  }

  /** The witness of the last leaf is the accumulator of the leaves before it. */
  lemma LastLeafWitness(key: Key, g: Group)
    requires g != []
    ensures LeafWitness(key, g, |g| - 1) == GroupValue(key, Init(g))
  {
    assert Without(LeafValues(key, g), |g| - 1) == LeafValues(key, Init(g));
  }

  lemma LastGroupWitness(key: Key, t: Groups)
    requires t != []
    ensures GroupWitness(key, t, |t| - 1) == RootValue(key, Init(t))
  {
    assert Without(GroupValues(key, t), |t| - 1) == GroupValues(key, Init(t));
  }

  /** One more leaf extends the value of its parent. */
  lemma GroupValueSnoc(key: Key, g: Group, c: Chunk)
    ensures GroupValue(key, g + [c]) == Extended(key, GroupValue(key, g), [AccValue(key, c)])
  {
    LeafValuesSnoc(key, g, c);
    ExtendAcc(key, LeafValues(key, g), [AccValue(key, c)]);
  }

  lemma RootValueSnoc(key: Key, t: Groups, g: Group)
    ensures RootValue(key, t + [g]) == Extended(key, RootValue(key, t), [GroupValue(key, g)])
  {
    GroupValuesSnoc(key, t, g);
    ExtendAcc(key, GroupValues(key, t), [GroupValue(key, g)]);
  }
}
