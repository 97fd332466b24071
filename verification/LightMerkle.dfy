/** The light Merkle tree (tree/light_merkel_tree.go): inner hashes overwrite the leaf hashes in the
    same array, which ends up as a heap with the root in cell 1.  One cell of the array stands for
    the `size` bytes that the program addresses by multiples of size. */
module LightMerkle {
  import opened ByteStrings
  import opened Division
  import opened Hashing

  // ---------- Merkle trees as values ----------

  function Pow2(d: nat): (n: nat)
    ensures n > 0
  {
    if d == 0 then 1 else 2 * Pow2(d - 1)
  }

  /** One level up: hashes of neighbours. */
  function Up(h: HashFn, s: seq<Bytes>): (r: seq<Bytes>)
    ensures |r| == |s| / 2
  {
    seq(|s| / 2, j requires 0 <= j < |s| / 2 => h(s[2 * j] + s[2 * j + 1]))
  }

  lemma UpAt(h: HashFn, s: seq<Bytes>, j: nat)
    requires 2 * j + 1 < |s|
    ensures Up(h, s)[j] == h(s[2 * j] + s[2 * j + 1])
  {
  }

  function Level(h: HashFn, s: seq<Bytes>, i: nat): seq<Bytes> {
    if i == 0 then s else Up(h, Level(h, s, i - 1))
  }

  /** The Merkle root by definition: the hash of the roots of the two halves. */
  function MerkleRoot(h: HashFn, s: seq<Bytes>, d: nat): Bytes
    requires |s| == Pow2(d)
  {
    if d == 0 then s[0]
    else h(MerkleRoot(h, s[..Pow2(d - 1)], d - 1) + MerkleRoot(h, s[Pow2(d - 1)..], d - 1))
  }

  lemma {:induction false} LevelSize(h: HashFn, s: seq<Bytes>, i: nat, d: nat)
    requires |s| == Pow2(d) && i <= d
    ensures |Level(h, s, i)| == Pow2(d - i)
  {
    hide Up;
    if i > 0 {
      LevelSize(h, s, i - 1, d);
    }
  }

  lemma {:induction false} LevelUp(h: HashFn, s: seq<Bytes>, i: nat)
    ensures Level(h, Up(h, s), i) == Level(h, s, i + 1)
  {
    hide Up;
    if i > 0 {
      LevelUp(h, s, i - 1);
    }
  }

  lemma Pow2Even(k: nat)
    requires k > 0
    ensures Pow2(k) % 2 == 0
  {
  }

  lemma {:induction false} LevelConcat(h: HashFn, a: seq<Bytes>, b: seq<Bytes>, i: nat, d: nat)
    requires |a| == Pow2(d) && |b| == Pow2(d) && i <= d
    ensures Level(h, a + b, i) == Level(h, a, i) + Level(h, b, i)
  {
    hide Up, Pow2;
    if i > 0 {
      Pow2Even(d - (i - 1));
      LevelConcat(h, a, b, i - 1, d);
      LevelSize(h, a, i - 1, d);
      LevelSize(h, b, i - 1, d);
      UpConcat(h, Level(h, a, i - 1), Level(h, b, i - 1));
    }
  }

  lemma UpConcat(h: HashFn, a: seq<Bytes>, b: seq<Bytes>)
    requires |a| % 2 == 0
    ensures Up(h, a + b) == Up(h, a) + Up(h, b)
  {
    hide Up;
    var x, y := Up(h, a + b), Up(h, a) + Up(h, b);
    assert |x| == |y|;
    forall j | 0 <= j < |x| ensures x[j] == y[j] {
      UpAt(h, a + b, j);
      if j < |a| / 2 {
        UpAt(h, a, j);
      } else {
        UpAt(h, b, j - |a| / 2);
      }
    }
  }

  /** Hashing level by level gives the recursive root. */
  lemma {:induction false} TopLevelIsRoot(h: HashFn, s: seq<Bytes>, d: nat)
    requires |s| == Pow2(d)
    ensures Level(h, s, d) == [MerkleRoot(h, s, d)]
  {
    hide Up;
    if d == 0 {
      assert s == [s[0]];
    } else {
      var a, b := s[..Pow2(d - 1)], s[Pow2(d - 1)..];
      assert s == a + b;
      TopLevelIsRoot(h, a, d - 1);
      TopLevelIsRoot(h, b, d - 1);
      LevelConcat(h, a, b, d - 1, d - 1);
      var t := Level(h, s, d - 1);
      assert t == [MerkleRoot(h, a, d - 1), MerkleRoot(h, b, d - 1)];
      UpAt(h, t, 0);
      assert Up(h, t) == [h(t[0] + t[1])];
    }
  }

  // ---------- the array ----------

  /** int(math.Log2(float64(n))) of a positive number */
  function Log2(n: nat): nat {
    if n <= 1 then 0 else 1 + Log2(n / 2)
  }

  lemma {:induction false} Log2Pow2(d: nat)
    ensures Log2(Pow2(d)) == d
  {
    if d > 0 {
      Log2Pow2(d - 1);
    }
  }

  function Hashed(h: HashFn, data: seq<Bytes>): (r: seq<Bytes>)
    ensures |r| == |data| && forall i :: 0 <= i < |data| ==> r[i] == Digest(h, data[i])
  {
    seq(|data|, i requires 0 <= i < |data| => Digest(h, data[i]))
  }

  /** Cells n/2^i to n/2^(i-1) hold level i, for every level above the leaves up to m. */
  ghost predicate HoldsLevels(h: HashFn, cells: seq<Bytes>, leaves: seq<Bytes>, d: nat, m: nat) {
    && |cells| == |leaves| == Pow2(d) && m <= d
    && forall i :: 1 <= i <= m ==> LevelAt(h, cells, leaves, d, i)
  }

  ghost predicate LevelAt(h: HashFn, cells: seq<Bytes>, leaves: seq<Bytes>, d: nat, i: nat)
    requires |cells| == |leaves| == Pow2(d) && 1 <= i <= d
  {
    Pow2(d - i) + Pow2(d - i) <= |cells| && cells[Pow2(d - i)..Pow2(d - i) + Pow2(d - i)] == Level(h, leaves, i)
  }

  lemma {:induction false} Pow2Monotone(a: nat, b: nat)
    requires a <= b
    ensures Pow2(a) <= Pow2(b)
    ensures a < b ==> 2 * Pow2(a) <= Pow2(b)
  {
    if a < b {
      Pow2Monotone(a, b - 1);
    }
  }

  lemma {:induction false} Pow2Quotient(d: nat, i: nat)
    ensures Pow2(d) / Pow2(i) == if i <= d then Pow2(d - i) else 0
    decreases i
  {
    if i == 0 {
    } else if d == 0 {
      Pow2Monotone(0, i);
      assert Pow2(0) / Pow2(i) == 0 by {
        SmallQuotient(Pow2(0), Pow2(i));
      }
    } else {
      Pow2Quotient(d - 1, i - 1);
      DoubleQuotient(Pow2(d - 1), Pow2(i - 1));
    }
  }

  lemma SmallQuotient(x: nat, y: nat)
    requires x < y
    ensures x / y == 0
  {
  }

  lemma DoubleQuotient(x: nat, y: nat)
    requires y > 0
    ensures (2 * x) / (2 * y) == x / y
  {
    var q, r := x / y, x % y;
    assert x == q * y + r;
    assert 2 * x == q * (2 * y) + 2 * r;
    DivModUnique(2 * x, q, 2 * r, 2 * y);
  }

  /** calcLightMht: level by level, each from its right end to the left.  In the first round source
      and target overlap; the last round is empty. */
  method CalcInPlace(h: HashFn, mht: array<Bytes>, ghost d: nat)
    requires mht.Length == Pow2(d) && d >= 1
    modifies mht
    ensures HoldsLevels(h, mht[..], old(mht[..]), d, d)
  {
    ghost var leaves := mht[..];
    var n := mht.Length;
    Log2Pow2(d);
    var p, src := n / 2, 0;
    for i := 0 to Log2(n) + 1
      invariant HoldsLevels(h, mht[..], leaves, d, if i <= d then i else d)
      invariant i == 0 ==> mht[..] == leaves && src == 0
      invariant i < d ==> p == Pow2(d - i - 1)
      invariant 0 < i <= d ==> src == Pow2(d - i)
      invariant i == d ==> p == 0
    {
      var num := n / Pow2(i + 1);
      Pow2Quotient(d, i + 1);
      if num > 0 {
        CalcLevel(h, mht, src, p, num, leaves, d, i);
      }
      src := p;
      p := p / 2;
    }
  }

  /** The inner loop: cells p to p + num become the level above the 2 * num cells from src. */
  method CalcLevel(h: HashFn, mht: array<Bytes>, src: nat, p: nat, num: nat, ghost leaves: seq<Bytes>, ghost d: nat,
                   ghost i: nat)
    requires i < d && HoldsLevels(h, mht[..], leaves, d, i) && p == num == Pow2(d - i - 1)
    requires if i == 0 then src == 0 && mht[..] == leaves else src == Pow2(d - i)
    modifies mht
    ensures HoldsLevels(h, mht[..], leaves, d, i + 1)
  {
    hide Up, Level, HoldsLevels, LevelAt, Pow2;
    ghost var before, source := mht[..], Level(h, leaves, i);
    CellCount(h, before, leaves, d, i);
    SourceCells(h, before, leaves, d, i);
    var j, k := num - 1, 2 * num - 2;
    while j >= 0 && k >= 0
      invariant -1 <= j < num && k == 2 * j
      invariant forall m :: 0 <= m < mht.Length && !(p + j < m < p + num) ==> mht[m] == before[m]
      invariant forall m :: j < m < num ==> mht[p + m] == h(source[2 * m] + source[2 * m + 1])
    {
      assert before[src + k] == source[k] && before[src + k + 1] == source[k + 1];
      mht[p + j] := h(mht[src + k] + mht[src + k + 1]);
      j := j - 1;
      k := k - 2;
    }
    forall m | 0 <= m < num ensures mht[p + m] == Up(h, source)[m] {
      UpAt(h, source, m);
    }
    assert mht[p..p + num] == Up(h, source);
    LevelsKept(h, before, mht[..], leaves, d, i);
  }

  lemma CellCount(h: HashFn, cells: seq<Bytes>, leaves: seq<Bytes>, d: nat, i: nat)
    requires i < d && HoldsLevels(h, cells, leaves, d, i)
    ensures |cells| == Pow2(d) && Pow2(d - i) == 2 * Pow2(d - i - 1) && Pow2(d - i) <= Pow2(d)
    ensures i > 0 ==> 2 * Pow2(d - i) <= Pow2(d)
  {
    Pow2Monotone(d - i, d);
  }

  /** The cells a round reads hold the level below. */
  lemma SourceCells(h: HashFn, cells: seq<Bytes>, leaves: seq<Bytes>, d: nat, i: nat)
    requires i < d && HoldsLevels(h, cells, leaves, d, i) && (i == 0 ==> cells == leaves)
    ensures var src, source := if i == 0 then 0 else Pow2(d - i), Level(h, leaves, i);
            && |source| == Pow2(d - i) && src + |source| <= |cells|
            && forall x :: 0 <= x < |source| ==> cells[src + x] == source[x]
  {
    hide Up;
    LevelSize(h, leaves, i, d);
    if i > 0 {
      assert LevelAt(h, cells, leaves, d, i);
      var src := Pow2(d - i);
      forall x | 0 <= x < src ensures cells[src + x] == Level(h, leaves, i)[x] {
        assert cells[src..src + src][x] == cells[src + x];
      }
    }
  }

  /** Writing level i + 1 leaves the levels below it alone. */
  lemma LevelsKept(h: HashFn, before: seq<Bytes>, cells: seq<Bytes>, leaves: seq<Bytes>, d: nat, i: nat)
    requires i < d && HoldsLevels(h, before, leaves, d, i) && |cells| == |before|
    requires var p := Pow2(d - i - 1);
             && 2 * p <= |cells| && cells[p..p + p] == Up(h, Level(h, leaves, i))
             && forall m :: 2 * p <= m < |cells| ==> cells[m] == before[m]
    ensures HoldsLevels(h, cells, leaves, d, i + 1)
  {
    hide Up;
    forall m | 1 <= m <= i + 1 ensures LevelAt(h, cells, leaves, d, m) {
      if m <= i {
        assert LevelAt(h, before, leaves, d, m);
        Pow2Monotone(d - i - 1, d - m);
        var a := Pow2(d - m);
        assert cells[a..a + a] == before[a..a + a];
      }
    }
  }

  /** CalcLightMhtWithBytes: hash the cells of the data, then build the tree over them in place. */
  method CalcLightMhtWithBytes(h: HashFn, data: seq<Bytes>, ghost d: nat) returns (mht: array<Bytes>)
    requires |data| == Pow2(d) && d >= 1
    ensures fresh(mht)
    ensures HoldsLevels(h, mht[..], Hashed(h, data), d, d)
  {
    hide HoldsLevels;
    mht := HashCells(h, data);
    CalcInPlace(h, mht, d);
  }

  method HashCells(h: HashFn, data: seq<Bytes>) returns (mht: array<Bytes>)
    ensures fresh(mht) && mht[..] == Hashed(h, data)
  {
    hide Digest, Hashed;
    mht := new Bytes[|data|];
    for i := 0 to |data|
      invariant forall j :: 0 <= j < i ==> mht[j] == Hashed(h, data)[j]
    {
      mht[i] := Digest(h, data[i]);
    }
  }

  /** GetRoot: of a tree over leaves it is their Merkle root; nil for fewer than two cells. */
  method GetRoot(mht: array<Bytes>, ghost h: HashFn, ghost leaves: seq<Bytes>, ghost d: nat) returns (root: Bytes)
    ensures mht.Length < 2 ==> root == []
    ensures d >= 1 && HoldsLevels(h, mht[..], leaves, d, d) ==> root == MerkleRoot(h, leaves, d)
  {
    hide HoldsLevels, MerkleRoot;
    if mht.Length < 2 {
      RootNeedsTwoCells(h, mht[..], leaves, d);
      return [];
    }
    if d >= 1 && HoldsLevels(h, mht[..], leaves, d, d) {
      HeapShape(h, mht[..], leaves, d);
    }
    root := mht[1];
  }

  lemma RootNeedsTwoCells(h: HashFn, cells: seq<Bytes>, leaves: seq<Bytes>, d: nat)
    requires |cells| < 2
    ensures !(d >= 1 && HoldsLevels(h, cells, leaves, d, d))
  {
  }

  /** Cell v is the hash of cells 2v and 2v + 1, and cells of the upper half are hashes of two leaf
      hashes: the array is a heap, and its top is the recursive Merkle root. */
  lemma HeapShape(h: HashFn, cells: seq<Bytes>, leaves: seq<Bytes>, d: nat)
    requires d >= 1 && HoldsLevels(h, cells, leaves, d, d)
    ensures forall v :: 1 <= v < Pow2(d - 1) ==> cells[v] == h(cells[2 * v] + cells[2 * v + 1])
    ensures forall j :: 0 <= j < Pow2(d - 1) ==> cells[Pow2(d - 1) + j] == h(leaves[2 * j] + leaves[2 * j + 1])
    ensures |cells| >= 2 && cells[1] == MerkleRoot(h, leaves, d)
  {
    hide Up;
    forall v | 1 <= v < Pow2(d - 1) ensures cells[v] == h(cells[2 * v] + cells[2 * v + 1]) {
      var e := Log2(v);
      Log2Bounds(v);
      Pow2Less(e, d - 1, v);
      InnerCell(h, cells, leaves, d, d - e, v - Pow2(e));
    }
    forall j | 0 <= j < Pow2(d - 1)
      ensures cells[Pow2(d - 1) + j] == h(leaves[2 * j] + leaves[2 * j + 1])
    {
      LevelCell(h, cells, leaves, d, 1, j);
      UpAt(h, leaves, j);
    }
    TopLevelIsRoot(h, leaves, d);
    LevelCell(h, cells, leaves, d, d, 0);
  }

  lemma LevelCell(h: HashFn, cells: seq<Bytes>, leaves: seq<Bytes>, d: nat, i: nat, j: nat)
    requires 1 <= i <= d && HoldsLevels(h, cells, leaves, d, d) && j < Pow2(d - i)
    ensures |Level(h, leaves, i)| == Pow2(d - i) && Pow2(d - i) + j < |cells|
    ensures cells[Pow2(d - i) + j] == Level(h, leaves, i)[j]
  {
    hide Up;
    assert LevelAt(h, cells, leaves, d, i);
    LevelSize(h, leaves, i, d);
    var a := Pow2(d - i);
    assert cells[a..a + a][j] == cells[a + j];
  }

  lemma InnerCell(h: HashFn, cells: seq<Bytes>, leaves: seq<Bytes>, d: nat, i: nat, j: nat)
    requires 2 <= i <= d && HoldsLevels(h, cells, leaves, d, d) && j < Pow2(d - i)
    ensures var v := Pow2(d - i) + j;
            2 * v + 1 < |cells| && cells[v] == h(cells[2 * v] + cells[2 * v + 1])
  {
    hide Up;
    LevelCell(h, cells, leaves, d, i, j);
    LevelCell(h, cells, leaves, d, i - 1, 2 * j);
    LevelCell(h, cells, leaves, d, i - 1, 2 * j + 1);
    UpAt(h, Level(h, leaves, i - 1), j);
  }

  lemma {:induction false} Log2Bounds(v: nat)
    requires v >= 1
    ensures Pow2(Log2(v)) <= v < 2 * Pow2(Log2(v))
  {
    if v > 1 {
      Log2Bounds(v / 2);
    }
  }

  lemma Pow2Less(e: nat, d: nat, v: nat)
    requires Pow2(e) <= v < Pow2(d)
    ensures e < d
  {
    if d <= e {
      Pow2Monotone(d, e);
    }
  }
}
