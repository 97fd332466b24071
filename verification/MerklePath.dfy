/** Membership paths of the light Merkle tree: GetPathProof and VerifyPathProof
    (tree/light_merkel_tree.go). */
module MerklePath {
  import opened ByteStrings
  import opened Division
  import opened Hashing
  import opened LightMerkle

  datatype PathProof = PathProof(Locs: Bytes, Path: seq<Bytes>)

  datatype PathResult = Found(proof: PathProof) | BadData

  function Sibling(k: nat): nat {
    if k % 2 == 1 then k - 1 else k + 1
  }

  /** index / 2^i */
  function Ancestor(index: nat, i: nat): nat {
    if i == 0 then index else Ancestor(index, i - 1) / 2
  }

  /** Entry k of a path: the sibling of the ancestor k levels up, and on which side it stands. */
  predicate Step(h: HashFn, leaves: seq<Bytes>, index: nat, locs: Bytes, path: seq<Bytes>, k: nat)
    requires k < |locs| && k < |path|
  {
    var a := Ancestor(index, k);
    && Sibling(a) < |Level(h, leaves, k)|
    && path[k] == Level(h, leaves, k)[Sibling(a)]
    && locs[k] as int == 1 - a % 2
  }

  /** The sibling hashes from the leaf hashes up.  Locs is the bitwise complement of the index, low
      bit first. */
  predicate IsPathOf(h: HashFn, leaves: seq<Bytes>, d: nat, index: nat, proof: PathProof) {
    && |leaves| == Pow2(d) && index < Pow2(d) && |proof.Path| == |proof.Locs| == d
    && forall i :: 0 <= i < d ==> Step(h, leaves, index, proof.Locs, proof.Path, i)
  }

  lemma {:induction false} AncestorIsQuotient(index: nat, i: nat)
    ensures Ancestor(index, i) == index / Pow2(i)
  {
    if i > 0 {
      AncestorIsQuotient(index, i - 1);
      HalfOfQuotient(index, Pow2(i - 1));
    }
  }

  lemma HalfOfQuotient(x: nat, y: nat)
    requires y > 0
    ensures (x / y) / 2 == x / (2 * y)
  {
    var q := x / y;
    var a, r, b := q / 2, x % y, q % 2;
    assert x == q * y + r;
    Distribute(a, b, y);
    DivModUnique(x, a, b * y + r, 2 * y);
  }

  lemma Distribute(a: nat, b: nat, y: nat)
    requires b <= 1
    ensures (2 * a + b) * y == a * (2 * y) + b * y && b * y <= y
  {
  }

  lemma {:induction false} AncestorBound(index: nat, i: nat, d: nat)
    requires index < Pow2(d) && i <= d
    ensures Ancestor(index, i) < Pow2(d - i)
    ensures i < d ==> Sibling(Ancestor(index, i)) < Pow2(d - i)
  {
    if i > 0 {
      AncestorBound(index, i - 1, d);
    }
  }

  /** GetPathProof: siblings at the leaf level come from the data and are hashed, all others are read
      from the array. */
  method GetPathProof(h: HashFn, mht: array<Bytes>, data: seq<Bytes>, index: nat, ghost d: nat) returns (r: PathResult)
    requires mht.Length == |data| ==>
               d >= 1 && index < Pow2(d) && HoldsLevels(h, mht[..], Hashed(h, data), d, d)
    ensures r == BadData <==> mht.Length != |data|
    ensures r.Found? ==> IsPathOf(h, Hashed(h, data), d, index, r.proof)
  {
    hide Level, HoldsLevels, Hashed, Digest, Pow2, Step, Ancestor, Sibling, Log2;
    if mht.Length != |data| {
      return BadData;
    }
    ghost var leaves := Hashed(h, data);
    LeafCount(h, mht[..], leaves, d);
    var lens := Log2(|data|);
    var locs: Bytes, path: seq<Bytes> := [], [];
    var num, p, idx, level := |data|, mht.Length, index, data;
    AncestorNext(index, 0);
    for i := 0 to lens
      invariant |locs| == |path| == i && idx == Ancestor(index, i)
      invariant num == p == |level| == Pow2(d - i)
      invariant if i == 0 then level == data else level == Level(h, leaves, i)
      invariant forall k :: 0 <= k < i ==> Step(h, leaves, index, locs, path, k)
    {
      AncestorBound(index, i, d);
      SiblingIs(idx);
      var loc: byte, cell;
      if (idx + 1) % 2 == 0 {
        loc, cell := 0, level[idx - 1];
      } else {
        loc, cell := 1, level[idx + 1];
      }
      ghost var locs0, path0 := locs, path;
      path := path + [if i == 0 then Digest(h, cell) else cell];
      locs := locs + [loc];
      StepMade(h, data, index, i, level, locs, path);
      forall k | 0 <= k < i ensures Step(h, leaves, index, locs, path, k) {
        StepKept(h, leaves, index, locs0, path0, locs, path, k);
      }
      LevelSlice(h, mht[..], leaves, d, i + 1);
      AncestorNext(index, i);
      num, idx := num / 2, idx / 2;
      p := p - num;
      level := mht[p..p + num];
    }
    return Found(PathProof(locs, path));
  }

  lemma LeafCount(h: HashFn, cells: seq<Bytes>, leaves: seq<Bytes>, d: nat)
    requires HoldsLevels(h, cells, leaves, d, d)
    ensures |cells| == |leaves| == Pow2(d) && Log2(Pow2(d)) == d
  {
    Log2Pow2(d);
  }

  lemma AncestorNext(index: nat, i: nat)
    ensures Ancestor(index, 0) == index && Ancestor(index, i + 1) == Ancestor(index, i) / 2
  {
  }

  lemma SiblingIs(k: nat)
    ensures (k + 1) % 2 == 0 ==> k > 0 && Sibling(k) == k - 1
    ensures (k + 1) % 2 != 0 ==> Sibling(k) == k + 1
  {
  }

  lemma StepMade(h: HashFn, data: seq<Bytes>, index: nat, i: nat, level: seq<Bytes>, locs: Bytes, path: seq<Bytes>)
    requires |locs| == |path| == i + 1
    requires if i == 0 then level == data else level == Level(h, Hashed(h, data), i)
    requires var a := Ancestor(index, i);
             && Sibling(a) < |level| && locs[i] == (if (a + 1) % 2 == 0 then 0 else 1)
             && path[i] == if i == 0 then Digest(h, level[Sibling(a)]) else level[Sibling(a)]
    ensures Step(h, Hashed(h, data), index, locs, path, i)
  {
    hide Ancestor, Digest, Up;
    LevelZero(h, Hashed(h, data));
    if i == 0 {
      HashedSize(h, data);
    }
  }

  lemma LevelZero(h: HashFn, leaves: seq<Bytes>)
    ensures Level(h, leaves, 0) == leaves
  {
  }

  lemma StepKept(h: HashFn, leaves: seq<Bytes>, index: nat, locs: Bytes, path: seq<Bytes>, locs': Bytes,
                 path': seq<Bytes>, k: nat)
    requires k < |locs| && k < |path| && locs <= locs' && path <= path' && Step(h, leaves, index, locs, path, k)
    ensures Step(h, leaves, index, locs', path', k)
  {
    hide Level, Ancestor;
  }

  lemma LevelSlice(h: HashFn, cells: seq<Bytes>, leaves: seq<Bytes>, d: nat, i: nat)
    requires 1 <= i <= d && HoldsLevels(h, cells, leaves, d, d)
    ensures var n := Pow2(d - i);
            Pow2(d - i + 1) == 2 * n <= |cells| && cells[n..n + n] == Level(h, leaves, i)
  {
    hide Level;
    assert LevelAt(h, cells, leaves, d, i);
  }

  // ---------- verification ----------

  /** Hashing up from x with the entries of the proof from i on. */
  function Climb(h: HashFn, x: Bytes, proof: PathProof, i: nat): Bytes
    requires i <= |proof.Path| == |proof.Locs|
    decreases |proof.Path| - i
  {
    if i == |proof.Path| then x
    else Climb(h, Joined(h, x, proof, i), proof, i + 1)
  }

  function Joined(h: HashFn, x: Bytes, proof: PathProof, i: nat): Bytes
    requires i < |proof.Path| == |proof.Locs|
  {
    Digest(h, Parents(x, proof, i))
  }

  /** The bytes hashed at step i: the sibling goes to the left when its loc is 0. */
  function Parents(x: Bytes, proof: PathProof, i: nat): Bytes
    requires i < |proof.Path| == |proof.Locs|
  {
    if proof.Locs[i] == 0 then proof.Path[i] + x else x + proof.Path[i]
  }

  predicate AcceptsPath(h: HashFn, root: Bytes, data: Bytes, proof: PathProof) {
    && |proof.Locs| == |proof.Path|
    && |Digest(h, data)| == |root|
    && Climb(h, Digest(h, data), proof, 0) == root
  }

  /** VerifyPathProof, with h the hash NewHash picks for the length of the root. */
  method VerifyPathProof(h: HashFn, root: Bytes, data: Bytes, proof: PathProof) returns (ok: bool)
    ensures ok <==> AcceptsPath(h, root, data, proof)
  {
    hide Digest;
    if |proof.Locs| != |proof.Path| {
      return false;
    }
    var x := Digest(h, data);
    if |x| != |root| {
      return false;
    }
    for i := 0 to |proof.Path|
      invariant Climb(h, x, proof, i) == Climb(h, Digest(h, data), proof, 0)
    {
      if proof.Locs[i] == 0 {
        x := Digest(h, proof.Path[i] + x);
      } else {
        x := Digest(h, x + proof.Path[i]);
      }
    }
    return root == x;
  }

  lemma {:induction false} ClimbReachesRoot(h: HashFn, leaves: seq<Bytes>, d: nat, index: nat, proof: PathProof, i: nat)
    requires IsPathOf(h, leaves, d, index, proof) && i <= d
    ensures Ancestor(index, i) < |Level(h, leaves, i)|
    ensures Climb(h, Level(h, leaves, i)[Ancestor(index, i)], proof, i) == MerkleRoot(h, leaves, d)
    decreases d - i
  {
    hide Level, MerkleRoot, Ancestor;
    AncestorBound(index, i, d);
    LevelSize(h, leaves, i, d);
    if i == d {
      TopLevelIsRoot(h, leaves, d);
    } else {
      ClimbReachesRoot(h, leaves, d, index, proof, i + 1);
      JoinedIsAncestor(h, leaves, d, index, proof, i);
    }
  }

  lemma JoinedIsAncestor(h: HashFn, leaves: seq<Bytes>, d: nat, index: nat, proof: PathProof, i: nat)
    requires IsPathOf(h, leaves, d, index, proof) && i < d
    requires Ancestor(index, i) < |Level(h, leaves, i)| && Ancestor(index, i + 1) < |Level(h, leaves, i + 1)|
    ensures Joined(h, Level(h, leaves, i)[Ancestor(index, i)], proof, i)
            == Level(h, leaves, i + 1)[Ancestor(index, i + 1)]
  {
    hide Up;
    var level, a := Level(h, leaves, i), Ancestor(index, i);
    assert Step(h, leaves, index, proof.Locs, proof.Path, i);
    UpAt(h, level, a / 2);
  }

  /** Every honest path is accepted, for every power-of-two number of leaves, all data and every
      index: against the root the tree computes, for the leaf at that index. */
  lemma PathAccepted(h: HashFn, size: nat, data: seq<Bytes>, d: nat, index: nat, proof: PathProof)
    requires FixedSize(h, size) && d >= 1 && IsPathOf(h, Hashed(h, data), d, index, proof)
    ensures index < |data| == Pow2(d)
    ensures |MerkleRoot(h, Hashed(h, data), d)| == size
    ensures AcceptsPath(h, MerkleRoot(h, Hashed(h, data), d), data[index], proof)
  {
    hide Climb, Digest;
    var leaves := Hashed(h, data);
    ClimbReachesRoot(h, leaves, d, index, proof, 0);
    assert Level(h, leaves, 0)[Ancestor(index, 0)] == Digest(h, data[index]);
    RootIsDigest(h, leaves, d);
  }

  lemma RootIsDigest(h: HashFn, leaves: seq<Bytes>, d: nat)
    requires d >= 1 && |leaves| == Pow2(d)
    ensures exists b :: MerkleRoot(h, leaves, d) == Digest(h, b)
  {
    var n := Pow2(d - 1);
    var b := MerkleRoot(h, leaves[..n], d - 1) + MerkleRoot(h, leaves[n..], d - 1);
    assert MerkleRoot(h, leaves, d) == Digest(h, b);
  }

  // ---------- binding ----------

  /** Two different inputs with one digest. */
  predicate IsCollision(h: HashFn, c: (Bytes, Bytes)) {
    c.0 != c.1 && h(c.0) == h(c.1)
  }

  /** The first step from i on where two different values meet. */
  function Extract(h: HashFn, x: Bytes, p: PathProof, y: Bytes, q: PathProof, i: nat): (Bytes, Bytes)
    requires |p.Path| == |p.Locs| && |q.Path| == |q.Locs| && i < |p.Path| == |q.Path|
    decreases |p.Path| - i
  {
    if Joined(h, x, p, i) == Joined(h, y, q, i) || i + 1 == |p.Path| then (Parents(x, p, i), Parents(y, q, i))
    else Extract(h, Joined(h, x, p, i), p, Joined(h, y, q, i), q, i + 1)
  }

  lemma {:induction false} ExtractCollides(h: HashFn, size: nat, x: Bytes, p: PathProof, y: Bytes, q: PathProof, i: nat)
    requires |p.Path| == |p.Locs| && |q.Path| == |q.Locs| && i < |p.Path| == |q.Path| && p.Locs == q.Locs
    requires |x| == |y| && x != y && Climb(h, x, p, i) == Climb(h, y, q, i)
    requires FixedSize(h, size)
    ensures IsCollision(h, Extract(h, x, p, y, q, i))
    decreases |p.Path| - i
  {
    var a, b := Parents(x, p, i), Parents(y, q, i);
    if p.Locs[i] == 0 {
      assert x == a[|a| - |x|..] && y == b[|b| - |y|..];
    } else {
      assert x == a[..|x|] && y == b[..|y|];
    }
    if Joined(h, x, p, i) != Joined(h, y, q, i) && i + 1 < |p.Path| {
      ExtractCollides(h, size, Joined(h, x, p, i), p, Joined(h, y, q, i), q, i + 1);
    }
  }

  /** Binding: two different leaves accepted under one root with the same Locs give two different
      hash inputs with the same digest. */
  lemma PathBinding(h: HashFn, root: Bytes, x: Bytes, p: PathProof, y: Bytes, q: PathProof) returns (c: (Bytes, Bytes))
    requires FixedSize(h, |root|) && AcceptsPath(h, root, x, p) && AcceptsPath(h, root, y, q)
    requires p.Locs == q.Locs && x != y
    ensures IsCollision(h, c)
  {
    if Digest(h, x) == Digest(h, y) {
      c := (x, y);
    } else {
      c := Extract(h, Digest(h, x), p, Digest(h, y), q, 0);
      ExtractCollides(h, |root|, Digest(h, x), p, Digest(h, y), q, 0);
    }
  }

  /** The complement of the lowest d bits of an index, low bit first. */
  function Sides(index: nat, d: nat): (locs: Bytes)
    ensures |locs| == d
  {
    seq(d, k requires 0 <= k < d => if index / Pow2(k) % 2 == 1 then 0 else 1)
  }

  lemma SidesAt(index: nat, d: nat, k: nat)
    requires k < d
    ensures Sides(index, d)[k] as int == 1 - Ancestor(index, k) % 2
  {
    AncestorIsQuotient(index, k);
  }

  /** Every index has an honest path. */
  lemma HonestPath(h: HashFn, leaves: seq<Bytes>, d: nat, index: nat) returns (p: PathProof)
    requires |leaves| == Pow2(d) && index < Pow2(d)
    ensures IsPathOf(h, leaves, d, index, p) && p.Locs == Sides(index, d)
  {
    hide Level, Ancestor, Sibling, Sides;
    var path: seq<Bytes> := [];
    for k := 0 to d
      invariant |path| == k && forall m :: 0 <= m < k ==> SiblingAt(h, leaves, index, m, path[m])
    {
      AncestorBound(index, k, d);
      LevelSize(h, leaves, k, d);
      path := path + [Level(h, leaves, k)[Sibling(Ancestor(index, k))]];
    }
    p := PathProof(Sides(index, d), path);
    forall k | 0 <= k < d ensures Step(h, leaves, index, p.Locs, p.Path, k) {
      assert SiblingAt(h, leaves, index, k, path[k]);
      SidesAt(index, d, k);
    }
  }

  predicate SiblingAt(h: HashFn, leaves: seq<Bytes>, index: nat, k: nat, x: Bytes) {
    var a := Sibling(Ancestor(index, k));
    a < |Level(h, leaves, k)| && x == Level(h, leaves, k)[a]
  }

  /** A path's Locs are these sides. */
  lemma PathSides(h: HashFn, leaves: seq<Bytes>, d: nat, index: nat, p: PathProof)
    requires IsPathOf(h, leaves, d, index, p)
    ensures p.Locs == Sides(index, d)
  {
    hide Level, Ancestor, Sibling, Sides;
    forall k | 0 <= k < d ensures p.Locs[k] == Sides(index, d)[k] {
      assert Step(h, leaves, index, p.Locs, p.Path, k);
      SidesAt(index, d, k);
    }
  }

  /** Binding to a position: a value accepted under the tree's root with the sides of an index is the
      datum at that index, or it gives a hash collision. */
  lemma PositionBinding(h: HashFn, size: nat, data: seq<Bytes>, d: nat, index: nat, x: Bytes, p: PathProof)
    returns (c: (Bytes, Bytes))
    requires FixedSize(h, size) && d >= 1 && |data| == Pow2(d) && index < Pow2(d)
    requires AcceptsPath(h, MerkleRoot(h, Hashed(h, data), d), x, p) && p.Locs == Sides(index, d)
    ensures x == data[index] || IsCollision(h, c)
  {
    hide Digest, MerkleRoot, IsPathOf, AcceptsPath, Sides, Hashed, IsCollision;
    c := ([], []);
    if x != data[index] {
      HashedSize(h, data);
      var q := HonestPath(h, Hashed(h, data), d, index);
      PathAccepted(h, size, data, d, index, q);
      c := PathBinding(h, MerkleRoot(h, Hashed(h, data), d), x, p, data[index], q);
    }
  }

  lemma HashedSize(h: HashFn, data: seq<Bytes>)
    ensures |Hashed(h, data)| == |data|
  {
  }
}
