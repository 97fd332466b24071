/** The flat RSA accumulator (acc/acc.go) and the helpers of the multi-level one that work on a
    single list of elements: generateAcc, generateWitness, VerifyAcc. */
module FlatAcc {
  import opened ByteStrings
  import opened ModExp

  type pos = x: int | x > 0 witness 1

  /** The public RSA parameters, together with the hash-to-prime function Hprime.  Hprime is any
      function with positive values: nothing below depends on its results being prime. */
  datatype RsaKey = RsaKey(N: nat, G: nat, Hprime: nat -> pos)

  /** RsaKeygen reduces the generator modulo N. */
  type Key = k: RsaKey | k.G < k.N witness RsaKey(1, 0, _ => 1)

  function PrimeOf(key: Key, elem: Bytes): (p: nat)
    ensures p > 0
  {
    key.Hprime(FromBytes(elem))
  }

  function PrimeProduct(key: Key, elems: seq<Bytes>): (p: nat)
    ensures p > 0
  {
    if elems == [] then 1 else
      var rest := PrimeProduct(key, elems[1..]);
      assert PrimeOf(key, elems[0]) * rest > 0;
      PrimeOf(key, elems[0]) * rest
  }

  /** The accumulator of a list, as a number: G to the product of all its primes. */
  function AccNumber(key: Key, elems: seq<Bytes>): (r: nat)
    ensures r < key.N
  {
    Exp(key.G, PrimeProduct(key, elems), key.N)
  }

  function AccValue(key: Key, elems: seq<Bytes>): Bytes {
    ToBytes(AccNumber(key, elems))
  }

  /** One exponentiation after another, in list order. */
  function FoldExp(key: Key, base: nat, elems: seq<Bytes>): nat
    decreases |elems|
  {
    if elems == [] then base else FoldExp(key, Exp(base, PrimeOf(key, elems[0]), key.N), elems[1..])
  }

  function Without<T>(s: seq<T>, i: nat): (r: seq<T>)
    requires i < |s|
    ensures |r| == |s| - 1
  {
    s[..i] + s[i + 1..]
  }

  /** What the witness of position i has to be: the accumulator of all the other elements. */
  function WitnessValue(key: Key, elems: seq<Bytes>, i: nat): Bytes
    requires i < |elems|
  {
    AccValue(key, Without(elems, i))
  }

  // ---------- exponent algebra ----------

  lemma {:induction false} ProductConcat(key: Key, a: seq<Bytes>, b: seq<Bytes>)
    ensures PrimeProduct(key, a + b) == PrimeProduct(key, a) * PrimeProduct(key, b)
  {
    if a == [] {
      assert a + b == b;
    } else {
      assert (a + b)[1..] == a[1..] + b;
      ProductConcat(key, a[1..], b);
      MulAssoc(PrimeOf(key, a[0]), PrimeProduct(key, a[1..]), PrimeProduct(key, b));
    }
  }

  lemma MulAssoc(x: int, y: int, z: int)
    ensures x * (y * z) == (x * y) * z
  {
  }

  lemma ProductOfOne(key: Key, e: Bytes)
    ensures PrimeProduct(key, [e]) == PrimeOf(key, e)
  {
    assert [e][1..] == [];
  }

  lemma {:induction false} FoldIsExp(key: Key, base: nat, elems: seq<Bytes>)
    requires elems != [] || base < key.N
    ensures FoldExp(key, base, elems) == Exp(base, PrimeProduct(key, elems), key.N)
    decreases |elems|
  {
    if elems == [] {
      ExpOne(base, key.N);
    } else {
      var p := PrimeOf(key, elems[0]);
      FoldIsExp(key, Exp(base, p, key.N), elems[1..]);
      ExpExp(base, p, PrimeProduct(key, elems[1..]), key.N);
    }
  }

  lemma {:induction false} FoldAppend(key: Key, base: nat, elems: seq<Bytes>, e: Bytes)
    ensures FoldExp(key, base, elems + [e]) == Exp(FoldExp(key, base, elems), PrimeOf(key, e), key.N)
    decreases |elems|
  {
    if elems == [] {
      assert (elems + [e])[1..] == [];
    } else {
      assert (elems + [e])[1..] == elems[1..] + [e];
      FoldAppend(key, Exp(base, PrimeOf(key, elems[0]), key.N), elems[1..], e);
    }
  }

  /** Taking one element out and multiplying its prime back in gives the whole product. */
  lemma ProductWithout(key: Key, elems: seq<Bytes>, i: nat)
    requires i < |elems|
    ensures PrimeProduct(key, Without(elems, i)) * PrimeOf(key, elems[i]) == PrimeProduct(key, elems)
  {
    var a, e, b := elems[..i], elems[i], elems[i + 1..];
    assert elems == a + ([e] + b);
    ProductConcat(key, a, [e] + b);
    ProductConcat(key, [e], b);
    ProductOfOne(key, e);
    ProductConcat(key, a, b);
    MulShuffle(PrimeProduct(key, a), PrimeProduct(key, b), PrimeOf(key, e));
  }

  lemma MulShuffle(x: int, y: int, z: int)
    ensures (x * y) * z == x * (z * y)
  {
    MulAssoc(x, y, z);
  }

  // ---------- generateAcc ----------

  /** What generateAcc returns for an accumulator value and further elements.  A nil accumulator
      gives nil; the empty string stands for both nil and zero, and zero stays zero. */
  function Extended(key: Key, acc: Bytes, elems: seq<Bytes>): Bytes {
    ToBytes(FoldExp(key, FromBytes(acc), elems))
  }

  lemma ExtendedNil(key: Key, elems: seq<Bytes>)
    ensures Extended(key, [], elems) == []
  {
    FoldZero(key, elems);
  }

  lemma {:induction false} FoldZero(key: Key, elems: seq<Bytes>)
    ensures FoldExp(key, 0, elems) == 0
  {
    if elems != [] {
      FoldZero(key, elems[1..]);
      assert Pow(0, PrimeOf(key, elems[0])) == 0 * Pow(0, PrimeOf(key, elems[0]) - 1);
    }
  }

  /** Extending the accumulator of a by b gives the accumulator of a followed by b. */
  lemma ExtendAcc(key: Key, a: seq<Bytes>, b: seq<Bytes>)
    ensures Extended(key, AccValue(key, a), b) == AccValue(key, a + b)
  {
    FoldIsExp(key, AccNumber(key, a), b);
    ExpExp(key.G, PrimeProduct(key, a), PrimeProduct(key, b), key.N);
    ProductConcat(key, a, b);
  }

  lemma EmptyAcc(key: Key)
    ensures AccValue(key, []) == ToBytes(key.G)
  {
    ExpOne(key.G, key.N);
  }

  /** The accumulator of one element extends G, and its witness is G. */
  lemma SingletonAcc(key: Key, e: Bytes)
    ensures AccValue(key, [e]) == Extended(key, ToBytes(key.G), [e])
    ensures WitnessValue(key, [e], 0) == ToBytes(key.G)
  {
    EmptyAcc(key);
    ExtendAcc(key, [], [e]);
    assert [] + [e] == [e];
    assert Without([e], 0) == [];
  }

  /** The law all membership proofs rest on: a witness raised to the prime of its own element is
      the accumulator of the whole list. */
  lemma WitnessCompletes(key: Key, elems: seq<Bytes>, i: nat)
    requires i < |elems|
    ensures Extended(key, WitnessValue(key, elems, i), [elems[i]]) == AccValue(key, elems)
    ensures Accepts(key, AccValue(key, elems), elems[i], WitnessValue(key, elems, i))
  {
    var w := Without(elems, i);
    ExtendAcc(key, w, [elems[i]]);
    ProductConcat(key, w, [elems[i]]);
    ProductOfOne(key, elems[i]);
    ProductWithout(key, elems, i);
    AcceptsIsExtended(key, AccNumber(key, elems), elems[i], WitnessValue(key, elems, i));
  }

  /** Verify (acc/acc.go) and VerifyAcc (acc/muti_level_acc.go): one modular exponentiation. */
  predicate Accepts(key: Key, acc: Bytes, u: Bytes, wit: Bytes) {
    Exp(FromBytes(wit), PrimeOf(key, u), key.N) == FromBytes(acc)
  }

  /** The two checks of one link agree: on shortest encodings VerifyAcc compares what
      generateAcc would compute. */
  lemma AcceptsIsExtended(key: Key, n: nat, u: Bytes, wit: Bytes)
    ensures Accepts(key, ToBytes(n), u, wit) <==> Extended(key, wit, [u]) == ToBytes(n)
  {
    assert [u][1..] == [];
    var e := Exp(FromBytes(wit), PrimeOf(key, u), key.N);
    assert FoldExp(key, FromBytes(wit), [u]) == FoldExp(key, e, []) == e;
    assert FromBytes(ToBytes(e)) == e && FromBytes(ToBytes(n)) == n;
  }

  /** generateAcc (acc/muti_level_acc.go) */
  method GenerateAccFrom(key: Key, acc: Bytes, elems: seq<Bytes>) returns (r: Bytes)
    ensures r == Extended(key, acc, elems)
  {
    if acc == [] {
      ExtendedNil(key, elems);
      return [];
    }
    var g := FromBytes(acc);
    for i := 0 to |elems|
      invariant g == FoldExp(key, FromBytes(acc), elems[..i])
    {
      assert elems[..i + 1] == elems[..i] + [elems[i]];
      FoldAppend(key, FromBytes(acc), elems[..i], elems[i]);
      g := Exp(g, PrimeOf(key, elems[i]), key.N);
    }
    assert elems[..|elems|] == elems;
    r := ToBytes(g);
  }

  /** GenerateAcc (acc/acc.go): the sequential product form equals the accumulator. */
  method GenerateAcc(key: Key, elems: seq<Bytes>) returns (r: Bytes)
    ensures r == AccValue(key, elems)
  {
    var g := key.G;
    for i := 0 to |elems|
      invariant g == FoldExp(key, key.G, elems[..i])
    {
      assert elems[..i + 1] == elems[..i] + [elems[i]];
      FoldAppend(key, key.G, elems[..i], elems[i]);
      g := Exp(g, PrimeOf(key, elems[i]), key.N);
    }
    assert elems[..|elems|] == elems;
    FoldIsExp(key, key.G, elems);
    r := ToBytes(g);
  }

  // ---------- divide-and-conquer witnesses ----------

  /** Position i of the witnesses of elems over the base g. */
  function WitnessOver(key: Key, g: nat, elems: seq<Bytes>, i: nat): Bytes
    requires i < |elems|
  {
    ToBytes(Exp(g, PrimeProduct(key, Without(elems, i)), key.N))
  }

  lemma RaisedApart(key: Key, g: nat, a: seq<Bytes>, b: seq<Bytes>)
    ensures Exp(g, PrimeProduct(key, a + b), key.N)
            == Exp(Exp(g, PrimeProduct(key, a), key.N), PrimeProduct(key, b), key.N)
            == Exp(Exp(g, PrimeProduct(key, b), key.N), PrimeProduct(key, a), key.N)
  {
    var x, y := PrimeProduct(key, a), PrimeProduct(key, b);
    ProductConcat(key, a, b);
    ExpExp(g, x, y, key.N);
    ExpExp(g, y, x, key.N);
    MulCommutes(x, y);
  }

  lemma MulCommutes(x: int, y: int)
    ensures x * y == y * x
  {
  }

  lemma WithoutLeft<T>(a: seq<T>, b: seq<T>, i: nat)
    requires i < |a|
    ensures Without(a + b, i) == Without(a, i) + b
  {
  }

  lemma WithoutRight<T>(a: seq<T>, b: seq<T>, i: nat, k: nat)
    requires i < |b| && k == |a| + i
    ensures Without(a + b, k) == a + Without(b, i)
  {
  }

  lemma SplitWitnessLeft(key: Key, g: nat, left: seq<Bytes>, right: seq<Bytes>, i: nat)
    requires i < |left|
    ensures WitnessOver(key, g, left + right, i)
            == WitnessOver(key, Exp(g, PrimeProduct(key, right), key.N), left, i)
  {
    hide PrimeProduct, Exp, Without;
    WithoutLeft(left, right, i);
    RaisedApart(key, g, Without(left, i), right);
  }

  lemma SplitWitnessRight(key: Key, g: nat, left: seq<Bytes>, right: seq<Bytes>, i: nat, k: nat)
    requires i < |right| && k == |left| + i
    ensures WitnessOver(key, g, left + right, k)
            == WitnessOver(key, Exp(g, PrimeProduct(key, left), key.N), right, i)
  {
    hide PrimeProduct, Exp, Without;
    WithoutRight(left, right, i, k);
    RaisedApart(key, g, left, Without(right, i));
  }

  /** The witnesses of a list are those of its two halves over the bases raised by the other. */
  lemma HalvesWitness(key: Key, g: nat, us: seq<Bytes>, mid: nat)
    requires mid <= |us|
    ensures forall i :: 0 <= i < mid ==>
              WitnessOver(key, g, us, i)
              == WitnessOver(key, Exp(g, PrimeProduct(key, us[mid..]), key.N), us[..mid], i)
    ensures forall i :: mid <= i < |us| ==>
              WitnessOver(key, g, us, i)
              == WitnessOver(key, Exp(g, PrimeProduct(key, us[..mid]), key.N), us[mid..], i - mid)
  {
    var left, right := us[..mid], us[mid..];
    assert us == left + right;
    forall i | 0 <= i < mid
      ensures WitnessOver(key, g, us, i) == WitnessOver(key, Exp(g, PrimeProduct(key, right), key.N), left, i)
    {
      SplitWitnessLeft(key, g, left, right, i);
    }
    forall i | mid <= i < |us|
      ensures WitnessOver(key, g, us, i) == WitnessOver(key, Exp(g, PrimeProduct(key, left), key.N), right, i - mid)
    {
      SplitWitnessRight(key, g, left, right, i - mid, i);
    }
  }

  /** Whatever the base, the witness of a position raised to the prime of that position is the
      base raised to all the primes. */
  lemma WitnessOverCompletes(key: Key, g: nat, elems: seq<Bytes>, i: nat)
    requires i < |elems|
    ensures Exp(FromBytes(WitnessOver(key, g, elems, i)), PrimeOf(key, elems[i]), key.N)
            == Exp(g, PrimeProduct(key, elems), key.N)
  {
    ProductWithout(key, elems, i);
    ExpExp(g, PrimeProduct(key, Without(elems, i)), PrimeOf(key, elems[i]), key.N);
  }

  lemma WitnessOfOne(key: Key, g: nat, elems: seq<Bytes>)
    requires |elems| == 1 && g < key.N
    ensures WitnessOver(key, g, elems, 0) == ToBytes(g)
  {
    assert Without(elems, 0) == [];
    ExpOne(g, key.N);
  }

  method RaiseAll(key: Key, g: nat, elems: seq<Bytes>) returns (r: nat)
    requires elems != []
    ensures r == Exp(g, PrimeProduct(key, elems), key.N)
  {
    r := g;
    for i := 0 to |elems|
      invariant r == FoldExp(key, g, elems[..i])
    {
      assert elems[..i + 1] == elems[..i] + [elems[i]];
      FoldAppend(key, g, elems[..i], elems[i]);
      r := Exp(r, PrimeOf(key, elems[i]), key.N);
    }
    assert elems[..|elems|] == elems;
    FoldIsExp(key, g, elems);
  }

  /** generateWitness (acc/muti_level_acc.go); GenerateWitness (acc/acc.go) is the same without
      the empty case.  The two goroutines raise separate copies of the base. */
  method GenerateWitness(key: Key, g: nat, us: seq<Bytes>) returns (wits: seq<Bytes>)
    requires g < key.N
    ensures |wits| == |us|
    ensures forall i :: 0 <= i < |us| ==> wits[i] == WitnessOver(key, g, us, i)
    decreases |us|
  {
    if |us| == 0 {
      return [];
    }
    if |us| == 1 {
      WitnessOfOne(key, g, us);
      return [ToBytes(g)];
    }
    var mid := |us| / 2;
    var left, right := us[..mid], us[mid..];
    var g1 := RaiseAll(key, g, right);
    var g2 := RaiseAll(key, g, left);
    var u1 := GenerateWitness(key, g1, left);
    var u2 := GenerateWitness(key, g2, right);
    HalvesWitness(key, g, us, mid);
    wits := u1 + u2;
  }
}
