/** Modular exponentiation, as big.Int.Exp computes it for a positive modulus. */
module ModExp {
  import opened Division

  function Pow(b: nat, e: nat): nat {
    if e == 0 then 1 else b * Pow(b, e - 1)
  }

  /** big.Int.Exp(b, e, m) */
  function Exp(b: nat, e: nat, m: nat): (r: nat)
    requires m > 0
    ensures r < m
  {
    Pow(b, e) % m
  }

  lemma MulMod(a: nat, b: nat, m: nat)
    requires m > 0
    ensures (a * (b % m)) % m == (a * b) % m
    ensures ((a % m) * b) % m == (a * b) % m
  {
    MulModRight(a, b, m);
    MulModRight(b, a, m);
    assert a * b == b * a && (a % m) * b == b * (a % m);
  }

  lemma MulModRight(a: nat, b: nat, m: nat)
    requires m > 0
    ensures (a * (b % m)) % m == (a * b) % m
  {
    var q, r := b / m, b % m;
    assert b == q * m + r;
    assert a * b == (a * q) * m + a * r by {
      assert a * (q * m + r) == a * (q * m) + a * r;
      assert a * (q * m) == (a * q) * m;
    }
    ModOfMultiple(a * q, a * r, m);
  }

  lemma MulAssociates(a: nat, b: nat, c: nat)
    ensures a * (b * c) == (a * b) * c
  {
  }

  lemma {:induction false} PowAdd(b: nat, x: nat, y: nat)
    ensures Pow(b, x + y) == Pow(b, x) * Pow(b, y)
  {
    if x > 0 {
      PowAdd(b, x - 1, y);
      MulAssociates(b, Pow(b, x - 1), Pow(b, y));
    }
  }

  lemma {:induction false} PowMul(b: nat, x: nat, y: nat)
    ensures Pow(Pow(b, x), y) == Pow(b, x * y)
  {
    if y == 0 {
      assert x * y == 0;
    } else {
      PowMul(b, x, y - 1);
      assert x * y == x + x * (y - 1);
      PowAdd(b, x, x * (y - 1));
    }
  }

  lemma {:induction false} PowModBase(b: nat, e: nat, m: nat)
    requires m > 0
    ensures Pow(b % m, e) % m == Pow(b, e) % m
  {
    if e > 0 {
      PowModBase(b, e - 1, m);
      MulMod(b % m, Pow(b % m, e - 1), m);
      MulMod(b % m, Pow(b, e - 1), m);
      MulMod(b, Pow(b, e - 1), m);
    }
  }

  lemma ExpOne(b: nat, m: nat)
    requires b < m
    ensures Exp(b, 1, m) == b
  {
    assert Pow(b, 1) == b * Pow(b, 0);
  }

  /** Raising twice is raising once to the product: the law every witness rests on. */
  lemma ExpExp(b: nat, x: nat, y: nat, m: nat)
    requires m > 0
    ensures Exp(Exp(b, x, m), y, m) == Exp(b, x * y, m)
  {
    PowModBase(Pow(b, x), y, m);
    PowMul(b, x, y);
  }
}
