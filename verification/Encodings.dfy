/** What the byte encodings stand for: numbers in big-endian order (expanders/expander.go, GetBytes), and
    elements read as numbers (big.Int.SetBytes). */
module Encodings {
  import opened Division
  import opened ByteStrings
  import opened ModExp
  import opened FlatAcc

  lemma PowPositive(b: nat, e: nat)
    requires b > 0
    ensures Pow(b, e) > 0
  {
    if e > 0 {
      PowPositive(b, e - 1);
    }
  }

  lemma NextPow(width: nat)
    requires width > 0
    ensures Pow(256, width) == 256 * Pow(256, width - 1) && Pow(256, width - 1) > 0
  {
    PowPositive(256, width - 1);
  }

  /** Later bytes count less: appending t shifts s by |t| bytes. */
  lemma {:induction false} FromBytesConcat(s: Bytes, t: Bytes)
    ensures FromBytes(s + t) == FromBytes(s) * Pow(256, |t|) + FromBytes(t)
    decreases |t|
  {
    if t == [] {
      assert s + t == s;
    } else {
      var u := t[..|t| - 1];
      assert (s + t)[..|s + t| - 1] == s + u;
      FromBytesConcat(s, u);
      NextPow(|t|);
      assert FromBytes(s) * Pow(256, |u|) * 256 == FromBytes(s) * Pow(256, |t|);
    }
  }

  lemma {:induction false} FromBytesBound(s: Bytes)
    ensures FromBytes(s) < Pow(256, |s|)
  {
    if s != [] {
      FromBytesBound(s[..|s| - 1]);
      NextPow(|s|);
    }
  }

  /** Byte strings of one length are told apart by their numbers. */
  lemma {:induction false} FromBytesInjective(s: Bytes, t: Bytes)
    requires |s| == |t| && FromBytes(s) == FromBytes(t)
    ensures s == t
  {
    if s != [] {
      var a, b := s[..|s| - 1], t[..|t| - 1];
      DivModUnique(FromBytes(s), FromBytes(a), s[|s| - 1] as nat, 256);
      DivModUnique(FromBytes(t), FromBytes(b), t[|t| - 1] as nat, 256);
      FromBytesInjective(a, b);
      assert s == a + [s[|s| - 1]] && t == b + [t[|t| - 1]];
    }
  }

  /** The bytes of an integer are its residue modulo 256^width, highest byte first; for a negative integer
      this is the two's complement. */
  lemma {:induction false} BigEndianValue(v: int, width: nat)
    ensures Pow(256, width) > 0 && FromBytes(BigEndian(v, width)) == v % Pow(256, width)
    decreases width
  {
    PowPositive(256, width);
    if width > 0 {
      BigEndianValue(v / 256, width - 1);
      NextPow(width);
      var high, p := BigEndian(v / 256, width - 1), Pow(256, width - 1);
      assert BigEndian(v, width)[..width - 1] == high;
      DigitsOf(v, p);
    }
  }

  lemma DigitsOf(v: int, p: nat)
    requires p > 0
    ensures ((v / 256) % p) * 256 + v % 256 == v % (256 * p)
  {
    var q := (v / 256) / p;
    var r := (v / 256) % p;
    assert v / 256 == q * p + r;
    assert v == (q * p + r) * 256 + v % 256;
    assert (q * p + r) * 256 == q * (256 * p) + r * 256;
    DivModUnique(v, q, r * 256 + v % 256, 256 * p);
  }

  lemma BigEndianInRange(v: int, width: nat)
    ensures 0 <= v < Pow(256, width) ==> FromBytes(BigEndian(v, width)) == v
    ensures v < 0 <= v + Pow(256, width) ==> FromBytes(BigEndian(v, width)) == v + Pow(256, width)
  {
    var p := Pow(256, width);
    BigEndianValue(v, width);
    if 0 <= v < p {
      DivModUnique(v, 0, v, p);
    } else if v < 0 <= v + p {
      DivModUnique(v, -1, v + p, p);
    }
  }

  /** Two integers have the same bytes exactly when they are congruent. */
  lemma SameBytesIff(v: int, w: int, width: nat)
    ensures Pow(256, width) > 0
    ensures BigEndian(v, width) == BigEndian(w, width) <==> v % Pow(256, width) == w % Pow(256, width)
  {
    BigEndianValue(v, width);
    BigEndianValue(w, width);
    if v % Pow(256, width) == w % Pow(256, width) {
      FromBytesInjective(BigEndian(v, width), BigEndian(w, width));
    }
  }

  const TWO_64: nat := 0x1_0000_0000_0000_0000
  const TWO_32: nat := 0x1_0000_0000

  lemma Powers()
    ensures Pow(256, 4) == TWO_32 && Pow(256, 8) == TWO_64
  {
    assert Pow(256, 1) == 256 && Pow(256, 2) == 65536 && Pow(256, 4) == TWO_32;
    PowAdd(256, 4, 4);
  }

  /** binary.Write of an int64 and of an int32: the value modulo 2^64 and 2^32, in big-endian order. */
  lemma IntBytes(v: int)
    ensures FromBytes(Int64(v)) == v % TWO_64 && FromBytes(Int32(v)) == v % TWO_32
  {
    Powers();
    BigEndianValue(v, 8);
    BigEndianValue(v, 4);
  }

  // ---------- elements ----------

  /** Leading zeros are all that gets lost when elements are read as numbers. */
  lemma LeadingZeros(n: nat, u: Bytes)
    ensures FromBytes(seq(n, _ => 0) + u) == FromBytes(u)
  {
    var zeros: Bytes := seq(n, _ => 0);
    FromBytesConcat(zeros, u);
    ZeroBytes(n);
  }

  lemma {:induction false} ZeroBytes(n: nat)
    ensures FromBytes(seq(n, _ => 0)) == 0
  {
    if n > 0 {
      var zeros: Bytes := seq(n, _ => 0);
      assert zeros[..n - 1] == seq(n - 1, _ => 0);
      ZeroBytes(n - 1);
    }
  }

  /** When Hprime tells all numbers apart, two elements have the same prime exactly when they are equal but
      for zeros in front; so elements of one length are told apart by their primes. */
  lemma PrimeIff(key: Key, u: Bytes, v: Bytes)
    requires forall x, y :: key.Hprime(x) == key.Hprime(y) ==> x == y
    requires |u| <= |v|
    ensures PrimeOf(key, u) == PrimeOf(key, v) <==> v == seq(|v| - |u|, _ => 0) + u
  {
    var padded: Bytes := seq(|v| - |u|, _ => 0) + u;
    LeadingZeros(|v| - |u|, u);
    if PrimeOf(key, u) == PrimeOf(key, v) {
      FromBytesInjective(v, padded);
    }
  }
}
