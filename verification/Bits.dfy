/** 32-bit machine integers and the bit operations the hash map uses, on mathematical integers in two's complement. */
module Bits {

  const INT_RANGE: int := 0x1_0000_0000

  // x is a value of type int.
  predicate IsInt32(x: int) {
    -0x8000_0000 <= x < 0x8000_0000
  }

  // The int that wrap-around leaves of x.
  function ToInt32(x: int): (r: int)
    ensures IsInt32(r) && (IsInt32(x) ==> r == x)
    ensures (r - x) % 0x1_0000_0000 == 0
  {
    (x + 0x8000_0000) % INT_RANGE - 0x8000_0000
  }

  // Wrapping around before a multiplication and addition makes no difference after it.
  lemma WrapsOnce(b: int, x: int, y: int)
    ensures ToInt32(b * ToInt32(x) + y) == ToInt32(b * x + y)
  {
    var n := (ToInt32(x) - x) / INT_RANGE;
    assert ToInt32(x) == x + n * INT_RANGE;
    assert b * ToInt32(x) == b * x + (b * n) * INT_RANGE;
    SameWrap(b * x + y, b * n);
  }

  lemma SameWrap(x: int, n: int)
    ensures ToInt32(x + n * INT_RANGE) == ToInt32(x)
  {
  }

  function Pow2(k: nat): nat {
    if k == 0 then 1 else 2 * Pow2(k - 1)
  }

  lemma {:induction false} Pow2Positive(k: nat)
    ensures Pow2(k) >= 1
  {
    if k > 0 { Pow2Positive(k - 1); }
  }

  lemma {:induction false} Pow2Grows(j: nat, k: nat)
    requires j < k
    ensures 2 * Pow2(j) <= Pow2(k)
  {
    Pow2Positive(j);
    if j < k - 1 { Pow2Grows(j, k - 1); }
  }

  // Arithmetic shift right; Dafny's division by a positive number rounds down.
  function Shr(x: int, k: nat): int {
    Pow2Positive(k);
    x / Pow2(k)
  }

  // x & y for y >= 0, bit by bit. Dividing by two shifts the sign of a negative x in.
  function And(x: int, y: nat): nat
    decreases y
  {
    if y == 0 then 0 else (x % 2) * (y % 2) + 2 * And(x / 2, y / 2)
  }

  function Magnitude(x: int): nat {
    if x >= 0 then x else -x - 1
  }

  // x ^ y, bit by bit; 0 and -1 are all equal bits.
  function Xor(x: int, y: int): int
    decreases Magnitude(x) + Magnitude(y)
  {
    if Magnitude(x) == 0 && Magnitude(y) == 0 then (if x == y then 0 else -1)
    else (x + y) % 2 + 2 * Xor(x / 2, y / 2)
  }

  // Bit i of x in two's complement; beyond the sign bit it is the sign.
  function Bit(x: int, i: nat): (b: int)
    ensures 0 <= b <= 1
    decreases i
  {
    if i == 0 then x % 2 else Bit(x / 2, i - 1)
  }

  lemma {:induction false} BitIs(x: int, i: nat)
    ensures Pow2(i) >= 1 && Bit(x, i) == x / Pow2(i) % 2
    decreases i
  {
    Pow2Positive(i);
    if i > 0 {
      BitIs(x / 2, i - 1);
      Pow2Positive(i - 1);
      DividedTwice(x, Pow2(i - 1));
    }
  }

  lemma DividedTwice(x: int, m: nat)
    requires m >= 1
    ensures x / 2 / m == x / (2 * m)
  {
    var q := x / 2 / m;
    QuotientAndRemainder(x / 2, m);
    QuotientAndRemainder(x, 2 * m);
    var d, r := 2 * m, x % 2 + 2 * (x / 2 % m);
    assert x == q * d + r by { assert 2 * (q * m) == q * (2 * m); }
    assert 0 <= r < d;
    QuotientUnique(x, d, q, r);
  }

  lemma QuotientUnique(x: int, d: nat, q: int, r: int)
    requires d >= 1 && x == q * d + r && 0 <= r < d
    ensures x / d == q
  {
    var p := q - x / d;
    QuotientAndRemainder(x, d);
    assert p * d == q * d - (x / d) * d;
    MultipleLarge(p, d);
  }

  // The bits of x >> k are those of x from k on.
  lemma {:induction false} ShrBits(x: int, k: nat, i: nat)
    ensures Bit(Shr(x, k), i) == Bit(x, k + i)
    decreases k
  {
    if k == 0 {
      assert Shr(x, 0) == x;
    } else {
      ShrBits(x / 2, k - 1, i);
      Pow2Positive(k - 1);
      DividedTwice(x, Pow2(k - 1));
    }
  }

  // Each bit of x ^ y is the sum of the two bits modulo 2.
  lemma {:induction false} XorBits(x: int, y: int, i: nat)
    ensures Bit(Xor(x, y), i) == (Bit(x, i) + Bit(y, i)) % 2
    decreases i
  {
    hide Xor;
    XorHalves(x, y);
    if i > 0 { XorBits(x / 2, y / 2, i - 1); }
  }

  lemma XorHalves(x: int, y: int)
    ensures Xor(x, y) % 2 == (x + y) % 2 && Xor(x, y) / 2 == Xor(x / 2, y / 2)
  {
    hide *;
    XorUnfold(x, y);
    BitBelow((x + y) % 2, Xor(x / 2, y / 2));
  }

  lemma BitBelow(b: int, h: int)
    requires 0 <= b <= 1
    ensures (b + 2 * h) % 2 == b && (b + 2 * h) / 2 == h
  {
  }

  lemma XorUnfold(x: int, y: int)
    ensures Xor(x, y) == (x + y) % 2 + 2 * Xor(x / 2, y / 2)
  {
    if Magnitude(x) == 0 && Magnitude(y) == 0 {
      SignOnly(x);
      SignOnly(y);
    }
  }

  lemma SignOnly(x: int)
    requires Magnitude(x) == 0
    ensures (x == 0 || x == -1) && x / 2 == x
  {
  }

  // Masking with 2^k - 1 is the remainder modulo 2^k, for negative x too.
  lemma {:induction false} AndMask(x: int, k: nat)
    ensures Pow2(k) >= 1
    ensures And(x, Pow2(k) - 1) == x % Pow2(k)
    decreases k
  {
    hide *;
    Pow2Positive(k);
    Pow2Halves(k);
    if k == 0 {
      AndZero(x);
    } else {
      Pow2Positive(k - 1);
      var m := Pow2(k - 1);
      AndMask(x / 2, k - 1);
      AndOdd(x, m - 1);
      HalvedRemainder(x, m);
    }
  }

  lemma Pow2Halves(k: nat)
    ensures Pow2(k) == if k == 0 then 1 else 2 * Pow2(k - 1)
  {
  }

  lemma AndZero(x: int)
    ensures And(x, 0) == 0
  {
  }

  lemma AndOdd(x: int, y: nat)
    ensures And(x, 2 * y + 1) == x % 2 + 2 * And(x / 2, y)
  {
    assert (2 * y + 1) / 2 == y && (2 * y + 1) % 2 == 1;
  }

  lemma HalvedRemainder(x: int, m: nat)
    requires m >= 1
    ensures x % 2 + 2 * ((x / 2) % m) == x % (2 * m)
  {
    var q, r := (x / 2) / m, (x / 2) % m;
    assert x / 2 == q * m + r;
    assert x == 2 * (x / 2) + x % 2;
    var s := x % 2 + 2 * r;
    assert x == q * (2 * m) + s by {
      assert 2 * (q * m) == q * (2 * m);
    }
    assert 0 <= s < 2 * m;
    RemainderUnique(x, 2 * m, q, s);
  }

  lemma RemainderUnique(x: int, d: nat, q: int, s: int)
    requires d >= 1 && x == q * d + s && 0 <= s < d
    ensures x % d == s
  {
    var p := q - x / d;
    assert p * d == q * d - (x / d) * d;
    assert p * d == x % d - s;
    MultipleLarge(p, d);
  }

  lemma MultipleLarge(p: int, d: nat)
    ensures p >= 1 ==> p * d >= d
    ensures p <= -1 ==> p * d <= -(d as int)
  {
    if p >= 1 {
      assert p * d == (p - 1) * d + d;
    } else if p <= -1 {
      assert p * d == (p + 1) * d - d;
      assert (-1 - p) * d >= 0;
    }
  }

  lemma QuotientAndRemainder(x: int, p: nat)
    requires p >= 1
    ensures x == p * (x / p) + x % p
  {
  }

  lemma QuotientSmaller(x: int, p: nat, q: int, r: nat)
    requires p >= 1 && x == p * q + r && r < p
    ensures Magnitude(q) <= Magnitude(x)
  {
    if q >= 0 {
      assert (p - 1) * q >= 0;
    } else {
      assert (p - 1) * (-q - 1) >= 0;
      assert (p - 1) * (-q - 1) == -(p * q) - p + q + 1;
    }
  }

  // >> keeps the range of a k-bit signed integer.
  lemma ShrRange(x: int, n: nat, k: nat)
    requires Magnitude(x) < Pow2(k)
    ensures Magnitude(Shr(x, n)) < Pow2(k)
  {
    hide Pow2, Magnitude;
    Pow2Positive(n);
    QuotientAndRemainder(x, Pow2(n));
    QuotientSmaller(x, Pow2(n), x / Pow2(n), x % Pow2(n));
  }

  // ^ keeps the range of a k-bit signed integer.
  lemma {:induction false} XorRange(x: int, y: int, k: nat)
    requires Magnitude(x) < Pow2(k) && Magnitude(y) < Pow2(k)
    ensures Magnitude(Xor(x, y)) < Pow2(k)
    decreases k
  {
    if k > 0 && !(Magnitude(x) == 0 && Magnitude(y) == 0) {
      XorRange(x / 2, y / 2, k - 1);
    }
  }
}
