/** Integer facts shared by the whole model: powers, primality, and
    congruences modulo a positive modulus. Python's `%` with a positive
    modulus agrees with Dafny's Euclidean `%`, so no sign correction is
    needed anywhere as long as the modulus is positive. */
module ModArith {

  function Max(a: int, b: int): int { if a < b then b else a }
  function Min(a: int, b: int): int { if a < b then a else b }

  /** x to the power n (Python's `x**n` for n >= 0). */
  function Pow(x: int, n: nat): int
  {
    if n == 0 then 1 else x * Pow(x, n - 1)
  }

  /** d is a positive divisor of x. */
  predicate Divides(d: int, x: int)
  {
    d > 0 && x % d == 0
  }

  predicate IsPrime(p: int)
  {
    p > 1 && forall d :: 1 < d < p ==> !Divides(d, p)
  }

  /** Division with remainder is unique. */
  lemma ModUnique(x: int, q: int, r: int, p: int)
    requires p > 0 && 0 <= r < p && x == p * q + r
    ensures x % p == r && x / p == q
  {
    var d := q - x / p;
    assert p * q - p * (x / p) == p * d;
    assert p * d == x % p - r;
    assert d > 0 ==> p * d >= p;
    assert d < 0 ==> p * d <= -p;
  }

  lemma ModShift(x: int, k: int, p: int)
    requires p > 0
    ensures (x + p * k) % p == x % p
  {
    var y := x + p * k;
    assert x == p * (x / p) + x % p;
    assert y == p * (x / p + k) + x % p;
    ModUnique(y, x / p + k, x % p, p);
  }

  /** Two integers with the same residue differ by a multiple of p. */
  lemma CongDiff(a: int, b: int, p: int)
    requires p > 0 && a % p == b % p
    ensures a == b + p * (a / p - b / p)
  {
    assert a == p * (a / p) + a % p;
    assert b == p * (b / p) + b % p;
  }

  lemma CongAdd(a: int, a': int, b: int, b': int, p: int)
    requires p > 0 && a % p == a' % p && b % p == b' % p
    ensures (a + b) % p == (a' + b') % p
  {
    CongDiff(a, a', p);
    CongDiff(b, b', p);
    var k := (a / p - a' / p) + (b / p - b' / p);
    assert a + b == (a' + b') + p * k;
    ModShift(a' + b', k, p);
  }

  lemma CongSub(a: int, a': int, b: int, b': int, p: int)
    requires p > 0 && a % p == a' % p && b % p == b' % p
    ensures (a - b) % p == (a' - b') % p
  {
    CongDiff(a, a', p);
    CongDiff(b, b', p);
    var k := (a / p - a' / p) - (b / p - b' / p);
    assert a - b == (a' - b') + p * k;
    ModShift(a' - b', k, p);
  }

  lemma CongMul(a: int, a': int, b: int, b': int, p: int)
    requires p > 0 && a % p == a' % p && b % p == b' % p
    ensures (a * b) % p == (a' * b') % p
  {
    CongDiff(a, a', p);
    CongDiff(b, b', p);
    var i := a / p - a' / p;
    var j := b / p - b' / p;
    calc {
      a * b;
      (a' + p * i) * (b' + p * j);
      a' * b' + p * (i * b' + a' * j + p * i * j);
    }
    ModShift(a' * b', i * b' + a' * j + p * i * j, p);
  }

  /** Reducing once more changes nothing. */
  lemma ModMod(a: int, p: int)
    requires p > 0
    ensures (a % p) % p == a % p
  {
    ModUnique(a % p, 0, a % p, p);
  }

  /** An integer in [0, p) is its own residue. */
  lemma ModSmall(a: int, p: int)
    requires 0 <= a < p
    ensures a % p == a
  {
    ModUnique(a, 0, a, p);
  }

  /** A multiple of p has residue 0. */
  lemma ModMultiple(k: int, p: int)
    requires p > 0
    ensures (p * k) % p == 0
  {
    ModShift(0, k, p);
  }

  /** Residues 0 and a difference of residues: a ≡ b iff a - b ≡ 0. */
  lemma CongZeroDiff(a: int, b: int, p: int)
    requires p > 0
    ensures a % p == b % p <==> (a - b) % p == 0
  {
    if a % p == b % p {
      CongSub(a, b, b, b, p);
    }
    if (a - b) % p == 0 {
      CongAdd(a - b, 0, b, b, p);
    }
  }

  /** A common divisor of x and y divides x + r·y. */
  lemma DividesLinear(d: int, x: int, y: int, r: int)
    requires Divides(d, x) && Divides(d, y)
    ensures Divides(d, x + r * y)
  {
    assert x == d * (x / d);
    assert y == d * (y / d);
    assert x + r * y == d * (x / d + r * (y / d));
    ModMultiple(x / d + r * (y / d), d);
  }

  lemma MulAssoc(a: int, b: int, c: int)
    ensures (a * b) * c == a * (b * c)
  {
  }

  lemma MulDistrib(a: int, b: int, c: int)
    ensures a * (b + c) == a * b + a * c
    ensures (b + c) * a == b * a + c * a
  {
  }

  lemma PowAdd(x: int, m: nat, n: nat)
    ensures Pow(x, m + n) == Pow(x, m) * Pow(x, n)
    decreases m
  {
    if m > 0 {
      PowAdd(x, m - 1, n);
      assert Pow(x, m + n) == x * Pow(x, m - 1 + n);
    }
  }
}
