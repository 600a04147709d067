/** Field arithmetic modulo p: the extended Euclidean inverse `fp_inv`
    and the division `fp_div` built on it (bn128_pyecc_srs.py:30-44,
    duplicated verbatim in barycentric_lagrange_interpolation.py:3-17). */
module Field {
  import opened ModArith

  /** The extended Euclidean loop of fp_inv, run from the state
      (lm, low, hm, high) until low <= 1; the final lm. Each round replaces
      (lm, low, hm, high) by (hm - lm*r, high - low*r, lm, low) where
      r = high // low. */
  function EuclidLoop(lm: int, low: int, hm: int, high: int): int
    requires 0 <= low && 0 <= high
    decreases low
  {
    if low > 1 then
      var r := high / low;
      EuclidLoop(hm - lm * r, high - low * r, lm, low)
    else
      lm
  }

  /** fp_inv(a, p): 0 when a ≡ 0, otherwise the final lm of the loop,
      reduced into [0, p). */
  function Inv(a: int, p: int): int
    requires p > 0
  {
    var a' := a % p;
    if a' == 0 then 0 else EuclidLoop(1, a' % p, 0, p) % p
  }

  /** The loop keeps lm·a ≡ low and hm·a ≡ high (mod p) and never gains a
      common divisor that a and p do not share; when p is prime and
      0 < a < p the loop can only stop at low == 1, so the final lm
      inverts a. */
  lemma {:induction false} EuclidLoopInverts(lm: int, low: int, hm: int, high: int, a: int, p: int)
    requires IsPrime(p) && 0 < a < p
    requires 0 <= low < high <= p && 2 <= high
    requires Divides(p, lm * a - low) && Divides(p, hm * a - high)
    requires forall d :: Divides(d, low) && Divides(d, high) ==> Divides(d, a) && Divides(d, p)
    ensures (EuclidLoop(lm, low, hm, high) * a) % p == 1
    decreases low
  {
    if low > 1 {
      var r := high / low;
      var nm, nw := hm - lm * r, high - low * r;
      EuclidStep(lm, low, hm, high);
      BezoutStep(lm, low, hm, high, a, p, r);
      CommonDivisorStep(low, high, a, p, r);
      EuclidLoopInverts(nm, nw, lm, low, a, p);
    } else {
      // The loop stopped. If low were 0, high would divide both a and p;
      // high is between 2 and p, so high == p divides 0 < a < p: impossible.
      assert Divides(high, 0) && Divides(high, high);
      assert low == 0 ==> Divides(high, a) && Divides(high, p);
      assert Divides(high, p) ==> high == p;
      assert !Divides(p, a) by { ModSmall(a, p); }
      assert low == 1;
      CongZeroDiff(lm * a, 1, p);
      ModSmall(1, p);
    }
  }

  /** A round keeps the Bezout congruence: nm·a - nw is a combination of
      the two previous differences. */
  lemma BezoutStep(lm: int, low: int, hm: int, high: int, a: int, p: int, r: int)
    requires Divides(p, lm * a - low) && Divides(p, hm * a - high)
    ensures Divides(p, (hm - lm * r) * a - (high - low * r))
  {
    var x, y := hm * a - high, lm * a - low;
    assert (hm - lm * r) * a - (high - low * r) == x + (-r) * y by {
      MulDistrib(a, hm, -(lm * r));
      MulAssoc(lm, r, a);
      MulDistrib(-r, lm * a, -low);
    }
    DividesLinear(p, x, y, -r);
  }

  /** A round gains no common divisor: one of the new pair (high - r·low,
      low) divides high as well. */
  lemma CommonDivisorStep(low: int, high: int, a: int, p: int, r: int)
    requires forall d :: Divides(d, low) && Divides(d, high) ==> Divides(d, a) && Divides(d, p)
    ensures forall d :: Divides(d, high - low * r) && Divides(d, low) ==> Divides(d, a) && Divides(d, p)
  {
    forall d | Divides(d, high - low * r) && Divides(d, low)
      ensures Divides(d, a) && Divides(d, p)
    {
      DividesLinear(d, high - low * r, low, r);
      assert high - low * r + r * low == high;
    }
  }

  /** What fp_inv promises: 0 for a ≡ 0, a value in [0, p), and for a
      prime p and a ≢ 0 the multiplicative inverse of a. */
  lemma InvCorrect(a: int, p: int)
    requires p > 0
    ensures 0 <= Inv(a, p) < p
    ensures a % p == 0 ==> Inv(a, p) == 0
    ensures IsPrime(p) && a % p != 0 ==> (a * Inv(a, p)) % p == 1
  {
    var a' := a % p;
    if IsPrime(p) && a' != 0 {
      ModMod(a, p);
      forall d | Divides(d, a') && Divides(d, p)
        ensures Divides(d, a') && Divides(d, p)
      {
      }
      ModMod(1, p);
      assert Divides(p, 1 * a' - a') && Divides(p, 0 * a' - p) by {
        ModMultiple(0, p);
        ModMultiple(-1, p);
      }
      EuclidLoopInverts(1, a', 0, p, a', p);
      var e := EuclidLoop(1, a', 0, p);
      assert (e * a') % p == 1;
      assert Inv(a, p) == e % p;
      // a * (e % p) ≡ a' * e ≡ 1
      ModMod(e, p);
      CongMul(a, a', e % p, e, p);
      assert a' * e == e * a';
    }
  }

  /** One round of the loop, unfolded. */
  lemma EuclidStep(lm: int, low: int, hm: int, high: int)
    requires 1 < low && 0 <= high
    ensures 0 <= high - low * (high / low) < low
    ensures EuclidLoop(lm, low, hm, high)
         == EuclidLoop(hm - lm * (high / low), high - low * (high / low), lm, low)
  {
  }

  /** fp_inv as the source runs it: a loop over (lm, low, hm, high). */
  method FpInv(a: int, p: int) returns (r: int)
    requires p > 0
    ensures r == Inv(a, p)
    ensures 0 <= r < p
    ensures a % p == 0 ==> r == 0
    ensures IsPrime(p) && a % p != 0 ==> (a * r) % p == 1
  {
    var a' := a % p;
    if a' == 0 {
      InvCorrect(a, p);
      return 0;
    }
    var lm, hm := 1, 0;
    var low, high := a' % p, p;
    while low > 1
      invariant 0 <= low && 0 <= high
      invariant EuclidLoop(lm, low, hm, high) == EuclidLoop(1, a' % p, 0, p)
      decreases low
    {
      EuclidStep(lm, low, hm, high);
      var q := high / low;
      var nm, nw := hm - lm * q, high - low * q;
      lm, low, hm, high := nm, nw, lm, low;
    }
    r := lm % p;
    InvCorrect(a, p);
  }

  /** (x·i)·y and x·(y·i) are the same product. */
  lemma MulSwap(x: int, i: int, y: int)
    ensures (x * i) * y == x * (y * i)
  {
  }

  /** y has an inverse modulo p, and fp_inv finds it. */
  predicate Invertible(y: int, p: int)
    requires p > 0
  {
    (y * Inv(y, p)) % p == 1
  }

  /** Every residue other than 0 is invertible modulo a prime. */
  lemma PrimeInvertible(y: int, p: int)
    requires IsPrime(p) && y % p != 0
    ensures Invertible(y, p)
  {
    InvCorrect(y, p);
  }

  /** x·inv(y)·y ≡ x when y is invertible. */
  lemma DivCancels(x: int, y: int, p: int)
    requires p > 0 && Invertible(y, p)
    ensures (((x * Inv(y, p)) % p) * y) % p == x % p
  {
    var i := Inv(y, p);
    var r := (x * i) % p;
    ModMod(x * i, p);
    CongMul(r, x * i, y, y, p);
    MulSwap(x, i, y);
    ModMod(y * i, p);
    assert y * i == i * y;
    ModSmall(1, p);
    CongMul(x, x, y * i, 1, p);
  }

  /** fp_div(x, y, p) = x * fp_inv(y, p) % p: in [0, p); 0 when y ≡ 0; and
      when y is invertible (always, for a prime p and y ≢ 0) the unique
      residue r with r·y ≡ x. */
  function FpDiv(x: int, y: int, p: int): (r: int)
    requires p > 0
    ensures 0 <= r < p
    ensures y % p == 0 ==> r == 0
    ensures Invertible(y, p) ==> (r * y) % p == x % p
    ensures IsPrime(p) && y % p != 0 ==> (r * y) % p == x % p
  {
    InvCorrect(y, p);
    assert IsPrime(p) && y % p != 0 ==> Invertible(y, p) by {
      if IsPrime(p) && y % p != 0 {
        PrimeInvertible(y, p);
      }
    }
    assert Invertible(y, p) ==> (((x * Inv(y, p)) % p) * y) % p == x % p by {
      if Invertible(y, p) {
        DivCancels(x, y, p);
      }
    }
    (x * Inv(y, p)) % p
  }

  /** Euclid's lemma modulo a prime: a product of two non-zero residues is
      non-zero. */
  lemma {:induction false} ProductNonZero(x: int, y: int, p: int)
    requires IsPrime(p) && x % p != 0 && y % p != 0
    ensures (x * y) % p != 0
  {
    InvCorrect(x, p);
    var i := Inv(x, p);
    // y ≡ (x·i)·y = i·(x·y), so x·y ≡ 0 would force y ≡ 0
    ModMod(x * i, p);
    ModSmall(1, p);
    CongMul(x * i, 1, y, y, p);
    assert x * i * y == i * (x * y);
    ModMod(x * y, p);
    CongMul(i, i, x * y, (x * y) % p, p);
  }

  /** The inverse of 1 is 1 for every modulus above 1, so a divisor with
      leading coefficient 1 is always invertible. */
  lemma InvOne(p: int)
    requires p > 1
    ensures Inv(1, p) == 1
  {
    ModSmall(1, p);
  }
}
