/** Roots modulo a prime: a polynomial with more distinct roots than its
    degree is zero, and a polynomial vanishing wherever a monic divisor
    vanishes is divided by it without remainder. These are the facts
    behind the opening proofs (bn128_pyecc_srs.py:141-163) and the
    barycentric route (barycentric_lagrange_interpolation.py:111-120). */
module Roots {
  import opened ModArith
  import opened Field
  import opened Polynomial
  import opened LongDivision

  /** The points are pairwise distinct modulo p. */
  predicate DistinctMod(xs: seq<int>, p: int)
    requires p > 0
  {
    forall i, j :: 0 <= i < |xs| && 0 <= j < |xs| && i != j ==> xs[i] % p != xs[j] % p
  }

  /** Modulo a prime, x·y ≡ 0 with y ≢ 0 forces x ≡ 0. */
  lemma ProductZero(x: int, y: int, p: int)
    requires IsPrime(p) && (x * y) % p == 0 && y % p != 0
    ensures x % p == 0
  {
    InvCorrect(y, p);
    var i := Inv(y, p);
    CongMul(x * y, 0, i, i, p);
    MulAssoc(x, y, i);
    ModMod(y * i, p);
    ModSmall(1, p);
    CongMul(x, x, y * i, 1, p);
  }

  /** Modulo a prime a product is ≡ 0 exactly when a factor is. */
  lemma ProductZeroIff(x: int, y: int, p: int)
    requires IsPrime(p)
    ensures (x * y) % p == 0 <==> x % p == 0 || y % p == 0
  {
    ModMultiple(0, p);
    if x % p == 0 {
      CongMul(x, 0, y, y, p);
    } else if y % p == 0 {
      CongMul(x, x, y, 0, p);
    } else {
      ProductNonZero(x, y, p);
    }
  }

  /** A product whose first factor is ≡ 0 term by term is ≡ 0. */
  lemma {:induction false} ConvZeroMod(a: seq<int>, b: seq<int>, n: nat, k: int, p: int)
    requires p > 0 && n <= |a|
    requires forall i :: 0 <= i < n ==> a[i] % p == 0
    ensures Conv(a, b, n, k) % p == 0
  {
    if n > 0 {
      ConvZeroMod(a, b, n - 1, k, p);
      ModMultiple(0, p);
      CongMul(a[n - 1], 0, Coef(b, k - (n - 1)), Coef(b, k - (n - 1)), p);
      CongAdd(Conv(a, b, n - 1, k), 0, a[n - 1] * Coef(b, k - (n - 1)), 0, p);
    }
  }

  /** A root y of r other than c is a root of r / (x - c), provided c is
      a root of r too. */
  lemma RootOfQuotient(r: seq<int>, c: int, y: int, p: int)
    requires IsPrime(p) && |r| > 0
    requires Eval(r, c) % p == 0 && Eval(r, y) % p == 0 && y % p != c % p
    ensures Eval(Quotient(r, [-c, 1], p), y) % p == 0
  {
    var e := Eval(Quotient(r, [-c, 1], p), y);
    FactorTheorem(r, c, y, p);
    ModMultiple(0, p);
    CongSub(e * (y - c) + Eval(r, c), 0, Eval(r, c), 0, p);
    assert (e * (y - c)) % p == 0;
    CongZeroDiff(y, c, p);
    ProductZero(e, y - c, p);
  }

  /** A list of at most |xs| coefficients that vanishes modulo a prime at
      |xs| distinct points is ≡ 0 coefficientwise. */
  lemma {:induction false} ZeroByRoots(r: seq<int>, xs: seq<int>, p: int)
    requires IsPrime(p) && |r| <= |xs| && DistinctMod(xs, p)
    requires forall k :: 0 <= k < |xs| ==> Eval(r, xs[k]) % p == 0
    ensures forall i :: 0 <= i < |r| ==> r[i] % p == 0
    decreases |xs|
  {
    if |r| > 0 {
      var c := xs[|xs| - 1];
      var xs' := xs[..|xs| - 1];
      var b := [-c, 1];
      var q := Quotient(r, b, p);
      DivideByLinear(r, c, p);
      forall k | 0 <= k < |xs'| ensures Eval(q, xs'[k]) % p == 0 {
        RootOfQuotient(r, c, xs'[k], p);
      }
      ZeroByRoots(q, xs', p);
      forall k | 0 <= k < |r| ensures r[k] % p == 0 {
        var e := if k == 0 then Eval(r, c) else 0;
        ConvZeroMod(q, b, |r| - 1, k, p);
        ModMultiple(0, p);
        CongAdd(Conv(q, b, |r| - 1, k), 0, e, 0, p);
      }
    }
  }

  /** Two lists of at most |xs| coefficients that agree modulo a prime at
      |xs| distinct points are the same polynomial modulo p. */
  lemma SameByRoots(u: seq<int>, v: seq<int>, xs: seq<int>, p: int)
    requires IsPrime(p) && |u| <= |xs| && |v| <= |xs| && DistinctMod(xs, p)
    requires forall k :: 0 <= k < |xs| ==> Eval(u, xs[k]) % p == Eval(v, xs[k]) % p
    ensures SamePoly(u, v, p)
  {
    var m := Max(|u|, |v|);
    var d := seq(m, k requires 0 <= k < m => Coef(u, k) - Coef(v, k));
    var pu := seq(m, k requires 0 <= k < m => Coef(u, k));
    var pv := seq(m, k requires 0 <= k < m => Coef(v, k));
    forall k | 0 <= k < |xs| ensures Eval(d, xs[k]) % p == 0 {
      var x := xs[k];
      var nv := seq(m, j requires 0 <= j < m => -pv[j]);
      EvalPadded(pu, u, x);
      EvalPadded(pv, v, x);
      EvalNScale(nv, pv, -1, x, m);
      EvalNAdd(d, pu, nv, x, m);
      CongZeroDiff(Eval(u, x), Eval(v, x), p);
    }
    ZeroByRoots(d, xs, p);
    forall k | 0 <= k < m ensures Coef(u, k) % p == Coef(v, k) % p {
      assert d[k] % p == 0 && d[k] == Coef(u, k) - Coef(v, k);
      CongZeroDiff(Coef(u, k), Coef(v, k), p);
    }
  }

  /** Two lists of |xs| + 1 coefficients with the same leading
      coefficient modulo a prime that agree at |xs| distinct points are the
      same polynomial modulo p. */
  lemma MonicSame(u: seq<int>, v: seq<int>, xs: seq<int>, p: int)
    requires IsPrime(p) && |u| == |xs| + 1 && |v| == |xs| + 1 && DistinctMod(xs, p)
    requires u[|xs|] % p == v[|xs|] % p
    requires forall j :: 0 <= j < |xs| ==> Eval(u, xs[j]) % p == Eval(v, xs[j]) % p
    ensures SamePoly(u, v, p)
  {
    var n := |xs|;
    var u', v' := u[..n], v[..n];
    forall j | 0 <= j < n ensures Eval(u', xs[j]) % p == Eval(v', xs[j]) % p {
      var x := xs[j];
      EvalNExt(u, u', x, n);
      EvalNExt(v, v', x, n);
      assert Eval(u, x) == Eval(u', x) + u[n] * Pow(x, n);
      assert Eval(v, x) == Eval(v', x) + v[n] * Pow(x, n);
      CongMul(u[n], v[n], Pow(x, n), Pow(x, n), p);
      CongSub(Eval(u, x), Eval(v, x), u[n] * Pow(x, n), v[n] * Pow(x, n), p);
    }
    SameByRoots(u', v', xs, p);
    forall k | 0 <= k < n + 1 ensures Coef(u, k) % p == Coef(v, k) % p {
      if k < n {
        assert Coef(u', k) == u[k] && Coef(v', k) == v[k];
      }
    }
  }

  /** At a common root of a and z, the discarded work list vanishes too,
      and so does its low part of |z| - 1 entries. */
  lemma RemainderRoot(a: seq<int>, z: seq<int>, x: int, p: int)
    requires p > 0 && |a| >= |z| > 0 && LeadInvertible(z, p)
    requires Eval(z, x) % p == 0 && Eval(a, x) % p == 0
    ensures |Remainder(a, z, p)| == |a|
    ensures Eval(Remainder(a, z, p)[..|z| - 1], x) % p == 0
  {
    var q := Quotient(a, z, p);
    var rem := Remainder(a, z, p);
    var n := |z| - 1;
    DivisionIdentity(a, z, p);
    QuotientShape(a, z, p);
    var cv := seq(|a|, k requires 0 <= k < |a| => Conv(q, z, |q|, k));
    EvalNAdd(a, rem, cv, x, |a|);
    EvalConv(q, z, |q|, cv, x);
    EvalNZeroTailMod(rem, x, n, |a|, p);
    EvalNExt(rem, rem[..n], x, n);
    ModMultiple(0, p);
    CongMul(Eval(q, x), Eval(q, x), Eval(z, x), 0, p);
    CongSub(Eval(a, x), 0, Eval(q, x) * Eval(z, x), 0, p);
  }

  /** A discarded work list ≡ 0 means a ≡ quotient·z. */
  lemma NoRemainder(a: seq<int>, z: seq<int>, p: int)
    requires p > 0 && |z| > 0
    requires |Remainder(a, z, p)| == |a|
    requires forall k :: 0 <= k < |a| ==> Remainder(a, z, p)[k] % p == 0
    ensures SamePoly(a, MulModp(Quotient(a, z, p), z, p), p)
  {
    var q := Quotient(a, z, p);
    var rem := Remainder(a, z, p);
    var m := MulModp(q, z, p);
    DivisionIdentity(a, z, p);
    QuotientShape(a, z, p);
    forall k | 0 <= k < Max(|a|, |m|) ensures Coef(a, k) % p == Coef(m, k) % p {
      ModMultiple(0, p);
      ModMod(Conv(q, z, |q|, k), p);
      if |q| > 0 {
        CongAdd(rem[k], 0, Conv(q, z, |q|, k), Conv(q, z, |q|, k), p);
      }
    }
  }

  /** If a vanishes modulo a prime at every root of z, where z has |xs| + 1
      coefficients, an invertible leading coefficient and the distinct
      roots xs, then fp_div_polys(a, z) leaves no remainder: the discarded
      work list is ≡ 0 and a ≡ quotient·z. */
  lemma ExactDivision(a: seq<int>, z: seq<int>, xs: seq<int>, p: int)
    requires IsPrime(p) && |z| == |xs| + 1 && LeadInvertible(z, p) && DistinctMod(xs, p)
    requires forall j :: 0 <= j < |xs| ==> Eval(z, xs[j]) % p == 0
    requires forall j :: 0 <= j < |xs| ==> Eval(a, xs[j]) % p == 0
    ensures |Remainder(a, z, p)| == |a|
    ensures forall k :: 0 <= k < |a| ==> Remainder(a, z, p)[k] % p == 0
    ensures SamePoly(a, MulModp(Quotient(a, z, p), z, p), p)
  {
    var rem := Remainder(a, z, p);
    DivisionIdentity(a, z, p);
    if |a| < |z| {
      assert rem == a;
      ZeroByRoots(a, xs, p);
    } else {
      forall j | 0 <= j < |xs| ensures Eval(rem[..|xs|], xs[j]) % p == 0 {
        RemainderRoot(a, z, xs[j], p);
      }
      ZeroByRoots(rem[..|xs|], xs, p);
      assert forall k :: 0 <= k < |xs| ==> rem[..|xs|][k] == rem[k];
    }
    NoRemainder(a, z, p);
  }
}
