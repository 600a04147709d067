/** Polynomials as coefficient lists, index i holding the coefficient of
    x^i (bn128_pyecc_srs.py:78-96, duplicated in
    barycentric_lagrange_interpolation.py:37-60). Coefficients are
    unbounded integers; the `_modp` operations reduce with `%`.
    The meaning of a list is given by Eval, its value at a point over the
    integers; most properties below are stated through Eval or
    coefficientwise modulo p. */
module Polynomial {
  import opened ModArith

  /** Coefficient i of a, reading positions outside the list as 0. */
  function Coef(a: seq<int>, i: int): int
  {
    if 0 <= i < |a| then a[i] else 0
  }

  /** Σ_{i<n} a[i]·x^i over the integers. */
  function EvalN(a: seq<int>, x: int, n: nat): int
    requires n <= |a|
  {
    if n == 0 then 0 else EvalN(a, x, n - 1) + a[n - 1] * Pow(x, n - 1)
  }

  /** The value at x of the polynomial whose coefficients are a. */
  function Eval(a: seq<int>, x: int): int
  {
    EvalN(a, x, |a|)
  }

  /** u and v are the same polynomial modulo p: their zero-padded
      coefficient lists agree coefficientwise modulo p. */
  predicate SamePoly(u: seq<int>, v: seq<int>, p: int)
    requires p > 0
  {
    forall k :: 0 <= k < Max(|u|, |v|) ==> Coef(u, k) % p == Coef(v, k) % p
  }

  // ---------------------------------------------------------------------
  // Evaluation: linearity, congruence, padding and shifting

  lemma {:induction false} EvalNExt(u: seq<int>, v: seq<int>, x: int, n: nat)
    requires n <= |u| && n <= |v|
    requires forall k :: 0 <= k < n ==> u[k] == v[k]
    ensures EvalN(u, x, n) == EvalN(v, x, n)
  {
    if n > 0 {
      EvalNExt(u, v, x, n - 1);
    }
  }

  lemma {:induction false} EvalNAdd(w: seq<int>, u: seq<int>, v: seq<int>, x: int, n: nat)
    requires n <= |w| && n <= |u| && n <= |v|
    requires forall k :: 0 <= k < n ==> w[k] == u[k] + v[k]
    ensures EvalN(w, x, n) == EvalN(u, x, n) + EvalN(v, x, n)
  {
    if n > 0 {
      EvalNAdd(w, u, v, x, n - 1);
      assert w[n - 1] * Pow(x, n - 1) == u[n - 1] * Pow(x, n - 1) + v[n - 1] * Pow(x, n - 1);
    }
  }

  lemma {:induction false} EvalNScale(w: seq<int>, v: seq<int>, c: int, x: int, n: nat)
    requires n <= |w| && n <= |v|
    requires forall k :: 0 <= k < n ==> w[k] == c * v[k]
    ensures EvalN(w, x, n) == c * EvalN(v, x, n)
  {
    if n > 0 {
      EvalNScale(w, v, c, x, n - 1);
      MulAssoc(c, v[n - 1], Pow(x, n - 1));
      MulDistrib(c, EvalN(v, x, n - 1), v[n - 1] * Pow(x, n - 1));
    }
  }

  /** Coefficients congruent modulo p give values congruent modulo p. */
  lemma {:induction false} EvalNCong(u: seq<int>, v: seq<int>, x: int, n: nat, p: int)
    requires p > 0 && n <= |u| && n <= |v|
    requires forall k :: 0 <= k < n ==> u[k] % p == v[k] % p
    ensures EvalN(u, x, n) % p == EvalN(v, x, n) % p
  {
    if n > 0 {
      EvalNCong(u, v, x, n - 1, p);
      CongMul(u[n - 1], v[n - 1], Pow(x, n - 1), Pow(x, n - 1), p);
      CongAdd(EvalN(u, x, n - 1), EvalN(v, x, n - 1),
              u[n - 1] * Pow(x, n - 1), v[n - 1] * Pow(x, n - 1), p);
    }
  }

  /** Trailing zero coefficients do not change the value. */
  lemma {:induction false} EvalNZeroTail(u: seq<int>, x: int, m: nat, n: nat)
    requires m <= n <= |u|
    requires forall k :: m <= k < n ==> u[k] == 0
    ensures EvalN(u, x, n) == EvalN(u, x, m)
    decreases n
  {
    if n > m {
      EvalNZeroTail(u, x, m, n - 1);
    }
  }

  /** Trailing coefficients ≡ 0 do not change the value modulo p. */
  lemma {:induction false} EvalNZeroTailMod(u: seq<int>, x: int, m: nat, n: nat, p: int)
    requires p > 0 && m <= n <= |u|
    requires forall k :: m <= k < n ==> u[k] % p == 0
    ensures EvalN(u, x, n) % p == EvalN(u, x, m) % p
    decreases n
  {
    if n > m {
      EvalNZeroTailMod(u, x, m, n - 1, p);
      ModMultiple(0, p);
      CongMul(u[n - 1], 0, Pow(x, n - 1), Pow(x, n - 1), p);
      CongAdd(EvalN(u, x, n - 1), EvalN(u, x, m), u[n - 1] * Pow(x, n - 1), 0, p);
    }
  }

  /** A list that reads like u (zeros past u's end) has u's value. */
  lemma EvalPadded(w: seq<int>, u: seq<int>, x: int)
    requires |w| >= |u|
    requires forall k :: 0 <= k < |w| ==> w[k] == Coef(u, k)
    ensures Eval(w, x) == Eval(u, x)
  {
    EvalNZeroTail(w, x, |u|, |w|);
    EvalNExt(w, u, x, |u|);
  }

  /** Polynomials equal modulo p have equal values modulo p. */
  lemma SamePolyEval(u: seq<int>, v: seq<int>, x: int, p: int)
    requires p > 0 && SamePoly(u, v, p)
    ensures Eval(u, x) % p == Eval(v, x) % p
  {
    var m := Max(|u|, |v|);
    var pu := seq(m, k requires 0 <= k < m => Coef(u, k));
    var pv := seq(m, k requires 0 <= k < m => Coef(v, k));
    EvalPadded(pu, u, x);
    EvalPadded(pv, v, x);
    EvalNCong(pu, pv, x, m, p);
  }

  /** Two lists of the same length with every entry in [0, p) that are
      the same polynomial modulo p are equal. */
  lemma ReducedSame(u: seq<int>, v: seq<int>, p: int)
    requires p > 0 && |u| == |v| && SamePoly(u, v, p)
    requires forall k :: 0 <= k < |u| ==> 0 <= u[k] < p && 0 <= v[k] < p
    ensures u == v
  {
    forall k | 0 <= k < |u| ensures u[k] == v[k] {
      assert Coef(u, k) % p == Coef(v, k) % p;
      ModSmall(u[k], p);
      ModSmall(v[k], p);
    }
  }

  /** A list whose entries are c·b shifted up by d positions evaluates to
      c·x^d·b(x). */
  lemma {:induction false} EvalShiftN(v: seq<int>, b: seq<int>, c: int, d: nat, x: int, j: nat)
    requires j <= |b| && d + |b| <= |v|
    requires forall k :: 0 <= k < |v| ==> v[k] == c * Coef(b, k - d)
    ensures EvalN(v, x, d + j) == c * Pow(x, d) * EvalN(b, x, j)
  {
    if j == 0 {
      EvalNZeroTail(v, x, 0, d);
    } else {
      EvalShiftN(v, b, c, d, x, j - 1);
      PowAdd(x, d, j - 1);
      var cp, t := c * Pow(x, d), b[j - 1] * Pow(x, j - 1);
      assert v[d + j - 1] == c * b[j - 1];
      assert v[d + j - 1] * Pow(x, d + j - 1) == cp * t by {
        MulAssoc(c, b[j - 1], Pow(x, d) * Pow(x, j - 1));
        MulAssoc(b[j - 1], Pow(x, d), Pow(x, j - 1));
        MulAssoc(c, Pow(x, d), b[j - 1] * Pow(x, j - 1));
        assert b[j - 1] * Pow(x, d) == Pow(x, d) * b[j - 1];
        MulAssoc(Pow(x, d), b[j - 1], Pow(x, j - 1));
      }
      MulDistrib(cp, EvalN(b, x, j - 1), t);
    }
  }

  lemma EvalShift(v: seq<int>, b: seq<int>, c: int, d: nat, x: int)
    requires d + |b| <= |v|
    requires forall k :: 0 <= k < |v| ==> v[k] == c * Coef(b, k - d)
    ensures Eval(v, x) == c * Pow(x, d) * Eval(b, x)
  {
    EvalShiftN(v, b, c, d, x, |b|);
    EvalNZeroTail(v, x, d + |b|, |v|);
  }

  /** The linear factor [-c, 1], i.e. x - c. */
  lemma EvalLinear(c: int, x: int)
    ensures Eval([-c, 1], x) == x - c
  {
    assert EvalN([-c, 1], x, 1) == -c;
  }

  // ---------------------------------------------------------------------
  // padding_zero, poly_add, poly_rmul_modp, poly_eval_modp

  /** padding_zero(lst, itr): lst followed by max(itr, 0) zeros. */
  function PaddingZero(lst: seq<int>, itr: int): (r: seq<int>)
    ensures |r| == |lst| + Max(itr, 0)
    ensures r[..|lst|] == lst
    ensures forall i :: |lst| <= i < |r| ==> r[i] == 0
  {
    seq(|lst| + Max(itr, 0), i requires 0 <= i < |lst| + Max(itr, 0) =>
      if i < |lst| then lst[i] else 0)
  }

  /** Padding with zeros does not change the polynomial. */
  lemma PaddingZeroEval(lst: seq<int>, itr: int, x: int)
    ensures Eval(PaddingZero(lst, itr), x) == Eval(lst, x)
  {
    EvalPadded(PaddingZero(lst, itr), lst, x);
  }

  /** poly_add: both operands padded by the length difference and zipped,
      so the result has the longer length and entry i is a_i + b_i (missing
      entries read as 0, nothing reduced). */
  function PolyAdd(a: seq<int>, b: seq<int>): (r: seq<int>)
    ensures |r| == Max(|a|, |b|)
    ensures forall i :: 0 <= i < |r| ==> r[i] == Coef(a, i) + Coef(b, i)
  {
    var difc := Max(|a|, |b|) - Min(|a|, |b|);
    var pa := PaddingZero(a, difc);
    var pb := PaddingZero(b, difc);
    seq(Min(|pa|, |pb|), i requires 0 <= i < Min(|pa|, |pb|) => pa[i] + pb[i])
  }

  /** Adding coefficient lists adds the polynomials. */
  lemma EvalPolyAdd(a: seq<int>, b: seq<int>, x: int)
    ensures Eval(PolyAdd(a, b), x) == Eval(a, x) + Eval(b, x)
  {
    var w := PolyAdd(a, b);
    var pa := seq(|w|, k requires 0 <= k < |w| => Coef(a, k));
    var pb := seq(|w|, k requires 0 <= k < |w| => Coef(b, k));
    EvalNAdd(w, pa, pb, x, |w|);
    EvalPadded(pa, a, x);
    EvalPadded(pb, b, x);
  }

  /** poly_rmul_modp: every coefficient multiplied by a and reduced. */
  function PolyRmulModp(poly: seq<int>, a: int, p: int): (r: seq<int>)
    requires p > 0
    ensures |r| == |poly|
    ensures forall i :: 0 <= i < |r| ==> 0 <= r[i] < p && r[i] % p == (a * poly[i]) % p
  {
    var r := seq(|poly|, i requires 0 <= i < |poly| => (poly[i] * a) % p);
    assert forall i :: 0 <= i < |r| ==> r[i] % p == (a * poly[i]) % p by {
      forall i | 0 <= i < |r| ensures r[i] % p == (a * poly[i]) % p {
        ModMod(poly[i] * a, p);
        assert poly[i] * a == a * poly[i];
      }
    }
    r
  }

  /** Scaling the coefficients scales the polynomial (mod p). */
  lemma EvalRmul(poly: seq<int>, a: int, x: int, p: int)
    requires p > 0
    ensures Eval(PolyRmulModp(poly, a, p), x) % p == (a * Eval(poly, x)) % p
  {
    var r := PolyRmulModp(poly, a, p);
    var s := seq(|poly|, i requires 0 <= i < |poly| => a * poly[i]);
    EvalNCong(r, s, x, |poly|, p);
    EvalNScale(s, poly, a, x, |poly|);
  }

  /** The sum Σ_{i<n} (poly[i]·r^i % p) % p that poly_eval_modp reduces. */
  function TermSum(poly: seq<int>, r: int, p: int, n: nat): int
    requires p > 0 && n <= |poly|
  {
    if n == 0 then 0 else TermSum(poly, r, p, n - 1) + ((poly[n - 1] * Pow(r, n - 1)) % p) % p
  }

  lemma {:induction false} TermSumCong(poly: seq<int>, r: int, p: int, n: nat)
    requires p > 0 && n <= |poly|
    ensures TermSum(poly, r, p, n) % p == EvalN(poly, r, n) % p
  {
    if n > 0 {
      TermSumCong(poly, r, p, n - 1);
      var t := poly[n - 1] * Pow(r, n - 1);
      ModMod(t, p);
      ModMod(t % p, p);
      CongAdd(TermSum(poly, r, p, n - 1), EvalN(poly, r, n - 1), (t % p) % p, t, p);
    }
  }

  /** poly_eval_modp(poly, r, p): the value of poly at r, reduced into
      [0, p). */
  function PolyEvalModp(poly: seq<int>, r: int, p: int): (v: int)
    requires p > 0
    ensures 0 <= v < p
    ensures v == Eval(poly, r) % p
  {
    TermSumCong(poly, r, p, |poly|);
    ModMod(TermSum(poly, r, p, |poly|), p);
    TermSum(poly, r, p, |poly|) % p
  }

  // ---------------------------------------------------------------------
  // poly_mul_modp

  /** Σ_{i<n} a[i]·b[k-i]: coefficient k of the exact product of a[..n]
      and b. */
  function Conv(a: seq<int>, b: seq<int>, n: nat, k: int): int
    requires n <= |a|
  {
    if n == 0 then 0 else Conv(a, b, n - 1, k) + a[n - 1] * Coef(b, k - (n - 1))
  }

  /** The same sum with every product reduced, as poly_mul_modp
      accumulates it in prod[k]. */
  function ConvRed(a: seq<int>, b: seq<int>, p: int, n: nat, k: int): int
    requires p > 0 && n <= |a|
  {
    if n == 0 then 0
    else ConvRed(a, b, p, n - 1, k)
         + (if 0 <= k - (n - 1) < |b| then (a[n - 1] * b[k - (n - 1)]) % p else 0)
  }

  lemma {:induction false} ConvRedCong(a: seq<int>, b: seq<int>, p: int, n: nat, k: int)
    requires p > 0 && n <= |a|
    ensures ConvRed(a, b, p, n, k) % p == Conv(a, b, n, k) % p
  {
    if n > 0 {
      ConvRedCong(a, b, p, n - 1, k);
      var t := a[n - 1] * Coef(b, k - (n - 1));
      var tr := if 0 <= k - (n - 1) < |b| then (a[n - 1] * b[k - (n - 1)]) % p else 0;
      assert tr % p == t % p by {
        ModMod(a[n - 1] * Coef(b, k - (n - 1)), p);
      }
      CongAdd(ConvRed(a, b, p, n - 1, k), Conv(a, b, n - 1, k), tr, t, p);
    }
  }

  /** Past position n - 1 + |b| the product of a[..n] and b has no terms. */
  lemma {:induction false} ConvZeroAbove(a: seq<int>, b: seq<int>, n: nat, k: int)
    requires n <= |a| && k >= n - 1 + |b|
    ensures Conv(a, b, n, k) == 0
  {
    if n > 0 {
      ConvZeroAbove(a, b, n - 1, k);
    }
  }

  /** Conv reads only the first n entries of a. */
  lemma {:induction false} ConvPrefix(a: seq<int>, a': seq<int>, b: seq<int>, n: nat, k: int)
    requires n <= |a| && n <= |a'|
    requires forall i :: 0 <= i < n ==> a[i] == a'[i]
    ensures Conv(a, b, n, k) == Conv(a', b, n, k)
  {
    if n > 0 {
      ConvPrefix(a, a', b, n - 1, k);
    }
  }

  /** Coefficient lists of the exact product evaluate to the product of
      the values: Σ_k Conv(a, b, n, k)·x^k == a[..n](x)·b(x). */
  lemma {:induction false} EvalConv(a: seq<int>, b: seq<int>, n: nat, c: seq<int>, x: int)
    requires n <= |a| && |c| >= n + |b| - 1
    requires forall k :: 0 <= k < |c| ==> c[k] == Conv(a, b, n, k)
    ensures Eval(c, x) == EvalN(a, x, n) * Eval(b, x)
  {
    if n == 0 {
      var z := seq(|c|, k requires 0 <= k < |c| => 0);
      EvalNExt(c, z, x, |c|);
      EvalNZeroTail(z, x, 0, |c|);
    } else {
      var c' := seq(|c|, k requires 0 <= k < |c| => Conv(a, b, n - 1, k));
      var v := seq(|c|, k requires 0 <= k < |c| => a[n - 1] * Coef(b, k - (n - 1)));
      EvalConv(a, b, n - 1, c', x);
      EvalNAdd(c, c', v, x, |c|);
      if |b| > 0 {
        EvalShift(v, b, a[n - 1], n - 1, x);
      } else {
        var z := seq(|c|, k requires 0 <= k < |c| => 0);
        EvalNExt(v, z, x, |c|);
        EvalNZeroTail(z, x, 0, |c|);
        assert Eval(b, x) == 0;
      }
      MulDistrib(Eval(b, x), EvalN(a, x, n - 1), a[n - 1] * Pow(x, n - 1));
    }
  }

  /** Length of poly_mul_modp's result: len(a) + len(b) - 1 (an empty
      range, hence an empty list, when both are empty). */
  function MulLen(a: seq<int>, b: seq<int>): nat
  {
    if |a| + |b| >= 1 then |a| + |b| - 1 else 0
  }

  /** poly_mul_modp(a, b, p): the schoolbook product with every partial
      product reduced, then every coefficient reduced. Its coefficient k
      is the exact convolution Σ_{i+j=k} a_i·b_j reduced into [0, p). */
  function MulModp(a: seq<int>, b: seq<int>, p: int): (r: seq<int>)
    requires p > 0
    ensures |r| == MulLen(a, b)
    ensures forall k :: 0 <= k < |r| ==> 0 <= r[k] < p && r[k] == Conv(a, b, |a|, k) % p
  {
    var r := seq(MulLen(a, b), k requires 0 <= k < MulLen(a, b) => ConvRed(a, b, p, |a|, k) % p);
    assert forall k :: 0 <= k < |r| ==> r[k] == Conv(a, b, |a|, k) % p by {
      forall k | 0 <= k < |r| ensures r[k] == Conv(a, b, |a|, k) % p {
        ConvRedCong(a, b, p, |a|, k);
      }
    }
    r
  }

  /** Multiplying coefficient lists multiplies the polynomials (mod p). */
  lemma EvalMulModp(a: seq<int>, b: seq<int>, x: int, p: int)
    requires p > 0
    ensures Eval(MulModp(a, b, p), x) % p == (Eval(a, x) * Eval(b, x)) % p
  {
    var r := MulModp(a, b, p);
    var c := seq(|r|, k requires 0 <= k < |r| => Conv(a, b, |a|, k));
    forall k | 0 <= k < |r| ensures r[k] % p == c[k] % p {
      ModMod(c[k], p);
    }
    EvalNCong(r, c, x, |r|, p);
    EvalConv(a, b, |a|, c, x);
  }

  /** The top coefficient of a product is the product of the top
      coefficients, reduced. */
  lemma MulModpTop(a: seq<int>, b: seq<int>, p: int)
    requires p > 0 && |a| > 0 && |b| > 0
    ensures MulModp(a, b, p)[|a| + |b| - 2] == (a[|a| - 1] * b[|b| - 1]) % p
  {
    ConvZeroAbove(a, b, |a| - 1, |a| + |b| - 2);
  }

  /** poly_mul_modp as the source runs it: partial products accumulated
      into a zero-initialised list by a double loop, then reduced. */
  method PolyMulModp(a: seq<int>, b: seq<int>, p: int) returns (r: seq<int>)
    requires p > 0
    ensures r == MulModp(a, b, p)
    ensures |r| == MulLen(a, b)
    ensures forall k :: 0 <= k < |r| ==> 0 <= r[k] < p && r[k] == Conv(a, b, |a|, k) % p
  {
    var n := MulLen(a, b);
    var prod := new int[n](_ => 0);
    for i := 0 to |a|
      invariant forall k :: 0 <= k < n ==> prod[k] == ConvRed(a, b, p, i, k)
    {
      for j := 0 to |b|
        invariant forall k :: 0 <= k < n ==>
          prod[k] == ConvRed(a, b, p, i, k) + (if i <= k < i + j then (a[i] * b[k - i]) % p else 0)
      {
        prod[i + j] := prod[i + j] + (a[i] * b[j]) % p;
      }
    }
    var coefs := prod[..];
    r := seq(n, k requires 0 <= k < n => coefs[k] % p);
  }
}
