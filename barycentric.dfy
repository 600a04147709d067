/** The barycentric interpolation of barycentric_lagrange_interpolation.py
    (lines 108-120), as a function of the nodes xs (the script's indice),
    the values ys (corr_y) and the modulus p:
      A       = z_poly_modp(xs)
      A_i     = fp_div_polys(A, [-x_i, 1])                 (A_poly_list)
      w_i     = fp_inv(prod_modp(poly_add_modp(xs without x_i,
                                              [-x_i] * (l - 1))))  (w_list)
      d2_i    = poly_rmul_modp(A_i, (-1)·w_i·y_i)            (d2_list)
      P2      = poly_sum_modp(d2)
    The weight inverts Π_{j≠i} (x_j - x_i), while A_i(x_i) is
    Π_{j≠i} (x_i - x_j) = (-1)^(l-1)·Π_{j≠i} (x_j - x_i); with the extra
    factor -1 the value at x_k is (-1)^l·y_k, which is y_k for the even
    sizes the script uses (l = 2**n with n = 9). */
module Barycentric {
  import opened ModArith
  import opened Field
  import opened Polynomial
  import opened LongDivision
  import opened Roots
  import opened Vanishing
  import opened Lagrange
  import opened Sums

  /** indice_list[i]: the nodes without x_i. */
  function Others(xs: seq<int>, i: int): (o: seq<int>)
    requires 0 <= i < |xs|
    ensures |o| == |xs| - 1
    ensures forall j :: 0 <= j < |o| ==> o[j] == xs[if j < i then j else j + 1]
  {
    xs[..i] + xs[i + 1..]
  }

  /** [-c for _ in range(n)]. */
  function Negs(c: int, n: nat): seq<int>
  {
    seq(n, _ => -c)
  }

  /** A_poly_list[i]: A divided by (x - x_i), l coefficients in [0, p). */
  function AList(xs: seq<int>, p: int, i: int): (q: seq<int>)
    requires p > 0 && 0 <= i < |xs|
    ensures |q| == |xs|
    ensures forall k :: 0 <= k < |q| ==> 0 <= q[k] < p
  {
    ZPolyShape(xs, p);
    QuotientShape(ZPoly(xs, p), [-xs[i], 1], p);
    Quotient(ZPoly(xs, p), [-xs[i], 1], p)
  }

  /** The differences x_j - x_i (j ≠ i) as poly_add_modp builds them. */
  function WeightFactors(xs: seq<int>, p: int, i: int): seq<int>
    requires p > 0 && 0 <= i < |xs|
  {
    PolyAddModp(Others(xs, i), Negs(xs[i], |xs| - 1), p)
  }

  /** An inverse of m taken modulo p inverts everything congruent to m. */
  lemma InverseOfCongruent(m: int, q: int, p: int)
    requires p > 0 && m % p == q % p
    ensures 0 <= Inv(m, p) < p
    ensures q % p == 0 ==> Inv(m, p) == 0
    ensures IsPrime(p) && q % p != 0 ==> (Inv(m, p) * q) % p == 1
  {
    InvCorrect(m, p);
    if IsPrime(p) && q % p != 0 {
      CongMul(Inv(m, p), Inv(m, p), m, q, p);
      assert Inv(m, p) * m == m * Inv(m, p);
    }
  }

  /** w_list[i]: the inverse modulo p of the product of the differences, or
      0 when that product is 0 modulo p (fp_inv's answer for 0). */
  function Weight(xs: seq<int>, p: int, i: int): (w: int)
    requires p > 0 && 0 <= i < |xs|
    ensures 0 <= w < p
    ensures Prod(WeightFactors(xs, p, i)) % p == 0 ==> w == 0
    ensures IsPrime(p) && Prod(WeightFactors(xs, p, i)) % p != 0 ==>
      (w * Prod(WeightFactors(xs, p, i))) % p == 1
  {
    var L := WeightFactors(xs, p, i);
    ProdModCorrect(L, p);
    InverseOfCongruent(ProdMod(L, p), Prod(L), p);
    Inv(ProdMod(L, p), p)
  }

  /** d2_list: l polynomials of l coefficients each, all in [0, p), the
      i-th ≡ -w_i·y_i·A_i coefficient by coefficient. */
  function D2(xs: seq<int>, ys: seq<int>, p: int): (d: seq<seq<int>>)
    requires p > 0 && |ys| == |xs|
    ensures |d| == |xs|
    ensures forall i :: 0 <= i < |d| ==> |d[i]| == |xs|
    ensures forall i, k :: 0 <= i < |d| && 0 <= k < |d[i]| ==>
      0 <= d[i][k] < p && d[i][k] % p == ((-1) * Weight(xs, p, i) * ys[i] * AList(xs, p, i)[k]) % p
  {
    seq(|xs|, i requires 0 <= i < |xs| => PolyRmulModp(AList(xs, p, i), (-1) * Weight(xs, p, i) * ys[i], p))
  }

  /** P2: max(1, l) coefficients, coefficient k ≡ the sum over i of the
      k-th coefficients of d2_list. */
  function BarycentricPoly(xs: seq<int>, ys: seq<int>, p: int): (r: seq<int>)
    requires p > 0 && |ys| == |xs|
    ensures |r| == Max(1, |xs|)
    ensures forall k :: 0 <= k < |r| ==> r[k] % p == CoefSum(D2(xs, ys, p), k) % p
  {
    var L := D2(xs, ys, p);
    SumModpShape(L, p);
    MaxLenUniform(L, |xs|);
    SumModpCoefs(L, p);
    SumModp(L, p)
  }

  /** The list s - x for s in S. */
  function Diffs(S: seq<int>, x: int): (d: seq<int>)
    ensures |d| == |S|
  {
    seq(|S|, j requires 0 <= j < |S| => S[j] - x)
  }

  // ---------------------------------------------------------------------
  // Products

  lemma MulSwap3(a: int, b: int, c: int)
    ensures (a * b) * c == (a * c) * b
  {
    MulAssoc(a, b, c);
    MulAssoc(a, c, b);
    assert b * c == c * b;
  }

  /** Dropping x_i from the product Π (x - x_j) and multiplying by
      (x - x_i) again gives the same integer. */
  lemma {:induction false} ProdLinRemove(xs: seq<int>, i: int, x: int)
    requires 0 <= i < |xs|
    ensures ProdLin(xs, x) == ProdLin(Others(xs, i), x) * (x - xs[i])
    decreases |xs|
  {
    var n := |xs|;
    var xs' := xs[..n - 1];
    if i == n - 1 {
      assert Others(xs, i) == xs';
    } else {
      ProdLinRemove(xs', i, x);
      var o' := Others(xs', i);
      OthersSnoc(xs, i);
      var a, b, c := ProdLin(o', x), x - xs[i], x - xs[n - 1];
      ProdLinSnoc(o', xs[n - 1], x);
      calc {
        ProdLin(xs, x);
        ProdLin(xs', x) * c;
        (a * b) * c;
        { MulSwap3(a, b, c); }
        (a * c) * b;
        ProdLin(Others(xs, i), x) * b;
      }
    }
  }

  lemma OthersSnoc(xs: seq<int>, i: int)
    requires 0 <= i < |xs| - 1
    ensures Others(xs, i) == Others(xs[..|xs| - 1], i) + [xs[|xs| - 1]]
  {
    assert xs[i + 1..] == xs[..|xs| - 1][i + 1..] + [xs[|xs| - 1]];
  }

  lemma ProdLinSnoc(S: seq<int>, s: int, x: int)
    ensures ProdLin(S + [s], x) == ProdLin(S, x) * (x - s)
  {
    assert (S + [s])[..|S|] == S;
  }

  /** Π (x - s) = (-1)^|S| · Π (s - x). */
  lemma {:induction false} ProdLinSign(S: seq<int>, x: int)
    ensures ProdLin(S, x) == Pow(-1, |S|) * Prod(Diffs(S, x))
    decreases |S|
  {
    if |S| > 0 {
      var n := |S|;
      var S' := S[..n - 1];
      ProdLinSign(S', x);
      assert Diffs(S, x)[..n - 1] == Diffs(S', x);
      var a, b, s := Pow(-1, n - 1), Prod(Diffs(S', x)), S[n - 1];
      calc {
        ProdLin(S, x);
        (a * b) * (x - s);
        { MulAssoc(a, b, x - s); }
        a * (b * (x - s));
        { assert b * (x - s) == -(b * (s - x)); }
        a * -(b * (s - x));
        (-1 * a) * (b * (s - x));
        { MulAssoc(-1 * a, b, s - x); }
        Pow(-1, n) * Prod(Diffs(S, x));
      }
    }
  }

  /** Entrywise congruent lists have congruent products. */
  lemma {:induction false} ProdCong(L: seq<int>, M: seq<int>, p: int)
    requires p > 0 && |L| == |M|
    requires forall j :: 0 <= j < |L| ==> L[j] % p == M[j] % p
    ensures Prod(L) % p == Prod(M) % p
    decreases |L|
  {
    if |L| > 0 {
      var n := |L|;
      ProdCong(L[..n - 1], M[..n - 1], p);
      CongMul(Prod(L[..n - 1]), Prod(M[..n - 1]), L[n - 1], M[n - 1], p);
    }
  }

  /** Modulo a prime, a product of non-zero residues is non-zero. */
  lemma {:induction false} ProdNonZero(M: seq<int>, p: int)
    requires IsPrime(p)
    requires forall j :: 0 <= j < |M| ==> M[j] % p != 0
    ensures Prod(M) % p != 0
    decreases |M|
  {
    if |M| == 0 {
      ModSmall(1, p);
    } else {
      var n := |M|;
      ProdNonZero(M[..n - 1], p);
      ProductNonZero(Prod(M[..n - 1]), M[n - 1], p);
    }
  }

  // ---------------------------------------------------------------------
  // The pieces

  /** indice_list[i] keeps the nodes distinct. */
  lemma OthersDistinct(xs: seq<int>, i: int, p: int)
    requires p > 0 && 0 <= i < |xs| && DistinctMod(xs, p)
    ensures DistinctMod(Others(xs, i), p)
    ensures forall j :: 0 <= j < |xs| - 1 ==> Others(xs, i)[j] % p != xs[i] % p
  {
  }

  /** A_poly_list[i] has l coefficients, leading coefficient 1, and is
      exact: multiplying it back by (x - x_i) gives A_poly. */
  lemma AListExact(xs: seq<int>, p: int, i: int)
    requires IsPrime(p) && 0 <= i < |xs|
    ensures |AList(xs, p, i)| == |xs|
    ensures AList(xs, p, i)[|xs| - 1] == 1
    ensures MulModp(AList(xs, p, i), [-xs[i], 1], p) == ZPoly(xs, p)
  {
    var a := ZPoly(xs, p);
    var z := [-xs[i], 1];
    var q := AList(xs, p, i);
    ZPolyShape(xs, p);
    ZPolyRoots(xs, xs[i], p);
    LinearDivisor(xs[i], p);
    ExactDivision(a, z, [xs[i]], p);
    QuotientShape(a, z, p);
    MonicQuotientTop(a, xs[i], p);
    ReducedSame(a, MulModp(q, z, p), p);
  }

  /** x - c is monic, vanishes at c, and its one root is trivially
      distinct. */
  lemma LinearDivisor(c: int, p: int)
    requires p > 1
    ensures LeadInvertible([-c, 1], p)
    ensures Eval([-c, 1], c) % p == 0
    ensures DistinctMod([c], p)
  {
    EvalLinear(c, c);
    InvOne(p);
    ModSmall(1, p);
  }

  /** Dividing a list with leading coefficient 1 by x - c gives a quotient
      with leading coefficient 1. */
  lemma MonicQuotientTop(a: seq<int>, c: int, p: int)
    requires p > 1 && |a| >= 2 && a[|a| - 1] == 1
    ensures |Quotient(a, [-c, 1], p)| == |a| - 1
    ensures Quotient(a, [-c, 1], p)[|a| - 2] == 1
  {
    var z := [-c, 1];
    LinearDivisor(c, p);
    LongDivShape(a, z, p, |a| - 2);
    var t := FpDiv(1, 1, p);
    assert (t * 1) % p == 1 % p;
    ModSmall(1, p);
    ModSmall(t, p);
  }

  /** A_poly_list[i] vanishes at every other node. */
  lemma AListAtOther(xs: seq<int>, p: int, i: int, k: int)
    requires IsPrime(p) && DistinctMod(xs, p) && 0 <= i < |xs| && 0 <= k < |xs| && k != i
    ensures Eval(AList(xs, p, i), xs[k]) % p == 0
  {
    var q := AList(xs, p, i);
    var x := xs[k];
    AListExact(xs, p, i);
    EvalMulModp(q, [-xs[i], 1], x, p);
    EvalLinear(xs[i], x);
    ZPolyRoots(xs, x, p);
    CongZeroDiff(x, xs[i], p);
    ProductZero(Eval(q, x), x - xs[i], p);
  }

  /** A_poly_list[i] is z_poly_modp(indice_list[i]) modulo p. */
  lemma AListIsZPoly(xs: seq<int>, p: int, i: int)
    requires IsPrime(p) && DistinctMod(xs, p) && 0 <= i < |xs|
    ensures SamePoly(AList(xs, p, i), ZPoly(Others(xs, i), p), p)
  {
    var o := Others(xs, i);
    var q := AList(xs, p, i);
    AListExact(xs, p, i);
    ZPolyShape(o, p);
    OthersDistinct(xs, i, p);
    forall j | 0 <= j < |o| ensures Eval(q, o[j]) % p == Eval(ZPoly(o, p), o[j]) % p {
      AListAtOther(xs, p, i, if j < i then j else j + 1);
      ZPolyRoots(o, o[j], p);
    }
    MonicSame(q, ZPoly(o, p), o, p);
  }

  /** At its own node, A_poly_list[i] is Π_{j≠i} (x_i - x_j) modulo p. */
  lemma AListAtSelf(xs: seq<int>, p: int, i: int)
    requires IsPrime(p) && DistinctMod(xs, p) && 0 <= i < |xs|
    ensures Eval(AList(xs, p, i), xs[i]) % p == ProdLin(Others(xs, i), xs[i]) % p
  {
    AListIsZPoly(xs, p, i);
    SamePolyEval(AList(xs, p, i), ZPoly(Others(xs, i), p), xs[i], p);
    ZPolyEval(Others(xs, i), xs[i], p);
  }

  /** w_list[i] inverts Π_{j≠i} (x_j - x_i) modulo p. */
  lemma WeightInverse(xs: seq<int>, p: int, i: int)
    requires IsPrime(p) && DistinctMod(xs, p) && 0 <= i < |xs|
    ensures (Weight(xs, p, i) * Prod(Diffs(Others(xs, i), xs[i]))) % p == 1
  {
    var o := Others(xs, i);
    var x := xs[i];
    var d := Diffs(o, x);
    var L := PolyAddModp(o, Negs(x, |xs| - 1), p);
    var pm := ProdMod(L, p);
    OthersDistinct(xs, i, p);
    forall j | 0 <= j < |L| ensures L[j] % p == d[j] % p {
      ModMod(-x, p);
      CongAdd(o[j], o[j], (-x) % p, -x, p);
    }
    ProdCong(L, d, p);
    ProdModCorrect(L, p);
    forall j | 0 <= j < |d| ensures d[j] % p != 0 {
      CongZeroDiff(o[j], x, p);
    }
    ProdNonZero(d, p);
    InvCorrect(pm, p);
    CongMul(Inv(pm, p), Inv(pm, p), pm, Prod(d), p);
    assert Inv(pm, p) * pm == pm * Inv(pm, p);
  }

  /** d2_list[i] vanishes at x_k for k ≠ i. */
  lemma D2AtOther(xs: seq<int>, ys: seq<int>, p: int, i: int, k: int)
    requires IsPrime(p) && DistinctMod(xs, p) && |ys| == |xs| && 0 <= i < |xs| && 0 <= k < |xs| && k != i
    ensures Eval(D2(xs, ys, p)[i], xs[k]) % p == 0
  {
    var c := (-1) * Weight(xs, p, i) * ys[i];
    EvalRmul(AList(xs, p, i), c, xs[k], p);
    AListAtOther(xs, p, i, k);
    ModMultiple(0, p);
    CongMul(c, c, Eval(AList(xs, p, i), xs[k]), 0, p);
  }

  /** The integer identity behind d2_k(x_k):
      ((-1)·w·y)·((-1)^(l-1)·D) = ((-1)^l·y)·(w·D). */
  lemma SignIdentity(w: int, y: int, s: int, d: int)
    ensures ((-1) * w * y) * (s * d) == ((-1 * s) * y) * (w * d)
  {
    MulAssoc(-1 * w, y, s * d);
    MulAssoc(y, s, d);
    MulSwap3(-1 * w, y * s, d);
    assert y * s == s * y;
    MulAssoc(-1 * w, s * y, d);
    MulAssoc(-1 * s, y, w * d);
    MulAssoc(y, w, d);
    assert y * w == w * y;
    MulAssoc(w, y, d);
    MulAssoc(-1 * s, w, y * d);
    MulAssoc(-1 * w, s, y * d);
    assert (-1 * s) * w == (-1 * w) * s;
  }

  /** d2_k(x_k) ≡ (-1)^l · y_k. */
  lemma D2AtSelf(xs: seq<int>, ys: seq<int>, p: int, k: int)
    requires IsPrime(p) && DistinctMod(xs, p) && |ys| == |xs| && 0 <= k < |xs|
    ensures Eval(D2(xs, ys, p)[k], xs[k]) % p == (Pow(-1, |xs|) * ys[k]) % p
  {
    var l := |xs|;
    var w := Weight(xs, p, k);
    var c := (-1) * w * ys[k];
    var o := Others(xs, k);
    var d := Prod(Diffs(o, xs[k]));
    var s := Pow(-1, l - 1);
    EvalRmul(AList(xs, p, k), c, xs[k], p);
    AListAtSelf(xs, p, k);
    ProdLinSign(o, xs[k]);
    assert ProdLin(o, xs[k]) == s * d;
    CongMul(c, c, Eval(AList(xs, p, k), xs[k]), s * d, p);
    SignIdentity(w, ys[k], s, d);
    WeightInverse(xs, p, k);
    ModSmall(1, p);
    CongMul((-1 * s) * ys[k], (-1 * s) * ys[k], w * d, 1, p);
    assert Pow(-1, l) == -1 * s;
  }

  // ---------------------------------------------------------------------
  // What P2 is

  /** The value of P2 at every node: (-1)^l · y_k modulo p. */
  lemma BarycentricAt(xs: seq<int>, ys: seq<int>, p: int, k: int)
    requires IsPrime(p) && DistinctMod(xs, p) && |ys| == |xs| && 0 <= k < |xs|
    ensures Eval(BarycentricPoly(xs, ys, p), xs[k]) % p == (Pow(-1, |xs|) * ys[k]) % p
  {
    var L := D2(xs, ys, p);
    SumModpEval(L, xs[k], p);
    forall i | 0 <= i < |L| && i != k ensures Eval(L[i], xs[k]) % p == 0 {
      D2AtOther(xs, ys, p, i, k);
    }
    EvalSumSingle(L, xs[k], k, p);
    D2AtSelf(xs, ys, p, k);
  }

  lemma {:induction false} PowNegOne(n: nat)
    ensures Pow(-1, n) == if n % 2 == 0 then 1 else -1
  {
    if n >= 2 {
      PowNegOne(n - 2);
      assert Pow(-1, n) == -1 * (-1 * Pow(-1, n - 2));
    } else if n == 1 {
      assert Pow(-1, 1) == -1 * Pow(-1, 0);
    }
  }

  lemma {:induction false} MaxLenUniform(L: seq<seq<int>>, m: nat)
    requires forall i :: 0 <= i < |L| ==> |L[i]| == m
    ensures |L| > 0 ==> MaxLen(L) == m
    decreases |L|
  {
    if |L| > 1 {
      MaxLenUniform(L[..|L| - 1], m);
    }
  }

  /** For an even number of distinct nodes modulo a prime, P2 interpolates
      the points, and it is lagrange_polynomial's result modulo p. */
  lemma BarycentricMatchesLagrange(xs: seq<int>, ys: seq<int>, p: int)
    requires IsPrime(p) && DistinctMod(xs, p) && |ys| == |xs| && |xs| % 2 == 0
    ensures Interpolates(BarycentricPoly(xs, ys, p), xs, ys, p)
    ensures SamePoly(BarycentricPoly(xs, ys, p), LagrangeSpec(Points(xs, ys), p), p)
  {
    var u := BarycentricPoly(xs, ys, p);
    PowNegOne(|xs|);
    forall k | 0 <= k < |xs| ensures Eval(u, xs[k]) % p == ys[k] % p {
      BarycentricAt(xs, ys, p, k);
    }
    if |xs| == 0 {
      SumModpShape(D2(xs, ys, p), p);
      ModSmall(0, p);
    }
    LagrangeUnique(Points(xs, ys), u, p);
  }

  /** For an odd number of nodes P2 takes the negated values instead. */
  lemma BarycentricOdd(xs: seq<int>, ys: seq<int>, p: int, k: int)
    requires IsPrime(p) && DistinctMod(xs, p) && |ys| == |xs| && |xs| % 2 == 1 && 0 <= k < |xs|
    ensures Eval(BarycentricPoly(xs, ys, p), xs[k]) % p == (-ys[k]) % p
  {
    PowNegOne(|xs|);
    assert Pow(-1, |xs|) * ys[k] == -ys[k];
    BarycentricAt(xs, ys, p, k);
  }
}
