/** The helpers only the barycentric script has
    (barycentric_lagrange_interpolation.py:44-50, 85-95): poly_add_modp,
    which reduces only its second operand; poly_sum_modp, a fold of
    poly_add_modp from [0]; prod_modp, a running product reduced after
    every factor; and poly_eval_modp over a precomputed table of powers. */
module Sums {
  import opened ModArith
  import opened Polynomial

  /** poly_add_modp(a, b, p): entry i is a_i + (b_i % p), because `%` binds
      tighter than `+` in `i + j % p`. */
  function PolyAddModp(a: seq<int>, b: seq<int>, p: int): (r: seq<int>)
    requires p > 0
    ensures |r| == Max(|a|, |b|)
    ensures forall i :: 0 <= i < |r| ==> r[i] - Coef(a, i) == Coef(b, i) % p
  {
    var difc := Max(|a|, |b|) - Min(|a|, |b|);
    var pa, pb := PaddingZero(a, difc), PaddingZero(b, difc);
    seq(Min(|pa|, |pb|), i requires 0 <= i < Min(|pa|, |pb|) => pa[i] + pb[i] % p)
  }

  /** poly_add_modp is poly_add modulo p. */
  lemma PolyAddModpSame(a: seq<int>, b: seq<int>, p: int)
    requires p > 0
    ensures SamePoly(PolyAddModp(a, b, p), PolyAdd(a, b), p)
  {
    var r := PolyAddModp(a, b, p);
    forall k | 0 <= k < |r| ensures Coef(r, k) % p == Coef(PolyAdd(a, b), k) % p {
      ModMod(Coef(b, k), p);
      CongAdd(Coef(a, k), Coef(a, k), Coef(b, k) % p, Coef(b, k), p);
    }
  }

  /** Only the second operand is reduced: [p] + [0] stays [p]. */
  lemma PolyAddModpFirstUnreduced(p: int)
    requires p > 0
    ensures PolyAddModp([p], [0], p) == [p]
  {
    assert PolyAddModp([p], [0], p)[0] == p + 0 % p;
  }

  // ---------------------------------------------------------------------
  // poly_sum_modp

  /** The longest length in the list (0 for no lists). */
  function MaxLen(L: seq<seq<int>>): nat
  {
    if |L| == 0 then 0 else Max(MaxLen(L[..|L| - 1]), |L[|L| - 1]|)
  }

  /** Σ_j L[j](x) over the integers. */
  function EvalSum(L: seq<seq<int>>, x: int): int
  {
    if |L| == 0 then 0 else EvalSum(L[..|L| - 1], x) + Eval(L[|L| - 1], x)
  }

  /** Σ_j coefficient k of L[j], over the integers. */
  function CoefSum(L: seq<seq<int>>, k: int): int
  {
    if |L| == 0 then 0 else CoefSum(L[..|L| - 1], k) + Coef(L[|L| - 1], k)
  }

  /** ps after poly_sum_modp's loop has folded all of L. */
  function SumModp(L: seq<seq<int>>, p: int): seq<int>
    requires p > 0
  {
    if |L| == 0 then [0] else PolyAddModp(SumModp(L[..|L| - 1], p), L[|L| - 1], p)
  }

  /** max(1, longest input) coefficients; [0] for no inputs. */
  lemma {:induction false} SumModpShape(L: seq<seq<int>>, p: int)
    requires p > 0
    ensures |SumModp(L, p)| == Max(1, MaxLen(L))
    ensures |L| == 0 ==> SumModp(L, p) == [0]
  {
    if |L| > 0 {
      SumModpShape(L[..|L| - 1], p);
    }
  }

  /** Coefficient k of the result is ≡ the sum of the inputs' coefficients k. */
  lemma {:induction false} SumModpCoef(L: seq<seq<int>>, k: int, p: int)
    requires p > 0
    ensures Coef(SumModp(L, p), k) % p == CoefSum(L, k) % p
  {
    if |L| == 0 {
      ModSmall(0, p);
    } else {
      var L' := L[..|L| - 1];
      var b := L[|L| - 1];
      SumModpCoef(L', k, p);
      var s := SumModp(L', p);
      ModMod(Coef(b, k), p);
      if 0 <= k < Max(|s|, |b|) {
        CongAdd(Coef(s, k), CoefSum(L', k), Coef(b, k) % p, Coef(b, k), p);
      } else {
        assert Coef(s, k) == 0;
        CongAdd(Coef(s, k), CoefSum(L', k), 0, Coef(b, k), p);
      }
    }
  }

  /** SumModpCoef for every coefficient of the result at once. */
  lemma SumModpCoefs(L: seq<seq<int>>, p: int)
    requires p > 0
    ensures forall k :: 0 <= k < |SumModp(L, p)| ==> SumModp(L, p)[k] % p == CoefSum(L, k) % p
  {
    forall k | 0 <= k < |SumModp(L, p)| ensures SumModp(L, p)[k] % p == CoefSum(L, k) % p {
      SumModpCoef(L, k, p);
    }
  }

  /** The result evaluates to the sum of the inputs' values, modulo p. */
  lemma {:induction false} SumModpEval(L: seq<seq<int>>, x: int, p: int)
    requires p > 0
    ensures Eval(SumModp(L, p), x) % p == EvalSum(L, x) % p
  {
    if |L| == 0 {
      assert EvalN([0], x, 1) == 0;
    } else {
      var L' := L[..|L| - 1];
      var b := L[|L| - 1];
      var s := SumModp(L', p);
      SumModpEval(L', x, p);
      PolyAddModpSame(s, b, p);
      SamePolyEval(PolyAddModp(s, b, p), PolyAdd(s, b), x, p);
      EvalPolyAdd(s, b, x);
      CongAdd(Eval(s, x), EvalSum(L', x), Eval(b, x), Eval(b, x), p);
    }
  }

  /** A sum in which every term but L[k] is ≡ 0 is ≡ L[k]. */
  lemma {:induction false} EvalSumSingle(L: seq<seq<int>>, x: int, k: int, p: int)
    requires p > 0 && 0 <= k < |L|
    requires forall i :: 0 <= i < |L| && i != k ==> Eval(L[i], x) % p == 0
    ensures EvalSum(L, x) % p == Eval(L[k], x) % p
    decreases |L|
  {
    var n := |L|;
    var L' := L[..n - 1];
    var e := Eval(L[n - 1], x);
    ModMultiple(0, p);
    if k < n - 1 {
      EvalSumSingle(L', x, k, p);
      CongAdd(EvalSum(L', x), Eval(L'[k], x), e, 0, p);
    } else {
      EvalSumZero(L', x, p);
      CongAdd(EvalSum(L', x), 0, e, e, p);
    }
  }

  /** A sum of terms ≡ 0 is ≡ 0. */
  lemma {:induction false} EvalSumZero(L: seq<seq<int>>, x: int, p: int)
    requires p > 0
    requires forall i :: 0 <= i < |L| ==> Eval(L[i], x) % p == 0
    ensures EvalSum(L, x) % p == 0
    decreases |L|
  {
    ModMultiple(0, p);
    if |L| > 0 {
      EvalSumZero(L[..|L| - 1], x, p);
      CongAdd(EvalSum(L[..|L| - 1], x), 0, Eval(L[|L| - 1], x), 0, p);
    }
  }

  /** poly_sum_modp as the source runs it. */
  method PolySumModp(polyList: seq<seq<int>>, p: int) returns (ps: seq<int>)
    requires p > 0
    ensures ps == SumModp(polyList, p)
    ensures |ps| == Max(1, MaxLen(polyList))
    ensures forall k :: 0 <= k < |ps| ==> ps[k] % p == CoefSum(polyList, k) % p
  {
    ps := [0];
    for n := 0 to |polyList|
      invariant ps == SumModp(polyList[..n], p)
    {
      assert polyList[..n + 1][..n] == polyList[..n];
      ps := PolyAddModp(ps, polyList[n], p);
    }
    assert polyList[..|polyList|] == polyList;
    SumModpShape(polyList, p);
    forall k | 0 <= k < |ps| ensures ps[k] % p == CoefSum(polyList, k) % p {
      SumModpCoef(polyList, k, p);
    }
  }

  // ---------------------------------------------------------------------
  // prod_modp

  /** Π L over the integers. */
  function Prod(L: seq<int>): int
  {
    if |L| == 0 then 1 else Prod(L[..|L| - 1]) * L[|L| - 1]
  }

  /** prod after prod_modp's loop: prod = prod * i % p per element. */
  function ProdMod(L: seq<int>, p: int): int
    requires p > 0
  {
    if |L| == 0 then 1 else (ProdMod(L[..|L| - 1], p) * L[|L| - 1]) % p
  }

  /** 1 for the empty list; otherwise in [0, p) and ≡ Π L. */
  lemma {:induction false} ProdModCorrect(L: seq<int>, p: int)
    requires p > 0
    ensures |L| == 0 ==> ProdMod(L, p) == 1
    ensures |L| > 0 ==> 0 <= ProdMod(L, p) < p
    ensures ProdMod(L, p) % p == Prod(L) % p
  {
    if |L| > 0 {
      var L' := L[..|L| - 1];
      ProdModCorrect(L', p);
      ModMod(ProdMod(L', p) * L[|L| - 1], p);
      CongMul(ProdMod(L', p), Prod(L'), L[|L| - 1], L[|L| - 1], p);
    }
  }

  /** prod_modp as the source runs it. */
  method ProdModp(indList: seq<int>, p: int) returns (prod: int)
    requires p > 0
    ensures prod == ProdMod(indList, p)
    ensures |indList| == 0 ==> prod == 1
    ensures |indList| > 0 ==> 0 <= prod < p
    ensures prod % p == Prod(indList) % p
  {
    prod := 1;
    for n := 0 to |indList|
      invariant prod == ProdMod(indList[..n], p)
    {
      assert indList[..n + 1][..n] == indList[..n];
      prod := prod * indList[n] % p;
    }
    assert indList[..|indList|] == indList;
    ProdModCorrect(indList, p);
  }

  // ---------------------------------------------------------------------
  // poly_eval_modp with a table of powers

  /** Σ_{i<n} (poly[i]·rPow[i]) % p. */
  function PowTermSum(poly: seq<int>, rPow: seq<int>, p: int, n: nat): int
    requires p > 0 && n <= |poly| && n <= |rPow|
  {
    if n == 0 then 0 else PowTermSum(poly, rPow, p, n - 1) + (poly[n - 1] * rPow[n - 1]) % p
  }

  lemma {:induction false} PowTermSumCong(poly: seq<int>, r: int, p: int, n: nat)
    requires p > 0 && n <= |poly|
    ensures PowTermSum(poly, seq(|poly|, i requires 0 <= i < |poly| => Pow(r, i) % p), p, n) % p
         == EvalN(poly, r, n) % p
  {
    if n > 0 {
      var rPow := seq(|poly|, i requires 0 <= i < |poly| => Pow(r, i) % p);
      PowTermSumCong(poly, r, p, n - 1);
      var t := (poly[n - 1] * rPow[n - 1]) % p;
      ModMod(Pow(r, n - 1), p);
      CongMul(poly[n - 1], poly[n - 1], rPow[n - 1], Pow(r, n - 1), p);
      ModMod(poly[n - 1] * rPow[n - 1], p);
      CongAdd(PowTermSum(poly, rPow, p, n - 1), EvalN(poly, r, n - 1), t, poly[n - 1] * Pow(r, n - 1), p);
    }
  }

  /** poly_eval_modp of the barycentric script: r_pow[i] = r**i % p, then
      the sum of (poly[i]·r_pow[i]) % p, reduced. It is the value of poly
      at r modulo p, the same as the other poly_eval_modp. */
  function PolyEvalPowers(poly: seq<int>, r: int, p: int): (v: int)
    requires p > 0
    ensures 0 <= v < p
    ensures v == Eval(poly, r) % p
    ensures v == PolyEvalModp(poly, r, p)
  {
    var rPow := seq(|poly|, i requires 0 <= i < |poly| => Pow(r, i) % p);
    PowTermSumCong(poly, r, p, |poly|);
    PowTermSum(poly, rPow, p, |poly|) % p
  }
}
