/** lagrange_polynomial (bn128_pyecc_srs.py:64-76): the coefficient list of
    the Lagrange interpolation polynomial through the points of mdata,
    built as Σ_i y_i · Π_{j ≠ i} (x - x_j)·inv(x_i - x_j), with every
    intermediate product reduced modulo p, the sum left unreduced by
    poly_add, and a final reduction of every coefficient. */
module Lagrange {
  import opened ModArith
  import opened Field
  import opened Polynomial
  import opened Roots

  /** x_coords and y_coords of the source. */
  function Xs(mdata: seq<(int, int)>): (xs: seq<int>)
    ensures |xs| == |mdata|
  {
    seq(|mdata|, i requires 0 <= i < |mdata| => mdata[i].0)
  }

  function Ys(mdata: seq<(int, int)>): (ys: seq<int>)
    ensures |ys| == |mdata|
  {
    seq(|mdata|, i requires 0 <= i < |mdata| => mdata[i].1)
  }

  /** The points (x_i, y_i) of two lists, as lagrange_polynomial takes
      them. */
  function Points(xs: seq<int>, ys: seq<int>): (m: seq<(int, int)>)
    requires |ys| == |xs|
    ensures Xs(m) == xs && Ys(m) == ys
  {
    seq(|xs|, i requires 0 <= i < |xs| => (xs[i], ys[i]))
  }

  /** One round of the inner loop: basis times (x - s), scaled by c. */
  function Step(prev: seq<int>, s: int, c: int, p: int): seq<int>
    requires p > 0
  {
    PolyRmulModp(MulModp(prev, [-s, 1], p), c, p)
  }

  /** basis after the inner loop has run over range(j) for point i. */
  function Basis(xs: seq<int>, i: int, p: int, j: nat): seq<int>
    requires p > 0 && 0 <= i < |xs| && j <= |xs|
  {
    if j == 0 then [1]
    else
      var prev := Basis(xs, i, p, j - 1);
      if j - 1 == i then prev
      else Step(prev, xs[j - 1], Inv(xs[i] - xs[j - 1], p), p)
  }

  /** The basis polynomials of all the points, as the inner loop leaves
      basis for each i. */
  function Bases(xs: seq<int>, p: int): (bs: seq<seq<int>>)
    requires p > 0
    ensures |bs| == |xs|
  {
    seq(|xs|, i requires 0 <= i < |xs| => Basis(xs, i, p, |xs|))
  }

  /** base_poly after the outer loop has run over range(n), given the
      basis polynomial bs[i] of every point. */
  function LagrangeAcc(bs: seq<seq<int>>, ys: seq<int>, p: int, n: nat): seq<int>
    requires p > 0 && n <= |bs| && n <= |ys|
  {
    if n == 0 then [0]
    else PolyAdd(LagrangeAcc(bs, ys, p, n - 1), PolyRmulModp(bs[n - 1], ys[n - 1], p))
  }

  /** lagrange_polynomial(mdata, p). */
  function LagrangeSpec(mdata: seq<(int, int)>, p: int): seq<int>
    requires p > 0
  {
    var acc := LagrangeAcc(Bases(Xs(mdata), p), Ys(mdata), p, |mdata|);
    seq(|acc|, k requires 0 <= k < |acc| => acc[k] % p)
  }

  /** poly takes the value ys[k] at xs[k], modulo p, for every k. */
  predicate Interpolates(poly: seq<int>, xs: seq<int>, ys: seq<int>, p: int)
    requires p > 0 && |xs| == |ys|
  {
    forall k :: 0 <= k < |xs| ==> Eval(poly, xs[k]) % p == ys[k] % p
  }

  // ---------------------------------------------------------------------
  // Shape

  lemma {:induction false} BasisShape(xs: seq<int>, i: int, p: int, j: nat)
    requires p > 0 && 0 <= i < |xs| && j <= |xs|
    ensures |Basis(xs, i, p, j)| == if i < j then j else j + 1
  {
    if j > 0 {
      BasisShape(xs, i, p, j - 1);
    }
  }

  lemma {:induction false} LagrangeAccShape(bs: seq<seq<int>>, ys: seq<int>, p: int, n: nat, m: nat)
    requires p > 0 && n <= |bs| && n <= |ys|
    requires forall j :: 0 <= j < n ==> |bs[j]| == m
    ensures |LagrangeAcc(bs, ys, p, n)| == if n == 0 then 1 else Max(1, m)
  {
    if n > 0 {
      LagrangeAccShape(bs, ys, p, n - 1, m);
    }
  }

  /** n >= 1 points give n coefficients (one, 0, for no points), each in
      [0, p). */
  lemma LagrangeShape(mdata: seq<(int, int)>, p: int)
    requires p > 0
    ensures |LagrangeSpec(mdata, p)| == Max(1, |mdata|)
    ensures forall k :: 0 <= k < |LagrangeSpec(mdata, p)| ==> 0 <= LagrangeSpec(mdata, p)[k] < p
  {
    var xs := Xs(mdata);
    var bs := Bases(xs, p);
    forall j | 0 <= j < |mdata| ensures |bs[j]| == |mdata| {
      BasisShape(xs, j, p, |xs|);
    }
    LagrangeAccShape(bs, Ys(mdata), p, |mdata|, |mdata|);
  }

  // ---------------------------------------------------------------------
  // Values at the nodes

  /** One round of the inner loop, evaluated: the value is multiplied by
      c·(x - s). */
  lemma EvalStep(prev: seq<int>, s: int, c: int, x: int, p: int)
    requires p > 0
    ensures Eval(Step(prev, s, c, p), x) % p == (c * ((Eval(prev, x) % p) * (x - s))) % p
  {
    var m := MulModp(prev, [-s, 1], p);
    EvalRmul(m, c, x, p);
    EvalMulModp(prev, [-s, 1], x, p);
    EvalLinear(s, x);
    ModMod(Eval(prev, x), p);
    CongMul(Eval(prev, x), Eval(prev, x) % p, x - s, x - s, p);
    CongMul(c, c, Eval(m, x), (Eval(prev, x) % p) * (x - s), p);
  }

  /** c·(1·d) ≡ 1 when c inverts d. */
  lemma UnitFactor(c: int, d: int, p: int)
    requires p > 0 && (d * c) % p == 1
    ensures (c * (1 * d)) % p == 1
  {
    assert c * (1 * d) == d * c;
  }

  /** A round keeps the value 1 at x_i: c = inv(x_i - s) undoes the new
      factor. */
  lemma StepKeepsOne(prev: seq<int>, xi: int, s: int, p: int)
    requires IsPrime(p) && xi % p != s % p && Eval(prev, xi) % p == 1
    ensures Eval(Step(prev, s, Inv(xi - s, p), p), xi) % p == 1
  {
    var d := xi - s;
    CongZeroDiff(xi, s, p);
    InvCorrect(d, p);
    EvalStep(prev, s, Inv(d, p), xi, p);
    UnitFactor(Inv(d, p), d, p);
  }

  /** c·(0·d) and c·(e·0) are 0. */
  lemma ZeroFactor(c: int, e: int, d: int, p: int)
    requires p > 0 && (e == 0 || d == 0)
    ensures (c * (e * d)) % p == 0
  {
    assert e * d == 0;
  }

  /** A round keeps a root, and makes s a root. */
  lemma StepKeepsZero(prev: seq<int>, x: int, s: int, c: int, p: int)
    requires p > 0 && (Eval(prev, x) % p == 0 || x == s)
    ensures Eval(Step(prev, s, c, p), x) % p == 0
  {
    EvalStep(prev, s, c, x, p);
    ZeroFactor(c, Eval(prev, x) % p, x - s, p);
  }

  /** The step of BasisAt, from the facts about round j - 1. */
  lemma BasisAtStep(xs: seq<int>, i: int, p: int, j: nat, k: int)
    requires IsPrime(p) && 0 <= i < |xs| && 0 < j <= |xs| && 0 <= k < |xs|
    requires j - 1 != i ==> xs[i] % p != xs[j - 1] % p
    requires k == i ==> Eval(Basis(xs, i, p, j - 1), xs[k]) % p == 1
    requires k != i && k < j - 1 ==> Eval(Basis(xs, i, p, j - 1), xs[k]) % p == 0
    ensures k == i ==> Eval(Basis(xs, i, p, j), xs[k]) % p == 1
    ensures k != i && k < j ==> Eval(Basis(xs, i, p, j), xs[k]) % p == 0
  {
    var prev := Basis(xs, i, p, j - 1);
    if j - 1 != i {
      var s := xs[j - 1];
      BasisNext(xs, i, p, j - 1);
      if k == i {
        StepKeepsOne(prev, xs[i], s, p);
      } else if k < j {
        StepKeepsZero(prev, xs[k], s, Inv(xs[i] - s, p), p);
      }
    }
  }

  /** Modulo a prime and for distinct nodes, the i-th basis polynomial is
      1 at x_i and 0 at every node already multiplied in. */
  lemma {:induction false} BasisAt(xs: seq<int>, i: int, p: int, j: nat, k: int)
    requires IsPrime(p) && DistinctMod(xs, p) && 0 <= i < |xs| && j <= |xs| && 0 <= k < |xs|
    ensures k == i ==> Eval(Basis(xs, i, p, j), xs[k]) % p == 1
    ensures k != i && k < j ==> Eval(Basis(xs, i, p, j), xs[k]) % p == 0
  {
    if j == 0 {
      assert EvalN([1], xs[k], 1) == 1;
      ModSmall(1, p);
    } else {
      BasisAt(xs, i, p, j - 1, k);
      if j - 1 != i {
        assert xs[i] % p != xs[j - 1] % p;
      }
      BasisAtStep(xs, i, p, j, k);
    }
  }

  /** One round of the outer loop, evaluated at a node where the new basis
      polynomial is 0 modulo p: the value is unchanged. */
  lemma EvalAccZero(acc: seq<int>, b: seq<int>, y: int, x: int, p: int)
    requires p > 0 && Eval(b, x) % p == 0
    ensures Eval(PolyAdd(acc, PolyRmulModp(b, y, p)), x) % p == Eval(acc, x) % p
  {
    EvalPolyAdd(acc, PolyRmulModp(b, y, p), x);
    EvalRmul(b, y, x, p);
    ModMultiple(0, p);
    CongMul(y, y, Eval(b, x), 0, p);
    CongAdd(Eval(acc, x), Eval(acc, x), Eval(PolyRmulModp(b, y, p), x), 0, p);
  }

  /** One round of the outer loop, evaluated at a node where the new basis
      polynomial is 1 modulo p: y is added. */
  lemma EvalAccOne(acc: seq<int>, b: seq<int>, y: int, x: int, p: int)
    requires p > 1 && Eval(b, x) % p == 1
    ensures Eval(PolyAdd(acc, PolyRmulModp(b, y, p)), x) % p == (Eval(acc, x) + y) % p
  {
    EvalPolyAdd(acc, PolyRmulModp(b, y, p), x);
    EvalRmul(b, y, x, p);
    ModSmall(1, p);
    CongMul(y, y, Eval(b, x), 1, p);
    CongAdd(Eval(acc, x), Eval(acc, x), Eval(PolyRmulModp(b, y, p), x), y, p);
  }

  /** After n rounds of the outer loop, base_poly takes at a node x the
      value y_k when the basis polynomials there are 1 for k and 0 for the
      others (y_k counted only once round k has run). */
  lemma {:induction false} LagrangeAccAt(bs: seq<seq<int>>, ys: seq<int>, p: int, n: nat, k: int, x: int)
    requires p > 1 && n <= |bs| && |bs| == |ys| && 0 <= k < |ys|
    requires forall j :: 0 <= j < n ==> Eval(bs[j], x) % p == if j == k then 1 else 0
    ensures Eval(LagrangeAcc(bs, ys, p, n), x) % p == (if k < n then ys[k] else 0) % p
  {
    if n == 0 {
      assert EvalN([0], x, 1) == 0;
    } else {
      LagrangeAccAt(bs, ys, p, n - 1, k, x);
      LagrangeAccStep(LagrangeAcc(bs, ys, p, n - 1), bs[n - 1], LagrangeAcc(bs, ys, p, n), ys, p, n, k, x);
    }
  }

  /** The step of LagrangeAccAt: one round of the outer loop, evaluated at
      the node x = x_k, from the facts about round n - 1. */
  lemma LagrangeAccStep(acc: seq<int>, b: seq<int>, next: seq<int>, ys: seq<int>, p: int, n: nat, k: int, x: int)
    requires p > 1 && 0 < n <= |ys| && 0 <= k < |ys|
    requires next == PolyAdd(acc, PolyRmulModp(b, ys[n - 1], p))
    requires Eval(acc, x) % p == (if k < n - 1 then ys[k] else 0) % p
    requires Eval(b, x) % p == if k == n - 1 then 1 else 0
    ensures Eval(next, x) % p == (if k < n then ys[k] else 0) % p
  {
    if k == n - 1 {
      EvalAccOne(acc, b, ys[k], x, p);
      CongAdd(Eval(acc, x), 0, ys[k], ys[k], p);
    } else {
      EvalAccZero(acc, b, ys[n - 1], x, p);
    }
  }

  /** Interpolation: for x-coordinates distinct modulo a prime p,
      lagrange_polynomial evaluates to y_k at x_k, modulo p. */
  lemma LagrangeInterpolates(mdata: seq<(int, int)>, p: int)
    requires IsPrime(p) && DistinctMod(Xs(mdata), p)
    ensures Interpolates(LagrangeSpec(mdata, p), Xs(mdata), Ys(mdata), p)
  {
    var xs, ys := Xs(mdata), Ys(mdata);
    var bs := Bases(xs, p);
    var acc := LagrangeAcc(bs, ys, p, |mdata|);
    var r := LagrangeSpec(mdata, p);
    forall k | 0 <= k < |xs| ensures Eval(r, xs[k]) % p == ys[k] % p {
      forall j | 0 <= j < |xs| ensures Eval(bs[j], xs[k]) % p == if j == k then 1 else 0 {
        BasisAt(xs, j, p, |xs|, k);
      }
      LagrangeAccAt(bs, ys, p, |mdata|, k, xs[k]);
      forall i | 0 <= i < |acc| ensures r[i] % p == acc[i] % p {
        ModMod(acc[i], p);
      }
      EvalNCong(r, acc, xs[k], |acc|, p);
    }
  }

  /** Uniqueness: any list of at most n coefficients through the same n
      points is lagrange_polynomial's result modulo p. */
  lemma LagrangeUnique(mdata: seq<(int, int)>, u: seq<int>, p: int)
    requires IsPrime(p) && DistinctMod(Xs(mdata), p)
    requires |u| <= Max(1, |mdata|) && Interpolates(u, Xs(mdata), Ys(mdata), p)
    requires |mdata| == 0 ==> forall k :: 0 <= k < |u| ==> u[k] % p == 0
    ensures SamePoly(u, LagrangeSpec(mdata, p), p)
  {
    var r := LagrangeSpec(mdata, p);
    LagrangeShape(mdata, p);
    LagrangeInterpolates(mdata, p);
    if |mdata| == 0 {
      ModSmall(0, p);
      assert r == [0];
    } else {
      SameByRoots(u, r, Xs(mdata), p);
    }
  }

  /** Everything lagrange_polynomial promises, in one place. */
  lemma LagrangeFacts(mdata: seq<(int, int)>, p: int)
    requires p > 0
    ensures |LagrangeSpec(mdata, p)| == Max(1, |mdata|)
    ensures forall k :: 0 <= k < |LagrangeSpec(mdata, p)| ==> 0 <= LagrangeSpec(mdata, p)[k] < p
    ensures IsPrime(p) && DistinctMod(Xs(mdata), p) ==>
      Interpolates(LagrangeSpec(mdata, p), Xs(mdata), Ys(mdata), p)
  {
    LagrangeShape(mdata, p);
    if IsPrime(p) && DistinctMod(Xs(mdata), p) {
      LagrangeInterpolates(mdata, p);
    }
  }

  /** One round of the inner loop with j != i. */
  lemma BasisNext(xs: seq<int>, i: int, p: int, j: nat)
    requires p > 0 && 0 <= i < |xs| && j < |xs| && j != i
    ensures Basis(xs, i, p, j + 1) == Step(Basis(xs, i, p, j), xs[j], Inv(xs[i] - xs[j], p), p)
  {
  }

  /** The inner loop of lagrange_polynomial for point i: basis is
      multiplied by (x - x_j)·inv(x_i - x_j) for every j != i. */
  method BasisLoop(xCoords: seq<int>, i: int, p: int) returns (basis: seq<int>)
    requires p > 0 && 0 <= i < |xCoords|
    ensures basis == Basis(xCoords, i, p, |xCoords|)
    ensures |basis| == |xCoords|
    ensures IsPrime(p) && DistinctMod(xCoords, p) ==>
      forall k :: 0 <= k < |xCoords| ==> Eval(basis, xCoords[k]) % p == if k == i then 1 else 0
  {
    basis := [1];
    for j := 0 to |xCoords|
      invariant basis == Basis(xCoords, i, p, j)
    {
      if j == i {
        continue;
      }
      BasisNext(xCoords, i, p, j);
      basis := PolyMulModp(basis, [-xCoords[j], 1], p);
      var inv := FpInv(xCoords[i] - xCoords[j], p);
      basis := PolyRmulModp(basis, inv, p);
    }
    BasisShape(xCoords, i, p, |xCoords|);
    if IsPrime(p) && DistinctMod(xCoords, p) {
      forall k | 0 <= k < |xCoords|
        ensures Eval(basis, xCoords[k]) % p == if k == i then 1 else 0
      {
        BasisAt(xCoords, i, p, |xCoords|, k);
      }
    }
  }

  /** lagrange_polynomial as the source runs it: the outer loop over the
      points, the inner loop (BasisLoop) skipping j == i. */
  method LagrangePolynomial(mdata: seq<(int, int)>, p: int) returns (r: seq<int>)
    requires p > 0
    ensures r == LagrangeSpec(mdata, p)
    ensures |r| == Max(1, |mdata|)
    ensures forall k :: 0 <= k < |r| ==> 0 <= r[k] < p
    ensures IsPrime(p) && DistinctMod(Xs(mdata), p) ==> Interpolates(r, Xs(mdata), Ys(mdata), p)
  {
    var xCoords := Xs(mdata);
    var yCoords := Ys(mdata);
    var n := |xCoords|;
    var basePoly := [0];
    for i := 0 to n
      invariant basePoly == LagrangeAcc(Bases(xCoords, p), yCoords, p, i)
    {
      var basis := BasisLoop(xCoords, i, p);
      basePoly := PolyAdd(basePoly, PolyRmulModp(basis, yCoords[i], p));
    }
    r := seq(|basePoly|, k requires 0 <= k < |basePoly| => basePoly[k] % p);
    LagrangeFacts(mdata, p);
  }
}
