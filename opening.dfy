/** The coefficient side of the KZG opening proofs
    (bn128_pyecc_srs.py:141-145 and 153-163): the quotient polynomials whose
    coefficients prove_srs and batchprove_srs then map into curve points.
    The evaluation domain is 0, 1, ..., l - 1 (the script's global l) and
    the modulus p stands for the global d_p. */
module Opening {
  import opened ModArith
  import opened Field
  import opened Polynomial
  import opened LongDivision
  import opened Roots
  import opened Vanishing
  import opened Lagrange

  datatype Option<T> = None | Some(value: T)

  /** dt_list = [(i, rl[i]) for i in range(l)]. */
  function Domain(rl: seq<int>, l: nat): (m: seq<(int, int)>)
    requires l <= |rl|
    ensures |m| == l
    ensures Xs(m) == seq(l, i requires 0 <= i < l => i)
    ensures Ys(m) == rl[..l]
  {
    seq(l, i requires 0 <= i < l => (i, rl[i]))
  }

  /** The points 0..l-1 are distinct modulo p when l <= p. */
  lemma DomainDistinct(rl: seq<int>, l: nat, p: int)
    requires p > 0 && l <= |rl| && l <= p
    ensures DistinctMod(Xs(Domain(rl, l)), p)
  {
    var xs := Xs(Domain(rl, l));
    forall i, j | 0 <= i < |xs| && 0 <= j < |xs| && i != j ensures xs[i] % p != xs[j] % p {
      ModSmall(i, p);
      ModSmall(j, p);
    }
  }

  /** Interpolating on the domain gives back rl[i] at every i < l, for a
      prime p >= l. */
  lemma DomainOpens(rl: seq<int>, l: nat, p: int)
    requires p > 0 && l <= |rl|
    ensures IsPrime(p) && l <= p ==>
      forall i :: 0 <= i < l ==> Eval(LagrangeSpec(Domain(rl, l), p), i) % p == rl[i] % p
  {
    if IsPrime(p) && l <= p {
      DomainDistinct(rl, l, p);
      LagrangeInterpolates(Domain(rl, l), p);
      forall i | 0 <= i < l ensures Eval(LagrangeSpec(Domain(rl, l), p), i) % p == rl[i] % p {
        assert Xs(Domain(rl, l))[i] == i;
      }
    }
  }

  /** The committed polynomial lag_coef = lagrange_polynomial(dt_list, p):
      max(1, l) coefficients in [0, p), and, modulo a prime p >= l, it
      takes the value rl[i] at every point i of the domain. */
  function Committed(rl: seq<int>, l: nat, p: int): (c: seq<int>)
    requires p > 0 && l <= |rl|
    ensures |c| == Max(1, l)
    ensures forall k :: 0 <= k < |c| ==> 0 <= c[k] < p
    ensures IsPrime(p) && l <= p ==> forall i :: 0 <= i < l ==> Eval(c, i) % p == rl[i] % p
  {
    LagrangeShape(Domain(rl, l), p);
    DomainOpens(rl, l, p);
    LagrangeSpec(Domain(rl, l), p)
  }

  /** prove_srs: quot = fp_div_polys(lag_coef, [-ind, 1], p), one
      coefficient fewer than lag_coef, all in [0, p). */
  function ProveQuotient(rl: seq<int>, l: nat, ind: int, p: int): (q: seq<int>)
    requires p > 0 && l <= |rl|
    ensures |q| == Max(1, l) - 1
    ensures forall k :: 0 <= k < |q| ==> 0 <= q[k] < p
  {
    QuotientShape(Committed(rl, l, p), [-ind, 1], p);
    Quotient(Committed(rl, l, p), [-ind, 1], p)
  }

  /** prove_srs's quotient: the committed polynomial P satisfies P(x) ≡ q(x)·(x - ind) + P(ind) for every x, i.e.
      the remainder fp_div_polys drops is P(ind); for a prime p >= l and
      ind in the domain, P(ind) ≡ rl[ind]. */
  lemma ProveQuotientOpens(rl: seq<int>, l: nat, ind: int, p: int, x: int)
    requires p > 1 && l <= |rl|
    ensures Eval(Committed(rl, l, p), x) % p
         == (Eval(ProveQuotient(rl, l, ind, p), x) * (x - ind) + Eval(Committed(rl, l, p), ind)) % p
    ensures IsPrime(p) && l <= p && 0 <= ind < l ==>
      Eval(Committed(rl, l, p), x) % p == (Eval(ProveQuotient(rl, l, ind, p), x) * (x - ind) + rl[ind]) % p
  {
    var P := Committed(rl, l, p);
    var q := ProveQuotient(rl, l, ind, p);
    DivideByLinear(P, ind, p);
    FactorTheorem(P, ind, x, p);
    if IsPrime(p) && l <= p && 0 <= ind < l {
      CongAdd(Eval(q, x) * (x - ind), Eval(q, x) * (x - ind), Eval(P, ind), rl[ind], p);
    }
  }

  /** The numerator P - L of the batch opening, P the committed polynomial
      and L the one interpolating the claims: as long as the longer of the
      two, coefficient k ≡ P_k - L_k. */
  function BatchNumerator(rl: seq<int>, l: nat, dx: seq<int>, dy: seq<int>, p: int): (r: seq<int>)
    requires p > 0 && l <= |rl| && |dx| == |dy|
    ensures |r| == Max(Max(1, l), Max(1, |dx|))
    ensures forall k :: 0 <= k < |r| ==>
      r[k] % p == (Coef(Committed(rl, l, p), k) - Coef(LagrangeSpec(Points(dx, dy), p), k)) % p
  {
    var P := Committed(rl, l, p);
    var L := LagrangeSpec(Points(dx, dy), p);
    LagrangeShape(Points(dx, dy), p);
    NegatedCoefs(P, L, p);
    PolyAdd(P, PolyRmulModp(L, -1, p))
  }

  /** Coefficient k of P + (-1)·L is ≡ P_k - L_k. */
  lemma NegatedCoefs(P: seq<int>, L: seq<int>, p: int)
    requires p > 0
    ensures forall k :: 0 <= k < |PolyAdd(P, PolyRmulModp(L, -1, p))| ==>
      PolyAdd(P, PolyRmulModp(L, -1, p))[k] % p == (Coef(P, k) - Coef(L, k)) % p
  {
    var R := PolyRmulModp(L, -1, p);
    forall k | 0 <= k < |PolyAdd(P, R)| ensures PolyAdd(P, R)[k] % p == (Coef(P, k) - Coef(L, k)) % p {
      if k < |L| {
        CongAdd(Coef(P, k), Coef(P, k), R[k], -1 * L[k], p);
      } else {
        CongAdd(Coef(P, k), Coef(P, k), 0, 0, p);
      }
    }
  }

  /** batchprove_srs up to the curve: None when the assert
      len(dx) == len(dy) != 1 fails, otherwise the quotient
      qb_coef = fp_div_polys(P - L, z_poly_modp(dx)), where L interpolates
      the claimed (dx, dy) and P - L is poly_add(P, poly_rmul_modp(L, -1)). */
  function BatchProveQuotient(rl: seq<int>, l: nat, dx: seq<int>, dy: seq<int>, p: int): (r: Option<seq<int>>)
    requires p > 0 && l <= |rl|
    ensures r.None? <==> |dx| != |dy| || |dx| == 1
    ensures r.Some? ==> forall k :: 0 <= k < |r.value| ==> 0 <= r.value[k] < p
  {
    if |dx| != |dy| || |dx| == 1 then None
    else
      QuotientShape(BatchNumerator(rl, l, dx, dy, p), ZPoly(dx, p), p);
      Some(Quotient(BatchNumerator(rl, l, dx, dy, p), ZPoly(dx, p), p))
  }

  /** The claims are honest: distinct points of the domain whose values
      are the committed ones. */
  predicate HonestClaims(rl: seq<int>, l: nat, dx: seq<int>, dy: seq<int>, p: int)
    requires p > 0 && l <= |rl|
  {
    |dx| == |dy| && DistinctMod(dx, p) &&
    (forall j :: 0 <= j < |dx| ==> 0 <= dx[j] < l) &&
    (forall j :: 0 <= j < |dx| ==> dy[j] % p == rl[dx[j]] % p)
  }

  /** P - L vanishes at x when P and L take the same value there. */
  lemma DifferenceRoot(P: seq<int>, L: seq<int>, x: int, p: int)
    requires p > 0 && Eval(P, x) % p == Eval(L, x) % p
    ensures Eval(PolyAdd(P, PolyRmulModp(L, -1, p)), x) % p == 0
  {
    EvalPolyAdd(P, PolyRmulModp(L, -1, p), x);
    EvalRmul(L, -1, x, p);
    CongAdd(Eval(P, x), Eval(L, x), Eval(PolyRmulModp(L, -1, p), x), -1 * Eval(L, x), p);
    CongZeroDiff(Eval(L, x), Eval(L, x), p);
  }

  /** P - L vanishes at every claimed point. */
  lemma NumeratorRoots(rl: seq<int>, l: nat, dx: seq<int>, dy: seq<int>, p: int, j: int)
    requires IsPrime(p) && l <= |rl| && l <= p && HonestClaims(rl, l, dx, dy, p) && 0 <= j < |dx|
    ensures Eval(BatchNumerator(rl, l, dx, dy, p), dx[j]) % p == 0
  {
    var x := dx[j];
    LagrangeInterpolates(Points(dx, dy), p);
    assert Eval(LagrangeSpec(Points(dx, dy), p), x) % p == dy[j] % p;
    DifferenceRoot(Committed(rl, l, p), LagrangeSpec(Points(dx, dy), p), x, p);
  }

  /** For honest claims, modulo a prime p >= l, z_poly_modp(dx) divides
      P - L: the remainder fp_div_polys drops is ≡ 0 and
      P - L ≡ qb_coef·z_poly_modp(dx). */
  lemma BatchQuotientExact(rl: seq<int>, l: nat, dx: seq<int>, dy: seq<int>, p: int)
    requires IsPrime(p) && l <= |rl| && l <= p && HonestClaims(rl, l, dx, dy, p) && |dx| != 1
    ensures BatchProveQuotient(rl, l, dx, dy, p).Some?
    ensures BatchProveQuotient(rl, l, dx, dy, p).value
         == Quotient(BatchNumerator(rl, l, dx, dy, p), ZPoly(dx, p), p)
    ensures forall k :: 0 <= k < |Remainder(BatchNumerator(rl, l, dx, dy, p), ZPoly(dx, p), p)| ==>
      Remainder(BatchNumerator(rl, l, dx, dy, p), ZPoly(dx, p), p)[k] % p == 0
    ensures SamePoly(BatchNumerator(rl, l, dx, dy, p),
                     MulModp(BatchProveQuotient(rl, l, dx, dy, p).value, ZPoly(dx, p), p), p)
  {
    var a := BatchNumerator(rl, l, dx, dy, p);
    var z := ZPoly(dx, p);
    ZPolyShape(dx, p);
    InvOne(p);
    ModSmall(1, p);
    assert LeadInvertible(z, p);
    forall j | 0 <= j < |dx| ensures Eval(z, dx[j]) % p == 0 && Eval(a, dx[j]) % p == 0 {
      ZPolyRoots(dx, dx[j], p);
      NumeratorRoots(rl, l, dx, dy, p, j);
    }
    ExactDivision(a, z, dx, p);
  }
}
