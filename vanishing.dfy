/** Vanishing polynomials: z_poly_modp(S) = Π_{s in S} (x - s) and
    z_inv_modp(S, t) = Π_{i < t, i not in S} (x - i), each built by a loop
    that rebinds zp to poly_mul_modp(zp, [-i, 1], p)
    (bn128_pyecc_srs.py:98-110; the copy at
    barycentric_lagrange_interpolation.py:62-75 adds an assert on the
    length, which always holds). */
module Vanishing {
  import opened ModArith
  import opened Field
  import opened Polynomial
  import opened Roots

  /** Π (x - s) over the integers: the reference for what zp stands for. */
  function ProdLin(S: seq<int>, x: int): int
  {
    if |S| == 0 then 1 else ProdLin(S[..|S| - 1], x) * (x - S[|S| - 1])
  }

  /** zp after the loop of z_poly_modp has consumed all of S. */
  function ZPoly(S: seq<int>, p: int): seq<int>
    requires p > 0
  {
    if |S| == 0 then [1]
    else MulModp(ZPoly(S[..|S| - 1], p), [-S[|S| - 1], 1], p)
  }

  /** Length |S| + 1 always (the asserted length); for p > 1 the leading
      coefficient is 1 and every coefficient lies in [0, p). */
  lemma {:induction false} ZPolyShape(S: seq<int>, p: int)
    requires p > 0
    ensures |ZPoly(S, p)| == |S| + 1
    ensures p > 1 ==> ZPoly(S, p)[|S|] == 1
    ensures p > 1 ==> forall i :: 0 <= i < |ZPoly(S, p)| ==> 0 <= ZPoly(S, p)[i] < p
    decreases |S|
  {
    if |S| > 0 {
      var S' := S[..|S| - 1];
      ZPolyShape(S', p);
      if p > 1 {
        MulModpTop(ZPoly(S', p), [-S[|S| - 1], 1], p);
        ModSmall(1, p);
      }
    } else if p > 1 {
      ModSmall(1, p);
    }
  }

  /** zp evaluates to Π (x - s) modulo p. */
  lemma {:induction false} ZPolyEval(S: seq<int>, x: int, p: int)
    requires p > 0
    ensures Eval(ZPoly(S, p), x) % p == ProdLin(S, x) % p
    decreases |S|
  {
    if |S| > 0 {
      var S' := S[..|S| - 1];
      var s := S[|S| - 1];
      ZPolyEval(S', x, p);
      EvalMulModp(ZPoly(S', p), [-s, 1], x, p);
      EvalLinear(s, x);
      CongMul(Eval(ZPoly(S', p), x), ProdLin(S', x), x - s, x - s, p);
    } else {
      assert EvalN([1], x, 1) == 1;
    }
  }

  /** Modulo a prime, Π (x - s) ≡ 0 exactly when x ≡ some s in S. */
  lemma {:induction false} ProdLinZero(S: seq<int>, x: int, p: int)
    requires IsPrime(p)
    ensures ProdLin(S, x) % p == 0 <==> exists i :: 0 <= i < |S| && S[i] % p == x % p
    decreases |S|
  {
    if |S| == 0 {
      ModSmall(1, p);
    } else {
      var S' := S[..|S| - 1];
      var s := S[|S| - 1];
      ProdLinZero(S', x, p);
      ProductZeroIff(ProdLin(S', x), x - s, p);
      CongZeroDiff(x, s, p);
      if exists i :: 0 <= i < |S'| && S'[i] % p == x % p {
        var i :| 0 <= i < |S'| && S'[i] % p == x % p;
        assert S[i] == S'[i];
      }
      if exists i :: 0 <= i < |S| && S[i] % p == x % p {
        var i :| 0 <= i < |S| && S[i] % p == x % p;
        assert i < |S'| ==> S'[i] == S[i];
      }
    }
  }

  /** Roots: modulo a prime, z_poly_modp(S) vanishes at x exactly when x
      is one of the listed points (modulo p). */
  lemma ZPolyRoots(S: seq<int>, x: int, p: int)
    requires IsPrime(p)
    ensures Eval(ZPoly(S, p), x) % p == 0 <==> exists i :: 0 <= i < |S| && S[i] % p == x % p
  {
    ZPolyEval(S, x, p);
    ProdLinZero(S, x, p);
  }

  /** z_poly_modp as the source runs it; the length check is the assert of
      the barycentric copy. */
  method ZPolyModp(indList: seq<int>, p: int) returns (zp: seq<int>)
    requires p > 0
    ensures zp == ZPoly(indList, p)
    ensures |zp| == |indList| + 1
    ensures p > 1 ==> zp[|indList|] == 1
    ensures IsPrime(p) ==> forall i :: 0 <= i < |indList| ==> Eval(zp, indList[i]) % p == 0
  {
    zp := [1];
    for k := 0 to |indList|
      invariant zp == ZPoly(indList[..k], p)
    {
      assert indList[..k + 1][..k] == indList[..k];
      zp := PolyMulModp(zp, [-indList[k], 1], p);
    }
    assert indList[..|indList|] == indList;
    ZPolyShape(indList, p);
    assert |zp| == |indList| + 1;
    forall i | IsPrime(p) && 0 <= i < |indList| ensures Eval(zp, indList[i]) % p == 0 {
      ZPolyRoots(indList, indList[i], p);
    }
  }

  // ---------------------------------------------------------------------
  // z_inv_modp

  /** The i in [0, t) not in S, in increasing order: the factors
      z_inv_modp multiplies in. */
  function Complement(S: seq<int>, t: nat): seq<int>
  {
    if t == 0 then []
    else if t - 1 in S then Complement(S, t - 1)
    else Complement(S, t - 1) + [t - 1]
  }

  /** zp after the loop of z_inv_modp has run over range(t). */
  function ZInv(S: seq<int>, t: nat, p: int): seq<int>
    requires p > 0
  {
    if t == 0 then [1]
    else if t - 1 in S then ZInv(S, t - 1, p)
    else MulModp(ZInv(S, t - 1, p), [-(t - 1), 1], p)
  }

  /** z_inv_modp(S, t) is z_poly_modp over the complement of S in [0, t). */
  lemma {:induction false} ZInvIsZPoly(S: seq<int>, t: nat, p: int)
    requires p > 0
    ensures ZInv(S, t, p) == ZPoly(Complement(S, t), p)
  {
    if t > 0 {
      ZInvIsZPoly(S, t - 1, p);
      var C := Complement(S, t - 1);
      if t - 1 in S {
        assert Complement(S, t) == C;
      } else {
        assert Complement(S, t) == C + [t - 1];
        ZPolySnoc(C, t - 1, p);
      }
    }
  }

  /** Appending a point multiplies in one more linear factor. */
  lemma ZPolySnoc(C: seq<int>, s: int, p: int)
    requires p > 0
    ensures ZPoly(C + [s], p) == MulModp(ZPoly(C, p), [-s, 1], p)
  {
    assert (C + [s])[..|C|] == C;
  }

  lemma {:induction false} ComplementOrdered(S: seq<int>, t: nat)
    ensures forall i :: i in Complement(S, t) <==> 0 <= i < t && i !in S
    ensures forall i, j :: 0 <= i < j < |Complement(S, t)| ==> Complement(S, t)[i] < Complement(S, t)[j]
  {
    if t > 0 {
      ComplementOrdered(S, t - 1);
      if t - 1 !in S {
        var C := Complement(S, t - 1);
        forall j | 0 <= j < |C| ensures C[j] < t - 1 {
          assert C[j] in C;
        }
      }
    }
  }

  lemma {:induction false} ComplementCount(S: seq<int>, t: nat)
    ensures |Complement(S, t)| == |set i | 0 <= i < t && i !in S|
  {
    if t > 0 {
      ComplementCount(S, t - 1);
      var prev := set i | 0 <= i < t - 1 && i !in S;
      var now := set i | 0 <= i < t && i !in S;
      if t - 1 in S {
        assert now == prev;
      } else {
        assert now == prev + {t - 1};
      }
    }
  }

  /** The complement holds exactly the i in [0, t) missing from S, each
      once, in increasing order. */
  lemma ComplementElems(S: seq<int>, t: nat)
    ensures forall i :: i in Complement(S, t) <==> 0 <= i < t && i !in S
    ensures forall i, j :: 0 <= i < j < |Complement(S, t)| ==> Complement(S, t)[i] < Complement(S, t)[j]
    ensures |Complement(S, t)| == |set i | 0 <= i < t && i !in S|
  {
    ComplementOrdered(S, t);
    ComplementCount(S, t);
  }

  /** Shape and roots of z_inv_modp: 1 + #{i < t : i not in S}
      coefficients, leading coefficient 1 for p > 1, and modulo a prime it
      vanishes at every i in [0, t) missing from S and nowhere in S's part
      of [0, t) when t <= p. */
  lemma ZInvProperties(S: seq<int>, t: nat, p: int)
    requires p > 0
    ensures |ZInv(S, t, p)| == |set i | 0 <= i < t && i !in S| + 1
    ensures p > 1 ==> ZInv(S, t, p)[|ZInv(S, t, p)| - 1] == 1
    ensures IsPrime(p) ==> forall i :: 0 <= i < t && i !in S ==> Eval(ZInv(S, t, p), i) % p == 0
    ensures IsPrime(p) && t <= p ==> forall i :: 0 <= i < t && i in S ==> Eval(ZInv(S, t, p), i) % p != 0
  {
    var C := Complement(S, t);
    ZInvIsZPoly(S, t, p);
    ComplementElems(S, t);
    ZPolyShape(C, p);
    if IsPrime(p) {
      forall i | 0 <= i < t && i !in S ensures Eval(ZInv(S, t, p), i) % p == 0 {
        var j :| 0 <= j < |C| && C[j] == i;
        ZPolyRoots(C, i, p);
      }
      if t <= p {
        forall i | 0 <= i < t && i in S ensures Eval(ZInv(S, t, p), i) % p != 0 {
          ZPolyRoots(C, i, p);
          forall j | 0 <= j < |C| ensures C[j] % p != i % p {
            assert C[j] in C;
            ModSmall(C[j], p);
            ModSmall(i, p);
          }
        }
      }
    }
  }

  /** z_inv_modp as the source runs it: range(t), skipping listed i; a
      negative t is an empty range and leaves [1]. */
  method ZInvModp(indList: seq<int>, t: int, p: int) returns (zp: seq<int>)
    requires p > 0
    ensures zp == ZInv(indList, if t < 0 then 0 else t, p)
    ensures t <= 0 ==> zp == [1]
    ensures |zp| == |set i | 0 <= i < t && i !in indList| + 1
    ensures IsPrime(p) ==> forall i :: 0 <= i < t && i !in indList ==> Eval(zp, i) % p == 0
  {
    var n := if t < 0 then 0 else t;
    zp := [1];
    for i := 0 to n
      invariant zp == ZInv(indList, i, p)
    {
      if i in indList {
        continue;
      }
      zp := PolyMulModp(zp, [-i, 1], p);
    }
    ZInvProperties(indList, n, p);
    if t < 0 {
      assert (set i | 0 <= i < t && i !in indList) == {};
      assert (set i | 0 <= i < n && i !in indList) == {};
    }
  }
}
