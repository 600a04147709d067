/** Long division of coefficient lists, fp_div_polys
    (bn128_pyecc_srs.py:46-62, duplicated in
    barycentric_lagrange_interpolation.py:19-35). The source works on a copy
    of the dividend, peels one quotient coefficient per round from the top,
    subtracts quot·b at the matching offset, and returns only the quotient:
    the remainder left in the low positions is never inspected. */
module LongDivision {
  import opened ModArith
  import opened Field
  import opened Polynomial

  /** The quotient and the work list left over when the loop stops. */
  datatype DivResult = DivResult(quot: seq<int>, rem: seq<int>)

  /** The inner loop: subtract quot·b[i] from w[diff + i] for every i. */
  function SubShifted(w: seq<int>, b: seq<int>, quot: int, diff: int): (r: seq<int>)
    ensures |r| == |w|
  {
    seq(|w|, k requires 0 <= k < |w| =>
      if diff <= k < diff + |b| then w[k] - b[k - diff] * quot else w[k])
  }

  /** The outer loop from work list w and offset diff (= apos - bpos): the
      quotients found in this and later rounds, lowest degree first, and the
      final work list. */
  function LongDiv(w: seq<int>, b: seq<int>, p: int, diff: int): DivResult
    requires p > 0 && |b| > 0 && diff + |b| <= |w|
    decreases diff + 1
  {
    if diff < 0 then DivResult([], w)
    else
      var quot := FpDiv(w[diff + |b| - 1], b[|b| - 1], p);
      var rest := LongDiv(SubShifted(w, b, quot, diff), b, p, diff - 1);
      DivResult(rest.quot + [quot], rest.rem)
  }

  /** fp_div_polys(a, b, p): the quotient only. */
  function Quotient(a: seq<int>, b: seq<int>, p: int): seq<int>
    requires p > 0 && |b| > 0
  {
    LongDiv(a, b, p, |a| - |b|).quot
  }

  /** What fp_div_polys discards. */
  function Remainder(a: seq<int>, b: seq<int>, p: int): seq<int>
    requires p > 0 && |b| > 0
  {
    LongDiv(a, b, p, |a| - |b|).rem
  }

  /** b's leading coefficient has an inverse modulo p. */
  predicate LeadInvertible(b: seq<int>, p: int)
    requires p > 0 && |b| > 0
  {
    Invertible(b[|b| - 1], p)
  }

  // ---------------------------------------------------------------------
  // Facts about the loop

  lemma {:induction false} LongDivShape(w: seq<int>, b: seq<int>, p: int, diff: int)
    requires p > 0 && |b| > 0 && diff + |b| <= |w|
    ensures |LongDiv(w, b, p, diff).quot| == Max(0, diff + 1)
    ensures |LongDiv(w, b, p, diff).rem| == |w|
    ensures forall i :: 0 <= i < |LongDiv(w, b, p, diff).quot| ==> 0 <= LongDiv(w, b, p, diff).quot[i] < p
    ensures diff >= 0 ==> LongDiv(w, b, p, diff).quot[diff] == FpDiv(w[diff + |b| - 1], b[|b| - 1], p)
    decreases diff + 1
  {
    if diff >= 0 {
      var quot := FpDiv(w[diff + |b| - 1], b[|b| - 1], p);
      LongDivShape(SubShifted(w, b, quot, diff), b, p, diff - 1);
    }
  }

  /** Exact integer identity kept by the loop: the dividend equals the
      final work list plus quotient times divisor, coefficient by
      coefficient. */
  lemma {:induction false} LongDivIdentity(w: seq<int>, b: seq<int>, p: int, diff: int)
    requires p > 0 && |b| > 0 && diff + |b| <= |w|
    ensures |LongDiv(w, b, p, diff).rem| == |w|
    ensures forall k :: 0 <= k < |w| ==>
      w[k] == LongDiv(w, b, p, diff).rem[k]
              + Conv(LongDiv(w, b, p, diff).quot, b, |LongDiv(w, b, p, diff).quot|, k)
    decreases diff + 1
  {
    LongDivShape(w, b, p, diff);
    if diff >= 0 {
      var quot := FpDiv(w[diff + |b| - 1], b[|b| - 1], p);
      var w' := SubShifted(w, b, quot, diff);
      var rest := LongDiv(w', b, p, diff - 1);
      var q := rest.quot + [quot];
      LongDivIdentity(w', b, p, diff - 1);
      LongDivShape(w', b, p, diff - 1);
      forall k | 0 <= k < |w|
        ensures w[k] == rest.rem[k] + Conv(q, b, |q|, k)
      {
        IdentityStep(w, b, quot, diff, rest.quot, k);
      }
    }
  }

  /** One round of the identity at position k: appending quot to the
      quotient accounts for what the inner loop subtracted. */
  lemma IdentityStep(w: seq<int>, b: seq<int>, quot: int, diff: nat, q0: seq<int>, k: int)
    requires |q0| == diff && 0 <= k < |w|
    ensures Conv(q0 + [quot], b, diff + 1, k)
         == Conv(q0, b, diff, k) + (w[k] - SubShifted(w, b, quot, diff)[k])
  {
    ConvPrefix(q0 + [quot], q0, b, diff, k);
    assert w[k] - SubShifted(w, b, quot, diff)[k] == quot * Coef(b, k - diff);
  }

  /** With an invertible leading coefficient each round clears the top
      position modulo p, so at the end only the low |b| - 1 positions of
      the work list can be non-zero modulo p. */
  lemma {:induction false} LongDivRemHigh(w: seq<int>, b: seq<int>, p: int, diff: int)
    requires p > 0 && |b| > 0 && diff + |b| <= |w| && LeadInvertible(b, p)
    requires forall k :: 0 <= k < |w| && diff + |b| <= k ==> w[k] % p == 0
    ensures |LongDiv(w, b, p, diff).rem| == |w|
    ensures forall k :: |b| - 1 <= k < |w| ==> LongDiv(w, b, p, diff).rem[k] % p == 0
    decreases diff + 1
  {
    LongDivShape(w, b, p, diff);
    if diff >= 0 {
      var top := diff + |b| - 1;
      var lead := b[|b| - 1];
      var quot := FpDiv(w[top], lead, p);
      var w' := SubShifted(w, b, quot, diff);
      assert w'[top] == w[top] - lead * quot;
      assert w'[top] % p == 0 by {
        assert (quot * lead) % p == w[top] % p;
        assert lead * quot == quot * lead;
        CongZeroDiff(w[top], lead * quot, p);
      }
      LongDivRemHigh(w', b, p, diff - 1);
    }
  }

  /** An invertible factor cancels: u·y ≡ v·y gives u ≡ v. */
  lemma CancelInvertible(u: int, v: int, y: int, p: int)
    requires p > 0 && Invertible(y, p) && (u * y) % p == (v * y) % p
    ensures u % p == v % p
  {
    var i := Inv(y, p);
    CongMul(u * y, v * y, i, i, p);
    MulAssoc(u, y, i);
    MulAssoc(v, y, i);
    ModMod(y * i, p);
    ModSmall(1, p);
    CongMul(u, u, y * i, 1, p);
    CongMul(v, v, y * i, 1, p);
  }

  /** Subtracting u·c from w ≡ s + v·c leaves s, when u ≡ v. */
  lemma SubtractCong(w: int, s: int, u: int, v: int, c: int, p: int)
    requires p > 0 && u % p == v % p && w % p == (s + v * c) % p
    ensures (w - u * c) % p == s % p
  {
    CongMul(u, v, c, c, p);
    CongSub(w, s + v * c, u * c, v * c, p);
  }

  /** If the work list is congruent to q[..diff+1]·b, the loop recovers
      q[..diff+1] reduced modulo p. */
  lemma {:induction false} LongDivRecovers(w: seq<int>, b: seq<int>, p: int, diff: int, q: seq<int>)
    requires p > 0 && |b| > 0 && diff + |b| <= |w| && LeadInvertible(b, p)
    requires -1 <= diff < |q|
    requires forall k :: 0 <= k < |w| ==> w[k] % p == Conv(q, b, diff + 1, k) % p
    ensures LongDiv(w, b, p, diff).quot == seq(diff + 1, i requires 0 <= i < diff + 1 => q[i] % p)
    decreases diff + 1
  {
    if diff >= 0 {
      var top := diff + |b| - 1;
      var lead := b[|b| - 1];
      var quot := FpDiv(w[top], lead, p);
      var w' := SubShifted(w, b, quot, diff);
      // the top of the work list is q[diff]·lead
      ConvZeroAbove(q, b, diff, top);
      assert Conv(q, b, diff + 1, top) == q[diff] * lead;
      // so quot ≡ q[diff]
      CancelInvertible(quot, q[diff], lead, p);
      ModSmall(quot, p);
      forall k | 0 <= k < |w|
        ensures w'[k] % p == Conv(q, b, diff, k) % p
      {
        assert Conv(q, b, diff + 1, k) == Conv(q, b, diff, k) + q[diff] * Coef(b, k - diff);
        SubtractCong(w[k], Conv(q, b, diff, k), quot, q[diff], Coef(b, k - diff), p);
      }
      LongDivRecovers(w', b, p, diff - 1, q);
    }
  }

  // ---------------------------------------------------------------------
  // What fp_div_polys promises

  /** Shape: len(a) - len(b) + 1 quotient coefficients (none when a is
      shorter than b), each in [0, p). */
  lemma QuotientShape(a: seq<int>, b: seq<int>, p: int)
    requires p > 0 && |b| > 0
    ensures |Quotient(a, b, p)| == Max(0, |a| - |b| + 1)
    ensures |a| < |b| ==> Quotient(a, b, p) == []
    ensures forall i :: 0 <= i < |Quotient(a, b, p)| ==> 0 <= Quotient(a, b, p)[i] < p
  {
    LongDivShape(a, b, p, |a| - |b|);
  }

  /** Division identity: a = q·b + r exactly, coefficient by coefficient,
      where r is the discarded work list; when b's leading coefficient is
      invertible, r is ≡ 0 in every position from len(b) - 1 up. */
  lemma DivisionIdentity(a: seq<int>, b: seq<int>, p: int)
    requires p > 0 && |b| > 0
    ensures |Remainder(a, b, p)| == |a|
    ensures forall k :: 0 <= k < |a| ==>
      a[k] == Remainder(a, b, p)[k] + Conv(Quotient(a, b, p), b, |Quotient(a, b, p)|, k)
    ensures LeadInvertible(b, p) ==>
      forall k :: |b| - 1 <= k < |a| ==> Remainder(a, b, p)[k] % p == 0
  {
    LongDivIdentity(a, b, p, |a| - |b|);
    if LeadInvertible(b, p) {
      LongDivRemHigh(a, b, p, |a| - |b|);
    }
  }

  /** Round trip: dividing q·b (as poly_mul_modp computes it) by b gives q
      back, reduced modulo p, whenever b's leading coefficient is
      invertible. */
  lemma DivisionRoundTrip(q: seq<int>, b: seq<int>, p: int)
    requires p > 0 && |b| > 0 && LeadInvertible(b, p)
    ensures Quotient(MulModp(q, b, p), b, p) == seq(|q|, i requires 0 <= i < |q| => q[i] % p)
  {
    var a := MulModp(q, b, p);
    forall k | 0 <= k < |a| ensures a[k] % p == Conv(q, b, |q|, k) % p {
      ModMod(Conv(q, b, |q|, k), p);
    }
    LongDivRecovers(a, b, p, |q| - 1, q);
  }

  /** Dividing by the linear factor x - c (the list [-c, 1]) with p > 1:
      the quotient has one coefficient fewer than a and the discarded
      remainder is a(c), i.e. a ≡ q·(x - c) + a(c) coefficientwise. */
  lemma DivideByLinear(a: seq<int>, c: int, p: int)
    requires p > 1 && |a| > 0
    ensures |Quotient(a, [-c, 1], p)| == |a| - 1
    ensures forall k :: 0 <= k < |a| ==>
      a[k] % p == (Conv(Quotient(a, [-c, 1], p), [-c, 1], |a| - 1, k) + (if k == 0 then Eval(a, c) else 0)) % p
  {
    var b := [-c, 1];
    var q := Quotient(a, b, p);
    var r := Remainder(a, b, p);
    InvOne(p);
    ModSmall(1, p);
    QuotientShape(a, b, p);
    DivisionIdentity(a, b, p);
    // a(c) = r(c) + q(c)·(c - c) = r(c) ≡ r[0]
    var cv := seq(|a|, k requires 0 <= k < |a| => Conv(q, b, |q|, k));
    var w := seq(|a|, k requires 0 <= k < |a| => a[k]);
    EvalNAdd(a, r, cv, c, |a|);
    EvalConv(q, b, |q|, cv, c);
    EvalLinear(c, c);
    EvalNZeroTailMod(r, c, 1, |a|, p);
    assert EvalN(r, c, 1) == r[0];
    assert Eval(a, c) % p == r[0] % p;
    forall k | 0 <= k < |a|
      ensures a[k] % p == (Conv(q, b, |a| - 1, k) + (if k == 0 then Eval(a, c) else 0)) % p
    {
      if k == 0 {
        CongAdd(Conv(q, b, |a| - 1, k), Conv(q, b, |a| - 1, k), r[0], Eval(a, c), p);
      } else {
        ModMultiple(0, p);
        CongAdd(Conv(q, b, |a| - 1, k), Conv(q, b, |a| - 1, k), r[k], 0, p);
      }
    }
  }

  /** The factor theorem in evaluation form: a(x) ≡ q(x)·(x - c) + a(c). */
  lemma FactorTheorem(a: seq<int>, c: int, x: int, p: int)
    requires p > 1 && |a| > 0
    ensures Eval(a, x) % p == (Eval(Quotient(a, [-c, 1], p), x) * (x - c) + Eval(a, c)) % p
  {
    var b := [-c, 1];
    var q := Quotient(a, b, p);
    DivideByLinear(a, c, p);
    var cv := seq(|a|, k requires 0 <= k < |a| => Conv(q, b, |q|, k));
    var e := seq(|a|, k requires 0 <= k < |a| => if k == 0 then Eval(a, c) else 0);
    var s := seq(|a|, k requires 0 <= k < |a| => cv[k] + e[k]);
    EvalNCong(a, s, x, |a|, p);
    EvalNAdd(s, cv, e, x, |a|);
    EvalConv(q, b, |q|, cv, x);
    EvalLinear(c, x);
    EvalNZeroTail(e, x, 1, |a|);
    assert EvalN(e, x, 1) == Eval(a, c);
  }

  /** One round of the outer loop moves one quotient coefficient from the
      rounds still to run to the quotients already found. */
  lemma LongDivStep(w: seq<int>, b: seq<int>, p: int, diff: nat, quot: int, found: seq<int>)
    requires p > 0 && |b| > 0 && diff + |b| <= |w|
    requires quot == FpDiv(w[diff + |b| - 1], b[|b| - 1], p)
    ensures LongDiv(SubShifted(w, b, quot, diff), b, p, diff - 1).quot + ([quot] + found)
         == LongDiv(w, b, p, diff).quot + found
  {
  }

  /** The inner loop of fp_div_polys: for i from bpos down to 0,
      o[diff + i] -= b[i] * quot, in place. */
  method SubtractShifted(w: array<int>, b: seq<int>, quot: int, diff: nat)
    requires diff + |b| <= w.Length
    modifies w
    ensures w[..] == SubShifted(old(w[..]), b, quot, diff)
  {
    var i := |b| - 1;
    while i >= 0
      invariant -1 <= i < |b|
      invariant forall k :: 0 <= k < w.Length ==>
        w[k] == if diff + i < k < diff + |b| then old(w[k]) - b[k - diff] * quot else old(w[k])
      decreases i + 1
    {
      w[diff + i] := w[diff + i] - b[i] * quot;
      i := i - 1;
    }
  }

  /** Reducing a list whose entries are already in [0, p) changes nothing. */
  lemma ReduceReduced(q: seq<int>, p: int)
    requires p > 0
    requires forall i :: 0 <= i < |q| ==> 0 <= q[i] < p
    ensures seq(|q|, k requires 0 <= k < |q| => q[k] % p) == q
  {
    forall k | 0 <= k < |q| ensures q[k] % p == q[k] {
      ModSmall(q[k], p);
    }
  }

  /** fp_div_polys as the source runs it: the dividend copied into an
      array, one quotient coefficient prepended per round, the array
      decremented in place, and the quotient reduced at the end. */
  method FpDivPolys(a: seq<int>, b: seq<int>, p: int) returns (o: seq<int>)
    requires p > 0 && |b| > 0
    ensures o == Quotient(a, b, p)
    ensures |o| == Max(0, |a| - |b| + 1)
    ensures forall i :: 0 <= i < |o| ==> 0 <= o[i] < p
  {
    var w := new int[|a|](k requires 0 <= k < |a| => a[k]);
    ghost var cur := a;
    var quotients := [];
    var apos := |a| - 1;
    var bpos := |b| - 1;
    var diff := apos - bpos;
    while diff >= 0
      invariant apos == diff + bpos && diff + |b| <= w.Length == |cur| == |a|
      invariant w[..] == cur
      invariant LongDiv(cur, b, p, diff).quot + quotients == Quotient(a, b, p)
      decreases diff + 1
    {
      var quot := FpDiv(w[apos], b[bpos], p);
      LongDivStep(cur, b, p, diff, quot, quotients);
      quotients := [quot] + quotients;
      SubtractShifted(w, b, quot, diff);
      cur := SubShifted(cur, b, quot, diff);
      apos := apos - 1;
      diff := diff - 1;
    }
    assert LongDiv(cur, b, p, diff).quot == [];
    assert quotients == Quotient(a, b, p);
    QuotientShape(a, b, p);
    ReduceReduced(quotients, p);
    o := seq(|quotients|, k requires 0 <= k < |quotients| => quotients[k] % p);
  }
}
