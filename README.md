# KZG polynomial algebra over a prime field, in Dafny

This project models the finite-field polynomial algebra of a small KZG-style
polynomial-commitment script and its barycentric-interpolation companion
(`bn128_pyecc_srs.py` and `barycentric_lagrange_interpolation.py`). A
polynomial is a list of integer coefficients, index `i` holding the
coefficient of `x^i`, and every operation works modulo a positive modulus
`p`; the script uses a large prime. The model covers:

- field inversion by the extended Euclidean algorithm and division;
- zero padding, addition, addition mod p, scaling, schoolbook
  multiplication, evaluation (plain and with precomputed powers);
- long division, including its silent remainder truncation;
- vanishing polynomials `z_poly_modp` and `z_inv_modp`;
- direct Lagrange interpolation;
- the barycentric interpolation of the second script, as a function of
  its nodes, values and modulus;
- the coefficient side of `prove_srs` and `batchprove_srs`, up to the
  point where the coefficients are mapped into curve points.

The loop-based routines are methods, proved equal to a recursive
specification function; the properties are proved about those functions.

| module | file | contents |
|---|---|---|
| `ModArith` | modarith.dfy | powers, primality, congruence lemmas |
| `Field` | field.dfy | `fp_inv` (loop and specification), `fp_div` |
| `Polynomial` | polynomial.dfy | evaluation, padding, addition, scaling, `poly_eval_modp`, `poly_mul_modp` |
| `LongDivision` | division.dfy | `fp_div_polys` on an array copy, division identity, round trip, factor theorem |
| `Roots` | roots.dfy | a polynomial with more distinct roots than coefficients vanishes; exact division |
| `Vanishing` | vanishing.dfy | `z_poly_modp`, `z_inv_modp` |
| `Lagrange` | lagrange.dfy | `lagrange_polynomial` |
| `Sums` | sums.dfy | `poly_add_modp`, `poly_sum_modp`, `prod_modp`, evaluation with precomputed powers |
| `Barycentric` | barycentric.dfy | the barycentric computation and its agreement with Lagrange |
| `Opening` | opening.dfy | quotients of `prove_srs` and `batchprove_srs` |

Python's `%` with a positive modulus is Dafny's Euclidean `%`, and Python
integers are unbounded like Dafny's `int`, so no wrap-around is modelled.

Behaviour kept exactly as the code has it:

- `fp_inv` returns 0 for `a ≡ 0`.
- `fp_div_polys` never looks at the remainder it leaves behind and
  performs no remainder check; it returns the quotient alone.
  `DivisionIdentity` and `FactorTheorem` state what that remainder is:
  for division by `x - ind` it is `P(ind)`.
  `ExactDivision` and `BatchQuotientExact` prove it is ≡ 0 where the
  protocol divides a polynomial that vanishes on the divisor's roots.
- `poly_add_modp` computes `i + j % p`, which reduces only the second
  operand. The result is congruent to the sum but can lie outside
  `[0, p)`. `PolyAddModpFirstUnreduced` shows such a case. The barycentric
  sum `P2` is therefore only claimed congruent to its expected
  coefficients, never reduced.
- `prove_srs` divides `P` itself by `x - ind`. The remainder it drops is
  `P(ind)` (`ProveQuotientOpens`), so `q` is also the quotient of
  `(P - P(ind))/(x - ind)`, and `P(x) ≡ q(x)·(x - ind) + P(ind)`.
- The barycentric weights. The code (barycentric_lagrange_interpolation.py:118)
  makes `w_i` invert `Π_{j≠i}(x_j - x_i)`, which for odd `l - 1` is the
  negation of the textbook `Π_{j≠i}(x_i - x_j)`, and line 119 multiplies
  by an extra `-1`.
  `A_i(x_i)` is `Π_{j≠i}(x_i - x_j)`, so the model proves that `P2(x_k) ≡ (-1)^l·y_k`.
  For the even sizes the script runs (`l = 2**9`) this is `y_k`, and `P2`
  agrees with `lagrange_polynomial` modulo p (`BarycentricMatchesLagrange`).
  For odd `l` it is `-y_k` (`BarycentricOdd`).
- The script's globals become parameters:
  - `d_p` and the barycentric script's `p` become the parameter `p`.
  - The domain size `l` becomes the length of the node list.
  - The committed values `rl` become a parameter.

## Model

| member | source | states |
|---|---|---|
| Field.FpInv | bn128_pyecc_srs.py:30-41 | the loop's result is in [0, p), is 0 when a ≡ 0, and for a prime p and a ≢ 0 satisfies a·r ≡ 1 (mod p) |
| Field.InvCorrect | bn128_pyecc_srs.py:30-41 | the same three facts about the specification function of fp_inv |
| Field.EuclidLoopInverts | bn128_pyecc_srs.py:35-41 | from the loop invariant lm·a ≡ low, hm·a ≡ high (mod p) and gcd(low, high) = gcd(a, p) = 1, the loop ends with lm·a ≡ 1 |
| Field.PrimeInvertible | bn128_pyecc_srs.py:30-41 | modulo a prime every non-zero residue has fp_inv as inverse |
| Field.FpDiv | bn128_pyecc_srs.py:43-44 | the quotient is in [0, p), is 0 for y ≡ 0, and times y gives back x modulo p whenever y is invertible (always, for a prime p and y ≢ 0) |
| Field.DivCancels | bn128_pyecc_srs.py:43-44 | multiplying x·fp_inv(y) back by an invertible y gives x modulo p |
| Polynomial.PaddingZero | bn128_pyecc_srs.py:78-79 | the list stays a prefix and max(itr, 0) zeros follow it |
| Polynomial.PaddingZeroEval | bn128_pyecc_srs.py:78-79 | padding with zeros does not change the polynomial's value |
| Polynomial.PolyAdd | bn128_pyecc_srs.py:81-83 | the sum has the longer length and entry i is a_i + b_i, missing entries read as 0, nothing reduced |
| Polynomial.EvalPolyAdd | bn128_pyecc_srs.py:81-83 | the sum of the lists evaluates to the sum of the values, everywhere |
| Polynomial.PolyRmulModp | bn128_pyecc_srs.py:88-89 | same length, every entry in [0, p) and ≡ a·poly[i] |
| Polynomial.EvalRmul | bn128_pyecc_srs.py:88-89 | scaling the coefficients scales the value by a modulo p |
| Polynomial.TermSumCong | bn128_pyecc_srs.py:85-86 | the sum of the reduced terms is congruent to Σ poly[i]·r^i |
| Polynomial.PolyEvalModp | bn128_pyecc_srs.py:85-86 | the result is in [0, p) and is the polynomial's value at r reduced modulo p |
| Polynomial.ConvRedCong | bn128_pyecc_srs.py:93-95 | the reduced partial products accumulated in prod[k] are congruent to the exact coefficient Σ_{i+j=k} a_i·b_j |
| Polynomial.EvalConv | bn128_pyecc_srs.py:91-96 | the exact convolution evaluates to the product of the two values |
| Polynomial.MulModp | bn128_pyecc_srs.py:91-96 | length len(a)+len(b)-1, each coefficient k in [0, p) and equal to Σ_{i+j=k} a_i·b_j reduced |
| Polynomial.EvalMulModp | bn128_pyecc_srs.py:91-96 | the product evaluates to the product of the values modulo p |
| Polynomial.MulModpTop | bn128_pyecc_srs.py:91-96 | the top coefficient is the product of the top coefficients, reduced |
| Polynomial.PolyMulModp | bn128_pyecc_srs.py:91-96 | the double loop over the prod list computes poly_mul_modp's result, with its length and coefficient facts |
| Polynomial.SamePolyEval | bn128_pyecc_srs.py:85-86 | coefficient lists congruent modulo p, after padding, have congruent values at every point |
| LongDivision.SubtractShifted | bn128_pyecc_srs.py:58-59 | the inner loop subtracts quot·b from the working copy at offset diff and changes nothing else |
| LongDivision.LongDivStep | bn128_pyecc_srs.py:55-61 | one round of the outer loop: quot joins the front of the quotient and division continues on the updated copy |
| LongDivision.FpDivPolys | bn128_pyecc_srs.py:46-62 | the loop over an array copy of a returns the quotient: len(a)-len(b)+1 entries (none when a is shorter), all in [0, p) |
| LongDivision.LongDivShape | bn128_pyecc_srs.py:55-61 | the loop produces diff+1 quotient entries in [0, p), the first round's entry, which ends up as the last quotient entry, being fp_div of the initial top coefficient by b's lead |
| LongDivision.QuotientShape | bn128_pyecc_srs.py:46-62 | quotient length max(0, len(a)-len(b)+1), [] when len(a) < len(b), entries in [0, p) |
| LongDivision.LongDivIdentity | bn128_pyecc_srs.py:55-61 | the working list stays equal to a minus the quotient found so far times b |
| LongDivision.LongDivRemHigh | bn128_pyecc_srs.py:55-61 | with an invertible lead, every round zeroes (mod p) the top entry it divides |
| LongDivision.DivisionIdentity | bn128_pyecc_srs.py:46-62 | a = r + q·b exactly; with an invertible lead the remainder r is ≡ 0 from position len(b)-1 up, so it lives in the low len(b)-1 positions fp_div_polys discards |
| LongDivision.LongDivRecovers | bn128_pyecc_srs.py:55-61 | if the working list is ≡ q·b, the loop returns q reduced modulo p |
| LongDivision.DivisionRoundTrip | bn128_pyecc_srs.py:46-62 | fp_div_polys(poly_mul_modp(q, b), b) is q reduced modulo p when b's lead is invertible |
| LongDivision.DivideByLinear | bn128_pyecc_srs.py:46-62 | dividing by x - c leaves len(a)-1 coefficients and a ≡ q·(x - c) + a(c) coefficientwise |
| LongDivision.FactorTheorem | bn128_pyecc_srs.py:46-62 | for every x, a(x) ≡ q(x)·(x - c) + a(c): the remainder dropped is a(c) |
| Roots.RootOfQuotient | bn128_pyecc_srs.py:46-62 | dividing out a root c keeps every other root y (mod a prime) |
| Roots.ZeroByRoots | bn128_pyecc_srs.py:46-62 | a list of at most n coefficients with n distinct roots modulo a prime is ≡ 0 |
| Roots.SameByRoots | bn128_pyecc_srs.py:64-76 | two lists of at most n coefficients agreeing at n distinct points are the same polynomial modulo a prime |
| Roots.MonicSame | bn128_pyecc_srs.py:98-102 | two lists of n+1 coefficients with the same lead agreeing at n distinct points are the same polynomial modulo a prime |
| Roots.ExactDivision | bn128_pyecc_srs.py:46-62 | when a vanishes on the n distinct roots of a divisor of degree n with invertible lead, the dropped remainder is ≡ 0 and a ≡ q·z |
| Vanishing.ZPolyShape | bn128_pyecc_srs.py:98-102 | |S|+1 coefficients; for p > 1 leading coefficient 1 and all coefficients in [0, p) |
| Vanishing.ZPolyEval | bn128_pyecc_srs.py:98-102 | the value at x is Π_{s∈S} (x - s) modulo p |
| Vanishing.ProdLinZero | bn128_pyecc_srs.py:98-102 | modulo a prime, Π (x - s) ≡ 0 exactly when some s ≡ x |
| Vanishing.ZPolyRoots | bn128_pyecc_srs.py:98-102 | modulo a prime, x is a root exactly when some listed index is ≡ x |
| Vanishing.ZPolyModp | barycentric_lagrange_interpolation.py:62-67 | the loop's result meets the asserted length |S|+1, has leading coefficient 1 for p > 1 and vanishes at every listed index |
| Vanishing.ZInvIsZPoly | bn128_pyecc_srs.py:104-110 | z_inv_modp(S, t) is z_poly_modp over the i in [0, t) not in S, in increasing order |
| Vanishing.ComplementElems | bn128_pyecc_srs.py:106-109 | the factors multiplied in are exactly the i in [0, t) not in S, each once, increasing |
| Vanishing.ZInvProperties | bn128_pyecc_srs.py:104-110 | 1 + #{i < t : i ∉ S} coefficients, lead 1, a root at every such i, and (for t ≤ p) no root at the listed i below t |
| Vanishing.ZInvModp | bn128_pyecc_srs.py:104-110 | the loop with its skip computes z_inv_modp, with its length and roots; a negative t leaves [1] |
| Lagrange.Points | bn128_pyecc_srs.py:158 | the point list built from two coordinate lists gives those lists back as x_coords and y_coords |
| Lagrange.BasisShape | bn128_pyecc_srs.py:69-74 | the basis for point i has one more coefficient per factor multiplied in |
| Lagrange.EvalStep | bn128_pyecc_srs.py:73-74 | one inner round multiplies the basis value by c·(x - x_j) modulo p |
| Lagrange.StepKeepsOne | bn128_pyecc_srs.py:73-74 | with c = fp_inv(x_i - x_j) and x_j ≢ x_i, a round keeps the value 1 at x_i |
| Lagrange.StepKeepsZero | bn128_pyecc_srs.py:73-74 | a round keeps every root and adds x_j as a root |
| Lagrange.BasisAt | bn128_pyecc_srs.py:69-74 | for distinct nodes modulo a prime, basis i is 1 at x_i and 0 at every node already multiplied in |
| Lagrange.BasisLoop | bn128_pyecc_srs.py:69-74 | the inner loop leaves the full basis polynomial: |xs| coefficients, 1 at x_i and 0 at the other nodes |
| Lagrange.LagrangeAccShape | bn128_pyecc_srs.py:67-75 | after n ≥ 1 rounds base_poly has max(1, m) coefficients when every basis has m |
| Lagrange.LagrangeAccAt | bn128_pyecc_srs.py:67-75 | after n rounds base_poly takes the value y_k at node x_k for k < n and 0 for the others |
| Lagrange.LagrangeAccStep | bn128_pyecc_srs.py:75 | one outer round adds y_n at the node where the new basis is 1 and nothing where it is 0 |
| Lagrange.LagrangeShape | bn128_pyecc_srs.py:64-76 | n ≥ 1 points give n coefficients (no points give [0]), all in [0, p) |
| Lagrange.LagrangeInterpolates | bn128_pyecc_srs.py:64-76 | for x-coordinates distinct modulo a prime, the result evaluates to y_k at x_k |
| Lagrange.LagrangeUnique | bn128_pyecc_srs.py:64-76 | any list of at most n coefficients through the same n points is the result modulo p |
| Lagrange.LagrangeFacts | bn128_pyecc_srs.py:64-76 | length, range and interpolation together |
| Lagrange.LagrangePolynomial | bn128_pyecc_srs.py:64-76 | the nested loops compute lagrange_polynomial, with its length, range and interpolation |
| Sums.PolyAddModp | barycentric_lagrange_interpolation.py:44-46 | the result has the longer length and entry i is a_i + (b_i mod p), missing entries read as 0: `%` applies to the second operand only; PolyAddModpSame is its partner |
| Sums.PolyAddModpSame | barycentric_lagrange_interpolation.py:44-46 | poly_add_modp is the same polynomial as poly_add modulo p |
| Sums.PolyAddModpFirstUnreduced | barycentric_lagrange_interpolation.py:46 | the first operand is not reduced: [p] + [0] stays [p] |
| Sums.SumModpShape | barycentric_lagrange_interpolation.py:85-89 | max(1, longest input) coefficients; [0] for no inputs |
| Sums.SumModpCoef | barycentric_lagrange_interpolation.py:85-89 | every coefficient is ≡ the sum of the inputs' coefficients there |
| Sums.SumModpCoefs | barycentric_lagrange_interpolation.py:85-89 | SumModpCoef for every coefficient of the result at once |
| Sums.SumModpEval | barycentric_lagrange_interpolation.py:85-89 | the sum evaluates to the sum of the inputs' values modulo p |
| Sums.PolySumModp | barycentric_lagrange_interpolation.py:85-89 | the fold computes poly_sum_modp, with its length and coefficient congruences |
| Sums.ProdModCorrect | barycentric_lagrange_interpolation.py:91-95 | 1 for an empty list, otherwise in [0, p), and always ≡ the product of the list |
| Sums.ProdModp | barycentric_lagrange_interpolation.py:91-95 | the loop computes prod_modp with the same facts |
| Sums.PowTermSumCong | barycentric_lagrange_interpolation.py:48-50 | the sum over precomputed reduced powers is ≡ Σ poly[i]·r^i |
| Sums.PolyEvalPowers | barycentric_lagrange_interpolation.py:48-50 | the result is in [0, p), is the value at r modulo p, and equals the other poly_eval_modp |
| Barycentric.Others | barycentric_lagrange_interpolation.py:112 | indice_list[i] is the node list without x_i, order kept |
| Barycentric.ProdLinRemove | barycentric_lagrange_interpolation.py:111-113 | Π_j (x - x_j) is Π_{j≠i} (x - x_j) times (x - x_i) |
| Barycentric.ProdLinSign | barycentric_lagrange_interpolation.py:118 | Π (x - s) is (-1)^|S| times Π (s - x) |
| Barycentric.AList | barycentric_lagrange_interpolation.py:113 | A_poly_list[i] has l coefficients, all in [0, p) |
| Barycentric.AListExact | barycentric_lagrange_interpolation.py:111-113 | A_poly_list[i] has l coefficients, lead 1, and times (x - x_i) gives A_poly exactly |
| Barycentric.AListIsZPoly | barycentric_lagrange_interpolation.py:111-113 | A_poly_list[i] is the vanishing polynomial of the other nodes modulo p |
| Barycentric.AListAtOther | barycentric_lagrange_interpolation.py:111-113 | A_poly_list[i] vanishes at every other node |
| Barycentric.AListAtSelf | barycentric_lagrange_interpolation.py:111-113 | A_poly_list[i] at x_i is Π_{j≠i} (x_i - x_j) modulo p |
| Barycentric.Weight | barycentric_lagrange_interpolation.py:118 | w_i is in [0, p), is 0 when the product of the listed differences is ≡ 0, and otherwise (p prime) inverts that product modulo p |
| Barycentric.InverseOfCongruent | barycentric_lagrange_interpolation.py:118 | fp_inv of prod_modp's result inverts the exact product, since the two are congruent |
| Barycentric.WeightInverse | barycentric_lagrange_interpolation.py:118 | w_i inverts Π_{j≠i} (x_j - x_i) modulo p |
| Barycentric.D2 | barycentric_lagrange_interpolation.py:119 | d2_list has l entries of l coefficients, each in [0, p) and ≡ -w_i·y_i times A_poly_list[i]'s coefficient |
| Barycentric.D2AtOther | barycentric_lagrange_interpolation.py:119 | d2_list[i] vanishes at every other node |
| Barycentric.D2AtSelf | barycentric_lagrange_interpolation.py:119 | d2_list[k] at x_k is (-1)^l·y_k modulo p |
| Barycentric.BarycentricAt | barycentric_lagrange_interpolation.py:108-120 | P2 evaluated at x_k is (-1)^l·y_k modulo p |
| Barycentric.BarycentricPoly | barycentric_lagrange_interpolation.py:113-120 | P2 has max(1, l) coefficients, coefficient k ≡ the sum of the k-th coefficients of d2_list |
| Barycentric.BarycentricMatchesLagrange | barycentric_lagrange_interpolation.py:108-120 | for even l, P2 interpolates every (x_k, y_k) and is lagrange_polynomial's result on the same points modulo p |
| Barycentric.BarycentricOdd | barycentric_lagrange_interpolation.py:108-120 | for odd l, P2 evaluated at x_k is -y_k modulo p |
| Opening.Domain | bn128_pyecc_srs.py:142 | dt_list has the x-coordinates 0..l-1 and the values rl[..l] |
| Opening.DomainDistinct | bn128_pyecc_srs.py:142 | the domain points are distinct modulo p when l ≤ p |
| Opening.DomainOpens | bn128_pyecc_srs.py:141-143 | interpolating dt_list gives back rl[i] at every i < l, modulo a prime p ≥ l |
| Opening.Committed | bn128_pyecc_srs.py:142-143 | lag_coef has max(1, l) coefficients in [0, p) and, modulo a prime p ≥ l, takes the value rl[i] at every i < l |
| Opening.ProveQuotient | bn128_pyecc_srs.py:144 | quot has one coefficient fewer than lag_coef, all in [0, p) |
| Opening.ProveQuotientOpens | bn128_pyecc_srs.py:141-145 | P(x) ≡ q(x)·(x - ind) + P(ind), and P(ind) ≡ rl[ind] for ind in the domain |
| Opening.BatchProveQuotient | bn128_pyecc_srs.py:153-163 | fails exactly when the assert len(dx) == len(dy) != 1 fails; otherwise every coefficient of qb_coef is in [0, p) |
| Opening.BatchNumerator | bn128_pyecc_srs.py:157-160 | pa has as many coefficients as the longer of lag_coef and lp_coef, and coefficient k ≡ lag_coef_k - lp_coef_k |
| Opening.NegatedCoefs | bn128_pyecc_srs.py:160 | poly_add(P, poly_rmul_modp(L, -1)) has coefficient k ≡ P_k - L_k |
| Opening.DifferenceRoot | bn128_pyecc_srs.py:160 | poly_add(P, poly_rmul_modp(L, -1)) vanishes wherever P and L agree |
| Opening.NumeratorRoots | bn128_pyecc_srs.py:157-160 | for honest claims, P - L vanishes at every claimed point |
| Opening.BatchQuotientExact | bn128_pyecc_srs.py:153-163 | for honest claims modulo a prime p ≥ l, division by z_poly_modp(dx) leaves a remainder ≡ 0 and P - L ≡ qb_coef·z_poly_modp(dx) |

The duplicated helpers of barycentric_lagrange_interpolation.py
(`fp_inv`, `fp_div`, `fp_div_polys`, `padding_zero`, `poly_add`,
`poly_rmul_modp`, `poly_mul_modp`, `z_inv_modp`, lines 3-42, 52-60 and
69-75) are the same code as in bn128_pyecc_srs.py. They are modelled once,
by the members cited above. The second script's `z_poly_modp` differs
only by its length assert, which `Vanishing.ZPolyModp` proves.

## Left out

- Elliptic-curve and pairing work (`ecp_sum`, `ecp_sum_twist`, the point
  multiplications of `commit_srs`, `prove_srs`, `batchprove_srs`, all of
  `verify_srs` and `batchverifyeval_srs`): foreign library calls whose
  behaviour is not visible. The model stops at the coefficient lists these
  steps map into G1.
- SRS generation and the random secret (bn128_pyecc_srs.py:23-24,
  183-185): randomness and curve arithmetic.
- `gen_ranindlst` (both files): random rejection sampling. Where its output
  matters the model takes nodes distinct modulo p as a precondition.
- Module-level script code (timing, `print`, random test data).
- Both files' globals are parameters: `l`, `d_p`, `p`, `indice` and `corr_y`.
- Every operation requires `p > 0`; the scripts only use a large prime.
  Most operations raise on `p == 0` in Python (a `%` by zero), but some
  inputs return without touching `%`: `poly_rmul_modp([], a, 0)` gives
  `[]` and `z_poly_modp([], 0)` gives `[1]`. Those degenerate `p == 0`
  results, and everything about negative moduli, are not modelled.
- Opening.Domain, Opening.Committed, Opening.ProveQuotient,
  Opening.BatchNumerator and Opening.BatchProveQuotient require
  `l <= |rl|`: Python raises `IndexError` when `rl[i]` is read past the end
  (bn128_pyecc_srs.py:142, 155), and that exception is not modelled. `l` is
  the script's non-negative global, so it is a `nat`.
- Vanishing.ZInv, Vanishing.ZInvIsZPoly and Vanishing.ZInvProperties take
  the count `t` as a `nat`. `range(t)` is empty for a negative `t`;
  Vanishing.ZInvModp takes any integer and runs them with 0 in that case,
  returning `[1]` as the source does.
- `fp_div_polys` requires a non-empty divisor, since Python raises on
  `b[-1]` of an empty list.
- The lemmas about roots, interpolation and exact division assume a prime
  modulus, which the script's `p` is. Nothing is assumed about primality
  beyond that.
- `fp_div_polys` copies its argument so the caller's list is unchanged.
  In the model the argument is an immutable sequence and the copy is a
  fresh array, so this holds by construction and is not stated separately.
- Opening.BatchProveQuotient: the failing `assert` is the `None` result,
  not an exception.
- The model does not compare the barycentric result with a reduced sum:
  `P2` keeps `poly_add_modp`'s unreduced coefficients, and only congruence
  modulo p is claimed about them.
