# LPC analysis front end of libspeex, in Dafny

This project models `libspeex/lpc.c`, the linear-prediction analysis of the Speex codec.
`lpc.c` holds two routines, each built twice behind `FIXED_POINT`:
- `_spx_autocorr` computes the autocorrelation `ac[0..lag-1]` of a frame of samples;
- `_spx_lpc` solves the normal equations with the Levinson-Durbin recursion, giving `p`
  predictor coefficients and the final prediction error.

The two builds are separate modules:

- `RealVectors` (`real_vectors.dfy`): dot product, reversal and linear combination of real
  vectors, with the algebra the float correctness proof needs.
- `LpcFloat` (`lpc_float.dfy`): the floating-point build over `real`, so arithmetic is exact.
  - `Autocorr` is the lag loop counting down, plus the `+10` bias on `ac[0]`.
  - `Lpc` is the in-place solver on an array.
  - Both are proved against pure functions. `Autocorrelation` is the lag sums. `Levinson` is
    the recursion, one step at a time, writing each new order into a fresh sequence (`Step`).
  - The main theorem, `LevinsonSolvesNormalEquations`, says the recursion's coefficients
    solve the Toeplitz normal equations of every order it reaches. It also says the
    returned error is the prediction error of that predictor.
- `FixedArith` (`fixed_arith.dfy`): the integer operations of the fixed-point build.
  - Arithmetic right shift (`Shr`, floor division by 2^s).
  - The Q13 product `MultQ13`, standing for `MULT16_16_Q13`.
  - C's truncating division `TruncDiv`, standing for `DIV32_16`.
- `LpcFixed` (`lpc_fixed.dfy`): the fixed-point build over unbounded integers.
  - The two-stage shift search (`SearchShifts`, specified by `ShiftSearch`).
  - The scaled autocorrelation (`Autocorr`).
  - The Q13 solver (`Lpc`). It runs in a local ten-slot buffer `lpcq`, divides by
    `error + 16`, and copies the coefficients out at the end.

Each solver step can end in one of two ways: `Solved(lpc, error)`, or `ZeroDivisor(step)` at the first
step whose divisor is 0. The float divisor is `error`; the fixed divisor is `error + 16`. In C such a
division is undefined or gives an infinity or NaN. The model stops there and reports the step.

Assumptions of the fixed-point model:
- The header macros are not part of this model. `MULT16_16_Q13(a, b)` is taken to be `(a*b) >> 13`,
  and `DIV32_16(a, b)` to be C division, which truncates towards zero.
- `>>` of a negative value is taken to be arithmetic, that is, floor division.
- `-ac[i+1] << 13` is taken to be `-ac[i+1] * 8192`.
- Samples are integers, already floored.
- The energy estimate `ac0` (lines 131-136) is an integer input of `Autocorr`; it is not
  computed from the samples.

The C code does not check its arguments; out-of-range lengths make it read or write out of
bounds. The model therefore states those conditions as preconditions, each stating only what the
code indexes:
- `p < |ac|`, except for a silent frame, where only `ac[0]` is read and `p` may be anything;
- `p <= lpc.Length`;
- `p <= 10` for the fixed solver when `ac[0] != 0`, because of the `lpcq[10]` buffer;
- `ac` has at least one slot for the float autocorrelation, which always writes `ac[0]`.

## Model

| member | source | states |
|---|---|---|
| LpcFloat.Autocorr | libspeex/lpc.c:217-233 | for lag > 0, ac[0..lag-1] holds the lag sums Σ x[i]·x[i-k] with the bias 10 added to ac[0]; for lag = 0, ac[0] is only incremented by 10; nothing else changes |
| LpcFloat.LagSumIsPaddedSum | libspeex/lpc.c:211-216 | the overlap sum equals the sum of x(n)·x(n-k) over the zero-padded signal, as the routine's header comment defines it |
| LpcFloat.CorrIsPaddedSum | libspeex/lpc.c:211-216 | each whole-buffer lag sum is the zero-padded autocorrelation |
| LpcFloat.CorrBeyondLength | libspeex/lpc.c:228-229 | a lag at or beyond the buffer length has an empty sum, so it is 0 |
| LpcFloat.EnergyNonNegative | libspeex/lpc.c:228-229 | the lag-0 sum (the energy) is never negative |
| LpcFloat.AutocorrelationEnergyPositive | libspeex/lpc.c:232 | the stored ac[0] is at least the bias 10, so the solver's first division is by a positive number |
| LpcFloat.LagSum | libspeex/lpc.c:228-229 | the inner loop's sum Σ_{t=k}^{hi-1} x[t]·x[t-k], in the loop's order |
| LpcFloat.Corr | libspeex/lpc.c:228-230 | the value the lag loop stores in ac[k]: the lag-k sum over the whole buffer |
| LpcFloat.Autocorrelation | libspeex/lpc.c:226-232 | the contents of ac[0..lag-1] after the routine: every lag sum, with the bias 10 added at lag 0 |
| LpcFloat.Numerator | libspeex/lpc.c:189-191 | the running value of r before the division: -ac[i+1] minus c[t]·ac[i-t] for t < j, subtracted in the source's order |
| LpcFloat.Reflection | libspeex/lpc.c:189-192 | the reflection coefficient of step i: the full numerator divided by the running error |
| LpcFloat.Updated | libspeex/lpc.c:199-203 | coefficient k after the step: its old value plus r times the old value of its mirror i-1-k |
| LpcFloat.Step | libspeex/lpc.c:195-203 | the simultaneous coefficient update of one step, in a fresh sequence: Updated for k < i, and r at index i |
| LpcFloat.Levinson | libspeex/lpc.c:186-206 | after k steps the recursion has k coefficients, or stopped at a step before k |
| LpcFloat.Advance | libspeex/lpc.c:189-205 | one step adds exactly one coefficient, or reports a zero running error at that step or earlier |
| LpcFloat.Solve | libspeex/lpc.c:177-207 | the solved order-p result has exactly p coefficients |
| LpcFloat.SumReflection | libspeex/lpc.c:189-191 | the loop computes the reflection numerator -ac[i+1] - Σ_{j<i} lpc[j]·ac[i-j] over the current coefficients |
| LpcFloat.PairUpdate | libspeex/lpc.c:198-200 | using the temporary, both ends of the pair get their simultaneous-update values from the pre-step coefficients; every other slot is unchanged |
| LpcFloat.MiddleUpdate | libspeex/lpc.c:202-203 | the odd-order middle coefficient gets its simultaneous-update value; every other slot is unchanged |
| LpcFloat.PairsGiveStep | libspeex/lpc.c:195-203 | once the pairs, the middle (for odd i) and lpc[i] = r are in place, lpc[0..i] is the simultaneous update of the old coefficients |
| LpcFloat.SymmetricUpdate | libspeex/lpc.c:195-203 | the in-place loop over j < i/2 plus the odd-i middle update equals the simultaneous update lpc'[j] = lpc[j] + r·lpc[i-1-j] with pre-step right-hand sides, and lpc'[i] = r; slots above i are untouched |
| LpcFloat.ZeroFill | libspeex/lpc.c:181-182 | lpc[0..p-1] becomes all zeros; the rest is unchanged |
| LpcFloat.LevinsonNext | libspeex/lpc.c:189-205 | from a solved state with a non-zero error, the next state is the step with r = numerator / error and error·(1 - r²) |
| LpcFloat.Iteration | libspeex/lpc.c:187-205 | one loop pass takes the array and error from the i-step state to the (i+1)-step state, leaving slots above i untouched |
| LpcFloat.LevinsonPrev | libspeex/lpc.c:189-205 | a solved (k+1)-step state comes from a solved k-step state with a non-zero error, through one step |
| LpcFloat.PrefixSolved | libspeex/lpc.c:186-206 | a solved (k+1)-step state implies that the k-step state is solved with a non-zero error |
| LpcFloat.ZeroDivisorPersists | libspeex/lpc.c:192 | once a step meets a zero error, every longer recursion reports that step |
| LpcFloat.Lpc | libspeex/lpc.c:171-208 | the method returns Solve(ac, p). When solved, lpc[0..p-1] holds its coefficients. When stopped at step s, lpc[0..s-1] holds the solved s-step state, whose error is 0. Slots beyond what was written are unchanged |
| LpcFloat.OrderZero | libspeex/lpc.c:177-207 | for p = 0 the result is no coefficients and error ac[0] |
| LpcFloat.ZeroEnergy | libspeex/lpc.c:179-184 | ac[0] = 0 gives p zero coefficients and error 0, for every p, with no division |
| LpcFloat.RevLags | libspeex/lpc.c:191 | row m of the Toeplitz matrix of lags ac[abs(m-t)], read backwards, is row n-1-m: the matrix the numerator reads is symmetric |
| LpcFloat.NumeratorIsDot | libspeex/lpc.c:189-191 | the reflection numerator is minus the dot product of [1, lpc] with row i+1 of the Toeplitz matrix |
| LpcFloat.ReflectionIsResidual | libspeex/lpc.c:189-192 | r is minus the (i+1)-th normal-equation residual of the current predictor divided by the error |
| LpcFloat.StepIsCombine | libspeex/lpc.c:195-203 | the updated predictor [1, lpc'] is [1, lpc, 0] plus r times its reversal |
| LpcFloat.PaddedResidual | libspeex/lpc.c:195 | the residual of the zero-padded predictor at row m equals its residual at row m |
| LpcFloat.MirroredResidual | libspeex/lpc.c:196-203 | the reversed predictor's residual at row m is the original's at row i+1-m (Toeplitz symmetry) |
| LpcFloat.StepResidual | libspeex/lpc.c:195-205 | the updated predictor's residual at row m is the old residual at m plus r times the old residual at i+1-m |
| LpcFloat.Cancel | libspeex/lpc.c:189-205 | with r = -delta/e, the new row's residual cancels and the row-0 residual becomes e·(1 - r²) |
| LpcFloat.OldRowStaysSolved | libspeex/lpc.c:195-203 | a normal equation the old predictor satisfies, together with its mirror, still holds after the step |
| LpcFloat.NewRowSolved | libspeex/lpc.c:189-205 | after a step the new last normal equation holds and the new error is the residual of row 0 |
| LpcFloat.TrivialPredictor | libspeex/lpc.c:177 | the order-0 predictor [1] has residual ac[0] at row 0, the initial error |
| LpcFloat.NewRowAfterStep | libspeex/lpc.c:186-206 | if the (k+1)-step state is solved, its row k+1 normal equation holds and its error is its row-0 residual, given that the k-step error is its row-0 residual |
| LpcFloat.OldRowAfterStep | libspeex/lpc.c:186-206 | rows 1..k of a solved k-step state stay solved in the (k+1)-step state |
| LpcFloat.LevinsonError | libspeex/lpc.c:177-207 | in every solved state the running error equals the prediction-error residual Σ a[t]·ac[t] of the predictor a = [1, lpc] |
| LpcFloat.LevinsonRow | libspeex/lpc.c:186-206 | in a solved k-step state, the normal equation of every row 1..k holds |
| LpcFloat.LevinsonSolvesNormalEquations | libspeex/lpc.c:171-208 | a solved k-step state solves the order-k Toeplitz normal equations (Yule-Walker) ac[m] + Σ_j lpc[j]·ac[abs(m-1-j)] = 0 for m = 1..k, and its error is the prediction error ac[0] + Σ_j lpc[j]·ac[j+1] |
| LpcFloat.ErrorFactor | libspeex/lpc.c:205 | scaling a positive error by 1 - r² keeps it in [0, e] when abs(r) <= 1, and positive when abs(r) < 1 |
| LpcFloat.StepError | libspeex/lpc.c:195-205 | after a step the last coefficient is r, and the error is e·(1 - r²) within those bounds |
| LpcFloat.ErrorRecurrence | libspeex/lpc.c:205 | the step that sets lpc[k] = r multiplies the error by 1 - r², so it stays between 0 and the old error when the error is positive and abs(r) <= 1 |
| LpcFloat.ErrorBounds | libspeex/lpc.c:205 | the same bounds stated without the product: positive e and abs(r) <= 1 give 0 <= error' <= e; abs(r) < 1 gives error' > 0 |
| LpcFloat.StableErrorDecreases | libspeex/lpc.c:186-206 | from ac[0] > 0, while the reflection coefficients that are defined lie in (-1, 1), every step is defined, the error stays in (0, ac[0]] and never grows |
| LpcFloat.FourOnesExample | libspeex/lpc.c:171-233 | x = [1,1,1,1], lag 2 gives ac = [14, 3], and order 1 gives r = -3/14 with error 187/14 |
| FixedArith.Shr | libspeex/lpc.c:156-159 | v >> s is the quotient by 2^s rounded towards minus infinity |
| FixedArith.ShrSign | libspeex/lpc.c:156-159 | a right shift keeps the sign |
| FixedArith.ShrMonotone | libspeex/lpc.c:156-159 | a right shift is monotone |
| FixedArith.MultQ13 | libspeex/lpc.c:101-107 | the Q13 product is the full product divided by 8192, rounded down |
| FixedArith.MultQ13Commutes | libspeex/lpc.c:105 | the Q13 product does not depend on its argument order |
| FixedArith.TruncDiv | libspeex/lpc.c:94 | the truncating quotient leaves a remainder smaller than the divisor, with the dividend's sign or 0 |
| LpcFixed.Normalise | libspeex/lpc.c:138-142 | one search loop: while the budget is positive and the value below 2^30, spend one unit and double the value; result is the budget left and the value |
| LpcFixed.ShiftSearch | libspeex/lpc.c:137-148 | the two loops in sequence: shift from 8, then ac_shift from 18 on the doubled ac0, with the final ac0 |
| LpcFixed.NormaliseExit | libspeex/lpc.c:138-148 | one search loop spends part of its budget, and stops only with the budget at 0 or the value at or above 2^30 |
| LpcFixed.NormaliseScale | libspeex/lpc.c:138-148 | one search loop's final value is its start times 2 to the number of doublings |
| LpcFixed.NormaliseDoublesBelowThreshold | libspeex/lpc.c:138-148 | every doubling starts from a value below 2^30 |
| LpcFixed.NormaliseStaysInRange | libspeex/lpc.c:138-148 | a value in [0, 2^31) stays there, so no doubling overflows 32 bits |
| LpcFixed.ShiftSearchBounds | libspeex/lpc.c:137-148 | the search ends with 0 <= shift <= 8 and 0 <= ac_shift <= 18, and the second loop exits with ac_shift at 0 or ac0 at the threshold |
| LpcFixed.ShiftSearchScale | libspeex/lpc.c:137-148 | the final ac0 is the initial ac0 times 2^((8 - shift) + (18 - ac_shift)) |
| LpcFixed.ShiftSearchInRange | libspeex/lpc.c:137-148 | a non-negative 32-bit ac0 stays a non-negative 32-bit value through both loops |
| LpcFixed.ShiftSearchOrder | libspeex/lpc.c:137-148 | if the first loop stops with shift > 0, the second loop leaves ac_shift at 18 |
| LpcFixed.SearchShifts | libspeex/lpc.c:137-148 | the two while loops produce the shift pair of ShiftSearch |
| LpcFixed.LagSum | libspeex/lpc.c:154-157 | the exact lag-k sum Σ x[t]·x[t-k] that the shifted accumulator approximates |
| LpcFixed.ScaledLagSum | libspeex/lpc.c:153-157 | the accumulator d: each product shifted right by shift before it is added, in the loop's order |
| LpcFixed.Autocorrelation | libspeex/lpc.c:151-160 | the contents of ac[0..lag-1]: each lag's accumulator shifted right by ac_shift, with the shifts from ShiftSearch(ac0) |
| LpcFixed.ScaledLagSumBounds | libspeex/lpc.c:154-157 | the accumulator with each product shifted right by shift, times 2^shift, is at most the exact lag sum and falls short of it by less than 2^shift per product |
| LpcFixed.ScaledEnergyNonNegative | libspeex/lpc.c:154-157 | the lag-0 accumulator is never negative |
| LpcFixed.AutocorrelationValues | libspeex/lpc.c:151-160 | the stored ac[0] is never negative, and every lag at or beyond n is 0 |
| LpcFixed.AutocorrelationUnderestimates | libspeex/lpc.c:151-160 | each stored value times 2^(shift + ac_shift) is at most the exact lag sum |
| LpcFixed.ScaledSum | libspeex/lpc.c:153-157 | the inner loop computes the scaled lag sum over j = i..n-1 |
| LpcFixed.Autocorr | libspeex/lpc.c:122-163 | after the shift search, ac[0..lag-1] holds each scaled lag sum shifted right by ac_shift; nothing else changes |
| LpcFixed.Numerator | libspeex/lpc.c:91-93 | rr after j terms: -ac[i+1]·2^13 minus c[t]·ac[i-t] for t < j, subtracted in the source's order |
| LpcFixed.Reflection | libspeex/lpc.c:91-94 | the reflection coefficient of step i: the full rr divided, truncating, by error + 16 |
| LpcFixed.Updated | libspeex/lpc.c:101-105 | coefficient k after the step: its old value plus the Q13 product of r and the old value of its mirror i-1-k |
| LpcFixed.Step | libspeex/lpc.c:97-105 | the simultaneous Q13 coefficient update of one step, in a fresh sequence: Updated for k < i, and r at index i |
| LpcFixed.NextError | libspeex/lpc.c:107 | the new error: e minus the Q13 product of r and the Q13 product of e and r |
| LpcFixed.Levinson | libspeex/lpc.c:88-108 | after k steps the recursion has k coefficients, or stopped at a step before k |
| LpcFixed.Advance | libspeex/lpc.c:91-107 | one step adds exactly one coefficient, or reports a zero divisor error + 16 at that step or earlier |
| LpcFixed.Solve | libspeex/lpc.c:78-111 | the solved order-p result has exactly p coefficients |
| LpcFixed.SumReflection | libspeex/lpc.c:91-93 | the loop computes rr = -ac[i+1]·2^13 - Σ_{j<i} lpcq[j]·ac[i-j] over the current coefficients |
| LpcFixed.PairUpdate | libspeex/lpc.c:98-103 | using the temporary, both ends of the pair gain the Q13 product of r and the other's pre-step value; every other slot is unchanged |
| LpcFixed.MiddleUpdate | libspeex/lpc.c:104-105 | the odd-order middle coefficient gets its simultaneous-update value, although the source multiplies in the other order; every other slot is unchanged |
| LpcFixed.PairsGiveStep | libspeex/lpc.c:97-105 | once the pairs, the middle (for odd i) and lpcq[i] = r are in place, lpcq[0..i] is the simultaneous update |
| LpcFixed.SymmetricUpdate | libspeex/lpc.c:97-105 | the in-place loop over j < i>>1 plus the i&1 middle update equals the simultaneous Q13 update with pre-step right-hand sides, and lpcq[i] = r; slots above i are untouched |
| LpcFixed.ZeroFill | libspeex/lpc.c:83-84 | lpc[0..p-1] becomes all zeros; the rest is unchanged |
| LpcFixed.CopyOut | libspeex/lpc.c:109-110 | lpc[0..p-1] becomes lpcq[0..p-1]; the rest is unchanged |
| LpcFixed.LevinsonNext | libspeex/lpc.c:91-107 | from a solved state whose divisor error + 16 is non-zero, the next state uses the truncated quotient r and the error NextError(e, r) |
| LpcFixed.Iteration | libspeex/lpc.c:89-107 | one loop pass takes lpcq and the error from the i-step state to the (i+1)-step state, leaving slots above i untouched |
| LpcFixed.LevinsonPrev | libspeex/lpc.c:91-107 | a solved (k+1)-step state comes from a solved k-step state with a non-zero divisor, through one step |
| LpcFixed.ZeroDivisorPersists | libspeex/lpc.c:94 | once the divisor error + 16 is 0 at some step, every longer recursion reports that step |
| LpcFixed.Lpc | libspeex/lpc.c:70-112 | the method returns Solve(ac, p). When solved, lpc[0..p-1] holds its Q13 coefficients. When stopped at a zero divisor, lpc is unchanged. Nothing beyond p changes. Orders up to 10 fit the local buffer |
| LpcFixed.OrderZero | libspeex/lpc.c:78-111 | for p = 0 the result is no coefficients and error ac[0] |
| LpcFixed.ZeroEnergy | libspeex/lpc.c:81-86 | ac[0] = 0 gives p zero coefficients and error 0, for every p, with no division |
| LpcFixed.ReflectionQuotient | libspeex/lpc.c:91-97 | the coefficient lpcq[k] set at step k is rr / (error + 16) truncated: the divisor is non-zero and the remainder is smaller than it, with rr's sign |
| LpcFixed.ErrorUpdateBounded | libspeex/lpc.c:107 | for error >= 0 and abs(r) <= 8192 (1.0 in Q13), the new error lies between 0 and the old one |
| LpcFixed.ErrorBounds | libspeex/lpc.c:97-107 | the step that sets lpcq[k] = r maps the error e to NextError(e, r), and then into [0, e] when e >= 0 and abs(r) <= 8192 |
| LpcFixed.StableErrorDecreases | libspeex/lpc.c:88-108 | from ac[0] >= 0, while every defined reflection coefficient lies in [-8192, 8192], every step is defined (the divisor is at least 16), the error stays in [0, ac[0]] and never grows |
| LpcFixed.OrderOneExamples | libspeex/lpc.c:88-108 | ac = [8192, 4096] at order 1 gives r = -4088 and error 6152; ac = [-16, 5] meets a zero divisor at step 0 |

## Left out

- IEEE floating-point rounding in the float build: values are exact reals, and no result claims bit-exactness with the C code.
- 16-bit and 32-bit wrap-around of `spx_word16_t`, `spx_word32_t` and `int` in the fixed build. `error`, `r` and `lpcq` are 16-bit in the source; the model keeps them as unbounded integers. `ShiftSearchInRange` covers the one overflow that the shift search itself could cause.
- The definitions of `MULT16_16_Q13` and `DIV32_16` and the fixed-point types: they come from headers that are not part of this model. `FixedArith` states the definitions taken instead.
- Rounding in the Q13 multiply: `MultQ13` is taken to be a plain shift (round down), with no rounding constant.
- LpcFixed.Autocorr: takes the energy estimate `ac0` as an integer input. The estimate loop of lines 131-136 is left out: it divides `floor(x*x)` by 256 in floating point and converts the result to an integer.
- LpcFixed.Autocorr: the `(int)(floor(..) * floor(..))` conversions of line 156 are left out. The samples are integers that are already floored.
- LpcFixed.CopyOut: the final conversion `lpcq[i]/8192.` of line 110 is left out. The model copies the Q13 integers.
- Division by zero: the float build at a zero running error for i > 0, and the fixed build at `error + 16 == 0`. The source gives inf/NaN or undefined behaviour there; the model stops at that step and reports it as `ZeroDivisor`.
- The `FIXED_POINT` build selection: the two builds are separate modules.
- The commented-out debug lines 161-162 and the `<stdio.h>`/`<math.h>` includes.
- LpcFixed.Lpc: the return value is the int `error` variable. The source returns it through `spx_word32_t`, a conversion that is not modelled.
- No lemma relates the fixed and float builds, such as their coefficients agreeing within a tolerance. Each build is proved on its own terms.
