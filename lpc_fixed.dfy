/** The fixed-point build of the LPC analysis front end (libspeex/lpc.c with FIXED_POINT):
    the Levinson-Durbin solver `_spx_lpc` on Q13 integers and the autocorrelation
    `_spx_autocorr` with its shift search. Values are unbounded integers: the 16-bit and
    32-bit widths of the source's types are not modelled. */
module LpcFixed {
  import opened FixedArith

  // ---------------------------------------------------------------------------
  // Shift search
  // ---------------------------------------------------------------------------

  /** The normalisation threshold 2^30 of the shift search. */
  const THRESHOLD: int := 0x4000_0000

  /** One of the two while loops of lines 138-148: while the budget is positive and the
      value is below the threshold, spend one unit of the budget and double the value.
      The result is the budget left and the final value. */
  function Normalise(budget: nat, v: int): (res: (nat, int))
    decreases budget
  {
    if budget == 0 || v >= THRESHOLD then (budget, v) else Normalise(budget - 1, 2 * v)
  }

  /** The search spends part of its budget, and stops only on an empty budget or a value
      at the threshold. */
  lemma {:induction false} NormaliseExit(budget: nat, v: int)
    ensures Normalise(budget, v).0 <= budget
    ensures Normalise(budget, v).0 == 0 || Normalise(budget, v).1 >= THRESHOLD
    decreases budget
  {
    if budget > 0 && v < THRESHOLD {
      NormaliseExit(budget - 1, 2 * v);
    }
  }

  /** The final value is the input times two to the number of doublings. */
  lemma {:induction false} NormaliseScale(budget: nat, v: int)
    ensures Normalise(budget, v).0 <= budget
    ensures Normalise(budget, v).1 == v * Pow2(budget - Normalise(budget, v).0)
    decreases budget
  {
    if budget > 0 && v < THRESHOLD {
      NormaliseScale(budget - 1, 2 * v);
      var n := budget - 1 - Normalise(budget - 1, 2 * v).0;
      assert Pow2(n + 1) == 2 * Pow2(n);
      MulAssoc(2, v, Pow2(n));
      MulAssoc(v, 2, Pow2(n));
    }
  }

  /** Every doubling starts from a value below the threshold. */
  lemma {:induction false} NormaliseDoublesBelowThreshold(budget: nat, v: int, d: nat)
    requires d < budget - Normalise(budget, v).0
    ensures v * Pow2(d) < THRESHOLD
    decreases budget
  {
    NormaliseExit(budget, v);
    if d > 0 {
      NormaliseDoublesBelowThreshold(budget - 1, 2 * v, d - 1);
      assert Pow2(d) == 2 * Pow2(d - 1);
      MulAssoc(2, v, Pow2(d - 1));
      MulAssoc(v, 2, Pow2(d - 1));
    }
  }

  /** No doubling leaves the 32-bit range: a value in [0, 2^31) stays there, because a
      doubling only happens below 2^30. */
  lemma {:induction false} NormaliseStaysInRange(budget: nat, v: int)
    requires 0 <= v < 2 * THRESHOLD
    ensures 0 <= Normalise(budget, v).1 < 2 * THRESHOLD
    decreases budget
  {
    if budget > 0 && v < THRESHOLD {
      NormaliseStaysInRange(budget - 1, 2 * v);
    }
  }

  /** The shift search of lines 137-148 from the energy estimate ac0: `shift` from 8, then
      `ac_shift` from 18, each spent while ac0 is below 2^30. */
  function ShiftSearch(ac0: int): (nat, nat, int)
  {
    var (shift, v) := Normalise(8, ac0);
    var (acShift, w) := Normalise(18, v);
    (shift, acShift, w)
  }

  /** The search ends with 0 <= shift <= 8 and 0 <= ac_shift <= 18, and the second loop
      stops with ac_shift at 0 or the energy at the threshold. */
  lemma ShiftSearchBounds(ac0: int)
    ensures ShiftSearch(ac0).0 <= 8 && ShiftSearch(ac0).1 <= 18
    ensures ShiftSearch(ac0).1 == 0 || ShiftSearch(ac0).2 >= THRESHOLD
  {
    NormaliseExit(8, ac0);
    NormaliseExit(18, Normalise(8, ac0).1);
  }

  /** The final energy is ac0 scaled by 2^((8 - shift) + (18 - ac_shift)). */
  lemma ShiftSearchScale(ac0: int)
    ensures var (shift, acShift, w) := ShiftSearch(ac0);
      shift <= 8 && acShift <= 18 && w == ac0 * Pow2((8 - shift) + (18 - acShift))
  {
    var (shift, v) := Normalise(8, ac0);
    var (acShift, w) := Normalise(18, v);
    NormaliseScale(8, ac0);
    NormaliseScale(18, v);
    Pow2Add(8 - shift, 18 - acShift);
    MulAssoc(ac0, Pow2(8 - shift), Pow2(18 - acShift));
  }

  /** A non-negative 32-bit energy estimate stays a non-negative 32-bit value. */
  lemma ShiftSearchInRange(ac0: int)
    requires 0 <= ac0 < 2 * THRESHOLD
    ensures 0 <= ShiftSearch(ac0).2 < 2 * THRESHOLD
  {
    NormaliseStaysInRange(8, ac0);
    NormaliseStaysInRange(18, Normalise(8, ac0).1);
  }

  /** The first loop stops with shift at 0 or ac0 at the threshold, and then the second
      loop has nothing to do unless shift reached 0. */
  lemma ShiftSearchOrder(ac0: int)
    ensures var (shift, acShift, w) := ShiftSearch(ac0);
      shift > 0 ==> acShift == 18
  {
    NormaliseExit(8, ac0);
  }

  /** Lines 137-148 as written: two while loops that update the shift and the energy. */
  method SearchShifts(ac0: int) returns (shift: nat, acShift: nat)
    ensures (shift, acShift) == (ShiftSearch(ac0).0, ShiftSearch(ac0).1)
  {
    var v := ac0;
    shift := 8;
    while shift > 0 && v < THRESHOLD
      invariant Normalise(shift, v) == Normalise(8, ac0)
      decreases shift
    {
      shift := shift - 1;
      v := 2 * v;
    }
    acShift := 18;
    while acShift > 0 && v < THRESHOLD
      invariant Normalise(acShift, v) == Normalise(18, Normalise(8, ac0).1)
      decreases acShift
    {
      acShift := acShift - 1;
      v := 2 * v;
    }
  }

  // ---------------------------------------------------------------------------
  // Autocorrelation
  // ---------------------------------------------------------------------------

  /** Σ_{t=k}^{hi-1} x[t]·x[t-k], the exact lag-k sum up to hi. */
  function LagSum(x: seq<int>, k: nat, hi: nat): int
    requires hi <= |x|
    decreases hi
  {
    if hi <= k then 0 else LagSum(x, k, hi - 1) + x[hi - 1] * x[hi - 1 - k]
  }

  /** The accumulator d of lines 153-157: the same sum with every product shifted right by
      `shift` before it is added. */
  function ScaledLagSum(x: seq<int>, k: nat, hi: nat, shift: nat): int
    requires hi <= |x|
    decreases hi
  {
    if hi <= k then 0 else ScaledLagSum(x, k, hi - 1, shift) + Shr(x[hi - 1] * x[hi - 1 - k], shift)
  }

  /** What `_spx_autocorr` stores in ac[0..lag-1] for the shifts found from ac0. */
  function Autocorrelation(x: seq<int>, lag: nat, ac0: int): seq<int>
  {
    var (shift, acShift, _) := ShiftSearch(ac0);
    seq(lag, k requires 0 <= k < lag => Shr(ScaledLagSum(x, k, |x|, shift), acShift))
  }

  /** The number of products in the lag-k sum up to hi. */
  function Terms(k: nat, hi: nat): nat
  {
    if hi <= k then 0 else hi - k
  }

  /** Shifting each product rounds it down by less than 2^shift: the scaled sum times
      2^shift is at most the exact sum and falls short of it by less than 2^shift for
      each product. */
  lemma {:induction false} ScaledLagSumBounds(x: seq<int>, k: nat, hi: nat, shift: nat)
    requires hi <= |x|
    ensures Pow2(shift) * ScaledLagSum(x, k, hi, shift) <= LagSum(x, k, hi)
    ensures LagSum(x, k, hi) - Terms(k, hi) * (Pow2(shift) - 1) <= Pow2(shift) * ScaledLagSum(x, k, hi, shift)
    decreases hi
  {
    if hi > k {
      ScaledLagSumBounds(x, k, hi - 1, shift);
      var v := x[hi - 1] * x[hi - 1 - k];
      RoundingStep(Pow2(shift), ScaledLagSum(x, k, hi - 1, shift), Shr(v, shift), v,
                   LagSum(x, k, hi - 1), Terms(k, hi - 1));
    }
  }

  /** Adding one rounded-down product to the bounds of ScaledLagSumBounds. */
  lemma RoundingStep(d: int, s: int, q: int, v: int, exact: int, t: int)
    requires d >= 1 && d * s <= exact && exact - t * (d - 1) <= d * s
    requires d * q <= v < d * q + d
    ensures d * (s + q) <= exact + v
    ensures exact + v - (t + 1) * (d - 1) <= d * (s + q)
  {
    MulDistrib(d, s, q);
    assert (t + 1) * (d - 1) == t * (d - 1) + (d - 1);
  }

  lemma SquareNonNegative(a: int)
    ensures a * a >= 0
  {
    if a < 0 {
      MulLeft(-a, 0, -a);
    } else {
      MulLeft(a, 0, a);
    }
  }

  /** The scaled energy (lag 0) is never negative. */
  lemma {:induction false} ScaledEnergyNonNegative(x: seq<int>, hi: nat, shift: nat)
    requires hi <= |x|
    ensures ScaledLagSum(x, 0, hi, shift) >= 0
    decreases hi
  {
    if hi > 0 {
      ScaledEnergyNonNegative(x, hi - 1, shift);
      SquareNonNegative(x[hi - 1]);
      ShrSign(x[hi - 1] * x[hi - 1], shift);
    }
  }

  /** ac[0] is not negative, and lags at or beyond the buffer length are 0. */
  lemma AutocorrelationValues(x: seq<int>, lag: nat, ac0: int)
    ensures 0 < lag ==> Autocorrelation(x, lag, ac0)[0] >= 0
    ensures forall k :: |x| <= k < lag ==> Autocorrelation(x, lag, ac0)[k] == 0
  {
    var (shift, acShift, _) := ShiftSearch(ac0);
    ScaledEnergyNonNegative(x, |x|, shift);
    ShrSign(ScaledLagSum(x, 0, |x|, shift), acShift);
    forall k | |x| <= k < lag
      ensures Autocorrelation(x, lag, ac0)[k] == 0
    {
      FloorUnique(0, Pow2(acShift), 0);
    }
  }

  /** Each stored value, scaled back by 2^(shift + ac_shift), does not exceed the exact
      lag sum. */
  lemma AutocorrelationUnderestimates(x: seq<int>, lag: nat, ac0: int, k: nat)
    requires k < lag
    ensures var (shift, acShift, _) := ShiftSearch(ac0);
      Pow2(shift + acShift) * Autocorrelation(x, lag, ac0)[k] <= LagSum(x, k, |x|)
  {
    var (shift, acShift, _) := ShiftSearch(ac0);
    var s := ScaledLagSum(x, k, |x|, shift);
    var q := Shr(s, acShift);
    ScaledLagSumBounds(x, k, |x|, shift);
    Pow2Add(shift, acShift);
    ScaleChain(Pow2(shift), Pow2(acShift), q, s, LagSum(x, k, |x|));
  }

  /** Two round-downs in a row: b·q <= s and a·s <= exact give (a·b)·q <= exact. */
  lemma ScaleChain(a: int, b: int, q: int, s: int, exact: int)
    requires a >= 1 && b * q <= s && a * s <= exact
    ensures (a * b) * q <= exact
  {
    MulLeft(a, b * q, s);
    MulAssoc(a, b, q);
  }

  /** Lines 153-157: the accumulator d for lag i, over j = i..n-1. */
  method ScaledSum(x: seq<int>, i: nat, shift: nat) returns (d: int)
    ensures d == ScaledLagSum(x, i, |x|, shift)
  {
    d := 0;
    var j := i;
    while j < |x|
      invariant i <= j
      invariant d == ScaledLagSum(x, i, if j < |x| then j else |x|, shift)
    {
      d := d + Shr(x[j] * x[j - i], shift);
      j := j + 1;
    }
  }

  /** `_spx_autocorr` for integer samples and a given energy estimate ac0: the shift search,
      then, for each lag counting up, the scaled sum d shifted right by ac_shift. */
  method Autocorr(x: seq<int>, ac: array<int>, lag: nat, ac0: int)
    requires lag <= ac.Length
    modifies ac
    ensures ac[..lag] == Autocorrelation(x, lag, ac0)
    ensures forall k :: lag <= k < ac.Length ==> ac[k] == old(ac[k])
  {
    var shift, acShift := SearchShifts(ac0);
    var i := 0;
    while i < lag
      invariant 0 <= i <= lag
      invariant forall k :: 0 <= k < i ==> ac[k] == Shr(ScaledLagSum(x, k, |x|, shift), acShift)
      invariant forall k :: i <= k < ac.Length ==> ac[k] == old(ac[k])
    {
      var d := ScaledSum(x, i, shift);
      ac[i] := Shr(d, acShift);
      i := i + 1;
    }
  }

  // ---------------------------------------------------------------------------
  // Levinson-Durbin recursion on Q13 integers
  // ---------------------------------------------------------------------------

  /** The Q13 representation of 1: reflection and predictor coefficients are stored
      multiplied by 2^13. */
  const Q13_ONE: int := 8192

  /** The state of the recursion after some steps, or the step at which the divisor
      error + 16 would be 0. */
  datatype Outcome = Solved(lpc: seq<int>, error: int) | ZeroDivisor(step: nat)

  /** The running reflection numerator rr at step i = |c| after j terms: -ac[i+1] scaled
      to Q13, minus c[t]·ac[i-t] for t < j, subtracted in the source's order. */
  function Numerator(c: seq<int>, ac: seq<int>, j: nat): int
    requires j <= |c| && |c| + 1 < |ac|
    decreases j
  {
    if j == 0 then -ac[|c| + 1] * Q13_ONE else Numerator(c, ac, j - 1) - c[j - 1] * ac[|c| - (j - 1)]
  }

  /** The reflection coefficient of step |c| for the running error e: the numerator
      divided, truncating, by e + 16. */
  function Reflection(c: seq<int>, ac: seq<int>, e: int): int
    requires |c| + 1 < |ac| && e + 16 != 0
  {
    TruncDiv(Numerator(c, ac, |c|), e + 16)
  }

  /** Coefficient k after the order update with reflection coefficient r: the old c[k]
      plus the Q13 product of r and its mirror image c[|c|-1-k]. */
  function Updated(c: seq<int>, r: int, k: nat): int
    requires k < |c|
  {
    c[k] + MultQ13(r, c[|c| - 1 - k])
  }

  /** One simultaneous coefficient update: every right-hand side reads the coefficients
      of the previous order, and the new last coefficient is r. */
  function Step(c: seq<int>, r: int): seq<int>
  {
    seq(|c| + 1, k requires 0 <= k <= |c| => if k < |c| then Updated(c, r, k) else r)
  }

  /** The error update of line 107: e minus the Q13 product r·(e·r). */
  function NextError(e: int, r: int): int
  {
    e - MultQ13(r, MultQ13(e, r))
  }

  /** The coefficients and running error after k steps of the recursion started from
      error ac[0]. */
  function Levinson(ac: seq<int>, k: nat): (o: Outcome)
    requires k < |ac|
    ensures o.Solved? ==> |o.lpc| == k
    ensures o.ZeroDivisor? ==> o.step < k
    decreases k, 1
  {
    if k == 0 then Solved([], ac[0]) else Advance(ac, k - 1)
  }

  /** Step i of the recursion (one pass of the loop of lines 88-108): from the i-step
      state, divide by error + 16 (a divisor of 0 stops here), then update the
      coefficients and the error. */
  function Advance(ac: seq<int>, i: nat): (o: Outcome)
    requires i + 1 < |ac|
    ensures o.Solved? ==> |o.lpc| == i + 1
    ensures o.ZeroDivisor? ==> o.step <= i
    decreases i + 1, 0
  {
    match Levinson(ac, i)
    case ZeroDivisor(s) => ZeroDivisor(s)
    case Solved(c, e) =>
      if e + 16 == 0 then ZeroDivisor(i)
      else
        var r := Reflection(c, ac, e);
        Solved(Step(c, r), NextError(e, r))
  }

  /** What `_spx_lpc` computes for order p: a silent frame (ac[0] == 0) gives p zero
      coefficients and error 0, whatever p is; otherwise the p-step recursion. */
  function Solve(ac: seq<int>, p: nat): (o: Outcome)
    requires 0 < |ac| && (ac[0] == 0 || p < |ac|)
    ensures o.Solved? ==> |o.lpc| == p
  {
    if ac[0] == 0 then Solved(seq(p, _ => 0), 0) else Levinson(ac, p)
  }

  /** The reflection-coefficient sum of lines 91-93 over lpcq[0..i-1]. */
  method SumReflection(lpcq: array<int>, ac: seq<int>, i: nat) returns (rr: int)
    requires i <= lpcq.Length && i + 1 < |ac|
    ensures rr == Numerator(lpcq[..i], ac, i)
  {
    rr := -ac[i + 1] * Q13_ONE;
    var j := 0;
    while j < i
      invariant 0 <= j <= i
      invariant rr == Numerator(lpcq[..i], ac, j)
    {
      rr := rr - lpcq[j] * ac[i - j];
      j := j + 1;
    }
  }

  /** Lines 98-102, one pass of the pair loop: lpcq[j] and lpcq[i-1-j] each gain the Q13
      product of r and the other's value from before the pass, the old lpcq[j] being
      kept in a temporary. */
  method PairUpdate(lpcq: array<int>, i: nat, j: nat, r: int, ghost c: seq<int>)
    requires j < i - 1 - j && i < lpcq.Length && |c| == i
    requires lpcq[j] == c[j] && lpcq[i - 1 - j] == c[i - 1 - j]
    modifies lpcq
    ensures lpcq[j] == Updated(c, r, j) && lpcq[i - 1 - j] == Updated(c, r, i - 1 - j)
    ensures forall k :: 0 <= k < lpcq.Length && k != j && k != i - 1 - j ==> lpcq[k] == old(lpcq[k])
  {
    var tmp := lpcq[j];
    lpcq[j] := lpcq[j] + MultQ13(r, lpcq[i - 1 - j]);
    lpcq[i - 1 - j] := lpcq[i - 1 - j] + MultQ13(r, tmp);
  }

  /** Lines 104-105, odd orders only: the unpaired middle coefficient is its own mirror
      image; the source multiplies in the other order, which gives the same product. */
  method MiddleUpdate(lpcq: array<int>, j: nat, r: int, ghost c: seq<int>)
    requires |c| == 2 * j + 1 && j < lpcq.Length && lpcq[j] == c[j]
    modifies lpcq
    ensures lpcq[j] == Updated(c, r, j)
    ensures forall k :: 0 <= k < lpcq.Length && k != j ==> lpcq[k] == old(lpcq[k])
  {
    MultQ13Commutes(lpcq[j], r);
    lpcq[j] := lpcq[j] + MultQ13(lpcq[j], r);
  }

  /** After the pair loop has updated every coefficient outside the middle range j..i-1-j
      (and, for odd i, the middle one too), lpcq[0..i] is the simultaneous update. */
  lemma PairsGiveStep(lpcq: array<int>, c: seq<int>, r: int, j: nat)
    requires |c| < lpcq.Length
    requires 2 * j == |c| || 2 * j + 1 == |c|
    requires forall k :: 0 <= k < |c| && (k < j || |c| - j <= k) ==> lpcq[k] == Updated(c, r, k)
    requires 2 * j + 1 == |c| ==> lpcq[j] == Updated(c, r, j)
    requires lpcq[|c|] == r
    ensures lpcq[..|c| + 1] == Step(c, r)
  {
    forall k | 0 <= k <= |c|
      ensures lpcq[k] == Step(c, r)[k]
    {
    }
  }

  /** Lines 97-105: lpcq[i] := r, the in-place symmetric pair loop over j < i>>1, and the
      extra update of the unpaired middle element when i & 1. Same result as the
      simultaneous update `Step`; nothing above index i is touched. */
  method SymmetricUpdate(lpcq: array<int>, i: nat, r: int)
    requires i < lpcq.Length
    modifies lpcq
    ensures lpcq[..i + 1] == Step(old(lpcq[..i]), r)
    ensures forall k :: i < k < lpcq.Length ==> lpcq[k] == old(lpcq[k])
  {
    ghost var c := lpcq[..i];
    lpcq[i] := r;
    var j := 0;
    while j < i / 2
      invariant 0 <= j <= i / 2
      invariant forall k :: 0 <= k < i && (k < j || i - j <= k) ==> lpcq[k] == Updated(c, r, k)
      invariant forall k :: j <= k < i - j ==> lpcq[k] == c[k]
      invariant lpcq[i] == r
      invariant forall k :: i < k < lpcq.Length ==> lpcq[k] == old(lpcq[k])
    {
      PairUpdate(lpcq, i, j, r, c);
      j := j + 1;
    }
    if i % 2 == 1 {
      MiddleUpdate(lpcq, j, r, c);
    }
    PairsGiveStep(lpcq, c, r, j);
  }

  /** Lines 81-86: the silent-frame branch writes p zeros. */
  method ZeroFill(lpc: array<int>, p: nat)
    requires p <= lpc.Length
    modifies lpc
    ensures lpc[..p] == seq(p, _ => 0)
    ensures forall k :: p <= k < lpc.Length ==> lpc[k] == old(lpc[k])
  {
    var i := 0;
    while i < p
      invariant 0 <= i <= p
      invariant forall k :: 0 <= k < i ==> lpc[k] == 0
      invariant forall k :: i <= k < lpc.Length ==> lpc[k] == old(lpc[k])
    {
      lpc[i] := 0;
      i := i + 1;
    }
  }

  /** Lines 109-110: the first p entries of lpcq are copied to the output (the division
      by 8192. that turns them into floating-point values is not modelled). */
  method CopyOut(lpc: array<int>, lpcq: array<int>, p: nat)
    requires p <= lpc.Length && p <= lpcq.Length && lpc != lpcq
    modifies lpc
    ensures lpc[..p] == lpcq[..p]
    ensures forall k :: p <= k < lpc.Length ==> lpc[k] == old(lpc[k])
  {
    var i := 0;
    while i < p
      invariant 0 <= i <= p
      invariant forall k :: 0 <= k < i ==> lpc[k] == lpcq[k]
      invariant forall k :: i <= k < lpc.Length ==> lpc[k] == old(lpc[k])
    {
      lpc[i] := lpcq[i];
      i := i + 1;
    }
  }

  /** One more step of the recursion from a state with a non-zero divisor. */
  lemma LevinsonNext(ac: seq<int>, k: nat, c: seq<int>, e: int)
    requires k + 1 < |ac| && Levinson(ac, k) == Solved(c, e) && e + 16 != 0
    ensures var r := TruncDiv(Numerator(c, ac, k), e + 16);
      Levinson(ac, k + 1) == Solved(Step(c, r), NextError(e, r))
  {
    assert Levinson(ac, k + 1) == Advance(ac, k);
  }

  /** The body of the loop of lines 88-108 for step i: reflection coefficient, in-place
      coefficient update and new error. */
  method Iteration(lpcq: array<int>, ac: seq<int>, i: nat, error: int) returns (next: int)
    requires i < lpcq.Length && i + 1 < |ac|
    requires Levinson(ac, i) == Solved(lpcq[..i], error) && error + 16 != 0
    modifies lpcq
    ensures Levinson(ac, i + 1) == Solved(lpcq[..i + 1], next)
    ensures forall k :: i < k < lpcq.Length ==> lpcq[k] == old(lpcq[k])
  {
    var rr := SumReflection(lpcq, ac, i);
    LevinsonNext(ac, i, lpcq[..i], error);
    var r := TruncDiv(rr, error + 16);
    SymmetricUpdate(lpcq, i, r);
    next := error - MultQ13(r, MultQ13(error, r));
  }

  /** A defined recursion of k+1 steps comes from a defined k-step one with a non-zero
      divisor, extended by one step. */
  lemma LevinsonPrev(ac: seq<int>, k: nat)
    requires k + 1 < |ac| && Levinson(ac, k + 1).Solved?
    ensures Levinson(ac, k).Solved? && Levinson(ac, k).error + 16 != 0
    ensures var c, e := Levinson(ac, k).lpc, Levinson(ac, k).error;
      var r := Reflection(c, ac, e);
      Levinson(ac, k + 1) == Solved(Step(c, r), NextError(e, r))
  {
    assert Levinson(ac, k + 1) == Advance(ac, k);
  }

  /** Once a step meets a zero divisor, every longer recursion reports that step. */
  lemma {:induction false} ZeroDivisorPersists(ac: seq<int>, i: nat, k: nat)
    requires i < k < |ac| && Levinson(ac, i).Solved? && Levinson(ac, i).error + 16 == 0
    ensures Levinson(ac, k) == ZeroDivisor(i)
    decreases k
  {
    if k > i + 1 {
      ZeroDivisorPersists(ac, i, k - 1);
    }
  }

  /** `_spx_lpc`: runs the recursion in the local ten-slot buffer lpcq, then copies the
      order-p Q13 coefficients to lpc[0..p-1] and returns, with them, the final error. The
      buffer bounds the order to 10 except in the silent-frame branch, which never uses
      it. A divisor error + 16 of 0 (a division by zero in C) stops the model at that
      step, with lpc untouched. */
  method Lpc(lpc: array<int>, ac: seq<int>, p: nat) returns (res: Outcome)
    requires 0 < |ac| && p <= lpc.Length
    requires ac[0] == 0 || (p < |ac| && p <= 10)
    modifies lpc
    ensures res == Solve(ac, p)
    ensures res.Solved? ==> lpc[..p] == res.lpc
    ensures res.ZeroDivisor? ==> lpc[..] == old(lpc[..])
    ensures forall k :: p <= k < lpc.Length ==> lpc[k] == old(lpc[k])
  {
    var error := ac[0];
    if ac[0] == 0 {
      ZeroFill(lpc, p);
      return Solved(lpc[..p], 0);
    }
    var lpcq := new int[10];
    var i := 0;
    while i < p
      invariant 0 <= i <= p
      invariant Levinson(ac, i) == Solved(lpcq[..i], error)
      invariant lpc[..] == old(lpc[..])
    {
      if error + 16 == 0 {
        ZeroDivisorPersists(ac, i, p);
        return ZeroDivisor(i);
      }
      error := Iteration(lpcq, ac, i, error);
      i := i + 1;
    }
    CopyOut(lpc, lpcq, p);
    return Solved(lpc[..p], error);
  }

  // ---------------------------------------------------------------------------
  // Properties of the recursion
  // ---------------------------------------------------------------------------

  /** Order 0: no coefficient, and the error is ac[0]. */
  lemma OrderZero(ac: seq<int>)
    requires 0 < |ac|
    ensures Solve(ac, 0) == Solved([], ac[0])
  {
  }

  /** A silent frame gives an all-zero predictor and error 0, for every order. */
  lemma ZeroEnergy(ac: seq<int>, p: nat)
    requires 0 < |ac| && ac[0] == 0
    ensures Solve(ac, p).Solved? && Solve(ac, p).error == 0
    ensures forall j :: 0 <= j < p ==> Solve(ac, p).lpc[j] == 0
  {
  }

  /** The reflection coefficient r = lpcq[k] set at step k (line 94) is the quotient of
      the numerator by error + 16 truncated towards zero: the remainder is smaller than
      the divisor and has the numerator's sign. */
  lemma ReflectionQuotient(ac: seq<int>, k: nat)
    requires k + 1 < |ac| && Levinson(ac, k + 1).Solved?
    ensures Levinson(ac, k).Solved?
    ensures var c, d := Levinson(ac, k).lpc, Levinson(ac, k).error + 16;
      var n, r := Numerator(c, ac, k), Levinson(ac, k + 1).lpc[k];
      d != 0 && Abs(n - r * d) < Abs(d) && (n - r * d == 0 || (n - r * d < 0 <==> n < 0))
  {
    LevinsonPrev(ac, k);
    var c, e := Levinson(ac, k).lpc, Levinson(ac, k).error;
    var r := Reflection(c, ac, e);
    assert Step(c, r)[k] == r;
  }

  /** Error recurrence (line 107) in Q13: for a non-negative error e and a reflection
      coefficient r with |r| <= 1.0 in Q13, the rounded product r·(e·r) lies between 0 and
      e, so the new error lies between 0 and the old one. */
  lemma ErrorUpdateBounded(e: int, r: int)
    requires 0 <= e && -Q13_ONE <= r <= Q13_ONE
    ensures 0 <= NextError(e, r) <= e
  {
    var t := MultQ13(e, r);
    var u := r * t;
    if r >= 0 {
      MulLeft(e, 0, r);
      assert t >= 0;
      MulLeft(t, r, Q13_ONE);
      MulLeft(e, r, Q13_ONE);
      MulLeft(r, 0, t);
      assert 0 <= u <= Q13_ONE * e;
    } else {
      MulLeft(e, r, 0);
      MulLeft(e, -Q13_ONE, r);
      assert -e <= t <= 0;
      MulLeft(-t, -r, Q13_ONE);
      MulLeft(-r, 0, -t);
      assert u == (-r) * (-t);
      assert 0 <= u <= Q13_ONE * e;
    }
    var m := MultQ13(r, t);
    assert 0 <= m <= e;
  }

  /** The step that introduces reflection coefficient r = lpcq[k] maps the error e to
      NextError(e, r); with e >= 0 and |r| <= 1.0 in Q13 the new error lies between 0 and
      the old one. */
  lemma ErrorBounds(ac: seq<int>, k: nat)
    requires k + 1 < |ac| && Levinson(ac, k + 1).Solved?
    ensures Levinson(ac, k).Solved?
    ensures var e, r := Levinson(ac, k).error, Levinson(ac, k + 1).lpc[k];
      Levinson(ac, k + 1).error == NextError(e, r) &&
      (0 <= e && -Q13_ONE <= r <= Q13_ONE ==> 0 <= Levinson(ac, k + 1).error <= e)
  {
    LevinsonPrev(ac, k);
    var c, e := Levinson(ac, k).lpc, Levinson(ac, k).error;
    var r := Reflection(c, ac, e);
    assert Step(c, r)[k] == r;
    if 0 <= e && -Q13_ONE <= r <= Q13_ONE {
      ErrorUpdateBounded(e, r);
    }
  }

  /** Every reflection coefficient the first k steps define lies in [-1.0, 1.0] in Q13. */
  predicate ReflectionsInRange(ac: seq<int>, k: nat)
    requires k < |ac|
  {
    k == 0 ||
    (ReflectionsInRange(ac, k - 1) &&
     (Levinson(ac, k).Solved? ==> -Q13_ONE <= Levinson(ac, k).lpc[k - 1] <= Q13_ONE))
  }

  /** From a non-negative ac[0], while the reflection coefficients stay within [-1.0, 1.0]
      the divisor error + 16 is at least 16 (so no step divides by zero) and the running
      error stays between 0 and ac[0] and never grows. */
  lemma {:induction false} StableErrorDecreases(ac: seq<int>, k: nat)
    requires k < |ac| && 0 <= ac[0] && ReflectionsInRange(ac, k)
    ensures Levinson(ac, k).Solved? && 0 <= Levinson(ac, k).error <= ac[0]
    ensures k > 0 ==> Levinson(ac, k - 1).Solved? && Levinson(ac, k).error <= Levinson(ac, k - 1).error
    decreases k
  {
    if k > 0 {
      StableErrorDecreases(ac, k - 1);
      var c, e := Levinson(ac, k - 1).lpc, Levinson(ac, k - 1).error;
      LevinsonNext(ac, k - 1, c, e);
      ErrorBounds(ac, k - 1);
    }
  }

  /** A worked order-1 example, ac = [8192, 4096]: rr = -4096·8192, r = rr / 8208
      truncated to -4088, and the error 8192 - 2040 = 6152; and a frame whose ac[0] is -16
      meets a zero divisor at its first step. */
  lemma OrderOneExamples()
    ensures Solve([8192, 4096], 1) == Solved([-4088], 6152)
    ensures Solve([-16, 5], 1) == ZeroDivisor(0)
  {
    Pow2Values();
    var ac := [8192, 4096];
    assert Numerator([], ac, 0) == -33554432;
    assert TruncDiv(-33554432, 8208) == -4088;
    assert MultQ13(8192, -4088) == -4088;
    assert MultQ13(-4088, -4088) == 2040;
    assert Step([], -4088) == [-4088];
    assert Levinson(ac, 1) == Advance(ac, 0);
    assert Levinson([-16, 5], 1) == Advance([-16, 5], 0);
  }
}
