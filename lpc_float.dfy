/** The floating-point build of the LPC analysis front end (libspeex/lpc.c without
    FIXED_POINT): the Levinson-Durbin solver `_spx_lpc` and the autocorrelation
    `_spx_autocorr`. Samples, autocorrelation values and coefficients are `real`, so
    arithmetic is exact; IEEE rounding is not modelled. */
module LpcFloat {
  import opened RealVectors

  /** The lag |d| between two sample indices whose difference is d. */
  function Gap(d: int): nat
  {
    if d < 0 then -d else d
  }

  // ---------------------------------------------------------------------------
  // Autocorrelation
  // ---------------------------------------------------------------------------

  /** The energy bias added to ac[0] so that the solver's first division is by a
      strictly positive number. */
  const BIAS: real := 10.0

  /** Σ_{t=k}^{hi-1} x[t]·x[t-k]: the lag-k products over the overlap, up to hi. */
  function LagSum(x: seq<real>, k: nat, hi: nat): real
    requires hi <= |x|
    decreases hi
  {
    if hi <= k then 0.0 else LagSum(x, k, hi - 1) + x[hi - 1] * x[hi - 1 - k]
  }

  /** The lag-k autocorrelation of the whole buffer. */
  function Corr(x: seq<real>, k: nat): real
  {
    LagSum(x, k, |x|)
  }

  /** What `_spx_autocorr` stores in ac[0..lag-1] (for lag > 0). */
  function Autocorrelation(x: seq<real>, lag: nat): seq<real>
  {
    seq(lag, k requires 0 <= k < lag => if k == 0 then Corr(x, 0) + BIAS else Corr(x, k))
  }

  /** The sample x[t], with x taken to be zero outside 0..|x|-1. */
  function Padded(x: seq<real>, t: int): real
  {
    if 0 <= t < |x| then x[t] else 0.0
  }

  /** Σ_{t=0}^{hi-1} x(t)·x(t-k) over the zero-padded signal. */
  function PaddedSum(x: seq<real>, k: nat, hi: nat): real
    decreases hi
  {
    if hi == 0 then 0.0 else PaddedSum(x, k, hi - 1) + Padded(x, hi - 1) * Padded(x, hi - 1 - k)
  }

  /** The overlap sum agrees with the definition in the source's comment: the sum of
      x(n)·x(n-k) over all n, x being zero outside the buffer (terms with n >= |x|
      vanish, so the sum up to |x| is the whole sum). */
  lemma {:induction false} LagSumIsPaddedSum(x: seq<real>, k: nat, hi: nat)
    requires hi <= |x|
    ensures LagSum(x, k, hi) == PaddedSum(x, k, hi)
    decreases hi
  {
    if hi > 0 {
      LagSumIsPaddedSum(x, k, hi - 1);
      if hi <= k {
        assert LagSum(x, k, hi) == 0.0 == LagSum(x, k, hi - 1);
        assert Padded(x, hi - 1 - k) == 0.0;
        assert PaddedSum(x, k, hi) == PaddedSum(x, k, hi - 1) + Padded(x, hi - 1) * 0.0;
      } else {
        assert Padded(x, hi - 1 - k) == x[hi - 1 - k];
      }
    }
  }

  lemma CorrIsPaddedSum(x: seq<real>, k: nat)
    ensures Corr(x, k) == PaddedSum(x, k, |x|)
  {
    LagSumIsPaddedSum(x, k, |x|);
  }

  /** A lag at or beyond the buffer length has no overlap: its autocorrelation is 0. */
  lemma CorrBeyondLength(x: seq<real>, k: nat)
    requires |x| <= k
    ensures Corr(x, k) == 0.0
  {
  }

  lemma {:induction false} EnergyNonNegative(x: seq<real>, hi: nat)
    requires hi <= |x|
    ensures LagSum(x, 0, hi) >= 0.0
    decreases hi
  {
    if hi > 0 {
      EnergyNonNegative(x, hi - 1);
      var s := x[hi - 1];
      assert s * s >= 0.0 by {
        if s < 0.0 { assert (-s) * (-s) > 0.0; }
      }
    }
  }

  /** The biased lag-0 value is at least the bias, so it is never 0 and the solver's
      degenerate branch is not taken on a frame produced by `Autocorr`. */
  lemma AutocorrelationEnergyPositive(x: seq<real>, lag: nat)
    requires lag > 0
    ensures Autocorrelation(x, lag)[0] >= BIAS > 0.0
  {
    EnergyNonNegative(x, |x|);
  }

  function Min(a: nat, b: nat): nat
  {
    if a <= b then a else b
  }

  /** `_spx_autocorr`: for each lag, counting down from lag-1 to 0, a dot product over the
      overlap; then the bias is added to ac[0], also when lag == 0. */
  method Autocorr(x: seq<real>, ac: array<real>, lag: nat)
    requires 1 <= ac.Length && lag <= ac.Length
    modifies ac
    ensures lag > 0 ==> ac[..lag] == Autocorrelation(x, lag)
    ensures lag == 0 ==> ac[0] == old(ac[0]) + BIAS
    ensures forall k :: lag <= k < ac.Length && k != 0 ==> ac[k] == old(ac[k])
  {
    var l := lag;
    while l > 0
      invariant 0 <= l <= lag
      invariant forall k :: l <= k < lag ==> ac[k] == Corr(x, k)
      invariant forall k :: 0 <= k < ac.Length && (k < l || lag <= k) ==> ac[k] == old(ac[k])
    {
      l := l - 1;
      var i := l;
      var d := 0.0;
      while i < |x|
        invariant l <= i
        invariant d == LagSum(x, l, Min(i, |x|))
      {
        d := d + x[i] * x[i - l];
        i := i + 1;
      }
      ac[l] := d;
    }
    ac[0] := ac[0] + BIAS;
  }

  // ---------------------------------------------------------------------------
  // Levinson-Durbin recursion
  // ---------------------------------------------------------------------------

  /** The state of the recursion after some steps, or the step at which it would divide by
      a running error of exactly 0. */
  datatype Outcome = Solved(lpc: seq<real>, error: real) | ZeroDivisor(step: nat)

  /** The running reflection numerator at step i = |c| after j terms:
      -ac[i+1] - Σ_{t<j} c[t]·ac[i-t], subtracted in the source's order. */
  function Numerator(c: seq<real>, ac: seq<real>, j: nat): real
    requires j <= |c| && |c| + 1 < |ac|
    decreases j
  {
    if j == 0 then -ac[|c| + 1] else Numerator(c, ac, j - 1) - c[j - 1] * ac[|c| - (j - 1)]
  }

  /** The reflection coefficient of step |c| for the running error e. */
  function Reflection(c: seq<real>, ac: seq<real>, e: real): real
    requires |c| + 1 < |ac| && e != 0.0
  {
    Numerator(c, ac, |c|) / e
  }

  /** Coefficient k after the order update with reflection coefficient r: the old c[k]
      plus r times its mirror image c[|c|-1-k]. */
  function Updated(c: seq<real>, r: real, k: nat): real
    requires k < |c|
  {
    c[k] + r * c[|c| - 1 - k]
  }

  /** One simultaneous coefficient update: every right-hand side reads the coefficients
      of the previous order, and the new last coefficient is r. */
  function Step(c: seq<real>, r: real): seq<real>
  {
    seq(|c| + 1, k requires 0 <= k <= |c| => if k < |c| then Updated(c, r, k) else r)
  }

  /** The coefficients and running error after k steps of the recursion started from
      error ac[0]. */
  function Levinson(ac: seq<real>, k: nat): (o: Outcome)
    requires k < |ac|
    ensures o.Solved? ==> |o.lpc| == k
    ensures o.ZeroDivisor? ==> o.step < k
    decreases k, 1
  {
    if k == 0 then Solved([], ac[0]) else Advance(ac, k - 1)
  }

  /** Step i of the recursion (one pass of the loop of lines 186-206): from the i-step
      state, divide by the error (an error of 0 stops here), then update the coefficients
      and scale the error by 1 - r². */
  function Advance(ac: seq<real>, i: nat): (o: Outcome)
    requires i + 1 < |ac|
    ensures o.Solved? ==> |o.lpc| == i + 1
    ensures o.ZeroDivisor? ==> o.step <= i
    decreases i + 1, 0
  {
    match Levinson(ac, i)
    case ZeroDivisor(s) => ZeroDivisor(s)
    case Solved(c, e) =>
      if e == 0.0 then ZeroDivisor(i)
      else
        var r := Reflection(c, ac, e);
        Solved(Step(c, r), e * (1.0 - r * r))
  }

  /** What `_spx_lpc` computes for order p: a silent frame (ac[0] == 0) gives p zero
      coefficients and error 0, whatever p is; otherwise the p-step recursion. */
  function Solve(ac: seq<real>, p: nat): (o: Outcome)
    requires 0 < |ac| && (ac[0] == 0.0 || p < |ac|)
    ensures o.Solved? ==> |o.lpc| == p
  {
    if ac[0] == 0.0 then Solved(seq(p, _ => 0.0), 0.0) else Levinson(ac, p)
  }

  /** The reflection-coefficient sum of lines 189-191 over lpc[0..i-1]. */
  method SumReflection(lpc: array<real>, ac: seq<real>, i: nat) returns (r: real)
    requires i <= lpc.Length && i + 1 < |ac|
    ensures r == Numerator(lpc[..i], ac, i)
  {
    r := -ac[i + 1];
    var j := 0;
    while j < i
      invariant 0 <= j <= i
      invariant r == Numerator(lpc[..i], ac, j)
    {
      r := r - lpc[j] * ac[i - j];
      j := j + 1;
    }
  }

  /** Lines 198-200, one pass of the pair loop: lpc[j] and lpc[i-1-j] each gain r times
      the other's value from before the pass, the old lpc[j] being kept in a temporary. */
  method PairUpdate(lpc: array<real>, i: nat, j: nat, r: real, ghost c: seq<real>)
    requires j < i - 1 - j && i < lpc.Length && |c| == i
    requires lpc[j] == c[j] && lpc[i - 1 - j] == c[i - 1 - j]
    modifies lpc
    ensures lpc[j] == Updated(c, r, j) && lpc[i - 1 - j] == Updated(c, r, i - 1 - j)
    ensures forall k :: 0 <= k < lpc.Length && k != j && k != i - 1 - j ==> lpc[k] == old(lpc[k])
  {
    var tmp := lpc[j];
    lpc[j] := lpc[j] + r * lpc[i - 1 - j];
    lpc[i - 1 - j] := lpc[i - 1 - j] + r * tmp;
  }

  /** Lines 202-203, odd orders only: the unpaired middle coefficient is its own mirror image. */
  method MiddleUpdate(lpc: array<real>, j: nat, r: real, ghost c: seq<real>)
    requires |c| == 2 * j + 1 && j < lpc.Length && lpc[j] == c[j]
    modifies lpc
    ensures lpc[j] == Updated(c, r, j)
    ensures forall k :: 0 <= k < lpc.Length && k != j ==> lpc[k] == old(lpc[k])
  {
    lpc[j] := lpc[j] + lpc[j] * r;
  }

  /** After the pair loop has updated every coefficient outside the middle range j..i-1-j
      (and, for odd i, the middle one too), lpc[0..i] is the simultaneous update. */
  lemma PairsGiveStep(lpc: array<real>, c: seq<real>, r: real, j: nat)
    requires |c| < lpc.Length
    requires 2 * j == |c| || 2 * j + 1 == |c|
    requires forall k :: 0 <= k < |c| && (k < j || |c| - j <= k) ==> lpc[k] == Updated(c, r, k)
    requires 2 * j + 1 == |c| ==> lpc[j] == Updated(c, r, j)
    requires lpc[|c|] == r
    ensures lpc[..|c| + 1] == Step(c, r)
  {
    forall k | 0 <= k <= |c|
      ensures lpc[k] == Step(c, r)[k]
    {
    }
  }

  /** Lines 195-203: lpc[i] := r, the in-place symmetric pair loop, and the extra update
      of the unpaired middle element when i is odd. Same result as the simultaneous
      update `Step`; nothing above index i is touched. */
  method SymmetricUpdate(lpc: array<real>, i: nat, r: real)
    requires i < lpc.Length
    modifies lpc
    ensures lpc[..i + 1] == Step(old(lpc[..i]), r)
    ensures forall k :: i < k < lpc.Length ==> lpc[k] == old(lpc[k])
  {
    ghost var c := lpc[..i];
    lpc[i] := r;
    var j := 0;
    while j < i / 2
      invariant 0 <= j <= i / 2
      invariant forall k :: 0 <= k < i && (k < j || i - j <= k) ==> lpc[k] == Updated(c, r, k)
      invariant forall k :: j <= k < i - j ==> lpc[k] == c[k]
      invariant lpc[i] == r
      invariant forall k :: i < k < lpc.Length ==> lpc[k] == old(lpc[k])
    {
      PairUpdate(lpc, i, j, r, c);
      j := j + 1;
    }
    if i % 2 == 1 {
      MiddleUpdate(lpc, j, r, c);
    }
    PairsGiveStep(lpc, c, r, j);
  }

  /** Lines 179-184: the silent-frame branch writes p zeros. */
  method ZeroFill(lpc: array<real>, p: nat)
    requires p <= lpc.Length
    modifies lpc
    ensures lpc[..p] == seq(p, _ => 0.0)
    ensures forall k :: p <= k < lpc.Length ==> lpc[k] == old(lpc[k])
  {
    var i := 0;
    while i < p
      invariant 0 <= i <= p
      invariant forall k :: 0 <= k < i ==> lpc[k] == 0.0
      invariant forall k :: i <= k < lpc.Length ==> lpc[k] == old(lpc[k])
    {
      lpc[i] := 0.0;
      i := i + 1;
    }
  }

  /** One more step of the recursion from a state with a non-zero error. */
  lemma LevinsonNext(ac: seq<real>, k: nat, c: seq<real>, e: real)
    requires k + 1 < |ac| && Levinson(ac, k) == Solved(c, e) && e != 0.0
    ensures var r := Numerator(c, ac, k) / e;
      Levinson(ac, k + 1) == Solved(Step(c, r), e * (1.0 - r * r))
  {
    assert Levinson(ac, k + 1) == Advance(ac, k);
  }

  /** The body of the loop of lines 186-206 for step i: reflection coefficient, in-place
      coefficient update and new error. */
  method Iteration(lpc: array<real>, ac: seq<real>, i: nat, error: real) returns (next: real)
    requires i < lpc.Length && i + 1 < |ac|
    requires Levinson(ac, i) == Solved(lpc[..i], error) && error != 0.0
    modifies lpc
    ensures Levinson(ac, i + 1) == Solved(lpc[..i + 1], next)
    ensures forall k :: i < k < lpc.Length ==> lpc[k] == old(lpc[k])
  {
    var r := SumReflection(lpc, ac, i);
    LevinsonNext(ac, i, lpc[..i], error);
    r := r / error;
    SymmetricUpdate(lpc, i, r);
    next := error * (1.0 - r * r);
  }

  /** A defined recursion of k+1 steps comes from a defined k-step one with a non-zero
      error, extended by one step. */
  lemma LevinsonPrev(ac: seq<real>, k: nat)
    requires k + 1 < |ac| && Levinson(ac, k + 1).Solved?
    ensures Levinson(ac, k).Solved? && Levinson(ac, k).error != 0.0
    ensures var c, e := Levinson(ac, k).lpc, Levinson(ac, k).error;
      var r := Reflection(c, ac, e);
      Levinson(ac, k + 1) == Solved(Step(c, r), e * (1.0 - r * r))
  {
    assert Levinson(ac, k + 1) == Advance(ac, k);
  }

  /** A defined recursion of k+1 steps extends a defined k-step one with a non-zero error. */
  lemma PrefixSolved(ac: seq<real>, k: nat)
    requires k + 1 < |ac| && Levinson(ac, k + 1).Solved?
    ensures Levinson(ac, k).Solved? && Levinson(ac, k).error != 0.0
  {
    assert Levinson(ac, k + 1) == Advance(ac, k);
  }

  /** Once a step meets a zero error, every longer recursion reports that step. */
  lemma {:induction false} ZeroDivisorPersists(ac: seq<real>, i: nat, k: nat)
    requires i < k < |ac| && Levinson(ac, i).Solved? && Levinson(ac, i).error == 0.0
    ensures Levinson(ac, k) == ZeroDivisor(i)
    decreases k
  {
    if k > i + 1 {
      ZeroDivisorPersists(ac, i, k - 1);
    }
  }

  /** `_spx_lpc`: writes the order-p coefficients into lpc[0..p-1] and returns, with them,
      the final prediction error. A running error of exactly 0 at some step (which in
      IEEE arithmetic produces an infinity or NaN) stops the model at that step. */
  method Lpc(lpc: array<real>, ac: seq<real>, p: nat) returns (res: Outcome)
    requires 0 < |ac| && (ac[0] == 0.0 || p < |ac|) && p <= lpc.Length
    modifies lpc
    ensures res == Solve(ac, p)
    ensures res.Solved? ==> lpc[..p] == res.lpc
    ensures res.ZeroDivisor? ==> Levinson(ac, res.step) == Solved(lpc[..res.step], 0.0)
    ensures forall k :: (if res.Solved? then p else res.step) <= k < lpc.Length ==> lpc[k] == old(lpc[k])
  {
    var error := ac[0];
    if ac[0] == 0.0 {
      ZeroFill(lpc, p);
      return Solved(lpc[..p], 0.0);
    }
    var i := 0;
    while i < p
      invariant 0 <= i <= p
      invariant Levinson(ac, i) == Solved(lpc[..i], error)
      invariant forall k :: i <= k < lpc.Length ==> lpc[k] == old(lpc[k])
    {
      if error == 0.0 {
        ZeroDivisorPersists(ac, i, p);
        return ZeroDivisor(i);
      }
      error := Iteration(lpc, ac, i, error);
      i := i + 1;
    }
    return Solved(lpc[..p], error);
  }

  // ---------------------------------------------------------------------------
  // Properties of the recursion
  // ---------------------------------------------------------------------------

  /** Order 0: no coefficient, and the error is ac[0]. */
  lemma OrderZero(ac: seq<real>)
    requires 0 < |ac|
    ensures Solve(ac, 0) == Solved([], ac[0])
  {
  }

  /** A silent frame gives an all-zero predictor and error 0, for every order. */
  lemma ZeroEnergy(ac: seq<real>, p: nat)
    requires 0 < |ac| && ac[0] == 0.0
    ensures Solve(ac, p).Solved? && Solve(ac, p).error == 0.0
    ensures forall j :: 0 <= j < p ==> Solve(ac, p).lpc[j] == 0.0
  {
  }

  /** The vector of autocorrelation values ac[|m-t|] for t = 0..n-1: row m of the
      symmetric Toeplitz matrix of the normal equations. */
  function Lags(ac: seq<real>, m: nat, n: nat): seq<real>
    requires m < |ac| && n <= |ac|
  {
    seq(n, t requires 0 <= t < n => ac[Gap(m - t)])
  }

  /** Row m of the normal equations at the predictor polynomial a = [1, c[0], ...]:
      Σ_t a[t]·ac[|m-t|]. */
  function Residual(a: seq<real>, ac: seq<real>, m: nat): real
    requires m < |ac| && |a| <= |ac|
  {
    Dot(a, Lags(ac, m, |a|))
  }

  lemma LagsSnoc(ac: seq<real>, m: nat, n: nat)
    requires m < |ac| && n < |ac|
    ensures Lags(ac, m, n + 1) == Lags(ac, m, n) + [ac[Gap(m - n)]]
  {
  }

  /** Row m read backwards is row n-1-m: the Toeplitz matrix is symmetric. */
  lemma RevLags(ac: seq<real>, m: nat, n: nat)
    requires m < n <= |ac|
    ensures Rev(Lags(ac, m, n)) == Lags(ac, n - 1 - m, n)
  {
    forall t | 0 <= t < n
      ensures Rev(Lags(ac, m, n))[t] == Lags(ac, n - 1 - m, n)[t]
    {
      assert Gap(m - (n - 1 - t)) == Gap((n - 1 - m) - t);
    }
  }

  /** The source's running numerator is the negated dot product of the predictor
      polynomial [1, c[0], ..., c[j-1]] with row i+1 of the Toeplitz matrix. */
  lemma {:induction false} NumeratorIsDot(c: seq<real>, ac: seq<real>, j: nat)
    requires j <= |c| && |c| + 1 < |ac|
    ensures Numerator(c, ac, j) == -Dot(([1.0] + c)[..j + 1], Lags(ac, |c| + 1, j + 1))
    decreases j
  {
    var a := [1.0] + c;
    var m := |c| + 1;
    if j == 0 {
      assert a[..1] == [] + [1.0];
      LagsSnoc(ac, m, 0);
      assert Lags(ac, m, 0) == [];
      DotAppend([], 1.0, [], ac[m]);
    } else {
      NumeratorIsDot(c, ac, j - 1);
      var x, y := c[j - 1], ac[|c| - (j - 1)];
      assert Numerator(c, ac, j) == Numerator(c, ac, j - 1) - x * y;
      assert a[..j + 1] == a[..j] + [x];
      LagsSnoc(ac, m, j);
      assert Lags(ac, m, j + 1) == Lags(ac, m, j) + [y];
      DotAppend(a[..j], x, Lags(ac, m, j), y);
    }
  }

  /** Reflection coefficient (lines 189-192): the coefficient a step sets at index i is
      r = -(ac[i+1] + Σ_{j<i} c[j]·ac[i-j]) / error, row i+1 of the normal equations
      evaluated at the current predictor, over the current error. */
  lemma ReflectionIsResidual(c: seq<real>, ac: seq<real>, e: real)
    requires |c| + 1 < |ac| && e != 0.0
    ensures Reflection(c, ac, e) == -Residual([1.0] + c, ac, |c| + 1) / e
  {
    NumeratorIsDot(c, ac, |c|);
    assert ([1.0] + c)[..|c| + 1] == [1.0] + c;
  }

  /** The simultaneous update adds r times the reversed, zero-extended predictor
      polynomial to the zero-extended one. */
  lemma StepIsCombine(c: seq<real>, r: real)
    ensures [1.0] + Step(c, r) == Combine([1.0] + c + [0.0], r, Rev([1.0] + c + [0.0]))
  {
    var u := [1.0] + c + [0.0];
    forall t | 0 <= t < |c| + 2
      ensures ([1.0] + Step(c, r))[t] == Combine(u, r, Rev(u))[t]
    {
      if 0 < t <= |c| {
        assert u[t] == c[t - 1] && Rev(u)[t] == c[|c| - t];
      }
    }
  }

  /** Appending a zero coefficient does not change a dot product. */
  lemma DotPadZero(a: seq<real>, v: seq<real>, x: real)
    requires |a| == |v|
    ensures Dot(a + [0.0], v + [x]) == Dot(a, v)
  {
    DotAppend(a, 0.0, v, x);
  }

  /** The zero-extended predictor against the first |c|+1 entries of a longer row. */
  lemma PaddedResidual(ac: seq<real>, c: seq<real>, m: nat)
    requires |c| + 1 < |ac| && m <= |c| + 1
    ensures Dot([1.0] + c + [0.0], Lags(ac, m, |c| + 2)) == Residual([1.0] + c, ac, m)
  {
    LagsSnoc(ac, m, |c| + 1);
    DotPadZero([1.0] + c, Lags(ac, m, |c| + 1), ac[Gap(m - (|c| + 1))]);
  }

  /** The reversed zero-extended predictor against row m is the predictor against row
      |c|+1-m. */
  lemma MirroredResidual(ac: seq<real>, c: seq<real>, m: nat)
    requires |c| + 1 < |ac| && m <= |c| + 1
    ensures Dot(Rev([1.0] + c + [0.0]), Lags(ac, m, |c| + 2)) == Residual([1.0] + c, ac, |c| + 1 - m)
  {
    var u := [1.0] + c + [0.0];
    DotRev(u, Lags(ac, m, |c| + 2));
    RevLags(ac, m, |c| + 2);
    PaddedResidual(ac, c, |c| + 1 - m);
  }

  /** Row m of the new system splits into row m and row k+1-m of the old one. */
  lemma StepResidual(ac: seq<real>, c: seq<real>, r: real, m: nat)
    requires |c| + 1 < |ac| && m <= |c| + 1
    ensures Residual([1.0] + Step(c, r), ac, m)
         == Residual([1.0] + c, ac, m) + r * Residual([1.0] + c, ac, |c| + 1 - m)
  {
    var u := [1.0] + c + [0.0];
    StepIsCombine(c, r);
    DotCombine(u, r, Rev(u), Lags(ac, m, |c| + 2));
    PaddedResidual(ac, c, m);
    MirroredResidual(ac, c, m);
  }

  /** With r = -delta/e, the old error e and the discrepancy delta cancel: delta + r·e is 0,
      and e + r·delta is e·(1 - r²). */
  lemma Cancel(delta: real, e: real, r: real)
    requires e != 0.0 && r == -delta / e
    ensures delta + r * e == 0.0
    ensures e + r * delta == e * (1.0 - r * r)
  {
    assert r * e == -delta;
    assert r * delta == -(r * (r * e));
  }

  /** A row the old predictor already solved stays solved when its mirror row is solved
      too: both halves of its split vanish. */
  lemma OldRowStaysSolved(ac: seq<real>, c: seq<real>, r: real, next: seq<real>, m: nat)
    requires |c| + 1 < |ac| && 1 <= m <= |c| && next == Step(c, r)
    requires Residual([1.0] + c, ac, m) == 0.0 && Residual([1.0] + c, ac, |c| + 1 - m) == 0.0
    ensures Residual([1.0] + next, ac, m) == 0.0
  {
    StepResidual(ac, c, r, m);
  }

  /** The reflection coefficient is chosen to solve the new row |c|+1, and the new
      prediction error is e·(1 - r²). */
  lemma NewRowSolved(ac: seq<real>, c: seq<real>, e: real, next: Outcome)
    requires |c| + 1 < |ac| && e != 0.0 && e == Residual([1.0] + c, ac, 0)
    requires var r := Reflection(c, ac, e); next == Solved(Step(c, r), e * (1.0 - r * r))
    ensures Residual([1.0] + next.lpc, ac, |c| + 1) == 0.0
    ensures next.error == Residual([1.0] + next.lpc, ac, 0)
  {
    var r := Reflection(c, ac, e);
    ReflectionIsResidual(c, ac, e);
    Cancel(Residual([1.0] + c, ac, |c| + 1), e, r);
    StepResidual(ac, c, r, |c| + 1);
    StepResidual(ac, c, r, 0);
  }

  /** The order-0 predictor [1] has prediction error ac[0]. */
  lemma TrivialPredictor(ac: seq<real>)
    requires 0 < |ac|
    ensures Residual([1.0], ac, 0) == ac[0]
  {
    assert Lags(ac, 0, 1) == [] + [ac[0]];
    assert [1.0] == [] + [1.0];
    DotAppend([], 1.0, [], ac[0]);
  }

  /** Step k of the recursion solves row k+1 of the new system and keeps the error equal
      to the prediction error. */
  lemma NewRowAfterStep(ac: seq<real>, k: nat)
    requires k + 1 < |ac| && Levinson(ac, k + 1).Solved? && Levinson(ac, k).Solved?
    requires Levinson(ac, k).error == Residual([1.0] + Levinson(ac, k).lpc, ac, 0)
    ensures Residual([1.0] + Levinson(ac, k + 1).lpc, ac, k + 1) == 0.0
    ensures Levinson(ac, k + 1).error == Residual([1.0] + Levinson(ac, k + 1).lpc, ac, 0)
  {
    LevinsonPrev(ac, k);
    NewRowSolved(ac, Levinson(ac, k).lpc, Levinson(ac, k).error, Levinson(ac, k + 1));
  }

  /** Step k of the recursion keeps row m solved when rows m and k+1-m were. */
  lemma OldRowAfterStep(ac: seq<real>, k: nat, m: nat)
    requires k + 1 < |ac| && Levinson(ac, k + 1).Solved? && Levinson(ac, k).Solved? && 1 <= m <= k
    requires Residual([1.0] + Levinson(ac, k).lpc, ac, m) == 0.0
    requires Residual([1.0] + Levinson(ac, k).lpc, ac, k + 1 - m) == 0.0
    ensures Residual([1.0] + Levinson(ac, k + 1).lpc, ac, m) == 0.0
  {
    LevinsonPrev(ac, k);
    var c, e := Levinson(ac, k).lpc, Levinson(ac, k).error;
    OldRowStaysSolved(ac, c, Reflection(c, ac, e), Levinson(ac, k + 1).lpc, m);
  }

  /** After k defined steps the running error is the prediction error of the predictor
      (row 0 of the Toeplitz system). */
  lemma {:induction false} LevinsonError(ac: seq<real>, k: nat)
    requires k < |ac| && Levinson(ac, k).Solved?
    ensures Levinson(ac, k).error == Residual([1.0] + Levinson(ac, k).lpc, ac, 0)
    decreases k
  {
    if k == 0 {
      assert [1.0] + Levinson(ac, 0).lpc == [1.0];
      TrivialPredictor(ac);
    } else {
      PrefixSolved(ac, k - 1);
      LevinsonError(ac, k - 1);
      NewRowAfterStep(ac, k - 1);
    }
  }

  /** After k defined steps row m of the order-k normal equations vanishes, for each
      1 <= m <= k. */
  lemma {:induction false} LevinsonRow(ac: seq<real>, k: nat, m: nat)
    requires k < |ac| && Levinson(ac, k).Solved? && 1 <= m <= k
    ensures Residual([1.0] + Levinson(ac, k).lpc, ac, m) == 0.0
    decreases k
  {
    PrefixSolved(ac, k - 1);
    if m < k {
      LevinsonRow(ac, k - 1, m);
      LevinsonRow(ac, k - 1, k - m);
      OldRowAfterStep(ac, k - 1, m);
    } else {
      LevinsonError(ac, k - 1);
      NewRowAfterStep(ac, k - 1);
    }
  }

  /** Main correctness theorem: whenever the k-step recursion is defined, its coefficients
      solve the order-k normal equations ac[m] + Σ_j c[j]·ac[|m-1-j|] = 0 (m = 1..k), and
      its error is the prediction error ac[0] + Σ_j c[j]·ac[j+1]. */
  lemma LevinsonSolvesNormalEquations(ac: seq<real>, k: nat)
    requires k < |ac| && Levinson(ac, k).Solved?
    ensures forall m :: 1 <= m <= k ==> Residual([1.0] + Levinson(ac, k).lpc, ac, m) == 0.0
    ensures Levinson(ac, k).error == Residual([1.0] + Levinson(ac, k).lpc, ac, 0)
  {
    LevinsonError(ac, k);
    forall m | 1 <= m <= k
      ensures Residual([1.0] + Levinson(ac, k).lpc, ac, m) == 0.0
    {
      LevinsonRow(ac, k, m);
    }
  }

  lemma MulNonNeg(a: real, b: real)
    requires 0.0 <= a && 0.0 <= b
    ensures 0.0 <= a * b
  {
  }

  lemma MulPos(a: real, b: real)
    requires 0.0 < a && 0.0 < b
    ensures 0.0 < a * b
  {
  }

  lemma UnitSquare(r: real)
    requires -1.0 <= r <= 1.0
    ensures 0.0 <= r * r <= 1.0
  {
    assert 1.0 - r * r == (1.0 - r) * (1.0 + r);
    MulNonNeg(1.0 - r, 1.0 + r);
  }

  /** Multiplying a positive error e by 1 - r² with |r| <= 1 keeps it in [0, e], and
      strictly positive when |r| < 1. */
  lemma ErrorFactor(x: real, e: real, r: real)
    requires x == e * (1.0 - r * r)
    ensures 0.0 < e && -1.0 <= r <= 1.0 ==> 0.0 <= x <= e
    ensures 0.0 < e && -1.0 < r < 1.0 ==> 0.0 < x
  {
    if 0.0 < e && -1.0 <= r <= 1.0 {
      UnitSquare(r);
      MulNonNeg(e, 1.0 - r * r);
      MulNonNeg(e, r * r);
      assert e * (1.0 - r * r) == e - e * (r * r);
      if -1.0 < r < 1.0 {
        MulPos(1.0 - r, 1.0 + r);
        MulPos(e, 1.0 - r * r);
      }
    }
  }

  /** The state after a step with reflection coefficient r: r is its last coefficient, and
      its error is e·(1 - r²). */
  lemma StepError(c: seq<real>, r: real, e: real, o: Outcome)
    requires o == Solved(Step(c, r), e * (1.0 - r * r))
    ensures o.lpc[|c|] == r && o.error == e * (1.0 - o.lpc[|c|] * o.lpc[|c|])
    ensures 0.0 < e && -1.0 <= r <= 1.0 ==> 0.0 <= o.error <= e
    ensures 0.0 < e && -1.0 < r < 1.0 ==> 0.0 < o.error
  {
    assert Step(c, r)[|c|] == r;
    ErrorFactor(o.error, e, r);
  }

  /** Error recurrence (line 205): the step that introduces reflection coefficient
      r = lpc[k] multiplies the error by 1 - r²; with a positive error and |r| <= 1 the
      new error lies between 0 and the old one. */
  lemma ErrorRecurrence(ac: seq<real>, k: nat)
    requires k + 1 < |ac| && Levinson(ac, k + 1).Solved?
    ensures Levinson(ac, k).Solved? && Levinson(ac, k).error != 0.0
    ensures var e, r := Levinson(ac, k).error, Levinson(ac, k + 1).lpc[k];
      Levinson(ac, k + 1).error == e * (1.0 - r * r) &&
      (0.0 < e && -1.0 <= r <= 1.0 ==> 0.0 <= Levinson(ac, k + 1).error <= e)
  {
    LevinsonPrev(ac, k);
    var c, e := Levinson(ac, k).lpc, Levinson(ac, k).error;
    StepError(c, Reflection(c, ac, e), e, Levinson(ac, k + 1));
  }

  /** The bounds the error recurrence gives, without the product itself. */
  lemma ErrorBounds(ac: seq<real>, k: nat)
    requires k + 1 < |ac| && Levinson(ac, k + 1).Solved?
    ensures Levinson(ac, k).Solved?
    ensures var e, r := Levinson(ac, k).error, Levinson(ac, k + 1).lpc[k];
      (0.0 < e && -1.0 <= r <= 1.0 ==> 0.0 <= Levinson(ac, k + 1).error <= e) &&
      (0.0 < e && -1.0 < r < 1.0 ==> 0.0 < Levinson(ac, k + 1).error)
  {
    ErrorRecurrence(ac, k);
    ErrorFactor(Levinson(ac, k + 1).error, Levinson(ac, k).error, Levinson(ac, k + 1).lpc[k]);
  }

  /** Every reflection coefficient the first k steps define lies strictly between -1
      and 1. */
  predicate StableUpTo(ac: seq<real>, k: nat)
    requires k < |ac|
  {
    k == 0 ||
    (StableUpTo(ac, k - 1) && (Levinson(ac, k).Solved? ==> -1.0 < Levinson(ac, k).lpc[k - 1] < 1.0))
  }

  /** Monotonicity: while the reflection coefficients stay inside (-1, 1) the running
      error stays strictly positive (so the next division is defined) and never grows. */
  lemma {:induction false} StableErrorDecreases(ac: seq<real>, k: nat)
    requires k < |ac| && ac[0] > 0.0 && StableUpTo(ac, k)
    ensures Levinson(ac, k).Solved? && 0.0 < Levinson(ac, k).error <= ac[0]
    ensures k > 0 ==> Levinson(ac, k - 1).Solved? && Levinson(ac, k).error <= Levinson(ac, k - 1).error
    decreases k
  {
    if k > 0 {
      StableErrorDecreases(ac, k - 1);
      var c, e := Levinson(ac, k - 1).lpc, Levinson(ac, k - 1).error;
      LevinsonNext(ac, k - 1, c, e);
      ErrorBounds(ac, k - 1);
    }
  }

  /** The worked example x = [1, 1, 1, 1], lag 2: ac = [4 + 10, 3]; the order-1 solution
      is r = -3/14 with error 14·(1 - r²) = 187/14. */
  lemma FourOnesExample()
    ensures Autocorrelation([1.0, 1.0, 1.0, 1.0], 2) == [14.0, 3.0]
    ensures Solve([14.0, 3.0], 1) == Solved([-3.0 / 14.0], 187.0 / 14.0)
  {
    var x := [1.0, 1.0, 1.0, 1.0];
    assert LagSum(x, 0, 1) == 1.0;
    assert LagSum(x, 0, 2) == 2.0;
    assert LagSum(x, 0, 3) == 3.0;
    assert LagSum(x, 0, 4) == 4.0;
    assert LagSum(x, 1, 1) == 0.0;
    assert LagSum(x, 1, 2) == 1.0;
    assert LagSum(x, 1, 3) == 2.0;
    assert LagSum(x, 1, 4) == 3.0;
    assert Step([], -3.0 / 14.0) == [-3.0 / 14.0];
  }
}
