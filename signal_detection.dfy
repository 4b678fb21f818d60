/** Response rates and the d-prime sensitivity index of signal-detection theory.
    A rate whose denominator is zero is `None` (numpy's NaN). The inverse
    normal CDF is not modelled: every member that needs it takes it as the
    parameter `probit`. */
module SignalDetection {
  import opened Wrappers

  /** `k / n` as numpy divides two trial counts: NaN (here `None`) when `n` is zero. */
  function Rate(k: nat, n: nat): (r: Option<real>)
    ensures r.None? <==> n == 0
    ensures r.Some? ==> r.value * n as real == k as real
    ensures r.Some? && k <= n ==> 0.0 <= r.value <= 1.0
    ensures r.Some? ==> (r.value == 0.0 <==> k == 0) && (r.value == 1.0 <==> k == n)
  {
    if n == 0 then None else Some(k as real / n as real)
  }

  /** The boundary correction applied before the probit transform: a rate of
      0 becomes 0.5/n and a rate of 1 becomes 1 - 0.5/n, so that the transform
      stays finite. With `n == 0` numpy divides 0.5 by zero and the corrected
      rate is infinite; the model reports it as undefined. */
  function AdjustResponseRate(r: real, n: nat): (a: Option<real>)
    ensures r != 0.0 && r != 1.0 ==> a == Some(r)
    ensures n > 0 && r == 0.0 ==> a == Some(0.5 / n as real)
    ensures n > 0 && r == 1.0 ==> a == Some(1.0 - 0.5 / n as real)
    ensures a.None? <==> n == 0 && (r == 0.0 || r == 1.0)
    ensures 0.0 <= r <= 1.0 && n > 0 ==> a.Some? && 0.0 < a.value < 1.0
  {
    if r == 0.0 then (if n == 0 then None else Some(0.5 / n as real))
    else if r == 1.0 then (if n == 0 then None else Some(1.0 - 0.5 / n as real))
    else Some(r)
  }

  /** d' = probit(corrected hit rate) - probit(corrected false-alarm rate);
      undefined when either rate is, or either correction is. */
  function CalcDprime(hitRate: Option<real>, falseAlarmRate: Option<real>, goTrials: nat, nogoTrials: nat,
                      probit: real -> real): (d: Option<real>)
  {
    if hitRate.None? || falseAlarmRate.None? then None
    else
      var hr := AdjustResponseRate(hitRate.value, goTrials);
      var far := AdjustResponseRate(falseAlarmRate.value, nogoTrials);
      if hr.None? || far.None? then None else Some(probit(hr.value) - probit(far.value))
  }

  /** The probit transform, for the rates d' is computed from. */
  ghost predicate StrictlyIncreasingOnUnit(probit: real -> real) {
    forall x: real, y: real :: 0.0 < x < y < 1.0 ==> probit(x) < probit(y)
  }

  /** A d' built from two rates of actual trial counts is always defined, and
      the probit transform is only ever applied strictly inside (0, 1). */
  lemma DprimeDefinedForCountRates(h: nat, go: nat, f: nat, nogo: nat, probit: real -> real)
    requires h <= go && f <= nogo
    ensures CalcDprime(Rate(h, go), Rate(f, nogo), go, nogo, probit).Some? <==> go > 0 && nogo > 0
    ensures go > 0 && nogo > 0 ==>
      var hr := AdjustResponseRate(Rate(h, go).value, go).value;
      var far := AdjustResponseRate(Rate(f, nogo).value, nogo).value;
      && 0.0 < hr < 1.0 && 0.0 < far < 1.0
      && CalcDprime(Rate(h, go), Rate(f, nogo), go, nogo, probit) == Some(probit(hr) - probit(far))
  {
  }

  /** Equal rates over equal trial counts have d' = 0, whatever the probit. */
  lemma DprimeOfEqualRates(r: real, n: nat, probit: real -> real)
    requires n > 0
    ensures CalcDprime(Some(r), Some(r), n, n, probit) == Some(0.0)
  {
  }

  /** Swapping the two rates (and their counts) negates d'. */
  lemma DprimeAntisymmetric(r1: Option<real>, r2: Option<real>, n1: nat, n2: nat, probit: real -> real)
    ensures CalcDprime(r1, r2, n1, n2, probit).Some? <==> CalcDprime(r2, r1, n2, n1, probit).Some?
    ensures CalcDprime(r1, r2, n1, n2, probit).Some? ==>
      CalcDprime(r1, r2, n1, n2, probit).value == -CalcDprime(r2, r1, n2, n1, probit).value
  {
  }

  /** No hits and no false alarms out of 50 trials each: both rates are
      corrected to 0.01 and d' is exactly 0 rather than undefined. */
  lemma DprimeBothZero(probit: real -> real)
    ensures AdjustResponseRate(0.0, 50) == Some(0.01)
    ensures CalcDprime(Some(0.0), Some(0.0), 50, 50, probit) == Some(0.0)
  {
  }

  /** All hits and no false alarms out of 10 each: the corrected rates are
      0.95 and 0.05, and d' is positive for any increasing probit. */
  lemma DprimePerfectPerformance(probit: real -> real)
    requires StrictlyIncreasingOnUnit(probit)
    ensures CalcDprime(Some(1.0), Some(0.0), 10, 10, probit) == Some(probit(0.95) - probit(0.05))
    ensures CalcDprime(Some(1.0), Some(0.0), 10, 10, probit).value > 0.0
  {
    assert 0.0 < 0.05 < 0.95 < 1.0;
  }

  /** Over the same number (at least two) of trials, more hits than false
      alarms gives a positive d': the correction keeps the order of rates k/n. */
  lemma {:induction false} DprimePositiveWhenMoreHits(h: nat, f: nat, n: nat, probit: real -> real)
    requires StrictlyIncreasingOnUnit(probit)
    requires f < h <= n && n >= 2
    ensures CalcDprime(Rate(h, n), Rate(f, n), n, n, probit).Some?
    ensures CalcDprime(Rate(h, n), Rate(f, n), n, n, probit).value > 0.0
  {
    var nr := n as real;
    var hr := AdjustResponseRate(Rate(h, n).value, n).value;
    var far := AdjustResponseRate(Rate(f, n).value, n).value;
    AdjustedCountRateBounds(h, n);
    AdjustedCountRateBounds(f, n);
    // Both corrected rates are of the form x / n with x = 0.5, k or n - 0.5.
    var fx := if f == 0 then 0.5 else f as real;
    var hx := if h == n then nr - 0.5 else h as real;
    assert far == fx / nr;
    assert hr == hx / nr by {
      if h == n {
        assert 1.0 - 0.5 / nr == (nr - 0.5) / nr;
      }
    }
    assert fx < hx;
    DivideMonotone(fx, hx, nr);
    assert probit(far) < probit(hr);
  }

  lemma DivideMonotone(x: real, y: real, c: real)
    requires c > 0.0 && x < y
    ensures x / c < y / c
  {
  }

  /** With a single trial of each kind the correction maps both a rate of 1
      and a rate of 0 to 0.5, so a hit against a correct rejection has d' = 0. */
  lemma DprimeSingleTrial(probit: real -> real)
    ensures CalcDprime(Some(1.0), Some(0.0), 1, 1, probit) == Some(0.0)
  {
  }

  /** The corrected rate of k out of n trials, with n > 0, lies strictly inside (0, 1). */
  lemma AdjustedCountRateBounds(k: nat, n: nat)
    requires k <= n && n > 0
    ensures AdjustResponseRate(Rate(k, n).value, n).Some?
    ensures 0.0 < AdjustResponseRate(Rate(k, n).value, n).value < 1.0
  {
  }
}
