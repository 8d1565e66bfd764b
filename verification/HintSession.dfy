/**
 A power-hint session: a windowed PID controller over reported work durations,
 and the utilisation clamp it drives while the stale-check looper may reset the
 clamp at any moment. Durations are in nanoseconds, errors in units of 100
 microseconds, gains are reals and integers are unbounded.
 */
module HintSession {

  import opened Bits
  import opened Common
  import SessionManager
  import StaleTimer

  const MAX_UCLAMP := 1024

  /** The tunables; `low` and `high` bound the clamp, `iLow` and `iHigh` the integral error. */
  datatype Config = Config(
    pOver: real, pUnder: real, i: real, dOver: real, dUnder: real,
    iInit: int, iLow: int, iHigh: int,
    low: int, high: int, granularity: nat,
    pWindow: nat, iWindow: nat, dWindow: nat)

  /** The values used when no property is set. */
  const Defaults: Config := Config(2.0, 1.0, 0.001, 500.0, 0.0, 200000, -30000, 512000, 2, 384, 5, 1, 0, 1)

  function Abs(a: int): int { if a < 0 then -a else a }

  /** A C++ conversion of a floating-point number to an integer. */
  function Trunc(x: real): int {
    if x >= 0.0 then x.Floor else -((-x).Floor)
  }

  /** It cuts towards zero. */
  lemma TruncTowardsZero(x: real)
    ensures x >= 0.0 ==> Trunc(x) as real <= x < Trunc(x) as real + 1.0
    ensures x <= 0.0 ==> Trunc(x) as real - 1.0 < x <= Trunc(x) as real
  {
  }

  // ---- Windows and folds ----

  function To100us(ns: int): int { TruncDiv(ns, 100000) }

  function Errors(actual: seq<int>, target: int): (es: seq<int>)
    ensures |es| == |actual|
  {
    seq(|actual|, i requires 0 <= i < |actual| => To100us(actual[i] - target))
  }

  /** Where a window of `w` samples (0 for all of them) starts among `n`: it always holds the last sample. */
  function WindowStart(w: nat, n: nat): (r: nat)
    ensures n > 0 ==> r < n
    ensures n - r == if w == 0 then n else Min(w, n)
  {
    if w == 0 || w > n then 0 else n - w
  }

  function Sum(s: seq<int>): int {
    if s == [] then 0 else Sum(s[..|s| - 1]) + s[|s| - 1]
  }

  function Clamp(x: int, lo: int, hi: int): int { Max(lo, Min(hi, x)) }

  /** The anti-windup integral: each error times `dt` is added and the sum is clamped. */
  function Fold(start: int, es: seq<int>, dt: int, lo: int, hi: int): int {
    if es == [] then start
    else Clamp(Fold(start, es[..|es| - 1], dt, lo, hi) + es[|es| - 1] * dt, lo, hi)
  }

  lemma FoldWithinLimits(start: int, es: seq<int>, dt: int, lo: int, hi: int)
    requires es != [] && lo <= hi
    ensures lo <= Fold(start, es, dt, lo, hi) <= hi
  {
  }

  /** As long as the limits are not touched, the integral is the plain sum of the errors times `dt`. */
  lemma {:induction false} FoldUnclamped(start: int, es: seq<int>, dt: int, lo: int, hi: int)
    requires forall k :: 1 <= k <= |es| ==> lo <= start + Sum(es[..k]) * dt <= hi
    ensures Fold(start, es, dt, lo, hi) == start + Sum(es) * dt
    decreases |es|
  {
    assert es[..|es|] == es;
    if es != [] {
      var n := |es| - 1;
      forall k | 1 <= k <= n ensures lo <= start + Sum(es[..n][..k]) * dt <= hi {
        assert es[..n][..k] == es[..k];
      }
      FoldUnclamped(start, es[..n], dt, lo, hi);
      assert (Sum(es[..n]) + es[n]) * dt == Sum(es[..n]) * dt + es[n] * dt;
    }
  }

  ghost predicate Below(a: seq<int>, b: seq<int>) {
    |a| == |b| && forall i :: 0 <= i < |a| ==> a[i] <= b[i]
  }

  lemma TimesMonotone(x: int, y: int, dt: int)
    requires x <= y && dt >= 0
    ensures x * dt <= y * dt
  {
    assert y * dt - x * dt == (y - x) * dt;
  }

  /** The clamped fold is monotone in its start and in every sample. */
  lemma {:induction false} FoldMonotone(start: int, start': int, es: seq<int>, es': seq<int>, dt: int, lo: int, hi: int)
    requires start <= start' && Below(es, es') && dt >= 0
    ensures Fold(start, es, dt, lo, hi) <= Fold(start', es', dt, lo, hi)
    decreases |es|
  {
    if es != [] {
      var n := |es| - 1;
      FoldMonotone(start, start', es[..n], es'[..n], dt, lo, hi);
      TimesMonotone(es[n], es'[n], dt);
    }
  }

  lemma {:induction false} FoldAppend(start: int, a: seq<int>, b: seq<int>, dt: int, lo: int, hi: int)
    ensures Fold(start, a + b, dt, lo, hi) == Fold(Fold(start, a, dt, lo, hi), b, dt, lo, hi)
    decreases |b|
  {
    if b == [] {
      assert a + b == a;
    } else {
      var n := |b| - 1;
      assert (a + b)[..|a + b| - 1] == a + b[..n];
      FoldAppend(start, a, b[..n], dt, lo, hi);
    }
  }

  lemma {:induction false} SumMonotone(a: seq<int>, b: seq<int>)
    requires Below(a, b)
    ensures Sum(a) <= Sum(b)
    decreases |a|
  {
    if a != [] {
      SumMonotone(a[..|a| - 1], b[..|b| - 1]);
    }
  }

  /** The samples `from <= j < i` added up, one index at a time. */
  function PartSum(es: seq<int>, from: nat, i: nat): int
    requires i <= |es|
  {
    if i <= from then 0 else PartSum(es, from, i - 1) + es[i - 1]
  }

  function PartFold(start: int, es: seq<int>, from: nat, i: nat, dt: int, lo: int, hi: int): int
    requires i <= |es|
  {
    if i <= from then start else Clamp(PartFold(start, es, from, i - 1, dt, lo, hi) + es[i - 1] * dt, lo, hi)
  }

  lemma {:induction false} WholeWindow(start: int, es: seq<int>, from: nat, i: nat, dt: int, lo: int, hi: int)
    requires from <= i <= |es|
    ensures PartSum(es, from, i) == Sum(es[from..i])
    ensures PartFold(start, es, from, i, dt, lo, hi) == Fold(start, es[from..i], dt, lo, hi)
  {
    var w := es[from..i];
    if i > from {
      assert w[..|w| - 1] == es[from..i - 1] && w[|w| - 1] == es[i - 1];
      WholeWindow(start, es, from, i - 1, dt, lo, hi);
    }
  }

  // ---- The controller ----

  function LoopStart(c: Config, n: nat): (r: nat)
    ensures n > 0 ==> r < n
  {
    Min(WindowStart(c.pWindow, n), Min(WindowStart(c.iWindow, n), WindowStart(c.dWindow, n)))
  }

  /** Sum of the errors in the P window. */
  function ErrSum(c: Config, actual: seq<int>, target: int): int
    requires actual != []
  {
    Sum(Errors(actual, target)[WindowStart(c.pWindow, |actual|)..])
  }

  /** The error the D window starts from: the one just before it if the loop visits that, else the carried-in one. */
  function ErrorBefore(c: Config, actual: seq<int>, target: int, previous: int): int
    requires actual != []
  {
    var d := WindowStart(c.dWindow, |actual|);
    if d == LoopStart(c, |actual|) then previous else Errors(actual, target)[d - 1]
  }

  function LastError(actual: seq<int>, target: int): int
    requires actual != []
  {
    Errors(actual, target)[|actual| - 1]
  }

  function DerivativeSum(c: Config, actual: seq<int>, target: int, previous: int): int
    requires actual != []
  {
    LastError(actual, target) - ErrorBefore(c, actual, target, previous)
  }

  function Integral(c: Config, start: int, actual: seq<int>, target: int): int {
    Fold(start, Errors(actual, target)[WindowStart(c.iWindow, |actual|)..], To100us(target), c.iLow, c.iHigh)
  }

  /** A report that finds the session stale starts from at least the initial integral error. */
  function Woken(c: Config, integral: int, stale: bool): (r: int)
    ensures !stale ==> r == integral
    ensures stale ==> r >= c.iInit && r >= integral && (r == c.iInit || r == integral)
  {
    if stale then Max(c.iInit, integral) else integral
  }

  /** Every report leaves the integral error within the limits, whatever it was before. */
  lemma IntegralWithinLimits(c: Config, start: int, actual: seq<int>, target: int, stale: bool)
    requires c.iLow <= c.iHigh && actual != []
    ensures c.iLow <= Integral(c, Woken(c, start, stale), actual, target) <= c.iHigh
  {
    FoldWithinLimits(Woken(c, start, stale), Errors(actual, target)[WindowStart(c.iWindow, |actual|)..],
                     To100us(target), c.iLow, c.iHigh);
  }

  lemma ErrorMonotone(x: int, y: int)
    requires x <= y
    ensures To100us(x) <= To100us(y)
  {
  }

  lemma ErrorsMonotone(a: seq<int>, b: seq<int>, target: int, from: nat)
    requires Below(a, b) && from <= |a|
    ensures Below(Errors(a, target)[from..], Errors(b, target)[from..])
  {
    forall i | 0 <= i < |a| ensures Errors(a, target)[i] <= Errors(b, target)[i] {
      ErrorMonotone(a[i] - target, b[i] - target);
    }
  }

  /** Longer work never lowers the integral error. */
  lemma IntegralMonotone(c: Config, start: int, start': int, a: seq<int>, b: seq<int>, target: int)
    requires start <= start' && Below(a, b) && target >= 0
    ensures Integral(c, start, a, target) <= Integral(c, start', b, target)
  {
    var from := WindowStart(c.iWindow, |a|);
    ErrorsMonotone(a, b, target, from);
    FoldMonotone(start, start', Errors(a, target)[from..], Errors(b, target)[from..], To100us(target), c.iLow, c.iHigh);
  }

  /** What the loop over the samples has computed when it is done, in terms of the windows. */
  lemma LoopMeansWindows(c: Config, start: int, actual: seq<int>, target: int)
    requires actual != []
    ensures var n, es := |actual|, Errors(actual, target);
            && PartSum(es, WindowStart(c.pWindow, n), n) == ErrSum(c, actual, target)
            && PartFold(start, es, WindowStart(c.iWindow, n), n, To100us(target), c.iLow, c.iHigh)
               == Integral(c, start, actual, target)
  {
    var n, es := |actual|, Errors(actual, target);
    assert es[..n] == es;
    WholeWindow(start, es, WindowStart(c.pWindow, n), n, To100us(target), c.iLow, c.iHigh);
    WholeWindow(start, es, WindowStart(c.iWindow, n), n, To100us(target), c.iLow, c.iHigh);
  }

  // ---- Splitting a report ----

  /** Reporting `a` and then `b` against one target leaves what reporting `a + b` at once does. */
  ghost predicate Splits(c: Config, start: int, a: seq<int>, b: seq<int>, target: int) {
    Integral(c, Integral(c, start, a, target), b, target) == Integral(c, start, a + b, target)
  }

  lemma ErrorsAppend(a: seq<int>, b: seq<int>, target: int)
    ensures Errors(a + b, target) == Errors(a, target) + Errors(b, target)
  {
  }

  lemma SplitsWhenWindowCovers(c: Config, start: int, a: seq<int>, b: seq<int>, target: int)
    requires c.iWindow == 0 || |a| + |b| <= c.iWindow
    ensures Splits(c, start, a, b, target)
  {
    ErrorsAppend(a, b, target);
    FoldAppend(start, Errors(a, target), Errors(b, target), To100us(target), c.iLow, c.iHigh);
    assert Errors(a, target)[0..] == Errors(a, target) && Errors(b, target)[0..] == Errors(b, target);
    assert Errors(a + b, target)[0..] == Errors(a + b, target);
  }

  ghost predicate AllZero(es: seq<int>) {
    forall i :: 0 <= i < |es| ==> es[i] == 0
  }

  lemma {:induction false} FoldOfZeros(start: int, es: seq<int>, dt: int, lo: int, hi: int)
    requires lo <= start <= hi && AllZero(es)
    ensures Fold(start, es, dt, lo, hi) == start
    decreases |es|
  {
    if es != [] {
      FoldOfZeros(start, es[..|es| - 1], dt, lo, hi);
    }
  }

  /** From the low limit, one unit error among zeros lifts the integral. */
  lemma FoldOfOneError(es: seq<int>, k: nat, dt: int, lo: int, hi: int)
    requires lo < hi && dt >= 1 && k < |es| && es[k] == 1
    requires AllZero(es[..k]) && AllZero(es[k + 1..])
    ensures Fold(lo, es, dt, lo, hi) > lo
  {
    assert es == es[..k + 1] + es[k + 1..];
    FoldAppend(lo, es[..k + 1], es[k + 1..], dt, lo, hi);
    assert es[..k + 1][..k] == es[..k];
    FoldOfZeros(lo, es[..k], dt, lo, hi);
    var lifted := Fold(lo, es[..k + 1], dt, lo, hi);
    assert lifted == Clamp(lo + dt, lo, hi);
    FoldOfZeros(lifted, es[k + 1..], dt, lo, hi);
  }

  /** `n` samples on target except that sample `k` is one unit late. */
  function OneLate(n: nat, k: nat, target: int): (r: seq<int>)
    ensures |r| == n
  {
    seq(n, i => if i == k then target + 100000 else target)
  }

  lemma OneLateErrors(n: nat, k: nat, target: int)
    ensures forall i :: 0 <= i < n ==> Errors(OneLate(n, k, target), target)[i] == if i == k then 1 else 0
  {
    assert To100us(0) == 0 && To100us(100000) == 1;
    forall i | 0 <= i < n ensures Errors(OneLate(n, k, target), target)[i] == if i == k then 1 else 0 {
      var x := OneLate(n, k, target)[i];
      assert x - target == if i == k then 100000 else 0;
    }
  }

  /** Reported at once, a late sample before the window leaves the integral where it was. */
  lemma LateSampleMissed(c: Config, na: nat, nb: nat, k: nat, target: int)
    requires c.iLow <= c.iHigh && k < na && k < WindowStart(c.iWindow, na + nb)
    ensures Integral(c, c.iLow, OneLate(na, k, target) + OneLate(nb, nb, target), target) == c.iLow
  {
    var a, b := OneLate(na, k, target), OneLate(nb, nb, target);
    OneLateErrors(na, k, target);
    OneLateErrors(nb, nb, target);
    ErrorsAppend(a, b, target);
    FoldOfZeros(c.iLow, Errors(a + b, target)[WindowStart(c.iWindow, na + nb)..], To100us(target), c.iLow, c.iHigh);
  }

  /** Reported in two parts, a late sample in the first part's window lifts the integral. */
  lemma LateSampleSeen(c: Config, na: nat, nb: nat, k: nat, target: int)
    requires c.iLow < c.iHigh && target >= 100000 && WindowStart(c.iWindow, na) <= k < na
    ensures Integral(c, Integral(c, c.iLow, OneLate(na, k, target), target), OneLate(nb, nb, target), target) > c.iLow
  {
    var a, b := OneLate(na, k, target), OneLate(nb, nb, target);
    OneLateErrors(na, k, target);
    OneLateErrors(nb, nb, target);
    var dt, wa := To100us(target), WindowStart(c.iWindow, na);
    FoldOfOneError(Errors(a, target)[wa..], k - wa, dt, c.iLow, c.iHigh);
    FoldWithinLimits(c.iLow, Errors(a, target)[wa..], dt, c.iLow, c.iHigh);
    var mid := Integral(c, c.iLow, a, target);
    FoldOfZeros(mid, Errors(b, target)[WindowStart(c.iWindow, nb)..], dt, c.iLow, c.iHigh);
  }

  /** Exactly when splitting a report in two never matters to the integral error: the I window is unlimited or holds
      both parts. The previous error never depends on the split. */
  lemma SplitsIffWindowCovers(c: Config, na: nat, nb: nat, target: int)
    requires na >= 1 && nb >= 1 && c.iLow < c.iHigh && target >= 100000
    ensures (forall start, a, b :: |a| == na && |b| == nb ==> Splits(c, start, a, b, target))
            <==> c.iWindow == 0 || na + nb <= c.iWindow
    ensures forall a, b :: |a| == na && |b| == nb ==> LastError(a + b, target) == LastError(b, target)
  {
    if c.iWindow == 0 || na + nb <= c.iWindow {
      forall start, a, b | |a| == na && |b| == nb ensures Splits(c, start, a, b, target) {
        SplitsWhenWindowCovers(c, start, a, b, target);
      }
    } else {
      var k: nat := na - 1 - Max(c.iWindow - nb, 0);
      LateSampleMissed(c, na, nb, k, target);
      LateSampleSeen(c, na, nb, k, target);
      assert !Splits(c, c.iLow, OneLate(na, k, target), OneLate(nb, nb, target), target);
    }
  }

  /** Finding the session stale between the two parts can only raise the result, and changes nothing if the first part
      already reached the initial integral error. */
  lemma StaleBetweenParts(c: Config, start: int, a: seq<int>, b: seq<int>, target: int)
    requires c.iWindow == 0 || |a| + |b| <= c.iWindow
    requires target >= 0
    ensures var mid := Integral(c, start, a, target);
            && Integral(c, Woken(c, mid, true), b, target) >= Integral(c, start, a + b, target)
            && (mid >= c.iInit ==> Integral(c, Woken(c, mid, true), b, target) == Integral(c, start, a + b, target))
  {
    SplitsWhenWindowCovers(c, start, a, b, target);
    var mid := Integral(c, start, a, target);
    IntegralMonotone(c, mid, Woken(c, mid, true), b, b, target);
  }

  // ---- The output ----

  /** A gain that differs with the sign of what it scales. */
  function Scaled(over: real, under: real, x: int): real {
    Gain(over, under, x) * x as real
  }

  function Gain(over: real, under: real, x: int): real {
    if x > 0 then over else under
  }

  /** Proportional part: the mean error of the `n` samples in the P window, scaled. */
  function POut(c: Config, errSum: int, n: nat): int
    requires n > 0
  {
    Trunc(Scaled(c.pOver, c.pUnder, errSum) / n as real)
  }

  function IOut(c: Config, integral: int): int {
    Trunc(c.i * integral as real)
  }

  /** Derivative part: the mean slope over the `n` samples in the D window, scaled. For a target below 100 microseconds
      the division is by zero and the conversion yields some number, here `wild`. */
  function DOut(c: Config, derivativeSum: int, dt: int, n: nat, wild: int): int
    requires n > 0
  {
    if dt == 0 then wild else Trunc(Scaled(c.dOver, c.dUnder, derivativeSum) / dt as real / n as real)
  }

  /** The output from the three sums over `n` samples. */
  function Output(c: Config, errSum: int, integral: int, derivativeSum: int, n: nat, dt: int, wild: int): int
    requires n > 0
  {
    POut(c, errSum, n - WindowStart(c.pWindow, n)) + IOut(c, integral)
    + DOut(c, derivativeSum, dt, n - WindowStart(c.dWindow, n), wild)
  }

  /** The output of one report, from the state before it. */
  function ReportOutput(c: Config, integral: int, previous: int, actual: seq<int>, target: int, wild: int): int
    requires actual != []
  {
    var n := |actual|;
    Output(c, ErrSum(c, actual, target), Integral(c, integral, actual, target),
           DerivativeSum(c, actual, target, previous), n, To100us(target), wild)
  }

  /** Three gains on an error sum `p` over `np` samples, an integral error `i` and an error difference `d` over `nd`
      samples, each product cut to a whole number. With `dt` zero the third is open. */
  ghost predicate IsControl(kp: real, p: int, np: nat, ki: real, i: int, kd: real, d: int, dt: int, nd: nat, wild: int,
                            output: int)
  {
    np > 0 && nd > 0 &&
    var pi := Trunc(kp * p as real / np as real) + Trunc(ki * i as real);
    if dt == 0 then output == pi + wild
    else output == pi + Trunc(kd * d as real / dt as real / nd as real)
  }

  /** Cutting costs less than one each: the output is less than 3 off the exact sum of the three parts. */
  lemma ControlWithinThree(kp: real, p: int, np: nat, ki: real, i: int, kd: real, d: int, dt: int, nd: nat, wild: int,
                           output: int)
    requires IsControl(kp, p, np, ki, i, kd, d, dt, nd, wild, output) && dt != 0
    ensures var sum := kp * p as real / np as real + ki * i as real + kd * d as real / dt as real / nd as real;
            -3.0 < output as real - sum < 3.0
  {
    CutThree(kp * p as real / np as real, ki * i as real, kd * d as real / dt as real / nd as real);
  }

  lemma CutThree(x: real, y: real, z: real)
    ensures -3.0 < (Trunc(x) + Trunc(y) + Trunc(z)) as real - (x + y + z) < 3.0
  {
  }

  lemma POutIs(c: Config, k: real, p: int, n: nat)
    requires n > 0 && k == Gain(c.pOver, c.pUnder, p)
    ensures POut(c, p, n) == Trunc(k * p as real / n as real)
  {
    assert Scaled(c.pOver, c.pUnder, p) == k * p as real;
  }

  lemma DOutIs(c: Config, k: real, d: int, dt: int, n: nat, wild: int)
    requires n > 0 && dt != 0 && k == Gain(c.dOver, c.dUnder, d)
    ensures DOut(c, d, dt, n, wild) == Trunc(k * d as real / dt as real / n as real)
  {
    assert Scaled(c.dOver, c.dUnder, d) == k * d as real;
  }

  lemma PartsAreControl(c: Config, kp: real, p: int, np: nat, i: int, kd: real, d: int, dt: int, nd: nat, wild: int)
    requires np > 0 && nd > 0 && kp == Gain(c.pOver, c.pUnder, p) && kd == Gain(c.dOver, c.dUnder, d)
    ensures IsControl(kp, p, np, c.i, i, kd, d, dt, nd, wild, POut(c, p, np) + IOut(c, i) + DOut(c, d, dt, nd, wild))
  {
    POutIs(c, kp, p, np);
    assert IOut(c, i) == Trunc(c.i * i as real);
    if dt != 0 {
      DOutIs(c, kd, d, dt, nd, wild);
    }
  }

  /** How many of `n` samples a window takes. */
  function Taken(w: nat, n: nat): nat {
    if w == 0 || w > n then n else w
  }

  /** The sums a report comes down to: the errors added up over the P window, the clamped integral over the I window,
      and the rise of the error over the D window, which starts from the error carried in unless another window reaches
      further back. */
  ghost predicate AreSums(c: Config, integral: int, previous: int, actual: seq<int>, target: int, p: int, i: int,
                          d: int)
    requires actual != []
  {
    var n, es := |actual|, Errors(actual, target);
    var np, ni, nd := Taken(c.pWindow, n), Taken(c.iWindow, n), Taken(c.dWindow, n);
    && p == Sum(es[n - np..])
    && i == Fold(integral, es[n - ni..], To100us(target), c.iLow, c.iHigh)
    && d == es[n - 1] - if np <= nd && ni <= nd then previous else es[n - nd - 1]
  }

  lemma SumsOfWindows(c: Config, integral: int, previous: int, actual: seq<int>, target: int)
    requires actual != []
    ensures AreSums(c, integral, previous, actual, target, ErrSum(c, actual, target),
                    Integral(c, integral, actual, target), DerivativeSum(c, actual, target, previous))
  {
    var n := |actual|;
    TakenIs(c.pWindow, n);
    TakenIs(c.iWindow, n);
    TakenIs(c.dWindow, n);
  }

  lemma TakenIs(w: nat, n: nat)
    ensures WindowStart(w, n) == n - Taken(w, n)
  {
  }

  /** What the output of a report is: the mean of the P sum, the integral, and the mean slope of the D sum, each with
      its gain, which for the first and the last depends on the sign. */
  lemma OutputValue(c: Config, integral: int, previous: int, actual: seq<int>, target: int, wild: int,
                    p: int, i: int, d: int)
    requires actual != [] && AreSums(c, integral, previous, actual, target, p, i, d)
    ensures IsControl(if p > 0 then c.pOver else c.pUnder, p, Taken(c.pWindow, |actual|), c.i, i,
                      if d > 0 then c.dOver else c.dUnder, d, To100us(target), Taken(c.dWindow, |actual|), wild,
                      ReportOutput(c, integral, previous, actual, target, wild))
  {
    SumsOfWindows(c, integral, previous, actual, target);
    OutputOf(c, integral, previous, actual, target, wild, if p > 0 then c.pOver else c.pUnder, p,
             Taken(c.pWindow, |actual|), i, if d > 0 then c.dOver else c.dUnder, d, Taken(c.dWindow, |actual|));
  }

  lemma ControlIsUnique(kp: real, p: int, np: nat, ki: real, i: int, kd: real, d: int, dt: int, nd: nat, wild: int,
                        output: int, output': int)
    requires IsControl(kp, p, np, ki, i, kd, d, dt, nd, wild, output)
    requires IsControl(kp, p, np, ki, i, kd, d, dt, nd, wild, output')
    ensures output == output'
  {
  }

  lemma OutputIs(c: Config, integral: int, previous: int, actual: seq<int>, target: int, wild: int,
                 p: int, i: int, d: int, output: int)
    requires actual != [] && AreSums(c, integral, previous, actual, target, p, i, d)
    requires IsControl(if p > 0 then c.pOver else c.pUnder, p, Taken(c.pWindow, |actual|), c.i, i,
                       if d > 0 then c.dOver else c.dUnder, d, To100us(target), Taken(c.dWindow, |actual|), wild,
                       output)
    ensures output == ReportOutput(c, integral, previous, actual, target, wild)
  {
    OutputValue(c, integral, previous, actual, target, wild, p, i, d);
    ControlIsUnique(if p > 0 then c.pOver else c.pUnder, p, Taken(c.pWindow, |actual|), c.i, i,
                    if d > 0 then c.dOver else c.dUnder, d, To100us(target), Taken(c.dWindow, |actual|), wild, output,
                    ReportOutput(c, integral, previous, actual, target, wild));
  }

  lemma OutputOf(c: Config, integral: int, previous: int, actual: seq<int>, target: int, wild: int,
                 kp: real, p: int, np: nat, i: int, kd: real, d: int, nd: nat)
    requires actual != [] && np == |actual| - WindowStart(c.pWindow, |actual|)
    requires nd == |actual| - WindowStart(c.dWindow, |actual|)
    requires p == ErrSum(c, actual, target) && i == Integral(c, integral, actual, target)
    requires d == DerivativeSum(c, actual, target, previous)
    requires kp == Gain(c.pOver, c.pUnder, p) && kd == Gain(c.dOver, c.dUnder, d)
    ensures IsControl(kp, p, np, c.i, i, kd, d, To100us(target), nd, wild,
                      ReportOutput(c, integral, previous, actual, target, wild))
  {
    PartsAreControl(c, kp, p, np, i, kd, d, To100us(target), nd, wild);
  }

  /** The clamp a nonzero output asks for. */
  function TargetMin(c: Config, output: int): int {
    Max(c.low, Min(c.high, ToI32(output)))
  }

  lemma RealTimesMonotone(g: real, x: real, y: real)
    requires g >= 0.0 && x <= y
    ensures g * x <= g * y
  {
    assert g * y - g * x == g * (y - x);
  }

  lemma RealDivMonotone(x: real, y: real, d: real)
    requires x <= y && d > 0.0
    ensures x / d <= y / d
  {
    assert y / d - x / d == (y - x) / d;
  }

  lemma TruncMonotone(x: real, y: real)
    requires x <= y
    ensures Trunc(x) <= Trunc(y)
  {
  }

  lemma ScaledMonotone(over: real, under: real, x: int, y: int)
    requires over >= 0.0 && under >= 0.0 && x <= y
    ensures Scaled(over, under, x) <= Scaled(over, under, y)
  {
    if x <= 0 < y {
      RealTimesMonotone(under, x as real, 0.0);
      RealTimesMonotone(over, 0.0, y as real);
    } else {
      RealTimesMonotone(if x > 0 then over else under, x as real, y as real);
    }
  }

  ghost predicate GainsNotNegative(c: Config) {
    c.pOver >= 0.0 && c.pUnder >= 0.0 && c.i >= 0.0 && c.dOver >= 0.0 && c.dUnder >= 0.0
  }

  lemma POutMonotone(c: Config, e: int, e': int, n: nat)
    requires GainsNotNegative(c) && e <= e' && n > 0
    ensures POut(c, e, n) <= POut(c, e', n)
  {
    ScaledMonotone(c.pOver, c.pUnder, e, e');
    var x, y := Scaled(c.pOver, c.pUnder, e), Scaled(c.pOver, c.pUnder, e');
    RealDivMonotone(x, y, n as real);
    TruncMonotone(x / n as real, y / n as real);
  }

  lemma IOutMonotone(c: Config, i: int, i': int)
    requires GainsNotNegative(c) && i <= i'
    ensures IOut(c, i) <= IOut(c, i')
  {
    RealTimesMonotone(c.i, i as real, i' as real);
    TruncMonotone(c.i * i as real, c.i * i' as real);
  }

  lemma DOutMonotone(c: Config, d: int, d': int, dt: int, n: nat, wild: int)
    requires GainsNotNegative(c) && d <= d' && dt >= 0 && n > 0
    ensures DOut(c, d, dt, n, wild) <= DOut(c, d', dt, n, wild)
  {
    if dt == 0 {
      return;
    }
    ScaledMonotone(c.dOver, c.dUnder, d, d');
    var x, y := Scaled(c.dOver, c.dUnder, d), Scaled(c.dOver, c.dUnder, d');
    RealDivMonotone(x, y, dt as real);
    var u, v := x / dt as real, y / dt as real;
    RealDivMonotone(u, v, n as real);
    TruncMonotone(u / n as real, v / n as real);
  }

  lemma ErrSumMonotone(c: Config, a: seq<int>, b: seq<int>, target: int)
    requires Below(a, b) && a != []
    ensures ErrSum(c, a, target) <= ErrSum(c, b, target)
  {
    var from := WindowStart(c.pWindow, |a|);
    ErrorsMonotone(a, b, target, from);
    SumMonotone(Errors(a, target)[from..], Errors(b, target)[from..]);
  }

  lemma DerivativeMonotoneInLast(c: Config, previous: int, a: seq<int>, x: int, y: int, target: int)
    requires x <= y
    ensures DerivativeSum(c, a + [x], target, previous) <= DerivativeSum(c, a + [y], target, previous)
  {
    var s, t := a + [x], a + [y];
    ErrorMonotone(x - target, y - target);
    assert forall i :: 0 <= i < |a| ==> Errors(s, target)[i] == Errors(t, target)[i];
  }

  /** With gains that are not negative a longer last sample never lowers the output. */
  lemma LongerWorkNeverLowersOutput(c: Config, integral: int, previous: int, a: seq<int>, x: int, y: int, target: int,
                                    wild: int)
    requires GainsNotNegative(c) && x <= y && target >= 0
    ensures ReportOutput(c, integral, previous, a + [x], target, wild)
            <= ReportOutput(c, integral, previous, a + [y], target, wild)
  {
    var s, t := a + [x], a + [y];
    assert Below(s, t);
    ErrSumMonotone(c, s, t, target);
    DerivativeMonotoneInLast(c, previous, a, x, y, target);
    IntegralMonotone(c, integral, integral, s, t, target);
    var n := |s|;
    POutMonotone(c, ErrSum(c, s, target), ErrSum(c, t, target), n - WindowStart(c.pWindow, n));
    IOutMonotone(c, Integral(c, integral, s, target), Integral(c, integral, t, target));
    DOutMonotone(c, DerivativeSum(c, s, target, previous), DerivativeSum(c, t, target, previous), To100us(target),
                 n - WindowStart(c.dWindow, n), wild);
  }

  /** The clamp asked for is the output kept within the limits, for all outputs of up to `m` either way, exactly if they
      fit 32 signed bits. */
  lemma TargetFollowsOutput(c: Config, m: int)
    requires -TWO_31 <= c.low < c.high < TWO_31
    ensures (forall o :: -m <= o <= m ==> TargetMin(c, o) == Clamp(o, c.low, c.high)) <==> m < TWO_31
  {
    if m >= TWO_31 {
      assert -m <= TWO_31 <= m && TargetMin(c, TWO_31) == c.low && Clamp(TWO_31, c.low, c.high) == c.high;
    }
  }

  /** A report that reaches that bound: by default, 40000 seconds of work against a target of 10 ms ask for the lowest
      clamp instead of the highest. */
  lemma LongWorkWrapsToLow(wild: int)
    ensures var output := ReportOutput(Defaults, 0, 0, [40_000_010_000_000], 10_000_000, wild);
            output >= TWO_31 && TargetMin(Defaults, output) == Defaults.low
            && Clamp(output, Defaults.low, Defaults.high) == Defaults.high
  {
    var actual, target := [40_000_010_000_000], 10_000_000;
    var e := 400_000_000;
    var es := Errors(actual, target);
    assert es == [e] && To100us(target) == 100;
    assert es[0..] == [e] && [e][..0] == [];
    assert ErrSum(Defaults, actual, target) == Sum([e]) == e;
    assert Integral(Defaults, 0, actual, target) == Clamp(Fold(0, [], 100, -30000, 512000) + e * 100, -30000, 512000)
           == 512000;
    assert DerivativeSum(Defaults, actual, target, 0) == e;
    assert POut(Defaults, e, 1) == 800_000_000;
    assert IOut(Defaults, 512000) == 512;
    assert DOut(Defaults, e, 100, 1, wild) == 2_000_000_000;
  }

  // ---- Durations that keep the output within 32 bits ----

  ghost predicate Within(es: seq<int>, e: nat) {
    forall i :: 0 <= i < |es| ==> Abs(es[i]) <= e
  }

  /** Durations at most `e` units of 100 microseconds off the target. */
  ghost predicate DurationsWithin(actual: seq<int>, target: int, e: nat) {
    forall i :: 0 <= i < |actual| ==> Abs(actual[i] - target) <= 100000 * e
  }

  lemma ErrorsWithin(actual: seq<int>, target: int, e: nat)
    requires DurationsWithin(actual, target, e)
    ensures Within(Errors(actual, target), e)
  {
    forall i | 0 <= i < |actual| ensures Abs(Errors(actual, target)[i]) <= e {
      ErrorMonotone(-100000 * e, actual[i] - target);
      ErrorMonotone(actual[i] - target, 100000 * e);
    }
  }

  lemma {:induction false} SumWithin(es: seq<int>, e: nat)
    requires Within(es, e)
    ensures Abs(Sum(es)) <= |es| * e
    decreases |es|
  {
    if es != [] {
      var n := |es| - 1;
      SumWithin(es[..n], e);
      assert |es| * e == n * e + e;
    }
  }

  /** A real between -m and m. */
  predicate RealWithin(x: real, m: nat) {
    -(m as real) <= x <= m as real
  }

  lemma TruncWithin(x: real, m: nat)
    requires RealWithin(x, m)
    ensures Abs(Trunc(x)) <= m
  {
  }

  lemma RealOfProduct(a: int, b: int)
    ensures (a * b) as real == a as real * b as real
  {
  }

  lemma NegatedProduct(k: real, m: real)
    ensures k * -m == -(k * m)
  {
  }

  /** A gain of at most `g` on a number of at most `m`. */
  lemma GainOnReal(k: real, x: real, g: real, m: real)
    requires 0.0 <= k <= g && -m <= x <= m && m >= 0.0
    ensures -(g * m) <= k * x <= g * m
  {
    RealTimesMonotone(k, x, m);
    RealTimesMonotone(k, -m, x);
    NegatedProduct(k, m);
    RealTimesMonotone(m, k, g);
  }

  lemma GainWithin(k: real, x: int, g: nat, m: nat)
    requires 0.0 <= k <= g as real && Abs(x) <= m
    ensures RealWithin(k * x as real, g * m)
  {
    GainOnReal(k, x as real, g as real, m as real);
    RealOfProduct(g, m);
  }

  lemma IntegralGain(i: real, x: int, l: nat, b: nat)
    requires i >= 0.0 && Abs(x) <= l && i * l as real <= b as real
    ensures Abs(Trunc(i * x as real)) <= b
  {
    GainOnReal(i, x as real, i, l as real);
    TruncWithin(i * x as real, b);
  }

  lemma Regroup(g: nat, n: nat, e: nat)
    ensures g * (n * e) == g * e * n
  {
  }

  lemma MeanWithin(k: real, x: int, n: nat, g: nat, e: nat)
    requires 0.0 <= k <= g as real && n > 0 && Abs(x) <= n * e
    ensures RealWithin(k * x as real / n as real, g * e)
  {
    GainWithin(k, x, g, n * e);
    Regroup(g, n, e);
    DivideOut(k * x as real, g * e, n);
  }

  lemma SlopeWithin(k: real, x: int, dt: nat, n: nat, g: nat, m: nat)
    requires 0.0 <= k <= g as real && dt > 0 && n > 0 && Abs(x) <= m
    ensures RealWithin(k * x as real / dt as real / n as real, g * m)
  {
    GainWithin(k, x, g, m);
    DivideDown(k * x as real, g * m, dt);
    DivideDown(k * x as real / dt as real, g * m, n);
  }

  lemma DivideOut(x: real, m: nat, n: nat)
    requires n > 0 && RealWithin(x, m * n)
    ensures RealWithin(x / n as real, m)
  {
    RealOfProduct(m, n);
    var y, d := m as real, n as real;
    RealDivMonotone(x, y * d, d);
    RealDivMonotone(-(y * d), x, d);
    Cancel(y, d);
  }

  lemma Cancel(y: real, d: real)
    requires d > 0.0
    ensures y * d / d == y && -(y * d) / d == -y
  {
  }

  lemma DivideDown(x: real, m: nat, n: nat)
    requires n > 0 && RealWithin(x, m)
    ensures RealWithin(x / n as real, m)
  {
    assert m <= m * n;
    DivideOut(x, m, n);
  }

  /** Gains that are not negative and at most so much; integral limits of at most `l` that contribute at most `i`. */
  datatype GainBounds = GainBounds(p: nat, l: nat, i: nat, d: nat) {
    ghost predicate Cover(c: Config) {
      && GainsNotNegative(c)
      && c.pOver <= p as real && c.pUnder <= p as real && c.dOver <= d as real && c.dUnder <= d as real
      && 0 - l <= c.iLow <= c.iHigh <= l && c.i * l as real <= i as real
    }
  }

  lemma POutWithin(c: Config, g: GainBounds, errSum: int, n: nat, e: nat)
    requires g.Cover(c) && n > 0 && Abs(errSum) <= n * e
    ensures Abs(POut(c, errSum, n)) <= g.p * e
  {
    MeanWithin(Gain(c.pOver, c.pUnder, errSum), errSum, n, g.p, e);
    TruncWithin(Scaled(c.pOver, c.pUnder, errSum) / n as real, g.p * e);
  }

  lemma IOutWithin(c: Config, g: GainBounds, integral: int)
    requires g.Cover(c) && c.iLow <= integral <= c.iHigh
    ensures Abs(IOut(c, integral)) <= g.i
  {
    IntegralGain(c.i, integral, g.l, g.i);
  }

  lemma DOutWithin(c: Config, g: GainBounds, d: int, dt: int, n: nat, wild: int, m: nat)
    requires g.Cover(c) && dt >= 1 && n > 0 && Abs(d) <= m
    ensures Abs(DOut(c, d, dt, n, wild)) <= g.d * m
  {
    SlopeWithin(Gain(c.dOver, c.dUnder, d), d, dt, n, g.d, m);
    TruncWithin(Scaled(c.dOver, c.dUnder, d) / dt as real / n as real, g.d * m);
  }

  lemma DerivativeWithin(c: Config, actual: seq<int>, target: int, previous: int, e: nat)
    requires actual != [] && Within(Errors(actual, target), e) && Abs(previous) <= e
    ensures Abs(DerivativeSum(c, actual, target, previous)) <= 2 * e
  {
  }

  lemma PPartWithin(c: Config, g: GainBounds, actual: seq<int>, target: int, e: nat)
    requires g.Cover(c) && actual != [] && Within(Errors(actual, target), e)
    ensures var n := |actual|; Abs(POut(c, ErrSum(c, actual, target), n - WindowStart(c.pWindow, n))) <= g.p * e
  {
    var n := |actual|;
    var from := WindowStart(c.pWindow, n);
    SumWithin(Errors(actual, target)[from..], e);
    POutWithin(c, g, ErrSum(c, actual, target), n - from, e);
  }

  lemma DPartWithin(c: Config, g: GainBounds, actual: seq<int>, target: int, previous: int, wild: int, e: nat)
    requires g.Cover(c) && actual != [] && To100us(target) >= 1
    requires Within(Errors(actual, target), e) && Abs(previous) <= e
    ensures var n := |actual|;
            Abs(DOut(c, DerivativeSum(c, actual, target, previous), To100us(target), n - WindowStart(c.dWindow, n),
                     wild)) <= g.d * (2 * e)
  {
    DerivativeWithin(c, actual, target, previous, e);
    DOutWithin(c, g, DerivativeSum(c, actual, target, previous), To100us(target),
               |actual| - WindowStart(c.dWindow, |actual|), wild, 2 * e);
  }

  /** The output of a report whose durations, and the error carried in, are within bounds. */
  lemma OutputWithin(c: Config, g: GainBounds, integral: int, previous: int, actual: seq<int>, target: int, wild: int,
                     e: nat)
    requires g.Cover(c) && target >= 100000
    requires actual != [] && DurationsWithin(actual, target, e) && Abs(previous) <= e
    ensures Abs(ReportOutput(c, integral, previous, actual, target, wild)) <= g.p * e + g.i + g.d * (2 * e)
  {
    ErrorsWithin(actual, target, e);
    ErrorMonotone(100000, target);
    PPartWithin(c, g, actual, target, e);
    IntegralWithinLimits(c, integral, actual, target, false);
    IOutWithin(c, g, Integral(c, integral, actual, target));
    DPartWithin(c, g, actual, target, previous, wild, e);
  }

  /** With the default settings, durations up to 214.3 seconds off the target keep the output within 32 bits. */
  lemma DefaultBound()
    ensures var g, e := GainBounds(2, 512_000, 512, 500), 2_143_000;
            g.Cover(Defaults) && g.p * e + g.i + g.d * (2 * e) < TWO_31
  {
  }

  // ---- The session and its interleavings ----

  datatype Session = Session(
    duration: int, currentMin: int, active: bool, updates: nat, integral: int, previous: int, closed: bool)

  datatype Status = Ok | IllegalState | IllegalArgument

  /** Binder calls; `stale` is what the clock says when a report looks, `wild` what a division by zero yields. */
  datatype Op =
    | Pause
    | Resume
    | Close
    | UpdateTarget(ns: int)
    | Report(actual: seq<int>, stale: bool, wild: int)

  /** How far the one binder thread has got in its call. */
  datatype Pc =
    | Idle
    | InitClamp
    | PauseClamp
    | PauseStore
    | ResumeClamp
    | CloseClamp
    | Decide(target: int)
    | Apply(target: int)
    | Return(target: int)

  datatype System = System(s: Session, pc: Pc)

  function SetUclamp(s: Session, min: int): Session {
    s.(currentMin := Min(Max(0, min), MAX_UCLAMP))
  }

  function StatusOf(s: Session, op: Op): Status {
    match op
    case Pause => if s.active then Ok else IllegalState
    case Resume => if s.active then IllegalState else Ok
    case Close => if s.closed then IllegalState else Ok
    case UpdateTarget(ns) => if ns <= 0 then IllegalArgument else Ok
    case Report(actual, _, _) =>
      if s.duration == 0 then IllegalState
      else if actual == [] then IllegalArgument
      else if !s.active then IllegalState
      else Ok
  }

  /** The part of a call before its first write of the clamp. */
  function Begin(c: Config, s: Session, op: Op): System {
    if !StatusOf(s, op).Ok? then System(s, Idle) else
    match op
    case Pause => System(s, PauseClamp)
    case Resume => System(s.(active := true, integral := Max(c.iInit, s.integral)), ResumeClamp)
    case Close => System(s.(closed := true), CloseClamp)
    case UpdateTarget(ns) =>
      System(s.(duration := ns, integral := Max(c.iInit, s.integral * TruncDiv(s.duration, ns))), Idle)
    case Report(actual, stale, wild) =>
      var start := Woken(c, s.integral, stale);
      var output := ReportOutput(c, start, s.previous, actual, s.duration, wild);
      System(s.(integral := Integral(c, start, actual, s.duration), previous := LastError(actual, s.duration),
                updates := s.updates + 1),
             if output != 0 then Decide(TargetMin(c, output)) else Idle)
  }

  ghost predicate Near(c: Config, min: int, target: int) {
    Abs(min - target) <= c.granularity
  }

  /** The next step of a call that has begun. */
  function Next(c: Config, sys: System): System
    requires !sys.pc.Idle?
  {
    var s := sys.s;
    match sys.pc
    case InitClamp => System(SetUclamp(s, c.high), Idle)
    case PauseClamp => System(SetUclamp(s, 0), PauseStore)
    case PauseStore => System(s.(active := false), Idle)
    case ResumeClamp => System(SetUclamp(s, c.high), Idle)
    case CloseClamp => System(SetUclamp(s, 0), Idle)
    case Decide(t) => System(s, if Abs(s.currentMin - t) > c.granularity then Apply(t) else Return(t))
    case Apply(t) => System(SetUclamp(s, t), Return(t))
    case Return(_) => System(s, Idle)
  }

  datatype Event = Call(op: Op) | Advance | StaleReset

  predicate Enabled(sys: System, ev: Event) {
    match ev
    case Call(_) => sys.pc.Idle?
    case Advance => !sys.pc.Idle?
    case StaleReset => true
  }

  function Step(c: Config, sys: System, ev: Event): System
    requires Enabled(sys, ev)
  {
    match ev
    case Call(op) => Begin(c, sys.s, op)
    case Advance => Next(c, sys)
    case StaleReset => sys.(s := SetUclamp(sys.s, 0))
  }

  function Created(duration: int): System {
    System(Session(duration, 0, true, 0, 0, 0, false), InitClamp)
  }

  ghost predicate Runs(c: Config, sys: System, evs: seq<Event>, sys': System)
    decreases |evs|
  {
    if evs == [] then sys' == sys else Enabled(sys, evs[0]) && Runs(c, Step(c, sys, evs[0]), evs[1..], sys')
  }

  ghost predicate GoodLimits(c: Config) {
    0 <= c.low <= c.high <= MAX_UCLAMP
  }

  /** The clamp is off or within its limits, and off while the session is paused. */
  ghost predicate Safe(c: Config, s: Session) {
    && (s.currentMin == 0 || c.low <= s.currentMin <= c.high)
    && (!s.active ==> s.currentMin == 0)
  }

  ghost predicate Inv(c: Config, sys: System) {
    && Safe(c, sys.s)
    && (!sys.pc.Idle? && !sys.pc.CloseClamp? ==> sys.s.active)
    && (sys.pc.PauseStore? ==> sys.s.currentMin == 0)
    && (sys.pc.Decide? || sys.pc.Apply? ==> c.low <= sys.pc.target <= c.high)
  }

  lemma StepKeepsInv(c: Config, sys: System, ev: Event)
    requires GoodLimits(c) && Enabled(sys, ev) && Inv(c, sys)
    ensures Inv(c, Step(c, sys, ev))
  {
  }

  lemma {:induction false} RunKeepsInv(c: Config, sys: System, evs: seq<Event>, sys': System)
    requires GoodLimits(c) && Runs(c, sys, evs, sys') && Inv(c, sys)
    ensures Inv(c, sys')
    decreases |evs|
  {
    if evs != [] {
      StepKeepsInv(c, sys, evs[0]);
      RunKeepsInv(c, Step(c, sys, evs[0]), evs[1..], sys');
    }
  }

  /** In every interleaving of binder calls with stale resets the clamp is 0 or in [low, high], and 0 while paused. */
  lemma ClampStaysWithinLimits(c: Config, duration: int, evs: seq<Event>, sys: System)
    requires GoodLimits(c) && Runs(c, Created(duration), evs, sys)
    ensures sys.s.currentMin == 0 || c.low <= sys.s.currentMin <= c.high
    ensures !sys.s.active ==> sys.s.currentMin == 0
    ensures Enabled(sys, StaleReset) && Step(c, sys, StaleReset) == sys.(s := sys.s.(currentMin := 0))
  {
    RunKeepsInv(c, Created(duration), evs, sys);
  }

  /** The run resets the clamp after the report has made up its mind. */
  ghost predicate ResetAfterDecision(c: Config, sys: System, evs: seq<Event>)
    decreases |evs|
  {
    && evs != [] && Enabled(sys, evs[0])
    && ((evs[0].StaleReset? && (sys.pc.Return? || sys.pc.Idle?))
        || ResetAfterDecision(c, Step(c, sys, evs[0]), evs[1..]))
  }

  ghost predicate NoCalls(evs: seq<Event>) {
    forall i :: 0 <= i < |evs| ==> !evs[i].Call?
  }

  /** The rest of a report and the time up to the next call, with the looper's resets in between: the clamp ends within
      the granularity of the report's target, and a reset spoils that only after the last look at the clamp, where it
      leaves 0. */
  lemma {:induction false} ReportSettlesNearTarget(c: Config, sys: System, evs: seq<Event>, sys': System, t: int)
    requires GoodLimits(c) && c.low <= t <= c.high && Runs(c, sys, evs, sys') && NoCalls(evs)
    requires sys.pc in {Decide(t), Apply(t)} || (sys.pc in {Return(t), Idle} && Near(c, sys.s.currentMin, t))
    requires sys'.pc in {Return(t), Idle}
    ensures if ResetAfterDecision(c, sys, evs) then sys'.s.currentMin == 0 else Near(c, sys'.s.currentMin, t)
    decreases |evs|
  {
    if evs != [] {
      var next := Step(c, sys, evs[0]);
      if evs[0].StaleReset? && (sys.pc.Return? || sys.pc.Idle?) {
        StaysOff(c, next, evs[1..], sys');
      } else {
        ReportSettlesNearTarget(c, next, evs[1..], sys', t);
      }
    }
  }

  lemma {:induction false} StaysOff(c: Config, sys: System, evs: seq<Event>, sys': System)
    requires Runs(c, sys, evs, sys') && NoCalls(evs)
    requires (sys.pc.Return? || sys.pc.Idle?) && sys.s.currentMin == 0
    ensures sys'.s.currentMin == 0
    decreases |evs|
  {
    if evs != [] {
      StaysOff(c, Step(c, sys, evs[0]), evs[1..], sys');
    }
  }

  /** From creation on: an accepted report with a nonzero output leaves the clamp within the granularity of the output,
      converted to 32 bits and clamped to [low, high], until the next call or a stale reset after the report's decision;
      of the output itself if it fits 32 bits. */
  lemma ReportTracksItsOutput(c: Config, duration: int, before: seq<Event>, sys: System, actual: seq<int>, stale: bool,
                              wild: int, after: seq<Event>, sys': System)
    requires GoodLimits(c) && Runs(c, Created(duration), before, sys)
    requires sys.pc.Idle? && StatusOf(sys.s, Report(actual, stale, wild)).Ok?
    requires Runs(c, Step(c, sys, Call(Report(actual, stale, wild))), after, sys') && NoCalls(after)
    requires sys'.pc.Idle?
    ensures var reported := Step(c, sys, Call(Report(actual, stale, wild)));
            var start := Woken(c, sys.s.integral, stale);
            var output := ReportOutput(c, start, sys.s.previous, actual, sys.s.duration, wild);
            output != 0 && !ResetAfterDecision(c, reported, after) ==>
              && Near(c, sys'.s.currentMin, Clamp(ToI32(output), c.low, c.high))
              && (-TWO_31 <= output < TWO_31 ==> Near(c, sys'.s.currentMin, Clamp(output, c.low, c.high)))
  {
    var reported := Step(c, sys, Call(Report(actual, stale, wild)));
    var output := ReportOutput(c, Woken(c, sys.s.integral, stale), sys.s.previous, actual, sys.s.duration, wild);
    if output != 0 {
      ReportSettlesNearTarget(c, reported, after, sys', TargetMin(c, output));
    }
  }

  /** The same told from the samples alone: the clamp ends within the granularity of the controller's output for the
      sums of the report's windows, kept within 32 bits and [low, high]. */
  lemma ReportTracksItsSums(c: Config, duration: int, before: seq<Event>, sys: System, actual: seq<int>, stale: bool,
                            wild: int, after: seq<Event>, sys': System, p: int, i: int, d: int, output: int)
    requires GoodLimits(c) && Runs(c, Created(duration), before, sys)
    requires sys.pc.Idle? && StatusOf(sys.s, Report(actual, stale, wild)).Ok?
    requires Runs(c, Step(c, sys, Call(Report(actual, stale, wild))), after, sys') && NoCalls(after)
    requires sys'.pc.Idle?
    requires AreSums(c, if stale then Max(c.iInit, sys.s.integral) else sys.s.integral, sys.s.previous, actual,
                     sys.s.duration, p, i, d)
    requires IsControl(if p > 0 then c.pOver else c.pUnder, p, Taken(c.pWindow, |actual|), c.i, i,
                       if d > 0 then c.dOver else c.dUnder, d, To100us(sys.s.duration), Taken(c.dWindow, |actual|),
                       wild, output)
    ensures output != 0 && !ResetAfterDecision(c, Step(c, sys, Call(Report(actual, stale, wild))), after) ==>
              && Near(c, sys'.s.currentMin, Clamp(ToI32(output), c.low, c.high))
              && (-TWO_31 <= output < TWO_31 ==> Near(c, sys'.s.currentMin, Clamp(output, c.low, c.high)))
  {
    OutputIs(c, Woken(c, sys.s.integral, stale), sys.s.previous, actual, sys.s.duration, wild, p, i, d, output);
    ReportTracksItsOutput(c, duration, before, sys, actual, stale, wild, after, sys');
  }

  /** Every accepted report of the run has its durations within `e` of the target it is measured against. */
  ghost predicate ReportsWithin(c: Config, sys: System, evs: seq<Event>, e: nat)
    decreases |evs|
  {
    evs == [] ||
    (Enabled(sys, evs[0]) && ReportsWithin(c, Step(c, sys, evs[0]), evs[1..], e)
     && (evs[0].Call? && evs[0].op.Report? && StatusOf(sys.s, evs[0].op).Ok? ==>
           DurationsWithin(evs[0].op.actual, sys.s.duration, e)))
  }

  lemma StepKeepsPrevious(c: Config, sys: System, ev: Event, e: nat)
    requires Enabled(sys, ev) && Abs(sys.s.previous) <= e
    requires ev.Call? && ev.op.Report? && StatusOf(sys.s, ev.op).Ok? ==>
               DurationsWithin(ev.op.actual, sys.s.duration, e)
    ensures Abs(Step(c, sys, ev).s.previous) <= e
  {
    if ev.Call? && ev.op.Report? && StatusOf(sys.s, ev.op).Ok? {
      ErrorsWithin(ev.op.actual, sys.s.duration, e);
    }
  }

  lemma {:induction false} PreviousStaysWithin(c: Config, sys: System, evs: seq<Event>, sys': System, e: nat)
    requires Runs(c, sys, evs, sys') && ReportsWithin(c, sys, evs, e) && Abs(sys.s.previous) <= e
    ensures Abs(sys'.s.previous) <= e
    decreases |evs|
  {
    if evs != [] {
      StepKeepsPrevious(c, sys, evs[0], e);
      PreviousStaysWithin(c, Step(c, sys, evs[0]), evs[1..], sys', e);
    }
  }

  /** In a run whose reports are all within `e` of their targets, for an `e` the gains allow, an accepted report with a
      nonzero output leaves the clamp within the granularity of that output kept within [low, high]. */
  lemma BoundedReportsTrackTheirOutput(c: Config, duration: int, before: seq<Event>, sys: System, actual: seq<int>,
                                       stale: bool, wild: int, after: seq<Event>, sys': System, g: GainBounds,
                                       e: nat)
    requires GoodLimits(c) && g.Cover(c) && g.p * e + g.i + g.d * (2 * e) < TWO_31
    requires Runs(c, Created(duration), before, sys) && ReportsWithin(c, Created(duration), before, e)
    requires sys.pc.Idle? && StatusOf(sys.s, Report(actual, stale, wild)).Ok?
    requires sys.s.duration >= 100000 && DurationsWithin(actual, sys.s.duration, e)
    requires Runs(c, Step(c, sys, Call(Report(actual, stale, wild))), after, sys') && NoCalls(after)
    requires sys'.pc.Idle?
    ensures var reported := Step(c, sys, Call(Report(actual, stale, wild)));
            var start := Woken(c, sys.s.integral, stale);
            var output := ReportOutput(c, start, sys.s.previous, actual, sys.s.duration, wild);
            output != 0 && !ResetAfterDecision(c, reported, after) ==>
              Near(c, sys'.s.currentMin, Clamp(output, c.low, c.high))
  {
    PreviousStaysWithin(c, Created(duration), before, sys, e);
    OutputWithin(c, g, Woken(c, sys.s.integral, stale), sys.s.previous, actual, sys.s.duration, wild, e);
    ReportTracksItsOutput(c, duration, before, sys, actual, stale, wild, after, sys');
  }

  // ---- The session object ----

  function StepsLeft(pc: Pc): nat {
    match pc
    case Idle => 0
    case Decide(_) => 3
    case Apply(_) | PauseClamp => 2
    case _ => 1
  }

  /** A call run to its end with nothing in between. */
  function Finish(c: Config, sys: System): Session
    decreases StepsLeft(sys.pc)
  {
    if sys.pc.Idle? then sys.s else Finish(c, Next(c, sys))
  }

  lemma FinishUnrolled(c: Config, sys: System)
    requires !sys.pc.Idle?
    ensures Finish(c, sys) == Finish(c, Next(c, sys))
  {
  }

  lemma {:induction false} FinishIsSafe(c: Config, sys: System)
    requires GoodLimits(c) && Inv(c, sys)
    ensures Safe(c, Finish(c, sys))
    decreases StepsLeft(sys.pc)
  {
    if !sys.pc.Idle? {
      StepKeepsInv(c, sys, Advance);
      FinishIsSafe(c, Next(c, sys));
    }
  }

  /** A whole call keeps the clamp safe. */
  lemma CallIsSafe(c: Config, s: Session, op: Op)
    requires GoodLimits(c) && Safe(c, s)
    ensures Safe(c, Finish(c, Begin(c, s, op)))
  {
    StepKeepsInv(c, System(s, Idle), Call(op));
    FinishIsSafe(c, Begin(c, s, op));
  }

  /** With nothing in between, a report leaves the clamp alone if its output is zero or asks for a clamp within the
      granularity of the present one, and else sets what it asks for. */
  ghost predicate Settled(c: Config, output: int, before: int, after: int) {
    var target := Clamp(ToI32(output), c.low, c.high);
    after == if output != 0 && Abs(before - target) > c.granularity then target else before
  }

  lemma ApplySettles(c: Config, s: Session, output: int)
    requires GoodLimits(c)
    ensures Finish(c, System(s, if output != 0 then Decide(TargetMin(c, output)) else Idle)).currentMin
            == if output != 0 && Abs(s.currentMin - Clamp(ToI32(output), c.low, c.high)) > c.granularity
               then Clamp(ToI32(output), c.low, c.high) else s.currentMin
  {
    var t := TargetMin(c, output);
    if output != 0 {
      FinishUnrolled(c, System(s, Decide(t)));
      FinishUnrolled(c, System(s, Return(t)));
      if Abs(s.currentMin - t) > c.granularity {
        FinishUnrolled(c, System(s, Apply(t)));
        FinishUnrolled(c, System(SetUclamp(s, t), Return(t)));
      }
    }
  }

  lemma {:induction false} FinishTouchesClampOnly(c: Config, sys: System)
    requires sys.pc.Decide? || sys.pc.Apply? || sys.pc.Return? || sys.pc.Idle?
    ensures Finish(c, sys) == sys.s.(currentMin := Finish(c, sys).currentMin)
    decreases StepsLeft(sys.pc)
  {
    if !sys.pc.Idle? {
      FinishTouchesClampOnly(c, Next(c, sys));
    }
  }

  /** What an accepted report leaves behind, with nothing in between: the error of the last sample in units of 100
      microseconds, the clamped integral over the I window, one more update, and the clamp settled by its output. */
  lemma ReportLeaves(c: Config, s: Session, actual: seq<int>, stale: bool, wild: int)
    requires StatusOf(s, Report(actual, stale, wild)).Ok? && GoodLimits(c)
    ensures var n, t := |actual|, Finish(c, Begin(c, s, Report(actual, stale, wild)));
            var start := if stale then Max(c.iInit, s.integral) else s.integral;
            && t.previous == TruncDiv(actual[n - 1] - s.duration, 100000)
            && t.integral == Fold(start, Errors(actual, s.duration)[n - Taken(c.iWindow, n)..], To100us(s.duration),
                                  c.iLow, c.iHigh)
            && t.updates == s.updates + 1
            && t.duration == s.duration && t.active == s.active && t.closed == s.closed
            && Settled(c, ReportOutput(c, start, s.previous, actual, s.duration, wild), s.currentMin, t.currentMin)
  {
    var begun := Begin(c, s, Report(actual, stale, wild));
    TakenIs(c.iWindow, |actual|);
    FinishTouchesClampOnly(c, begun);
    ApplySettles(c, begun.s, ReportOutput(c, Woken(c, s.integral, stale), s.previous, actual, s.duration, wild));
  }

  class PowerHintSession {
    const config: Config
    const id: SessionManager.SessionId
    const handler: StaleTimer.StaleHandler
    var duration: int
    var currentMin: int
    var isActive: bool
    var updateCount: nat
    var integralError: int
    var previousError: int
    var sessionClosed: bool

    ghost function View(): Session
      reads this
    {
      Session(duration, currentMin, isActive, updateCount, integralError, previousError, sessionClosed)
    }

    /** The clamp is off or within its limits, off while paused; and the stale handler keeps its own promises. */
    ghost predicate Valid()
      reads this, handler
    {
      && (GoodLimits(config) ==> Safe(config, View()))
      && handler.Valid() && handler.closed == sessionClosed
    }

    /** Registers with the manager and starts boosted. */
    constructor (config: Config, id: SessionManager.SessionId, tids: seq<SessionManager.Tid>, ok: seq<bool>,
                 durationNanos: int, rate: nat, factor: nat, now: int, manager: SessionManager.PowerSessionManager)
      requires manager.Valid() && id !in manager.sessions && id !in manager.closed && |ok| == |tids|
      modifies manager
      ensures Valid() && fresh(handler) && this.config == config && this.id == id
      ensures View() == Finish(config, Created(durationNanos))
      ensures duration == durationNanos && isActive && !sessionClosed
      ensures updateCount == 0 && integralError == 0 && previousError == 0
      ensures GoodLimits(config) ==> currentMin == config.high
      ensures handler.View() == StaleTimer.Started(StaleTimer.Timeout(rate, factor), now)
      ensures manager.Valid() && manager.View() == SessionManager.Receive(old(manager.View()),
                SessionManager.Register(SessionManager.Create(id, tids, ok), handler.View().StaleTime()))
    {
      this.config, this.id := config, id;
      duration, currentMin, isActive := durationNanos, 0, true;
      updateCount, integralError, previousError, sessionClosed := 0, 0, 0, false;
      var h := new StaleTimer.StaleHandler(rate, factor, now);
      handler := h;
      new;
      manager.AddPowerSession(id, tids, ok, handler.GetStaleTime());
      SetClamp(config.high);
    }

    /** Under the lock: the requested clamp, kept within what the kernel takes. */
    method SetClamp(requested: int)
      modifies this`currentMin
      ensures View() == SetUclamp(old(View()), requested)
      ensures currentMin == if requested < 0 then 0 else if requested > 1024 then 1024 else requested
    {
      var min, max := Max(0, requested), MAX_UCLAMP;
      min := Min(min, max);
      currentMin := min;
    }

    method PauseSession() returns (status: Status)
      requires Valid()
      modifies this`currentMin, this`isActive
      ensures Valid() && status == StatusOf(old(View()), Pause)
      ensures View() == Finish(config, Begin(config, old(View()), Pause))
      ensures status == if old(isActive) then Ok else IllegalState
      ensures status.Ok? ==> !isActive && currentMin == 0
      ensures !status.Ok? ==> View() == old(View())
    {
      if GoodLimits(config) {
        CallIsSafe(config, View(), Pause);
      }
      if !isActive {
        return IllegalState;
      }
      FinishUnrolled(config, System(View(), PauseClamp));
      SetClamp(0);
      FinishUnrolled(config, System(View(), PauseStore));
      isActive := false;
      status := Ok;
    }

    method ResumeSession() returns (status: Status)
      requires Valid()
      modifies this`currentMin, this`isActive, this`integralError
      ensures Valid() && status == StatusOf(old(View()), Resume)
      ensures View() == Finish(config, Begin(config, old(View()), Resume))
      ensures status == if old(isActive) then IllegalState else Ok
      ensures status.Ok? ==> isActive && integralError == Max(config.iInit, old(integralError))
      ensures !status.Ok? ==> View() == old(View())
      ensures status.Ok? && GoodLimits(config) ==> currentMin == config.high
    {
      if GoodLimits(config) {
        CallIsSafe(config, View(), Resume);
      }
      if isActive {
        return IllegalState;
      }
      isActive := true;
      integralError := Max(config.iInit, integralError);
      SetClamp(config.high);
      status := Ok;
    }

    /** The first close takes the waiting stale check away, turns the clamp off and leaves the manager. */
    method CloseSession(manager: SessionManager.PowerSessionManager) returns (status: Status)
      requires Valid() && manager.Valid() && (!sessionClosed ==> id in manager.sessions)
      modifies this`currentMin, this`sessionClosed, handler, manager
      ensures Valid() && status == StatusOf(old(View()), Close)
      ensures View() == Finish(config, Begin(config, old(View()), Close))
      ensures status == if old(sessionClosed) then IllegalState else Ok
      ensures sessionClosed && (status.Ok? ==> currentMin == 0) && (!status.Ok? ==> View() == old(View()))
      ensures handler.View() == if status.Ok? then StaleTimer.Step(old(handler.View()), StaleTimer.Close)
                                else old(handler.View())
      ensures manager.Valid() && manager.View() ==
                if status.Ok? then SessionManager.Receive(old(manager.View()),
                                                          SessionManager.Register(SessionManager.Close(id), 0))
                else old(manager.View())
    {
      if GoodLimits(config) {
        CallIsSafe(config, View(), Close);
      }
      if sessionClosed {
        return IllegalState;
      }
      sessionClosed := true;
      handler.RemoveMessages();
      SetClamp(0);
      manager.RemovePowerSession(id);
      status := Ok;
    }

    method UpdateTargetWorkDuration(targetDurationNanos: int) returns (status: Status)
      requires Valid()
      modifies this`duration, this`integralError
      ensures Valid() && status == StatusOf(old(View()), UpdateTarget(targetDurationNanos))
      ensures View() == Finish(config, Begin(config, old(View()), UpdateTarget(targetDurationNanos)))
      ensures status == if targetDurationNanos <= 0 then IllegalArgument else Ok
      ensures status.Ok? ==>
                && duration == targetDurationNanos
                && integralError == Max(config.iInit, old(integralError) * TruncDiv(old(duration), targetDurationNanos))
      ensures !status.Ok? ==> View() == old(View())
    {
      if targetDurationNanos <= 0 {
        return IllegalArgument;
      }
      var ratio := TruncDiv(duration, targetDurationNanos);
      integralError := Max(config.iInit, integralError * ratio);
      duration := targetDurationNanos;
      status := Ok;
    }

    method Integrate(error: int, dt: int)
      modifies this`integralError
      ensures integralError == Clamp(old(integralError) + error * dt, config.iLow, config.iHigh)
    {
      integralError := integralError + error * dt;
      integralError := Min(config.iHigh, integralError);
      integralError := Max(config.iLow, integralError);
    }

    /** The loop over the samples: one pass serves the three windows. */
    method Loop(actual: seq<int>, ghost es: seq<int>, pStart: nat, iStart: nat, dStart: nat, target: int, dt: int)
      returns (errSum: int, derivativeSum: int)
      requires es == Errors(actual, target)
      requires pStart < |actual| && iStart < |actual| && dStart < |actual|
      modifies this`integralError, this`previousError
      ensures errSum == PartSum(es, pStart, |es|)
      ensures derivativeSum == es[|es| - 1]
                               - if dStart <= pStart && dStart <= iStart then old(previousError) else es[dStart - 1]
      ensures integralError == PartFold(old(integralError), es, iStart, |es|, dt, config.iLow, config.iHigh)
      ensures previousError == es[|es| - 1]
    {
      var i := Min(pStart, Min(iStart, dStart));
      ghost var start := i;
      errSum, derivativeSum := 0, 0;
      while i < |actual|
        invariant start <= i <= |actual|
        invariant errSum == PartSum(es, pStart, i)
        invariant i <= dStart ==> derivativeSum == 0
        invariant i > dStart ==>
                    derivativeSum == es[i - 1] - if dStart == start then old(previousError) else es[dStart - 1]
        invariant integralError == PartFold(old(integralError), es, iStart, i, dt, config.iLow, config.iHigh)
        invariant previousError == if i == start then old(previousError) else es[i - 1]
      {
        var error := To100us(actual[i] - target);
        if i >= dStart {
          derivativeSum := derivativeSum + error - previousError;
        }
        if i >= pStart {
          errSum := errSum + error;
        }
        if i >= iStart {
          Integrate(error, dt);
        }
        previousError := error;
        i := i + 1;
      }
    }

    /** The windowed sums over the samples of a report. */
    method Accumulate(actual: seq<int>, dt: int) returns (errSum: int, derivativeSum: int)
      requires actual != [] && dt == To100us(duration)
      modifies this`integralError, this`previousError
      ensures errSum == ErrSum(config, actual, duration)
      ensures derivativeSum == DerivativeSum(config, actual, duration, old(previousError))
      ensures integralError == Integral(config, old(integralError), actual, duration)
      ensures previousError == LastError(actual, duration)
    {
      var target, length := duration, |actual|;
      var pStart := WindowStart(config.pWindow, length);
      var iStart := WindowStart(config.iWindow, length);
      var dStart := WindowStart(config.dWindow, length);
      LoopMeansWindows(config, integralError, actual, target);
      errSum, derivativeSum := Loop(actual, Errors(actual, target), pStart, iStart, dStart, target, dt);
    }

    /** The controller step of an accepted report. */
    method Control(actual: seq<int>, stale: bool, wild: int) returns (output: int)
      requires StatusOf(View(), Report(actual, stale, wild)).Ok?
      modifies this`updateCount, this`integralError, this`previousError
      ensures output == ReportOutput(config, Woken(config, old(integralError), stale), old(previousError), actual,
                                     duration, wild)
      ensures View() == Begin(config, old(View()), Report(actual, stale, wild)).s
    {
      if stale {
        integralError := Max(config.iInit, integralError);
      }
      var length, dt := |actual|, To100us(duration);
      var errSum, derivativeSum := Accumulate(actual, dt);
      output := Output(config, errSum, integralError, derivativeSum, length, dt, wild);
      updateCount := updateCount + 1;
    }

    /** The clamp follows the output, unless it is close already. */
    method ApplyOutput(output: int)
      modifies this`currentMin
      ensures View() == Finish(config, System(old(View()),
                                              if output != 0 then Decide(TargetMin(config, output)) else Idle))
      ensures GoodLimits(config) ==> Settled(config, output, old(currentMin), currentMin)
    {
      if output != 0 {
        var nextMin := Min(config.high, ToI32(output));
        nextMin := Max(config.low, nextMin);
        FinishUnrolled(config, System(View(), Decide(nextMin)));
        if Abs(currentMin - nextMin) > config.granularity {
          FinishUnrolled(config, System(View(), Apply(nextMin)));
          SetClamp(nextMin);
        }
        FinishUnrolled(config, System(View(), Return(nextMin)));
      }
    }

    /** A report; `look` is the clock when it asks whether the session is stale, `now` and `sent` the readings of the
        stale timer's update, `recheck` whether the manager is asked to look again. */
    method ReportActualWorkDuration(actual: seq<int>, running: bool, look: int, now: int, sent: int, wild: int)
      returns (status: Status, recheck: bool)
      requires Valid() && handler.clock <= look <= now <= sent
      modifies this`currentMin, this`updateCount, this`integralError, this`previousError, handler
      ensures status == if duration == 0 then IllegalState else if actual == [] then IllegalArgument
                        else if !isActive then IllegalState else Ok
      ensures var stale := running && look >= old(handler.View()).StaleTime();
              && status == StatusOf(old(View()), Report(actual, stale, wild))
              && View() == Finish(config, Begin(config, old(View()), Report(actual, stale, wild)))
      ensures Valid()
      ensures handler.View() ==
                if status.Ok? && running then StaleTimer.Step(old(handler.View()), StaleTimer.Update(now, sent))
                else old(handler.View())
      ensures status.Ok? && config.iLow <= config.iHigh ==> config.iLow <= integralError <= config.iHigh
      ensures recheck <==> status.Ok? && running && now > old(handler.View()).StaleTime()
    {
      recheck := false;
      if duration == 0 {
        return IllegalState, false;
      }
      if |actual| == 0 {
        return IllegalArgument, false;
      }
      if !isActive {
        return IllegalState, false;
      }
      var stale := running && look >= handler.GetStaleTime();
      KeepsSafe(Report(actual, stale, wild));
      IntegralWithin(actual, stale);
      var output := Control(actual, stale, wild);
      recheck := handler.UpdateStaleTimer(running, now, sent);
      ApplyOutput(output);
      status := Ok;
    }

    lemma KeepsSafe(op: Op)
      ensures GoodLimits(config) && Safe(config, View()) ==> Safe(config, Finish(config, Begin(config, View(), op)))
    {
      if GoodLimits(config) && Safe(config, View()) {
        CallIsSafe(config, View(), op);
      }
    }

    lemma IntegralWithin(actual: seq<int>, stale: bool)
      requires actual != []
      ensures config.iLow <= config.iHigh ==>
                config.iLow <= Integral(config, Woken(config, integralError, stale), actual, duration) <= config.iHigh
    {
      if config.iLow <= config.iHigh {
        IntegralWithinLimits(config, integralError, actual, duration, stale);
      }
    }
  }
}
