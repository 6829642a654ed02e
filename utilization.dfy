/**
  * The trace-backed CPU utilisation model `UtilizationModelMicroservices`.
  *
  * The constructor turns the raw per-service CPU samples of a trace into a
  * sequence `data`, dividing each sample by the service's processor count; the
  * query `getUtilization(time)` clamps to the last sample beyond the trace,
  * returns a sample directly when `time` is a whole multiple of the scheduling
  * interval, and otherwise interpolates between the two bracketing samples with
  * the slope exactly as the source writes it.
  *
  * Java's arithmetic is modelled where it decides the result: the `(int)` casts
  * truncate and saturate at Integer.MAX_VALUE, a zero interval gives the IEEE
  * infinities and NaN the source then casts, `0 / 0` in the interpolation is
  * NaN, and an index out of range or an integer division by zero is an exception.
  */
module Utilization {

  /** Java's Integer.MAX_VALUE. */
  const IntMax: int := 0x7fff_ffff

  /** The traces hold one sample every 5 seconds. */
  const TraceInterval: real := 5.0

  /** What a `getUtilization` call produces: a number, the double NaN, or one of
      the two exceptions the query can raise. */
  datatype Reading = Value(u: real) | NotANumber | IndexOutOfBounds | DivisionByZero

  /** Java's `(int)` cast of a non-negative double: truncation toward zero,
      saturating at Integer.MAX_VALUE. */
  function JavaInt(x: real): (n: int)
    requires x >= 0.0
    ensures 0 <= n <= IntMax
    ensures n < IntMax ==> n == x.Floor
    ensures n == IntMax <==> x >= IntMax as real
  {
    if x.Floor >= IntMax then IntMax else x.Floor
  }

  /** `Math.ceil`, as an integer: the least integer not below `x`. */
  function Ceiling(x: real): (n: int)
    ensures x <= n as real < x + 1.0
  {
    if x.Floor as real == x then x.Floor else x.Floor + 1
  }

  /** `time % interval == 0` for a positive interval: Java's `%` on doubles is
      exact, so it holds exactly when `time` is a whole multiple of `interval`. */
  predicate IsMultiple(time: real, interval: real)
    requires interval > 0.0
  {
    (time / interval).Floor as real == time / interval
  }

  /** `(int) Math.floor(time / interval)`. With a zero interval the quotient is
      NaN (for time 0), which the cast turns into 0, or +Infinity, which it
      turns into Integer.MAX_VALUE. */
  function BeforeIndex(time: real, interval: real): int
    requires time >= 0.0 && interval >= 0.0
  {
    if interval == 0.0 then (if time == 0.0 then 0 else IntMax)
    else JavaInt(time / interval)
  }

  /** `getUtilization(time)` over the samples `data` taken every `interval`
      seconds, as the source computes it. An empty trace always fails, only a
      sub-second interval divides by zero, and outside the interpolation branch
      the value returned is one of the samples. */
  function UtilizationAt(data: seq<real>, interval: real, time: real): (r: Reading)
    requires 0.0 <= time && 0.0 <= interval && |data| <= IntMax
    ensures |data| == 0 ==> r == IndexOutOfBounds
    ensures r == DivisionByZero ==> 0.0 < interval < 1.0
    ensures r.Value? && (interval == 0.0 || BeforeIndex(time, interval) >= |data| - 1 || IsMultiple(time, interval)) ==> r.u in data
  {
    var iBefore := BeforeIndex(time, interval);
    if iBefore >= |data| - 1 then
      if |data| == 0 then IndexOutOfBounds else Value(data[|data| - 1])
    else if interval > 0.0 && IsMultiple(time, interval) then
      // direct hit: the index is computed from the casts of time and interval
      var divisor := JavaInt(interval);
      if divisor == 0 then DivisionByZero
      else
        var i := JavaInt(time) / divisor;
        if i < |data| then Value(data[i]) else IndexOutOfBounds
    else if interval == 0.0 then
      // time is 0 here: 0 % 0 is NaN, and so is the interpolation's 0 / 0
      NotANumber
    else
      var iAfter := Ceiling(time / interval);
      var before, after := data[iBefore], data[iAfter];
      if before == after then NotANumber
      else
        var delta := (after - before) / ((before - after) * interval);
        Value(before + delta * (time - iBefore as real * interval))
  }

  /** The interpolation branch is taken: neither the clamp nor a direct hit applies. */
  predicate Interpolates(data: seq<real>, interval: real, time: real)
    requires 0.0 <= time && 0.0 < interval
  {
    BeforeIndex(time, interval) < |data| - 1 && !IsMultiple(time, interval)
  }

  /** Queries at or beyond the start of the last sample return the last sample. */
  lemma ClampsBeyondTrace(data: seq<real>, interval: real, time: real)
    requires 0 < |data| <= IntMax && 0.0 <= time && 0.0 <= interval
    requires interval > 0.0 ==> (time / interval).Floor >= |data| - 1
    requires interval == 0.0 ==> time > 0.0 || |data| == 1
    ensures UtilizationAt(data, interval, time) == Value(data[|data| - 1])
  {
  }

  /** With a whole-second interval, querying at the time of sample k returns
      sample k: indices below the last by the direct hit, the last by the clamp. */
  lemma ExactAtSamples(data: seq<real>, interval: real, k: nat)
    requires k < |data| <= IntMax
    requires interval >= 1.0 && interval.Floor as real == interval
    requires k as real * interval <= IntMax as real
    ensures UtilizationAt(data, interval, k as real * interval) == Value(data[k])
  {
    var m := interval.Floor;
    var t := k as real * interval;
    WholeMultiple(k, m);
    assert t == (k * m) as real;
    assert t / interval == k as real;
    assert BeforeIndex(t, interval) == k;
    if k < |data| - 1 {
      assert IsMultiple(t, interval);
      if k == 0 {
        assert JavaInt(t) == 0;
      } else {
        assert interval <= t;
        assert JavaInt(interval) == m;
        assert JavaInt(t) == k * m;
      }
    }
  }

  /** Arithmetic of a whole multiple `k * m` of a positive whole number `m`. */
  lemma WholeMultiple(k: nat, m: int)
    requires m >= 1
    ensures (k * m) as real == k as real * m as real
    ensures (k * m) as real / m as real == k as real
    ensures (k * m) / m == k
    ensures k >= 1 ==> k * m >= m
  {
    assert (k * m) as real == k as real * m as real;
  }

  /** In the interpolation branch the bracketing indices are consecutive and in range. */
  lemma InterpolationIndices(data: seq<real>, interval: real, time: real)
    requires 0.0 <= time && 0.0 < interval && |data| <= IntMax
    requires Interpolates(data, interval, time)
    ensures 0 <= BeforeIndex(time, interval)
    ensures Ceiling(time / interval) == BeforeIndex(time, interval) + 1 <= |data| - 1
  {
  }

  /** The slope as written, (after - before) / ((before - after) * interval), is
      -1 / interval whenever the bracketing samples differ: the result falls by
      the elapsed fraction of the interval, whatever the samples are. */
  lemma ObservedSlope(data: seq<real>, interval: real, time: real)
    requires 0.0 <= time && 0.0 < interval && |data| <= IntMax
    requires Interpolates(data, interval, time)
    requires data[BeforeIndex(time, interval)] != data[BeforeIndex(time, interval) + 1]
    ensures var i := BeforeIndex(time, interval);
            UtilizationAt(data, interval, time) == Value(data[i] - (time - i as real * interval) / interval)
  {
    var i := BeforeIndex(time, interval);
    var before, after := data[i], data[i + 1];
    var d := after - before;
    var q := (before - after) * interval;
    assert q != 0.0;
    assert (-1.0 / interval) * q == d by {
      assert (-1.0 / interval) * interval == -1.0;
      assert (-1.0 / interval) * q == (-1.0 / interval) * interval * (before - after);
    }
    assert d / q == -1.0 / interval;
  }

  /** Equal bracketing samples make the written slope 0 / 0, so the result is NaN. */
  lemma EqualNeighboursGiveNaN(data: seq<real>, interval: real, time: real)
    requires 0.0 <= time && 0.0 < interval && |data| <= IntMax
    requires Interpolates(data, interval, time)
    requires data[BeforeIndex(time, interval)] == data[BeforeIndex(time, interval) + 1]
    ensures UtilizationAt(data, interval, time) == NotANumber
  {
  }

  /** The model of a service without processors ([0.0], interval left at 0)
      reports zero utilisation at every time. */
  lemma ZeroProcessorModelIsIdle(time: real)
    requires time >= 0.0
    ensures UtilizationAt([0.0], 0.0, time) == Value(0.0)
  {
  }

  // ---------------------------------------------------------------------
  // Two defects of the query as written, and the query as evidently intended.

  /** The direct hit divides the truncated time by the truncated interval, so
      with an interval that is not a whole number it returns a later sample than
      the one at that time: at 10 s with a 2.5 s interval it returns sample
      10 / 2 = 5, while 10 s is the time of sample 4. */
  lemma DirectHitTruncatesInterval()
    ensures UtilizationAt([0.0, 1.0, 2.0, 3.0, 4.0, 5.0], 2.5, 10.0) == Value(5.0)
    ensures 10.0 == 4.0 * 2.5
  {
    assert BeforeIndex(10.0, 2.5) == 4;
    assert JavaInt(2.5) == 2 && JavaInt(10.0) == 10;
  }

  /** An interval below one second truncates to 0 and the direct hit divides by zero. */
  lemma DirectHitDividesByZero()
    ensures UtilizationAt([0.0, 1.0, 2.0], 0.5, 0.5) == DivisionByZero
  {
    assert BeforeIndex(0.5, 0.5) == 1;
    assert JavaInt(0.5) == 0;
  }

  /** With an interval that is not a whole number the direct hit can even run
      past the trace: at 6 s with a 1.5 s interval sample 4 is meant, but the
      index computed is 6 / 1 = 6, beyond the six samples. */
  lemma DirectHitOverrunsTrace()
    ensures UtilizationAt([0.0, 1.0, 2.0, 3.0, 4.0, 5.0], 1.5, 6.0) == IndexOutOfBounds
    ensures 6.0 == 4.0 * 1.5
  {
    assert BeforeIndex(6.0, 1.5) == 4;
    assert JavaInt(1.5) == 1 && JavaInt(6.0) == 6;
  }

  /** The written slope makes a rising trace fall: halfway between samples 0.2
      and 0.4 the result is -0.3, below both samples, and negative. */
  lemma InterpolationLeavesBracket()
    ensures UtilizationAt([0.2, 0.4], 5.0, 2.5) == Value(-0.3)
  {
    assert BeforeIndex(2.5, 5.0) == 0;
    assert !IsMultiple(2.5, 5.0);
    assert Ceiling(2.5 / 5.0) == 1;
  }

  /** `getUtilization` as evidently intended: a direct hit returns the sample the
      floor index names, and between samples the value moves linearly from one
      sample to the next. */
  function IntendedUtilizationAt(data: seq<real>, interval: real, time: real): real
    requires 0 < |data| && 0.0 < interval && 0.0 <= time
  {
    var i := (time / interval).Floor;
    if i >= |data| - 1 then data[|data| - 1]
    else if IsMultiple(time, interval) then data[i]
    else data[i] + (data[i + 1] - data[i]) / interval * (time - i as real * interval)
  }

  /** The intended query returns sample k at the time of sample k, for every positive interval. */
  lemma IntendedExactAtSamples(data: seq<real>, interval: real, k: nat)
    requires k < |data| && 0.0 < interval
    ensures IntendedUtilizationAt(data, interval, k as real * interval) == data[k]
  {
    var t := k as real * interval;
    assert t / interval == k as real;
  }

  /** The intended query never leaves the range of the samples: a trace of
      fractions in [lo, hi] yields utilisations in [lo, hi] at every time. */
  lemma IntendedWithinSampleRange(data: seq<real>, interval: real, time: real, lo: real, hi: real)
    requires 0 < |data| && 0.0 < interval && 0.0 <= time
    requires forall i :: 0 <= i < |data| ==> lo <= data[i] <= hi
    ensures lo <= IntendedUtilizationAt(data, interval, time) <= hi
  {
    var i := (time / interval).Floor;
    if 0 <= i < |data| - 1 && !IsMultiple(time, interval) {
      var f := ElapsedFraction(interval, time, i);
      var b, a := data[i], data[i + 1];
      assert (a - b) / interval * (time - i as real * interval) == (a - b) * f;
      BetweenEndpoints(b, a, f, lo, hi);
    }
  }

  /** The part of the sampling interval that has elapsed since sample i. */
  lemma ElapsedFraction(interval: real, time: real, i: int) returns (f: real)
    requires 0.0 < interval && i == (time / interval).Floor
    ensures f == (time - i as real * interval) / interval && 0.0 <= f <= 1.0
  {
    f := (time - i as real * interval) / interval;
    assert i as real <= time / interval < i as real + 1.0;
    assert f == time / interval - i as real;
  }

  lemma ProductNonNegative(x: real, y: real)
    requires 0.0 <= x && 0.0 <= y
    ensures 0.0 <= x * y
  {
  }

  lemma BetweenEndpoints(b: real, a: real, f: real, lo: real, hi: real)
    requires 0.0 <= f <= 1.0 && lo <= b <= hi && lo <= a <= hi
    ensures lo <= b + (a - b) * f <= hi
  {
    var g := 1.0 - f;
    var x, y := g * b, f * a;
    assert b + (a - b) * f == x + y;
    ProductNonNegative(g, b - lo);
    ProductNonNegative(g, hi - b);
    ProductNonNegative(f, a - lo);
    ProductNonNegative(f, hi - a);
    assert g * lo + f * lo == lo && g * hi + f * hi == hi;
  }

  /** The trace model. `trace` holds the parsed lines of the service's trace
      file in file order; reading and parsing the file is left to the caller. */
  class UtilizationModelMicroservices {
    const service: string
    var data: seq<real>
    var schedulingInterval: real

    constructor (service: string, nProcs: int, trace: seq<real>)
      ensures this.service == service
      ensures nProcs == 0 ==> data == [0.0] && schedulingInterval == 0.0
      ensures nProcs != 0 ==> schedulingInterval == TraceInterval
      ensures nProcs != 0 ==> |data| == |trace|
                              && forall i :: 0 <= i < |trace| ==> data[i] == trace[i] / nProcs as real
    {
      data := [];
      this.service := service;
      schedulingInterval := 0.0;
      new;
      if nProcs == 0 {
        data := data + [0.0];
        return;
      }
      SetSchedulingInterval(TraceInterval);
      var n := 0;
      while n < |trace|
        invariant 0 <= n <= |trace|
        invariant schedulingInterval == TraceInterval
        invariant |data| == n && forall i :: 0 <= i < n ==> data[i] == trace[i] / nProcs as real
      {
        data := data + [trace[n] / nProcs as real];
        n := n + 1;
      }
    }

    /** `getUtilization(time)`; it only reads the model. A model with the
        5-second interval of the traces never divides by zero, and one that
        holds no samples always fails. */
    function GetUtilization(time: real): (r: Reading)
      reads this
      requires 0.0 <= time && 0.0 <= schedulingInterval && |data| <= IntMax
      ensures schedulingInterval >= 1.0 ==> r != DivisionByZero
      ensures |data| == 0 ==> r == IndexOutOfBounds
    {
      UtilizationAt(data, schedulingInterval, time)
    }

    function GetSchedulingInterval(): real
      reads this
    {
      schedulingInterval
    }

    method SetSchedulingInterval(interval: real)
      modifies this`schedulingInterval
      ensures GetSchedulingInterval() == interval
      ensures data == old(data)
    {
      schedulingInterval := interval;
    }
  }
}
