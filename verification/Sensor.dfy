/** The node's burst sampler (firmware/node_nrf54l15/src/sensor/sensor_control.c): power gate,
    burst, truncating mean or median, calibration over the reals, alarms. Converter results,
    the battery reading and the uptime are parameters. */
module Sensor {
  import opened Median

  const BURST_LIMIT: nat := 10
  const GAP_MS: nat := 10
  const UNIT: string := "PSI"
  // ten samples of this size still fit a 32-bit sum
  const SAMPLE_LIMIT: int := 214_748_364

  datatype Config = Config(warmup: nat, burstCount: nat, aggregation: nat,
                           offset: real, slope: real, polyA: real, polyB: real,
                           highThreshold: real, lowThreshold: real,
                           enableHigh: bool, enableLow: bool)

  /** What one converter call returned: a status, negative on failure, and the millivolts. */
  datatype Conversion = Conversion(ret: int, millivolts: int)

  datatype Event = Power(on: bool) | Sleep(ms: nat) | Convert

  // -------------------------------------------------------------- truncating mean

  function Sum(s: seq<int>): int {
    if s == [] then 0 else Sum(s[..|s| - 1]) + s[|s| - 1]
  }

  lemma {:induction false} SumConcat(s: seq<int>, t: seq<int>)
    ensures Sum(s + t) == Sum(s) + Sum(t) && Sum([]) == 0
    ensures forall x :: Sum([x]) == x
  {
    if t == [] {
      assert s + t == s;
    } else {
      assert (s + t)[..|s + t| - 1] == s + t[..|t| - 1];
      SumConcat(s, t[..|t| - 1]);
    }
  }

  /** Division in C drops the fraction towards zero. */
  function TruncDiv(a: int, b: int): (q: int)
    requires b > 0
    ensures a >= 0 ==> 0 <= a - q * b < b
    ensures a <= 0 ==> -b < a - q * b <= 0
  {
    if a >= 0 then a / b else -((-a) / b)
  }

  lemma NextMultiple(q: int, b: int)
    ensures (q + 1) * b == q * b + b
  {
  }

  lemma {:induction false} Multiples(p: int, q: int, b: int)
    requires b > 0 && q < p
    ensures p * b >= q * b + b
    decreases p - q
  {
    NextMultiple(p - 1, b);
    if q + 1 < p {
      Multiples(p - 1, q, b);
    }
  }

  lemma TruncDivMonotone(a: int, c: int, b: int)
    requires b > 0 && a <= c
    ensures TruncDiv(a, b) <= TruncDiv(c, b)
  {
    hide *;
    var p, q := TruncDiv(a, b), TruncDiv(c, b);
    if q < p {
      Multiples(p, q, b);
    }
  }

  lemma TruncDivExact(k: int, b: int)
    requires b > 0
    ensures TruncDiv(k * b, b) == k
  {
    hide *;
    var q := TruncDiv(k * b, b);
    if k > q {
      Multiples(k, q, b);
    } else if k < q {
      Multiples(q, k, b);
    }
  }

  lemma {:induction false} SumMonotone(s: seq<int>, t: seq<int>)
    requires Pointwise(s, t)
    ensures Sum(s) <= Sum(t)
  {
    if s != [] {
      SumMonotone(s[..|s| - 1], t[..|t| - 1]);
    }
  }

  predicate Within(s: seq<int>, lo: int, hi: int) { forall i :: 0 <= i < |s| ==> lo <= s[i] <= hi }

  lemma OneMore(sum: int, x: int, lo: int, hi: int, n: int)
    requires n * lo <= sum <= n * hi && lo <= x <= hi
    ensures (n + 1) * lo <= sum + x <= (n + 1) * hi
  {
    NextMultiple(n, lo);
    NextMultiple(n, hi);
  }

  lemma {:induction false} SumWithin(s: seq<int>, lo: int, hi: int)
    requires Within(s, lo, hi)
    ensures |s| * lo <= Sum(s) <= |s| * hi
  {
    if s == [] {
    } else {
      var less, last := s[..|s| - 1], s[|s| - 1];
      assert |less| + 1 == |s| && Sum(s) == Sum(less) + last && lo <= last <= hi;
      SumWithin(less, lo, hi);
      hide *;
      OneMore(Sum(less), last, lo, hi, |less|);
    }
  }

  lemma {:induction false} AllWithin(s: seq<int>, lo: int, hi: int)
    requires Within(s, lo, hi)
    ensures CountWithin(s, lo, hi) == |s|
  {
    if s != [] {
      AllWithin(s[1..], lo, hi);
    }
  }

  // ------------------------------------------------------------------ aggregation

  /** What the aggregated raw value must be. */
  predicate Aggregates(config: Config, samples: seq<int>, raw: int)
    requires samples != []
  {
    if config.aggregation == 0 then raw == TruncDiv(Sum(samples), |samples|)
    else IsMedian(samples, raw)
  }

  /** Both ways of aggregating stay within the range of the samples. */
  lemma AggregateWithin(config: Config, samples: seq<int>, raw: int, lo: int, hi: int)
    requires samples != [] && Aggregates(config, samples, raw) && Within(samples, lo, hi)
    ensures lo <= raw <= hi
  {
    if config.aggregation == 0 {
      SumWithin(samples, lo, hi);
      TruncDivExact(lo, |samples|);
      TruncDivExact(hi, |samples|);
      TruncDivMonotone(lo * |samples|, Sum(samples), |samples|);
      TruncDivMonotone(Sum(samples), hi * |samples|, |samples|);
    } else {
      AllWithin(samples, lo, hi);
      MedianBreakdown(samples, lo, hi, raw);
    }
  }

  /** Both ways of aggregating are monotone in every sample. */
  lemma AggregateMonotone(config: Config, s: seq<int>, t: seq<int>, x: int, y: int)
    requires s != [] && Pointwise(s, t)
    requires Aggregates(config, s, x) && Aggregates(config, t, y)
    ensures x <= y
  {
    if config.aggregation == 0 {
      SumMonotone(s, t);
      TruncDivMonotone(Sum(s), Sum(t), |s|);
    } else {
      RankMonotone(s, t, |s| / 2, x, y);
    }
  }

  // ------------------------------------------------------------------ calibration

  function Volts(raw: int): real { raw as real / 1000.0 }

  function Calibrate(config: Config, raw: int): real {
    var voltage := Volts(raw);
    var linear := voltage * config.slope + config.offset;
    if config.polyA != 0.0 || config.polyB != 0.0 then
      linear + (config.polyA * voltage * voltage + config.polyB * voltage)
    else
      linear
  }

  /** The characteristic the two branches are meant to implement. */
  function Quadratic(config: Config, v: real): real {
    config.polyA * (v * v) + (config.slope + config.polyB) * v + config.offset
  }

  /** Skipping the correction when both coefficients vanish changes nothing. */
  lemma CalibrationIsQuadratic(config: Config, raw: int)
    ensures Calibrate(config, raw) == Quadratic(config, Volts(raw))
  {
    var v := Volts(raw);
    assert config.polyA * v * v == config.polyA * (v * v);
  }

  /** The same in the converter's own unit: with r millivolts, a million times the value above the
      offset is A r^2 + 1000 (slope + B) r. */
  lemma CalibrationInMillivolts(config: Config, raw: int)
    ensures InMillivolts(config, raw, Calibrate(config, raw))
  {
    CalibrationIsQuadratic(config, raw);
    ScaledQuadratic(config, Volts(raw), raw as real);
  }

  predicate InMillivolts(config: Config, raw: int, value: real) {
    var r := raw as real;
    1_000_000.0 * (value - config.offset) == config.polyA * (r * r) + 1000.0 * ((config.slope + config.polyB) * r)
  }

  lemma ScaledQuadratic(config: Config, v: real, r: real)
    requires r == 1000.0 * v
    ensures 1_000_000.0 * (Quadratic(config, v) - config.offset) ==
            config.polyA * (r * r) + 1000.0 * ((config.slope + config.polyB) * r)
  {
    var a, s := config.polyA, config.slope + config.polyB;
    assert r * r == 1_000_000.0 * (v * v);
    assert a * (r * r) == 1_000_000.0 * (a * (v * v));
    assert s * r == 1000.0 * (s * v);
  }

  /** Only one value fits: the law in millivolts determines the calibration. */
  lemma MillivoltsDetermine(config: Config, raw: int, value: real)
    requires InMillivolts(config, raw, value)
    ensures value == Calibrate(config, raw)
  {
    CalibrationInMillivolts(config, raw);
  }

  ghost predicate NonDecreasing(config: Config, lo: real, hi: real) {
    forall v: real, w: real :: lo <= v <= w <= hi ==> Quadratic(config, v) <= Quadratic(config, w)
  }

  /** The derivative of the characteristic. */
  function Slope(config: Config, v: real): real { 2.0 * config.polyA * v + (config.slope + config.polyB) }

  lemma Secant(config: Config, v: real, w: real)
    ensures Quadratic(config, w) - Quadratic(config, v) ==
            (w - v) * (config.polyA * (v + w) + (config.slope + config.polyB))
  {
    var a, s := config.polyA, config.slope + config.polyB;
    assert (w - v) * (a * (v + w)) == a * (w * w) - a * (v * v) by {
      assert (w - v) * (a * (v + w)) == a * ((w - v) * (v + w));
      assert (w - v) * (v + w) == w * w - v * v;
    }
    assert (w - v) * s == s * w - s * v;
  }

  /** A secant slope is the mean of the slopes at its two ends. */
  lemma SecantIsMeanSlope(config: Config, v: real, w: real)
    ensures Quadratic(config, w) - Quadratic(config, v) ==
            (w - v) * ((Slope(config, v) + Slope(config, w)) / 2.0)
  {
    Secant(config, v, w);
    assert config.polyA * (v + w) + (config.slope + config.polyB) == (Slope(config, v) + Slope(config, w)) / 2.0;
  }

  /** A slope inside the range lies between the slopes at its ends. */
  lemma SlopeBetween(config: Config, lo: real, hi: real, v: real)
    requires lo <= v <= hi && Slope(config, lo) >= 0.0 && Slope(config, hi) >= 0.0
    ensures Slope(config, v) >= 0.0
  {
    var a := config.polyA;
    if a >= 0.0 {
      assert a * (v - lo) >= 0.0;
    } else {
      assert a * (v - hi) >= 0.0;
    }
  }

  /** A point next to one end of the range where the slope is still negative. */
  lemma NegativeNearby(config: Config, from: real, to: real) returns (w: real)
    requires from != to && Slope(config, from) < 0.0
    ensures w != from && (from < w <= to || to <= w < from)
    ensures Slope(config, w) < 0.0
  {
    var d := 2.0 * config.polyA * (to - from);
    var s := Slope(config, from);
    // one step of the fraction t of the way adds t * d to the slope
    var t := if d <= 0.0 then 1.0 else if -s / 2.0 >= d then 1.0 else (-s / 2.0) / d;
    w := from + t * (to - from);
    assert t * d <= -s / 2.0 || d <= 0.0;
    assert Slope(config, w) == s + t * d by {
      assert 2.0 * config.polyA * (t * (to - from)) == t * d;
      assert 2.0 * config.polyA * w == 2.0 * config.polyA * from + 2.0 * config.polyA * (t * (to - from));
    }
    assert 0.0 < t <= 1.0;
    Fraction(t, to - from);
  }

  lemma Fraction(t: real, x: real)
    requires 0.0 < t <= 1.0 && x != 0.0
    ensures t * x != 0.0 && (0.0 < t * x <= x || x <= t * x < 0.0)
  {
  }

  lemma Rising(config: Config, v: real, w: real)
    requires v <= w && Slope(config, v) >= 0.0 && Slope(config, w) >= 0.0
    ensures Quadratic(config, v) <= Quadratic(config, w)
  {
    hide *;
    var mean := (Slope(config, v) + Slope(config, w)) / 2.0;
    SecantIsMeanSlope(config, v, w);
    assert (w - v) * mean >= 0.0;
  }

  lemma Falling(config: Config, v: real, w: real)
    requires v < w && Slope(config, v) < 0.0 && Slope(config, w) < 0.0
    ensures Quadratic(config, w) < Quadratic(config, v)
  {
    hide *;
    var mean := (Slope(config, v) + Slope(config, w)) / 2.0;
    SecantIsMeanSlope(config, v, w);
    assert (w - v) * mean < 0.0;
  }

  /** Exactly when calibration never decreases on a voltage range: when its slope is not
      negative at either end. */
  lemma NonDecreasingIff(config: Config, lo: real, hi: real)
    requires lo < hi
    ensures NonDecreasing(config, lo, hi) <==> Slope(config, lo) >= 0.0 && Slope(config, hi) >= 0.0
  {
    hide Quadratic, Slope;
    if Slope(config, lo) >= 0.0 && Slope(config, hi) >= 0.0 {
      forall v: real, w: real | lo <= v <= w <= hi
        ensures Quadratic(config, v) <= Quadratic(config, w)
      {
        SlopeBetween(config, lo, hi, v);
        SlopeBetween(config, lo, hi, w);
        Rising(config, v, w);
      }
    } else if Slope(config, lo) < 0.0 {
      var w := NegativeNearby(config, lo, hi);
      Falling(config, lo, w);
    } else {
      var v := NegativeNearby(config, hi, lo);
      Falling(config, v, hi);
    }
  }

  // ----------------------------------------------------------------------- alarms

  predicate HighAlarm(config: Config, value: real) { config.enableHigh && value > config.highThreshold }

  predicate LowAlarm(config: Config, value: real) { config.enableLow && value < config.lowThreshold }

  /** The slope of the characteristic at a raw value in millivolts is not negative. */
  predicate RisesAt(config: Config, raw: int) {
    2.0 * (config.polyA * raw as real) + 1000.0 * (config.slope + config.polyB) >= 0.0
  }

  lemma SlopeInMillivolts(config: Config, raw: int)
    ensures RisesAt(config, raw) <==> Slope(config, Volts(raw)) >= 0.0
  {
    var v := Volts(raw);
    assert config.polyA * raw as real == 1000.0 * (config.polyA * v);
    assert 2.0 * config.polyA * v == 2.0 * (config.polyA * v);
  }

  /** End to end, from samples to alarms: with samples in a range on which the slope is not
      negative at either end, raising samples never lowers the value, never clears the high
      alarm and never raises the low one. */
  lemma PipelineMonotone(config: Config, lo: int, hi: int, s: seq<int>, t: seq<int>, x: int, y: int)
    requires s != [] && Pointwise(s, t) && Within(s, lo, hi) && Within(t, lo, hi)
    requires Aggregates(config, s, x) && Aggregates(config, t, y)
    requires RisesAt(config, lo) && RisesAt(config, hi)
    ensures Calibrate(config, x) <= Calibrate(config, y)
    ensures HighAlarm(config, Calibrate(config, x)) ==> HighAlarm(config, Calibrate(config, y))
    ensures LowAlarm(config, Calibrate(config, y)) ==> LowAlarm(config, Calibrate(config, x))
  {
    SlopeInMillivolts(config, lo);
    SlopeInMillivolts(config, hi);
    AggregateWithin(config, s, x, lo, hi);
    AggregateWithin(config, t, y, lo, hi);
    AggregateMonotone(config, s, t, x, y);
    CalibrationIsQuadratic(config, x);
    CalibrationIsQuadratic(config, y);
    if lo < hi {
      NonDecreasingIff(config, Volts(lo), Volts(hi));
    }
  }

  // ------------------------------------------------------------------- power gate

  /** Events of the first k conversions of a burst of n. */
  function Burst(k: nat, n: nat): seq<Event> {
    if k == 0 then [] else Burst(k - 1, n) + [Convert] + (if k < n then [Sleep(GAP_MS)] else [])
  }

  /** Events of one call in which k conversions of n succeeded. */
  function Visit(config: Config, k: nat, n: nat): seq<Event> {
    [Power(true), Sleep(config.warmup)] + Burst(k, n) + (if k < n then [Convert] else []) + [Power(false)]
  }

  /** The gate after some events. */
  function Gate(events: seq<Event>, on: bool): bool {
    if events == [] then on
    else match events[|events| - 1]
      case Power(b) => b
      case _ => Gate(events[..|events| - 1], on)
  }

  /** No conversion is made with the sensor off. */
  predicate ConvertsPowered(events: seq<Event>, on: bool) {
    events == [] ||
    (ConvertsPowered(events[..|events| - 1], on) &&
     (events[|events| - 1].Convert? ==> Gate(events[..|events| - 1], on)))
  }

  /** Milliseconds slept with the sensor on. */
  function PoweredMs(events: seq<Event>, on: bool): nat {
    if events == [] then 0
    else
      var before := events[..|events| - 1];
      PoweredMs(before, on) +
      (match events[|events| - 1]
       case Sleep(ms) => if Gate(before, on) then ms else 0
       case _ => 0)
  }

  function Conversions(events: seq<Event>): nat {
    if events == [] then 0 else Conversions(events[..|events| - 1]) + (if events[|events| - 1].Convert? then 1 else 0)
  }

  lemma ConversionsSnoc(events: seq<Event>, e: Event)
    ensures Conversions(events + [e]) == Conversions(events) + (if e.Convert? then 1 else 0)
  {
    assert (events + [e])[..|events|] == events;
  }

  lemma OneConversion(events: seq<Event>, last: bool)
    ensures Conversions(events + [Convert] + (if last then [] else [Sleep(GAP_MS)])) == Conversions(events) + 1
  {
    hide Conversions;
    ConversionsSnoc(events, Convert);
    if last {
      assert events + [Convert] + [] == events + [Convert];
    } else {
      ConversionsSnoc(events + [Convert], Sleep(GAP_MS));
    }
  }

  lemma BurstSnoc(before: seq<Event>, k: nat, n: nat)
    requires 0 < k
    ensures before + Burst(k, n) ==
            before + Burst(k - 1, n) + [Convert] + (if k >= n then [] else [Sleep(GAP_MS)])
  {
  }

  lemma {:induction false} BurstConverts(before: seq<Event>, k: nat, n: nat)
    requires k <= n
    ensures Conversions(before + Burst(k, n)) == Conversions(before) + k
  {
    hide Conversions;
    if k == 0 {
      assert before + Burst(0, n) == before;
    } else {
      hide Burst;
      BurstConverts(before, k - 1, n);
      OneConversion(before + Burst(k - 1, n), k >= n);
      BurstSnoc(before, k, n);
    }
  }

  lemma VisitConverts(config: Config, k: nat, n: nat)
    requires k <= n
    ensures Conversions(Visit(config, k, n)) == if k < n then k + 1 else n
  {
    var start := [Power(true), Sleep(config.warmup)];
    assert [] + [Power(true)] == [Power(true)] && [Power(true)] + [Sleep(config.warmup)] == start;
    ConversionsSnoc([], Power(true));
    ConversionsSnoc([Power(true)], Sleep(config.warmup));
    BurstConverts(start, k, n);
    var e := start + Burst(k, n);
    ConversionsSnoc(e, Convert);
    ConversionsSnoc(e, Power(false));
    ConversionsSnoc(e + [Convert], Power(false));
    assert Visit(config, k, n) == if k < n then e + [Convert] + [Power(false)] else e + [Power(false)];
    assert Conversions([]) == 0;
    hide Conversions, Burst, Visit;
  }

  lemma Snoc(events: seq<Event>, e: Event, on: bool)
    ensures Gate(events + [e], on) == (if e.Power? then e.on else Gate(events, on))
    ensures ConvertsPowered(events + [e], on) <==>
            ConvertsPowered(events, on) && (e.Convert? ==> Gate(events, on))
    ensures PoweredMs(events + [e], on) ==
            PoweredMs(events, on) + (if e.Sleep? && Gate(events, on) then e.ms else 0)
  {
    assert (events + [e])[..|events|] == events;
  }

  /** What holds after k conversions of a burst of n. */
  predicate Acquiring(events: seq<Event>, k: nat, n: nat, warm: nat, on: bool) {
    && Gate(events, on)
    && ConvertsPowered(events, on)
    && PoweredMs(events, on) == warm + GAP_MS * (if k < n || k == 0 then k else k - 1)
  }

  lemma AcquiringStep(events: seq<Event>, k: nat, n: nat, warm: nat, on: bool)
    requires k < n && Acquiring(events, k, n, warm, on)
    ensures Acquiring(events + [Convert] + (if k + 1 < n then [Sleep(GAP_MS)] else []), k + 1, n, warm, on)
  {
    hide Gate, ConvertsPowered, PoweredMs;
    Snoc(events, Convert, on);
    if k + 1 < n {
      Snoc(events + [Convert], Sleep(GAP_MS), on);
    } else {
      assert events + [Convert] + [] == events + [Convert];
    }
  }

  lemma {:induction false} BurstPowered(before: seq<Event>, k: nat, n: nat, warm: nat, on: bool)
    requires k <= n && Acquiring(before, 0, n, warm, on)
    ensures Acquiring(before + Burst(k, n), k, n, warm, on)
  {
    hide Acquiring;
    if k == 0 {
      assert before + Burst(0, n) == before;
    } else {
      BurstPowered(before, k - 1, n, warm, on);
      AcquiringStep(before + Burst(k - 1, n), k - 1, n, warm, on);
      var gap: seq<Event> := if k < n then [Sleep(GAP_MS)] else [];
      assert before + Burst(k, n) == before + Burst(k - 1, n) + [Convert] + gap;
    }
  }

  /** On every exit the sensor is off again, no conversion was made with it off, and it was on
      for the warm-up time plus one gap after each conversion but the last of the burst. */
  lemma VisitIsSafe(config: Config, k: nat, n: nat, on: bool)
    requires k <= n && 0 < n
    ensures var events := Visit(config, k, n);
            !Gate(events, on) && ConvertsPowered(events, on) &&
            Conversions(events) == (if k < n then k + 1 else n) &&
            PoweredMs(events, on) == config.warmup + 10 * (if k < n then k else n - 1)
  {
    VisitConverts(config, k, n);
    var start := [Power(true), Sleep(config.warmup)];
    assert [] + [Power(true)] == [Power(true)] && [Power(true)] + [Sleep(config.warmup)] == start;
    Snoc([], Power(true), on);
    Snoc([Power(true)], Sleep(config.warmup), on);
    BurstPowered(start, k, n, config.warmup, on);
    var e := start + Burst(k, n);
    Snoc(e, Convert, on);
    if k < n {
      Snoc(e + [Convert], Power(false), on);
      assert Visit(config, k, n) == e + [Convert] + [Power(false)];
    } else {
      Snoc(e, Power(false), on);
      assert Visit(config, k, n) == e + [Power(false)];
    }
  }

  // ---------------------------------------------------------------------- reading

  predicate Succeeded(adc: seq<Conversion>) { forall i :: 0 <= i < |adc| ==> adc[i].ret >= 0 }

  function Samples(adc: seq<Conversion>): (s: seq<int>)
    ensures |s| == |adc| && forall i :: 0 <= i < |adc| ==> s[i] == adc[i].millivolts
  {
    seq(|adc|, i requires 0 <= i < |adc| => adc[i].millivolts)
  }

  predicate Small(adc: seq<Conversion>) {
    forall i :: 0 <= i < |adc| ==> -SAMPLE_LIMIT <= adc[i].millivolts <= SAMPLE_LIMIT
  }

  function BurstLength(config: Config): (n: nat)
    ensures 1 <= n <= 10
    ensures 1 <= config.burstCount <= 10 ==> n == config.burstCount
    ensures config.burstCount == 0 ==> n == 1
    ensures config.burstCount > 10 ==> n == 10
  {
    if config.burstCount == 0 then 1 else if config.burstCount > BURST_LIMIT then BURST_LIMIT else config.burstCount
  }

  /** A failed battery reading reports zero, a good one is cut to 16 bits. */
  function Battery(battery: Conversion): (mv: nat)
    ensures mv < 0x1_0000
    ensures battery.ret < 0 ==> mv == 0
    ensures battery.ret >= 0 && 0 <= battery.millivolts < 0x1_0000 ==> mv == battery.millivolts
    ensures battery.ret >= 0 ==> exists k: int :: battery.millivolts == mv + k * 0x1_0000
  {
    if battery.ret < 0 then 0
    else
      assert battery.millivolts == battery.millivolts % 0x1_0000 + battery.millivolts / 0x1_0000 * 0x1_0000;
      battery.millivolts % 0x1_0000
  }

  /** Every field of a finished reading. */
  ghost predicate Complete(reading: SensorReading, config: Config, samples: seq<int>, battery: Conversion, uptime: nat)
    requires samples != []
    reads reading
  {
    // the mean, fraction dropped, or the median
    && (config.aggregation == 0 ==> reading.rawValue == TruncDiv(Sum(samples), |samples|))
    && (config.aggregation != 0 ==> IsMedian(samples, reading.rawValue))
    && InMillivolts(config, reading.rawValue, reading.value)
    && reading.unit == "PSI"
    && reading.timestamp == uptime
    && reading.batteryMv == Battery(battery)
    // bit 0 is the high alarm, bit 1 the low alarm, no other bit is set
    && reading.faults == Bits(config.enableHigh && reading.value > config.highThreshold,
                              config.enableLow && reading.value < config.lowThreshold)
  }

  function Bits(bit0: bool, bit1: bool): bv8 { if bit0 && bit1 then 3 else if bit1 then 2 else if bit0 then 1 else 0 }

  class SensorReading {
    var value: real
    var unit: string
    var rawValue: int
    var timestamp: nat
    var batteryMv: nat
    var faults: bv8

    constructor () {
    }
  }

  class SensorControl {
    var power: bool
    ghost var events: seq<Event>

    ghost predicate Valid()
      reads this
    {
      power == Gate(events, false)
    }

    constructor ()
      ensures Valid() && !power && events == []
    {
      power := false;
      events := [];
    }

    method SetPower(on: bool)
      requires Valid()
      modifies this
      ensures Valid() && power == on && events == old(events) + [Power(on)]
    {
      power := on;
      events := events + [Power(on)];
      Snoc(old(events), Power(on), false);
    }

    ghost method Note(e: Event)
      requires Valid() && !e.Power?
      modifies this`events
      ensures Valid() && events == old(events) + [e]
    {
      Snoc(events, e, false);
      events := events + [e];
    }

    method GetBattery(battery: Conversion, reading: SensorReading) returns (ret: int)
      modifies reading`batteryMv
      ensures ret == if battery.ret < 0 then battery.ret else 0
      ensures reading.batteryMv == Battery(battery)
    {
      if battery.ret < 0 {
        reading.batteryMv := 0;
        return battery.ret;
      }
      reading.batteryMv := battery.millivolts % 0x1_0000;
      return 0;
    }

    /** The acquisition loop: conversions until the first failure, which drops the power. */
    method Acquire(values: array<int>, config: Config, n: nat, adc: seq<Conversion>) returns (ret: int, ghost good: nat)
      requires Valid() && power && n <= |adc| && n <= values.Length && 0 < n
      modifies this, values
      ensures Valid() && good <= n && Succeeded(adc[..good])
      ensures values[..good] == Samples(adc[..good])
      ensures good == n ==> power && ret >= 0 && events == old(events) + Burst(n, n)
      ensures good < n ==> !power && ret == adc[good].ret < 0 &&
                           events == old(events) + Burst(good, n) + [Convert] + [Power(false)]
    {
      ret := 0;
      good := 0;
      for i := 0 to n
        invariant good == i && Valid() && power && ret >= 0
        invariant Succeeded(adc[..i]) && values[..i] == Samples(adc[..i])
        invariant events == old(events) + Burst(i, n)
      {
        Note(Convert);
        ret := adc[i].ret;
        if ret < 0 {
          SetPower(false);
          return;
        }
        values[i] := adc[i].millivolts;
        if i < n - 1 {
          Note(Sleep(GAP_MS));
        }
        good := i + 1;
      }
    }

    /** The two aggregation branches, on the first n cells of the buffer. */
    method Aggregate(values: array<int>, config: Config, n: nat) returns (raw: int)
      requires 0 < n <= BURST_LIMIT && n <= values.Length
      requires config.aggregation == 0 ==> Within(values[..n], -SAMPLE_LIMIT, SAMPLE_LIMIT)
      modifies values
      ensures Aggregates(config, old(values[..n]), raw)
      ensures if config.aggregation == 0 then raw == TruncDiv(Sum(old(values[..n])), n)
              else IsMedian(old(values[..n]), raw)
    {
      ghost var samples := values[..n];
      if config.aggregation == 0 {
        var sum := 0;
        for i := 0 to n
          invariant values[..n] == samples && sum == Sum(samples[..i])
        {
          assert samples[..i + 1][..i] == samples[..i];
          sum := sum + values[i];
          SumWithin(samples[..i + 1], -SAMPLE_LIMIT, SAMPLE_LIMIT);
          assert -0x8000_0000 <= sum < 0x8000_0000; // the 32-bit accumulator never overflows
        }
        assert samples[..n] == samples;
        raw := TruncDiv(sum, n);
      } else {
        BubbleSort(values, n);
        raw := values[n / 2];
        MedianIff(samples, values[..n], raw);
      }
    }

    /** sensor_read. An outcome is supplied for each conversion the burst may make. */
    method Read(config: Config, reading: SensorReading, adc: seq<Conversion>, battery: Conversion, uptime: nat)
      returns (ret: int, ghost good: nat)
      requires Valid() && |adc| == BurstLength(config)
      requires config.aggregation == 0 ==> Small(adc) // only the mean adds samples up
      modifies this, reading
      ensures Valid() && !power
      ensures good <= |adc| && Succeeded(adc[..good])
      ensures events == old(events) + Visit(config, good, |adc|)
      // a failed conversion ends the call with its status and no reading
      ensures good < |adc| ==> ret == adc[good].ret < 0 && unchanged(reading)
      // otherwise every field is set
      ensures good == |adc| ==>
        ret == 0 && Complete(reading, config, Samples(adc), battery, uptime)
    {
      hide Aggregates, Quadratic, InMillivolts, IsMedian, TruncDiv, Sum, Visit, Burst, Gate, Bits, Battery, BurstLength;
      ghost var e := events;
      var n := BurstLength(config);
      var values := new int[BURST_LIMIT];
      SetPower(true);
      Note(Sleep(config.warmup));
      ret, good := Acquire(values, config, n, adc);
      assert adc[..n] == adc;
      VisitEvents(config, e, good, n);
      if ret < 0 {
        return;
      }
      SetPower(false);
      if config.aggregation == 0 {
        SamplesSmall(adc);
      }
      var raw := Aggregate(values, config, n);
      Finish(config, raw, reading, battery, uptime);
      ret := 0;
    }

    /** The part of sensor_read after aggregation. */
    method Finish(config: Config, raw: int, reading: SensorReading, battery: Conversion, uptime: nat)
      modifies reading
      ensures reading.rawValue == raw && InMillivolts(config, raw, reading.value)
      ensures reading.unit == "PSI" && reading.timestamp == uptime && reading.batteryMv == Battery(battery)
      ensures reading.faults == Bits(config.enableHigh && reading.value > config.highThreshold,
                                     config.enableLow && reading.value < config.lowThreshold)
    {
      reading.rawValue := raw;
      reading.value := Calibrate(config, raw);
      CalibrationInMillivolts(config, raw);
      reading.unit := UNIT;
      var _ := GetBattery(battery, reading);
      reading.timestamp := uptime;
      reading.faults := CheckFaults(config, reading.value);
    }

    method CheckFaults(config: Config, value: real) returns (faults: bv8)
      ensures faults == Bits(HighAlarm(config, value), LowAlarm(config, value))
      ensures faults == Bits(config.enableHigh && value > config.highThreshold,
                             config.enableLow && value < config.lowThreshold)
    {
      faults := 0;
      if config.enableHigh && value > config.highThreshold {
        faults := faults | 1;
      }
      if config.enableLow && value < config.lowThreshold {
        faults := faults | 2;
      }
    }
  }

  lemma VisitEvents(config: Config, e: seq<Event>, k: nat, n: nat)
    requires k <= n
    ensures k < n ==> e + [Power(true)] + [Sleep(config.warmup)] + Burst(k, n) + [Convert] + [Power(false)] ==
                      e + Visit(config, k, n)
    ensures k == n ==> e + [Power(true)] + [Sleep(config.warmup)] + Burst(k, n) + [Power(false)] ==
                       e + Visit(config, k, n)
  {
  }

  lemma SamplesSmall(adc: seq<Conversion>)
    requires Small(adc)
    ensures Within(Samples(adc), -SAMPLE_LIMIT, SAMPLE_LIMIT)
  {
  }
}
