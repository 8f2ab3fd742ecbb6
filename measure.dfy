/**
 * `measure`: take a window of `measures` readings, keep their running sums,
 * stamp the window with the clock read at the middle sample, and append the
 * rounded means to the file of that date.
 */
module Datalogger {
  import opened Wrappers
  import opened Sensor
  import opened Records
  import opened LogStore
  import Config

  /**
   * `int(measures / 2)`: Python divides to a float and truncates toward
   * zero, so a negative window rounds up, not down.
   */
  function MidIndex(measures: int): (m: int)
    ensures measures >= 0 ==> 0 <= measures - 2 * m <= 1
    ensures measures < 0 ==> -1 <= measures - 2 * m <= 0
    // a non-empty window has its middle inside it, with as many samples before as after when odd
    ensures measures >= 1 ==> 0 <= m < measures
    ensures measures >= 1 && measures % 2 == 1 ==> m == measures - 1 - m
  {
    if measures >= 0 then measures / 2 else -((-measures) / 2)
  }

  datatype Quantity = Temperature | Humidity

  function Value(r: Reading, q: Quantity): int
  {
    match q
    case Temperature => r.temperature
    case Humidity => r.humidity
  }

  /** The sum of one quantity over a window, accumulated left to right as the loop does. */
  function Sum(rs: seq<Reading>, q: Quantity): int
  {
    if |rs| == 0 then 0 else Sum(rs[..|rs| - 1], q) + Value(rs[|rs| - 1], q)
  }

  lemma SumAppend(rs: seq<Reading>, r: Reading)
    ensures Sum(rs + [r], Temperature) == Sum(rs, Temperature) + r.temperature
    ensures Sum(rs + [r], Humidity) == Sum(rs, Humidity) + r.humidity
  {
    assert (rs + [r])[..|rs|] == rs;
  }

  /**
   * `round(sum / n, 1)` on exact tenths: the integer nearest to `sum / n`,
   * ties going to the even one.
   */
  function RoundTenths(sum: int, n: int): (r: int)
    requires n > 0
    ensures 2 * Abs(sum - r * n) <= n
    ensures 2 * Abs(sum - r * n) == n ==> r % 2 == 0
    ensures sum % n == 0 ==> r * n == sum
  {
    var q, rem := sum / n, sum % n;
    assert sum == q * n + rem;
    assert sum - (q + 1) * n == rem - n;
    if 2 * rem < n || (2 * rem == n && q % 2 == 0) then q else q + 1
  }

  /** What the sampling loop leaves behind: the two sums and the time of the middle sample, if reached. */
  datatype Acquisition =
    | Acquired(temperatureSum: int, humiditySum: int, stamp: Option<Timestamp>)
    | SensorStalled(sample: nat)

  /**
   * The reference for the loop: a window of `measures` samples sums the
   * first `measures` complete attempts and is stamped by the clock of sample
   * `int(measures / 2)`; with fewer complete attempts it blocks at the first
   * sample that finds none.
   */
  function Window(measures: int, attempts: seq<Attempt>, clock: nat -> Timestamp): (a: Acquisition)
    ensures a.Acquired? ==> (a.stamp.Some? <==> measures >= 1)
  {
    var good := Completes(attempts);
    if measures <= 0 then Acquired(0, 0, None)
    else if |good| < measures then SensorStalled(|good|)
    else
      Acquired(Sum(good[..measures], Temperature), Sum(good[..measures], Humidity),
               Some(clock(MidIndex(measures))))
  }

  /**
   * The loop of `measure`: one read per iteration, added to the running sums;
   * the clock is read once, at iteration `int(measures / 2)`.
   */
  method Accumulate(measures: int, attempts: seq<Attempt>, clock: nat -> Timestamp)
    returns (a: Acquisition)
    ensures a == Window(measures, attempts, clock)
  {
    var temperature, humidity := 0, 0;
    var stamp: Option<Timestamp> := None;
    var used: nat := 0;
    var i: nat := 0;
    var mid: nat := if measures >= 1 then MidIndex(measures) else 0;
    ghost var rs: seq<Reading> := [];
    while i < measures
      invariant i <= measures || i == 0
      invariant used <= |attempts| && rs == Completes(attempts[..used]) && |rs| == i
      invariant temperature == Sum(rs, Temperature) && humidity == Sum(rs, Humidity)
      invariant stamp == if mid < i then Some(clock(mid)) else None
    {
      var rest := attempts[used..];
      var call := ReadTempHumFixed(rest);
      if call.Stalled? {
        CompletesAfterStall(attempts, used, rest);
        return SensorStalled(i);
      }
      var reading := call.value.value;
      if i == mid {
        stamp := Some(clock(i));
      }
      temperature := temperature + reading.temperature;
      humidity := humidity + reading.humidity;
      SumAppend(rs, reading);
      CompletesAfterRead(attempts, used, rest);
      rs := rs + [reading];
      used := used + call.used;
      i := i + 1;
    }
    if measures >= 1 {
      CompletesPrefix(attempts, used);
    }
    a := Acquired(temperature, humidity, stamp);
  }

  /** The Python exceptions `measure` can end in; `TypeError` only with the read as written. */
  datatype Raise = ZeroDivisionError | UnboundLocalError | TypeError

  /**
   * How one call of `measure` ends: a record appended, an exception, or a
   * read that never returns because the attempts ran out first.
   */
  datatype Outcome = Logged(record: LogRecord) | Raised(error: Raise) | Blocked(sample: nat)

  /**
   * After the loop: `measures == 0` divides by zero; a negative window leaves
   * `date` unassigned when the record is built; otherwise the rounded means are logged.
   */
  function MeasureOutcome(measures: int, attempts: seq<Attempt>, clock: nat -> Timestamp): (o: Outcome)
    // only an empty or negative window raises; the corrected read always unpacks
    ensures o.Raised? <==> measures <= 0
    ensures o != Raised(TypeError)
    ensures o.Blocked? ==> o.sample < measures
  {
    match Window(measures, attempts, clock)
    case SensorStalled(i) => Blocked(i)
    case Acquired(t, h, stamp) =>
      if measures == 0 then Raised(ZeroDivisionError)
      else if stamp.None? then Raised(UnboundLocalError)
      else Logged(LogRecord(stamp.value.date, stamp.value.time,
                            RoundTenths(t, measures), RoundTenths(h, measures)))
  }

  /** One call of `measure`, with the sensor, the clock and the output directory made explicit. */
  method Measure(measures: int, attempts: seq<Attempt>, clock: nat -> Timestamp, dir: LogDirectory)
    returns (o: Outcome)
    modifies dir
    ensures o == MeasureOutcome(measures, attempts, clock)
    ensures o.Logged? ==> dir.files == Appended(old(dir.files), o.record.date, Format(o.record))
    ensures !o.Logged? ==> dir.files == old(dir.files)
  {
    var a := Accumulate(measures, attempts, clock);
    if a.SensorStalled? {
      return Blocked(a.sample);
    }
    if measures == 0 {
      return Raised(ZeroDivisionError);
    }
    if a.stamp.None? {
      return Raised(UnboundLocalError);
    }
    var temperature := RoundTenths(a.temperatureSum, measures);
    var humidity := RoundTenths(a.humiditySum, measures);
    var record := LogRecord(a.stamp.value.date, a.stamp.value.time, temperature, humidity);
    dir.Append(record.date, Format(record));
    o := Logged(record);
  }

  /**
   * How `measure` ends, stated against the complete attempts alone: it logs
   * the rounded means of the first `measures` of them, stamped with the
   * clock of sample `int(measures / 2)`; it blocks when there are too few;
   * it raises for an empty or negative window.
   */
  lemma MeasureLogsRoundedMeans(measures: int, attempts: seq<Attempt>, clock: nat -> Timestamp)
    ensures MeasureOutcome(measures, attempts, clock) == Raised(ZeroDivisionError) <==> measures == 0
    ensures MeasureOutcome(measures, attempts, clock) == Raised(UnboundLocalError) <==> measures < 0
    ensures MeasureOutcome(measures, attempts, clock).Blocked? <==>
      measures >= 1 && |Completes(attempts)| < measures
    ensures MeasureOutcome(measures, attempts, clock).Blocked? ==>
      MeasureOutcome(measures, attempts, clock).sample == |Completes(attempts)|
    ensures MeasureOutcome(measures, attempts, clock).Logged? <==>
      1 <= measures <= |Completes(attempts)|
    ensures 1 <= measures <= |Completes(attempts)| ==>
      var window := Completes(attempts)[..measures];
      var stamp := clock(MidIndex(measures));
      MeasureOutcome(measures, attempts, clock).record ==
        LogRecord(stamp.date, stamp.time,
                  RoundTenths(Sum(window, Temperature), measures),
                  RoundTenths(Sum(window, Humidity), measures))
  {
  }

  /**
   * Transient failures are absorbed by the corrected read: failed attempts
   * anywhere in front of the stream leave the outcome of `measure` unchanged.
   */
  lemma FailuresDoNotChangeOutcome(failures: seq<Attempt>, attempts: seq<Attempt>, measures: int, clock: nat -> Timestamp)
    requires AllFail(failures)
    ensures MeasureOutcome(measures, failures + attempts, clock) == MeasureOutcome(measures, attempts, clock)
  {
    CompletesAppend(failures, attempts);
    CompletesOfFailures(failures);
    assert Completes(failures + attempts) == Completes(attempts);
    MeasureLogsRoundedMeans(measures, failures + attempts, clock);
    MeasureLogsRoundedMeans(measures, attempts, clock);
  }

  // ---------------------------------------------------------------------
  // `measure` with `read_temp_hum` as written.
  // ---------------------------------------------------------------------

  /** How the samples of the loop end when every read goes through the read as written. */
  datatype Sampling =
    | AllSampled(readings: seq<Reading>)  // every iteration unpacked a reading
    | ReadStalled(sample: nat)            // the read of this sample never returns
    | ReadNone(sample: nat)               // the read returned None: line 55 cannot unpack it

  /** Take `count` samples from the stream, each through `ReadTempHum`, stopping at the first that fails. */
  function SampleAsWritten(count: nat, attempts: seq<Attempt>): (r: Sampling)
    ensures r.AllSampled? ==> |r.readings| == count
    ensures r.ReadStalled? ==> r.sample < count
    ensures r.ReadNone? ==> r.sample < count
    decreases count
  {
    if count == 0 then AllSampled([])
    else
      match ReadTempHum(attempts)
      case Stalled => ReadStalled(0)
      case Returned(None, _) => ReadNone(0)
      case Returned(Some(r), k) =>
        match SampleAsWritten(count - 1, attempts[k..])
        case AllSampled(rs) => AllSampled([r] + rs)
        case ReadStalled(i) => ReadStalled(i + 1)
        case ReadNone(i) => ReadNone(i + 1)
  }

  /**
   * The samples as written, against the leading complete attempts: they are
   * read one attempt each; the first sample that meets a failed attempt
   * blocks when nothing complete follows and otherwise gets None.
   */
  lemma {:induction false} SampleAsWrittenLeading(count: nat, attempts: seq<Attempt>)
    ensures count <= LeadingComplete(attempts) ==>
      count <= |Completes(attempts)| && SampleAsWritten(count, attempts) == AllSampled(Completes(attempts)[..count])
    ensures LeadingComplete(attempts) < count ==>
      SampleAsWritten(count, attempts) ==
        if AllFail(attempts[LeadingComplete(attempts)..]) then ReadStalled(LeadingComplete(attempts))
        else ReadNone(LeadingComplete(attempts))
    decreases count
  {
    var p := LeadingComplete(attempts);
    LeadingCompletes(attempts);
    if count > 0 && |attempts| > 0 {
      if Complete(attempts[0]) {
        var tail := attempts[1..];
        SampleAsWrittenLeading(count - 1, tail);
        assert Completes(attempts) == [ToReading(attempts[0])] + Completes(tail);
        assert tail[p - 1..] == attempts[p..];
        if count <= p {
          assert Completes(attempts)[..count] == [ToReading(attempts[0])] + Completes(tail)[..count - 1];
        }
      } else {
        AsWrittenLosesRetriedValue(attempts);
        FixedReturnsFirstComplete(attempts);
        assert attempts[p..] == attempts;
      }
    }
  }

  /** A sample after the leading complete attempts meets a failed first attempt, and its read returns. */
  predicate RetriedSampleReturns(measures: int, attempts: seq<Attempt>)
  {
    LeadingComplete(attempts) < measures && !AllFail(attempts[LeadingComplete(attempts)..])
  }

  /** How one call of `measure` ends with `read_temp_hum` as written. */
  function MeasureOutcomeAsWritten(measures: int, attempts: seq<Attempt>, clock: nat -> Timestamp): (o: Outcome)
    ensures o == Raised(ZeroDivisionError) <==> measures == 0
    ensures o == Raised(UnboundLocalError) <==> measures < 0
    ensures o == Raised(TypeError) ==> measures >= 1
    ensures o.Blocked? ==> o.sample < measures
  {
    if measures == 0 then Raised(ZeroDivisionError)
    else if measures < 0 then Raised(UnboundLocalError)
    else
      match SampleAsWritten(measures, attempts)
      case ReadStalled(i) => Blocked(i)
      case ReadNone(_) => Raised(TypeError)
      case AllSampled(rs) =>
        var stamp := clock(MidIndex(measures));
        Logged(LogRecord(stamp.date, stamp.time,
                         RoundTenths(Sum(rs, Temperature), measures), RoundTenths(Sum(rs, Humidity), measures)))
  }

  /**
   * The program as written raises TypeError exactly when a sample needs a
   * retry that returns; in every other case it ends as the corrected
   * `measure` does.
   */
  lemma MeasureAsWritten(measures: int, attempts: seq<Attempt>, clock: nat -> Timestamp)
    ensures MeasureOutcomeAsWritten(measures, attempts, clock) == Raised(TypeError) <==>
      RetriedSampleReturns(measures, attempts)
    ensures !RetriedSampleReturns(measures, attempts) ==>
      MeasureOutcomeAsWritten(measures, attempts, clock) == MeasureOutcome(measures, attempts, clock)
  {
    MeasureLogsRoundedMeans(measures, attempts, clock);
    if measures >= 1 {
      SampleAsWrittenLeading(measures, attempts);
      LeadingCompletes(attempts);
    }
  }

  /** One failed attempt before three good ones: the corrected `measure` logs, the program raises TypeError. */
  lemma OneFailureRaisesAsWritten(clock: nat -> Timestamp)
    ensures MeasureOutcome(3, [Attempt(None, Some(200)), Attempt(Some(400), Some(200)), Attempt(Some(420), Some(220)), Attempt(Some(440), Some(240))], clock).Logged?
    ensures MeasureOutcomeAsWritten(3, [Attempt(None, Some(200)), Attempt(Some(400), Some(200)), Attempt(Some(420), Some(220)), Attempt(Some(440), Some(240))], clock)
         == Raised(TypeError)
  {
    var good := [Attempt(Some(400), Some(200)), Attempt(Some(420), Some(220)), Attempt(Some(440), Some(240))];
    var attempts := [Attempt(None, Some(200))] + good;
    assert attempts[1..] == good && good[1..][1..][1..] == [];
    assert |Completes(attempts)| == 3;
    MeasureLogsRoundedMeans(3, attempts, clock);
    assert LeadingComplete(attempts) == 0 && attempts[0..] == attempts;
    assert !AllFail(attempts) by { assert Complete(attempts[1]); }
    MeasureAsWritten(3, attempts, clock);
  }

  lemma ExampleSums(a: Reading, b: Reading, c: Reading)
    ensures Sum([a, b, c], Temperature) == a.temperature + b.temperature + c.temperature
    ensures Sum([a, b, c], Humidity) == a.humidity + b.humidity + c.humidity
  {
    SumAppend([], a);
    SumAppend([a], b);
    SumAppend([a, b], c);
    assert [] + [a] == [a] && [a] + [b] == [a, b] && [a, b] + [c] == [a, b, c];
  }

  /** Three good readings of 20.0, 22.0, 24.0 degrees and 40.0, 42.0, 44.0 percent log 22.0 and 42.0 at the second sample. */
  lemma ThreeSampleExample(clock: nat -> Timestamp)
    ensures MeasureOutcome(3, [Attempt(Some(400), Some(200)), Attempt(Some(420), Some(220)), Attempt(Some(440), Some(240))], clock)
         == Logged(LogRecord(clock(1).date, clock(1).time, 220, 420))
  {
    var attempts := [Attempt(Some(400), Some(200)), Attempt(Some(420), Some(220)), Attempt(Some(440), Some(240))];
    var rs := [Reading(400, 200), Reading(420, 220), Reading(440, 240)];
    assert attempts[1..][1..][1..] == [];
    assert Completes(attempts) == rs;
    assert rs[..3] == rs;
    ExampleSums(rs[0], rs[1], rs[2]);
    assert RoundTenths(660, 3) == 220 && RoundTenths(1260, 3) == 420;
  }

  // ---------------------------------------------------------------------
  // Rounding and bounds on the logged means.
  // ---------------------------------------------------------------------

  lemma MulLeq(a: int, b: int, n: nat)
    requires a <= b
    ensures a * n <= b * n
  {
  }

  lemma MulNext(a: int, n: int)
    ensures (a + 1) * n == a * n + n
  {
  }

  /** Two offsets within half of `n` of zero that lie `n` or more apart are the two opposite ties. */
  lemma OppositeTies(n: int, d: int, d0: int)
    requires n > 0 && 2 * Abs(d) <= n && 2 * Abs(d0) <= n && d - d0 >= n
    ensures d - d0 == n && 2 * d == n && 2 * d0 == -n
  {
  }

  /** The rounding contract pins the result down: no other integer meets it. */
  lemma RoundTenthsUnique(sum: int, n: int, r: int)
    requires n > 0
    requires 2 * Abs(sum - r * n) <= n
    requires 2 * Abs(sum - r * n) == n ==> r % 2 == 0
    ensures r == RoundTenths(sum, n)
  {
    var r0 := RoundTenths(sum, n);
    if r != r0 {
      // Two distinct candidates within half of `n` of the mean must be
      // neighbours and both ties, and then one of them is odd.
      var lo, hi := if r < r0 then r else r0, if r < r0 then r0 else r;
      MulLeq(lo + 1, hi, n);
      MulNext(lo, n);
      OppositeTies(n, sum - lo * n, sum - hi * n);
      if hi >= lo + 2 {
        MulLeq(lo + 2, hi, n);
        MulNext(lo + 1, n);
        assert false;
      }
    }
  }

  /** A window the check accepts is odd, so its mean is never a tie and the tie rule never applies. */
  lemma OddWindowNeverTies(interval: int, measures: int, sum: int)
    requires Config.CheckConfig(interval, measures) == Config.Start && measures > 0
    ensures 2 * Abs(sum - RoundTenths(sum, measures) * measures) < measures
  {
    var d := Abs(sum - RoundTenths(sum, measures) * measures);
    assert 2 * d != measures by {
      assert measures % 2 == 1;
    }
  }

  lemma {:induction false} SumBounds(rs: seq<Reading>, q: Quantity, lo: int, hi: int)
    requires forall i :: 0 <= i < |rs| ==> lo <= Value(rs[i], q) <= hi
    ensures lo * |rs| <= Sum(rs, q) <= hi * |rs|
  {
    if |rs| > 0 {
      SumBounds(rs[..|rs| - 1], q, lo, hi);
      assert lo * |rs| == lo * (|rs| - 1) + lo;
      assert hi * |rs| == hi * (|rs| - 1) + hi;
    }
  }

  /** A logged mean never lies outside the range of the readings it averages. */
  lemma MeanWithinReadings(rs: seq<Reading>, q: Quantity, lo: int, hi: int)
    requires |rs| >= 1
    requires forall i :: 0 <= i < |rs| ==> lo <= Value(rs[i], q) <= hi
    ensures lo <= RoundTenths(Sum(rs, q), |rs|) <= hi
  {
    var n, sum := |rs|, Sum(rs, q);
    var r := RoundTenths(sum, n);
    SumBounds(rs, q, lo, hi);
    if r < lo {
      MulLeq(r + 1, lo, n);
      MulNext(r, n);
    }
    if r > hi {
      MulLeq(hi + 1, r, n);
      MulNext(hi, n);
    }
  }

  // ---------------------------------------------------------------------
  // The start-up check against what `measure` then does.
  // ---------------------------------------------------------------------

  /** Every configuration the check accepts has a window of odd, hence non-zero, size. */
  lemma AcceptedNeverDividesByZero(interval: int, measures: int, attempts: seq<Attempt>, clock: nat -> Timestamp)
    requires Config.CheckConfig(interval, measures) == Config.Start
    ensures MeasureOutcome(measures, attempts, clock) != Raised(ZeroDivisionError)
    ensures MeasureOutcomeAsWritten(measures, attempts, clock) != Raised(ZeroDivisionError)
  {
    MeasureLogsRoundedMeans(measures, attempts, clock);
  }

  /**
   * The check as written lets an odd negative window through; `measure`
   * then runs no iteration and fails building the record because `date`
   * was never assigned.
   */
  lemma NegativeWindowPassesAndCrashes(interval: int, measures: int, attempts: seq<Attempt>, clock: nat -> Timestamp)
    requires interval > Config.MIN_INTERVAL && measures < 0 && measures % 2 == 1
    ensures Config.CheckConfig(interval, measures) == Config.Start
    ensures MeasureOutcome(measures, attempts, clock) == Raised(UnboundLocalError)
    ensures MeasureOutcomeAsWritten(measures, attempts, clock) == Raised(UnboundLocalError)
  {
    MeasureLogsRoundedMeans(measures, attempts, clock);
  }

  /**
   * With the corrected check, `measure` never raises: it logs as soon as the
   * sensor delivers enough complete readings, with the middle sample inside the window.
   */
  lemma FixedConfigNeverRaises(interval: int, measures: int, attempts: seq<Attempt>, clock: nat -> Timestamp)
    requires Config.CheckConfigFixed(interval, measures) == Config.Start
    ensures !MeasureOutcome(measures, attempts, clock).Raised?
    ensures MeasureOutcome(measures, attempts, clock).Logged? <==> measures <= |Completes(attempts)|
    ensures 0 <= MidIndex(measures) < measures
  {
    MeasureLogsRoundedMeans(measures, attempts, clock);
  }
}
