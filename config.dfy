/**
 * The start-up check that `main` runs on the `--interval` and `--measures`
 * arguments before it touches the sensor or the output directory.
 */
module Config {

  /** Shortest interval accepted, in seconds; also the assumed minimum time one sample takes. */
  const MIN_INTERVAL: int := 2

  /** The three ways `main` exits before sampling, in the order it tests them. */
  datatype ConfigError =
    | IntervalTooShort        // interval <= MIN_INTERVAL
    | EvenMeasures            // measures is even
    | IncompatibleParameters  // the window of measures cannot fit in the interval
    | NonPositiveMeasures     // only raised by the corrected check, CheckConfigFixed

  datatype Verdict = Start | Exit(error: ConfigError)

  /** The text `main` passes to `exit` for each error. */
  function Message(e: ConfigError): (m: string)
    // only the even-window exit is worded as a warning, and the interval and sign errors as errors;
    // the shortest interval is spelled out at the end
    ensures |m| > 8
    ensures m[0] == 'W' <==> e == EvenMeasures
    ensures m[0] == 'E' <==> e == IntervalTooShort || e == NonPositiveMeasures
    ensures e == IntervalTooShort ==> m[|m| - 1] as int - '0' as int == MIN_INTERVAL
  {
    match e
    case IntervalTooShort => "ERROR: Interval must be grater than 2"
    case EvenMeasures => "WARNING: Please insert odd integer"
    case IncompatibleParameters => "Incompatible parameters"
    case NonPositiveMeasures => "ERROR: Number of measures must be positive"
  }

  /**
   * The check as the program runs it. Python's `%` floors, so `measures % 2`
   * is 0 or 1 for every integer, exactly as Dafny's Euclidean `%` is.
   */
  function CheckConfig(interval: int, measures: int): (v: Verdict)
    ensures v == Start <==>
      interval > MIN_INTERVAL && measures % 2 == 1 && measures * MIN_INTERVAL < interval
    ensures v == Exit(IntervalTooShort) <==> interval <= MIN_INTERVAL
    ensures v == Exit(EvenMeasures) <==> interval > MIN_INTERVAL && measures % 2 == 0
    ensures v != Exit(NonPositiveMeasures)
    // an accepted configuration never asks for an empty window of size zero
    ensures v == Start ==> measures != 0
  {
    if interval <= MIN_INTERVAL then Exit(IntervalTooShort)
    else if measures % 2 == 0 then Exit(EvenMeasures)
    else if measures * MIN_INTERVAL >= interval then Exit(IncompatibleParameters)
    else Start
  }

  /** The check with the missing lower bound on `measures` added. */
  function CheckConfigFixed(interval: int, measures: int): (v: Verdict)
    ensures v == Start <==> CheckConfig(interval, measures) == Start && measures >= 1
    // accepted windows are odd, non-empty and sampled faster than the interval
    ensures v == Start ==> measures >= 1 && measures % 2 == 1 && 2 <= 2 * measures < interval
  {
    if measures < 1 && interval > MIN_INTERVAL && measures % 2 == 1 then Exit(NonPositiveMeasures)
    else CheckConfig(interval, measures)
  }

  /** Worked cases: the boundary interval, an even window, and a window that does not fit. */
  lemma RejectedExamples()
    ensures CheckConfig(2, 1) == Exit(IntervalTooShort)
    ensures CheckConfig(30, 10) == Exit(EvenMeasures)
    ensures CheckConfig(9, 5) == Exit(IncompatibleParameters)
    ensures CheckConfig(11, 5) == Start
  {
  }

  /** With the default of 11 measures the interval must be at least 23 seconds. */
  lemma DefaultMeasuresNeedInterval(interval: int)
    ensures CheckConfig(interval, 11) == Start <==> interval >= 23
  {
  }

  /** The gap in the check: every odd negative window passes when the interval exceeds the floor. */
  lemma NegativeMeasuresAccepted(interval: int, measures: int)
    requires interval > MIN_INTERVAL && measures < 0 && measures % 2 == 1
    ensures CheckConfig(interval, measures) == Start
    ensures CheckConfigFixed(interval, measures) == Exit(NonPositiveMeasures)
  {
  }
}
