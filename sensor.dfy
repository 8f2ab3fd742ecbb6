/**
 * `read_temp_hum`: one call of the DHT22 driver, retried after a pause while
 * either value is missing. The driver is replaced by the finite stream of
 * what its successive calls return.
 */
module Sensor {
  import opened Wrappers

  /** A complete reading, in tenths of a percent of relative humidity and tenths of a degree Celsius. */
  datatype Reading = Reading(humidity: int, temperature: int)

  /** What one call of the driver's `read_retry` hands back: either value may be missing. */
  datatype Attempt = Attempt(humidity: Option<int>, temperature: Option<int>)

  predicate Complete(a: Attempt)
  {
    a.humidity.Some? && a.temperature.Some?
  }

  /** Every attempt in `s` is missing a value. */
  predicate AllFail(s: seq<Attempt>)
  {
    forall j :: 0 <= j < |s| ==> !Complete(s[j])
  }

  function ToReading(a: Attempt): Reading
    requires Complete(a)
  {
    Reading(a.humidity.value, a.temperature.value)
  }

  /**
   * The result of one call of `read_temp_hum` against a stream of attempts:
   * the value it returns and how many attempts it consumed, or `Stalled` when
   * the stream ends before the call returns (the program would keep retrying).
   */
  datatype Call = Returned(value: Option<Reading>, used: nat) | Stalled

  /**
   * `read_temp_hum` as written: after a failed attempt it calls itself again
   * but does not return what that call returns, so the caller gets `None`.
   */
  function ReadTempHum(attempts: seq<Attempt>): (r: Call)
    ensures r.Returned? ==> 1 <= r.used <= |attempts|
    // a reading is only ever delivered by the first attempt
    ensures r.Returned? && r.value.Some? <==> |attempts| > 0 && Complete(attempts[0])
    ensures r.Returned? && r.value.Some? ==> r.used == 1 && r.value.value == ToReading(attempts[0])
    decreases |attempts|
  {
    if |attempts| == 0 then Stalled
    else if Complete(attempts[0]) then Returned(Some(ToReading(attempts[0])), 1)
    else
      match ReadTempHum(attempts[1..])
      case Stalled => Stalled
      case Returned(_, k) => Returned(None, k + 1)
  }

  /** `read_temp_hum` with the recursive call's result returned. */
  function ReadTempHumFixed(attempts: seq<Attempt>): (r: Call)
    ensures r.Returned? ==> 1 <= r.used <= |attempts| && r.value.Some?
    decreases |attempts|
  {
    if |attempts| == 0 then Stalled
    else if Complete(attempts[0]) then Returned(Some(ToReading(attempts[0])), 1)
    else
      match ReadTempHumFixed(attempts[1..])
      case Stalled => Stalled
      case Returned(v, k) => Returned(v, k + 1)
  }

  /**
   * The corrected read returns the first complete attempt, having consumed
   * it and the failed ones before it; it stalls only when every attempt fails.
   */
  lemma {:induction false} FixedReturnsFirstComplete(attempts: seq<Attempt>)
    ensures ReadTempHumFixed(attempts).Returned? ==>
      var k := ReadTempHumFixed(attempts).used;
      && Complete(attempts[k - 1])
      && ReadTempHumFixed(attempts).value == Some(ToReading(attempts[k - 1]))
      && AllFail(attempts[..k - 1])
    ensures ReadTempHumFixed(attempts).Stalled? <==> AllFail(attempts)
    decreases |attempts|
  {
    if |attempts| > 0 && !Complete(attempts[0]) {
      FixedReturnsFirstComplete(attempts[1..]);
      if ReadTempHumFixed(attempts).Returned? {
        var k := ReadTempHumFixed(attempts).used;
        assert attempts[..k - 1] == [attempts[0]] + attempts[1..][..k - 2];
      }
      if AllFail(attempts[1..]) {
        assert forall j :: 0 < j < |attempts| ==> attempts[j] == attempts[1..][j - 1];
      }
    }
  }

  /**
   * The two versions retry identically and consume the same attempts; they
   * differ only in the value, which the written version loses after a retry.
   */
  lemma {:induction false} AsWrittenLosesRetriedValue(attempts: seq<Attempt>)
    ensures ReadTempHum(attempts) ==
      match ReadTempHumFixed(attempts)
      case Stalled => Stalled
      case Returned(v, k) => Returned(if k == 1 then v else None, k)
    decreases |attempts|
  {
    if |attempts| > 0 && !Complete(attempts[0]) {
      AsWrittenLosesRetriedValue(attempts[1..]);
    }
  }

  /**
   * Whenever the first attempt is incomplete and a later one is complete,
   * the written version returns `None`, which the unpacking in `measure` rejects.
   */
  lemma RetryReturnsNone(attempts: seq<Attempt>, j: nat)
    requires 0 < j < |attempts| && Complete(attempts[j]) && !Complete(attempts[0])
    ensures ReadTempHum(attempts).Returned? && ReadTempHum(attempts).value == None
    ensures ReadTempHumFixed(attempts).Returned? && ReadTempHumFixed(attempts).value.Some?
  {
    AsWrittenLosesRetriedValue(attempts);
    FixedReturnsFirstComplete(attempts);
    assert !AllFail(attempts) by {
      assert Complete(attempts[j]);
    }
  }

  /** The smallest witness: one failed attempt, then a good one. */
  lemma RetryLosesReading()
    ensures ReadTempHum([Attempt(None, None), Attempt(Some(400), Some(200))]) == Returned(None, 2)
    ensures ReadTempHumFixed([Attempt(None, None), Attempt(Some(400), Some(200))])
         == Returned(Some(Reading(400, 200)), 2)
  {
    var attempts := [Attempt(None, None), Attempt(Some(400), Some(200))];
    assert attempts[1..] == [Attempt(Some(400), Some(200))];
  }

  /**
   * Transient failures are absorbed: failed attempts in front of a stream
   * change only how many attempts the corrected read consumes, not what it returns.
   */
  lemma {:induction false} FailuresAbsorbed(failures: seq<Attempt>, attempts: seq<Attempt>)
    requires AllFail(failures)
    ensures ReadTempHumFixed(failures + attempts) ==
      match ReadTempHumFixed(attempts)
      case Stalled => Stalled
      case Returned(v, k) => Returned(v, |failures| + k)
    decreases |failures|
  {
    if |failures| == 0 {
      assert failures + attempts == attempts;
    } else {
      assert (failures + attempts)[0] == failures[0];
      assert (failures + attempts)[1..] == failures[1..] + attempts;
      FailuresAbsorbed(failures[1..], attempts);
    }
  }

  /** The complete attempts of a stream, in order, as readings: the reference for what sampling delivers. */
  function Completes(attempts: seq<Attempt>): seq<Reading>
    decreases |attempts|
  {
    if |attempts| == 0 then []
    else (if Complete(attempts[0]) then [ToReading(attempts[0])] else []) + Completes(attempts[1..])
  }

  lemma {:induction false} CompletesAppend(a: seq<Attempt>, b: seq<Attempt>)
    ensures Completes(a + b) == Completes(a) + Completes(b)
    decreases |a|
  {
    if |a| == 0 {
      assert a + b == b;
    } else {
      assert (a + b)[0] == a[0];
      assert (a + b)[1..] == a[1..] + b;
      CompletesAppend(a[1..], b);
    }
  }

  lemma {:induction false} CompletesOfFailures(a: seq<Attempt>)
    requires AllFail(a)
    ensures Completes(a) == []
    decreases |a|
  {
    if |a| > 0 {
      CompletesOfFailures(a[1..]);
    }
  }

  /** How many attempts at the head of the stream are complete: the samples the read as written can deliver in a row. */
  function LeadingComplete(attempts: seq<Attempt>): (p: nat)
    ensures p <= |attempts|
    ensures forall i :: 0 <= i < p ==> Complete(attempts[i])
    ensures p < |attempts| ==> !Complete(attempts[p])
    decreases |attempts|
  {
    if |attempts| == 0 || !Complete(attempts[0]) then 0 else 1 + LeadingComplete(attempts[1..])
  }

  /**
   * The leading complete attempts are the first complete attempts; when all
   * that follows them fails, they are the only ones.
   */
  lemma {:induction false} LeadingCompletes(attempts: seq<Attempt>)
    ensures LeadingComplete(attempts) <= |Completes(attempts)|
    ensures AllFail(attempts[LeadingComplete(attempts)..]) ==> |Completes(attempts)| == LeadingComplete(attempts)
    decreases |attempts|
  {
    var p := LeadingComplete(attempts);
    if |attempts| > 0 {
      if Complete(attempts[0]) {
        LeadingCompletes(attempts[1..]);
        assert attempts[1..][p - 1..] == attempts[p..];
      } else {
        assert attempts[p..] == attempts;
        if AllFail(attempts) {
          CompletesOfFailures(attempts);
        }
      }
    }
  }

  /**
   * What one corrected read consumes holds exactly one complete attempt, the
   * one it returns; a stalled read leaves no complete attempt behind.
   */
  lemma ReadConsumesOneComplete(attempts: seq<Attempt>)
    ensures ReadTempHumFixed(attempts).Returned? ==>
      Completes(attempts[..ReadTempHumFixed(attempts).used]) == [ReadTempHumFixed(attempts).value.value]
    ensures ReadTempHumFixed(attempts).Stalled? ==> Completes(attempts) == []
  {
    FixedReturnsFirstComplete(attempts);
    match ReadTempHumFixed(attempts)
    case Stalled =>
      CompletesOfFailures(attempts);
    case Returned(v, k) =>
      var before := attempts[..k - 1];
      assert attempts[..k] == before + [attempts[k - 1]];
      CompletesOfFailures(before);
      CompletesAppend(before, [attempts[k - 1]]);
      assert [attempts[k - 1]][1..] == [];
  }

  /** The attempts one corrected read consumes from `rest` add exactly its reading to the complete ones before. */
  lemma CompletesAfterRead(attempts: seq<Attempt>, used: nat, rest: seq<Attempt>)
    requires used <= |attempts| && rest == attempts[used..] && ReadTempHumFixed(rest).Returned?
    ensures used + ReadTempHumFixed(rest).used <= |attempts|
    ensures Completes(attempts[..used + ReadTempHumFixed(rest).used])
         == Completes(attempts[..used]) + [ReadTempHumFixed(rest).value.value]
  {
    var k := ReadTempHumFixed(rest).used;
    ReadConsumesOneComplete(rest);
    assert attempts[..used + k] == attempts[..used] + rest[..k];
    CompletesAppend(attempts[..used], rest[..k]);
  }

  /** A read that stalls on `rest` leaves no complete attempt after the point it started from. */
  lemma CompletesAfterStall(attempts: seq<Attempt>, used: nat, rest: seq<Attempt>)
    requires used <= |attempts| && rest == attempts[used..] && ReadTempHumFixed(rest).Stalled?
    ensures Completes(attempts) == Completes(attempts[..used])
  {
    ReadConsumesOneComplete(rest);
    assert attempts == attempts[..used] + rest;
    CompletesAppend(attempts[..used], rest);
  }

  /** The complete attempts of a prefix are a prefix of the complete attempts. */
  lemma CompletesPrefix(attempts: seq<Attempt>, used: nat)
    requires used <= |attempts|
    ensures |Completes(attempts[..used])| <= |Completes(attempts)|
    ensures Completes(attempts)[..|Completes(attempts[..used])|] == Completes(attempts[..used])
  {
    assert attempts == attempts[..used] + attempts[used..];
    CompletesAppend(attempts[..used], attempts[used..]);
  }
}
