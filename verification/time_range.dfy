/** The two time validators that create and update call before writing.
    Their source is not part of this model: a time value is taken as what
    the validators read from the request, a second of the day, and the two
    checks are stated over that reading rather than over any text pattern. */
module TimeRange {

  import opened Wrappers

  /** Seconds in one day: a time of day is a second in [0, SecondsPerDay). */
  const SecondsPerDay: int := 86400

  /** A non-empty time field of a request body, as the validators read it:
      either a clock reading, given as its second of the day (possibly out of
      range, as a reading of "25:00" would be), or text that is not a clock
      reading at all. */
  datatype TimeValue = Unreadable | Clock(second: int)

  /** `validateTimeFormat` accepts the value. */
  predicate ValidTime(t: TimeValue)
  {
    t.Clock? && 0 <= t.second < SecondsPerDay
  }

  /** `validateEndTimeAfterStartTime` accepts the pair: both are readings of
      the same day and `end` is strictly later; there is no wrap-around past
      midnight. */
  predicate EndAfterStart(end: TimeValue, start: TimeValue)
  {
    end.Clock? && start.Clock? && start.second < end.second
  }

  /** Why the validators rejected a pair. */
  datatype ValidationFailure = InvalidFormat | InvalidRange

  /** The validator sequence of create and update: the format of the start,
      the format of the end, then the order of the two; the first check that
      fails decides the failure, and None means all three passed. */
  function ValidateTimes(start: TimeValue, end: TimeValue): (r: Option<ValidationFailure>)
    ensures r.None? <==> ValidTime(start) && ValidTime(end) && EndAfterStart(end, start)
    ensures r == Some(InvalidFormat) <==> !ValidTime(start) || !ValidTime(end)
    ensures r == Some(InvalidRange) <==>
              ValidTime(start) && ValidTime(end) && end.second <= start.second
    ensures r.None? ==> 0 <= start.second < end.second < SecondsPerDay
  {
    if !ValidTime(start) then Some(InvalidFormat)
    else if !ValidTime(end) then Some(InvalidFormat)
    else if !EndAfterStart(end, start) then Some(InvalidRange)
    else None
  }

  /** The validator sequence never accepts a pair with equal times, and
      when it accepts a pair it rejects the swapped pair as a range failure.
      Two accepted back-to-back intervals compose into an accepted one. */
  lemma ValidatorRejectsEqualOrSwapped(a: TimeValue, b: TimeValue, c: TimeValue)
    ensures ValidateTimes(a, a).Some?
    ensures ValidTime(a) ==> ValidateTimes(a, a) == Some(InvalidRange)
    ensures ValidateTimes(a, b).None? ==> ValidateTimes(b, a) == Some(InvalidRange)
    ensures ValidateTimes(a, b).None? && ValidateTimes(b, c).None? ==> ValidateTimes(a, c).None?
  {
  }

  /** Of two distinct well-formed times, the validator sequence accepts
      exactly one order. */
  lemma ValidatorAcceptsOneOrderOfDistinctTimes(a: TimeValue, b: TimeValue)
    requires ValidTime(a) && ValidTime(b) && a != b
    ensures ValidateTimes(a, b).None? <==> ValidateTimes(b, a) == Some(InvalidRange)
    ensures ValidateTimes(a, b).None? || ValidateTimes(b, a).None?
  {
  }
}
