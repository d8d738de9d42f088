/** `_infer_time_period` of `GymBookingBot`: the part of the day a class
    time falls in, which picks the timetable page a class is looked up
    on. */
module Period {
  import opened Wrappers
  import opened Text
  import opened Schedule

  datatype TimePeriod = Morning | Afternoon | Evening {
    /** The string the source returns. */
    function Label(): string {
      match this
      case Morning => "morning"
      case Afternoon => "afternoon"
      case Evening => "evening"
    }

    /** Position in the day. */
    function Rank(): nat {
      match this
      case Morning => 0
      case Afternoon => 1
      case Evening => 2
    }
  }

  /** Noon and 5 pm, the two boundaries. */
  const Noon: int := 12
  const FivePm: int := 17

  /** The hour is the text before the first `:` through `int()`. Where
      that raises, the bare `except` falls back to the morning. No range is
      checked: `-1:00` is a morning, `99:00` an evening. */
  function InferTimePeriod(time: string): (p: TimePeriod)
    ensures PyInt(SplitOn(time, ':')[0]).None? ==> p == Morning
  {
    match PyInt(SplitOn(time, ':')[0])
    case None => Morning
    case Some(hour) =>
      if hour < Noon then Morning
      else if hour < FivePm then Afternoon
      else Evening
  }

  /** For a time the parser accepted, the period is the hour's range:
      midnight to 11 the morning, 12 to 16 the afternoon, 17 to 23 the
      evening. */
  lemma PeriodOfValidTime(time: string)
    requires ParseClock(time).Some?
    ensures var h := ParseClock(time).value.0;
      && (InferTimePeriod(time) == Morning <==> 0 <= h < Noon)
      && (InferTimePeriod(time) == Afternoon <==> Noon <= h < FivePm)
      && (InferTimePeriod(time) == Evening <==> FivePm <= h <= 23)
  {
  }

  /** Later hours never fall in an earlier period. */
  lemma PeriodMonotone(a: string, b: string)
    requires ParseClock(a).Some? && ParseClock(b).Some?
    requires ParseClock(a).value.0 <= ParseClock(b).value.0
    ensures InferTimePeriod(a).Rank() <= InferTimePeriod(b).Rank()
  {
    PeriodOfValidTime(a);
    PeriodOfValidTime(b);
  }

  /** Only the hour matters: times with the same hour share a period. */
  lemma PeriodIgnoresMinutes(a: string, b: string)
    requires ParseClock(a).Some? && ParseClock(b).Some?
    requires ParseClock(a).value.0 == ParseClock(b).value.0
    ensures InferTimePeriod(a) == InferTimePeriod(b)
  {
    PeriodOfValidTime(a);
    PeriodOfValidTime(b);
  }
}
