/** The booking-eligibility decision, `_is_booking_time` of `GymBookingBot`:
    a class opens for booking eight days ahead, and the bot books when the
    current time falls in the fifteen minutes after the entry's time. */
module Eligibility {
  import opened Wrappers
  import opened Text
  import opened Schedule

  type Hour = h: int | 0 <= h <= 23
  type Minute = m: int | 0 <= m <= 59
  type Second = s: int | 0 <= s <= 59
  type Micro = u: int | 0 <= u <= 999999

  /** A local time: a day number (its weekday is `day % 7`, Monday being
      0, as Python's `date.weekday()` numbers days) and the time of day. */
  datatype Instant = Instant(day: int, hour: Hour, minute: Minute, second: Second, micro: Micro)

  /** How far ahead of the class the booking is made. */
  const DaysAhead: int := 8

  /** The width of the booking window, in minutes. */
  const Window: int := 15

  const MinutesPerDay: int := 1440

  /** What the check concludes; the last three are only reported in the
      log, and the caller books exactly on `Due`. */
  datatype State =
    | WrongWeekday
    | NotYet(minutesUntil: int)
    | Due
    | WindowClosed

  /** `(should_book, target_date)`, with the reason for a negative answer. */
  datatype BookingCheck = BookingCheck(state: State, target: int) {
    predicate ShouldBook() { state.Due? }
  }

  /** The name of a day's weekday. */
  function WeekdayName(day: int): string {
    DayNames[day % 7]
  }

  /** How the check reads an entry's time: the first two `:`-separated
      parts through `int()`; `None` where that raises (fewer than two
      parts, a part that is not an integer) or where `datetime.replace`
      refuses the hour or minute. Unlike the parser it ignores further
      parts. */
  function EntryClock(time: string): (r: Option<(Hour, Minute)>)
    ensures r.Some? ==> |SplitOn(time, ':')| >= 2
  {
    var parts := SplitOn(time, ':');
    if |parts| < 2 then None
    else
      var hour := PyInt(parts[0]);
      var minute := PyInt(parts[1]);
      if hour.Some? && minute.Some? && 0 <= hour.value <= 23 && 0 <= minute.value <= 59
      then Some((hour.value, minute.value))
      else None
  }

  /** The decision for `entry` at time `now`, or `None` where the source
      raises (the caller then skips the entry). The weekday is compared
      before the time is read, so a wrong-day entry never raises. */
  function IsBookingTime(entry: Entry, now: Instant): (r: Option<BookingCheck>)
    ensures r.Some? ==> r.value.target == now.day + DaysAhead
    ensures r.None? <==> WeekdayName(now.day + DaysAhead) == entry.day && EntryClock(entry.time).None?
    ensures r.Some? ==> (r.value.state.WrongWeekday? <==> WeekdayName(now.day + DaysAhead) != entry.day)
  {
    var target := now.day + DaysAhead;
    if WeekdayName(target) != entry.day then Some(BookingCheck(WrongWeekday, target))
    else match ClockState(entry.time, now.hour, now.minute)
      case None => None
      case Some(state) => Some(BookingCheck(state, target))
  }

  /** The time comparison on a matching weekday. Seconds are dropped, and
      both times lie on today's date, so their difference is a whole
      number of minutes. */
  function ClockState(time: string, hour: Hour, minute: Minute): (r: Option<State>)
    ensures r.None? <==> EntryClock(time).None?
  {
    var clock := EntryClock(time);
    if clock.None? then None
    else Some(Compare(clock.value.0 * 60 + clock.value.1, hour * 60 + minute))
  }

  /** Scheduled against current minute of the day. */
  function Compare(scheduled: int, current: int): (st: State)
    ensures st.Due? <==> 0 <= current - scheduled < Window
    ensures st.NotYet? <==> current < scheduled
  {
    if current >= scheduled then
      if current - scheduled < Window then Due else WindowClosed
    else NotYet(scheduled - current)
  }

  // ---------------------------------------------------------------------
  // Reference: the due rule on an absolute minute axis
  // ---------------------------------------------------------------------

  /** Minutes since day 0 at 00:00, seconds dropped. */
  function MinuteOf(t: Instant): int {
    t.day * MinutesPerDay + t.hour * 60 + t.minute
  }

  /** The entry's slot time on day `day`, on the same axis. */
  function SlotMoment(day: int, clock: (int, int)): int {
    day * MinutesPerDay + clock.0 * 60 + clock.1
  }

  /** The rule the bot keeps: book when the day eight days on is the
      entry's weekday and between zero and fourteen whole minutes have
      passed since the entry's time today. */
  predicate DueAt(entry: Entry, now: Instant)
    requires ParseClock(entry.time).Some?
  {
    && WeekdayName(now.day + DaysAhead) == entry.day
    && 0 <= MinuteOf(now) - SlotMoment(now.day, ParseClock(entry.time).value) < Window
  }

  // ---------------------------------------------------------------------
  // Properties
  // ---------------------------------------------------------------------

  /** The check reads a parsed time as the parser does. */
  lemma EntryClockAgrees(time: string)
    requires ParseClock(time).Some?
    ensures EntryClock(time) == Some(ParseClock(time).value)
  {
  }

  /** The check never raises on an entry the parser accepted. */
  lemma ValidEntryCheckable(entry: Entry, now: Instant)
    requires ValidEntry(entry)
    ensures IsBookingTime(entry, now).Some?
  {
    EntryClockAgrees(entry.time);
  }

  /** ... so it never raises on any entry of a parsed schedule. */
  lemma ParsedEntriesCheckable(content: string, now: Instant)
    ensures forall e :: e in ParseSchedule(content).schedule ==> IsBookingTime(e, now).Some?
  {
    ParseScheduleValid(content);
    forall e | e in ParseSchedule(content).schedule
      ensures IsBookingTime(e, now).Some?
    {
      ValidEntryCheckable(e, now);
    }
  }

  /** An entry is due exactly when the reference rule holds. */
  lemma DueRule(entry: Entry, now: Instant)
    requires ParseClock(entry.time).Some?
    ensures IsBookingTime(entry, now).Some?
    ensures IsBookingTime(entry, now).value.ShouldBook() <==> DueAt(entry, now)
  {
    EntryClockAgrees(entry.time);
  }

  /** The minute of the day of a parsed time. */
  function SlotMinute(time: string): int
    requires ParseClock(time).Some?
  {
    ParseClock(time).value.0 * 60 + ParseClock(time).value.1
  }

  /** On a matching weekday the decision is the comparison with the
      entry's time. */
  lemma MatchingDay(entry: Entry, now: Instant)
    requires ParseClock(entry.time).Some? && WeekdayName(now.day + DaysAhead) == entry.day
    ensures IsBookingTime(entry, now) ==
            Some(BookingCheck(Compare(SlotMinute(entry.time), now.hour * 60 + now.minute), now.day + DaysAhead))
  {
    ClockStateOfParsed(entry.time, now.hour, now.minute);
    var st := Compare(SlotMinute(entry.time), now.hour * 60 + now.minute);
    DecidedOnMatchingDay(entry, now, st);
  }

  lemma DecidedOnMatchingDay(entry: Entry, now: Instant, st: State)
    requires WeekdayName(now.day + DaysAhead) == entry.day
    requires ClockState(entry.time, now.hour, now.minute) == Some(st)
    ensures IsBookingTime(entry, now) == Some(BookingCheck(st, now.day + DaysAhead))
  {
  }

  lemma ClockStateOfParsed(time: string, hour: Hour, minute: Minute)
    requires ParseClock(time).Some?
    ensures ClockState(time, hour, minute) == Some(Compare(SlotMinute(time), hour * 60 + minute))
  {
    EntryClockAgrees(time);
    var c := ParseClock(time).value;
    ClockStateOfClock(time, hour, minute, c.0, c.1);
  }

  lemma ClockStateOfClock(time: string, hour: Hour, minute: Minute, h: int, m: int)
    requires EntryClock(time) == Some((h, m))
    ensures ClockState(time, hour, minute) == Some(Compare(h * 60 + m, hour * 60 + minute))
  {
  }

  /** The window's edges, for an entry whose weekday matches: at the
      slot's own minute T and at T + 14 the entry is due; at T - 1 and at
      T + 15 it is not. */
  lemma WindowEdges(entry: Entry, now: Instant)
    requires ValidEntry(entry) && WeekdayName(now.day + DaysAhead) == entry.day
    ensures var k := now.hour * 60 + now.minute - SlotMinute(entry.time);
      && (k == 0 || k == 14 ==> IsBookingTime(entry, now).value.ShouldBook())
      && (k == -1 || k == 15 ==> !IsBookingTime(entry, now).value.ShouldBook())
  {
    MatchingDay(entry, now);
  }

  /** The entry's weekday must match that of the day eight days on; for any
      other day of the week the entry is never due. */
  lemma WrongWeekdayNeverDue(entry: Entry, now: Instant)
    requires WeekdayName(now.day + DaysAhead) != entry.day
    ensures IsBookingTime(entry, now) == Some(BookingCheck(WrongWeekday, now.day + DaysAhead))
  {
  }

  /** Seconds and microseconds play no part. */
  lemma SecondsIgnored(entry: Entry, now: Instant, second: Second, micro: Micro)
    ensures IsBookingTime(entry, now.(second := second, micro := micro)) == IsBookingTime(entry, now)
  {
    var later := now.(second := second, micro := micro);
    assert later.day == now.day && later.hour == now.hour && later.minute == now.minute;
    if WeekdayName(now.day + DaysAhead) != entry.day {
      WrongWeekdayNeverDue(entry, now);
      WrongWeekdayNeverDue(entry, later);
    } else {
      match ClockState(entry.time, now.hour, now.minute)
      case None =>
        RaisesOnMatchingDay(entry, now);
        RaisesOnMatchingDay(entry, later);
      case Some(st) =>
        DecidedOnMatchingDay(entry, now, st);
        DecidedOnMatchingDay(entry, later, st);
    }
  }

  lemma RaisesOnMatchingDay(entry: Entry, now: Instant)
    requires WeekdayName(now.day + DaysAhead) == entry.day
    requires ClockState(entry.time, now.hour, now.minute).None?
    ensures IsBookingTime(entry, now).None?
  {
  }

  /** The decision repeats every week, the target moving on with it. */
  lemma Weekly(entry: Entry, now: Instant)
    ensures var later := IsBookingTime(entry, now.(day := now.day + 7));
      && (IsBookingTime(entry, now).Some? <==> later.Some?)
      && (later.Some? ==> later.value == IsBookingTime(entry, now).value.(target := now.day + 7 + DaysAhead))
  {
    assert WeekdayName(now.day + 7 + DaysAhead) == WeekdayName(now.day + DaysAhead) by {
      assert (now.day + 7 + DaysAhead) % 7 == (now.day + DaysAhead) % 7;
    }
  }

  /** One window per week: two due instants lie on days a whole number of
      weeks apart, and on the same day less than fifteen minutes apart.
      So a run every fifteen minutes books each entry once a week. */
  lemma OneWindowPerWeek(entry: Entry, a: Instant, b: Instant)
    requires ValidEntry(entry)
    requires IsBookingTime(entry, a).Some? && IsBookingTime(entry, a).value.ShouldBook()
    requires IsBookingTime(entry, b).Some? && IsBookingTime(entry, b).value.ShouldBook()
    ensures (a.day - b.day) % 7 == 0
    ensures a.day == b.day ==> -Window < MinuteOf(a) - MinuteOf(b) < Window
  {
    DueOnEntryWeekday(entry, a);
    DueOnEntryWeekday(entry, b);
    WeeksApart(a.day + DaysAhead, b.day + DaysAhead);
    if a.day == b.day {
      DueMinutes(entry, a);
      DueMinutes(entry, b);
    }
  }

  lemma DueOnEntryWeekday(entry: Entry, now: Instant)
    requires IsBookingTime(entry, now).Some? && IsBookingTime(entry, now).value.ShouldBook()
    ensures WeekdayName(now.day + DaysAhead) == entry.day
  {
  }

  lemma DueMinutes(entry: Entry, now: Instant)
    requires ParseClock(entry.time).Some?
    requires IsBookingTime(entry, now).Some? && IsBookingTime(entry, now).value.ShouldBook()
    ensures 0 <= now.hour * 60 + now.minute - SlotMinute(entry.time) < Window
  {
    DueOnEntryWeekday(entry, now);
    MatchingDay(entry, now);
  }

  lemma WeeksApart(x: int, y: int)
    requires WeekdayName(x) == WeekdayName(y)
    ensures (x - y) % 7 == 0
  {
    DayNamesDistinct(x % 7, y % 7);
    SameResidue(x, y);
  }

  lemma DayNamesDistinct(i: int, j: int)
    requires 0 <= i < 7 && 0 <= j < 7 && DayNames[i] == DayNames[j]
    ensures i == j
  {
  }

  lemma SameResidue(x: int, y: int)
    requires x % 7 == y % 7
    ensures (x - y) % 7 == 0
  {
    assert x == 7 * (x / 7) + x % 7;
    assert y == 7 * (y / 7) + y % 7;
    assert x - y == 7 * (x / 7 - y / 7);
  }

  // ---------------------------------------------------------------------
  // Worked examples
  // ---------------------------------------------------------------------

  /** The check reads only the first two parts of a time, so it reads
      `"8:00:99"`, which the parser refuses, as eight o'clock. */
  lemma EntryClockExtraPart()
    ensures EntryClock("8:00:99") == Some((8, 0))
    ensures ParseClock("8:00:99").None?
  {
    ExtraPartText();
    ThreeParts("8", "00", "99");
    ExtraPartDigits();
    ClockOfThree("8", "00", "99");
    ParseClockThreeParts();
  }

  lemma ExtraPartText()
    ensures "8" + [':'] + "00" + [':'] + "99" == "8:00:99"
    ensures ':' !in "8" && ':' !in "00" && ':' !in "99"
  {
  }

  lemma ExtraPartDigits()
    ensures PyInt("8") == Some(8) && PyInt("00") == Some(0)
  {
    assert DigitsValue("8") == 8 && DigitsValue("00") == 0;
    PyIntDigits("8");
    PyIntDigits("00");
  }

  /** The check reads the first two of three parts. */
  lemma ClockOfThree(a: string, b: string, c: string)
    requires SplitOn(a + [':'] + b + [':'] + c, ':') == [a, b, c]
    requires PyInt(a).Some? && PyInt(b).Some?
    requires 0 <= PyInt(a).value <= 23 && 0 <= PyInt(b).value <= 59
    ensures EntryClock(a + [':'] + b + [':'] + c) == Some((PyInt(a).value, PyInt(b).value))
  {
  }

  lemma ThreeParts(a: string, b: string, c: string)
    requires ':' !in a && ':' !in b && ':' !in c
    ensures SplitOn(a + [':'] + b + [':'] + c, ':') == [a, b, c]
  {
    assert a + [':'] + b + [':'] + c == a + [':'] + (b + [':'] + c);
    SplitPrefix(a, ':', b + [':'] + c);
    SplitPrefix(b, ':', c);
    SplitNoSep(c, ':');
  }

  /** An instant at `hour:minute` on a day eight days before a Saturday. */
  predicate SaturdayEve(now: Instant, hour: int, minute: int) {
    (now.day + DaysAhead) % 7 == 5 && now.hour == hour && now.minute == minute
  }

  /** `peter,Mari,saturday,08:15`: at 08:16, eight days before a Saturday,
      the entry is due for that Saturday. */
  lemma DueExample(now: Instant)
    requires SaturdayEve(now, 8, 16)
    ensures IsBookingTime(ExampleEntry, now) == Some(BookingCheck(Due, now.day + DaysAhead))
  {
    ExampleSlot(now);
    assert Compare(495, 496) == Due;
  }

  /** At 08:14 it is a minute early; at 08:30 the window has closed. */
  lemma NotDueExamples(early: Instant, late: Instant)
    requires SaturdayEve(early, 8, 14) && SaturdayEve(late, 8, 30)
    ensures IsBookingTime(ExampleEntry, early) == Some(BookingCheck(NotYet(1), early.day + DaysAhead))
    ensures IsBookingTime(ExampleEntry, late) == Some(BookingCheck(WindowClosed, late.day + DaysAhead))
  {
    ExampleSlot(early);
    ExampleSlot(late);
    assert Compare(495, 494) == NotYet(1);
    assert Compare(495, 510) == WindowClosed;
  }

  lemma ExampleSlot(now: Instant)
    requires (now.day + DaysAhead) % 7 == 5
    ensures IsBookingTime(ExampleEntry, now) ==
            Some(BookingCheck(Compare(495, now.hour * 60 + now.minute), now.day + DaysAhead))
  {
    ParseClockExample();
    assert WeekdayName(now.day + DaysAhead) == "saturday";
    assert SlotMinute(ExampleEntry.time) == 495;
    MatchingDay(ExampleEntry, now);
  }
}
