/** The decision half of `run_scheduled_bookings`: for each entry of the
    schedule, whether a booking is due now, which other entries share its
    slot, and whether it is a swim or a class booking. */
module Scheduler {
  import opened Wrappers
  import opened Text
  import opened Schedule
  import opened Eligibility
  import opened Swim

  // ---------------------------------------------------------------------
  // Entries sharing a slot
  // ---------------------------------------------------------------------

  /** Same instructor, time and day: the comparison of the duplicate
      filter (the user is not compared). */
  predicate SameSlot(a: Entry, b: Entry) {
    a.instructor == b.instructor && a.time == b.time && a.day == b.day
  }

  /** The list comprehension collecting the entries of the schedule that
      share `entry`'s slot, in schedule order. */
  function Duplicates(schedule: seq<Entry>, entry: Entry): (r: seq<Entry>)
    ensures forall e :: e in r <==> e in schedule && SameSlot(e, entry)
    ensures |r| <= |schedule|
  {
    if schedule == [] then []
    else (if SameSlot(schedule[0], entry) then [schedule[0]] else []) + Duplicates(schedule[1..], entry)
  }

  /** An entry of the schedule is always among its own duplicates, since
      the filter compares it with itself; so the list is never empty. */
  lemma SelfDuplicate(schedule: seq<Entry>, entry: Entry)
    requires entry in schedule
    ensures entry in Duplicates(schedule, entry)
    ensures |Duplicates(schedule, entry)| >= 1
  {
  }

  /** Two positions holding entries of the slot make two duplicates. */
  lemma {:induction false} PairGivesTwo(schedule: seq<Entry>, entry: Entry, j: nat, k: nat)
    requires j < k < |schedule|
    requires SameSlot(schedule[j], entry) && SameSlot(schedule[k], entry)
    ensures |Duplicates(schedule, entry)| >= 2
  {
    var tail := schedule[1..];
    assert schedule[k] == tail[k - 1];
    if j == 0 {
      assert schedule[k] in Duplicates(tail, entry);
    } else {
      PairGivesTwo(tail, entry, j - 1, k - 1);
    }
  }

  /** Two duplicates come from two positions holding entries of the slot. */
  lemma {:induction false} TwoGivesPair(schedule: seq<Entry>, entry: Entry)
    requires |Duplicates(schedule, entry)| >= 2
    ensures exists j, k :: 0 <= j < k < |schedule| && SameSlot(schedule[j], entry) && SameSlot(schedule[k], entry)
  {
    var tail := schedule[1..];
    DuplicatesHead(schedule, entry);
    if SameSlot(schedule[0], entry) {
      var k := SlotIndex(tail, entry);
      HeadPair(schedule, entry, k);
    } else {
      TwoGivesPair(tail, entry);
      var j, k :| 0 <= j < k < |tail| && SameSlot(tail[j], entry) && SameSlot(tail[k], entry);
      ShiftPair(schedule, entry, j, k);
    }
  }

  /** The first position and one in the tail make a pair. */
  lemma HeadPair(schedule: seq<Entry>, entry: Entry, k: nat)
    requires schedule != [] && k < |schedule| - 1
    requires SameSlot(schedule[0], entry) && SameSlot(schedule[1..][k], entry)
    ensures exists j, k :: 0 <= j < k < |schedule| && SameSlot(schedule[j], entry) && SameSlot(schedule[k], entry)
  {
    assert schedule[k + 1] == schedule[1..][k];
  }

  /** A pair of positions in the tail is a pair in the whole schedule. */
  lemma ShiftPair(schedule: seq<Entry>, entry: Entry, j: nat, k: nat)
    requires schedule != [] && j < k < |schedule| - 1
    requires SameSlot(schedule[1..][j], entry) && SameSlot(schedule[1..][k], entry)
    ensures exists j, k :: 0 <= j < k < |schedule| && SameSlot(schedule[j], entry) && SameSlot(schedule[k], entry)
  {
    assert schedule[j + 1] == schedule[1..][j] && schedule[k + 1] == schedule[1..][k];
  }

  /** The filter counts the first entry, then filters the rest. */
  lemma DuplicatesHead(schedule: seq<Entry>, entry: Entry)
    requires schedule != []
    ensures |Duplicates(schedule, entry)| ==
      (if SameSlot(schedule[0], entry) then 1 else 0) + |Duplicates(schedule[1..], entry)|
  {
  }

  /** A position holding an entry of the slot, when there are duplicates. */
  lemma SlotIndex(schedule: seq<Entry>, entry: Entry) returns (k: nat)
    requires |Duplicates(schedule, entry)| >= 1
    ensures k < |schedule| && SameSlot(schedule[k], entry)
  {
    var e := Duplicates(schedule, entry)[0];
    assert e in Duplicates(schedule, entry);
    k :| 0 <= k < |schedule| && schedule[k] == e;
  }

  /** There are at least two duplicates exactly when two positions of the
      schedule hold entries of that slot. */
  lemma TwoDuplicates(schedule: seq<Entry>, entry: Entry)
    ensures |Duplicates(schedule, entry)| >= 2 <==>
      exists j, k :: 0 <= j < k < |schedule| && SameSlot(schedule[j], entry) && SameSlot(schedule[k], entry)
  {
    if |Duplicates(schedule, entry)| >= 2 {
      TwoGivesPair(schedule, entry);
    }
    if exists j, k :: 0 <= j < k < |schedule| && SameSlot(schedule[j], entry) && SameSlot(schedule[k], entry) {
      var j, k :| 0 <= j < k < |schedule| && SameSlot(schedule[j], entry) && SameSlot(schedule[k], entry);
      PairGivesTwo(schedule, entry, j, k);
    }
  }

  /** The conflict test `len(duplicate_entries) > 1` for the entry at
      position `i` holds exactly when another position holds an entry of
      the same slot. */
  lemma ConflictIff(schedule: seq<Entry>, i: nat)
    requires i < |schedule|
    ensures |Duplicates(schedule, schedule[i])| > 1 <==>
      exists j :: 0 <= j < |schedule| && j != i && SameSlot(schedule[j], schedule[i])
  {
    var x := schedule[i];
    if |Duplicates(schedule, x)| > 1 {
      TwoGivesPair(schedule, x);
      var j, k :| 0 <= j < k < |schedule| && SameSlot(schedule[j], x) && SameSlot(schedule[k], x);
      if j == i {
        assert k != i && SameSlot(schedule[k], x);
      } else {
        assert j != i && SameSlot(schedule[j], x);
      }
    }
    forall j | 0 <= j < |schedule| && j != i && SameSlot(schedule[j], x)
      ensures |Duplicates(schedule, x)| > 1
    {
      if j < i {
        PairGivesTwo(schedule, x, j, i);
      } else {
        PairGivesTwo(schedule, x, i, j);
      }
    }
  }

  /** The message test for a shared swim slot: case-sensitive, unlike the
      swim spec parser. */
  predicate IsSwimConflict(instructor: string) {
    StartsWith(instructor, "Swim(")
  }

  /** A lower-case swim spec is booked as a swim yet not reported as a
      shared swim slot. */
  lemma SwimConflictCaseSensitive()
    ensures ParseSwimInstructor("swim(30)") == Swim(30)
    ensures !IsSwimConflict("swim(30)")
  {
    assert "swim(30)"[..5][0] == 's';
    assert Decimal(30) == "30";
    assert "swim" + "(" + Decimal(30) + ")" == "swim(30)";
    CanonicalSpec("swim", 30);
  }

  // ---------------------------------------------------------------------
  // What is booked
  // ---------------------------------------------------------------------

  /** How other entries share the slot, as the log reports it. */
  datatype Sharing = Alone | SharedSwim | SharedClass

  /** A booking to be made on the target date: a swim lane of the given
      length, or a class with the given instructor. */
  datatype Booking =
    | SwimBooking(user: string, target: int, duration: int, time: string)
    | ClassBooking(user: string, target: int, instructor: string, time: string)

  datatype Attempt = Attempt(booking: Booking, sharing: Sharing)

  function SharingOf(schedule: seq<Entry>, entry: Entry): Sharing {
    if |Duplicates(schedule, entry)| > 1 then
      if IsSwimConflict(entry.instructor) then SharedSwim else SharedClass
    else Alone
  }

  /** The instructor field reads as a swim spec without raising; the loop's
      handler skips an entry on which it raises. */
  predicate SpecReadable(entry: Entry) {
    !ParseSwimInstructor(entry.instructor).TooManyDigits?
  }

  /** The booking an entry asks for on `target`, by its instructor field. */
  function BookingFor(entry: Entry, target: int): (b: Booking)
    requires SpecReadable(entry)
  {
    match ParseSwimInstructor(entry.instructor)
    case Swim(d) => SwimBooking(entry.user, target, d, entry.time)
    case _ => ClassBooking(entry.user, target, entry.instructor, entry.time)
  }

  /** Whether `entry` is due at `now`; an entry on which the check raises is
      skipped by the loop's handler. */
  predicate DueNow(entry: Entry, now: Instant) {
    IsBookingTime(entry, now).Some? && IsBookingTime(entry, now).value.ShouldBook()
  }

  /** The loop gets as far as the browser for `entry`: it is due, and its
      swim spec does not raise. */
  predicate Reached(entry: Entry, now: Instant) {
    DueNow(entry, now) && SpecReadable(entry)
  }

  function AttemptFor(schedule: seq<Entry>, entry: Entry, now: Instant): Attempt
    requires SpecReadable(entry)
  {
    Attempt(BookingFor(entry, now.day + DaysAhead), SharingOf(schedule, entry))
  }

  /** The attempts for `entries` (a prefix of the schedule), in order. */
  function Plan(schedule: seq<Entry>, entries: seq<Entry>, now: Instant): seq<Attempt> {
    if entries == [] then []
    else
      var last := entries[|entries| - 1];
      Plan(schedule, entries[..|entries| - 1], now) +
        (if Reached(last, now) then [AttemptFor(schedule, last, now)] else [])
  }

  /** The loop of `run_scheduled_bookings` up to the browser: each entry in
      schedule order is checked, and the due ones are turned into booking
      attempts. */
  method PlanBookings(schedule: seq<Entry>, now: Instant) returns (plan: seq<Attempt>)
    ensures plan == Plan(schedule, schedule, now)
  {
    plan := [];
    var i := 0;
    while i < |schedule|
      invariant 0 <= i <= |schedule|
      invariant plan == Plan(schedule, schedule[..i], now)
    {
      PlanStep(schedule, i, now);
      var attempt := CheckEntry(schedule, schedule[i], now);
      if attempt.Some? {
        plan := plan + [attempt.value];
      }
      i := i + 1;
    }
    assert schedule[..i] == schedule;
  }

  /** One turn of the loop: an entry that is not due, or on which the
      check or the swim spec parser raises, is skipped; any other due one
      gives an attempt. */
  method CheckEntry(schedule: seq<Entry>, entry: Entry, now: Instant) returns (attempt: Option<Attempt>)
    ensures attempt == if Reached(entry, now) then Some(AttemptFor(schedule, entry, now)) else None
  {
    var due, target := DueCheck(entry, now);
    if !due {
      return None;
    }
    attempt := DueAttempt(schedule, entry, target);
    AttemptOfReadable(schedule, entry, now, attempt);
  }

  /** The call to `_is_booking_time`, with a check that raises read as not
      due, as the caller's handler skips the entry. */
  method DueCheck(entry: Entry, now: Instant) returns (due: bool, target: int)
    ensures due == DueNow(entry, now)
    ensures target == now.day + DaysAhead
  {
    var check := IsBookingTime(entry, now);
    due := check.Some? && check.value.ShouldBook();
    target := now.day + DaysAhead;
    if check.Some? {
      target := check.value.target;
    }
  }

  lemma AttemptOfReadable(schedule: seq<Entry>, entry: Entry, now: Instant, attempt: Option<Attempt>)
    requires attempt == if SpecReadable(entry) then
      Some(Attempt(BookingFor(entry, now.day + DaysAhead), SharingOf(schedule, entry))) else None
    ensures attempt == if SpecReadable(entry) then Some(AttemptFor(schedule, entry, now)) else None
  {
  }

  /** The work for a due entry up to the browser: report whether others
      share the slot, then read the instructor field as a swim spec, which
      may raise. */
  method DueAttempt(schedule: seq<Entry>, entry: Entry, target: int) returns (attempt: Option<Attempt>)
    ensures attempt == if SpecReadable(entry) then Some(Attempt(BookingFor(entry, target), SharingOf(schedule, entry))) else None
  {
    var sharing := Alone;
    var duplicates := Duplicates(schedule, entry);
    if |duplicates| > 1 {
      sharing := if IsSwimConflict(entry.instructor) then SharedSwim else SharedClass;
    }
    var spec := ParseSwimInstructor(entry.instructor);
    if spec.TooManyDigits? {
      return None;
    }
    var booking;
    if spec.Swim? {
      booking := SwimBooking(entry.user, target, spec.duration, entry.time);
    } else {
      booking := ClassBooking(entry.user, target, entry.instructor, entry.time);
    }
    attempt := Some(Attempt(booking, sharing));
  }

  /** One more entry of the schedule adds its attempt, if the loop reaches
      the browser for it. */
  lemma PlanStep(schedule: seq<Entry>, i: nat, now: Instant)
    requires i < |schedule|
    ensures Plan(schedule, schedule[..i + 1], now) ==
      Plan(schedule, schedule[..i], now) + (if Reached(schedule[i], now) then [AttemptFor(schedule, schedule[i], now)] else [])
  {
    assert schedule[..i + 1][..i] == schedule[..i];
  }

  // ---------------------------------------------------------------------
  // Properties of the plan
  // ---------------------------------------------------------------------

  /** An attempt is made for an entry exactly when it is due and its swim
      spec reads: every such entry gets one, and every attempt belongs to
      such an entry. */
  lemma {:induction false} PlanExact(schedule: seq<Entry>, entries: seq<Entry>, now: Instant)
    ensures forall e :: e in entries && Reached(e, now) ==> AttemptFor(schedule, e, now) in Plan(schedule, entries, now)
    ensures forall a :: a in Plan(schedule, entries, now) ==>
      exists e :: e in entries && Reached(e, now) && a == AttemptFor(schedule, e, now)
    decreases |entries|
  {
    if entries != [] {
      var front := entries[..|entries| - 1];
      PlanExact(schedule, front, now);
      assert entries == front + [entries[|entries| - 1]];
    }
  }

  /** Never more attempts than entries. */
  lemma {:induction false} PlanLength(schedule: seq<Entry>, entries: seq<Entry>, now: Instant)
    ensures |Plan(schedule, entries, now)| <= |entries|
    decreases |entries|
  {
    if entries != [] {
      PlanLength(schedule, entries[..|entries| - 1], now);
    }
  }

  /** Every booking targets the day eight days on; a swim booking has a
      length of 15 or 30 minutes, and a class booking's instructor is not a
      usable swim spec. */
  lemma BookingShape(entry: Entry, now: Instant)
    requires SpecReadable(entry)
    ensures var b := BookingFor(entry, now.day + DaysAhead);
      && b.target == now.day + DaysAhead
      && b.user == entry.user && b.time == entry.time
      && (b.SwimBooking? ==> b.duration in SwimDurations && ParseSwimInstructor(entry.instructor) == Swim(b.duration))
      && (b.ClassBooking? ==> b.instructor == entry.instructor && !ParseSwimInstructor(entry.instructor).Swim?)
  {
  }

  /** Two positions holding the same slot mark each other as shared. */
  lemma SharedSlotMarked(schedule: seq<Entry>, i: nat, j: nat)
    requires i < |schedule| && j < |schedule| && i != j
    requires SameSlot(schedule[i], schedule[j])
    ensures SharingOf(schedule, schedule[i]) != Alone
  {
    ConflictIff(schedule, i);
    assert SameSlot(schedule[j], schedule[i]);
  }

  /** On a schedule whose times all read as clock times the check never
      raises, so the due entries are exactly those the due rule selects,
      and each of them whose swim spec reads is attempted. */
  lemma TimedPlan(schedule: seq<Entry>, now: Instant)
    requires forall e :: e in schedule ==> ParseClock(e.time).Some?
    ensures forall e :: e in schedule ==> (DueNow(e, now) <==> DueAt(e, now))
    ensures forall e :: e in schedule && DueAt(e, now) && SpecReadable(e) ==> AttemptFor(schedule, e, now) in Plan(schedule, schedule, now)
  {
    forall e | e in schedule
      ensures DueNow(e, now) <==> DueAt(e, now)
    {
      DueRule(e, now);
    }
    PlanExact(schedule, schedule, now);
  }

  /** ... which every parsed schedule is. */
  lemma ParsedPlan(content: string, now: Instant)
    ensures forall e :: e in ParseSchedule(content).schedule ==> ParseClock(e.time).Some?
    ensures forall e :: e in ParseSchedule(content).schedule ==> (DueNow(e, now) <==> DueAt(e, now))
  {
    var s := ParseSchedule(content).schedule;
    ParseScheduleValid(content);
    TimedPlan(s, now);
  }

  /** A swim spec whose duration has more digits than `int()` reads makes
      the parser raise for that entry: the loop's handler skips it, due or
      not, so by `PlanExact` it gets no attempt. */
  lemma OverlongSwimSkipped(entry: Entry, digits: string, now: Instant)
    requires AllDigits(digits) && |digits| > MaxStrDigits
    requires entry.instructor == "Swim" + "(" + digits + ")"
    ensures !Reached(entry, now)
  {
    assert Lower("Swim") == "swim";
    TooManyDigitsSpec("Swim", digits);
  }

  // ---------------------------------------------------------------------
  // Worked example
  // ---------------------------------------------------------------------

  /** The schedule `user,instructor,day_of_week,time` /
      `peter,Mari,saturday,08:15`, run at 08:16 eight days before a
      Saturday: one attempt, booking Peter into Mari's 08:15 class on that
      Saturday, with nobody else in the slot. */
  lemma BookingExample(now: Instant)
    requires SaturdayEve(now, 8, 16)
    ensures var schedule := ParseSchedule(ExampleHeader + "\n" + ExampleRow).schedule;
      Plan(schedule, schedule, now) == [Attempt(ClassBooking("peter", now.day + DaysAhead, "Mari", "08:15"), Alone)]
  {
    ParseExample();
    var schedule := [ExampleEntry];
    DueExample(now);
    ClassNameExample();
    assert SharingOf(schedule, ExampleEntry) == Alone by {
      assert |Duplicates(schedule, ExampleEntry)| <= 1;
    }
    assert schedule[..0] == [];
    assert Plan(schedule, schedule, now) == Plan(schedule, [], now) + [AttemptFor(schedule, ExampleEntry, now)];
  }
}
