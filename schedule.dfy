/** The schedule loader: `_parse_schedule_content` of `GymBookingBot`,
    which turns the text of the schedule CSV into validated entries. */
module Schedule {
  import opened Wrappers
  import opened Text

  /** The users the bot holds credentials for. */
  const Users: set<string> := {"peter", "adrienne", "lucy"}

  /** Day names, indexed like Python's `date.weekday()` (Monday is 0). */
  const DayNames: seq<string> :=
    ["monday", "tuesday", "wednesday", "thursday", "friday", "saturday", "sunday"]

  /** Minutes on the quarter hour; other minutes only draw a warning. */
  const Quarters: set<int> := {0, 15, 30, 45}

  /** Python's `csv.field_size_limit()` default: a longer field makes the
      CSV reader raise `csv.Error`. */
  const FieldSizeLimit: nat := 131072

  /** One accepted row of the schedule (the dictionary the parser appends). */
  datatype Entry = Entry(user: string, instructor: string, day: string, time: string, rowNum: int)

  /** What the parser prints, in order: a skipped row with the reason, a
      warning, the fatal CSV error, or the final count. */
  datatype Diagnostic =
    | EmptySchedule
    | RowError(rowNum: int)        // a short row: a field is None and strip() raises
    | IncompleteRow(rowNum: int)
    | InvalidUser(rowNum: int)
    | InvalidDay(rowNum: int)
    | InvalidTime(rowNum: int)
    | OffQuarterHour(rowNum: int)  // a warning: the row is still kept
    | ParseError                   // csv.Error: the whole parse returns []
    | Loaded(count: nat)

  // ---------------------------------------------------------------------
  // Time of day, "H:M"
  // ---------------------------------------------------------------------

  /** The time check of the parser: exactly two `:`-separated parts, both
      read by `int()`, hour in 0..23 and minute in 0..59. */
  function ParseClock(time: string): (r: Option<(int, int)>)
    ensures r.Some? ==> 0 <= r.value.0 <= 23 && 0 <= r.value.1 <= 59
    ensures r.Some? ==> |SplitOn(time, ':')| == 2 && ':' in time
  {
    var parts := SplitOn(time, ':');
    if |parts| != 2 then None
    else
      assert ':' in time by { JoinSplit(time, ':'); }
      var hour := PyInt(parts[0]);
      var minute := PyInt(parts[1]);
      if hour.Some? && minute.Some? && 0 <= hour.value <= 23 && 0 <= minute.value <= 59
      then Some((hour.value, minute.value))
      else None
  }

  /** What every entry the parser returns satisfies: a known user and day
      (so both are lower-case), a non-empty instructor, fields stripped of
      surrounding whitespace, and a time that reads as hour and minute in
      range. */
  predicate ValidEntry(e: Entry) {
    && e.user in Users
    && e.day in DayNames
    && e.instructor != [] && Trimmed(e.instructor)
    && e.time != [] && Trimmed(e.time)
    && ParseClock(e.time).Some?
  }

  // ---------------------------------------------------------------------
  // One row
  // ---------------------------------------------------------------------

  function LastIndexOf(xs: seq<string>, x: string): (k: nat)
    requires x in xs
    ensures k < |xs| && xs[k] == x
    ensures forall j :: k < j < |xs| ==> xs[j] != x
  {
    if xs[|xs| - 1] == x then |xs| - 1 else LastIndexOf(xs[..|xs| - 1], x)
  }

  /** `row.get(key, '')` on the dictionary `csv.DictReader` builds from a
      header and one row: `""` when the header lacks the key, the field
      under the key's last header column, or `None` when the row is too
      short to reach that column. */
  function FieldOf(header: seq<string>, fields: seq<string>, key: string): (r: Option<string>)
    ensures key !in header ==> r == Some([])
    ensures r.None? <==> key in header && |fields| <= LastIndexOf(header, key)
  {
    if key !in header then Some([])
    else
      var k := LastIndexOf(header, key);
      if k < |fields| then Some(fields[k]) else None
  }

  /** The four cleaned fields of a row (user and day also lower-cased),
      or `None` when one of them is missing from a short row. */
  function CleanedRow(header: seq<string>, line: string, rowNum: int): Option<Entry> {
    var fields := SplitOn(line, ',');
    var user := FieldOf(header, fields, "user");
    var instructor := FieldOf(header, fields, "instructor");
    var day := FieldOf(header, fields, "day_of_week");
    var time := FieldOf(header, fields, "time");
    if user.None? || instructor.None? || day.None? || time.None? then None
    else Some(Entry(Lower(Strip(user.value)), Strip(instructor.value), Lower(Strip(day.value)),
                    Strip(time.value), rowNum))
  }

  datatype RowOutcome =
    | Accepted(entry: Entry, offQuarter: bool)
    | Skipped(reason: Diagnostic)

  /** The body of the per-row `try` block: the checks in the source's order
      (missing field, empty field, user, day, time), the first that fails
      naming the reason the row is skipped. */
  function ClassifyRow(header: seq<string>, line: string, rowNum: int): RowOutcome {
    match CleanedRow(header, line, rowNum)
    case None => Skipped(RowError(rowNum))
    case Some(e) => ClassifyEntry(e)
  }

  /** The checks on the cleaned fields of a complete row. */
  function ClassifyEntry(e: Entry): RowOutcome {
    if e.user == [] || e.instructor == [] || e.day == [] || e.time == [] then Skipped(IncompleteRow(e.rowNum))
    else if e.user !in Users then Skipped(InvalidUser(e.rowNum))
    else if e.day !in DayNames then Skipped(InvalidDay(e.rowNum))
    else match ParseClock(e.time)
      case None => Skipped(InvalidTime(e.rowNum))
      case Some((_, m)) => Accepted(e, m !in Quarters)
  }

  /** An accepted row holds a valid entry: its own cleaned fields under its
      own row number. */
  lemma ClassifyRowSound(header: seq<string>, line: string, rowNum: int)
    ensures ClassifyRow(header, line, rowNum).Accepted? ==>
              && CleanedRow(header, line, rowNum).Some?
              && ClassifyRow(header, line, rowNum).entry == CleanedRow(header, line, rowNum).value
              && ValidEntry(ClassifyRow(header, line, rowNum).entry)
              && ClassifyRow(header, line, rowNum).entry.rowNum == rowNum
  {
    var c := CleanedRow(header, line, rowNum);
    if c.Some? {
      var fields := SplitOn(line, ',');
      StripSpec(FieldOf(header, fields, "instructor").value);
      StripSpec(FieldOf(header, fields, "time").value);
    }
  }

  /** Conversely, a row whose cleaned fields form a valid entry is accepted:
      these checks are the only reasons to skip a row. */
  lemma ClassifyRowComplete(header: seq<string>, line: string, rowNum: int)
    requires CleanedRow(header, line, rowNum).Some? && ValidEntry(CleanedRow(header, line, rowNum).value)
    ensures ClassifyRow(header, line, rowNum).Accepted?
  {
    EntryChecksPass(CleanedRow(header, line, rowNum).value);
  }

  lemma EntryChecksPass(e: Entry)
    requires ValidEntry(e)
    ensures ClassifyEntry(e).Accepted?
  {
    KnownNamesNonEmpty(e.user, e.day);
  }

  lemma KnownNamesNonEmpty(user: string, day: string)
    requires user in Users && day in DayNames
    ensures user != [] && day != []
  {
  }

  /** A minute off the quarter hour only sets the warning flag of an
      accepted row; it never causes a skip. */
  lemma ClassifyRowWarning(header: seq<string>, line: string, rowNum: int)
    ensures ClassifyRow(header, line, rowNum).Accepted? ==>
              (ClassifyRow(header, line, rowNum).offQuarter <==>
               ParseClock(ClassifyRow(header, line, rowNum).entry.time).value.1 !in Quarters)
  {
  }

  /** A skipped row is reported under its own row number with one of the
      five reasons, and as a row error exactly when it is too short to
      hold one of the four fields. */
  lemma ClassifyRowSkipped(header: seq<string>, line: string, rowNum: int)
    ensures ClassifyRow(header, line, rowNum).Skipped? ==>
              (ClassifyRow(header, line, rowNum).reason == RowError(rowNum) <==> CleanedRow(header, line, rowNum).None?)
    ensures ClassifyRow(header, line, rowNum).Skipped? ==>
              ClassifyRow(header, line, rowNum).reason in
                {RowError(rowNum), IncompleteRow(rowNum), InvalidUser(rowNum), InvalidDay(rowNum), InvalidTime(rowNum)}
  {
  }

  /** The lines on which Python's CSV reader raises `csv.Error` (quoting
      aside): a carriage return inside the line, or a field longer than
      the field size limit. */
  predicate CsvError(line: string) {
    '\r' in line || exists f :: f in SplitOn(line, ',') && |f| > FieldSizeLimit
  }

  // ---------------------------------------------------------------------
  // The whole text
  // ---------------------------------------------------------------------

  predicate KeptLine(line: string) {
    line != [] && line[0] != '#'
  }

  /** The first loop: every raw line stripped, the blank and `#` lines dropped. */
  function KeepLines(raw: seq<string>): seq<string> {
    if raw == [] then []
    else
      var line := Strip(raw[|raw| - 1]);
      KeepLines(raw[..|raw| - 1]) + (if KeptLine(line) then [line] else [])
  }

  /** The lines that reach the CSV reader. */
  function CleanLines(content: string): seq<string> {
    KeepLines(SplitOn(content, '\n'))
  }

  /** What reading one data row comes to: the CSV reader raises on it, or
      it is read and classified. */
  datatype LineOutcome = Unreadable | Read(outcome: RowOutcome)

  function ReadLine(header: seq<string>, line: string, rowNum: int): LineOutcome {
    if CsvError(line) then Unreadable else Read(ClassifyRow(header, line, rowNum))
  }

  /** The outcome of every data row; the k-th (from 0) is row number k + 2,
      as `enumerate(csv_reader, start=2)` numbers it. */
  function Outcomes(header: seq<string>, rows: seq<string>): (outs: seq<LineOutcome>)
    ensures |outs| == |rows|
    ensures forall k :: 0 <= k < |rows| ==> outs[k] == ReadLine(header, rows[k], k + 2)
  {
    seq(|rows|, k requires 0 <= k < |rows| => ReadLine(header, rows[k], k + 2))
  }

  /** The state of the row loop: entries so far, diagnostics so far, and
      whether the CSV reader has raised. */
  datatype Acc = Acc(entries: seq<Entry>, log: seq<Diagnostic>, aborted: bool)

  /** One turn of the row loop. After the reader has raised nothing more
      happens, and the entries collected so far are dropped (the outer
      handler returns `[]`). */
  function Step(acc: Acc, out: LineOutcome, rowNum: int): Acc {
    if acc.aborted then acc
    else match out
      case Unreadable => Acc([], acc.log + [ParseError], true)
      case Read(Accepted(e, off)) =>
        Acc(acc.entries + [e], acc.log + (if off then [OffQuarterHour(rowNum)] else []), false)
      case Read(Skipped(d)) => Acc(acc.entries, acc.log + [d], false)
  }

  /** The row loop over the outcomes of the data rows, in order. */
  function Fold(outs: seq<LineOutcome>): Acc {
    if outs == [] then Acc([], [], false)
    else Step(Fold(outs[..|outs| - 1]), outs[|outs| - 1], |outs| + 1)
  }

  datatype Parsed = Parsed(schedule: seq<Entry>, log: seq<Diagnostic>)

  /** What `_parse_schedule_content` returns and prints for `content`. */
  function ParseSchedule(content: string): Parsed {
    ParseLines(CleanLines(content))
  }

  /** What the parse comes to on the kept lines, the first being the
      header. */
  function ParseLines(lines: seq<string>): Parsed {
    if lines == [] then Parsed([], [EmptySchedule])
    else if CsvError(lines[0]) then Parsed([], [ParseError])
    else
      var acc := Fold(Outcomes(SplitOn(lines[0], ','), lines[1..]));
      if acc.aborted then Parsed([], acc.log)
      else Parsed(acc.entries, acc.log + [Loaded(|acc.entries|)])
  }

  /** The parser as the source writes it: a loop that collects the kept
      lines, then a loop over the data rows that skips bad rows with
      `continue`. */
  method ParseScheduleContent(content: string) returns (schedule: seq<Entry>, log: seq<Diagnostic>)
    ensures Parsed(schedule, log) == ParseSchedule(content)
    ensures CleanLines(content) == [] ==> schedule == [] && log == [EmptySchedule]
  {
    var lines := CollectLines(content);
    if lines == [] {
      return [], [EmptySchedule];
    }
    if CsvError(lines[0]) {
      return [], [ParseError];
    }
    var aborted;
    schedule, log, aborted := ReadRows(SplitOn(lines[0], ','), lines[1..]);
    if aborted {
      return [], log;
    }
    log := log + [Loaded(|schedule|)];
  }

  /** The first loop: strip every line, keep the non-blank, non-comment ones. */
  method CollectLines(content: string) returns (lines: seq<string>)
    ensures lines == CleanLines(content)
  {
    var raw := SplitOn(content, '\n');
    lines := [];
    var i := 0;
    while i < |raw|
      invariant 0 <= i <= |raw|
      invariant lines == KeepLines(raw[..i])
    {
      KeepLinesStep(raw, i);
      var line := Strip(raw[i]);
      if line != [] && line[0] != '#' {
        lines := lines + [line];
      }
      i := i + 1;
    }
    assert raw[..i] == raw;
  }

  /** The row loop, numbering rows from 2; it stops at the first row the
      CSV reader raises on, dropping the entries collected so far. */
  method ReadRows(header: seq<string>, rows: seq<string>) returns (schedule: seq<Entry>, log: seq<Diagnostic>, aborted: bool)
    ensures Acc(schedule, log, aborted) == Fold(Outcomes(header, rows))
  {
    ghost var outs := Outcomes(header, rows);
    schedule, log := [], [];
    var j := 0;
    while j < |rows|
      invariant 0 <= j <= |rows|
      invariant Fold(outs[..j]) == Acc(schedule, log, false)
    {
      var rowNum := j + 2;
      var out := ReadLine(header, rows[j], rowNum);
      assert out == outs[j];
      FoldStep(outs, j + 1);
      ghost var next := Step(Acc(schedule, log, false), out, rowNum);
      match out {
        case Unreadable =>
          AbortSticks(outs, j + 1);
          return [], log + [ParseError], true;
        case Read(Skipped(reason)) =>
          log := log + [reason];
        case Read(Accepted(entry, offQuarter)) =>
          if offQuarter {
            log := log + [OffQuarterHour(rowNum)];
          }
          schedule := schedule + [entry];
      }
      assert next == Acc(schedule, log, false);
      j := j + 1;
    }
    assert outs[..j] == outs;
    aborted := false;
  }

  lemma KeepLinesStep(raw: seq<string>, i: nat)
    requires i < |raw|
    ensures KeepLines(raw[..i + 1]) ==
      KeepLines(raw[..i]) + (if KeptLine(Strip(raw[i])) then [Strip(raw[i])] else [])
  {
    assert raw[..i + 1][..i] == raw[..i];
  }

  lemma FoldStep(outs: seq<LineOutcome>, j: nat)
    requires 1 <= j <= |outs|
    ensures Fold(outs[..j]) == Step(Fold(outs[..j - 1]), outs[j - 1], j + 1)
  {
    assert outs[..j][..j - 1] == outs[..j - 1];
  }

  /** Once the CSV reader has raised, later rows change nothing. */
  lemma {:induction false} AbortSticks(outs: seq<LineOutcome>, k: nat)
    requires k <= |outs| && Fold(outs[..k]).aborted
    ensures Fold(outs) == Fold(outs[..k])
    decreases |outs|
  {
    if k < |outs| {
      assert outs[..|outs| - 1][..k] == outs[..k];
      AbortSticks(outs[..|outs| - 1], k);
    } else {
      assert outs[..k] == outs;
    }
  }

  // ---------------------------------------------------------------------
  // Properties of the row loop
  // ---------------------------------------------------------------------

  /** Every accepted outcome carries its own row number. */
  predicate Numbered(outs: seq<LineOutcome>) {
    forall k :: 0 <= k < |outs| && outs[k].Read? && outs[k].outcome.Accepted? ==>
      outs[k].outcome.entry.rowNum == k + 2
  }

  /** Every entry the loop keeps is the entry of the accepted outcome its
      row number names, and an aborted loop keeps nothing. */
  lemma {:induction false} FoldSound(outs: seq<LineOutcome>)
    requires Numbered(outs)
    ensures forall i :: 0 <= i < |Fold(outs).entries| ==>
      && 2 <= Fold(outs).entries[i].rowNum <= |outs| + 1
      && outs[Fold(outs).entries[i].rowNum - 2].Read?
      && outs[Fold(outs).entries[i].rowNum - 2].outcome.Accepted?
      && outs[Fold(outs).entries[i].rowNum - 2].outcome.entry == Fold(outs).entries[i]
    ensures Fold(outs).aborted ==> Fold(outs).entries == []
    decreases |outs|
  {
    if outs != [] {
      var n := |outs|;
      var front := outs[..n - 1];
      assert forall k :: 0 <= k < n - 1 ==> front[k] == outs[k];
      FoldSound(front);
      var prev := Fold(front);
      var acc := Fold(outs);
      if !prev.aborted && outs[n - 1].Read? && outs[n - 1].outcome.Accepted? {
        assert acc.entries == prev.entries + [outs[n - 1].outcome.entry];
        forall i | 0 <= i < |acc.entries|
          ensures 2 <= acc.entries[i].rowNum <= n + 1
          ensures outs[acc.entries[i].rowNum - 2].Read? && outs[acc.entries[i].rowNum - 2].outcome.Accepted?
          ensures outs[acc.entries[i].rowNum - 2].outcome.entry == acc.entries[i]
        {
          if i < |prev.entries| {
            assert acc.entries[i] == prev.entries[i];
            assert 2 <= prev.entries[i].rowNum <= n;
            assert front[prev.entries[i].rowNum - 2] == outs[prev.entries[i].rowNum - 2];
          } else {
            assert acc.entries[i] == outs[n - 1].outcome.entry;
            assert outs[n - 1].outcome.entry.rowNum == n + 1;
          }
        }
      } else if !prev.aborted && outs[n - 1].Read? {
        assert acc.entries == prev.entries;
      }
    }
  }

  /** The entries come in increasing row-number order, that is, in input
      order. */
  lemma {:induction false} FoldOrdered(outs: seq<LineOutcome>)
    requires Numbered(outs)
    ensures forall i, j :: 0 <= i < j < |Fold(outs).entries| ==>
      Fold(outs).entries[i].rowNum < Fold(outs).entries[j].rowNum
    decreases |outs|
  {
    if outs != [] {
      var n := |outs|;
      var front := outs[..n - 1];
      assert forall k :: 0 <= k < n - 1 ==> front[k] == outs[k];
      FoldOrdered(front);
      FoldSound(front);
      var prev := Fold(front);
      var acc := Fold(outs);
      assert acc == Step(prev, outs[n - 1], n + 1);
      assert forall i, j :: 0 <= i < j < |prev.entries| ==> prev.entries[i].rowNum < prev.entries[j].rowNum;
      assert forall i :: 0 <= i < |prev.entries| ==> prev.entries[i].rowNum <= n;
      if !prev.aborted && outs[n - 1].Read? && outs[n - 1].outcome.Accepted? {
        var e := outs[n - 1].outcome.entry;
        assert acc.entries == prev.entries + [e];
        assert e.rowNum == n + 1;
        forall i, j | 0 <= i < j < |acc.entries|
          ensures acc.entries[i].rowNum < acc.entries[j].rowNum
        {
          assert acc.entries[i] == prev.entries[i];
          if j < |prev.entries| {
            assert acc.entries[j] == prev.entries[j];
          } else {
            assert acc.entries[j] == e;
            assert prev.entries[i].rowNum <= n;
          }
        }
      } else if prev.aborted || outs[n - 1].Unreadable? {
        assert acc.entries == prev.entries || acc.entries == [];
      } else {
        assert acc.entries == prev.entries;
      }
    }
  }

  /** The loop keeps only entries that some outcome accepted. */
  lemma {:induction false} FoldValid(outs: seq<LineOutcome>)
    requires forall k :: 0 <= k < |outs| && outs[k].Read? && outs[k].outcome.Accepted? ==>
      ValidEntry(outs[k].outcome.entry)
    ensures forall e :: e in Fold(outs).entries ==> ValidEntry(e)
    decreases |outs|
  {
    if outs != [] {
      var n := |outs|;
      var front := outs[..n - 1];
      assert forall k :: 0 <= k < n - 1 ==> front[k] == outs[k];
      FoldValid(front);
    }
  }

  /** The loop aborts exactly when some row is unreadable, and then (as long
      as no classification reports a CSV error, which none does) exactly
      when the log holds a CSV error. */
  lemma {:induction false} FoldAborted(outs: seq<LineOutcome>)
    requires forall k :: 0 <= k < |outs| && outs[k].Read? && outs[k].outcome.Skipped? ==>
      outs[k].outcome.reason != ParseError
    ensures Fold(outs).aborted <==> exists k :: 0 <= k < |outs| && outs[k].Unreadable?
    ensures Fold(outs).aborted <==> ParseError in Fold(outs).log
    decreases |outs|
  {
    if outs != [] {
      var n := |outs|;
      var front := outs[..n - 1];
      assert forall k :: 0 <= k < n - 1 ==> front[k] == outs[k];
      FoldAborted(front);
    }
  }

  /** When no row aborts the loop, every row leaves its mark: an accepted
      row's entry is kept (with a warning logged when its minute is off the
      quarter hour), and a skipped row's reason is logged. A bad row thus
      never stops later rows from being read. */
  lemma {:induction false} FoldComplete(outs: seq<LineOutcome>)
    requires !Fold(outs).aborted
    ensures var acc := Fold(outs);
      forall k :: 0 <= k < |outs| ==>
        && (outs[k].Read? && outs[k].outcome.Accepted? ==> outs[k].outcome.entry in acc.entries)
        && (outs[k].Read? && outs[k].outcome.Accepted? && outs[k].outcome.offQuarter ==>
              OffQuarterHour(k + 2) in acc.log)
        && (outs[k].Read? && outs[k].outcome.Skipped? ==> outs[k].outcome.reason in acc.log)
    decreases |outs|
  {
    if outs != [] {
      var n := |outs|;
      var front := outs[..n - 1];
      FoldComplete(front);
      assert forall k :: 0 <= k < n - 1 ==> front[k] == outs[k];
    }
  }

  /** What the classification promises each row, stated for the outcome
      sequence: accepted entries carry their row numbers, ... */
  lemma OutcomesNumbered(header: seq<string>, rows: seq<string>)
    ensures Numbered(Outcomes(header, rows))
  {
    forall k | 0 <= k < |rows|
      ensures var o := ClassifyRow(header, rows[k], k + 2);
        o.Accepted? ==> o.entry.rowNum == k + 2
    {
      ClassifyRowSound(header, rows[k], k + 2);
    }
  }

  /** ... accepted entries are valid, ... */
  lemma OutcomesValid(header: seq<string>, rows: seq<string>)
    ensures forall k :: 0 <= k < |rows| && Outcomes(header, rows)[k].Read? && Outcomes(header, rows)[k].outcome.Accepted? ==>
      ValidEntry(Outcomes(header, rows)[k].outcome.entry)
  {
    forall k | 0 <= k < |rows|
      ensures var o := ClassifyRow(header, rows[k], k + 2);
        o.Accepted? ==> ValidEntry(o.entry)
    {
      ClassifyRowSound(header, rows[k], k + 2);
    }
  }

  /** ... and no skip reason is a CSV error. */
  lemma OutcomesNoParseError(header: seq<string>, rows: seq<string>)
    ensures forall k :: 0 <= k < |rows| && Outcomes(header, rows)[k].Read? && Outcomes(header, rows)[k].outcome.Skipped? ==>
      Outcomes(header, rows)[k].outcome.reason != ParseError
  {
    forall k | 0 <= k < |rows|
      ensures var o := ClassifyRow(header, rows[k], k + 2);
        o.Skipped? ==> o.reason != ParseError
    {
      ClassifyRowSkipped(header, rows[k], k + 2);
    }
  }

  // ---------------------------------------------------------------------
  // Properties of the whole parse
  // ---------------------------------------------------------------------

  /** The first loop only passes on lines that are neither blank nor
      comments, already stripped; and it passes on every such line of the
      text. */
  lemma {:induction false} KeepLinesSpec(raw: seq<string>)
    ensures forall l :: l in KeepLines(raw) ==> KeptLine(l) && Trimmed(l)
    ensures forall l :: l in KeepLines(raw) <==> exists r :: r in raw && Strip(r) == l && KeptLine(l)
    decreases |raw|
  {
    if raw != [] {
      var front := raw[..|raw| - 1];
      KeepLinesSpec(front);
      StripSpec(raw[|raw| - 1]);
      assert raw == front + [raw[|raw| - 1]];
    }
  }

  lemma CleanLinesSpec(content: string)
    ensures forall l :: l in CleanLines(content) ==> KeptLine(l) && Trimmed(l)
    ensures forall l :: l in CleanLines(content) <==>
      exists r :: r in SplitOn(content, '\n') && Strip(r) == l && KeptLine(l)
  {
    KeepLinesSpec(SplitOn(content, '\n'));
  }

  /** Every entry the parser returns is valid: a known user and day,
      stripped and lower-cased; a non-empty stripped instructor; a stripped
      time whose hour and minute are in range. */
  lemma ParseScheduleValid(content: string)
    ensures forall e :: e in ParseSchedule(content).schedule ==> ValidEntry(e)
  {
    LinesValid(CleanLines(content));
  }

  lemma LinesValid(lines: seq<string>)
    ensures forall e :: e in ParseLines(lines).schedule ==> ValidEntry(e)
  {
    if lines != [] && !CsvError(lines[0]) {
      var header := SplitOn(lines[0], ',');
      OutcomesValid(header, lines[1..]);
      FoldValid(Outcomes(header, lines[1..]));
    }
  }

  /** The entries of a parse are those of the row loop over the data rows,
      unless the loop aborted or there were no rows to read. */
  lemma LinesEntries(lines: seq<string>)
    ensures var p := ParseLines(lines);
      if lines == [] || CsvError(lines[0]) then p.schedule == []
      else
        var acc := Fold(Outcomes(SplitOn(lines[0], ','), lines[1..]));
        p.schedule == if acc.aborted then [] else acc.entries
  {
  }

  /** Kept line n - 1 is data row number n. */
  lemma OutcomeOfLine(header: seq<string>, lines: seq<string>, n: int)
    requires 2 <= n <= |lines|
    ensures Outcomes(header, lines[1..])[n - 2] == ReadLine(header, lines[n - 1], n)
  {
    assert lines[1..][n - 2] == lines[n - 1];
  }

  /** `e` is what kept line `e.rowNum - 1` classifies as, under the
      header `lines[0]`. */
  predicate FromRow(lines: seq<string>, e: Entry) {
    && 2 <= e.rowNum <= |lines|
    && ClassifyRow(SplitOn(lines[0], ','), lines[e.rowNum - 1], e.rowNum).Accepted?
    && ClassifyRow(SplitOn(lines[0], ','), lines[e.rowNum - 1], e.rowNum).entry == e
  }

  /** The row loop keeps, for each entry, exactly what its own row
      classifies as. */
  lemma RowsOrigin(lines: seq<string>)
    requires lines != []
    ensures forall e :: e in Fold(Outcomes(SplitOn(lines[0], ','), lines[1..])).entries ==> FromRow(lines, e)
  {
    var header := SplitOn(lines[0], ',');
    var outs := Outcomes(header, lines[1..]);
    OutcomesNumbered(header, lines[1..]);
    FoldSound(outs);
    var entries := Fold(outs).entries;
    forall e | e in entries
      ensures FromRow(lines, e)
    {
      var i :| 0 <= i < |entries| && entries[i] == e;
      OutcomeOfLine(header, lines, e.rowNum);
    }
  }

  /** Every entry the parser returns is what the kept line its row number
      names (kept line number n - 1, counting the header as 0) classifies
      as; so its fields are that row's cleaned fields. */
  lemma ParseScheduleOrigin(content: string)
    ensures forall e :: e in ParseSchedule(content).schedule ==> FromRow(CleanLines(content), e)
  {
    LinesOrigin(CleanLines(content));
  }

  lemma LinesOrigin(lines: seq<string>)
    ensures forall e :: e in ParseLines(lines).schedule ==> FromRow(lines, e)
  {
    LinesEntries(lines);
    if lines != [] && !CsvError(lines[0]) {
      RowsOrigin(lines);
    }
  }

  /** The parser returns its entries in input order. */
  lemma ParseScheduleOrdered(content: string)
    ensures var p := ParseSchedule(content);
      forall i, j :: 0 <= i < j < |p.schedule| ==> p.schedule[i].rowNum < p.schedule[j].rowNum
  {
    LinesOrdered(CleanLines(content));
  }

  lemma LinesOrdered(lines: seq<string>)
    ensures var p := ParseLines(lines);
      forall i, j :: 0 <= i < j < |p.schedule| ==> p.schedule[i].rowNum < p.schedule[j].rowNum
  {
    LinesEntries(lines);
    if lines != [] && !CsvError(lines[0]) {
      RowsOrdered(SplitOn(lines[0], ','), lines[1..]);
    }
  }

  lemma RowsOrdered(header: seq<string>, rows: seq<string>)
    ensures forall i, j :: 0 <= i < j < |Fold(Outcomes(header, rows)).entries| ==>
      Fold(Outcomes(header, rows)).entries[i].rowNum < Fold(Outcomes(header, rows)).entries[j].rowNum
  {
    OutcomesNumbered(header, rows);
    FoldOrdered(Outcomes(header, rows));
  }

  /** When every kept line can be read as CSV, no row is lost: each data row
      (the k-th kept line, numbered k + 1) that classifies as accepted has
      its entry in the result, a warning is logged for each such row off the
      quarter hour, and a reason is logged for each row skipped. */
  lemma ParseScheduleComplete(content: string)
    requires forall l :: l in CleanLines(content) ==> !CsvError(l)
    ensures var lines := CleanLines(content);
      var p := ParseSchedule(content);
      forall k :: 1 <= k < |lines| ==>
        var o := ClassifyRow(SplitOn(lines[0], ','), lines[k], k + 1);
        && (o.Accepted? ==> o.entry in p.schedule)
        && (o.Accepted? && o.offQuarter ==> OffQuarterHour(k + 1) in p.log)
        && (o.Skipped? ==> o.reason in p.log)
  {
    LinesComplete(CleanLines(content));
  }

  lemma LinesComplete(lines: seq<string>)
    requires forall l :: l in lines ==> !CsvError(l)
    ensures var p := ParseLines(lines);
      forall k :: 1 <= k < |lines| ==>
        var o := ClassifyRow(SplitOn(lines[0], ','), lines[k], k + 1);
        && (o.Accepted? ==> o.entry in p.schedule)
        && (o.Accepted? && o.offQuarter ==> OffQuarterHour(k + 1) in p.log)
        && (o.Skipped? ==> o.reason in p.log)
  {
    if lines != [] {
      var header := SplitOn(lines[0], ',');
      var outs := Outcomes(header, lines[1..]);
      assert lines[0] in lines;
      RowsReadable(header, lines);
      FoldComplete(outs);
      forall k | 1 <= k < |lines|
        ensures outs[k - 1] == Read(ClassifyRow(header, lines[k], k + 1))
      {
        OutcomeOfLine(header, lines, k + 1);
        assert lines[k] in lines;
      }
    }
  }

  /** No data row of CSV-readable lines aborts the row loop. */
  lemma RowsReadable(header: seq<string>, lines: seq<string>)
    requires lines != [] && forall l :: l in lines ==> !CsvError(l)
    ensures !Fold(Outcomes(header, lines[1..])).aborted
  {
    var rows := lines[1..];
    OutcomesNoParseError(header, rows);
    FoldAborted(Outcomes(header, rows));
    forall k | 0 <= k < |rows|
      ensures !CsvError(rows[k])
    {
      assert rows[k] == lines[k + 1];
      assert lines[k + 1] in lines;
    }
  }

  /** The parse gives up, returning no entries, exactly when a kept line
      cannot be read as CSV; this is the one way a single line stops the
      whole parse. */
  lemma ParseScheduleAborts(content: string)
    ensures ParseError in ParseSchedule(content).log <==> exists l :: l in CleanLines(content) && CsvError(l)
    ensures ParseError in ParseSchedule(content).log ==> ParseSchedule(content).schedule == []
  {
    LinesAbort(CleanLines(content));
  }

  lemma LinesAbort(lines: seq<string>)
    ensures ParseError in ParseLines(lines).log <==> exists l :: l in lines && CsvError(l)
    ensures ParseError in ParseLines(lines).log ==> ParseLines(lines).schedule == []
  {
    if lines != [] && !CsvError(lines[0]) {
      RowsAbort(lines);
      var acc := Fold(Outcomes(SplitOn(lines[0], ','), lines[1..]));
      if !acc.aborted {
        assert ParseLines(lines).log == acc.log + [Loaded(|acc.entries|)];
      }
    }
  }

  /** Under a readable header, the row loop aborts exactly when a later
      kept line cannot be read, and exactly then logs a CSV error. */
  lemma RowsAbort(lines: seq<string>)
    requires lines != [] && !CsvError(lines[0])
    ensures var acc := Fold(Outcomes(SplitOn(lines[0], ','), lines[1..]));
      && (acc.aborted <==> exists l :: l in lines && CsvError(l))
      && (acc.aborted <==> ParseError in acc.log)
  {
    var header := SplitOn(lines[0], ',');
    var rows := lines[1..];
    OutcomesNoParseError(header, rows);
    FoldAborted(Outcomes(header, rows));
    UnreadableRows(header, rows);
    UnreadableAfterHeader(lines);
  }

  /** With a readable header, an unreadable kept line is a data row. */
  lemma UnreadableAfterHeader(lines: seq<string>)
    requires lines != [] && !CsvError(lines[0])
    ensures (exists l :: l in lines && CsvError(l)) <==> (exists l :: l in lines[1..] && CsvError(l))
  {
    if exists l :: l in lines && CsvError(l) {
      var l :| l in lines && CsvError(l);
      var k :| 0 <= k < |lines| && lines[k] == l;
      assert lines[1..][k - 1] == l;
    }
    if exists l :: l in lines[1..] && CsvError(l) {
      var l :| l in lines[1..] && CsvError(l);
      var k :| 0 <= k < |lines| - 1 && lines[1..][k] == l;
      assert lines[k + 1] == l;
    }
  }

  /** A data row is unreadable exactly when the CSV reader raises on it. */
  lemma UnreadableRows(header: seq<string>, rows: seq<string>)
    ensures (exists k :: 0 <= k < |Outcomes(header, rows)| && Outcomes(header, rows)[k].Unreadable?) <==>
      exists l :: l in rows && CsvError(l)
  {
    var outs := Outcomes(header, rows);
    if exists l :: l in rows && CsvError(l) {
      var l :| l in rows && CsvError(l);
      var k :| 0 <= k < |rows| && rows[k] == l;
      assert outs[k].Unreadable?;
    }
  }

  // ---------------------------------------------------------------------
  // Worked examples
  // ---------------------------------------------------------------------

  /** Two digit runs around a `:` read as hour and minute, when in range. */
  lemma ClockOfDigits(h: string, m: string)
    requires AllDigits(h) && h != [] && |h| <= MaxStrDigits
    requires AllDigits(m) && m != [] && |m| <= MaxStrDigits
    requires DigitsValue(h) <= 23 && DigitsValue(m) <= 59
    ensures ParseClock(h + [':'] + m) == Some((DigitsValue(h), DigitsValue(m)))
  {
    assert ':' !in h && ':' !in m by {
      assert forall i :: 0 <= i < |h| ==> IsDigit(h[i]);
      assert forall i :: 0 <= i < |m| ==> IsDigit(m[i]);
    }
    SplitPrefix(h, ':', m);
    SplitNoSep(m, ':');
    PyIntDigits(h);
    PyIntDigits(m);
  }

  /** `"08:15"` reads as quarter past eight, the leading zero included. */
  lemma ParseClockExample()
    ensures ParseClock("08:15") == Some((8, 15))
  {
    ExampleClockDigits();
    ClockOfDigits("08", "15");
    ExampleClockText();
  }

  lemma ExampleClockDigits()
    ensures AllDigits("08") && DigitsValue("08") == 8
    ensures AllDigits("15") && DigitsValue("15") == 15
  {
  }

  lemma ExampleClockText()
    ensures "08" + [':'] + "15" == "08:15"
  {
  }

  /** No leading zeros are needed: `"8:5"` is five past eight, although
      the message for a refused time asks for `HH:MM`. */
  lemma ParseClockUnpadded()
    ensures ParseClock("8:5") == Some((8, 5))
  {
    assert DigitsValue("8") == 8 && DigitsValue("5") == 5;
    ClockOfDigits("8", "5");
    assert "8" + [':'] + "5" == "8:5";
  }

  /** A time with a seconds part is refused, although the eligibility check
      would read it. */
  lemma ParseClockThreeParts()
    ensures ParseClock("8:00:99").None?
  {
    assert "8:00:99" == "8" + [':'] + ("00" + [':'] + "99");
    assert "00:99" == "00" + [':'] + "99";
    SplitPrefix("8", ':', "00:99");
    SplitPrefix("00", ':', "99");
    SplitNoSep("99", ':');
  }

  /** A file separator before the minutes survives the field's `strip()`
      inside the text, and `int()` does not skip it, so the time is
      refused. */
  lemma ParseClockSeparator()
    ensures ParseClock("8:\U{1C}15").None?
  {
    assert "8:\U{1C}15" == "8" + [':'] + "\U{1C}15";
    SplitPrefix("8", ':', "\U{1C}15");
    SplitNoSep("\U{1C}15", ':');
    SeparatorNotSkipped();
  }

  /** The header the schedule file uses. */
  const StandardHeader: seq<string> := ["user", "instructor", "day_of_week", "time"]

  /** A row of four comma-free fields. */
  function FourFields(a: string, b: string, c: string, d: string): string {
    a + [','] + b + [','] + c + [','] + d
  }

  lemma SplitFourFields(a: string, b: string, c: string, d: string)
    requires ',' !in a && ',' !in b && ',' !in c && ',' !in d
    ensures SplitOn(FourFields(a, b, c, d), ',') == [a, b, c, d]
  {
    assert FourFields(a, b, c, d) == a + [','] + (b + [','] + (c + [','] + d));
    SplitPrefix(a, ',', b + [','] + (c + [','] + d));
    SplitPrefix(b, ',', c + [','] + d);
    SplitPrefix(c, ',', d);
    SplitNoSep(d, ',');
  }

  /** Under the standard header, the four fields of a row are its user,
      instructor, day and time, in that order. */
  lemma StandardFields(fields: seq<string>)
    requires |fields| == 4
    ensures FieldOf(StandardHeader, fields, "user") == Some(fields[0])
    ensures FieldOf(StandardHeader, fields, "instructor") == Some(fields[1])
    ensures FieldOf(StandardHeader, fields, "day_of_week") == Some(fields[2])
    ensures FieldOf(StandardHeader, fields, "time") == Some(fields[3])
  {
    StandardColumns();
  }

  lemma StandardColumns()
    ensures "user" in StandardHeader && LastIndexOf(StandardHeader, "user") == 0
    ensures "instructor" in StandardHeader && LastIndexOf(StandardHeader, "instructor") == 1
    ensures "day_of_week" in StandardHeader && LastIndexOf(StandardHeader, "day_of_week") == 2
    ensures "time" in StandardHeader && LastIndexOf(StandardHeader, "time") == 3
  {
    var h := StandardHeader;
    assert h[3] == "time" && h[..3] == ["user", "instructor", "day_of_week"];
    assert h[..3][2] == "day_of_week" && h[..3][..2] == ["user", "instructor"];
    assert h[..3][..2][1] == "instructor" && h[..3][..2][..1] == ["user"];
  }

  /** A row of four trimmed fields whose user and day are lower-case is
      taken over as it stands. */
  lemma CleanedFourFields(a: string, b: string, c: string, d: string, rowNum: int)
    requires ',' !in a && ',' !in b && ',' !in c && ',' !in d
    requires Trimmed(a) && Trimmed(b) && Trimmed(c) && Trimmed(d)
    requires Lower(a) == a && Lower(c) == c
    ensures CleanedRow(StandardHeader, FourFields(a, b, c, d), rowNum) == Some(Entry(a, b, c, d, rowNum))
  {
    SplitFourFields(a, b, c, d);
    StandardFields([a, b, c, d]);
    StripTrimmed(a);
    StripTrimmed(b);
    StripTrimmed(c);
    StripTrimmed(d);
  }

  /** The example row `peter,Mari,saturday,08:15`. */
  const ExampleRow: string := "peter,Mari,saturday,08:15"

  /** The entry the example row describes, as row 2. */
  const ExampleEntry: Entry := Entry("peter", "Mari", "saturday", "08:15", 2)

  lemma ExampleRowShape()
    ensures ExampleRow == FourFields("peter", "Mari", "saturday", "08:15")
    ensures ',' !in "peter" && ',' !in "Mari" && ',' !in "saturday" && ',' !in "08:15"
  {
  }

  lemma ExampleRowParts()
    ensures '\n' !in "peter" && '\n' !in "Mari" && '\n' !in "saturday" && '\n' !in "08:15"
    ensures '\r' !in "peter" && '\r' !in "Mari" && '\r' !in "saturday" && '\r' !in "08:15"
  {
  }

  lemma ExampleFieldsClean()
    ensures Trimmed("peter") && Trimmed("Mari") && Trimmed("saturday") && Trimmed("08:15")
    ensures Lower("peter") == "peter" && Lower("saturday") == "saturday"
  {
  }

  lemma ExampleEntryChecks()
    ensures ClassifyEntry(ExampleEntry) == Accepted(ExampleEntry, false)
  {
    ParseClockExample();
    ExampleKnownNames();
    var e := ExampleEntry;
    assert e.user != [] && e.instructor != [] && e.day != [] && e.time != [];
    assert ParseClock(e.time) == Some((8, 15)) && 15 in Quarters;
  }

  lemma ExampleKnownNames()
    ensures "peter" in Users && "saturday" in DayNames
  {
    assert "saturday" == DayNames[5];
  }

  /** The row `peter,Mari,saturday,08:15`, read as row 2 under the standard
      header, is accepted as it stands and draws no warning. */
  lemma ExampleRowAccepted()
    ensures ClassifyRow(StandardHeader, ExampleRow, 2) == Accepted(ExampleEntry, false)
  {
    ExampleRowShape();
    ExampleFieldsClean();
    CleanedFourFields("peter", "Mari", "saturday", "08:15", 2);
    ExampleEntryChecks();
  }

  /** A header line and one row, each trimmed, non-blank and not a
      comment, are the two kept lines. */
  lemma TwoKeptLines(header: string, row: string)
    requires '\n' !in header && '\n' !in row
    requires Trimmed(header) && Trimmed(row) && KeptLine(header) && KeptLine(row)
    ensures CleanLines(header + "\n" + row) == [header, row]
  {
    assert header + "\n" + row == header + ['\n'] + row;
    SplitPrefix(header, '\n', row);
    SplitNoSep(row, '\n');
    StripTrimmed(header);
    StripTrimmed(row);
    var raw := [header, row];
    assert SplitOn(header + "\n" + row, '\n') == raw;
    assert raw[..1] == [header] && [header][..0] == [];
    assert KeepLines([header]) == [header];
    assert KeepLines(raw) == KeepLines(raw[..1]) + [row];
  }

  /** A readable header line over a row that is accepted without a
      warning gives one entry and the count. */
  lemma OneRowParse(header: string, row: string, e: Entry)
    requires !CsvError(header)
    requires Outcomes(SplitOn(header, ','), [row]) == [Read(Accepted(e, false))]
    ensures ParseLines([header, row]) == Parsed([e], [Loaded(1)])
  {
    var lines := [header, row];
    assert lines[0] == header && lines[1..] == [row];
    OneAcceptedFold(e);
  }

  lemma OneRowOutcomes(header: seq<string>, row: string, e: Entry)
    requires !CsvError(row) && ClassifyRow(header, row, 2) == Accepted(e, false)
    ensures Outcomes(header, [row]) == [Read(Accepted(e, false))]
  {
    var outs := Outcomes(header, [row]);
    assert outs[0] == ReadLine(header, row, 2);
  }

  lemma OneAcceptedFold(e: Entry)
    ensures Fold([Read(Accepted(e, false))]) == Acc([e], [], false)
  {
    var outs := [Read(Accepted(e, false))];
    assert outs[..0] == [];
    assert Fold(outs) == Step(Fold([]), outs[0], 2);
  }

  /** A line of four short fields, none holding a comma, a newline or a
      carriage return, that starts and ends with a visible character other
      than `#`, is kept as it stands and read without error. */
  lemma FourFieldsLine(a: string, b: string, c: string, d: string)
    requires ',' !in a && ',' !in b && ',' !in c && ',' !in d
    requires '\n' !in a && '\n' !in b && '\n' !in c && '\n' !in d
    requires '\r' !in a && '\r' !in b && '\r' !in c && '\r' !in d
    requires |a| <= FieldSizeLimit && |b| <= FieldSizeLimit && |c| <= FieldSizeLimit && |d| <= FieldSizeLimit
    requires a != [] && d != [] && !IsSpace(a[0]) && a[0] != '#' && !IsSpace(d[|d| - 1])
    ensures var line := FourFields(a, b, c, d);
      && SplitOn(line, ',') == [a, b, c, d]
      && '\n' !in line && Trimmed(line) && KeptLine(line) && !CsvError(line)
  {
    var line := FourFields(a, b, c, d);
    SplitFourFields(a, b, c, d);
    assert line[0] == a[0] && line[|line| - 1] == d[|d| - 1];
    forall f | f in SplitOn(line, ',')
      ensures |f| <= FieldSizeLimit
    {
    }
  }

  /** The header line of the example file. */
  const ExampleHeader: string := "user,instructor,day_of_week,time"

  lemma ExampleHeaderText()
    ensures ExampleHeader == FourFields("user", "instructor", "day_of_week", "time")
  {
  }

  lemma ExampleHeaderParts()
    ensures ',' !in "user" && ',' !in "instructor" && ',' !in "day_of_week" && ',' !in "time"
    ensures '\n' !in "user" && '\n' !in "instructor" && '\n' !in "day_of_week" && '\n' !in "time"
    ensures '\r' !in "user" && '\r' !in "instructor" && '\r' !in "day_of_week" && '\r' !in "time"
  {
  }

  lemma ExampleHeaderShape()
    ensures SplitOn(ExampleHeader, ',') == StandardHeader
    ensures '\n' !in ExampleHeader && Trimmed(ExampleHeader) && KeptLine(ExampleHeader) && !CsvError(ExampleHeader)
  {
    ExampleHeaderText();
    ExampleHeaderParts();
    FourFieldsLine("user", "instructor", "day_of_week", "time");
  }

  lemma ExampleRowLine()
    ensures '\n' !in ExampleRow && Trimmed(ExampleRow) && KeptLine(ExampleRow) && !CsvError(ExampleRow)
  {
    ExampleRowShape();
    ExampleRowParts();
    FourFieldsLine("peter", "Mari", "saturday", "08:15");
  }

  /** The two-line schedule `user,instructor,day_of_week,time` /
      `peter,Mari,saturday,08:15` gives its one entry and the count. */
  lemma ParseExample()
    ensures ParseSchedule(ExampleHeader + "\n" + ExampleRow) == Parsed([ExampleEntry], [Loaded(1)])
  {
    ExampleHeaderShape();
    ExampleRowLine();
    TwoKeptLines(ExampleHeader, ExampleRow);
    ExampleRowAccepted();
    OneRowOutcomes(StandardHeader, ExampleRow, ExampleEntry);
    OneRowParse(ExampleHeader, ExampleRow, ExampleEntry);
  }
}
