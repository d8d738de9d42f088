/** Swim bookings: `_parse_swim_instructor`, which reads a schedule
    entry's instructor field as a swim spec such as `Swim(30)`, and the
    lane loop of `book_swim_lane`, which picks the first free slot at the
    wanted time, trying lanes 2, 3, 4 and 1 in that order. */
module Swim {
  import opened Wrappers
  import opened Text

  // ---------------------------------------------------------------------
  // The swim spec
  // ---------------------------------------------------------------------

  /** What the parser concludes: not a swim (no warning), a swim spec it
      cannot use (a warning is printed), a swim of the given minutes, or a
      match whose digits `int()` refuses as too many, so that `ValueError`
      leaves the parser. */
  datatype SwimSpec = NotSwim | InvalidSwim | Swim(duration: int) | TooManyDigits {
    /** The `(is_swim, duration)` pair the source returns, when it returns. */
    function AsPair(): (bool, int)
      requires !TooManyDigits?
    {
      match this
      case Swim(d) => (true, d)
      case _ => (false, 0)
    }
  }

  const SwimDurations: set<int> := {15, 30}

  /** The literal start of the pattern `swim\((\d+)\)`. */
  const Opening: string := "swim("

  /** The length of the run of decimal digits at position `j`. */
  function DigitRun(s: string, j: nat): (n: nat)
    requires j <= |s|
    ensures j + n <= |s|
    decreases |s| - j
  {
    if j < |s| && IsDigit(s[j]) then 1 + DigitRun(s, j + 1) else 0
  }

  /** The pattern `swim\((\d+)\)` matches at position `i` with `n` digits.
      As `)` is not a digit, `n` is the whole digit run. */
  predicate MatchAt(s: string, i: nat, n: nat) {
    && i + |Opening| + n < |s|
    && s[i..i + |Opening|] == Opening
    && n >= 1
    && AllDigits(s[i + |Opening|..i + |Opening| + n])
    && s[i + |Opening| + n] == ')'
  }

  /** `re.search` finds its leftmost match. */
  ghost predicate LeftmostMatch(s: string, i: nat, n: nat) {
    MatchAt(s, i, n) && forall q, m :: 0 <= q < i ==> !MatchAt(s, q, m)
  }

  /** The digit count of a match at `i`, if any. */
  function MatchLength(s: string, i: nat): Option<nat>
    requires i <= |s|
  {
    if i + |Opening| <= |s| && s[i..i + |Opening|] == Opening then
      var n := DigitRun(s, i + |Opening|);
      if n >= 1 && i + |Opening| + n < |s| && s[i + |Opening| + n] == ')' then Some(n) else None
    else None
  }

  /** The search, position by position from `i`: the start and digit count
      of the first match. */
  function Search(s: string, i: nat): Option<(nat, nat)>
    requires i <= |s|
    decreases |s| - i
  {
    if i == |s| then None
    else match MatchLength(s, i)
      case Some(n) => Some((i, n))
      case None => Search(s, i + 1)
  }

  /** The captured digits of a match. */
  function Captured(s: string, i: nat, n: nat): string
    requires MatchAt(s, i, n)
  {
    s[i + |Opening|..i + |Opening| + n]
  }

  /** The instructor field as a swim spec. The prefix test and the search
      both look at the lower-cased field. Only the leftmost match is
      considered; its digits are read by `int()`, leading zeros included,
      which raises past `MaxStrDigits` digits. */
  function ParseSwimInstructor(instructor: string): (r: SwimSpec)
    ensures r.Swim? ==> r.duration in SwimDurations
    ensures r.NotSwim? <==> !StartsWith(Lower(instructor), "swim")
  {
    var low := Lower(instructor);
    if !StartsWith(low, "swim") then NotSwim
    else match Search(low, 0)
      case None => InvalidSwim
      case Some((i, n)) =>
        SearchSpec(low, 0);
        if n > MaxStrDigits then TooManyDigits
        else
          var d := DigitsValue(Captured(low, i, n));
          if d in SwimDurations then Swim(d) else InvalidSwim
  }

  // ---------------------------------------------------------------------
  // Properties of the search
  // ---------------------------------------------------------------------

  lemma {:induction false} DigitRunSpec(s: string, j: nat)
    requires j <= |s|
    ensures AllDigits(s[j..j + DigitRun(s, j)])
    ensures j + DigitRun(s, j) == |s| || !IsDigit(s[j + DigitRun(s, j)])
    decreases |s| - j
  {
    if j < |s| && IsDigit(s[j]) {
      DigitRunSpec(s, j + 1);
      var n := DigitRun(s, j);
      assert n == 1 + DigitRun(s, j + 1);
      assert s[j..j + n] == [s[j]] + s[j + 1..j + n];
    }
  }

  /** A run of digits ended by a non-digit is the whole run. */
  lemma {:induction false} DigitRunExact(s: string, j: nat, n: nat)
    requires j + n < |s| && AllDigits(s[j..j + n]) && !IsDigit(s[j + n])
    ensures DigitRun(s, j) == n
    decreases n
  {
    if n > 0 {
      var run, rest := s[j..j + n], s[j + 1..j + n];
      assert IsDigit(run[0]);
      assert AllDigits(rest) by {
        forall k | 0 <= k < |rest|
          ensures IsDigit(rest[k])
        {
          assert rest[k] == run[k + 1];
        }
      }
      DigitRunExact(s, j + 1, n - 1);
    }
  }

  lemma MatchLengthSpec(s: string, i: nat)
    requires i <= |s|
    ensures MatchLength(s, i).Some? ==> MatchAt(s, i, MatchLength(s, i).value)
    ensures MatchLength(s, i).None? ==> forall n :: !MatchAt(s, i, n)
  {
    if i + |Opening| <= |s| {
      DigitRunSpec(s, i + |Opening|);
      forall n: nat | MatchAt(s, i, n)
        ensures MatchLength(s, i) == Some(n)
      {
        DigitRunExact(s, i + |Opening|, n);
      }
    }
  }

  /** The search returns the leftmost match from `i` on, or none when there
      is none. */
  lemma {:induction false} SearchSpec(s: string, i: nat)
    requires i <= |s|
    ensures Search(s, i).Some? ==>
      && i <= Search(s, i).value.0
      && MatchAt(s, Search(s, i).value.0, Search(s, i).value.1)
      && forall q, m :: i <= q < Search(s, i).value.0 ==> !MatchAt(s, q, m)
    ensures Search(s, i).None? ==> forall q, m :: i <= q ==> !MatchAt(s, q, m)
    decreases |s| - i
  {
    if i < |s| {
      MatchLengthSpec(s, i);
      if MatchLength(s, i).None? {
        SearchSpec(s, i + 1);
      }
    }
  }

  // ---------------------------------------------------------------------
  // Properties of the swim spec
  // ---------------------------------------------------------------------

  /** A swim is booked exactly as the leftmost match says: when its digits
      read as 15 or 30, a swim of that length; when there are too many of
      them for `int()`, the parser raises; otherwise a warning. */
  lemma SwimFromLeftmost(instructor: string, i: nat, n: nat)
    requires StartsWith(Lower(instructor), "swim")
    requires LeftmostMatch(Lower(instructor), i, n)
    ensures var d := DigitsValue(Captured(Lower(instructor), i, n));
      ParseSwimInstructor(instructor) ==
        if n > MaxStrDigits then TooManyDigits
        else if d in SwimDurations then Swim(d) else InvalidSwim
  {
    SearchFindsLeftmost(Lower(instructor), i, n);
  }

  /** A match has only one length: its digit run up to the `)`. */
  lemma MatchUnique(s: string, i: nat, n: nat, m: nat)
    requires MatchAt(s, i, n) && MatchAt(s, i, m)
    ensures n == m
  {
    DigitRunExact(s, i + |Opening|, n);
    DigitRunExact(s, i + |Opening|, m);
  }

  /** The search from the start finds the leftmost match. */
  lemma SearchFindsLeftmost(s: string, i: nat, n: nat)
    requires LeftmostMatch(s, i, n)
    ensures Search(s, 0) == Some((i, n))
  {
    SearchSpec(s, 0);
    assert Search(s, 0).Some?;
    var q, m := Search(s, 0).value.0, Search(s, 0).value.1;
    assert q == i;
    MatchUnique(s, i, n, m);
  }

  /** A swim-prefixed field in which the pattern occurs nowhere draws the
      warning. */
  lemma SwimWithoutMatch(instructor: string)
    requires StartsWith(Lower(instructor), "swim")
    requires forall q, m :: !MatchAt(Lower(instructor), q, m)
    ensures ParseSwimInstructor(instructor) == InvalidSwim
  {
    SearchSpec(Lower(instructor), 0);
  }

  /** Every swim result comes from a leftmost match whose digits read as
      its duration. */
  lemma SwimHasMatch(instructor: string)
    ensures var r := ParseSwimInstructor(instructor);
      var low := Lower(instructor);
      r.Swim? ==>
        && Search(low, 0).Some?
        && LeftmostMatch(low, Search(low, 0).value.0, Search(low, 0).value.1)
        && DigitsValue(Captured(low, Search(low, 0).value.0, Search(low, 0).value.1)) == r.duration
  {
    SearchSpec(Lower(instructor), 0);
  }

  /** Case does not matter. */
  lemma CaseInsensitive(a: string, b: string)
    requires Lower(a) == Lower(b)
    ensures ParseSwimInstructor(a) == ParseSwimInstructor(b)
  {
  }

  lemma LowerDigits(s: string)
    requires AllDigits(s)
    ensures Lower(s) == s
  {
  }

  /** The spec a user writes, `Swim(15)` or `Swim(30)` in any case, books
      a swim of that length. */
  lemma CanonicalSpec(word: string, d: nat)
    requires Lower(word) == "swim" && d in SwimDurations
    ensures ParseSwimInstructor(word + "(" + Decimal(d) + ")") == Swim(d)
  {
    var digits := Decimal(d);
    var spec := word + "(" + digits + ")";
    LowerOfSpec(word, digits);
    var low := Lower(spec);
    OpeningMatch(digits);
    DigitsOfDecimal(d);
    SwimFromLeftmost(spec, 0, |digits|);
  }

  /** `Swim(<digits>)`, with the word in any case, reads its digits as the
      duration, leading zeros included, and books a swim exactly when they
      read as 15 or 30. */
  lemma SpecDigits(word: string, digits: string)
    requires Lower(word) == "swim" && AllDigits(digits) && digits != [] && |digits| <= MaxStrDigits
    ensures var d := DigitsValue(digits);
      ParseSwimInstructor(word + "(" + digits + ")") == if d in SwimDurations then Swim(d) else InvalidSwim
  {
    LowerOfSpec(word, digits);
    OpeningMatch(digits);
    SwimFromLeftmost(word + "(" + digits + ")", 0, |digits|);
  }

  /** `Swim(030)` books a 30-minute swim, although the warning names only
      `Swim(15)` and `Swim(30)` as the format. */
  lemma LeadingZeroExample()
    ensures ParseSwimInstructor("Swim(030)") == Swim(30)
  {
    assert "030"[..2] == "03" && "03"[..1] == "0" && "0"[..0] == "";
    assert DigitsValue("030") == 30;
    SpecDigits("Swim", "030");
    assert "Swim" + "(" + "030" + ")" == "Swim(030)";
  }

  /** A swim spec whose duration has more digits than `int()` reads makes
      the parser raise. */
  lemma TooManyDigitsSpec(word: string, digits: string)
    requires Lower(word) == "swim" && AllDigits(digits) && |digits| > MaxStrDigits
    ensures ParseSwimInstructor(word + "(" + digits + ")") == TooManyDigits
  {
    LowerOfSpec(word, digits);
    OpeningMatch(digits);
    SwimFromLeftmost(word + "(" + digits + ")", 0, |digits|);
  }

  lemma LowerOfSpec(word: string, digits: string)
    requires Lower(word) == "swim" && AllDigits(digits)
    ensures Lower(word + "(" + digits + ")") == Opening + digits + ")"
  {
    LowerConcat(word + "(" + digits, ")");
    LowerConcat(word + "(", digits);
    LowerConcat(word, "(");
    LowerDigits(digits);
  }

  lemma OpeningMatch(digits: string)
    requires AllDigits(digits) && digits != []
    ensures var low := Opening + digits + ")";
      && StartsWith(low, "swim")
      && MatchAt(low, 0, |digits|)
      && Captured(low, 0, |digits|) == digits
  {
    var low := Opening + digits + ")";
    assert low[..4] == "swim";
    assert low[..|Opening|] == Opening;
    assert low[|Opening|..|Opening| + |digits|] == digits;
  }

  /** Without a `(` the pattern cannot occur. */
  lemma NoParenNoMatch(s: string)
    requires '(' !in s
    ensures forall q, m :: !MatchAt(s, q, m)
  {
    forall q: nat, m: nat
      ensures !MatchAt(s, q, m)
    {
      if q + |Opening| <= |s| {
        assert s[q..q + |Opening|][4] == s[q + 4];
      }
    }
  }

  /** A plain instructor name is not a swim, and draws no warning. */
  lemma ClassNameExample()
    ensures ParseSwimInstructor("Mari") == NotSwim
  {
    assert Lower("Mari")[..4] == "mari";
  }

  lemma SwimThirtyExample()
    ensures ParseSwimInstructor("Swim(30)").AsPair() == (true, 30)
  {
    assert Decimal(30) == "30";
    assert "Swim" + "(" + Decimal(30) + ")" == "Swim(30)";
    CanonicalSpec("Swim", 30);
  }

  lemma SwimFifteenUpperExample()
    ensures ParseSwimInstructor("SWIM(15)").AsPair() == (true, 15)
  {
    assert Decimal(15) == "15";
    assert "SWIM" + "(" + Decimal(15) + ")" == "SWIM(15)";
    CanonicalSpec("SWIM", 15);
  }

  /** A swim of another length is refused with a warning. */
  lemma SwimFortyFiveExample()
    ensures ParseSwimInstructor("Swim(45)") == InvalidSwim
  {
    LowerOfSpec("Swim", "45");
    assert "Swim" + "(" + "45" + ")" == "Swim(45)";
    OpeningMatch("45");
    assert DigitsValue("45") == 45;
    SwimFromLeftmost("Swim(45)", 0, 2);
  }

  /** So is a swim-prefixed field without a duration. */
  lemma SwimmingExample()
    ensures ParseSwimInstructor("Swimming") == InvalidSwim
  {
    var low := Lower("Swimming");
    assert low == "swimming";
    assert low[..4] == "swim";
    NoParenNoMatch(low);
    SwimWithoutMatch("Swimming");
  }

  // ---------------------------------------------------------------------
  // Lane selection
  // ---------------------------------------------------------------------

  /** The lanes in the order the bot tries them. */
  const LanePriority: seq<int> := [2, 3, 4, 1]

  /** A lane's booking buttons, each as the time text extracted from it,
      or `None` where no time was found, reading the button raised, or
      clicking it raised (the loop then moves on as for a mismatch). */
  type Lane = seq<Option<string>>

  /** Lane `lane` (numbered from 1) exists and has a button at `time`. */
  predicate Offers(lanes: seq<Lane>, lane: int, time: string) {
    1 <= lane <= |lanes| && Some(time) in lanes[lane - 1]
  }

  /** The first button of a lane showing `time`. */
  function FirstSlot(buttons: Lane, time: string): (k: nat)
    requires Some(time) in buttons
    ensures k < |buttons| && buttons[k] == Some(time)
    ensures forall j :: 0 <= j < k ==> buttons[j] != Some(time)
  {
    if buttons[0] == Some(time) then 0 else 1 + FirstSlot(buttons[1..], time)
  }

  /** The reference choice: the first lane of `order` that offers the time,
      with its first button at that time. */
  function LaneChoice(lanes: seq<Lane>, time: string, order: seq<int>): Option<(int, nat)> {
    if order == [] then None
    else if Offers(lanes, order[0], time) then Some((order[0], FirstSlot(lanes[order[0] - 1], time)))
    else LaneChoice(lanes, time, order[1..])
  }

  /** The loop of `book_swim_lane`: lanes in priority order, skipping those
      past the end of the page, each lane's buttons in page order; the
      first button whose time equals `time` exactly is clicked and both
      loops stop. Returns the lane number and button index clicked. */
  method SelectLaneSlot(lanes: seq<Lane>, time: string) returns (choice: Option<(int, nat)>)
    ensures choice == LaneChoice(lanes, time, LanePriority)
  {
    choice := None;
    var booked := false;
    var p := 0;
    while p < |LanePriority|
      invariant 0 <= p <= |LanePriority|
      invariant !booked ==> choice.None?
      invariant !booked ==> LaneChoice(lanes, time, LanePriority) == LaneChoice(lanes, time, LanePriority[p..])
      invariant booked ==> choice == LaneChoice(lanes, time, LanePriority)
    {
      if booked {
        break;
      }
      var lane := LanePriority[p];
      if |lanes| >= lane {
        var buttons := lanes[lane - 1];
        var k := 0;
        while k < |buttons|
          invariant 0 <= k <= |buttons|
          invariant forall j :: 0 <= j < k ==> buttons[j] != Some(time)
        {
          if buttons[k] == Some(time) {
            choice := Some((lane, k));
            booked := true;
            break;
          }
          k := k + 1;
        }
        if booked {
          assert Offers(lanes, lane, time);
          assert FirstSlot(buttons, time) == k;
          break;
        }
        assert !Offers(lanes, lane, time);
      }
      assert LanePriority[p..][1..] == LanePriority[p + 1..];
      p := p + 1;
    }
  }

  // ---------------------------------------------------------------------
  // Properties of the lane choice
  // ---------------------------------------------------------------------

  /** The chosen lane is the first in `order` that offers the time, the
      chosen button the first in it at that time; and nothing is chosen
      exactly when no lane of `order` offers the time. */
  lemma {:induction false} LaneChoiceSpec(lanes: seq<Lane>, time: string, order: seq<int>)
    ensures LaneChoice(lanes, time, order).None? <==>
            forall p :: 0 <= p < |order| ==> !Offers(lanes, order[p], time)
    ensures LaneChoice(lanes, time, order).Some? ==>
      exists p :: 0 <= p < |order| && order[p] == LaneChoice(lanes, time, order).value.0
        && Offers(lanes, order[p], time)
        && forall q :: 0 <= q < p ==> !Offers(lanes, order[q], time)
    ensures LaneChoice(lanes, time, order).Some? ==>
      var lane := LaneChoice(lanes, time, order).value.0;
      var k := LaneChoice(lanes, time, order).value.1;
      && 1 <= lane <= |lanes| && k < |lanes[lane - 1]|
      && var buttons := lanes[lane - 1];
        buttons[k] == Some(time) && forall j :: 0 <= j < k ==> buttons[j] != Some(time)
  {
    if order != [] && !Offers(lanes, order[0], time) {
      LaneChoiceSpec(lanes, time, order[1..]);
      var c := LaneChoice(lanes, time, order);
      if c.Some? {
        var p :| 0 <= p < |order[1..]| && order[1..][p] == c.value.0
          && Offers(lanes, order[1..][p], time)
          && forall q :: 0 <= q < p ==> !Offers(lanes, order[1..][q], time);
        assert order[p + 1] == c.value.0;
        assert forall q :: 0 <= q < p + 1 ==> !Offers(lanes, order[q], time) by {
          forall q | 0 <= q < p + 1
            ensures !Offers(lanes, order[q], time)
          {
            if q > 0 { assert order[q] == order[1..][q - 1]; }
          }
        }
      } else {
        forall p | 0 <= p < |order|
          ensures !Offers(lanes, order[p], time)
        {
          if p > 0 { assert order[p] == order[1..][p - 1]; }
        }
      }
    }
  }

  /** Lane 2 wins whenever it offers the time. */
  lemma LaneTwoFirst(lanes: seq<Lane>, time: string)
    requires Offers(lanes, 2, time)
    ensures LaneChoice(lanes, time, LanePriority).Some? && LaneChoice(lanes, time, LanePriority).value.0 == 2
  {
  }

  /** With fewer than `lane` lanes on the page, lane `lane` is never
      chosen: a single lane means lane 1 or nothing. */
  lemma MissingLanesSkipped(lanes: seq<Lane>, time: string)
    ensures var c := LaneChoice(lanes, time, LanePriority);
      c.Some? ==> 1 <= c.value.0 <= |lanes|
  {
    LaneChoiceSpec(lanes, time, LanePriority);
  }

  /** Lane 1, though first on the page, is tried last. */
  lemma LaneOneLast(lanes: seq<Lane>, time: string)
    requires Offers(lanes, 1, time)
    ensures LaneChoice(lanes, time, LanePriority).Some?
    ensures LaneChoice(lanes, time, LanePriority).value.0 == 1 <==>
            !Offers(lanes, 2, time) && !Offers(lanes, 3, time) && !Offers(lanes, 4, time)
  {
    LaneChoiceSpec(lanes, time, LanePriority);
    assert Offers(lanes, LanePriority[3], time);
    var lane := LaneChoice(lanes, time, LanePriority).value.0;
    var p :| 0 <= p < |LanePriority| && LanePriority[p] == lane
      && Offers(lanes, LanePriority[p], time)
      && forall q :: 0 <= q < p ==> !Offers(lanes, LanePriority[q], time);
    if lane == 1 {
      assert p == 3;
      assert !Offers(lanes, LanePriority[0], time) && !Offers(lanes, LanePriority[1], time)
        && !Offers(lanes, LanePriority[2], time);
    } else {
      assert p < 3;
    }
  }
}
