/** Models of the Python string built-ins the booking bot relies on:
    `str.strip()`, `str.lower()`, `str.split(sep)`, `str.startswith(p)`
    and `int(str)` in base 10. */
module Text {
  import opened Wrappers

  // ---------------------------------------------------------------------
  // Whitespace and str.strip()
  // ---------------------------------------------------------------------

  /** The characters for which Python's `str.isspace()` holds; these are the
      characters that `str.strip()` with no argument removes. */
  predicate IsSpace(c: char) {
    || ('\t' <= c <= '\r')
    || ('\U{1C}' <= c <= '\U{1F}')
    || c == ' ' || c == '\U{85}' || c == '\U{A0}' || c == '\U{1680}'
    || ('\U{2000}' <= c <= '\U{200A}')
    || c == '\U{2028}' || c == '\U{2029}' || c == '\U{202F}' || c == '\U{205F}'
    || c == '\U{3000}'
  }

  predicate AllSpace(s: string) {
    forall i :: 0 <= i < |s| ==> IsSpace(s[i])
  }

  /** `s` neither starts nor ends with whitespace. */
  predicate Trimmed(s: string) {
    s == [] || (!IsSpace(s[0]) && !IsSpace(s[|s| - 1]))
  }

  function TrimLeft(s: string): (r: string)
    ensures |r| <= |s|
  {
    if |s| > 0 && IsSpace(s[0]) then TrimLeft(s[1..]) else s
  }

  function TrimRight(s: string): (r: string)
    ensures |r| <= |s|
  {
    if |s| > 0 && IsSpace(s[|s| - 1]) then TrimRight(s[..|s| - 1]) else s
  }

  /** Python's `s.strip()`: `s` without its leading and trailing whitespace. */
  function Strip(s: string): (r: string)
    ensures |r| <= |s|
  {
    TrimRight(TrimLeft(s))
  }

  /** `TrimLeft` removes a leading run of whitespace and stops at the first
      other character. */
  lemma {:induction false} TrimLeftSpec(s: string)
    ensures var r := TrimLeft(s);
      && (r == [] || !IsSpace(r[0]))
      && r == s[|s| - |r|..]
      && AllSpace(s[..|s| - |r|])
  {
    if |s| > 0 && IsSpace(s[0]) {
      TrimLeftSpec(s[1..]);
      var r := TrimLeft(s[1..]);
      assert s[1..][|s| - 1 - |r|..] == s[|s| - |r|..];
      assert s[..|s| - |r|] == [s[0]] + s[1..][..|s| - 1 - |r|];
    }
  }

  /** `TrimRight` removes a trailing run of whitespace and stops at the last
      other character. */
  lemma {:induction false} TrimRightSpec(s: string)
    ensures var r := TrimRight(s);
      && (r == [] || !IsSpace(r[|r| - 1]))
      && r == s[..|r|]
      && AllSpace(s[|r|..])
  {
    if |s| > 0 && IsSpace(s[|s| - 1]) {
      TrimRightSpec(s[..|s| - 1]);
      var r := TrimRight(s[..|s| - 1]);
      assert s[..|s| - 1][..|r|] == s[..|r|];
      assert s[|r|..] == s[..|s| - 1][|r|..] + [s[|s| - 1]];
    }
  }

  /** The result of `strip()` neither starts nor ends with whitespace. */
  lemma StripSpec(s: string)
    ensures Trimmed(Strip(s))
  {
    var l := TrimLeft(s);
    TrimLeftSpec(s);
    TrimRightSpec(l);
    var r := TrimRight(l);
    assert r == [] || r[0] == l[0];
  }

  /** A string with no whitespace at either end is its own strip. */
  lemma StripTrimmed(s: string)
    requires Trimmed(s)
    ensures Strip(s) == s
  {
  }

  /** Stripping twice is stripping once. */
  lemma StripIdempotent(s: string)
    ensures Strip(Strip(s)) == Strip(s)
  {
    StripSpec(s);
    StripTrimmed(Strip(s));
  }

  lemma {:induction false} TrimLeftSpaces(w: string, t: string)
    requires AllSpace(w) && (t == [] || !IsSpace(t[0]))
    ensures TrimLeft(w + t) == t
    decreases |w|
  {
    if w != [] {
      assert (w + t)[1..] == w[1..] + t;
      TrimLeftSpaces(w[1..], t);
    } else {
      assert w + t == t;
    }
  }

  lemma {:induction false} TrimRightSpaces(t: string, w: string)
    requires AllSpace(w) && (t == [] || !IsSpace(t[|t| - 1]))
    ensures TrimRight(t + w) == t
    decreases |w|
  {
    if w != [] {
      assert (t + w)[..|t + w| - 1] == t + w[..|w| - 1];
      TrimRightSpaces(t, w[..|w| - 1]);
    } else {
      assert t + w == t;
    }
  }

  /** What `strip()` removes is exactly the whitespace around the text:
      for a text `t` with no whitespace at its ends, padding it with any
      whitespace on either side strips back to `t`. */
  lemma StripPadded(left: string, t: string, right: string)
    requires AllSpace(left) && AllSpace(right) && Trimmed(t)
    ensures Strip(left + t + right) == t
  {
    if t == [] {
      assert left + t + right == left + right;
      TrimLeftSpaces(left + right, []);
      assert left + right + [] == left + right;
      assert TrimLeft(left + right) == [];
    } else {
      assert left + t + right == left + (t + right);
      TrimLeftSpaces(left, t + right);
      TrimRightSpaces(t, right);
    }
  }

  // ---------------------------------------------------------------------
  // str.lower() and str.startswith()
  // ---------------------------------------------------------------------

  /** Lower-case of one character, on the ASCII letters. */
  function LowerChar(c: char): char {
    if 'A' <= c <= 'Z' then (c as int + 32) as char else c
  }

  /** Python's `s.lower()`, restricted to ASCII letters: the result has
      no upper-case letter left, and every other character is kept. */
  function Lower(s: string): (r: string)
    ensures |r| == |s|
    ensures forall i :: 0 <= i < |r| ==> !('A' <= r[i] <= 'Z')
    ensures forall i :: 0 <= i < |s| && !('A' <= s[i] <= 'Z') ==> r[i] == s[i]
  {
    seq(|s|, i requires 0 <= i < |s| => LowerChar(s[i]))
  }

  /** Lower-casing twice is lower-casing once. */
  lemma LowerIdempotent(s: string)
    ensures Lower(Lower(s)) == Lower(s)
  {
  }

  /** Lower-casing works character by character, so it distributes over
      concatenation. */
  lemma LowerConcat(a: string, b: string)
    ensures Lower(a + b) == Lower(a) + Lower(b)
  {
    assert forall i :: 0 <= i < |a + b| ==> Lower(a + b)[i] == (Lower(a) + Lower(b))[i];
  }

  predicate StartsWith(s: string, prefix: string) {
    |prefix| <= |s| && s[..|prefix|] == prefix
  }

  // ---------------------------------------------------------------------
  // str.split(sep) and its inverse, sep.join(parts)
  // ---------------------------------------------------------------------

  /** Python's `s.split(sep)` for a one-character separator: the pieces
      between separators, including empty ones; never an empty list. */
  function SplitOn(s: string, sep: char): (parts: seq<string>)
    ensures |parts| >= 1
  {
    if |s| == 0 then [[]]
    else
      var rest := SplitOn(s[1..], sep);
      if s[0] == sep then [[]] + rest
      else [[s[0]] + rest[0]] + rest[1..]
  }

  /** No piece of a split contains the separator. */
  lemma {:induction false} SplitPieces(s: string, sep: char)
    ensures forall i :: 0 <= i < |SplitOn(s, sep)| ==> sep !in SplitOn(s, sep)[i]
  {
    if |s| > 0 {
      SplitPieces(s[1..], sep);
    }
  }

  /** Python's `sep.join(parts)`; `Join([], sep)` is defined as `""`. */
  function Join(parts: seq<string>, sep: char): string {
    if |parts| == 0 then []
    else if |parts| == 1 then parts[0]
    else parts[0] + [sep] + Join(parts[1..], sep)
  }

  /** Joining the pieces of a split gives back the original string. */
  lemma {:induction false} JoinSplit(s: string, sep: char)
    ensures Join(SplitOn(s, sep), sep) == s
  {
    if |s| > 0 {
      var rest := SplitOn(s[1..], sep);
      JoinSplit(s[1..], sep);
      assert s == [s[0]] + s[1..];
      if s[0] == sep {
        JoinCons([], rest, sep);
      } else if |rest| == 1 {
        assert SplitOn(s, sep) == [[s[0]] + rest[0]];
      } else {
        assert rest == [rest[0]] + rest[1..];
        JoinCons(rest[0], rest[1..], sep);
        JoinCons([s[0]] + rest[0], rest[1..], sep);
      }
    }
  }

  lemma JoinCons(x: string, rest: seq<string>, sep: char)
    requires |rest| >= 1
    ensures Join([x] + rest, sep) == x + [sep] + Join(rest, sep)
  {
    assert ([x] + rest)[1..] == rest;
  }

  lemma {:induction false} SplitPrefix(a: string, sep: char, b: string)
    requires sep !in a
    ensures SplitOn(a + [sep] + b, sep) == [a] + SplitOn(b, sep)
    decreases |a|
  {
    if a == [] {
      assert a + [sep] + b == [sep] + b;
      assert ([sep] + b)[1..] == b;
    } else {
      assert (a + [sep] + b)[1..] == a[1..] + [sep] + b;
      SplitPrefix(a[1..], sep, b);
      assert [a[0]] + a[1..] == a;
    }
  }

  lemma {:induction false} SplitNoSep(a: string, sep: char)
    requires sep !in a
    ensures SplitOn(a, sep) == [a]
    decreases |a|
  {
    if a != [] {
      SplitNoSep(a[1..], sep);
      assert [a[0]] + a[1..] == a;
    }
  }

  /** Splitting a join of separator-free pieces gives back the pieces. */
  lemma {:induction false} SplitJoin(parts: seq<string>, sep: char)
    requires |parts| >= 1
    requires forall i :: 0 <= i < |parts| ==> sep !in parts[i]
    ensures SplitOn(Join(parts, sep), sep) == parts
    decreases |parts|
  {
    if |parts| == 1 {
      SplitNoSep(parts[0], sep);
    } else {
      SplitJoin(parts[1..], sep);
      SplitPrefix(parts[0], sep, Join(parts[1..], sep));
      assert [parts[0]] + parts[1..] == parts;
    }
  }

  // ---------------------------------------------------------------------
  // int(s) in base 10
  // ---------------------------------------------------------------------

  predicate IsDigit(c: char) {
    '0' <= c <= '9'
  }

  predicate AllDigits(s: string) {
    forall i :: 0 <= i < |s| ==> IsDigit(s[i])
  }

  /** The value of a string of decimal digits; leading zeros are allowed. */
  function DigitsValue(ds: string): nat
    requires AllDigits(ds)
  {
    if ds == [] then 0
    else DigitsValue(ds[..|ds| - 1]) * 10 + (ds[|ds| - 1] as int - '0' as int)
  }

  /** Digits in groups separated by single underscores, as `int()` accepts
      them: `"8"`, `"08"`, `"1_000"`; not `"_1"`, `"1_"` or `"1__0"`. */
  predicate DigitGroups(s: string) {
    && |s| > 0 && IsDigit(s[0])
    && (|s| == 1 || if s[1] == '_' then DigitGroups(s[2..]) else DigitGroups(s[1..]))
  }

  lemma {:induction false} DigitGroupsChars(s: string)
    requires DigitGroups(s)
    ensures forall i :: 0 <= i < |s| ==> IsDigit(s[i]) || s[i] == '_'
    decreases |s|
  {
    if |s| > 1 {
      if s[1] == '_' { DigitGroupsChars(s[2..]); } else { DigitGroupsChars(s[1..]); }
      assert forall i :: 2 <= i < |s| ==> s[i] == s[2..][i - 2];
    }
  }

  lemma {:induction false} DigitsAreGroups(s: string)
    requires AllDigits(s) && s != []
    ensures DigitGroups(s)
    decreases |s|
  {
    if |s| > 1 { DigitsAreGroups(s[1..]); }
  }

  function RemoveUnderscores(s: string): (r: string)
    ensures (forall i :: 0 <= i < |s| ==> IsDigit(s[i]) || s[i] == '_') ==> AllDigits(r)
    ensures AllDigits(s) ==> r == s
  {
    if s == [] then []
    else (if s[0] == '_' then [] else [s[0]]) + RemoveUnderscores(s[1..])
  }

  /** The default of CPython's `sys.get_int_max_str_digits()` (3.11 and
      later): `int()` refuses a decimal text of more digits than this,
      leading zeros counted and underscores not. */
  const MaxStrDigits: nat := 4300

  /** The ASCII separators U+001C to U+001F: `str.isspace()` holds for
      them, but `int()` does not skip them. */
  predicate IsSeparator(c: char) {
    '\U{1C}' <= c <= '\U{1F}'
  }

  /** The whitespace `int()` skips around a number: ASCII tab, line feed,
      vertical tab, form feed, carriage return and space, and every
      non-ASCII character for which `str.isspace()` holds. */
  predicate IsIntSpace(c: char) {
    IsSpace(c) && !IsSeparator(c)
  }

  function IntTrimLeft(s: string): (r: string)
    ensures |r| <= |s|
  {
    if |s| > 0 && IsIntSpace(s[0]) then IntTrimLeft(s[1..]) else s
  }

  function IntTrimRight(s: string): (r: string)
    ensures |r| <= |s|
  {
    if |s| > 0 && IsIntSpace(s[|s| - 1]) then IntTrimRight(s[..|s| - 1]) else s
  }

  /** The text `int()` reads once the whitespace it skips is removed. */
  function IntStrip(s: string): (r: string)
    ensures |r| <= |s|
  {
    IntTrimRight(IntTrimLeft(s))
  }

  /** Python's `int(s)`: surrounding whitespace is ignored, one optional
      sign is allowed, then digit groups of at most `MaxStrDigits` digits
      in all; anything else raises `ValueError`, modelled as `None`. A text
      holding a separator raises: `int()` does not skip one at either end
      (`SeparatorSurvives`), and a separator is neither sign nor digit.
      Without one, the whitespace `int()` skips is just what `str.strip()`
      removes (`IntStripAgrees`). */
  function PyInt(s: string): Option<int> {
    if HasSeparator(s) then None
    else
      var t := Strip(s);
      if t == [] then None
      else
        var negative := t[0] == '-';
        var body := if t[0] == '-' || t[0] == '+' then t[1..] else t;
        if !DigitGroups(body) then None
        else
          DigitGroupsChars(body);
          var digits := RemoveUnderscores(body);
          if |digits| > MaxStrDigits then None
          else
            var n: int := DigitsValue(digits);
            Some(if negative then -n else n)
  }

  /** `s` holds a separator somewhere. */
  predicate HasSeparator(s: string) {
    |s| > 0 && (IsSeparator(s[0]) || HasSeparator(s[1..]))
  }

  lemma {:induction false} HasSeparatorSpec(s: string)
    ensures HasSeparator(s) <==> exists i :: 0 <= i < |s| && IsSeparator(s[i])
    decreases |s|
  {
    if |s| > 0 {
      HasSeparatorSpec(s[1..]);
      if HasSeparator(s[1..]) {
        var i :| 0 <= i < |s[1..]| && IsSeparator(s[1..][i]);
        assert IsSeparator(s[i + 1]);
      }
      if exists i :: 0 <= i < |s| && IsSeparator(s[i]) {
        var i :| 0 <= i < |s| && IsSeparator(s[i]);
        if i > 0 { assert IsSeparator(s[1..][i - 1]); }
      }
    }
  }

  /** A plain run of decimal digits within the limit reads as its value,
      leading zeros included (`int("08") == 8`). */
  lemma PyIntDigits(s: string)
    requires AllDigits(s) && s != [] && |s| <= MaxStrDigits
    ensures PyInt(s) == Some(DigitsValue(s))
  {
    assert !IsSpace(s[0]) && !IsSpace(s[|s| - 1]);
    assert forall i :: 0 <= i < |s| ==> !IsSeparator(s[i]);
    HasSeparatorSpec(s);
    StripTrimmed(s);
    DigitsAreGroups(s);
  }

  /** A run of more digits than the limit raises, whatever its value:
      `int("0" * 4301)` fails although the number is zero. */
  lemma PyIntTooLong(s: string)
    requires AllDigits(s) && |s| > MaxStrDigits
    ensures PyInt(s).None?
  {
    assert !IsSpace(s[0]) && !IsSpace(s[|s| - 1]);
    assert forall i :: 0 <= i < |s| ==> !IsSeparator(s[i]);
    HasSeparatorSpec(s);
    StripTrimmed(s);
    DigitsAreGroups(s);
  }

  /** A separator is still there once `int()` has skipped the whitespace
      around the number, so `int()` meets it and raises. */
  lemma SeparatorSurvives(s: string, i: nat)
    requires i < |s| && IsSeparator(s[i])
    ensures exists j :: 0 <= j < |IntStrip(s)| && IsSeparator(IntStrip(s)[j])
    ensures PyInt(s).None?
  {
    IntTrimLeftKeeps(s, i);
    var u := IntTrimLeft(s);
    var k := |s| - |u|;
    assert u[i - k] == s[i];
    IntTrimRightKeeps(u, i - k);
    assert IsSeparator(IntStrip(s)[i - k]);
    HasSeparatorSpec(s);
  }

  /** Away from the separators, `int()` skips exactly the whitespace
      `str.strip()` removes. */
  lemma IntStripAgrees(s: string)
    requires forall i :: 0 <= i < |s| ==> !IsSeparator(s[i])
    ensures IntStrip(s) == Strip(s)
  {
    IntTrimLeftAgrees(s);
    TrimLeftSpec(s);
    IntTrimRightAgrees(TrimLeft(s));
  }

  lemma {:induction false} IntTrimLeftAgrees(s: string)
    requires forall i :: 0 <= i < |s| ==> !IsSeparator(s[i])
    ensures IntTrimLeft(s) == TrimLeft(s)
    decreases |s|
  {
    if |s| > 0 && IsSpace(s[0]) {
      IntTrimLeftAgrees(s[1..]);
    }
  }

  lemma {:induction false} IntTrimRightAgrees(s: string)
    requires forall i :: 0 <= i < |s| ==> !IsSeparator(s[i])
    ensures IntTrimRight(s) == TrimRight(s)
    decreases |s|
  {
    if |s| > 0 && IsSpace(s[|s| - 1]) {
      IntTrimRightAgrees(s[..|s| - 1]);
    }
  }

  /** Skipping whitespace from the left stops at or before a separator. */
  lemma {:induction false} IntTrimLeftKeeps(s: string, i: nat)
    requires i < |s| && IsSeparator(s[i])
    ensures |s| - |IntTrimLeft(s)| <= i
    ensures IntTrimLeft(s) == s[|s| - |IntTrimLeft(s)|..]
    decreases |s|
  {
    if IsIntSpace(s[0]) {
      IntTrimLeftKeeps(s[1..], i - 1);
    }
  }

  /** Skipping whitespace from the right stops at or after a separator. */
  lemma {:induction false} IntTrimRightKeeps(s: string, i: nat)
    requires i < |s| && IsSeparator(s[i])
    ensures i < |IntTrimRight(s)|
    ensures IntTrimRight(s) == s[..|IntTrimRight(s)|]
    decreases |s|
  {
    if IsIntSpace(s[|s| - 1]) {
      IntTrimRightKeeps(s[..|s| - 1], i);
    }
  }

  /** A file separator before a number is stripped by `str.strip()` but
      makes `int()` raise. */
  lemma SeparatorNotSkipped()
    ensures Strip("\U{1C}15") == "15"
    ensures PyInt("\U{1C}15").None?
  {
    assert "\U{1C}15"[1..] == "15";
    assert IsSeparator("\U{1C}15"[0]);
    SeparatorSurvives("\U{1C}15", 0);
  }

  /** The decimal text of a natural number, as `str(n)` writes it. */
  function Decimal(n: nat): (s: string)
    ensures AllDigits(s) && s != []
  {
    if n < 10 then [('0' as int + n) as char]
    else Decimal(n / 10) + [('0' as int + n % 10) as char]
  }

  /** `int(str(n)) == n`: reading back the decimal text of a number
      (`str(n)` itself raises beyond the digit limit). */
  lemma {:induction false} PyIntDecimal(n: nat)
    requires |Decimal(n)| <= MaxStrDigits
    ensures PyInt(Decimal(n)) == Some(n)
  {
    DigitsOfDecimal(n);
    PyIntDigits(Decimal(n));
  }

  lemma {:induction false} DigitsOfDecimal(n: nat)
    ensures DigitsValue(Decimal(n)) == n
  {
    if n >= 10 {
      DigitsOfDecimal(n / 10);
      var s := Decimal(n);
      assert s[..|s| - 1] == Decimal(n / 10);
    }
  }
}
