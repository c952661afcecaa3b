/** The time check of `add event:`: CPython's
    `datetime.strptime(t, "%Y-%m-%d %H:%M")`, and the canonical
    `YYYY-MM-DD HH:MM` rendering of a date and time.

    CPython turns the format into a regular expression: each directive becomes
    an ordered alternation, the blank between date and time becomes `\s+`, the
    expression is matched at the start of `t` (the first match found by
    backtracking wins, not the longest), a match that stops before the end of
    `t` is rejected ("unconverted data remains"), and `datetime.date` then
    rejects year 0 and days the month does not have. The directives are
      %Y  \d\d\d\d
      %m  1[0-2] | 0[1-9] | [1-9]
      %d  3[0-1] | [1-2]\d | 0[1-9] | [1-9] | " "[1-9]
      %H  2[0-3] | [0-1]\d | \d
      %M  [0-5]\d | \d
    and this module follows that search step by step. */
module EventTime {
  import opened PyStrings

  datatype DateTime = DateTime(year: int, month: int, day: int, hour: int, minute: int)

  predicate IsLeapYear(y: int) {
    y % 4 == 0 && (y % 100 != 0 || y % 400 == 0)
  }

  function DaysInMonth(y: int, m: int): int
    requires 1 <= m <= 12
  {
    if m == 2 then (if IsLeapYear(y) then 29 else 28)
    else if m == 4 || m == 6 || m == 9 || m == 11 then 30
    else 31
  }

  /** What `datetime.date(year, month, day)` accepts (MINYEAR 1, MAXYEAR 9999). */
  predicate IsValidDate(y: int, m: int, d: int) {
    1 <= y <= 9999 && 1 <= m <= 12 && 1 <= d <= DaysInMonth(y, m)
  }

  predicate IsValidDateTime(dt: DateTime) {
    IsValidDate(dt.year, dt.month, dt.day) && 0 <= dt.hour < 24 && 0 <= dt.minute < 60
  }

  // ---------------------------------------------------------------------------
  // The regular expression, alternative by alternative
  // ---------------------------------------------------------------------------

  /** One way an alternation can match: the value it denotes and the position
      just after it. */
  datatype Cand = Cand(value: int, end: nat)

  /** A match in progress that has reached the end of the expression. */
  datatype Found = Found(dt: DateTime, end: nat)

  predicate CharIn(t: string, i: int, lo: char, hi: char) {
    0 <= i < |t| && lo <= t[i] <= hi
  }

  function DigitAt(t: string, i: int): nat
    requires CharIn(t, i, '0', '9')
  {
    DigitValue(t[i])
  }

  /** `%m`: 1[0-2] | 0[1-9] | [1-9], in this order. */
  function MonthAlts(t: string, i: nat): (r: seq<Cand>)
    ensures forall k :: 0 <= k < |r| ==> 1 <= r[k].value <= 12 && r[k].end <= |t|
  {
    (if CharIn(t, i, '1', '1') && CharIn(t, i + 1, '0', '2') then [Cand(10 + DigitAt(t, i + 1), i + 2)] else []) +
    (if CharIn(t, i, '0', '0') && CharIn(t, i + 1, '1', '9') then [Cand(DigitAt(t, i + 1), i + 2)] else []) +
    (if CharIn(t, i, '1', '9') then [Cand(DigitAt(t, i), i + 1)] else [])
  }

  /** `%d`: 3[0-1] | [1-2]\d | 0[1-9] | [1-9] | " "[1-9], in this order;
      the last form gives `int(" 5") == 5`. */
  function DayAlts(t: string, i: nat): (r: seq<Cand>)
    ensures forall k :: 0 <= k < |r| ==> 1 <= r[k].value <= 31 && r[k].end <= |t|
  {
    (if CharIn(t, i, '3', '3') && CharIn(t, i + 1, '0', '1') then [Cand(30 + DigitAt(t, i + 1), i + 2)] else []) +
    (if CharIn(t, i, '1', '2') && CharIn(t, i + 1, '0', '9') then [Cand(10 * DigitAt(t, i) + DigitAt(t, i + 1), i + 2)] else []) +
    (if CharIn(t, i, '0', '0') && CharIn(t, i + 1, '1', '9') then [Cand(DigitAt(t, i + 1), i + 2)] else []) +
    (if CharIn(t, i, '1', '9') then [Cand(DigitAt(t, i), i + 1)] else []) +
    (if CharIn(t, i, ' ', ' ') && CharIn(t, i + 1, '1', '9') then [Cand(DigitAt(t, i + 1), i + 2)] else [])
  }

  /** `%H`: 2[0-3] | [0-1]\d | \d, in this order. */
  function HourAlts(t: string, i: nat): (r: seq<Cand>)
    ensures forall k :: 0 <= k < |r| ==> 0 <= r[k].value < 24 && r[k].end <= |t|
  {
    (if CharIn(t, i, '2', '2') && CharIn(t, i + 1, '0', '3') then [Cand(20 + DigitAt(t, i + 1), i + 2)] else []) +
    (if CharIn(t, i, '0', '1') && CharIn(t, i + 1, '0', '9') then [Cand(10 * DigitAt(t, i) + DigitAt(t, i + 1), i + 2)] else []) +
    (if CharIn(t, i, '0', '9') then [Cand(DigitAt(t, i), i + 1)] else [])
  }

  /** `%M`: [0-5]\d | \d, in this order. */
  function MinuteAlts(t: string, i: nat): (r: seq<Cand>)
    ensures forall k :: 0 <= k < |r| ==> 0 <= r[k].value < 60 && r[k].end <= |t|
    ensures forall k :: 0 <= k < |r| ==> CharIn(t, r[k].end - 1, '0', '9')
  {
    (if CharIn(t, i, '0', '5') && CharIn(t, i + 1, '0', '9') then [Cand(10 * DigitAt(t, i) + DigitAt(t, i + 1), i + 2)] else []) +
    (if CharIn(t, i, '0', '9') then [Cand(DigitAt(t, i), i + 1)] else [])
  }

  /** The end of the run of whitespace that starts at `i`. */
  function SpaceRunEnd(t: string, i: nat): (e: nat)
    requires i <= |t|
    ensures i <= e <= |t|
    ensures forall k :: i <= k < e ==> IsSpace(t[k])
    ensures e < |t| ==> !IsSpace(t[e])
    decreases |t| - i
  {
    if i < |t| && IsSpace(t[i]) then SpaceRunEnd(t, i + 1) else i
  }

  /** The ends a greedy `\s+` tries, longest first: e, e-1, ..., i+1. */
  function Backoff(e: nat, i: nat): (r: seq<nat>)
    ensures forall k :: 0 <= k < |r| ==> i < r[k] <= e
    decreases e
  {
    if e <= i then [] else [e] + Backoff(e - 1, i)
  }

  /** Try the hour alternatives in order; after one, a ':' and a minute end the match. */
  function TryHours(t: string, y: int, m: int, d: int, hs: seq<Cand>): (r: Option<Found>)
    requires forall k :: 0 <= k < |hs| ==> 0 <= hs[k].value < 24
    ensures r.Some? ==> r.value.dt.year == y && r.value.dt.month == m && r.value.dt.day == d
    ensures r.Some? ==> CharIn(t, r.value.end - 1, '0', '9')
    ensures r.Some? ==> 0 <= r.value.dt.hour < 24 && 0 <= r.value.dt.minute < 60
    decreases |hs|
  {
    if hs == [] then None
    else
      var ns := MinuteAlts(t, hs[0].end + 1);
      if CharIn(t, hs[0].end, ':', ':') && ns != [] then
        Some(Found(DateTime(y, m, d, hs[0].value, ns[0].value), ns[0].end))
      else TryHours(t, y, m, d, hs[1..])
  }

  /** Try each end of the whitespace run, longest first. */
  function TrySpaces(t: string, y: int, m: int, d: int, ws: seq<nat>): (r: Option<Found>)
    requires forall k :: 0 <= k < |ws| ==> ws[k] <= |t|
    ensures r.Some? ==> r.value.dt.year == y && r.value.dt.month == m && r.value.dt.day == d
    ensures r.Some? ==> CharIn(t, r.value.end - 1, '0', '9')
    ensures r.Some? ==> 0 <= r.value.dt.hour < 24 && 0 <= r.value.dt.minute < 60
    decreases |ws|
  {
    if ws == [] then None
    else
      var r := TryHours(t, y, m, d, HourAlts(t, ws[0]));
      if r.Some? then r else TrySpaces(t, y, m, d, ws[1..])
  }

  /** Try the day alternatives in order; each must be followed by `\s+`. */
  function TryDays(t: string, y: int, m: int, ds: seq<Cand>): (r: Option<Found>)
    requires forall k :: 0 <= k < |ds| ==> 1 <= ds[k].value <= 31 && ds[k].end <= |t|
    ensures r.Some? ==> r.value.dt.year == y && r.value.dt.month == m
    ensures r.Some? ==> 1 <= r.value.dt.day <= 31
    ensures r.Some? ==> CharIn(t, r.value.end - 1, '0', '9')
    ensures r.Some? ==> 0 <= r.value.dt.hour < 24 && 0 <= r.value.dt.minute < 60
    decreases |ds|
  {
    if ds == [] then None
    else
      var r := TrySpaces(t, y, m, ds[0].value, Backoff(SpaceRunEnd(t, ds[0].end), ds[0].end));
      if r.Some? then r else TryDays(t, y, m, ds[1..])
  }

  /** Try the month alternatives in order; each must be followed by '-'. */
  function TryMonths(t: string, y: int, ms: seq<Cand>): (r: Option<Found>)
    requires forall k :: 0 <= k < |ms| ==> 1 <= ms[k].value <= 12
    ensures r.Some? ==> r.value.dt.year == y && 1 <= r.value.dt.month <= 12
    ensures r.Some? ==> CharIn(t, r.value.end - 1, '0', '9')
    ensures r.Some? ==> 0 <= r.value.dt.hour < 24 && 0 <= r.value.dt.minute < 60
    decreases |ms|
  {
    if ms == [] then None
    else
      var r := if CharIn(t, ms[0].end, '-', '-')
        then TryDays(t, y, ms[0].value, DayAlts(t, ms[0].end + 1))
        else None;
      if r.Some? then r else TryMonths(t, y, ms[1..])
  }

  /** `re.match` of the whole expression at the start of `t`. */
  function MatchFormat(t: string): (r: Option<Found>)
    ensures r.Some? ==> 1 <= r.value.dt.month <= 12
    ensures r.Some? ==> CharIn(t, r.value.end - 1, '0', '9')
    ensures r.Some? ==> 0 <= r.value.dt.hour < 24 && 0 <= r.value.dt.minute < 60
  {
    if CharIn(t, 0, '0', '9') && CharIn(t, 1, '0', '9') && CharIn(t, 2, '0', '9') &&
       CharIn(t, 3, '0', '9') && CharIn(t, 4, '-', '-')
    then TryMonths(t, DigitsValue(t[..4]), MonthAlts(t, 5))
    else None
  }

  /** `datetime.strptime(t, "%Y-%m-%d %H:%M")`: the parsed date and time, or
      `None` where CPython raises `ValueError`. Whatever it accepts is a real
      date and time of day. */
  function ParseEventTime(t: string): (r: Option<DateTime>)
    ensures r.Some? ==> IsValidDateTime(r.value)
    ensures r.Some? ==> |t| > 0 && IsDigit(t[0]) && IsDigit(t[|t| - 1])
  {
    match MatchFormat(t)
    case None => None
    case Some(f) =>
      if f.end == |t| && IsValidDate(f.dt.year, f.dt.month, f.dt.day) then Some(f.dt) else None
  }

  predicate IsValidEventTime(t: string) {
    ParseEventTime(t).Some?
  }

  /** An accepted time begins and ends with a digit, so `strip()` keeps it whole. */
  lemma ValidTimeEnds(t: string)
    requires IsValidEventTime(t)
    ensures t != [] && !IsSpace(t[0]) && !IsSpace(t[|t| - 1])
  {
    assert IsDigit(t[0]) && IsDigit(t[|t| - 1]);
  }

  // ---------------------------------------------------------------------------
  // The canonical form YYYY-MM-DD HH:MM
  // ---------------------------------------------------------------------------

  function Pow10(w: nat): nat {
    if w == 0 then 1 else 10 * Pow10(w - 1)
  }

  /** `n` in exactly `w` decimal digits, zero-padded on the left. */
  function Pad(n: nat, w: nat): (r: string)
    ensures |r| == w && forall k :: 0 <= k < |r| ==> IsDigit(r[k])
  {
    if w == 0 then [] else Pad(n / 10, w - 1) + [DigitChar(n % 10)]
  }

  /** `dt.strftime("%Y-%m-%d %H:%M")`, written so that each field is followed
      by the rest of the string. */
  function Format(dt: DateTime): (r: string)
    requires IsValidDateTime(dt)
    ensures |r| == 16
  {
    Pad(dt.year, 4) + ("-" + (Pad(dt.month, 2) + ("-" + (Pad(dt.day, 2) +
      (" " + (Pad(dt.hour, 2) + (":" + Pad(dt.minute, 2))))))))
  }

  lemma {:induction false} PadValue(n: nat, w: nat)
    requires n < Pow10(w)
    ensures DigitsValue(Pad(n, w)) == n
  {
    if w > 0 {
      PadValue(n / 10, w - 1);
      var r := Pad(n, w);
      assert r[..|r| - 1] == Pad(n / 10, w - 1);
    }
  }

  lemma Pad2(n: nat)
    requires n < 100
    ensures Pad(n, 2) == [DigitChar(n / 10), DigitChar(n % 10)]
  {
    var q := n / 10;
    assert q < 10;
    assert q % 10 == q;
    assert Pad(q, 1) == Pad(q / 10, 0) + [DigitChar(q % 10)];
    assert Pad(n, 2) == Pad(q, 1) + [DigitChar(n % 10)];
  }

  /** The sixteen characters of the canonical form. */
  lemma FormatChars(dt: DateTime)
    requires IsValidDateTime(dt)
    ensures var t := Format(dt);
      && t[..4] == Pad(dt.year, 4)
      && t[4] == '-' && t[7] == '-' && t[10] == ' ' && t[13] == ':'
      && t[5] == DigitChar(dt.month / 10) && t[6] == DigitChar(dt.month % 10)
      && t[8] == DigitChar(dt.day / 10) && t[9] == DigitChar(dt.day % 10)
      && t[11] == DigitChar(dt.hour / 10) && t[12] == DigitChar(dt.hour % 10)
      && t[14] == DigitChar(dt.minute / 10) && t[15] == DigitChar(dt.minute % 10)
  {
    Pad2(dt.month);
    Pad2(dt.day);
    Pad2(dt.hour);
    Pad2(dt.minute);
  }

  lemma MonthFirst(t: string, i: nat, m: int)
    requires 1 <= m <= 12 && i + 2 <= |t|
    requires t[i] == DigitChar(m / 10) && t[i + 1] == DigitChar(m % 10)
    ensures MonthAlts(t, i) != [] && MonthAlts(t, i)[0] == Cand(m, i + 2)
  {
  }

  lemma DayFirst(t: string, i: nat, d: int)
    requires 1 <= d <= 31 && i + 2 <= |t|
    requires t[i] == DigitChar(d / 10) && t[i + 1] == DigitChar(d % 10)
    ensures DayAlts(t, i) != [] && DayAlts(t, i)[0] == Cand(d, i + 2)
  {
  }

  lemma HourFirst(t: string, i: nat, h: int)
    requires 0 <= h < 24 && i + 2 <= |t|
    requires t[i] == DigitChar(h / 10) && t[i + 1] == DigitChar(h % 10)
    ensures HourAlts(t, i) != [] && HourAlts(t, i)[0] == Cand(h, i + 2)
  {
  }

  lemma MinuteFirst(t: string, i: nat, n: int)
    requires 0 <= n < 60 && i + 2 <= |t|
    requires t[i] == DigitChar(n / 10) && t[i + 1] == DigitChar(n % 10)
    ensures MinuteAlts(t, i) != [] && MinuteAlts(t, i)[0] == Cand(n, i + 2)
  {
  }

  /** `re.match` reads the canonical rendering of a date and time as that
      date and time, whatever text follows it. */
  lemma FormatMatches(dt: DateTime, x: string)
    requires IsValidDateTime(dt)
    ensures MatchFormat(Format(dt) + x) == Some(Found(dt, 16))
  {
    var f := Format(dt);
    var t := f + x;
    FormatChars(dt);
    assert forall k :: 0 <= k < 16 ==> t[k] == f[k];
    assert t[..4] == f[..4];
    PadValue(dt.year, 4);
    MonthFirst(t, 5, dt.month);
    DayFirst(t, 8, dt.day);
    HourFirst(t, 11, dt.hour);
    MinuteFirst(t, 14, dt.minute);
    FieldsMatch(t, dt, 7);
  }

  /** The search on a text laid out as `YYYY-M-DD HH:MM...` whose month
      ends at `j` (7 for a two-digit month, 6 for a one-digit one) and whose
      first alternative for each field is the one that fits that layout. */
  lemma FieldsMatch(t: string, dt: DateTime, j: nat)
    requires |t| >= j + 9 && t[4] == '-' && t[j] == '-' && t[j + 3] == ' ' && t[j + 6] == ':'
    requires forall k :: 0 <= k < 4 ==> IsDigit(t[k])
    requires DigitsValue(t[..4]) == dt.year
    requires MonthAlts(t, 5) != [] && MonthAlts(t, 5)[0] == Cand(dt.month, j)
    requires DayAlts(t, j + 1) != [] && DayAlts(t, j + 1)[0] == Cand(dt.day, j + 3)
    requires HourAlts(t, j + 4) != [] && HourAlts(t, j + 4)[0] == Cand(dt.hour, j + 6)
    requires MinuteAlts(t, j + 7) != [] && MinuteAlts(t, j + 7)[0] == Cand(dt.minute, j + 9)
    ensures MatchFormat(t) == Some(Found(dt, j + 9))
  {
    var y, m, d := dt.year, dt.month, dt.day;
    var r := Some(Found(dt, j + 9));
    HoursStep(t, y, m, d, j + 4, dt.hour, dt.minute);
    assert IsDigit(t[j + 4]);
    SpacesStep(t, y, m, d, j + 3);
    assert TrySpaces(t, y, m, d, Backoff(SpaceRunEnd(t, j + 3), j + 3)) == r;
    DaysStep(t, y, m, j + 1);
    assert TryDays(t, y, m, DayAlts(t, j + 1)) == r;
    MonthsStep(t, y);
    MatchStep(t, y);
  }

  lemma MatchStep(t: string, y: int)
    requires |t| >= 5 && t[4] == '-'
    requires forall k :: 0 <= k < 4 ==> IsDigit(t[k])
    requires DigitsValue(t[..4]) == y
    ensures MatchFormat(t) == TryMonths(t, y, MonthAlts(t, 5))
  {
    assert IsDigit(t[0]) && IsDigit(t[1]) && IsDigit(t[2]) && IsDigit(t[3]);
  }

  /** The match steps, from the innermost out: `i` is where the field
      starts and `j` where the one before it ends. */
  lemma HoursStep(t: string, y: int, m: int, d: int, i: nat, h: int, n: int)
    requires |t| >= i + 5 && t[i + 2] == ':'
    requires HourAlts(t, i) != [] && HourAlts(t, i)[0] == Cand(h, i + 2)
    requires MinuteAlts(t, i + 3) != [] && MinuteAlts(t, i + 3)[0] == Cand(n, i + 5)
    ensures TryHours(t, y, m, d, HourAlts(t, i)) == Some(Found(DateTime(y, m, d, h, n), i + 5))
  {
  }

  lemma SpacesStep(t: string, y: int, m: int, d: int, j: nat)
    requires |t| >= j + 2 && t[j] == ' ' && IsDigit(t[j + 1])
    requires TryHours(t, y, m, d, HourAlts(t, j + 1)).Some?
    ensures TrySpaces(t, y, m, d, Backoff(SpaceRunEnd(t, j), j)) == TryHours(t, y, m, d, HourAlts(t, j + 1))
  {
    assert SpaceRunEnd(t, j + 1) == j + 1;
    assert SpaceRunEnd(t, j) == j + 1;
    assert Backoff(j + 1, j) == [j + 1];
  }

  lemma DaysStep(t: string, y: int, m: int, i: nat)
    requires DayAlts(t, i) != []
    requires TrySpaces(t, y, m, DayAlts(t, i)[0].value, Backoff(SpaceRunEnd(t, DayAlts(t, i)[0].end), DayAlts(t, i)[0].end)).Some?
    ensures TryDays(t, y, m, DayAlts(t, i)) ==
      TrySpaces(t, y, m, DayAlts(t, i)[0].value, Backoff(SpaceRunEnd(t, DayAlts(t, i)[0].end), DayAlts(t, i)[0].end))
  {
  }

  lemma MonthsStep(t: string, y: int)
    requires MonthAlts(t, 5) != [] && CharIn(t, MonthAlts(t, 5)[0].end, '-', '-')
    requires TryDays(t, y, MonthAlts(t, 5)[0].value, DayAlts(t, MonthAlts(t, 5)[0].end + 1)).Some?
    ensures TryMonths(t, y, MonthAlts(t, 5)) == TryDays(t, y, MonthAlts(t, 5)[0].value, DayAlts(t, MonthAlts(t, 5)[0].end + 1))
  {
  }

  /** The canonical rendering of every real date and time passes the CPython
      check and parses back to that same date and time; any text after it,
      even a single blank, is "unconverted data" and is refused. */
  lemma FormatParses(dt: DateTime, x: string)
    requires IsValidDateTime(dt)
    ensures ParseEventTime(Format(dt) + x) == if x == [] then Some(dt) else None
  {
    FormatMatches(dt, x);
  }

  lemma ParseOctober()
    ensures ParseEventTime("2024-10-01 10:00") == Some(DateTime(2024, 10, 1, 10, 0))
  {
    var t := "2024-10-01 10:00";
    var dt := DateTime(2024, 10, 1, 10, 0);
    OctoberFields(t);
    FieldsMatch(t, dt, 7);
  }

  lemma OctoberFields(t: string)
    requires t == "2024-10-01 10:00"
    ensures |t| == 16 && t[4] == '-' && t[7] == '-' && t[10] == ' ' && t[13] == ':'
    ensures forall k :: 0 <= k < 4 ==> IsDigit(t[k])
    ensures DigitsValue(t[..4]) == 2024
    ensures MonthAlts(t, 5) != [] && MonthAlts(t, 5)[0] == Cand(10, 7)
    ensures DayAlts(t, 8) != [] && DayAlts(t, 8)[0] == Cand(1, 10)
    ensures HourAlts(t, 11) != [] && HourAlts(t, 11)[0] == Cand(10, 13)
    ensures MinuteAlts(t, 14) != [] && MinuteAlts(t, 14)[0] == Cand(0, 16)
  {
    assert t[..4] == "2024";
    Year2024(t[..4]);
    MonthFirst(t, 5, 10);
    DayFirst(t, 8, 1);
    HourFirst(t, 11, 10);
    MinuteFirst(t, 14, 0);
  }

  lemma Year2024(s: string)
    requires s == "2024"
    ensures DigitsValue(s) == 2024
  {
    assert s[..3] == "202";
    assert "202"[..2] == "20";
    assert "20"[..1] == "2";
    assert "2"[..0] == "";
  }

  lemma ParseSeptember()
    ensures ParseEventTime("2024-9-01 10:00") == Some(DateTime(2024, 9, 1, 10, 0))
  {
    var u := "2024-9-01 10:00";
    SeptemberFields(u);
    FieldsMatch(u, DateTime(2024, 9, 1, 10, 0), 6);
  }

  lemma SeptemberFields(u: string)
    requires u == "2024-9-01 10:00"
    ensures |u| == 15 && u[4] == '-' && u[6] == '-' && u[9] == ' ' && u[12] == ':'
    ensures forall k :: 0 <= k < 4 ==> IsDigit(u[k])
    ensures DigitsValue(u[..4]) == 2024
    ensures MonthAlts(u, 5) == [Cand(9, 6)]
    ensures DayAlts(u, 7) != [] && DayAlts(u, 7)[0] == Cand(1, 9)
    ensures HourAlts(u, 10) != [] && HourAlts(u, 10)[0] == Cand(10, 12)
    ensures MinuteAlts(u, 13) != [] && MinuteAlts(u, 13)[0] == Cand(0, 15)
  {
    assert u[..4] == "2024";
    Year2024(u[..4]);
    DayFirst(u, 7, 1);
    HourFirst(u, 10, 10);
    MinuteFirst(u, 13, 0);
  }

}
