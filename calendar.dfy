/** The part of Go's `time` package the decoder uses: parsing the layouts
    "020106" (DDMMYY) and "020106 150405" (DDMMYY HHMMSS) into instants, and
    `Time.Sub`, which yields a `time.Duration` of nanoseconds in 64 bits.

    An instant is a whole number of seconds since 0001-01-01 00:00:00 UTC,
    so Go's zero `time.Time{}` is the instant 0. */
module Calendar {
  import opened Errors
  import opened Text

  datatype Date = Date(year: int, month: int, day: int)

  predicate IsLeap(y: int) {
    y % 4 == 0 && (y % 100 != 0 || y % 400 == 0)
  }

  function DaysIn(month: int, year: int): (n: int)
    requires 1 <= month <= 12
    ensures 28 <= n <= 31
  {
    if month == 2 then (if IsLeap(year) then 29 else 28)
    else if month == 4 || month == 6 || month == 9 || month == 11 then 30
    else 31
  }

  predicate ValidDate(d: Date) {
    1 <= d.month <= 12 && 1 <= d.day <= DaysIn(d.month, d.year)
  }

  /** Go's two-digit year "06", read by an `atoi` that takes a sign: 69..99
      are 1969..1999, and 00..68 as well as -9..-1 are 2000..2068 and
      1991..1999. */
  function FullYear(yy: int): (y: int)
    requires -10 < yy < 100
    ensures 1969 <= y <= 2068
    ensures 0 <= yy ==> y % 100 == yy
    ensures yy < 0 ==> y == 2000 + yy
  {
    if yy >= 69 then 1900 + yy else 2000 + yy
  }

  /** `time.Parse("020106", tok)`: two digits of day, two of month and a
      two-character year (two digits, or a sign and one digit), naming a
      real calendar day. */
  function ParseDate(tok: string): (r: Option<Date>)
    ensures r.Some? ==> |tok| == 6 && AllDigits(tok[0..4]) && Atoi(tok[4..6]).Some? && ValidDate(r.value)
    ensures r.Some? ==> r.value.day == DigitsValue(tok[0..2]) && r.value.month == DigitsValue(tok[2..4])
    ensures r.Some? ==> -10 < Atoi(tok[4..6]).value < 100 && r.value.year == FullYear(Atoi(tok[4..6]).value)
    ensures |tok| == 6 && AllDigits(tok) ==>
      (r.Some? <==> ValidDate(Date(FullYear(DigitsValue(tok[4..6])), DigitsValue(tok[2..4]), DigitsValue(tok[0..2]))))
    ensures (|tok| == 6 && AllDigits(tok[0..4]) && (tok[4] == '+' || tok[4] == '-') && IsDigit(tok[5])) ==>
      var yy: int := if tok[4] == '-' then -(DigitValue(tok[5]) as int) else DigitValue(tok[5]);
      (r.Some? <==> ValidDate(Date(FullYear(yy), DigitsValue(tok[2..4]), DigitsValue(tok[0..2]))))
  {
    if |tok| == 6 && AllDigits(tok[0..4]) then
      Pow10Values();
      var yy := Atoi(tok[4..6]);
      if yy.Some? then
        var d := Date(FullYear(yy.value), DigitsValue(tok[2..4]), DigitsValue(tok[0..2]));
        if ValidDate(d) then Some(d) else None
      else None
    else
      None
  }

  /** A signed year is accepted as Go's `atoi` accepts it: "+5" is 2005
      and "-5" is 1995. */
  lemma SignedYear()
    ensures ParseDate("0101+5") == Some(Date(2005, 1, 1))
    ensures ParseDate("0101-5") == Some(Date(1995, 1, 1))
  {
    assert "0101+5"[4..6][1..] == "5" && "0101-5"[4..6][1..] == "5";
    assert "0101+5"[0..4] == "0101" && "0101-5"[0..4] == "0101";
    assert "0101"[0..2] == "01" && "0101"[2..4] == "01" && "01"[..1] == "0";
  }

  /** `time.Parse("150405", s)` as seconds of the day: six digits HHMMSS with
      hours below 24 and minutes and seconds below 60. */
  function ParseClock(s: string): (r: Option<nat>)
    ensures r.Some? ==> |s| == 6 && AllDigits(s) && r.value < 86400
    ensures r.Some? ==> r.value == DigitsValue(s[0..2]) * 3600 + DigitsValue(s[2..4]) * 60 + DigitsValue(s[4..6])
  {
    if |s| == 6 && AllDigits(s) then
      var h, m, sec := DigitsValue(s[0..2]), DigitsValue(s[2..4]), DigitsValue(s[4..6]);
      if h < 24 && m < 60 && sec < 60 then Some(h * 3600 + m * 60 + sec) else None
    else
      None
  }

  /** Days from 0001-01-01 to the given day of the proleptic Gregorian
      calendar (the civil-from-days arithmetic of H. Hinnant, shifted so that
      0001-01-01 is day 0). */
  function DayNumber(d: Date): int
    requires 1 <= d.month <= 12
  {
    var y := if d.month <= 2 then d.year - 1 else d.year;
    var era := y / 400;
    var yoe := y - era * 400;
    var mp := if d.month > 2 then d.month - 3 else d.month + 9;
    var doy := (153 * mp + 2) / 5 + d.day - 1;
    var doe := yoe * 365 + yoe / 4 - yoe / 100 + doy;
    era * 146097 + doe - 306
  }

  lemma DayNumberOrigin()
    ensures DayNumber(Date(1, 1, 1)) == 0
  {
  }

  /** Consecutive days of a month, and the last day of a month and the first
      of the next, have consecutive day numbers. */
  lemma DayNumberNextDay(d: Date)
    requires ValidDate(d)
    ensures d.day < DaysIn(d.month, d.year) ==>
      DayNumber(Date(d.year, d.month, d.day + 1)) == DayNumber(d) + 1
    ensures d.day == DaysIn(d.month, d.year) && d.month < 12 ==>
      DayNumber(Date(d.year, d.month + 1, 1)) == DayNumber(d) + 1
    ensures d.day == DaysIn(d.month, d.year) && d.month == 12 ==>
      DayNumber(Date(d.year + 1, 1, 1)) == DayNumber(d) + 1
  {
    if d.day == DaysIn(d.month, d.year) && d.month == 2 {
      FebruaryToMarch(d.year);
    }
  }

  lemma FebruaryToMarch(year: int)
    ensures DayNumber(Date(year, 3, 1)) == DayNumber(Date(year, 2, DaysIn(2, year))) + 1
  {
    var era := (year - 1) / 400;
    var k := year - era * 400;
    LeapEvery400(era, k);
    var last := DaysIn(2, year);
    LastOfFebruary(year, era, k, last);
    FirstOfMarch(year, era, k);
    LeapDayCount(k);
  }

  lemma LeapEvery400(era: int, k: int)
    ensures IsLeap(era * 400 + k) == IsLeap(k)
  {
    ModShift(era, k);
  }

  lemma ModShift(c: int, k: int)
    ensures (400 * c + k) % 4 == k % 4
    ensures (400 * c + k) % 100 == k % 100
    ensures (400 * c + k) % 400 == k % 400
  {
    ModShift4(c, k);
    ModShift100(c, k);
    ModShift400(c, k);
  }

  lemma ModShift4(c: int, k: int)
    ensures (400 * c + k) % 4 == k % 4
  {
    var q, r := 100 * c + k / 4, k % 4;
    assert 400 * c + k == 4 * q + r && 0 <= r < 4;
  }

  lemma ModShift100(c: int, k: int)
    ensures (400 * c + k) % 100 == k % 100
  {
    var q, r := 4 * c + k / 100, k % 100;
    assert 400 * c + k == 100 * q + r && 0 <= r < 100;
  }

  lemma ModShift400(c: int, k: int)
    ensures (400 * c + k) % 400 == k % 400
  {
    var q, r := c + k / 400, k % 400;
    assert 400 * c + k == 400 * q + r && 0 <= r < 400;
  }

  /** Hinnant's day of the era of the last day of February `year`, where
      `year - 1` is year `k - 1` of era `era`. */
  lemma LastOfFebruary(year: int, era: int, k: int, last: int)
    requires era == (year - 1) / 400 && k == year - era * 400 && 1 <= last <= 29
    ensures 1 <= k <= 400
    ensures DayNumber(Date(year, 2, last))
         == era * 146097 + (k - 1) * 365 + (k - 1) / 4 - (k - 1) / 100 + 336 + last - 306
  {
  }

  lemma FirstOfMarch(year: int, era: int, k: int)
    requires era == (year - 1) / 400 && k == year - era * 400
    ensures k == 400 ==> DayNumber(Date(year, 3, 1)) == (era + 1) * 146097 - 306
    ensures k < 400 ==> DayNumber(Date(year, 3, 1)) == era * 146097 + k * 365 + k / 4 - k / 100 - 306
  {
    if k == 400 {
      assert year / 400 == era + 1;
    } else {
      assert year / 400 == era;
    }
  }

  /** Within an era, year k adds a leap day exactly when it is a leap year. */
  lemma LeapDayCount(k: int)
    requires 1 <= k <= 400
    ensures k < 400 ==>
      k * 365 + k / 4 - k / 100 - ((k - 1) * 365 + (k - 1) / 4 - (k - 1) / 100) == 365 + (if IsLeap(k) then 1 else 0)
    ensures k == 400 ==> 146097 - (399 * 365 + 399 / 4 - 399 / 100) == 366 && IsLeap(k)
  {
  }

  const SecondsPerDay := 86400

  function Instant(d: Date, secondOfDay: nat): int
    requires 1 <= d.month <= 12
  {
    DayNumber(d) * SecondsPerDay + secondOfDay
  }

  /** s without its trailing spaces. */
  function TrimTrailingSpaces(s: string): (t: string)
    ensures t <= s && (t == [] || t[|t| - 1] != ' ')
    ensures forall i :: |t| <= i < |s| ==> s[i] == ' '
  {
    if s != [] && s[|s| - 1] == ' ' then TrimTrailingSpaces(s[..|s| - 1]) else s
  }

  /** A date token that parses ends in a digit, so it has no trailing spaces. */
  lemma ValidDateUntrimmed(tok: string)
    ensures ParseDate(tok).Some? ==> TrimTrailingSpaces(tok) == tok
  {
    if ParseDate(tok).Some? {
      assert IsDigit(tok[4..6][1]);
    }
  }

  /** `time.Parse("020106 150405", date + " " + clock)`. The layout's space
      matches any run of spaces, so the date is the token with its trailing
      spaces removed, and it must itself be a valid DDMMYY: an empty token
      (no date header seen) is an error. The clock, six characters, parses
      only when it is six digits, so spaces before it never help. */
  function ParseTimestamp(date: string, clock: string): (r: Result<int>)
    ensures r.Ok? <==> ParseDate(TrimTrailingSpaces(date)).Some? && ParseClock(clock).Some?
    ensures r.Ok? ==> r.value == Instant(ParseDate(TrimTrailingSpaces(date)).value, ParseClock(clock).value)
    ensures ParseDate(date).Some? ==> (r.Ok? <==> ParseClock(clock).Some?)
    ensures ParseDate(date).Some? && r.Ok? ==> r.value == Instant(ParseDate(date).value, ParseClock(clock).value)
  {
    ValidDateUntrimmed(date);
    match (ParseDate(TrimTrailingSpaces(date)), ParseClock(clock))
    case (Some(d), Some(s)) => Ok(Instant(d, s))
    case _ => Err(BadTimestamp)
  }

  /** A space after the date token changes nothing: "010120  120000" reads
      as "010120 120000". */
  lemma SpacesAfterDate(date: string, clock: string)
    ensures ParseTimestamp(date + " ", clock) == ParseTimestamp(date, clock)
  {
    assert (date + " ")[..|date|] == date;
  }

  /** Two timestamps on the same date token lie as many seconds apart as
      their clock readings. */
  lemma SameDateSpan(date: string, c1: string, c2: string)
    requires ParseTimestamp(date, c1).Ok? && ParseTimestamp(date, c2).Ok?
    ensures ParseTimestamp(date, c2).value - ParseTimestamp(date, c1).value
         == ParseClock(c2).value - ParseClock(c1).value
  {
  }

  /** `time.Duration` bounds: a signed 64-bit count of nanoseconds. */
  const MinDuration: int := -0x8000_0000_0000_0000
  const MaxDuration: int := 0x7fff_ffff_ffff_ffff
  const NanosPerSecond := 1_000_000_000

  /** `t.Sub(u)`: the nanoseconds from u to t, saturated at the bounds of a
      `time.Duration` when they do not fit. */
  function Sub(t: int, u: int): (d: int)
    ensures MinDuration <= d <= MaxDuration
    ensures MinDuration <= (t - u) * NanosPerSecond <= MaxDuration ==> d == (t - u) * NanosPerSecond
    ensures (t - u) * NanosPerSecond > MaxDuration ==> d == MaxDuration
    ensures (t - u) * NanosPerSecond < MinDuration ==> d == MinDuration
  {
    var exact := (t - u) * NanosPerSecond;
    if exact > MaxDuration then MaxDuration
    else if exact < MinDuration then MinDuration
    else exact
  }

  /** Sub keeps the sign of t - u: never negative when u is not after t. */
  lemma SubSign(t: int, u: int)
    ensures u <= t ==> Sub(t, u) >= 0
    ensures t < u ==> Sub(t, u) < 0
    ensures t == u ==> Sub(t, u) == 0
  {
  }
}
