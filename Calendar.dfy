// Calendar date-times as Python's `datetime.datetime` sees them (minute precision),
// the `"%Y-%m-%d %H:%M"` format both scripts print and read, and the validity check
// the `datetime` constructor performs.

module Calendar {
  import opened Optional
  import opened PyText

  datatype DateTime = DateTime(year: int, month: int, day: int, hour: int, minute: int)

  predicate IsLeapYear(y: int) {
    y % 4 == 0 && (y % 100 != 0 || y % 400 == 0)
  }

  function DaysInMonth(y: int, m: int): int
    requires 1 <= m <= 12
  {
    if m == 2 then (if IsLeapYear(y) then 29 else 28)
    else if m == 4 || m == 6 || m == 9 || m == 11 then 30
    else 31
  }

  /** The ranges `datetime.datetime(year, month, day, hour, minute)` accepts
      (MINYEAR = 1, MAXYEAR = 9999); outside them it raises ValueError. */
  predicate Valid(dt: DateTime) {
    && 1 <= dt.year <= 9999
    && 1 <= dt.month <= 12
    && 1 <= dt.day <= DaysInMonth(dt.year, dt.month)
    && 0 <= dt.hour <= 23
    && 0 <= dt.minute <= 59
  }

  /** The `datetime.datetime(...)` constructor: None where it raises ValueError. */
  function MakeDateTime(year: int, month: int, day: int, hour: int, minute: int): (r: Option<DateTime>)
    ensures r.Some? <==> Valid(DateTime(year, month, day, hour, minute))
    ensures r.Some? ==> r.value == DateTime(year, month, day, hour, minute)
  {
    var dt := DateTime(year, month, day, hour, minute);
    if Valid(dt) then Some(dt) else None
  }

  /** `strftime("%Y-%m-%d %H:%M")`, for years written with four digits. */
  function Strftime(dt: DateTime): (s: string)
    requires Valid(dt) && dt.year >= 1000
    ensures |s| == 16
  {
    Pad(dt.year, 4) + "-" + Pad(dt.month, 2) + "-" + Pad(dt.day, 2) + " "
    + Pad(dt.hour, 2) + ":" + Pad(dt.minute, 2)
  }

  // ---------------------------------------------------------------------------
  // strptime(s, "%Y-%m-%d %H:%M")
  //
  // Python compiles this format to the regular expression
  //   (?P<Y>\d\d\d\d)-(?P<m>1[0-2]|0[1-9]|[1-9])-(?P<d>3[01]|[12]\d|0[1-9]|[1-9]| [1-9])
  //   \s+(?P<H>2[0-3]|[0-1]\d|\d):(?P<M>[0-5]\d|\d)
  // matches it at the start of `s`, raises ValueError when it does not match or when
  // characters remain after the match, and then when the day does not exist in that
  // month or the year is 0. Because every field is followed by a non-digit (or by the
  // end), each numeric field is exactly the run of digits at its position: a run of one
  // or two digits whose value lies in the field's range.

  /** The number of consecutive ASCII digits in `s` from index `i`. */
  function DigitRun(s: string, i: nat): (n: nat)
    requires i <= |s|
    ensures i + n <= |s| && AllDigits(s[i..i + n])
    ensures i + n < |s| ==> !IsDigit(s[i + n])
    decreases |s| - i
  {
    if i < |s| && IsDigit(s[i]) then
      var n := DigitRun(s, i + 1);
      assert s[i..i + 1 + n] == [s[i]] + s[i + 1..i + 1 + n];
      n + 1
    else 0
  }

  /** The number of consecutive whitespace characters in `s` from index `i` (`\s*`). */
  function SpaceRun(s: string, i: nat): (n: nat)
    requires i <= |s|
    ensures i + n <= |s|
    ensures i + n < |s| ==> !IsSpace(s[i + n])
    decreases |s| - i
  {
    if i < |s| && IsSpace(s[i]) then SpaceRun(s, i + 1) + 1 else 0
  }

  datatype Field = Field(value: nat, next: nat)

  /** A numeric field at `i`: one or two digits with a value in `lo..hi`. */
  function NumberField(s: string, i: nat, lo: nat, hi: nat): (r: Option<Field>)
    requires i <= |s|
    ensures r.Some? ==> lo <= r.value.value <= hi && i < r.value.next <= i + 2 && r.value.next <= |s|
  {
    var n := DigitRun(s, i);
    if 1 <= n <= 2 && lo <= DigitsValue(s[i..i + n]) <= hi then Some(Field(DigitsValue(s[i..i + n]), i + n))
    else None
  }

  /** The day field also accepts a space followed by a single digit 1-9. */
  function DayField(s: string, i: nat): (r: Option<Field>)
    requires i <= |s|
    ensures r.Some? ==> 1 <= r.value.value <= 31 && i < r.value.next <= |s|
  {
    if i + 1 < |s| && s[i] == ' ' && '1' <= s[i + 1] <= '9' && DigitRun(s, i + 1) == 1 then
      Some(Field(DigitValue(s[i + 1]), i + 2))
    else NumberField(s, i, 1, 31)
  }

  function Strptime(s: string): (r: Option<DateTime>)
    ensures r.Some? ==> Valid(r.value)
  {
    if |s| < 5 || DigitRun(s, 0) != 4 || s[4] != '-' then None
    else
      var year := DigitsValue(s[..4]);
      match NumberField(s, 5, 1, 12)
      case None => None
      case Some(m) =>
        if m.next >= |s| || s[m.next] != '-' then None
        else match DayField(s, m.next + 1)
        case None => None
        case Some(d) =>
          var sp := SpaceRun(s, d.next);
          if sp == 0 then None
          else match NumberField(s, d.next + sp, 0, 23)
          case None => None
          case Some(h) =>
            if h.next >= |s| || s[h.next] != ':' then None
            else match NumberField(s, h.next + 1, 0, 59)
            case None => None
            case Some(mi) =>
              if mi.next != |s| then None
              else MakeDateTime(year, m.value, d.value, h.value, mi.value)
  }

  // ---------------------------------------------------------------------------
  // strptime(strftime(dt)) == dt

  lemma DigitRunIs(s: string, i: nat, n: nat)
    requires i + n <= |s| && AllDigits(s[i..i + n])
    requires i + n < |s| ==> !IsDigit(s[i + n])
    ensures DigitRun(s, i) == n
    decreases n
  {
    if n > 0 {
      assert IsDigit(s[i..i + n][0]);
      assert s[i + 1..i + n] == s[i..i + n][1..];
      DigitRunIs(s, i + 1, n - 1);
    }
  }

  /** A two-digit zero-padded field inside a larger string reads back as its value. */
  lemma PaddedField(s: string, i: nat, v: nat, lo: nat, hi: nat)
    requires v < 100 && lo <= v <= hi
    requires i + 2 <= |s| && s[i..i + 2] == Pad(v, 2)
    requires i + 2 < |s| ==> !IsDigit(s[i + 2])
    ensures NumberField(s, i, lo, hi) == Some(Field(v, i + 2))
  {
    DigitRunIs(s, i, 2);
    PadValue(v, 2);
  }

  /** Where the fields of `strftime(dt)` sit. */
  lemma StrftimeLayout(dt: DateTime)
    requires Valid(dt) && dt.year >= 1000
    ensures var s := Strftime(dt);
      && s[..4] == Pad(dt.year, 4) && s[5..7] == Pad(dt.month, 2) && s[8..10] == Pad(dt.day, 2)
      && s[11..13] == Pad(dt.hour, 2) && s[14..16] == Pad(dt.minute, 2)
      && s[4] == '-' && s[7] == '-' && s[10] == ' ' && s[13] == ':'
  {
  }

  /** `strptime(strftime(dt, F), F) == dt` for F = "%Y-%m-%d %H:%M". */
  lemma StrptimeStrftime(dt: DateTime)
    requires Valid(dt) && dt.year >= 1000
    ensures Strptime(Strftime(dt)) == Some(dt)
  {
    var s := Strftime(dt);
    StrftimeYear(dt);
    StrftimeMonthDay(dt);
    StrftimeTime(dt);
    StrftimeLayout(dt);
    StrptimeFields(s, dt.year, dt.month, dt.day, dt.hour, dt.minute);
  }

  lemma StrftimeYear(dt: DateTime)
    requires Valid(dt) && dt.year >= 1000
    ensures DigitRun(Strftime(dt), 0) == 4 && DigitsValue(Strftime(dt)[..4]) == dt.year
  {
    var s := Strftime(dt);
    StrftimeLayout(dt);
    assert s[0..4] == s[..4];
    DigitRunIs(s, 0, 4);
    PadValue(dt.year, 4);
  }

  lemma StrftimeMonthDay(dt: DateTime)
    requires Valid(dt) && dt.year >= 1000
    ensures NumberField(Strftime(dt), 5, 1, 12) == Some(Field(dt.month, 7))
    ensures DayField(Strftime(dt), 8) == Some(Field(dt.day, 10))
  {
    var s := Strftime(dt);
    StrftimeLayout(dt);
    PaddedField(s, 5, dt.month, 1, 12);
    assert IsDigit(s[8..10][0]);
    PaddedField(s, 8, dt.day, 1, 31);
  }

  lemma StrftimeTime(dt: DateTime)
    requires Valid(dt) && dt.year >= 1000
    ensures SpaceRun(Strftime(dt), 10) == 1
    ensures NumberField(Strftime(dt), 11, 0, 23) == Some(Field(dt.hour, 13))
    ensures NumberField(Strftime(dt), 14, 0, 59) == Some(Field(dt.minute, 16))
  {
    var s := Strftime(dt);
    StrftimeLayout(dt);
    assert IsDigit(s[11..13][0]);
    PaddedField(s, 11, dt.hour, 0, 23);
    PaddedField(s, 14, dt.minute, 0, 59);
  }

  /** The parse of a 16-character text whose fields have been read one by one. */
  lemma StrptimeFields(s: string, year: int, month: nat, day: nat, hour: nat, minute: nat)
    requires |s| == 16 && DigitRun(s, 0) == 4 && s[4] == '-' && DigitsValue(s[..4]) == year
    requires NumberField(s, 5, 1, 12) == Some(Field(month, 7)) && s[7] == '-'
    requires DayField(s, 8) == Some(Field(day, 10)) && SpaceRun(s, 10) == 1
    requires NumberField(s, 11, 0, 23) == Some(Field(hour, 13)) && s[13] == ':'
    requires NumberField(s, 14, 0, 59) == Some(Field(minute, 16))
    ensures Strptime(s) == MakeDateTime(year, month, day, hour, minute)
  {
  }
}
