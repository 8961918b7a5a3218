// The three deadlines of a notice page (scraper.py): the text "YYYY-MM-DD HH:MM" is cut
// at the first space into a date and a time, the date at "-" and the time at ":", each
// piece is read with `int()` and the five numbers go to `datetime.datetime`. Any
// failure on the way (a missing piece, a piece `int()` rejects, a date that does not
// exist) lands in a bare `except` and the deadline becomes None. The closing deadline
// also drops everything from the first "(" and strips the rest.

module Deadlines {
  import opened Optional
  import opened PyText
  import opened Calendar

  /** The five-field parse shared by the three deadlines. */
  function ParseStamp(s: string): (r: Option<DateTime>)
    ensures r.Some? ==> Valid(r.value)
  {
    var parts := Split(s, " ");
    if |parts| < 2 then None
    else FromFields(Split(parts[0], "-"), Split(parts[1], ":"))
  }

  /** Reading `date[0..3]` and `time[0..2]`; a missing index is an IndexError, a piece
      `int()` rejects a ValueError, both caught and giving None. */
  function FromFields(date: seq<string>, time: seq<string>): (r: Option<DateTime>)
    ensures r.Some? ==> Valid(r.value)
    ensures |date| < 3 || |time| < 2 ==> r == None
    ensures |date| >= 3 && |time| >= 2 ==>
      (PyInt(date[0]).None? || PyInt(date[1]).None? || PyInt(date[2]).None? ||
       PyInt(time[0]).None? || PyInt(time[1]).None?) ==> r == None
  {
    if |date| < 3 || |time| < 2 then None
    else
      match (PyInt(date[0]), PyInt(date[1]), PyInt(date[2]), PyInt(time[0]), PyInt(time[1]))
      case (Some(y), Some(m), Some(d), Some(h), Some(mi)) => MakeDateTime(y, m, d, h, mi)
      case _ => None
  }

  /** The closing deadline: `deadline.split('(')[0].strip()` before the shared parse. */
  function ParseDeadline(s: string): (r: Option<DateTime>)
    ensures r.Some? ==> Valid(r.value)
  {
    ParseStamp(Strip(Split(s, "(")[0]))
  }

  /** The deadline for offers. */
  function ParseOfferDeadline(s: string): (r: Option<DateTime>)
    ensures r.Some? ==> Valid(r.value)
  {
    ParseStamp(s)
  }

  /** The deadline for questions. */
  function ParseQuestionsDeadline(s: string): (r: Option<DateTime>)
    ensures r.Some? ==> Valid(r.value)
  {
    ParseStamp(s)
  }

  // ---------------------------------------------------------------------------
  // What the parse accepts

  /** A date-time written with digit fields. */
  function StampText(y: string, m: string, d: string, h: string, mi: string): string {
    y + "-" + m + "-" + d + " " + h + ":" + mi
  }

  predicate DigitField(u: string) {
    |u| > 0 && AllDigits(u)
  }

  /** The date half "Y-M-D" splits into its three fields. */
  lemma DateSplit(y: string, m: string, d: string)
    requires AllDigits(y) && AllDigits(m) && AllDigits(d)
    ensures Split(y + "-" + m + "-" + d, "-") == [y, m, d]
  {
    DigitsNoChar(y, '-');
    DigitsNoChar(m, '-');
    DigitsNoChar(d, '-');
    SplitCat(y, '-', m);
    SplitCat(y + "-" + m, '-', d);
  }

  /** The date half contains no space. */
  lemma DateNoSpace(y: string, m: string, d: string)
    requires AllDigits(y) && AllDigits(m) && AllDigits(d)
    ensures Split(y + "-" + m + "-" + d, " ") == [y + "-" + m + "-" + d]
  {
    var t := y + "-" + m + "-" + d;
    forall i | 0 <= i < |t|
      ensures t[i] != ' '
    {
      if i < |y| {
        assert t[i] == y[i] && IsDigit(y[i]);
      } else if i == |y| || i == |y| + 1 + |m| {
      } else if i < |y| + 1 + |m| {
        assert t[i] == m[i - |y| - 1] && IsDigit(m[i - |y| - 1]);
      } else {
        assert t[i] == d[i - |y| - |m| - 2] && IsDigit(d[i - |y| - |m| - 2]);
      }
    }
    SplitNoChar(t, ' ');
  }

  /** The time half "H:M" splits into its two fields and contains no space. */
  lemma TimeSplit(h: string, mi: string)
    requires AllDigits(h) && AllDigits(mi)
    ensures Split(h + ":" + mi, ":") == [h, mi]
    ensures Split(h + ":" + mi, " ") == [h + ":" + mi]
  {
    DigitsNoChar(h, ':');
    DigitsNoChar(mi, ':');
    SplitCat(h, ':', mi);
    var t := h + ":" + mi;
    forall i | 0 <= i < |t|
      ensures t[i] != ' '
    {
      if i < |h| {
        assert t[i] == h[i] && IsDigit(h[i]);
      } else if i > |h| {
        assert t[i] == mi[i - |h| - 1] && IsDigit(mi[i - |h| - 1]);
      }
    }
    SplitNoChar(t, ' ');
  }

  /** The shared parse reads only the first two space-separated words. */
  lemma ParseStampOf(s: string, date: string, time: string, rest: seq<string>)
    requires Split(s, " ") == [date, time] + rest
    ensures ParseStamp(s) == FromFields(Split(date, "-"), Split(time, ":"))
  {
  }

  /** Only the first two fields of the time are read. */
  lemma FromFieldsTime(date: seq<string>, t1: seq<string>, t2: seq<string>)
    requires |t1| >= 2 && |t2| >= 2 && t1[0] == t2[0] && t1[1] == t2[1]
    ensures FromFields(date, t1) == FromFields(date, t2)
  {
  }

  /** Five digit fields are read as their decimal values. */
  lemma FromDigitFields(y: string, m: string, d: string, h: string, mi: string,
                        vy: int, vm: int, vd: int, vh: int, vmi: int)
    requires DigitField(y) && DigitField(m) && DigitField(d) && DigitField(h) && DigitField(mi)
    requires vy == DigitsValue(y) && vm == DigitsValue(m) && vd == DigitsValue(d)
    requires vh == DigitsValue(h) && vmi == DigitsValue(mi)
    ensures FromFields([y, m, d], [h, mi]) == MakeDateTime(vy, vm, vd, vh, vmi)
  {
    PyIntDigits(y);
    PyIntDigits(m);
    PyIntDigits(d);
    PyIntDigits(h);
    PyIntDigits(mi);
    FromFieldValues([y, m, d], [h, mi], vy, vm, vd, vh, vmi);
  }

  lemma FromFieldValues(date: seq<string>, time: seq<string>, y: int, m: int, d: int, h: int, mi: int)
    requires |date| >= 3 && |time| >= 2
    requires PyInt(date[0]) == Some(y) && PyInt(date[1]) == Some(m) && PyInt(date[2]) == Some(d)
    requires PyInt(time[0]) == Some(h) && PyInt(time[1]) == Some(mi)
    ensures FromFields(date, time) == MakeDateTime(y, m, d, h, mi)
  {
  }

  /** The stamp is two words: the date and the time. */
  lemma StampSplit(y: string, m: string, d: string, h: string, mi: string)
    requires AllDigits(y) && AllDigits(m) && AllDigits(d) && AllDigits(h) && AllDigits(mi)
    ensures Split(StampText(y, m, d, h, mi), " ") == [y + "-" + m + "-" + d, h + ":" + mi]
  {
    var date := y + "-" + m + "-" + d;
    var time := h + ":" + mi;
    assert StampText(y, m, d, h, mi) == date + [' '] + time;
    DateNoSpace(y, m, d);
    TimeSplit(h, mi);
    SplitCat(date, ' ', time);
  }

  /** A stamp made of five digit fields gives exactly the date-time of their values,
      when that date-time exists, and None otherwise. */
  lemma ParseStampFields(y: string, m: string, d: string, h: string, mi: string,
                         vy: int, vm: int, vd: int, vh: int, vmi: int)
    requires DigitField(y) && DigitField(m) && DigitField(d) && DigitField(h) && DigitField(mi)
    requires vy == DigitsValue(y) && vm == DigitsValue(m) && vd == DigitsValue(d)
    requires vh == DigitsValue(h) && vmi == DigitsValue(mi)
    ensures ParseStamp(StampText(y, m, d, h, mi)) == MakeDateTime(vy, vm, vd, vh, vmi)
  {
    var date := y + "-" + m + "-" + d;
    var time := h + ":" + mi;
    StampSplit(y, m, d, h, mi);
    DateSplit(y, m, d);
    TimeSplit(h, mi);
    ParseStampOf(StampText(y, m, d, h, mi), date, time, []);
    FromDigitFields(y, m, d, h, mi, vy, vm, vd, vh, vmi);
  }

  /** The format the scraper writes dates in reads back to the same date-time. */
  lemma ParseStampStrftime(dt: DateTime)
    requires Valid(dt) && dt.year >= 1000
    ensures ParseStamp(Strftime(dt)) == Some(dt)
    ensures ParseOfferDeadline(Strftime(dt)) == Some(dt)
    ensures ParseQuestionsDeadline(Strftime(dt)) == Some(dt)
  {
    var y, m, d := Pad(dt.year, 4), Pad(dt.month, 2), Pad(dt.day, 2);
    var h, mi := Pad(dt.hour, 2), Pad(dt.minute, 2);
    assert Pow10(2) == 100 && Pow10(4) == 10000;
    PadValue(dt.year, 4);
    PadValue(dt.month, 2);
    PadValue(dt.day, 2);
    PadValue(dt.hour, 2);
    PadValue(dt.minute, 2);
    assert Strftime(dt) == StampText(y, m, d, h, mi);
    ParseStampFields(y, m, d, h, mi, dt.year, dt.month, dt.day, dt.hour, dt.minute);
  }

  /** A seconds field after the minutes is ignored: only `[0]` and `[1]` of the time
      are read. */
  lemma SecondsIgnored(y: string, m: string, d: string, h: string, mi: string, sec: string)
    requires DigitField(y) && DigitField(m) && DigitField(d) && DigitField(h) && DigitField(mi)
    requires AllDigits(sec)
    ensures ParseStamp(StampText(y, m, d, h, mi) + ":" + sec) == ParseStamp(StampText(y, m, d, h, mi))
  {
    var date := y + "-" + m + "-" + d;
    var time := h + ":" + mi + ":" + sec;
    SecondsSplit(y, m, d, h, mi, sec);
    TimeWithSeconds(h, mi, sec);
    ParseStampOf(StampText(y, m, d, h, mi) + ":" + sec, date, time, []);
    StampSplit(y, m, d, h, mi);
    TimeSplit(h, mi);
    ParseStampOf(StampText(y, m, d, h, mi), date, h + ":" + mi, []);
    FromFieldsTime(Split(date, "-"), [h, mi, sec], [h, mi]);
  }

  /** With seconds the stamp is still two words. */
  lemma SecondsSplit(y: string, m: string, d: string, h: string, mi: string, sec: string)
    requires AllDigits(y) && AllDigits(m) && AllDigits(d) && AllDigits(h) && AllDigits(mi)
    requires AllDigits(sec)
    ensures Split(StampText(y, m, d, h, mi) + ":" + sec, " ")
      == [y + "-" + m + "-" + d, h + ":" + mi + ":" + sec]
  {
    var date := y + "-" + m + "-" + d;
    var time := h + ":" + mi + ":" + sec;
    assert StampText(y, m, d, h, mi) + ":" + sec == date + [' '] + time;
    DateNoSpace(y, m, d);
    TimeWithSeconds(h, mi, sec);
    SplitCat(date, ' ', time);
  }

  /** "H:M:S" splits into three fields and contains no space. */
  lemma TimeWithSeconds(h: string, mi: string, sec: string)
    requires AllDigits(h) && AllDigits(mi) && AllDigits(sec)
    ensures Split(h + ":" + mi + ":" + sec, ":") == [h, mi, sec]
    ensures Split(h + ":" + mi + ":" + sec, " ") == [h + ":" + mi + ":" + sec]
  {
    var time := h + ":" + mi + ":" + sec;
    TimeSplit(mi, sec);
    assert time == h + [':'] + (mi + ":" + sec);
    DigitsNoChar(h, ':');
    SplitCat(h, ':', mi + ":" + sec);
    TimeNoSpace(h, mi, sec);
  }

  lemma TimeNoSpace(h: string, mi: string, sec: string)
    requires AllDigits(h) && AllDigits(mi) && AllDigits(sec)
    ensures Split(h + ":" + mi + ":" + sec, " ") == [h + ":" + mi + ":" + sec]
  {
    TimeSplit(h, mi);
    DigitsNoChar(sec, ' ');
    NoSpaceCat(h + ":" + mi, ':', sec);
    assert h + ":" + mi + ":" + sec == (h + ":" + mi) + [':'] + sec;
  }

  /** Gluing two space-free strings with a non-space keeps them space-free. */
  lemma NoSpaceCat(a: string, c: char, b: string)
    requires Split(a, " ") == [a] && Split(b, " ") == [b] && c != ' '
    ensures Split(a + [c] + b, " ") == [a + [c] + b]
  {
    forall i | 0 <= i < |a + [c] + b|
      ensures (a + [c] + b)[i] != ' '
    {
      if i < |a| {
        assert (a + [c] + b)[i] == a[i];
        SpaceFree(a, i);
      } else if i > |a| {
        assert (a + [c] + b)[i] == b[i - |a| - 1];
        SpaceFree(b, i - |a| - 1);
      }
    }
    SplitNoChar(a + [c] + b, ' ');
  }

  lemma SpaceFree(a: string, i: nat)
    requires Split(a, " ") == [a] && i < |a|
    ensures a[i] != ' '
  {
    SplitPiecesFree(a, " ");
    AtChar(a, ' ', i);
  }

  /** A fourth date field is ignored: only `[0]`, `[1]` and `[2]` of the date are read. */
  lemma ExtraDateFieldIgnored(y: string, m: string, d: string, x: string, h: string, mi: string)
    requires DigitField(y) && DigitField(m) && DigitField(d) && DigitField(h) && DigitField(mi)
    requires AllDigits(x)
    ensures ParseStamp(y + "-" + m + "-" + d + "-" + x + " " + h + ":" + mi)
      == ParseStamp(StampText(y, m, d, h, mi))
  {
    var date := y + "-" + m + "-" + d;
    var longDate := date + "-" + x;
    var time := h + ":" + mi;
    ExtraFieldSplit(y, m, d, x, h, mi);
    ParseStampOf(y + "-" + m + "-" + d + "-" + x + " " + h + ":" + mi, longDate, time, []);
    StampSplit(y, m, d, h, mi);
    ParseStampOf(StampText(y, m, d, h, mi), date, time, []);
    DateSplit(y, m, d);
    FromFieldsDate(Split(longDate, "-"), [y, m, d], Split(time, ":"));
  }

  /** With a fourth date field the stamp is still two words, and the date splits into
      four fields. */
  lemma ExtraFieldSplit(y: string, m: string, d: string, x: string, h: string, mi: string)
    requires AllDigits(y) && AllDigits(m) && AllDigits(d) && AllDigits(x)
    requires AllDigits(h) && AllDigits(mi)
    ensures Split(y + "-" + m + "-" + d + "-" + x + " " + h + ":" + mi, " ")
      == [y + "-" + m + "-" + d + "-" + x, h + ":" + mi]
    ensures Split(y + "-" + m + "-" + d + "-" + x, "-") == [y, m, d, x]
  {
    var date := y + "-" + m + "-" + d;
    var longDate := date + ['-'] + x;
    var time := h + ":" + mi;
    DateSplit(y, m, d);
    DigitsNoChar(x, '-');
    SplitCat(date, '-', x);
    DateNoSpace(y, m, d);
    DigitsNoChar(x, ' ');
    NoSpaceCat(date, '-', x);
    TimeSplit(h, mi);
    assert y + "-" + m + "-" + d + "-" + x + " " + h + ":" + mi == longDate + [' '] + time;
    SplitCat(longDate, ' ', time);
  }

  /** Only the first three fields of the date are read. */
  lemma FromFieldsDate(d1: seq<string>, d2: seq<string>, time: seq<string>)
    requires |d1| >= 3 && |d2| >= 3 && d1[0] == d2[0] && d1[1] == d2[1] && d1[2] == d2[2]
    ensures FromFields(d1, time) == FromFields(d2, time)
  {
  }

  /** Text after a second space is ignored: only `[0]` and `[1]` of the split are read. */
  lemma TrailingWordIgnored(y: string, m: string, d: string, h: string, mi: string, more: string)
    requires DigitField(y) && DigitField(m) && DigitField(d) && DigitField(h) && DigitField(mi)
    ensures ParseStamp(StampText(y, m, d, h, mi) + " " + more) == ParseStamp(StampText(y, m, d, h, mi))
  {
    var date := y + "-" + m + "-" + d;
    var time := h + ":" + mi;
    TrailingWordSplit(y, m, d, h, mi, more);
    StampSplit(y, m, d, h, mi);
    ParseStampOf(StampText(y, m, d, h, mi) + " " + more, date, time, Split(more, " "));
    ParseStampOf(StampText(y, m, d, h, mi), date, time, []);
  }

  lemma TrailingWordSplit(y: string, m: string, d: string, h: string, mi: string, more: string)
    requires AllDigits(y) && AllDigits(m) && AllDigits(d) && AllDigits(h) && AllDigits(mi)
    ensures Split(StampText(y, m, d, h, mi) + " " + more, " ")
      == [y + "-" + m + "-" + d, h + ":" + mi] + Split(more, " ")
  {
    var date := y + "-" + m + "-" + d;
    var time := h + ":" + mi;
    assert StampText(y, m, d, h, mi) + " " + more == date + [' '] + (time + [' '] + more);
    DateNoSpace(y, m, d);
    TimeSplit(h, mi);
    SplitCat(time, ' ', more);
    SplitCat(date, ' ', time + [' '] + more);
  }

  /** Text without a space (such as "N/A") has no time half and gives None. */
  lemma NoTimeNone(s: string)
    requires forall i :: 0 <= i < |s| ==> s[i] != ' '
    ensures ParseStamp(s) == None
  {
    SplitNoChar(s, ' ');
  }

  /** A date with fewer than three "-"-separated fields gives None. */
  lemma ShortDateNone(a: string, b: string, time: string)
    requires forall i :: 0 <= i < |a| ==> a[i] != ' ' && a[i] != '-'
    requires forall i :: 0 <= i < |b| ==> b[i] != ' ' && b[i] != '-'
    ensures ParseStamp(a + "-" + b + " " + time) == None
  {
    var date := a + "-" + b;
    forall i | 0 <= i < |date|
      ensures date[i] != ' '
    {
      if i > |a| {
        assert date[i] == b[i - |a| - 1];
      }
    }
    assert a + "-" + b + " " + time == date + [' '] + time;
    SplitNoChar(date, ' ');
    SplitCat(date, ' ', time);
    SplitNoChar(a, '-');
    SplitNoChar(b, '-');
    SplitCat(a, '-', b);
  }

  /** The written form has digits at both ends and no parenthesis. */
  lemma StrftimeChars(dt: DateTime)
    requires Valid(dt) && dt.year >= 1000
    ensures var t := Strftime(dt);
      && IsDigit(t[0]) && IsDigit(t[15])
      && forall i :: 0 <= i < |t| ==> t[i] != '('
  {
    var t := Strftime(dt);
    StrftimeLayout(dt);
    forall i | 0 <= i < |t|
      ensures t[i] != '('
    {
      if i < 4 {
        assert t[i] == t[..4][i];
      } else if 5 <= i < 7 {
        assert t[i] == t[5..7][i - 5];
      } else if 8 <= i < 10 {
        assert t[i] == t[8..10][i - 8];
      } else if 11 <= i < 13 {
        assert t[i] == t[11..13][i - 11];
      } else if 14 <= i {
        assert t[i] == t[14..16][i - 14];
      }
    }
    assert IsDigit(t[..4][0]) && IsDigit(t[14..16][1]);
  }

  /** The closing deadline ignores a parenthesised remark after the date-time. */
  lemma DeadlineRemarkIgnored(dt: DateTime, remark: string)
    requires Valid(dt) && dt.year >= 1000
    ensures ParseDeadline(Strftime(dt) + " (" + remark) == Some(dt)
  {
    var t := Strftime(dt);
    StrftimeChars(dt);
    var a := t + " ";
    assert forall i :: 0 <= i < |a| ==> a[i] != '(' by {
      assert forall i :: 0 <= i < |t| ==> a[i] == t[i];
    }
    assert t + " (" + remark == a + ['('] + remark;
    SplitNoChar(a, '(');
    SplitCat(a, '(', remark);
    StripTrailingSpaces(t, " ");
    ParseStampStrftime(dt);
  }

  /** Without a remark the closing deadline reads the date-time as the others do. */
  lemma DeadlinePlain(dt: DateTime)
    requires Valid(dt) && dt.year >= 1000
    ensures ParseDeadline(Strftime(dt)) == Some(dt)
  {
    var t := Strftime(dt);
    StrftimeChars(dt);
    SplitNoChar(t, '(');
    StripNoSpaces(t);
    ParseStampStrftime(dt);
  }

  /** A stamp of digit fields holds no "(" and has a digit at each end. */
  lemma StampChars(y: string, m: string, d: string, h: string, mi: string)
    requires DigitField(y) && DigitField(m) && DigitField(d) && DigitField(h) && DigitField(mi)
    ensures var t := StampText(y, m, d, h, mi);
      && IsDigit(t[0]) && IsDigit(t[|t| - 1])
      && forall i :: 0 <= i < |t| ==> t[i] != '('
  {
    DigitsExclude(y, '(');
    DigitsExclude(m, '(');
    DigitsExclude(d, '(');
    DigitsExclude(h, '(');
    DigitsExclude(mi, '(');
    var p1 := y + ['-'] + m;
    NoCharCat(y, '-', m, '(');
    var p2 := p1 + ['-'] + d;
    NoCharCat(p1, '-', d, '(');
    var p3 := p2 + [' '] + h;
    NoCharCat(p2, ' ', h, '(');
    NoCharCat(p3, ':', mi, '(');
    var t := StampText(y, m, d, h, mi);
    assert t == p3 + [':'] + mi;
    assert t[0] == y[0] && IsDigit(y[0]);
    assert t[|t| - 1] == mi[|mi| - 1] && IsDigit(mi[|mi| - 1]);
  }

  /** Joining two strings without `x` by a character other than `x` gives a string
      without `x`. */
  lemma NoCharCat(a: string, c: char, b: string, x: char)
    requires forall i :: 0 <= i < |a| ==> a[i] != x
    requires forall i :: 0 <= i < |b| ==> b[i] != x
    requires c != x
    ensures forall i :: 0 <= i < |a + [c] + b| ==> (a + [c] + b)[i] != x
  {
    forall i | 0 <= i < |a + [c] + b|
      ensures (a + [c] + b)[i] != x
    {
      if i < |a| {
        assert (a + [c] + b)[i] == a[i];
      } else if i > |a| {
        assert (a + [c] + b)[i] == b[i - |a| - 1];
      }
    }
  }

  /** The closing deadline of five digit fields is exactly the date-time of their values
      when it exists, and None otherwise. */
  lemma ParseDeadlineFields(y: string, m: string, d: string, h: string, mi: string,
                            vy: int, vm: int, vd: int, vh: int, vmi: int)
    requires DigitField(y) && DigitField(m) && DigitField(d) && DigitField(h) && DigitField(mi)
    requires vy == DigitsValue(y) && vm == DigitsValue(m) && vd == DigitsValue(d)
    requires vh == DigitsValue(h) && vmi == DigitsValue(mi)
    ensures ParseDeadline(StampText(y, m, d, h, mi)) == MakeDateTime(vy, vm, vd, vh, vmi)
  {
    var t := StampText(y, m, d, h, mi);
    StampChars(y, m, d, h, mi);
    SplitNoChar(t, '(');
    StripNoSpaces(t);
    ParseStampFields(y, m, d, h, mi, vy, vm, vd, vh, vmi);
  }

  /** The same with a parenthesised remark after the stamp. */
  lemma ParseDeadlineRemarkFields(y: string, m: string, d: string, h: string, mi: string,
                                  vy: int, vm: int, vd: int, vh: int, vmi: int, remark: string)
    requires DigitField(y) && DigitField(m) && DigitField(d) && DigitField(h) && DigitField(mi)
    requires vy == DigitsValue(y) && vm == DigitsValue(m) && vd == DigitsValue(d)
    requires vh == DigitsValue(h) && vmi == DigitsValue(mi)
    ensures ParseDeadline(StampText(y, m, d, h, mi) + " (" + remark) == MakeDateTime(vy, vm, vd, vh, vmi)
  {
    var t := StampText(y, m, d, h, mi);
    StampChars(y, m, d, h, mi);
    var a := t + " ";
    assert forall i :: 0 <= i < |a| ==> a[i] != '(' by {
      assert forall i :: 0 <= i < |t| ==> a[i] == t[i];
    }
    assert t + " (" + remark == a + ['('] + remark;
    SplitNoChar(a, '(');
    SplitCat(a, '(', remark);
    StripTrailingSpaces(t, " ");
    ParseStampFields(y, m, d, h, mi, vy, vm, vd, vh, vmi);
  }

  /** "2021-02-30 10:00" names a day February does not have: the closing deadline is None. */
  lemma NonexistentDayNone()
    ensures ParseDeadline("2021-02-30 10:00") == None
  {
    NonexistentText();
    NonexistentValues();
    ParseDeadlineFields("2021", "02", "30", "10", "00", 2021, 2, 30, 10, 0);
  }

  lemma NonexistentText()
    ensures StampText("2021", "02", "30", "10", "00") == "2021-02-30 10:00"
  {
  }

  lemma NonexistentValues()
    ensures DigitsValue("2021") == 2021 && DigitsValue("02") == 2 && DigitsValue("30") == 30
    ensures DigitsValue("10") == 10 && DigitsValue("00") == 0
  {
    YearValue();
    assert "02"[..1] == "0" && "30"[..1] == "3";
    assert "10"[..1] == "1" && "00"[..1] == "0";
  }

  lemma YearValue()
    ensures DigitsValue("2021") == 2021
  {
    assert "2021"[..3] == "202" && "202"[..2] == "20" && "20"[..1] == "2";
  }

  /** "2021-3-5 9:05 (uwaga)": one-digit fields and a remark still give the date-time. */
  lemma ShortFieldsWithRemark()
    ensures ParseDeadline("2021-3-5 9:05 (uwaga)") == Some(DateTime(2021, 3, 5, 9, 5))
  {
    ShortText();
    ShortValues();
    ParseDeadlineRemarkFields("2021", "3", "5", "9", "05", 2021, 3, 5, 9, 5, "uwaga)");
  }

  lemma ShortText()
    ensures StampText("2021", "3", "5", "9", "05") + " (" + "uwaga)" == "2021-3-5 9:05 (uwaga)"
  {
  }

  lemma ShortValues()
    ensures DigitsValue("2021") == 2021 && DigitsValue("05") == 5
    ensures DigitsValue("3") == 3 && DigitsValue("5") == 5 && DigitsValue("9") == 9
  {
    YearValue();
    assert "05"[..1] == "0";
  }

  /** A date-time wrapped in parentheses is not read: the text before the first "("
      is empty, so the closing deadline is None whatever follows. */
  lemma WrappedDeadlineNone(rest: string)
    ensures ParseDeadline("(" + rest) == None
  {
    assert "(" + rest == [] + ['('] + rest;
    SplitNoChar([], '(');
    SplitCat([], '(', rest);
    assert Strip([]) == [];
    SplitNoChar([], ' ');
  }
}
