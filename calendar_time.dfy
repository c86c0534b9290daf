/**
 * Dates and wall-clock times as the calendar agent uses them (Python's `datetime.date` and
 * `datetime.time`): `parse_date` and `parse_time` on the tokens the command patterns
 * capture, the `%Y-%m-%d` and `%H:%M` renderings, the ordering of dates and times, and
 * `date + timedelta(days=1)` for "tomorrow".
 */
module CalendarTime {
  import opened Wrappers
  import opened PyStr

  datatype YearMonthDay = YMD(year: int, month: int, day: int)

  predicate IsLeapYear(y: int) {
    y % 4 == 0 && (y % 100 != 0 || y % 400 == 0)
  }

  function DaysInMonth(y: int, m: int): int
    requires 1 <= m <= 12
  {
    if m == 2 then (if IsLeapYear(y) then 29 else 28)
    else if m == 4 || m == 6 || m == 9 || m == 11 then 30
    else 31
  }

  /** What the `datetime.date` constructor accepts: years 1 to 9999 of the proleptic
      Gregorian calendar. */
  predicate IsValidDate(d: YearMonthDay) {
    1 <= d.year <= 9999 && 1 <= d.month <= 12 && 1 <= d.day <= DaysInMonth(d.year, d.month)
  }

  /** A `datetime.date` object: no other triple can be constructed. */
  type Date = d: YearMonthDay | IsValidDate(d) witness YMD(1, 1, 1)

  datatype HourMinute = HM(hour: int, minute: int)

  /** A `datetime.time` object as `strptime(.., "%H:%M")` makes it (no seconds). */
  type Time = t: HourMinute | 0 <= t.hour < 24 && 0 <= t.minute < 60 witness HM(0, 0)

  /** `datetime.date.max`; the day after it overflows. */
  const LastDate: Date := YMD(9999, 12, 31)

  /** `datetime.time.min`, the sort key the agent gives an all-day event. */
  const Midnight: Time := HM(0, 0)

  /** `a < b` on `datetime.date` objects. */
  predicate DateBefore(a: YearMonthDay, b: YearMonthDay) {
    a.year < b.year || (a.year == b.year && (a.month < b.month || (a.month == b.month && a.day < b.day)))
  }

  /** `a < b` on `datetime.time` objects. */
  predicate TimeBefore(a: HourMinute, b: HourMinute) {
    a.hour < b.hour || (a.hour == b.hour && a.minute < b.minute)
  }

  /** `d + datetime.timedelta(days=1)`: the next date of the calendar, with month and year
      rollover (Python raises OverflowError after `date.max`). */
  function NextDay(d: Date): (r: Date)
    requires d != LastDate
    ensures DateBefore(d, r)
    ensures forall e: Date :: DateBefore(d, e) ==> !DateBefore(e, r)
  {
    if d.day < DaysInMonth(d.year, d.month) then YMD(d.year, d.month, d.day + 1)
    else if d.month < 12 then YMD(d.year, d.month + 1, 1)
    else YMD(d.year + 1, 1, 1)
  }

  /** The `\d{4}-\d{2}-\d{2}` date token of the command patterns (ASCII digits). */
  predicate IsDateDigits(t: string) {
    |t| == 10 && AllDigits(t[..4]) && t[4] == '-' && AllDigits(t[5..7]) && t[7] == '-'
    && AllDigits(t[8..])
  }

  /** The year, month and day fields of a numeric date token, as `strptime` reads them. */
  function TokenDate(t: string): YearMonthDay
    requires IsDateDigits(t)
  {
    YMD(Value(t[..4]), Value(t[5..7]), Value(t[8..]))
  }

  /** `date.strftime('%Y-%m-%d')`. */
  function FormatDate(d: Date): (r: string)
    ensures IsDateDigits(r) && TokenDate(r) == d
  {
    assert Pow10(2) == 100 && Pow10(4) == 10000;
    var year, month, day := Pad(d.year, 4), Pad(d.month, 2), Pad(d.day, 2);
    var r := year + "-" + month + "-" + day;
    DateFields(year, month, day, r);
    r
  }

  lemma DateFields(year: string, month: string, day: string, r: string)
    requires |year| == 4 && |month| == 2 && |day| == 2
    requires AllDigits(year) && AllDigits(month) && AllDigits(day)
    requires r == year + "-" + month + "-" + day
    ensures IsDateDigits(r) && r[..4] == year && r[5..7] == month && r[8..] == day
  {
    assert r[..4] == year && r[5..7] == month && r[8..] == day;
  }

  /** `parse_date` (calendar_agent.py:10-24) on the date tokens the command patterns
      capture, with the clock's `date.today()` passed in as `today`: "today" and "tomorrow"
      in any letter case, or a numeric token that `strptime` turns into a date, or `None`. */
  function ParseDate(token: string, today: Date): (r: Option<Date>)
    requires today != LastDate
    ensures LowerAscii(token) == "today" ==> r == Some(today)
    ensures LowerAscii(token) == "tomorrow" ==> r == Some(NextDay(today))
    ensures IsDateDigits(token) ==> (r.Some? <==> IsValidDate(TokenDate(token)))
    ensures IsDateDigits(token) && r.Some? ==> FormatDate(r.value) == token
  {
    var lowered := LowerAscii(token);
    if lowered == "today" then Some(today)
    else if lowered == "tomorrow" then Some(NextDay(today))
    else if IsDateDigits(token) && IsValidDate(TokenDate(token)) then
      var d: Date := TokenDate(token);
      DigitsRoundTrip(token, d);
      Some(d)
    else None
  }

  /** A numeric date token is the rendering of the date it denotes: no other spelling
      (no missing zero, no extra digit) has the same fields. */
  lemma DigitsRoundTrip(t: string, d: Date)
    requires IsDateDigits(t) && TokenDate(t) == d
    ensures FormatDate(d) == t
  {
    var f := FormatDate(d);
    PadValue(t[..4]);
    PadValue(f[..4]);
    PadValue(t[5..7]);
    PadValue(f[5..7]);
    PadValue(t[8..]);
    PadValue(f[8..]);
    SameFields(f, t);
  }

  /** Two numeric date tokens that agree on their three fields are the same text. */
  lemma SameFields(f: string, t: string)
    requires IsDateDigits(f) && IsDateDigits(t)
    requires f[..4] == t[..4] && f[5..7] == t[5..7] && f[8..] == t[8..]
    ensures f == t
  {
    forall i | 0 <= i < 10
      ensures f[i] == t[i]
    {
      if i < 4 {
        assert f[i] == f[..4][i] && t[i] == t[..4][i];
      } else if 5 <= i < 7 {
        assert f[i] == f[5..7][i - 5] && t[i] == t[5..7][i - 5];
      } else if 8 <= i {
        assert f[i] == f[8..][i - 8] && t[i] == t[8..][i - 8];
      }
    }
  }

  /** Rendering a date and parsing the text back gives the date again. */
  lemma DateRoundTrip(d: Date, today: Date)
    requires today != LastDate
    ensures ParseDate(FormatDate(d), today) == Some(d)
  {
    var f := FormatDate(d);
    assert |LowerAscii(f)| == 10;
  }

  /** The `\d{1,2}:\d{2}` time token of the Add pattern (ASCII digits). */
  predicate IsTimeDigits(t: string) {
    (|t| == 4 && IsDigit(t[0]) && t[1] == ':' && IsDigit(t[2]) && IsDigit(t[3]))
    || (|t| == 5 && IsDigit(t[0]) && IsDigit(t[1]) && t[2] == ':' && IsDigit(t[3]) && IsDigit(t[4]))
  }

  /** The hour and minute fields of a time token. */
  function TokenTime(t: string): HourMinute
    requires IsTimeDigits(t)
  {
    var colon := |t| - 3;
    HM(Value(t[..colon]), Value(t[colon + 1..]))
  }

  /** `time.strftime('%H:%M')`. */
  function FormatTime(t: Time): (r: string)
    ensures |r| == 5 && IsTimeDigits(r) && TokenTime(r) == t
  {
    assert Pow10(2) == 100;
    var hour, minute := Pad(t.hour, 2), Pad(t.minute, 2);
    var r := hour + ":" + minute;
    TimeFields(hour, minute, r);
    r
  }

  lemma TimeFields(hour: string, minute: string, r: string)
    requires |hour| == 2 && |minute| == 2 && AllDigits(hour) && AllDigits(minute)
    requires r == hour + ":" + minute
    ensures IsTimeDigits(r) && r[..2] == hour && r[3..] == minute
  {
    assert r[..2] == hour && r[3..] == minute;
  }

  /** `parse_time` (calendar_agent.py:26-34) on the time tokens the Add pattern captures:
      `strptime(.., "%H:%M")` accepts an hour of 0 to 23 and a minute of 0 to 59 and
      refuses the rest with ValueError, here `None`. */
  function ParseTime(token: string): (r: Option<Time>)
    ensures r.Some? <==> IsTimeDigits(token) && TokenTime(token).hour < 24 && TokenTime(token).minute < 60
    ensures r.Some? ==> FormatTime(r.value) == (if |token| == 4 then "0" + token else token)
  {
    if IsTimeDigits(token) && TokenTime(token).hour < 24 && TokenTime(token).minute < 60 then
      var t: Time := TokenTime(token);
      TimeDigitsRoundTrip(token, t);
      Some(t)
    else None
  }

  /** A time token renders back as itself, up to the leading zero of a one-digit hour. */
  lemma TimeDigitsRoundTrip(token: string, t: Time)
    requires IsTimeDigits(token) && TokenTime(token) == t
    ensures FormatTime(t) == (if |token| == 4 then "0" + token else token)
  {
    var colon := |token| - 3;
    ColonSplit(token, colon);
    FieldsRoundTrip(token[..colon], token[colon + 1..], t, token);
  }

  lemma FieldsRoundTrip(h: string, m: string, t: Time, token: string)
    requires 1 <= |h| <= 2 && |m| == 2 && AllDigits(h) && AllDigits(m)
    requires t.hour == Value(h) && t.minute == Value(m) && token == h + ":" + m
    ensures FormatTime(t) == (if |h| == 1 then "0" + token else token)
  {
    FormatTimeFields(t);
    PadValue(m);
    if |h| == 2 {
      PadValue(h);
    } else {
      PadOneDigit(h);
      assert "0" + token == ("0" + h) + ":" + m;
    }
  }

  lemma FormatTimeFields(t: Time)
    ensures FormatTime(t) == Pad(t.hour, 2) + ":" + Pad(t.minute, 2)
  {
  }

  lemma ColonSplit(token: string, colon: nat)
    requires colon < |token| && token[colon] == ':'
    ensures token == token[..colon] + ":" + token[colon + 1..]
  {
  }

  /** A one-digit hour is padded with a zero in front. */
  lemma PadOneDigit(h: string)
    requires |h| == 1 && AllDigits(h)
    ensures Pad(Value(h), 2) == "0" + h
  {
    PadValue(h);
    assert Value(h) < 10;
    assert Pad(Value(h), 2) == Pad(Value(h) / 10, 1) + [DigitChar(Value(h) % 10)];
    assert Pad(0, 1) == "0";
  }

  /** Rendering a time and parsing the text back gives the time again. */
  lemma TimeRoundTrip(t: Time)
    ensures ParseTime(FormatTime(t)) == Some(t)
  {
  }
}
