/**
 * The producer's high-watermark store (src/utils.py): a naive timestamp kept as one line of text,
 * written with `strftime("%Y-%m-%d %H:%M:%S.%f")` and read back with `strptime` of the same format.
 */
module Watermark {
  import opened Wrappers
  import opened Digits
  import Calendar

  /** A naive `datetime.datetime`, field by field. */
  datatype DateTime = DateTime(year: int, month: int, day: int, hour: int, minute: int, second: int, micro: int)

  predicate ValidDateTime(t: DateTime) {
    && Calendar.ValidDate(Calendar.Date(t.year, t.month, t.day))
    && 0 <= t.hour < 24 && 0 <= t.minute < 60 && 0 <= t.second < 60
    && 0 <= t.micro < 1000000
  }

  /** Microseconds since 0001-01-01 00:00:00; datetimes compare as their ranks do. */
  function Rank(t: DateTime): int
    requires ValidDateTime(t)
  {
    var days := Calendar.ToDays(Calendar.Date(t.year, t.month, t.day));
    ((days * 24 + t.hour) * 60 + t.minute) * 60 * 1000000 + t.second * 1000000 + t.micro
  }

  /** The fallback returned when no watermark has been stored: 1900-01-01 00:00:00. */
  const Sentinel := DateTime(1900, 1, 1, 0, 0, 0, 0)

  /** The watermark file: missing, or present with its whole text. */
  datatype WatermarkFile = Absent | Present(content: string)

  /** The only exception `strptime` raises on text that does not fit the format. */
  datatype ValueError = ValueError

  /** Python's `str.isspace`: the characters `strip()` removes and `\s` matches. */
  predicate IsSpace(c: char) {
    var n := c as int;
    || 0x09 <= n <= 0x0d || 0x1c <= n <= 0x20 || n == 0x85 || n == 0xa0 || n == 0x1680
    || 0x2000 <= n <= 0x200a || n == 0x2028 || n == 0x2029 || n == 0x202f || n == 0x205f
    || n == 0x3000
  }

  function StripStart(s: string): (r: string)
    ensures |r| <= |s| && r == s[|s| - |r|..]
    ensures r == [] || !IsSpace(r[0])
    ensures forall i :: 0 <= i < |s| - |r| ==> IsSpace(s[i])
  {
    if |s| > 0 && IsSpace(s[0]) then StripStart(s[1..]) else s
  }

  function StripEnd(s: string): (r: string)
    ensures |r| <= |s| && r == s[..|r|]
    ensures r == [] || !IsSpace(r[|r| - 1])
    ensures forall i :: |r| <= i < |s| ==> IsSpace(s[i])
  {
    if |s| > 0 && IsSpace(s[|s| - 1]) then StripEnd(s[..|s| - 1]) else s
  }

  /** `str.strip()` with no argument. */
  function Strip(s: string): string {
    StripEnd(StripStart(s))
  }

  /** Drops the run of whitespace a `\s+` in the format matches; `None` when there is none. */
  function SkipSpaces(s: string): (r: Option<string>)
    ensures r.Some? ==> |r.value| < |s|
  {
    if |s| == 0 || !IsSpace(s[0]) then None else Some(StripStart(s[1..]))
  }

  /** A field of one or two digits whose value lies in `lo..hi`, as the `%m %d %H %M %S` patterns accept. */
  predicate ShortField(t: string, lo: int, hi: int) {
    1 <= |t| <= 2 && AllDigits(t) && lo <= ValueOf(t) <= hi
  }

  /** Reads a short field and the separator `sep` that must follow it. */
  function ShortThen(s: string, lo: int, hi: int, sep: char): Result<(int, string), ValueError> {
    var (t, rest) := SplitDigits(s);
    if ShortField(t, lo, hi) && |rest| > 0 && rest[0] == sep then Ok((ValueOf(t), rest[1..]))
    else Err(ValueError)
  }

  /** The day field: digits in 1..31, or a space and one non-zero digit; then the `\s+`. */
  function DayThenSpace(s: string): Result<(int, string), ValueError> {
    var (t, rest) := if |s| > 0 && s[0] == ' ' then SplitDigits(s[1..]) else SplitDigits(s);
    var ok := if |s| > 0 && s[0] == ' ' then |t| == 1 && t[0] != '0' else ShortField(t, 1, 31);
    if ok && SkipSpaces(rest).Some? then Ok((ValueOf(t), SkipSpaces(rest).value)) else Err(ValueError)
  }

  /** `datetime.strptime(s, "%Y-%m-%d %H:%M:%S.%f")` over ASCII digits. */
  function Parse(s: string): (r: Result<DateTime, ValueError>)
    ensures r.Ok? ==> ValidDateTime(r.value)
  {
    var (ys, rest) := SplitDigits(s);
    if |ys| == 4 && |rest| > 0 && rest[0] == '-' then ParseDate(ValueOf(ys), rest[1..])
    else Err(ValueError)
  }

  /** Month, day and the whitespace after them, for a year already read. */
  function ParseDate(year: int, s: string): (r: Result<DateTime, ValueError>)
    ensures r.Ok? ==> ValidDateTime(r.value)
  {
    match ShortThen(s, 1, 12, '-')
    case Err(e) => Err(e)
    case Ok((month, s1)) =>
      match DayThenSpace(s1)
      case Err(e) => Err(e)
      case Ok((day, s2)) => ParseClock(DateTime(year, month, day, 0, 0, 0, 0), s2)
  }

  /** Hour, minute and second, into a timestamp whose date is already read. */
  function ParseClock(date: DateTime, s: string): (r: Result<DateTime, ValueError>)
    ensures r.Ok? ==> ValidDateTime(r.value)
  {
    match ShortThen(s, 0, 23, ':')
    case Err(e) => Err(e)
    case Ok((hour, s1)) =>
      match ShortThen(s1, 0, 59, ':')
      case Err(e) => Err(e)
      case Ok((minute, s2)) =>
        match ShortThen(s2, 0, 61, '.')
        case Err(e) => Err(e)
        case Ok((second, s3)) => ParseFraction(date.(hour := hour, minute := minute, second := second), s3)
  }

  /**
   * `%f`: one to six digits, right-padded with zeros to microseconds, ending the text;
   * then the checks of the `datetime` constructor (year 0, second 60 or 61, day past the month's end).
   */
  function ParseFraction(t: DateTime, s: string): (r: Result<DateTime, ValueError>)
    ensures r.Ok? ==> ValidDateTime(r.value)
  {
    var (fs, rest) := SplitDigits(s);
    if |fs| < 1 || 6 < |fs| || rest != [] then Err(ValueError)
    else
      var u := t.(micro := ValueOf(fs) * Pow10(6 - |fs|));
      if ValidDateTime(u) then Ok(u) else Err(ValueError)
  }

  /** The text after the seconds: `.` and six fraction digits. */
  function FractionPart(t: DateTime): string
    requires ValidDateTime(t)
  {
    "." + Padded(t.micro, 6)
  }

  /** The text from the hour field to the end. */
  function TimePart(t: DateTime): string
    requires ValidDateTime(t)
  {
    Padded(t.hour, 2) + (":" + (Padded(t.minute, 2) + (":" + (Padded(t.second, 2) + FractionPart(t)))))
  }

  /** The text after the year field. */
  function AfterYear(t: DateTime): string
    requires ValidDateTime(t)
  {
    "-" + (Padded(t.month, 2) + ("-" + (Padded(t.day, 2) + (" " + TimePart(t)))))
  }

  /**
   * `strftime("%Y-%m-%d %H:%M:%S.%f")`. The C library renders `%Y` without padding,
   * so years below 1000 come out with fewer than four digits.
   */
  function Format(t: DateTime): (s: string)
    requires ValidDateTime(t)
    ensures 1000 <= t.year ==>
      && |s| == 26
      && s[4] == '-' && s[7] == '-' && s[10] == ' ' && s[13] == ':' && s[16] == ':' && s[19] == '.'
      && forall i :: 0 <= i < 26 && i !in {4, 7, 10, 13, 16, 19} ==> IsDigit(s[i])
  {
    if 1000 <= t.year then (FourDigitDecimal(t.year); Decimal(t.year) + AfterYear(t))
    else Decimal(t.year) + AfterYear(t)
  }

  /** `get_last_successful_timestamp`: the stored watermark, or the sentinel when there is none. */
  function GetLastSuccessfulTimestamp(f: WatermarkFile): (r: Result<DateTime, ValueError>)
    ensures f.Absent? ==> r == Ok(Sentinel)
    ensures (f.Present? && forall i :: 0 <= i < |f.content| ==> IsSpace(f.content[i])) ==> r == Ok(Sentinel)
    ensures r.Ok? ==> ValidDateTime(r.value)
  {
    match f
    case Absent => Ok(Sentinel)
    case Present(content) =>
      var text := Strip(content);
      if text == [] then Ok(Sentinel) else Parse(text)
  }

  /**
   * `set_last_successful_timestamp`: the file afterwards, whatever it held before.
   * Reading it back yields the same timestamp for every four-digit year.
   */
  function SetLastSuccessfulTimestamp(t: DateTime): (f: WatermarkFile)
    requires ValidDateTime(t)
    ensures f.Present? && |f.content| > 0
    ensures 1000 <= t.year ==> GetLastSuccessfulTimestamp(f) == Ok(t)
    ensures t.year < 1000 ==> GetLastSuccessfulTimestamp(f).Err?
  {
    if 1000 <= t.year then (RoundTrip(t); Present(Format(t)))
    else (ShortYearRejected(t); Present(Format(t)))
  }

  lemma StripUnchanged(s: string)
    requires |s| > 0 && !IsSpace(s[0]) && !IsSpace(s[|s| - 1])
    ensures Strip(s) == s
  {
  }

  /** Reading back what `Format` wrote gives the same timestamp, down to the microsecond. */
  lemma RoundTrip(t: DateTime)
    requires ValidDateTime(t) && 1000 <= t.year
    ensures Strip(Format(t)) == Format(t)
    ensures Parse(Format(t)) == Ok(t)
  {
    var s := Format(t);
    StripUnchanged(s);
    FourDigitDecimal(t.year);
    ValueOfDecimal(t.year);
    SplitDigitsOf(Decimal(t.year), AfterYear(t));
    DateRoundTrip(t);
  }

  lemma DateRoundTrip(t: DateTime)
    requires ValidDateTime(t)
    ensures ParseDate(t.year, AfterYear(t)[1..]) == Ok(t)
  {
    ReadShort(t.month, 1, 12, '-', "-" + (Padded(t.day, 2) + (" " + TimePart(t))));
    ReadDay(t.day, TimePart(t));
    ClockRoundTrip(t);
  }

  lemma ClockRoundTrip(t: DateTime)
    requires ValidDateTime(t)
    ensures ParseClock(DateTime(t.year, t.month, t.day, 0, 0, 0, 0), TimePart(t)) == Ok(t)
  {
    var afterMinute := ":" + (Padded(t.second, 2) + FractionPart(t));
    ReadShort(t.hour, 0, 23, ':', ":" + (Padded(t.minute, 2) + afterMinute));
    ReadShort(t.minute, 0, 59, ':', afterMinute);
    ReadShort(t.second, 0, 61, '.', FractionPart(t));
    SplitDigitsOf(Padded(t.micro, 6), []);
    assert Padded(t.micro, 6) + [] == Padded(t.micro, 6);
    ValueOfPadded(t.micro, 6);
  }

  /** A zero-padded two-digit field followed by its separator reads back as its value. */
  lemma ReadShort(v: int, lo: int, hi: int, sep: char, rest: string)
    requires lo <= v <= hi && 0 <= v < 100
    requires 0 <= lo && |rest| > 0 && rest[0] == sep && !IsDigit(sep)
    ensures ShortThen(Padded(v, 2) + rest, lo, hi, sep) == Ok((v, rest[1..]))
  {
    SplitDigitsOf(Padded(v, 2), rest);
    ValueOfPadded(v, 2);
  }

  lemma ReadDay(d: int, rest: string)
    requires 1 <= d <= 31
    requires |rest| > 0 && !IsSpace(rest[0])
    ensures DayThenSpace(Padded(d, 2) + (" " + rest)) == Ok((d, rest))
  {
    SplitDigitsOf(Padded(d, 2), " " + rest);
    ValueOfPadded(d, 2);
    assert (" " + rest)[1..] == rest;
  }

  /** The formatted text starts and ends with a digit, so `strip()` leaves it alone. */
  lemma FormatUnstripped(t: DateTime)
    requires ValidDateTime(t)
    ensures Strip(Format(t)) == Format(t)
  {
    var s := Format(t);
    var f := Padded(t.micro, 6);
    assert s == (Decimal(t.year) + AfterYear(t));
    assert s[0] == Decimal(t.year)[0];
    assert IsDigit(f[5]);
    assert s[|s| - 1] == f[5];
    StripUnchanged(s);
  }

  /** A year below 1000 is written with fewer than four digits, which `%Y` refuses on reading. */
  lemma ShortYearRejected(t: DateTime)
    requires ValidDateTime(t) && t.year < 1000
    ensures GetLastSuccessfulTimestamp(Present(Format(t))).Err?
  {
    var s := Format(t);
    ShortDecimal(t.year);
    SplitDigitsOf(Decimal(t.year), AfterYear(t));
    assert Parse(s).Err?;
    FormatUnstripped(t);
    assert Strip(s) == s && s != [];
  }
}
