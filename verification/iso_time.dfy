/**
 * The UTC ISO 8601 text the consumer writes for a record's `updated_timestamp`
 * (src/consumer.py:81-92): `isoformat(timespec='milliseconds')` of a UTC datetime with the
 * `+00:00` suffix replaced by `Z`, e.g. `2024-03-05T07:08:09.123Z`.
 */
module IsoTime {
  import opened Wrappers
  import opened Digits
  import opened Calendar

  const MillisPerDay := 86400000

  /** Milliseconds since the Unix epoch of 0001-01-01T00:00:00.000Z and of 9999-12-31T23:59:59.999Z. */
  const MinMillis := -EpochDay * MillisPerDay
  const MaxMillis := (DayLimit - EpochDay) * MillisPerDay - 1

  /** The instants a Python `datetime` can hold; outside them the conversion raises. */
  predicate InDatetimeRange(ms: int) {
    MinMillis <= ms <= MaxMillis
  }

  /** The fields of the time of day, for a millisecond of the day. */
  function Hours(rem: int): (h: int)
    requires 0 <= rem < MillisPerDay
    ensures 0 <= h < 24
  {
    rem / 1000 / 60 / 60
  }

  function Minutes(rem: int): (m: int)
    requires 0 <= rem < MillisPerDay
    ensures 0 <= m < 60
  {
    rem / 1000 / 60 % 60
  }

  function Seconds(rem: int): (sec: int)
    requires 0 <= rem < MillisPerDay
    ensures 0 <= sec < 60
  {
    rem / 1000 % 60
  }

  function Millis(rem: int): (milli: int)
    requires 0 <= rem < MillisPerDay
    ensures 0 <= milli < 1000
  {
    rem % 1000
  }

  /** `HH:MM:SS.mmmZ` for a millisecond of the day. */
  function ClockText(rem: int): string
    requires 0 <= rem < MillisPerDay
  {
    Padded(Hours(rem), 2) + (":" + (Padded(Minutes(rem), 2) + (":" +
      (Padded(Seconds(rem), 2) + ("." + (Padded(Millis(rem), 3) + "Z"))))))
  }

  /** `YYYY-MM-DD` for a valid date. */
  function DateText(d: Date): string
    requires ValidDate(d)
  {
    Padded(d.year, 4) + ("-" + (Padded(d.month, 2) + ("-" + Padded(d.day, 2))))
  }

  /**
   * The ISO text of an instant given in milliseconds since the epoch. Days are split off with
   * floor division, so instants before 1970 fall on the right calendar day.
   */
  function FormatUtcMillis(ms: int): (s: string)
    requires InDatetimeRange(ms)
    ensures |s| == 24
  {
    var d := FromDays(ms / MillisPerDay + EpochDay);
    DateText(d) + ("T" + ClockText(ms % MillisPerDay))
  }

  /** The value of the digits `s[i..j]`, when they are all ASCII digits. */
  function Field(s: string, i: int, j: int): Option<nat>
    requires 0 <= i <= j <= |s|
  {
    if AllDigits(s[i..j]) then Some(ValueOf(s[i..j])) else None
  }

  /** The fields of an ISO text, before any range check. */
  datatype Stamp = Stamp(year: nat, month: nat, day: nat, hour: nat, minute: nat, second: nat, milli: nat)

  /** The fields of a 24-character text laid out as `YYYY-MM-DDTHH:MM:SS.mmmZ`. */
  function ReadStamp(s: string): Option<Stamp> {
    if |s| != 24 || s[4] != '-' || s[7] != '-' || s[10] != 'T' || s[13] != ':' || s[16] != ':'
       || s[19] != '.' || s[23] != 'Z' then None
    else
      match (Field(s, 0, 4), Field(s, 5, 7), Field(s, 8, 10), Field(s, 11, 13), Field(s, 14, 16),
             Field(s, 17, 19), Field(s, 20, 23))
      case (Some(y), Some(mo), Some(d), Some(h), Some(mi), Some(sec), Some(milli)) =>
        Some(Stamp(y, mo, d, h, mi, sec, milli))
      case _ => None
  }

  predicate ValidStamp(st: Stamp) {
    && ValidDate(Date(st.year, st.month, st.day))
    && st.hour < 24 && st.minute < 60 && st.second < 60 && st.milli < 1000
  }

  /** Milliseconds since the epoch of a valid stamp. */
  function StampMillis(st: Stamp): (ms: int)
    requires ValidStamp(st)
    ensures InDatetimeRange(ms)
  {
    DateInRange(Date(st.year, st.month, st.day));
    (ToDays(Date(st.year, st.month, st.day)) - EpochDay) * MillisPerDay
      + ((st.hour * 60 + st.minute) * 60 + st.second) * 1000 + st.milli
  }

  /**
   * Reads back exactly the texts `FormatUtcMillis` produces: 24 characters, separators in place,
   * every field in range; yields the instant in milliseconds since the epoch.
   */
  function ParseUtcMillis(s: string): (r: Option<int>)
    ensures r.Some? ==> InDatetimeRange(r.value)
  {
    match ReadStamp(s)
    case Some(st) => if ValidStamp(st) then Some(StampMillis(st)) else None
    case None => None
  }

  /** The stamp of an in-range instant. */
  function StampOf(ms: int): (st: Stamp)
    requires InDatetimeRange(ms)
    ensures ValidStamp(st) && StampMillis(st) == ms
  {
    var d := FromDays(ms / MillisPerDay + EpochDay);
    var rem := ms % MillisPerDay;
    ClockFields(rem);
    Stamp(d.year, d.month, d.day, Hours(rem), Minutes(rem), Seconds(rem), Millis(rem))
  }

  lemma ClockFields(rem: int)
    requires 0 <= rem < MillisPerDay
    ensures rem == ((Hours(rem) * 60 + Minutes(rem)) * 60 + Seconds(rem)) * 1000 + Millis(rem)
  {
    var sec, min := rem / 1000, rem / 1000 / 60;
    assert rem == sec * 1000 + Millis(rem);
    assert sec == min * 60 + Seconds(rem);
    assert min == Hours(rem) * 60 + Minutes(rem);
  }

  lemma DateLayout(d: Date)
    requires ValidDate(d)
    ensures var t := DateText(d);
            && |t| == 10 && t[4] == '-' && t[7] == '-'
            && t[0..4] == Padded(d.year, 4) && t[5..7] == Padded(d.month, 2) && t[8..10] == Padded(d.day, 2)
  {
    var t := DateText(d);
    var tail := "-" + (Padded(d.month, 2) + ("-" + Padded(d.day, 2)));
    SliceOfConcat(Padded(d.year, 4), tail, 0, 4);
    SliceOfConcat(Padded(d.year, 4), tail, 5, 7);
    SliceOfConcat(Padded(d.year, 4), tail, 8, 10);
    var tail2 := Padded(d.month, 2) + ("-" + Padded(d.day, 2));
    SliceOfConcat("-", tail2, 1, 3);
    SliceOfConcat("-", tail2, 4, 6);
    SliceOfConcat(Padded(d.month, 2), "-" + Padded(d.day, 2), 0, 2);
    SliceOfConcat(Padded(d.month, 2), "-" + Padded(d.day, 2), 3, 5);
    SliceOfConcat("-", Padded(d.day, 2), 1, 3);
  }

  lemma ClockLayout(rem: int)
    requires 0 <= rem < MillisPerDay
    ensures var c := ClockText(rem);
            && |c| == 13 && c[2] == ':' && c[5] == ':' && c[8] == '.' && c[12] == 'Z'
            && c[0..2] == Padded(Hours(rem), 2) && c[3..5] == Padded(Minutes(rem), 2)
            && c[6..8] == Padded(Seconds(rem), 2) && c[9..12] == Padded(Millis(rem), 3)
  {
    var ms := Padded(Millis(rem), 3) + "Z";
    var sec := Padded(Seconds(rem), 2) + ("." + ms);
    var mi := Padded(Minutes(rem), 2) + (":" + sec);
    var c := ClockText(rem);
    assert c == Padded(Hours(rem), 2) + (":" + mi);
    SliceOfConcat(Padded(Hours(rem), 2), ":" + mi, 0, 2);
    assert c[3..] == mi;
    assert mi[3..] == sec;
    assert sec[3..] == ms;
    assert c[3..5] == mi[0..2];
    assert c[6..8] == sec[0..2];
    assert c[9..12] == ms[0..3];
  }

  /** Where each field of the formatted text stands. */
  lemma FormatLayout(ms: int)
    requires InDatetimeRange(ms)
    ensures var s := FormatUtcMillis(ms);
            var d := FromDays(ms / MillisPerDay + EpochDay);
            var rem := ms % MillisPerDay;
            && s[4] == '-' && s[7] == '-' && s[10] == 'T' && s[13] == ':' && s[16] == ':'
            && s[19] == '.' && s[23] == 'Z'
            && s[0..4] == Padded(d.year, 4) && s[5..7] == Padded(d.month, 2)
            && s[8..10] == Padded(d.day, 2) && s[11..13] == Padded(Hours(rem), 2)
            && s[14..16] == Padded(Minutes(rem), 2) && s[17..19] == Padded(Seconds(rem), 2)
            && s[20..23] == Padded(Millis(rem), 3)
  {
    var d := FromDays(ms / MillisPerDay + EpochDay);
    var rem := ms % MillisPerDay;
    DateLayout(d);
    ClockLayout(rem);
    JoinLayout(DateText(d), ClockText(rem));
  }

  /** The positions of a date text and a clock text joined by `T`. */
  lemma JoinLayout(date: string, clock: string)
    requires |date| == 10 && |clock| == 13
    ensures var s := date + ("T" + clock);
            && |s| == 24 && s[10] == 'T'
            && s[0..4] == date[0..4] && s[4] == date[4] && s[5..7] == date[5..7] && s[7] == date[7]
            && s[8..10] == date[8..10] && s[11..13] == clock[0..2] && s[13] == clock[2]
            && s[14..16] == clock[3..5] && s[16] == clock[5] && s[17..19] == clock[6..8]
            && s[19] == clock[8] && s[20..23] == clock[9..12] && s[23] == clock[12]
  {
    var s := date + ("T" + clock);
    assert s[11..] == clock;
    assert s[..10] == date;
  }

  lemma FieldOfPadded(s: string, i: int, j: int, n: nat, w: nat)
    requires 0 <= i <= j <= |s| && j - i == w && n < Pow10(w)
    requires s[i..j] == Padded(n, w)
    ensures Field(s, i, j) == Some(n)
  {
    ValueOfPadded(n, w);
  }

  /** A text laid out with a stamp's zero-padded fields reads back as that stamp. */
  lemma ReadLaidOut(s: string, st: Stamp)
    requires |s| == 24 && s[4] == '-' && s[7] == '-' && s[10] == 'T' && s[13] == ':' && s[16] == ':'
    requires s[19] == '.' && s[23] == 'Z'
    requires st.year < 10000 && st.month < 100 && st.day < 100 && st.hour < 100
    requires st.minute < 100 && st.second < 100 && st.milli < 1000
    requires s[0..4] == Padded(st.year, 4) && s[5..7] == Padded(st.month, 2) && s[8..10] == Padded(st.day, 2)
    requires s[11..13] == Padded(st.hour, 2) && s[14..16] == Padded(st.minute, 2)
    requires s[17..19] == Padded(st.second, 2) && s[20..23] == Padded(st.milli, 3)
    ensures ReadStamp(s) == Some(st)
  {
    assert Pow10(2) == 100 && Pow10(3) == 1000 && Pow10(4) == 10000;
    FieldOfPadded(s, 0, 4, st.year, 4);
    FieldOfPadded(s, 5, 7, st.month, 2);
    FieldOfPadded(s, 8, 10, st.day, 2);
    FieldOfPadded(s, 11, 13, st.hour, 2);
    FieldOfPadded(s, 14, 16, st.minute, 2);
    FieldOfPadded(s, 17, 19, st.second, 2);
    FieldOfPadded(s, 20, 23, st.milli, 3);
  }

  /** The fields read from the formatted text are those of the instant. */
  lemma ReadFormat(ms: int)
    requires InDatetimeRange(ms)
    ensures ReadStamp(FormatUtcMillis(ms)) == Some(StampOf(ms))
  {
    FormatLayout(ms);
    ReadLaidOut(FormatUtcMillis(ms), StampOf(ms));
  }

  /** Every in-range instant is read back from its ISO text unchanged. */
  lemma ParseFormat(ms: int)
    requires InDatetimeRange(ms)
    ensures ParseUtcMillis(FormatUtcMillis(ms)) == Some(ms)
  {
    ReadFormat(ms);
  }
}
