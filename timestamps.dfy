/**
 * The time range of place_analyzer.py: Python `datetime` values, their
 * rendering in the log's timestamp format, and `convert_date_format` /
 * `validate_time_range`.
 */
module Timestamps {
  import opened Results
  import opened StringOrder
  import opened Decimal

  /** A naive Python `datetime`, field by field. */
  datatype DateTime = DateTime(year: nat, month: nat, day: nat,
                               hour: nat, minute: nat, second: nat, microsecond: nat)

  predicate IsLeapYear(y: nat)
  {
    y % 4 == 0 && (y % 100 != 0 || y % 400 == 0)
  }

  function DaysInMonth(y: nat, m: nat): nat
    requires 1 <= m <= 12
  {
    if m == 2 then (if IsLeapYear(y) then 29 else 28)
    else if m == 4 || m == 6 || m == 9 || m == 11 then 30
    else 31
  }

  /** The values a `datetime` can hold (`MINYEAR` is 1, `MAXYEAR` is 9999). */
  predicate Valid(t: DateTime)
  {
    && 1 <= t.year <= 9999
    && 1 <= t.month <= 12
    && 1 <= t.day <= DaysInMonth(t.year, t.month)
    && t.hour < 24 && t.minute < 60 && t.second < 60 && t.microsecond < 1000000
  }

  /** `a < b` on naive datetimes: the fields compared as a tuple, most significant first. */
  predicate Before(a: DateTime, b: DateTime)
  {
    if a.year != b.year then a.year < b.year
    else if a.month != b.month then a.month < b.month
    else if a.day != b.day then a.day < b.day
    else if a.hour != b.hour then a.hour < b.hour
    else if a.minute != b.minute then a.minute < b.minute
    else if a.second != b.second then a.second < b.second
    else a.microsecond < b.microsecond
  }

  /** `a <= b` on naive datetimes. */
  predicate AtOrBefore(a: DateTime, b: DateTime)
  {
    a == b || Before(a, b)
  }

  predicate IsWholeHour(t: DateTime)
  {
    t.minute == 0 && t.second == 0 && t.microsecond == 0
  }

  function TruncateToHour(t: DateTime): (r: DateTime)
    requires Valid(t)
    ensures Valid(r) && IsWholeHour(r)
    ensures IsWholeHour(t) ==> r == t
  {
    t.(minute := 0, second := 0, microsecond := 0)
  }

  /** Length of every timestamp in the log's format. */
  const StampLength := 30

  /** `t.strftime('%Y-%m-%d %H:%M:%S.%f UTC')`, the format of the log's timestamps. */
  function Canonical(t: DateTime): (r: string)
    ensures |r| == StampLength
  {
    Pad(t.year, 4) + "-" + Pad(t.month, 2) + "-" + Pad(t.day, 2) + " " + Pad(t.hour, 2)
    + ":" + Pad(t.minute, 2) + ":" + Pad(t.second, 2) + "." + Pad(t.microsecond, 6) + " UTC"
  }

  /** One more zero-padded field after a separator, compared field by field. */
  lemma FieldStep(x: string, y: string, sep: string, f: nat, g: nat, w: nat)
    requires |x| == |y| && f < Pow10(w) && g < Pow10(w)
    ensures |x + sep + Pad(f, w)| == |y + sep + Pad(g, w)|
    ensures Less(x + sep + Pad(f, w), y + sep + Pad(g, w)) <==> Less(x, y) || (x == y && f < g)
    ensures x + sep + Pad(f, w) == y + sep + Pad(g, w) <==> x == y && f == g
  {
    LessAppend(x, y, sep, sep);
    LessIrreflexive(sep);
    LessAppend(x + sep, y + sep, Pad(f, w), Pad(g, w));
    PadOrder(f, g, w);
  }

  /** The `YYYY-MM-DD HH` part that starts a rendering. */
  function DateAndHour(t: DateTime): (r: string)
    ensures |r| == 13
  {
    Pad(t.year, 4) + "-" + Pad(t.month, 2) + "-" + Pad(t.day, 2) + " " + Pad(t.hour, 2)
  }

  /** The date and hour part orders datetimes by their hour. */
  lemma DateAndHourOrder(a: DateTime, b: DateTime)
    requires Valid(a) && Valid(b)
    ensures Less(DateAndHour(a), DateAndHour(b)) <==> Before(TruncateToHour(a), TruncateToHour(b))
    ensures DateAndHour(a) == DateAndHour(b) <==> TruncateToHour(a) == TruncateToHour(b)
  {
    var a1, b1 := Pad(a.year, 4), Pad(b.year, 4);
    PadOrder(a.year, b.year, 4);
    var a2, b2 := a1 + "-" + Pad(a.month, 2), b1 + "-" + Pad(b.month, 2);
    FieldStep(a1, b1, "-", a.month, b.month, 2);
    var a3, b3 := a2 + "-" + Pad(a.day, 2), b2 + "-" + Pad(b.day, 2);
    FieldStep(a2, b2, "-", a.day, b.day, 2);
    FieldStep(a3, b3, " ", a.hour, b.hour, 2);
  }

  /**
   * The property the raw string filter rests on: rendered in the log's fixed-width,
   * zero-padded format, one datetime sorts before another as a string exactly when
   * it is earlier, and two renderings are equal exactly when the datetimes are.
   */
  lemma CanonicalOrder(a: DateTime, b: DateTime)
    requires Valid(a) && Valid(b)
    ensures Less(Canonical(a), Canonical(b)) <==> Before(a, b)
    ensures Canonical(a) == Canonical(b) <==> a == b
  {
    var a4, b4 := DateAndHour(a), DateAndHour(b);
    DateAndHourOrder(a, b);
    var a5, b5 := a4 + ":" + Pad(a.minute, 2), b4 + ":" + Pad(b.minute, 2);
    FieldStep(a4, b4, ":", a.minute, b.minute, 2);
    var a6, b6 := a5 + ":" + Pad(a.second, 2), b5 + ":" + Pad(b.second, 2);
    FieldStep(a5, b5, ":", a.second, b.second, 2);
    var a7, b7 := a6 + "." + Pad(a.microsecond, 6), b6 + "." + Pad(b.microsecond, 6);
    FieldStep(a6, b6, ".", a.microsecond, b.microsecond, 6);
    assert Canonical(a) == a7 + " UTC" && Canonical(b) == b7 + " UTC";
    LessAppend(a7, b7, " UTC", " UTC");
    LessIrreflexive(" UTC");
  }

  lemma DateAndHourFields(t: DateTime)
    requires Valid(t)
    ensures var s := DateAndHour(t);
      && s[4] == '-' && s[7] == '-' && s[10] == ' '
      && AllDigits(s[..4]) && AllDigits(s[5..7]) && AllDigits(s[8..10]) && AllDigits(s[11..13])
      && Value(s[..4]) == t.year && Value(s[5..7]) == t.month
      && Value(s[8..10]) == t.day && Value(s[11..13]) == t.hour
  {
    var s := DateAndHour(t);
    assert s[..4] == Pad(t.year, 4) && s[5..7] == Pad(t.month, 2);
    assert s[8..10] == Pad(t.day, 2) && s[11..13] == Pad(t.hour, 2);
    PadValue(t.year, 4);
    PadValue(t.month, 2);
    PadValue(t.day, 2);
    PadValue(t.hour, 2);
  }

  lemma ZeroFields()
    ensures Pad(0, 2) == "00" && Pad(0, 6) == "000000"
  {
    assert Pad(0, 1) == "0";
    assert Pad(0, 2) == "00";
    assert Pad(0, 3) == "000";
    assert Pad(0, 4) == "0000";
    assert Pad(0, 5) == "00000";
  }

  lemma TruncatedRendering(t: DateTime)
    requires Valid(t)
    ensures Canonical(TruncateToHour(t)) == DateAndHour(t) + ":00:00.000000 UTC"
  {
    var h := TruncateToHour(t);
    var d := DateAndHour(t);
    assert DateAndHour(h) == d;
    assert Canonical(h) == d + ":" + Pad(0, 2) + ":" + Pad(0, 2) + "." + Pad(0, 6) + " UTC";
    ZeroFields();
    assert d + ":" + "00" + ":" + "00" + "." + "000000" + " UTC" == d + ":00:00.000000 UTC";
  }

  /**
   * `convert_date_format`: the date and hour of `t`, zero-padded, followed by the
   * literal `:00:00.000000 UTC`, so minutes, seconds and microseconds always read
   * as zero. It is the log-format rendering of `t` truncated to its hour.
   */
  function ConvertDateFormat(t: DateTime): (r: string)
    requires Valid(t)
    ensures r == Canonical(TruncateToHour(t))
    ensures |r| == StampLength
    ensures r[4] == '-' && r[7] == '-' && r[10] == ' ' && r[13..] == ":00:00.000000 UTC"
    ensures AllDigits(r[..4]) && AllDigits(r[5..7]) && AllDigits(r[8..10]) && AllDigits(r[11..13])
    ensures Value(r[..4]) == t.year && Value(r[5..7]) == t.month
    ensures Value(r[8..10]) == t.day && Value(r[11..13]) == t.hour
  {
    TruncatedRendering(t);
    DateAndHourFields(t);
    var r := DateAndHour(t) + ":00:00.000000 UTC";
    assert r[..13] == DateAndHour(t);
    assert r[..4] == DateAndHour(t)[..4] && r[5..7] == DateAndHour(t)[5..7];
    assert r[8..10] == DateAndHour(t)[8..10] && r[11..13] == DateAndHour(t)[11..13];
    r
  }

  datatype RangeError = EndNotAfterStart

  /** A time range as `analyze` receives it: both ends already formatted. */
  datatype Bounds = Bounds(start: string, end: string)

  /**
   * `validate_time_range`: rejects a range whose end is not after its start;
   * otherwise returns both ends formatted. The formatted start never sorts after
   * the formatted end, and whole-hour ends (all that `parse_datetime_arg` can
   * produce) sort strictly in order.
   */
  function ValidateTimeRange(start: DateTime, end: DateTime): (r: Result<Bounds, RangeError>)
    requires Valid(start) && Valid(end)
    ensures r.Err? <==> !Before(start, end)
    ensures r.Ok? ==> r.value.start == ConvertDateFormat(start) && r.value.end == ConvertDateFormat(end)
    ensures r.Ok? ==> LessEq(r.value.start, r.value.end)
    ensures r.Ok? && IsWholeHour(start) && IsWholeHour(end) ==> Less(r.value.start, r.value.end)
  {
    if AtOrBefore(end, start) then Err(EndNotAfterStart)
    else
      CanonicalOrder(TruncateToHour(start), TruncateToHour(end));
      Ok(Bounds(ConvertDateFormat(start), ConvertDateFormat(end)))
  }
}
