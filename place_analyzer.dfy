/**
 * `analyze` of place_analyzer.py: count the pixel colours of the log rows whose
 * timestamp lies in a time range, and report the ten most used colours.
 * The log arrives as the rows `csv.reader` yields; the header row is skipped.
 */
module PlaceAnalyzer {
  import opened Results
  import opened StringOrder
  import opened Timestamps
  import opened Counters
  import opened Ranking

  /** One CSV record: timestamp, user id, pixel colour, coordinate. */
  type Row = seq<string>

  /** How many colours `analyze` reports (`most_common(10)`). */
  const TopCount := 10

  /**
   * Why `analyze` raises: `next(reader)` finds no header row, or indexing a row
   * (`row[0]`, `row[2]` for an in-range row) finds too few fields; `row` is the
   * position of that record, the header being 0.
   */
  datatype AnalyzeError = NoHeader | MissingField(row: nat)

  /** The colour counter `analyze` fills, and the report it prints from it. */
  datatype Analysis = Analysis(colors: Counter, top: seq<Entry>)

  /** `start_time <= timestamp <= end_time` on strings: both ends included. */
  predicate InRange(timestamp: string, start: string, end: string)
  {
    LessEq(start, timestamp) && LessEq(timestamp, end)
  }

  /** The range test keeps an interval: whatever sorts between two kept timestamps is kept. */
  lemma InRangeInterval(x: string, y: string, z: string, start: string, end: string)
    requires InRange(x, start, end) && InRange(z, start, end)
    requires LessEq(x, y) && LessEq(y, z)
    ensures InRange(y, start, end)
  {
    LessEqTransitive(start, x, y);
    LessEqTransitive(y, z, end);
  }

  /** A timestamp is dropped exactly when it sorts strictly before the start or strictly after the end. */
  lemma OutOfRange(timestamp: string, start: string, end: string)
    ensures !InRange(timestamp, start, end) <==> Less(timestamp, start) || Less(end, timestamp)
  {
    LessTrichotomy(timestamp, start);
    LessTrichotomy(timestamp, end);
    LessIrreflexive(timestamp);
  }

  /** The row can be processed without an IndexError. */
  predicate Readable(row: Row, start: string, end: string)
  {
    |row| > 0 && (InRange(row[0], start, end) ==> |row| > 2)
  }

  predicate AllReadable(body: seq<Row>, start: string, end: string)
  {
    forall i :: 0 <= i < |body| ==> Readable(body[i], start, end)
  }

  /** The colours of the in-range rows of `body`, in file order. */
  function KeptColors(body: seq<Row>, start: string, end: string): seq<string>
    requires AllReadable(body, start, end)
  {
    if body == [] then []
    else
      var last := body[|body| - 1];
      KeptColors(body[..|body| - 1], start, end)
      + (if InRange(last[0], start, end) then [last[2]] else [])
  }

  /** Reading row `i` of the file extends the rows read so far by one. */
  lemma KeptColorsStep(rows: seq<Row>, i: nat, start: string, end: string)
    requires 1 <= i < |rows|
    requires AllReadable(rows[1..i], start, end) && Readable(rows[i], start, end)
    ensures AllReadable(rows[1..i + 1], start, end)
    ensures KeptColors(rows[1..i + 1], start, end) == KeptColors(rows[1..i], start, end)
      + (if InRange(rows[i][0], start, end) then [rows[i][2]] else [])
  {
    var body := rows[1..i + 1];
    assert body[..|body| - 1] == rows[1..i];
    assert body[|body| - 1] == rows[i];
  }

  /** A record that cannot be read makes the whole file unreadable. */
  lemma UnreadableRow(rows: seq<Row>, i: nat, start: string, end: string)
    requires 1 <= i < |rows| && !Readable(rows[i], start, end)
    ensures !AllReadable(rows[1..], start, end)
  {
    assert rows[1..][i - 1] == rows[i];
  }

  /**
   * The loop of `analyze` over the records after the header row. It stops as
   * Python does at the first record it cannot index; otherwise the counter holds
   * the colours of the in-range records, in file order.
   */
  method CountColors(rows: seq<Row>, start: string, end: string) returns (r: Result<Counter, AnalyzeError>)
    requires |rows| > 0
    ensures r.Ok? <==> AllReadable(rows[1..], start, end)
    ensures r.Err? ==>
      && r.error.MissingField?
      && 1 <= r.error.row < |rows|
      && !Readable(rows[r.error.row], start, end)
      && AllReadable(rows[1..r.error.row], start, end)
    ensures r.Ok? ==> r.value == FromKeys(KeptColors(rows[1..], start, end))
  {
    var colors := Empty;
    ghost var kept: seq<string> := [];
    var i := 1;
    while i < |rows|
      invariant 1 <= i <= |rows|
      invariant AllReadable(rows[1..i], start, end)
      invariant kept == KeptColors(rows[1..i], start, end)
      invariant colors == FromKeys(kept)
    {
      var row := rows[i];
      // `row[0]`, and `row[2]` for an in-range row, raise IndexError on a short record
      if !Readable(row, start, end) {
        UnreadableRow(rows, i, start, end);
        return Err(MissingField(i));
      }
      KeptColorsStep(rows, i, start, end);
      if InRange(row[0], start, end) {
        var color := row[2];
        FromKeysAppend(kept, color);
        kept := kept + [color];
        if color in colors.counts {
          colors := colors.(counts := colors.counts[color := colors.counts[color] + 1]);
        } else {
          colors := Counter(colors.counts[color := 1], colors.order + [color]);
        }
      }
      i := i + 1;
    }
    assert rows[1..i] == rows[1..];
    return Ok(colors);
  }

  /**
   * `analyze`: it fails as Python does, without a header row or at the first
   * record it cannot index. Otherwise the counter holds the colours of the
   * in-range rows after the header, and the report is its `most_common(10)`.
   */
  method Analyze(rows: seq<Row>, start: string, end: string) returns (r: Result<Analysis, AnalyzeError>)
    ensures r == Err(NoHeader) <==> |rows| == 0
    ensures r.Ok? <==> |rows| > 0 && AllReadable(rows[1..], start, end)
    ensures r.Err? && r.error.MissingField? ==>
      && 1 <= r.error.row < |rows|
      && !Readable(rows[r.error.row], start, end)
      && AllReadable(rows[1..r.error.row], start, end)
    ensures r.Ok? ==> r.value.colors == FromKeys(KeptColors(rows[1..], start, end))
    ensures r.Ok? ==> Counters.Valid(r.value.colors)
    ensures r.Ok? ==> r.value.top == MostCommon(r.value.colors, TopCount)
  {
    if |rows| == 0 {
      return Err(NoHeader);
    }
    var counted := CountColors(rows, start, end);
    match counted
    case Err(e) =>
      return Err(e);
    case Ok(colors) =>
      FromKeysValid(KeptColors(rows[1..], start, end));
      return Ok(Analysis(colors, MostCommon(colors, TopCount)));
  }

  /** The number of in-range rows of `body` whose colour is `color`. */
  function CountRows(body: seq<Row>, start: string, end: string, color: string): nat
    requires AllReadable(body, start, end)
  {
    if body == [] then 0
    else
      (if InRange(body[0][0], start, end) && body[0][2] == color then 1 else 0)
      + CountRows(body[1..], start, end, color)
  }

  /** The number of in-range rows of `body`. */
  function InRangeRows(body: seq<Row>, start: string, end: string): nat
    requires AllReadable(body, start, end)
  {
    if body == [] then 0
    else (if InRange(body[0][0], start, end) then 1 else 0) + InRangeRows(body[1..], start, end)
  }

  /** Each row contributes on its own: the kept colours of two stretches of rows concatenate. */
  lemma {:induction false} KeptColorsConcat(a: seq<Row>, b: seq<Row>, start: string, end: string)
    requires AllReadable(a, start, end) && AllReadable(b, start, end)
    ensures AllReadable(a + b, start, end)
    ensures KeptColors(a + b, start, end) == KeptColors(a, start, end) + KeptColors(b, start, end)
  {
    if b == [] {
      assert a + b == a;
    } else {
      var init, last := b[..|b| - 1], b[|b| - 1];
      KeptColorsConcat(a, init, start, end);
      assert (a + b)[..|a + b| - 1] == a + init;
      assert (a + b)[|a + b| - 1] == last;
    }
  }

  /** A row outside the range, wherever it stands, leaves the counter as it is. */
  lemma OutOfRangeRowIgnored(a: seq<Row>, row: Row, b: seq<Row>, start: string, end: string)
    requires AllReadable(a, start, end) && AllReadable(b, start, end)
    requires |row| > 0 && !InRange(row[0], start, end)
    ensures AllReadable(a + [row] + b, start, end)
    ensures KeptColors(a + [row] + b, start, end) == KeptColors(a + b, start, end)
    ensures FromKeys(KeptColors(a + [row] + b, start, end)) == FromKeys(KeptColors(a + b, start, end))
  {
    assert AllReadable([row], start, end);
    assert KeptColors([row], start, end) == [] by {
      assert [row][..0] == [];
    }
    KeptColorsConcat(a, [row], start, end);
    assert KeptColors(a + [row], start, end) == KeptColors(a, start, end);
    KeptColorsConcat(a + [row], b, start, end);
    KeptColorsConcat(a, b, start, end);
  }

  /** The kept colours are exactly the colours of the in-range rows, with multiplicity. */
  lemma {:induction false} KeptColorsCount(body: seq<Row>, start: string, end: string, color: string)
    requires AllReadable(body, start, end)
    ensures multiset(KeptColors(body, start, end))[color] == CountRows(body, start, end, color)
    ensures |KeptColors(body, start, end)| == InRangeRows(body, start, end)
  {
    if body != [] {
      KeptColorsCount(body[1..], start, end, color);
      KeptColorsConcat([body[0]], body[1..], start, end);
      assert [body[0]] + body[1..] == body;
    }
  }

  /**
   * After the loop the counter holds, for every colour, the number of in-range
   * rows of that colour (and no colour without such a row); its counts add up to
   * the number of in-range rows; and its colours stand in the order in which
   * their first in-range row appears.
   */
  lemma CounterMatchesRows(body: seq<Row>, start: string, end: string)
    requires AllReadable(body, start, end)
    ensures var c := FromKeys(KeptColors(body, start, end));
      && (forall color :: color in c.counts <==> CountRows(body, start, end, color) > 0)
      && (forall color :: color in c.counts ==> c.counts[color] == CountRows(body, start, end, color))
      && Total(c) == InRangeRows(body, start, end)
      && InFirstSeenOrder(c.order, KeptColors(body, start, end))
  {
    var kept := KeptColors(body, start, end);
    var c := FromKeys(kept);
    FromKeysCounts(kept);
    forall color
      ensures color in kept <==> CountRows(body, start, end, color) > 0
      ensures color in c.counts ==> c.counts[color] == CountRows(body, start, end, color)
    {
      KeptColorsCount(body, start, end, color);
    }
    KeptColorsCount(body, start, end, "");
    FromKeysTotal(kept);
    FromKeysOrder(kept);
  }

  /** Every colour `analyze` reports comes with the number of in-range rows of that colour. */
  lemma ReportMatchesRows(body: seq<Row>, start: string, end: string)
    requires AllReadable(body, start, end)
    ensures var c := FromKeys(KeptColors(body, start, end));
      && Counters.Valid(c)
      && forall e :: e in MostCommon(c, TopCount) ==> e.1 == CountRows(body, start, end, e.0) && e.1 > 0
  {
    CounterMatchesRows(body, start, end);
    FromKeysValid(KeptColors(body, start, end));
  }

  /**
   * With bounds from `validate_time_range`, a row whose timestamp is in the log's
   * format is kept exactly when its time lies between the start hour and the end
   * hour, both included, so the raw string test is the chronological one.
   */
  lemma CanonicalRowFilter(t: DateTime, first: DateTime, last: DateTime)
    requires Timestamps.Valid(t) && Timestamps.Valid(first) && Timestamps.Valid(last)
    requires Before(first, last)
    ensures var b := ValidateTimeRange(first, last).value;
      && (InRange(Canonical(t), b.start, b.end)
          <==> AtOrBefore(TruncateToHour(first), t) && AtOrBefore(t, TruncateToHour(last)))
      && InRange(b.start, b.start, b.end) && InRange(b.end, b.start, b.end)
  {
    CanonicalOrder(TruncateToHour(first), t);
    CanonicalOrder(t, TruncateToHour(last));
  }
}
