/**
 * The `/api/meteomatics/getYearlyUVDataByCountry` route: from the query's
 * `coordinates` and `year` it builds the Meteomatics request for one year of
 * daily UV indices at the country's centre, and replies with the mean of the
 * first day's value over the returned coordinates.
 */
module YearlyUv {
  import opened Common
  import Text

  // ---------------------------------------------------------------------------
  // The request
  // ---------------------------------------------------------------------------

  /** `${lat},${long}` after `const [lat, long] = coordinates.split(',')`. */
  function CountryCenter(coordinates: string): string
  {
    var parts := Text.Split(coordinates, ',');
    Text.FieldAt(parts, 0) + "," + Text.FieldAt(parts, 1)
  }

  /** The centre is the first two comma-separated fields; any further fields are dropped. */
  lemma CenterKeepsFirstTwo(fields: seq<string>)
    requires |fields| >= 2
    requires forall i :: 0 <= i < |fields| ==> ',' !in fields[i]
    ensures CountryCenter(Text.Join(fields, ',')) == fields[0] + "," + fields[1]
  {
    Text.SplitJoin(fields, ',');
  }

  /** Without a comma, the longitude prints as `undefined`. */
  lemma CenterOfOneField(s: string)
    requires ',' !in s
    ensures CountryCenter(s) == s + ",undefined"
  {
    Text.SplitWithoutSeparator(s, ',');
  }

  /**
   * `Number(year)` as it prints in a template literal, for the texts the
   * model reads: the empty text is 0, decimal integer text is its value, and
   * any other text is NaN.
   */
  function YearNumber(year: string): Option<int>
  {
    if year == "" then Some(0) else Text.ParseInteger(year)
  }

  /** The month of every range end: January (the day and time are `FirstAt13`). */
  const January := "01"
  const YearStart := "-" + January + "-" + FirstAt13
  const DailyStep := ":P1D"

  /** `${Number(year)}` and `${Number(year) + 1}`: the printed year and the one after it, or NaN twice. */
  function YearBounds(year: string): (bounds: (string, string))
    ensures YearNumber(year).None? ==> bounds == ("NaN", "NaN")
    ensures YearNumber(year).Some? ==>
      Text.ParseInteger(bounds.0) == YearNumber(year) && Text.ParseInteger(bounds.1) == Some(YearNumber(year).value + 1)
  {
    match YearNumber(year)
    case Some(n) =>
      Text.IntToStringRoundTrip(n);
      Text.IntToStringRoundTrip(n + 1);
      (Text.IntToString(n), Text.IntToString(n + 1))
    case None => ("NaN", "NaN")
  }

  /** `seriesRange`: from January 1 of the year to January 1 of the next, 13:00 at +01:00, one value per day. */
  function SeriesRange(year: string): string
  {
    var (first, next) := YearBounds(year);
    first + YearStart + "--" + next + YearStart + DailyStep
  }

  /** The pieces of the range between its dashes, for two dash-free ends. */
  function RangePieces(first: string, next: string): seq<string>
  {
    [first, January, FirstAt13, "", next, January, FirstAt13 + DailyStep]
  }

  /** The range with every dash written as a separator, innermost piece last. */
  function DashedRange(first: string, next: string): string
  {
    first + ['-'] + (January + ['-'] + (FirstAt13 + ['-'] + ([] + ['-'] + (next + ['-'] + (January + ['-'] + (FirstAt13 + DailyStep))))))
  }

  lemma DashedRangeIsRange(first: string, next: string)
    ensures DashedRange(first, next) == first + YearStart + "--" + next + YearStart + DailyStep
  {
    assert YearStart == ['-'] + January + ['-'] + FirstAt13;
    assert "--" == ['-'] + ['-'];
  }

  lemma DashedRangeSplits(first: string, next: string)
    requires '-' !in first && '-' !in next
    ensures Text.Split(DashedRange(first, next), '-') == RangePieces(first, next)
  {
    var t6 := FirstAt13 + DailyStep;
    assert '-' !in t6;
    assert '-' !in January && '-' !in FirstAt13;
    Text.SplitWithoutSeparator(t6, '-');
    var t5 := January + ['-'] + t6;
    Text.SplitAround(January, t6, '-');
    var t4 := next + ['-'] + t5;
    Text.SplitAround(next, t5, '-');
    var t3 := [] + ['-'] + t4;
    Text.SplitAround([], t4, '-');
    var t2 := FirstAt13 + ['-'] + t3;
    Text.SplitAround(FirstAt13, t3, '-');
    var t1 := January + ['-'] + t2;
    Text.SplitAround(January, t2, '-');
    Text.SplitAround(first, t1, '-');
  }

  lemma RangeSplits(first: string, next: string)
    requires '-' !in first && '-' !in next
    ensures Text.Split(first + YearStart + "--" + next + YearStart + DailyStep, '-') == RangePieces(first, next)
  {
    DashedRangeIsRange(first, next);
    DashedRangeSplits(first, next);
  }

  /**
   * For a non-negative year the range reads, split at its dashes, as the year,
   * January, the 1st at 13:00, the empty piece between the two dashes of the
   * interval, the next year, January, and the 1st at 13:00 with the daily step.
   */
  lemma SeriesRangeSpansOneYear(y: nat)
    ensures var parts := Text.Split(SeriesRange(Text.IntToString(y)), '-');
      && parts == RangePieces(Text.IntToString(y), Text.IntToString(y + 1))
      && Text.ParseInteger(parts[0]) == Some(y)
      && Text.ParseInteger(parts[4]) == Some(y + 1)
  {
    var first := Text.IntToString(y);
    Text.IntToStringRoundTrip(y);
    assert YearNumber(first) == Some(y);
    Text.NatTextCharacters(y, '-');
    Text.NatTextCharacters(y + 1, '-');
    RangeSplits(first, Text.IntToString(y + 1));
  }

  /** A year that is not a number gives `NaN` at both ends. */
  lemma SeriesRangeOfNaN(year: string)
    requires YearNumber(year).None?
    ensures Text.Split(SeriesRange(year), '-') == RangePieces("NaN", "NaN")
  {
    RangeSplits("NaN", "NaN");
  }

  const JsonQuery := "json?model=mix&access_token="

  /** The request URL after the API root: `<range>/uv:idx/<centre>/json?model=mix&access_token=<token>`. */
  function UrlPath(year: string, coordinates: string, token: string): string
  {
    SeriesRange(year) + "/" + UvParameter + "/" + CountryCenter(coordinates) + "/" + JsonQuery + token
  }

  /** The request URL. */
  function YearlyUrl(year: string, coordinates: string, token: string): string
  {
    MeteomaticsBase + UrlPath(year, coordinates, token)
  }

  /** The range holds no slash. */
  lemma RangeNoSlash(first: string, next: string)
    requires '/' !in first && '/' !in next
    ensures '/' !in first + YearStart + "--" + next + YearStart + DailyStep
  {
    assert '/' !in YearStart && '/' !in DailyStep && '/' !in "--";
  }

  lemma SeriesRangeNoSlash(year: string)
    ensures '/' !in SeriesRange(year)
  {
    var (first, next) := YearBounds(year);
    match YearNumber(year)
    case Some(n) =>
      Text.IntToStringCharacters(n, '/');
      Text.IntToStringCharacters(n + 1, '/');
      RangeNoSlash(first, next);
    case None =>
      assert '/' !in "NaN";
      RangeNoSlash(first, next);
  }

  /** The centre holds no slash when the coordinates hold none. */
  lemma CenterNoSlash(coordinates: string)
    requires '/' !in coordinates
    ensures '/' !in CountryCenter(coordinates)
  {
    Text.SplitPiecesAvoid(coordinates, ',', '/');
  }

  /**
   * After the API root, the URL's path segments are, in order: the time
   * range, the `uv:idx` parameter, the country centre and the JSON format
   * with the query.
   */
  lemma YearlyUrlSegments(year: string, coordinates: string, token: string)
    requires '/' !in coordinates && '/' !in token
    ensures YearlyUrl(year, coordinates, token) == MeteomaticsBase + UrlPath(year, coordinates, token)
    ensures Text.Split(UrlPath(year, coordinates, token), '/') ==
      [SeriesRange(year), UvParameter, CountryCenter(coordinates), JsonQuery + token]
  {
    SeriesRangeNoSlash(year);
    CenterNoSlash(coordinates);
    assert '/' !in UvParameter && '/' !in JsonQuery;
    Text.PathSegments(SeriesRange(year), UvParameter, CountryCenter(coordinates), JsonQuery, token);
    assert UrlPath(year, coordinates, token) == SeriesRange(year) + "/" + UvParameter + "/" + CountryCenter(coordinates) + "/" + (JsonQuery + token);
  }

  // ---------------------------------------------------------------------------
  // The reply
  // ---------------------------------------------------------------------------

  /** One returned coordinate: the values of its dates, in order. */
  datatype Coordinate = Coordinate(dates: seq<real>)

  /** One entry of the upstream `data` array. */
  datatype Location = Location(coordinates: seq<Coordinate>)

  predicate AllHaveDates(coords: seq<Coordinate>)
  {
    forall i :: 0 <= i < |coords| ==> |coords[i].dates| > 0
  }

  /** `coords.reduce((acc, curr) => acc + curr.dates[0].value, 0)`. */
  function SumOfFirsts(coords: seq<Coordinate>): real
    requires AllHaveDates(coords)
  {
    if coords == [] then 0.0
    else SumOfFirsts(coords[..|coords| - 1]) + coords[|coords| - 1].dates[0]
  }

  /** `avgUV` for a non-empty coordinate list. */
  function AvgUV(coords: seq<Coordinate>): real
    requires |coords| > 0 && AllHaveDates(coords)
  {
    SumOfFirsts(coords) / |coords| as real
  }

  lemma {:induction false} SumBetween(coords: seq<Coordinate>, lo: real, hi: real)
    requires AllHaveDates(coords)
    requires forall i :: 0 <= i < |coords| ==> lo <= coords[i].dates[0] <= hi
    ensures |coords| as real * lo <= SumOfFirsts(coords) <= |coords| as real * hi
    decreases |coords|
  {
    if coords != [] {
      SumBetween(coords[..|coords| - 1], lo, hi);
    }
  }

  /** The mean lies between the least and the greatest first value. */
  lemma AvgWithinFirstValues(coords: seq<Coordinate>, lo: real, hi: real)
    requires |coords| > 0 && AllHaveDates(coords)
    requires forall i :: 0 <= i < |coords| ==> lo <= coords[i].dates[0] <= hi
    ensures lo <= AvgUV(coords) <= hi
  {
    SumBetween(coords, lo, hi);
    var n := |coords| as real;
    assert (n * lo) / n == lo;
    assert (n * hi) / n == hi;
    DivMonotone(n * lo, SumOfFirsts(coords), n);
    DivMonotone(SumOfFirsts(coords), n * hi, n);
  }


  lemma {:induction false} SumOfFirstsOnlyFirsts(a: seq<Coordinate>, b: seq<Coordinate>)
    requires AllHaveDates(a) && AllHaveDates(b) && |a| == |b|
    requires forall i :: 0 <= i < |a| ==> a[i].dates[0] == b[i].dates[0]
    ensures SumOfFirsts(a) == SumOfFirsts(b)
    decreases |a|
  {
    if a != [] {
      SumOfFirstsOnlyFirsts(a[..|a| - 1], b[..|b| - 1]);
    }
  }

  /** Only each coordinate's first date counts: the later dates of the year never change the mean. */
  lemma LaterDatesIgnored(a: seq<Coordinate>, b: seq<Coordinate>)
    requires |a| > 0 && AllHaveDates(a) && AllHaveDates(b) && |a| == |b|
    requires forall i :: 0 <= i < |a| ==> a[i].dates[0] == b[i].dates[0]
    ensures AvgUV(a) == AvgUV(b)
  {
    SumOfFirstsOnlyFirsts(a, b);
  }

  /** Two coordinates whose first days read 1 and 3 average to 2, whatever follows. */
  lemma AvgExample(later: seq<real>)
    ensures AvgUV([Coordinate([1.0] + later), Coordinate([3.0])]) == 2.0
  {
    var coords := [Coordinate([1.0] + later), Coordinate([3.0])];
    assert coords[..1][..0] == [];
    assert SumOfFirsts(coords[..1]) == 1.0;
    assert SumOfFirsts(coords) == 4.0;
  }

  const NoCoordinatesMessage := "Cannot read properties of undefined (reading 'coordinates')"
  const NoValueMessage := "Cannot read properties of undefined (reading 'value')"

  /**
   * The route's reply for an upstream answer: 500 with the thrown message when
   * the answer is not ok or `data[0]` or some `dates[0]` is missing, otherwise
   * 200 with `avgUV`, which is `null` (JSON for NaN) for an empty coordinate list.
   */
  function YearlyReply(upstreamOk: bool, data: seq<Location>): (reply: Reply)
    ensures reply.status == 200 || reply.status == 500
    ensures reply.status == 200 <==> upstreamOk && |data| > 0 && AllHaveDates(data[0].coordinates)
    ensures !upstreamOk ==> reply == Reply(500, MessageBody(FetchFailed))
    ensures reply.status == 200 ==> reply.body.AverageBody?
    ensures reply.status == 200 && |data[0].coordinates| > 0 ==>
      reply.body.avgUV == Some(AvgUV(data[0].coordinates))
    ensures reply.status == 200 && |data[0].coordinates| == 0 ==> reply.body.avgUV == None
  {
    if !upstreamOk then Reply(500, MessageBody(FetchFailed))
    else if |data| == 0 then Reply(500, MessageBody(NoCoordinatesMessage))
    else if !AllHaveDates(data[0].coordinates) then Reply(500, MessageBody(NoValueMessage))
    else if |data[0].coordinates| == 0 then Reply(200, AverageBody(None))
    else Reply(200, AverageBody(Some(AvgUV(data[0].coordinates))))
  }

  /** A successful reply's `avgUV` lies between the least and the greatest first-day value of the first location. */
  lemma ReplyWithinFirstValues(data: seq<Location>, lo: real, hi: real)
    requires |data| > 0 && |data[0].coordinates| > 0 && AllHaveDates(data[0].coordinates)
    requires forall i :: 0 <= i < |data[0].coordinates| ==> lo <= data[0].coordinates[i].dates[0] <= hi
    ensures var reply := YearlyReply(true, data);
      reply.status == 200 && reply.body.avgUV.Some? && lo <= reply.body.avgUV.value <= hi
  {
    AvgWithinFirstValues(data[0].coordinates, lo, hi);
  }
}
