/**
 * The `/api/meteomatics/uv-visual` route: from the query's `year` and
 * `bounds` it builds the Meteomatics request for a PNG of the UV index over
 * the map's bounding box at 13:00 on July 1 of that year, and replies with
 * the image as a data URL.
 */
module UvVisual {
  import opened Common
  import Text
  import Choropleth

  /** The four fields of `bounds`, as destructured: `undefined` for a missing one. */
  datatype Bounds = Bounds(swLng: string, swLat: string, neLng: string, neLat: string)

  /** `const [southwestLng, southwestLat, northeastLng, northeastLat] = bounds.split(',')`. */
  function ParseBounds(bounds: string): Bounds
  {
    var parts := Text.Split(bounds, ',');
    Bounds(Text.FieldAt(parts, 0), Text.FieldAt(parts, 1), Text.FieldAt(parts, 2), Text.FieldAt(parts, 3))
  }

  /** `bounds` is read in the order south-west longitude, south-west latitude, north-east longitude, north-east latitude; further fields are dropped. */
  lemma BoundsOrder(fields: seq<string>)
    requires |fields| >= 4
    requires forall i :: 0 <= i < |fields| ==> ',' !in fields[i]
    ensures ParseBounds(Text.Join(fields, ',')) == Bounds(fields[0], fields[1], fields[2], fields[3])
  {
    Text.SplitJoin(fields, ',');
  }

  /** With only two fields, the north-east corner is `undefined` twice. */
  lemma ShortBounds(swLng: string, swLat: string)
    requires ',' !in swLng && ',' !in swLat
    ensures ParseBounds(swLng + "," + swLat) == Bounds(swLng, swLat, "undefined", "undefined")
  {
    Text.SplitTwo(swLng, swLat, ',');
  }

  /** The month of the image: July (its day and time are `FirstAt13`). */
  const July := "07"

  /** `${year}-07-01T13:00:00.000+01:00`. */
  function DateOf(year: string): string
  {
    year + "-" + July + "-" + FirstAt13
  }

  /** Split at its dashes, the date of a dash-free year is the year, July, and the 1st at 13:00. */
  lemma DateIsJulyFirst(year: string)
    requires '-' !in year
    ensures Text.Split(DateOf(year), '-') == [year, July, FirstAt13]
  {
    assert '-' !in July && '-' !in FirstAt13;
    Text.SplitTwo(July, FirstAt13, '-');
    Text.SplitAround(year, July + "-" + FirstAt13, '-');
    assert DateOf(year) == year + ['-'] + (July + "-" + FirstAt13);
  }

  /** The overlay the map page asks for, for a year on its slider, is July 1 of that year plus 11, between 2015 and 2022. */
  lemma OverlayDate(selectedYear: int)
    requires Choropleth.InSliderRange(selectedYear)
    ensures var parts := Text.Split(DateOf(Choropleth.YearKey(selectedYear + Choropleth.YearsAhead)), '-');
      && |parts| == 3 && Text.ParseInteger(parts[0]) == Some(selectedYear + 11)
      && parts[1] == July && parts[2] == FirstAt13
      && 2015 <= Text.ParseInteger(parts[0]).value <= 2022
  {
    var y := selectedYear + Choropleth.YearsAhead;
    Text.NatTextCharacters(y, '-');
    DateIsJulyFirst(Choropleth.YearKey(y));
    Text.IntToStringRoundTrip(y);
  }

  const Resolution := "0.1,0.1"

  /** `${northeastLat},${southwestLng}_${southwestLat},${northeastLng}:0.1,0.1`. */
  function AreaOf(b: Bounds): string
  {
    b.neLat + "," + b.swLng + "_" + b.swLat + "," + b.neLng + ":" + Resolution
  }

  /** The area with its separators written out, innermost piece last. */
  lemma AreaParts(b: Bounds)
    ensures AreaOf(b) == ((b.neLat + [','] + b.swLng) + ['_'] + (b.swLat + [','] + b.neLng)) + [':'] + Resolution
  {
  }

  /** A field free of the area's separators. */
  predicate PlainField(f: string)
  {
    ',' !in f && '_' !in f && ':' !in f
  }

  /**
   * The area is the north-west corner (north-east latitude, south-west
   * longitude), then the south-east corner (south-west latitude, north-east
   * longitude), then the 0.1 by 0.1 degree resolution.
   */
  lemma AreaCorners(b: Bounds)
    requires PlainField(b.swLng) && PlainField(b.swLat) && PlainField(b.neLng) && PlainField(b.neLat)
    ensures var pieces := Text.Split(AreaOf(b), ':');
      && |pieces| == 2 && pieces[1] == Resolution
      && var corners := Text.Split(pieces[0], '_');
      && |corners| == 2
      && Text.Split(corners[0], ',') == [b.neLat, b.swLng]
      && Text.Split(corners[1], ',') == [b.swLat, b.neLng]
  {
    var nw := b.neLat + [','] + b.swLng;
    var se := b.swLat + [','] + b.neLng;
    Text.SplitTwo(b.neLat, b.swLng, ',');
    Text.SplitTwo(b.swLat, b.neLng, ',');
    assert '_' !in nw && '_' !in se;
    Text.SplitTwo(nw, se, '_');
    var corners := nw + ['_'] + se;
    assert ':' !in corners;
    assert ':' !in Resolution;
    Text.SplitTwo(corners, Resolution, ':');
    AreaParts(b);
  }

  /** The fields the map page sends never hold the area's separators when `bounds` holds none. */
  lemma ParsedFieldsPlain(bounds: string)
    requires '_' !in bounds && ':' !in bounds && '/' !in bounds
    ensures var b := ParseBounds(bounds);
      PlainField(b.swLng) && PlainField(b.swLat) && PlainField(b.neLng) && PlainField(b.neLat)
      && '/' !in b.swLng && '/' !in b.swLat && '/' !in b.neLng && '/' !in b.neLat
  {
    Text.SplitPiecesAvoid(bounds, ',', '_');
    Text.SplitPiecesAvoid(bounds, ',', ':');
    Text.SplitPiecesAvoid(bounds, ',', '/');
  }

  const PngQuery := "png?model=mix&access_token="

  /** The request URL after the API root: `<date>/uv:idx/<area>/png?model=mix&access_token=<token>`. */
  function UrlPath(year: string, bounds: string, token: string): string
  {
    DateOf(year) + "/" + UvParameter + "/" + AreaOf(ParseBounds(bounds)) + "/" + PngQuery + token
  }

  /** The request URL. */
  function UvVisualUrl(year: string, bounds: string, token: string): string
  {
    MeteomaticsBase + UrlPath(year, bounds, token)
  }

  lemma DateNoSlash(year: string)
    requires '/' !in year
    ensures '/' !in DateOf(year)
  {
    assert '/' !in July && '/' !in FirstAt13;
  }

  lemma AreaNoSlash(b: Bounds)
    requires '/' !in b.swLng && '/' !in b.swLat && '/' !in b.neLng && '/' !in b.neLat
    ensures '/' !in AreaOf(b)
  {
    assert '/' !in Resolution;
  }

  /**
   * After the API root, the URL's path segments are, in order: the date, the
   * `uv:idx` parameter, the area and the PNG format with the query.
   */
  lemma UvVisualUrlSegments(year: string, bounds: string, token: string)
    requires '/' !in year && '/' !in bounds && '/' !in token
    requires '_' !in bounds && ':' !in bounds
    ensures UvVisualUrl(year, bounds, token) == MeteomaticsBase + UrlPath(year, bounds, token)
    ensures Text.Split(UrlPath(year, bounds, token), '/') ==
      [DateOf(year), UvParameter, AreaOf(ParseBounds(bounds)), PngQuery + token]
  {
    var b := ParseBounds(bounds);
    ParsedFieldsPlain(bounds);
    DateNoSlash(year);
    AreaNoSlash(b);
    assert '/' !in UvParameter && '/' !in PngQuery;
    Text.PathSegments(DateOf(year), UvParameter, AreaOf(b), PngQuery, token);
    assert UrlPath(year, bounds, token) == DateOf(year) + "/" + UvParameter + "/" + AreaOf(b) + "/" + (PngQuery + token);
  }

  /** What a data URL of a base64 PNG starts with. */
  const DataUrlPrefix := "data:image/png;base64,"

  /**
   * The route's reply: 200 with the image as a data URL when the upstream
   * answer is ok, otherwise 500 with the fetch failure message.
   */
  function UvVisualReply(upstreamOk: bool, base64: string): (reply: Reply)
    ensures reply.status == 200 <==> upstreamOk
    ensures upstreamOk ==>
      && reply.body.ImageBody?
      && |reply.body.image| == |DataUrlPrefix| + |base64|
      && reply.body.image[..|DataUrlPrefix|] == DataUrlPrefix
      && reply.body.image[|DataUrlPrefix|..] == base64
    ensures !upstreamOk ==> reply == Reply(500, MessageBody(FetchFailed))
  {
    if upstreamOk then Reply(200, ImageBody(DataUrlPrefix + base64))
    else Reply(500, MessageBody(FetchFailed))
  }
}
