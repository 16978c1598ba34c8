# SolarSense dashboard core, modelled in Dafny

SolarSense is a Next.js dashboard that sets skin-cancer case counts per
European country beside the average UV index. This project models the data
path behind its two pages and three API routes:

- **Per-country UV CSV pivot** (`/api/avg-uv-by-country`, module `CsvPivot`).
  Each CSV row is a country plus one column per year. The route pivots the
  rows into a `year -> country -> {cases: number}` dataset. It skips the
  `country` column and empty cells, and a later cell overwrites an earlier one.
  `Pivot` is the imperative loop. It is proved equal to the fold `PivotRows`,
  which in turn is tied to a reference definition (`LastEntry`, "the last
  non-empty cell for that year among the country's rows").
- **Choropleth map page** (`src/pages/index.js`, module `Choropleth`):
  - the yellow-to-red gradient `getColorFromCases`, computed on JavaScript
    numbers, NaN and ±Infinity included;
  - the min/max range reducer effect;
  - `getCountryColor`, with its gray fallback;
  - the five legend swatches;
  - the year slider's fill percentage;
  - the URL of the UV overlay request and its guard.
- **Charts page** (`src/pages/charts/index.js`, module `Charts`):
  `transformChartData`, which builds the line and bar chart series aligned
  with `Object.keys(dataset1)`, and the country picker built from the year
  2004.
- **Yearly UV route** (`getYearlyUVDataByCountry.js`, module `YearlyUv`):
  - the country centre taken from `coordinates`;
  - the one-year daily series range;
  - the Meteomatics URL;
  - the mean of the first date's value over the first location's
    coordinates;
  - the 200/500 replies.
- **UV image route** (`uv-visual/index.js`, module `UvVisual`):
  - the bounding box read from `bounds`;
  - the July 1 date;
  - the area string with its corner order;
  - the Meteomatics URL;
  - the data-URL reply.

Shared pieces:

- `Common`: option values for `undefined`, nested datasets as maps, and JSON
  replies.
- `Text`: `split`/`join`, printing integers in decimal, and reading them back
  with `Number`.

Modelling choices:

- JavaScript objects are maps from strings to values, so property lookups that
  miss are modelled literally. The per-country UV dataset stores `cases`,
  while both pages read `avgUV` from it. The model proves that this lookup
  never finds anything: `Charts.PivotGivesNullUvSeries` and
  `Choropleth.PopupUvMissing`.
- The colour gradient works on a `Number` datatype with `Finite`, `NaN` and
  `Infinity` values. This keeps the unguarded division by `max - min` as
  written. When the range has zero width, the map shows `rgb(NaN, NaN, NaN)`,
  `rgb(Infinity, …)` or `rgb(-Infinity, …)`.
- A TypeError the code would throw is modelled as `None` or as a 500 reply.
  The cases are a year missing from a dataset, `data[0]` on an empty array,
  and `dates[0]` on an empty list.

Behaviour of the code the model keeps:

- Stored records carry the single field `cases`, whatever the CSV measures.
- The colour ratio is used as computed, with no clamping to [0, 1].
- A zero-width range gives NaN or Infinity colour text.
- A year absent from the data leaves the previous colour range in place.
- The yearly mean uses only the first date of each coordinate.
- An empty coordinate list gives `{avgUV: null}` (NaN serialised) with status
  200.

## Model

| member | source | states |
|---|---|---|
| Common.FieldOf | src/pages/index.js:139 | definition |
| Common.Truthy | src/pages/index.js:140 | definition |
| Text.Split | src/pages/api/meteomatics/getYearlyUVDataByCountry.js:38 | `split` yields at least one piece and no piece contains the separator |
| Text.FieldAt | src/pages/api/meteomatics/uv-visual/index.js:9 | definition |
| Text.Join | src/pages/api/meteomatics/getYearlyUVDataByCountry.js:40 | definition |
| Text.IntToString | src/pages/api/meteomatics/getYearlyUVDataByCountry.js:42 | definition |
| Text.ParseInteger | src/pages/api/meteomatics/getYearlyUVDataByCountry.js:42 | definition |
| Text.JoinSplit | src/pages/api/meteomatics/getYearlyUVDataByCountry.js:38 | joining the pieces of a split with the separator gives back the original text |
| Text.SplitJoin | src/pages/api/meteomatics/getYearlyUVDataByCountry.js:38 | splitting the join of separator-free fields gives back exactly those fields |
| Text.PathSegments | src/pages/api/meteomatics/getYearlyUVDataByCountry.js:43 | a Meteomatics path of slash-free time, parameter, location, format and token splits at `/` into exactly those four segments (shared by both routes) |
| Text.IntToStringRoundTrip | src/pages/api/meteomatics/getYearlyUVDataByCountry.js:42 | an integer printed in a template literal and read back with `Number` is the same integer |
| Text.IntToStringInjective | src/pages/index.js:73 | distinct integer years print as distinct object keys |
| CsvPivot.CountryOf | src/pages/api/avg-uv-by-country/index.js:16 | definition |
| CsvPivot.AddCell | src/pages/api/avg-uv-by-country/index.js:20-23 | definition |
| CsvPivot.AddCells | src/pages/api/avg-uv-by-country/index.js:18-23 | definition |
| CsvPivot.AddRow | src/pages/api/avg-uv-by-country/index.js:15-23 | definition |
| CsvPivot.PivotRows | src/pages/api/avg-uv-by-country/index.js:15-23 | definition |
| CsvPivot.Pivot | src/pages/api/avg-uv-by-country/index.js:15-23 | the nested row/cell loop computes exactly the fold `PivotRows` over the rows |
| CsvPivot.AddCellsEntry | src/pages/api/avg-uv-by-country/index.js:18-23 | one row's cell loop stores `{cases: parseFloat(v)}` for the last non-empty cell of a year (never for `country`) and leaves every other entry alone |
| CsvPivot.PivotEntry | src/pages/api/avg-uv-by-country/index.js:15-23 | every entry of the pivot is `{cases: parseFloat(v)}` for the last non-empty cell of that year among the country's rows, and absent when there is none |
| CsvPivot.AddCellKeepsShape | src/pages/api/avg-uv-by-country/index.js:19-23 | storing one cell keeps the dataset well shaped: no `country` year, no empty year bucket, records holding exactly `cases` |
| CsvPivot.AddCellsKeepsShape | src/pages/api/avg-uv-by-country/index.js:18-23 | a whole row's cells keep the dataset well shaped |
| CsvPivot.PivotShape | src/pages/api/avg-uv-by-country/index.js:15-23 | the pivot of any rows is well shaped |
| CsvPivot.AddRowKeepsOtherCountries | src/pages/api/avg-uv-by-country/index.js:16-23 | a row only writes entries of its own country |
| CsvPivot.AddRowKeepsBuckets | src/pages/api/avg-uv-by-country/index.js:20-22 | a year bucket is only created when missing: existing years and their countries stay |
| CsvPivot.AddCellsKeepsKeys | src/pages/api/avg-uv-by-country/index.js:20-22 | the cell loop never removes a year |
| CsvPivot.LastValueOfDistinct | src/pages/api/avg-uv-by-country/index.js:18-19 | in a row with distinct column names, a non-empty cell is the last value of its column |
| CsvPivot.AddRowStoresCells | src/pages/api/avg-uv-by-country/index.js:18-23 | every non-empty non-`country` cell of a row is stored under its column and the row's country |
| CsvPivot.LaterRowWins | src/pages/api/avg-uv-by-country/index.js:23 | a later row for the same country and year overwrites the earlier value |
| CsvPivot.EmptyCellsGiveNoEntry | src/pages/api/avg-uv-by-country/index.js:19 | a country whose cells for a year are all empty gets no entry (not zero) |
| CsvPivot.NoCellNoLastEntry | src/pages/api/avg-uv-by-country/index.js:19 | with only empty cells for a year, the reference search finds nothing |
| Choropleth.Round | src/pages/index.js:24 | `Math.round` gives a whole number within half a unit of a finite input and passes NaN and ±Infinity through |
| Choropleth.RatioOf | src/pages/index.js:21 | definition |
| Choropleth.Interpolate | src/pages/index.js:23-25 | definition |
| Choropleth.Gradient | src/pages/index.js:27-29 | definition |
| Choropleth.ColorFromCases | src/pages/index.js:19-32 | definition |
| Choropleth.NumberText | src/pages/index.js:32 | definition |
| Choropleth.ColorText | src/pages/index.js:32 | definition |
| Choropleth.RatioAtEnds | src/pages/index.js:21 | the ratio is 0 at the minimum and 1 at the maximum of a proper range |
| Choropleth.GradientEndpoints | src/pages/index.js:19-29 | the minimum gets rgb(255, 237, 160) and the maximum rgb(189, 0, 38) |
| Choropleth.RatioWithinUnit | src/pages/index.js:21 | cases inside a proper range give a finite ratio in [0, 1] |
| Choropleth.InterpolateBetweenStops | src/pages/index.js:23-25 | a factor in [0, 1] interpolates to a finite channel between the two stops |
| Choropleth.ChannelsWithinStops | src/pages/index.js:27-29 | inside a proper range every channel is a whole number between its stops (0..255) |
| Choropleth.InterpolateNonIncreasing | src/pages/index.js:23-25 | towards a lower end stop, a larger factor never gives a larger channel |
| Choropleth.ChannelsNonIncreasing | src/pages/index.js:19-29 | more cases never make any channel larger: the colour only darkens |
| Choropleth.ZeroWidthRatio | src/pages/index.js:21 | with min == max the ratio is NaN at that value, +Infinity above it and -Infinity below it (division by +0) |
| Choropleth.GradientNotFinite | src/pages/index.js:23-29 | a NaN ratio gives three NaN channels, an infinite one three infinite channels of the opposite sign |
| Choropleth.ZeroWidthRangeColors | src/pages/index.js:19-32 | with min == max the colour text is `rgb(NaN, NaN, NaN)`, `rgb(-Infinity, …)` above and `rgb(Infinity, …)` below |
| Choropleth.LegendOnGradient | src/pages/index.js:359-426 | each of the five legend fills is exactly the gradient colour at ratio 1, 0.633, 0.418, 0.105 and 0: the top swatch is the maximum, the bottom one the minimum |
| Choropleth.YearKey | src/pages/index.js:73 | definition |
| Choropleth.HasYear | src/pages/index.js:73 | definition |
| Choropleth.CasesValues | src/pages/index.js:74-76 | the collected `cases` values are exactly those of the year's countries, and empty only for an empty year |
| Choropleth.Least | src/pages/index.js:78 | `Math.min` of the values is one of them and below all of them |
| Choropleth.Greatest | src/pages/index.js:79 | `Math.max` of the values is one of them and above all of them |
| Choropleth.NextCasesRange | src/pages/index.js:72-82 | a missing year keeps the range, an empty year gives [Infinity, -Infinity], a record without `cases` gives NaN, otherwise [min, max] is attained and bounds every country |
| Choropleth.WellShapedYearsGiveSpans | src/pages/index.js:72-82 | on any dataset shaped like the CSV pivot output (no empty year, every record holding exactly `cases`), every present year yields a numeric [min, max] range |
| Choropleth.ColorTextNotGray | src/pages/index.js:140 | no gradient colour text equals `gray`, so the fallback is distinguishable |
| Choropleth.CountryColor | src/pages/index.js:137-143 | TypeError exactly when the year is missing, `gray` exactly when the cases are missing or zero, otherwise the gradient colour of the cases |
| Choropleth.RangeEndColors | src/pages/index.js:19-32 | in a proper range the maximum's text is the top legend fill and the minimum's the bottom one |
| Choropleth.CountryColorUnderYearRange | src/pages/index.js:137-143 | with the year's own range, a country's colour has every channel between its stops, the maximum country gets the top swatch and the minimum the bottom one |
| Choropleth.MoreCasesNoLighter | src/pages/index.js:137-143 | of two countries, the one with more cases gets no lighter a colour |
| Choropleth.PopupUvMissing | src/pages/index.js:313-314 | on the pivoted UV dataset the popup's `avgUV` lookup is always missing |
| Choropleth.InSliderRange | src/pages/index.js:196-197 | definition |
| Choropleth.SliderFill | src/pages/index.js:204-206 | on the slider the fill is in [0, 100], 0 exactly at 2004 and 100 exactly at 2011 |
| Choropleth.SliderFillIncreasing | src/pages/index.js:204-206 | the fill grows strictly with the year, by 100/7 per year |
| Choropleth.OverlayRequest | src/pages/index.js:52-70 | the overlay is requested exactly when bounds exist, the debounced year is non-zero and the UV layer is shown |
| Choropleth.OverlayQueryFields | src/pages/index.js:56-58 | the request is the uv-visual path with query fields `year=<year + 11>` and `bounds=<bbox>` in that order, and the year reads back as year + 11 |
| Charts.ValueOrNull | src/pages/charts/index.js:58 | definition |
| Charts.SeriesData | src/pages/charts/index.js:57-62 | the series has one entry per year, entry i being the value or null for year i |
| Charts.IsKeyList | src/pages/charts/index.js:56 | definition |
| Charts.TransformChartData | src/pages/charts/index.js:55-103 | TypeError exactly when `dataset2` lacks one of the years; otherwise both charts have the years as labels, an `Avg UV` series on `y1` then a `Cases` series on `y2`, and share the same series |
| Charts.SeriesAlignWithLabels | src/pages/charts/index.js:56-62 | entry i of each series is the value of the country for year i when present and non-zero, and null otherwise |
| Charts.PivotGivesNullUvSeries | src/pages/charts/index.js:57-59 | fed the pivoted UV dataset, the `Avg UV` series is null in every year |
| Charts.AvailableCountries | src/pages/charts/index.js:47-52 | definition |
| Charts.PickerFromCsv | src/pages/charts/index.js:49 | on the pivoted dataset a country is offered exactly when one of its CSV rows has a non-empty 2004 cell |
| YearlyUv.CountryCenter | src/pages/api/meteomatics/getYearlyUVDataByCountry.js:38-40 | definition |
| YearlyUv.YearNumber | src/pages/api/meteomatics/getYearlyUVDataByCountry.js:42 | definition |
| YearlyUv.SeriesRange | src/pages/api/meteomatics/getYearlyUVDataByCountry.js:42 | definition |
| YearlyUv.UrlPath | src/pages/api/meteomatics/getYearlyUVDataByCountry.js:43 | definition |
| YearlyUv.YearlyUrl | src/pages/api/meteomatics/getYearlyUVDataByCountry.js:43 | definition |
| YearlyUv.SumOfFirsts | src/pages/api/meteomatics/getYearlyUVDataByCountry.js:53 | definition |
| YearlyUv.AvgUV | src/pages/api/meteomatics/getYearlyUVDataByCountry.js:53 | definition |
| YearlyUv.CenterKeepsFirstTwo | src/pages/api/meteomatics/getYearlyUVDataByCountry.js:38-40 | the centre is the first two comma-separated fields, further fields dropped |
| YearlyUv.CenterOfOneField | src/pages/api/meteomatics/getYearlyUVDataByCountry.js:38-40 | a single field gives `<field>,undefined` |
| YearlyUv.YearBounds | src/pages/api/meteomatics/getYearlyUVDataByCountry.js:42 | the range ends print the year and the next year, each reading back as that number, or NaN twice for non-numeric text |
| YearlyUv.RangeSplits | src/pages/api/meteomatics/getYearlyUVDataByCountry.js:42 | split at its dashes the range is: year, 01, 01T13:00…, empty, next year, 01, 01T13:00…:P1D |
| YearlyUv.SeriesRangeSpansOneYear | src/pages/api/meteomatics/getYearlyUVDataByCountry.js:42 | for a year y the range runs from January 1 of y to January 1 of y + 1 |
| YearlyUv.SeriesRangeOfNaN | src/pages/api/meteomatics/getYearlyUVDataByCountry.js:42 | a year that is not a number gives a range from NaN to NaN |
| YearlyUv.YearlyUrlSegments | src/pages/api/meteomatics/getYearlyUVDataByCountry.js:43 | after the API root the URL's segments are the range, `uv:idx`, the centre and the JSON query with the token |
| YearlyUv.SumBetween | src/pages/api/meteomatics/getYearlyUVDataByCountry.js:53 | the running sum of n first values lies between n times their lower and upper bounds |
| YearlyUv.AvgWithinFirstValues | src/pages/api/meteomatics/getYearlyUVDataByCountry.js:53 | the mean lies between the least and the greatest first-date value |
| YearlyUv.SumOfFirstsOnlyFirsts | src/pages/api/meteomatics/getYearlyUVDataByCountry.js:53 | the sum depends only on each coordinate's first date |
| YearlyUv.LaterDatesIgnored | src/pages/api/meteomatics/getYearlyUVDataByCountry.js:53 | the mean ignores every date after the first |
| YearlyUv.AvgExample | src/pages/api/meteomatics/getYearlyUVDataByCountry.js:53 | first values 1 and 3 average to 2 whatever the later dates hold |
| YearlyUv.YearlyReply | src/pages/api/meteomatics/getYearlyUVDataByCountry.js:45-58 | 200 exactly when upstream is ok, `data` is non-empty and every coordinate has a date; the not-ok message; `avgUV` is the mean, or null for no coordinates |
| YearlyUv.ReplyWithinFirstValues | src/pages/api/meteomatics/getYearlyUVDataByCountry.js:53-55 | a successful reply's `avgUV` lies between the least and greatest first-date value |
| UvVisual.ParseBounds | src/pages/api/meteomatics/uv-visual/index.js:9 | definition |
| UvVisual.DateOf | src/pages/api/meteomatics/uv-visual/index.js:11 | definition |
| UvVisual.AreaOf | src/pages/api/meteomatics/uv-visual/index.js:12 | definition |
| UvVisual.UrlPath | src/pages/api/meteomatics/uv-visual/index.js:12 | definition |
| UvVisual.UvVisualUrl | src/pages/api/meteomatics/uv-visual/index.js:12 | definition |
| UvVisual.BoundsOrder | src/pages/api/meteomatics/uv-visual/index.js:9 | `bounds` is read as south-west longitude, south-west latitude, north-east longitude, north-east latitude; extra fields are dropped |
| UvVisual.ShortBounds | src/pages/api/meteomatics/uv-visual/index.js:9 | with two fields the north-east corner is `undefined` twice |
| UvVisual.DateIsJulyFirst | src/pages/api/meteomatics/uv-visual/index.js:11 | split at dashes the date is the year, 07 and 01T13:00:00.000+01:00 |
| UvVisual.OverlayDate | src/pages/api/meteomatics/uv-visual/index.js:11 | for a slider year the image date is July 1 of that year + 11, a year that reads back between 2015 and 2022 |
| UvVisual.AreaCorners | src/pages/api/meteomatics/uv-visual/index.js:12 | the area is (north-east lat, south-west lng) `_` (south-west lat, north-east lng) `:` 0.1,0.1 |
| UvVisual.ParsedFieldsPlain | src/pages/api/meteomatics/uv-visual/index.js:9-12 | fields of a `bounds` free of `_`, `:` and `/` are free of them too |
| UvVisual.UvVisualUrlSegments | src/pages/api/meteomatics/uv-visual/index.js:12 | after the API root the URL's segments are the date, `uv:idx`, the area and the PNG query with the token |
| UvVisual.UvVisualReply | src/pages/api/meteomatics/uv-visual/index.js:14-33 | 200 exactly when upstream is ok, with `data:image/png;base64,` followed by the image; otherwise 500 with the fetch-failure message |

## Left out

- Authentication: `authMeteomatics` and its token are not part of this model. The token is a string parameter of the URL functions.
- Network and I/O: `fetch`, the `ok` flag, JSON decoding of upstream answers, `fs` streams and `csv-parser`. The upstream outcome is a parameter (`upstreamOk`, the decoded `data`, the base64 text). The CSV arrives as rows of (column, cell) pairs in `Object.entries` order: integer-like column names such as the years come first in ascending order, then `country`. Rows have distinct column names, so this order does not change the result.
- The avg-uv-by-country route's `res.status(200).json({data: results})` and its catch branch. The reply only wraps `Pivot`'s result.
- CsvPivot.Pivot: `parseFloat` is a function parameter. Text that does not parse (NaN) is not modelled separately.
- YearlyUv.YearNumber: `Number(year)` is modelled for empty text and decimal integer text only; any other text counts as NaN. JavaScript also reads decimals, exponents, surrounding white space, a leading `+`, the `0x`/`0b`/`0o` prefixes and `Infinity` (`Number("0x7D0")` prints 2000, `Number("Infinity")` prints Infinity), where the model prints NaN. Integers are printed exactly: JavaScript reads decimal text of 2^53 or more only approximately and prints values from 1e21 on in exponent form.
- YearlyUv.AvgUV: the reduce and the division are exact real arithmetic, with no floating-point rounding. In doubles, three first values of 0.1 sum to 0.30000000000000004 and average to 0.10000000000000002, so the bounds of YearlyUv.AvgWithinFirstValues and YearlyUv.ReplyWithinFirstValues hold for exact arithmetic, not bit for bit. Every `dates[0].value` is taken to be a JSON number; a string there would make `acc + value` join text instead of adding.
- Choropleth.Round: arithmetic is exact over the reals. Floating-point rounding of the ratio and of the interpolation is not modelled.
- Choropleth.SliderFill: the fill is exact real division. The browser's formatting of the percentage is not modelled.
- Choropleth.CountryColor: the range passed in is whatever the reducer last stored. The staleness between `selectedYear` and `debouncedSelectedYear` (the debounce delay) is not modelled.
- The popup text (index.js 310-320: `Math.round`, `parseFloat(...).toFixed(3)`, `"N/A"`) is not modelled beyond the missing `avgUV` lookup.
- React state, effects, `useDebounce`, Leaflet layers, bounds events and JSX are not modelled. Chart.js colours and options are not modelled either. The effects' guards and outputs are modelled as functions of their inputs.
- `bounds.toBBoxString()` is taken as the string it yields.
- Slider clamping by the browser is the `InSliderRange` predicate.
- CsvPivot.Pivot: JavaScript objects are modelled as plain maps, so names that an object inherits from `Object.prototype` are not modelled (`__proto__`, `constructor`, `toString`, `hasOwnProperty`, …). In the route, a year column named like that finds a truthy inherited value, so no bucket is created and the write lands on the inherited object. A country named `__proto__` replaces the bucket's prototype instead of adding a country. The model stores both as ordinary entries, and its shape and storage lemmas (CsvPivot.PivotShape, CsvPivot.AddRowStoresCells) hold only for names outside `Object.prototype`. The same applies to every other keyed lookup in the model.
- Charts.AvailableCountries: the picker's list is modelled as a set. The order in which the page lists the countries (`Object.keys` insertion order, that is, the order of the first CSV row storing each country for 2004) is not modelled.
- Charts.TransformChartData: `Object.keys` order is a parameter (`years`), required to list each key once.
- UvVisual.UvVisualReply: Base64 encoding of the image (`Buffer`) is not modelled. The encoded text is a parameter.
- UvVisual.ParseBounds: a missing `bounds` query (a TypeError thrown before the try block) is not modelled. `bounds` is a string.
- YearlyUv.CountryCenter: a missing `coordinates` query (also thrown before the try block) is not modelled.
- `euCountryCenters` in the yearly route is never read, so it is not modelled.
- `data/France/combiner.py`, `getUVData.js`, the Header and Map components, and the `/api/skin-cancer` route are not part of this model.
- Console logging is not modelled.
