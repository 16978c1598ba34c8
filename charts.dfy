/**
 * The charts page: `transformChartData` turns the per-country UV dataset and
 * the yearly cases dataset into the aligned per-year arrays of one line chart
 * and one bar chart, and the country picker lists the countries of the UV
 * dataset's year 2004.
 */
module Charts {
  import opened Common
  import CsvPivot

  /** The year whose countries the picker offers. */
  const PickerYear := "2004"

  const UvLabel := "Avg UV"
  const CasesLabel := "Cases"
  const UvAxis := "y1"
  const CasesAxis := "y2"

  /** One chart dataset: its label (`name`), its per-year values (`None` is JSON null) and its y axis. */
  datatype Series = Series(name: string, data: seq<Option<real>>, axis: string)

  /** One chart's data: the x labels and its datasets. */
  datatype ChartData = ChartData(labels: seq<string>, datasets: seq<Series>)

  /** What `transformChartData` stores: the line chart's data and the bar chart's data. */
  datatype ChartPair = ChartPair(line: ChartData, bar: ChartData)

  /**
   * `years` is `Object.keys(d)`: every key exactly once. Which order the keys
   * come in is JavaScript's business; the model takes it as given.
   */
  predicate IsKeyList(years: seq<string>, d: Dataset)
  {
    && (forall i :: 0 <= i < |years| ==> years[i] in d)
    && (forall y :: y in d ==> y in years)
    && (forall i, j :: 0 <= i < j < |years| ==> years[i] != years[j])
  }

  /** `dataset[year][country]?.field || null`, for a year the dataset has. */
  function ValueOrNull(d: Dataset, year: string, country: string, field: string): Option<real>
    requires year in d
  {
    if Truthy(FieldOf(d[year], country, field)) then FieldOf(d[year], country, field) else None
  }

  /** `years.map(year => dataset[year][country]?.field || null)`. */
  function SeriesData(d: Dataset, years: seq<string>, country: string, field: string): (data: seq<Option<real>>)
    requires forall i :: 0 <= i < |years| ==> years[i] in d
    ensures |data| == |years|
    ensures forall i :: 0 <= i < |years| ==> data[i] == ValueOrNull(d, years[i], country, field)
  {
    if years == [] then []
    else SeriesData(d, years[..|years| - 1], country, field) + [ValueOrNull(d, years[|years| - 1], country, field)]
  }

  /** Whether every year of the list is a key of the dataset. */
  predicate CoversYears(d: Dataset, years: seq<string>)
  {
    forall i :: 0 <= i < |years| ==> years[i] in d
  }

  /**
   * `transformChartData(dataset1, dataset2, country)`: both charts with the
   * years of `dataset1` as labels, the UV series from `dataset1` and the cases
   * series from `dataset2`. `None` is the TypeError thrown when `dataset2`
   * lacks one of those years.
   */
  function TransformChartData(dataset1: Dataset, dataset2: Dataset, years: seq<string>, country: string): (r: Option<ChartPair>)
    requires IsKeyList(years, dataset1)
    ensures r.None? <==> exists i :: 0 <= i < |years| && years[i] !in dataset2
    ensures r.Some? ==>
      && r.value.line.labels == years && r.value.bar.labels == years
      && |r.value.line.datasets| == 2 && |r.value.bar.datasets| == 2
      && r.value.line.datasets[0].name == UvLabel && r.value.line.datasets[1].name == CasesLabel
      && r.value.line.datasets[0].axis == UvAxis && r.value.line.datasets[1].axis == CasesAxis
      && r.value.bar.datasets == r.value.line.datasets
  {
    if !CoversYears(dataset2, years) then None
    else
      var uv := Series(UvLabel, SeriesData(dataset1, years, country, AvgUvField), UvAxis);
      var cases := Series(CasesLabel, SeriesData(dataset2, years, country, CasesField), CasesAxis);
      var chart := ChartData(years, [uv, cases]);
      Some(ChartPair(chart, chart))
  }

  /**
   * The series line up with the labels: entry `i` of each is the value stored
   * for year `years[i]` when it is present and non-zero, and null otherwise.
   */
  lemma SeriesAlignWithLabels(dataset1: Dataset, dataset2: Dataset, years: seq<string>, country: string)
    requires IsKeyList(years, dataset1)
    requires CoversYears(dataset2, years)
    ensures var r := TransformChartData(dataset1, dataset2, years, country);
      && r.Some?
      && var uv := r.value.line.datasets[0].data;
      && var cases := r.value.line.datasets[1].data;
      && |uv| == |years| && |cases| == |years|
      && (forall i :: 0 <= i < |years| ==>
            && (uv[i].Some? <==> Truthy(FieldOf(dataset1[years[i]], country, AvgUvField)))
            && (uv[i].Some? ==> uv[i].value == dataset1[years[i]][country][AvgUvField])
            && (cases[i].Some? <==> Truthy(FieldOf(dataset2[years[i]], country, CasesField)))
            && (cases[i].Some? ==> cases[i].value == dataset2[years[i]][country][CasesField]))
  {
    var r := TransformChartData(dataset1, dataset2, years, country);
    var uv := r.value.line.datasets[0].data;
    var cases := r.value.line.datasets[1].data;
    assert uv == SeriesData(dataset1, years, country, AvgUvField);
    assert cases == SeriesData(dataset2, years, country, CasesField);
  }

  /**
   * Fed the per-country UV dataset, whose records hold only `cases`, the UV
   * series is null in every year: the `avgUV` lookup never finds anything.
   */
  lemma PivotGivesNullUvSeries(rows: seq<CsvPivot.Row>, parse: string -> real, dataset2: Dataset, years: seq<string>, country: string)
    requires IsKeyList(years, CsvPivot.PivotRows(rows, parse))
    requires CoversYears(dataset2, years)
    ensures var r := TransformChartData(CsvPivot.PivotRows(rows, parse), dataset2, years, country);
      && r.Some?
      && forall i :: 0 <= i < |years| ==> r.value.line.datasets[0].data[i] == None
  {
    var d := CsvPivot.PivotRows(rows, parse);
    CsvPivot.PivotShape(rows, parse);
    SeriesAlignWithLabels(d, dataset2, years, country);
    forall i | 0 <= i < |years|
      ensures !Truthy(FieldOf(d[years[i]], country, AvgUvField))
    {
      if country in d[years[i]] {
        assert d[years[i]][country].Keys == {CasesField};
        assert AvgUvField != CasesField;
      }
    }
  }

  /**
   * The picker effect: once both datasets are loaded, the countries of the UV
   * dataset's year 2004; before that, the current list. `None` is the
   * TypeError thrown when the UV dataset has no year 2004.
   */
  function AvailableCountries(avgUvByCountry: Option<Dataset>, yearlyData: Option<Dataset>, current: set<string>): Option<set<string>>
  {
    if avgUvByCountry.None? || yearlyData.None? then Some(current)
    else if PickerYear !in avgUvByCountry.value then None
    else Some(avgUvByCountry.value[PickerYear].Keys)
  }

  /**
   * On the per-country UV dataset, a country is offered exactly when some CSV
   * row for it has a non-empty 2004 cell.
   */
  lemma PickerFromCsv(rows: seq<CsvPivot.Row>, parse: string -> real, yearlyData: Dataset, c: string)
    requires PickerYear in CsvPivot.PivotRows(rows, parse)
    ensures var r := AvailableCountries(Some(CsvPivot.PivotRows(rows, parse)), Some(yearlyData), {});
      && r.Some?
      && (c in r.value <==> CsvPivot.LastEntry(rows, PickerYear, c).Some?)
  {
    CsvPivot.PivotEntry(rows, parse, PickerYear, c);
  }
}
