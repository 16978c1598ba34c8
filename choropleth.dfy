/**
 * The map page's data logic: the two-stop colour gradient, the per-year
 * range of case counts, the colour of one country, the year slider's fill,
 * the UV overlay request and the legend's swatches.
 *
 * The gradient divides by `max - min` without a guard, so the JavaScript
 * values NaN and Infinity can reach the colour string; `Number` keeps them.
 */
module Choropleth {
  import opened Common
  import Text
  import CsvPivot

  const MinYear := 2004
  const MaxYear := 2011
  const DefaultYear := 2008
  const YearsAhead := 11

  /** A JavaScript number as the gradient can produce it. */
  datatype Number = Finite(v: real) | NaN | Infinity(negative: bool)

  /** A colour as its three channels, each a `Math.round` result. */
  datatype Rgb = Rgb(r: Number, g: Number, b: Number)

  /** The gradient's stops per channel: light yellow to dark red. */
  const RedStart := 255
  const RedEnd := 189
  const GreenStart := 237
  const GreenEnd := 0
  const BlueStart := 160
  const BlueEnd := 38

  /** `Math.round`: the nearest integer, halves rounded up; NaN and the infinities unchanged. */
  function Round(x: Number): (r: Number)
    ensures x.Finite? <==> r.Finite?
    ensures x.Finite? ==> r.v == r.v.Floor as real && x.v - 0.5 < r.v <= x.v + 0.5
    ensures !x.Finite? ==> r == x
  {
    match x
    case Finite(v) => Finite((v + 0.5).Floor as real)
    case _ => x
  }

  /** `start + factor * (end - start)` for a finite factor, before rounding. */
  function Lerp(start: int, end: int, f: real): real
  {
    start as real + f * (end - start) as real
  }

  /** `interpolateColor(start, end, factor)`: `Math.round(start + factor * (end - start))`. */
  function Interpolate(start: int, end: int, factor: Number): Number
  {
    match factor
    case Finite(f) => Round(Finite(Lerp(start, end, f)))
    case NaN => NaN
    // Infinity times a non-zero step keeps its sign times the step's sign; times zero it is NaN.
    case Infinity(neg) => if end == start then NaN else Infinity(neg != (end < start))
  }

  /** The three channels at a given ratio. */
  function Gradient(ratio: Number): Rgb
  {
    Rgb(Interpolate(RedStart, RedEnd, ratio), Interpolate(GreenStart, GreenEnd, ratio), Interpolate(BlueStart, BlueEnd, ratio))
  }

  /**
   * The `[min, max]` range held in the page state. `Span(0.0, 0.0)` is the
   * initial state; `EmptySpan` is `[Infinity, -Infinity]`, what `Math.min()`
   * and `Math.max()` give for a year without countries; `NaNSpan` is
   * `[NaN, NaN]`, what they give when a country has no `cases`.
   */
  datatype CasesRange = Span(lo: real, hi: real) | EmptySpan | NaNSpan

  const InitialRange := Span(0.0, 0.0)

  /** `(cases - minCases) / (maxCases - minCases)` in JavaScript arithmetic. */
  function RatioOf(cases: real, range: CasesRange): Number
  {
    match range
    case Span(lo, hi) =>
      if hi != lo then Finite((cases - lo) / (hi - lo))
      else if cases == lo then NaN
      else Infinity(cases < lo)
    // (cases - Infinity) / (-Infinity - Infinity) is -Infinity / -Infinity.
    case EmptySpan => NaN
    case NaNSpan => NaN
  }

  /** `getColorFromCases(cases, range)` as channels. */
  function ColorFromCases(cases: real, range: CasesRange): Rgb
  {
    Gradient(RatioOf(cases, range))
  }

  /** A channel as a template literal prints it. */
  function NumberText(x: Number): string
  {
    match x
    case Finite(v) => Text.IntToString(v.Floor)
    case NaN => "NaN"
    case Infinity(neg) => if neg then "-Infinity" else "Infinity"
  }

  /** `rgb(${r}, ${g}, ${b})`. */
  function ColorText(c: Rgb): string
  {
    "rgb(" + NumberText(c.r) + ", " + NumberText(c.g) + ", " + NumberText(c.b) + ")"
  }

  // ---------------------------------------------------------------------------
  // Properties of the gradient
  // ---------------------------------------------------------------------------

  function Whole(r: int, g: int, b: int): Rgb
  {
    Rgb(Finite(r as real), Finite(g as real), Finite(b as real))
  }

  lemma RatioAtEnds(lo: real, hi: real)
    requires lo < hi
    ensures RatioOf(lo, Span(lo, hi)) == Finite(0.0)
    ensures RatioOf(hi, Span(lo, hi)) == Finite(1.0)
  {
    DivSelf(hi - lo);
  }

  /** `Interpolate` on a finite factor, written out. */
  lemma InterpolateFinite(start: int, end: int, f: real)
    ensures Interpolate(start, end, Finite(f)) == Finite((Lerp(start, end, f) + 0.5).Floor as real)
  {
  }

  /** With max > min, the smallest value is light yellow and the largest dark red. */
  lemma GradientEndpoints(lo: real, hi: real)
    requires lo < hi
    ensures ColorFromCases(lo, Span(lo, hi)) == Whole(RedStart, GreenStart, BlueStart)
    ensures ColorFromCases(hi, Span(lo, hi)) == Whole(RedEnd, GreenEnd, BlueEnd)
  {
    RatioAtEnds(lo, hi);
    assert Gradient(Finite(0.0)) == Whole(RedStart, GreenStart, BlueStart);
    assert Gradient(Finite(1.0)) == Whole(RedEnd, GreenEnd, BlueEnd);
  }

  lemma RatioWithinUnit(cases: real, lo: real, hi: real)
    requires lo < hi && lo <= cases <= hi
    ensures RatioOf(cases, Span(lo, hi)).Finite?
    ensures 0.0 <= RatioOf(cases, Span(lo, hi)).v <= 1.0
  {
    DivMonotone(0.0, cases - lo, hi - lo);
    DivMonotone(cases - lo, hi - lo, hi - lo);
    assert (hi - lo) / (hi - lo) == 1.0;
  }

  lemma RoundBetween(y: real, lo: int, hi: int)
    requires lo as real <= y <= hi as real
    ensures lo <= (y + 0.5).Floor <= hi
  {
  }

  lemma LerpBetweenStops(start: int, end: int, f: real)
    requires end <= start && 0.0 <= f <= 1.0
    ensures end as real <= Lerp(start, end, f) <= start as real
  {
    var d := (end - start) as real;
    MulMonotone(f, 1.0, -d);
    MulMonotone(0.0, f, -d);
  }

  lemma InterpolateBetweenStops(start: int, end: int, f: real)
    requires end <= start && 0.0 <= f <= 1.0
    ensures Interpolate(start, end, Finite(f)).Finite?
    ensures end as real <= Interpolate(start, end, Finite(f)).v <= start as real
  {
    LerpBetweenStops(start, end, f);
    RoundBetween(Lerp(start, end, f), end, start);
    InterpolateFinite(start, end, f);
  }

  predicate IsChannel(x: Number)
  {
    x.Finite? && 0.0 <= x.v <= 255.0
  }

  /** For min <= value <= max, every channel lies between its two stops, hence in [0, 255]. */
  lemma ChannelsWithinStops(cases: real, lo: real, hi: real)
    requires lo < hi && lo <= cases <= hi
    ensures var c := ColorFromCases(cases, Span(lo, hi));
      && c.r.Finite? && RedEnd as real <= c.r.v <= RedStart as real
      && c.g.Finite? && GreenEnd as real <= c.g.v <= GreenStart as real
      && c.b.Finite? && BlueEnd as real <= c.b.v <= BlueStart as real
      && IsChannel(c.r) && IsChannel(c.g) && IsChannel(c.b)
  {
    RatioWithinUnit(cases, lo, hi);
    var f := RatioOf(cases, Span(lo, hi)).v;
    InterpolateBetweenStops(RedStart, RedEnd, f);
    InterpolateBetweenStops(GreenStart, GreenEnd, f);
    InterpolateBetweenStops(BlueStart, BlueEnd, f);
  }

  lemma LerpNonIncreasing(start: int, end: int, f1: real, f2: real)
    requires end <= start && f1 <= f2
    ensures Lerp(start, end, f2) <= Lerp(start, end, f1)
  {
    MulMonotone(f1, f2, -((end - start) as real));
  }

  lemma RoundMonotone(x: real, y: real)
    requires x <= y
    ensures (x + 0.5).Floor <= (y + 0.5).Floor
  {
  }

  lemma InterpolateNonIncreasing(start: int, end: int, f1: real, f2: real)
    requires end <= start && f1 <= f2
    ensures Interpolate(start, end, Finite(f1)).Finite? && Interpolate(start, end, Finite(f2)).Finite?
    ensures Interpolate(start, end, Finite(f2)).v <= Interpolate(start, end, Finite(f1)).v
  {
    LerpNonIncreasing(start, end, f1, f2);
    RoundMonotone(Lerp(start, end, f2), Lerp(start, end, f1));
    InterpolateFinite(start, end, f1);
    InterpolateFinite(start, end, f2);
  }

  /** Each of R, G and B is non-increasing as the value grows, for any range with max > min. */
  lemma ChannelsNonIncreasing(c1: real, c2: real, lo: real, hi: real)
    requires lo < hi && c1 <= c2
    ensures var a := ColorFromCases(c1, Span(lo, hi));
      var b := ColorFromCases(c2, Span(lo, hi));
      && a.r.Finite? && a.g.Finite? && a.b.Finite? && b.r.Finite? && b.g.Finite? && b.b.Finite?
      && b.r.v <= a.r.v && b.g.v <= a.g.v && b.b.v <= a.b.v
  {
    DivMonotone(c1 - lo, c2 - lo, hi - lo);
    var f1 := (c1 - lo) / (hi - lo);
    var f2 := (c2 - lo) / (hi - lo);
    InterpolateNonIncreasing(RedStart, RedEnd, f1, f2);
    InterpolateNonIncreasing(GreenStart, GreenEnd, f1, f2);
    InterpolateNonIncreasing(BlueStart, BlueEnd, f1, f2);
  }

  lemma SameChannelsText(x: Number, t: string)
    requires NumberText(x) == t
    ensures ColorText(Rgb(x, x, x)) == "rgb(" + t + ", " + t + ", " + t + ")"
  {
  }

  /** On a zero-width range the ratio is 0/0 or a non-zero number over 0. */
  lemma ZeroWidthRatio(cases: real, lo: real)
    ensures RatioOf(cases, Span(lo, lo)) == if cases == lo then NaN else Infinity(cases < lo)
  {
  }

  /** The gradient at NaN is NaN throughout; at an infinite ratio every channel is infinite with the opposite sign. */
  lemma GradientNotFinite(ratio: Number)
    requires !ratio.Finite?
    ensures Gradient(ratio) == if ratio.NaN? then Rgb(NaN, NaN, NaN)
      else Rgb(Infinity(!ratio.negative), Infinity(!ratio.negative), Infinity(!ratio.negative))
  {
  }

  lemma ZeroWidthAtValue(cases: real, lo: real)
    requires cases == lo
    ensures ColorText(ColorFromCases(cases, Span(lo, lo))) == "rgb(NaN, NaN, NaN)"
  {
    ZeroWidthRatio(cases, lo);
    GradientNotFinite(RatioOf(cases, Span(lo, lo)));
    assert ColorFromCases(cases, Span(lo, lo)) == Rgb(NaN, NaN, NaN);
    SameChannelsText(NaN, "NaN");
  }

  lemma ZeroWidthAbove(cases: real, lo: real)
    requires cases > lo
    ensures ColorText(ColorFromCases(cases, Span(lo, lo))) == "rgb(-Infinity, -Infinity, -Infinity)"
  {
    ZeroWidthRatio(cases, lo);
    GradientNotFinite(RatioOf(cases, Span(lo, lo)));
    assert ColorFromCases(cases, Span(lo, lo)) == Rgb(Infinity(true), Infinity(true), Infinity(true));
    SameChannelsText(Infinity(true), "-Infinity");
  }

  lemma ZeroWidthBelow(cases: real, lo: real)
    requires cases < lo
    ensures ColorText(ColorFromCases(cases, Span(lo, lo))) == "rgb(Infinity, Infinity, Infinity)"
  {
    ZeroWidthRatio(cases, lo);
    GradientNotFinite(RatioOf(cases, Span(lo, lo)));
    assert ColorFromCases(cases, Span(lo, lo)) == Rgb(Infinity(false), Infinity(false), Infinity(false));
    SameChannelsText(Infinity(false), "Infinity");
  }

  /**
   * The unguarded zero-width range: the value equal to both ends prints NaN
   * channels, a value above them -Infinity and a value below them Infinity.
   */
  lemma ZeroWidthRangeColors(cases: real, lo: real)
    ensures cases == lo ==> ColorText(ColorFromCases(cases, Span(lo, lo))) == "rgb(NaN, NaN, NaN)"
    ensures cases > lo ==> ColorText(ColorFromCases(cases, Span(lo, lo))) == "rgb(-Infinity, -Infinity, -Infinity)"
    ensures cases < lo ==> ColorText(ColorFromCases(cases, Span(lo, lo))) == "rgb(Infinity, Infinity, Infinity)"
  {
    if cases == lo {
      ZeroWidthAtValue(cases, lo);
    } else if cases > lo {
      ZeroWidthAbove(cases, lo);
    } else {
      ZeroWidthBelow(cases, lo);
    }
  }

  // ---------------------------------------------------------------------------
  // The legend
  // ---------------------------------------------------------------------------

  /** The legend's five swatch fills, top (most cases) to bottom. */
  const TopFill := "rgb(189, 0, 38)"
  const SecondFill := "rgb(213, 87, 83)"
  const MiddleFill := "rgb(227, 138, 109)"
  const FourthFill := "rgb(248, 212, 147)"
  const BottomFill := "rgb(255, 237, 160)"
  const LegendFills: seq<string> := [TopFill, SecondFill, MiddleFill, FourthFill, BottomFill]

  /** The gradient ratios the swatches sit at. */
  const LegendRatios: seq<real> := [1.0, 0.633, 0.418, 0.105, 0.0]

  lemma NatText(n: nat, s: string)
    requires 100 <= n < 1000 && |s| == 3
    requires s[0] == Text.DigitChar(n / 100) && s[1] == Text.DigitChar(n / 10 % 10) && s[2] == Text.DigitChar(n % 10)
    ensures Text.NatToString(n) == s && Text.IntToString(n) == s
  {
    assert Text.NatToString(n / 100) == [s[0]];
    assert Text.NatToString(n / 10) == [s[0], s[1]];
  }

  lemma TwoDigits(n: nat, s: string)
    requires 10 <= n < 100 && |s| == 2
    requires s[0] == Text.DigitChar(n / 10) && s[1] == Text.DigitChar(n % 10)
    ensures Text.NatToString(n) == s
  {
    assert Text.NatToString(n / 10) == [s[0]];
  }

  lemma GradientAtTop()
    ensures Gradient(Finite(1.0)) == Whole(189, 0, 38)
  {
  }

  lemma GradientAtSecond()
    ensures Gradient(Finite(0.633)) == Whole(213, 87, 83)
  {
    InterpolateFinite(RedStart, RedEnd, 0.633);
    InterpolateFinite(GreenStart, GreenEnd, 0.633);
    InterpolateFinite(BlueStart, BlueEnd, 0.633);
  }

  lemma GradientAtMiddle()
    ensures Gradient(Finite(0.418)) == Whole(227, 138, 109)
  {
    InterpolateFinite(RedStart, RedEnd, 0.418);
    InterpolateFinite(GreenStart, GreenEnd, 0.418);
    InterpolateFinite(BlueStart, BlueEnd, 0.418);
  }

  lemma GradientAtFourth()
    ensures Gradient(Finite(0.105)) == Whole(248, 212, 147)
  {
    InterpolateFinite(RedStart, RedEnd, 0.105);
    InterpolateFinite(GreenStart, GreenEnd, 0.105);
    InterpolateFinite(BlueStart, BlueEnd, 0.105);
  }

  lemma GradientAtBottom()
    ensures Gradient(Finite(0.0)) == Whole(255, 237, 160)
  {
  }

  lemma TopDigits()
    ensures Text.NatToString(189) == "189" && Text.NatToString(0) == "0" && Text.NatToString(38) == "38"
  {
    NatText(189, "189"); assert Text.NatToString(0) == "0"; TwoDigits(38, "38");
  }

  lemma TopLiteral()
    ensures "rgb(" + "189" + ", " + "0" + ", " + "38" + ")" == TopFill
  {
  }

  lemma TopFillText()
    ensures ColorText(Whole(189, 0, 38)) == TopFill
  {
    TopDigits();
    TopLiteral();
  }

  lemma TopSwatch()
    ensures TopFill == ColorText(Gradient(Finite(1.0)))
  {
    GradientAtTop();
    TopFillText();
  }

  lemma SecondDigits()
    ensures Text.NatToString(213) == "213" && Text.NatToString(87) == "87" && Text.NatToString(83) == "83"
  {
    NatText(213, "213"); TwoDigits(87, "87"); TwoDigits(83, "83");
  }

  lemma SecondLiteral()
    ensures "rgb(" + "213" + ", " + "87" + ", " + "83" + ")" == SecondFill
  {
  }

  lemma SecondFillText()
    ensures ColorText(Whole(213, 87, 83)) == SecondFill
  {
    SecondDigits();
    SecondLiteral();
  }

  lemma SecondSwatch()
    ensures SecondFill == ColorText(Gradient(Finite(0.633)))
  {
    GradientAtSecond();
    SecondFillText();
  }

  lemma MiddleDigits()
    ensures Text.NatToString(227) == "227" && Text.NatToString(138) == "138" && Text.NatToString(109) == "109"
  {
    NatText(227, "227"); NatText(138, "138"); NatText(109, "109");
  }

  lemma MiddleLiteral()
    ensures "rgb(" + "227" + ", " + "138" + ", " + "109" + ")" == MiddleFill
  {
  }

  lemma MiddleFillText()
    ensures ColorText(Whole(227, 138, 109)) == MiddleFill
  {
    MiddleDigits();
    MiddleLiteral();
  }

  lemma MiddleSwatch()
    ensures MiddleFill == ColorText(Gradient(Finite(0.418)))
  {
    GradientAtMiddle();
    MiddleFillText();
  }

  lemma FourthDigits()
    ensures Text.NatToString(248) == "248" && Text.NatToString(212) == "212" && Text.NatToString(147) == "147"
  {
    NatText(248, "248"); NatText(212, "212"); NatText(147, "147");
  }

  lemma FourthLiteral()
    ensures "rgb(" + "248" + ", " + "212" + ", " + "147" + ")" == FourthFill
  {
  }

  lemma FourthFillText()
    ensures ColorText(Whole(248, 212, 147)) == FourthFill
  {
    FourthDigits();
    FourthLiteral();
  }

  lemma FourthSwatch()
    ensures FourthFill == ColorText(Gradient(Finite(0.105)))
  {
    GradientAtFourth();
    FourthFillText();
  }

  lemma BottomDigits()
    ensures Text.NatToString(255) == "255" && Text.NatToString(237) == "237" && Text.NatToString(160) == "160"
  {
    NatText(255, "255"); NatText(237, "237"); NatText(160, "160");
  }

  lemma BottomLiteral()
    ensures "rgb(" + "255" + ", " + "237" + ", " + "160" + ")" == BottomFill
  {
  }

  lemma BottomFillText()
    ensures ColorText(Whole(255, 237, 160)) == BottomFill
  {
    BottomDigits();
    BottomLiteral();
  }

  lemma BottomSwatch()
    ensures BottomFill == ColorText(Gradient(Finite(0.0)))
  {
    GradientAtBottom();
    BottomFillText();
  }

  /** Each swatch is the gradient's colour at its ratio; the top one sits at the maximum, the bottom one at the minimum. */
  lemma LegendOnGradient()
    ensures |LegendFills| == |LegendRatios| == 5
    ensures forall i :: 0 <= i < 5 ==> LegendFills[i] == ColorText(Gradient(Finite(LegendRatios[i])))
    ensures LegendRatios[0] == 1.0 && LegendRatios[4] == 0.0
  {
    forall i | 0 <= i < 5
      ensures LegendFills[i] == ColorText(Gradient(Finite(LegendRatios[i])))
    {
      if i == 0 {
        TopSwatch();
      } else if i == 1 {
        SecondSwatch();
      } else if i == 2 {
        MiddleSwatch();
      } else if i == 3 {
        FourthSwatch();
      } else {
        BottomSwatch();
      }
    }
  }

  // ---------------------------------------------------------------------------
  // The cases range of the selected year
  // ---------------------------------------------------------------------------

  /** The object key a year number is looked up under. */
  function YearKey(year: int): string
  {
    Text.IntToString(year)
  }

  /** `yearlyData && yearlyData[year]`: the data is loaded and holds the year. */
  predicate HasYear(yearlyData: Option<Dataset>, year: int)
  {
    yearlyData.Some? && YearKey(year) in yearlyData.value
  }

  /** Every country of the bucket has a `cases` field. */
  predicate AllHaveCases(bucket: Bucket)
  {
    forall c :: c in bucket ==> CasesField in bucket[c]
  }

  /** The `cases` of the bucket's countries; their order is irrelevant to `Math.min` and `Math.max`. */
  function CasesValues(bucket: Bucket): (vs: set<real>)
    requires AllHaveCases(bucket)
    ensures forall c :: c in bucket ==> bucket[c][CasesField] in vs
    ensures forall v :: v in vs ==> exists c :: c in bucket && bucket[c][CasesField] == v
    ensures vs == {} <==> bucket == map[]
  {
    var vs := set c | c in bucket :: bucket[c][CasesField];
    assert bucket != map[] ==> vs != {} by {
      if bucket != map[] {
        var c :| c in bucket;
        assert bucket[c][CasesField] in vs;
      }
    }
    vs
  }

  lemma NonEmptyHasElement(s: set<real>)
    requires s != {}
    ensures exists x :: x in s
  {
    if forall x :: x !in s {
      assert false;
    }
  }

  lemma {:induction false} HasLeast(s: set<real>)
    requires s != {}
    ensures exists m :: m in s && forall x :: x in s ==> m <= x
    decreases |s|
  {
    NonEmptyHasElement(s);
    var y :| y in s;
    if s != {y} {
      HasLeast(s - {y});
      var m :| m in s - {y} && forall x :: x in s - {y} ==> m <= x;
      if y <= m {
        forall x | x in s ensures y <= x {
          if x != y { assert x in s - {y}; }
        }
      } else {
        forall x | x in s ensures m <= x {
          if x != y { assert x in s - {y}; }
        }
      }
    }
  }

  lemma {:induction false} HasGreatest(s: set<real>)
    requires s != {}
    ensures exists m :: m in s && forall x :: x in s ==> x <= m
    decreases |s|
  {
    NonEmptyHasElement(s);
    var y :| y in s;
    if s != {y} {
      HasGreatest(s - {y});
      var m :| m in s - {y} && forall x :: x in s - {y} ==> x <= m;
      if m <= y {
        forall x | x in s ensures x <= y {
          if x != y { assert x in s - {y}; }
        }
      } else {
        forall x | x in s ensures x <= m {
          if x != y { assert x in s - {y}; }
        }
      }
    }
  }

  /** `Math.min(...values)` for a non-empty list. */
  function Least(s: set<real>): (m: real)
    requires s != {}
    ensures m in s && forall x :: x in s ==> m <= x
  {
    HasLeast(s);
    var m :| m in s && forall x :: x in s ==> m <= x;
    m
  }

  /** `Math.max(...values)` for a non-empty list. */
  function Greatest(s: set<real>): (m: real)
    requires s != {}
    ensures m in s && forall x :: x in s ==> x <= m
  {
    HasGreatest(s);
    var m :| m in s && forall x :: x in s ==> x <= m;
    m
  }

  /**
   * The range effect: `[Math.min(...cases), Math.max(...cases)]` of the
   * selected year's countries, or the current range when the data is not
   * loaded or the year is absent.
   */
  function NextCasesRange(yearlyData: Option<Dataset>, year: int, current: CasesRange): (r: CasesRange)
    ensures !HasYear(yearlyData, year) ==> r == current
    ensures HasYear(yearlyData, year) ==>
      var bucket := yearlyData.value[YearKey(year)];
      && (bucket == map[] ==> r == EmptySpan)
      && (bucket != map[] && !AllHaveCases(bucket) ==> r == NaNSpan)
      && (bucket != map[] && AllHaveCases(bucket) ==>
            && r.Span? && r.lo <= r.hi
            && (forall c :: c in bucket ==> r.lo <= bucket[c][CasesField] <= r.hi)
            && (exists c :: c in bucket && bucket[c][CasesField] == r.lo)
            && (exists c :: c in bucket && bucket[c][CasesField] == r.hi))
  {
    if !HasYear(yearlyData, year) then current
    else
      var bucket := yearlyData.value[YearKey(year)];
      if bucket == map[] then EmptySpan
      else if !AllHaveCases(bucket) then NaNSpan
      else
        var vs := CasesValues(bucket);
        Span(Least(vs), Greatest(vs))
  }

  /**
   * On any dataset shaped like the CSV pivot's output (no empty year, every
   * record holding exactly `cases`), every present year gives a numeric
   * `[min, max]` span: the Infinity and NaN ranges never arise.
   */
  lemma WellShapedYearsGiveSpans(yearlyData: Dataset, year: int, current: CasesRange)
    requires CsvPivot.WellShaped(yearlyData)
    requires YearKey(year) in yearlyData
    ensures NextCasesRange(Some(yearlyData), year, current).Span?
  {
    var bucket := yearlyData[YearKey(year)];
    assert AllHaveCases(bucket) by {
      forall c | c in bucket ensures CasesField in bucket[c] {
        assert bucket[c].Keys == {CasesField};
      }
    }
  }

  // ---------------------------------------------------------------------------
  // The colour of one country
  // ---------------------------------------------------------------------------

  const Gray := "gray"

  lemma ColorTextNotGray(c: Rgb)
    ensures ColorText(c) != Gray
  {
    assert ColorText(c)[0] == 'r';
  }

  /**
   * `getCountryColor(countryName)`: the gradient colour of the country's
   * `cases` in the selected year, or gray when `cases` is missing or 0.
   * `None` is the TypeError thrown when the selected year has no bucket.
   */
  function CountryColor(yearlyData: Dataset, selectedYear: int, range: CasesRange, country: string): (color: Option<string>)
    ensures color.None? <==> YearKey(selectedYear) !in yearlyData
    ensures color == Some(Gray) <==>
      YearKey(selectedYear) in yearlyData && !Truthy(FieldOf(yearlyData[YearKey(selectedYear)], country, CasesField))
    ensures color.Some? && color != Some(Gray) ==>
      var cases := FieldOf(yearlyData[YearKey(selectedYear)], country, CasesField);
      cases.Some? && color.value == ColorText(ColorFromCases(cases.value, range))
  {
    if YearKey(selectedYear) !in yearlyData then None
    else
      var cases := FieldOf(yearlyData[YearKey(selectedYear)], country, CasesField);
      if Truthy(cases) then
        ColorTextNotGray(ColorFromCases(cases.value, range));
        Some(ColorText(ColorFromCases(cases.value, range)))
      else Some(Gray)
  }

  /** With max > min, the maximum is coloured like the top swatch and the minimum like the bottom one. */
  lemma RangeEndColors(lo: real, hi: real)
    requires lo < hi
    ensures ColorText(ColorFromCases(hi, Span(lo, hi))) == TopFill
    ensures ColorText(ColorFromCases(lo, Span(lo, hi))) == BottomFill
  {
    GradientEndpoints(lo, hi);
    TopFillText();
    BottomFillText();
  }

  /**
   * With the range computed for the shown year and max > min, a country with
   * non-zero cases is coloured inside the gradient: every channel between its
   * stops, the country with the most cases in the top legend colour and the
   * one with the fewest in the bottom one.
   */
  lemma CountryColorUnderYearRange(yearlyData: Dataset, year: int, current: CasesRange, country: string)
    requires YearKey(year) in yearlyData
    requires var bucket := yearlyData[YearKey(year)];
      AllHaveCases(bucket) && country in bucket && bucket[country][CasesField] != 0.0
    requires var r := NextCasesRange(Some(yearlyData), year, current); r.Span? && r.lo < r.hi
    ensures var bucket := yearlyData[YearKey(year)];
      var v := bucket[country][CasesField];
      var r := NextCasesRange(Some(yearlyData), year, current);
      var c := ColorFromCases(v, r);
      && CountryColor(yearlyData, year, r, country) == Some(ColorText(c))
      && RedEnd as real <= c.r.v <= RedStart as real
      && GreenEnd as real <= c.g.v <= GreenStart as real
      && BlueEnd as real <= c.b.v <= BlueStart as real
      && (v == r.hi ==> CountryColor(yearlyData, year, r, country) == Some(TopFill))
      && (v == r.lo ==> CountryColor(yearlyData, year, r, country) == Some(BottomFill))
  {
    var bucket := yearlyData[YearKey(year)];
    var v := bucket[country][CasesField];
    var r := NextCasesRange(Some(yearlyData), year, current);
    assert bucket != map[];
    assert r.lo <= v <= r.hi;
    ChannelsWithinStops(v, r.lo, r.hi);
    RangeEndColors(r.lo, r.hi);
  }


  /** Of two countries in the same year, the one with more cases is at least as dark in every channel. */
  lemma MoreCasesNoLighter(yearlyData: Dataset, year: int, range: CasesRange, c1: string, c2: string, v1: real, v2: real)
    requires range.Span? && range.lo < range.hi
    requires YearKey(year) in yearlyData
    requires FieldOf(yearlyData[YearKey(year)], c1, CasesField) == Some(v1)
    requires FieldOf(yearlyData[YearKey(year)], c2, CasesField) == Some(v2)
    requires v1 != 0.0 && v2 != 0.0 && v1 <= v2
    ensures var a := ColorFromCases(v1, range);
      var b := ColorFromCases(v2, range);
      && CountryColor(yearlyData, year, range, c1) == Some(ColorText(a))
      && CountryColor(yearlyData, year, range, c2) == Some(ColorText(b))
      && b.r.v <= a.r.v && b.g.v <= a.g.v && b.b.v <= a.b.v
  {
    ChannelsNonIncreasing(v1, v2, range.lo, range.hi);
  }

  /** The popup's `avgUV` lookup on the per-country UV dataset, whose records hold only `cases`, always finds nothing. */
  lemma PopupUvMissing(rows: seq<CsvPivot.Row>, parse: string -> real, year: string, country: string)
    requires year in CsvPivot.PivotRows(rows, parse)
    ensures FieldOf(CsvPivot.PivotRows(rows, parse)[year], country, AvgUvField) == None
  {
    CsvPivot.PivotShape(rows, parse);
    var bucket := CsvPivot.PivotRows(rows, parse)[year];
    if country in bucket {
      assert bucket[country].Keys == {CasesField};
      assert AvgUvField != CasesField;
    }
  }

  // ---------------------------------------------------------------------------
  // The year slider and the UV overlay request
  // ---------------------------------------------------------------------------

  /** The years the range input offers. */
  predicate InSliderRange(year: int)
  {
    MinYear <= year <= MaxYear
  }

  /** The slider track's filled percentage. */
  function SliderFill(year: int): (pct: real)
    ensures InSliderRange(year) ==> 0.0 <= pct <= 100.0
    ensures pct == 0.0 <==> year == MinYear
    ensures pct == 100.0 <==> year == MaxYear
  {
    (year - MinYear) as real / (MaxYear - MinYear) as real * 100.0
  }

  /** The fill grows strictly with the year, by 100/7 per year. */
  lemma SliderFillIncreasing(y1: int, y2: int)
    requires y1 < y2
    ensures SliderFill(y1) < SliderFill(y2)
    ensures SliderFill(y1 + 1) - SliderFill(y1) == 100.0 / 7.0
  {
  }

  const OverlayPath := "/api/meteomatics/uv-visual"
  const YearParam := "year="
  const BoundsParam := "bounds="

  /**
   * The overlay effect: the request it sends, or `None` when bounds are not
   * known, the debounced year is 0 or the UV layer is hidden.
   */
  function OverlayRequest(bbox: Option<string>, debouncedYear: int, showUVIndex: bool): (url: Option<string>)
    ensures url.Some? <==> bbox.Some? && debouncedYear != 0 && showUVIndex
  {
    if bbox.Some? && debouncedYear != 0 && showUVIndex then
      Some(OverlayPath + "?" + YearParam + YearKey(debouncedYear + YearsAhead) + "&" + BoundsParam + bbox.value)
    else None
  }

  lemma QueryFieldsSplit(yearText: string, bbox: string)
    requires '&' !in yearText && '&' !in bbox
    ensures Text.Split(YearParam + yearText + "&" + BoundsParam + bbox, '&') == [YearParam + yearText, BoundsParam + bbox]
  {
    assert '&' !in YearParam && '&' !in BoundsParam;
    Text.SplitTwo(YearParam + yearText, BoundsParam + bbox, '&');
    assert YearParam + yearText + "&" + BoundsParam + bbox == (YearParam + yearText) + ['&'] + (BoundsParam + bbox);
  }

  lemma UrlQuerySplit(query: string)
    requires '?' !in query
    ensures Text.Split(OverlayPath + "?" + query, '?') == [OverlayPath, query]
  {
    assert '?' !in OverlayPath;
    Text.SplitTwo(OverlayPath, query, '?');
  }

  lemma QuerySplits(yearText: string, bbox: string)
    requires '&' !in yearText && '?' !in yearText
    requires '&' !in bbox && '?' !in bbox
    ensures var query := YearParam + yearText + "&" + BoundsParam + bbox;
      && Text.Split(OverlayPath + "?" + YearParam + yearText + "&" + BoundsParam + bbox, '?') == [OverlayPath, query]
      && Text.Split(query, '&') == [YearParam + yearText, BoundsParam + bbox]
  {
    var query := YearParam + yearText + "&" + BoundsParam + bbox;
    assert '?' !in YearParam && '?' !in BoundsParam;
    assert '?' !in query;
    QueryFieldsSplit(yearText, bbox);
    UrlQuerySplit(query);
    assert OverlayPath + "?" + YearParam + yearText + "&" + BoundsParam + bbox == OverlayPath + "?" + query;
  }


  /** Its query carries the selected year plus 11 and the bounding box, which the route reads back field by field. */
  lemma OverlayQueryFields(bbox: string, debouncedYear: int)
    requires debouncedYear != 0
    requires '&' !in bbox && '?' !in bbox
    ensures var url := OverlayRequest(Some(bbox), debouncedYear, true);
      && url.Some?
      && var parts := Text.Split(url.value, '?');
      && |parts| == 2 && parts[0] == OverlayPath
      && Text.Split(parts[1], '&') == [YearParam + YearKey(debouncedYear + YearsAhead), BoundsParam + bbox]
      && Text.ParseInteger(YearKey(debouncedYear + YearsAhead)) == Some(debouncedYear + 11)
  {
    Text.IntToStringCharacters(debouncedYear + YearsAhead, '&');
    Text.IntToStringCharacters(debouncedYear + YearsAhead, '?');
    QuerySplits(YearKey(debouncedYear + YearsAhead), bbox);
    Text.IntToStringRoundTrip(debouncedYear + YearsAhead);
  }
}
