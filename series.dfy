/** The county-by-type stacked bars and the model-year area series
    (src/utils/dataParser.ts:356-392). */
module Series {
  import opened Seqs
  import opened Sorting
  import opened JsText
  import opened Grouping
  import opened EvTypes
  import opened Aggregates

  /** One bar of `getStackedBarData`: a county with its BEV and PHEV counts. */
  datatype StackedBar = StackedBar(name: string, bev: int, phev: int)

  function BarName(b: StackedBar): string
  {
    b.name
  }

  function BarTotal(b: StackedBar): int
  {
    b.bev + b.phev
  }

  /** The bar of one county group: its records filtered by exact tag. */
  function CountyBar(g: Group<string, EVData>): StackedBar
  {
    StackedBar(g.key, |Select(g.members, TypeOf, BevTag)|, |Select(g.members, TypeOf, PhevTag)|)
  }

  function CountyBars(gs: seq<Group<string, EVData>>): (bars: seq<StackedBar>)
    ensures |bars| == |gs|
    ensures forall i :: 0 <= i < |gs| ==> bars[i] == CountyBar(gs[i])
  {
    seq(|gs|, i requires 0 <= i < |gs| => CountyBar(gs[i]))
  }

  /** The comparator `(a, b) => b.BEV + b.PHEV - a.BEV - a.PHEV`: larger totals first. */
  predicate ByTotalDesc(a: StackedBar, b: StackedBar)
  {
    a.bev + a.phev >= b.bev + b.phev
  }

  lemma ByTotalDescTotalPreorder()
    ensures TotalPreorder(ByTotalDesc)
  {
  }

  /** The bars before sorting, in the enumeration order of the county grouping. */
  function UnsortedBars(data: seq<EVData>): seq<StackedBar>
  {
    CountyBars(ObjectGroupBy(data, CountyOf))
  }

  /** `getStackedBarData`: one bar per county, the largest BEV + PHEV total first. */
  function StackedBarData(data: seq<EVData>): (r: seq<StackedBar>)
    ensures DistinctBy(r, BarName)
    ensures forall j :: 0 <= j < |data| ==> data[j].county in Project(r, BarName)
    ensures forall i, j :: 0 <= i < j < |r| ==> BarTotal(r[i]) >= BarTotal(r[j])
    ensures forall i :: 0 <= i < |r| ==>
              && r[i].bev == |Select(Select(data, CountyOf, r[i].name), TypeOf, BevTag)|
              && r[i].phev == |Select(Select(data, CountyOf, r[i].name), TypeOf, PhevTag)|
              && r[i].bev + r[i].phev <= |Select(data, CountyOf, r[i].name)|
              && |Select(data, CountyOf, r[i].name)| >= 1
  {
    StackedBarsCounts(data);
    StackedBarsShape(data);
    SortBy(UnsortedBars(data), ByTotalDesc)
  }

  lemma CountyBarCorrect(data: seq<EVData>, g: Group<string, EVData>)
    requires g.members == Select(data, CountyOf, g.key) != []
    ensures CountyBar(g).bev + CountyBar(g).phev <= |Select(data, CountyOf, CountyBar(g).name)|
  {
    TagsDiffer();
    SelectTwoKeys(g.members, TypeOf, BevTag, PhevTag);
  }

  lemma StackedBarsCounts(data: seq<EVData>)
    ensures forall i :: 0 <= i < |SortBy(UnsortedBars(data), ByTotalDesc)| ==>
              var b := SortBy(UnsortedBars(data), ByTotalDesc)[i];
              && b.bev == |Select(Select(data, CountyOf, b.name), TypeOf, BevTag)|
              && b.phev == |Select(Select(data, CountyOf, b.name), TypeOf, PhevTag)|
              && b.bev + b.phev <= |Select(data, CountyOf, b.name)|
              && |Select(data, CountyOf, b.name)| >= 1
  {
    var gs := ObjectGroupBy(data, CountyOf);
    var bars := CountyBars(gs);
    var r := SortBy(bars, ByTotalDesc);
    ObjectGroupByMembers(data, CountyOf);
    SortByMembers(bars, ByTotalDesc);
    forall i | 0 <= i < |r|
      ensures r[i].bev == |Select(Select(data, CountyOf, r[i].name), TypeOf, BevTag)|
      ensures r[i].phev == |Select(Select(data, CountyOf, r[i].name), TypeOf, PhevTag)|
      ensures r[i].bev + r[i].phev <= |Select(data, CountyOf, r[i].name)|
      ensures |Select(data, CountyOf, r[i].name)| >= 1
    {
      var j :| 0 <= j < |bars| && bars[j] == r[i];
      CountyBarCorrect(data, gs[j]);
    }
  }

  lemma StackedBarsShape(data: seq<EVData>)
    ensures DistinctBy(SortBy(UnsortedBars(data), ByTotalDesc), BarName)
    ensures forall j :: 0 <= j < |data| ==> data[j].county in Project(SortBy(UnsortedBars(data), ByTotalDesc), BarName)
    ensures Sorted(SortBy(UnsortedBars(data), ByTotalDesc), ByTotalDesc)
  {
    var gs := ObjectGroupBy(data, CountyOf);
    var bars := CountyBars(gs);
    var r := SortBy(bars, ByTotalDesc);
    ObjectGroupByDistinct(data, CountyOf);
    assert DistinctBy(bars, BarName) by {
      forall i, j | 0 <= i < j < |bars| ensures bars[i].name != bars[j].name {
        assert GroupKey(gs[i]) != GroupKey(gs[j]);
      }
    }
    SortByDistinct(bars, ByTotalDesc, BarName);
    ByTotalDescTotalPreorder();
    SortBySorted(bars, ByTotalDesc);
    ObjectGroupByCovers(data, CountyOf);
    SortByMembers(bars, ByTotalDesc);
    forall j | 0 <= j < |data| ensures data[j].county in Project(r, BarName) {
      var i :| 0 <= i < |gs| && GroupKeys(gs)[i] == data[j].county;
      assert bars[i] in r;
      var k :| 0 <= k < |r| && r[k] == bars[i];
      assert Project(r, BarName)[k] == data[j].county;
    }
  }

  /** Bars with equal totals keep the grouping object's order. */
  lemma StackedBarsStable(data: seq<EVData>, c: StackedBar)
    ensures ClassOf(StackedBarData(data), ByTotalDesc, c) == ClassOf(UnsortedBars(data), ByTotalDesc, c)
  {
    ByTotalDescTotalPreorder();
    SortByStable(UnsortedBars(data), ByTotalDesc, c);
  }

  /** One point of `getAreaChartData`: the year key as the name, the group size as the value. */
  function AreaPoint(g: Group<string, EVData>): ChartDataPoint
  {
    ChartDataPoint(g.key, |g.members|, NoPercentage)
  }

  /** lodash `sortBy("name")` on string names: JavaScript string order. */
  predicate ByName(a: ChartDataPoint, b: ChartDataPoint)
  {
    LexLe(a.name, b.name)
  }

  lemma ByNameTotalPreorder()
    ensures TotalPreorder(ByName)
  {
    forall a: ChartDataPoint, b: ChartDataPoint ensures ByName(a, b) || ByName(b, a) {
      LexTotal(a.name, b.name);
    }
    forall a: ChartDataPoint, b: ChartDataPoint, c: ChartDataPoint | ByName(a, b) && ByName(b, c)
      ensures ByName(a, c)
    {
      LexLeTransitive(a.name, b.name, c.name);
    }
  }

  function PointName(p: ChartDataPoint): string
  {
    p.name
  }

  function PointCount(p: ChartDataPoint): int
  {
    p.value
  }

  /** `getAreaChartData`: one point per model year, named by `String(year)`,
      ordered by name as strings. */
  function AreaChartData(data: seq<EVData>): (r: seq<ChartDataPoint>)
    ensures forall i, j :: 0 <= i < j < |r| ==> LexLess(r[i].name, r[j].name)
    ensures forall i :: 0 <= i < |r| ==> r[i].value == |Select(data, YearKey, r[i].name)| >= 1
    ensures forall j :: 0 <= j < |data| ==> YearKey(data[j]) in Project(r, PointName)
    ensures SumBy(r, PointCount) == |data|
  {
    AreaChartOrder(data);
    AreaChartCounts(data);
    SortBy(Project(ObjectGroupBy(data, YearKey), AreaPoint), ByName)
  }

  lemma AreaChartOrder(data: seq<EVData>)
    ensures var r := SortBy(Project(ObjectGroupBy(data, YearKey), AreaPoint), ByName);
            forall i, j :: 0 <= i < j < |r| ==> LexLess(r[i].name, r[j].name)
  {
    var gs := ObjectGroupBy(data, YearKey);
    var ps := Project(gs, AreaPoint);
    var r := SortBy(ps, ByName);
    ObjectGroupByDistinct(data, YearKey);
    assert DistinctBy(ps, PointName) by {
      forall i, j | 0 <= i < j < |ps| ensures ps[i].name != ps[j].name {
        assert GroupKey(gs[i]) != GroupKey(gs[j]);
      }
    }
    SortByDistinct(ps, ByName, PointName);
    ByNameTotalPreorder();
    SortBySorted(ps, ByName);
    forall i, j | 0 <= i < j < |r| ensures LexLess(r[i].name, r[j].name) {
      assert PointName(r[i]) != PointName(r[j]);
      assert ByName(r[i], r[j]);
    }
  }

  lemma AreaChartCounts(data: seq<EVData>)
    ensures var r := SortBy(Project(ObjectGroupBy(data, YearKey), AreaPoint), ByName);
            && (forall i :: 0 <= i < |r| ==> r[i].value == |Select(data, YearKey, r[i].name)| >= 1)
            && (forall j :: 0 <= j < |data| ==> YearKey(data[j]) in Project(r, PointName))
            && SumBy(r, PointCount) == |data|
  {
    AreaChartValues(data);
    AreaChartCovers(data);
    AreaChartSum(data);
  }

  lemma AreaChartValues(data: seq<EVData>)
    ensures var r := SortBy(Project(ObjectGroupBy(data, YearKey), AreaPoint), ByName);
            forall i :: 0 <= i < |r| ==> r[i].value == |Select(data, YearKey, r[i].name)| >= 1
  {
    var gs := ObjectGroupBy(data, YearKey);
    var ps := Project(gs, AreaPoint);
    var r := SortBy(ps, ByName);
    ObjectGroupByMembers(data, YearKey);
    SortByMembers(ps, ByName);
    forall i | 0 <= i < |r| ensures r[i].value == |Select(data, YearKey, r[i].name)| >= 1 {
      var j :| 0 <= j < |ps| && ps[j] == r[i];
    }
  }

  lemma AreaChartCovers(data: seq<EVData>)
    ensures var r := SortBy(Project(ObjectGroupBy(data, YearKey), AreaPoint), ByName);
            forall j :: 0 <= j < |data| ==> YearKey(data[j]) in Project(r, PointName)
  {
    var gs := ObjectGroupBy(data, YearKey);
    var ps := Project(gs, AreaPoint);
    var r := SortBy(ps, ByName);
    ObjectGroupByCovers(data, YearKey);
    SortByProject(ps, ByName, PointName);
    forall j | 0 <= j < |data| ensures YearKey(data[j]) in Project(r, PointName) {
      var i :| 0 <= i < |gs| && GroupKeys(gs)[i] == YearKey(data[j]);
      assert PointName(ps[i]) == YearKey(data[j]);
    }
  }

  lemma AreaChartSum(data: seq<EVData>)
    ensures SumBy(SortBy(Project(ObjectGroupBy(data, YearKey), AreaPoint), ByName), PointCount) == |data|
  {
    var gs := ObjectGroupBy(data, YearKey);
    var ps := Project(gs, AreaPoint);
    SortBySum(ps, ByName, PointCount);
    SumByPointwise(ps, PointCount, gs, GroupSize);
    GroupBySize(data, YearKey);
    SortBySum(GroupBy(data, YearKey), RankLe, GroupSize);
  }

  /** For four-digit years, string order is year order: the area series runs
      from the earliest year to the latest. */
  lemma AreaChartYearsAscending(data: seq<EVData>, i: int, j: int, a: int, b: int)
    requires 0 <= i < j < |AreaChartData(data)|
    requires AreaChartData(data)[i].name == IntToString(a) && 1000 <= a <= 9999
    requires AreaChartData(data)[j].name == IntToString(b) && 1000 <= b <= 9999
    ensures a < b
  {
    FourDigits(a);
    FourDigits(b);
    LexLessSameLength(a, b);
  }

  /** A year with fewer digits sorts by its first digit: "999" comes after "2020". */
  lemma AreaChartShortYear()
    ensures LexLess(IntToString(2020), IntToString(999))
  {
    assert IntToString(2020) == "2020";
    assert IntToString(999) == "999";
  }
}
