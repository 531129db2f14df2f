/** The chart adapters of the aggregation layer (src/utils/dataParser.ts:164-245):
    top-N selection over a count object, the vehicle-type percentages, the
    year trend series, and the fixed-order range histogram points. */
module Adapters {
  import opened Seqs
  import opened Sorting
  import opened JsText
  import opened Grouping
  import opened EvTypes
  import opened Aggregates

  /** `orderBy([1], ["desc"])` on `[key, count]` pairs: larger counts first. */
  predicate ByValueDesc(a: Entry, b: Entry)
  {
    a.1 >= b.1
  }

  lemma ByValueDescTotalPreorder()
    ensures TotalPreorder(ByValueDesc)
  {
  }

  /** lodash `_.take(s, n)`: the first `n` elements, none for `n <= 0`, all when `n` is too large. */
  function Take<T>(s: seq<T>, n: int): (r: seq<T>)
    ensures |r| == if n <= 0 then 0 else if n < |s| then n else |s|
    ensures r <= s
  {
    if n <= 0 then [] else if n < |s| then s[..n] else s
  }

  /** The pairs the top-N chain keeps: the stable sort by count, largest first, cut to `limit`. */
  function TopEntries(counts: seq<Entry>, limit: int): seq<Entry>
  {
    Take(SortBy(counts, ByValueDesc), limit)
  }

  function EntryPoint(e: Entry): ChartDataPoint
  {
    ChartDataPoint(e.0, e.1, NoPercentage)
  }

  function PointEntry(p: ChartDataPoint): Entry
  {
    (p.name, p.value)
  }

  /** `getTopManufacturers` and `getTopCounties`, which are the same chain:
      the `limit` largest counts as `{ name, value }` points. */
  function TopCategories(counts: seq<Entry>, limit: int): (r: seq<ChartDataPoint>)
    ensures |r| == if limit <= 0 then 0 else if limit < |counts| then limit else |counts|
    ensures forall i, j :: 0 <= i < j < |r| ==> r[i].value >= r[j].value
    ensures forall i :: 0 <= i < |r| ==> PointEntry(r[i]) in counts && r[i].percentage == NoPercentage
    ensures forall k, i :: 0 <= k < |counts| && EntryPoint(counts[k]) !in r && 0 <= i < |r| ==> counts[k].1 <= r[i].value
    ensures forall c :: ClassOf(Project(r, PointEntry), ByValueDesc, c) <= ClassOf(counts, ByValueDesc, c)
  {
    var top := TopEntries(counts, limit);
    TopEntriesCorrect(counts, limit);
    TopEntriesLargest(counts, limit);
    var r := Project(top, EntryPoint);
    assert Project(r, PointEntry) == top;
    forall k | 0 <= k < |counts| && EntryPoint(counts[k]) !in r ensures counts[k] !in top {
      if i :| 0 <= i < |top| && top[i] == counts[k] {
        assert false;
      }
    }
    forall c ensures ClassOf(top, ByValueDesc, c) <= ClassOf(counts, ByValueDesc, c) {
      TopEntriesStable(counts, limit, c);
    }
    r
  }

  lemma TopEntriesCorrect(counts: seq<Entry>, limit: int)
    ensures |TopEntries(counts, limit)| == if limit <= 0 then 0 else if limit < |counts| then limit else |counts|
    ensures Sorted(TopEntries(counts, limit), ByValueDesc)
    ensures forall i :: 0 <= i < |TopEntries(counts, limit)| ==> TopEntries(counts, limit)[i] in counts
  {
    var sorted := SortBy(counts, ByValueDesc);
    SortByMembers(counts, ByValueDesc);
    ByValueDescTotalPreorder();
    SortBySorted(counts, ByValueDesc);
    var r := TopEntries(counts, limit);
    forall i | 0 <= i < |r| ensures r[i] in counts {
      assert r[i] == sorted[i];
    }
  }

  /** The kept pairs are the largest: every pair left out counts no more than any pair kept. */
  lemma TopEntriesLargest(counts: seq<Entry>, limit: int)
    ensures forall k, i :: (0 <= k < |counts| && counts[k] !in TopEntries(counts, limit)
              && 0 <= i < |TopEntries(counts, limit)|) ==> counts[k].1 <= TopEntries(counts, limit)[i].1
  {
    var sorted := SortBy(counts, ByValueDesc);
    var r := TopEntries(counts, limit);
    SortByMembers(counts, ByValueDesc);
    ByValueDescTotalPreorder();
    SortBySorted(counts, ByValueDesc);
    forall k, i | 0 <= k < |counts| && counts[k] !in r && 0 <= i < |r| ensures counts[k].1 <= r[i].1 {
      var j :| 0 <= j < |sorted| && sorted[j] == counts[k];
      assert r[i] == sorted[i];
    }
  }

  /** Ties keep the count object's order: among pairs with equal counts, the kept
      ones are the first ones of the input, in input order. */
  lemma TopEntriesStable(counts: seq<Entry>, limit: int, c: Entry)
    ensures ClassOf(TopEntries(counts, limit), ByValueDesc, c) <= ClassOf(counts, ByValueDesc, c)
  {
    var sorted := SortBy(counts, ByValueDesc);
    ByValueDescTotalPreorder();
    SortByStable(counts, ByValueDesc, c);
    ClassOfPrefix(sorted, TopEntries(counts, limit), ByValueDesc, c);
  }

  lemma {:induction false} ClassOfPrefix<T>(s: seq<T>, p: seq<T>, le: (T, T) -> bool, c: T)
    requires p <= s
    ensures ClassOf(p, le, c) <= ClassOf(s, le, c)
  {
    if p != [] {
      assert p[1..] <= s[1..];
      ClassOfPrefix(s[1..], p[1..], le, c);
    }
  }

  /** Selecting the top `n` of the top `m`, for `m >= n`, is selecting the top `n`. */
  lemma TopEntriesIdempotent(counts: seq<Entry>, m: int, n: int)
    requires m >= n
    ensures TopEntries(TopEntries(counts, m), n) == TopEntries(counts, n)
  {
    TopEntriesCorrect(counts, m);
    SortByOfSorted(TopEntries(counts, m), ByValueDesc);
  }

  /** `_.round(count / total * 100)` for one of two counts that make up `total`:
      NaN when both are zero (0 / 0), otherwise the nearest whole percentage. */
  function Share(count: nat, total: nat): (p: Percentage)
    requires count <= total
    ensures total == 0 <==> p == NaN
    ensures total > 0 ==> p.Percent? && 200 * count - total < 2 * total * p.value <= 200 * count + total
  {
    if total == 0 then NaN else Percent(RoundedQuotient(100 * count, total))
  }

  /** `getVehicleTypeData`: one point per vehicle type, BEV first, with its share
      of the two counts. */
  function VehicleTypeData(c: VehicleTypeCounts): (r: seq<ChartDataPoint>)
    ensures |r| == 2
    ensures r[0].name == BevTag && r[0].value == c.bev
    ensures r[1].name == PhevTag && r[1].value == c.phev
    ensures c.bev + c.phev == 0 ==> r[0].percentage == NaN && r[1].percentage == NaN
    ensures c.bev + c.phev > 0 ==> r[0].percentage.Percent? && r[1].percentage.Percent?
    ensures var t := c.bev + c.phev; t > 0 ==>
              && 200 * c.bev - t < 2 * t * r[0].percentage.value <= 200 * c.bev + t
              && 200 * c.phev - t < 2 * t * r[1].percentage.value <= 200 * c.phev + t
  {
    var total := c.bev + c.phev;
    [ChartDataPoint(BevTag, c.bev, Share(c.bev, total)),
     ChartDataPoint(PhevTag, c.phev, Share(c.phev, total))]
  }

  /** With a non-zero total, each share is a whole percentage from 0 to 100, and
      independent rounding makes the two add up to 100 or 101. */
  lemma VehicleTypeSharesSum(c: VehicleTypeCounts)
    requires c.bev + c.phev > 0
    ensures 0 <= VehicleTypeData(c)[0].percentage.value <= 100
    ensures 0 <= VehicleTypeData(c)[1].percentage.value <= 100
    ensures VehicleTypeData(c)[0].percentage.value + VehicleTypeData(c)[1].percentage.value in {100, 101}
  {
    var t := c.bev + c.phev;
    var p, q := VehicleTypeData(c)[0].percentage.value, VehicleTypeData(c)[1].percentage.value;
    RoundingStaysBetween(t, 100 * c.bev, p, 0, 100);
    RoundingStaysBetween(t, 100 * c.phev, q, 0, 100);
    RoundedSharesSum(t, c.bev, c.phev, p, q);
  }

  /** Two shares of one total, each rounded to within half a percent, add up to 100 or 101. */
  lemma RoundedSharesSum(t: int, a: int, b: int, p: int, q: int)
    requires t > 0 && a + b == t
    requires 200 * a - t < 2 * t * p <= 200 * a + t
    requires 200 * b - t < 2 * t * q <= 200 * b + t
    ensures p + q in {100, 101}
  {
    var d := p + q - 100;
    assert 2 * t * d == 2 * t * p + 2 * t * q - 200 * t;
    assert -2 * t < 2 * t * d <= 2 * t;
    if d < 0 {
      MulMonotone(2 * t, d, -1);
    }
    if d > 1 {
      MulMonotone(2 * t, 2, d);
    }
  }

  /** The same points with a zero total giving 0 percent instead of NaN. */
  function GuardedVehicleTypeData(c: VehicleTypeCounts): (r: seq<ChartDataPoint>)
    ensures |r| == 2
    ensures r[0].name == BevTag && r[0].value == c.bev
    ensures r[1].name == PhevTag && r[1].value == c.phev
    ensures r[0].percentage.Percent? && r[1].percentage.Percent?
    ensures c.bev + c.phev == 0 ==> r[0].percentage.value == 0 && r[1].percentage.value == 0
  {
    if c.bev + c.phev == 0 then
      [ChartDataPoint(BevTag, 0, Percent(0)), ChartDataPoint(PhevTag, 0, Percent(0))]
    else VehicleTypeData(c)
  }

  /** Every guarded share is a whole percentage from 0 to 100, whatever the counts. */
  lemma GuardedSharesWhole(c: VehicleTypeCounts)
    ensures 0 <= GuardedVehicleTypeData(c)[0].percentage.value <= 100
    ensures 0 <= GuardedVehicleTypeData(c)[1].percentage.value <= 100
  {
    if c.bev + c.phev > 0 {
      VehicleTypeSharesSum(c);
    }
  }

  /** With no vehicles the shares are NaN, which a chart cannot draw. */
  lemma VehicleTypeDataNaN()
    ensures VehicleTypeData(VehicleTypeCounts(0, 0))[0].percentage == NaN
    ensures GuardedVehicleTypeData(VehicleTypeCounts(0, 0))[0].percentage == Percent(0)
  {
  }

  /** One row of `getYearTrendData`: the year read back from the grouping key
      with `conv`, the group's size, and the sizes of its BEV and PHEV buckets. */
  function YearRow(conv: string -> int, g: Group<string, EVData>): YearTrendData
  {
    var types := ObjectGroupBy(g.members, TypeOf);
    YearTrendData(conv(g.key), |g.members|, |GetGroup(types, BevTag)|, |GetGroup(types, PhevTag)|)
  }

  function YearRows(conv: string -> int, gs: seq<Group<string, EVData>>): (rows: seq<YearTrendData>)
    ensures |rows| == |gs|
    ensures forall i :: 0 <= i < |gs| ==> rows[i] == YearRow(conv, gs[i])
  {
    seq(|gs|, i requires 0 <= i < |gs| => YearRow(conv, gs[i]))
  }

  /** `orderBy("year")`: ascending by year. */
  predicate ByYear(a: YearTrendData, b: YearTrendData)
  {
    a.year <= b.year
  }

  function RowYear(r: YearTrendData): int
  {
    r.year
  }

  function RowCount(r: YearTrendData): int
  {
    r.count
  }

  /** `getYearTrendData`, with the key conversion as a parameter. */
  function YearTrendBy(data: seq<EVData>, conv: string -> int): seq<YearTrendData>
  {
    SortBy(YearRows(conv, ObjectGroupBy(data, YearKey)), ByYear)
  }

  /** `getYearTrendData`: the grouping key read back with `_.toInteger`. */
  function YearTrend(data: seq<EVData>): (r: seq<YearTrendData>)
    ensures forall i, j :: 0 <= i < j < |r| ==> r[i].year < r[j].year
    ensures forall i :: 0 <= i < |r| ==> RowCounts(data, r[i])
    ensures forall j :: 0 <= j < |data| ==> data[j].modelYear in Project(r, RowYear)
    ensures SumBy(r, RowCount) == |data|
  {
    forall n ensures ToInteger(IntToString(n)) == n {
      ToIntegerOfString(n);
    }
    YearTrendRows(data, ToInteger);
    YearTrendOrder(data, ToInteger);
    YearTrendCovers(data, ToInteger);
    YearTrendBy(data, ToInteger)
  }

  /** Each group's key is `String` of its year, and its members are that year's records. */
  lemma YearGroups(data: seq<EVData>, conv: string -> int)
    requires forall n :: conv(IntToString(n)) == n
    ensures forall i :: 0 <= i < |ObjectGroupBy(data, YearKey)| ==>
              && IntToString(conv(ObjectGroupBy(data, YearKey)[i].key)) == ObjectGroupBy(data, YearKey)[i].key
              && ObjectGroupBy(data, YearKey)[i].members
                 == Select(data, YearOf, conv(ObjectGroupBy(data, YearKey)[i].key))
              && ObjectGroupBy(data, YearKey)[i].members != []
  {
    var gs := ObjectGroupBy(data, YearKey);
    ObjectGroupByCorrect(data, YearKey);
    forall i | 0 <= i < |gs|
      ensures IntToString(conv(gs[i].key)) == gs[i].key
      ensures gs[i].members == Select(data, YearOf, conv(gs[i].key))
    {
      var r := gs[i].members[0];
      assert conv(IntToString(r.modelYear)) == r.modelYear;
      var y := conv(gs[i].key);
      forall k | 0 <= k < |data| ensures (YearKey(data[k]) == gs[i].key <==> YearOf(data[k]) == y) {
        assert conv(IntToString(data[k].modelYear)) == data[k].modelYear;
      }
      SelectSame(data, YearKey, gs[i].key, YearOf, y);
    }
  }

  /** A row counts the records of its year, and among them the BEVs and PHEVs. */
  predicate RowCounts(data: seq<EVData>, r: YearTrendData)
  {
    && r.count == |Select(data, YearOf, r.year)| >= 1
    && r.bev == |Select(Select(data, YearOf, r.year), TypeOf, BevTag)|
    && r.phev == |Select(Select(data, YearOf, r.year), TypeOf, PhevTag)|
    && r.bev + r.phev <= r.count
  }

  lemma YearRowCorrect(data: seq<EVData>, conv: string -> int, g: Group<string, EVData>)
    requires g.members == Select(data, YearOf, conv(g.key)) != []
    ensures RowCounts(data, YearRow(conv, g))
  {
    GetGroupOfObjectGroupBy(g.members, TypeOf, BevTag);
    GetGroupOfObjectGroupBy(g.members, TypeOf, PhevTag);
    TagsDiffer();
    SelectTwoKeys(g.members, TypeOf, BevTag, PhevTag);
  }

  lemma YearRowsCorrect(data: seq<EVData>, conv: string -> int)
    requires forall n :: conv(IntToString(n)) == n
    ensures forall j :: 0 <= j < |YearRows(conv, ObjectGroupBy(data, YearKey))| ==>
              RowCounts(data, YearRows(conv, ObjectGroupBy(data, YearKey))[j])
  {
    var gs := ObjectGroupBy(data, YearKey);
    YearGroups(data, conv);
    forall j | 0 <= j < |gs| ensures RowCounts(data, YearRows(conv, gs)[j]) {
      YearRowCorrect(data, conv, gs[j]);
    }
  }

  lemma YearTrendRows(data: seq<EVData>, conv: string -> int)
    requires forall n :: conv(IntToString(n)) == n
    ensures forall i :: 0 <= i < |YearTrendBy(data, conv)| ==> RowCounts(data, YearTrendBy(data, conv)[i])
  {
    var rows := YearRows(conv, ObjectGroupBy(data, YearKey));
    assert SortBy(rows, ByYear) == YearTrendBy(data, conv);
    YearRowsCorrect(data, conv);
    SortByAll(rows, ByYear, row => RowCounts(data, row));
  }

  lemma ByYearTotalPreorder()
    ensures TotalPreorder(ByYear)
  {
  }

  lemma YearTrendOrder(data: seq<EVData>, conv: string -> int)
    requires forall n :: conv(IntToString(n)) == n
    ensures forall i, j :: 0 <= i < j < |YearTrendBy(data, conv)| ==>
              YearTrendBy(data, conv)[i].year < YearTrendBy(data, conv)[j].year
  {
    var gs := ObjectGroupBy(data, YearKey);
    var rows := YearRows(conv, gs);
    YearGroups(data, conv);
    ObjectGroupByDistinct(data, YearKey);
    forall i, j | 0 <= i < j < |rows| ensures rows[i].year != rows[j].year {
      assert GroupKey(gs[i]) != GroupKey(gs[j]);
    }
    assert DistinctBy(rows, RowYear);
    SortByDistinct(rows, ByYear, RowYear);
    ByYearTotalPreorder();
    SortBySorted(rows, ByYear);
    var r := SortBy(rows, ByYear);
    assert r == YearTrendBy(data, conv);
    forall i, j | 0 <= i < j < |r| ensures r[i].year < r[j].year {
      assert RowYear(r[i]) != RowYear(r[j]);
      assert ByYear(r[i], r[j]);
    }
  }

  lemma YearTrendCovers(data: seq<EVData>, conv: string -> int)
    requires forall n :: conv(IntToString(n)) == n
    ensures forall j :: 0 <= j < |data| ==> data[j].modelYear in Project(YearTrendBy(data, conv), RowYear)
    ensures SumBy(YearTrendBy(data, conv), RowCount) == |data|
  {
    forall j | 0 <= j < |data| ensures data[j].modelYear in Project(YearTrendBy(data, conv), RowYear) {
      var i := YearRowOf(data, conv, j);
      YearRowListed(data, conv, i);
    }
    YearTrendSum(data, conv);
  }

  /** The row of the group a record falls in carries that record's year. */
  lemma YearRowOf(data: seq<EVData>, conv: string -> int, j: int) returns (i: int)
    requires forall n :: conv(IntToString(n)) == n
    requires 0 <= j < |data|
    ensures 0 <= i < |ObjectGroupBy(data, YearKey)|
    ensures YearRows(conv, ObjectGroupBy(data, YearKey))[i].year == data[j].modelYear
  {
    var gs := ObjectGroupBy(data, YearKey);
    ObjectGroupByCovers(data, YearKey);
    i :| 0 <= i < |gs| && GroupKeys(gs)[i] == YearKey(data[j]);
    assert YearRows(conv, gs)[i].year == conv(IntToString(data[j].modelYear)) == data[j].modelYear;
  }

  /** Sorting keeps every row. */
  lemma YearRowListed(data: seq<EVData>, conv: string -> int, i: int)
    requires 0 <= i < |ObjectGroupBy(data, YearKey)|
    ensures YearRows(conv, ObjectGroupBy(data, YearKey))[i].year in Project(YearTrendBy(data, conv), RowYear)
  {
    var rows := YearRows(conv, ObjectGroupBy(data, YearKey));
    var r := SortBy(rows, ByYear);
    assert r == YearTrendBy(data, conv);
    SortByMembers(rows, ByYear);
    assert rows[i] in r;
    var k :| 0 <= k < |r| && r[k] == rows[i];
    assert Project(r, RowYear)[k] == rows[i].year;
  }

  lemma YearTrendSum(data: seq<EVData>, conv: string -> int)
    ensures SumBy(YearTrendBy(data, conv), RowCount) == |data|
  {
    var gs := ObjectGroupBy(data, YearKey);
    var rows := YearRows(conv, gs);
    assert SortBy(rows, ByYear) == YearTrendBy(data, conv);
    SortBySum(rows, ByYear, RowCount);
    SumByPointwise(rows, RowCount, gs, GroupSize);
    GroupBySize(data, YearKey);
    SortBySum(GroupBy(data, YearKey), RankLe, GroupSize);
  }

  /** The histogram's keys, in the order the chart shows them. */
  const RangeKeys: seq<string> := ["0-50", "51-100", "101-200", "201-300", "300+"]

  /** `getRangeDistributionData`: five points in the fixed bucket order, a
      missing bucket counting as 0. */
  function RangeDistributionData(dist: map<string, int>): (r: seq<ChartDataPoint>)
    ensures |r| == 5
    ensures forall i :: 0 <= i < 5 ==> r[i].name == RangeKeys[i] && r[i].percentage == NoPercentage
    ensures forall i :: 0 <= i < 5 && RangeKeys[i] !in dist ==> r[i].value == 0
    ensures forall i :: 0 <= i < 5 && RangeKeys[i] in dist ==> r[i].value == dist[RangeKeys[i]]
  {
    seq(5, i requires 0 <= i < 5 =>
      ChartDataPoint(RangeKeys[i], if RangeKeys[i] in dist then dist[RangeKeys[i]] else 0, NoPercentage))
  }

  /** The object `getRangeDistributionCounts` returns, keyed by bucket name. */
  function RangeObject(d: RangeDistribution): map<string, int>
  {
    map["0-50" := d.upTo50, "51-100" := d.upTo100, "101-200" := d.upTo200,
        "201-300" := d.upTo300, "300+" := d.over300]
  }

  function PointValue(p: ChartDataPoint): int
  {
    p.value
  }

  /** Charting the histogram of some records shows the five bucket counts in
      order, adding up to the records with a non-negative range. */
  lemma RangeChartOfCounts(data: seq<EVData>)
    ensures var d := RangeDistributionCounts(data);
            Project(RangeDistributionData(RangeObject(d)), PointValue)
            == [d.upTo50, d.upTo100, d.upTo200, d.upTo300, d.over300]
    ensures SumBy(RangeDistributionData(RangeObject(RangeDistributionCounts(data))), PointValue)
         == |Filter(data, HasNonNegativeRange)|
  {
    var d := RangeDistributionCounts(data);
    var r := RangeDistributionData(RangeObject(d));
    assert Project(r, PointValue) == [d.upTo50, d.upTo100, d.upTo200, d.upTo300, d.over300];
    assert r[4..][1..] == [];
    assert SumBy(r[4..], PointValue) == d.over300;
    assert r[3..][1..] == r[4..];
    assert SumBy(r[3..], PointValue) == d.upTo300 + d.over300;
    assert r[2..][1..] == r[3..];
    assert SumBy(r[2..], PointValue) == d.upTo200 + d.upTo300 + d.over300;
    assert r[1..][1..] == r[2..];
    assert SumBy(r[1..], PointValue) == d.upTo100 + d.upTo200 + d.upTo300 + d.over300;
  }
}
