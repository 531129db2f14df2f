/** The counting and distribution functions of the aggregation layer
    (src/utils/dataParser.ts:69-162): group-and-count maps, the two-tag vehicle
    type count, the five-bucket range histogram, the rounded mean range, the
    year distribution, and `processEVData`, which bundles them. */
module Aggregates {
  import opened Seqs
  import opened JsText
  import opened Grouping
  import opened EvTypes

  /** `getManufacturerCounts`: the number of records of each make. */
  function ManufacturerCounts(data: seq<EVData>): (es: seq<Entry>)
    ensures NoDuplicates(EntryKeys(es))
    ensures forall i :: 0 <= i < |es| ==> es[i].1 == |Select(data, MakeOf, es[i].0)| >= 1
    ensures forall j :: 0 <= j < |data| ==> data[j].make in EntryKeys(es)
    ensures SumBy(es, EntryValue) == |data|
    ensures data == [] <==> es == []
  {
    CountByCorrect(data, MakeOf);
    CountBy(data, MakeOf)
  }

  /** `getCountyDistribution`: the number of records in each county. */
  function CountyDistribution(data: seq<EVData>): (es: seq<Entry>)
    ensures NoDuplicates(EntryKeys(es))
    ensures forall i :: 0 <= i < |es| ==> es[i].1 == |Select(data, CountyOf, es[i].0)| >= 1
    ensures forall j :: 0 <= j < |data| ==> data[j].county in EntryKeys(es)
    ensures SumBy(es, EntryValue) == |data|
    ensures data == [] <==> es == []
  {
    CountByCorrect(data, CountyOf);
    CountBy(data, CountyOf)
  }

  /** The `cafvEligibilityStats` of `processEVData`: the number of records per eligibility text. */
  function CafvEligibilityStats(data: seq<EVData>): (es: seq<Entry>)
    ensures NoDuplicates(EntryKeys(es))
    ensures forall i :: 0 <= i < |es| ==> es[i].1 == |Select(data, CafvOf, es[i].0)| >= 1
    ensures forall j :: 0 <= j < |data| ==> data[j].cafvEligibility in EntryKeys(es)
    ensures SumBy(es, EntryValue) == |data|
    ensures data == [] <==> es == []
  {
    CountByCorrect(data, CafvOf);
    CountBy(data, CafvOf)
  }

  /** The `{ BEV, PHEV }` counts. */
  datatype VehicleTypeCounts = VehicleTypeCounts(bev: nat, phev: nat)

  lemma TagsDiffer()
    ensures BevTag != PhevTag
  {
    assert BevTag[0] != PhevTag[0];
  }

  /** `getVehicleTypeCounts`: the sizes of the BEV and PHEV buckets of a grouping
      by vehicle type. Only the exact tags count; records with any other tag are
      in neither. */
  function VehicleTypeCountsOf(data: seq<EVData>): (c: VehicleTypeCounts)
    ensures c.bev == |Select(data, TypeOf, BevTag)|
    ensures c.phev == |Select(data, TypeOf, PhevTag)|
    ensures c.bev + c.phev <= |data|
    ensures c.bev + c.phev == |data|
        <==> forall i :: 0 <= i < |data| ==> data[i].electricVehicleType in {BevTag, PhevTag}
  {
    var groups := ObjectGroupBy(data, TypeOf);
    GetGroupOfObjectGroupBy(data, TypeOf, BevTag);
    GetGroupOfObjectGroupBy(data, TypeOf, PhevTag);
    TagsDiffer();
    SelectTwoKeys(data, TypeOf, BevTag, PhevTag);
    VehicleTypeCounts(|GetGroup(groups, BevTag)|, |GetGroup(groups, PhevTag)|)
  }

  // The five buckets of `getRangeDistributionCounts`.

  predicate InRange0To50(r: EVData)
  {
    0 <= r.electricRange <= 50
  }

  predicate InRange51To100(r: EVData)
  {
    51 <= r.electricRange <= 100
  }

  predicate InRange101To200(r: EVData)
  {
    101 <= r.electricRange <= 200
  }

  predicate InRange201To300(r: EVData)
  {
    201 <= r.electricRange <= 300
  }

  predicate InRangeOver300(r: EVData)
  {
    r.electricRange > 300
  }

  predicate HasNonNegativeRange(r: EVData)
  {
    r.electricRange >= 0
  }

  /** The object with keys "0-50", "51-100", "101-200", "201-300" and "300+". */
  datatype RangeDistribution = RangeDistribution(
    upTo50: int, upTo100: int, upTo200: int, upTo300: int, over300: int)

  function BucketTotal(d: RangeDistribution): int
  {
    d.upTo50 + d.upTo100 + d.upTo200 + d.upTo300 + d.over300
  }

  /** The buckets are disjoint and together cover exactly the non-negative ranges. */
  lemma BucketsPartition(r: EVData)
    ensures !(InRange0To50(r) && InRange51To100(r))
    ensures !(InRange51To100(r) && InRange101To200(r))
    ensures !(InRange101To200(r) && InRange201To300(r))
    ensures !(InRange201To300(r) && InRangeOver300(r))
    ensures !(InRange0To50(r) && (InRange101To200(r) || InRange201To300(r) || InRangeOver300(r)))
    ensures !(InRange51To100(r) && (InRange201To300(r) || InRangeOver300(r)))
    ensures !(InRange101To200(r) && InRangeOver300(r))
    ensures HasNonNegativeRange(r)
        <==> InRange0To50(r) || InRange51To100(r) || InRange101To200(r) || InRange201To300(r) || InRangeOver300(r)
  {
  }

  lemma {:induction false} BucketCountsSum(data: seq<EVData>)
    ensures |Filter(data, InRange0To50)| + |Filter(data, InRange51To100)| + |Filter(data, InRange101To200)|
          + |Filter(data, InRange201To300)| + |Filter(data, InRangeOver300)|
         == |Filter(data, HasNonNegativeRange)|
  {
    if data != [] {
      BucketCountsSum(data[..|data| - 1]);
      BucketsPartition(data[|data| - 1]);
    }
  }

  /** `getRangeDistributionCounts`: how many records fall in each range bucket.
      Every record with a non-negative range is in exactly one bucket. */
  function RangeDistributionCounts(data: seq<EVData>): (d: RangeDistribution)
    ensures d.upTo50 >= 0 && d.upTo100 >= 0 && d.upTo200 >= 0 && d.upTo300 >= 0 && d.over300 >= 0
    ensures d.upTo50 == |Filter(data, InRange0To50)| && d.upTo100 == |Filter(data, InRange51To100)|
    ensures d.upTo200 == |Filter(data, InRange101To200)| && d.upTo300 == |Filter(data, InRange201To300)|
    ensures d.over300 == |Filter(data, InRangeOver300)|
    ensures BucketTotal(d) == |Filter(data, HasNonNegativeRange)| <= |data|
  {
    BucketCountsSum(data);
    RangeDistribution(
      |Filter(data, InRange0To50)|,
      |Filter(data, InRange51To100)|,
      |Filter(data, InRange101To200)|,
      |Filter(data, InRange201To300)|,
      |Filter(data, InRangeOver300)|)
  }

  predicate HasPositiveRange(r: EVData)
  {
    r.electricRange > 0
  }

  /** `_.round(num / den)`: the integer nearest to the quotient, a half rounded up. */
  function RoundedQuotient(num: int, den: int): (q: int)
    requires den > 0
    ensures -den < 2 * den * q - 2 * num <= den
  {
    var q := (2 * num + den) / (2 * den);
    assert 2 * den * q <= 2 * num + den < 2 * den * q + 2 * den;
    q
  }

  /** The ranges of the records with a positive range. */
  function PositiveRanges(data: seq<EVData>): seq<int>
  {
    Project(Filter(data, HasPositiveRange), RangeOf)
  }

  /** The `averageRange` of `processEVData`: the mean of the positive ranges,
      rounded to the nearest integer (half up), or 0 when there are none
      (the NaN of an empty mean becomes 0 through `|| 0`). */
  function AverageRange(data: seq<EVData>): (avg: int)
    ensures Filter(data, HasPositiveRange) == [] ==> avg == 0
    ensures var n, s := |Filter(data, HasPositiveRange)|, SumBy(Filter(data, HasPositiveRange), RangeOf);
            n > 0 ==> -n < 2 * n * avg - 2 * s <= n
  {
    var valid := Filter(data, HasPositiveRange);
    if valid == [] then 0 else RoundedQuotient(SumBy(valid, RangeOf), |valid|)
  }

  /** The rounded mean lies between the smallest and the largest positive range. */
  lemma AverageRangeBounds(data: seq<EVData>)
    requires Filter(data, HasPositiveRange) != []
    ensures MinOf(PositiveRanges(data)) <= AverageRange(data) <= MaxOf(PositiveRanges(data))
    ensures AverageRange(data) >= 1
  {
    var valid := Filter(data, HasPositiveRange);
    var rs := PositiveRanges(data);
    var lo, hi := MinOf(rs), MaxOf(rs);
    assert 1 <= lo by {
      var k :| 0 <= k < |rs| && rs[k] == lo;
      assert HasPositiveRange(valid[k]);
    }
    SumByBetween(valid, RangeOf, lo, hi);
    RoundingStaysBetween(|valid|, SumBy(valid, RangeOf), AverageRange(data), lo, hi);
  }

  /** An integer within a half of a mean of values in `[lo, hi]` is in `[lo, hi]`. */
  lemma RoundingStaysBetween(n: int, s: int, q: int, lo: int, hi: int)
    requires n > 0
    requires n * lo <= s <= n * hi
    requires -n < 2 * n * q - 2 * s <= n
    ensures lo <= q <= hi
  {
    assert 2 * n * (hi + 1) == 2 * (n * hi) + 2 * n;
    assert 2 * n * (lo - 1) == 2 * (n * lo) - 2 * n;
    if q > hi {
      MulMonotone(2 * n, hi + 1, q);
    }
    if q < lo {
      MulMonotone(2 * n, q, lo - 1);
    }
  }

  lemma MulMonotone(n: int, a: int, b: int)
    requires n > 0 && a <= b
    ensures n * a <= n * b
  {
  }

  /** The key `_.countBy(data, "modelYear")` files a record under: `String(modelYear)`. */
  function YearKey(r: EVData): string
  {
    IntToString(r.modelYear)
  }

  /** What the `_.forEach` of `processEVData` builds from the year counts: each
      count stored under its key converted by `conv`, a later entry overwriting
      an earlier one. */
  function IndexBy(es: seq<Entry>, conv: string -> int): map<int, int>
  {
    if es == [] then map[] else IndexBy(es[..|es| - 1], conv)[conv(es[|es| - 1].0) := es[|es| - 1].1]
  }

  /** The `_.forEach` loop itself, writing into a fresh object under `_.toInteger(year)`. */
  method FillYearDistribution(raw: seq<Entry>) returns (m: map<int, int>)
    ensures m == IndexBy(raw, ToInteger)
  {
    m := map[];
    var i := 0;
    while i < |raw|
      invariant 0 <= i <= |raw|
      invariant m == IndexBy(raw[..i], ToInteger)
    {
      assert raw[..i + 1][..i] == raw[..i];
      m := m[ToInteger(raw[i].0) := raw[i].1];
      i := i + 1;
    }
    assert raw[..|raw|] == raw;
  }

  /** With keys that convert to different integers, every entry lands under its own key. */
  lemma {:induction false} IndexByLookup(es: seq<Entry>, conv: string -> int)
    requires forall i, j :: 0 <= i < j < |es| ==> conv(es[i].0) != conv(es[j].0)
    ensures forall i :: 0 <= i < |es| ==>
              conv(es[i].0) in IndexBy(es, conv) && IndexBy(es, conv)[conv(es[i].0)] == es[i].1
    ensures forall y :: y in IndexBy(es, conv) ==> exists i :: 0 <= i < |es| && conv(es[i].0) == y
  {
    if es != [] {
      var init := es[..|es| - 1];
      IndexByLookup(init, conv);
      forall y | y in IndexBy(es, conv) ensures exists i :: 0 <= i < |es| && conv(es[i].0) == y {
        if y != conv(es[|es| - 1].0) {
          assert y in IndexBy(init, conv);
          var i :| 0 <= i < |init| && conv(init[i].0) == y;
          assert es[i] == init[i];
        }
      }
    }
  }

  /** The `yearDistribution` of `processEVData`: the number of records of each
      model year, keyed by the year as a number. */
  function YearDistribution(data: seq<EVData>): (m: map<int, int>)
    ensures forall j :: 0 <= j < |data| ==> data[j].modelYear in m
    ensures forall y :: y in m ==> m[y] == |Select(data, YearOf, y)| >= 1
    ensures data == [] <==> m == map[]
  {
    forall n ensures ToInteger(IntToString(n)) == n {
      ToIntegerOfString(n);
    }
    YearIndexCorrect(data, ToInteger);
    IndexBy(CountBy(data, YearKey), ToInteger)
  }

  /** The year counts' keys convert back to distinct years, each the year of the records counted. */
  lemma YearKeysConvert(data: seq<EVData>, conv: string -> int)
    requires forall n :: conv(IntToString(n)) == n
    ensures forall i :: 0 <= i < |CountBy(data, YearKey)| ==>
              IntToString(conv(CountBy(data, YearKey)[i].0)) == CountBy(data, YearKey)[i].0
    ensures forall i, j :: 0 <= i < j < |CountBy(data, YearKey)| ==>
              conv(CountBy(data, YearKey)[i].0) != conv(CountBy(data, YearKey)[j].0)
  {
    var raw := CountBy(data, YearKey);
    CountByCorrect(data, YearKey);
    forall i | 0 <= i < |raw| ensures IntToString(conv(raw[i].0)) == raw[i].0 {
      var r := Select(data, YearKey, raw[i].0)[0];
      assert conv(IntToString(r.modelYear)) == r.modelYear;
    }
    forall i, j | 0 <= i < j < |raw| ensures conv(raw[i].0) != conv(raw[j].0) {
      assert EntryKeys(raw)[i] != EntryKeys(raw)[j];
    }
  }

  /** Counting by `String(modelYear)` and converting the keys back with any
      conversion that inverts `String` counts the records of each year. */
  lemma YearIndexCorrect(data: seq<EVData>, conv: string -> int)
    requires forall n :: conv(IntToString(n)) == n
    ensures forall j :: 0 <= j < |data| ==> data[j].modelYear in IndexBy(CountBy(data, YearKey), conv)
    ensures forall y :: y in IndexBy(CountBy(data, YearKey), conv) ==>
              IndexBy(CountBy(data, YearKey), conv)[y] == |Select(data, YearOf, y)| >= 1
    ensures data == [] <==> IndexBy(CountBy(data, YearKey), conv) == map[]
  {
    var raw := CountBy(data, YearKey);
    YearKeysConvert(data, conv);
    IndexByLookup(raw, conv);
    YearIndexDomain(data, conv);
    var m := IndexBy(raw, conv);
    forall y | y in m ensures m[y] == |Select(data, YearOf, y)| >= 1 {
      var i :| 0 <= i < |raw| && conv(raw[i].0) == y;
      YearEntryCounts(data, conv, i);
    }
    if data != [] {
      assert data[0].modelYear in m;
    }
  }

  lemma YearIndexDomain(data: seq<EVData>, conv: string -> int)
    requires forall n :: conv(IntToString(n)) == n
    requires forall i, j :: 0 <= i < j < |CountBy(data, YearKey)| ==>
              conv(CountBy(data, YearKey)[i].0) != conv(CountBy(data, YearKey)[j].0)
    ensures forall j :: 0 <= j < |data| ==> data[j].modelYear in IndexBy(CountBy(data, YearKey), conv)
  {
    var raw := CountBy(data, YearKey);
    CountByCorrect(data, YearKey);
    IndexByLookup(raw, conv);
    forall j | 0 <= j < |data| ensures data[j].modelYear in IndexBy(raw, conv) {
      var k :| 0 <= k < |raw| && EntryKeys(raw)[k] == YearKey(data[j]);
      assert conv(IntToString(data[j].modelYear)) == data[j].modelYear;
    }
  }

  lemma YearEntryCounts(data: seq<EVData>, conv: string -> int, i: int)
    requires forall n :: conv(IntToString(n)) == n
    requires 0 <= i < |CountBy(data, YearKey)|
    requires IntToString(conv(CountBy(data, YearKey)[i].0)) == CountBy(data, YearKey)[i].0
    ensures CountBy(data, YearKey)[i].1 == |Select(data, YearOf, conv(CountBy(data, YearKey)[i].0))| >= 1
  {
    var raw := CountBy(data, YearKey);
    var y := conv(raw[i].0);
    CountByCorrect(data, YearKey);
    forall k | 0 <= k < |data| ensures (YearKey(data[k]) == raw[i].0 <==> YearOf(data[k]) == y) {
      assert conv(IntToString(data[k].modelYear)) == data[k].modelYear;
    }
    SelectSame(data, YearKey, raw[i].0, YearOf, y);
  }

  /** `ProcessedEVData`. */
  datatype ProcessedEVData = ProcessedEVData(
    totalVehicles: int,
    averageRange: int,
    manufacturerCounts: seq<Entry>,
    vehicleTypeCounts: VehicleTypeCounts,
    yearDistribution: map<int, int>,
    countyDistribution: seq<Entry>,
    cafvEligibilityStats: seq<Entry>,
    rangeDistribution: RangeDistribution)

  /** `processEVData`: every metric of the dashboard over the same records, so
      the distributions agree with the total. */
  function ProcessEVData(data: seq<EVData>): (p: ProcessedEVData)
    ensures p.totalVehicles == |data|
    ensures SumBy(p.manufacturerCounts, EntryValue) == p.totalVehicles
    ensures SumBy(p.countyDistribution, EntryValue) == p.totalVehicles
    ensures SumBy(p.cafvEligibilityStats, EntryValue) == p.totalVehicles
    ensures p.vehicleTypeCounts.bev + p.vehicleTypeCounts.phev <= p.totalVehicles
    ensures BucketTotal(p.rangeDistribution) <= p.totalVehicles
    ensures p.totalVehicles == 0 ==> p.averageRange == 0 && p.yearDistribution == map[]
  {
    ProcessedEVData(
      |data|,
      AverageRange(data),
      ManufacturerCounts(data),
      VehicleTypeCountsOf(data),
      YearDistribution(data),
      CountyDistribution(data),
      CafvEligibilityStats(data),
      RangeDistributionCounts(data))
  }
}
