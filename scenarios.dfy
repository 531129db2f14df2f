/** Two worked inputs: three vehicles in King county, and no vehicles at all.
    The expected results follow from the contracts of the aggregators alone. */
module Scenarios {
  import opened Seqs
  import opened Grouping
  import opened EvTypes
  import opened Aggregates
  import opened Adapters
  import opened Series

  /** A King county vehicle with the given make, type, range and price. */
  function Vehicle(make: string, vehicleType: string, range: int, price: int): EVData
  {
    EVData("", "King", "", "WA", "", 2022, make, "", vehicleType, "", range, price, 0, "", "", "", "")
  }

  /** Two Tesla BEVs (ranges 250 and 300) and one Toyota PHEV (range 25). */
  predicate KingFleet(data: seq<EVData>)
  {
    data == [Vehicle("Tesla", BevTag, 250, 40000), Vehicle("Tesla", BevTag, 300, 45000), Vehicle("Toyota", PhevTag, 25, 35000)]
  }

  lemma SelectThree<K>(a: EVData, b: EVData, c: EVData, key: EVData -> K, k: K)
    ensures Select([a, b, c], key, k)
         == (if key(a) == k then [a] else []) + (if key(b) == k then [b] else []) + (if key(c) == k then [c] else [])
  {
    assert [a, b, c][..2] == [a, b] && [a, b][..1] == [a] && [a][..0] == [];
    assert Select([a], key, k) == (if key(a) == k then [a] else []);
    assert Select([a, b], key, k) == Select([a], key, k) + (if key(b) == k then [b] else []);
    assert Select([a, b, c], key, k) == Select([a, b], key, k) + (if key(c) == k then [c] else []);
  }

  lemma FilterThree(a: EVData, b: EVData, c: EVData, p: EVData -> bool)
    ensures Filter([a, b, c], p)
         == (if p(a) then [a] else []) + (if p(b) then [b] else []) + (if p(c) then [c] else [])
  {
    assert [a, b, c][..2] == [a, b] && [a, b][..1] == [a] && [a][..0] == [];
    assert Filter([a], p) == (if p(a) then [a] else []);
    assert Filter([a, b], p) == Filter([a], p) + (if p(b) then [b] else []);
    assert Filter([a, b, c], p) == Filter([a, b], p) + (if p(c) then [c] else []);
  }

  lemma KingSelections(data: seq<EVData>)
    requires KingFleet(data)
    ensures Select(data, TypeOf, BevTag) == data[..2]
    ensures Select(data, TypeOf, PhevTag) == data[2..]
    ensures Select(data, MakeOf, "Tesla") == data[..2]
    ensures Select(data, MakeOf, "Toyota") == data[2..]
  {
    TagsDiffer();
    assert "Tesla"[1] != "Toyota"[1];
    SelectThree(data[0], data[1], data[2], TypeOf, BevTag);
    SelectThree(data[0], data[1], data[2], TypeOf, PhevTag);
    SelectThree(data[0], data[1], data[2], MakeOf, "Tesla");
    SelectThree(data[0], data[1], data[2], MakeOf, "Toyota");
  }

  lemma KingCounty(data: seq<EVData>)
    requires KingFleet(data)
    ensures Select(data, CountyOf, "King") == data
  {
    assert data[0].county == "King" && data[1].county == "King" && data[2].county == "King";
    SelectThree(data[0], data[1], data[2], CountyOf, "King");
  }

  /** Two BEVs and one PHEV. */
  lemma KingVehicleTypes(data: seq<EVData>)
    requires KingFleet(data)
    ensures VehicleTypeCountsOf(data) == VehicleTypeCounts(2, 1)
  {
    KingSelections(data);
  }

  /** One range in 0-50, two in 201-300. */
  lemma KingRanges(data: seq<EVData>)
    requires KingFleet(data)
    ensures RangeDistributionCounts(data) == RangeDistribution(1, 0, 0, 2, 0)
  {
    var a, b, c := data[0], data[1], data[2];
    FilterThree(a, b, c, InRange0To50);
    FilterThree(a, b, c, InRange51To100);
    FilterThree(a, b, c, InRange101To200);
    FilterThree(a, b, c, InRange201To300);
    FilterThree(a, b, c, InRangeOver300);
  }

  /** An entry whose value beats every other entry's is the top-1 point. */
  lemma TopOneOfUniqueMax(es: seq<Entry>, t: int)
    requires 0 <= t < |es|
    requires forall k :: 0 <= k < |es| && es[k] != es[t] ==> es[k].1 < es[t].1
    ensures TopCategories(es, 1) == [EntryPoint(es[t])]
  {
    var top := TopEntries(es, 1);
    TopEntriesCorrect(es, 1);
    TopEntriesLargest(es, 1);
    assert top[0] == es[t];
    assert TopCategories(es, 1) == Project(top, EntryPoint);
  }

  /** The top manufacturer is Tesla, with 2 vehicles. */
  lemma KingTopManufacturer(data: seq<EVData>)
    requires KingFleet(data)
    ensures TopCategories(ManufacturerCounts(data), 1) == [ChartDataPoint("Tesla", 2, NoPercentage)]
  {
    var es := ManufacturerCounts(data);
    KingSelections(data);
    assert data[0].make == "Tesla" && data[2].make == "Toyota";
    assert "Tesla" in EntryKeys(es);
    var t :| 0 <= t < |es| && EntryKeys(es)[t] == "Tesla";
    assert es[t] == ("Tesla", 2);
    forall k | 0 <= k < |es| && es[k] != es[t] ensures es[k].1 < es[t].1 {
      assert EntryKeys(es)[k] != EntryKeys(es)[t];
      KingMakes(data, es[k].0);
    }
    TopOneOfUniqueMax(es, t);
  }

  /** The only makes with vehicles are Tesla and Toyota. */
  lemma KingMakes(data: seq<EVData>, make: string)
    requires KingFleet(data)
    requires |Select(data, MakeOf, make)| >= 1
    ensures make == "Tesla" || make == "Toyota"
  {
    var r := Select(data, MakeOf, make)[0];
    assert r in data && r.make == make;
  }

  /** King county has one stacked bar. */
  lemma KingBarNames(data: seq<EVData>)
    requires KingFleet(data)
    ensures |StackedBarData(data)| == 1 && StackedBarData(data)[0].name == "King"
  {
    var r := StackedBarData(data);
    KingCounty(data);
    assert data[0].county == "King";
    assert "King" in Project(r, BarName);
    forall i | 0 <= i < |r| ensures r[i].name == "King" {
      assert Select(data, CountyOf, r[i].name)[0] in data;
    }
    assert |r| > 1 ==> r[0].name != r[1].name;
  }

  /** King county's bar holds 2 BEVs and 1 PHEV. */
  lemma KingStackedBars(data: seq<EVData>)
    requires KingFleet(data)
    ensures StackedBarData(data) == [StackedBar("King", 2, 1)]
  {
    var r := StackedBarData(data);
    KingBarNames(data);
    KingSelections(data);
    KingCounty(data);
    var king := Select(data, CountyOf, "King");
    assert king == data;
    assert r[0].bev == |Select(king, TypeOf, BevTag)|;
    assert r[0].phev == |Select(king, TypeOf, PhevTag)|;
    assert |data[..2]| == 2 && |data[2..]| == 1;
    assert r[0] == StackedBar("King", 2, 1);
    assert r == [r[0]];
  }

  /** No vehicles: zero totals, no counts and an empty year map. */
  lemma EmptyInputTotals(data: seq<EVData>)
    requires |data| == 0
    ensures var p := ProcessEVData(data);
            && p.totalVehicles == 0 && p.averageRange == 0
            && p.manufacturerCounts == [] && p.countyDistribution == [] && p.cafvEligibilityStats == []
            && p.yearDistribution == map[]
  {
  }

  /** No vehicles: no vehicle types. */
  lemma EmptyInputTypes(data: seq<EVData>)
    requires |data| == 0
    ensures ProcessEVData(data).vehicleTypeCounts == VehicleTypeCounts(0, 0)
  {
  }

  /** No vehicles: an all-zero histogram. */
  lemma EmptyInputHistogram(data: seq<EVData>)
    requires |data| == 0
    ensures ProcessEVData(data).rangeDistribution == RangeDistribution(0, 0, 0, 0, 0)
  {
  }
}
