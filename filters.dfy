/** `filterEVData` (src/utils/dataParser.ts:282-327): keeps the records that
    pass every filter that is set. A filter that is absent does not constrain.
    The two range bounds are tested for JavaScript truthiness, so a bound of 0
    counts as absent; a list, even an empty one, is always present. */
module Filtering {
  import opened Seqs
  import opened EvTypes

  datatype Option<T> = None | Some(value: T)

  /** `yearRange`: both ends inclusive. */
  datatype YearBounds = YearBounds(min: int, max: int)

  /** The optional filters of `filterEVData`. */
  datatype Filters = Filters(
    manufacturers: Option<seq<string>>,
    vehicleTypes: Option<seq<string>>,
    yearRange: Option<YearBounds>,
    counties: Option<seq<string>>,
    minRange: Option<int>,
    maxRange: Option<int>)

  /** No filter set. */
  const NoFilters: Filters := Filters(None, None, None, None, None, None)

  /** A number option as an `&&` test sees it: present and not 0. */
  predicate Truthy(o: Option<int>)
  {
    o.Some? && o.value != 0
  }

  /** The callback of `_.filter`, one early return per filter. */
  predicate Keep(f: Filters, r: EVData)
  {
    if f.manufacturers.Some? && r.make !in f.manufacturers.value then false
    else if f.vehicleTypes.Some? && r.electricVehicleType !in f.vehicleTypes.value then false
    else if f.yearRange.Some? && (r.modelYear < f.yearRange.value.min || r.modelYear > f.yearRange.value.max) then false
    else if f.counties.Some? && r.county !in f.counties.value then false
    else if Truthy(f.minRange) && r.electricRange < f.minRange.value then false
    else if Truthy(f.maxRange) && r.electricRange > f.maxRange.value then false
    else true
  }

  function KeepBy(f: Filters): EVData -> bool
  {
    r => Keep(f, r)
  }

  /** `filterEVData`: the records that pass, in their original order. */
  function FilterEVData(data: seq<EVData>, f: Filters): (r: seq<EVData>)
    ensures |r| <= |data|
    ensures forall i :: 0 <= i < |r| ==> r[i] in data && Keep(f, r[i])
    ensures forall j :: 0 <= j < |data| && Keep(f, data[j]) ==> data[j] in r
    ensures forall x :: multiset(r)[x] == if Keep(f, x) then multiset(data)[x] else 0
  {
    FilterCounts(data, KeepBy(f));
    Filter(data, KeepBy(f))
  }

  /** A record passes exactly when it meets every filter that is set. */
  lemma KeepMeetsEvery(f: Filters, r: EVData)
    ensures Keep(f, r) <==>
              && (f.manufacturers.Some? ==> r.make in f.manufacturers.value)
              && (f.vehicleTypes.Some? ==> r.electricVehicleType in f.vehicleTypes.value)
              && (f.yearRange.Some? ==> f.yearRange.value.min <= r.modelYear <= f.yearRange.value.max)
              && (f.counties.Some? ==> r.county in f.counties.value)
              && (Truthy(f.minRange) ==> r.electricRange >= f.minRange.value)
              && (Truthy(f.maxRange) ==> r.electricRange <= f.maxRange.value)
  {
  }

  /** The result is the input with some records deleted, order kept. */
  lemma FilterEVDataSubsequence(data: seq<EVData>, f: Filters)
    ensures IsSubsequence(FilterEVData(data, f), data)
  {
    FilterIsSubsequence(data, KeepBy(f));
  }

  /** With no filter set every record is kept. */
  lemma NoFiltersKeepAll(data: seq<EVData>)
    ensures FilterEVData(data, NoFilters) == data
  {
    FilterAll(data, KeepBy(NoFilters));
  }

  /** A manufacturer list naming every make in the data keeps every record. */
  lemma AllMakesKeepAll(data: seq<EVData>, makes: seq<string>)
    requires forall j :: 0 <= j < |data| ==> data[j].make in makes
    ensures FilterEVData(data, NoFilters.(manufacturers := Some(makes))) == data
  {
    FilterAll(data, KeepBy(NoFilters.(manufacturers := Some(makes))));
  }

  /** An empty list is present and matches nothing, so it keeps no record. */
  lemma EmptyListKeepsNone(data: seq<EVData>, f: Filters)
    requires f.manufacturers == Some([]) || f.vehicleTypes == Some([]) || f.counties == Some([])
    ensures FilterEVData(data, f) == []
  {
    FilterNone(data, KeepBy(f));
  }

  /** Filtering again with the same filters changes nothing. */
  lemma FilterEVDataIdempotent(data: seq<EVData>, f: Filters)
    ensures FilterEVData(FilterEVData(data, f), f) == FilterEVData(data, f)
  {
    FilterAll(FilterEVData(data, f), KeepBy(f));
  }

  /** Filtering with `f` then `g` is filtering with both at once. */
  lemma {:induction false} FilterEVDataTwice(data: seq<EVData>, f: Filters, g: Filters)
    ensures FilterEVData(FilterEVData(data, f), g) == Filter(data, r => Keep(f, r) && Keep(g, r))
  {
    if data != [] {
      var init, last := data[..|data| - 1], data[|data| - 1];
      FilterEVDataTwice(init, f, g);
      FilterAppend(FilterEVData(init, f), if Keep(f, last) then [last] else [], KeepBy(g));
      if Keep(f, last) {
        assert [last][..0] == [];
      }
    }
  }

  /** Two filter sets can be applied in either order. */
  lemma FilterEVDataCommutes(data: seq<EVData>, f: Filters, g: Filters)
    ensures FilterEVData(FilterEVData(data, f), g) == FilterEVData(FilterEVData(data, g), f)
  {
    FilterEVDataTwice(data, f, g);
    FilterEVDataTwice(data, g, f);
    FilterSame(data, r => Keep(f, r) && Keep(g, r), r => Keep(g, r) && Keep(f, r));
  }

  /** Filters by predicates that agree on every element are equal. */
  lemma {:induction false} FilterSame(xs: seq<EVData>, p: EVData -> bool, q: EVData -> bool)
    requires forall i :: 0 <= i < |xs| ==> p(xs[i]) == q(xs[i])
    ensures Filter(xs, p) == Filter(xs, q)
  {
    if xs != [] {
      FilterSame(xs[..|xs| - 1], p, q);
    }
  }

  /** The range bounds as evidently meant: any bound that is given is enforced,
      0 included. */
  predicate IntendedKeep(f: Filters, r: EVData)
  {
    && Keep(f.(minRange := None, maxRange := None), r)
    && (f.minRange.Some? ==> r.electricRange >= f.minRange.value)
    && (f.maxRange.Some? ==> r.electricRange <= f.maxRange.value)
  }

  /** `filterEVData` with every given bound enforced. */
  function IntendedFilterEVData(data: seq<EVData>, f: Filters): (r: seq<EVData>)
    ensures forall i :: 0 <= i < |r| ==> r[i] in data && IntendedKeep(f, r[i])
    ensures forall j :: 0 <= j < |data| && IntendedKeep(f, data[j]) ==> data[j] in r
  {
    Filter(data, r => IntendedKeep(f, r))
  }

  /** The two filters differ only on a bound of 0. */
  lemma IntendedAgreesOffZero(data: seq<EVData>, f: Filters)
    requires f.minRange != Some(0) && f.maxRange != Some(0)
    ensures IntendedFilterEVData(data, f) == FilterEVData(data, f)
  {
    FilterSame(data, r => IntendedKeep(f, r), KeepBy(f));
  }

  /** A record with range 100 passes a maximum range of 0 as written, and fails it as intended. */
  lemma ZeroMaxRangeIgnored(r: EVData)
    requires r.electricRange == 100
    ensures FilterEVData([r], NoFilters.(maxRange := Some(0))) == [r]
    ensures IntendedFilterEVData([r], NoFilters.(maxRange := Some(0))) == []
  {
    assert Keep(NoFilters.(maxRange := Some(0)), r);
    FilterAll([r], KeepBy(NoFilters.(maxRange := Some(0))));
    FilterNone([r], r => IntendedKeep(NoFilters.(maxRange := Some(0)), r));
  }
}
