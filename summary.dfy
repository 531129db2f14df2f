/** `getDataSummary` (src/utils/dataParser.ts:250-277): record count, numbers
    of distinct makes and counties, the span of model years, and the smallest,
    largest and median positive electric range. */
module Summary {
  import opened Seqs
  import opened Sorting
  import opened JsText
  import opened Grouping
  import opened EvTypes
  import opened Aggregates

  /** `yearRange`: the smallest and the largest value. */
  datatype Bounds = Bounds(min: int, max: int)

  /** `rangeStats`: the median may fall halfway between two ranges. */
  datatype RangeStats = RangeStats(min: int, max: int, median: real)

  datatype DataSummary = DataSummary(
    totalRecords: int,
    uniqueManufacturers: int,
    uniqueCounties: int,
    yearRange: Bounds,
    rangeStats: RangeStats)

  /** `_.minBy(xs, f)?.f || 0`: the smallest value, or 0 when there is none. */
  function SmallestOrZero(s: seq<int>): (m: int)
    ensures s == [] ==> m == 0
    ensures s != [] ==> m in s && forall i :: 0 <= i < |s| ==> m <= s[i]
  {
    if s == [] then 0 else MinOf(s)
  }

  /** `_.maxBy(xs, f)?.f || 0`: the largest value, or 0 when there is none. */
  function LargestOrZero(s: seq<int>): (m: int)
    ensures s == [] ==> m == 0
    ensures s != [] ==> m in s && forall i :: 0 <= i < |s| ==> s[i] <= m
  {
    if s == [] then 0 else MaxOf(s)
  }

  /** The `.thru` step: the middle element of an odd-length sequence, the mean
      of the two middle ones of an even-length one. On no elements the source
      averages two `undefined`s into NaN, which `|| 0` turns into 0. */
  function Middle(s: seq<int>): real
  {
    if s == [] then 0.0
    else
      var mid := |s| / 2;
      if |s| % 2 == 0 then (s[mid - 1] + s[mid]) as real / 2.0 else s[mid] as real
  }

  /** The default order of `Array.prototype.sort`: by the decimal renderings, as strings. */
  predicate ByDecimal(a: int, b: int)
  {
    LexLe(IntToString(a), IntToString(b))
  }

  lemma ByDecimalTotalPreorder()
    ensures TotalPreorder(ByDecimal)
  {
    forall a, b ensures ByDecimal(a, b) || ByDecimal(b, a) {
      LexTotal(IntToString(a), IntToString(b));
    }
    forall a, b, c | ByDecimal(a, b) && ByDecimal(b, c) ensures ByDecimal(a, c) {
      LexLeTransitive(IntToString(a), IntToString(b), IntToString(c));
    }
  }

  predicate Numerically(a: int, b: int)
  {
    a <= b
  }

  /** The median as the source computes it: the middle of the values sorted by `.sort()`
      with no comparison, that is, in string order. */
  function DecimalOrderMedian(rs: seq<int>): real
  {
    Middle(SortBy(rs, ByDecimal))
  }

  /** The median the summary means: the middle of the values in numeric order. */
  function NumericMedian(rs: seq<int>): real
  {
    Middle(SortBy(rs, Numerically))
  }

  /** `getDataSummary`, with the median taken as written: over the positive ranges sorted
      in string order. */
  function DataSummaryOf(data: seq<EVData>): (s: DataSummary)
    ensures s.totalRecords == |data|
    ensures 0 <= s.uniqueManufacturers <= |data| && 0 <= s.uniqueCounties <= |data|
    ensures data != [] ==> s.uniqueManufacturers >= 1 && s.uniqueCounties >= 1
    ensures data == [] ==> s.yearRange == Bounds(0, 0)
    ensures forall j :: 0 <= j < |data| ==> s.yearRange.min <= data[j].modelYear <= s.yearRange.max
    ensures data != [] ==> s.yearRange.min in Project(data, YearOf) && s.yearRange.max in Project(data, YearOf)
    ensures Filter(data, HasPositiveRange) == [] ==> s.rangeStats == RangeStats(0, 0, 0.0)
    ensures forall j :: 0 <= j < |data| && data[j].electricRange > 0 ==>
              1 <= s.rangeStats.min <= data[j].electricRange <= s.rangeStats.max
    ensures PositiveRanges(data) != [] ==>
              s.rangeStats.min in PositiveRanges(data) && s.rangeStats.max in PositiveRanges(data)
    ensures s.rangeStats.median == DecimalOrderMedian(PositiveRanges(data))
    ensures s.rangeStats.min as real <= s.rangeStats.median <= s.rangeStats.max as real
  {
    var years := Project(data, YearOf);
    var ranges := PositiveRanges(data);
    UniqueBounds(data, MakeOf);
    UniqueBounds(data, CountyOf);
    PositiveRangesCorrect(data);
    SummaryBounds(data);
    DataSummary(
      |data|,
      |Dedup(Project(data, MakeOf))|,
      |Dedup(Project(data, CountyOf))|,
      Bounds(SmallestOrZero(years), LargestOrZero(years)),
      RangeStats(SmallestOrZero(ranges), LargestOrZero(ranges), DecimalOrderMedian(ranges)))
  }

  /** The median lies within the range bounds. */
  lemma SummaryBounds(data: seq<EVData>)
    ensures PositiveRanges(data) != [] ==>
              MinOf(PositiveRanges(data)) as real <= DecimalOrderMedian(PositiveRanges(data)) <= MaxOf(PositiveRanges(data)) as real
  {
    var ranges := PositiveRanges(data);
    if ranges != [] {
      MedianBetween(ranges, ByDecimal, MinOf(ranges), MaxOf(ranges));
    }
  }

  lemma UniqueBounds(data: seq<EVData>, key: EVData -> string)
    ensures |Dedup(Project(data, key))| <= |data|
    ensures data != [] ==> |Dedup(Project(data, key))| >= 1
  {
    UniqueCounts(data, key);
    DedupMembers(Project(data, key));
    if data != [] {
      assert Project(data, key)[0] in Dedup(Project(data, key));
    }
  }

  /** The distinct makes and counties the summary counts are the entries of the
      manufacturer and county counts. */
  lemma SummaryMatchesCounts(data: seq<EVData>)
    ensures DataSummaryOf(data).uniqueManufacturers == |ManufacturerCounts(data)|
    ensures DataSummaryOf(data).uniqueCounties == |CountyDistribution(data)|
  {
    UniqueCounts(data, MakeOf);
    UniqueCounts(data, CountyOf);
  }

  /** `_.uniq(_.map(data, f)).length` counts the keys `_.countBy` makes. */
  lemma UniqueCounts(data: seq<EVData>, key: EVData -> string)
    ensures |Dedup(Project(data, key))| == |CountBy(data, key)| <= |data|
  {
    GroupByKeys(data, key);
    SortByLength(GroupBy(data, key), RankLe);
    CountByCorrect(data, key);
    SumByBetween(CountBy(data, key), EntryValue, 1, |data|);
  }

  /** The positive ranges are exactly the ranges of the records with one. */
  lemma PositiveRangesCorrect(data: seq<EVData>)
    ensures forall i :: 0 <= i < |PositiveRanges(data)| ==> PositiveRanges(data)[i] > 0
    ensures forall j :: 0 <= j < |data| && data[j].electricRange > 0 ==> data[j].electricRange in PositiveRanges(data)
    ensures PositiveRanges(data) == [] <==> Filter(data, HasPositiveRange) == []
  {
    var valid := Filter(data, HasPositiveRange);
    forall j | 0 <= j < |data| && data[j].electricRange > 0 ensures data[j].electricRange in PositiveRanges(data) {
      var k :| 0 <= k < |valid| && valid[k] == data[j];
      assert PositiveRanges(data)[k] == data[j].electricRange;
    }
  }

  /** Whatever the order, the median lies between the smallest and the largest value. */
  lemma MedianBetween(rs: seq<int>, le: (int, int) -> bool, lo: int, hi: int)
    requires forall i :: 0 <= i < |rs| ==> lo <= rs[i] <= hi
    requires rs != []
    ensures lo as real <= Middle(SortBy(rs, le)) <= hi as real
  {
    var s := SortBy(rs, le);
    var mid := |s| / 2;
    SortByMembers(rs, le);
    forall i | 0 <= i < |s| ensures lo <= s[i] <= hi {
      var k :| 0 <= k < |rs| && rs[k] == s[i];
    }
    assert lo <= s[mid] <= hi;
    if |s| % 2 == 0 {
      assert lo <= s[mid - 1] <= hi;
      assert (lo + lo) as real <= (s[mid - 1] + s[mid]) as real <= (hi + hi) as real;
    }
  }

  lemma NumericallyTotalPreorder()
    ensures TotalPreorder(Numerically)
  {
  }

  /** 1 for a value at most `v`, else 0. */
  function AtMost(v: real): int -> int
  {
    x => if x as real <= v then 1 else 0
  }

  /** 1 for a value at least `v`, else 0. */
  function AtLeast(v: real): int -> int
  {
    x => if x as real >= v then 1 else 0
  }

  /** A 0/1 measure that is 1 on a stretch of `hi - lo` positions sums to at least that. */
  lemma {:induction false} IndicatorAtLeast(s: seq<int>, f: int -> int, lo: int, hi: int)
    requires 0 <= lo <= hi <= |s|
    requires forall i :: 0 <= i < |s| ==> 0 <= f(s[i]) <= 1
    requires forall i :: lo <= i < hi ==> f(s[i]) == 1
    ensures SumBy(s, f) >= hi - lo
  {
    if hi == 0 {
      SumByBetween(s, f, 0, 1);
    } else {
      var t := s[1..];
      assert forall i :: 0 <= i < |t| ==> t[i] == s[i + 1];
      if lo == 0 {
        assert f(s[0]) == 1;
        IndicatorAtLeast(t, f, 0, hi - 1);
      } else {
        assert f(s[0]) >= 0;
        IndicatorAtLeast(t, f, lo - 1, hi - 1);
      }
    }
  }

  /** The middle of a sorted sequence splits it in halves: at least half the
      values are at most it, and at least half are at least it. */
  lemma MiddleOfSorted(s: seq<int>)
    requires s != [] && Sorted(s, Numerically)
    ensures SumBy(s, AtMost(Middle(s))) >= (|s| + 1) / 2
    ensures SumBy(s, AtLeast(Middle(s))) >= (|s| + 1) / 2
  {
    var m, mid := Middle(s), |s| / 2;
    forall i | 0 <= i < |s| ensures 0 <= AtMost(m)(s[i]) <= 1 && 0 <= AtLeast(m)(s[i]) <= 1 {
    }
    if |s| % 2 == 0 {
      assert s[mid - 1] as real <= m <= s[mid] as real;
      IndicatorAtLeast(s, AtMost(m), 0, mid);
      IndicatorAtLeast(s, AtLeast(m), mid, |s|);
    } else {
      assert m == s[mid] as real;
      IndicatorAtLeast(s, AtMost(m), 0, mid + 1);
      IndicatorAtLeast(s, AtLeast(m), mid, |s|);
    }
  }

  /** The numeric median is a median: at least half of the values lie on each side of it. */
  lemma NumericMedianHalves(rs: seq<int>)
    requires rs != []
    ensures SumBy(rs, AtMost(NumericMedian(rs))) >= (|rs| + 1) / 2
    ensures SumBy(rs, AtLeast(NumericMedian(rs))) >= (|rs| + 1) / 2
  {
    var s := SortBy(rs, Numerically);
    NumericallyTotalPreorder();
    SortBySorted(rs, Numerically);
    SortByLength(rs, Numerically);
    MiddleOfSorted(s);
    SortBySum(rs, Numerically, AtMost(NumericMedian(rs)));
    SortBySum(rs, Numerically, AtLeast(NumericMedian(rs)));
  }

  /** For positive integers with equally many digits, string order is numeric order. */
  lemma ByDecimalSameWidth(a: int, b: int)
    requires a > 0 && b > 0
    requires |IntToString(a)| == |IntToString(b)|
    ensures ByDecimal(a, b) <==> a <= b
  {
    LexLessSameLength(a, b);
    if IntToString(a) == IntToString(b) {
      IntToStringInjective(a, b);
    }
  }

  /** When all the values have the same number of digits, the source's median is the true one. */
  lemma DecimalOrderMedianSameWidth(rs: seq<int>)
    requires forall i :: 0 <= i < |rs| ==> rs[i] > 0
    requires forall i, j :: 0 <= i < |rs| && 0 <= j < |rs| ==> |IntToString(rs[i])| == |IntToString(rs[j])|
    ensures DecimalOrderMedian(rs) == NumericMedian(rs)
  {
    forall i, j | 0 <= i < |rs| && 0 <= j < |rs| ensures ByDecimal(rs[i], rs[j]) == Numerically(rs[i], rs[j]) {
      ByDecimalSameWidth(rs[i], rs[j]);
    }
    SortByAgree(rs, ByDecimal, Numerically);
  }

  /** The renderings of 9, 10 and 100 in string order: 10, 100, 9. */
  lemma DecimalOrderOfSmallNumbers()
    ensures ByDecimal(10, 100) && !ByDecimal(9, 10) && !ByDecimal(9, 100)
  {
    assert NatToString(10) == NatToString(1) + [DigitChar(0)] == "10";
    assert NatToString(100) == NatToString(10) + [DigitChar(0)] == "100";
    assert IntToString(9) == "9" && IntToString(10) == "10" && IntToString(100) == "100";
    assert "10"[1..] == "0" && "100"[1..] == "00" && "0"[1..] == "" && "00"[1..] == "0";
    assert LexLess("", "0");
  }

  /** `.sort()` puts 9, 10, 100 in the order 10, 100, 9. */
  lemma DecimalSortExample(s: seq<int>)
    requires s == [9, 10, 100]
    ensures SortBy(s, ByDecimal) == [10, 100, 9]
  {
    DecimalOrderOfSmallNumbers();
    assert s[1..] == [10, 100] && s[1..][1..] == [100] && [100][1..] == [];
    assert SortBy([100], ByDecimal) == [100];
    assert SortBy([10, 100], ByDecimal) == Insert(10, [100], ByDecimal) == [10, 100];
    assert Insert(9, [100], ByDecimal) == [100, 9];
    assert Insert(9, [10, 100], ByDecimal) == [10] + Insert(9, [100], ByDecimal);
  }

  /** The string-order median of 9, 10 and 100 is 100, whereas the median is 10. */
  lemma DecimalOrderMedianWrong(s: seq<int>)
    requires s == [9, 10, 100]
    ensures DecimalOrderMedian(s) == 100.0
    ensures NumericMedian(s) == 10.0
  {
    DecimalSortExample(s);
    assert Middle([10, 100, 9]) == 100.0;
    NumericMedianOfSorted(s);
  }

  lemma NumericMedianOfSorted(s: seq<int>)
    requires Sorted(s, Numerically)
    ensures NumericMedian(s) == Middle(s)
  {
    SortByOfSorted(s, Numerically);
  }

  /** Three values in order: the median is the middle one (10, 20, 30 gives 20). */
  lemma MedianOfThree(s: seq<int>)
    requires |s| == 3 && s[0] <= s[1] <= s[2]
    ensures NumericMedian(s) == s[1] as real
  {
    assert Sorted(s, Numerically) by {
      forall i, j | 0 <= i < j < |s| ensures s[i] <= s[j] {
      }
    }
    NumericMedianOfSorted(s);
    assert Middle(s) == s[1] as real;
  }

  /** Four values in order: the median is the mean of the middle two (10, 20, 30, 40 gives 25). */
  lemma MedianOfFour(s: seq<int>)
    requires |s| == 4 && s[0] <= s[1] <= s[2] <= s[3]
    ensures NumericMedian(s) == (s[1] + s[2]) as real / 2.0
  {
    assert Sorted(s, Numerically) by {
      forall i, j | 0 <= i < j < |s| ensures s[i] <= s[j] {
      }
    }
    NumericMedianOfSorted(s);
    assert Middle(s) == (s[1] + s[2]) as real / 2.0;
  }
}
