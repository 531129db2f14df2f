/** `getScatterChartData` (src/utils/dataParser.ts:394-412): records grouped by
    the text key `${electricRange}_${baseMSRP}`, one bubble per group whose
    price is positive, sized by the group, labelled by its first record, and
    ordered by price. */
module Scatter {
  import opened Seqs
  import opened Sorting
  import opened JsText
  import opened Grouping
  import opened EvTypes

  /** The grouping key: both numbers rendered with `String` and joined by "_". */
  function ScatterKey(r: EVData): string
  {
    IntToString(r.electricRange) + "_" + IntToString(r.baseMSRP)
  }

  /** The (range, price) pair a record is grouped by. */
  function PairOf(r: EVData): (int, int)
  {
    (r.electricRange, r.baseMSRP)
  }

  predicate HasPositivePrice(r: EVData)
  {
    r.baseMSRP > 0
  }

  lemma IntToStringNoUnderscore(n: int)
    ensures forall i :: 0 <= i < |IntToString(n)| ==> IntToString(n)[i] != '_'
  {
    if n < 0 {
      var digits := NatToString(-n);
      forall i | 0 < i < |IntToString(n)| ensures IntToString(n)[i] != '_' {
        assert IntToString(n)[i] == digits[i - 1];
      }
    }
  }

  /** Splitting a key at its first "_" gives back the two renderings. */
  lemma ScatterKeySplit(r: EVData)
    ensures FirstOf(ScatterKey(r), '_') == |IntToString(r.electricRange)| < |ScatterKey(r)|
    ensures ScatterKey(r)[..FirstOf(ScatterKey(r), '_')] == IntToString(r.electricRange)
    ensures ScatterKey(r)[FirstOf(ScatterKey(r), '_') + 1..] == IntToString(r.baseMSRP)
  {
    var a, b := IntToString(r.electricRange), IntToString(r.baseMSRP);
    IntToStringNoUnderscore(r.electricRange);
    FirstOfJoin(a, '_', b);
    assert (a + "_" + b)[..|a|] == a;
    assert (a + "_" + b)[|a| + 1..] == b;
  }

  /** The text key identifies the pair: equal keys exactly for equal (range, price). */
  lemma ScatterKeyInjective(r: EVData, s: EVData)
    ensures ScatterKey(r) == ScatterKey(s) <==> PairOf(r) == PairOf(s)
  {
    if ScatterKey(r) == ScatterKey(s) {
      ScatterKeySplit(r);
      ScatterKeySplit(s);
      IntToStringInjective(r.electricRange, s.electricRange);
      IntToStringInjective(r.baseMSRP, s.baseMSRP);
    }
  }

  /** A key holds "_", so it is never an array index: the grouping object
      enumerates its keys in the order they were first seen. */
  lemma ScatterKeyNotIndex(r: EVData)
    ensures EnumerationRank(ScatterKey(r)) == MaxArrayIndex + 1
  {
    ScatterKeySplit(r);
    var k := ScatterKey(r);
    assert !IsDigit(k[FirstOf(k, '_')]);
  }

  /** One bubble: `y` the range, `x` the price, `size` the number of records. */
  datatype ScatterPoint = ScatterPoint(y: int, x: int, size: int, make: string, model: string)

  /** `key.split("_").map(Number)` destructured into `[range, msrp]`: the numbers
      before and after the first "_", read with `conv`. */
  function SplitKey(conv: string -> int, key: string): (int, int)
  {
    var u := FirstOf(key, '_');
    (conv(key[..u]), if u < |key| then conv(key[u + 1..]) else 0)
  }

  /** The bubble of one group, labelled by the group's first record. */
  function GroupPoint(conv: string -> int, g: Group<string, EVData>): ScatterPoint
    requires g.members != []
  {
    var pair := SplitKey(conv, g.key);
    ScatterPoint(pair.0, pair.1, |g.members|, g.members[0].make, g.members[0].model)
  }

  function GroupPoints(conv: string -> int, gs: seq<Group<string, EVData>>): (ps: seq<ScatterPoint>)
    requires forall i :: 0 <= i < |gs| ==> gs[i].members != []
    ensures |ps| == |gs|
    ensures forall i :: 0 <= i < |gs| ==> ps[i] == GroupPoint(conv, gs[i])
  {
    seq(|gs|, i requires 0 <= i < |gs| => GroupPoint(conv, gs[i]))
  }

  /** `.filter((item) => item.x > 0)`. */
  predicate HasPrice(p: ScatterPoint)
  {
    p.x > 0
  }

  /** `.sort((a, b) => a.x - b.x)`: cheaper first. */
  predicate ByPrice(a: ScatterPoint, b: ScatterPoint)
  {
    a.x <= b.x
  }

  lemma ByPriceTotalPreorder()
    ensures TotalPreorder(ByPrice)
  {
  }

  function PointPair(p: ScatterPoint): (int, int)
  {
    (p.y, p.x)
  }

  function PointSize(p: ScatterPoint): int
  {
    p.size
  }

  /** The bubbles before filtering and sorting, in the grouping object's order. */
  function UnsortedPoints(data: seq<EVData>, conv: string -> int): seq<ScatterPoint>
  {
    ObjectGroupByMembers(data, ScatterKey);
    GroupPoints(conv, ObjectGroupBy(data, ScatterKey))
  }

  /** `getScatterChartData`, with the number conversion as a parameter. */
  function ScatterBy(data: seq<EVData>, conv: string -> int): seq<ScatterPoint>
  {
    SortBy(Filter(UnsortedPoints(data, conv), HasPrice), ByPrice)
  }

  /** `getScatterChartData`: one bubble per distinct (range, price) pair with a
      positive price, ordered by price; its size is the number of records with
      that pair, and its make and model are those of the first such record. */
  function ScatterChartData(data: seq<EVData>): (r: seq<ScatterPoint>)
    ensures forall i :: 0 <= i < |r| ==> r[i].x > 0
    ensures forall i, j :: 0 <= i < j < |r| ==> r[i].x <= r[j].x
    ensures DistinctBy(r, PointPair)
    ensures forall i :: 0 <= i < |r| ==>
              && r[i].size == |Select(data, PairOf, PointPair(r[i]))| >= 1
              && r[i].make == Select(data, PairOf, PointPair(r[i]))[0].make
              && r[i].model == Select(data, PairOf, PointPair(r[i]))[0].model
    ensures forall j :: 0 <= j < |data| && data[j].baseMSRP > 0 ==> PairOf(data[j]) in Project(r, PointPair)
    ensures SumBy(r, PointSize) == |Filter(data, HasPositivePrice)|
  {
    forall n ensures ToInteger(IntToString(n)) == n {
      ToIntegerOfString(n);
    }
    ScatterOrder(data, ToInteger);
    ScatterPointsCorrect(data, ToInteger);
    ScatterCovers(data, ToInteger);
    ScatterSum(data, ToInteger);
    ScatterBy(data, ToInteger)
  }

  /** Each group is the records of one pair, and its key reads back as that pair. */
  lemma ScatterGroups(data: seq<EVData>, conv: string -> int)
    requires forall n :: conv(IntToString(n)) == n
    ensures forall i :: 0 <= i < |ObjectGroupBy(data, ScatterKey)| ==>
              var g := ObjectGroupBy(data, ScatterKey)[i];
              && g.members != []
              && SplitKey(conv, g.key) == PairOf(g.members[0])
              && g.members == Select(data, PairOf, SplitKey(conv, g.key))
  {
    var gs := ObjectGroupBy(data, ScatterKey);
    ObjectGroupByMembers(data, ScatterKey);
    forall i | 0 <= i < |gs|
      ensures SplitKey(conv, gs[i].key) == PairOf(gs[i].members[0])
      ensures gs[i].members == Select(data, PairOf, SplitKey(conv, gs[i].key))
    {
      var first := gs[i].members[0];
      ScatterKeySplit(first);
      assert conv(IntToString(first.electricRange)) == first.electricRange;
      assert conv(IntToString(first.baseMSRP)) == first.baseMSRP;
      forall k | 0 <= k < |data|
        ensures (ScatterKey(data[k]) == gs[i].key <==> PairOf(data[k]) == PairOf(first))
      {
        ScatterKeyInjective(data[k], first);
      }
      SelectSame(data, ScatterKey, gs[i].key, PairOf, PairOf(first));
    }
  }

  /** Each unsorted bubble carries the pair, size and first record of its group. */
  lemma UnsortedPointsCorrect(data: seq<EVData>, conv: string -> int)
    requires forall n :: conv(IntToString(n)) == n
    ensures forall i :: 0 <= i < |UnsortedPoints(data, conv)| ==>
              var p := UnsortedPoints(data, conv)[i];
              && p.size == |Select(data, PairOf, PointPair(p))| >= 1
              && p.make == Select(data, PairOf, PointPair(p))[0].make
              && p.model == Select(data, PairOf, PointPair(p))[0].model
  {
    var gs := ObjectGroupBy(data, ScatterKey);
    var ps := UnsortedPoints(data, conv);
    ScatterGroups(data, conv);
    forall i | 0 <= i < |ps|
      ensures ps[i].size == |Select(data, PairOf, PointPair(ps[i]))| >= 1
      ensures ps[i].make == Select(data, PairOf, PointPair(ps[i]))[0].make
      ensures ps[i].model == Select(data, PairOf, PointPair(ps[i]))[0].model
    {
      var g := gs[i];
      assert g.members != [] && g.members == Select(data, PairOf, SplitKey(conv, g.key));
      assert ps[i] == GroupPoint(conv, g);
      assert PointPair(ps[i]) == SplitKey(conv, g.key);
    }
  }

  /** Different groups give bubbles with different pairs. */
  lemma UnsortedPointsDistinct(data: seq<EVData>, conv: string -> int)
    requires forall n :: conv(IntToString(n)) == n
    ensures DistinctBy(UnsortedPoints(data, conv), PointPair)
  {
    var gs := ObjectGroupBy(data, ScatterKey);
    var ps := UnsortedPoints(data, conv);
    ScatterGroups(data, conv);
    ObjectGroupByDistinct(data, ScatterKey);
    forall i, j | 0 <= i < j < |ps| ensures PointPair(ps[i]) != PointPair(ps[j]) {
      assert ps[i] == GroupPoint(conv, gs[i]) && ps[j] == GroupPoint(conv, gs[j]);
      assert PointPair(ps[i]) == PairOf(gs[i].members[0]);
      assert PointPair(ps[j]) == PairOf(gs[j].members[0]);
      assert ScatterKey(gs[i].members[0]) == gs[i].key by {
        ObjectGroupByMembers(data, ScatterKey);
        assert gs[i].members[0] in Select(data, ScatterKey, gs[i].key);
      }
      assert ScatterKey(gs[j].members[0]) == gs[j].key by {
        ObjectGroupByMembers(data, ScatterKey);
        assert gs[j].members[0] in Select(data, ScatterKey, gs[j].key);
      }
      assert GroupKey(gs[i]) != GroupKey(gs[j]);
      ScatterKeyInjective(gs[i].members[0], gs[j].members[0]);
    }
  }

  lemma ScatterOrder(data: seq<EVData>, conv: string -> int)
    requires forall n :: conv(IntToString(n)) == n
    ensures DistinctBy(ScatterBy(data, conv), PointPair)
    ensures forall i, j :: 0 <= i < j < |ScatterBy(data, conv)| ==> ScatterBy(data, conv)[i].x <= ScatterBy(data, conv)[j].x
  {
    var ps := UnsortedPoints(data, conv);
    var kept := Filter(ps, HasPrice);
    UnsortedPointsDistinct(data, conv);
    FilterDistinct(ps, HasPrice, PointPair);
    SortByDistinct(kept, ByPrice, PointPair);
    ByPriceTotalPreorder();
    SortBySorted(kept, ByPrice);
  }

  /** Filtering keeps a projection distinct. */
  lemma {:induction false} FilterDistinct<T, K>(xs: seq<T>, p: T -> bool, proj: T -> K)
    requires DistinctBy(xs, proj)
    ensures DistinctBy(Filter(xs, p), proj)
  {
    if xs != [] {
      var init := xs[..|xs| - 1];
      assert DistinctBy(init, proj);
      FilterDistinct(init, p, proj);
      var f := Filter(init, p);
      if p(xs[|xs| - 1]) {
        forall k | 0 <= k < |f| ensures proj(f[k]) != proj(xs[|xs| - 1]) {
          var m :| 0 <= m < |init| && init[m] == f[k];
        }
      }
    }
  }

  /** A bubble with a price that stands for the records sharing its pair. */
  predicate PricedPointOf(data: seq<EVData>, p: ScatterPoint)
  {
    && p.x > 0
    && p.size == |Select(data, PairOf, PointPair(p))| >= 1
    && p.make == Select(data, PairOf, PointPair(p))[0].make
    && p.model == Select(data, PairOf, PointPair(p))[0].model
  }

  lemma ScatterPointsCorrect(data: seq<EVData>, conv: string -> int)
    requires forall n :: conv(IntToString(n)) == n
    ensures forall i :: 0 <= i < |ScatterBy(data, conv)| ==>
              var p := ScatterBy(data, conv)[i];
              && p.x > 0
              && p.size == |Select(data, PairOf, PointPair(p))| >= 1
              && p.make == Select(data, PairOf, PointPair(p))[0].make
              && p.model == Select(data, PairOf, PointPair(p))[0].model
  {
    var ps := UnsortedPoints(data, conv);
    var kept := Filter(ps, HasPrice);
    var ok := p => PricedPointOf(data, p);
    UnsortedPointsCorrect(data, conv);
    forall k | 0 <= k < |kept| ensures ok(kept[k]) {
      var j :| 0 <= j < |ps| && ps[j] == kept[k];
    }
    SortByAll(kept, ByPrice, ok);
    var r := ScatterBy(data, conv);
    forall i | 0 <= i < |r| ensures PricedPointOf(data, r[i]) {
      assert ok(r[i]);
    }
  }

  lemma ScatterCovers(data: seq<EVData>, conv: string -> int)
    requires forall n :: conv(IntToString(n)) == n
    ensures forall j :: 0 <= j < |data| && data[j].baseMSRP > 0 ==> PairOf(data[j]) in Project(ScatterBy(data, conv), PointPair)
  {
    forall j | 0 <= j < |data| && data[j].baseMSRP > 0
      ensures PairOf(data[j]) in Project(ScatterBy(data, conv), PointPair)
    {
      var i := ScatterGroupOf(data, conv, j);
      var ps := UnsortedPoints(data, conv);
      var kept := Filter(ps, HasPrice);
      var r := SortBy(kept, ByPrice);
      assert ps[i] in kept;
      SortByMembers(kept, ByPrice);
      var m :| 0 <= m < |kept| && kept[m] == ps[i];
      assert kept[m] in r;
      var k :| 0 <= k < |r| && r[k] == ps[i];
      assert Project(r, PointPair)[k] == PairOf(data[j]);
    }
  }

  /** The bubble of the group a record falls in carries the record's pair. */
  lemma ScatterGroupOf(data: seq<EVData>, conv: string -> int, j: int) returns (i: int)
    requires forall n :: conv(IntToString(n)) == n
    requires 0 <= j < |data|
    ensures 0 <= i < |UnsortedPoints(data, conv)|
    ensures PointPair(UnsortedPoints(data, conv)[i]) == PairOf(data[j])
  {
    var gs := ObjectGroupBy(data, ScatterKey);
    ObjectGroupByCovers(data, ScatterKey);
    ObjectGroupByMembers(data, ScatterKey);
    i :| 0 <= i < |gs| && GroupKeys(gs)[i] == ScatterKey(data[j]);
    SplitKeyOf(conv, data[j]);
    assert UnsortedPoints(data, conv)[i] == GroupPoint(conv, gs[i]);
  }

  /** Splitting a record's key and converting both halves back gives its pair. */
  lemma SplitKeyOf(conv: string -> int, r: EVData)
    requires forall n :: conv(IntToString(n)) == n
    ensures SplitKey(conv, ScatterKey(r)) == PairOf(r)
  {
    ScatterKeySplit(r);
    assert conv(IntToString(r.electricRange)) == r.electricRange;
    assert conv(IntToString(r.baseMSRP)) == r.baseMSRP;
  }

  /** The number of records in the groups whose key reads back as a positive price. */
  function PricedCount(conv: string -> int, gs: seq<Group<string, EVData>>): int
  {
    if gs == [] then 0
    else (if SplitKey(conv, gs[0].key).1 > 0 then |gs[0].members| else 0) + PricedCount(conv, gs[1..])
  }

  lemma {:induction false} AddToPriced(conv: string -> int, gs: seq<Group<string, EVData>>, x: EVData)
    requires SplitKey(conv, ScatterKey(x)).1 == x.baseMSRP
    ensures PricedCount(conv, AddTo(gs, x, ScatterKey))
         == PricedCount(conv, gs) + (if x.baseMSRP > 0 then 1 else 0)
  {
    if gs == [] {
      assert AddTo(gs, x, ScatterKey)[1..] == [];
    } else if gs[0].key == ScatterKey(x) {
      assert AddTo(gs, x, ScatterKey)[1..] == gs[1..];
    } else {
      AddToPriced(conv, gs[1..], x);
      assert AddTo(gs, x, ScatterKey)[1..] == AddTo(gs[1..], x, ScatterKey);
    }
  }

  /** Counting the groups with a positive price counts the records with one. */
  lemma {:induction false} GroupByPriced(conv: string -> int, data: seq<EVData>)
    requires forall n :: conv(IntToString(n)) == n
    ensures PricedCount(conv, GroupBy(data, ScatterKey)) == |Filter(data, HasPositivePrice)|
  {
    if data != [] {
      var x := data[|data| - 1];
      GroupByPriced(conv, data[..|data| - 1]);
      ScatterKeySplit(x);
      assert conv(IntToString(x.baseMSRP)) == x.baseMSRP;
      AddToPriced(conv, GroupBy(data[..|data| - 1], ScatterKey), x);
    }
  }

  lemma {:induction false} FilteredSizes(conv: string -> int, gs: seq<Group<string, EVData>>)
    requires forall i :: 0 <= i < |gs| ==> gs[i].members != []
    ensures SumBy(Filter(GroupPoints(conv, gs), HasPrice), PointSize) == PricedCount(conv, gs)
  {
    if gs != [] {
      var ps := GroupPoints(conv, gs);
      var rest := GroupPoints(conv, gs[1..]);
      FilteredSizes(conv, gs[1..]);
      assert ps == [ps[0]] + rest;
      assert ps[0] == GroupPoint(conv, gs[0]);
      var head: seq<ScatterPoint> := if HasPrice(ps[0]) then [ps[0]] else [];
      assert SumBy(head, PointSize) == (if HasPrice(ps[0]) then ps[0].size else 0) by {
        if HasPrice(ps[0]) {
          assert head[1..] == [];
        }
      }
      FilterCons(ps[0], rest, HasPrice);
      SumByAppend(head, Filter(rest, HasPrice), PointSize);
    }
  }

  /** The grouping object keeps first-seen order, since no key is an array index. */
  lemma ScatterGroupOrder(data: seq<EVData>)
    ensures ObjectGroupBy(data, ScatterKey) == GroupBy(data, ScatterKey)
  {
    var gs := GroupBy(data, ScatterKey);
    GroupByMembers(data, ScatterKey);
    GroupByCovers(data, ScatterKey);
    forall i | 0 <= i < |gs| ensures EnumerationRank(gs[i].key) == MaxArrayIndex + 1 {
      ScatterKeyNotIndex(gs[i].members[0]);
    }
    SortByOfSorted(gs, RankLe);
  }

  lemma ScatterSum(data: seq<EVData>, conv: string -> int)
    requires forall n :: conv(IntToString(n)) == n
    ensures SumBy(ScatterBy(data, conv), PointSize) == |Filter(data, HasPositivePrice)|
  {
    var ps := UnsortedPoints(data, conv);
    var kept := Filter(ps, HasPrice);
    SortBySum(kept, ByPrice, PointSize);
    ScatterGroupOrder(data);
    GroupByCovers(data, ScatterKey);
    FilteredSizes(conv, GroupBy(data, ScatterKey));
    GroupByPriced(conv, data);
  }

  /** Bubbles with the same price keep the grouping object's order. */
  lemma ScatterStable(data: seq<EVData>, c: ScatterPoint)
    ensures ClassOf(ScatterChartData(data), ByPrice, c)
         == ClassOf(Filter(UnsortedPoints(data, ToInteger), HasPrice), ByPrice, c)
  {
    ByPriceTotalPreorder();
    SortByStable(Filter(UnsortedPoints(data, ToInteger), HasPrice), ByPrice, c);
  }
}
