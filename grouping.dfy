/** lodash `_.groupBy` and `_.countBy`, and the order in which JavaScript
    enumerates the keys of the object they build. Both walk the input once,
    creating a key the first time it is seen; the model keeps that
    first-occurrence order and then applies the object's enumeration rule. */
module Grouping {
  import opened Seqs
  import opened Sorting
  import opened JsText

  /** One bucket of `_.groupBy`: a key and the elements that produced it. */
  datatype Group<K, T> = Group(key: K, members: seq<T>)

  function GroupKey<K, T>(g: Group<K, T>): K
  {
    g.key
  }

  function GroupSize<K, T>(g: Group<K, T>): int
  {
    |g.members|
  }

  /** The elements of `xs` whose key is `k`, in input order. */
  function Select<T, K(==)>(xs: seq<T>, key: T -> K, k: K): (r: seq<T>)
    ensures |r| <= |xs|
    ensures forall i :: 0 <= i < |r| ==> r[i] in xs && key(r[i]) == k
    ensures forall i :: 0 <= i < |xs| && key(xs[i]) == k ==> xs[i] in r
  {
    if xs == [] then []
    else Select(xs[..|xs| - 1], key, k) + (if key(xs[|xs| - 1]) == k then [xs[|xs| - 1]] else [])
  }

  predicate NoDuplicates<K(==)>(ks: seq<K>)
  {
    forall i, j :: 0 <= i < j < |ks| ==> ks[i] != ks[j]
  }

  /** Index of the first occurrence of `k` in `ks`, or `|ks|` when it does not occur. */
  function FirstIndex<K(==)>(ks: seq<K>, k: K): (i: nat)
    ensures i <= |ks|
    ensures i < |ks| <==> k in ks
    ensures i < |ks| ==> ks[i] == k
    ensures forall j :: 0 <= j < i ==> ks[j] != k
  {
    if ks == [] then 0 else if ks[0] == k then 0 else 1 + FirstIndex(ks[1..], k)
  }

  lemma {:induction false} FirstIndexSnoc<K>(ks: seq<K>, last: K, k: K)
    ensures FirstIndex(ks + [last], k)
         == if k in ks then FirstIndex(ks, k) else if k == last then |ks| else |ks| + 1
  {
    if ks != [] && ks[0] != k {
      assert (ks + [last])[1..] == ks[1..] + [last];
      FirstIndexSnoc(ks[1..], last, k);
    } else if ks == [] {
      assert [last][1..] == [];
    }
  }

  /** The distinct elements of `ks`, each where it first occurs: the reference
      for the key order of an object built by one pass over the input. */
  function Dedup<K(==)>(ks: seq<K>): (d: seq<K>)
  {
    if ks == [] then []
    else
      var d := Dedup(ks[..|ks| - 1]);
      if ks[|ks| - 1] in d then d else d + [ks[|ks| - 1]]
  }

  lemma {:induction false} DedupMembers<K>(ks: seq<K>)
    ensures forall i :: 0 <= i < |Dedup(ks)| ==> Dedup(ks)[i] in ks
    ensures forall i :: 0 <= i < |ks| ==> ks[i] in Dedup(ks)
  {
    if ks != [] {
      assert ks == ks[..|ks| - 1] + [ks[|ks| - 1]];
      DedupMembers(ks[..|ks| - 1]);
    }
  }

  lemma {:induction false} DedupNoDuplicates<K>(ks: seq<K>)
    ensures NoDuplicates(Dedup(ks))
  {
    if ks != [] {
      var d := Dedup(ks[..|ks| - 1]);
      DedupNoDuplicates(ks[..|ks| - 1]);
      if ks[|ks| - 1] !in d {
        var r := d + [ks[|ks| - 1]];
        forall i, j | 0 <= i < j < |r| ensures r[i] != r[j] {
          if j == |d| {
            assert r[i] == d[i];
          }
        }
      }
    }
  }

  lemma {:induction false} DedupOrder<K>(ks: seq<K>)
    ensures forall i, j :: 0 <= i < j < |Dedup(ks)|
              ==> FirstIndex(ks, Dedup(ks)[i]) < FirstIndex(ks, Dedup(ks)[j])
  {
    if ks != [] {
      var init, last := ks[..|ks| - 1], ks[|ks| - 1];
      assert ks == init + [last];
      DedupOrder(init);
      DedupMembers(init);
      var d := Dedup(init);
      forall i | 0 <= i < |d| ensures FirstIndex(ks, d[i]) == FirstIndex(init, d[i]) < |init| {
        FirstIndexSnoc(init, last, d[i]);
      }
      if last !in d {
        FirstIndexSnoc(init, last, last);
        assert Dedup(ks) == d + [last];
      }
    }
  }

  /** Dedup keeps one copy of each element, at its first occurrence, in order. */
  lemma DedupCorrect<K>(ks: seq<K>)
    ensures NoDuplicates(Dedup(ks))
    ensures forall i :: 0 <= i < |Dedup(ks)| ==> Dedup(ks)[i] in ks
    ensures forall i :: 0 <= i < |ks| ==> ks[i] in Dedup(ks)
    ensures forall i, j :: 0 <= i < j < |Dedup(ks)|
              ==> FirstIndex(ks, Dedup(ks)[i]) < FirstIndex(ks, Dedup(ks)[j])
  {
    DedupMembers(ks);
    DedupNoDuplicates(ks);
    DedupOrder(ks);
  }

  /** One step of `_.groupBy`: append `x` to its key's bucket, or open a new bucket at the end. */
  function AddTo<T, K(==)>(gs: seq<Group<K, T>>, x: T, key: T -> K): seq<Group<K, T>>
  {
    if gs == [] then [Group(key(x), [x])]
    else if gs[0].key == key(x) then [Group(gs[0].key, gs[0].members + [x])] + gs[1..]
    else [gs[0]] + AddTo(gs[1..], x, key)
  }

  /** lodash `_.groupBy`: buckets in first-occurrence order of their keys. */
  function GroupBy<T, K(==)>(xs: seq<T>, key: T -> K): seq<Group<K, T>>
  {
    if xs == [] then [] else AddTo(GroupBy(xs[..|xs| - 1], key), xs[|xs| - 1], key)
  }

  function GroupKeys<K, T>(gs: seq<Group<K, T>>): (ks: seq<K>)
    ensures |ks| == |gs|
    ensures forall i :: 0 <= i < |gs| ==> ks[i] == gs[i].key
  {
    seq(|gs|, i requires 0 <= i < |gs| => gs[i].key)
  }

  lemma GroupKeysCons<K, T>(g: Group<K, T>, gs: seq<Group<K, T>>)
    ensures GroupKeys([g] + gs) == [g.key] + GroupKeys(gs)
  {
  }

  lemma {:induction false} AddToKeys<T, K>(gs: seq<Group<K, T>>, x: T, key: T -> K)
    ensures GroupKeys(AddTo(gs, x, key))
         == if key(x) in GroupKeys(gs) then GroupKeys(gs) else GroupKeys(gs) + [key(x)]
  {
    if gs == [] {
      assert GroupKeys(AddTo(gs, x, key)) == [key(x)];
    } else {
      assert gs == [gs[0]] + gs[1..];
      GroupKeysCons(gs[0], gs[1..]);
      if gs[0].key == key(x) {
        GroupKeysCons(Group(gs[0].key, gs[0].members + [x]), gs[1..]);
      } else {
        var t := AddTo(gs[1..], x, key);
        AddToKeys(gs[1..], x, key);
        GroupKeysCons(gs[0], t);
        assert key(x) in GroupKeys(gs) <==> key(x) in GroupKeys(gs[1..]);
      }
    }
  }

  lemma {:induction false} AddToShape<T, K>(gs: seq<Group<K, T>>, x: T, key: T -> K)
    ensures key(x) !in GroupKeys(gs) ==> AddTo(gs, x, key) == gs + [Group(key(x), [x])]
    ensures key(x) in GroupKeys(gs) ==> |AddTo(gs, x, key)| == |gs|
    ensures |AddTo(gs, x, key)| >= |gs|
    ensures forall i :: 0 <= i < |gs| ==> AddTo(gs, x, key)[i].key == gs[i].key
  {
    if gs != [] && gs[0].key != key(x) {
      AddToShape(gs[1..], x, key);
      assert GroupKeys(gs) == [gs[0].key] + GroupKeys(gs[1..]);
      var r := AddTo(gs, x, key);
      forall i | 0 < i < |gs| ensures r[i].key == gs[i].key {
        assert r[i] == AddTo(gs[1..], x, key)[i - 1];
      }
    }
  }

  lemma {:induction false} AddToMembers<T, K>(gs: seq<Group<K, T>>, x: T, key: T -> K)
    requires NoDuplicates(GroupKeys(gs))
    ensures |AddTo(gs, x, key)| >= |gs|
    ensures forall i :: 0 <= i < |gs| ==>
              AddTo(gs, x, key)[i].members == gs[i].members + (if gs[i].key == key(x) then [x] else [])
  {
    AddToShape(gs, x, key);
    if gs != [] {
      if gs[0].key != key(x) {
        assert NoDuplicates(GroupKeys(gs[1..])) by {
          forall i, j | 0 <= i < j < |gs| - 1 ensures gs[1..][i].key != gs[1..][j].key {
            assert GroupKeys(gs)[i + 1] != GroupKeys(gs)[j + 1];
          }
        }
        AddToMembers(gs[1..], x, key);
        AddToMembersPast(gs, x, key);
      } else {
        forall i | 0 < i < |gs| ensures gs[i].key != key(x) {
          assert GroupKeys(gs)[0] != GroupKeys(gs)[i];
        }
        AddToMembersHere(gs, x, key);
      }
    }
  }

  /** When the first bucket has `x`'s key, only that bucket grows. */
  lemma AddToMembersHere<T, K>(gs: seq<Group<K, T>>, x: T, key: T -> K)
    requires gs != [] && gs[0].key == key(x)
    requires forall i :: 0 < i < |gs| ==> gs[i].key != key(x)
    ensures forall i :: 0 <= i < |gs| ==>
              AddTo(gs, x, key)[i].members == gs[i].members + (if gs[i].key == key(x) then [x] else [])
  {
    var r := AddTo(gs, x, key);
    assert r == [Group(gs[0].key, gs[0].members + [x])] + gs[1..];
    forall i | 0 < i < |gs| ensures r[i].members == gs[i].members + [] {
      assert r[i] == gs[i];
    }
  }

  /** When the first bucket has another key, `x` is filed among the rest. */
  lemma AddToMembersPast<T, K>(gs: seq<Group<K, T>>, x: T, key: T -> K)
    requires gs != [] && gs[0].key != key(x)
    requires |AddTo(gs[1..], x, key)| >= |gs| - 1
    requires forall i :: 0 <= i < |gs| - 1 ==>
               AddTo(gs[1..], x, key)[i].members == gs[1..][i].members + (if gs[1..][i].key == key(x) then [x] else [])
    ensures forall i :: 0 <= i < |gs| ==>
              AddTo(gs, x, key)[i].members == gs[i].members + (if gs[i].key == key(x) then [x] else [])
  {
    var r := AddTo(gs, x, key);
    assert r == [gs[0]] + AddTo(gs[1..], x, key);
    forall i | 0 < i < |gs|
      ensures r[i].members == gs[i].members + (if gs[i].key == key(x) then [x] else [])
    {
      assert r[i] == AddTo(gs[1..], x, key)[i - 1];
      assert gs[i] == gs[1..][i - 1];
    }
  }

  lemma {:induction false} AddToSize<T, K>(gs: seq<Group<K, T>>, x: T, key: T -> K)
    ensures SumBy(AddTo(gs, x, key), GroupSize) == SumBy(gs, GroupSize) + 1
  {
    if gs == [] {
    } else if gs[0].key == key(x) {
      assert (AddTo(gs, x, key))[1..] == gs[1..];
    } else {
      AddToSize(gs[1..], x, key);
      assert AddTo(gs, x, key)[1..] == AddTo(gs[1..], x, key);
    }
  }

  /** The buckets' keys are the input's distinct keys in first-occurrence order. */
  lemma {:induction false} GroupByKeys<T, K>(xs: seq<T>, key: T -> K)
    ensures GroupKeys(GroupBy(xs, key)) == Dedup(Project(xs, key))
  {
    if xs != [] {
      var init := xs[..|xs| - 1];
      GroupByKeys(init, key);
      AddToKeys(GroupBy(init, key), xs[|xs| - 1], key);
      assert Project(xs, key)[..|xs| - 1] == Project(init, key);
    }
  }

  /** Each bucket holds exactly the elements with its key, in input order. */
  lemma {:induction false} GroupByMembers<T, K>(xs: seq<T>, key: T -> K)
    ensures forall i :: 0 <= i < |GroupBy(xs, key)| ==>
              GroupBy(xs, key)[i].members == Select(xs, key, GroupBy(xs, key)[i].key)
  {
    if xs != [] {
      var init, x := xs[..|xs| - 1], xs[|xs| - 1];
      var gs := GroupBy(init, key);
      GroupByMembers(init, key);
      GroupByKeys(init, key);
      DedupCorrect(Project(init, key));
      AddToShape(gs, x, key);
      AddToMembers(gs, x, key);
      var r := AddTo(gs, x, key);
      assert r == GroupBy(xs, key);
      forall i | 0 <= i < |r| ensures r[i].members == Select(xs, key, r[i].key) {
        if i >= |gs| {
          assert key(x) !in GroupKeys(gs);
          assert r[i] == Group(key(x), [x]);
          assert key(x) !in Dedup(Project(init, key));
          assert key(x) !in Project(init, key);
          forall k | 0 <= k < |init| ensures key(init[k]) != key(x) {
            assert Project(init, key)[k] in Project(init, key);
          }
          SelectAbsent(init, key, key(x));
        }
      }
    }
  }

  lemma {:induction false} SelectAbsent<T, K>(xs: seq<T>, key: T -> K, k: K)
    requires forall i :: 0 <= i < |xs| ==> key(xs[i]) != k
    ensures Select(xs, key, k) == []
  {
    if xs != [] {
      SelectAbsent(xs[..|xs| - 1], key, k);
    }
  }

  /** Every element is in exactly one bucket: the bucket sizes add up to the input length. */
  lemma {:induction false} GroupBySize<T, K>(xs: seq<T>, key: T -> K)
    ensures SumBy(GroupBy(xs, key), GroupSize) == |xs|
  {
    if xs != [] {
      GroupBySize(xs[..|xs| - 1], key);
      AddToSize(GroupBy(xs[..|xs| - 1], key), xs[|xs| - 1], key);
    }
  }

  /** Buckets are non-empty, and every element's key has a bucket. */
  lemma GroupByCovers<T, K>(xs: seq<T>, key: T -> K)
    ensures forall i :: 0 <= i < |GroupBy(xs, key)| ==> GroupBy(xs, key)[i].members != []
    ensures forall j :: 0 <= j < |xs| ==> key(xs[j]) in GroupKeys(GroupBy(xs, key))
  {
    var gs := GroupBy(xs, key);
    var ks := Project(xs, key);
    GroupByKeys(xs, key);
    GroupByMembers(xs, key);
    DedupMembers(ks);
    forall i | 0 <= i < |gs| ensures gs[i].members != [] {
      assert GroupKeys(gs)[i] in ks;
      var j :| 0 <= j < |ks| && ks[j] == gs[i].key;
      assert xs[j] in Select(xs, key, gs[i].key);
    }
    forall j | 0 <= j < |xs| ensures key(xs[j]) in GroupKeys(gs) {
      assert ks[j] in Dedup(ks);
    }
  }

  /** Compares buckets by where their keys come in an object's enumeration order. */
  predicate RankLe<T>(a: Group<string, T>, b: Group<string, T>)
  {
    EnumerationRank(a.key) <= EnumerationRank(b.key)
  }

  lemma RankLeTotalPreorder<T(!new)>()
    ensures TotalPreorder(RankLe<T>)
  {
  }

  /** The buckets of an object as JavaScript enumerates them: array-index keys
      first, ascending, then the other keys in the order they were created. */
  function EnumerationOrder<T>(gs: seq<Group<string, T>>): seq<Group<string, T>>
  {
    SortBy(gs, RankLe)
  }

  /** `_.groupBy` with string keys, enumerated as `Object.entries` and `_.map` see it. */
  function ObjectGroupBy<T>(xs: seq<T>, key: T -> string): seq<Group<string, T>>
  {
    EnumerationOrder(GroupBy(xs, key))
  }

  lemma ObjectGroupByDistinct<T>(xs: seq<T>, key: T -> string)
    ensures DistinctBy(ObjectGroupBy(xs, key), GroupKey)
  {
    var gs := GroupBy(xs, key);
    GroupByKeys(xs, key);
    DedupNoDuplicates(Project(xs, key));
    assert DistinctBy(gs, GroupKey) by {
      forall i, j | 0 <= i < j < |gs| ensures gs[i].key != gs[j].key {
        assert GroupKeys(gs)[i] != GroupKeys(gs)[j];
      }
    }
    SortByDistinct(gs, RankLe, GroupKey);
  }

  lemma ObjectGroupByMembers<T>(xs: seq<T>, key: T -> string)
    ensures forall i :: 0 <= i < |ObjectGroupBy(xs, key)| ==>
              && ObjectGroupBy(xs, key)[i].members == Select(xs, key, ObjectGroupBy(xs, key)[i].key)
              && ObjectGroupBy(xs, key)[i].members != []
  {
    var gs := GroupBy(xs, key);
    var r := ObjectGroupBy(xs, key);
    GroupByMembers(xs, key);
    GroupByCovers(xs, key);
    SortByMembers(gs, RankLe);
    forall i | 0 <= i < |r|
      ensures r[i].members == Select(xs, key, r[i].key) && r[i].members != []
    {
      var j :| 0 <= j < |gs| && gs[j] == r[i];
    }
  }

  lemma ObjectGroupByCovers<T>(xs: seq<T>, key: T -> string)
    ensures forall j :: 0 <= j < |xs| ==> key(xs[j]) in GroupKeys(ObjectGroupBy(xs, key))
  {
    var gs := GroupBy(xs, key);
    var r := ObjectGroupBy(xs, key);
    GroupByCovers(xs, key);
    SortByMembers(gs, RankLe);
    forall j | 0 <= j < |xs| ensures key(xs[j]) in GroupKeys(r) {
      var i :| 0 <= i < |gs| && GroupKeys(gs)[i] == key(xs[j]);
      var k :| 0 <= k < |r| && r[k] == gs[i];
      assert GroupKeys(r)[k] == key(xs[j]);
    }
  }

  /** What the grouping object holds: one non-empty bucket per distinct key, each
      with exactly the elements of that key, sizes adding up to the input; keys in
      enumeration order, and buckets of equal rank in first-occurrence order. */
  lemma ObjectGroupByCorrect<T(!new)>(xs: seq<T>, key: T -> string)
    ensures DistinctBy(ObjectGroupBy(xs, key), GroupKey)
    ensures forall i :: 0 <= i < |ObjectGroupBy(xs, key)| ==>
              && ObjectGroupBy(xs, key)[i].members == Select(xs, key, ObjectGroupBy(xs, key)[i].key)
              && ObjectGroupBy(xs, key)[i].members != []
    ensures forall j :: 0 <= j < |xs| ==> key(xs[j]) in GroupKeys(ObjectGroupBy(xs, key))
    ensures SumBy(ObjectGroupBy(xs, key), GroupSize) == |xs|
    ensures Sorted(ObjectGroupBy(xs, key), RankLe)
    ensures forall c :: ClassOf(ObjectGroupBy(xs, key), RankLe, c) == ClassOf(GroupBy(xs, key), RankLe, c)
  {
    var gs := GroupBy(xs, key);
    ObjectGroupByDistinct(xs, key);
    ObjectGroupByMembers(xs, key);
    ObjectGroupByCovers(xs, key);
    GroupBySize(xs, key);
    SortBySum(gs, RankLe, GroupSize);
    RankLeTotalPreorder<T>();
    SortBySorted(gs, RankLe);
    forall c ensures ClassOf(ObjectGroupBy(xs, key), RankLe, c) == ClassOf(gs, RankLe, c) {
      SortByStable(gs, RankLe, c);
    }
  }

  /** lodash `_.get(groups, k, [])` on a grouping object: the bucket of `k`, or no elements. */
  function GetGroup<K(==), T>(gs: seq<Group<K, T>>, k: K): seq<T>
  {
    if gs == [] then [] else if gs[0].key == k then gs[0].members else GetGroup(gs[1..], k)
  }

  lemma {:induction false} GetGroupAt<K, T>(gs: seq<Group<K, T>>, i: int)
    requires 0 <= i < |gs|
    requires DistinctBy(gs, GroupKey)
    ensures GetGroup(gs, gs[i].key) == gs[i].members
  {
    if i > 0 {
      assert GroupKey(gs[0]) != GroupKey(gs[i]);
      assert DistinctBy(gs[1..], GroupKey);
      GetGroupAt(gs[1..], i - 1);
    }
  }

  lemma {:induction false} GetGroupMissing<K, T>(gs: seq<Group<K, T>>, k: K)
    requires forall i :: 0 <= i < |gs| ==> gs[i].key != k
    ensures GetGroup(gs, k) == []
  {
    if gs != [] {
      GetGroupMissing(gs[1..], k);
    }
  }

  /** Looking a key up in the grouping object gives exactly the elements with
      that key, and no elements for a key no element has. */
  lemma GetGroupOfObjectGroupBy<T(!new)>(xs: seq<T>, key: T -> string, k: string)
    ensures GetGroup(ObjectGroupBy(xs, key), k) == Select(xs, key, k)
  {
    var gs := ObjectGroupBy(xs, key);
    ObjectGroupByCorrect(xs, key);
    if i :| 0 <= i < |gs| && gs[i].key == k {
      GetGroupAt(gs, i);
    } else {
      GetGroupMissing(gs, k);
      forall j | 0 <= j < |xs| ensures key(xs[j]) != k {
        assert key(xs[j]) in GroupKeys(gs);
      }
      SelectAbsent(xs, key, k);
    }
  }

  /** Selecting by two keys that pick out the same elements gives the same result. */
  lemma {:induction false} SelectSame<T, K, L>(xs: seq<T>, key1: T -> K, k1: K, key2: T -> L, k2: L)
    requires forall i :: 0 <= i < |xs| ==> (key1(xs[i]) == k1 <==> key2(xs[i]) == k2)
    ensures Select(xs, key1, k1) == Select(xs, key2, k2)
  {
    if xs != [] {
      SelectSame(xs[..|xs| - 1], key1, k1, key2, k2);
    }
  }

  /** Two different keys select disjoint elements: together at most all of
      them, and all of them exactly when every element has one of the two keys. */
  lemma {:induction false} SelectTwoKeys<T, K>(xs: seq<T>, key: T -> K, a: K, b: K)
    requires a != b
    ensures |Select(xs, key, a)| + |Select(xs, key, b)| <= |xs|
    ensures |Select(xs, key, a)| + |Select(xs, key, b)| == |xs|
        <==> forall i :: 0 <= i < |xs| ==> key(xs[i]) == a || key(xs[i]) == b
  {
    if xs != [] {
      var init := xs[..|xs| - 1];
      SelectTwoKeys(init, key, a, b);
      if forall i :: 0 <= i < |xs| ==> key(xs[i]) == a || key(xs[i]) == b {
        assert forall i :: 0 <= i < |init| ==> key(init[i]) == a || key(init[i]) == b by {
          forall i | 0 <= i < |init| ensures key(init[i]) == a || key(init[i]) == b {
            assert init[i] == xs[i];
          }
        }
      } else {
        var i :| 0 <= i < |xs| && key(xs[i]) != a && key(xs[i]) != b;
        if i < |init| {
          assert init[i] == xs[i];
        }
      }
    }
  }

  /** One `[key, value]` pair of an object, as `_.toPairs` and `Object.entries` give it. */
  type Entry = (string, int)

  function EntryKey(e: Entry): string
  {
    e.0
  }

  function EntryValue(e: Entry): int
  {
    e.1
  }

  function EntryKeys(es: seq<Entry>): (ks: seq<string>)
    ensures |ks| == |es|
    ensures forall i :: 0 <= i < |es| ==> ks[i] == es[i].0
  {
    seq(|es|, i requires 0 <= i < |es| => es[i].0)
  }

  /** lodash `_.countBy`: the object from each key to its number of elements, as its entries. */
  function CountBy<T>(xs: seq<T>, key: T -> string): (es: seq<Entry>)
    ensures |es| == |ObjectGroupBy(xs, key)|
    ensures forall i :: 0 <= i < |es| ==>
              es[i] == (ObjectGroupBy(xs, key)[i].key, |ObjectGroupBy(xs, key)[i].members|)
  {
    var gs := ObjectGroupBy(xs, key);
    seq(|gs|, i requires 0 <= i < |gs| => (gs[i].key, |gs[i].members|))
  }

  /** The group-and-count contract: one entry per distinct key, whose value is
      the number of elements with that key; the values add up to the input
      length, so empty input gives no entries. */
  lemma CountByCorrect<T(!new)>(xs: seq<T>, key: T -> string)
    ensures NoDuplicates(EntryKeys(CountBy(xs, key)))
    ensures forall i :: 0 <= i < |CountBy(xs, key)| ==>
              CountBy(xs, key)[i].1 == |Select(xs, key, CountBy(xs, key)[i].0)| >= 1
    ensures forall j :: 0 <= j < |xs| ==> key(xs[j]) in EntryKeys(CountBy(xs, key))
    ensures SumBy(CountBy(xs, key), EntryValue) == |xs|
    ensures xs == [] <==> CountBy(xs, key) == []
  {
    var gs := ObjectGroupBy(xs, key);
    var es := CountBy(xs, key);
    ObjectGroupByCorrect(xs, key);
    assert EntryKeys(es) == GroupKeys(gs);
    SumByPointwise(es, EntryValue, gs, GroupSize);
    if xs != [] {
      assert key(xs[0]) in EntryKeys(es);
    }
  }

  /** The entries of a count come in the object's enumeration order. */
  lemma CountByOrder<T(!new)>(xs: seq<T>, key: T -> string)
    ensures forall i, j :: 0 <= i < j < |CountBy(xs, key)| ==>
              EnumerationRank(CountBy(xs, key)[i].0) <= EnumerationRank(CountBy(xs, key)[j].0)
  {
    var gs := ObjectGroupBy(xs, key);
    RankLeTotalPreorder<T>();
    SortBySorted(GroupBy(xs, key), RankLe);
    assert Sorted(gs, RankLe);
  }
}
