/** A stable sort parameterised by a comparison. It stands for every sort the
    aggregation layer uses: lodash `orderBy` and `sortBy` and, since ES2019,
    `Array.prototype.sort`, all of which are stable. The sort is insertion
    sort: each element is put before the first element it is not greater than,
    so elements that compare equal keep their input order. */
module Sorting {
  import opened Seqs

  /** `le` compares every pair and is transitive: equal-comparing elements form classes. */
  ghost predicate TotalPreorder<T(!new)>(le: (T, T) -> bool)
  {
    && (forall a, b :: le(a, b) || le(b, a))
    && (forall a, b, c :: le(a, b) && le(b, c) ==> le(a, c))
  }

  predicate Sorted<T>(s: seq<T>, le: (T, T) -> bool)
  {
    forall i, j :: 0 <= i < j < |s| ==> le(s[i], s[j])
  }

  /** Puts `x` in front of the first element of `s` that it does not exceed. */
  function Insert<T>(x: T, s: seq<T>, le: (T, T) -> bool): (r: seq<T>)
    ensures multiset(r) == multiset(s) + multiset{x}
  {
    if s == [] || le(x, s[0]) then [x] + s
    else assert s == [s[0]] + s[1..]; [s[0]] + Insert(x, s[1..], le)
  }

  function SortBy<T>(s: seq<T>, le: (T, T) -> bool): (r: seq<T>)
    ensures multiset(r) == multiset(s)
  {
    if s == [] then []
    else assert s == [s[0]] + s[1..]; Insert(s[0], SortBy(s[1..], le), le)
  }

  lemma SortByLength<T>(s: seq<T>, le: (T, T) -> bool)
    ensures |SortBy(s, le)| == |s|
  {
    assert |multiset(SortBy(s, le))| == |multiset(s)|;
  }

  lemma SortByMembers<T>(s: seq<T>, le: (T, T) -> bool)
    ensures |SortBy(s, le)| == |s|
    ensures forall i :: 0 <= i < |s| ==> s[i] in SortBy(s, le)
    ensures forall i :: 0 <= i < |s| ==> SortBy(s, le)[i] in s
  {
    var r := SortBy(s, le);
    SortByLength(s, le);
    forall i | 0 <= i < |s| ensures s[i] in r && r[i] in s {
      assert s[i] in multiset(s);
      assert r[i] in multiset(r);
    }
  }

  /** A property of every element survives sorting. */
  lemma SortByAll<T>(s: seq<T>, le: (T, T) -> bool, p: T -> bool)
    requires forall i :: 0 <= i < |s| ==> p(s[i])
    ensures forall i :: 0 <= i < |SortBy(s, le)| ==> p(SortBy(s, le)[i])
  {
    var r := SortBy(s, le);
    SortByMembers(s, le);
    forall i | 0 <= i < |r| ensures p(r[i]) {
      var j :| 0 <= j < |s| && s[j] == r[i];
    }
  }

  /** Every projection of an input element is a projection of some sorted element. */
  lemma SortByProject<T, U>(s: seq<T>, le: (T, T) -> bool, f: T -> U)
    ensures forall i :: 0 <= i < |s| ==> f(s[i]) in Project(SortBy(s, le), f)
  {
    var r := SortBy(s, le);
    SortByMembers(s, le);
    forall i | 0 <= i < |s| ensures f(s[i]) in Project(r, f) {
      var k :| 0 <= k < |r| && r[k] == s[i];
      assert Project(r, f)[k] == f(s[i]);
    }
  }

  lemma {:induction false} InsertSorted<T(!new)>(x: T, s: seq<T>, le: (T, T) -> bool)
    requires TotalPreorder(le)
    requires Sorted(s, le)
    ensures Sorted(Insert(x, s, le), le)
  {
    if s != [] && !le(x, s[0]) {
      var t := Insert(x, s[1..], le);
      InsertSorted(x, s[1..], le);
      assert le(s[0], x);
      forall k | 0 <= k < |t| ensures le(s[0], t[k]) {
        assert t[k] in multiset(t);
        if t[k] != x {
          var m :| 0 <= m < |s[1..]| && s[1..][m] == t[k];
          assert s[m + 1] == t[k];
        }
      }
      ConsSorted(s[0], t, le);
    } else if s != [] {
      forall k | 0 <= k < |s| ensures le(x, s[k]) {
        assert le(s[0], s[k]) || k == 0;
      }
      ConsSorted(x, s, le);
    }
  }

  /** A head no greater than any element of a sorted tail gives a sorted sequence. */
  lemma ConsSorted<T>(y: T, t: seq<T>, le: (T, T) -> bool)
    requires Sorted(t, le)
    requires forall k :: 0 <= k < |t| ==> le(y, t[k])
    ensures Sorted([y] + t, le)
  {
    var r := [y] + t;
    forall i, j | 0 <= i < j < |r| ensures le(r[i], r[j]) {
      assert r[j] == t[j - 1];
      if i > 0 {
        assert r[i] == t[i - 1];
      }
    }
  }

  lemma {:induction false} SortBySorted<T(!new)>(s: seq<T>, le: (T, T) -> bool)
    requires TotalPreorder(le)
    ensures Sorted(SortBy(s, le), le)
  {
    if s != [] {
      SortBySorted(s[1..], le);
      InsertSorted(s[0], SortBy(s[1..], le), le);
    }
  }

  /** Sorting input that is already in order returns it unchanged. */
  lemma {:induction false} SortByOfSorted<T>(s: seq<T>, le: (T, T) -> bool)
    requires Sorted(s, le)
    ensures SortBy(s, le) == s
  {
    if s != [] {
      SortByOfSorted(s[1..], le);
      if |s| > 1 {
        assert le(s[0], s[1]);
      }
      assert [s[0]] + s[1..] == s;
    }
  }

  /** The elements of `s` that compare equal to `c`, in order. */
  function ClassOf<T>(s: seq<T>, le: (T, T) -> bool, c: T): seq<T>
  {
    if s == [] then []
    else (if le(s[0], c) && le(c, s[0]) then [s[0]] else []) + ClassOf(s[1..], le, c)
  }

  /** One step of `ClassOf`: the head joins the class exactly when it compares equal to `c`. */
  lemma ClassOfCons<T>(y: T, t: seq<T>, le: (T, T) -> bool, c: T)
    ensures ClassOf([y] + t, le, c) == (if le(y, c) && le(c, y) then [y] else []) + ClassOf(t, le, c)
  {
    assert ([y] + t)[1..] == t;
  }

  /** Passing `x` over a head `y` it exceeds does not reorder the class of `c`:
      `x` and `y` cannot both compare equal to `c`. */
  lemma InsertClassStep<T>(x: T, y: T, rest: seq<T>, t: seq<T>, le: (T, T) -> bool, c: T)
    requires !(le(x, c) && le(c, y))
    requires ClassOf(t, le, c) == (if le(x, c) && le(c, x) then [x] else []) + ClassOf(rest, le, c)
    ensures ClassOf([y] + t, le, c)
         == (if le(x, c) && le(c, x) then [x] else []) + ClassOf([y] + rest, le, c)
  {
    ClassOfCons(y, t, le, c);
    ClassOfCons(y, rest, le, c);
  }

  lemma {:induction false} InsertClass<T(!new)>(x: T, s: seq<T>, le: (T, T) -> bool, c: T)
    requires TotalPreorder(le)
    ensures ClassOf(Insert(x, s, le), le, c)
         == (if le(x, c) && le(c, x) then [x] else []) + ClassOf(s, le, c)
  {
    if s == [] || le(x, s[0]) {
      ClassOfCons(x, s, le, c);
    } else {
      InsertClass(x, s[1..], le, c);
      assert s == [s[0]] + s[1..];
      InsertClassStep(x, s[0], s[1..], Insert(x, s[1..], le), le, c);
    }
  }

  /** Stability: within each class of equal-comparing elements the input order survives. */
  lemma {:induction false} SortByStable<T(!new)>(s: seq<T>, le: (T, T) -> bool, c: T)
    requires TotalPreorder(le)
    ensures ClassOf(SortBy(s, le), le, c) == ClassOf(s, le, c)
  {
    if s != [] {
      SortByStable(s[1..], le, c);
      InsertClass(s[0], SortBy(s[1..], le), le, c);
    }
  }

  lemma {:induction false} InsertSum<T>(x: T, s: seq<T>, le: (T, T) -> bool, f: T -> int)
    ensures SumBy(Insert(x, s, le), f) == f(x) + SumBy(s, f)
  {
    if s != [] && !le(x, s[0]) {
      InsertSum(x, s[1..], le, f);
      assert ([s[0]] + Insert(x, s[1..], le))[1..] == Insert(x, s[1..], le);
    }
  }

  /** Sorting does not change the sum of a measure. */
  lemma {:induction false} SortBySum<T>(s: seq<T>, le: (T, T) -> bool, f: T -> int)
    ensures SumBy(SortBy(s, le), f) == SumBy(s, f)
  {
    if s != [] {
      SortBySum(s[1..], le, f);
      InsertSum(s[0], SortBy(s[1..], le), le, f);
    }
  }

  lemma {:induction false} InsertDistinct<T, K>(x: T, s: seq<T>, le: (T, T) -> bool, proj: T -> K)
    requires DistinctBy(s, proj)
    requires forall i :: 0 <= i < |s| ==> proj(s[i]) != proj(x)
    ensures DistinctBy(Insert(x, s, le), proj)
  {
    if s != [] && !le(x, s[0]) {
      var t := Insert(x, s[1..], le);
      InsertDistinct(x, s[1..], le, proj);
      forall k | 0 <= k < |t| ensures proj(t[k]) != proj(s[0]) {
        assert t[k] in multiset(t);
        assert t[k] == x || t[k] in s[1..];
      }
      var r := [s[0]] + t;
      forall i, j | 0 <= i < j < |r| ensures proj(r[i]) != proj(r[j]) {
        assert r[j] == t[j - 1];
        if i > 0 {
          assert r[i] == t[i - 1];
        }
      }
    }
  }

  /** Sorting keeps the projections of distinct-keyed input distinct. */
  lemma {:induction false} SortByDistinct<T, K>(s: seq<T>, le: (T, T) -> bool, proj: T -> K)
    requires DistinctBy(s, proj)
    ensures DistinctBy(SortBy(s, le), proj)
  {
    if s != [] {
      var t := SortBy(s[1..], le);
      SortByDistinct(s[1..], le, proj);
      forall k | 0 <= k < |t| ensures proj(t[k]) != proj(s[0]) {
        assert t[k] in multiset(t);
        assert t[k] in s[1..];
      }
      InsertDistinct(s[0], t, le, proj);
    }
  }

  lemma {:induction false} InsertAgree<T>(x: T, s: seq<T>, le1: (T, T) -> bool, le2: (T, T) -> bool)
    requires forall k :: 0 <= k < |s| ==> le1(x, s[k]) == le2(x, s[k])
    ensures Insert(x, s, le1) == Insert(x, s, le2)
  {
    if s != [] && !le1(x, s[0]) {
      InsertAgree(x, s[1..], le1, le2);
    }
  }

  /** Two comparisons that agree on every pair of elements sort alike. */
  lemma {:induction false} SortByAgree<T>(s: seq<T>, le1: (T, T) -> bool, le2: (T, T) -> bool)
    requires forall i, j :: 0 <= i < |s| && 0 <= j < |s| ==> le1(s[i], s[j]) == le2(s[i], s[j])
    ensures SortBy(s, le1) == SortBy(s, le2)
  {
    if s != [] {
      var t := SortBy(s[1..], le1);
      SortByAgree(s[1..], le1, le2);
      SortByMembers(s[1..], le1);
      forall k | 0 <= k < |t| ensures le1(s[0], t[k]) == le2(s[0], t[k]) {
        var j :| 0 <= j < |s[1..]| && s[1..][j] == t[k];
        assert s[j + 1] == t[k];
      }
      InsertAgree(s[0], t, le1, le2);
    }
  }
}
