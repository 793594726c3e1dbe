/** Ranking of a prediction vector: pandas `rank(method="min")` and the stable argsort
    that `sorted(enumerate(v), key=value)` performs. */
module Ranking {
  import opened Sequences

  /** Number of entries of `v` strictly below `x`. */
  function CountLess(v: seq<real>, x: real): (c: nat)
    ensures c <= |v|
  {
    if v == [] then 0 else CountLess(v[..|v| - 1], x) + (if v[|v| - 1] < x then 1 else 0)
  }

  /** `rank(method="min")`: tied entries share the lowest rank of their group, so an entry's
      rank is one more than the number of entries strictly below it. */
  function MinRanks(v: seq<real>): (r: seq<nat>)
    ensures |r| == |v|
  {
    seq(|v|, j requires 0 <= j < |v| => 1 + CountLess(v, v[j]))
  }

  lemma {:induction false} CountLessIsCardinality(v: seq<real>, x: real)
    ensures CountLess(v, x) == |set k | 0 <= k < |v| && v[k] < x|
  {
    if v != [] {
      var n := |v|;
      var init := v[..n - 1];
      CountLessIsCardinality(init, x);
      var below := set k | 0 <= k < n - 1 && init[k] < x;
      var below' := set k | 0 <= k < n - 1 && v[k] < x;
      var all := set k | 0 <= k < n && v[k] < x;
      assert below == below' by {
        assert forall k :: 0 <= k < n - 1 ==> init[k] == v[k];
      }
      if v[n - 1] < x {
        assert all == below' + {n - 1};
        assert n - 1 !in below';
      } else {
        assert all == below';
      }
    }
  }

  lemma {:induction false} CountLessMonotone(v: seq<real>, x: real, y: real)
    requires x <= y
    ensures CountLess(v, x) <= CountLess(v, y)
  {
    if v != [] {
      CountLessMonotone(v[..|v| - 1], x, y);
    }
  }

  /** An entry in [x, y) separates the two counts. */
  lemma {:induction false} CountLessStrict(v: seq<real>, x: real, y: real, k: nat)
    requires k < |v| && x <= v[k] < y
    ensures CountLess(v, x) < CountLess(v, y)
  {
    var init := v[..|v| - 1];
    if k == |v| - 1 {
      CountLessMonotone(init, x, y);
    } else {
      CountLessStrict(init, x, y, k);
    }
  }

  /** Min-rank, in terms of rows: 1 + the number of strictly smaller rows, within 1..n;
      equal values share a rank and the ranks order the rows as the values do. */
  lemma MinRankProperties(v: seq<real>, i: nat, j: nat)
    requires i < |v| && j < |v|
    ensures MinRanks(v)[j] == 1 + |set k | 0 <= k < |v| && v[k] < v[j]|
    ensures 1 <= MinRanks(v)[j] <= |v|
    ensures MinRanks(v)[i] == MinRanks(v)[j] <==> v[i] == v[j]
    ensures MinRanks(v)[i] < MinRanks(v)[j] <==> v[i] < v[j]
  {
    CountLessIsCardinality(v, v[j]);
    CountLessStrict(v, v[j], v[j] + 1.0, j);
    if v[i] < v[j] {
      CountLessStrict(v, v[i], v[j], i);
    } else if v[j] < v[i] {
      CountLessStrict(v, v[j], v[i], j);
    }
  }

  ghost predicate IndicesBelow(idx: seq<nat>, n: nat)
  {
    forall p :: 0 <= p < |idx| ==> idx[p] < n
  }

  /** `idx` lists rows in non-decreasing order of `v`, and rows with equal values in
      increasing row order. */
  ghost predicate SortsStably(v: seq<real>, idx: seq<nat>)
  {
    && IndicesBelow(idx, |v|)
    && (forall p, q :: 0 <= p < q < |idx| ==> Key(v, idx[p]) <= Key(v, idx[q]))
    && (forall p, q :: 0 <= p < q < |idx| && Key(v, idx[p]) == Key(v, idx[q]) ==> idx[p] < idx[q])
  }

  /** The sort key of row `j`: its value (rows outside `v` never occur). */
  function Key(v: seq<real>, j: nat): real
  {
    if j < |v| then v[j] else 0.0
  }

  /** Places row `i` after every listed row whose value is at most that of `i`: one step
      of the insertion sort that stands for Python's stable `sorted`. */
  function InsertByKey(v: seq<real>, i: nat, s: seq<nat>): seq<nat>
  {
    if s == [] || Key(v, i) < Key(v, s[0]) then [i] + s
    else [s[0]] + InsertByKey(v, i, s[1..])
  }

  /** Stable argsort of the first `m` rows. */
  function ArgSortPrefix(v: seq<real>, m: nat): seq<nat>
  {
    if m == 0 then [] else InsertByKey(v, m - 1, ArgSortPrefix(v, m - 1))
  }

  /** `[x[0] for x in sorted(enumerate(v), key=lambda item: item[1])]`. */
  function StableArgSort(v: seq<real>): (r: seq<nat>)
    ensures IndicesBelow(r, |v|)
  {
    ArgSortPrefixBelow(v, |v|);
    ArgSortPrefix(v, |v|)
  }

  /** Each step of the sort adds one row. */
  lemma {:induction false} InsertByKeyElements(v: seq<real>, i: nat, s: seq<nat>)
    ensures multiset(InsertByKey(v, i, s)) == multiset(s) + multiset{i}
  {
    if s != [] && !(Key(v, i) < Key(v, s[0])) {
      InsertByKeyElements(v, i, s[1..]);
      assert s == [s[0]] + s[1..];
    }
  }

  /** The first `m` rows are listed, each exactly once. */
  lemma {:induction false} ArgSortPrefixElements(v: seq<real>, m: nat)
    ensures multiset(ArgSortPrefix(v, m)) == multiset(Range(m))
  {
    if m > 0 {
      ArgSortPrefixElements(v, m - 1);
      InsertByKeyElements(v, m - 1, ArgSortPrefix(v, m - 1));
      RangeSnoc(m);
    }
  }

  lemma ArgSortPrefixBelow(v: seq<real>, m: nat)
    ensures IndicesBelow(ArgSortPrefix(v, m), m)
  {
    var s := ArgSortPrefix(v, m);
    ArgSortPrefixElements(v, m);
    forall p | 0 <= p < |s| ensures s[p] < m {
      assert s[p] in multiset(Range(m));
    }
  }

  /** Inserting a row later than every listed one into a stably sorted list keeps it so. */
  lemma {:induction false} InsertByKeySorts(v: seq<real>, i: nat, s: seq<nat>)
    requires i < |v| && SortsStably(v, s)
    requires forall p :: 0 <= p < |s| ==> s[p] < i
    ensures SortsStably(v, InsertByKey(v, i, s))
  {
    if s == [] || Key(v, i) < Key(v, s[0]) {
      forall q | 0 <= q < |s| ensures Key(v, i) < Key(v, s[q]) {
        if q > 0 {
          assert Key(v, s[0]) <= Key(v, s[q]);
        }
      }
      ConsSorts(v, i, s);
    } else {
      TailSorts(v, s);
      InsertByKeySorts(v, i, s[1..]);
      HeadPrecedes(v, i, s);
      ConsSorts(v, s[0], InsertByKey(v, i, s[1..]));
    }
  }

  lemma TailSorts(v: seq<real>, s: seq<nat>)
    requires s != [] && SortsStably(v, s)
    ensures SortsStably(v, s[1..])
  {
    forall p | 0 <= p < |s| - 1 ensures s[1..][p] == s[p + 1] { }
  }

  /** The head of the list stays ahead of everything inserted behind it. */
  lemma HeadPrecedes(v: seq<real>, i: nat, s: seq<nat>)
    requires s != [] && SortsStably(v, s) && !(Key(v, i) < Key(v, s[0]))
    requires forall p :: 0 <= p < |s| ==> s[p] < i
    ensures forall q :: 0 <= q < |InsertByKey(v, i, s[1..])| ==>
      var t := InsertByKey(v, i, s[1..]);
      Key(v, s[0]) <= Key(v, t[q]) && (Key(v, s[0]) == Key(v, t[q]) ==> s[0] < t[q])
  {
    var tail := s[1..];
    var t := InsertByKey(v, i, tail);
    InsertByKeyElements(v, i, tail);
    forall q | 0 <= q < |t|
      ensures Key(v, s[0]) <= Key(v, t[q]) && (Key(v, s[0]) == Key(v, t[q]) ==> s[0] < t[q])
    {
      assert t[q] in multiset(t);
      if t[q] != i {
        assert t[q] in multiset(tail);
        var m :| 0 <= m < |tail| && tail[m] == t[q];
        assert s[m + 1] == t[q];
      }
    }
  }

  /** A row that belongs before every row of a stably sorted list can head it. */
  lemma ConsSorts(v: seq<real>, x: nat, t: seq<nat>)
    requires x < |v| && SortsStably(v, t)
    requires forall q :: 0 <= q < |t| ==> Key(v, x) <= Key(v, t[q]) && (Key(v, x) == Key(v, t[q]) ==> x < t[q])
    ensures SortsStably(v, [x] + t)
  {
    var r := [x] + t;
    forall p, q | 0 <= p < q < |r|
      ensures Key(v, r[p]) <= Key(v, r[q]) && (Key(v, r[p]) == Key(v, r[q]) ==> r[p] < r[q])
    {
      if p == 0 {
        assert r[q] == t[q - 1];
      } else {
        assert r[p] == t[p - 1] && r[q] == t[q - 1];
      }
    }
  }

  lemma ArgSortPrefixUnfold(v: seq<real>, m: nat, s: seq<nat>)
    requires 0 < m && s == ArgSortPrefix(v, m - 1)
    ensures ArgSortPrefix(v, m) == InsertByKey(v, m - 1, s)
  {
  }

  lemma RangeSnoc(m: nat)
    requires 0 < m
    ensures multiset(Range(m)) == multiset(Range(m - 1)) + multiset{(m - 1) as nat}
  {
    assert Range(m) == Range(m - 1) + [m - 1];
  }

  lemma {:induction false} ArgSortPrefixSorted(v: seq<real>, m: nat)
    requires m <= |v|
    ensures SortsStably(v, ArgSortPrefix(v, m))
  {
    if m > 0 {
      var s := ArgSortPrefix(v, m - 1);
      ArgSortPrefixSorted(v, m - 1);
      ArgSortPrefixBelow(v, m - 1);
      InsertByKeySorts(v, m - 1, s);
    }
  }

  /** `list(range(m))`. */
  function Range(m: nat): (r: seq<nat>)
    ensures |r| == m && forall p :: 0 <= p < m ==> r[p] == p
  {
    seq(m, p => p)
  }

  /** The argsort is a permutation of the rows (each listed once) that sorts them stably. */
  lemma StableArgSortProperties(v: seq<real>)
    ensures SortsStably(v, StableArgSort(v))
    ensures |StableArgSort(v)| == |v|
    ensures forall j :: 0 <= j < |v| ==> j in StableArgSort(v)
    ensures forall p, q :: 0 <= p < q < |v| ==> StableArgSort(v)[p] != StableArgSort(v)[q]
  {
    var r := StableArgSort(v);
    ArgSortPrefixSorted(v, |v|);
    ArgSortPrefixElements(v, |v|);
    assert |r| == |multiset(r)| == |multiset(Range(|v|))| == |v|;
    forall j | 0 <= j < |v| ensures j in r {
      assert Range(|v|)[j] == j;
      assert j in multiset(Range(|v|));
    }
  }

  lemma {:induction false} GatherInsert(w: seq<real>, v: seq<real>, i: nat, s: seq<nat>)
    requires i < |w| && IndicesBelow(s, |w|) && IndicesBelow(InsertByKey(v, i, s), |w|)
    ensures multiset(Gather(w, InsertByKey(v, i, s))) == multiset(Gather(w, s)) + multiset{w[i]}
  {
    if s == [] || Key(v, i) < Key(v, s[0]) {
      GatherCons(w, i, s);
    } else {
      var x, tail := s[0], s[1..];
      var t := InsertByKey(v, i, tail);
      assert s == [x] + tail;
      InsertByKeyBelow(v, i, tail, |w|);
      GatherInsert(w, v, i, tail);
      GatherCons(w, x, t);
      GatherCons(w, x, tail);
    }
  }

  /** Gathering along `[x] + s` adds `w[x]` to what gathering along `s` collects. */
  lemma GatherCons(w: seq<real>, x: nat, s: seq<nat>)
    requires x < |w| && IndicesBelow(s, |w|)
    ensures IndicesBelow([x] + s, |w|)
    ensures multiset(Gather(w, [x] + s)) == multiset(Gather(w, s)) + multiset{w[x]}
  {
    assert Gather(w, [x] + s) == [w[x]] + Gather(w, s);
  }

  /** Inserting a row below `n` into a list of rows below `n`. */
  lemma InsertByKeyBelow(v: seq<real>, i: nat, s: seq<nat>, n: nat)
    requires i < n && IndicesBelow(s, n)
    ensures IndicesBelow(InsertByKey(v, i, s), n)
  {
    var r := InsertByKey(v, i, s);
    InsertByKeyElements(v, i, s);
    forall p | 0 <= p < |r| ensures r[p] < n {
      assert r[p] in multiset(r);
      if r[p] != i {
        assert r[p] in multiset(s);
      }
    }
  }

  lemma {:induction false} GatherArgSortPrefix(w: seq<real>, v: seq<real>, m: nat)
    requires m <= |w|
    ensures IndicesBelow(ArgSortPrefix(v, m), |w|)
    ensures multiset(Gather(w, ArgSortPrefix(v, m))) == multiset(w[..m])
  {
    if m > 0 {
      var s := ArgSortPrefix(v, m - 1);
      GatherArgSortPrefix(w, v, m - 1);
      InsertByKeyBelow(v, m - 1, s, |w|);
      GatherInsert(w, v, m - 1, s);
      PrefixMultiset(w, m);
    }
  }

  lemma PrefixMultiset<T>(w: seq<T>, m: nat)
    requires 0 < m <= |w|
    ensures multiset(w[..m]) == multiset(w[..m - 1]) + multiset{w[m - 1]}
  {
    assert w[..m] == w[..m - 1] + [w[m - 1]];
  }

  /** Gathering any aligned vector along the argsort only rearranges its values. */
  lemma GatherArgSortPermutes(w: seq<real>, v: seq<real>)
    requires |w| == |v|
    ensures multiset(Gather(w, StableArgSort(v))) == multiset(w)
  {
    GatherArgSortPrefix(w, v, |v|);
    assert w[..|v|] == w;
  }
}
