/** The support table of `_rga`/`_num`: `groupby(rank)[ref].mean()`, and the per-row lookup
    that fills `rord`. Keys are the ranks; any equality type works for the counting helpers. */
module Support {
  import opened Sequences

  /** Number of rows whose key is `k`. */
  function CountWhere<K(==)>(keys: seq<K>, k: K): (c: nat)
    ensures c <= |keys|
  {
    if keys == [] then 0
    else CountWhere(keys[..|keys| - 1], k) + (if keys[|keys| - 1] == k then 1 else 0)
  }

  /** Sum of `y` over the rows whose key is `k`. */
  function SumWhere<K(==)>(y: seq<real>, keys: seq<K>, k: K): real
    requires |y| == |keys|
  {
    if keys == [] then 0.0
    else SumWhere(y[..|y| - 1], keys[..|keys| - 1], k) + (if keys[|keys| - 1] == k then y[|y| - 1] else 0.0)
  }

  /** The mean of `y` over the rows keyed `k`; the group is never empty since `k` occurs. */
  function GroupMean<K(==)>(y: seq<real>, keys: seq<K>, k: K): (m: real)
    requires |y| == |keys| && k in keys
    ensures Times(m, CountWhere(keys, k) as real) == SumWhere(y, keys, k)
  {
    CountPositive(keys, k);
    var c := CountWhere(keys, k) as real;
    DivTimes(SumWhere(y, keys, k), c);
    SumWhere(y, keys, k) / c
  }

  /** `df.groupby(key)[y].mean()`: one entry per distinct key, holding the mean of `y` over
      the rows with that key. */
  function SupportTable(y: seq<real>, keys: seq<nat>): (t: map<nat, real>)
    requires |y| == |keys|
    ensures forall k :: k in t <==> k in keys
    ensures forall k :: k in t ==> t[k] == GroupMean(y, keys, k)
  {
    map k | k in keys :: GroupMean(y, keys, k)
  }

  lemma {:induction false} CountPositive<K>(keys: seq<K>, k: K)
    requires k in keys
    ensures CountWhere(keys, k) > 0
  {
    var n := |keys|;
    if keys[n - 1] != k {
      assert k in keys[..n - 1];
      CountPositive(keys[..n - 1], k);
    }
  }

  lemma DivTimes(a: real, c: real)
    requires c != 0.0
    ensures Times(a / c, c) == a
  {
  }

  /** `[t[keys[j]] for j in range(len(keys))]`: every row looks up its own key. */
  function Lookup(t: map<nat, real>, keys: seq<nat>): (r: seq<real>)
    requires forall j :: 0 <= j < |keys| ==> keys[j] in t
  {
    seq(|keys|, j requires 0 <= j < |keys| => t[keys[j]])
  }

  lemma SumWhereSnoc<K>(a: seq<real>, b: seq<K>, e: real, f: K, k: K)
    requires |a| == |b|
    ensures SumWhere(a + [e], b + [f], k) == SumWhere(a, b, k) + (if f == k then e else 0.0)
    ensures CountWhere(b + [f], k) == CountWhere(b, k) + (if f == k then 1 else 0)
  {
    assert (a + [e])[..|a|] == a;
    assert (b + [f])[..|b|] == b;
  }

  lemma SumSnoc(a: seq<real>, e: real)
    ensures Sum(a + [e]) == Sum(a) + e
  {
    assert (a + [e])[..|a|] == a;
  }

  /** The rows whose key differs from `x`, in their original order. */
  function Without<T, K(==)>(s: seq<T>, keys: seq<K>, x: K): (r: seq<T>)
    requires |s| == |keys|
    ensures |r| == |s| - CountWhere(keys, x)
  {
    if keys == [] then []
    else Without(s[..|s| - 1], keys[..|keys| - 1], x) + (if keys[|keys| - 1] == x then [] else [s[|s| - 1]])
  }

  lemma {:induction false} WithoutKeysExcludes<K>(keys: seq<K>, x: K)
    ensures x !in Without(keys, keys, x)
    ensures forall k :: k in Without(keys, keys, x) ==> k in keys
  {
    if keys != [] {
      WithoutKeysExcludes(keys[..|keys| - 1], x);
    }
  }

  /** Splitting a sum into the rows keyed `x` and the rest. */
  lemma {:induction false} SumSplit<K>(s: seq<real>, keys: seq<K>, x: K)
    requires |s| == |keys|
    ensures Sum(s) == SumWhere(s, keys, x) + Sum(Without(s, keys, x))
  {
    if keys != [] {
      var n := |keys|;
      var w := Without(s[..n - 1], keys[..n - 1], x);
      SumSplit(s[..n - 1], keys[..n - 1], x);
      assert Sum(s) == Sum(s[..n - 1]) + s[n - 1];
      if keys[n - 1] != x {
        assert Without(s, keys, x) == w + [s[n - 1]];
        SumSnoc(w, s[n - 1]);
      } else {
        assert Without(s, keys, x) == w;
      }
    }
  }

  /** Dropping the rows keyed `x` leaves the groups of every other key as they were. */
  lemma {:induction false} WithoutKeepsOtherGroups(y: seq<real>, keys: seq<nat>, x: nat, k: nat)
    requires |y| == |keys| && k != x
    ensures SumWhere(Without(y, keys, x), Without(keys, keys, x), k) == SumWhere(y, keys, k)
    ensures CountWhere(Without(keys, keys, x), k) == CountWhere(keys, k)
  {
    if keys != [] {
      var n := |keys|;
      var y0, k0 := y[..n - 1], keys[..n - 1];
      WithoutKeepsOtherGroups(y0, k0, x, k);
      WithoutStep(y, keys, x, k);
    }
  }

  lemma WithoutStep(y: seq<real>, keys: seq<nat>, x: nat, k: nat)
    requires |y| == |keys| > 0 && k != x
    ensures SumWhere(Without(y, keys, x), Without(keys, keys, x), k)
         == SumWhere(Without(y[..|y| - 1], keys[..|keys| - 1], x), Without(keys[..|keys| - 1], keys[..|keys| - 1], x), k)
            + (if keys[|keys| - 1] == k then y[|y| - 1] else 0.0)
    ensures CountWhere(Without(keys, keys, x), k)
         == CountWhere(Without(keys[..|keys| - 1], keys[..|keys| - 1], x), k) + (if keys[|keys| - 1] == k then 1 else 0)
  {
    var n := |keys|;
    var wy, wk := Without(y[..n - 1], keys[..n - 1], x), Without(keys[..n - 1], keys[..n - 1], x);
    var e, f := y[n - 1], keys[n - 1];
    var a, b := Without(y, keys, x), Without(keys, keys, x);
    WithoutUnfold(y, keys, x);
    WithoutUnfold(keys, keys, x);
    if f != x {
      assert a == wy + [e];
      assert b == wk + [f];
      SumWhereSnoc(wy, wk, e, f, k);
    } else {
      assert a == wy;
      assert b == wk;
    }
  }

  lemma WithoutUnfold<T, K>(s: seq<T>, keys: seq<K>, x: K)
    requires |s| == |keys| > 0
    ensures Without(s, keys, x)
         == Without(s[..|s| - 1], keys[..|keys| - 1], x) + (if keys[|keys| - 1] == x then [] else [s[|s| - 1]])
  {
  }

  lemma {:induction false} WithoutLookup(t: map<nat, real>, keys: seq<nat>, x: nat)
    requires forall j :: 0 <= j < |keys| ==> keys[j] in t
    ensures forall j :: 0 <= j < |Without(keys, keys, x)| ==> Without(keys, keys, x)[j] in t
    ensures Without(Lookup(t, keys), keys, x) == Lookup(t, Without(keys, keys, x))
  {
    WithoutKeysExcludes(keys, x);
    if keys != [] {
      var n := |keys|;
      WithoutLookup(t, keys[..n - 1], x);
      assert Lookup(t, keys)[..n - 1] == Lookup(t, keys[..n - 1]);
      if keys[n - 1] != x {
        var wk := Without(keys[..n - 1], keys[..n - 1], x);
        assert Lookup(t, wk + [keys[n - 1]]) == Lookup(t, wk) + [t[keys[n - 1]]];
      }
    }
  }

  /** The rows keyed `x` all look up the same entry. */
  lemma {:induction false} SumWhereLookup(t: map<nat, real>, keys: seq<nat>, x: nat)
    requires forall j :: 0 <= j < |keys| ==> keys[j] in t
    requires x in t
    ensures SumWhere(Lookup(t, keys), keys, x) == Times(t[x], CountWhere(keys, x) as real)
  {
    if keys != [] {
      var n := |keys|;
      SumWhereLookup(t, keys[..n - 1], x);
      assert Lookup(t, keys)[..n - 1] == Lookup(t, keys[..n - 1]);
      TimesSucc(t[x], CountWhere(keys[..n - 1], x) as real);
    }
  }

  /** A table holding each key's group mean spreads the total of `y` over the rows unchanged. */
  lemma {:induction false} LookupKeepsSum(t: map<nat, real>, y: seq<real>, keys: seq<nat>)
    requires |y| == |keys|
    requires forall k :: k in keys ==> k in t && t[k] == GroupMean(y, keys, k)
    ensures Sum(Lookup(t, keys)) == Sum(y)
    decreases |keys|
  {
    if keys != [] {
      var x := keys[0];
      var rord := Lookup(t, keys);
      var y', keys' := Without(y, keys, x), Without(keys, keys, x);
      assert Sum(rord) == SumWhere(y, keys, x) + Sum(Lookup(t, keys')) by {
        SumSplit(rord, keys, x);
        GroupTotal(t, y, keys, x);
        WithoutLookup(t, keys, x);
      }
      WithoutKeepsTable(t, y, keys, x);
      CountPositive(keys, x);
      LookupKeepsSum(t, y', keys');
      SumSplit(y, keys, x);
    }
  }

  /** The table still holds the group means once the rows keyed `x` are dropped. */
  lemma WithoutKeepsTable(t: map<nat, real>, y: seq<real>, keys: seq<nat>, x: nat)
    requires |y| == |keys|
    requires forall k :: k in keys ==> k in t && t[k] == GroupMean(y, keys, k)
    ensures forall k :: k in Without(keys, keys, x) ==>
      k in t && t[k] == GroupMean(Without(y, keys, x), Without(keys, keys, x), k)
  {
    WithoutKeysExcludes(keys, x);
    forall k | k in Without(keys, keys, x)
      ensures k in t && t[k] == GroupMean(Without(y, keys, x), Without(keys, keys, x), k)
    {
      WithoutKeepsOtherGroups(y, keys, x, k);
    }
  }

  /** The rows of one group look up their mean, so together they keep the group's total. */
  lemma GroupTotal(t: map<nat, real>, y: seq<real>, keys: seq<nat>, x: nat)
    requires |y| == |keys| && x in keys
    requires forall k :: k in keys ==> k in t && t[k] == GroupMean(y, keys, k)
    ensures SumWhere(Lookup(t, keys), keys, x) == SumWhere(y, keys, x)
  {
    SumWhereLookup(t, keys, x);
  }

  /** Replacing every row by the mean of its group keeps the total: sum(rord) == sum(y). */
  lemma SupportKeepsSum(y: seq<real>, keys: seq<nat>)
    requires |y| == |keys|
    ensures Sum(Lookup(SupportTable(y, keys), keys)) == Sum(y)
  {
    LookupKeepsSum(SupportTable(y, keys), y, keys);
  }

  /** Grouping by two key columns that tie on the same rows gives the same groups. */
  lemma {:induction false} SameGroups<K, L>(y: seq<real>, a: seq<K>, x: K, b: seq<L>, z: L)
    requires |y| == |a| == |b|
    requires forall j :: 0 <= j < |a| ==> (a[j] == x <==> b[j] == z)
    ensures SumWhere(y, a, x) == SumWhere(y, b, z)
    ensures CountWhere(a, x) == CountWhere(b, z)
  {
    if a != [] {
      SameGroups(y[..|y| - 1], a[..|a| - 1], x, b[..|b| - 1], z);
    }
  }

  /** A group whose `y` values all equal `c` sums to its size times `c`. */
  lemma {:induction false} SumWhereConstant<K>(y: seq<real>, keys: seq<K>, x: K, c: real)
    requires |y| == |keys|
    requires forall j :: 0 <= j < |keys| && keys[j] == x ==> y[j] == c
    ensures SumWhere(y, keys, x) == Times(c, CountWhere(keys, x) as real)
  {
    if keys != [] {
      SumWhereConstant(y[..|y| - 1], keys[..|keys| - 1], x, c);
      TimesSucc(c, CountWhere(keys[..|keys| - 1], x) as real);
    }
  }

  /** Overwriting row `p` changes the sum of its group by the difference and no other sum. */
  lemma {:induction false} SumWhereUpdate(y: seq<real>, keys: seq<nat>, p: nat, e: real, k: nat)
    requires |y| == |keys| && p < |y|
    ensures SumWhere(y[p := e], keys, k) == SumWhere(y, keys, k) + (if keys[p] == k then e - y[p] else 0.0)
  {
    var n := |y|;
    if p == n - 1 {
      assert y[p := e][..n - 1] == y[..n - 1];
    } else {
      assert y[p := e][..n - 1] == y[..n - 1][p := e];
      SumWhereUpdate(y[..n - 1], keys[..n - 1], p, e, k);
    }
  }

  /** Exchanging the values of two rows with the same key leaves every group sum unchanged. */
  lemma SumWhereSwap(y: seq<real>, keys: seq<nat>, i: nat, j: nat, k: nat)
    requires |y| == |keys| && i < |y| && j < |y| && keys[i] == keys[j]
    ensures SumWhere(y[i := y[j]][j := y[i]], keys, k) == SumWhere(y, keys, k)
  {
    SumWhereUpdate(y, keys, i, y[j], k);
    SumWhereUpdate(y[i := y[j]], keys, j, y[i], k);
  }

  /** ... and so leaves the table of group means unchanged. */
  lemma SupportTableSwap(y: seq<real>, keys: seq<nat>, i: nat, j: nat)
    requires |y| == |keys| && i < |y| && j < |y| && keys[i] == keys[j]
    ensures SupportTable(y[i := y[j]][j := y[i]], keys) == SupportTable(y, keys)
  {
    var y' := y[i := y[j]][j := y[i]];
    forall k | k in keys ensures GroupMean(y', keys, k) == GroupMean(y, keys, k) {
      SumWhereSwap(y, keys, i, j, k);
    }
  }
}
