/** The list primitives the statistics are built from: Python's `sum`, the dot product
    with the index vector `[0, 1, ..., n-1]`, `sorted` in either direction, reversal and
    gathering by an index list; and the arrangement facts proved about them. */
module Sequences {

  /** Python's `sum` over a list of reals, folded from the left. */
  function Sum(s: seq<real>): real
  {
    if s == [] then 0.0 else Sum(s[..|s| - 1]) + s[|s| - 1]
  }

  /** `sum([I[i] * s[i] for i in range(len(s))])` with `I = list(range(len(s)))`. */
  function IndexDot(s: seq<real>): real
  {
    if s == [] then 0.0 else IndexDot(s[..|s| - 1]) + (|s| - 1) as real * s[|s| - 1]
  }

  function Reverse<T>(s: seq<T>): (r: seq<T>)
    ensures |r| == |s|
  {
    seq(|s|, i requires 0 <= i < |s| => s[|s| - 1 - i])
  }

  /** `[w[i] for i in idx]`. */
  function Gather<T>(w: seq<T>, idx: seq<nat>): (r: seq<T>)
    requires forall p :: 0 <= p < |idx| ==> idx[p] < |w|
  {
    seq(|idx|, p requires 0 <= p < |idx| => w[idx[p]])
  }

  ghost predicate AllEqual(s: seq<real>)
  {
    forall i, j :: 0 <= i < j < |s| ==> s[i] == s[j]
  }

  /** The order `sorted(..., reverse=descending)` puts two neighbours in. */
  predicate InOrder(a: real, b: real, descending: bool)
  {
    if descending then b <= a else a <= b
  }

  ghost predicate Ordered(s: seq<real>, descending: bool)
  {
    forall i, j :: 0 <= i < j < |s| ==> InOrder(s[i], s[j], descending)
  }

  function Insert(x: real, s: seq<real>, descending: bool): (r: seq<real>)
    ensures multiset(r) == multiset(s) + multiset{x}
  {
    if s == [] || InOrder(x, s[0], descending) then [x] + s
    else
      assert s == [s[0]] + s[1..];
      [s[0]] + Insert(x, s[1..], descending)
  }

  /** Python's `sorted(s, reverse=descending)` on plain reals (pandas `sort_values` gives
      the same list): the values of `s`, in non-decreasing or non-increasing order. */
  function SortValues(s: seq<real>, descending: bool): seq<real>
  {
    if s == [] then [] else Insert(s[0], SortValues(s[1..], descending), descending)
  }

  /** `sorted` returns the values of its input, each as often as it occurs, in order. */
  lemma {:induction false} SortValuesSorts(s: seq<real>, descending: bool)
    ensures multiset(SortValues(s, descending)) == multiset(s)
    ensures Ordered(SortValues(s, descending), descending)
  {
    if s != [] {
      SortValuesSorts(s[1..], descending);
      InsertOrdered(s[0], SortValues(s[1..], descending), descending);
      assert s == [s[0]] + s[1..];
    }
  }

  /** `sorted` depends only on the values and how often each occurs. */
  lemma SortValuesOfPermutation(a: seq<real>, b: seq<real>, descending: bool)
    requires multiset(a) == multiset(b)
    ensures SortValues(a, descending) == SortValues(b, descending)
  {
    SortValuesSorts(a, descending);
    SortValuesSorts(b, descending);
    OrderedUnique(SortValues(a, descending), SortValues(b, descending), descending);
  }

  lemma {:induction false} InsertOrdered(x: real, s: seq<real>, descending: bool)
    requires Ordered(s, descending)
    ensures Ordered(Insert(x, s, descending), descending)
  {
    if s != [] && !InOrder(x, s[0], descending) {
      var tail := Insert(x, s[1..], descending);
      InsertOrdered(x, s[1..], descending);
      forall k | 0 <= k < |tail| ensures InOrder(s[0], tail[k], descending) {
        assert tail[k] in multiset(tail);
        if tail[k] != x {
          assert tail[k] in multiset(s[1..]);
          var m :| 0 <= m < |s[1..]| && s[1..][m] == tail[k];
          assert s[m + 1] == tail[k];
        }
      }
    }
  }

  lemma {:induction false} MemberBounds(a: seq<real>, x: real, descending: bool)
    requires Ordered(a, descending) && x in multiset(a)
    ensures InOrder(a[0], x, descending) && InOrder(x, a[|a| - 1], descending)
  {
    var k :| 0 <= k < |a| && a[k] == x;
  }

  /** There is only one ordered arrangement of a multiset of values: any sort yields it. */
  lemma {:induction false} OrderedUnique(a: seq<real>, b: seq<real>, descending: bool)
    requires Ordered(a, descending) && Ordered(b, descending)
    requires multiset(a) == multiset(b)
    ensures a == b
  {
    assert |a| == |multiset(a)| == |multiset(b)| == |b|;
    if a != [] {
      assert a[0] in multiset(b) && b[0] in multiset(a) by {
        assert a[0] in multiset(a) && b[0] in multiset(b);
      }
      MemberBounds(b, a[0], descending);
      MemberBounds(a, b[0], descending);
      assert a[0] == b[0];
      HeadTail(a);
      HeadTail(b);
      OrderedTail(a, descending);
      OrderedTail(b, descending);
      OrderedUnique(a[1..], b[1..], descending);
      assert a == [a[0]] + a[1..] && b == [b[0]] + b[1..];
    }
  }

  lemma HeadTail(a: seq<real>)
    requires a != []
    ensures multiset(a[1..]) == multiset(a) - multiset{a[0]}
  {
    assert a == [a[0]] + a[1..];
    assert multiset(a) == multiset{a[0]} + multiset(a[1..]);
  }

  lemma OrderedTail(a: seq<real>, descending: bool)
    requires a != [] && Ordered(a, descending)
    ensures Ordered(a[1..], descending)
  {
    forall i, j | 0 <= i < j < |a| - 1 ensures InOrder(a[1..][i], a[1..][j], descending) {
      assert a[1..][i] == a[i + 1] && a[1..][j] == a[j + 1];
    }
  }

  lemma {:induction false} ReverseMultiset(s: seq<real>)
    ensures multiset(Reverse(s)) == multiset(s)
  {
    if s != [] {
      var init := s[..|s| - 1];
      assert Reverse(s) == [s[|s| - 1]] + Reverse(init);
      ReverseMultiset(init);
      assert s == init + [s[|s| - 1]];
    }
  }

  /** `sorted(s, reverse=True)` is `sorted(s)` read backwards. */
  lemma SortDescendingIsReverse(s: seq<real>)
    ensures SortValues(s, true) == Reverse(SortValues(s, false))
  {
    var up := SortValues(s, false);
    SortValuesSorts(s, false);
    SortValuesSorts(s, true);
    ReverseMultiset(up);
    assert Ordered(Reverse(up), true) by {
      forall i, j | 0 <= i < j < |up| ensures InOrder(Reverse(up)[i], Reverse(up)[j], true) {
        assert Reverse(up)[i] == up[|up| - 1 - i] && Reverse(up)[j] == up[|up| - 1 - j];
      }
    }
    OrderedUnique(SortValues(s, true), Reverse(up), true);
  }

  lemma {:induction false} SumCons(x: real, m: seq<real>)
    ensures Sum([x] + m) == x + Sum(m)
  {
    if m != [] {
      assert ([x] + m)[..|m|] == [x] + m[..|m| - 1];
      SumCons(x, m[..|m| - 1]);
    }
  }

  lemma {:induction false} SumReverse(s: seq<real>)
    ensures Sum(Reverse(s)) == Sum(s)
  {
    if s != [] {
      var init := s[..|s| - 1];
      assert Reverse(s) == [s[|s| - 1]] + Reverse(init);
      SumCons(s[|s| - 1], Reverse(init));
      SumReverse(init);
    }
  }

  /** Prepending shifts every other position up by one: the dot product grows by the sum. */
  lemma {:induction false} IndexDotCons(x: real, m: seq<real>)
    ensures IndexDot([x] + m) == IndexDot(m) + Sum(m)
  {
    if m != [] {
      var init := m[..|m| - 1];
      assert ([x] + m)[..|m|] == [x] + init;
      IndexDotCons(x, init);
    }
  }

  /** Rearrangement inequality for the index vector: an ascending list dotted with the
      index vector exceeds its own reversal by at least (n - 1) times its spread. */
  lemma {:induction false} RearrangementGap(a: seq<real>)
    requires |a| > 0 && Ordered(a, false)
    ensures IndexDot(a) - IndexDot(Reverse(a)) >= (|a| - 1) as real * (a[|a| - 1] - a[0])
  {
    var n := |a|;
    if n > 1 {
      var m := a[1..n - 1];
      GapPeel(a);
      if m != [] {
        RearrangementGap(m);
        NonNegativeProduct((|m| - 1) as real, m[|m| - 1] - m[0]);
      }
    }
  }

  /** Peeling the first and the last entry off a list of two or more. */
  lemma GapPeel(a: seq<real>)
    requires |a| > 1
    ensures IndexDot(a) - IndexDot(Reverse(a))
         == IndexDot(a[1..|a| - 1]) - IndexDot(Reverse(a[1..|a| - 1]))
            + (|a| - 1) as real * (a[|a| - 1] - a[0])
  {
    var n := |a|;
    var x, z, m := a[0], a[n - 1], a[1..n - 1];
    var w := (n - 1) as real;
    assert a[..n - 1] == [x] + m;
    assert Reverse(a)[..n - 1] == [z] + Reverse(m);
    assert Reverse(a)[n - 1] == x;
    IndexDotCons(x, m);
    IndexDotCons(z, Reverse(m));
    SumReverse(m);
    assert IndexDot(a) == IndexDot(m) + Sum(m) + w * z;
    assert IndexDot(Reverse(a)) == IndexDot(Reverse(m)) + Sum(m) + w * x;
    assert w * z - w * x == w * (z - x);
  }

  /** `u * v`, kept as a term of its own so that facts about a product are stated on it. */
  function Times(u: real, v: real): real
  {
    u * v
  }

  /** One more row in a group adds one more copy of its value. */
  lemma TimesSucc(u: real, c: real)
    ensures Times(u, c + 1.0) == Times(u, c) + u
  {
  }

  lemma NonNegativeProduct(u: real, v: real)
    requires u >= 0.0 && v >= 0.0
    ensures u * v >= 0.0
  {
  }

  lemma ConstantReverse(a: seq<real>)
    requires AllEqual(a)
    ensures Reverse(a) == a
  {
    forall i | 0 <= i < |a| ensures Reverse(a)[i] == a[i] {
      var j := |a| - 1 - i;
      if i < j { assert a[i] == a[j]; } else if j < i { assert a[j] == a[i]; }
    }
  }
}
