/** The concordance statistics of `utils/util.py`: `_rga`, `_num`, `_den`, `_delta_function`
    and `_test_delta_function`, the first two also as the step-by-step procedures that fill
    the `rord` list in place. */
module Util {
  import opened Results
  import opened Sequences
  import opened Ranking
  import opened Support

  // ---------------------------------------------------------------- the RGA pipeline

  /** `rord`: every row receives the support-table entry of its min-rank in `target`. */
  function SupportValues(ref: seq<real>, target: seq<real>): (r: seq<real>)
    requires |ref| == |target|
    ensures |r| == |ref|
  {
    var ranks := MinRanks(target);
    Lookup(SupportTable(ref, ranks), ranks)
  }

  /** `ystar = [rord[i] for i in ranks]`, `ranks` being the stable argsort of `target`. */
  function YStar(ref: seq<real>, target: seq<real>): (r: seq<real>)
    requires |ref| == |target|
  {
    Gather(SupportValues(ref, target), StableArgSort(target))
  }

  /** `conc = sum([I[i]*ystar[i] ...])`. */
  function Conc(ref: seq<real>, target: seq<real>): real
    requires |ref| == |target|
  {
    IndexDot(YStar(ref, target))
  }

  /** `dec`: the reference sorted descending, dotted with the index vector. */
  function Dec(y: seq<real>): real
  {
    IndexDot(SortValues(y, true))
  }

  /** `inc`: the reference sorted ascending, dotted with the index vector. */
  function Inc(y: seq<real>): real
  {
    IndexDot(SortValues(y, false))
  }

  /** `_rga(y, yhat) = (conc - dec) / (inc - dec)`. */
  function Rga(y: seq<real>, yhat: seq<real>): (r: Result<real>)
    ensures r == Err(ShapeMismatch) <==> |y| != |yhat|
    ensures r == Err(DivisionUndefined) <==> |y| == |yhat| && AllEqual(y)
  {
    DecAtMostInc(y);
    if |y| != |yhat| then Err(ShapeMismatch)
    else if Inc(y) == Dec(y) then Err(DivisionUndefined)
    else Ok((Conc(y, yhat) - Dec(y)) / (Inc(y) - Dec(y)))
  }

  /** `_num(yhat, yhat_xk) = 2*conc - 2*dec`, with `yhat` as the reference. */
  function Num(yhat: seq<real>, yhatXk: seq<real>): (r: Result<real>)
    ensures r.Ok? <==> |yhat| == |yhatXk|
  {
    if |yhat| != |yhatXk| then Err(ShapeMismatch)
    else Ok(2.0 * Conc(yhat, yhatXk) - 2.0 * Dec(yhat))
  }

  /** `_den(yhat) = 2*inc - 2*dec` of one vector: never negative, and zero exactly when the
      vector is constant. */
  function Den(yhat: seq<real>): (r: real)
    ensures r >= 0.0
    ensures r == 0.0 <==> AllEqual(yhat)
  {
    DecAtMostInc(yhat);
    2.0 * Inc(yhat) - 2.0 * Dec(yhat)
  }

  /** `_test_delta_function(yhat, yhat_rm) = _den(yhat) - _num(yhat, yhat_rm)`. */
  function TestDelta(yhat: seq<real>, yhatRm: seq<real>): (r: Result<real>)
    ensures r.Ok? <==> |yhat| == |yhatRm|
  {
    match Num(yhat, yhatRm)
    case Err(e) => Err(e)
    case Ok(num) => Ok(Den(yhat) - num)
  }

  // ---------------------------------------------------------------- the delta function

  /** One row of the jackknife table: model 1, model 2, model 1 perturbed, model 2 perturbed. */
  datatype Row = Row(mod1: real, mod2: real, pert1: real, pert2: real)
  {
    /** `iloc[:, k]` of one row. */
    function At(k: nat): real
      requires k < 4
    {
      if k == 0 then mod1 else if k == 1 then mod2 else if k == 2 then pert1 else pert2
    }
  }

  /** `data.iloc[:, k]`. */
  function Column(data: seq<Row>, k: nat): (c: seq<real>)
    requires k < 4
    ensures |c| == |data|
  {
    seq(|data|, i requires 0 <= i < |data| => data[i].At(k))
  }

  /** `_delta_function(data, f) = f(col0, col2) - f(col0, col1)`; the left call is made
      first, so its error is the one reported. */
  function DeltaFunction(data: seq<Row>, f: (seq<real>, seq<real>) -> Result<real>): (r: Result<real>)
    ensures r.Ok? <==> f(Column(data, 0), Column(data, 2)).Ok? && f(Column(data, 0), Column(data, 1)).Ok?
  {
    Difference(f(Column(data, 0), Column(data, 2)), f(Column(data, 0), Column(data, 1)))
  }

  /** `a - b` on two results that are evaluated left to right: the first error wins. */
  function Difference(a: Result<real>, b: Result<real>): (r: Result<real>)
    ensures r.Ok? <==> a.Ok? && b.Ok?
    ensures r.Ok? ==> r.value + b.value == a.value
    ensures a.Err? ==> r == a
    ensures a.Ok? && b.Err? ==> r == b
  {
    if a.Err? then a
    else if b.Err? then b
    else Ok(a.value - b.value)
  }

  // ---------------------------------------------------------------- the in-place procedures

  /** The `rord` loop of `_rga` and `_num`: start from `list(range(n))` and overwrite every
      row with the support of its rank. */
  method ComputeSupport(ref: seq<real>, target: seq<real>) returns (rord: seq<real>)
    requires |ref| == |target|
    ensures rord == SupportValues(ref, target)
  {
    var ranks := MinRanks(target);
    rord := FillRows(SupportTable(ref, ranks), ranks);
  }

  /** The loop itself: row `jj` of `list(range(n))` is overwritten with the table entry of
      its key. */
  method FillRows(support: map<nat, real>, ranks: seq<nat>) returns (rord: seq<real>)
    requires forall k :: 0 <= k < |ranks| ==> ranks[k] in support
    ensures rord == Lookup(support, ranks)
  {
    var a := new real[|ranks|](i => i as real);
    for jj := 0 to a.Length
      invariant forall k :: 0 <= k < jj ==> a[k] == support[ranks[k]]
    {
      a[jj] := support[ranks[jj]];
    }
    rord := a[..];
  }

  /** The part `_rga` and `_num` share: `rord`, then `ystar`, then the dot product `conc`. */
  method ComputeConc(ref: seq<real>, target: seq<real>) returns (conc: real)
    requires |ref| == |target|
    ensures conc == Conc(ref, target)
  {
    var rord := ComputeSupport(ref, target);
    var ystar := Gather(rord, StableArgSort(target));
    conc := IndexDot(ystar);
  }

  /** `_rga` step by step. */
  method ComputeRga(y: seq<real>, yhat: seq<real>) returns (r: Result<real>)
    ensures r == Rga(y, yhat)
  {
    if |y| != |yhat| {
      return Err(ShapeMismatch);
    }
    var conc := ComputeConc(y, yhat);
    var dec := IndexDot(SortValues(y, true));
    var inc := IndexDot(SortValues(y, false));
    if inc == dec {
      return Err(DivisionUndefined);
    }
    r := Ok((conc - dec) / (inc - dec));
  }

  /** `_delta_function(data, _rga)` step by step, the perturbed pairing first. */
  method ComputeDelta(data: seq<Row>) returns (r: Result<real>)
    ensures r == DeltaFunction(data, Rga)
  {
    var perturbed := ComputeRga(Column(data, 0), Column(data, 2));
    var baseline := ComputeRga(Column(data, 0), Column(data, 1));
    r := Difference(perturbed, baseline);
  }

  /** `_num` step by step. */
  method ComputeNum(yhat: seq<real>, yhatXk: seq<real>) returns (r: Result<real>)
    ensures r == Num(yhat, yhatXk)
  {
    if |yhat| != |yhatXk| {
      return Err(ShapeMismatch);
    }
    var conc := ComputeConc(yhat, yhatXk);
    var dec := IndexDot(SortValues(yhat, true));
    r := Ok(2.0 * conc - 2.0 * dec);
  }

  // ---------------------------------------------------------------- support

  /** Each row's support is the mean of the reference over the rows tied with it in
      `target` (min-ranks tie exactly when the values do). */
  lemma SupportIsTieMean(ref: seq<real>, target: seq<real>, j: nat)
    requires |ref| == |target| && j < |target|
    ensures target[j] in target
    ensures SupportValues(ref, target)[j] == GroupMean(ref, target, target[j])
  {
    var ranks := MinRanks(target);
    forall i | 0 <= i < |target| ensures ranks[i] == ranks[j] <==> target[i] == target[j] {
      MinRankProperties(target, i, j);
    }
    SameGroups(ref, ranks, ranks[j], target, target[j]);
  }

  /** Replacing each row by its tie-group mean keeps the total: `sum(rord) == sum(y)`. */
  lemma SupportSum(ref: seq<real>, target: seq<real>)
    requires |ref| == |target|
    ensures Sum(SupportValues(ref, target)) == Sum(ref)
  {
    SupportKeepsSum(ref, MinRanks(target));
  }

  /** When rows tied in `target` agree in the reference, the support is the reference itself. */
  lemma SupportOfTieFree(ref: seq<real>, target: seq<real>)
    requires |ref| == |target|
    requires forall i, j :: 0 <= i < |target| && 0 <= j < |target| && target[i] == target[j] ==> ref[i] == ref[j]
    ensures SupportValues(ref, target) == ref
  {
    forall j | 0 <= j < |target| ensures SupportValues(ref, target)[j] == ref[j] {
      SupportIsTieMean(ref, target, j);
      TieGroupMean(ref, target, j);
    }
  }

  lemma TieGroupMean(ref: seq<real>, target: seq<real>, j: nat)
    requires |ref| == |target| && j < |target|
    requires forall i :: 0 <= i < |target| && target[i] == target[j] ==> ref[i] == ref[j]
    ensures target[j] in target
    ensures GroupMean(ref, target, target[j]) == ref[j]
  {
    var x := target[j];
    SumWhereConstant(ref, target, x, ref[j]);
    CountPositive(target, x);
    assert CountWhere(target, x) > 0;
    var m, c := GroupMean(ref, target, x), CountWhere(target, x) as real;
    CancelCount(m, ref[j], c);
  }

  lemma CancelCount(m: real, v: real, c: real)
    requires c > 0.0 && Times(m, c) == Times(v, c)
    ensures m == v
  {
    assert (m - v) * c == 0.0;
  }

  /** `ystar` holds the support values, each exactly once. */
  lemma YStarPermutes(ref: seq<real>, target: seq<real>)
    requires |ref| == |target|
    ensures |YStar(ref, target)| == |ref|
    ensures multiset(YStar(ref, target)) == multiset(SupportValues(ref, target))
  {
    StableArgSortProperties(target);
    GatherArgSortPermutes(SupportValues(ref, target), target);
  }

  /** Exchanging the reference values of two rows tied in `target` leaves `rord` unchanged. */
  lemma TieSwapSupport(ref: seq<real>, target: seq<real>, i: nat, j: nat)
    requires |ref| == |target| && i < |ref| && j < |ref| && target[i] == target[j]
    ensures SupportValues(ref[i := ref[j]][j := ref[i]], target) == SupportValues(ref, target)
  {
    MinRankProperties(target, i, j);
    SupportTableSwap(ref, MinRanks(target), i, j);
  }

  // ---------------------------------------------------------------- dec, inc and conc

  /** `dec` and `inc` depend only on the multiset of reference values. */
  lemma DecIncOfPermutation(a: seq<real>, b: seq<real>)
    requires multiset(a) == multiset(b)
    ensures Dec(a) == Dec(b) && Inc(a) == Inc(b)
  {
    SortValuesOfPermutation(a, b, true);
    SortValuesOfPermutation(a, b, false);
  }

  /** Which rows of a tie group in `yhat` hold which reference values does not matter: the
      RGA is the same after exchanging them. */
  lemma TieSwapInvariant(y: seq<real>, yhat: seq<real>, i: nat, j: nat)
    requires |y| == |yhat| && i < |y| && j < |y| && yhat[i] == yhat[j]
    ensures Rga(y[i := y[j]][j := y[i]], yhat) == Rga(y, yhat)
  {
    var y' := y[i := y[j]][j := y[i]];
    TieSwapSupport(y, yhat, i, j);
    SwapMultiset(y, i, j);
    DecIncOfPermutation(y', y);
    assert Conc(y', yhat) == Conc(y, yhat);
    RgaOfSameParts(y', y, yhat);
  }

  lemma SwapMultiset(y: seq<real>, i: nat, j: nat)
    requires i < |y| && j < |y|
    ensures multiset(y[i := y[j]][j := y[i]]) == multiset(y)
  {
  }

  /** Two references with the same `conc`, `dec` and `inc` have the same RGA. */
  lemma RgaOfSameParts(a: seq<real>, b: seq<real>, yhat: seq<real>)
    requires |a| == |b| == |yhat|
    requires Conc(a, yhat) == Conc(b, yhat) && Dec(a) == Dec(b) && Inc(a) == Inc(b)
    ensures Rga(a, yhat) == Rga(b, yhat)
  {
    RgaUnfold(a, yhat);
    RgaUnfold(b, yhat);
  }

  /** `_rga` on vectors of one length, with its two outcomes. */
  lemma RgaUnfold(y: seq<real>, yhat: seq<real>)
    requires |y| == |yhat|
    ensures Rga(y, yhat) == if Inc(y) == Dec(y) then Err(DivisionUndefined)
                            else Ok((Conc(y, yhat) - Dec(y)) / (Inc(y) - Dec(y)))
  {
  }

  /** Rearrangement: `dec <= inc`, with equality exactly for a constant reference. */
  lemma DecAtMostInc(y: seq<real>)
    ensures Dec(y) <= Inc(y)
    ensures Dec(y) == Inc(y) <==> AllEqual(y)
  {
    var a := SortValues(y, false);
    SortValuesSorts(y, false);
    SortDescendingIsReverse(y);
    assert Dec(y) == IndexDot(Reverse(a)) && Inc(y) == IndexDot(a);
    SortedGap(y, a);
  }

  /** The same, for `a` the ascending sort of `y`. */
  lemma SortedGap(y: seq<real>, a: seq<real>)
    requires Ordered(a, false) && multiset(a) == multiset(y)
    ensures IndexDot(Reverse(a)) <= IndexDot(a)
    ensures IndexDot(Reverse(a)) == IndexDot(a) <==> AllEqual(y)
  {
    if a == [] {
      assert y == [];
    } else {
      var n := |a|;
      RearrangementGap(a);
      NonNegativeProduct((n - 1) as real, a[n - 1] - a[0]);
      if AllEqual(y) {
        forall i, j | 0 <= i < j < n ensures a[i] == a[j] {
          SortedMemberOfConstant(y, a, i);
          SortedMemberOfConstant(y, a, j);
        }
        ConstantReverse(a);
      } else if IndexDot(Reverse(a)) == IndexDot(a) {
        if n > 1 {
          ZeroProductFactor((n - 1) as real, a[n - 1] - a[0]);
        }
        SpreadZeroConstant(y, a);
      }
    }
  }

  lemma SpreadZeroConstant(y: seq<real>, a: seq<real>)
    requires Ordered(a, false) && multiset(a) == multiset(y) && |a| > 0 && a[|a| - 1] == a[0]
    ensures AllEqual(y)
  {
    forall i, j | 0 <= i < j < |y| ensures y[i] == y[j] {
      assert y[i] in multiset(a) && y[j] in multiset(a);
      MemberBounds(a, y[i], false);
      MemberBounds(a, y[j], false);
    }
  }

  lemma SortedMemberOfConstant(y: seq<real>, a: seq<real>, i: nat)
    requires AllEqual(y) && multiset(a) == multiset(y) && i < |a|
    ensures a[i] == y[0]
  {
    assert a[i] in multiset(y);
    var k :| 0 <= k < |y| && y[k] == a[i];
    if k > 0 {
      assert y[0] == y[k];
    }
  }

  lemma ZeroProductFactor(u: real, v: real)
    requires u > 0.0 && v >= 0.0 && u * v <= 0.0
    ensures v == 0.0
  {
  }

  /** When ascending `target` never puts the reference out of the `descending` order, `ystar`
      is the reference sorted that way. */
  lemma YStarSorted(y: seq<real>, yhat: seq<real>, descending: bool)
    requires |y| == |yhat|
    requires forall i, j :: 0 <= i < |y| && 0 <= j < |y| && yhat[i] <= yhat[j] ==> InOrder(y[i], y[j], descending)
    ensures YStar(y, yhat) == SortValues(y, descending)
  {
    SupportOfTieFree(y, yhat);
    var idx := StableArgSort(yhat);
    StableArgSortProperties(yhat);
    GatherArgSortPermutes(y, yhat);
    var ystar := Gather(y, idx);
    assert YStar(y, yhat) == ystar;
    forall p, q | 0 <= p < q < |ystar| ensures InOrder(ystar[p], ystar[q], descending) {
      assert Key(yhat, idx[p]) <= Key(yhat, idx[q]);
    }
    SortValuesSorts(y, descending);
    OrderedUnique(ystar, SortValues(y, descending), descending);
  }

  /** Perfect order: a prediction that never ranks a row above one with a larger reference
      value reaches `conc == inc`, so the RGA is 1 whenever it is defined. */
  lemma PerfectOrder(y: seq<real>, yhat: seq<real>)
    requires |y| == |yhat|
    requires forall i, j :: 0 <= i < |y| && 0 <= j < |y| && yhat[i] <= yhat[j] ==> y[i] <= y[j]
    ensures Conc(y, yhat) == Inc(y)
    ensures !AllEqual(y) ==> Rga(y, yhat) == Ok(1.0)
  {
    YStarSorted(y, yhat, false);
    if !AllEqual(y) {
      RgaAtInc(y, yhat);
    }
  }

  lemma RgaAtInc(y: seq<real>, yhat: seq<real>)
    requires |y| == |yhat| && !AllEqual(y) && Conc(y, yhat) == Inc(y)
    ensures Rga(y, yhat) == Ok(1.0)
  {
    RgaDefined(y, yhat);
    QuotientSelf(Inc(y) - Dec(y));
  }

  /** Reverse order: a prediction that ranks the rows exactly against the reference reaches
      `conc == dec`, so the RGA is 0 whenever it is defined. */
  lemma ReverseOrder(y: seq<real>, yhat: seq<real>)
    requires |y| == |yhat|
    requires forall i, j :: 0 <= i < |y| && 0 <= j < |y| && yhat[i] <= yhat[j] ==> y[j] <= y[i]
    ensures Conc(y, yhat) == Dec(y)
    ensures !AllEqual(y) ==> Rga(y, yhat) == Ok(0.0)
  {
    YStarSorted(y, yhat, true);
    if !AllEqual(y) {
      RgaAtDec(y, yhat);
    }
  }

  lemma RgaAtDec(y: seq<real>, yhat: seq<real>)
    requires |y| == |yhat| && !AllEqual(y) && Conc(y, yhat) == Dec(y)
    ensures Rga(y, yhat) == Ok(0.0)
  {
    RgaDefined(y, yhat);
    ZeroQuotient(Conc(y, yhat) - Dec(y), Inc(y) - Dec(y));
  }

  /** The value `_rga` takes once the reference is not constant. */
  lemma RgaDefined(y: seq<real>, yhat: seq<real>)
    requires |y| == |yhat| && !AllEqual(y)
    ensures Inc(y) != Dec(y)
    ensures Rga(y, yhat) == Ok((Conc(y, yhat) - Dec(y)) / (Inc(y) - Dec(y)))
  {
    DecAtMostInc(y);
  }

  lemma ZeroQuotient(a: real, b: real)
    requires a == 0.0 && b != 0.0
    ensures a / b == 0.0
  {
  }

  lemma Quotient(a: real, b: real, v: real)
    requires b != 0.0 && a == v * b
    ensures a / b == v
  {
  }

  lemma QuotientSelf(a: real)
    requires a != 0.0
    ensures a / a == 1.0
  {
  }

  // ---------------------------------------------------------------- algebra between the parts

  /** `_num(y, yhat) == _rga(y, yhat) * _den(y)` whenever the denominator is non-zero. */
  lemma NumIsRgaTimesDen(y: seq<real>, yhat: seq<real>)
    requires |y| == |yhat| && Den(y) != 0.0
    ensures Rga(y, yhat).Ok? && Num(y, yhat).Ok?
    ensures Num(y, yhat).value == Rga(y, yhat).value * Den(y)
  {
    assert !AllEqual(y);
    RgaDefined(y, yhat);
    Rescale(Rga(y, yhat).value, Den(y), Conc(y, yhat), Dec(y), Inc(y));
  }

  lemma Rescale(q: real, den: real, c: real, d: real, i: real)
    requires i != d && q == (c - d) / (i - d) && den == 2.0 * i - 2.0 * d
    ensures q * den == 2.0 * c - 2.0 * d
  {
    assert q * (i - d) == c - d;
    assert q * den == 2.0 * (q * (i - d));
  }

  /** `_test_delta_function(v, v) == 0`: a vector against itself has numerator equal to
      denominator. */
  lemma TestDeltaSelf(v: seq<real>)
    ensures TestDelta(v, v) == Ok(0.0)
  {
    PerfectOrder(v, v);
  }

  /** `_delta_function` is 0 when the baseline and perturbed columns agree. */
  lemma DeltaFunctionSameColumns(data: seq<Row>, f: (seq<real>, seq<real>) -> Result<real>)
    requires forall i :: 0 <= i < |data| ==> data[i].mod2 == data[i].pert1
    ensures DeltaFunction(data, f) == if f(Column(data, 0), Column(data, 1)).Ok? then Ok(0.0) else f(Column(data, 0), Column(data, 1))
  {
    assert Column(data, 1) == Column(data, 2);
  }

  /** `_delta_function` reads columns 0, 1 and 2 only. */
  lemma DeltaFunctionIgnoresColumn3(data: seq<Row>, other: seq<Row>, f: (seq<real>, seq<real>) -> Result<real>)
    requires |data| == |other|
    requires forall i :: 0 <= i < |data| ==> data[i].mod1 == other[i].mod1 && data[i].mod2 == other[i].mod2 && data[i].pert1 == other[i].pert1
    ensures DeltaFunction(data, f) == DeltaFunction(other, f)
  {
    assert Column(data, 0) == Column(other, 0);
    assert Column(data, 1) == Column(other, 1);
    assert Column(data, 2) == Column(other, 2);
  }
}
module UtilExamples {
  import opened Results
  import opened Sequences
  import opened Ranking
  import opened Util

  /** The index-vector dot product of a list of four. */
  lemma IndexDotFour(y: seq<real>)
    requires |y| == 4
    ensures IndexDot(y) == y[1] + 2.0 * y[2] + 3.0 * y[3]
  {
    var y1, y2, y3 := y[..1], y[..2], y[..3];
    assert y1[..0] == [];
    assert IndexDot(y1) == 0.0;
    assert y2[..1] == y1;
    assert IndexDot(y2) == y[1];
    assert y3[..2] == y2;
    assert IndexDot(y3) == y[1] + 2.0 * y[2];
    assert y[..3] == y3;
  }

  /** The index-vector dot product of a list of five. */
  lemma IndexDotFive(y: seq<real>)
    requires |y| == 5
    ensures IndexDot(y) == y[1] + 2.0 * y[2] + 3.0 * y[3] + 4.0 * y[4]
  {
    var init := y[..4];
    IndexDotFour(init);
    assert init[1] == y[1] && init[2] == y[2] && init[3] == y[3];
    assert IndexDot(y) == IndexDot(init) + 4.0 * y[4];
  }

  /** A list ascending step by step is its own ascending sort. */
  lemma SortOfAscending(y: seq<real>)
    requires forall i :: 0 < i < |y| ==> y[i - 1] <= y[i]
    ensures SortValues(y, false) == y
    ensures SortValues(y, true) == Reverse(y)
  {
    StepsOrdered(y);
    SortValuesSorts(y, false);
    OrderedUnique(SortValues(y, false), y, false);
    SortDescendingIsReverse(y);
  }

  lemma {:induction false} StepsOrdered(y: seq<real>)
    requires forall i :: 0 < i < |y| ==> y[i - 1] <= y[i]
    ensures Ordered(y, false)
  {
    if |y| > 1 {
      var init := y[..|y| - 1];
      assert forall i :: 0 < i < |init| ==> init[i - 1] <= init[i];
      StepsOrdered(init);
      assert forall i :: 0 <= i < |init| ==> y[i] == init[i];
      assert forall i :: 0 <= i < |init| ==> y[i] <= y[|y| - 2];
    }
  }

  /** `y = [1, 2, 3, 4]` against `yhat = [4, 3, 2, 1]`: `conc = dec = 10`, `inc = 20`, RGA 0. */
  lemma ReverseOrderExample(y: seq<real>, yhat: seq<real>)
    requires |y| == 4 && y[0] == 1.0 && y[1] == 2.0 && y[2] == 3.0 && y[3] == 4.0
    requires |yhat| == 4 && yhat[0] == 4.0 && yhat[1] == 3.0 && yhat[2] == 2.0 && yhat[3] == 1.0
    ensures Conc(y, yhat) == 10.0 && Dec(y) == 10.0 && Inc(y) == 20.0
    ensures Rga(y, yhat) == Ok(0.0)
  {
    OneToFour(y);
    assert forall i :: 0 <= i < 4 ==> yhat[i] == 5.0 - y[i];
    ReverseOrder(y, yhat);
  }

  lemma OneToFour(y: seq<real>)
    requires |y| == 4 && y[0] == 1.0 && y[1] == 2.0 && y[2] == 3.0 && y[3] == 4.0
    ensures Dec(y) == 10.0 && Inc(y) == 20.0 && !AllEqual(y)
  {
    AscendingFour(y);
    assert y[0] != y[1];
  }

  lemma AscendingFour(y: seq<real>)
    requires |y| == 4 && y[0] <= y[1] <= y[2] <= y[3]
    ensures Inc(y) == y[1] + 2.0 * y[2] + 3.0 * y[3]
    ensures Dec(y) == y[2] + 2.0 * y[1] + 3.0 * y[0]
  {
    forall i | 0 < i < |y| ensures y[i - 1] <= y[i] {
      if i == 1 {} else if i == 2 {} else { assert i == 3; }
    }
    SortOfAscending(y);
    IndexDotFour(y);
    ReverseFour(y);
  }

  lemma ReverseFour(y: seq<real>)
    requires |y| == 4
    ensures IndexDot(Reverse(y)) == y[2] + 2.0 * y[1] + 3.0 * y[0]
  {
    var r := Reverse(y);
    IndexDotFour(r);
    assert r[1] == y[2] && r[2] == y[1] && r[3] == y[0];
  }

  lemma AscendingFive(y: seq<real>)
    requires |y| == 5 && y[0] <= y[1] <= y[2] <= y[3] <= y[4]
    ensures Inc(y) == y[1] + 2.0 * y[2] + 3.0 * y[3] + 4.0 * y[4]
    ensures Dec(y) == y[3] + 2.0 * y[2] + 3.0 * y[1] + 4.0 * y[0]
  {
    forall i | 0 < i < |y| ensures y[i - 1] <= y[i] {
      if i == 1 {} else if i == 2 {} else if i == 3 {} else { assert i == 4; }
    }
    SortOfAscending(y);
    IndexDotFive(y);
    var r := Reverse(y);
    IndexDotFive(r);
    assert r[1] == y[3] && r[2] == y[2] && r[3] == y[1] && r[4] == y[0];
  }

  /** The stable argsort of `[2, 1, 3, 5, 4]`, one insertion at a time. */
  lemma ArgSortExample(v: seq<real>)
    requires |v| == 5 && v[0] == 2.0 && v[1] == 1.0 && v[2] == 3.0 && v[3] == 5.0 && v[4] == 4.0
    ensures StableArgSort(v) == [1, 0, 2, 4, 3]
  {
    ArgSortPrefixUnfold(v, 1, []);
    InsertionsExample(v);
    ArgSortPrefixUnfold(v, 2, [0]);
    ArgSortPrefixUnfold(v, 3, [1, 0]);
    ArgSortPrefixUnfold(v, 4, [1, 0, 2]);
    ArgSortPrefixUnfold(v, 5, [1, 0, 2, 3]);
  }

  lemma InsertionsExample(v: seq<real>)
    requires |v| == 5 && v[0] == 2.0 && v[1] == 1.0 && v[2] == 3.0 && v[3] == 5.0 && v[4] == 4.0
    ensures InsertByKey(v, 0, []) == [0]
    ensures InsertByKey(v, 1, [0]) == [1, 0]
    ensures InsertByKey(v, 2, [1, 0]) == [1, 0, 2]
    ensures InsertByKey(v, 3, [1, 0, 2]) == [1, 0, 2, 3]
    ensures InsertByKey(v, 4, [1, 0, 2, 3]) == [1, 0, 2, 4, 3]
  {
    InsertThird(v);
    InsertFourth(v);
    InsertFifth(v);
  }

  lemma InsertThird(v: seq<real>)
    requires |v| == 5 && v[0] == 2.0 && v[1] == 1.0 && v[2] == 3.0 && v[3] == 5.0 && v[4] == 4.0
    ensures InsertByKey(v, 2, [1, 0]) == [1, 0, 2]
  {
    assert [1, 0][1..] == [0] && [0][1..] == [];
    assert InsertByKey(v, 2, [0]) == [0] + InsertByKey(v, 2, []);
    assert InsertByKey(v, 2, [1, 0]) == [1] + InsertByKey(v, 2, [0]);
  }

  lemma InsertFourth(v: seq<real>)
    requires |v| == 5 && v[0] == 2.0 && v[1] == 1.0 && v[2] == 3.0 && v[3] == 5.0 && v[4] == 4.0
    ensures InsertByKey(v, 3, [1, 0, 2]) == [1, 0, 2, 3]
  {
    assert [1, 0, 2][1..] == [0, 2] && [0, 2][1..] == [2] && [2][1..] == [];
    assert InsertByKey(v, 3, [2]) == [2] + InsertByKey(v, 3, []);
    assert InsertByKey(v, 3, [0, 2]) == [0] + InsertByKey(v, 3, [2]);
    assert InsertByKey(v, 3, [1, 0, 2]) == [1] + InsertByKey(v, 3, [0, 2]);
  }

  lemma InsertFifth(v: seq<real>)
    requires |v| == 5 && v[0] == 2.0 && v[1] == 1.0 && v[2] == 3.0 && v[3] == 5.0 && v[4] == 4.0
    ensures InsertByKey(v, 4, [1, 0, 2, 3]) == [1, 0, 2, 4, 3]
  {
    assert [1, 0, 2, 3][1..] == [0, 2, 3] && [0, 2, 3][1..] == [2, 3] && [2, 3][1..] == [3];
    assert InsertByKey(v, 4, [3]) == [4, 3];
    assert InsertByKey(v, 4, [2, 3]) == [2] + InsertByKey(v, 4, [3]);
    assert InsertByKey(v, 4, [0, 2, 3]) == [0] + InsertByKey(v, 4, [2, 3]);
    assert InsertByKey(v, 4, [1, 0, 2, 3]) == [1] + InsertByKey(v, 4, [0, 2, 3]);
  }

  /** `y = [1, 2, 3, 4, 5]` against `yhat = [2, 1, 3, 5, 4]`: no ties, so the support is `y`
      itself; `ystar = [2, 1, 3, 5, 4]`, `conc = 38`, `dec = 20`, `inc = 40`, RGA 0.9. */
  lemma EndToEndExample(y: seq<real>, yhat: seq<real>)
    requires |y| == 5 && y[0] == 1.0 && y[1] == 2.0 && y[2] == 3.0 && y[3] == 4.0 && y[4] == 5.0
    requires |yhat| == 5 && yhat[0] == 2.0 && yhat[1] == 1.0 && yhat[2] == 3.0 && yhat[3] == 5.0 && yhat[4] == 4.0
    ensures Conc(y, yhat) == 38.0 && Dec(y) == 20.0 && Inc(y) == 40.0
    ensures Rga(y, yhat) == Ok(0.9)
  {
    ConcExample(y, yhat);
    AscendingFive(y);
    assert y[0] != y[1];
    RgaDefined(y, yhat);
    Quotient(Conc(y, yhat) - Dec(y), Inc(y) - Dec(y), 0.9);
  }

  lemma ConcExample(y: seq<real>, yhat: seq<real>)
    requires |y| == 5 && y[0] == 1.0 && y[1] == 2.0 && y[2] == 3.0 && y[3] == 4.0 && y[4] == 5.0
    requires |yhat| == 5 && yhat[0] == 2.0 && yhat[1] == 1.0 && yhat[2] == 3.0 && yhat[3] == 5.0 && yhat[4] == 4.0
    ensures YStar(y, yhat) == [2.0, 1.0, 3.0, 5.0, 4.0]
    ensures Conc(y, yhat) == 38.0
  {
    YStarExample(y, yhat);
    IndexDotFive(YStar(y, yhat));
  }

  lemma YStarExample(y: seq<real>, yhat: seq<real>)
    requires |y| == 5 && y[0] == 1.0 && y[1] == 2.0 && y[2] == 3.0 && y[3] == 4.0 && y[4] == 5.0
    requires |yhat| == 5 && yhat[0] == 2.0 && yhat[1] == 1.0 && yhat[2] == 3.0 && yhat[3] == 5.0 && yhat[4] == 4.0
    ensures YStar(y, yhat) == [2.0, 1.0, 3.0, 5.0, 4.0]
  {
    TieFreeExample(y, yhat);
    ArgSortExample(yhat);
    assert YStar(y, yhat) == Gather(y, [1, 0, 2, 4, 3]);
  }

  lemma TieFreeExample(y: seq<real>, yhat: seq<real>)
    requires |y| == 5 && y[0] == 1.0 && y[1] == 2.0 && y[2] == 3.0 && y[3] == 4.0 && y[4] == 5.0
    requires |yhat| == 5 && yhat[0] == 2.0 && yhat[1] == 1.0 && yhat[2] == 3.0 && yhat[3] == 5.0 && yhat[4] == 4.0
    ensures SupportValues(y, yhat) == y
  {
    forall i, j | 0 <= i < 5 && 0 <= j < 5 && yhat[i] == yhat[j] ensures y[i] == y[j] {
      assert i == j by {
        assert i == 0 || i == 1 || i == 2 || i == 3 || i == 4;
        assert j == 0 || j == 1 || j == 2 || j == 3 || j == 4;
      }
    }
    SupportOfTieFree(y, yhat);
  }
}
