/** `check_robustness.py`: the RGR measure and the jackknife test that compares the
    robustness of two models, up to the z numerator and the jackknife variance. */
module Robustness {
  import opened Results
  import opened Sequences
  import opened Util

  // ---------------------------------------------------------------- the jackknife table

  /** `pd.concat([yhat, yhat_mod2, yhat_pert, yhat_mode2_pert], axis=1)`. */
  function Table(a: seq<real>, b: seq<real>, c: seq<real>, d: seq<real>): (t: seq<Row>)
    requires |a| == |b| == |c| == |d|
    ensures |t| == |a|
  {
    seq(|a|, i requires 0 <= i < |a| => Row(a[i], b[i], c[i], d[i]))
  }

  /** The columns of the table are the four vectors, in order. */
  lemma TableColumns(a: seq<real>, b: seq<real>, c: seq<real>, d: seq<real>)
    requires |a| == |b| == |c| == |d|
    ensures Column(Table(a, b, c, d), 0) == a && Column(Table(a, b, c, d), 1) == b
    ensures Column(Table(a, b, c, d), 2) == c && Column(Table(a, b, c, d), 3) == d
  {
  }

  /** `[x for x in index if x != i]` with `index = np.arange(n)`. */
  function KeptRows(n: nat, i: nat): (r: seq<nat>)
    ensures forall p :: 0 <= p < |r| ==> r[p] < n
  {
    if n == 0 then [] else KeptRows(n - 1, i) + (if n - 1 != i then [n - 1] else [])
  }

  /** `jk_mat.iloc[[x for x in index if x != i], :]` followed by `reset_index`. */
  function LeaveOneOut(t: seq<Row>, i: nat): seq<Row>
  {
    Gather(t, KeptRows(|t|, i))
  }

  /** The rows kept: every row but `i`, in increasing order. */
  lemma {:induction false} KeptRowsSkip(n: nat, i: nat)
    requires i < n
    ensures |KeptRows(n, i)| == n - 1
    ensures forall p :: 0 <= p < n - 1 ==> KeptRows(n, i)[p] == if p < i then p else p + 1
  {
    if n - 1 == i {
      KeptRowsAll(n - 1, i);
    } else {
      KeptRowsSkip(n - 1, i);
    }
  }

  lemma {:induction false} KeptRowsAll(n: nat, i: nat)
    requires n <= i
    ensures |KeptRows(n, i)| == n
    ensures forall p :: 0 <= p < n ==> KeptRows(n, i)[p] == p
  {
    if n > 0 {
      KeptRowsAll(n - 1, i);
    }
  }

  /** A leave-one-out sample is the table without row `i`: `n - 1` rows in their original
      order. */
  lemma LeaveOneOutDrops(t: seq<Row>, i: nat)
    requires i < |t|
    ensures LeaveOneOut(t, i) == t[..i] + t[i + 1..]
    ensures |LeaveOneOut(t, i)| == |t| - 1
  {
    KeptRowsSkip(|t|, i);
  }

  // ---------------------------------------------------------------- the jackknife loop

  /** The delta statistic of sample `i`: `_delta_function(jk_sample, _rga)`. */
  function JackknifeStatistic(t: seq<Row>, i: nat): Result<real>
  {
    DeltaFunction(LeaveOneOut(t, i), Rga)
  }

  /** What each pass of the loop computes, one entry per removed row. */
  function Samples(t: seq<Row>): (rs: seq<Result<real>>)
    ensures |rs| == |t|
  {
    seq(|t|, i requires 0 <= i < |t| => JackknifeStatistic(t, i))
  }

  /** Appending the values of the passes in order; the first error raised ends the loop. */
  function Collect(rs: seq<Result<real>>): Result<seq<real>>
  {
    if rs == [] then Ok([])
    else
      match Collect(rs[..|rs| - 1])
      case Err(e) => Err(e)
      case Ok(s) =>
        match rs[|rs| - 1]
        case Err(e) => Err(e)
        case Ok(d) => Ok(s + [d])
  }

  /** `jk_results` after the loop, or the error it raised. */
  function Jackknife(t: seq<Row>): Result<seq<real>>
  {
    Collect(Samples(t))
  }

  /** The loop succeeds exactly when every pass does, with one value per pass in order;
      when it fails, it reports the error of the first pass that failed. */
  lemma {:induction false} CollectValues(rs: seq<Result<real>>)
    ensures Collect(rs).Ok? <==> forall i :: 0 <= i < |rs| ==> rs[i].Ok?
    ensures Collect(rs).Ok? ==> |Collect(rs).value| == |rs|
    ensures Collect(rs).Ok? ==> forall i :: 0 <= i < |rs| ==> Collect(rs).value[i] == rs[i].value
    ensures Collect(rs).Err? ==>
      exists i :: 0 <= i < |rs| && rs[i] == Err(Collect(rs).error) && forall k :: 0 <= k < i ==> rs[k].Ok?
  {
    if rs != [] {
      var n := |rs|;
      var init := rs[..n - 1];
      CollectValues(init);
      assert forall i :: 0 <= i < n - 1 ==> init[i] == rs[i];
      var r := Collect(init);
      if r.Err? {
        var i :| 0 <= i < n - 1 && init[i] == Err(r.error) && forall k :: 0 <= k < i ==> init[k].Ok?;
        assert rs[i] == Err(Collect(rs).error);
      }
    }
  }

  /** Once a pass fails, the loop is over: later passes do not change the outcome. */
  lemma {:induction false} CollectStops(rs: seq<Result<real>>, m: nat)
    requires m <= |rs| && Collect(rs[..m]).Err?
    ensures Collect(rs) == Collect(rs[..m])
    decreases |rs| - m
  {
    if m < |rs| {
      var n := |rs|;
      assert rs[..n - 1][..m] == rs[..m];
      CollectStops(rs[..n - 1], m);
    } else {
      assert rs[..m] == rs;
    }
  }

  /** The jackknife values: `n` of them, value `i` computed on the table without row `i`. */
  lemma JackknifeValues(t: seq<Row>)
    ensures Jackknife(t).Ok? <==> forall i :: 0 <= i < |t| ==> JackknifeStatistic(t, i).Ok?
    ensures Jackknife(t).Ok? ==> |Jackknife(t).value| == |t|
    ensures Jackknife(t).Ok? ==>
      forall i :: 0 <= i < |t| ==> Jackknife(t).value[i] == JackknifeStatistic(t, i).value
    ensures Jackknife(t).Err? ==>
      exists i :: 0 <= i < |t| && JackknifeStatistic(t, i) == Err(Jackknife(t).error)
        && forall k :: 0 <= k < i ==> JackknifeStatistic(t, k).Ok?
  {
    var rs := Samples(t);
    CollectValues(rs);
    assert forall i :: 0 <= i < |t| ==> rs[i] == JackknifeStatistic(t, i);
  }

  /** The jackknife loop: one leave-one-out sample per row, its statistic appended to
      `jk_results`, the first error raised ending the run. */
  method JackknifeDeltas(t: seq<Row>) returns (r: Result<seq<real>>)
    ensures r == Jackknife(t)
  {
    ghost var rs := Samples(t);
    var jkResults: seq<real> := [];
    for i := 0 to |t|
      invariant Collect(rs[..i]) == Ok(jkResults)
    {
      var sample := LeaveOneOut(t, i);
      var statistic := ComputeDelta(sample);
      assert rs[..i + 1][..i] == rs[..i];
      if statistic.Err? {
        CollectStops(rs, i + 1);
        return Err(statistic.error);
      }
      jkResults := jkResults + [statistic.value];
    }
    assert rs[..|t|] == rs;
    r := Ok(jkResults);
  }

  /** Rows that agree on the columns the test reads give the same leave-one-out samples,
      up to column 3. */
  lemma LeaveOneOutAgrees(t: seq<Row>, u: seq<Row>, i: nat)
    requires |t| == |u|
    requires forall k :: 0 <= k < |t| ==> t[k].mod1 == u[k].mod1 && t[k].mod2 == u[k].mod2 && t[k].pert1 == u[k].pert1
    ensures JackknifeStatistic(t, i) == JackknifeStatistic(u, i)
  {
    var a, b := LeaveOneOut(t, i), LeaveOneOut(u, i);
    assert forall k :: 0 <= k < |a| ==> a[k].mod1 == b[k].mod1 && a[k].mod2 == b[k].mod2 && a[k].pert1 == b[k].pert1;
    DeltaFunctionIgnoresColumn3(a, b, Rga);
  }

  /** Column 3 (model 2 perturbed) is never read: it cannot change the jackknife values. */
  lemma JackknifeIgnoresColumn3(t: seq<Row>, u: seq<Row>)
    requires |t| == |u|
    requires forall k :: 0 <= k < |t| ==> t[k].mod1 == u[k].mod1 && t[k].mod2 == u[k].mod2 && t[k].pert1 == u[k].pert1
    ensures Jackknife(t) == Jackknife(u)
  {
    forall i | 0 <= i < |t| ensures Samples(t)[i] == Samples(u)[i] {
      LeaveOneOutAgrees(t, u, i);
    }
    assert Samples(t) == Samples(u);
  }

  /** The same on the four input vectors: `yhat_mode2_pert` does not reach `jk_results`. */
  lemma JackknifeIgnoresMod2Pert(yhat: seq<real>, mod2: seq<real>, pert: seq<real>, mod2Pert: seq<real>, other: seq<real>)
    requires |yhat| == |mod2| == |pert| == |mod2Pert| == |other|
    ensures Jackknife(Table(yhat, mod2, pert, mod2Pert)) == Jackknife(Table(yhat, mod2, pert, other))
  {
    JackknifeIgnoresColumn3(Table(yhat, mod2, pert, mod2Pert), Table(yhat, mod2, pert, other));
  }

  // ---------------------------------------------------------------- spread of the jackknife values

  function Mean(s: seq<real>): real
    requires |s| > 0
  {
    Sum(s) / |s| as real
  }

  /** `d**2`. */
  function Square(d: real): real
  {
    d * d
  }

  lemma TimesPositive(u: real, v: real)
    requires u > 0.0 && v > 0.0
    ensures Times(u, v) > 0.0
  {
  }

  /** A square is never negative, and it is zero only at zero. */
  lemma SquareSign(d: real)
    ensures Square(d) >= 0.0
    ensures Square(d) == 0.0 <==> d == 0.0
  {
    if d > 0.0 {
      TimesPositive(d, d);
    } else if d < 0.0 {
      TimesPositive(-d, -d);
    }
  }

  /** `sum([(x - m)**2 for x in s])`. */
  function SquaredDeviations(s: seq<real>, m: real): real
  {
    if s == [] then 0.0
    else SquaredDeviations(s[..|s| - 1], m) + Square(s[|s| - 1] - m)
  }

  /** The sum of squared deviations of `jk_results` from their mean. */
  function SumSqDev(s: seq<real>): real
    requires |s| > 0
  {
    SquaredDeviations(s, Mean(s))
  }

  lemma {:induction false} SquaredDeviationsZero(s: seq<real>, m: real)
    ensures SquaredDeviations(s, m) >= 0.0
    ensures SquaredDeviations(s, m) == 0.0 <==> forall i :: 0 <= i < |s| ==> s[i] == m
  {
    if s != [] {
      var n := |s|;
      SquaredDeviationsZero(s[..n - 1], m);
      SquareSign(s[n - 1] - m);
      assert forall i :: 0 <= i < n - 1 ==> s[..n - 1][i] == s[i];
    }
  }

  lemma {:induction false} SumConstant(s: seq<real>, c: real)
    requires forall i :: 0 <= i < |s| ==> s[i] == c
    ensures Sum(s) == |s| as real * c
  {
    if s != [] {
      var n := |s|;
      assert forall i :: 0 <= i < n - 1 ==> s[..n - 1][i] == s[i];
      SumConstant(s[..n - 1], c);
    }
  }

  /** The sum of squared deviations is never negative, and it is zero exactly when all the
      jackknife values are equal. */
  lemma SumSqDevZeroIff(s: seq<real>)
    requires |s| > 0
    ensures SumSqDev(s) >= 0.0
    ensures SumSqDev(s) == 0.0 <==> AllEqual(s)
  {
    SquaredDeviationsZero(s, Mean(s));
    if AllEqual(s) {
      assert forall i :: 0 <= i < |s| ==> s[i] == s[0] by {
        forall i | 0 <= i < |s| ensures s[i] == s[0] {
          if i > 0 { assert s[0] == s[i]; }
        }
      }
      SumConstant(s, s[0]);
      Quotient(Sum(s), |s| as real, s[0]);
    }
  }

  // ---------------------------------------------------------------- the test statistic

  /** `_rga(yhat, yhat_pert) - _rga(yhat_mod2, yhat_mode2_pert)`, left call first. */
  function ZNumerator(yhat: seq<real>, mod2: seq<real>, pert: seq<real>, mod2Pert: seq<real>): (r: Result<real>)
    ensures r.Ok? <==> Rga(yhat, pert).Ok? && Rga(mod2, mod2Pert).Ok?
  {
    Difference(Rga(yhat, pert), Rga(mod2, mod2Pert))
  }

  /** Swapping the two models negates the z numerator. */
  lemma ZNumeratorSwap(yhat: seq<real>, mod2: seq<real>, pert: seq<real>, mod2Pert: seq<real>)
    ensures ZNumerator(mod2, yhat, mod2Pert, pert).Ok? <==> ZNumerator(yhat, mod2, pert, mod2Pert).Ok?
    ensures ZNumerator(yhat, mod2, pert, mod2Pert).Ok? ==>
      ZNumerator(mod2, yhat, mod2Pert, pert).value == -ZNumerator(yhat, mod2, pert, mod2Pert).value
  {
  }

  /** What the test computes before the square root and the normal CDF: the jackknife
      values, their sum of squared deviations, `se` squared and the z numerator. */
  datatype Statistic = Statistic(deltas: seq<real>, ssd: real, variance: real, zNumerator: real)

  /** `se` squared: `((n - 1) / n) * ssd`. */
  function Variance(n: nat, ssd: real): real
    requires n > 0
  {
    Times((n - 1) as real / n as real, ssd)
  }

  /** With two or more rows the variance is zero exactly when the spread is. */
  lemma VarianceZero(n: nat, ssd: real)
    requires n > 1 && ssd >= 0.0
    ensures Variance(n, ssd) >= 0.0
    ensures Variance(n, ssd) == 0.0 <==> ssd == 0.0
  {
    var f := (n - 1) as real / n as real;
    assert f > 0.0;
    if ssd > 0.0 {
      TimesPositive(f, ssd);
    }
  }

  /** Lines 52-53 after the loop: the spread of the `n` jackknife values, `se` squared and
      the z numerator, with the errors in the order the source raises them. */
  function Summarise(n: nat, jk: Result<seq<real>>, z: Result<real>): Result<Statistic>
  {
    match jk
    case Err(e) => Err(e)
    case Ok(deltas) =>
      if n == 0 || deltas == [] then Err(DivisionUndefined)
      else
        var ssd := SumSqDev(deltas);
        var variance := Variance(n, ssd);
        match z
        case Err(e) => Err(e)
        case Ok(numerator) =>
          if variance == 0.0 then Err(DivisionUndefined)
          else Ok(Statistic(deltas, ssd, variance, numerator))
  }

  /** `rgr_statistic_test` up to `z`. */
  function StatisticTest(yhat: seq<real>, mod2: seq<real>, pert: seq<real>, mod2Pert: seq<real>): Result<Statistic>
  {
    if !(|yhat| == |mod2| == |pert| == |mod2Pert|) then Err(ShapeMismatch)
    else Summarise(|yhat|, Jackknife(Table(yhat, mod2, pert, mod2Pert)), ZNumerator(yhat, mod2, pert, mod2Pert))
  }

  /** What the summary promises when `jk` holds `n` values: it fails with the error of the
      loop, then with the error of the numerator; it is undefined when the values all agree;
      otherwise the spread and the variance are positive. */
  lemma SummariseProperties(n: nat, jk: Result<seq<real>>, z: Result<real>)
    requires jk.Ok? ==> |jk.value| == n
    ensures jk.Err? ==> Summarise(n, jk, z) == Err(jk.error)
    ensures jk.Ok? && n > 0 && z.Err? ==> Summarise(n, jk, z) == Err(z.error)
    ensures jk.Ok? && (n < 2 || AllEqual(jk.value)) ==> Summarise(n, jk, z).Err?
    ensures Summarise(n, jk, z).Ok? ==>
      jk.Ok? && z.Ok? && n > 1 && !AllEqual(jk.value)
      && Summarise(n, jk, z).value.deltas == jk.value
      && Summarise(n, jk, z).value.zNumerator == z.value
      && Summarise(n, jk, z).value.ssd == SumSqDev(jk.value) > 0.0
      && Summarise(n, jk, z).value.variance == Variance(n, SumSqDev(jk.value)) > 0.0
  {
    if jk.Ok? && n > 0 {
      var d := jk.value;
      SumSqDevZeroIff(d);
      if n == 1 {
        assert Variance(n, SumSqDev(d)) == 0.0;
      } else {
        VarianceZero(n, SumSqDev(d));
      }
    }
  }

  /** The defined division in `_rga` and `_delta_function` never reports a shape error on
      a table: its columns all have the table's length. */
  lemma DeltaNeverMismatched(data: seq<Row>)
    ensures DeltaFunction(data, Rga) != Err(ShapeMismatch)
  {
  }

  /** The loop never reports a shape error. */
  lemma JackknifeNeverMismatched(t: seq<Row>)
    ensures Jackknife(t) != Err(ShapeMismatch)
  {
    JackknifeValues(t);
    if Jackknife(t).Err? {
      var i :| 0 <= i < |t| && JackknifeStatistic(t, i) == Err(Jackknife(t).error);
      DeltaNeverMismatched(LeaveOneOut(t, i));
    }
  }

  /** How the test fails: a shape mismatch exactly when the four vectors differ in length,
      and an undefined division in every other failing case. */
  lemma StatisticTestErrors(yhat: seq<real>, mod2: seq<real>, pert: seq<real>, mod2Pert: seq<real>)
    ensures StatisticTest(yhat, mod2, pert, mod2Pert) == Err(ShapeMismatch)
        <==> !(|yhat| == |mod2| == |pert| == |mod2Pert|)
    ensures StatisticTest(yhat, mod2, pert, mod2Pert).Err? && |yhat| == |mod2| == |pert| == |mod2Pert|
        ==> StatisticTest(yhat, mod2, pert, mod2Pert) == Err(DivisionUndefined)
  {
    if |yhat| == |mod2| == |pert| == |mod2Pert| {
      var t := Table(yhat, mod2, pert, mod2Pert);
      JackknifeNeverMismatched(t);
      var z := ZNumerator(yhat, mod2, pert, mod2Pert);
      assert z != Err(ShapeMismatch);
      JackknifeValues(t);
      SummariseProperties(|yhat|, Jackknife(t), z);
    }
  }

  /** The sample of pass `i`, column by column: the four vectors without their entry `i`. */
  lemma SampleColumns(yhat: seq<real>, mod2: seq<real>, pert: seq<real>, mod2Pert: seq<real>, i: nat)
    requires |yhat| == |mod2| == |pert| == |mod2Pert| && i < |yhat|
    ensures Column(LeaveOneOut(Table(yhat, mod2, pert, mod2Pert), i), 0) == yhat[..i] + yhat[i + 1..]
    ensures Column(LeaveOneOut(Table(yhat, mod2, pert, mod2Pert), i), 1) == mod2[..i] + mod2[i + 1..]
    ensures Column(LeaveOneOut(Table(yhat, mod2, pert, mod2Pert), i), 2) == pert[..i] + pert[i + 1..]
  {
    LeaveOneOutDrops(Table(yhat, mod2, pert, mod2Pert), i);
  }

  /** Jackknife value `i` is `_rga(yhat, yhat_pert) - _rga(yhat, yhat_mod2)` computed without
      entry `i`: model 1's predictions are the reference of both calls. */
  lemma JackknifeValueIsDelta(yhat: seq<real>, mod2: seq<real>, pert: seq<real>, mod2Pert: seq<real>, i: nat)
    requires |yhat| == |mod2| == |pert| == |mod2Pert| && i < |yhat|
    ensures JackknifeStatistic(Table(yhat, mod2, pert, mod2Pert), i)
         == Difference(Rga(yhat[..i] + yhat[i + 1..], pert[..i] + pert[i + 1..]),
                       Rga(yhat[..i] + yhat[i + 1..], mod2[..i] + mod2[i + 1..]))
  {
    SampleColumns(yhat, mod2, pert, mod2Pert, i);
  }

  /** What a successful test promises: one jackknife value per row, value `i` computed
      without row `i`; values that are not all equal; their sum of squared deviations and
      `((n - 1) / n)` times it, both positive;
      and the difference of the two models' RGA on the full data as z numerator. */
  lemma StatisticTestProperties(yhat: seq<real>, mod2: seq<real>, pert: seq<real>, mod2Pert: seq<real>)
    requires StatisticTest(yhat, mod2, pert, mod2Pert).Ok?
    ensures |yhat| == |mod2| == |pert| == |mod2Pert| > 1
    ensures forall i :: 0 <= i < |yhat| ==> JackknifeStatistic(Table(yhat, mod2, pert, mod2Pert), i).Ok?
    ensures Rga(yhat, pert).Ok? && Rga(mod2, mod2Pert).Ok?
    ensures var st := StatisticTest(yhat, mod2, pert, mod2Pert).value;
      |st.deltas| == |yhat|
      && (forall i :: 0 <= i < |yhat| ==>
            st.deltas[i] == JackknifeStatistic(Table(yhat, mod2, pert, mod2Pert), i).value)
      && !AllEqual(st.deltas)
      && st.ssd == SumSqDev(st.deltas) > 0.0
      && st.variance == Variance(|yhat|, st.ssd) > 0.0
      && st.zNumerator == Rga(yhat, pert).value - Rga(mod2, mod2Pert).value
  {
    var t := Table(yhat, mod2, pert, mod2Pert);
    var z := ZNumerator(yhat, mod2, pert, mod2Pert);
    JackknifeValues(t);
    SummariseProperties(|yhat|, Jackknife(t), z);
  }

  /** The test is undefined whenever the jackknife values all agree: `se` is then zero. */
  lemma StatisticUndefinedWhenDeltasAgree(yhat: seq<real>, mod2: seq<real>, pert: seq<real>, mod2Pert: seq<real>)
    requires |yhat| == |mod2| == |pert| == |mod2Pert|
    requires Jackknife(Table(yhat, mod2, pert, mod2Pert)).Ok?
    requires AllEqual(Jackknife(Table(yhat, mod2, pert, mod2Pert)).value)
    ensures StatisticTest(yhat, mod2, pert, mod2Pert) == Err(DivisionUndefined)
  {
    var t := Table(yhat, mod2, pert, mod2Pert);
    JackknifeValues(t);
    SummariseProperties(|yhat|, Jackknife(t), ZNumerator(yhat, mod2, pert, mod2Pert));
    StatisticTestErrors(yhat, mod2, pert, mod2Pert);
  }

  /** With fewer than three rows every sample has at most one row, whose reference column is
      constant, so the very first pass divides by zero. */
  lemma SmallTablesUndefined(yhat: seq<real>, mod2: seq<real>, pert: seq<real>, mod2Pert: seq<real>)
    requires |yhat| == |mod2| == |pert| == |mod2Pert| < 3
    ensures StatisticTest(yhat, mod2, pert, mod2Pert) == Err(DivisionUndefined)
  {
    var t := Table(yhat, mod2, pert, mod2Pert);
    StatisticTestErrors(yhat, mod2, pert, mod2Pert);
    JackknifeValues(t);
    if |t| > 0 {
      var sample := LeaveOneOut(t, 0);
      LeaveOneOutDrops(t, 0);
      assert AllEqual(Column(sample, 0));
      assert JackknifeStatistic(t, 0).Err?;
    }
    SummariseProperties(|yhat|, Jackknife(t), ZNumerator(yhat, mod2, pert, mod2Pert));
  }

  /** `rgr_statistic_test` up to `z`: the jackknife loop, then the spread and the numerator. */
  method RgrStatisticTest(yhat: seq<real>, mod2: seq<real>, pert: seq<real>, mod2Pert: seq<real>)
    returns (r: Result<Statistic>)
    ensures r == StatisticTest(yhat, mod2, pert, mod2Pert)
  {
    if !(|yhat| == |mod2| == |pert| == |mod2Pert|) {
      assert StatisticTest(yhat, mod2, pert, mod2Pert) == Err(ShapeMismatch);
      return Err(ShapeMismatch);
    }
    var jkMat := Table(yhat, mod2, pert, mod2Pert);
    var n := |jkMat|;
    var jk := JackknifeDeltas(jkMat);
    ghost var z := ZNumerator(yhat, mod2, pert, mod2Pert);
    assert StatisticTest(yhat, mod2, pert, mod2Pert) == Summarise(n, jk, z);
    if jk.Err? {
      assert Summarise(n, jk, z) == Err(jk.error);
      return Err(jk.error);
    }
    if n == 0 || jk.value == [] {
      assert Summarise(n, jk, z) == Err(DivisionUndefined);
      return Err(DivisionUndefined);
    }
    var ssd := SumSqDev(jk.value);
    var variance := Variance(n, ssd);
    var first := ComputeRga(yhat, pert);
    var second := ComputeRga(mod2, mod2Pert);
    assert z == Difference(first, second);
    if first.Err? {
      assert Summarise(n, jk, z) == Err(first.error);
      return Err(first.error);
    }
    if second.Err? {
      assert Summarise(n, jk, z) == Err(second.error);
      return Err(second.error);
    }
    if variance == 0.0 {
      assert Summarise(n, jk, z) == Err(DivisionUndefined);
      return Err(DivisionUndefined);
    }
    assert z == Ok(first.value - second.value);
    assert Summarise(n, jk, z).Ok?;
    assert Summarise(n, jk, z).value.variance == variance;
    assert Summarise(n, jk, z).value.ssd == ssd;
    assert Summarise(n, jk, z).value.deltas == jk.value;
    assert Summarise(n, jk, z).value.zNumerator == first.value - second.value;
    r := Ok(Statistic(jk.value, ssd, variance, first.value - second.value));
  }

  // ---------------------------------------------------------------- rgr

  /** `rgr(yhat, yhat_pert) = rga(yhat, yhat_pert)`, with the accuracy measure `rga` given
      as a parameter. */
  function Rgr(rga: (seq<real>, seq<real>) -> Result<real>, yhat: seq<real>, pert: seq<real>): Result<real>
  {
    rga(yhat, pert)
  }

  /** With the rank graduation accuracy of this model as `rga`: unperturbed predictions are
      perfectly robust, and a constant `yhat`, the reference, leaves the measure undefined. */
  lemma RgrReference(yhat: seq<real>, pert: seq<real>)
    ensures !AllEqual(yhat) ==> Rgr(Rga, yhat, yhat) == Ok(1.0)
    ensures |yhat| == |pert| ==> (Rgr(Rga, yhat, pert) == Err(DivisionUndefined) <==> AllEqual(yhat))
  {
    if !AllEqual(yhat) {
      PerfectOrder(yhat, yhat);
    }
  }
}
