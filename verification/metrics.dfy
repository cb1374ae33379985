/** Numbers derived from aggregated query results, over exact reals: guarded
    ratios (ticket per service, procedures per service, the summary ticket),
    the period-over-period percentage change, and the "mean of months". */
module Metrics {
  import opened Base

  // ----- Guarded ratios -----

  /** `num / den if den > 0 else 0` */
  function Ratio(num: real, den: int): (r: real)
    ensures den > 0 ==> r * den as real == num
    ensures den <= 0 ==> r == 0.0
  {
    if den > 0 then num / den as real else 0.0
  }

  /** `num / den if den else 0`: the truthiness form of the summary card. */
  function TruthyRatio(num: real, den: int): (r: real)
    ensures den != 0 ==> r * den as real == num
    ensures den == 0 ==> r == 0.0
  {
    if den != 0 then num / den as real else 0.0
  }

  /** Counts are never negative, so the two guards give the same ratio. */
  lemma GuardsAgreeOnCounts(num: real, den: nat)
    ensures Ratio(num, den) == TruthyRatio(num, den)
  {
  }

  /** On a negative count the guards part ways: one yields 0, the other divides. */
  lemma GuardsDifferOnNegative(num: real, den: int)
    requires den < 0 && num != 0.0
    ensures Ratio(num, den) != TruthyRatio(num, den)
  {
  }

  /** `[n / d if d > 0 else 0 for n, d in zip(nums, dens)]` */
  function Ratios(nums: seq<real>, dens: seq<int>): (r: seq<real>)
    ensures |r| == if |nums| < |dens| then |nums| else |dens|
  {
    var n := if |nums| < |dens| then |nums| else |dens|;
    seq(n, i requires 0 <= i < n => Ratio(nums[i], dens[i]))
  }

  /** Each ratio times its count gives back its total; a zero count gives 0. */
  lemma RatiosInverse(nums: seq<real>, dens: seq<int>, i: int)
    requires 0 <= i < |nums| && i < |dens|
    ensures dens[i] > 0 ==> Ratios(nums, dens)[i] * dens[i] as real == nums[i]
    ensures dens[i] <= 0 ==> Ratios(nums, dens)[i] == 0.0
  {
  }

  // ----- Period-over-period change -----

  /** The percentage change from `prev` to `curr`, `None` when `prev` is 0. */
  function Delta(prev: real, curr: real): (d: Option<real>)
    ensures d.None? <==> prev == 0.0
    ensures d.Some? ==> d.value * prev == (curr - prev) * 100.0
  {
    if prev == 0.0 then None else Some((curr - prev) / prev * 100.0)
  }

  /** Applying a change to the previous value gives back the current one. */
  lemma DeltaInverse(prev: real, curr: real)
    requires prev != 0.0
    ensures prev + prev * Delta(prev, curr).value / 100.0 == curr
  {
  }

  /** A positive previous value: the change is positive exactly when the value
      grew, and zero exactly when it stayed. With a negative previous value
      the sign is reversed. */
  lemma DeltaSign(prev: real, curr: real)
    requires prev != 0.0
    ensures prev > 0.0 ==> (Delta(prev, curr).value > 0.0 <==> curr > prev)
    ensures prev < 0.0 ==> (Delta(prev, curr).value > 0.0 <==> curr < prev)
    ensures Delta(prev, curr).value == 0.0 <==> curr == prev
  {
    var d := Delta(prev, curr).value;
    assert d * prev == (curr - prev) * 100.0;
    if prev > 0.0 {
      if d > 0.0 { assert d * prev > 0.0; }
      if curr > prev { assert d * prev > 0.0; }
    } else {
      if d > 0.0 { assert d * prev < 0.0; }
      if curr < prev { assert d * prev < 0.0; }
    }
  }

  /** The `percentuais` loop: `None` for the first period, then the change
      from each period to the next. The list starts as `[None]`, so even an
      empty series yields one entry. */
  method PeriodDeltas(xs: seq<real>) returns (ps: seq<Option<real>>)
    ensures |ps| == if |xs| == 0 then 1 else |xs|
    ensures ps[0] == None
    ensures forall i :: 1 <= i < |xs| ==> (ps[i].None? <==> xs[i - 1] == 0.0)
    ensures forall i :: 1 <= i < |xs| && xs[i - 1] != 0.0 ==>
              ps[i].value * xs[i - 1] == (xs[i] - xs[i - 1]) * 100.0
  {
    ps := [None];
    var i := 1;
    while i < |xs|
      invariant 1 <= i && (i == 1 || i <= |xs|)
      invariant |ps| == i
      invariant ps[0] == None
      invariant forall k :: 1 <= k < i && k < |xs| ==> ps[k] == Delta(xs[k - 1], xs[k])
    {
      ps := ps + [Delta(xs[i - 1], xs[i])];
      i := i + 1;
    }
  }

  // ----- Mean of months -----

  function CountPositive(vs: seq<real>): (c: nat)
    ensures c <= |vs|
  {
    if |vs| == 0 then 0 else (if vs[0] > 0.0 then 1 else 0) + CountPositive(vs[1..])
  }

  lemma {:induction false} CountPositiveSpec(vs: seq<real>)
    ensures CountPositive(vs) > 0 <==> AnyPositive(vs)
  {
    if |vs| > 0 {
      CountPositiveSpec(vs[1..]);
      if exists i :: 0 <= i < |vs[1..]| && vs[1..][i] > 0.0 {
        var i :| 0 <= i < |vs[1..]| && vs[1..][i] > 0.0;
        assert vs[i + 1] > 0.0;
      }
      if exists i :: 0 <= i < |vs| && vs[i] > 0.0 {
        var i :| 0 <= i < |vs| && vs[i] > 0.0;
        if i > 0 {
          assert vs[1..][i - 1] > 0.0;
        }
      }
    }
  }

  /** `sum(vs) / len([v for v in vs if v > 0]) if any(v > 0 for v in vs) else 0`:
      the sum of every month divided by the number of positive months. */
  function MeanOfMonths(vs: seq<real>): (r: real)
    ensures CountPositive(vs) > 0 ==> r * CountPositive(vs) as real == Sum(vs)
    ensures CountPositive(vs) == 0 ==> r == 0.0
  {
    CountPositiveSpec(vs);
    if AnyPositive(vs) then
      Sum(vs) / CountPositive(vs) as real
    else 0.0
  }

  /** The mean times the number of positive months gives back the sum of all
      months; with no positive month the mean is 0. */
  lemma MeanTimesCount(vs: seq<real>)
    ensures MeanOfMonths(vs) * CountPositive(vs) as real == (if CountPositive(vs) > 0 then Sum(vs) else 0.0)
    ensures CountPositive(vs) == 0 ==> MeanOfMonths(vs) == 0.0
  {
    CountPositiveSpec(vs);
  }

  /** `any(v > 0 for v in vs)` */
  predicate AnyPositive(vs: seq<real>)
  {
    exists i :: 0 <= i < |vs| && vs[i] > 0.0
  }

  /** No month is negative. */
  predicate NoNegative(vs: seq<real>)
  {
    |vs| == 0 || (vs[0] >= 0.0 && NoNegative(vs[1..]))
  }

  /** Every month is positive. */
  predicate AllPositive(vs: seq<real>)
  {
    |vs| == 0 || (vs[0] > 0.0 && AllPositive(vs[1..]))
  }

  lemma {:induction false} SumNonNegative(vs: seq<real>)
    requires NoNegative(vs)
    ensures Sum(vs) >= 0.0
  {
    if |vs| > 0 {
      SumNonNegative(vs[1..]);
    }
  }

  /** With no negative month, skipping the empty months can only raise the
      mean above the plain average. */
  lemma MeanAtLeastAverage(vs: seq<real>)
    requires |vs| > 0 && NoNegative(vs)
    ensures MeanOfMonths(vs) >= Sum(vs) / |vs| as real
  {
    var c := CountPositive(vs);
    CountPositiveSpec(vs);
    if c == 0 {
      assert MeanOfMonths(vs) == 0.0;
      SumOfZeros(vs);
      assert Sum(vs) / |vs| as real == 0.0;
    } else {
      assert MeanOfMonths(vs) == Sum(vs) / c as real;
      SumNonNegative(vs);
      DivideByFewer(Sum(vs), c as real, |vs| as real);
    }
  }

  /** With every month positive it is the plain average. */
  lemma MeanIsAverageWhenAllPositive(vs: seq<real>)
    requires |vs| > 0 && AllPositive(vs)
    ensures MeanOfMonths(vs) == Sum(vs) / |vs| as real
  {
    CountAllPositive(vs);
  }

  /** A non-negative total divided by fewer parts gives a larger share. */
  lemma DivideByFewer(t: real, c: real, n: real)
    requires t >= 0.0 && 0.0 < c <= n
    ensures t / c >= t / n
  {
    var a := t / c;
    var b := t / n;
    assert a * c == t && b * n == t;
    assert a >= 0.0;
    assert a * n >= a * c by {
      assert a * n - a * c == a * (n - c);
    }
  }

  lemma {:induction false} CountAllPositive(vs: seq<real>)
    requires AllPositive(vs)
    ensures CountPositive(vs) == |vs|
    ensures |vs| > 0 ==> AnyPositive(vs)
  {
    if |vs| > 0 {
      CountAllPositive(vs[1..]);
      assert vs[0] > 0.0;
    }
  }

  lemma {:induction false} SumOfZeros(vs: seq<real>)
    requires NoNegative(vs)
    requires CountPositive(vs) == 0
    ensures Sum(vs) == 0.0
  {
    if |vs| > 0 {
      SumOfZeros(vs[1..]);
    }
  }
}
