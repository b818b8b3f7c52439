/** Measuring one configuration, and reading a curve (packages/bench/src/harness.ts). */
module Harness {
  import opened Common
  import opened Stats

  const RUNS_PER_CONFIG: int := 20

  datatype CodeCache = Cold | Warm

  datatype ReduceObservation = ReduceObservation(
    ok: bool, reduceMs: real, treeDepth: real, combines: real, recomputes: real,
    combineExecutors: real)

  datatype Observation = Observation(
    makespanMs: real, complete: bool, grossNodeSeconds: real, usefulNodeSeconds: real,
    speculationMultiplier: real, redispatches: real, reduce: ReduceObservation)

  datatype CostReport = CostReport(
    grossNodeSeconds: real, usefulNodeSeconds: real, verificationTax: real, speculationTax: real,
    churnTax: real)

  datatype ReduceReport = ReduceReport(
    ms: Summary, treeDepth: real, combines: real, recomputes: real, combineExecutors: real)

  datatype SweepResult = SweepResult(
    makespan: Summary, coldStartMs: Option<real>, incomplete: nat, cost: CostReport,
    reduce: ReduceReport, observations: seq<Observation>)

  type Figure = Observation -> real
  type Keep = Observation -> bool

  /** One figure of each kept observation, in order. */
  function Pick(observations: seq<Observation>, keep: Keep, figure: Figure): seq<real> {
    if observations == [] then []
    else
      var last := observations[|observations| - 1];
      Pick(observations[..|observations| - 1], keep, figure)
      + if keep(last) then [figure(last)] else []
  }

  function Mean(values: seq<real>): real {
    if values == [] then 0.0 else Sum(values) / |values| as real
  }

  function Larger(a: real, b: real): real {
    if a <= b then b else a
  }

  function MaxFrom(values: seq<real>, floor: real): real {
    if values == [] then floor
    else Larger(MaxFrom(values[..|values| - 1], floor), values[|values| - 1])
  }

  function MaxOf(values: seq<real>): real {
    MaxFrom(values, 0.0)
  }

  const ALL: Keep := o => true
  const COMPLETE: Keep := (o: Observation) => o.complete
  const REDUCED: Keep := (o: Observation) => o.complete && o.reduce.ok
  const MAKESPAN: Figure := (o: Observation) => o.makespanMs
  const GROSS: Figure := (o: Observation) => o.grossNodeSeconds
  const USEFUL: Figure := (o: Observation) => o.usefulNodeSeconds
  const SPECULATION: Figure := (o: Observation) => o.speculationMultiplier
  const CHURN: Figure := (o: Observation) => o.redispatches
  const REDUCE_MS: Figure := (o: Observation) => o.reduce.reduceMs
  const DEPTH: Figure := (o: Observation) => o.reduce.treeDepth
  const COMBINES: Figure := (o: Observation) => o.reduce.combines
  const RECOMPUTES: Figure := (o: Observation) => o.reduce.recomputes
  const EXECUTORS: Figure := (o: Observation) => o.reduce.combineExecutors

  function CostOf(measured: seq<Observation>): CostReport {
    var gross, useful := Sum(Pick(measured, ALL, GROSS)), Sum(Pick(measured, ALL, USEFUL));
    CostReport(gross, useful, if useful == 0.0 then 0.0 else gross / useful,
               Mean(Pick(measured, ALL, SPECULATION)), Mean(Pick(measured, ALL, CHURN)))
  }

  function ReduceOf(measured: seq<Observation>): ReduceReport {
    ReduceReport(
      Summarise(Pick(measured, REDUCED, REDUCE_MS)), MaxOf(Pick(measured, REDUCED, DEPTH)),
      MaxOf(Pick(measured, REDUCED, COMBINES)), Sum(Pick(measured, REDUCED, RECOMPUTES)),
      MaxOf(Pick(measured, REDUCED, EXECUTORS)))
  }

  /** The runner: the i-th run of a configuration, on a cold or a warm code cache. */
  type Runner = (nat, CodeCache) -> Observation

  datatype Options = Options(runs: Option<int>, separateColdStart: Option<bool>)

  method Measure(runner: Runner, options: Options) returns (r: SweepResult)
    ensures var runs := Max(0, options.runs.GetOr(20));
      var separate := options.separateColdStart.GetOr(true);
      && |r.observations| == runs
      && (forall i :: 0 <= i < runs ==>
            r.observations[i] == runner(i, if separate && i == 0 then Cold else Warm))
      && r.coldStartMs == (if separate && runs > 0 then Some(r.observations[0].makespanMs) else None)
      && r == Published(r.observations, separate)
  {
    hide CostOf, ReduceOf, Summarise;
    var runs := options.runs.GetOr(RUNS_PER_CONFIG);
    var separateColdStart := options.separateColdStart.GetOr(true);
    var observations: seq<Observation> := [];
    var coldStartMs: Option<real> := None;
    var i := 0;
    while i < runs
      invariant 0 <= i <= Max(0, runs)
      invariant |observations| == i
      invariant forall j :: 0 <= j < i ==>
        observations[j] == runner(j, if separateColdStart && j == 0 then Cold else Warm)
      invariant coldStartMs ==
        if separateColdStart && i > 0 then Some(observations[0].makespanMs) else None
    {
      var cold := separateColdStart && i == 0;
      var observation := runner(i, if cold then Cold else Warm);
      observations := observations + [observation];
      if cold {
        coldStartMs := Some(observation.makespanMs);
      }
      i := i + 1;
    }
    var measured := if separateColdStart && observations != [] then observations[1..]
                    else observations;
    var makespans := Pick(measured, COMPLETE, MAKESPAN);
    PickIsNotLonger(measured, COMPLETE, MAKESPAN);
    r := SweepResult(Summarise(makespans), coldStartMs, |measured| - |makespans|,
                     CostOf(measured), ReduceOf(measured), observations);
  }

  /** The runs that are measured: all of them, or all but the cold one. */
  function MeasuredOf(observations: seq<Observation>, separate: bool): seq<Observation> {
    if separate && observations != [] then observations[1..] else observations
  }

  /** What is published about a list of observations. */
  function Published(observations: seq<Observation>, separate: bool): SweepResult {
    var measured := MeasuredOf(observations, separate);
    PickIsNotLonger(measured, COMPLETE, MAKESPAN);
    SweepResult(
      Summarise(Pick(measured, COMPLETE, MAKESPAN)),
      if separate && observations != [] then Some(observations[0].makespanMs) else None,
      |measured| - |Pick(measured, COMPLETE, MAKESPAN)|,
      CostOf(measured), ReduceOf(measured), observations)
  }

  lemma {:induction false} PickIsNotLonger(
      observations: seq<Observation>, keep: Keep, figure: Figure)
    ensures |Pick(observations, keep, figure)| <= |observations|
  {
    if observations != [] {
      PickIsNotLonger(observations[..|observations| - 1], keep, figure);
    }
  }

  // ---- order --------------------------------------------------------------------------------

  lemma {:induction false} PickAppend(
      a: seq<Observation>, b: seq<Observation>, keep: Keep, figure: Figure)
    ensures Pick(a + b, keep, figure) == Pick(a, keep, figure) + Pick(b, keep, figure)
    decreases |b|
  {
    if b == [] {
      assert a + b == a;
    } else {
      PickAppend(a, b[..|b| - 1], keep, figure);
      assert (a + b)[..|a + b| - 1] == a + b[..|b| - 1];
    }
  }

  /** Reordering runs reorders a column of their figures and does no more. */
  lemma {:induction false} PickIgnoresOrder(
      a: seq<Observation>, b: seq<Observation>, keep: Keep, figure: Figure)
    requires multiset(a) == multiset(b)
    ensures multiset(Pick(a, keep, figure)) == multiset(Pick(b, keep, figure))
    decreases |a|
  {
    assert |multiset(a)| == |multiset(b)|;
    if a != [] {
      hide Pick;
      var front, x := a[..|a| - 1], a[|a| - 1];
      assert a == front + [x];
      assert x in multiset(b);
      var j :| 0 <= j < |b| && b[j] == x;
      var before, after := b[..j], b[j + 1..];
      assert b == before + ([x] + after);
      RemoveOne(front, x, before, after);
      PickIgnoresOrder(front, before + after, keep, figure);
      PickWithout(front, [], x, keep, figure);
      assert front + ([x] + []) == a && front + [] == front;
      PickWithout(before, after, x, keep, figure);
    }
  }

  lemma RemoveOne(
      front: seq<Observation>, x: Observation, before: seq<Observation>, after: seq<Observation>)
    requires multiset(front + [x]) == multiset(before + ([x] + after))
    ensures multiset(front) == multiset(before + after)
  {
    assert multiset(front) == multiset(front + [x]) - multiset([x]);
    assert multiset(before + after) == multiset(before + ([x] + after)) - multiset([x]);
  }

  lemma PickWithout(
      before: seq<Observation>, after: seq<Observation>, x: Observation, keep: Keep, figure: Figure)
    ensures multiset(Pick(before + ([x] + after), keep, figure))
         == multiset(Pick(before + after, keep, figure)) + multiset(Pick([x], keep, figure))
  {
    hide Pick;
    PickAppend(before, after, keep, figure);
    PickAppend(before, [x] + after, keep, figure);
    PickAppend([x], after, keep, figure);
  }

  lemma {:induction false} FoldsOfFront(x: real, s: seq<real>, floor: real)
    ensures Sum([x] + s) == x + Sum(s)
    ensures MaxFrom([x] + s, floor) == Larger(x, MaxFrom(s, floor))
    decreases |s|
  {
    if s == [] {
      assert [x] + s == [x] && [x][..0] == [];
    } else {
      FoldsOfFront(x, s[..|s| - 1], floor);
      assert ([x] + s)[..|[x] + s| - 1] == [x] + s[..|s| - 1];
    }
  }

  lemma {:induction false} FoldsOfInsert(x: real, s: seq<real>, floor: real)
    ensures Sum(Insert(x, s)) == x + Sum(s)
    ensures MaxFrom(Insert(x, s), floor) == Larger(x, MaxFrom(s, floor))
  {
    hide Sum, MaxFrom;
    if s == [] || x <= s[0] {
      FoldsOfFront(x, s, floor);
    } else {
      FoldsOfInsert(x, s[1..], floor);
      FoldsOfFront(s[0], Insert(x, s[1..]), floor);
      FoldsOfFront(s[0], s[1..], floor);
      assert s == [s[0]] + s[1..];
    }
  }

  lemma {:induction false} FoldsOfSort(s: seq<real>, floor: real)
    ensures Sum(Sort(s)) == Sum(s) && MaxFrom(Sort(s), floor) == MaxFrom(s, floor)
  {
    if s != [] {
      FoldsOfSort(s[..|s| - 1], floor);
      FoldsOfInsert(s[|s| - 1], Sort(s[..|s| - 1]), floor);
    }
  }

  /** Totals, means and maxima of two columns with the same figures. */
  lemma FoldsIgnoreOrder(a: seq<real>, b: seq<real>)
    requires multiset(a) == multiset(b)
    ensures Sum(a) == Sum(b) && Mean(a) == Mean(b) && MaxOf(a) == MaxOf(b)
    ensures Summarise(a) == Summarise(b) && |a| == |b|
  {
    hide Sum, MaxFrom, Sort, Summarise;
    assert |multiset(a)| == |multiset(b)|;
    FoldsOfSort(a, 0.0);
    FoldsOfSort(b, 0.0);
    SortIgnoresOrder(a, b);
    SummaryIgnoresOrder(a, b);
  }

  lemma ColumnIgnoresOrder(a: seq<Observation>, b: seq<Observation>, keep: Keep, figure: Figure)
    requires multiset(a) == multiset(b)
    ensures var x, y := Pick(a, keep, figure), Pick(b, keep, figure);
      && Sum(x) == Sum(y) && Mean(x) == Mean(y) && MaxOf(x) == MaxOf(y)
      && Summarise(x) == Summarise(y) && |x| == |y|
  {
    hide Pick, Sum, MaxOf, Summarise, Mean;
    PickIgnoresOrder(a, b, keep, figure);
    FoldsIgnoreOrder(Pick(a, keep, figure), Pick(b, keep, figure));
  }

  /** No published figure depends on the order the measured runs happened in. */
  lemma RunOrderNeverMatters(a: seq<Observation>, b: seq<Observation>, separate: bool)
    requires multiset(MeasuredOf(a, separate)) == multiset(MeasuredOf(b, separate))
    ensures var x, y := Published(a, separate), Published(b, separate);
      && x.makespan == y.makespan && x.incomplete == y.incomplete
      && x.cost == y.cost && x.reduce == y.reduce
  {
    hide Pick, Sum, MaxOf, Summarise, Mean, MeasuredOf;
    var m, n := MeasuredOf(a, separate), MeasuredOf(b, separate);
    assert |multiset(m)| == |multiset(n)|;
    ColumnIgnoresOrder(m, n, COMPLETE, MAKESPAN);
    ColumnIgnoresOrder(m, n, ALL, GROSS);
    ColumnIgnoresOrder(m, n, ALL, USEFUL);
    ColumnIgnoresOrder(m, n, ALL, SPECULATION);
    ColumnIgnoresOrder(m, n, ALL, CHURN);
    ColumnIgnoresOrder(m, n, REDUCED, REDUCE_MS);
    ColumnIgnoresOrder(m, n, REDUCED, DEPTH);
    ColumnIgnoresOrder(m, n, REDUCED, COMBINES);
    ColumnIgnoresOrder(m, n, REDUCED, RECOMPUTES);
    ColumnIgnoresOrder(m, n, REDUCED, EXECUTORS);
  }

  // ---- what is published -------------------------------------------------------------------

  /** The runs that are measured: all of them, or all but a first one on a cold cache. */
  ghost predicate IsMeasuredPart(
      observations: seq<Observation>, separate: bool, measured: seq<Observation>)
  {
    if separate && |observations| > 0 then observations == [observations[0]] + measured
    else observations == measured
  }

  lemma MeasuredIsThePart(
      observations: seq<Observation>, separate: bool, measured: seq<Observation>)
    requires IsMeasuredPart(observations, separate, measured)
    ensures MeasuredOf(observations, separate) == measured
  {
  }

  ghost function RunsWith(measured: seq<Observation>, p: Keep): set<nat> {
    set i: nat | i < |measured| && p(measured[i])
  }

  lemma OneMoreRun(measured: seq<Observation>, p: Keep)
    requires measured != []
    ensures var n := |measured| - 1;
      |RunsWith(measured, p)| == |RunsWith(measured[..n], p)| + (if p(measured[n]) then 1 else 0)
  {
    var n := |measured| - 1;
    assert RunsWith(measured, p) == RunsWith(measured[..n], p) + if p(measured[n]) then {n} else {};
  }

  lemma NoRuns(p: Keep)
    ensures RunsWith([], p) == {}
  {
  }

  lemma CountsOfBack(s: seq<real>, x: real, v: real)
    ensures AtMost(s + [x], v) == AtMost(s, v) + if x <= v then 1 else 0
    ensures Below(s + [x], v) == Below(s, v) + if x < v then 1 else 0
    ensures s + [] == s
  {
    assert (s + [x])[..|s|] == s;
  }

  /** Who is counted in a column: `low` those at most `v`, `lower` those below it. */
  ghost predicate Counts(keep: Keep, figure: Figure, v: real, low: Keep, lower: Keep) {
    && (forall o :: low(o) <==> keep(o) && figure(o) <= v)
    && (forall o :: lower(o) <==> keep(o) && figure(o) < v)
  }

  lemma {:induction false} PickCounts(
      measured: seq<Observation>, keep: Keep, figure: Figure, v: real, low: Keep, lower: Keep)
    requires Counts(keep, figure, v, low, lower)
    ensures var column := Pick(measured, keep, figure);
      && |column| == |RunsWith(measured, keep)|
      && AtMost(column, v) == |RunsWith(measured, low)|
      && Below(column, v) == |RunsWith(measured, lower)|
  {
    hide RunsWith;
    if measured == [] {
      NoRuns(keep);
      NoRuns(low);
      NoRuns(lower);
    } else {
      hide AtMost, Below;
      var n := |measured| - 1;
      PickCounts(measured[..n], keep, figure, v, low, lower);
      OneMoreRun(measured, keep);
      OneMoreRun(measured, low);
      OneMoreRun(measured, lower);
      CountsOfBack(Pick(measured[..n], keep, figure), figure(measured[n]), v);
    }
  }

  lemma {:induction false} PickHolds(
      measured: seq<Observation>, keep: Keep, figure: Figure, v: real)
    ensures v in Pick(measured, keep, figure) <==>
      exists i :: 0 <= i < |measured| && keep(measured[i]) && figure(measured[i]) == v
  {
    if measured != [] {
      var n := |measured| - 1;
      PickHolds(measured[..n], keep, figure, v);
      assert measured == measured[..n] + [measured[n]];
    }
  }

  ghost function CompletedRuns(measured: seq<Observation>): set<nat> {
    set i: nat | i < |measured| && measured[i].complete
  }

  /** The makespan of a completed run, at or above `percent` of a hundred of them, above fewer. */
  ghost predicate IsMakespanQuantile(measured: seq<Observation>, v: real, percent: nat) {
    var atMost := set i: nat |
      i < |measured| && measured[i].complete && measured[i].makespanMs <= v;
    var below := set i: nat |
      i < |measured| && measured[i].complete && measured[i].makespanMs < v;
    && (exists i :: 0 <= i < |measured| && measured[i].complete && measured[i].makespanMs == v)
    && 100 * |atMost| >= percent * |CompletedRuns(measured)|
    && 100 * |below| < percent * |CompletedRuns(measured)|
  }

  ghost function ReducedRuns(measured: seq<Observation>): set<nat> {
    set i: nat | i < |measured| && measured[i].complete && measured[i].reduce.ok
  }

  /** Likewise the reduce time of a completed run whose reduce produced something. */
  ghost predicate IsReduceQuantile(measured: seq<Observation>, v: real, percent: nat) {
    var atMost := set i: nat |
      i < |measured| && measured[i].complete && measured[i].reduce.ok
      && measured[i].reduce.reduceMs <= v;
    var below := set i: nat |
      i < |measured| && measured[i].complete && measured[i].reduce.ok
      && measured[i].reduce.reduceMs < v;
    && (exists i :: 0 <= i < |measured| && measured[i].complete && measured[i].reduce.ok
          && measured[i].reduce.reduceMs == v)
    && 100 * |atMost| >= percent * |ReducedRuns(measured)|
    && 100 * |below| < percent * |ReducedRuns(measured)|
  }

  lemma QuantileOfPick(
      measured: seq<Observation>, keep: Keep, figure: Figure, v: real, percent: nat, low: Keep,
      lower: Keep)
    requires Counts(keep, figure, v, low, lower)
    ensures |Pick(measured, keep, figure)| == |RunsWith(measured, keep)|
    ensures IsQuantile(Pick(measured, keep, figure), v, percent) <==>
      && (exists i :: 0 <= i < |measured| && keep(measured[i]) && figure(measured[i]) == v)
      && 100 * |RunsWith(measured, low)| >= percent * |RunsWith(measured, keep)|
      && 100 * |RunsWith(measured, lower)| < percent * |RunsWith(measured, keep)|
  {
    hide Pick, AtMost, Below, AtMostOf, BelowOf, RunsWith, Counts;
    PickCounts(measured, keep, figure, v, low, lower);
    PickHolds(measured, keep, figure, v);
    CountsAreCounts(Pick(measured, keep, figure), v);
  }

  lemma MakespanQuantile(measured: seq<Observation>, v: real, percent: nat)
    ensures IsQuantile(Pick(measured, COMPLETE, MAKESPAN), v, percent)
      <==> IsMakespanQuantile(measured, v, percent)
    ensures |Pick(measured, COMPLETE, MAKESPAN)| == |CompletedRuns(measured)|
  {
    hide Pick, IsQuantile;
    var low: Keep := (o: Observation) => o.complete && o.makespanMs <= v;
    var lower: Keep := (o: Observation) => o.complete && o.makespanMs < v;
    QuantileOfPick(measured, COMPLETE, MAKESPAN, v, percent, low, lower);
    assert RunsWith(measured, COMPLETE) == CompletedRuns(measured);
    assert RunsWith(measured, low)
        == set i: nat | i < |measured| && measured[i].complete && measured[i].makespanMs <= v;
    assert RunsWith(measured, lower)
        == set i: nat | i < |measured| && measured[i].complete && measured[i].makespanMs < v;
  }

  lemma ReduceQuantile(measured: seq<Observation>, v: real, percent: nat)
    ensures IsQuantile(Pick(measured, REDUCED, REDUCE_MS), v, percent)
      <==> IsReduceQuantile(measured, v, percent)
    ensures |Pick(measured, REDUCED, REDUCE_MS)| == |ReducedRuns(measured)|
  {
    hide Pick, IsQuantile;
    var low: Keep := (o: Observation) => o.complete && o.reduce.ok && o.reduce.reduceMs <= v;
    var lower: Keep := (o: Observation) => o.complete && o.reduce.ok && o.reduce.reduceMs < v;
    QuantileOfPick(measured, REDUCED, REDUCE_MS, v, percent, low, lower);
    assert RunsWith(measured, REDUCED) == ReducedRuns(measured);
    assert RunsWith(measured, low)
        == set i: nat | i < |measured| && measured[i].complete && measured[i].reduce.ok
             && measured[i].reduce.reduceMs <= v;
    assert RunsWith(measured, lower)
        == set i: nat | i < |measured| && measured[i].complete && measured[i].reduce.ok
             && measured[i].reduce.reduceMs < v;
  }

  /** The percentiles published are those of the makespans of the completed measured runs. */
  lemma PublishesTheMakespans(
      observations: seq<Observation>, separate: bool, measured: seq<Observation>, v: real)
    requires IsMeasuredPart(observations, separate, measured) && CompletedRuns(measured) != {}
    ensures var r := Published(observations, separate);
      && r.makespan.n == |CompletedRuns(measured)|
      && r.incomplete == |measured| - |CompletedRuns(measured)|
      && (r.makespan.p50 == Num(v) <==> IsMakespanQuantile(measured, v, 50))
      && (r.makespan.p95 == Num(v) <==> IsMakespanQuantile(measured, v, 95))
      && (r.makespan.p99 == Num(v) <==> IsMakespanQuantile(measured, v, 99))
  {
    hide Pick, Summarise, CostOf, ReduceOf, IsQuantile, IsMakespanQuantile, CompletedRuns;
    MeasuredIsThePart(observations, separate, measured);
    MakespanQuantile(measured, v, 50);
    MakespanQuantile(measured, v, 95);
    MakespanQuantile(measured, v, 99);
    SummaryHasTheQuantiles(Pick(measured, COMPLETE, MAKESPAN), v);
    SummaryCounts(Pick(measured, COMPLETE, MAKESPAN));
  }

  /** And those of the reduce times, of the completed runs whose reduce produced something. */
  lemma PublishesTheReduces(
      observations: seq<Observation>, separate: bool, measured: seq<Observation>, v: real)
    requires IsMeasuredPart(observations, separate, measured) && ReducedRuns(measured) != {}
    ensures var r := Published(observations, separate);
      && r.reduce.ms.n == |ReducedRuns(measured)|
      && (r.reduce.ms.p50 == Num(v) <==> IsReduceQuantile(measured, v, 50))
      && (r.reduce.ms.p95 == Num(v) <==> IsReduceQuantile(measured, v, 95))
      && (r.reduce.ms.p99 == Num(v) <==> IsReduceQuantile(measured, v, 99))
  {
    hide Pick, Summarise, CostOf, IsQuantile, IsReduceQuantile, ReducedRuns, MaxOf, Sum;
    MeasuredIsThePart(observations, separate, measured);
    ReduceQuantile(measured, v, 50);
    ReduceQuantile(measured, v, 95);
    ReduceQuantile(measured, v, 99);
    SummaryHasTheQuantiles(Pick(measured, REDUCED, REDUCE_MS), v);
    SummaryCounts(Pick(measured, REDUCED, REDUCE_MS));
  }

  /** The figures of the measured runs one by one; a run that is not kept stands for nothing. */
  ghost predicate IsColumn(column: seq<real>, measured: seq<Observation>, keep: Keep, figure: Figure) {
    && |column| == |measured|
    && forall i :: 0 <= i < |measured| ==>
         column[i] == if keep(measured[i]) then figure(measured[i]) else 0.0
  }

  lemma SumOfBack(s: seq<real>, x: real)
    ensures Sum(s + [x]) == Sum(s) + x && s + [] == s
  {
    assert (s + [x])[..|s|] == s;
  }

  lemma {:induction false} SumOfPick(
      column: seq<real>, measured: seq<Observation>, keep: Keep, figure: Figure)
    requires IsColumn(column, measured, keep, figure)
    ensures Sum(Pick(measured, keep, figure)) == Sum(column)
    decreases |measured|
  {
    if measured != [] {
      var n := |measured| - 1;
      SumOfPick(column[..n], measured[..n], keep, figure);
      SumOfBack(Pick(measured[..n], keep, figure), figure(measured[n]));
    }
  }

  lemma {:induction false} PickOfAll(measured: seq<Observation>, figure: Figure)
    ensures |Pick(measured, ALL, figure)| == |measured|
  {
    if measured != [] {
      PickOfAll(measured[..|measured| - 1], figure);
    }
  }

  lemma MeanOfPick(column: seq<real>, measured: seq<Observation>, figure: Figure)
    requires IsColumn(column, measured, ALL, figure)
    ensures Mean(Pick(measured, ALL, figure)) * |measured| as real == Sum(column)
  {
    hide Pick, Sum;
    SumOfPick(column, measured, ALL, figure);
    PickOfAll(measured, figure);
    if measured == [] {
      NoSum();
    } else {
      ShareTimesCount(Sum(column), |measured|);
    }
  }

  lemma NoSum()
    ensures Sum([]) == 0.0
  {
  }

  /** One figure of every measured run, failed ones included. */
  ghost predicate AreFigures(column: seq<real>, measured: seq<Observation>, which: nat) {
    && |column| == |measured|
    && forall i :: 0 <= i < |measured| ==>
         column[i] == match which
           case 0 => measured[i].grossNodeSeconds
           case 1 => measured[i].usefulNodeSeconds
           case 2 => measured[i].speculationMultiplier
           case _ => measured[i].redispatches
  }

  /** Two totals, and how often the one goes into the other. */
  ghost predicate HasTotals(cost: CostReport, gross: real, useful: real) {
    && cost.grossNodeSeconds == gross && cost.usefulNodeSeconds == useful
    && (useful != 0.0 ==> cost.verificationTax * useful == gross)
    && (useful == 0.0 ==> cost.verificationTax == 0.0)
  }

  /** Two means over `n` runs, by what they come to. */
  ghost predicate HasMeans(cost: CostReport, n: nat, speculation: real, churn: real) {
    && cost.speculationTax * n as real == speculation && cost.churnTax * n as real == churn
    && (n == 0 ==> cost.speculationTax == 0.0 && cost.churnTax == 0.0)
  }

  /** The cost is over every measured run: two totals, their ratio, and two means. */
  lemma PublishesTheCost(
      observations: seq<Observation>, separate: bool, measured: seq<Observation>,
      gross: seq<real>, useful: seq<real>, speculation: seq<real>, churn: seq<real>)
    requires IsMeasuredPart(observations, separate, measured)
    requires AreFigures(gross, measured, 0) && AreFigures(useful, measured, 1)
    requires AreFigures(speculation, measured, 2) && AreFigures(churn, measured, 3)
    ensures var cost := Published(observations, separate).cost;
      HasTotals(cost, Sum(gross), Sum(useful))
      && HasMeans(cost, |measured|, Sum(speculation), Sum(churn))
  {
    hide Pick, Summarise, ReduceOf, Sum, CostOf, AreFigures, HasTotals, HasMeans;
    MeasuredIsThePart(observations, separate, measured);
    TotalsOf(measured, gross, useful);
    MeansOf(measured, speculation, churn);
  }

  lemma TotalsOf(measured: seq<Observation>, gross: seq<real>, useful: seq<real>)
    requires AreFigures(gross, measured, 0) && AreFigures(useful, measured, 1)
    ensures HasTotals(CostOf(measured), Sum(gross), Sum(useful))
  {
    hide Pick, Sum, Mean;
    assert IsColumn(gross, measured, ALL, GROSS) && IsColumn(useful, measured, ALL, USEFUL);
    SumOfPick(gross, measured, ALL, GROSS);
    SumOfPick(useful, measured, ALL, USEFUL);
    RatioTimesDivisor(Sum(gross), Sum(useful));
  }

  lemma RatioTimesDivisor(x: real, y: real)
    ensures y != 0.0 ==> x / y * y == x
  {
  }

  lemma MeansOf(measured: seq<Observation>, speculation: seq<real>, churn: seq<real>)
    requires AreFigures(speculation, measured, 2) && AreFigures(churn, measured, 3)
    ensures HasMeans(CostOf(measured), |measured|, Sum(speculation), Sum(churn))
  {
    hide Pick, Sum, Mean;
    assert IsColumn(speculation, measured, ALL, SPECULATION) && IsColumn(churn, measured, ALL, CHURN);
    MeanOfPick(speculation, measured, SPECULATION);
    MeanOfPick(churn, measured, CHURN);
    NoMean();
    PickOfAll(measured, SPECULATION);
    PickOfAll(measured, CHURN);
  }

  lemma NoMean()
    ensures Mean([]) == 0.0
  {
  }

  /** The greatest of the kept figures, and 0 when nothing is above that. */
  ghost predicate IsGreatest(x: real, measured: seq<Observation>, figure: Figure) {
    && x >= 0.0
    && (forall i :: 0 <= i < |measured| && measured[i].complete && measured[i].reduce.ok ==>
          figure(measured[i]) <= x)
    && (x == 0.0 || exists i :: 0 <= i < |measured| && measured[i].complete && measured[i].reduce.ok
                      && figure(measured[i]) == x)
  }

  lemma {:induction false} MaxOfPick(measured: seq<Observation>, figure: Figure)
    ensures IsGreatest(MaxOf(Pick(measured, REDUCED, figure)), measured, figure)
  {
    if measured != [] {
      var n := |measured| - 1;
      MaxOfPick(measured[..n], figure);
      var before, last := measured[..n], measured[n];
      assert measured == before + [last];
      MaxOfBack(Pick(before, REDUCED, figure), figure(last));
    }
  }

  lemma MaxOfBack(s: seq<real>, x: real)
    ensures MaxOf(s + [x]) == if MaxOf(s) <= x then x else MaxOf(s)
    ensures s + [] == s
  {
    assert (s + [x])[..|s|] == s;
  }

  /** The reduce row: three maxima and a total, over the completed runs that reduced something. */
  lemma PublishesTheReduceRow(
      observations: seq<Observation>, separate: bool, measured: seq<Observation>,
      recomputes: seq<real>)
    requires IsMeasuredPart(observations, separate, measured)
    requires IsColumn(recomputes, measured, (o: Observation) => o.complete && o.reduce.ok,
                      (o: Observation) => o.reduce.recomputes)
    ensures var reduce := Published(observations, separate).reduce;
      && IsGreatest(reduce.treeDepth, measured, (o: Observation) => o.reduce.treeDepth)
      && IsGreatest(reduce.combines, measured, (o: Observation) => o.reduce.combines)
      && IsGreatest(reduce.combineExecutors, measured, (o: Observation) => o.reduce.combineExecutors)
      && reduce.recomputes == Sum(recomputes)
  {
    hide Pick, Summarise, CostOf, Sum, MaxOf;
    MeasuredIsThePart(observations, separate, measured);
    MaxOfPick(measured, DEPTH);
    MaxOfPick(measured, COMBINES);
    MaxOfPick(measured, EXECUTORS);
    assert IsColumn(recomputes, measured, REDUCED, RECOMPUTES);
    SumOfPick(recomputes, measured, REDUCED, RECOMPUTES);
  }

  // ---- incomplete runs -----------------------------------------------------------------------

  /** Every measured run is in the makespan statistics or counted as incomplete, never both. */
  lemma EveryMeasuredRunIsCountedOnce(observations: seq<Observation>, separate: bool)
    ensures var r, measured := Published(observations, separate), MeasuredOf(observations, separate);
      && r.makespan.n + r.incomplete == |measured|
      && r.makespan.n == |Pick(measured, COMPLETE, MAKESPAN)|
      && (r.incomplete == 0 <==> forall i :: 0 <= i < |measured| ==> measured[i].complete)
  {
    hide Pick, CostOf, ReduceOf;
    var measured := MeasuredOf(observations, separate);
    SummaryCounts(Pick(measured, COMPLETE, MAKESPAN));
    PickKeepsAll(measured);
  }

  lemma SummaryCounts(s: seq<real>)
    ensures Summarise(s).n == |s|
  {
    SortSorts(s);
  }

  lemma {:induction false} PickKeepsAll(measured: seq<Observation>)
    ensures |Pick(measured, COMPLETE, MAKESPAN)| <= |measured|
    ensures |Pick(measured, COMPLETE, MAKESPAN)| == |measured| <==>
      forall i :: 0 <= i < |measured| ==> measured[i].complete
  {
    if measured != [] {
      var n := |measured| - 1;
      PickKeepsAll(measured[..n]);
      assert measured == measured[..n] + [measured[n]];
    }
  }

  /** Alike in every complete run, whatever the incomplete ones say. */
  ghost predicate SameCompleteRuns(a: seq<Observation>, b: seq<Observation>) {
    && |a| == |b|
    && forall i :: 0 <= i < |a| ==>
         a[i].complete == b[i].complete && (a[i].complete ==> a[i] == b[i])
  }

  /** No figure of an incomplete run reaches the makespan statistics or the reduce row. */
  lemma IncompleteRunsNeverReachTheMakespan(
      a: seq<Observation>, b: seq<Observation>, separate: bool)
    requires SameCompleteRuns(MeasuredOf(a, separate), MeasuredOf(b, separate))
    ensures var x, y := Published(a, separate), Published(b, separate);
      x.makespan == y.makespan && x.incomplete == y.incomplete && x.reduce == y.reduce
  {
    hide Pick, Summarise, CostOf, MeasuredOf, Sum, MaxOf;
    var m, n := MeasuredOf(a, separate), MeasuredOf(b, separate);
    SameColumns(m, n, COMPLETE, MAKESPAN);
    SameColumns(m, n, REDUCED, REDUCE_MS);
    SameColumns(m, n, REDUCED, DEPTH);
    SameColumns(m, n, REDUCED, COMBINES);
    SameColumns(m, n, REDUCED, RECOMPUTES);
    SameColumns(m, n, REDUCED, EXECUTORS);
  }

  lemma {:induction false} SameColumns(
      a: seq<Observation>, b: seq<Observation>, keep: Keep, figure: Figure)
    requires SameCompleteRuns(a, b) && (keep == COMPLETE || keep == REDUCED)
    ensures Pick(a, keep, figure) == Pick(b, keep, figure)
    decreases |a|
  {
    if a != [] {
      var n := |a| - 1;
      SameColumns(a[..n], b[..n], keep, figure);
    }
  }

  // ---- the crossover -------------------------------------------------------------------------

  datatype Point = Point(nodes: nat, makespan: Summary)

  datatype Crossover =
    | Found(nodes: nat, baselineP50: Number, distributedP50: Number)
    | NotFound(usable: nat, baselineP50: Number, bestP50: Number, bestAtNodes: Option<nat>)

  predicate Less(a: Number, b: Number) {
    a.Num? && b.Num? && a.value < b.value
  }

  function Usable(curve: seq<Point>): (r: seq<Point>)
    ensures forall p :: p in r <==> p in curve && p.makespan.n > 0
  {
    if curve == [] then []
    else
      var n := |curve| - 1;
      assert curve == curve[..n] + [curve[n]];
      Usable(curve[..n]) + if curve[n].makespan.n > 0 then [curve[n]] else []
  }

  ghost function UsablePoints(curve: seq<Point>): set<nat> {
    set i: nat | i < |curve| && curve[i].makespan.n > 0
  }

  lemma OneMorePoint(curve: seq<Point>)
    requires curve != []
    ensures var n := |curve| - 1;
      |UsablePoints(curve)|
        == |UsablePoints(curve[..n])| + (if curve[n].makespan.n > 0 then 1 else 0)
  {
    var n := |curve| - 1;
    assert UsablePoints(curve)
        == UsablePoints(curve[..n]) + if curve[n].makespan.n > 0 then {n} else {};
  }

  lemma {:induction false} UsableAreCounted(curve: seq<Point>)
    ensures |Usable(curve)| == |UsablePoints(curve)|
  {
    if curve == [] {
      assert UsablePoints(curve) == {};
    } else {
      hide UsablePoints;
      UsableAreCounted(curve[..|curve| - 1]);
      OneMorePoint(curve);
    }
  }

  function Beating(baseline: Summary, usable: seq<Point>): (r: seq<Point>)
    ensures forall p :: p in r <==> p in usable && Less(p.makespan.p50, baseline.p50)
  {
    if usable == [] then []
    else
      assert usable == [usable[0]] + usable[1..];
      (if Less(usable[0].makespan.p50, baseline.p50) then [usable[0]] else [])
      + Beating(baseline, usable[1..])
  }

  /** First of a list sorted by node count. */
  function Fewest(points: seq<Point>): (r: Point)
    requires points != []
    ensures r in points && forall p :: p in points ==> r.nodes <= p.nodes
  {
    if |points| == 1 then points[0]
    else
      var rest := Fewest(points[1..]);
      assert points == [points[0]] + points[1..];
      if points[0].nodes <= rest.nodes then points[0] else rest
  }

  /** First of a list sorted by p50. */
  function Fastest(points: seq<Point>): (r: Point)
    requires points != [] && forall p :: p in points ==> p.makespan.p50.Num?
    ensures r in points
    ensures forall p :: p in points ==> r.makespan.p50.value <= p.makespan.p50.value
  {
    if |points| == 1 then points[0]
    else
      var rest := Fastest(points[1..]);
      assert points == [points[0]] + points[1..];
      if points[0].makespan.p50.value <= rest.makespan.p50.value then points[0] else rest
  }

  /** Makespans of completed runs have a median; `measure` publishes no other kind. */
  ghost predicate WellMeasured(curve: seq<Point>) {
    forall p :: p in curve && p.makespan.n > 0 ==> p.makespan.p50.Num?
  }

  ghost function CostCrossover(baseline: Summary, curve: seq<Point>): Crossover
    requires WellMeasured(curve)
  {
    var usable := Usable(curve);
    var beating := Beating(baseline, usable);
    if beating != [] then
      Found(Fewest(beating).nodes, baseline.p50, Fewest(beating).makespan.p50)
    else if usable == [] then NotFound(0, baseline.p50, NaN, None)
    else
      NotFound(|usable|, baseline.p50, Fastest(usable).makespan.p50, Some(Fastest(usable).nodes))
  }

  /** A usable point whose median beats the baseline's. */
  predicate Beats(p: Point, baseline: Summary) {
    && p.makespan.n > 0 && p.makespan.p50.Num? && baseline.p50.Num?
    && p.makespan.p50.value < baseline.p50.value
  }

  /** A usable point with this node count and this median. */
  predicate IsBest(p: Point, nodes: nat, p50: Number) {
    p.makespan.n > 0 && p.nodes == nodes && p.makespan.p50 == p50
  }

  /**
   * A crossover is found exactly when some usable point beats the baseline, and it is then the
   * smallest such node count; otherwise the best the curve managed is reported, if it has a point.
   */
  lemma CrossoverIsTheFirstThatBeats(baseline: Summary, curve: seq<Point>)
    requires WellMeasured(curve)
    ensures var r := CostCrossover(baseline, curve);
      && (r.Found? <==> exists p :: p in curve && Beats(p, baseline))
      && (r.Found? ==>
            && (exists p :: p in curve && Beats(p, baseline) && p.nodes == r.nodes
                  && p.makespan.p50 == r.distributedP50)
            && forall p :: p in curve && Beats(p, baseline) ==> r.nodes <= p.nodes)
    ensures CostCrossover(baseline, curve).baselineP50 == baseline.p50
    ensures var r := CostCrossover(baseline, curve);
      r.NotFound? ==> r.usable == |UsablePoints(curve)|
    ensures var r := CostCrossover(baseline, curve);
      r.NotFound? ==>
        && (r.bestAtNodes == None <==> forall p :: p in curve ==> p.makespan.n == 0)
        && (r.bestAtNodes.Some? ==> r.bestP50.Num? && forall p ::
              p in curve && p.makespan.n > 0 ==> r.bestP50.value <= p.makespan.p50.value)
        && (r.bestAtNodes.Some? ==>
              exists p :: p in curve && IsBest(p, r.bestAtNodes.value, r.bestP50))
  {
    UsableAreCounted(curve);
    var usable := Usable(curve);
    var beating := Beating(baseline, usable);
    if beating != [] {
      assert Fewest(beating) in beating;
    } else {
      assert forall p :: p in curve && Beats(p, baseline) ==> p in beating;
    }
    if usable != [] {
      var best := Fastest(usable);
      assert usable[0] in usable && best in usable;
      assert IsBest(best, best.nodes, best.makespan.p50);
    }
  }
}
