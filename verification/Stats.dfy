/** Nearest-rank percentiles and summaries (packages/bench/src/stats.ts). */
module Stats {
  import opened Common

  const MIN_RELIABLE_SAMPLES: nat := 10

  /** A JavaScript number, as far as comparisons tell: a real, or NaN. */
  datatype Number = NaN | Num(value: real)

  datatype Summary = Summary(
    n: nat, p50: Number, p95: Number, p99: Number, min: Number, max: Number,
    meanForCostArithmeticOnly: Number, reliable: bool)

  function Ceil(x: real): int {
    -(-x).Floor
  }

  // ---- sorting --------------------------------------------------------------------------

  ghost predicate Sorted(s: seq<real>) {
    forall i, j :: 0 <= i < j < |s| ==> s[i] <= s[j]
  }

  function Insert(x: real, s: seq<real>): seq<real> {
    if s == [] || x <= s[0] then [x] + s else [s[0]] + Insert(x, s[1..])
  }

  function Sort(s: seq<real>): seq<real> {
    if s == [] then [] else Insert(s[|s| - 1], Sort(s[..|s| - 1]))
  }

  lemma {:induction false} InsertKeepsAll(x: real, s: seq<real>)
    ensures multiset(Insert(x, s)) == multiset([x] + s)
  {
    if s != [] && x > s[0] {
      InsertKeepsAll(x, s[1..]);
      assert s == [s[0]] + s[1..];
      assert multiset([x] + s) == multiset([s[0]]) + multiset([x] + s[1..]);
    }
  }

  lemma {:induction false} InsertStaysAbove(x: real, s: seq<real>, low: real)
    requires low <= x && forall i :: 0 <= i < |s| ==> low <= s[i]
    ensures forall i :: 0 <= i < |Insert(x, s)| ==> low <= Insert(x, s)[i]
  {
    if s != [] && x > s[0] {
      InsertStaysAbove(x, s[1..], low);
    }
  }

  lemma {:induction false} InsertSorts(x: real, s: seq<real>)
    requires Sorted(s)
    ensures Sorted(Insert(x, s))
  {
    if s != [] && x > s[0] {
      InsertSorts(x, s[1..]);
      InsertStaysAbove(x, s[1..], s[0]);
    }
  }

  lemma {:induction false} SortSorts(s: seq<real>)
    ensures Sorted(Sort(s)) && multiset(Sort(s)) == multiset(s) && |Sort(s)| == |s|
  {
    if s != [] {
      var n := |s| - 1;
      SortSorts(s[..n]);
      InsertSorts(s[n], Sort(s[..n]));
      InsertKeepsAll(s[n], Sort(s[..n]));
      assert s == s[..n] + [s[n]];
      assert |multiset(Sort(s))| == |multiset(s)|;
    }
  }

  lemma HeadIsLeast(a: seq<real>, v: real)
    requires Sorted(a) && v in multiset(a)
    ensures a != [] && a[0] <= v
  {
    assert v in a;
  }

  lemma WithoutHead(a: seq<real>)
    requires a != []
    ensures multiset(a[1..]) == multiset(a) - multiset{a[0]}
  {
    assert a == [a[0]] + a[1..];
  }

  lemma SameLength(a: seq<real>, b: seq<real>)
    requires multiset(a) == multiset(b)
    ensures |a| == |b|
  {
    assert |multiset(a)| == |a|;
  }

  lemma SortedTail(a: seq<real>)
    requires Sorted(a) && a != []
    ensures Sorted(a[1..])
  {
  }

  lemma SameHead(a: seq<real>, b: seq<real>)
    requires Sorted(a) && Sorted(b) && multiset(a) == multiset(b) && a != [] && b != []
    ensures a[0] == b[0] && multiset(a[1..]) == multiset(b[1..])
  {
    hide Sorted;
    assert a[0] in multiset(a) && b[0] in multiset(b);
    HeadIsLeast(a, b[0]);
    HeadIsLeast(b, a[0]);
    WithoutHead(a);
    WithoutHead(b);
  }

  lemma Rejoin(a: seq<real>, b: seq<real>)
    requires a != [] && b != [] && a[0] == b[0] && a[1..] == b[1..]
    ensures a == b
  {
    assert a == [a[0]] + a[1..] && b == [b[0]] + b[1..];
  }

  /** A sorted list is determined by its elements. */
  lemma {:induction false} SortedIsUnique(a: seq<real>, b: seq<real>)
    requires Sorted(a) && Sorted(b) && multiset(a) == multiset(b)
    ensures a == b
  {
    hide Sorted;
    SameLength(a, b);
    if a != [] {
      SameHead(a, b);
      SortedTail(a);
      SortedTail(b);
      SortedIsUnique(a[1..], b[1..]);
      Rejoin(a, b);
    }
  }

  lemma SortIgnoresOrder(a: seq<real>, b: seq<real>)
    requires multiset(a) == multiset(b)
    ensures Sort(a) == Sort(b)
  {
    hide Sort;
    SortSorts(a);
    SortSorts(b);
    SortedIsUnique(Sort(a), Sort(b));
  }

  // ---- percentiles ------------------------------------------------------------------------

  datatype Quantile = Value(value: real) | NotANumber | RangeError(q: real)

  function Percentile(sorted: seq<real>, q: real): Quantile {
    if sorted == [] then NotANumber
    else if !(q > 0.0 && q <= 1.0) then RangeError(q)
    else
      var rank := Ceil(q * |sorted| as real);
      Value(sorted[Min(|sorted|, Max(1, rank)) - 1])
  }

  function AsNumber(quantile: Quantile): Number {
    if quantile.Value? then Num(quantile.value) else NaN
  }

  function Sum(s: seq<real>): real {
    if s == [] then 0.0 else Sum(s[..|s| - 1]) + s[|s| - 1]
  }

  function Summarise(observations: seq<real>): Summary {
    if observations == [] then Summary(0, NaN, NaN, NaN, NaN, NaN, NaN, false)
    else
      var sorted := Sort(observations);
      SortSorts(observations);
      Summary(
        |sorted|, AsNumber(Percentile(sorted, 0.5)), AsNumber(Percentile(sorted, 0.95)),
        AsNumber(Percentile(sorted, 0.99)), Num(sorted[0]), Num(sorted[|sorted| - 1]),
        Num(Sum(sorted) / |sorted| as real), |sorted| >= MIN_RELIABLE_SAMPLES)
  }

  /** How many observations are at most `v`. */
  function AtMost(s: seq<real>, v: real): nat {
    if s == [] then 0 else AtMost(s[..|s| - 1], v) + if s[|s| - 1] <= v then 1 else 0
  }

  /** How many observations are strictly below `v`. */
  function Below(s: seq<real>, v: real): nat {
    if s == [] then 0 else Below(s[..|s| - 1], v) + if s[|s| - 1] < v then 1 else 0
  }

  lemma {:induction false} CountsOfFront(x: real, s: seq<real>, v: real)
    ensures AtMost([x] + s, v) == AtMost(s, v) + if x <= v then 1 else 0
    ensures Below([x] + s, v) == Below(s, v) + if x < v then 1 else 0
    decreases |s|
  {
    if s == [] {
      assert [x] + s == [x] && [x][..0] == [];
    } else {
      CountsOfFront(x, s[..|s| - 1], v);
      assert ([x] + s)[..|[x] + s| - 1] == [x] + s[..|s| - 1];
    }
  }

  lemma {:induction false} InsertCounts(x: real, s: seq<real>, v: real)
    ensures AtMost(Insert(x, s), v) == AtMost(s, v) + if x <= v then 1 else 0
    ensures Below(Insert(x, s), v) == Below(s, v) + if x < v then 1 else 0
  {
    hide AtMost, Below;
    if s == [] || x <= s[0] {
      CountsOfFront(x, s, v);
    } else {
      InsertCounts(x, s[1..], v);
      CountsOfFront(s[0], Insert(x, s[1..]), v);
      CountsOfFront(s[0], s[1..], v);
      assert s == [s[0]] + s[1..];
    }
  }

  lemma {:induction false} SortCounts(s: seq<real>, v: real)
    ensures AtMost(Sort(s), v) == AtMost(s, v) && Below(Sort(s), v) == Below(s, v)
  {
    if s != [] {
      SortCounts(s[..|s| - 1], v);
      InsertCounts(s[|s| - 1], Sort(s[..|s| - 1]), v);
    }
  }

  /** In a sorted list, position decides both counts. */
  lemma {:induction false} CountsAtRank(s: seq<real>, k: nat, n: nat)
    requires Sorted(s) && k < |s| && n <= |s|
    ensures AtMost(s[..n], s[k]) >= Min(n, k + 1)
    ensures Below(s[..n], s[k]) <= Min(n, k)
    decreases n
  {
    if n > 0 {
      CountsAtRank(s, k, n - 1);
      assert s[..n][..n - 1] == s[..n - 1];
    }
  }

  lemma {:induction false} CountsAreOrdered(s: seq<real>, low: real, high: real)
    requires low < high
    ensures AtMost(s, low) <= Below(s, high)
  {
    if s != [] {
      CountsAreOrdered(s[..|s| - 1], low, high);
    }
  }

  /** The rank a quantile asks for. */
  function RankOf(n: nat, q: real): int {
    Ceil(q * n as real)
  }

  lemma RankIsInRange(n: nat, q: real)
    requires n > 0 && 0.0 < q <= 1.0
    ensures 1 <= RankOf(n, q) <= n
  {
    var x := q * n as real;
    assert 0.0 < x <= n as real;
  }

  /** An observed value with at least `rank` observations at or below it, fewer strictly below. */
  ghost predicate HasRank(observations: seq<real>, v: real, rank: int) {
    v in observations && AtMost(observations, v) >= rank && Below(observations, v) < rank
  }

  lemma PercentileIsAtRank(sorted: seq<real>, q: real)
    requires sorted != [] && 0.0 < q <= 1.0
    ensures 1 <= RankOf(|sorted|, q) <= |sorted|
    ensures Percentile(sorted, q) == Value(sorted[RankOf(|sorted|, q) - 1])
  {
    RankIsInRange(|sorted|, q);
  }

  /** Of nothing there is no percentile, and outside (0, 1] there is none of anything else. */
  lemma PercentileOutsideIsRefused(sorted: seq<real>, q: real)
    ensures Percentile(sorted, q) == NotANumber <==> sorted == []
    ensures Percentile(sorted, q) == RangeError(q) <==> sorted != [] && !(0.0 < q <= 1.0)
  {
  }

  /** The percentile of the sorted copy is the one observed value of its rank. */
  lemma PercentileIsTheObservedValueOfItsRank(observations: seq<real>, q: real, v: real)
    requires observations != [] && 0.0 < q <= 1.0
    ensures Percentile(Sort(observations), q) == Value(v)
      <==> HasRank(observations, v, RankOf(|observations|, q))
  {
    hide Sort, AtMost, Below, RankOf, Percentile;
    SortSorts(observations);
    var s := Sort(observations);
    var rank := RankOf(|s|, q);
    PercentileIsAtRank(s, q);
    var p := s[rank - 1];
    CountsAtRank(s, rank - 1, |s|);
    assert s[..|s|] == s;
    SortCounts(observations, p);
    assert p in multiset(s);
    if HasRank(observations, v, rank) {
      if v < p {
        CountsAreOrdered(observations, v, p);
      } else if p < v {
        CountsAreOrdered(observations, p, v);
      }
    }
  }

  /** A higher quantile is never a lower value. */
  lemma PercentileIsMonotoneInQ(sorted: seq<real>, q: real, q': real)
    requires Sorted(sorted) && sorted != [] && 0.0 < q <= q' <= 1.0
    ensures Percentile(sorted, q).value <= Percentile(sorted, q').value
  {
    hide RankOf;
    PercentileIsAtRank(sorted, q);
    PercentileIsAtRank(sorted, q');
    RankIsMonotone(|sorted|, q, q');
  }

  lemma RankIsMonotone(n: nat, q: real, q': real)
    requires q <= q'
    ensures RankOf(n, q) <= RankOf(n, q')
  {
    var x, y := q * n as real, q' * n as real;
    assert x <= y;
    assert (-y).Floor <= (-x).Floor;
  }

  lemma {:induction false} RaisingLowersCounts(a: seq<real>, b: seq<real>, v: real)
    requires |a| == |b| && forall i :: 0 <= i < |a| ==> a[i] <= b[i]
    ensures AtMost(b, v) <= AtMost(a, v)
  {
    if a != [] {
      RaisingLowersCounts(a[..|a| - 1], b[..|b| - 1], v);
    }
  }

  /** Raising observations, one by one and in any pattern, never lowers a percentile. */
  lemma PercentileNeverFallsWhenObservationsRise(a: seq<real>, b: seq<real>, q: real)
    requires a != [] && |a| == |b| && 0.0 < q <= 1.0
    requires forall i :: 0 <= i < |a| ==> a[i] <= b[i]
    ensures Percentile(Sort(a), q).Value? && Percentile(Sort(b), q).Value?
    ensures Percentile(Sort(a), q).value <= Percentile(Sort(b), q).value
  {
    hide Sort, AtMost, Below, RankOf;
    SortSorts(a);
    SortSorts(b);
    var va, vb := Percentile(Sort(a), q).value, Percentile(Sort(b), q).value;
    PercentileIsTheObservedValueOfItsRank(a, q, va);
    PercentileIsTheObservedValueOfItsRank(b, q, vb);
    RaisingLowersCounts(a, b, vb);
    if vb < va {
      CountsAreOrdered(a, vb, va);
    }
  }

  // ---- what a summary says -----------------------------------------------------------------

  /** The rank a quantile asks for is its share of the observations, rounded up. */
  lemma RankIsTheShareRoundedUp(n: nat, q: real)
    ensures (RankOf(n, q) - 1) as real < q * n as real <= RankOf(n, q) as real
  {
  }

  ghost function AtMostOf(s: seq<real>, v: real): set<nat> {
    set i: nat | i < |s| && s[i] <= v
  }

  ghost function BelowOf(s: seq<real>, v: real): set<nat> {
    set i: nat | i < |s| && s[i] < v
  }

  lemma OneMoreAtMost(s: seq<real>, v: real)
    requires s != []
    ensures var n := |s| - 1;
      |AtMostOf(s, v)| == |AtMostOf(s[..n], v)| + (if s[n] <= v then 1 else 0)
  {
    var n := |s| - 1;
    assert AtMostOf(s, v) == AtMostOf(s[..n], v) + if s[n] <= v then {n} else {};
  }

  lemma OneMoreBelow(s: seq<real>, v: real)
    requires s != []
    ensures var n := |s| - 1;
      |BelowOf(s, v)| == |BelowOf(s[..n], v)| + (if s[n] < v then 1 else 0)
  {
    var n := |s| - 1;
    assert BelowOf(s, v) == BelowOf(s[..n], v) + if s[n] < v then {n} else {};
  }

  lemma {:induction false} CountsAreCounts(s: seq<real>, v: real)
    ensures AtMost(s, v) == |AtMostOf(s, v)| && Below(s, v) == |BelowOf(s, v)|
  {
    if s == [] {
      assert AtMostOf(s, v) == {} && BelowOf(s, v) == {};
    } else {
      hide AtMostOf, BelowOf;
      CountsAreCounts(s[..|s| - 1], v);
      OneMoreAtMost(s, v);
      OneMoreBelow(s, v);
    }
  }

  /** One of the observations, at or above `percent` of a hundred of them and above fewer. */
  ghost predicate IsQuantile(observations: seq<real>, v: real, percent: nat) {
    && v in observations
    && 100 * |AtMostOf(observations, v)| >= percent * |observations|
    && 100 * |BelowOf(observations, v)| < percent * |observations|
  }

  lemma RankOfPercent(n: nat, k: nat)
    ensures k >= RankOf(n, 0.5) <==> 100 * k >= 50 * n
    ensures k >= RankOf(n, 0.95) <==> 100 * k >= 95 * n
    ensures k >= RankOf(n, 0.99) <==> 100 * k >= 99 * n
  {
  }

  lemma RankedIsQuantile(observations: seq<real>, v: real)
    ensures HasRank(observations, v, RankOf(|observations|, 0.5)) <==> IsQuantile(observations, v, 50)
    ensures HasRank(observations, v, RankOf(|observations|, 0.95)) <==> IsQuantile(observations, v, 95)
    ensures HasRank(observations, v, RankOf(|observations|, 0.99)) <==> IsQuantile(observations, v, 99)
  {
    hide RankOf, AtMost, Below, AtMostOf, BelowOf;
    CountsAreCounts(observations, v);
    RankOfPercent(|observations|, AtMost(observations, v));
    RankOfPercent(|observations|, Below(observations, v));
  }

  /** The three percentiles of a summary are the observed values of their ranks, each of its own. */
  lemma SummaryHasTheRanks(observations: seq<real>, v: real)
    requires observations != []
    ensures var s, n := Summarise(observations), |observations|;
      && (s.p50 == Num(v) <==> HasRank(observations, v, RankOf(n, 0.5)))
      && (s.p95 == Num(v) <==> HasRank(observations, v, RankOf(n, 0.95)))
      && (s.p99 == Num(v) <==> HasRank(observations, v, RankOf(n, 0.99)))
  {
    hide Sort, Sum, HasRank, RankOf, Percentile;
    SortSorts(observations);
    PercentileIsTheObservedValueOfItsRank(observations, 0.5, v);
    PercentileIsTheObservedValueOfItsRank(observations, 0.95, v);
    PercentileIsTheObservedValueOfItsRank(observations, 0.99, v);
  }

  lemma SummaryHasTheQuantiles(observations: seq<real>, v: real)
    requires observations != []
    ensures var s := Summarise(observations);
      && (s.p50 == Num(v) <==> IsQuantile(observations, v, 50))
      && (s.p95 == Num(v) <==> IsQuantile(observations, v, 95))
      && (s.p99 == Num(v) <==> IsQuantile(observations, v, 99))
  {
    hide Summarise, HasRank, IsQuantile, RankOf;
    SummaryHasTheRanks(observations, v);
    RankedIsQuantile(observations, v);
  }

  lemma {:induction false} SumOfFront(x: real, s: seq<real>)
    ensures Sum([]) == 0.0 && Sum([x] + s) == x + Sum(s)
    decreases |s|
  {
    if s == [] {
      assert [x] + s == [x] && [x][..0] == [];
    } else {
      SumOfFront(x, s[..|s| - 1]);
      assert ([x] + s)[..|[x] + s| - 1] == [x] + s[..|s| - 1];
    }
  }

  lemma {:induction false} SumOfInsert(x: real, s: seq<real>)
    ensures Sum(Insert(x, s)) == x + Sum(s)
  {
    hide Sum;
    if s == [] || x <= s[0] {
      SumOfFront(x, s);
    } else {
      SumOfInsert(x, s[1..]);
      SumOfFront(s[0], Insert(x, s[1..]));
      SumOfFront(s[0], s[1..]);
      assert s == [s[0]] + s[1..];
    }
  }

  lemma {:induction false} SumOfSort(s: seq<real>)
    ensures Sum(Sort(s)) == Sum(s)
  {
    if s != [] {
      SumOfSort(s[..|s| - 1]);
      SumOfInsert(s[|s| - 1], Sort(s[..|s| - 1]));
    }
  }

  lemma ShareTimesCount(x: real, n: nat)
    requires n > 0
    ensures x / n as real * n as real == x
  {
  }

  lemma SortedEndsBound(s: seq<real>)
    requires s != []
    ensures var sorted := Sort(s);
      && sorted != [] && sorted[0] in s && sorted[|sorted| - 1] in s
      && forall v :: v in s ==> sorted[0] <= v <= sorted[|sorted| - 1]
  {
    hide Sort;
    var sorted := Sort(s);
    SortSorts(s);
    assert sorted[0] in multiset(sorted) && sorted[|sorted| - 1] in multiset(sorted);
    forall v | v in s ensures sorted[0] <= v <= sorted[|sorted| - 1] {
      assert v in multiset(sorted);
      assert v in sorted;
    }
  }

  /** The rest of it: how many, the least and the greatest, and what the mean is for. */
  lemma SummaryBoundsItsObservations(observations: seq<real>)
    requires observations != []
    ensures var s, n := Summarise(observations), |observations|;
      && s.n == n && (s.reliable <==> n >= 10)
      && s.min.Num? && s.min.value in observations
      && s.max.Num? && s.max.value in observations
      && (forall v :: v in observations ==> s.min.value <= v <= s.max.value)
      && s.meanForCostArithmeticOnly.Num?
      && s.meanForCostArithmeticOnly.value * n as real == Sum(observations)
  {
    hide Sort, Sum, Percentile, Sorted;
    var sorted := Sort(observations);
    SortSorts(observations);
    SortedEndsBound(observations);
    SumOfSort(observations);
    ShareTimesCount(Sum(sorted), |sorted|);
  }

  /** Of nothing there is nothing to say. */
  lemma NothingSummarised()
    ensures var s := Summarise([]);
      && s.n == 0 && !s.reliable && s.p50.NaN? && s.p95.NaN? && s.p99.NaN? && s.min.NaN?
      && s.max.NaN? && s.meanForCostArithmeticOnly.NaN?
  {
  }

  /** A summary depends on which values were observed and how often, never on their order. */
  lemma SummaryIgnoresOrder(a: seq<real>, b: seq<real>)
    requires multiset(a) == multiset(b)
    ensures Summarise(a) == Summarise(b)
  {
    hide Sort, Percentile, Sum;
    SortIgnoresOrder(a, b);
    assert |multiset(a)| == |multiset(b)|;
  }

  /** The figures of a summary are in order, and the tail is the maximum until it can be less. */
  lemma SummaryIsOrdered(observations: seq<real>)
    requires observations != []
    ensures var s := Summarise(observations);
      && s.min.Num? && s.p50.Num? && s.p95.Num? && s.p99.Num? && s.max.Num?
      && s.min.value <= s.p50.value <= s.p95.value <= s.p99.value <= s.max.value
      && (s.n < 20 ==> s.p95 == s.max) && (s.n < 100 ==> s.p99 == s.max)
  {
    hide Sort, Sum;
    SortSorts(observations);
    var s := Sort(observations);
    PercentileIsMonotoneInQ(s, 0.5, 0.95);
    PercentileIsMonotoneInQ(s, 0.95, 0.99);
    RankIsInRange(|s|, 0.5);
    RankIsInRange(|s|, 0.99);
    SmallTail(|s|);
  }

  lemma SmallTail(n: nat)
    requires n > 0
    ensures RankOf(n, 0.95) == n <==> n < 20
    ensures RankOf(n, 0.99) == n <==> n < 100
  {
  }

  // ---- from when on a tail percentile says something ---------------------------------------

  /** On every list of `n` observations the quantile is the maximum, whatever was observed. */
  ghost predicate AlwaysTheMaximum(n: nat, q: real) {
    forall s: seq<real> :: |s| == n ==>
      AsNumber(Percentile(Sort(s), q)) == Summarise(s).max
  }

  /** 0.0, 1.0, 2.0, … */
  function Staircase(n: nat): seq<real> {
    seq(n, (i: nat) => i as real)
  }

  lemma StaircaseIsSorted(n: nat)
    ensures Sort(Staircase(n)) == Staircase(n)
  {
    hide Sort;
    SortSorts(Staircase(n));
    SortedIsUnique(Sort(Staircase(n)), Staircase(n));
  }

  lemma MaximumExactlyAtTheLastRank(n: nat, q: real)
    requires n > 0 && 0.0 < q <= 1.0
    ensures AlwaysTheMaximum(n, q) <==> RankOf(n, q) == n
  {
    hide Sort, RankOf, Percentile, Sum;
    forall s: seq<real> | |s| == n
      ensures RankOf(n, q) == n ==> AsNumber(Percentile(Sort(s), q)) == Summarise(s).max
    {
      SortSorts(s);
      PercentileIsAtRank(Sort(s), q);
    }
    var stairs := Staircase(n);
    StaircaseIsSorted(n);
    PercentileIsAtRank(stairs, q);
    assert Summarise(stairs).max == Num(stairs[n - 1]);
    assert AsNumber(Percentile(Sort(stairs), q)) == Num(stairs[RankOf(n, q) - 1]);
  }

  /**
   * The p95 is the maximum on every list of a size exactly below 20 observations, the p99 exactly
   * below 100; a summary calls itself reliable exactly from 10 on.
   */
  lemma TailsAreTheMaximumExactlyBelow(n: nat)
    requires n > 0
    ensures (forall s: seq<real> :: |s| == n ==> Summarise(s).p95 == Summarise(s).max) <==> n < 20
    ensures (forall s: seq<real> :: |s| == n ==> Summarise(s).p99 == Summarise(s).max) <==> n < 100
    ensures forall s: seq<real> :: |s| == n ==> (Summarise(s).reliable <==> n >= 10)
  {
    hide RankOf, AlwaysTheMaximum, Summarise;
    MaximumExactlyAtTheLastRank(n, 0.95);
    MaximumExactlyAtTheLastRank(n, 0.99);
    SmallTail(n);
    TailsOfSummary(n);
  }

  lemma TailsOfSummary(n: nat)
    requires n > 0
    ensures AlwaysTheMaximum(n, 0.95) <==>
      forall s: seq<real> :: |s| == n ==> Summarise(s).p95 == Summarise(s).max
    ensures AlwaysTheMaximum(n, 0.99) <==>
      forall s: seq<real> :: |s| == n ==> Summarise(s).p99 == Summarise(s).max
    ensures forall s: seq<real> :: |s| == n ==> (Summarise(s).reliable <==> n >= 10)
  {
    hide Summarise;
    forall s: seq<real> | |s| == n
      ensures Summarise(s).p95 == AsNumber(Percentile(Sort(s), 0.95))
      ensures Summarise(s).p99 == AsNumber(Percentile(Sort(s), 0.99))
      ensures Summarise(s).reliable <==> n >= 10
    {
      FieldsOfSummary(s);
    }
  }

  lemma FieldsOfSummary(s: seq<real>)
    requires s != []
    ensures Summarise(s).p95 == AsNumber(Percentile(Sort(s), 0.95))
    ensures Summarise(s).p99 == AsNumber(Percentile(Sort(s), 0.99))
    ensures Summarise(s).reliable <==> |s| >= MIN_RELIABLE_SAMPLES
  {
    hide Sort, Percentile, Sum;
    SortSorts(s);
  }

  /** Not reliable, for every size whose tail is nothing but the maximum. */
  ghost predicate Labelled(n: nat, q: real) {
    AlwaysTheMaximum(n, q) ==>
      forall s: seq<real> :: |s| == n ==> !Summarise(s).reliable
  }

  /** A tail that can only be the maximum is labelled so, except from 10 up to 20, or up to 100. */
  lemma LabelledExactlyOutside(n: nat)
    requires n > 0
    ensures Labelled(n, 0.95) <==> !(10 <= n < 20)
    ensures Labelled(n, 0.99) <==> !(10 <= n < 100)
  {
    hide AlwaysTheMaximum, Summarise;
    TailsAreTheMaximumExactlyBelow(n);
    TailsOfSummary(n);
    assert |Staircase(n)| == n;
  }
}
