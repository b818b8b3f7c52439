/** The perf gate: a measured ladder against the committed baseline (packages/bench/src/perf-gate.ts). */
module PerfGate {
  import opened Stats

  datatype Statistic = RatioP50 | RatioP95 | MakespanP50

  /** One rung of a measured run. */
  datatype GateInput = GateInput(nodes: nat, incomplete: nat, makespan: Summary, ratio: Summary)

  /** One rung of the baseline: a reference for each statistic. */
  datatype Rung = Rung(nodes: nat, ratioP50: real, ratioP95: real, makespanP50: real)

  datatype Baseline = Baseline(
    ratioP50Headroom: real, ratioP95Headroom: real, makespanP50Headroom: real, rungs: seq<Rung>)

  datatype CheckOutcome = WithinBudget | OverBudget | RefusedUnreliableSample

  datatype Check = Check(
    nodes: nat, statistic: Statistic, measured: Number, baseline: real, budget: real,
    outcome: CheckOutcome)

  datatype Finding =
    | Regressed(nodes: nat, statistic: Statistic, measured: Number, baseline: real, budget: real)
    | SampleTooSmall(nodes: nat, statistic: Statistic, n: nat)
    | IncompleteRuns(nodes: nat, incomplete: nat)
    | UnmeasuredRung(nodes: nat)
    | UnbaselinedRung(nodes: nat)

  datatype GateResult = GateResult(findings: seq<Finding>, checks: seq<Check>)

  function SampleFor(input: GateInput, statistic: Statistic): Summary {
    if statistic == MakespanP50 then input.makespan else input.ratio
  }

  function MeasuredValue(input: GateInput, statistic: Statistic): Number {
    match statistic
    case RatioP50 => input.ratio.p50
    case RatioP95 => input.ratio.p95
    case MakespanP50 => input.makespan.p50
  }

  function Reference(rung: Rung, statistic: Statistic): real {
    match statistic
    case RatioP50 => rung.ratioP50
    case RatioP95 => rung.ratioP95
    case MakespanP50 => rung.makespanP50
  }

  function Headroom(baseline: Baseline, statistic: Statistic): real {
    match statistic
    case RatioP50 => baseline.ratioP50Headroom
    case RatioP95 => baseline.ratioP95Headroom
    case MakespanP50 => baseline.makespanP50Headroom
  }

  function Budget(baseline: Baseline, rung: Rung, statistic: Statistic): real {
    Reference(rung, statistic) * (1.0 + Headroom(baseline, statistic))
  }

  /** `value <= bound`, which no NaN satisfies. */
  predicate IsAtMost(value: Number, bound: real) {
    value.Num? && value.value <= bound
  }

  const STATISTICS: seq<Statistic> := [RatioP50, RatioP95, MakespanP50]

  /** One comparison, and what it adds to the findings. */
  function CheckOf(baseline: Baseline, rung: Rung, input: GateInput, statistic: Statistic): Check {
    var value, budget := MeasuredValue(input, statistic), Budget(baseline, rung, statistic);
    Check(rung.nodes, statistic, value, Reference(rung, statistic), budget,
          if !SampleFor(input, statistic).reliable then RefusedUnreliableSample
          else if IsAtMost(value, budget) then WithinBudget else OverBudget)
  }

  function FindingsOf(check: Check, n: nat): seq<Finding> {
    match check.outcome
    case WithinBudget => []
    case OverBudget =>
      [Regressed(check.nodes, check.statistic, check.measured, check.baseline, check.budget)]
    case RefusedUnreliableSample => [SampleTooSmall(check.nodes, check.statistic, n)]
  }

  /** The comparisons of the first `k` statistics of one rung. */
  function RungResult(baseline: Baseline, rung: Rung, input: GateInput, k: nat): GateResult
    requires k <= 3
  {
    if k == 0 then
      GateResult(if input.incomplete > 0 then [IncompleteRuns(rung.nodes, input.incomplete)] else [],
                 [])
    else
      var before := RungResult(baseline, rung, input, k - 1);
      var check := CheckOf(baseline, rung, input, STATISTICS[k - 1]);
      GateResult(before.findings + FindingsOf(check, SampleFor(input, STATISTICS[k - 1]).n),
                 before.checks + [check])
  }

  /** `new Map(measured.map(...))`: of two inputs at one node count the later one is kept. */
  function ByNodes(measured: seq<GateInput>): map<nat, GateInput> {
    if measured == [] then map[]
    else
      var last := measured[|measured| - 1];
      ByNodes(measured[..|measured| - 1])[last.nodes := last]
  }

  function JoinRung(baseline: Baseline, byNodes: map<nat, GateInput>, rung: Rung): GateResult {
    if rung.nodes in byNodes then RungResult(baseline, rung, byNodes[rung.nodes], 3)
    else GateResult([UnmeasuredRung(rung.nodes)], [])
  }

  function Plus(a: GateResult, b: GateResult): GateResult {
    GateResult(a.findings + b.findings, a.checks + b.checks)
  }

  /** The first `k` rungs of the baseline, compared. */
  function JoinRungs(baseline: Baseline, byNodes: map<nat, GateInput>, k: nat): GateResult
    requires k <= |baseline.rungs|
  {
    if k == 0 then GateResult([], [])
    else Plus(JoinRungs(baseline, byNodes, k - 1), JoinRung(baseline, byNodes, baseline.rungs[k - 1]))
  }

  function Baselined(baseline: Baseline): set<nat> {
    set rung | rung in baseline.rungs :: rung.nodes
  }

  function Unbaselined(baselined: set<nat>, measured: seq<GateInput>): seq<Finding> {
    if measured == [] then []
    else
      var last := measured[|measured| - 1];
      Unbaselined(baselined, measured[..|measured| - 1])
      + if last.nodes in baselined then [] else [UnbaselinedRung(last.nodes)]
  }

  function Judgement(baseline: Baseline, measured: seq<GateInput>): GateResult {
    var joined := JoinRungs(baseline, ByNodes(measured), |baseline.rungs|);
    GateResult(joined.findings + Unbaselined(Baselined(baseline), measured), joined.checks)
  }

  // ---- the code ---------------------------------------------------------------------------

  method JudgeRung(baseline: Baseline, rung: Rung, input: GateInput) returns (r: GateResult)
    ensures r == RungResult(baseline, rung, input, 3)
  {
    hide Budget;
    var findings: seq<Finding>, checks: seq<Check> := [], [];
    if input.incomplete > 0 {
      findings := findings + [IncompleteRuns(rung.nodes, input.incomplete)];
    }
    for k := 0 to 3
      invariant GateResult(findings, checks) == RungResult(baseline, rung, input, k)
    {
      var statistic := STATISTICS[k];
      var sample := SampleFor(input, statistic);
      var reference, budget := Reference(rung, statistic), Budget(baseline, rung, statistic);
      var measuredNumber := MeasuredValue(input, statistic);
      if !sample.reliable {
        checks := checks + [Check(rung.nodes, statistic, measuredNumber, reference, budget,
                                  RefusedUnreliableSample)];
        findings := findings + [SampleTooSmall(rung.nodes, statistic, sample.n)];
        continue;
      }
      var over := !IsAtMost(measuredNumber, budget);
      checks := checks + [Check(rung.nodes, statistic, measuredNumber, reference, budget,
                                if over then OverBudget else WithinBudget)];
      if over {
        findings :=
          findings + [Regressed(rung.nodes, statistic, measuredNumber, reference, budget)];
      }
    }
    return GateResult(findings, checks);
  }

  method Judge(baseline: Baseline, measured: seq<GateInput>) returns (r: GateResult)
    ensures r == Judgement(baseline, measured)
  {
    hide RungResult, ByNodes;
    var findings: seq<Finding>, checks: seq<Check> := [], [];
    var byNodes := ByNodes(measured);
    for k := 0 to |baseline.rungs|
      invariant GateResult(findings, checks) == JoinRungs(baseline, byNodes, k)
    {
      var rung := baseline.rungs[k];
      if rung.nodes !in byNodes {
        findings := findings + [UnmeasuredRung(rung.nodes)];
        assert checks + [] == checks;
        continue;
      }
      var judged := JudgeRung(baseline, rung, byNodes[rung.nodes]);
      findings, checks := findings + judged.findings, checks + judged.checks;
    }
    ghost var joined := findings;
    var baselined := Baselined(baseline);
    assert findings == joined + Unbaselined(baselined, []);
    for k := 0 to |measured|
      invariant findings == joined + Unbaselined(baselined, measured[..k])
    {
      assert measured[..k + 1][..k] == measured[..k];
      if measured[k].nodes !in baselined {
        findings := findings + [UnbaselinedRung(measured[k].nodes)];
      }
    }
    assert measured[..|measured|] == measured;
    return GateResult(findings, checks);
  }

  /** `verdict(...) === null`: nothing found, and something compared. */
  predicate IsNullVerdict(r: GateResult) {
    |r.checks| != 0 && |r.findings| == 0
  }

  // ---- what a pass means ---------------------------------------------------------------------

  /** At most the reference and its headroom, which no NaN is. */
  ghost predicate Within(value: Number, reference: real, headroom: real) {
    value.Num? && value.value <= reference * (1.0 + headroom)
  }

  /** Complete, on reliable samples, and each of the three figures within its own budget. */
  ghost predicate RungPasses(baseline: Baseline, rung: Rung, input: GateInput) {
    && input.incomplete == 0 && input.ratio.reliable && input.makespan.reliable
    && Within(input.ratio.p50, rung.ratioP50, baseline.ratioP50Headroom)
    && Within(input.ratio.p95, rung.ratioP95, baseline.ratioP95Headroom)
    && Within(input.makespan.p50, rung.makespanP50, baseline.makespanP50Headroom)
  }

  /** The figure, reference, headroom and reliability one statistic is about. */
  ghost predicate IsAbout(baseline: Baseline, rung: Rung, input: GateInput, statistic: Statistic,
                          value: Number, reference: real, headroom: real, sample: Summary)
  {
    match statistic
    case RatioP50 =>
      value == input.ratio.p50 && reference == rung.ratioP50
      && headroom == baseline.ratioP50Headroom && sample == input.ratio
    case RatioP95 =>
      value == input.ratio.p95 && reference == rung.ratioP95
      && headroom == baseline.ratioP95Headroom && sample == input.ratio
    case MakespanP50 =>
      value == input.makespan.p50 && reference == rung.makespanP50
      && headroom == baseline.makespanP50Headroom && sample == input.makespan
  }

  ghost predicate IsBudget(budget: real, reference: real, headroom: real) {
    budget == reference * (1.0 + headroom)
  }

  /** One comparison of one input with one rung, as it is reported. */
  ghost predicate IsComparison(baseline: Baseline, rung: Rung, input: GateInput, check: Check) {
    exists headroom, sample ::
      && IsAbout(baseline, rung, input, check.statistic, check.measured, check.baseline, headroom,
                 sample)
      && check.nodes == rung.nodes && IsBudget(check.budget, check.baseline, headroom)
      && check.outcome
           == if !sample.reliable then RefusedUnreliableSample
              else if Within(check.measured, check.baseline, headroom) then WithinBudget
              else OverBudget
  }

  /** What there is to find in one comparison of one input with one rung. */
  ghost predicate IsFinding(baseline: Baseline, rung: Rung, input: GateInput, finding: Finding) {
    match finding
    case Regressed(nodes, statistic, measured, reference, budget) =>
      IsComparison(baseline, rung, input,
                   Check(nodes, statistic, measured, reference, budget, OverBudget))
    case SampleTooSmall(nodes, statistic, n) =>
      && nodes == rung.nodes
      && var sample := if statistic.MakespanP50? then input.makespan else input.ratio;
         !sample.reliable && n == sample.n
    case IncompleteRuns(nodes, k) => nodes == rung.nodes && k == input.incomplete && k > 0
    case UnmeasuredRung(_) => false
    case UnbaselinedRung(_) => false
  }

  lemma BudgetIs(baseline: Baseline, rung: Rung, statistic: Statistic, x: real)
    ensures IsBudget(x, Reference(rung, statistic), Headroom(baseline, statistic))
      <==> x == Budget(baseline, rung, statistic)
  {
  }

  lemma WithinIs(baseline: Baseline, rung: Rung, statistic: Statistic, value: Number)
    ensures Within(value, Reference(rung, statistic), Headroom(baseline, statistic))
      <==> IsAtMost(value, Budget(baseline, rung, statistic))
  {
  }

  lemma AboutOneThing(baseline: Baseline, rung: Rung, input: GateInput, statistic: Statistic,
                      value: Number, reference: real, headroom: real, sample: Summary)
    ensures IsAbout(baseline, rung, input, statistic, value, reference, headroom, sample) <==>
      && value == MeasuredValue(input, statistic) && reference == Reference(rung, statistic)
      && headroom == Headroom(baseline, statistic) && sample == SampleFor(input, statistic)
  {
  }

  lemma CheckIsTheComparison(baseline: Baseline, rung: Rung, input: GateInput, check: Check)
    ensures check == CheckOf(baseline, rung, input, check.statistic)
      <==> IsComparison(baseline, rung, input, check)
  {
    hide Budget, IsBudget, Within, IsAtMost, IsAbout, MeasuredValue, Reference, Headroom, SampleFor;
    var statistic := check.statistic;
    var reference, headroom := Reference(rung, statistic), Headroom(baseline, statistic);
    var value, sample := MeasuredValue(input, statistic), SampleFor(input, statistic);
    forall v, r, h, s
      ensures IsAbout(baseline, rung, input, statistic, v, r, h, s) <==>
        v == value && r == reference && h == headroom && s == sample
    {
      AboutOneThing(baseline, rung, input, statistic, v, r, h, s);
    }
    BudgetIs(baseline, rung, statistic, check.budget);
    WithinIs(baseline, rung, statistic, value);
    assert IsAbout(baseline, rung, input, statistic, value, reference, headroom, sample);
  }

  /** The three comparisons of one rung, spelled out. */
  lemma RungResultIs(baseline: Baseline, rung: Rung, input: GateInput)
    ensures var r := RungResult(baseline, rung, input, 3);
      var a, b, c := CheckOf(baseline, rung, input, RatioP50), CheckOf(baseline, rung, input, RatioP95),
                     CheckOf(baseline, rung, input, MakespanP50);
      && r.checks == [a, b, c]
      && r.findings
           == (if input.incomplete > 0 then [IncompleteRuns(rung.nodes, input.incomplete)] else [])
              + FindingsOf(a, input.ratio.n) + FindingsOf(b, input.ratio.n)
              + FindingsOf(c, input.makespan.n)
  {
    hide CheckOf, FindingsOf;
    assert STATISTICS[0] == RatioP50 && STATISTICS[1] == RatioP95 && STATISTICS[2] == MakespanP50;
    var r0 := RungResult(baseline, rung, input, 0);
    var r1 := RungResult(baseline, rung, input, 1);
    var r2 := RungResult(baseline, rung, input, 2);
    assert r1.checks == r0.checks + [CheckOf(baseline, rung, input, RatioP50)];
    assert r2.checks == r1.checks + [CheckOf(baseline, rung, input, RatioP95)];
  }

  /** One rung finds nothing exactly when the input passes it; three comparisons are made. */
  lemma RungPassesExactly(baseline: Baseline, rung: Rung, input: GateInput)
    ensures RungResult(baseline, rung, input, 3).findings == []
      <==> RungPasses(baseline, rung, input)
    ensures |RungResult(baseline, rung, input, 3).checks| == 3
  {
    hide Budget, RungResult, Within, IsAtMost;
    RungResultIs(baseline, rung, input);
    WithinIs(baseline, rung, RatioP50, input.ratio.p50);
    WithinIs(baseline, rung, RatioP95, input.ratio.p95);
    WithinIs(baseline, rung, MakespanP50, input.makespan.p50);
  }

  lemma FoundInOne(baseline: Baseline, rung: Rung, input: GateInput, statistic: Statistic,
                   finding: Finding)
    ensures finding in FindingsOf(CheckOf(baseline, rung, input, statistic),
                                  SampleFor(input, statistic).n)
      <==> IsFinding(baseline, rung, input, finding)
           && (finding.Regressed? || finding.SampleTooSmall?) && finding.statistic == statistic
  {
    hide Budget, IsComparison;
    if finding.Regressed? {
      var check := Check(finding.nodes, finding.statistic, finding.measured, finding.baseline,
                         finding.budget, OverBudget);
      CheckIsTheComparison(baseline, rung, input, check);
    }
  }

  /** What one rung finds and what it compares, neither more nor less. */
  lemma RungFindsExactly(baseline: Baseline, rung: Rung, input: GateInput)
    ensures var r := RungResult(baseline, rung, input, 3);
      && (forall finding :: finding in r.findings <==> IsFinding(baseline, rung, input, finding))
      && (forall check :: check in r.checks <==> IsComparison(baseline, rung, input, check))
  {
    hide CheckOf, FindingsOf, RungResult, IsComparison;
    RungResultIs(baseline, rung, input);
    var r := RungResult(baseline, rung, input, 3);
    forall finding ensures finding in r.findings <==> IsFinding(baseline, rung, input, finding) {
      FoundInOne(baseline, rung, input, RatioP50, finding);
      FoundInOne(baseline, rung, input, RatioP95, finding);
      FoundInOne(baseline, rung, input, MakespanP50, finding);
    }
    forall check ensures check in r.checks <==> IsComparison(baseline, rung, input, check) {
      CheckIsTheComparison(baseline, rung, input, check);
      StatisticOfCheck(baseline, rung, input, check.statistic);
      StatisticOfCheck(baseline, rung, input, RatioP50);
      StatisticOfCheck(baseline, rung, input, RatioP95);
      StatisticOfCheck(baseline, rung, input, MakespanP50);
    }
  }

  lemma StatisticOfCheck(baseline: Baseline, rung: Rung, input: GateInput, statistic: Statistic)
    ensures CheckOf(baseline, rung, input, statistic).statistic == statistic
  {
  }

  // ---- which input is compared with a rung -----------------------------------------------------

  /** Input `i` is the last one with that node count. */
  ghost predicate LastAt(measured: seq<GateInput>, nodes: nat, i: nat) {
    && i < |measured| && measured[i].nodes == nodes
    && forall j :: i < j < |measured| ==> measured[j].nodes != nodes
  }

  ghost predicate IsMeasured(measured: seq<GateInput>, nodes: nat) {
    exists i :: 0 <= i < |measured| && measured[i].nodes == nodes
  }

  ghost predicate HasRung(baseline: Baseline, nodes: nat) {
    exists rung :: rung in baseline.rungs && rung.nodes == nodes
  }

  lemma {:induction false} ByNodesIsTheLast(measured: seq<GateInput>, nodes: nat, i: nat)
    ensures LastAt(measured, nodes, i) ==>
      nodes in ByNodes(measured) && ByNodes(measured)[nodes] == measured[i]
    decreases |measured|
  {
    if LastAt(measured, nodes, i) && i < |measured| - 1 {
      assert LastAt(measured[..|measured| - 1], nodes, i);
      ByNodesIsTheLast(measured[..|measured| - 1], nodes, i);
    }
  }

  lemma {:induction false} SomeIsTheLast(measured: seq<GateInput>, nodes: nat) returns (i: nat)
    ensures IsMeasured(measured, nodes) ==> LastAt(measured, nodes, i)
    ensures nodes in ByNodes(measured) <==> IsMeasured(measured, nodes)
    decreases |measured|
  {
    i := 0;
    if measured != [] {
      var n := |measured| - 1;
      if measured[n].nodes == nodes {
        i := n;
      } else {
        i := SomeIsTheLast(measured[..n], nodes);
        if k :| 0 <= k < |measured| && measured[k].nodes == nodes {
          assert measured[..n][k].nodes == nodes;
        }
        if IsMeasured(measured[..n], nodes) {
          var k :| 0 <= k < n && measured[..n][k].nodes == nodes;
          assert measured[k].nodes == nodes;
        }
      }
    }
  }

  lemma BaselinedIsTheRungs(baseline: Baseline, nodes: nat)
    ensures nodes in Baselined(baseline) <==> HasRung(baseline, nodes)
  {
  }

  /** The last input with the rung's node count passes it. */
  ghost predicate PassedByTheLast(baseline: Baseline, rung: Rung, measured: seq<GateInput>) {
    exists i: nat :: LastAt(measured, rung.nodes, i) && RungPasses(baseline, rung, measured[i])
  }

  /** Every baseline rung was measured and passes, and nothing else was measured. */
  ghost predicate GatePasses(baseline: Baseline, measured: seq<GateInput>) {
    && baseline.rungs != []
    && (forall rung :: rung in baseline.rungs ==> PassedByTheLast(baseline, rung, measured))
    && forall i :: 0 <= i < |measured| ==> HasRung(baseline, measured[i].nodes)
  }

  /** The same, by way of the lookup table. */
  ghost predicate LookupPasses(baseline: Baseline, measured: seq<GateInput>) {
    var byNodes := ByNodes(measured);
    && baseline.rungs != []
    && (forall i :: 0 <= i < |baseline.rungs| ==>
          baseline.rungs[i].nodes in byNodes
          && RungPasses(baseline, baseline.rungs[i], byNodes[baseline.rungs[i].nodes]))
    && forall i :: 0 <= i < |measured| ==> measured[i].nodes in Baselined(baseline)
  }

  lemma LookedUpIsTheLast(baseline: Baseline, rung: Rung, measured: seq<GateInput>)
    ensures PassedByTheLast(baseline, rung, measured) <==>
      rung.nodes in ByNodes(measured) && RungPasses(baseline, rung, ByNodes(measured)[rung.nodes])
  {
    hide ByNodes, RungPasses;
    var i := SomeIsTheLast(measured, rung.nodes);
    ByNodesIsTheLast(measured, rung.nodes, i);
    if k: nat :| LastAt(measured, rung.nodes, k) && RungPasses(baseline, rung, measured[k]) {
      ByNodesIsTheLast(measured, rung.nodes, k);
    }
  }

  lemma PassingByLookup(baseline: Baseline, measured: seq<GateInput>)
    ensures LookupPasses(baseline, measured) <==> GatePasses(baseline, measured)
  {
    hide ByNodes, RungPasses, Baselined, PassedByTheLast, HasRung;
    forall rung: Rung
      ensures PassedByTheLast(baseline, rung, measured) <==>
        rung.nodes in ByNodes(measured) && RungPasses(baseline, rung, ByNodes(measured)[rung.nodes])
    {
      LookedUpIsTheLast(baseline, rung, measured);
    }
    forall nodes: nat ensures nodes in Baselined(baseline) <==> HasRung(baseline, nodes) {
      BaselinedIsTheRungs(baseline, nodes);
    }
    assert forall i :: 0 <= i < |baseline.rungs| ==> baseline.rungs[i] in baseline.rungs;
  }

  /** How many of the first `k` baseline rungs were measured. */
  function Matched(baseline: Baseline, byNodes: map<nat, GateInput>, k: nat): nat
    requires k <= |baseline.rungs|
  {
    if k == 0 then 0
    else Matched(baseline, byNodes, k - 1) + if baseline.rungs[k - 1].nodes in byNodes then 1 else 0
  }

  lemma {:induction false} JoinRungsPass(
      baseline: Baseline, byNodes: map<nat, GateInput>, k: nat)
    requires k <= |baseline.rungs|
    ensures |JoinRungs(baseline, byNodes, k).checks| == 3 * Matched(baseline, byNodes, k)
    ensures JoinRungs(baseline, byNodes, k).findings == [] <==>
      forall i :: 0 <= i < k ==>
        baseline.rungs[i].nodes in byNodes
        && RungPasses(baseline, baseline.rungs[i], byNodes[baseline.rungs[i].nodes])
  {
    hide RungResult, RungPasses;
    if k > 0 {
      JoinRungsPass(baseline, byNodes, k - 1);
      var rung := baseline.rungs[k - 1];
      if rung.nodes in byNodes {
        RungPassesExactly(baseline, rung, byNodes[rung.nodes]);
      }
    }
  }

  lemma {:induction false} NothingUnbaselined(baselined: set<nat>, measured: seq<GateInput>)
    ensures Unbaselined(baselined, measured) == [] <==>
      forall i :: 0 <= i < |measured| ==> measured[i].nodes in baselined
  {
    if measured != [] {
      var n := |measured| - 1;
      NothingUnbaselined(baselined, measured[..n]);
      assert forall i :: 0 <= i < n ==> measured[..n][i] == measured[i];
      assert Unbaselined(baselined, measured) == [] <==>
        Unbaselined(baselined, measured[..n]) == [] && measured[n].nodes in baselined;
    }
  }

  lemma {:induction false} AllMatched(baseline: Baseline, byNodes: map<nat, GateInput>, k: nat)
    requires k <= |baseline.rungs|
    requires forall i :: 0 <= i < k ==> baseline.rungs[i].nodes in byNodes
    ensures Matched(baseline, byNodes, k) == k
  {
    if k > 0 {
      AllMatched(baseline, byNodes, k - 1);
    }
  }

  lemma PassesByLookup(baseline: Baseline, measured: seq<GateInput>)
    ensures IsNullVerdict(Judgement(baseline, measured)) <==> LookupPasses(baseline, measured)
    ensures |Judgement(baseline, measured).checks|
         == 3 * Matched(baseline, ByNodes(measured), |baseline.rungs|)
  {
    hide JoinRungs, Unbaselined, RungPasses, ByNodes, Baselined;
    var byNodes := ByNodes(measured);
    JoinRungsPass(baseline, byNodes, |baseline.rungs|);
    NothingUnbaselined(Baselined(baseline), measured);
    if LookupPasses(baseline, measured) {
      AllMatched(baseline, byNodes, |baseline.rungs|);
    } else if baseline.rungs == [] {
      assert Matched(baseline, byNodes, 0) == 0;
    }
  }

  /** The gate passes exactly when that holds. */
  lemma PassesExactly(baseline: Baseline, measured: seq<GateInput>)
    ensures IsNullVerdict(Judgement(baseline, measured)) <==> GatePasses(baseline, measured)
  {
    hide Judgement, LookupPasses, GatePasses;
    PassesByLookup(baseline, measured);
    PassingByLookup(baseline, measured);
  }

  /** A finding of some rung and the last input at its node count, or a lack on either side. */
  ghost predicate IsFound(baseline: Baseline, measured: seq<GateInput>, finding: Finding) {
    match finding
    case UnmeasuredRung(nodes) => HasRung(baseline, nodes) && !IsMeasured(measured, nodes)
    case UnbaselinedRung(nodes) => IsMeasured(measured, nodes) && !HasRung(baseline, nodes)
    case _ =>
      exists rung, i: nat ::
        && rung in baseline.rungs && LastAt(measured, rung.nodes, i)
        && IsFinding(baseline, rung, measured[i], finding)
  }

  ghost predicate IsCompared(baseline: Baseline, measured: seq<GateInput>, check: Check) {
    exists rung, i: nat ::
      && rung in baseline.rungs && LastAt(measured, rung.nodes, i)
      && IsComparison(baseline, rung, measured[i], check)
  }

  lemma JoinRungFinds(baseline: Baseline, measured: seq<GateInput>, rung: Rung)
    ensures var r := JoinRung(baseline, ByNodes(measured), rung);
      && (forall finding :: finding in r.findings <==> JoinFinds(baseline, measured, rung, finding))
      && (forall check :: check in r.checks <==> JoinCompares(baseline, measured, rung, check))
  {
    hide RungResult, ByNodes, IsFinding, IsComparison;
    var i := SomeIsTheLast(measured, rung.nodes);
    forall k: nat | LastAt(measured, rung.nodes, k)
      ensures rung.nodes in ByNodes(measured) && ByNodes(measured)[rung.nodes] == measured[k]
    {
      ByNodesIsTheLast(measured, rung.nodes, k);
    }
    if rung.nodes in ByNodes(measured) {
      RungFindsExactly(baseline, rung, measured[i]);
      NeverALack(baseline, rung, measured[i]);
    }
  }

  lemma NeverALack(baseline: Baseline, rung: Rung, input: GateInput)
    ensures forall finding: Finding :: finding.UnmeasuredRung? || finding.UnbaselinedRung? ==>
      !IsFinding(baseline, rung, input, finding)
  {
    hide IsComparison;
  }

  ghost predicate JoinFinds(baseline: Baseline, measured: seq<GateInput>, rung: Rung,
                            finding: Finding)
  {
    if IsMeasured(measured, rung.nodes) then
      exists i: nat :: LastAt(measured, rung.nodes, i) && IsFinding(baseline, rung, measured[i], finding)
    else finding == UnmeasuredRung(rung.nodes)
  }

  ghost predicate JoinCompares(baseline: Baseline, measured: seq<GateInput>, rung: Rung, check: Check)
  {
    exists i: nat :: LastAt(measured, rung.nodes, i) && IsComparison(baseline, rung, measured[i], check)
  }

  ghost predicate SomeRungFinds(baseline: Baseline, measured: seq<GateInput>, k: nat,
                                finding: Finding)
    requires k <= |baseline.rungs|
  {
    exists i :: 0 <= i < k && JoinFinds(baseline, measured, baseline.rungs[i], finding)
  }

  ghost predicate SomeRungCompares(baseline: Baseline, measured: seq<GateInput>, k: nat, check: Check)
    requires k <= |baseline.rungs|
  {
    exists i :: 0 <= i < k && JoinCompares(baseline, measured, baseline.rungs[i], check)
  }

  lemma OneMoreRung(baseline: Baseline, measured: seq<GateInput>, k: nat)
    requires 0 < k <= |baseline.rungs|
    ensures forall finding :: SomeRungFinds(baseline, measured, k, finding) <==>
      SomeRungFinds(baseline, measured, k - 1, finding)
      || JoinFinds(baseline, measured, baseline.rungs[k - 1], finding)
    ensures forall check :: SomeRungCompares(baseline, measured, k, check) <==>
      SomeRungCompares(baseline, measured, k - 1, check)
      || JoinCompares(baseline, measured, baseline.rungs[k - 1], check)
  {
    hide JoinFinds, JoinCompares;
  }

  lemma {:induction false} JoinRungsFind(baseline: Baseline, measured: seq<GateInput>, k: nat)
    requires k <= |baseline.rungs|
    ensures var r := JoinRungs(baseline, ByNodes(measured), k);
      && (forall finding :: finding in r.findings <==> SomeRungFinds(baseline, measured, k, finding))
      && (forall check :: check in r.checks <==> SomeRungCompares(baseline, measured, k, check))
  {
    if k > 0 {
      hide JoinRung, JoinFinds, JoinCompares, SomeRungFinds, SomeRungCompares;
      JoinRungsFind(baseline, measured, k - 1);
      JoinRungFinds(baseline, measured, baseline.rungs[k - 1]);
      OneMoreRung(baseline, measured, k);
    }
  }

  lemma {:induction false} UnbaselinedFinds(baselined: set<nat>, measured: seq<GateInput>,
                                            finding: Finding)
    ensures finding in Unbaselined(baselined, measured) <==>
      finding.UnbaselinedRung? && IsMeasured(measured, finding.nodes) && finding.nodes !in baselined
  {
    if measured != [] {
      var n := |measured| - 1;
      UnbaselinedFinds(baselined, measured[..n], finding);
      assert measured == measured[..n] + [measured[n]];
      assert IsMeasured(measured, finding.nodes) <==>
        IsMeasured(measured[..n], finding.nodes) || measured[n].nodes == finding.nodes;
    }
  }

  /** A finding is reported exactly when it is there to be found, and every comparison made is told. */
  lemma FindingsAreExactly(baseline: Baseline, measured: seq<GateInput>)
    ensures forall finding ::
      finding in Judgement(baseline, measured).findings <==> IsFound(baseline, measured, finding)
    ensures forall check ::
      check in Judgement(baseline, measured).checks <==> IsCompared(baseline, measured, check)
  {
    hide JoinFinds, JoinCompares, Unbaselined, Baselined, IsFound, IsCompared, SomeRungFinds,
         SomeRungCompares, HasRung, IsMeasured;
    JoinRungsFind(baseline, measured, |baseline.rungs|);
    forall finding
      ensures finding in Judgement(baseline, measured).findings
        <==> IsFound(baseline, measured, finding)
    {
      UnbaselinedFinds(Baselined(baseline), measured, finding);
      BaselinedIsTheRungs(baseline, finding.nodes);
      FoundByARung(baseline, measured, finding);
      UnbaselinedIsFound(baseline, measured, finding);
    }
    forall check
      ensures check in Judgement(baseline, measured).checks <==> IsCompared(baseline, measured, check)
    {
      ComparedByARung(baseline, measured, check);
    }
  }

  lemma UnbaselinedIsFound(baseline: Baseline, measured: seq<GateInput>, finding: Finding)
    ensures finding.UnbaselinedRung? ==>
      (IsFound(baseline, measured, finding) <==>
         IsMeasured(measured, finding.nodes) && !HasRung(baseline, finding.nodes))
  {
  }

  lemma FoundByARung(baseline: Baseline, measured: seq<GateInput>, finding: Finding)
    ensures SomeRungFinds(baseline, measured, |baseline.rungs|, finding)
      <==> !finding.UnbaselinedRung? && IsFound(baseline, measured, finding)
  {
    hide IsComparison;
  }

  lemma ComparedByARung(baseline: Baseline, measured: seq<GateInput>, check: Check)
    ensures SomeRungCompares(baseline, measured, |baseline.rungs|, check)
      <==> IsCompared(baseline, measured, check)
  {
    hide IsComparison;
  }

  /** A later input has the node count of input `i`. */
  predicate Shadowed(measured: seq<GateInput>, i: nat)
    requires i < |measured|
  {
    exists j :: i < j < |measured| && measured[j].nodes == measured[i].nodes
  }

  lemma {:induction false} ByNodesFinds(measured: seq<GateInput>, i: nat)
    requires i < |measured|
    requires forall j :: i < j < |measured| ==> measured[j].nodes != measured[i].nodes
    ensures measured[i].nodes in ByNodes(measured) && ByNodes(measured)[measured[i].nodes] == measured[i]
    decreases |measured|
  {
    if i < |measured| - 1 {
      ByNodesFinds(measured[..|measured| - 1], i);
    }
  }

  /** The rung is the input's own and the input passes it. */
  ghost predicate Vouches(baseline: Baseline, rung: Rung, input: GateInput) {
    rung.nodes == input.nodes && RungPasses(baseline, rung, input)
  }

  /** A pass vouches for every input that no later one has the node count of. */
  lemma PassVouchesForEveryInput(baseline: Baseline, measured: seq<GateInput>, i: nat)
    requires i < |measured| && !Shadowed(measured, i)
    requires IsNullVerdict(Judgement(baseline, measured))
    ensures exists rung :: rung in baseline.rungs && Vouches(baseline, rung, measured[i])
  {
    hide Judgement, RungPasses, ByNodes;
    PassesByLookup(baseline, measured);
    ByNodesFinds(measured, i);
    var rung :| rung in baseline.rungs && rung.nodes == measured[i].nodes;
    var k :| 0 <= k < |baseline.rungs| && baseline.rungs[k] == rung;
    assert baseline.rungs[k].nodes in ByNodes(measured);
    assert Vouches(baseline, rung, measured[i]);
  }

  lemma {:induction false} ByNodesAppend(a: seq<GateInput>, b: seq<GateInput>)
    ensures ByNodes(a + b) == ByNodes(a) + ByNodes(b)
    decreases |b|
  {
    if b == [] {
      assert a + b == a;
    } else {
      var n := |b| - 1;
      ByNodesAppend(a, b[..n]);
      assert (a + b)[..|a + b| - 1] == a + b[..n] && (a + b)[|a + b| - 1] == b[n];
    }
  }

  lemma ByNodesOfOne(input: GateInput)
    ensures ByNodes([input]) == map[input.nodes := input]
  {
    assert [input][..0] == [];
  }

  lemma {:induction false} ByNodesKnows(measured: seq<GateInput>, j: nat)
    requires j < |measured|
    ensures measured[j].nodes in ByNodes(measured)
    decreases |measured|
  {
    if j < |measured| - 1 {
      ByNodesKnows(measured[..|measured| - 1], j);
    }
  }

  /** What a later input shadows is not in the lookup table. */
  lemma ShadowedIsOverwritten(before: seq<GateInput>, input: GateInput, after: seq<GateInput>)
    requires exists j :: 0 <= j < |after| && after[j].nodes == input.nodes
    ensures ByNodes(before + [input] + after) == ByNodes(before + after)
  {
    hide ByNodes;
    var j :| 0 <= j < |after| && after[j].nodes == input.nodes;
    ByNodesAppend(before + [input], after);
    ByNodesAppend(before, [input]);
    ByNodesAppend(before, after);
    ByNodesOfOne(input);
    ByNodesKnows(after, j);
  }

  lemma {:induction false} ByNodesKnowsNoOther(measured: seq<GateInput>, nodes: nat)
    requires nodes in ByNodes(measured)
    ensures exists i :: 0 <= i < |measured| && measured[i].nodes == nodes
    decreases |measured|
  {
    var n := |measured| - 1;
    if measured[n].nodes != nodes {
      ByNodesKnowsNoOther(measured[..n], nodes);
    }
  }

  lemma AllBaselined(baseline: Baseline, measured: seq<GateInput>)
    ensures ByNodes(measured).Keys <= Baselined(baseline) <==>
      forall i :: 0 <= i < |measured| ==> measured[i].nodes in Baselined(baseline)
  {
    hide ByNodes, Baselined;
    forall i | 0 <= i < |measured| ensures measured[i].nodes in ByNodes(measured) {
      ByNodesKnows(measured, i);
    }
    forall nodes | nodes in ByNodes(measured)
      ensures exists i :: 0 <= i < |measured| && measured[i].nodes == nodes
    {
      ByNodesKnowsNoOther(measured, nodes);
    }
  }

  /** The verdict depends on a ladder through its lookup table only. */
  lemma SameLookupSameVerdict(baseline: Baseline, x: seq<GateInput>, y: seq<GateInput>)
    requires ByNodes(x) == ByNodes(y)
    ensures IsNullVerdict(Judgement(baseline, x)) <==> IsNullVerdict(Judgement(baseline, y))
  {
    hide Judgement, RungPasses, ByNodes, Baselined;
    PassesByLookup(baseline, x);
    PassesByLookup(baseline, y);
    AllBaselined(baseline, x);
    AllBaselined(baseline, y);
  }

  /** The ladder passes with anything at all, however it went, in the place of input `i`. */
  ghost predicate NeverLookedAt(baseline: Baseline, measured: seq<GateInput>, i: nat)
    requires i < |measured|
  {
    forall x: GateInput :: x.nodes == measured[i].nodes ==>
      IsNullVerdict(Judgement(baseline, measured[i := x]))
  }

  lemma IncompleteNeverPasses(baseline: Baseline, measured: seq<GateInput>, i: nat)
    requires i < |measured| && !Shadowed(measured, i) && measured[i].incomplete > 0
    ensures !IsNullVerdict(Judgement(baseline, measured))
  {
    hide Judgement, ByNodes;
    if IsNullVerdict(Judgement(baseline, measured)) {
      PassVouchesForEveryInput(baseline, measured, i);
    }
  }

  /**
   * Exactly the shadowed inputs of a passing ladder are never looked at: in the place of one of
   * those any input passes, in the place of any other one that is incomplete does not.
   */
  lemma ExactlyTheShadowedAreNeverLookedAt(baseline: Baseline, measured: seq<GateInput>, i: nat)
    requires i < |measured| && IsNullVerdict(Judgement(baseline, measured))
    ensures Shadowed(measured, i) <==> NeverLookedAt(baseline, measured, i)
  {
    hide Judgement, ByNodes;
    if Shadowed(measured, i) {
      var j :| i < j < |measured| && measured[j].nodes == measured[i].nodes;
      forall x: GateInput | x.nodes == measured[i].nodes
        ensures IsNullVerdict(Judgement(baseline, measured[i := x]))
      {
        var before, after := measured[..i], measured[i + 1..];
        assert after[j - i - 1] == measured[j];
        assert measured[i := x] == before + [x] + after;
        assert measured == before + [measured[i]] + after;
        ShadowedIsOverwritten(before, x, after);
        ShadowedIsOverwritten(before, measured[i], after);
        SameLookupSameVerdict(baseline, measured[i := x], measured);
      }
    } else {
      var x := measured[i].(incomplete := measured[i].incomplete + 1);
      var other := measured[i := x];
      assert forall j :: i < j < |other| ==> other[j] == measured[j];
      IncompleteNeverPasses(baseline, other, i);
    }
  }

  /** A ladder passes with or without an input, anywhere in it, that a later one shadows. */
  lemma ShadowedInputIsNeverCompared(
      baseline: Baseline, before: seq<GateInput>, input: GateInput, after: seq<GateInput>)
    requires exists j :: 0 <= j < |after| && after[j].nodes == input.nodes
    ensures IsNullVerdict(Judgement(baseline, before + [input] + after))
      <==> IsNullVerdict(Judgement(baseline, before + after))
  {
    hide Judgement, ByNodes;
    ShadowedIsOverwritten(before, input, after);
    SameLookupSameVerdict(baseline, before + [input] + after, before + after);
  }

  /** The same inputs with some figures lower. */
  ghost predicate Lowered(a: GateInput, b: GateInput) {
    && a.nodes == b.nodes && a.incomplete == b.incomplete
    && a.makespan.reliable == b.makespan.reliable && a.ratio.reliable == b.ratio.reliable
    && NoHigher(b.ratio.p50, a.ratio.p50) && NoHigher(b.ratio.p95, a.ratio.p95)
    && NoHigher(b.makespan.p50, a.makespan.p50)
  }

  predicate NoHigher(b: Number, a: Number) {
    a.Num? ==> b.Num? && b.value <= a.value
  }

  /** A pass survives lowering any measured statistic. */
  lemma PassSurvivesLowering(baseline: Baseline, a: seq<GateInput>, b: seq<GateInput>)
    requires |a| == |b| && forall i :: 0 <= i < |a| ==> Lowered(a[i], b[i])
    requires IsNullVerdict(Judgement(baseline, a))
    ensures IsNullVerdict(Judgement(baseline, b))
  {
    hide Judgement, ByNodes, Budget, Lowered, RungPasses, Baselined;
    PassesByLookup(baseline, a);
    PassesByLookup(baseline, b);
    LoweredByNodes(a, b);
    forall i | 0 <= i < |baseline.rungs|
      ensures baseline.rungs[i].nodes in ByNodes(b)
      ensures RungPasses(baseline, baseline.rungs[i], ByNodes(b)[baseline.rungs[i].nodes])
    {
      var rung := baseline.rungs[i];
      assert rung.nodes in ByNodes(a);
      LoweredRungPasses(baseline, rung, ByNodes(a)[rung.nodes], ByNodes(b)[rung.nodes]);
    }
    forall i | 0 <= i < |b| ensures b[i].nodes in Baselined(baseline) {
      LoweredIsSameNode(a[i], b[i]);
    }
  }

  lemma LoweredIsSameNode(a: GateInput, b: GateInput)
    requires Lowered(a, b)
    ensures a.nodes == b.nodes
  {
  }

  lemma LoweredIsWithin(a: Number, b: Number, reference: real, headroom: real)
    ensures Within(a, reference, headroom) && NoHigher(b, a) ==> Within(b, reference, headroom)
  {
  }

  lemma LoweredRungPasses(baseline: Baseline, rung: Rung, a: GateInput, b: GateInput)
    requires Lowered(a, b) && RungPasses(baseline, rung, a)
    ensures RungPasses(baseline, rung, b)
  {
    LoweredIsWithin(a.ratio.p50, b.ratio.p50, rung.ratioP50, baseline.ratioP50Headroom);
    LoweredIsWithin(a.ratio.p95, b.ratio.p95, rung.ratioP95, baseline.ratioP95Headroom);
    LoweredIsWithin(a.makespan.p50, b.makespan.p50, rung.makespanP50, baseline.makespanP50Headroom);
  }

  lemma {:induction false} LoweredByNodes(a: seq<GateInput>, b: seq<GateInput>)
    requires |a| == |b| && forall i :: 0 <= i < |a| ==> Lowered(a[i], b[i])
    ensures ByNodes(a).Keys == ByNodes(b).Keys
    ensures forall nodes :: nodes in ByNodes(a) ==> Lowered(ByNodes(a)[nodes], ByNodes(b)[nodes])
    decreases |a|
  {
    hide Lowered;
    if a != [] {
      var n := |a| - 1;
      LoweredByNodes(a[..n], b[..n]);
      LoweredIsSameNode(a[n], b[n]);
    }
  }
}
