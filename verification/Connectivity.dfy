/** The gap between two transports at equal node count (packages/bench/src/harness.ts). */
module Connectivity {
  import opened Common
  import opened Stats
  import opened Harness

  /** `b / a` in double arithmetic, but for rounding. */
  datatype Quotient = Finite(value: real) | Infinite(positive: bool) | Undefined

  function Divide(b: Number, a: Number): Quotient {
    if b.NaN? || a.NaN? then Undefined
    else if a.value != 0.0 then Finite(b.value / a.value)
    else if b.value == 0.0 then Undefined
    else Infinite(b.value > 0.0)
  }

  /** How often `a` goes into `b`, by what it gives back. */
  predicate IsRatio(b: Number, a: Number, q: Quotient) {
    match q
    case Finite(x) => b.Num? && a.Num? && a.value != 0.0 && x * a.value == b.value
    case Infinite(positive) =>
      b.Num? && a.Num? && a.value == 0.0 && (if positive then b.value > 0.0 else b.value < 0.0)
    case Undefined => b.NaN? || a.NaN? || (a.value == 0.0 && b.value == 0.0)
  }

  lemma DivisionIsTheRatio(b: Number, a: Number, q: Quotient)
    ensures q == Divide(b, a) <==> IsRatio(b, a, q)
  {
    if b.Num? && a.Num? && a.value != 0.0 {
      var x := b.value / a.value;
      assert x * a.value == b.value;
      if q.Finite? && q.value * a.value == b.value {
        assert (q.value - x) * a.value == 0.0;
      }
    }
  }

  datatype Tax = Tax(nodes: nat, memoryP50: Number, realP50: Number, ratio: Quotient)

  datatype Curve = Memory | Real

  /** The `RangeError` of a curve with two results at one node count. */
  datatype Refusal = DuplicateRung(curve: Curve, nodes: nat)

  predicate Distinct(points: seq<Point>) {
    forall i, j :: 0 <= i < j < |points| ==> points[i].nodes != points[j].nodes
  }

  /** The first result at a node count that an earlier result already has. */
  ghost predicate IsFirstRepeat(points: seq<Point>, j: int) {
    && 0 <= j < |points| && Distinct(points[..j])
    && exists i :: 0 <= i < j && points[i].nodes == points[j].nodes
  }

  ghost predicate RepeatsFirst(points: seq<Point>, nodes: nat) {
    exists j :: IsFirstRepeat(points, j) && points[j].nodes == nodes
  }

  method RefuseDuplicateRungs(results: seq<Point>) returns (repeat: Option<nat>)
    ensures repeat.None? <==> Distinct(results)
    ensures repeat.Some? ==> RepeatsFirst(results, repeat.value)
  {
    var seen: set<nat> := {};
    for k := 0 to |results|
      invariant forall n :: n in seen <==> exists i :: 0 <= i < k && results[i].nodes == n
      invariant Distinct(results[..k])
    {
      if results[k].nodes in seen {
        assert IsFirstRepeat(results, k);
        return Some(results[k].nodes);
      }
      seen := seen + {results[k].nodes};
    }
    assert results[..|results|] == results;
    return None;
  }

  function AtNodes(points: seq<Point>): (r: map<nat, Point>)
    ensures forall n :: n in r ==> r[n] in points && r[n].nodes == n
    ensures forall i :: 0 <= i < |points| ==> points[i].nodes in r
  {
    if points == [] then map[]
    else
      var last := points[|points| - 1];
      AtNodes(points[..|points| - 1])[last.nodes := last]
  }

  function TaxOf(memory: Point, other: Point): Tax {
    Tax(memory.nodes, memory.makespan.p50, other.makespan.p50,
        Divide(other.makespan.p50, memory.makespan.p50))
  }

  /** Two results of one node count, both with a completed run, and the gap between them. */
  ghost predicate Compares(t: Tax, memory: seq<Point>, other: seq<Point>) {
    exists m, r :: m in memory && r in other && Matches(t, m, r)
  }

  /** The medians of both, and the second over the first: 1 would mean the network cost nothing. */
  predicate Matches(t: Tax, m: Point, r: Point) {
    && t.nodes == m.nodes == r.nodes && m.makespan.n > 0 && r.makespan.n > 0
    && t.memoryP50 == m.makespan.p50 && t.realP50 == r.makespan.p50
    && IsRatio(r.makespan.p50, m.makespan.p50, t.ratio)
  }

  lemma TaxIsTheMatch(t: Tax, m: Point, r: Point)
    requires m.nodes == r.nodes && m.makespan.n > 0 && r.makespan.n > 0
    ensures t == TaxOf(m, r) <==> Matches(t, m, r)
  {
    hide Divide, IsRatio;
    DivisionIsTheRatio(r.makespan.p50, m.makespan.p50, t.ratio);
  }

  predicate Increasing(taxes: seq<Tax>) {
    forall i, j :: 0 <= i < j < |taxes| ==> taxes[i].nodes < taxes[j].nodes
  }

  /** Every node count measured on both curves, once, in order, and no other. */
  ghost predicate IsGap(taxes: seq<Tax>, memory: seq<Point>, other: seq<Point>) {
    Increasing(taxes) && forall t :: t in taxes <==> Compares(t, memory, other)
  }

  /** Into its place in a list sorted by node count. */
  function Place(t: Tax, taxes: seq<Tax>): seq<Tax> {
    if taxes == [] || t.nodes < taxes[0].nodes then [t] + taxes
    else [taxes[0]] + Place(t, taxes[1..])
  }

  function SortByNodes(taxes: seq<Tax>): seq<Tax> {
    if taxes == [] then []
    else Place(taxes[|taxes| - 1], SortByNodes(taxes[..|taxes| - 1]))
  }

  lemma {:induction false} PlaceAdds(t: Tax, taxes: seq<Tax>)
    ensures forall u :: u in Place(t, taxes) <==> u == t || u in taxes
  {
    if taxes != [] && t.nodes >= taxes[0].nodes {
      PlaceAdds(t, taxes[1..]);
      assert taxes == [taxes[0]] + taxes[1..];
    }
  }

  lemma {:induction false} PlaceSorts(t: Tax, taxes: seq<Tax>)
    requires Increasing(taxes) && forall u :: u in taxes ==> u.nodes != t.nodes
    ensures Increasing(Place(t, taxes))
  {
    if taxes != [] && t.nodes >= taxes[0].nodes {
      var rest := Place(t, taxes[1..]);
      assert taxes[0] in taxes;
      PlaceSorts(t, taxes[1..]);
      PlaceAdds(t, taxes[1..]);
      forall i | 0 <= i < |rest| ensures taxes[0].nodes < rest[i].nodes {
        assert rest[i] in rest;
      }
    }
  }

  lemma {:induction false} SortByNodesSorts(taxes: seq<Tax>)
    requires forall i, j :: 0 <= i < j < |taxes| ==> taxes[i].nodes != taxes[j].nodes
    ensures Increasing(SortByNodes(taxes))
    ensures forall t :: t in SortByNodes(taxes) <==> t in taxes
  {
    if taxes != [] {
      hide Place, Increasing;
      var n := |taxes| - 1;
      SortByNodesSorts(taxes[..n]);
      PlaceSorts(taxes[n], SortByNodes(taxes[..n]));
      PlaceAdds(taxes[n], SortByNodes(taxes[..n]));
      assert taxes == taxes[..n] + [taxes[n]];
    }
  }

  method ConnectivityTax(memory: seq<Point>, other: seq<Point>)
    returns (r: Result<seq<Tax>, Refusal>)
    ensures r.Ok? <==> Distinct(memory) && Distinct(other)
    ensures r.Ok? ==> IsGap(r.value, memory, other)
    ensures r.Err? ==>
      if r.error.curve == Memory
      then RepeatsFirst(memory, r.error.nodes)
      else Distinct(memory) && RepeatsFirst(other, r.error.nodes)
  {
    var repeat := RefuseDuplicateRungs(memory);
    if repeat.Some? {
      return Err(DuplicateRung(Memory, repeat.value));
    }
    repeat := RefuseDuplicateRungs(other);
    if repeat.Some? {
      return Err(DuplicateRung(Real, repeat.value));
    }
    hide AtNodes, Compares, Matches, SortByNodes, Distinct, Divide, IsRatio;
    var byNodes := AtNodes(other);
    var taxes: seq<Tax> := [];
    for k := 0 to |memory|
      invariant forall t :: t in taxes <==> Compares(t, memory[..k], other)
      invariant forall i, j :: 0 <= i < j < |taxes| ==> taxes[i].nodes != taxes[j].nodes
      invariant forall t :: t in taxes ==> exists i :: 0 <= i < k && memory[i].nodes == t.nodes
    {
      var point := memory[k];
      ComparesStep(memory, other, k);
      NewTax(memory, byNodes, k);
      if point.nodes in byNodes && point.makespan.n > 0 && byNodes[point.nodes].makespan.n > 0 {
        taxes := taxes + [TaxOf(point, byNodes[point.nodes])];
      }
    }
    assert memory[..|memory|] == memory;
    SortByNodesSorts(taxes);
    return Ok(SortByNodes(taxes));
  }

  /** What one more result of the first curve adds to the comparisons. */
  lemma ComparesStep(memory: seq<Point>, other: seq<Point>, k: nat)
    requires k < |memory| && Distinct(other)
    ensures forall t :: Compares(t, memory[..k + 1], other) <==>
      Compares(t, memory[..k], other)
      || (memory[k].nodes in AtNodes(other) && Matches(t, memory[k], AtNodes(other)[memory[k].nodes]))
  {
    hide Matches;
    assert memory[..k + 1] == memory[..k] + [memory[k]];
    forall t, r | r in other && Matches(t, memory[k], r)
      ensures memory[k].nodes in AtNodes(other) && AtNodes(other)[memory[k].nodes] == r
    {
      SameNodes(t, memory[k], r);
      OnlyOneAt(other, r);
    }
  }

  /** What the loop pushes, if it pushes anything. */
  lemma NewTax(memory: seq<Point>, byNodes: map<nat, Point>, k: nat)
    requires k < |memory| && Distinct(memory)
    requires forall n :: n in byNodes ==> byNodes[n].nodes == n
    ensures memory[k].nodes in byNodes ==>
      var m, r := memory[k], byNodes[memory[k].nodes];
      && TaxOf(m, r).nodes == m.nodes
      && forall t :: Matches(t, m, r) <==>
           m.makespan.n > 0 && r.makespan.n > 0 && t == TaxOf(m, r)
    ensures forall i :: 0 <= i < k ==> memory[i].nodes != memory[k].nodes
  {
    hide Divide, IsRatio;
    if memory[k].nodes in byNodes {
      var m, r := memory[k], byNodes[memory[k].nodes];
      forall t ensures Matches(t, m, r) <==>
        m.makespan.n > 0 && r.makespan.n > 0 && t == TaxOf(m, r)
      {
        if m.makespan.n > 0 && r.makespan.n > 0 {
          TaxIsTheMatch(t, m, r);
        }
      }
    }
  }

  lemma SameNodes(t: Tax, m: Point, r: Point)
    requires Matches(t, m, r)
    ensures m.nodes == r.nodes
  {
  }

  lemma OnlyOneAt(points: seq<Point>, p: Point)
    requires Distinct(points) && p in points
    ensures p.nodes in AtNodes(points) && AtNodes(points)[p.nodes] == p
  {
    var i :| 0 <= i < |points| && points[i] == p;
    var j :| 0 <= j < |points| && points[j] == AtNodes(points)[p.nodes];
  }

  /** The order either curve was measured in changes nothing: the published gap is determined. */
  lemma CurveOrderIsIrrelevant(
      x: seq<Tax>, memoryX: seq<Point>, otherX: seq<Point>,
      y: seq<Tax>, memoryY: seq<Point>, otherY: seq<Point>)
    requires multiset(memoryX) == multiset(memoryY) && multiset(otherX) == multiset(otherY)
    requires IsGap(x, memoryX, otherX) && IsGap(y, memoryY, otherY)
    ensures x == y
  {
    assert forall p :: p in memoryX <==> p in memoryY by {
      assert forall p :: p in memoryX <==> p in multiset(memoryX);
      assert forall p :: p in memoryY <==> p in multiset(memoryY);
    }
    assert forall p :: p in otherX <==> p in otherY by {
      assert forall p :: p in otherX <==> p in multiset(otherX);
      assert forall p :: p in otherY <==> p in multiset(otherY);
    }
    forall t ensures t in x <==> t in y {
      assert Compares(t, memoryX, otherX) <==> Compares(t, memoryY, otherY);
    }
    IncreasingIsUnique(x, y);
  }

  lemma {:induction false} IncreasingIsUnique(x: seq<Tax>, y: seq<Tax>)
    requires Increasing(x) && Increasing(y) && forall t :: t in x <==> t in y
    ensures x == y
  {
    if x == [] {
      HeadIsMember(y);
    } else {
      assert x[0] in y && y != [];
      assert y[0] in x;
      var i :| 0 <= i < |y| && y[i] == x[0];
      var j :| 0 <= j < |x| && x[j] == y[0];
      assert x[0] == y[0];
      assert x == [x[0]] + x[1..] && y == [y[0]] + y[1..];
      forall t ensures t in x[1..] <==> t in y[1..] {
        NotTheHead(x, t);
        NotTheHead(y, t);
      }
      IncreasingIsUnique(x[1..], y[1..]);
    }
  }

  lemma HeadIsMember(x: seq<Tax>)
    ensures x != [] ==> x[0] in x
  {
  }

  lemma NotTheHead(x: seq<Tax>, t: Tax)
    requires Increasing(x) && x != []
    ensures t in x[1..] <==> t in x && t != x[0]
  {
    assert x == [x[0]] + x[1..];
  }
}
