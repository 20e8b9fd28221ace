/**
 * Flux linkage of stranded series windings as one precomputed weight per node and circuit.
 *
 * The weights are accumulated element by element; what they mean is a sum over the winding's
 * labels of turns times the average field of the label.
 */
module Linkage {

  import opened Reals

  datatype Label = Label(inCircuit: int, turns: int)
  datatype Triangle = Triangle(p: seq<nat>, lbl: int)

  /** A mesh as the solver holds it: labels point to their circuit, and a circuit that was made
      for one label remembers the original circuit it stands for (-1 for none). */
  datatype Mesh = Mesh(x: seq<real>, y: seq<real>, elements: seq<Triangle>, labels: seq<Label>, origCirc: seq<int>)

  ghost predicate WellFormed(m: Mesh) {
    |m.x| == |m.y| && forall i :: 0 <= i < |m.elements| ==> Corners(m.elements[i], |m.x|)
  }

  ghost predicate Corners(e: Triangle, nodes: nat) {
    |e.p| == 3 && forall j :: 0 <= j < 3 ==> e.p[j] < nodes
  }

  // ----- private circuits

  /** How many of the first `upTo` labels belong to a series circuit. */
  function SeriesBefore(series: seq<bool>, labels: seq<Label>, upTo: nat): (n: nat)
    requires upTo <= |labels|
    ensures n <= upTo
  {
    if upTo == 0 then 0
    else SeriesBefore(series, labels, upTo - 1) + (if InSeries(series, labels[upTo - 1]) then 1 else 0)
  }

  predicate InSeries(series: seq<bool>, block: Label) {
    0 <= block.inCircuit < |series| && series[block.inCircuit]
  }

  datatype Configured = Configured(labels: seq<Label>, origCirc: seq<int>) | InvalidCircuit

  /** Every label finds, through its private circuit, the series circuit it was given to. */
  ghost predicate Resolves(series: seq<bool>, block: Label, given: Label, origCirc: seq<int>) {
    && given.turns == block.turns
    && if InSeries(series, block)
       then |series| <= given.inCircuit < |origCirc| && origCirc[given.inCircuit] == block.inCircuit
       else given == block
  }

  /** Give each label of a series circuit a circuit of its own. */
  method PrivateCircuits(series: seq<bool>, labels: seq<Label>) returns (r: Configured)
    ensures r.InvalidCircuit? <==> exists l :: 0 <= l < |labels| && labels[l].inCircuit >= |series|
    ensures r.Configured? ==>
      && |r.labels| == |labels| && |r.origCirc| == |series| + SeriesBefore(series, labels, |labels|)
      && (forall c :: 0 <= c < |series| ==> r.origCirc[c] == -1)
      && (forall l :: 0 <= l < |labels| ==> Resolves(series, labels[l], r.labels[l], r.origCirc))
    ensures r.Configured? ==> forall k, l :: 0 <= k < l < |labels| && InSeries(series, labels[k]) && InSeries(series, labels[l]) ==>
      r.labels[k].inCircuit != r.labels[l].inCircuit
  {
    var given, orig := labels, seq(|series|, _ => -1);
    var l := 0;
    while l < |labels|
      invariant 0 <= l <= |labels| == |given|
      invariant |orig| == |series| + SeriesBefore(series, labels, l)
      invariant forall k :: 0 <= k < l ==> labels[k].inCircuit < |series|
      invariant forall c :: 0 <= c < |series| ==> orig[c] == -1
      invariant forall k :: 0 <= k < l ==> Resolves(series, labels[k], given[k], orig)
      invariant forall k :: l <= k < |labels| ==> given[k] == labels[k]
      invariant forall k, j :: 0 <= k < j < l && InSeries(series, labels[k]) && InSeries(series, labels[j]) ==>
        given[k].inCircuit != given[j].inCircuit
    {
      var block := given[l];
      if block.inCircuit >= |series| {
        return InvalidCircuit;
      }
      if block.inCircuit >= 0 && series[block.inCircuit] {
        given := given[l := block.(inCircuit := |orig|)];
        orig := orig + [block.inCircuit];
      }
      l := l + 1;
    }
    return Configured(given, orig);
  }

  // ----- areas

  function AreaOf(x0: real, x1: real, x2: real, y0: real, y1: real, y2: real): (a: real)
    ensures a >= 0.0
  {
    0.0001 * Abs((x1 - x0) * (y2 - y0) - (x2 - x0) * (y1 - y0)) / 2.0
  }

  /** The area of an element in square metres; coordinates are in centimetres. */
  function Area(m: Mesh, i: nat): (a: real)
    requires WellFormed(m) && i < |m.elements|
    ensures a >= 0.0
  {
    var p := m.elements[i].p;
    AreaOf(m.x[p[0]], m.x[p[1]], m.x[p[2]], m.y[p[0]], m.y[p[1]], m.y[p[2]])
  }

  function LabelArea(m: Mesh, l: int, upTo: nat): (a: real)
    requires WellFormed(m) && upTo <= |m.elements|
    ensures a >= 0.0
  {
    if upTo == 0 then 0.0
    else LabelArea(m, l, upTo - 1) + (if m.elements[upTo - 1].lbl == l then Area(m, upTo - 1) else 0.0)
  }

  function TotalArea(m: Mesh, l: int): real
    requires WellFormed(m)
  {
    LabelArea(m, l, |m.elements|)
  }

  // ----- which label counts for which circuit

  /** The original circuit that a label adds to, or -1. */
  function CircuitOf(m: Mesh, circuits: nat, l: int): int
    requires WellFormed(m)
  {
    if !(0 <= l < |m.labels|) then -1
    else if !(0 <= m.labels[l].inCircuit < |m.origCirc|) then -1
    else if !(0 <= m.origCirc[m.labels[l].inCircuit] < circuits) || !(TotalArea(m, l) > 0.0) then -1
    else m.origCirc[m.labels[l].inCircuit]
  }

  /** Through the private circuits, a label counts for the very circuit the model gave it to. */
  lemma PrivateCircuitsKeepMembership(m: Mesh, series: seq<bool>, labels: seq<Label>, l: nat)
    requires WellFormed(m) && |m.labels| == |labels| && l < |labels|
    requires forall c :: 0 <= c < |series| ==> series[c]
    requires labels[l].inCircuit < |series| && Resolves(series, labels[l], m.labels[l], m.origCirc)
    ensures CircuitOf(m, |series|, l) == if labels[l].inCircuit >= 0 && TotalArea(m, l) > 0.0 then labels[l].inCircuit else -1
    ensures Copied(m.labels[l], m.origCirc) == labels[l]
  {
  }

  // ----- the labels as the post-processor copies them

  /** A label with the original of its circuit, if that has one. */
  function Copied(block: Label, origCirc: seq<int>): Label {
    if 0 <= block.inCircuit < |origCirc| && origCirc[block.inCircuit] >= 0 then block.(inCircuit := origCirc[block.inCircuit]) else block
  }

  /** How many of the first `upTo` labels have a block type. */
  function PhysicalBefore(physical: seq<bool>, upTo: nat): nat
    requires upTo <= |physical|
  {
    if upTo == 0 then 0 else PhysicalBefore(physical, upTo - 1) + (if physical[upTo - 1] then 1 else 0)
  }

  /** Label `l` is copied behind the labels with a block type before it, or not at all. */
  ghost predicate CopiedTo(labels: seq<Label>, physical: seq<bool>, origCirc: seq<int>, mapping: seq<int>, target: seq<Label>, l: nat)
    requires |physical| == |labels| && l < |labels| && l < |mapping|
  {
    if physical[l]
    then mapping[l] == PhysicalBefore(physical, l) < |target| && target[mapping[l]] == Copied(labels[l], origCirc)
    else mapping[l] == -1
  }

  /** Copy the labels that have a block type, numbered afresh in order, with their original circuits. */
  method CopyPhysicalLabels(labels: seq<Label>, physical: seq<bool>, origCirc: seq<int>) returns (mapping: seq<int>, target: seq<Label>)
    requires |physical| == |labels|
    ensures |mapping| == |labels| && |target| == PhysicalBefore(physical, |labels|)
    ensures forall l :: 0 <= l < |labels| ==> CopiedTo(labels, physical, origCirc, mapping, target, l)
  {
    mapping, target := [], [];
    var i := 0;
    while i < |labels|
      invariant 0 <= i <= |labels| && |mapping| == i && |target| == PhysicalBefore(physical, i)
      invariant forall l :: 0 <= l < i ==> CopiedTo(labels, physical, origCirc, mapping, target, l)
    {
      ghost var before, copies := mapping, target;
      if physical[i] {
        mapping := mapping + [|target|];
        target := target + [Copied(labels[i], origCirc)];
      } else {
        mapping := mapping + [-1];
      }
      forall l | 0 <= l < i ensures CopiedTo(labels, physical, origCirc, mapping, target, l) {
        assert CopiedTo(labels, physical, origCirc, before, copies, l);
      }
      i := i + 1;
    }
  }

  /** Every copy is the copy of exactly one label, and the copies keep the order of the labels. */
  lemma {:induction false} CopyHasLabel(physical: seq<bool>, t: nat, upTo: nat) returns (l: nat)
    requires upTo <= |physical| && t < PhysicalBefore(physical, upTo)
    ensures l < upTo && physical[l] && PhysicalBefore(physical, l) == t
  {
    if physical[upTo - 1] && t == PhysicalBefore(physical, upTo - 1) {
      l := upTo - 1;
    } else {
      l := CopyHasLabel(physical, t, upTo - 1);
    }
  }

  lemma {:induction false} CopiesKeepOrder(physical: seq<bool>, k: nat, l: nat)
    requires k < l <= |physical|
    ensures PhysicalBefore(physical, k) + (if physical[k] then 1 else 0) <= PhysicalBefore(physical, l)
  {
    if k < l - 1 {
      CopiesKeepOrder(physical, k, l - 1);
    }
  }

  /** Where every circuit is in series, copying the labels undoes the private circuits: each label
      with a block type comes back as the model gave it, in the same order. */
  lemma CopyingRestoresLabels(series: seq<bool>, labels: seq<Label>, given: seq<Label>, origCirc: seq<int>, physical: seq<bool>, mapping: seq<int>, target: seq<Label>, l: nat)
    requires |labels| == |given| == |physical| == |mapping| && l < |labels| && physical[l]
    requires forall c :: 0 <= c < |series| ==> series[c]
    requires labels[l].inCircuit < |series| && Resolves(series, labels[l], given[l], origCirc)
    requires CopiedTo(given, physical, origCirc, mapping, target, l)
    ensures target[mapping[l]] == labels[l]
  {
  }

  /** The signed turns of a label times the depth. */
  function Strength(m: Mesh, depth: real, l: int): real
    requires 0 <= l < |m.labels|
  {
    Times(m.labels[l].turns as real, depth)
  }

  /** What one element adds to each of its corners. */
  function Coefficient(m: Mesh, depth: real, i: nat): real
    requires WellFormed(m) && i < |m.elements| && 0 <= m.elements[i].lbl < |m.labels| && TotalArea(m, m.elements[i].lbl) > 0.0
  {
    Over(Times(Strength(m, depth, m.elements[i].lbl), Area(m, i)), 3.0 * TotalArea(m, m.elements[i].lbl))
  }

  function ElementCoefficient(m: Mesh, circuits: nat, depth: real, c: nat, i: nat): real
    requires WellFormed(m) && i < |m.elements|
  {
    if CircuitOf(m, circuits, m.elements[i].lbl) == c then Coefficient(m, depth, i) else 0.0
  }

  /** How much of a value given to every corner lands on one node. */
  function Share(p: seq<nat>, upTo: nat, node: nat, v: real): real
    requires upTo <= |p|
  {
    if upTo == 0 then 0.0 else Share(p, upTo - 1, node, v) + (if p[upTo - 1] == node then v else 0.0)
  }

  /** The weight of a node, over the first `upTo` elements. */
  function Weight(m: Mesh, circuits: nat, depth: real, c: nat, node: nat, upTo: nat): real
    requires WellFormed(m) && upTo <= |m.elements|
  {
    if upTo == 0 then 0.0
    else
      Weight(m, circuits, depth, c, node, upTo - 1) +
      Share(m.elements[upTo - 1].p, 3, node, ElementCoefficient(m, circuits, depth, c, upTo - 1))
  }

  // ----- building the weights

  datatype Problem = Problem(direct: bool, planar: bool, seriesCircuit: seq<bool>, depth: real, metres: real)

  function Depth(problem: Problem): real {
    if problem.depth == -1.0 then 1.0 else problem.depth * problem.metres
  }

  /** The direct form applies to planar direct-current problems with series circuits only. */
  predicate Applicable(problem: Problem, originalCircuits: int) {
    && problem.direct && problem.planar && |problem.seriesCircuit| == originalCircuits
    && forall c :: 0 <= c < |problem.seriesCircuit| ==> problem.seriesCircuit[c]
  }

  ghost predicate Wound(m: Mesh, circuits: nat, c: nat, upTo: nat)
    requires WellFormed(m) && upTo <= |m.elements|
  {
    exists i :: 0 <= i < upTo && CircuitOf(m, circuits, m.elements[i].lbl) == c
  }

  method LabelAreas(m: Mesh) returns (area: seq<real>)
    requires WellFormed(m)
    ensures |area| == |m.labels| && forall l :: 0 <= l < |area| ==> area[l] == TotalArea(m, l)
  {
    area := seq(|m.labels|, _ => 0.0);
    for i := 0 to |m.elements|
      invariant |area| == |m.labels| && forall l :: 0 <= l < |area| ==> area[l] == LabelArea(m, l, i)
    {
      var l := m.elements[i].lbl;
      if 0 <= l < |area| {
        area := area[l := area[l] + Area(m, i)];
      }
    }
  }

  /** Add one value at every corner. */
  method AddAtCorners(weights: array2<real>, c: nat, p: seq<nat>, v: real)
    requires c < weights.Length0 && |p| == 3 && forall j :: 0 <= j < 3 ==> p[j] < weights.Length1
    modifies weights
    ensures forall k, node :: 0 <= k < weights.Length0 && 0 <= node < weights.Length1 ==>
      weights[k, node] == old(weights[k, node]) + Share(p, 3, node, if k == c then v else 0.0)
  {
    assert forall node: nat, x: real :: Share(p, 0, node, x) == 0.0;
    for j := 0 to 3
      invariant forall k, node :: 0 <= k < weights.Length0 && 0 <= node < weights.Length1 ==>
        weights[k, node] == old(weights[k, node]) + Share(p, j, node, if k == c then v else 0.0)
    {
      weights[c, p[j]] := weights[c, p[j]] + v;
    }
  }

  lemma {:induction false} NothingShared(p: seq<nat>, upTo: nat, node: nat)
    requires upTo <= |p|
    ensures Share(p, upTo, node, 0.0) == 0.0
  {
    if upTo > 0 {
      NothingShared(p, upTo - 1, node);
    }
  }

  /** Build the weights of all circuits, or find that the direct form is not available. */
  method BuildWeights(m: Mesh, problem: Problem, originalCircuits: int) returns (available: bool, weights: array2<real>)
    requires WellFormed(m)
    ensures fresh(weights)
    ensures available <==>
      && problem.direct && problem.planar && |problem.seriesCircuit| == originalCircuits
      && (forall c :: 0 <= c < |problem.seriesCircuit| ==> problem.seriesCircuit[c])
      && forall c :: 0 <= c < |problem.seriesCircuit| ==> Wound(m, |problem.seriesCircuit|, c, |m.elements|)
    ensures available ==> weights.Length0 == |problem.seriesCircuit| && weights.Length1 == |m.x|
    ensures available ==> forall c, node :: 0 <= c < weights.Length0 && 0 <= node < weights.Length1 ==>
      weights[c, node] == Weight(m, |problem.seriesCircuit|, Depth(problem), c, node, |m.elements|)
  {
    var circuits := |problem.seriesCircuit|;
    weights := new real[circuits, |m.x|]((_, _) => 0.0);
    if !Applicable(problem, originalCircuits) {
      return false, weights;
    }
    var area := LabelAreas(m);
    var depth := Depth(problem);
    var found := seq(circuits, _ => false);
    for i := 0 to |m.elements|
      invariant fresh(weights) && |found| == circuits
      invariant forall c :: 0 <= c < circuits ==> (found[c] <==> Wound(m, circuits, c, i))
      invariant forall c, node :: 0 <= c < circuits && 0 <= node < |m.x| ==>
        weights[c, node] == Weight(m, circuits, depth, c, node, i)
    {
      var l := m.elements[i].lbl;
      var counts := 0 <= l < |m.labels| && 0 <= m.labels[l].inCircuit < |m.origCirc|;
      ghost var found0, was := found, CircuitOf(m, circuits, l);
      if counts && 0 <= m.origCirc[m.labels[l].inCircuit] < circuits && area[l] > 0.0 {
        var c := m.origCirc[m.labels[l].inCircuit];
        found := found[c := true];
        var coefficient := Over(Times(Strength(m, depth, l), Area(m, i)), 3.0 * area[l]);
        assert area[l] == TotalArea(m, l);
        assert c == was && coefficient == Coefficient(m, depth, i);
        AddAtCorners(weights, c, m.elements[i].p, coefficient);
      } else {
        assert was == -1;
        forall c: nat, node: nat ensures Share(m.elements[i].p, 3, node, ElementCoefficient(m, circuits, depth, c, i)) == 0.0 {
          NothingShared(m.elements[i].p, 3, node);
        }
      }
      forall c | 0 <= c < circuits ensures found[c] <==> Wound(m, circuits, c, i + 1) {
        NextWound(m, circuits, c, i);
      }
    }
    available := forall c :: 0 <= c < circuits ==> found[c];
  }

  lemma NextWound(m: Mesh, circuits: nat, c: nat, i: nat)
    requires WellFormed(m) && i < |m.elements|
    ensures Wound(m, circuits, c, i + 1) <==> Wound(m, circuits, c, i) || CircuitOf(m, circuits, m.elements[i].lbl) == c
  {
  }

  // ----- the linkage of a field

  function Dot(w: seq<real>, a: seq<real>, upTo: nat): real
    requires upTo <= |w| && upTo <= |a|
  {
    if upTo == 0 then 0.0 else Dot(w, a, upTo - 1) + Times(w[upTo - 1], a[upTo - 1])
  }

  datatype Linked = Linked(linkage: real) | DimensionChanged

  /** The linkage of one circuit for one solution. */
  method DirectLinkage(weights: seq<real>, solution: seq<real>) returns (r: Linked)
    ensures r == if |weights| == |solution| then Linked(Dot(weights, solution, |weights|)) else DimensionChanged
  {
    if |weights| != |solution| {
      return DimensionChanged;
    }
    var linkage := 0.0;
    for node := 0 to |weights|
      invariant linkage == Dot(weights, solution, node)
    {
      linkage := linkage + Times(weights[node], solution[node]);
    }
    return Linked(linkage);
  }

  function CornerSum(p: seq<nat>, upTo: nat, a: seq<real>): real
    requires upTo <= |p| && forall j :: 0 <= j < |p| ==> p[j] < |a|
  {
    if upTo == 0 then 0.0 else CornerSum(p, upTo - 1, a) + a[p[upTo - 1]]
  }

  /** The integral of the field over the elements of a label (area times mean of the corners). */
  function Moment(m: Mesh, l: int, a: seq<real>, upTo: nat): real
    requires WellFormed(m) && |a| == |m.x| && upTo <= |m.elements|
  {
    if upTo == 0 then 0.0
    else Moment(m, l, a, upTo - 1) + (if m.elements[upTo - 1].lbl == l then ElementMoment(m, upTo - 1, a) else 0.0)
  }

  function ElementMoment(m: Mesh, i: nat, a: seq<real>): real
    requires WellFormed(m) && |a| == |m.x| && i < |m.elements|
  {
    Times(Area(m, i), CornerSum(m.elements[i].p, 3, a) / 3.0)
  }

  /** The area-weighted mean of the field over a label. */
  function Mean(m: Mesh, l: int, a: seq<real>): real
    requires WellFormed(m) && |a| == |m.x| && TotalArea(m, l) > 0.0
  {
    Over(Moment(m, l, a, |m.elements|), TotalArea(m, l))
  }

  /** Turns times depth times the mean field, over the first `upTo` labels of a circuit. */
  function LabelSum(m: Mesh, circuits: nat, depth: real, c: nat, a: seq<real>, upTo: nat): real
    requires WellFormed(m) && |a| == |m.x| && upTo <= |m.labels|
  {
    if upTo == 0 then 0.0
    else
      LabelSum(m, circuits, depth, c, a, upTo - 1) +
      (if CircuitOf(m, circuits, upTo - 1) == c then Times(Strength(m, depth, upTo - 1), Mean(m, upTo - 1, a)) else 0.0)
  }

  /** The weights of a circuit as a vector. */
  function Weights(m: Mesh, circuits: nat, depth: real, c: nat, upTo: nat): (w: seq<real>)
    requires WellFormed(m) && upTo <= |m.elements|
    ensures |w| == |m.x| && forall node :: 0 <= node < |w| ==> w[node] == Weight(m, circuits, depth, c, node, upTo)
  {
    seq(|m.x|, node requires 0 <= node < |m.x| => Weight(m, circuits, depth, c, node, upTo))
  }

  // ----- the weights as a sum over elements

  function ElementSum(m: Mesh, circuits: nat, depth: real, c: nat, a: seq<real>, upTo: nat): real
    requires WellFormed(m) && |a| == |m.x| && upTo <= |m.elements|
  {
    if upTo == 0 then 0.0
    else
      ElementSum(m, circuits, depth, c, a, upTo - 1) +
      Times(ElementCoefficient(m, circuits, depth, c, upTo - 1), CornerSum(m.elements[upTo - 1].p, 3, a))
  }

  function Shares(p: seq<nat>, v: real, a: seq<real>, upTo: nat): real
    requires |p| == 3 && upTo <= |a|
  {
    if upTo == 0 then 0.0 else Shares(p, v, a, upTo - 1) + Times(Share(p, 3, upTo - 1, v), a[upTo - 1])
  }

  /** One more element adds its shares to the product. */
  lemma {:induction false} DotNext(m: Mesh, circuits: nat, depth: real, c: nat, a: seq<real>, i: nat, upTo: nat)
    requires WellFormed(m) && |a| == |m.x| && i < |m.elements| && upTo <= |a|
    ensures Dot(Weights(m, circuits, depth, c, i + 1), a, upTo)
         == Dot(Weights(m, circuits, depth, c, i), a, upTo) + Shares(m.elements[i].p, ElementCoefficient(m, circuits, depth, c, i), a, upTo)
  {
    if upTo > 0 {
      DotNext(m, circuits, depth, c, a, i, upTo - 1);
      TimesAdds(Weight(m, circuits, depth, c, upTo - 1, i), Share(m.elements[i].p, 3, upTo - 1, ElementCoefficient(m, circuits, depth, c, i)), a[upTo - 1]);
    }
  }

  /** The corners below `upTo`, each with its value. */
  function Reached(p: seq<nat>, n: nat, v: real, a: seq<real>, upTo: nat): real
    requires n <= |p| && forall j :: 0 <= j < |p| ==> p[j] < |a|
  {
    if n == 0 then 0.0 else Reached(p, n - 1, v, a, upTo) + (if p[n - 1] < upTo then Times(v, a[p[n - 1]]) else 0.0)
  }

  lemma {:induction false} ReachedNext(p: seq<nat>, n: nat, v: real, a: seq<real>, node: nat)
    requires n <= |p| && node < |a| && forall j :: 0 <= j < |p| ==> p[j] < |a|
    ensures Reached(p, n, v, a, node + 1) == Reached(p, n, v, a, node) + Times(Share(p, n, node, v), a[node])
  {
    if n > 0 {
      ReachedNext(p, n - 1, v, a, node);
      TimesAdds(Share(p, n - 1, node, v), if p[n - 1] == node then v else 0.0, a[node]);
    }
  }

  lemma {:induction false} ReachedNothing(p: seq<nat>, n: nat, v: real, a: seq<real>)
    requires n <= |p| && forall j :: 0 <= j < |p| ==> p[j] < |a|
    ensures Reached(p, n, v, a, 0) == 0.0
  {
    if n > 0 {
      ReachedNothing(p, n - 1, v, a);
    }
  }

  lemma {:induction false} ReachedAll(p: seq<nat>, n: nat, v: real, a: seq<real>)
    requires n <= |p| && forall j :: 0 <= j < |p| ==> p[j] < |a|
    ensures Reached(p, n, v, a, |a|) == Times(v, CornerSum(p, n, a))
  {
    if n > 0 {
      ReachedAll(p, n - 1, v, a);
      TimesAdds(CornerSum(p, n - 1, a), a[p[n - 1]], v);
    }
  }

  lemma {:induction false} SharesAre(p: seq<nat>, v: real, a: seq<real>, upTo: nat)
    requires |p| == 3 && upTo <= |a| && forall j :: 0 <= j < |p| ==> p[j] < |a|
    ensures Shares(p, v, a, upTo) == Reached(p, 3, v, a, upTo)
  {
    if upTo == 0 {
      ReachedNothing(p, 3, v, a);
    } else {
      SharesAre(p, v, a, upTo - 1);
      ReachedNext(p, 3, v, a, upTo - 1);
    }
  }

  lemma {:induction false} NoWeights(m: Mesh, circuits: nat, depth: real, c: nat, a: seq<real>, upTo: nat)
    requires WellFormed(m) && |a| == |m.x| && upTo <= |a|
    ensures Dot(Weights(m, circuits, depth, c, 0), a, upTo) == 0.0
  {
    if upTo > 0 {
      NoWeights(m, circuits, depth, c, a, upTo - 1);
    }
  }

  lemma {:induction false} DotIsElementSum(m: Mesh, circuits: nat, depth: real, c: nat, a: seq<real>, upTo: nat)
    requires WellFormed(m) && |a| == |m.x| && upTo <= |m.elements|
    ensures Dot(Weights(m, circuits, depth, c, upTo), a, |a|) == ElementSum(m, circuits, depth, c, a, upTo)
  {
    if upTo == 0 {
      NoWeights(m, circuits, depth, c, a, |a|);
    } else {
      var p, v := m.elements[upTo - 1].p, ElementCoefficient(m, circuits, depth, c, upTo - 1);
      DotIsElementSum(m, circuits, depth, c, a, upTo - 1);
      DotNext(m, circuits, depth, c, a, upTo - 1, |a|);
      SharesAre(p, v, a, |a|);
      ReachedAll(p, 3, v, a);
    }
  }

  // ----- the same sum, label by label

  /** What a label of the circuit has got from the first `upTo` elements. */
  function LabelPart(m: Mesh, circuits: nat, depth: real, c: nat, a: seq<real>, l: nat, upTo: nat): real
    requires WellFormed(m) && |a| == |m.x| && l < |m.labels| && upTo <= |m.elements|
  {
    if CircuitOf(m, circuits, l) == c
    then Over(Times(Strength(m, depth, l), Moment(m, l, a, upTo)), TotalArea(m, l))
    else 0.0
  }

  function LabelParts(m: Mesh, circuits: nat, depth: real, c: nat, a: seq<real>, labels: nat, upTo: nat): real
    requires WellFormed(m) && |a| == |m.x| && labels <= |m.labels| && upTo <= |m.elements|
  {
    if labels == 0 then 0.0
    else LabelParts(m, circuits, depth, c, a, labels - 1, upTo) + LabelPart(m, circuits, depth, c, a, labels - 1, upTo)
  }

  /** An element adds to its own label, by its coefficient times the sum of its corners. */
  lemma LabelPartNext(m: Mesh, circuits: nat, depth: real, c: nat, a: seq<real>, l: nat, i: nat)
    requires WellFormed(m) && |a| == |m.x| && l < |m.labels| && i < |m.elements|
    ensures LabelPart(m, circuits, depth, c, a, l, i + 1) == LabelPart(m, circuits, depth, c, a, l, i)
      + (if m.elements[i].lbl == l then Times(ElementCoefficient(m, circuits, depth, c, i), CornerSum(m.elements[i].p, 3, a)) else 0.0)
  {
    if m.elements[i].lbl == l && CircuitOf(m, circuits, l) == c {
      var t, s := Strength(m, depth, l), CornerSum(m.elements[i].p, 3, a);
      assert Moment(m, l, a, i + 1) == Moment(m, l, a, i) + Times(Area(m, i), s / 3.0);
      assert ElementCoefficient(m, circuits, depth, c, i) == Over(Times(t, Area(m, i)), 3.0 * TotalArea(m, l));
      CoefficientLaw(t, Moment(m, l, a, i), Area(m, i), s, TotalArea(m, l));
    }
  }

  lemma CoefficientLaw(t: real, moment: real, area: real, s: real, total: real)
    requires total > 0.0
    ensures Over(Times(t, moment + Times(area, s / 3.0)), total)
         == Over(Times(t, moment), total) + Times(Over(Times(t, area), 3.0 * total), s)
  {
    var k := t * area;
    assert Times(t, moment + Times(area, s / 3.0)) == t * moment + k * s / 3.0 by {
      assert t * (area * (s / 3.0)) == k * (s / 3.0);
      TimesAdds(moment, Times(area, s / 3.0), t);
    }
    OverAdds(t * moment, k * s / 3.0, total);
    OverThird(k, s, total);
  }

  lemma OverAdds(u: real, v: real, total: real)
    requires total > 0.0
    ensures Over(u + v, total) == Over(u, total) + Over(v, total)
  {
  }

  lemma OverThird(k: real, s: real, total: real)
    requires total > 0.0
    ensures Over(k * s / 3.0, total) == Times(Over(k, 3.0 * total), s)
  {
    var q := k / (3.0 * total);
    assert q * (3.0 * total) == k;
    assert k * s / 3.0 == (q * s) * total by {
      assert k * s == (q * (3.0 * total)) * s == 3.0 * ((q * s) * total);
    }
    assert ((q * s) * total) / total == q * s;
  }

  lemma {:induction false} LabelPartsNext(m: Mesh, circuits: nat, depth: real, c: nat, a: seq<real>, labels: nat, i: nat)
    requires WellFormed(m) && |a| == |m.x| && labels <= |m.labels| && i < |m.elements|
    ensures LabelParts(m, circuits, depth, c, a, labels, i + 1) == LabelParts(m, circuits, depth, c, a, labels, i)
      + (if 0 <= m.elements[i].lbl < labels then Times(ElementCoefficient(m, circuits, depth, c, i), CornerSum(m.elements[i].p, 3, a)) else 0.0)
  {
    if labels > 0 {
      LabelPartsNext(m, circuits, depth, c, a, labels - 1, i);
      LabelPartNext(m, circuits, depth, c, a, labels - 1, i);
    }
  }

  lemma {:induction false} NoParts(m: Mesh, circuits: nat, depth: real, c: nat, a: seq<real>, labels: nat)
    requires WellFormed(m) && |a| == |m.x| && labels <= |m.labels|
    ensures LabelParts(m, circuits, depth, c, a, labels, 0) == 0.0
  {
    if labels > 0 {
      NoParts(m, circuits, depth, c, a, labels - 1);
      if CircuitOf(m, circuits, labels - 1) == c {
        assert Times(Strength(m, depth, labels - 1), 0.0) == 0.0;
      }
    }
  }

  lemma {:induction false} ElementSumIsByLabel(m: Mesh, circuits: nat, depth: real, c: nat, a: seq<real>, upTo: nat)
    requires WellFormed(m) && |a| == |m.x| && upTo <= |m.elements|
    ensures ElementSum(m, circuits, depth, c, a, upTo) == LabelParts(m, circuits, depth, c, a, |m.labels|, upTo)
  {
    if upTo == 0 {
      NoParts(m, circuits, depth, c, a, |m.labels|);
    } else {
      ElementSumIsByLabel(m, circuits, depth, c, a, upTo - 1);
      LabelPartsNext(m, circuits, depth, c, a, |m.labels|, upTo - 1);
      if !(0 <= m.elements[upTo - 1].lbl < |m.labels|) {
        assert Times(ElementCoefficient(m, circuits, depth, c, upTo - 1), CornerSum(m.elements[upTo - 1].p, 3, a)) == 0.0;
      }
    }
  }

  lemma {:induction false} PartsAreMeans(m: Mesh, circuits: nat, depth: real, c: nat, a: seq<real>, labels: nat)
    requires WellFormed(m) && |a| == |m.x| && labels <= |m.labels|
    ensures LabelParts(m, circuits, depth, c, a, labels, |m.elements|) == LabelSum(m, circuits, depth, c, a, labels)
  {
    if labels > 0 {
      var l := labels - 1;
      PartsAreMeans(m, circuits, depth, c, a, l);
      if CircuitOf(m, circuits, l) == c {
        var t := Strength(m, depth, l);
        TimesOver(t, Moment(m, l, a, |m.elements|), TotalArea(m, l));
        assert LabelPart(m, circuits, depth, c, a, l, |m.elements|) == Times(t, Mean(m, l, a));
      }
    }
  }

  lemma TimesOver(t: real, u: real, total: real)
    requires total > 0.0
    ensures Over(Times(t, u), total) == Times(t, Over(u, total))
  {
    var q := u / total;
    assert t * u == (t * q) * total;
  }

  /** For every field, the precomputed weights give the sum over the circuit's labels of turns times
      depth times the area-weighted mean of the field. */
  lemma LinkageIsLabelSum(m: Mesh, circuits: nat, depth: real, c: nat, a: seq<real>)
    requires WellFormed(m) && |a| == |m.x|
    ensures Dot(Weights(m, circuits, depth, c, |m.elements|), a, |a|) == LabelSum(m, circuits, depth, c, a, |m.labels|)
  {
    DotIsElementSum(m, circuits, depth, c, a, |m.elements|);
    ElementSumIsByLabel(m, circuits, depth, c, a, |m.elements|);
    PartsAreMeans(m, circuits, depth, c, a, |m.labels|);
  }

  // ----- the weights add up to the turns

  function Sum(w: seq<real>, upTo: nat): real
    requires upTo <= |w|
  {
    if upTo == 0 then 0.0 else Sum(w, upTo - 1) + w[upTo - 1]
  }

  /** The signed turns of the labels that count for a circuit. */
  function Turns(m: Mesh, circuits: nat, c: nat, upTo: nat): int
    requires WellFormed(m) && upTo <= |m.labels|
  {
    if upTo == 0 then 0
    else Turns(m, circuits, c, upTo - 1) + (if CircuitOf(m, circuits, upTo - 1) == c then m.labels[upTo - 1].turns else 0)
  }

  function Ones(n: nat): (a: seq<real>)
    ensures |a| == n
  {
    seq(n, _ => 1.0)
  }

  lemma {:induction false} DotOnes(w: seq<real>, upTo: nat)
    requires upTo <= |w|
    ensures Dot(w, Ones(|w|), upTo) == Sum(w, upTo)
  {
    if upTo > 0 {
      DotOnes(w, upTo - 1);
    }
  }

  lemma {:induction false} MomentOfOnes(m: Mesh, l: int, upTo: nat)
    requires WellFormed(m) && upTo <= |m.elements|
    ensures Moment(m, l, Ones(|m.x|), upTo) == LabelArea(m, l, upTo)
  {
    if upTo > 0 {
      MomentOfOnes(m, l, upTo - 1);
      var p, ones := m.elements[upTo - 1].p, Ones(|m.x|);
      assert CornerSum(p, 1, ones) == 1.0;
      assert CornerSum(p, 2, ones) == 2.0;
      assert CornerSum(p, 3, ones) == 3.0;
      assert Times(Area(m, upTo - 1), 1.0) == Area(m, upTo - 1);
    }
  }

  lemma OverItself(u: real)
    requires u > 0.0
    ensures Over(u, u) == 1.0
  {
  }

  lemma {:induction false} LabelSumOfOnes(m: Mesh, circuits: nat, depth: real, c: nat, upTo: nat)
    requires WellFormed(m) && upTo <= |m.labels|
    ensures LabelSum(m, circuits, depth, c, Ones(|m.x|), upTo) == Times(depth, Turns(m, circuits, c, upTo) as real)
  {
    if upTo > 0 {
      var l := upTo - 1;
      LabelSumOfOnes(m, circuits, depth, c, l);
      if CircuitOf(m, circuits, l) == c {
        MomentOfOnes(m, l, |m.elements|);
        OverItself(TotalArea(m, l));
        assert Mean(m, l, Ones(|m.x|)) == 1.0;
        TimesAdds(Turns(m, circuits, c, l) as real, m.labels[l].turns as real, depth);
      }
    }
  }

  /** Each circuit's weights add up to the depth times its signed turns. */
  lemma WeightsSumToTurns(m: Mesh, circuits: nat, depth: real, c: nat)
    requires WellFormed(m)
    ensures Sum(Weights(m, circuits, depth, c, |m.elements|), |m.x|) == Times(depth, Turns(m, circuits, c, |m.labels|) as real)
  {
    LinkageIsLabelSum(m, circuits, depth, c, Ones(|m.x|));
    DotOnes(Weights(m, circuits, depth, c, |m.elements|), |m.x|);
    LabelSumOfOnes(m, circuits, depth, c, |m.labels|);
  }

  // ----- the reference form of the post-processor

  /** Turns times the average field of one label; nothing when the label has no area. */
  method StrandedLinkage(m: Mesh, depth: real, l: nat, a: seq<real>) returns (area: real, linkage: real)
    requires WellFormed(m) && |a| == |m.x| && l < |m.labels|
    ensures area == TotalArea(m, l)
    ensures area > 0.0 ==> linkage == Times(Strength(m, depth, l), Mean(m, l, a))
  {
    area, linkage := 0.0, 0.0;
    for i := 0 to |m.elements|
      invariant area == LabelArea(m, l, i) && linkage == Times(Moment(m, l, a, i), depth)
    {
      if m.elements[i].lbl == l {
        var p := m.elements[i].p;
        area := area + Area(m, i);
        var integral := PlaneIntegral(Area(m, i), a[p[0]], a[p[1]], a[p[2]]);
        PlaneIntegralIs(m, i, a);
        TimesAdds(Moment(m, l, a, i), integral, depth);
        linkage := linkage + Times(integral, depth);
      }
    }
    if area > 0.0 {
      var u, t := Moment(m, l, a, |m.elements|), m.labels[l].turns as real;
      linkage := Times(linkage, Over(t, area));
      Regroup(u, depth, t, area);
    }
  }

  lemma Regroup(u: real, depth: real, t: real, area: real)
    requires area > 0.0
    ensures Times(Times(u, depth), Over(t, area)) == Times(t * depth, Over(u, area))
  {
    var q, r := u / area, t / area;
    assert u == q * area && t == r * area;
    assert (u * depth) * r == ((q * area) * depth) * r == (q * depth) * (r * area);
  }

  /** The integral of a linear field over a triangle, as the post-processor writes it. */
  function PlaneIntegral(area: real, u0: real, u1: real, u2: real): real {
    Times(area, (2.0 * u0 + u1 + u2) + (u0 + 2.0 * u1 + u2) + (u0 + u1 + 2.0 * u2)) / 12.0
  }

  lemma PlaneIntegralIs(m: Mesh, i: nat, a: seq<real>)
    requires WellFormed(m) && |a| == |m.x| && i < |m.elements|
    ensures var p := m.elements[i].p; PlaneIntegral(Area(m, i), a[p[0]], a[p[1]], a[p[2]]) == ElementMoment(m, i, a)
  {
    var p := m.elements[i].p;
    var s := a[p[0]] + a[p[1]] + a[p[2]];
    assert CornerSum(p, 1, a) == a[p[0]];
    assert CornerSum(p, 2, a) == a[p[0]] + a[p[1]];
    assert CornerSum(p, 3, a) == s;
    assert Times(Area(m, i), 4.0 * s) / 12.0 == Times(Area(m, i), s / 3.0);
  }

  /** The original circuit of a label, as the post-processor copies it. */
  function CopiedCircuit(m: Mesh, l: nat): int
    requires l < |m.labels|
  {
    Copied(m.labels[l], m.origCirc).inCircuit
  }

  /** Sum the labels of a series circuit; `defined` is false when one of them has no area. */
  method StrandedSeriesLinkage(m: Mesh, circuits: nat, depth: real, c: nat, a: seq<real>) returns (defined: bool, linkage: real)
    requires WellFormed(m) && |a| == |m.x| && c < circuits <= |m.origCirc|
    requires forall l :: 0 <= l < |m.labels| && m.labels[l].inCircuit >= 0 ==>
      m.labels[l].inCircuit < |m.origCirc| && 0 <= m.origCirc[m.labels[l].inCircuit]
    ensures defined <==> forall l :: 0 <= l < |m.labels| && CopiedCircuit(m, l) == c ==> TotalArea(m, l) > 0.0
    ensures defined ==> linkage == Dot(Weights(m, circuits, depth, c, |m.elements|), a, |a|)
  {
    defined, linkage := true, 0.0;
    for l := 0 to |m.labels|
      invariant defined <==> forall k :: 0 <= k < l && CopiedCircuit(m, k) == c ==> TotalArea(m, k) > 0.0
      invariant defined ==> linkage == LabelSum(m, circuits, depth, c, a, l)
    {
      if CopiedCircuit(m, l) == c {
        var area, one := StrandedLinkage(m, depth, l, a);
        if area > 0.0 {
          assert CircuitOf(m, circuits, l) == c;
          linkage := linkage + one;
        } else {
          defined := false;
        }
      } else {
        assert CircuitOf(m, circuits, l) != c;
      }
    }
    LinkageIsLabelSum(m, circuits, depth, c, a);
  }

  // ----- areas and depth in numbers

  /** The area by the shoelace formula, from square centimetres to square metres. */
  lemma AreaIs(m: Mesh, i: nat)
    requires WellFormed(m) && i < |m.elements|
    ensures var p := m.elements[i].p;
      var twice := m.x[p[0]] * (m.y[p[1]] - m.y[p[2]]) + m.x[p[1]] * (m.y[p[2]] - m.y[p[0]]) + m.x[p[2]] * (m.y[p[0]] - m.y[p[1]]);
      Area(m, i) == (if twice < 0.0 then -twice else twice) * 0.00005
  {
    var p := m.elements[i].p;
    Shoelace(m.x[p[0]], m.x[p[1]], m.x[p[2]], m.y[p[0]], m.y[p[1]], m.y[p[2]]);
  }

  lemma Shoelace(x0: real, x1: real, x2: real, y0: real, y1: real, y2: real)
    ensures var twice := x0 * (y1 - y2) + x1 * (y2 - y0) + x2 * (y0 - y1);
      AreaOf(x0, x1, x2, y0, y1, y2) == (if twice < 0.0 then -twice else twice) * 0.00005
  {
    SameDeterminant(x0, x1, x2, y0, y1, y2);
    Halved((x1 - x0) * (y2 - y0) - (x2 - x0) * (y1 - y0), x0 * (y1 - y2) + x1 * (y2 - y0) + x2 * (y0 - y1),
           AreaOf(x0, x1, x2, y0, y1, y2));
  }

  lemma Halved(d: real, twice: real, a: real)
    requires d == twice && a == 0.0001 * Abs(d) / 2.0
    ensures a == (if twice < 0.0 then -twice else twice) * 0.00005
  {
  }

  lemma SameDeterminant(x0: real, x1: real, x2: real, y0: real, y1: real, y2: real)
    ensures (x1 - x0) * (y2 - y0) - (x2 - x0) * (y1 - y0) == x0 * (y1 - y2) + x1 * (y2 - y0) + x2 * (y0 - y1)
  {
  }

  /** A depth of -1 stands for one metre; any other is given in the unit of the model. */
  lemma DepthIs(problem: Problem)
    ensures problem.depth == -1.0 ==> Depth(problem) == 1.0
    ensures problem.depth != -1.0 ==> Depth(problem) == problem.depth * problem.metres
  {
  }
}
