/** Exactly when the samples of a bucket cover a placement of an evenly spaced gap. */
module Coverage {
  import opened Angles
  import opened Modular
  import opened StableOrder
  import opened RingTurning
  import opened AirGapRing
  import opened AirGapBuild
  import opened AirGapPosition
  import opened Tiling
  import opened EntryOrder
  import opened Stencil
  import opened Linking
  import opened PeriodicClosure
  import opened Crossing
  import opened Bucket

  function NodeAt(ring: seq<RingPoint>, i: int): int
    requires ring != []
  {
    Cyclic(ring, i).item.node
  }

  /** The ring repeats its nodes every `n` points, and never in between. */
  ghost predicate NodesEvery(ring: seq<RingPoint>, n: nat)
    requires ring != [] && n > 0
  {
    forall i: int, j: int :: NodeAt(ring, i) == NodeAt(ring, j) <==> (i - j) % n == 0
  }

  ghost predicate Apart(inner: seq<RingPoint>, outer: seq<RingPoint>)
    requires inner != [] && outer != []
  {
    forall i: int, j: int :: NodeAt(inner, i) != NodeAt(outer, j)
  }

  /** An even gap whose sector has `totalArcElements` different nodes on each ring. */
  ghost predicate SimpleGap(g: Gap) {
    && EvenGap(g) && g.innerRing != [] && g.outerRing != []
    && NodesEvery(g.innerRing, g.totalArcElements) && NodesEvery(g.outerRing, g.totalArcElements)
    && Apart(g.innerRing, g.outerRing)
  }

  /** A stencil reaches four points across the gap: `t` is within four of `shift`, modulo the sector. */
  ghost predicate Near(n: nat, shift: int, t: int)
    requires n > 0
  {
    exists d: int :: Reaches(n, shift, t, d)
  }

  ghost predicate Reaches(n: nat, shift: int, t: int, d: int)
    requires n > 0
  {
    -4 <= d <= 4 && (t - shift - d) % n == 0
  }

  lemma MultiplesDiffer(z: int, w: int, n: nat)
    requires n > 0 && z % n == 0 && w % n == 0
    ensures (z - w) % n == 0
  {
    DivMod(z, n);
    DivMod(w, n);
    assert z - w == (z / n - w / n) * n;
    ModUnique(z - w, n, z / n - w / n, 0);
  }

  lemma NearMoves(n: nat, shift: int, t: int, t': int)
    requires n > 0 && (t - t') % n == 0 && Near(n, shift, t)
    ensures Near(n, shift, t')
  {
    var d :| Reaches(n, shift, t, d);
    MultiplesDiffer(t - shift - d, t - t', n);
    assert t' - shift - d == (t - shift - d) - (t - t');
    assert Reaches(n, shift, t', d);
  }

  // ----- the nodes of a stencil

  lemma RotatedNode(ring: seq<RingPoint>, step: real, angle: real, i: int)
    requires Uniform(ring, step)
    ensures Repositioned(ring, step, angle) != []
    ensures NodeAt(Repositioned(ring, step, angle), i) == NodeAt(ring, i - Crossings(ring, step, angle))
  {
    UniformRotatesAround(ring, step, angle, i);
  }

  lemma StencilPlace(inner: seq<RingPoint>, outer: seq<RingPoint>, k: int, i: nat)
    requires inner != [] && outer != [] && i < 10
    ensures NodesIn(RingStencil(inner, outer, k))[i] == if i < 5 then NodeAt(inner, k - 2 + i) else NodeAt(outer, k - 7 + i)
  {
  }

  /** Node `u` points on from slice `k`, on the inner and on the outer ring as they stand. */
  lemma StencilNodeIs(inner: seq<RingPoint>, outer: seq<RingPoint>, step: real, x: real, y: real, k: int, i: nat)
    requires Uniform(inner, step) && Uniform(outer, step) && i < 10
    ensures Repositioned(inner, step, x) != [] && Repositioned(outer, step, y) != []
    ensures NodesIn(RingStencil(Repositioned(inner, step, x), Repositioned(outer, step, y), k))[i]
         == if i < 5 then NodeAt(inner, k - 2 + i - Crossings(inner, step, x)) else NodeAt(outer, k - 7 + i - Crossings(outer, step, y))
  {
    RotatedNode(inner, step, x, k - 2 + i);
    RotatedNode(outer, step, y, k - 7 + i);
    StencilPlace(Repositioned(inner, step, x), Repositioned(outer, step, y), k, i);
  }

  /** Slice `k` brings together the nodes of `e`. */
  ghost predicate MeetIn(inner: seq<RingPoint>, outer: seq<RingPoint>, step: real, x: real, y: real, k: int, i: int, j: int, e: Entry)
    requires Uniform(inner, step) && Uniform(outer, step)
  {
    0 <= i < 10 && 0 <= j < 10 && e == Normal(Seen(inner, outer, step, x, y, k, i), Seen(inner, outer, step, x, y, k, j))
  }

  ghost function Seen(inner: seq<RingPoint>, outer: seq<RingPoint>, step: real, x: real, y: real, k: int, i: int): int
    requires Uniform(inner, step) && Uniform(outer, step)
  {
    if i < 5 then NodeAt(inner, k - 2 + i - Crossings(inner, step, x)) else NodeAt(outer, k - 7 + i - Crossings(outer, step, y))
  }

  /** Slice `k` brings the nodes of `e` together. */
  ghost predicate SliceMeets(inner: seq<RingPoint>, outer: seq<RingPoint>, step: real, x: real, y: real, k: int, e: Entry)
    requires Uniform(inner, step) && Uniform(outer, step)
  {
    exists i: int, j: int :: MeetIn(inner, outer, step, x, y, k, i, j, e)
  }

  lemma SliceMeetsIs(inner: seq<RingPoint>, outer: seq<RingPoint>, step: real, x: real, y: real, k: int, e: Entry)
    requires Uniform(inner, step) && Uniform(outer, step)
    ensures Repositioned(inner, step, x) != [] && Repositioned(outer, step, y) != []
    ensures e in PairsOf(NodesIn(RingStencil(Repositioned(inner, step, x), Repositioned(outer, step, y), k)))
      <==> SliceMeets(inner, outer, step, x, y, k, e)
  {
    StencilNodeIs(inner, outer, step, x, y, k, 0);
    var nodes := NodesIn(RingStencil(Repositioned(inner, step, x), Repositioned(outer, step, y), k));
    forall i | 0 <= i < 10 ensures nodes[i] == Seen(inner, outer, step, x, y, k, i) {
      StencilNodeIs(inner, outer, step, x, y, k, i);
    }
    if e in PairsOf(nodes) {
      var i, j :| 0 <= i < 10 && 0 <= j < 10 && e == Normal(nodes[i], nodes[j]);
      assert MeetIn(inner, outer, step, x, y, k, i, j, e);
    }
  }

  lemma MeetAtIs(inner: seq<RingPoint>, outer: seq<RingPoint>, step: real, x: real, y: real, e: Entry)
    requires Uniform(inner, step) && Uniform(outer, step)
    ensures MeetAt(inner, outer, step, x, y, e) <==> exists k: int :: SliceMeets(inner, outer, step, x, y, k, e)
  {
    UniformCut(inner, step, x);
    UniformCut(outer, step, y);
    if MeetAt(inner, outer, step, x, y, e) {
      var k: int :| e in PairsOf(NodesIn(RingStencil(Repositioned(inner, step, x), Repositioned(outer, step, y), k)));
      SliceMeetsIs(inner, outer, step, x, y, k, e);
    }
    if k: int :| SliceMeets(inner, outer, step, x, y, k, e) {
      SliceMeetsIs(inner, outer, step, x, y, k, e);
    }
  }

  // ----- entries across the gap

  /** Two nodes across the gap meet exactly when their distance is near the relative crossings. */
  lemma {:induction false} CrossMeets(inner: seq<RingPoint>, outer: seq<RingPoint>, step: real, x: real, y: real, n: nat, a: int, b: int)
    requires Uniform(inner, step) && Uniform(outer, step) && n > 0
    requires NodesEvery(inner, n) && NodesEvery(outer, n) && Apart(inner, outer)
    ensures MeetAt(inner, outer, step, x, y, Normal(NodeAt(inner, a), NodeAt(outer, b)))
      <==> Near(n, RelativeCrossings(inner, outer, step, x, y), b - a)
  {
    var e := Normal(NodeAt(inner, a), NodeAt(outer, b));
    MeetAtIs(inner, outer, step, x, y, e);
    if k: int :| SliceMeets(inner, outer, step, x, y, k, e) {
      var i: int, j: int :| MeetIn(inner, outer, step, x, y, k, i, j, e);
      CrossMeetsNear(inner, outer, step, x, y, n, a, b, k, i, j);
    }
    var shift, t := RelativeCrossings(inner, outer, step, x, y), b - a;
    if d: int :| Reaches(n, shift, t, d) {
      NearCrossMeets(inner, outer, step, x, y, n, a, b, d);
    }
  }

  lemma CrossMeetsNear(inner: seq<RingPoint>, outer: seq<RingPoint>, step: real, x: real, y: real, n: nat, a: int, b: int, k: int, i: int, j: int)
    requires Uniform(inner, step) && Uniform(outer, step) && n > 0
    requires NodesEvery(inner, n) && NodesEvery(outer, n) && Apart(inner, outer)
    requires MeetIn(inner, outer, step, x, y, k, i, j, Normal(NodeAt(inner, a), NodeAt(outer, b)))
    ensures Near(n, RelativeCrossings(inner, outer, step, x, y), b - a)
  {
    var c, c' := Crossings(inner, step, x), Crossings(outer, step, y);
    var u, v := if i < j then i else j, if i < j then j else i;
    var p, q := k - 2 + u - c, k - 7 + v - c';
    assert u < 5 <= v && NodeAt(inner, p) == NodeAt(inner, a) && NodeAt(outer, q) == NodeAt(outer, b) by {
      SortedSides(inner, outer, step, x, y, a, b, k, i, j);
    }
    var d := v - u - 5;
    MultiplesDiffer(p - a, q - b, n);
    assert b - a - (c - c') - d == (p - a) - (q - b);
    assert Reaches(n, c - c', b - a, d);
  }

  /** Of two stencil nodes that are one inner and one outer node, the first five are the inner ones. */
  lemma SortedSides(inner: seq<RingPoint>, outer: seq<RingPoint>, step: real, x: real, y: real, a: int, b: int, k: int, i: int, j: int)
    requires Uniform(inner, step) && Uniform(outer, step) && Apart(inner, outer)
    requires MeetIn(inner, outer, step, x, y, k, i, j, Normal(NodeAt(inner, a), NodeAt(outer, b)))
    ensures var u, v := if i < j then i else j, if i < j then j else i;
      && u < 5 <= v
      && NodeAt(inner, k - 2 + u - Crossings(inner, step, x)) == NodeAt(inner, a)
      && NodeAt(outer, k - 7 + v - Crossings(outer, step, y)) == NodeAt(outer, b)
  {
    assert NodeAt(inner, a) != NodeAt(outer, b);
  }

  lemma NearCrossMeets(inner: seq<RingPoint>, outer: seq<RingPoint>, step: real, x: real, y: real, n: nat, a: int, b: int, d: int)
    requires Uniform(inner, step) && Uniform(outer, step) && n > 0
    requires NodesEvery(inner, n) && NodesEvery(outer, n)
    requires Reaches(n, RelativeCrossings(inner, outer, step, x, y), b - a, d)
    ensures MeetAt(inner, outer, step, x, y, Normal(NodeAt(inner, a), NodeAt(outer, b)))
  {
    var c, c' := Crossings(inner, step, x), Crossings(outer, step, y);
    var u := if d >= 0 then 0 else 4;
    var k, j := a + c + 2 - u, u + d + 5;
    assert k - 7 + j - c' == b - (b - a - (c - c') - d);
    ModOfNegated(b - a - (c - c') - d, n);
    assert NodeAt(outer, k - 7 + j - c') == NodeAt(outer, b);
    assert k - 2 + u - c == a;
    MeetAtIs(inner, outer, step, x, y, Normal(NodeAt(inner, a), NodeAt(outer, b)));
    assert MeetIn(inner, outer, step, x, y, k, u, j, Normal(NodeAt(inner, a), NodeAt(outer, b)));
    assert SliceMeets(inner, outer, step, x, y, k, Normal(NodeAt(inner, a), NodeAt(outer, b)));
  }

  lemma ModOfNegated(z: int, n: nat)
    requires n > 0 && z % n == 0
    ensures (-z) % n == 0
  {
    DivMod(z, n);
    ModUnique(-z, n, -(z / n), 0);
  }

  // ----- entries along one ring

  /** Nodes of one ring that meet at some angles meet at all. */
  lemma SameRingMeets(inner: seq<RingPoint>, outer: seq<RingPoint>, step: real, x: real, y: real, x': real, y': real, k: int, i: int, j: int, e: Entry)
    requires Uniform(inner, step) && Uniform(outer, step)
    requires MeetIn(inner, outer, step, x, y, k, i, j, e) && (i < 5 <==> j < 5)
    ensures MeetAt(inner, outer, step, x', y', e)
  {
    var k' := if i < 5 then k - Crossings(inner, step, x) + Crossings(inner, step, x') else k - Crossings(outer, step, y) + Crossings(outer, step, y');
    assert MeetIn(inner, outer, step, x', y', k', i, j, e);
    assert SliceMeets(inner, outer, step, x', y', k', e);
    MeetAtIs(inner, outer, step, x', y', e);
  }

  /** Every entry either joins two given places across the gap or lies along one ring. */
  lemma {:induction false} EntryKinds(inner: seq<RingPoint>, outer: seq<RingPoint>, step: real, x: real, y: real, e: Entry)
      returns (across: bool, a: int, b: int, k: int, i: int, j: int)
    requires Uniform(inner, step) && Uniform(outer, step) && MeetAt(inner, outer, step, x, y, e)
    ensures across ==> e == Normal(NodeAt(inner, a), NodeAt(outer, b))
    ensures !across ==> MeetIn(inner, outer, step, x, y, k, i, j, e) && (i < 5 <==> j < 5)
  {
    MeetAtIs(inner, outer, step, x, y, e);
    k :| SliceMeets(inner, outer, step, x, y, k, e);
    i, j :| MeetIn(inner, outer, step, x, y, k, i, j, e);
    across := !(i < 5 <==> j < 5);
    var u, v := if i < j then i else j, if i < j then j else i;
    a, b := k - 2 + u - Crossings(inner, step, x), k - 7 + v - Crossings(outer, step, y);
  }

  // ----- coverage, exactly

  ghost function Shift(g: Gap, inner: real, outer: real): int
    requires SimpleGap(g)
  {
    RelativeCrossings(g.innerRing, g.outerRing, Step(g), inner, outer)
  }

  ghost predicate Meets(g: Gap, inner: real, outer: real, e: Entry)
    requires SimpleGap(g)
  {
    MeetAt(g.innerRing, g.outerRing, Step(g), inner, outer, e)
  }

  /** A distance across the gap is within reach of some sample. */
  ghost predicate DistanceSampled(g: Gap, index: int, width: real, ulp: real, t: int)
    requires SimpleGap(g)
  {
    exists s :: s in Samples(index, width, Step(g), ulp) && Near(g.totalArcElements, Shift(g, s, 0.0), t)
  }

  /** Every entry of a placement occurs at some sample. */
  ghost predicate PlacementSampled(g: Gap, index: int, width: real, ulp: real, numNodes: nat, inner: real, outer: real)
    requires Imported(g, numNodes) && SimpleGap(g) && PositionedGap(g, inner, outer).Done?
  {
    forall e :: e in Structure(PositionedGap(g, inner, outer).value.quadrature, g.totalArcElements) ==> SampledGap(g, index, width, ulp, numNodes, e)
  }

  lemma SampledGapIs(g: Gap, index: int, width: real, ulp: real, numNodes: nat, e: Entry)
    requires Imported(g, numNodes) && SimpleGap(g)
    ensures SampledGap(g, index, width, ulp, numNodes, e) <==> exists s :: s in Samples(index, width, Step(g), ulp) && Meets(g, s, 0.0, e)
  {
    forall s: real ensures e in SampleEntries(g, s) <==> Meets(g, s, 0.0, e) {
      PlacedStructureMeets(g.innerRing, g.outerRing, Step(g), s, 0.0, g.totalArcElements, e);
    }
  }

  lemma NeedIs(g: Gap, inner: real, outer: real, e: Entry)
    requires SimpleGap(g) && PositionedGap(g, inner, outer).Done?
    ensures |PositionedGap(g, inner, outer).value.quadrature| == g.totalArcElements + 1
    ensures e in Structure(PositionedGap(g, inner, outer).value.quadrature, g.totalArcElements) <==> Meets(g, inner, outer, e)
  {
    PlacedStructureMeets(g.innerRing, g.outerRing, Step(g), inner, outer, g.totalArcElements, e);
  }

  /** Every entry that a placement needs occurs at some sample exactly when each of the nine
      distances it spans across the gap is within reach of a sample. */
  lemma CoveredExactly(g: Gap, index: int, width: real, ulp: real, numNodes: nat, inner: real, outer: real)
    requires Imported(g, numNodes) && SimpleGap(g) && PositionedGap(g, inner, outer).Done?
    ensures PlacementSampled(g, index, width, ulp, numNodes, inner, outer)
      <==> forall t :: Shift(g, inner, outer) - 4 <= t <= Shift(g, inner, outer) + 4 ==> DistanceSampled(g, index, width, ulp, t)
  {
    var shift := Shift(g, inner, outer);
    if PlacementSampled(g, index, width, ulp, numNodes, inner, outer) {
      forall t | shift - 4 <= t <= shift + 4 ensures DistanceSampled(g, index, width, ulp, t) {
        SampledDistance(g, index, width, ulp, numNodes, inner, outer, t);
      }
    }
    if forall t :: shift - 4 <= t <= shift + 4 ==> DistanceSampled(g, index, width, ulp, t) {
      forall e | e in Structure(PositionedGap(g, inner, outer).value.quadrature, g.totalArcElements)
        ensures SampledGap(g, index, width, ulp, numNodes, e)
      {
        NeedIs(g, inner, outer, e);
        SampledNeed(g, index, width, ulp, numNodes, inner, outer, e);
      }
    }
  }

  /** A distance within four of the placement's shift is spanned by one of its entries. */
  lemma {:induction false} SampledDistance(g: Gap, index: int, width: real, ulp: real, numNodes: nat, inner: real, outer: real, t: int)
    requires Imported(g, numNodes) && SimpleGap(g) && PositionedGap(g, inner, outer).Done?
    requires Shift(g, inner, outer) - 4 <= t <= Shift(g, inner, outer) + 4
    requires PlacementSampled(g, index, width, ulp, numNodes, inner, outer)
    ensures DistanceSampled(g, index, width, ulp, t)
  {
    var n := g.totalArcElements;
    var e := Normal(NodeAt(g.innerRing, 0), NodeAt(g.outerRing, t));
    ModUnique(0, n, 0, 0);
    assert Reaches(n, Shift(g, inner, outer), t - 0, t - Shift(g, inner, outer));
    CrossMeets(g.innerRing, g.outerRing, Step(g), inner, outer, n, 0, t);
    NeedIs(g, inner, outer, e);
    SampledGapIs(g, index, width, ulp, numNodes, e);
    var s :| s in Samples(index, width, Step(g), ulp) && Meets(g, s, 0.0, e);
    CrossMeets(g.innerRing, g.outerRing, Step(g), s, 0.0, n, 0, t);
  }

  lemma SampledNeed(g: Gap, index: int, width: real, ulp: real, numNodes: nat, inner: real, outer: real, e: Entry)
    requires Imported(g, numNodes) && SimpleGap(g) && Meets(g, inner, outer, e)
    requires forall t :: Shift(g, inner, outer) - 4 <= t <= Shift(g, inner, outer) + 4 ==> DistanceSampled(g, index, width, ulp, t)
    ensures SampledGap(g, index, width, ulp, numNodes, e)
  {
    var across, a, b, k, i, j := EntryKinds(g.innerRing, g.outerRing, Step(g), inner, outer, e);
    var s := WindowBegin(index, width);
    if across {
      s := SampledAcross(g, index, width, ulp, inner, outer, a, b);
    } else {
      SamplesHold(index, width, Step(g), ulp, s);
      SameRingMeets(g.innerRing, g.outerRing, Step(g), inner, outer, s, 0.0, k, i, j, e);
    }
    assert Meets(g, s, 0.0, e);
    SampledGapIs(g, index, width, ulp, numNodes, e);
  }

  lemma SampledAcross(g: Gap, index: int, width: real, ulp: real, inner: real, outer: real, a: int, b: int) returns (s: real)
    requires SimpleGap(g) && Meets(g, inner, outer, Normal(NodeAt(g.innerRing, a), NodeAt(g.outerRing, b)))
    requires forall t :: Shift(g, inner, outer) - 4 <= t <= Shift(g, inner, outer) + 4 ==> DistanceSampled(g, index, width, ulp, t)
    ensures s in Samples(index, width, Step(g), ulp) && Meets(g, s, 0.0, Normal(NodeAt(g.innerRing, a), NodeAt(g.outerRing, b)))
  {
    CrossMeets(g.innerRing, g.outerRing, Step(g), inner, outer, g.totalArcElements, a, b);
    s := SampleFor(g, index, width, ulp, Shift(g, inner, outer), b - a);
    CrossMeets(g.innerRing, g.outerRing, Step(g), s, 0.0, g.totalArcElements, a, b);
  }

  lemma SampleFor(g: Gap, index: int, width: real, ulp: real, shift: int, t: int) returns (s: real)
    requires SimpleGap(g) && Near(g.totalArcElements, shift, t)
    requires forall t :: shift - 4 <= t <= shift + 4 ==> DistanceSampled(g, index, width, ulp, t)
    ensures s in Samples(index, width, Step(g), ulp) && Near(g.totalArcElements, Shift(g, s, 0.0), t)
  {
    var n := g.totalArcElements;
    var d: int :| Reaches(n, shift, t, d);
    var near := shift + d;
    assert DistanceSampled(g, index, width, ulp, near);
    s :| s in Samples(index, width, Step(g), ulp) && Near(n, Shift(g, s, 0.0), near);
    ModOfNegated(t - shift - d, n);
    assert near - t == -(t - shift - d);
    NearMoves(n, Shift(g, s, 0.0), near, t);
  }

  // ----- the same in closed form

  /** Every sample lies in the window. */
  lemma SamplesWithin(index: int, width: real, pitch: real, ulp: real, s: real)
    requires pitch > 0.0 && ulp > 0.0 && WindowBegin(index, width) < WindowEnd(index, width)
    requires s in Samples(index, width, pitch, ulp)
    ensures WindowBegin(index, width) <= s < WindowEnd(index, width)
  {
    var begin, end := WindowBegin(index, width), WindowEnd(index, width);
    var last := NextToward(end, begin, ulp);
    if s in EventSamples(FirstEvent(begin, pitch), begin, end, last, pitch, Epsilon(pitch)) {
      EventsWithin(FirstEvent(begin, pitch), begin, end, last, pitch, Epsilon(pitch), s);
    } else if s in GridSamples(begin, end, HalfPitch(pitch)) {
      GridWithin(begin, begin, end, HalfPitch(pitch), s);
    }
  }

  lemma {:induction false} EventsWithin(event: real, begin: real, end: real, last: real, pitch: real, epsilon: real, s: real)
    requires pitch > 0.0 && epsilon > 0.0 && begin <= last < end
    requires s in EventSamples(event, begin, end, last, pitch, epsilon)
    ensures begin <= s < end
    decreases StepsLeft(event, end + pitch, pitch) + 1
  {
    StepTaken(event, end + pitch, pitch);
    if s in EventSamples(event + pitch, begin, end, last, pitch, epsilon) {
      EventsWithin(event + pitch, begin, end, last, pitch, epsilon, s);
    }
  }

  lemma {:induction false} GridWithin(sample: real, begin: real, end: real, half: real, s: real)
    requires half > 0.0 && begin <= sample && s in GridSamples(sample, end, half)
    ensures begin <= s < end
    decreases StepsLeft(sample, end, half) + 1
  {
    StepTaken(sample, end, half);
    if s != sample {
      GridWithin(sample + half, begin, end, half, s);
    }
  }

  function Greatest(s: seq<real>): (r: real)
    requires s != []
    ensures r in s && forall x :: x in s ==> x <= r
  {
    if |s| == 1 then s[0]
    else
      var rest := Greatest(s[1..]);
      assert s == [s[0]] + s[1..];
      if s[0] >= rest then s[0] else rest
  }

  /** The greatest sample of a bucket: the last number before the window's end, unless a sample of
      the grid lies closer to it. */
  function TopSample(index: int, width: real, pitch: real, ulp: real): real
    requires pitch > 0.0
  {
    Greatest(Samples(index, width, pitch, ulp))
  }

  lemma CrossingsMonotone(ring: seq<RingPoint>, step: real, x: real, y: real)
    requires ring != [] && step > 0.0 && x <= y
    ensures Crossings(ring, step, x) <= Crossings(ring, step, y)
  {
    DivMonotone(x, y, step);
  }

  /** Every number of crossings between the window's start and its greatest sample has a sample. */
  lemma SampleAtCrossing(ring: seq<RingPoint>, step: real, index: int, width: real, ulp: real, c: int) returns (s: real)
    requires ring != [] && step > 0.0 && ulp > 0.0 && WindowBegin(index, width) < WindowEnd(index, width)
    requires Crossings(ring, step, WindowBegin(index, width)) <= c <= Crossings(ring, step, TopSample(index, width, step, ulp))
    ensures s in Samples(index, width, step, ulp) && Crossings(ring, step, s) == c
  {
    var begin, top, low := WindowBegin(index, width), TopSample(index, width, step, ulp), CrossingStart(ring, step, c);
    SamplesWithin(index, width, step, ulp, top);
    CrossingInterval(ring, step, begin, Crossings(ring, step, begin));
    CrossingInterval(ring, step, top, Crossings(ring, step, top));
    DegreesOrder(c as real - ring[0].position, Crossings(ring, step, top) as real - ring[0].position, step);
    DegreesOrder(Crossings(ring, step, begin) as real - ring[0].position, c as real - ring[0].position, step);
    assert low <= top;
    if low <= begin {
      s := begin;
      CrossingInterval(ring, step, begin, c);
      DegreesNext(Crossings(ring, step, begin) as real - ring[0].position, step);
      DegreesOrder(c as real - ring[0].position, Crossings(ring, step, begin) as real + 1.0 - ring[0].position, step);
    } else if top < low + step {
      s := top;
    } else {
      var m := GridPoint(begin, low, HalfPitch(step));
      s := begin + Degrees(m as real, HalfPitch(step));
      assert HalfPitch(step) <= step;
      GridHas(begin, WindowEnd(index, width), HalfPitch(step), m);
      SamplesHold(index, width, step, ulp, s);
    }
    CrossingInterval(ring, step, s, c);
  }

  /** How many ring points have passed each other at the first and at the greatest sample. */
  ghost function LowShift(g: Gap, index: int, width: real): int
    requires SimpleGap(g)
  {
    Shift(g, WindowBegin(index, width), 0.0)
  }

  ghost function HighShift(g: Gap, index: int, width: real, ulp: real): int
    requires SimpleGap(g)
  {
    Shift(g, TopSample(index, width, Step(g), ulp), 0.0)
  }

  /** The greatest sample of a window is the last number before its end, unless a sample of the grid
      comes in between. */
  lemma GreatestSample(index: int, width: real, pitch: real, ulp: real)
    requires pitch > 0.0 && ulp > 0.0 && WindowBegin(index, width) + ulp <= WindowEnd(index, width)
    ensures WindowEnd(index, width) - ulp <= TopSample(index, width, pitch, ulp) < WindowEnd(index, width)
    ensures (forall s :: s in Samples(index, width, pitch, ulp) ==> s <= WindowEnd(index, width) - ulp || WindowEnd(index, width) <= s) ==>
      TopSample(index, width, pitch, ulp) == WindowEnd(index, width) - ulp
  {
    LastNumberIsSampled(index, width, pitch, ulp);
    SamplesWithin(index, width, pitch, ulp, TopSample(index, width, pitch, ulp));
  }

  /** The last number of a window: one before its end, or its start. */
  function LastNumber(index: int, width: real, ulp: real): real {
    if WindowBegin(index, width) + ulp <= WindowEnd(index, width) then WindowEnd(index, width) - ulp else WindowBegin(index, width)
  }

  /** Unless a ring point comes past zero between the last number and the window's end, the highest
      shift is that of the last number. */
  lemma HighestAtLast(g: Gap, index: int, width: real, ulp: real)
    requires SimpleGap(g) && ulp > 0.0 && WindowBegin(index, width) < WindowEnd(index, width)
    requires WindowEnd(index, width) <=
      CrossingStart(g.innerRing, Step(g), Crossings(g.innerRing, Step(g), LastNumber(index, width, ulp))) + Step(g)
    ensures HighShift(g, index, width, ulp) == Shift(g, LastNumber(index, width, ulp), 0.0)
  {
    var step, top, last := Step(g), TopSample(index, width, Step(g), ulp), LastNumber(index, width, ulp);
    var c := Crossings(g.innerRing, step, last);
    LastNumberIsSampled(index, width, step, ulp);
    SamplesWithin(index, width, step, ulp, top);
    CrossingInterval(g.innerRing, step, last, c);
    CrossingInterval(g.innerRing, step, top, c);
  }

  /** What is sampled is needed at some angle of the window: nothing else gets into a definition. */
  lemma SampledIsNeeded(g: Gap, index: int, width: real, ulp: real, numNodes: nat, e: Entry) returns (angle: real)
    requires Imported(g, numNodes) && ulp > 0.0 && WindowBegin(index, width) < WindowEnd(index, width)
    requires SampledGap(g, index, width, ulp, numNodes, e)
    ensures WindowBegin(index, width) <= angle < WindowEnd(index, width) && e in SampleEntries(g, angle)
  {
    angle :| angle in Samples(index, width, Step(g), ulp) && e in SampleEntries(g, angle);
    SamplesWithin(index, width, Step(g), ulp, angle);
  }

  lemma ModOfMultiple(x: int, y: int, n: nat)
    requires n > 0 && (x - y) % n == 0 && y >= 0
    ensures x % n <= y
  {
    DivMod(x - y, n);
    assert x == y + (x - y) / n * n;
    ModAdd(y, (x - y) / n, n);
    DivMod(y, n);
    if y / n < 0 { MultipleBelow(y / n, n); } else { MultipleAbove(y / n, n); }
  }

  lemma MultipleAbove(q: int, n: nat)
    requires q >= 0
    ensures q * n >= 0
  {
  }

  lemma MultipleBelow(q: int, n: nat)
    requires q < 0
    ensures q * n + n <= 0
  {
    MultipleAbove(-q - 1, n);
  }

  /** The distances within reach of the samples are those from four below the lowest shift to four
      above the highest, modulo the sector. */
  lemma DistancesSampled(g: Gap, index: int, width: real, ulp: real, t: int)
    requires SimpleGap(g) && ulp > 0.0 && WindowBegin(index, width) < WindowEnd(index, width)
    ensures var low, high := LowShift(g, index, width), HighShift(g, index, width, ulp);
      DistanceSampled(g, index, width, ulp, t) <==> (t - low + 4) % g.totalArcElements <= high - low + 8
  {
    var n, low, high := g.totalArcElements, LowShift(g, index, width), HighShift(g, index, width, ulp);
    if DistanceSampled(g, index, width, ulp, t) {
      var s :| s in Samples(index, width, Step(g), ulp) && Near(n, Shift(g, s, 0.0), t);
      ShiftsBetween(g, index, width, ulp, s);
      var c, d :| c == Shift(g, s, 0.0) && Reaches(n, c, t, d);
      assert t - low + 4 - (c + d - low + 4) == t - c - d;
      ModOfMultiple(t - low + 4, c + d - low + 4, n);
    }
    var r := (t - low + 4) % n;
    if r <= high - low + 8 {
      var c := if r <= 8 then low else low + r - 8;
      var d := if r <= 8 then r - 4 else 4;
      LowIsBelow(g, index, width, ulp);
      var s := SampleAtCrossing(g.innerRing, Step(g), index, width, ulp, c + Crossings(g.outerRing, Step(g), 0.0));
      DivMod(t - low + 4, n);
      assert t - c - d == (t - low + 4) / n * n;
      ModUnique(t - c - d, n, (t - low + 4) / n, 0);
      assert Reaches(n, Shift(g, s, 0.0), t, d);
    }
  }

  lemma ShiftsBetween(g: Gap, index: int, width: real, ulp: real, s: real)
    requires SimpleGap(g) && ulp > 0.0 && WindowBegin(index, width) < WindowEnd(index, width)
    requires s in Samples(index, width, Step(g), ulp)
    ensures LowShift(g, index, width) <= Shift(g, s, 0.0) <= HighShift(g, index, width, ulp)
  {
    SamplesWithin(index, width, Step(g), ulp, s);
    CrossingsMonotone(g.innerRing, Step(g), WindowBegin(index, width), s);
    CrossingsMonotone(g.innerRing, Step(g), s, TopSample(index, width, Step(g), ulp));
  }

  lemma LowIsBelow(g: Gap, index: int, width: real, ulp: real)
    requires SimpleGap(g) && ulp > 0.0 && WindowBegin(index, width) < WindowEnd(index, width)
    ensures LowShift(g, index, width) <= HighShift(g, index, width, ulp)
  {
    SamplesHold(index, width, Step(g), ulp, WindowBegin(index, width));
    ShiftsBetween(g, index, width, ulp, WindowBegin(index, width));
  }

  /** The `i`-th number after `x` lies, modulo `n`, within eight of `h`. */
  ghost predicate Within(x: int, i: int, h: int, n: nat)
    requires n > 0
  {
    (x + i) % n <= h + 8
  }

  /** An offset not beyond `span`, modulo the sector; or a span that leaves less than nine out. */
  predicate InSpan(offset: int, span: int, n: nat)
    requires n > 0
  {
    offset % n <= span || span + 9 >= n
  }

  ghost predicate NineAreWithin(x: int, h: int, n: nat)
    requires n > 0
  {
    forall i :: 0 <= i <= 8 ==> Within(x, i, h, n)
  }

  /** Nine neighbours all lie in a cyclic interval exactly when the first offset does not exceed its
      slack, or the interval is the whole cycle. */
  lemma NineWithin(x: int, h: nat, n: nat)
    requires n > 0
    ensures NineAreWithin(x, h, n) <==> InSpan(x, h, n)
  {
    if InSpan(x, h, n) {
      forall i | 0 <= i <= 8 ensures Within(x, i, h, n) {
        OneWithin(x, i, h, n);
      }
    } else {
      var i := OneOutside(x, h, n);
    }
  }

  lemma OneWithin(x: int, i: nat, h: nat, n: nat)
    requires n > 0 && i <= 8 && InSpan(x, h, n)
    ensures Within(x, i, h, n)
  {
    if x % n <= h {
      DivMod(x, n);
      assert x + i - (x % n + i) == x / n * n;
      ModUnique(x + i - (x % n + i), n, x / n, 0);
      ModOfMultiple(x + i, x % n + i, n);
    } else {
      DivMod(x + i, n);
    }
  }

  lemma OneOutside(x: int, h: nat, n: nat) returns (i: nat)
    requires n > 0 && !InSpan(x, h, n)
    ensures i <= 8 && !Within(x, i, h, n)
  {
    var r := x % n;
    i := if r + 8 < n then 8 else n - 1 - r;
    ModOfSum(x, i, n);
    ModSmall(r + i, n);
  }

  /** In closed form: with `low` and `high` the relative crossings at the window's start and at its
      greatest sample, a placement is covered exactly when its own relative crossings lie between the
      two modulo the sector, or the samples reach all the way round it. */
  lemma CoveredInClosedForm(g: Gap, index: int, width: real, ulp: real, numNodes: nat, inner: real, outer: real)
    requires Imported(g, numNodes) && SimpleGap(g) && PositionedGap(g, inner, outer).Done?
    requires ulp > 0.0 && WindowBegin(index, width) < WindowEnd(index, width)
    ensures var low, high := LowShift(g, index, width), HighShift(g, index, width, ulp);
      PlacementSampled(g, index, width, ulp, numNodes, inner, outer) <==> InSpan(Shift(g, inner, outer) - low, high - low, g.totalArcElements)
  {
    var n, low, high, shift := g.totalArcElements, LowShift(g, index, width), HighShift(g, index, width, ulp), Shift(g, inner, outer);
    CoveredExactly(g, index, width, ulp, numNodes, inner, outer);
    LowIsBelow(g, index, width, ulp);
    NineDistances(g, index, width, ulp, shift, shift - low);
    NineWithin(shift - low, high - low, n);
  }

  lemma NineDistances(g: Gap, index: int, width: real, ulp: real, shift: int, x: int)
    requires SimpleGap(g) && ulp > 0.0 && WindowBegin(index, width) < WindowEnd(index, width)
    requires x == shift - LowShift(g, index, width)
    ensures (forall t :: shift - 4 <= t <= shift + 4 ==> DistanceSampled(g, index, width, ulp, t))
       <==> NineAreWithin(x, HighShift(g, index, width, ulp) - LowShift(g, index, width), g.totalArcElements)
  {
    var n, h := g.totalArcElements, HighShift(g, index, width, ulp) - LowShift(g, index, width);
    if forall t :: shift - 4 <= t <= shift + 4 ==> DistanceSampled(g, index, width, ulp, t) {
      forall i | 0 <= i <= 8 ensures Within(x, i, h, n) {
        DistancesSampled(g, index, width, ulp, shift - 4 + i);
        assert shift - 4 + i - LowShift(g, index, width) + 4 == x + i;
      }
    }
    if NineAreWithin(x, h, n) {
      forall t | shift - 4 <= t <= shift + 4 ensures DistanceSampled(g, index, width, ulp, t) {
        DistancesSampled(g, index, width, ulp, t);
        assert Within(x, t - shift + 4, h, n);
        assert x + (t - shift + 4) == t - LowShift(g, index, width) + 4;
      }
    }
  }

  // ----- a placement that is not covered

  /** A bucket narrower than one element does not cover every placement of its angles: with both
      rings starting at zero, turn the outer ring to within half a bucket of one element and the
      inner ring by one element. The relative angle is in the first bucket, but the inner ring has
      come one point further than at any sample, and its farthest entries are nowhere in the samples. */
  lemma TurnedOuterIsNotCovered(g: Gap, width: real, ulp: real, numNodes: nat) returns (inner: real, outer: real, e: Entry)
    requires Imported(g, numNodes) && SimpleGap(g) && g.totalArcElements >= 10
    requires g.innerRing[0].position == g.outerRing[0].position == 0.0
    requires 0.0 < width <= Step(g) && width <= FULL_TURN && ulp > 0.0
    ensures BucketIndex(GapPosition(0, inner, outer), width) == 0 && PositionedGap(g, inner, outer).Done?
    ensures e in Structure(PositionedGap(g, inner, outer).value.quadrature, g.totalArcElements)
    ensures !SampledGap(g, 0, width, ulp, numNodes, e)
  {
    inner, outer := Step(g), Step(g) - width / 2.0;
    TurnedOuterShift(g, width, inner, outer);
    FarFromSamples(g, width, ulp);
    CoveredExactly(g, 0, width, ulp, numNodes, inner, outer);
    assert !PlacementSampled(g, 0, width, ulp, numNodes, inner, outer);
    e :| e in Structure(PositionedGap(g, inner, outer).value.quadrature, g.totalArcElements) && !SampledGap(g, 0, width, ulp, numNodes, e);
  }

  lemma TurnedOuterShift(g: Gap, width: real, inner: real, outer: real)
    requires SimpleGap(g) && g.innerRing[0].position == g.outerRing[0].position == 0.0
    requires 0.0 < width <= Step(g) && width <= FULL_TURN && inner == Step(g) && outer == Step(g) - width / 2.0
    ensures Shift(g, inner, outer) == 1 && BucketIndex(GapPosition(0, inner, outer), width) == 0
  {
    var step := Step(g);
    assert inner / step == 1.0;
    BelowOne(outer, step);
    CanonicalFixed(width / 2.0);
    BelowOne(width / 2.0, width);
    assert inner - outer == width / 2.0;
  }

  lemma BelowOne(x: real, step: real)
    requires 0.0 <= x < step
    ensures (x / step).Floor == 0
  {
  }

  lemma FarFromSamples(g: Gap, width: real, ulp: real)
    requires SimpleGap(g) && g.totalArcElements >= 10
    requires g.innerRing[0].position == g.outerRing[0].position == 0.0
    requires 0.0 < width <= Step(g) && width <= FULL_TURN && ulp > 0.0
    ensures !DistanceSampled(g, 0, width, ulp, 5)
  {
    var n, step := g.totalArcElements, Step(g);
    if DistanceSampled(g, 0, width, ulp, 5) {
      var s :| s in Samples(0, width, step, ulp) && Near(n, Shift(g, s, 0.0), 5);
      SamplesWithin(0, width, step, ulp, s);
      BelowOne(s, step);
      BelowOne(0.0, step);
      assert Shift(g, s, 0.0) == 0;
      var d: int :| Reaches(n, 0, 5, d);
      ModSmall(5 - d, n);
      assert false;
    }
  }

  /** Without periodic nodes the bucket's definition lacks what no sample has. */
  lemma {:induction false} DefinitionLacks(g: Gap, inner: real, outer: real, width: real, ulp: real, numNodes: nat, d: BucketDefinition, e: Entry)
    requires Imported(g, numNodes) && width > 0.0 && BucketIndex(GapPosition(0, inner, outer), width) == 0
    requires !SampledGap(g, 0, width, ulp, numNodes, e)
    requires IsDefinition(d, [g], [g.name], [GapPosition(0, inner, outer)], width, ulp, [], numNodes)
    ensures e !in d.upperEntries
  {
    var gaps, names, prepared := [g], [g.name], [GapPosition(0, inner, outer)];
    var source :| IsSource(source, gaps, names, prepared, width, ulp, numNodes)
      && forall e :: e in d.upperEntries <==> InClosure(source, [], numNodes, e);
    assert FindGap(gaps, g.name) == 0;
    assert !SampledFor(gaps, names, prepared[0], width, ulp, numNodes, e);
    assert !Sampled(gaps, names, prepared, width, ulp, numNodes, e);
    if s :| s in source && ClosesOne([], numNodes, s, e) {
      SourceIsNormal(gaps, names, prepared, width, ulp, numNodes, s);
      NothingCloses(numNodes, s, e);
    }
  }

  lemma NothingCloses(numNodes: nat, s: Entry, e: Entry)
    requires s.0 <= s.1 && ClosesOne([], numNodes, s, e)
    ensures e == s
  {
    var row, column :| ClosesTo([], numNodes, s, row, column) && e == Normal(row, column);
    LinkedByNothing(row, s.0);
    LinkedByNothing(column, s.1);
  }

  lemma FirstStep(pairs: seq<Pair>, path: seq<int>)
    requires IsPath(pairs, path) && |path| > 1
    ensures Joined(pairs, path[0], path[0 + 1])
  {
  }

  lemma LinkedByNothing(x: int, y: int)
    requires Linked([], x, y)
    ensures x == y
  {
    var path :| IsPath([], path) && path[0] == x && path[|path| - 1] == y;
    if |path| > 1 {
      FirstStep([], path);
      assert false;
    }
  }

  /** Sampled entries are ordered pairs. */
  lemma SourceIsNormal(gaps: seq<Gap>, names: seq<string>, prepared: seq<GapPosition>, width: real, ulp: real, numNodes: nat, e: Entry)
    requires width > 0.0 && (forall k :: 0 <= k < |gaps| ==> Imported(gaps[k], numNodes)) && forall k :: 0 <= k < |prepared| ==> prepared[k].id < |names|
    requires Sampled(gaps, names, prepared, width, ulp, numNodes, e)
    ensures e == Normal(e.0, e.1)
  {
    var k :| 0 <= k < |prepared| && SampledFor(gaps, names, prepared[k], width, ulp, numNodes, e);
    FindGapInRange(gaps, names[prepared[k].id]);
    var g := gaps[FindGap(gaps, names[prepared[k].id])];
    var s :| s in Samples(BucketIndex(prepared[k], width), width, Step(g), ulp) && e in SampleEntries(g, s);
  }

  // ----- such gaps exist

  function Evenly(n: nat, first: nat): (ring: seq<RingPoint>)
    ensures |ring| == n
  {
    seq(n, i requires 0 <= i < n => Placed(Signed(first + i, 1.0), i as real))
  }

  /** A full annulus of `n` elements, with nodes 0 to n - 1 inside and n to 2n - 1 outside. */
  function Annulus(n: nat): Gap
    requires n > 0
  {
    Gap("gap", false, FULL_TURN, n, Evenly(n, 0), Evenly(n, n), 0.0, 0.0, 0.0, 0.0, Brackets(Evenly(n, 0), Evenly(n, n), n))
  }

  lemma EvenlyNodes(n: nat, first: nat, i: int)
    requires n > 0
    ensures NodeAt(Evenly(n, first), i) == first + i % n
  {
    DivMod(i, n);
  }

  lemma SameResidue(n: nat, i: int, j: int)
    requires n > 0
    ensures i % n == j % n <==> (i - j) % n == 0
  {
    DivMod(i, n);
    DivMod(j, n);
    if i % n == j % n {
      assert i - j == (i / n - j / n) * n;
      ModUnique(i - j, n, i / n - j / n, 0);
    }
    if (i - j) % n == 0 {
      DivMod(i - j, n);
      assert i == ((i - j) / n + j / n) * n + j % n;
      ModUnique(i, n, (i - j) / n + j / n, j % n);
    }
  }

  lemma EvenlyIsSimple(n: nat, first: nat)
    requires n > 0
    ensures NodesEvery(Evenly(n, first), n) && NodePeriodic(Evenly(n, first), n)
  {
    var ring := Evenly(n, first);
    forall i: int, j: int ensures NodeAt(ring, i) == NodeAt(ring, j) <==> (i - j) % n == 0 {
      EvenlyNodes(n, first, i);
      EvenlyNodes(n, first, j);
      SameResidue(n, i, j);
    }
    forall i: int ensures NodeRepeats(ring, n, i) {
      EvenlyNodes(n, first, i);
      EvenlyNodes(n, first, i + n);
      ModAdd(i, 1, n);
    }
  }

  /** An annulus of ten elements or more is such a gap. */
  lemma AnnulusIsSimple(n: nat)
    requires n > 0
    ensures SimpleGap(Annulus(n)) && Imported(Annulus(n), 2 * n)
    ensures Annulus(n).innerRing[0].position == Annulus(n).outerRing[0].position == 0.0
  {
    var g := Annulus(n);
    EvenlyIsSimple(n, 0);
    EvenlyIsSimple(n, n);
    forall i: int, j: int ensures NodeAt(g.innerRing, i) != NodeAt(g.outerRing, j) {
      EvenlyNodes(n, 0, i);
      EvenlyNodes(n, n, j);
      DivMod(i, n);
    }
    assert Arc(n, Step(g)) == FULL_TURN;
  }

  // ----- and the converter builds them

  /** One sector of a whole turn, nodes 0 to n - 1 inside and n to 2n - 1 outside, evenly spaced. */
  function AnnulusDefinition(n: nat): Definition {
    Definition("gap", 0, n, seq(n, i => i), seq(n, i => n + i), 0.0, 0.0, 1.0, 2.0, FULL_TURN)
  }

  function AnnulusAngles(n: nat): (angles: seq<real>)
    requires n > 0
    ensures |angles| == 2 * n
  {
    seq(2 * n, i requires 0 <= i < 2 * n => Arc(if i < n then i else i - n, FULL_TURN / n as real))
  }

  lemma AnnulusIsBuildable(n: nat)
    requires n > 0
    ensures Buildable(AnnulusDefinition(n), 2 * n)
    ensures Copies(AnnulusDefinition(n)) == 1 && Spacing(AnnulusDefinition(n)) == FULL_TURN / n as real
  {
    var d := AnnulusDefinition(n);
    assert FULL_TURN / FULL_TURN == 1.0 && Rounded(1.0) == 1;
    TurnOverSpacing(n as real);
    assert FULL_TURN / Spacing(d) == n as real;
    assert Rounded(n as real) == n;
  }

  lemma TurnOverSpacing(x: real)
    requires x > 0.0
    ensures FULL_TURN / x > 0.0 && FULL_TURN / (FULL_TURN / x) == x
  {
    var s := FULL_TURN / x;
    assert s * x == FULL_TURN;
    var q := FULL_TURN / s;
    assert q * s == FULL_TURN;
    MulInjective(q, x, s);
  }

  /** Points one element apart, from zero on. */
  function EvenPoints(n: nat, first: nat, s: real): (points: seq<BoundaryPoint>)
    ensures |points| == n
  {
    seq(n, i requires 0 <= i < n => BoundaryPoint(first + i, Arc(i, s)))
  }

  lemma EvenSlot(node: int, i: nat, n: nat, s: real)
    requires i < n && s > 0.0 && Arc(n, s) == FULL_TURN
    ensures SlotPosition(Slot(0, BoundaryPoint(node, Arc(i, s))), FULL_TURN, 0.0, s) == i as real
  {
    ArcMonotone(0, i, s);
    ArcMonotone(i + 1, n, s);
    ArcSum(i, 1, s);
    CanonicalFixed(Arc(i, s));
    MulDiv(Arc(i, s), s);
    MulInjective(Arc(i, s) / s, i as real, s);
    assert 0 as real * FULL_TURN == 0.0;
  }

  lemma EvenlyIsRaw(n: nat, first: nat, s: real)
    requires n > 0 && s > 0.0 && Arc(n, s) == FULL_TURN
    ensures Relabeled(RawBlock(EvenPoints(n, first, s), FULL_TURN, 0.0, s, 0), LabelOf(false)) == Evenly(n, first)
  {
    var raw := Relabeled(RawBlock(EvenPoints(n, first, s), FULL_TURN, 0.0, s, 0), LabelOf(false));
    forall i | 0 <= i < n ensures raw[i] == Evenly(n, first)[i] {
      EvenSlot(first + i, i, n, s);
    }
  }

  lemma EvenlyIsBuilt(n: nat, first: nat, s: real)
    requires n > 0 && s > 0.0 && Arc(n, s) == FULL_TURN
    ensures BuiltRing(EvenPoints(n, first, s), false, FULL_TURN, 0.0, s, 1) == Evenly(n, first)
  {
    var points, ring := EvenPoints(n, first, s), Evenly(n, first);
    assert RawSlots(points, FULL_TURN, 0.0, s, 0) == [];
    assert RawSlots(points, FULL_TURN, 0.0, s, 1) == [] + RawBlock(points, FULL_TURN, 0.0, s, 0);
    assert RawSlots(points, FULL_TURN, 0.0, s, 1) == RawBlock(points, FULL_TURN, 0.0, s, 0);
    EvenlyIsRaw(n, first, s);
    StableSortIs(ring, ring);
  }

  lemma StoredAtZero(ring: seq<RingPoint>, s: real)
    requires s > 0.0
    ensures Stored(ring, 0.0, s) == ring
  {
    assert 0.0 / s == 0.0;
  }

  lemma AnnulusPoints(n: nat)
    requires n > 0
    ensures var d, angles, s := AnnulusDefinition(n), AnnulusAngles(n), FULL_TURN / n as real;
      && Points(d.innerNodes, angles) == EvenPoints(n, 0, s)
      && Points(d.outerNodes, angles) == EvenPoints(n, n, s)
  {
  }

  /** The annulus is the gap that the converter builds for it. */
  lemma AnnulusIsBuilt(n: nat)
    requires n > 0
    ensures Buildable(AnnulusDefinition(n), |AnnulusAngles(n)|) && BuiltGap(AnnulusDefinition(n), AnnulusAngles(n)) == Annulus(n)
  {
    var s := FULL_TURN / n as real;
    assert Arc(n, s) == FULL_TURN;
    AnnulusIsBuildable(n);
    AnnulusPoints(n);
    EvenlyIsBuilt(n, 0, s);
    EvenlyIsBuilt(n, n, s);
    StoredAtZero(Evenly(n, 0), s);
    StoredAtZero(Evenly(n, n), s);
  }

  /** So there is a gap built by the converter, for every number of elements from ten on and every
      narrow bucket, with a placement of the first bucket that its samples do not cover. */
  lemma BuiltGapIsNotCovered(n: nat, width: real, ulp: real) returns (inner: real, outer: real, e: Entry)
    requires n >= 10 && 0.0 < width <= FULL_TURN / n as real && ulp > 0.0
    ensures Buildable(AnnulusDefinition(n), |AnnulusAngles(n)|)
    ensures var g := BuiltGap(AnnulusDefinition(n), AnnulusAngles(n));
      && Imported(g, 2 * n) && BucketIndex(GapPosition(0, inner, outer), width) == 0 && PositionedGap(g, inner, outer).Done?
      && e in Structure(PositionedGap(g, inner, outer).value.quadrature, n) && !SampledGap(g, 0, width, ulp, 2 * n, e)
  {
    AnnulusIsBuilt(n);
    AnnulusIsSimple(n);
    NarrowerThanTurn(n);
    inner, outer, e := TurnedOuterIsNotCovered(Annulus(n), width, ulp, 2 * n);
  }

  lemma NarrowerThanTurn(n: nat)
    requires n > 0
    ensures FULL_TURN / n as real <= FULL_TURN
  {
    var s := FULL_TURN / n as real;
    assert Arc(n, s) == FULL_TURN && Arc(1, s) == s;
    ArcMonotone(1, n, s);
  }
}
