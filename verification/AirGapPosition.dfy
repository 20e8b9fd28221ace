/** Repositioning a gap that already exists: the solver's own copy of the gap, and the
    reusable mesh of the scripting interface. */
module AirGapPosition {
  import opened Wrappers
  import opened Angles
  import opened Modular
  import opened StableOrder
  import opened RingTurning
  import opened AirGapRing
  import opened AirGapBuild

  datatype PositionError = InvalidRingTopology

  /** What dividing by the element count and indexing the rings demand of a gap with rings; a gap
      without rings only takes its angles. */
  ghost predicate Positionable(g: Gap) {
    g.innerRing != [] && g.outerRing != [] ==>
      g.totalArcLength > 0.0 && 0 < g.totalArcElements && (|g.innerRing| == |g.outerRing| ==> g.totalArcElements <= |g.innerRing|)
  }

  function Step(g: Gap): (step: real)
    requires g.totalArcLength > 0.0 && g.totalArcElements > 0
    ensures step > 0.0
  {
    g.totalArcLength / g.totalArcElements as real
  }

  /** The gap after `positionGap`. */
  ghost function PositionedGap(g: Gap, innerAngle: real, outerAngle: real): Outcome<Gap, PositionError>
    requires Positionable(g)
  {
    if g.innerRing == [] || g.outerRing == [] then
      Done(g.(innerAngle := innerAngle, outerAngle := outerAngle))
    else if |g.innerRing| != |g.outerRing| then
      Failed(InvalidRingTopology)
    else
      var inner := Repositioned(g.innerRing, Step(g), innerAngle);
      var outer := Repositioned(g.outerRing, Step(g), outerAngle);
      Done(g.(innerAngle := CanonicalDegrees(innerAngle), outerAngle := CanonicalDegrees(outerAngle),
              innerShift := inner[0].position, outerShift := outer[0].position,
              quadrature := Brackets(inner, outer, g.totalArcElements)))
  }

  /** With two rings the stored angles are the asked ones, wrapped into one turn, and the shifts are the
      lowest positions of the turned rings; without, the angles are stored as they are. */
  lemma PositionedStores(g: Gap, inner: real, outer: real)
    requires Positionable(g) && PositionedGap(g, inner, outer).Done?
    ensures var h := PositionedGap(g, inner, outer).value;
      if g.innerRing == [] || g.outerRing == [] then h.innerAngle == inner && h.outerAngle == outer
      else
        && 0.0 <= h.innerAngle < 360.0 && h.innerAngle == inner - 360.0 * Turns(inner) as real
        && 0.0 <= h.outerAngle < 360.0 && h.outerAngle == outer - 360.0 * Turns(outer) as real
        && (forall i :: 0 <= i < |g.innerRing| ==> h.innerShift <= Wrapped(g.innerRing[i].position, Step(g), inner))
        && (forall i :: 0 <= i < |g.outerRing| ==> h.outerShift <= Wrapped(g.outerRing[i].position, Step(g), outer))
        && (exists i :: 0 <= i < |g.innerRing| && h.innerShift == Wrapped(g.innerRing[i].position, Step(g), inner))
        && (exists i :: 0 <= i < |g.outerRing| && h.outerShift == Wrapped(g.outerRing[i].position, Step(g), outer))
  {
    if g.innerRing != [] && g.outerRing != [] {
      FirstIsLowest(g.innerRing, Step(g), inner);
      FirstIsLowest(g.outerRing, Step(g), outer);
    }
  }

  lemma FirstIsLowest(ring: seq<RingPoint>, step: real, angle: real)
    requires ring != [] && step > 0.0
    ensures var turned := Repositioned(ring, step, angle);
      && turned != []
      && (forall i :: 0 <= i < |ring| ==> turned[0].position <= Wrapped(ring[i].position, step, angle))
      && (exists i :: 0 <= i < |ring| && turned[0].position == Wrapped(ring[i].position, step, angle))
  {
    var raw, turned := Turned(ring, step, angle), Repositioned(ring, step, angle);
    forall i | 0 <= i < |ring| ensures turned[0].position <= Wrapped(ring[i].position, step, angle) {
      SameMembers(raw, turned, raw[i]);
      var k :| 0 <= k < |turned| && turned[k] == raw[i];
    }
    SameMembers(raw, turned, turned[0]);
    var i :| 0 <= i < |raw| && raw[i] == turned[0];
  }

  /** Copy a topology, move every point, sort. */
  method PositionRing(topology: seq<RingPoint>, step: real, angle: real) returns (ring: seq<RingPoint>)
    requires step > 0.0
    ensures ring == Repositioned(topology, step, angle)
  {
    var points := new RingPoint[|topology|](i requires 0 <= i < |topology| => topology[i]);
    var i := 0;
    while i < points.Length
      invariant 0 <= i <= points.Length == |topology|
      invariant forall j :: 0 <= j < i ==> points[j] == Placed(topology[j].item, Wrapped(topology[j].position, step, angle))
      invariant forall j :: i <= j < points.Length ==> points[j] == topology[j]
    {
      points[i] := Placed(points[i].item, CanonicalDegrees(Degrees(points[i].position, step) + angle) / step);
      i := i + 1;
    }
    assert points[..] == Turned(topology, step, angle);
    ring := StableSort(points[..]);
  }

  /** The solver's gap, updated in place. */
  class AirGapElement {
    const name: string
    const antiperiodic: bool
    const totalArcLength: real
    const totalArcElements: nat
    const innerRingTopology: seq<RingPoint>
    const outerRingTopology: seq<RingPoint>
    var innerAngle: real
    var outerAngle: real
    var innerShift: real
    var outerShift: real
    var quadNode: seq<Bracket>

    /** A copy of a gap, as mesh import or the copy of an element makes one. */
    constructor (g: Gap)
      ensures Value() == g
    {
      name, antiperiodic := g.name, g.antiperiodic;
      totalArcLength, totalArcElements := g.totalArcLength, g.totalArcElements;
      innerRingTopology, outerRingTopology := g.innerRing, g.outerRing;
      innerAngle, outerAngle := g.innerAngle, g.outerAngle;
      innerShift, outerShift := g.innerShift, g.outerShift;
      quadNode := g.quadrature;
    }

    function Value(): Gap
      reads this
    {
      Gap(name, antiperiodic, totalArcLength, totalArcElements, innerRingTopology, outerRingTopology,
          innerAngle, outerAngle, innerShift, outerShift, quadNode)
    }

    /** Rotate the cached rings; nothing changes when the rings do not match. */
    method PositionGap(inner: real, outer: real) returns (ok: bool)
      requires Positionable(Value())
      modifies this
      ensures ok <==> PositionedGap(old(Value()), inner, outer).Done?
      ensures ok ==> Value() == PositionedGap(old(Value()), inner, outer).value
      ensures !ok ==> Value() == old(Value())
    {
      if innerRingTopology == [] || outerRingTopology == [] {
        innerAngle := inner;
        outerAngle := outer;
        return true;
      }
      var step := totalArcLength / totalArcElements as real;
      var innerRing := PositionRing(innerRingTopology, step, inner);
      var outerRing := PositionRing(outerRingTopology, step, outer);
      var fullCount := |innerRing|;
      if fullCount == 0 || |outerRing| != |innerRing| {
        return false;
      }
      innerShift := innerRing[0].position;
      outerShift := outerRing[0].position;
      quadNode := [];
      var i := 0;
      while i <= totalArcElements
        invariant 0 <= i <= totalArcElements + 1
        invariant quadNode == Brackets(innerRing, outerRing, totalArcElements)[..i]
        invariant innerAngle == old(innerAngle) && outerAngle == old(outerAngle)
        invariant innerShift == innerRing[0].position && outerShift == outerRing[0].position
      {
        var p1 := if i == fullCount then 0 else i;
        var p0 := if p1 == 0 then fullCount - 1 else p1 - 1;
        BracketAround(innerRing, outerRing, i, p0, p1);
        NextBracket(innerRing, outerRing, totalArcElements, i);
        quadNode := quadNode + [Bracket(innerRing[p0].item, innerRing[p1].item, outerRing[p0].item, outerRing[p1].item)];
        i := i + 1;
      }
      innerAngle := CanonicalDegrees(inner);
      outerAngle := CanonicalDegrees(outer);
      ok := true;
    }
  }

  lemma IndexAroundRing(i: nat, n: nat)
    requires 0 < n && i <= n
    ensures i % n == if i == n then 0 else i
    ensures (i - 1) % n == if i % n == 0 then n - 1 else i % n - 1
  {
    if i == n {
      ModUnique(i, n, 1, 0);
    } else {
      ModSmall(i, n);
    }
    PreviousIndex(i, n);
  }

  /** The two indices the loops compute are the ones around the ring. */
  lemma BracketAround(inner: seq<RingPoint>, outer: seq<RingPoint>, i: nat, p0: nat, p1: nat)
    requires |inner| == |outer| > 0 && i <= |inner|
    requires p1 == (if i == |inner| then 0 else i) && p0 == if p1 == 0 then |inner| - 1 else p1 - 1
    ensures BracketAt(inner, outer, i) == Bracket(inner[p0].item, inner[p1].item, outer[p0].item, outer[p1].item)
  {
    IndexAroundRing(i, |inner|);
  }

  // ----- the reusable mesh

  datatype Boundary = Boundary(name: string, magnetic: bool, innerAngle: real, outerAngle: real)

  /** The first boundary of that name, unless it is of another kind. */
  function BoundaryFor(boundaries: seq<Boundary>, name: string): Outcome<Boundary, ()>
  {
    if boundaries == [] then Failed(())
    else if boundaries[0].name == name then
      if boundaries[0].magnetic then Done(boundaries[0]) else Failed(())
    else BoundaryFor(boundaries[1..], name)
  }

  /** Boundary `i` is the first of that name, and a magnetic one. */
  ghost predicate FirstMagnetic(boundaries: seq<Boundary>, name: string, i: nat) {
    && i < |boundaries| && boundaries[i].name == name && boundaries[i].magnetic
    && forall j :: 0 <= j < i ==> boundaries[j].name != name
  }

  ghost predicate HasMagnetic(boundaries: seq<Boundary>, name: string) {
    exists i: nat :: FirstMagnetic(boundaries, name, i)
  }

  /** A boundary is found exactly when the first one of that name is magnetic, and it is that one. */
  lemma {:induction false} BoundaryForIs(boundaries: seq<Boundary>, name: string, b: Boundary)
    ensures BoundaryFor(boundaries, name) == Done(b) <==> exists i: nat :: FirstMagnetic(boundaries, name, i) && boundaries[i] == b
  {
    if boundaries != [] {
      var rest := boundaries[1..];
      if boundaries[0].name == name {
        if i: nat :| FirstMagnetic(boundaries, name, i) && boundaries[i] == b {
          assert i == 0;
        }
        if boundaries[0].magnetic && boundaries[0] == b {
          assert FirstMagnetic(boundaries, name, 0);
        }
      } else {
        BoundaryForIs(rest, name, b);
        if i: nat :| FirstMagnetic(boundaries, name, i) && boundaries[i] == b {
          assert FirstMagnetic(rest, name, i - 1);
        }
        if i: nat :| FirstMagnetic(rest, name, i) && rest[i] == b {
          assert FirstMagnetic(boundaries, name, i + 1);
        }
      }
    }
  }

  lemma FoundAt(boundaries: seq<Boundary>, name: string, i: nat)
    requires FirstMagnetic(boundaries, name, i)
    ensures BoundaryFor(boundaries, name) == Done(boundaries[i])
  {
    BoundaryForIs(boundaries, name, boundaries[i]);
  }

  lemma FoundSomewhere(boundaries: seq<Boundary>, name: string) returns (i: nat)
    requires BoundaryFor(boundaries, name).Done?
    ensures FirstMagnetic(boundaries, name, i) && boundaries[i] == BoundaryFor(boundaries, name).value
  {
    BoundaryForIs(boundaries, name, BoundaryFor(boundaries, name).value);
    i :| FirstMagnetic(boundaries, name, i) && boundaries[i] == BoundaryFor(boundaries, name).value;
  }

  ghost predicate ReusableGap(g: Gap, boundaries: seq<Boundary>) {
    && BoundaryFor(boundaries, g.name).Done?
    && g.totalArcElements != 0
    && g.innerRing != []
    && |g.innerRing| == |g.outerRing|
    && g.totalArcElements <= |g.innerRing|
  }

  /** The gap repositioned for its boundary; here the stored angles are not wrapped. */
  ghost function Reused(g: Gap, boundaries: seq<Boundary>): Gap
    requires ReusableGap(g, boundaries) && g.totalArcLength > 0.0
  {
    var b := BoundaryFor(boundaries, g.name).value;
    PositionedGap(g, b.innerAngle, b.outerAngle).value.(innerAngle := b.innerAngle, outerAngle := b.outerAngle)
  }

  method FindBoundary(boundaries: seq<Boundary>, name: string) returns (r: Outcome<Boundary, ()>)
    ensures r == BoundaryFor(boundaries, name)
  {
    var i := 0;
    while i < |boundaries|
      invariant 0 <= i <= |boundaries|
      invariant BoundaryFor(boundaries, name) == BoundaryFor(boundaries[i..], name)
    {
      if boundaries[i].name == name {
        return if boundaries[i].magnetic then Done(boundaries[i]) else Failed(());
      }
      i := i + 1;
    }
    r := Failed(());
  }

  /** The bracket loop of the reusable mesh, which gives up when the ring is too short. */
  method RewriteBrackets(inner: seq<RingPoint>, outer: seq<RingPoint>, n: nat) returns (ok: bool, quadrature: seq<Bracket>)
    requires |inner| == |outer| > 0
    ensures ok <==> n <= |inner|
    ensures ok ==> quadrature == Brackets(inner, outer, n)
    ensures !ok ==> quadrature == Brackets(inner, outer, |inner|)
  {
    var fullCount := |inner|;
    quadrature := [];
    var i := 0;
    while i <= n
      invariant 0 <= i <= n + 1 && i <= fullCount + 1
      invariant quadrature == Brackets(inner, outer, fullCount)[..i]
    {
      var p1 := if i == fullCount then 0 else i;
      if p1 >= fullCount {
        return false, quadrature;
      }
      var p0 := if p1 == 0 then fullCount - 1 else p1 - 1;
      BracketAround(inner, outer, i, p0, p1);
      NextBracket(inner, outer, fullCount, i);
      quadrature := quadrature + [Bracket(inner[p0].item, inner[p1].item, outer[p0].item, outer[p1].item)];
      i := i + 1;
    }
    ok := true;
  }

  /** One gap: unchanged, half rewritten, or repositioned. */
  method RepositionReusable(gap: Gap, boundaries: seq<Boundary>) returns (ok: bool, g: Gap)
    requires gap.totalArcLength > 0.0
    ensures ok <==> ReusableGap(gap, boundaries)
    ensures ok ==> g == Reused(gap, boundaries)
    ensures g.innerRing == gap.innerRing && g.outerRing == gap.outerRing
  {
    g := gap;
    var boundary := FindBoundary(boundaries, g.name);
    if boundary.Failed? || g.totalArcElements == 0 || g.innerRing == [] || |g.innerRing| != |g.outerRing| {
      return false, g;
    }
    var step := Step(g);
    var inner := PositionRing(g.innerRing, step, boundary.value.innerAngle);
    var outer := PositionRing(g.outerRing, step, boundary.value.outerAngle);
    g := g.(innerShift := inner[0].position, outerShift := outer[0].position);
    var quadrature;
    ok, quadrature := RewriteBrackets(inner, outer, g.totalArcElements);
    g := g.(quadrature := quadrature);
    if !ok {
      return;
    }
    g := g.(innerAngle := boundary.value.innerAngle, outerAngle := boundary.value.outerAngle);
  }

  class ReusableMesh {
    var airGaps: seq<Gap>

    constructor (gaps: seq<Gap>)
      ensures airGaps == gaps
    {
      airGaps := gaps;
    }

    /** Reposition every gap, stopping at the first that cannot be reused. The gaps before
        it have moved by then; its own brackets may be half rewritten, its rings never. */
    method PositionReusableAirGaps(boundaries: seq<Boundary>) returns (ok: bool, ghost reached: nat)
      requires forall k :: 0 <= k < |airGaps| ==> airGaps[k].totalArcLength > 0.0
      modifies this
      ensures |airGaps| == |old(airGaps)| && reached <= |airGaps|
      ensures ok <==> forall k :: 0 <= k < |airGaps| ==> ReusableGap(old(airGaps)[k], boundaries)
      ensures ok <==> reached == |airGaps|
      ensures forall k :: 0 <= k < reached ==>
        ReusableGap(old(airGaps)[k], boundaries) && airGaps[k] == Reused(old(airGaps)[k], boundaries)
      ensures forall k :: reached < k < |airGaps| ==> airGaps[k] == old(airGaps)[k]
      ensures !ok ==> !ReusableGap(old(airGaps)[reached], boundaries)
      ensures !ok ==> airGaps[reached].innerRing == old(airGaps)[reached].innerRing
      ensures !ok ==> airGaps[reached].outerRing == old(airGaps)[reached].outerRing
    {
      ghost var before := airGaps;
      var g := 0;
      while g < |airGaps|
        invariant 0 <= g <= |airGaps| == |before|
        invariant forall k :: g <= k < |airGaps| ==> airGaps[k] == before[k]
        invariant forall k :: 0 <= k < g ==> ReusableGap(before[k], boundaries) && airGaps[k] == Reused(before[k], boundaries)
      {
        var moved, gap := RepositionReusable(airGaps[g], boundaries);
        airGaps := airGaps[g := gap];
        if !moved {
          return false, g;
        }
        g := g + 1;
      }
      return true, g;
    }
  }

  // ----- what reuse is for

  lemma RotatedIsBuildable(d: Definition, vertexAngle: seq<real>, innerAngle: real, outerAngle: real)
    requires Buildable(d, |vertexAngle|)
    ensures var rotated := d.(innerAngle := innerAngle, outerAngle := outerAngle);
      Buildable(rotated, |vertexAngle|) && Spacing(rotated) == Spacing(d) && Copies(rotated) == Copies(d)
  {
    var rotated := d.(innerAngle := innerAngle, outerAngle := outerAngle);
    assert Spacing(rotated) == Spacing(d) && Copies(rotated) == Copies(d);
  }

  lemma StepIsSpacing(d: Definition, vertexAngle: seq<real>)
    requires Buildable(d, |vertexAngle|)
    ensures Step(BuiltGap(d, vertexAngle)) == Spacing(d)
  {
  }

  /** Repositioning a built gap gives the brackets and shifts of a gap built at the new angles. */
  lemma ReuseRefinesRebuild(d: Definition, vertexAngle: seq<real>, innerAngle: real, outerAngle: real)
    requires Buildable(d, |vertexAngle|)
    ensures var rotated := d.(innerAngle := innerAngle, outerAngle := outerAngle);
      && Positionable(BuiltGap(d, vertexAngle))
      && Buildable(rotated, |vertexAngle|)
      && var reused := PositionedGap(BuiltGap(d, vertexAngle), innerAngle, outerAngle);
         var rebuilt := BuiltGap(rotated, vertexAngle);
         && reused.Done?
         && reused.value.quadrature == rebuilt.quadrature
         && reused.value.innerShift == rebuilt.innerShift
         && reused.value.outerShift == rebuilt.outerShift
  {
    var rotated := d.(innerAngle := innerAngle, outerAngle := outerAngle);
    RotatedIsBuildable(d, vertexAngle, innerAngle, outerAngle);
    RingSizes(d, vertexAngle);
    RingSizes(rotated, vertexAngle);
    StepIsSpacing(d, vertexAngle);
    var built, spacing := BuiltGap(d, vertexAngle), Spacing(d);
    ReuseIsRebuild(Points(d.innerNodes, vertexAngle), d.format == 1, d.totalArcLength, d.innerAngle, innerAngle, spacing, Copies(d));
    ReuseIsRebuild(Points(d.outerNodes, vertexAngle), d.format == 1, d.totalArcLength, d.outerAngle, outerAngle, spacing, Copies(d));
    assert Repositioned(built.innerRing, spacing, innerAngle) == InnerRing(rotated, vertexAngle);
    assert Repositioned(built.outerRing, spacing, outerAngle) == OuterRing(rotated, vertexAngle);
  }

  // ----- the same for the reusable mesh

  /** The gap as it was built, however often it has been repositioned since. */
  ghost predicate StoredFrom(g: Gap, d: Definition, vertexAngle: seq<real>)
    requires Buildable(d, |vertexAngle|)
  {
    var built := BuiltGap(d, vertexAngle);
    g == built.(innerAngle := g.innerAngle, outerAngle := g.outerAngle, innerShift := g.innerShift, outerShift := g.outerShift, quadrature := g.quadrature)
  }

  /** Everything but the stored rings is what building the gap at these angles gives. */
  ghost predicate IsRebuilt(g: Gap, d: Definition, vertexAngle: seq<real>, innerAngle: real, outerAngle: real)
    requires Buildable(d, |vertexAngle|)
  {
    var rotated := d.(innerAngle := innerAngle, outerAngle := outerAngle);
    && Buildable(rotated, |vertexAngle|)
    && g == BuiltGap(rotated, vertexAngle).(innerRing := g.innerRing, outerRing := g.outerRing)
  }

  /** A built gap of a reusable mesh, however often repositioned, can be repositioned exactly when the
      first boundary of its name is magnetic; it then is the gap built at that boundary's angles, its
      stored rings excepted, and can be repositioned again. */
  lemma ReusableRefinesRebuild(g: Gap, d: Definition, vertexAngle: seq<real>, boundaries: seq<Boundary>)
    requires Buildable(d, |vertexAngle|) && StoredFrom(g, d, vertexAngle)
    ensures ReusableGap(g, boundaries) <==> HasMagnetic(boundaries, d.name)
    ensures forall i: nat :: FirstMagnetic(boundaries, d.name, i) ==>
      && ReusableGap(g, boundaries) && g.totalArcLength > 0.0
      && StoredFrom(Reused(g, boundaries), d, vertexAngle)
      && IsRebuilt(Reused(g, boundaries), d, vertexAngle, boundaries[i].innerAngle, boundaries[i].outerAngle)
  {
    RingSizes(d, vertexAngle);
    if BoundaryFor(boundaries, d.name).Done? {
      var b := BoundaryFor(boundaries, d.name).value;
      var at := FoundSomewhere(boundaries, d.name);
      ReuseRefinesRebuild(d, vertexAngle, b.innerAngle, b.outerAngle);
      PositionsAlike(g, BuiltGap(d, vertexAngle), b.innerAngle, b.outerAngle);
    }
    forall i: nat | FirstMagnetic(boundaries, d.name, i) ensures BoundaryFor(boundaries, d.name) == Done(boundaries[i]) {
      FoundAt(boundaries, d.name, i);
    }
  }

  /** Where a gap stands does not matter to its next position. */
  lemma PositionsAlike(g: Gap, h: Gap, innerAngle: real, outerAngle: real)
    requires Positionable(g) && g.innerRing != [] && g.outerRing != []
    requires h == g.(innerAngle := h.innerAngle, outerAngle := h.outerAngle, innerShift := h.innerShift, outerShift := h.outerShift, quadrature := h.quadrature)
    ensures PositionedGap(g, innerAngle, outerAngle) == PositionedGap(h, innerAngle, outerAngle)
  {
  }

  /** So repositioning a mesh of built gaps succeeds exactly when for all of them the first boundary of
      their name is magnetic, and leaves every gap as built at that boundary's angles. */
  lemma ReusableMeshRefinesRebuild(gaps: seq<Gap>, definitions: seq<Definition>, vertexAngle: seq<real>, boundaries: seq<Boundary>)
    requires |gaps| == |definitions|
    requires forall k :: 0 <= k < |gaps| ==> Buildable(definitions[k], |vertexAngle|) && StoredFrom(gaps[k], definitions[k], vertexAngle)
    ensures (forall k :: 0 <= k < |gaps| ==> ReusableGap(gaps[k], boundaries))
       <==> (forall k :: 0 <= k < |gaps| ==> HasMagnetic(boundaries, definitions[k].name))
    ensures forall k, i: nat :: 0 <= k < |gaps| && FirstMagnetic(boundaries, definitions[k].name, i) ==>
      && ReusableGap(gaps[k], boundaries) && gaps[k].totalArcLength > 0.0
      && IsRebuilt(Reused(gaps[k], boundaries), definitions[k], vertexAngle, boundaries[i].innerAngle, boundaries[i].outerAngle)
  {
    forall k | 0 <= k < |gaps|
      ensures ReusableGap(gaps[k], boundaries) <==> HasMagnetic(boundaries, definitions[k].name)
    {
      ReusableRefinesRebuild(gaps[k], definitions[k], vertexAngle, boundaries);
    }
    forall k, i: nat | 0 <= k < |gaps| && FirstMagnetic(boundaries, definitions[k].name, i)
      ensures ReusableGap(gaps[k], boundaries) && gaps[k].totalArcLength > 0.0
      ensures IsRebuilt(Reused(gaps[k], boundaries), definitions[k], vertexAngle, boundaries[i].innerAngle, boundaries[i].outerAngle)
    {
      ReusableRefinesRebuild(gaps[k], definitions[k], vertexAngle, boundaries);
    }
  }

  /** Positions along a run do not matter: only the last angles do, and only within a turn. */
  lemma OnlyTheLastAnglesMatter(g: Gap, a: real, b: real, innerAngle: real, outerAngle: real, turnsInner: int, turnsOuter: int)
    requires Positionable(g) && g.innerRing != [] && g.outerRing != []
    ensures PositionedGap(g, a, b).Done? ==>
      && Positionable(PositionedGap(g, a, b).value)
      && PositionedGap(PositionedGap(g, a, b).value, innerAngle + FULL_TURN * (turnsInner as real), outerAngle + FULL_TURN * (turnsOuter as real))
         == PositionedGap(g, innerAngle, outerAngle)
  {
    if PositionedGap(g, a, b).Done? {
      RepositionedWholeTurns(g.innerRing, Step(g), innerAngle, turnsInner);
      RepositionedWholeTurns(g.outerRing, Step(g), outerAngle, turnsOuter);
      CanonicalOfWholeTurns(innerAngle, turnsInner);
      CanonicalOfWholeTurns(outerAngle, turnsOuter);
    }
  }
}
