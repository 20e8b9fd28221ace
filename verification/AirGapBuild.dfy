/** Conversion of one air-gap definition of the mesher into a gap with full rings. */
module AirGapBuild {
  import opened Wrappers
  import opened Angles
  import opened StableOrder
  import opened RingTurning
  import opened AirGapRing
  import opened Modular

  datatype Definition = Definition(
    name: string,
    format: int,
    n: int,
    innerNodes: seq<int>,
    outerNodes: seq<int>,
    innerAngle: real,
    outerAngle: real,
    ri: real,
    ro: real,
    totalArcLength: real)

  datatype BuildError =
    | InvalidPeriodicity
    | InconsistentCounts
    | InvalidGeometry
    | InvalidInnerNode
    | InvalidOuterNode
    | DoesNotTile

  const TOLERANCE: real := 0.000000001

  function Rounded(x: real): int {
    if x >= 0.0 then (x + 0.5).Floor else -((0.5 - x).Floor)
  }

  function Distance(x: real, y: real): real {
    if x >= y then x - y else y - x
  }

  predicate NodesExist(nodes: seq<int>, nodeCount: nat) {
    forall i :: 0 <= i < |nodes| ==> 0 <= nodes[i] < nodeCount
  }

  predicate CountsAgree(d: Definition) {
    d.n > 0 && |d.innerNodes| == |d.outerNodes| == d.n
  }

  predicate GeometryFits(d: Definition) {
    0.0 <= d.ri < d.ro && d.totalArcLength > 0.0
  }

  function Spacing(d: Definition): (s: real)
    requires d.n > 0 && d.totalArcLength > 0.0
    ensures s > 0.0
  {
    d.totalArcLength / d.n as real
  }

  function Copies(d: Definition): int
    requires d.totalArcLength > 0.0
  {
    Rounded(FULL_TURN / d.totalArcLength)
  }

  /** The copies of the sector fill the annulus, up to the code's tolerance. */
  predicate Tiles(d: Definition)
    requires CountsAgree(d) && GeometryFits(d)
  {
    var fullElementCount := FULL_TURN / Spacing(d);
    && Copies(d) > 0
    && Distance(fullElementCount, (Copies(d) * d.n) as real) <= TOLERANCE
    && Rounded(fullElementCount) == Copies(d) * d.n
    && Distance(FULL_TURN / d.totalArcLength, Copies(d) as real) <= TOLERANCE
    && (d.format == 1 ==> Copies(d) % 2 == 0)
  }

  /** What the converter accepts. */
  predicate Buildable(d: Definition, nodeCount: nat) {
    && (d.format == 0 || d.format == 1)
    && CountsAgree(d)
    && GeometryFits(d)
    && NodesExist(d.innerNodes, nodeCount)
    && NodesExist(d.outerNodes, nodeCount)
    && Tiles(d)
  }

  /** The error of the first check that fails. */
  function FirstError(d: Definition, nodeCount: nat): BuildError {
    if d.format != 0 && d.format != 1 then InvalidPeriodicity
    else if !CountsAgree(d) then InconsistentCounts
    else if !GeometryFits(d) then InvalidGeometry
    else if !NodesExist(d.innerNodes, nodeCount) then InvalidInnerNode
    else if !NodesExist(d.outerNodes, nodeCount) then InvalidOuterNode
    else DoesNotTile
  }

  function Points(nodes: seq<int>, vertexAngle: seq<real>): seq<BoundaryPoint>
    requires NodesExist(nodes, |vertexAngle|)
  {
    seq(|nodes|, i requires 0 <= i < |nodes| => BoundaryPoint(nodes[i], vertexAngle[nodes[i]]))
  }

  function InnerRing(d: Definition, vertexAngle: seq<real>): seq<RingPoint>
    requires Buildable(d, |vertexAngle|)
  {
    BuiltRing(Points(d.innerNodes, vertexAngle), d.format == 1, d.totalArcLength, d.innerAngle, Spacing(d), Copies(d))
  }

  function OuterRing(d: Definition, vertexAngle: seq<real>): seq<RingPoint>
    requires Buildable(d, |vertexAngle|)
  {
    BuiltRing(Points(d.outerNodes, vertexAngle), d.format == 1, d.totalArcLength, d.outerAngle, Spacing(d), Copies(d))
  }

  lemma RingSizes(d: Definition, vertexAngle: seq<real>)
    requires Buildable(d, |vertexAngle|)
    ensures |InnerRing(d, vertexAngle)| == |OuterRing(d, vertexAngle)| == Copies(d) * d.n
    ensures Copies(d) * d.n >= d.n > 0
  {
    RawSlotsLength(Points(d.innerNodes, vertexAngle), d.totalArcLength, d.innerAngle, Spacing(d), Copies(d));
    RawSlotsLength(Points(d.outerNodes, vertexAngle), d.totalArcLength, d.outerAngle, Spacing(d), Copies(d));
    assert Copies(d) * d.n == (Copies(d) - 1) * d.n + d.n;
  }

  function BuiltGap(d: Definition, vertexAngle: seq<real>): Gap
    requires Buildable(d, |vertexAngle|)
  {
    var inner, outer := InnerRing(d, vertexAngle), OuterRing(d, vertexAngle);
    RingSizes(d, vertexAngle);
    Gap(d.name, d.format == 1, d.totalArcLength, d.n,
        Stored(inner, d.innerAngle, Spacing(d)), Stored(outer, d.outerAngle, Spacing(d)),
        d.innerAngle, d.outerAngle, inner[0].position, outer[0].position,
        Brackets(inner, outer, d.n))
  }

  // ----- what is accepted and built, in numbers

  ghost predicate TiledBy(d: Definition, m: int)
    requires CountsAgree(d) && GeometryFits(d)
  {
    && m > 0 && (d.format == 1 ==> m % 2 == 0)
    && -0.000000001 <= 360.0 / d.totalArcLength - m as real <= 0.000000001
    && -0.000000001 <= 360.0 / (d.totalArcLength / d.n as real) - (m * d.n) as real <= 0.000000001
  }

  lemma RoundedIs(x: real, m: int)
    requires m > 0 && -0.000000001 <= x - m as real <= 0.000000001
    ensures Rounded(x) == m
  {
  }

  /** A sector tiles the annulus if and only if, to the tolerance, some number of sectors makes a turn
      and as many times its elements make all elements; that number is the number of copies. */
  lemma TilesIff(d: Definition)
    requires CountsAgree(d) && GeometryFits(d)
    ensures Tiles(d) <==> exists m: int :: TiledBy(d, m)
    ensures forall m: int :: TiledBy(d, m) ==> Copies(d) == m
  {
    forall m: int | TiledBy(d, m) ensures Copies(d) == m && Tiles(d) {
      RoundedIs(360.0 / d.totalArcLength, m);
      RoundedIs(360.0 / (d.totalArcLength / d.n as real), m * d.n);
    }
    if Tiles(d) {
      assert TiledBy(d, Copies(d));
    }
  }

  /** What the converter accepts, check by check. */
  lemma BuildableIff(d: Definition, nodeCount: nat)
    ensures Buildable(d, nodeCount) <==>
      && (d.format == 0 || d.format == 1)
      && d.n > 0 && |d.innerNodes| == d.n && |d.outerNodes| == d.n
      && d.ri >= 0.0 && d.ro > d.ri && d.totalArcLength > 0.0
      && (forall i :: 0 <= i < |d.innerNodes| ==> 0 <= d.innerNodes[i] < nodeCount)
      && (forall i :: 0 <= i < |d.outerNodes| ==> 0 <= d.outerNodes[i] < nodeCount)
      && exists m: int :: TiledBy(d, m)
  {
    if CountsAgree(d) && GeometryFits(d) {
      TilesIff(d);
    }
  }

  /** Which error a definition that is not accepted gets: that of its first fault in this order. */
  lemma ErrorIs(d: Definition, nodeCount: nat)
    ensures FirstError(d, nodeCount) == InvalidPeriodicity <==> d.format != 0 && d.format != 1
    ensures FirstError(d, nodeCount) == InconsistentCounts <==>
      (d.format == 0 || d.format == 1) && (d.n <= 0 || |d.innerNodes| != d.n || |d.outerNodes| != d.n)
    ensures FirstError(d, nodeCount) == InvalidGeometry <==>
      && (d.format == 0 || d.format == 1) && d.n > 0 && |d.innerNodes| == d.n && |d.outerNodes| == d.n
      && (d.ri < 0.0 || d.ro <= d.ri || d.totalArcLength <= 0.0)
    ensures FirstError(d, nodeCount) == InvalidInnerNode ==> exists i :: 0 <= i < |d.innerNodes| && !(0 <= d.innerNodes[i] < nodeCount)
    ensures FirstError(d, nodeCount) == InvalidOuterNode ==>
      (exists i :: 0 <= i < |d.outerNodes| && !(0 <= d.outerNodes[i] < nodeCount)) && forall i :: 0 <= i < |d.innerNodes| ==> 0 <= d.innerNodes[i] < nodeCount
    ensures FirstError(d, nodeCount) == DoesNotTile ==>
      && (forall i :: 0 <= i < |d.innerNodes| ==> 0 <= d.innerNodes[i] < nodeCount)
      && (forall i :: 0 <= i < |d.outerNodes| ==> 0 <= d.outerNodes[i] < nodeCount)
  {
  }

  /** So many arcs on from an angle. */
  function ArcsOn(natural: real, c: nat, arcLength: real): real { natural + c as real * arcLength }

  /** The point is copy `c` of node `i` of the boundary: as many arcs on as the copy says, turned with
      the ring, and stored relative to the ring that is not turned. Its sign is 1 for copy 0; from copy
      to copy it alternates if the boundary is antiperiodic, and stays if it is not. */
  ghost predicate IsCopy(p: RingPoint, d: Definition, nodes: seq<int>, vertexAngle: seq<real>, angle: real, i: nat, c: nat)
    requires CountsAgree(d) && GeometryFits(d) && NodesExist(nodes, |vertexAngle|)
  {
    && i < |nodes| && c < Copies(d)
    && p.item == Signed(nodes[i], if d.format == 1 && c % 2 == 1 then -1.0 else 1.0)
    && Degrees(p.position, Spacing(d)) == CanonicalDegrees(ArcsOn(vertexAngle[nodes[i]], c, d.totalArcLength) + angle) - angle
  }

  ghost predicate IsSomeCopy(p: RingPoint, d: Definition, nodes: seq<int>, vertexAngle: seq<real>, angle: real)
    requires CountsAgree(d) && GeometryFits(d) && NodesExist(nodes, |vertexAngle|)
  {
    exists i: nat, c: nat :: IsCopy(p, d, nodes, vertexAngle, angle, i, c)
  }

  lemma {:induction false} SlotIn(points: seq<BoundaryPoint>, arcLength: real, angle: real, spacing: real, copies: nat, c: nat, i: nat) returns (k: nat)
    requires spacing > 0.0 && c < copies && i < |points|
    ensures k < |RawSlots(points, arcLength, angle, spacing, copies)|
    ensures RawSlots(points, arcLength, angle, spacing, copies)[k] == Placed(Slot(c, points[i]), SlotPosition(Slot(c, points[i]), arcLength, angle, spacing))
  {
    if c == copies - 1 {
      k := |RawSlots(points, arcLength, angle, spacing, copies - 1)| + i;
    } else {
      k := SlotIn(points, arcLength, angle, spacing, copies - 1, c, i);
    }
  }

  lemma {:induction false} SlotOf(points: seq<BoundaryPoint>, arcLength: real, angle: real, spacing: real, copies: nat, k: nat) returns (c: nat, i: nat)
    requires spacing > 0.0 && k < |RawSlots(points, arcLength, angle, spacing, copies)|
    ensures c < copies && i < |points|
    ensures RawSlots(points, arcLength, angle, spacing, copies)[k] == Placed(Slot(c, points[i]), SlotPosition(Slot(c, points[i]), arcLength, angle, spacing))
  {
    var before := RawSlots(points, arcLength, angle, spacing, copies - 1);
    if k < |before| {
      c, i := SlotOf(points, arcLength, angle, spacing, copies - 1, k);
    } else {
      c, i := copies - 1, k - |before|;
    }
  }

  /** Copy `c` of node `i`, as it stands on the ring. */
  function CopyOnRing(d: Definition, nodes: seq<int>, vertexAngle: seq<real>, angle: real, i: nat, c: nat): RingPoint
    requires CountsAgree(d) && GeometryFits(d) && NodesExist(nodes, |vertexAngle|) && i < |nodes|
  {
    var slot := Slot(c, Points(nodes, vertexAngle)[i]);
    Placed(LabelOf(d.format == 1)(slot), SlotPosition(slot, d.totalArcLength, angle, Spacing(d)))
  }

  lemma CopyStored(d: Definition, nodes: seq<int>, vertexAngle: seq<real>, angle: real, i: nat, c: nat, p: RingPoint)
    requires CountsAgree(d) && GeometryFits(d) && NodesExist(nodes, |vertexAngle|) && i < |nodes| && c < Copies(d)
    ensures IsCopy(p, d, nodes, vertexAngle, angle, i, c) <==>
      var q := CopyOnRing(d, nodes, vertexAngle, angle, i, c); p == Placed(q.item, q.position - angle / Spacing(d))
  {
    var q := CopyOnRing(d, nodes, vertexAngle, angle, i, c);
    var there := CanonicalDegrees(ArcsOn(vertexAngle[nodes[i]], c, d.totalArcLength) + angle);
    CopyInNumbers(d, nodes, vertexAngle, angle, i, c);
    InDegrees(there, angle, Spacing(d), p.position);
    assert p == Placed(p.item, p.position);
  }

  lemma CopyInNumbers(d: Definition, nodes: seq<int>, vertexAngle: seq<real>, angle: real, i: nat, c: nat)
    requires CountsAgree(d) && GeometryFits(d) && NodesExist(nodes, |vertexAngle|) && i < |nodes|
    ensures var q := CopyOnRing(d, nodes, vertexAngle, angle, i, c);
      && q.item == Signed(nodes[i], if d.format == 1 && c % 2 == 1 then -1.0 else 1.0)
      && q.position == CanonicalDegrees(ArcsOn(vertexAngle[nodes[i]], c, d.totalArcLength) + angle) / Spacing(d)
  {
    var slot := Slot(c, Points(nodes, vertexAngle)[i]);
    assert CopyAngle(slot, d.totalArcLength) == ArcsOn(vertexAngle[nodes[i]], c, d.totalArcLength);
  }

  lemma InDegrees(there: real, angle: real, spacing: real, position: real)
    requires spacing > 0.0
    ensures position == there / spacing - angle / spacing <==> Degrees(position, spacing) == there - angle
  {
    MulDiv(there, spacing);
    DegreesOfDifference(there / spacing, angle, spacing);
    MulInjective(position, there / spacing - angle / spacing, spacing);
  }

  lemma SpacingIs(d: Definition)
    requires CountsAgree(d) && GeometryFits(d)
    ensures Spacing(d) * d.n as real == d.totalArcLength
  {
  }

  lemma RingHolds(d: Definition, nodes: seq<int>, vertexAngle: seq<real>, angle: real, q: RingPoint)
    requires CountsAgree(d) && GeometryFits(d) && NodesExist(nodes, |vertexAngle|) && Copies(d) >= 0
    ensures q in BuiltRing(Points(nodes, vertexAngle), d.format == 1, d.totalArcLength, angle, Spacing(d), Copies(d)) <==>
      exists i: nat, c: nat :: i < |nodes| && c < Copies(d) && q == CopyOnRing(d, nodes, vertexAngle, angle, i, c)
  {
    var points, spacing, f := Points(nodes, vertexAngle), Spacing(d), LabelOf(d.format == 1);
    var signed := Relabeled(RawSlots(points, d.totalArcLength, angle, spacing, Copies(d)), f);
    SameMembers(signed, StableSort(signed), q);
    if q in signed {
      var k :| 0 <= k < |signed| && signed[k] == q;
      var c, i := SlotOf(points, d.totalArcLength, angle, spacing, Copies(d), k);
      assert q == CopyOnRing(d, nodes, vertexAngle, angle, i, c);
    }
    if i: nat, c: nat :| i < |nodes| && c < Copies(d) && q == CopyOnRing(d, nodes, vertexAngle, angle, i, c) {
      var k := SlotIn(points, d.totalArcLength, angle, spacing, Copies(d), c, i);
      assert signed[k] == q;
    }
  }

  lemma StoredHolds(ring: seq<RingPoint>, angle: real, spacing: real, p: RingPoint)
    requires spacing > 0.0
    ensures p in Stored(ring, angle, spacing) <==> exists q :: q in ring && p == Placed(q.item, q.position - angle / spacing)
  {
    if p in Stored(ring, angle, spacing) {
      var j :| 0 <= j < |ring| && Stored(ring, angle, spacing)[j] == p;
      assert ring[j] in ring;
    }
    if q :| q in ring && p == Placed(q.item, q.position - angle / spacing) {
      var j :| 0 <= j < |ring| && ring[j] == q;
      assert Stored(ring, angle, spacing)[j] == p;
    }
  }

  /** The points of a stored ring are the copies of its boundary nodes. */
  lemma StoredCopies(d: Definition, nodes: seq<int>, vertexAngle: seq<real>, angle: real, p: RingPoint)
    requires CountsAgree(d) && GeometryFits(d) && NodesExist(nodes, |vertexAngle|) && Copies(d) >= 0
    ensures var ring := BuiltRing(Points(nodes, vertexAngle), d.format == 1, d.totalArcLength, angle, Spacing(d), Copies(d));
      p in Stored(ring, angle, Spacing(d)) <==> IsSomeCopy(p, d, nodes, vertexAngle, angle)
  {
    var ring := BuiltRing(Points(nodes, vertexAngle), d.format == 1, d.totalArcLength, angle, Spacing(d), Copies(d));
    StoredHolds(ring, angle, Spacing(d), p);
    if q :| q in ring && p == Placed(q.item, q.position - angle / Spacing(d)) {
      RingHolds(d, nodes, vertexAngle, angle, q);
      var i: nat, c: nat :| i < |nodes| && c < Copies(d) && q == CopyOnRing(d, nodes, vertexAngle, angle, i, c);
      CopyStored(d, nodes, vertexAngle, angle, i, c, p);
    }
    if i: nat, c: nat :| IsCopy(p, d, nodes, vertexAngle, angle, i, c) {
      CopyStored(d, nodes, vertexAngle, angle, i, c, p);
      RingHolds(d, nodes, vertexAngle, angle, CopyOnRing(d, nodes, vertexAngle, angle, i, c));
    }
  }

  /** A built gap in numbers: its name, kind, arc and elements are those of the definition, and its
      rings hold exactly the copies of the two boundaries. */
  lemma BuiltGapIs(d: Definition, vertexAngle: seq<real>)
    requires Buildable(d, |vertexAngle|)
    ensures var g := BuiltGap(d, vertexAngle);
      && g.name == d.name && (g.antiperiodic <==> d.format == 1) && g.totalArcLength == d.totalArcLength && g.totalArcElements == d.n
      && g.innerAngle == d.innerAngle && g.outerAngle == d.outerAngle && Spacing(d) * d.n as real == d.totalArcLength
      && (forall p :: p in g.innerRing <==> IsSomeCopy(p, d, d.innerNodes, vertexAngle, d.innerAngle))
      && (forall p :: p in g.outerRing <==> IsSomeCopy(p, d, d.outerNodes, vertexAngle, d.outerAngle))
  {
    SpacingIs(d);
    forall p ensures p in BuiltGap(d, vertexAngle).innerRing <==> IsSomeCopy(p, d, d.innerNodes, vertexAngle, d.innerAngle) {
      StoredCopies(d, d.innerNodes, vertexAngle, d.innerAngle, p);
    }
    forall p ensures p in BuiltGap(d, vertexAngle).outerRing <==> IsSomeCopy(p, d, d.outerNodes, vertexAngle, d.outerAngle) {
      StoredCopies(d, d.outerNodes, vertexAngle, d.outerAngle, p);
    }
  }

  /** Signs are 1 all round a periodic gap, and 1 or -1 in an antiperiodic one. */
  ghost predicate GoodSign(d: Definition, s: Signed) {
    s.sign == 1.0 || (d.format == 1 && s.sign == -1.0)
  }

  lemma CyclicStored(ring: seq<RingPoint>, angle: real, spacing: real, i: int)
    requires ring != [] && spacing > 0.0
    ensures Cyclic(Stored(ring, angle, spacing), i).item == Cyclic(ring, i).item
  {
  }

  /** The brackets, too, hold the nodes and signs of neighbouring ring points. */
  lemma BuiltSigns(d: Definition, vertexAngle: seq<real>)
    requires Buildable(d, |vertexAngle|)
    ensures var g := BuiltGap(d, vertexAngle);
      && (forall i :: 0 <= i < |g.innerRing| ==> GoodSign(d, g.innerRing[i].item))
      && (forall i :: 0 <= i < |g.outerRing| ==> GoodSign(d, g.outerRing[i].item))
      && |g.quadrature| == d.n + 1
      && (forall i :: 0 <= i < |g.quadrature| ==>
            && GoodSign(d, g.quadrature[i].inner0) && GoodSign(d, g.quadrature[i].inner1)
            && GoodSign(d, g.quadrature[i].outer0) && GoodSign(d, g.quadrature[i].outer1))
  {
    var g, inner, outer := BuiltGap(d, vertexAngle), InnerRing(d, vertexAngle), OuterRing(d, vertexAngle);
    BuiltGapIs(d, vertexAngle);
    RingSizes(d, vertexAngle);
    forall i | 0 <= i < |g.innerRing| ensures GoodSign(d, g.innerRing[i].item) {
      assert IsSomeCopy(g.innerRing[i], d, d.innerNodes, vertexAngle, d.innerAngle);
    }
    forall i | 0 <= i < |g.outerRing| ensures GoodSign(d, g.outerRing[i].item) {
      assert IsSomeCopy(g.outerRing[i], d, d.outerNodes, vertexAngle, d.outerAngle);
    }
    forall i: int ensures GoodSign(d, Cyclic(inner, i).item) && GoodSign(d, Cyclic(outer, i).item) {
      CyclicStored(inner, d.innerAngle, Spacing(d), i);
      CyclicStored(outer, d.outerAngle, Spacing(d), i);
    }
  }

  /** The point lists while a copy is being appended. */
  ghost function PartialRing(points: seq<BoundaryPoint>, d: Definition, angle: real, copy: nat, i: nat): seq<RingPoint>
    requires CountsAgree(d) && GeometryFits(d) && i <= |points|
  {
    Relabeled(RawSlots(points, d.totalArcLength, angle, Spacing(d), copy)
              + RawBlock(points, d.totalArcLength, angle, Spacing(d), copy)[..i], LabelOf(d.format == 1))
  }

  method CollectRings(d: Definition, vertexAngle: seq<real>, copies: nat)
    returns (innerRing: seq<RingPoint>, outerRing: seq<RingPoint>)
    requires CountsAgree(d) && GeometryFits(d)
    requires NodesExist(d.innerNodes, |vertexAngle|) && NodesExist(d.outerNodes, |vertexAngle|)
    ensures innerRing == Relabeled(RawSlots(Points(d.innerNodes, vertexAngle), d.totalArcLength, d.innerAngle, Spacing(d), copies), LabelOf(d.format == 1))
    ensures outerRing == Relabeled(RawSlots(Points(d.outerNodes, vertexAngle), d.totalArcLength, d.outerAngle, Spacing(d), copies), LabelOf(d.format == 1))
  {
    innerRing, outerRing := [], [];
    var copy := 0;
    while copy < copies
      invariant 0 <= copy <= copies
      invariant innerRing == PartialRing(Points(d.innerNodes, vertexAngle), d, d.innerAngle, copy, 0)
      invariant outerRing == PartialRing(Points(d.outerNodes, vertexAngle), d, d.outerAngle, copy, 0)
    {
      innerRing, outerRing := CollectCopy(d, vertexAngle, copy, innerRing, outerRing);
      BlockIsWhole(Points(d.innerNodes, vertexAngle), d, d.innerAngle, copy);
      BlockIsWhole(Points(d.outerNodes, vertexAngle), d, d.outerAngle, copy);
      copy := copy + 1;
    }
  }

  lemma BlockIsWhole(points: seq<BoundaryPoint>, d: Definition, angle: real, copy: nat)
    requires CountsAgree(d) && GeometryFits(d)
    ensures PartialRing(points, d, angle, copy, |points|) == PartialRing(points, d, angle, copy + 1, 0)
  {
  }

  /** The points of one copy on both rings. */
  method CollectCopy(d: Definition, vertexAngle: seq<real>, copy: nat, inner: seq<RingPoint>, outer: seq<RingPoint>)
    returns (innerRing: seq<RingPoint>, outerRing: seq<RingPoint>)
    requires CountsAgree(d) && GeometryFits(d)
    requires NodesExist(d.innerNodes, |vertexAngle|) && NodesExist(d.outerNodes, |vertexAngle|)
    requires inner == PartialRing(Points(d.innerNodes, vertexAngle), d, d.innerAngle, copy, 0)
    requires outer == PartialRing(Points(d.outerNodes, vertexAngle), d, d.outerAngle, copy, 0)
    ensures innerRing == PartialRing(Points(d.innerNodes, vertexAngle), d, d.innerAngle, copy, d.n)
    ensures outerRing == PartialRing(Points(d.outerNodes, vertexAngle), d, d.outerAngle, copy, d.n)
  {
    innerRing, outerRing := inner, outer;
    var sign := if d.format == 1 && copy % 2 != 0 then -1.0 else 1.0;
    var i := 0;
    while i < d.n
      invariant 0 <= i <= d.n
      invariant innerRing == PartialRing(Points(d.innerNodes, vertexAngle), d, d.innerAngle, copy, i)
      invariant outerRing == PartialRing(Points(d.outerNodes, vertexAngle), d, d.outerAngle, copy, i)
    {
      NextPoint(d.innerNodes, vertexAngle, d, d.innerAngle, copy, i);
      NextPoint(d.outerNodes, vertexAngle, d, d.outerAngle, copy, i);
      innerRing := innerRing + [RingPointOf(d.innerNodes[i], sign, vertexAngle, d, d.innerAngle, copy)];
      outerRing := outerRing + [RingPointOf(d.outerNodes[i], sign, vertexAngle, d, d.outerAngle, copy)];
      i := i + 1;
    }
  }

  /** A copy of a node, turned with its ring. */
  function RingPointOf(node: int, sign: real, vertexAngle: seq<real>, d: Definition, angle: real, copy: nat): RingPoint
    requires CountsAgree(d) && GeometryFits(d) && 0 <= node < |vertexAngle|
  {
    Placed(Signed(node, sign), SlotPosition(Slot(copy, BoundaryPoint(node, vertexAngle[node])), d.totalArcLength, angle, Spacing(d)))
  }

  lemma NextPoint(nodes: seq<int>, vertexAngle: seq<real>, d: Definition, angle: real, copy: nat, i: nat)
    requires CountsAgree(d) && GeometryFits(d) && NodesExist(nodes, |vertexAngle|) && i < |nodes|
    ensures PartialRing(Points(nodes, vertexAngle), d, angle, copy, i + 1)
         == PartialRing(Points(nodes, vertexAngle), d, angle, copy, i)
            + [RingPointOf(nodes[i], CopySign(d.format == 1, copy), vertexAngle, d, angle, copy)]
  {
    var points := Points(nodes, vertexAngle);
    var raw, block := RawSlots(points, d.totalArcLength, angle, Spacing(d), copy), RawBlock(points, d.totalArcLength, angle, Spacing(d), copy);
    assert raw + block[..i + 1] == raw + block[..i] + [block[i]];
    RelabeledAppends(raw + block[..i], block[i], LabelOf(d.format == 1));
  }

  lemma RelabeledAppends(raw: seq<Placed<Slot>>, x: Placed<Slot>, f: Slot -> Signed)
    ensures Relabeled(raw + [x], f) == Relabeled(raw, f) + [Placed(f(x.item), x.position)]
  {
  }

  method EmitBrackets(innerRing: seq<RingPoint>, outerRing: seq<RingPoint>, n: nat) returns (quadrature: seq<Bracket>)
    requires |innerRing| == |outerRing| > 0
    ensures quadrature == Brackets(innerRing, outerRing, n)
  {
    var totalElements := |innerRing|;
    quadrature := [];
    var i := 0;
    while i <= n
      invariant 0 <= i <= n + 1
      invariant quadrature == Brackets(innerRing, outerRing, n)[..i]
    {
      var next := i % totalElements;
      var previous := if next == 0 then totalElements - 1 else next - 1;
      PreviousIndex(i, totalElements);
      quadrature := quadrature + [Bracket(innerRing[previous].item, innerRing[next].item,
                                          outerRing[previous].item, outerRing[next].item)];
      i := i + 1;
    }
  }

  /** The converter: a gap with full rings, or the first check that fails. */
  method BuildAirGap(d: Definition, vertexAngle: seq<real>) returns (r: Outcome<Gap, BuildError>)
    ensures r.Done? <==> Buildable(d, |vertexAngle|)
    ensures r.Done? ==> r.value == BuiltGap(d, vertexAngle)
    ensures r.Failed? ==> r.error == FirstError(d, |vertexAngle|)
  {
    if d.format != 0 && d.format != 1 {
      return Failed(InvalidPeriodicity);
    }
    if d.n <= 0 || |d.innerNodes| != |d.outerNodes| || |d.innerNodes| != d.n {
      return Failed(InconsistentCounts);
    }
    if d.ri < 0.0 || d.ro <= d.ri || d.totalArcLength <= 0.0 {
      return Failed(InvalidGeometry);
    }
    if !NodesExist(d.innerNodes, |vertexAngle|) {
      return Failed(InvalidInnerNode);
    }
    if !NodesExist(d.outerNodes, |vertexAngle|) {
      return Failed(InvalidOuterNode);
    }
    var tiles, copies := CheckTiling(d);
    if !tiles {
      return Failed(DoesNotTile);
    }
    var gap := UnrollGap(d, vertexAngle, copies);
    r := Done(gap);
  }

  /** Whether the sector tiles the annulus, and how many copies that takes. */
  method CheckTiling(d: Definition) returns (ok: bool, copies: int)
    requires CountsAgree(d) && GeometryFits(d)
    ensures ok == Tiles(d) && copies == Copies(d)
  {
    var spacing := Spacing(d);
    var fullElementCount := FULL_TURN / spacing;
    var copyCount := FULL_TURN / d.totalArcLength;
    var totalElements := Rounded(fullElementCount);
    copies := Rounded(copyCount);
    RoundedNonNegative(fullElementCount);
    RoundedNonNegative(copyCount);
    TotalPositive(copies, d.n);
    if totalElements == 0 || copies == 0
       || Distance(fullElementCount, totalElements as real) > TOLERANCE
       || Distance(copyCount, copies as real) > TOLERANCE
       || totalElements != copies * d.n
       || (d.format == 1 && copies % 2 != 0)
    {
      return false, copies;
    }
    ok := true;
  }

  /** The rings of a definition that passes all checks, and their brackets. */
  method UnrollGap(d: Definition, vertexAngle: seq<real>, copies: nat) returns (g: Gap)
    requires Buildable(d, |vertexAngle|) && copies == Copies(d)
    ensures g == BuiltGap(d, vertexAngle)
  {
    var spacing := Spacing(d);
    var innerRing, outerRing := CollectRings(d, vertexAngle, copies);
    innerRing, outerRing := StableSort(innerRing), StableSort(outerRing);
    RingSizes(d, vertexAngle);
    var quadrature := EmitBrackets(innerRing, outerRing, d.n);
    g := Gap(d.name, d.format == 1, d.totalArcLength, d.n,
             Stored(innerRing, d.innerAngle, spacing), Stored(outerRing, d.outerAngle, spacing),
             d.innerAngle, d.outerAngle, innerRing[0].position, outerRing[0].position, quadrature);
  }

  lemma RoundedNonNegative(x: real)
    requires x >= 0.0
    ensures Rounded(x) >= 0
  {
  }

  lemma TotalPositive(copies: int, n: int)
    requires n > 0 && copies >= 0
    ensures copies * n == 0 <==> copies == 0
  {
  }
}
