/** Gaps built from evenly spaced sectors are the evenly spaced gaps that buckets cover. */
module EvenGaps {
  import opened Angles
  import opened Modular
  import opened StableOrder
  import opened RingTurning
  import opened AirGapRing
  import opened AirGapBuild
  import opened AirGapPosition
  import opened Tiling
  import opened EntryOrder
  import opened Stencil
  import opened Crossing
  import opened Bucket

  /** The sorted sector has its points one element apart. */
  ghost predicate EvenSector(points: seq<BoundaryPoint>, arcLength: real, angle: real, spacing: real)
    requires arcLength > 0.0 && spacing > 0.0
  {
    var sector := SortedSector(points, arcLength, angle, spacing);
    forall j :: 0 <= j < |sector| ==> sector[j].position == sector[0].position + j as real
  }

  lemma EvenBlocks(sector: seq<Placed<BoundaryPoint>>, arcLength: real, angle: real, copies: nat, antiperiodic: bool, t: nat, j: nat)
    requires arcLength > 0.0 && t < copies && j < |sector|
    requires sector[j].position == sector[0].position + j as real
    ensures SectorRingPoint(sector, arcLength, angle, copies, antiperiodic, t, j).position == sector[0].position + (t * |sector| + j) as real
  {
  }

  lemma EvenRing(points: seq<BoundaryPoint>, antiperiodic: bool, arcLength: real, angle: real, spacing: real, n: nat, copies: nat, k: nat)
    requires ExactTiling(arcLength, spacing, n, copies) && |points| == n && Untangled(points, arcLength, copies)
    requires EvenSector(points, arcLength, angle, spacing)
    ensures var ring := BuiltRing(points, antiperiodic, arcLength, angle, spacing, copies);
      && |ring| == copies * n
      && (k < |ring| ==> ring[k].position == SortedSector(points, arcLength, angle, spacing)[0].position + k as real)
  {
    var sector := SortedSector(points, arcLength, angle, spacing);
    BuiltRingIs(points, antiperiodic, arcLength, angle, spacing, n, copies);
    LabeledUnrolledPoint(sector, arcLength, angle, copies, antiperiodic, 0, 0);
    if k < copies * n {
      SplitIndex(k, n, copies);
      LabeledUnrolledPoint(sector, arcLength, angle, copies, antiperiodic, k / n, k % n);
      EvenBlocks(sector, arcLength, angle, copies, antiperiodic, k / n, k % n);
    }
  }

  lemma StoredNodePeriodic(ring: seq<RingPoint>, n: nat, antiperiodic: bool, angle: real, spacing: real)
    requires spacing > 0.0 && QuasiPeriodic(ring, n, antiperiodic)
    ensures NodePeriodic(Stored(ring, angle, spacing), n)
  {
    QuasiPeriodicNodes(ring, n, antiperiodic);
    forall i: int ensures NodeRepeats(Stored(ring, angle, spacing), n, i) {
      assert NodeRepeats(ring, n, i);
    }
  }

  /** A stored ring of an evenly spaced, exactly tiling sector is even and repeats sector by sector. */
  lemma StoredRingIsEven(points: seq<BoundaryPoint>, antiperiodic: bool, arcLength: real, angle: real, spacing: real, n: nat, copies: nat)
    requires ExactTiling(arcLength, spacing, n, copies) && |points| == n && Untangled(points, arcLength, copies)
    requires antiperiodic ==> copies % 2 == 0
    requires EvenSector(points, arcLength, angle, spacing)
    ensures var stored := Stored(BuiltRing(points, antiperiodic, arcLength, angle, spacing, copies), angle, spacing);
      |stored| == copies * n && Uniform(stored, spacing) && NodePeriodic(stored, n)
  {
    var ring := BuiltRing(points, antiperiodic, arcLength, angle, spacing, copies);
    BuiltRingIsQuasiPeriodic(points, antiperiodic, arcLength, angle, spacing, n, copies);
    StoredNodePeriodic(ring, n, antiperiodic, angle, spacing);
    FullTurnOfElements(arcLength, spacing, n, copies);
    forall i | 0 <= i < |ring| ensures ring[i].position == ring[0].position + i as real {
      EvenRing(points, antiperiodic, arcLength, angle, spacing, n, copies, 0);
      EvenRing(points, antiperiodic, arcLength, angle, spacing, n, copies, i);
    }
    StoredStaysEven(ring, angle, spacing);
  }

  lemma FullTurnOfElements(arcLength: real, spacing: real, n: nat, copies: nat)
    requires ExactTiling(arcLength, spacing, n, copies)
    ensures Arc(copies * n, spacing) == FULL_TURN
  {
    ArcProduct(copies, n, spacing);
  }

  lemma StoredStaysEven(ring: seq<RingPoint>, angle: real, spacing: real)
    requires ring != [] && spacing > 0.0 && Arc(|ring|, spacing) == FULL_TURN
    requires forall i :: 0 <= i < |ring| ==> ring[i].position == ring[0].position + i as real
    ensures Uniform(Stored(ring, angle, spacing), spacing)
  {
  }

  /** What the converter builds from evenly spaced sectors that fill the turn. */
  lemma BuiltGapIsEven(d: Definition, vertexAngle: seq<real>)
    requires Buildable(d, |vertexAngle|)
    requires ExactTiling(d.totalArcLength, Spacing(d), d.n, Copies(d))
    requires Untangled(Points(d.innerNodes, vertexAngle), d.totalArcLength, Copies(d))
    requires Untangled(Points(d.outerNodes, vertexAngle), d.totalArcLength, Copies(d))
    requires EvenSector(Points(d.innerNodes, vertexAngle), d.totalArcLength, d.innerAngle, Spacing(d))
    requires EvenSector(Points(d.outerNodes, vertexAngle), d.totalArcLength, d.outerAngle, Spacing(d))
    ensures EvenGap(BuiltGap(d, vertexAngle))
  {
    RingSizes(d, vertexAngle);
    StepIsSpacing(d, vertexAngle);
    StoredRingIsEven(Points(d.innerNodes, vertexAngle), d.format == 1, d.totalArcLength, d.innerAngle, Spacing(d), d.n, Copies(d));
    StoredRingIsEven(Points(d.outerNodes, vertexAngle), d.format == 1, d.totalArcLength, d.outerAngle, Spacing(d), d.n, Copies(d));
  }

  /** The sector brackets of a built gap, read with the field evaluation's sign corrections, are
      the stencils of its full rings, for every slice. */
  lemma BuiltStencils(d: Definition, vertexAngle: seq<real>, k: nat)
    requires Buildable(d, |vertexAngle|) && k < d.n
    requires ExactTiling(d.totalArcLength, Spacing(d), d.n, Copies(d))
    requires Untangled(Points(d.innerNodes, vertexAngle), d.totalArcLength, Copies(d))
    requires Untangled(Points(d.outerNodes, vertexAngle), d.totalArcLength, Copies(d))
    ensures InnerRing(d, vertexAngle) != [] && OuterRing(d, vertexAngle) != []
    ensures CorrectedStencil(BuiltGap(d, vertexAngle).quadrature, d.n, d.format == 1, k)
         == RingStencil(InnerRing(d, vertexAngle), OuterRing(d, vertexAngle), k)
  {
    RingSizes(d, vertexAngle);
    BuiltRingIsQuasiPeriodic(Points(d.innerNodes, vertexAngle), d.format == 1, d.totalArcLength, d.innerAngle, Spacing(d), d.n, Copies(d));
    BuiltRingIsQuasiPeriodic(Points(d.outerNodes, vertexAngle), d.format == 1, d.totalArcLength, d.outerAngle, Spacing(d), d.n, Copies(d));
    StencilIsFullRing(InnerRing(d, vertexAngle), OuterRing(d, vertexAngle), d.n, d.format == 1, k);
  }

  // ----- what the converter builds can be positioned

  lemma {:induction false} SlotsWithin(points: seq<BoundaryPoint>, arcLength: real, angle: real, spacing: real, copies: nat, nodeCount: nat)
    requires spacing > 0.0 && forall i :: 0 <= i < |points| ==> 0 <= points[i].node < nodeCount
    ensures forall i :: 0 <= i < |RawSlots(points, arcLength, angle, spacing, copies)| ==>
      0 <= RawSlots(points, arcLength, angle, spacing, copies)[i].item.point.node < nodeCount
  {
    if copies > 0 {
      SlotsWithin(points, arcLength, angle, spacing, copies - 1, nodeCount);
    }
  }

  lemma BuiltRingWithin(points: seq<BoundaryPoint>, antiperiodic: bool, arcLength: real, angle: real, spacing: real, copies: nat, nodeCount: nat)
    requires spacing > 0.0 && forall i :: 0 <= i < |points| ==> 0 <= points[i].node < nodeCount
    ensures RingWithin(BuiltRing(points, antiperiodic, arcLength, angle, spacing, copies), nodeCount)
  {
    var raw := Relabeled(RawSlots(points, arcLength, angle, spacing, copies), LabelOf(antiperiodic));
    SlotsWithin(points, arcLength, angle, spacing, copies, nodeCount);
    forall i | 0 <= i < |StableSort(raw)| ensures 0 <= StableSort(raw)[i].item.node < nodeCount {
      SameMembers(raw, StableSort(raw), StableSort(raw)[i]);
    }
  }

  lemma BracketsWithin(inner: seq<RingPoint>, outer: seq<RingPoint>, n: nat, nodeCount: nat)
    requires inner != [] && outer != [] && RingWithin(inner, nodeCount) && RingWithin(outer, nodeCount)
    ensures NodesWithin(Brackets(inner, outer, n), nodeCount)
  {
  }

  /** A built gap meets everything the solver relies on in the gaps of its mesh. */
  lemma BuiltGapIsImported(d: Definition, vertexAngle: seq<real>)
    requires Buildable(d, |vertexAngle|)
    ensures Imported(BuiltGap(d, vertexAngle), |vertexAngle|)
  {
    RingSizes(d, vertexAngle);
    BuiltRingWithin(Points(d.innerNodes, vertexAngle), d.format == 1, d.totalArcLength, d.innerAngle, Spacing(d), Copies(d), |vertexAngle|);
    BuiltRingWithin(Points(d.outerNodes, vertexAngle), d.format == 1, d.totalArcLength, d.outerAngle, Spacing(d), Copies(d), |vertexAngle|);
    BracketsWithin(InnerRing(d, vertexAngle), OuterRing(d, vertexAngle), d.n, |vertexAngle|);
  }

  // ----- a gap whose rings do not repeat

  /** Two sectors of half a turn, each with a point at 10 and one at 190 degrees. */
  const TANGLED: Definition := Definition("gap", 0, 2, [0, 1], [0, 1], 0.0, 0.0, 1.0, 2.0, 180.0)
  const TANGLED_ANGLES: seq<real> := [10.0, 190.0]

  lemma TangledIsTiling()
    ensures Buildable(TANGLED, 2) && Spacing(TANGLED) == 90.0 && Copies(TANGLED) == 2 && ExactTiling(180.0, 90.0, 2, 2)
  {
    assert FULL_TURN / 180.0 == 2.0 && Rounded(2.0) == 2;
    assert FULL_TURN / 90.0 == 4.0 && Rounded(4.0) == 4;
  }

  lemma TangledTies()
    ensures SectorIndex(10.0, 180.0) == 0 && SectorIndex(190.0, 180.0) == 1
    ensures SectorOffset(10.0, 180.0) == SectorOffset(190.0, 180.0)
  {
    SectorUnique(10.0, 0, 10.0, 180.0);
    SectorUnique(190.0, 1, 10.0, 180.0);
  }

  /** The converter accepts a definition whose sectors tie; its rings do not repeat. */
  lemma TangledGapIsBuilt()
    ensures Buildable(TANGLED, 2) && !Untangled(Points([0, 1], TANGLED_ANGLES), 180.0, 2)
    ensures !QuasiPeriodic(InnerRing(TANGLED, TANGLED_ANGLES), 2, false)
  {
    TangledIsTiling();
    TangledTies();
    var points := Points([0, 1], TANGLED_ANGLES);
    assert points == [BoundaryPoint(0, 10.0), BoundaryPoint(1, 190.0)];
    assert points[0].natural == 10.0 && points[1].natural == 190.0;
    assert !Untangled(points, 180.0, 2);
    QuasiPeriodicIffUntangled(points, false, 180.0, 0.0, 90.0, 2, 2);
  }
}
