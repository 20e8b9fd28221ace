/** The sliding air gap: building the rings of a gap from one meshed sector, and
    repositioning a gap that was built before without meshing again. */
module AirGapRing {
  import opened Angles
  import opened StableOrder
  import opened RingTurning

  /** A boundary node with the sign that (anti)periodicity gives its copy. */
  datatype Signed = Signed(node: int, sign: real)

  type RingPoint = Placed<Signed>

  /** The ring points on either side of one annulus position, on both rings. */
  datatype Bracket = Bracket(inner0: Signed, inner1: Signed, outer0: Signed, outer1: Signed)

  /** A node of the meshed sector boundary and its angle about the gap centre, in degrees. */
  datatype BoundaryPoint = BoundaryPoint(node: int, natural: real)

  /** One of the copies of a boundary point that tile the annulus. */
  datatype Slot = Slot(copy: nat, point: BoundaryPoint)

  datatype Gap = Gap(
    name: string,
    antiperiodic: bool,
    totalArcLength: real,
    totalArcElements: nat,
    innerRing: seq<RingPoint>,
    outerRing: seq<RingPoint>,
    innerAngle: real,
    outerAngle: real,
    innerShift: real,
    outerShift: real,
    quadrature: seq<Bracket>)

  function Cyclic<T>(ring: seq<T>, i: int): T
    requires ring != []
  {
    ring[i % |ring|]
  }

  /** The bracket at annulus position `i`: ring points `i - 1` and `i`, taken around the ring. */
  function BracketAt(inner: seq<RingPoint>, outer: seq<RingPoint>, i: int): Bracket
    requires inner != [] && outer != []
  {
    Bracket(Cyclic(inner, i - 1).item, Cyclic(inner, i).item, Cyclic(outer, i - 1).item, Cyclic(outer, i).item)
  }

  /** The brackets of positions 0 to `n`, both included. */
  function Brackets(inner: seq<RingPoint>, outer: seq<RingPoint>, n: nat): seq<Bracket>
    requires inner != [] && outer != []
  {
    seq(n + 1, i requires 0 <= i <= n => BracketAt(inner, outer, i))
  }

  lemma NextBracket(inner: seq<RingPoint>, outer: seq<RingPoint>, n: nat, i: nat)
    requires inner != [] && outer != [] && i <= n
    ensures Brackets(inner, outer, n)[..i + 1] == Brackets(inner, outer, n)[..i] + [BracketAt(inner, outer, i)]
  {
  }

  // ----- building a ring

  function CopySign(antiperiodic: bool, copy: nat): real {
    if antiperiodic && copy % 2 != 0 then -1.0 else 1.0
  }

  /** The angle of a copy of a boundary point before the ring is rotated. */
  function CopyAngle(slot: Slot, arcLength: real): real {
    slot.point.natural + slot.copy as real * arcLength
  }

  /** Where a copy of a boundary point stands once the ring is rotated by `angle`. */
  function SlotPosition(slot: Slot, arcLength: real, angle: real, spacing: real): real
    requires spacing > 0.0
  {
    CanonicalDegrees(CopyAngle(slot, arcLength) + angle) / spacing
  }

  function RawBlock(points: seq<BoundaryPoint>, arcLength: real, angle: real, spacing: real, copy: nat): seq<Placed<Slot>>
    requires spacing > 0.0
  {
    seq(|points|, i requires 0 <= i < |points| =>
      Placed(Slot(copy, points[i]), SlotPosition(Slot(copy, points[i]), arcLength, angle, spacing)))
  }

  /** All copies of all points, copy by copy, before sorting. */
  function RawSlots(points: seq<BoundaryPoint>, arcLength: real, angle: real, spacing: real, copies: nat): seq<Placed<Slot>>
    requires spacing > 0.0
  {
    if copies == 0 then [] else
      RawSlots(points, arcLength, angle, spacing, copies - 1) + RawBlock(points, arcLength, angle, spacing, copies - 1)
  }

  function LabelOf(antiperiodic: bool): Slot -> Signed {
    (slot: Slot) => Signed(slot.point.node, CopySign(antiperiodic, slot.copy))
  }

  /** The full ring of a gap whose sector is rotated by `angle`. */
  function BuiltRing(points: seq<BoundaryPoint>, antiperiodic: bool, arcLength: real, angle: real, spacing: real, copies: nat): seq<RingPoint>
    requires spacing > 0.0
  {
    StableSort(Relabeled(RawSlots(points, arcLength, angle, spacing, copies), LabelOf(antiperiodic)))
  }

  /** Stored relative to the unrotated gap, so that a later rotation can be applied from zero. */
  function Stored(ring: seq<RingPoint>, angle: real, spacing: real): seq<RingPoint>
    requires spacing > 0.0
  {
    seq(|ring|, i requires 0 <= i < |ring| => Placed(ring[i].item, ring[i].position - angle / spacing))
  }

  lemma RawSlotsLength(points: seq<BoundaryPoint>, arcLength: real, angle: real, spacing: real, copies: nat)
    requires spacing > 0.0
    ensures |RawSlots(points, arcLength, angle, spacing, copies)| == copies * |points|
  {
    if copies > 0 {
      RawSlotsLength(points, arcLength, angle, spacing, copies - 1);
      assert copies * |points| == (copies - 1) * |points| + |points|;
    }
  }

  // ----- reuse refines rebuild

  lemma WrappedCanonical(x: real, d: real, spacing: real)
    requires spacing > 0.0
    ensures Wrapped(CanonicalDegrees(x) / spacing, spacing, d) == CanonicalDegrees(x + d) / spacing
  {
    DegreesOfWrapped(x, spacing);
    CanonicalAbsorbs(x, d);
  }

  lemma SlotTurned(slot: Slot, arcLength: real, a: real, b: real, spacing: real)
    requires spacing > 0.0
    ensures Wrapped(SlotPosition(slot, arcLength, a, spacing), spacing, b - a) == SlotPosition(slot, arcLength, b, spacing)
  {
    WrappedCanonical(CopyAngle(slot, arcLength) + a, b - a, spacing);
    assert CopyAngle(slot, arcLength) + a + (b - a) == CopyAngle(slot, arcLength) + b;
  }

  lemma {:induction false} RawSlotsTurned(points: seq<BoundaryPoint>, arcLength: real, a: real, b: real, spacing: real, copies: nat)
    requires spacing > 0.0
    ensures Turned(RawSlots(points, arcLength, a, spacing, copies), spacing, b - a) == RawSlots(points, arcLength, b, spacing, copies)
  {
    if copies > 0 {
      RawSlotsTurned(points, arcLength, a, b, spacing, copies - 1);
      var init := RawSlots(points, arcLength, a, spacing, copies - 1);
      var block := RawBlock(points, arcLength, a, spacing, copies - 1);
      assert Turned(init + block, spacing, b - a) == Turned(init, spacing, b - a) + Turned(block, spacing, b - a);
      var turned, rebuilt := Turned(block, spacing, b - a), RawBlock(points, arcLength, b, spacing, copies - 1);
      forall i | 0 <= i < |block| ensures turned[i] == rebuilt[i]
      {
        SlotTurned(Slot(copies - 1, points[i]), arcLength, a, b, spacing);
      }
    }
  }

  lemma RawSlotsWithinTurn(points: seq<BoundaryPoint>, arcLength: real, angle: real, spacing: real, copies: nat)
    requires spacing > 0.0
    ensures WithinTurn(RawSlots(points, arcLength, angle, spacing, copies), spacing, 0.0)
  {
    if copies > 0 {
      RawSlotsWithinTurn(points, arcLength, angle, spacing, copies - 1);
      var block := RawBlock(points, arcLength, angle, spacing, copies - 1);
      forall i | 0 <= i < |block|
        ensures 0.0 <= Degrees(block[i].position, spacing) < FULL_TURN
      {
        DegreesOfWrapped(CopyAngle(block[i].item, arcLength) + angle, spacing);
      }
    }
  }

  lemma StoredTurned(ring: seq<RingPoint>, a: real, b: real, spacing: real)
    requires spacing > 0.0
    ensures Turned(Stored(ring, a, spacing), spacing, b) == Turned(ring, spacing, b - a)
  {
    forall i | 0 <= i < |ring|
      ensures Wrapped(ring[i].position - a / spacing, spacing, b) == Wrapped(ring[i].position, spacing, b - a)
    {
      DegreesOfDifference(ring[i].position, a, spacing);
    }
  }

  lemma DegreesOfDifference(p: real, a: real, spacing: real)
    requires spacing > 0.0
    ensures Degrees(p - a / spacing, spacing) == Degrees(p, spacing) - a
  {
    MulDiv(a, spacing);
  }

  lemma RelabeledTurned(raw: seq<Placed<Slot>>, f: Slot -> Signed, spacing: real, angle: real)
    requires spacing > 0.0
    ensures Turned(Relabeled(raw, f), spacing, angle) == Relabeled(Turned(raw, spacing, angle), f)
  {
  }

  /** Rotating the stored ring gives exactly the ring that building at the new angle gives:
      same nodes, same signs, same positions, same order, ties included. */
  lemma ReuseIsRebuild(points: seq<BoundaryPoint>, antiperiodic: bool, arcLength: real, a: real, b: real, spacing: real, copies: nat)
    requires spacing > 0.0
    ensures Repositioned(Stored(BuiltRing(points, antiperiodic, arcLength, a, spacing, copies), a, spacing), spacing, b)
         == BuiltRing(points, antiperiodic, arcLength, b, spacing, copies)
  {
    var raw := RawSlots(points, arcLength, a, spacing, copies);
    var signed := Relabeled(raw, LabelOf(antiperiodic));
    StoredTurned(StableSort(signed), a, b, spacing);
    RawSlotsWithinTurn(points, arcLength, a, spacing, copies);
    assert WithinTurn(signed, spacing, 0.0);
    SortingFirstIsHarmless(signed, spacing, b - a, 0.0);
    RawSlotsTurned(points, arcLength, a, b, spacing, copies);
    RelabeledTurned(raw, LabelOf(antiperiodic), spacing, b - a);
  }

  /** A stored ring is in order and spans less than one turn. */
  lemma StoredIsSorted(points: seq<BoundaryPoint>, antiperiodic: bool, arcLength: real, a: real, spacing: real, copies: nat)
    requires spacing > 0.0
    ensures var stored := Stored(BuiltRing(points, antiperiodic, arcLength, a, spacing, copies), a, spacing);
      Ascending(stored) && (stored != [] ==> WithinTurn(stored, spacing, Degrees(stored[0].position, spacing)))
  {
    var raw := RawSlots(points, arcLength, a, spacing, copies);
    var signed := Relabeled(raw, LabelOf(antiperiodic));
    var ring := StableSort(signed);
    var stored := Stored(ring, a, spacing);
    RawSlotsWithinTurn(points, arcLength, a, spacing, copies);
    forall i | 0 <= i < |ring|
      ensures 0.0 <= Degrees(ring[i].position, spacing) < FULL_TURN
      ensures Degrees(stored[i].position, spacing) == Degrees(ring[i].position, spacing) - a
      ensures Degrees(ring[0].position, spacing) <= Degrees(ring[i].position, spacing)
    {
      SameMembers(signed, ring, ring[i]);
      var j :| 0 <= j < |signed| && signed[j] == ring[i];
      assert raw[j].position == ring[i].position;
      DegreesOfDifference(ring[i].position, a, spacing);
      MulMonotone(ring[0].position, ring[i].position, spacing);
    }
  }

  /** Each repositioning of a stored ring yields a cyclic rotation of its nodes and signs. */
  lemma ReuseRotates(points: seq<BoundaryPoint>, antiperiodic: bool, arcLength: real, a: real, b: real, spacing: real, copies: nat)
    returns (k: nat)
    requires spacing > 0.0
    ensures var stored := Stored(BuiltRing(points, antiperiodic, arcLength, a, spacing, copies), a, spacing);
      && k <= |stored|
      && Repositioned(stored, spacing, b) == RotatedLeft(Turned(stored, spacing, b), k)
  {
    var stored := Stored(BuiltRing(points, antiperiodic, arcLength, a, spacing, copies), a, spacing);
    StoredIsSorted(points, antiperiodic, arcLength, a, spacing, copies);
    if stored == [] {
      k := 0;
    } else {
      k := RepositionedIsRotation(stored, spacing, b);
    }
  }
}
