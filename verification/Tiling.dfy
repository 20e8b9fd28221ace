/** The sector copies tile the annulus: what the sorted full ring looks like when the
    copies fill one turn exactly. */
module Tiling {
  import opened Angles
  import opened Modular
  import opened StableOrder
  import opened RingTurning
  import opened AirGapRing

  /** `k` sectors of `arcLength` degrees. */
  function Arc(k: int, arcLength: real): real {
    k as real * arcLength
  }

  function SectorIndex(x: real, arcLength: real): int
    requires arcLength > 0.0
  {
    (x / arcLength).Floor
  }

  function SectorOffset(x: real, arcLength: real): real
    requires arcLength > 0.0
  {
    x - Arc(SectorIndex(x, arcLength), arcLength)
  }

  /** The copies fill one turn, and each of the sector's elements has length `spacing`. */
  ghost predicate ExactTiling(arcLength: real, spacing: real, n: nat, copies: nat) {
    && n > 0 && copies > 0
    && arcLength > 0.0 && spacing > 0.0
    && Arc(copies, arcLength) == FULL_TURN
    && Arc(n, spacing) == arcLength
  }

  // ----- arithmetic of sectors

  lemma OffsetInSector(x: real, arcLength: real)
    requires arcLength > 0.0
    ensures 0.0 <= SectorOffset(x, arcLength) < arcLength
  {
    var f := x / arcLength;
    var rest := f - f.Floor as real;
    MulDiv(x, arcLength);
    assert SectorOffset(x, arcLength) == rest * arcLength;
    ProductBelow(rest, arcLength);
  }

  lemma ProductBelow(u: real, v: real)
    requires 0.0 <= u < 1.0 && v > 0.0
    ensures 0.0 <= u * v < v
  {
    assert (1.0 - u) * v > 0.0;
  }

  lemma ArcSum(j: int, k: int, arcLength: real)
    ensures Arc(j + k, arcLength) == Arc(j, arcLength) + Arc(k, arcLength)
  {
  }

  lemma ArcProduct(q: int, copies: int, arcLength: real)
    ensures Arc(q * copies, arcLength) == q as real * Arc(copies, arcLength)
  {
    assert (q * copies) as real == q as real * copies as real;
  }

  lemma ArcMonotone(j: int, k: int, arcLength: real)
    requires j <= k && arcLength > 0.0
    ensures Arc(j, arcLength) <= Arc(k, arcLength)
  {
  }

  lemma SectorUnique(x: real, k: int, offset: real, arcLength: real)
    requires arcLength > 0.0 && x == offset + Arc(k, arcLength) && 0.0 <= offset < arcLength
    ensures SectorIndex(x, arcLength) == k && SectorOffset(x, arcLength) == offset
  {
    OffsetInSector(x, arcLength);
    var j := SectorIndex(x, arcLength);
    ArcSum(j - k, k, arcLength);
    if j > k { ArcMonotone(1, j - k, arcLength); }
    if j < k { ArcMonotone(j - k, -1, arcLength); }
  }

  /** Wrapping `offset + k sectors` to one turn takes the sector count modulo the copies. */
  lemma SectorInTurn(offset: real, t: nat, arcLength: real, copies: nat)
    requires t < copies && arcLength > 0.0 && Arc(copies, arcLength) == FULL_TURN && 0.0 <= offset < arcLength
    ensures 0.0 <= offset + Arc(t, arcLength) < FULL_TURN
  {
    ArcSum(1, copies - 1, arcLength);
    ArcMonotone(t, copies - 1, arcLength);
    ArcMonotone(0, t, arcLength);
  }

  lemma {:induction false} CanonicalOfSectors(offset: real, k: int, arcLength: real, copies: nat)
    requires copies > 0 && arcLength > 0.0 && Arc(copies, arcLength) == FULL_TURN
    requires 0.0 <= offset < arcLength
    ensures CanonicalDegrees(offset + Arc(k, arcLength)) == offset + Arc(k % copies, arcLength)
  {
    var q, t := k / copies, k % copies;
    DivMod(k, copies);
    ArcSum(q * copies, t, arcLength);
    ArcProduct(q, copies, arcLength);
    SectorInTurn(offset, t, arcLength, copies);
    CanonicalOfWholeTurns(offset + Arc(t, arcLength), q);
    CanonicalFixed(offset + Arc(t, arcLength));
  }

  lemma ElementsOfSectors(offset: real, t: int, arcLength: real, spacing: real, n: nat)
    requires spacing > 0.0 && n > 0 && Arc(n, spacing) == arcLength
    ensures (offset + Arc(t, arcLength)) / spacing == offset / spacing + (t * n) as real
  {
    ArcProduct(t, n, spacing);
    var x := (t * n) as real;
    assert Arc(t, arcLength) == x * spacing;
    QuotientSum(offset, x, spacing);
  }

  lemma QuotientSum(offset: real, x: real, spacing: real)
    requires spacing > 0.0
    ensures (offset + x * spacing) / spacing == offset / spacing + x
  {
    MulDiv(offset, spacing);
    MulDiv(offset + x * spacing, spacing);
    var l, r := (offset + x * spacing) / spacing, offset / spacing + x;
    assert r * spacing == offset / spacing * spacing + x * spacing;
    MulInjective(l, r, spacing);
  }

  // ----- where each copy of a point stands

  /** The place of a point within its sector once rotated, in elements. */
  function Place(point: BoundaryPoint, arcLength: real, angle: real, spacing: real): real
    requires arcLength > 0.0 && spacing > 0.0
  {
    SectorOffset(point.natural + angle, arcLength) / spacing
  }

  /** The sector in which a copy of a point stands once rotated. */
  function SectorOf(slot: Slot, arcLength: real, angle: real, copies: nat): int
    requires arcLength > 0.0 && copies > 0
  {
    (SectorIndex(slot.point.natural + angle, arcLength) + slot.copy) % copies
  }

  lemma PlaceInSector(point: BoundaryPoint, arcLength: real, angle: real, spacing: real, n: nat, copies: nat)
    requires ExactTiling(arcLength, spacing, n, copies)
    ensures 0.0 <= Place(point, arcLength, angle, spacing) < n as real
  {
    var offset := SectorOffset(point.natural + angle, arcLength);
    OffsetInSector(point.natural + angle, arcLength);
    QuotientSum(0.0, n as real, spacing);
    DivMonotone(0.0, offset, spacing);
    DivMonotone(offset, arcLength, spacing);
  }

  lemma SlotStandsAt(slot: Slot, arcLength: real, angle: real, spacing: real, n: nat, copies: nat)
    requires ExactTiling(arcLength, spacing, n, copies)
    ensures SlotPosition(slot, arcLength, angle, spacing)
         == Place(slot.point, arcLength, angle, spacing) + (SectorOf(slot, arcLength, angle, copies) * n) as real
  {
    var x := slot.point.natural + angle;
    var m, offset := SectorIndex(x, arcLength), SectorOffset(x, arcLength);
    OffsetInSector(x, arcLength);
    ArcSum(m, slot.copy, arcLength);
    var t := (m + slot.copy) % copies;
    assert CopyAngle(slot, arcLength) + angle == offset + Arc(m + slot.copy, arcLength);
    CanonicalOfSectors(offset, m + slot.copy, arcLength, copies);
    assert SlotPosition(slot, arcLength, angle, spacing) == (offset + Arc(t, arcLength)) / spacing;
    ElementsOfSectors(offset, t, arcLength, spacing, n);
  }

  /** Places and sectors are read off a position unambiguously. */
  lemma PositionDecodes(x: real, s: int, y: real, t: int, n: nat)
    requires n > 0 && 0.0 <= x < n as real && 0.0 <= y < n as real
    ensures x + (s * n) as real == y + (t * n) as real <==> x == y && s == t
  {
    if x + (s * n) as real == y + (t * n) as real {
      assert (s - t) * n == s * n - t * n;
      assert ((s - t) * n) as real == y - x;
      SmallMultipleIsZero(s - t, n);
    }
  }

  // ----- ties

  /** Points that share a place in their sectors are whole turns apart. */
  ghost predicate Untangled(points: seq<BoundaryPoint>, arcLength: real, copies: nat)
    requires arcLength > 0.0 && copies > 0
  {
    forall i, j :: 0 <= i < |points| && 0 <= j < |points|
        && SectorOffset(points[i].natural, arcLength) == SectorOffset(points[j].natural, arcLength)
      ==> (SectorIndex(points[i].natural, arcLength) - SectorIndex(points[j].natural, arcLength)) % copies == 0
  }

  /** Rotation neither makes nor breaks ties, and keeps the sector distance of tied points. */
  lemma RotationKeepsTies(x: real, y: real, angle: real, arcLength: real)
    requires arcLength > 0.0
    ensures SectorOffset(x + angle, arcLength) == SectorOffset(y + angle, arcLength) ==>
              && SectorOffset(x, arcLength) == SectorOffset(y, arcLength)
              && SectorIndex(x + angle, arcLength) - SectorIndex(y + angle, arcLength)
                 == SectorIndex(x, arcLength) - SectorIndex(y, arcLength)
  {
    if SectorOffset(x + angle, arcLength) == SectorOffset(y + angle, arcLength) {
      var d := SectorIndex(x + angle, arcLength) - SectorIndex(y + angle, arcLength);
      ArcSum(d, SectorIndex(y + angle, arcLength), arcLength);
      ArcSum(d, SectorIndex(y, arcLength), arcLength);
      OffsetInSector(y, arcLength);
      SectorUnique(x, d + SectorIndex(y, arcLength), SectorOffset(y, arcLength), arcLength);
    }
  }

  lemma PlaceIsOffset(p: BoundaryPoint, q: BoundaryPoint, arcLength: real, angle: real, spacing: real)
    requires arcLength > 0.0 && spacing > 0.0
    ensures Place(p, arcLength, angle, spacing) == Place(q, arcLength, angle, spacing)
       <==> SectorOffset(p.natural + angle, arcLength) == SectorOffset(q.natural + angle, arcLength)
  {
    DivInjective(SectorOffset(p.natural + angle, arcLength), SectorOffset(q.natural + angle, arcLength), spacing);
  }

  /** In an untangled sector, copies of tied points stand in the same sector exactly when they are the same copy. */
  lemma TiedCopies(points: seq<BoundaryPoint>, i: nat, j: nat, arcLength: real, angle: real, spacing: real, copies: nat)
    requires arcLength > 0.0 && spacing > 0.0 && copies > 0 && i < |points| && j < |points|
    requires Untangled(points, arcLength, copies)
    requires Place(points[i], arcLength, angle, spacing) == Place(points[j], arcLength, angle, spacing)
    ensures SectorIndex(points[i].natural + angle, arcLength) % copies == SectorIndex(points[j].natural + angle, arcLength) % copies
  {
    PlaceIsOffset(points[i], points[j], arcLength, angle, spacing);
    RotationKeepsTies(points[i].natural, points[j].natural, angle, arcLength);
    var mi, mj := SectorIndex(points[i].natural + angle, arcLength), SectorIndex(points[j].natural + angle, arcLength);
    DivMod(mi - mj, copies);
    ModAdd(mj, (mi - mj) / copies, copies);
  }

  /** The copy of a point that stands in sector `t`. */
  function CopyIn(t: int, point: BoundaryPoint, arcLength: real, angle: real, copies: nat): (c: nat)
    requires arcLength > 0.0 && copies > 0
    ensures c < copies
  {
    (t - SectorIndex(point.natural + angle, arcLength)) % copies
  }

  lemma CopyInIsUnique(t: int, copy: int, m: int, copies: nat)
    requires copies > 0 && 0 <= t < copies && 0 <= copy < copies
    ensures (m + copy) % copies == t <==> copy == (t - m) % copies
  {
    DivMod(m + copy, copies);
    DivMod(t - m, copies);
    if (m + copy) % copies == t {
      assert t - m == (-((m + copy) / copies)) * copies + copy;
      ModUnique(t - m, copies, -((m + copy) / copies), copy);
    }
    if copy == (t - m) % copies {
      assert m + copy == (-((t - m) / copies)) * copies + t;
      ModUnique(m + copy, copies, -((t - m) / copies), t);
    }
  }

  // ----- the unrolled ring

  /** The sector's points at their places, in the definition's order. */
  function SectorPlaces(points: seq<BoundaryPoint>, arcLength: real, angle: real, spacing: real): seq<Placed<BoundaryPoint>>
    requires arcLength > 0.0 && spacing > 0.0
  {
    seq(|points|, i requires 0 <= i < |points| => Placed(points[i], Place(points[i], arcLength, angle, spacing)))
  }

  function UnrolledPoint(p: Placed<BoundaryPoint>, arcLength: real, angle: real, n: nat, copies: nat, t: nat): Placed<Slot>
    requires arcLength > 0.0 && copies > 0
  {
    Placed(Slot(CopyIn(t, p.item, arcLength, angle, copies), p.item), p.position + (t * n) as real)
  }

  function UnrolledBlock(sector: seq<Placed<BoundaryPoint>>, arcLength: real, angle: real, copies: nat, t: nat): seq<Placed<Slot>>
    requires arcLength > 0.0 && copies > 0
  {
    seq(|sector|, j requires 0 <= j < |sector| => UnrolledPoint(sector[j], arcLength, angle, |sector|, copies, t))
  }

  /** One sorted sector, repeated sector after sector. */
  function UnrolledSlots(sector: seq<Placed<BoundaryPoint>>, arcLength: real, angle: real, copies: nat, sectors: nat): seq<Placed<Slot>>
    requires arcLength > 0.0 && copies > 0
  {
    if sectors == 0 then [] else
      UnrolledSlots(sector, arcLength, angle, copies, sectors - 1) + UnrolledBlock(sector, arcLength, angle, copies, sectors - 1)
  }

  lemma {:induction false} UnrolledIndex(sector: seq<Placed<BoundaryPoint>>, arcLength: real, angle: real, copies: nat, sectors: nat, t: nat, j: nat)
    requires arcLength > 0.0 && copies > 0
    ensures |UnrolledSlots(sector, arcLength, angle, copies, sectors)| == sectors * |sector|
    ensures t < sectors && j < |sector| ==>
      && t * |sector| + j < sectors * |sector|
      && UnrolledSlots(sector, arcLength, angle, copies, sectors)[t * |sector| + j]
         == UnrolledPoint(sector[j], arcLength, angle, |sector|, copies, t)
  {
    if sectors > 0 {
      UnrolledIndex(sector, arcLength, angle, copies, sectors - 1, t, j);
      assert (sectors - 1) * |sector| + |sector| == sectors * |sector|;
    }
  }

  /** What a position holds: the tied points of its place, all of one copy. */
  ghost function PointsAt(places: seq<Placed<BoundaryPoint>>, place: real, p: real, copy: nat): seq<Placed<Slot>> {
    Moved(At(places, place), p, (point: BoundaryPoint) => Slot(copy, point))
  }

  lemma RawBlockAt(points: seq<BoundaryPoint>, arcLength: real, angle: real, spacing: real, n: nat, copies: nat,
                   c: nat, i: nat, t: nat)
    requires ExactTiling(arcLength, spacing, n, copies) && Untangled(points, arcLength, copies)
    requires i < |points| && t < copies && c < copies
    ensures var place := Place(points[i], arcLength, angle, spacing);
      var p := place + (t * n) as real;
      var copy := CopyIn(t, points[i], arcLength, angle, copies);
      At(RawBlock(points, arcLength, angle, spacing, c), p)
        == if c == copy then PointsAt(SectorPlaces(points, arcLength, angle, spacing), place, p, copy) else []
  {
    var place := Place(points[i], arcLength, angle, spacing);
    var p := place + (t * n) as real;
    var copy := CopyIn(t, points[i], arcLength, angle, copies);
    var places, block := SectorPlaces(points, arcLength, angle, spacing), RawBlock(points, arcLength, angle, spacing, c);
    forall k | 0 <= k < |points| ensures block[k].position == p <==> places[k].position == place && c == copy {
      SlotStandsAt(Slot(c, points[k]), arcLength, angle, spacing, n, copies);
      PlaceInSector(points[k], arcLength, angle, spacing, n, copies);
      PlaceInSector(points[i], arcLength, angle, spacing, n, copies);
      PositionDecodes(places[k].position, SectorOf(Slot(c, points[k]), arcLength, angle, copies), place, t, n);
      if places[k].position == place {
        TiedCopies(points, k, i, arcLength, angle, spacing, copies);
        var mk, mi := SectorIndex(points[k].natural + angle, arcLength), SectorIndex(points[i].natural + angle, arcLength);
        ModOfSum(mk, c, copies);
        ModOfSum(mi, c, copies);
        CopyInIsUnique(t, c, mi, copies);
      }
    }
    if c == copy {
      AtCorresponds(places, block, place, p, (point: BoundaryPoint) => Slot(copy, point));
    } else {
      AtNowhere(block, p);
    }
  }

  lemma {:induction false} RawSlotsAt(points: seq<BoundaryPoint>, arcLength: real, angle: real, spacing: real, n: nat, copies: nat,
                   built: nat, i: nat, t: nat)
    requires ExactTiling(arcLength, spacing, n, copies) && Untangled(points, arcLength, copies)
    requires i < |points| && t < copies && built <= copies
    ensures var place := Place(points[i], arcLength, angle, spacing);
      var p := place + (t * n) as real;
      var copy := CopyIn(t, points[i], arcLength, angle, copies);
      At(RawSlots(points, arcLength, angle, spacing, built), p)
        == if copy < built then PointsAt(SectorPlaces(points, arcLength, angle, spacing), place, p, copy) else []
  {
    if built > 0 {
      var p := Place(points[i], arcLength, angle, spacing) + (t * n) as real;
      RawSlotsAt(points, arcLength, angle, spacing, n, copies, built - 1, i, t);
      RawBlockAt(points, arcLength, angle, spacing, n, copies, built - 1, i, t);
      AtConcat(RawSlots(points, arcLength, angle, spacing, built - 1), RawBlock(points, arcLength, angle, spacing, built - 1), p);
    }
  }

  /** Which points of an unrolled sector stand where a given copy of point `i` does. */
  lemma UnrolledPointAt(points: seq<BoundaryPoint>, sector: seq<Placed<BoundaryPoint>>,
                        arcLength: real, angle: real, spacing: real, n: nat, copies: nat, s: nat, i: nat, t: nat, k: nat)
    requires ExactTiling(arcLength, spacing, n, copies) && Untangled(points, arcLength, copies)
    requires |points| == n && sector == StableSort(SectorPlaces(points, arcLength, angle, spacing))
    requires i < |points| && t < copies && k < |sector|
    ensures var place := Place(points[i], arcLength, angle, spacing);
      && (sector[k].position + (s * n) as real == place + (t * n) as real <==> sector[k].position == place && s == t)
      && (sector[k].position == place ==> CopyIn(t, sector[k].item, arcLength, angle, copies) == CopyIn(t, points[i], arcLength, angle, copies))
  {
    var place, copy := Place(points[i], arcLength, angle, spacing), CopyIn(t, points[i], arcLength, angle, copies);
    var j := SectorPoint(points, sector, arcLength, angle, spacing, k);
    PlaceInSector(points[j], arcLength, angle, spacing, n, copies);
    PlaceInSector(points[i], arcLength, angle, spacing, n, copies);
    PositionDecodes(sector[k].position, s, place, t, n);
    if sector[k].position == place {
      TiedCopies(points, j, i, arcLength, angle, spacing, copies);
      var mj, mi := SectorIndex(points[j].natural + angle, arcLength), SectorIndex(points[i].natural + angle, arcLength);
      CopyInIsUnique(t, copy, mi, copies);
      ModOfSum(mi, copy, copies);
      ModOfSum(mj, copy, copies);
      CopyInIsUnique(t, copy, mj, copies);
    }
  }

  lemma UnrolledBlockAt(points: seq<BoundaryPoint>, sector: seq<Placed<BoundaryPoint>>,
                        arcLength: real, angle: real, spacing: real, n: nat, copies: nat, s: nat, i: nat, t: nat)
    requires ExactTiling(arcLength, spacing, n, copies) && Untangled(points, arcLength, copies)
    requires |points| == n && sector == StableSort(SectorPlaces(points, arcLength, angle, spacing))
    requires i < |points| && t < copies
    ensures var place := Place(points[i], arcLength, angle, spacing);
      var p := place + (t * n) as real;
      var copy := CopyIn(t, points[i], arcLength, angle, copies);
      At(UnrolledBlock(sector, arcLength, angle, copies, s), p)
        == if s == t then PointsAt(sector, place, p, copy) else []
  {
    var place := Place(points[i], arcLength, angle, spacing);
    var p := place + (t * n) as real;
    var copy := CopyIn(t, points[i], arcLength, angle, copies);
    var block := UnrolledBlock(sector, arcLength, angle, copies, s);
    forall k | 0 <= k < |sector|
      ensures block[k].position == p <==> sector[k].position == place && s == t
      ensures sector[k].position == place ==> CopyIn(t, sector[k].item, arcLength, angle, copies) == copy
    {
      UnrolledPointAt(points, sector, arcLength, angle, spacing, n, copies, s, i, t, k);
    }
    if s == t {
      AtCorresponds(sector, block, place, p, (point: BoundaryPoint) => Slot(copy, point));
    } else {
      AtNowhere(block, p);
    }
  }

  lemma SectorPoint(points: seq<BoundaryPoint>, sector: seq<Placed<BoundaryPoint>>,
                    arcLength: real, angle: real, spacing: real, k: nat) returns (j: nat)
    requires arcLength > 0.0 && spacing > 0.0
    requires sector == StableSort(SectorPlaces(points, arcLength, angle, spacing)) && k < |sector|
    ensures j < |points| && sector[k] == Placed(points[j], Place(points[j], arcLength, angle, spacing))
  {
    var places := SectorPlaces(points, arcLength, angle, spacing);
    SameMembers(places, sector, sector[k]);
    j :| 0 <= j < |places| && places[j] == sector[k];
  }

  lemma {:induction false} UnrolledSlotsAt(points: seq<BoundaryPoint>, sector: seq<Placed<BoundaryPoint>>,
                        arcLength: real, angle: real, spacing: real, n: nat, copies: nat, sectors: nat, i: nat, t: nat)
    requires ExactTiling(arcLength, spacing, n, copies) && Untangled(points, arcLength, copies)
    requires |points| == n && sector == StableSort(SectorPlaces(points, arcLength, angle, spacing))
    requires i < |points| && t < copies
    ensures var place := Place(points[i], arcLength, angle, spacing);
      var p := place + (t * n) as real;
      var copy := CopyIn(t, points[i], arcLength, angle, copies);
      At(UnrolledSlots(sector, arcLength, angle, copies, sectors), p)
        == if t < sectors then PointsAt(sector, place, p, copy) else []
  {
    if sectors > 0 {
      var p := Place(points[i], arcLength, angle, spacing) + (t * n) as real;
      UnrolledSlotsAt(points, sector, arcLength, angle, spacing, n, copies, sectors - 1, i, t);
      UnrolledBlockAt(points, sector, arcLength, angle, spacing, n, copies, sectors - 1, i, t);
      AtConcat(UnrolledSlots(sector, arcLength, angle, copies, sectors - 1), UnrolledBlock(sector, arcLength, angle, copies, sectors - 1), p);
    }
  }

  lemma {:induction false} RawSlotsIndex(points: seq<BoundaryPoint>, arcLength: real, angle: real, spacing: real, copies: nat, c: nat, i: nat)
    requires spacing > 0.0
    ensures |RawSlots(points, arcLength, angle, spacing, copies)| == copies * |points|
    ensures c < copies && i < |points| ==>
      && c * |points| + i < copies * |points|
      && RawSlots(points, arcLength, angle, spacing, copies)[c * |points| + i]
         == Placed(Slot(c, points[i]), SlotPosition(Slot(c, points[i]), arcLength, angle, spacing))
  {
    if copies > 0 {
      RawSlotsIndex(points, arcLength, angle, spacing, copies - 1, c, i);
      assert (copies - 1) * |points| + |points| == copies * |points|;
    }
  }

  ghost function SortedSector(points: seq<BoundaryPoint>, arcLength: real, angle: real, spacing: real): seq<Placed<BoundaryPoint>>
    requires arcLength > 0.0 && spacing > 0.0
  {
    StableSort(SectorPlaces(points, arcLength, angle, spacing))
  }

  lemma UnrolledAscending(points: seq<BoundaryPoint>, arcLength: real, angle: real, spacing: real, n: nat, copies: nat)
    requires ExactTiling(arcLength, spacing, n, copies) && |points| == n
    ensures Ascending(UnrolledSlots(SortedSector(points, arcLength, angle, spacing), arcLength, angle, copies, copies))
  {
    var sector := SortedSector(points, arcLength, angle, spacing);
    var unrolled := UnrolledSlots(sector, arcLength, angle, copies, copies);
    UnrolledIndex(sector, arcLength, angle, copies, copies, 0, 0);
    forall a, b | 0 <= a < b < |unrolled| ensures unrolled[a].position <= unrolled[b].position {
      SplitIndex(a, n, copies);
      SplitIndex(b, n, copies);
      UnrolledIndex(sector, arcLength, angle, copies, copies, a / n, a % n);
      UnrolledIndex(sector, arcLength, angle, copies, copies, b / n, b % n);
      var i := SectorPoint(points, sector, arcLength, angle, spacing, a % n);
      var j := SectorPoint(points, sector, arcLength, angle, spacing, b % n);
      PlaceInSector(points[i], arcLength, angle, spacing, n, copies);
      PlaceInSector(points[j], arcLength, angle, spacing, n, copies);
      OrderSplits(a, b, n);
    }
  }

  lemma RawAndUnrolledAgreeAt(points: seq<BoundaryPoint>, arcLength: real, angle: real, spacing: real, n: nat, copies: nat, i: nat, t: nat)
    requires ExactTiling(arcLength, spacing, n, copies) && |points| == n && Untangled(points, arcLength, copies)
    requires i < n && t < copies
    ensures var p := Place(points[i], arcLength, angle, spacing) + (t * n) as real;
      At(RawSlots(points, arcLength, angle, spacing, copies), p)
      == At(UnrolledSlots(SortedSector(points, arcLength, angle, spacing), arcLength, angle, copies, copies), p)
  {
    var sector := SortedSector(points, arcLength, angle, spacing);
    RawSlotsAt(points, arcLength, angle, spacing, n, copies, copies, i, t);
    UnrolledSlotsAt(points, sector, arcLength, angle, spacing, n, copies, copies, i, t);
    var place := Place(points[i], arcLength, angle, spacing);
    assert At(SectorPlaces(points, arcLength, angle, spacing), place) == At(sector, place);
  }

  /** When the copies fill the turn, the sorted full ring is one sorted sector repeated
      sector after sector, each point in the copy that lands there. */
  lemma FullRingIsUnrolled(points: seq<BoundaryPoint>, arcLength: real, angle: real, spacing: real, n: nat, copies: nat)
    requires ExactTiling(arcLength, spacing, n, copies) && |points| == n && Untangled(points, arcLength, copies)
    ensures StableSort(RawSlots(points, arcLength, angle, spacing, copies))
         == UnrolledSlots(SortedSector(points, arcLength, angle, spacing), arcLength, angle, copies, copies)
  {
    var sector := SortedSector(points, arcLength, angle, spacing);
    var raw := RawSlots(points, arcLength, angle, spacing, copies);
    var unrolled := UnrolledSlots(sector, arcLength, angle, copies, copies);
    RawSlotsIndex(points, arcLength, angle, spacing, copies, 0, 0);
    UnrolledIndex(sector, arcLength, angle, copies, copies, 0, 0);
    forall p: real ensures At(raw, p) == At(unrolled, p) {
      if k :| 0 <= k < |raw| && raw[k].position == p {
        SplitIndex(k, n, copies);
        RawSlotsIndex(points, arcLength, angle, spacing, copies, k / n, k % n);
        var slot := Slot(k / n, points[k % n]);
        SlotStandsAt(slot, arcLength, angle, spacing, n, copies);
        RawAndUnrolledAgreeAt(points, arcLength, angle, spacing, n, copies, k % n, SectorOf(slot, arcLength, angle, copies));
      } else if k :| 0 <= k < |unrolled| && unrolled[k].position == p {
        SplitIndex(k, n, copies);
        UnrolledIndex(sector, arcLength, angle, copies, copies, k / n, k % n);
        var i := SectorPoint(points, sector, arcLength, angle, spacing, k % n);
        RawAndUnrolledAgreeAt(points, arcLength, angle, spacing, n, copies, i, k / n);
      } else {
        AtNowhere(raw, p);
        AtNowhere(unrolled, p);
      }
    }
    UnrolledAscending(points, arcLength, angle, spacing, n, copies);
    StableSortIs(raw, unrolled);
  }

  // ----- quasi-periodicity

  /** `q` is the same boundary node one sector further, with the sign one copy further. */
  ghost predicate OneSectorOn(p: RingPoint, q: RingPoint, n: nat, size: nat, antiperiodic: bool) {
    && q.item.node == p.item.node
    && q.item.sign == (if antiperiodic then -p.item.sign else p.item.sign)
    && q.position == (if p.position + n as real >= size as real then p.position + n as real - size as real else p.position + n as real)
  }

  /** The ring repeats itself every `n` points, all the way round. */
  ghost predicate QuasiPeriodic(ring: seq<RingPoint>, n: nat, antiperiodic: bool) {
    ring != [] && forall k :: 0 <= k < |ring| ==> RepeatsAt(ring, n, antiperiodic, k)
  }

  ghost predicate RepeatsAt(ring: seq<RingPoint>, n: nat, antiperiodic: bool, k: nat)
    requires k < |ring|
  {
    OneSectorOn(ring[k], Cyclic(ring, k + n), n, |ring|, antiperiodic)
  }

  lemma NextCopyFlips(c: nat, copies: nat, antiperiodic: bool)
    requires c < copies && (antiperiodic ==> copies % 2 == 0)
    ensures CopySign(antiperiodic, (c + 1) % copies) == if antiperiodic then -CopySign(antiperiodic, c) else CopySign(antiperiodic, c)
  {
    if c + 1 < copies {
      ModSmall(c + 1, copies);
    } else {
      ModUnique(c + 1, copies, 1, 0);
    }
  }

  lemma CopyInNext(t: int, u: int, m: int, copies: nat)
    requires copies > 0 && u % copies == (t + 1) % copies
    ensures (u - m) % copies == ((t - m) % copies + 1) % copies
  {
    ModOfSum(u, -m, copies);
    ModOfSum(t + 1, -m, copies);
    ModOfSum(t - m, 1, copies);
  }

  /** The ring point at place `j` of sector `t`. */
  ghost function SectorRingPoint(sector: seq<Placed<BoundaryPoint>>, arcLength: real, angle: real, copies: nat, antiperiodic: bool, t: nat, j: nat): RingPoint
    requires arcLength > 0.0 && copies > 0 && j < |sector|
  {
    Placed(Signed(sector[j].item.node, CopySign(antiperiodic, CopyIn(t, sector[j].item, arcLength, angle, copies))),
           sector[j].position + (t * |sector|) as real)
  }

  lemma LabeledUnrolledPoint(sector: seq<Placed<BoundaryPoint>>, arcLength: real, angle: real, copies: nat, antiperiodic: bool, t: nat, j: nat)
    requires arcLength > 0.0 && copies > 0
    ensures var ring := Relabeled(UnrolledSlots(sector, arcLength, angle, copies, copies), LabelOf(antiperiodic));
      && |ring| == copies * |sector|
      && (t < copies && j < |sector| ==>
            && t * |sector| + j < copies * |sector|
            && ring[t * |sector| + j] == SectorRingPoint(sector, arcLength, angle, copies, antiperiodic, t, j))
  {
    UnrolledIndex(sector, arcLength, angle, copies, copies, t, j);
  }

  /** The sorted full ring of an exactly tiling sector: every point of it is known. */
  lemma BuiltRingIs(points: seq<BoundaryPoint>, antiperiodic: bool, arcLength: real, angle: real, spacing: real, n: nat, copies: nat)
    requires ExactTiling(arcLength, spacing, n, copies) && |points| == n && Untangled(points, arcLength, copies)
    ensures BuiltRing(points, antiperiodic, arcLength, angle, spacing, copies)
         == Relabeled(UnrolledSlots(SortedSector(points, arcLength, angle, spacing), arcLength, angle, copies, copies), LabelOf(antiperiodic))
  {
    SortRelabeled(RawSlots(points, arcLength, angle, spacing, copies), LabelOf(antiperiodic));
    FullRingIsUnrolled(points, arcLength, angle, spacing, n, copies);
  }

  /** Arithmetic of moving one sector on, without the rings. */
  lemma NextSectorArithmetic(place: real, t: nat, n: nat, copies: nat, m: int)
    requires n > 0 && t < copies && 0.0 <= place < n as real
    ensures var u := if t + 1 < copies then t + 1 else 0;
      && (u - m) % copies == ((t - m) % copies + 1) % copies
      && (if t + 1 < copies then (u * n) as real == (t * n) as real + n as real && place + (u * n) as real < (copies * n) as real
          else u * n == 0 && (t * n) as real + n as real == (copies * n) as real)
  {
    assert (t + 1) * n == t * n + n;
    if t + 1 < copies {
      MultiplesApart(t + 1, copies, n);
      CopyInNext(t, t + 1, m, copies);
    } else {
      ModUnique(t + 1, copies, 1, 0);
      ModSmall(0, copies);
      CopyInNext(t, 0, m, copies);
    }
  }

  lemma NextSectorPoint(points: seq<BoundaryPoint>, antiperiodic: bool, arcLength: real, angle: real, spacing: real, n: nat, copies: nat, t: nat, j: nat)
    requires ExactTiling(arcLength, spacing, n, copies) && |points| == n && t < copies && j < n
    requires antiperiodic ==> copies % 2 == 0
    ensures var sector := SortedSector(points, arcLength, angle, spacing);
      OneSectorOn(SectorRingPoint(sector, arcLength, angle, copies, antiperiodic, t, j),
                  SectorRingPoint(sector, arcLength, angle, copies, antiperiodic, if t + 1 < copies then t + 1 else 0, j),
                  n, copies * n, antiperiodic)
  {
    var sector := SortedSector(points, arcLength, angle, spacing);
    var i := SectorPoint(points, sector, arcLength, angle, spacing, j);
    PlaceInSector(points[i], arcLength, angle, spacing, n, copies);
    NextSectorArithmetic(sector[j].position, t, n, copies, SectorIndex(points[i].natural + angle, arcLength));
    NextCopyFlips(CopyIn(t, points[i], arcLength, angle, copies), copies, antiperiodic);
  }

  /** The ring built from an exactly tiling sector repeats every `n` points, with the sign
      flipped exactly when antiperiodic: across the wrap this is what an even number of copies is for. */
  lemma BuiltRingIsQuasiPeriodic(points: seq<BoundaryPoint>, antiperiodic: bool, arcLength: real, angle: real, spacing: real, n: nat, copies: nat)
    requires ExactTiling(arcLength, spacing, n, copies) && |points| == n && Untangled(points, arcLength, copies)
    requires antiperiodic ==> copies % 2 == 0
    ensures |BuiltRing(points, antiperiodic, arcLength, angle, spacing, copies)| == copies * n
    ensures QuasiPeriodic(BuiltRing(points, antiperiodic, arcLength, angle, spacing, copies), n, antiperiodic)
  {
    var sector := SortedSector(points, arcLength, angle, spacing);
    var ring := BuiltRing(points, antiperiodic, arcLength, angle, spacing, copies);
    BuiltRingIs(points, antiperiodic, arcLength, angle, spacing, n, copies);
    LabeledUnrolledPoint(sector, arcLength, angle, copies, antiperiodic, 0, 0);
    MultiplesApart(0, copies, n);
    forall k | 0 <= k < |ring| ensures RepeatsAt(ring, n, antiperiodic, k) {
      PointRepeats(ring, points, antiperiodic, arcLength, angle, spacing, n, copies, k);
    }
  }

  lemma {:induction false} PointRepeats(ring: seq<RingPoint>, points: seq<BoundaryPoint>, antiperiodic: bool, arcLength: real, angle: real, spacing: real, n: nat, copies: nat, k: nat)
    requires ExactTiling(arcLength, spacing, n, copies) && |points| == n
    requires antiperiodic ==> copies % 2 == 0
    requires ring == Relabeled(UnrolledSlots(SortedSector(points, arcLength, angle, spacing), arcLength, angle, copies, copies), LabelOf(antiperiodic))
    requires k < |ring| == copies * n
    ensures RepeatsAt(ring, n, antiperiodic, k)
  {
    var t, j, u, k' := NextIndex(k, n, copies);
    SectorPointAt(ring, points, antiperiodic, arcLength, angle, spacing, n, copies, t, j, k);
    SectorPointAt(ring, points, antiperiodic, arcLength, angle, spacing, n, copies, u, j, k');
    NextSectorPoint(points, antiperiodic, arcLength, angle, spacing, n, copies, t, j);
    RepeatsThere(ring, n, antiperiodic, k, k');
  }

  /** Place `j` of sector `t`, and the same place of the next sector around the ring. */
  lemma NextIndex(k: nat, n: nat, copies: nat) returns (t: nat, j: nat, u: nat, k': nat)
    requires n > 0 && k < copies * n
    ensures t < copies && j < n && k == t * n + j
    ensures u == (if t + 1 < copies then t + 1 else 0) && k' == u * n + j == (k + n) % (copies * n)
  {
    SplitIndex(k, n, copies);
    t, j := k / n, k % n;
    u := if t + 1 < copies then t + 1 else 0;
    NextBlock(t, j, n, copies);
    k' := u * n + j;
  }

  lemma SectorPointAt(ring: seq<RingPoint>, points: seq<BoundaryPoint>, antiperiodic: bool, arcLength: real, angle: real, spacing: real, n: nat, copies: nat,
                      t: nat, j: nat, k: nat)
    requires ExactTiling(arcLength, spacing, n, copies) && |points| == n && t < copies && j < n && k == t * n + j
    requires ring == Relabeled(UnrolledSlots(SortedSector(points, arcLength, angle, spacing), arcLength, angle, copies, copies), LabelOf(antiperiodic))
    ensures k < |ring| && ring[k] == SectorRingPoint(SortedSector(points, arcLength, angle, spacing), arcLength, angle, copies, antiperiodic, t, j)
  {
    LabeledUnrolledPoint(SortedSector(points, arcLength, angle, spacing), arcLength, angle, copies, antiperiodic, t, j);
  }

  lemma RepeatsThere(ring: seq<RingPoint>, n: nat, antiperiodic: bool, k: nat, k': nat)
    requires k < |ring| && k' < |ring| && (k + n) % |ring| == k' && OneSectorOn(ring[k], ring[k'], n, |ring|, antiperiodic)
    ensures RepeatsAt(ring, n, antiperiodic, k)
  {
  }

  // ----- and only then

  ghost predicate NodesDistinct(points: seq<BoundaryPoint>) {
    forall i, j :: 0 <= i < j < |points| ==> points[i].node != points[j].node
  }

  /** The unsorted ring. */
  function RawRing(points: seq<BoundaryPoint>, antiperiodic: bool, arcLength: real, angle: real, spacing: real, copies: nat): seq<RingPoint>
    requires spacing > 0.0
  {
    Relabeled(RawSlots(points, arcLength, angle, spacing, copies), LabelOf(antiperiodic))
  }

  lemma RawRingPoint(points: seq<BoundaryPoint>, antiperiodic: bool, arcLength: real, angle: real, spacing: real, n: nat, copies: nat, c: nat, i: nat)
    requires ExactTiling(arcLength, spacing, n, copies) && |points| == n
    ensures |RawRing(points, antiperiodic, arcLength, angle, spacing, copies)| == copies * n
    ensures c < copies && i < n ==>
      && c * n + i < copies * n
      && RawRing(points, antiperiodic, arcLength, angle, spacing, copies)[c * n + i]
         == Placed(Signed(points[i].node, CopySign(antiperiodic, c)),
                   Place(points[i], arcLength, angle, spacing) + (SectorOf(Slot(c, points[i]), arcLength, angle, copies) * n) as real)
  {
    var slots, raw := RawSlots(points, arcLength, angle, spacing, copies), RawRing(points, antiperiodic, arcLength, angle, spacing, copies);
    RawSlotsIndex(points, arcLength, angle, spacing, copies, c, i);
    assert |raw| == |slots| == copies * n;
    if c < copies && i < n {
      var x := c * n + i;
      assert slots[x] == Placed(Slot(c, points[i]), SlotPosition(Slot(c, points[i]), arcLength, angle, spacing));
      assert raw[x] == Placed(LabelOf(antiperiodic)(slots[x].item), slots[x].position);
      SlotStandsAt(Slot(c, points[i]), arcLength, angle, spacing, n, copies);
    }
  }

  lemma SameSectorSameCopy(m: int, place: real, c: nat, c': nat, n: nat, copies: nat)
    requires n > 0 && c < copies && c' < copies && 0.0 <= place < n as real
    requires place + ((m + c) % copies * n) as real == place + ((m + c') % copies * n) as real
    ensures c == c'
  {
    PositionDecodes(place, (m + c) % copies, place, (m + c') % copies, n);
    CopyInIsUnique((m + c) % copies, c, m, copies);
    CopyInIsUnique((m + c) % copies, c', m, copies);
  }

  lemma RawNodeStandsOnce(points: seq<BoundaryPoint>, antiperiodic: bool, arcLength: real, angle: real, spacing: real, n: nat, copies: nat, x: nat, y: nat)
    requires ExactTiling(arcLength, spacing, n, copies) && |points| == n && NodesDistinct(points)
    requires var raw := RawRing(points, antiperiodic, arcLength, angle, spacing, copies);
      x < |raw| && y < |raw| && raw[x].position == raw[y].position && raw[x].item.node == raw[y].item.node
    ensures x == y
  {
    RawRingPoint(points, antiperiodic, arcLength, angle, spacing, n, copies, 0, 0);
    SplitIndex(x, n, copies);
    SplitIndex(y, n, copies);
    RawRingPoint(points, antiperiodic, arcLength, angle, spacing, n, copies, x / n, x % n);
    RawRingPoint(points, antiperiodic, arcLength, angle, spacing, n, copies, y / n, y % n);
    assert x % n == y % n;
    PlaceInSector(points[x % n], arcLength, angle, spacing, n, copies);
    SameSectorSameCopy(SectorIndex(points[x % n].natural + angle, arcLength), Place(points[x % n], arcLength, angle, spacing),
                       x / n, y / n, n, copies);
  }

  /** No node stands twice at one position. */
  lemma NodeStandsOnce(points: seq<BoundaryPoint>, antiperiodic: bool, arcLength: real, angle: real, spacing: real, n: nat, copies: nat, a: nat, b: nat)
    requires ExactTiling(arcLength, spacing, n, copies) && |points| == n && NodesDistinct(points)
    requires var ring := BuiltRing(points, antiperiodic, arcLength, angle, spacing, copies);
      a < |ring| && b < |ring| && ring[a].position == ring[b].position && ring[a].item.node == ring[b].item.node
    ensures a == b
  {
    var raw := RawRing(points, antiperiodic, arcLength, angle, spacing, copies);
    var ring := BuiltRing(points, antiperiodic, arcLength, angle, spacing, copies);
    if a != b {
      var x, y := OrderCarries(ring, raw, if a < b then a else b, if a < b then b else a);
      RawNodeStandsOnce(points, antiperiodic, arcLength, angle, spacing, n, copies, x, y);
    }
  }

  lemma StepSector(ring: seq<RingPoint>, n: nat, antiperiodic: bool, k: nat)
    requires Ascending(ring) && QuasiPeriodic(ring, n, antiperiodic) && n > 0 && k < |ring|
    requires ring[k].position + n as real < |ring| as real
    requires n <= |ring|
    ensures k + n < |ring|
    ensures ring[k + n].item.node == ring[k].item.node
    ensures ring[k + n].position == ring[k].position + n as real
  {
    assert RepeatsAt(ring, n, antiperiodic, k);
    if k + n >= |ring| {
      ModUnique(k + n, |ring|, 1, k + n - |ring|);
    } else {
      ModSmall(k + n, |ring|);
    }
  }

  /** Walking whole sectors along a quasi-periodic ring, short of the wrap. */
  lemma {:induction false} WalkSectors(ring: seq<RingPoint>, n: nat, antiperiodic: bool, k: nat, steps: nat)
    requires Ascending(ring) && QuasiPeriodic(ring, n, antiperiodic) && 0 < n <= |ring| && k < |ring|
    requires ring[k].position + (steps * n) as real < |ring| as real
    ensures k + steps * n < |ring|
    ensures ring[k + steps * n].item.node == ring[k].item.node
    ensures ring[k + steps * n].position == ring[k].position + (steps * n) as real
  {
    if steps > 0 {
      var walked := (steps - 1) * n;
      assert steps * n == walked + n;
      WalkSectors(ring, n, antiperiodic, k, steps - 1);
      StepSector(ring, n, antiperiodic, k + walked);
    }
  }

  /** Points that meet at one position in one order cannot meet a few sectors on in the other. */
  lemma OrderPersists(points: seq<BoundaryPoint>, antiperiodic: bool, arcLength: real, angle: real, spacing: real, n: nat, copies: nat,
                      ki: nat, kj: nat, li: nat, lj: nat, steps: nat)
    requires ExactTiling(arcLength, spacing, n, copies) && |points| == n && NodesDistinct(points)
    requires var ring := BuiltRing(points, antiperiodic, arcLength, angle, spacing, copies);
      && QuasiPeriodic(ring, n, antiperiodic)
      && ki < kj < |ring| && lj < |ring| && li < |ring|
      && ring[kj].position == ring[ki].position
      && ring[li].position == ring[lj].position == ring[ki].position + (steps * n) as real < |ring| as real
      && ring[li].item.node == ring[ki].item.node && ring[lj].item.node == ring[kj].item.node
    ensures li < lj
  {
    var ring := BuiltRing(points, antiperiodic, arcLength, angle, spacing, copies);
    BuiltRingSize(points, antiperiodic, arcLength, angle, spacing, n, copies);
    MultiplesApart(0, copies, n);
    WalkSectors(ring, n, antiperiodic, ki, steps);
    WalkSectors(ring, n, antiperiodic, kj, steps);
    NodeStandsOnce(points, antiperiodic, arcLength, angle, spacing, n, copies, ki + steps * n, li);
    NodeStandsOnce(points, antiperiodic, arcLength, angle, spacing, n, copies, kj + steps * n, lj);
  }

  lemma SectorSteps(place: real, ti: nat, tj: nat, n: nat, copies: nat)
    requires n > 0 && 0.0 <= place < n as real && ti < tj < copies
    ensures place + (ti * n) as real + ((tj - ti) * n) as real == place + (tj * n) as real < (copies * n) as real
  {
    MultiplesApart(tj, copies, n);
    assert (tj - ti) * n == tj * n - ti * n;
  }

  /** Two tied points whose zeroth copies stand in different sectors meet in the order of
      their copies, which differs from sector to sector. */
  lemma TangledBreaks(points: seq<BoundaryPoint>, antiperiodic: bool, arcLength: real, angle: real, spacing: real, n: nat, copies: nat, i: nat, j: nat)
    requires ExactTiling(arcLength, spacing, n, copies) && |points| == n && NodesDistinct(points)
    requires i < n && j < n
    requires Place(points[i], arcLength, angle, spacing) == Place(points[j], arcLength, angle, spacing)
    requires SectorOf(Slot(0, points[i]), arcLength, angle, copies) < SectorOf(Slot(0, points[j]), arcLength, angle, copies)
    ensures !QuasiPeriodic(BuiltRing(points, antiperiodic, arcLength, angle, spacing, copies), n, antiperiodic)
  {
    var ring := BuiltRing(points, antiperiodic, arcLength, angle, spacing, copies);
    if QuasiPeriodic(ring, n, antiperiodic) {
      var ti, tj := SectorOf(Slot(0, points[i]), arcLength, angle, copies), SectorOf(Slot(0, points[j]), arcLength, angle, copies);
      var ki, kj := ZerothComesFirst(points, antiperiodic, arcLength, angle, spacing, n, copies, i, j);
      var lj, li := ZerothComesFirst(points, antiperiodic, arcLength, angle, spacing, n, copies, j, i);
      PlaceInSector(points[i], arcLength, angle, spacing, n, copies);
      SectorSteps(Place(points[i], arcLength, angle, spacing), ti, tj, n, copies);
      BuiltRingSize(points, antiperiodic, arcLength, angle, spacing, n, copies);
      OrderPersists(points, antiperiodic, arcLength, angle, spacing, n, copies, ki, kj, li, lj, tj - ti);
    }
  }

  lemma BuiltRingSize(points: seq<BoundaryPoint>, antiperiodic: bool, arcLength: real, angle: real, spacing: real, n: nat, copies: nat)
    requires ExactTiling(arcLength, spacing, n, copies) && |points| == n
    ensures |BuiltRing(points, antiperiodic, arcLength, angle, spacing, copies)| == copies * n
  {
    RawRingPoint(points, antiperiodic, arcLength, angle, spacing, n, copies, 0, 0);
  }

  /** Where the zeroth copy of point `i` stands, it comes before the copy of a tied point `j`. */
  lemma ZerothComesFirst(points: seq<BoundaryPoint>, antiperiodic: bool, arcLength: real, angle: real, spacing: real, n: nat, copies: nat, i: nat, j: nat)
    returns (ki: nat, kj: nat)
    requires ExactTiling(arcLength, spacing, n, copies) && |points| == n
    requires i < n && j < n
    requires Place(points[i], arcLength, angle, spacing) == Place(points[j], arcLength, angle, spacing)
    requires SectorOf(Slot(0, points[i]), arcLength, angle, copies) != SectorOf(Slot(0, points[j]), arcLength, angle, copies)
    ensures var ring := BuiltRing(points, antiperiodic, arcLength, angle, spacing, copies);
      var p := Place(points[i], arcLength, angle, spacing) + (SectorOf(Slot(0, points[i]), arcLength, angle, copies) * n) as real;
      && ki < kj < |ring|
      && ring[ki].item.node == points[i].node && ring[ki].position == p
      && ring[kj].item.node == points[j].node && ring[kj].position == p
  {
    var raw := RawRing(points, antiperiodic, arcLength, angle, spacing, copies);
    var ring := BuiltRing(points, antiperiodic, arcLength, angle, spacing, copies);
    var ti := SectorOf(Slot(0, points[i]), arcLength, angle, copies);
    var c := CopyIn(ti, points[j], arcLength, angle, copies);
    CopyInIsUnique(ti, c, SectorIndex(points[j].natural + angle, arcLength), copies);
    RawRingPoint(points, antiperiodic, arcLength, angle, spacing, n, copies, 0, i);
    RawRingPoint(points, antiperiodic, arcLength, angle, spacing, n, copies, c, j);
    MultiplesApart(0, c, n);
    ki, kj := OrderCarries(raw, ring, i, c * n + j);
  }

  /** The ring repeats sector by sector exactly when tied points are whole turns apart. */
  lemma QuasiPeriodicIffUntangled(points: seq<BoundaryPoint>, antiperiodic: bool, arcLength: real, angle: real, spacing: real, n: nat, copies: nat)
    requires ExactTiling(arcLength, spacing, n, copies) && |points| == n && NodesDistinct(points)
    requires antiperiodic ==> copies % 2 == 0
    ensures QuasiPeriodic(BuiltRing(points, antiperiodic, arcLength, angle, spacing, copies), n, antiperiodic)
       <==> Untangled(points, arcLength, copies)
  {
    if Untangled(points, arcLength, copies) {
      BuiltRingIsQuasiPeriodic(points, antiperiodic, arcLength, angle, spacing, n, copies);
    } else {
      var i, j :| 0 <= i < n && 0 <= j < n
        && SectorOffset(points[i].natural, arcLength) == SectorOffset(points[j].natural, arcLength)
        && (SectorIndex(points[i].natural, arcLength) - SectorIndex(points[j].natural, arcLength)) % copies != 0;
      var x, y := points[i].natural + angle, points[j].natural + angle;
      assert x + -angle == points[i].natural && y + -angle == points[j].natural;
      RotationKeepsTies(x, y, -angle, arcLength);
      PlaceIsOffset(points[i], points[j], arcLength, angle, spacing);
      DifferentSectors(SectorIndex(x, arcLength), SectorIndex(y, arcLength), copies);
      if SectorOf(Slot(0, points[i]), arcLength, angle, copies) < SectorOf(Slot(0, points[j]), arcLength, angle, copies) {
        TangledBreaks(points, antiperiodic, arcLength, angle, spacing, n, copies, i, j);
      } else {
        TangledBreaks(points, antiperiodic, arcLength, angle, spacing, n, copies, j, i);
      }
    }
  }

  lemma DifferentSectors(x: int, y: int, copies: nat)
    requires copies > 0 && (x - y) % copies != 0
    ensures x % copies != y % copies
  {
    DivMod(x, copies);
    DivMod(y, copies);
    if x % copies == y % copies {
      assert x - y == (x / copies - y / copies) * copies + 0;
      ModUnique(x - y, copies, x / copies - y / copies, 0);
    }
  }

  // ----- every node, once per copy

  function NodesOf(ring: seq<RingPoint>): seq<int> {
    seq(|ring|, i requires 0 <= i < |ring| => ring[i].item.node)
  }

  function PointNodes(points: seq<BoundaryPoint>): seq<int> {
    seq(|points|, i requires 0 <= i < |points| => points[i].node)
  }

  lemma WithoutOne<T>(r: seq<T>, k: nat)
    requires k < |r|
    ensures multiset(r[..k] + r[k + 1..]) == multiset(r) - multiset{r[k]}
  {
    var rest := r[..k] + r[k + 1..];
    assert r == r[..k] + [r[k]] + r[k + 1..];
    assert multiset(r) == multiset(r[..k]) + multiset([r[k]]) + multiset(r[k + 1..]);
    assert multiset(rest) == multiset(r[..k]) + multiset(r[k + 1..]);
  }

  lemma SameElements<T>(s: seq<T>, r: seq<T>, x: T)
    requires x in s && multiset(s) == multiset(r)
    ensures x in r
  {
    assert x in multiset(r);
  }

  lemma {:induction false} DroppedElement<T>(s: seq<T>, r: seq<T>) returns (k: nat)
    requires s != [] && multiset(s) == multiset(r)
    ensures k < |r| && r[k] == s[|s| - 1]
    ensures multiset(s[..|s| - 1]) == multiset(r[..k] + r[k + 1..])
  {
    SameElements(s, r, s[|s| - 1]);
    k :| 0 <= k < |r| && r[k] == s[|s| - 1];
    WithoutOne(r, k);
    WithoutOne(s, |s| - 1);
    assert s[..|s| - 1] + s[|s| - 1 + 1..] == s[..|s| - 1];
  }

  lemma {:induction false} NodesOfRearranged(s: seq<RingPoint>, r: seq<RingPoint>)
    requires multiset(s) == multiset(r)
    ensures multiset(NodesOf(s)) == multiset(NodesOf(r))
    decreases |s|
  {
    if s == [] {
      assert |r| == |multiset(r)| == 0;
    } else {
      var k := DroppedElement(s, r);
      var node := s[|s| - 1].item.node;
      NodesOfRearranged(s[..|s| - 1], r[..k] + r[k + 1..]);
      assert NodesOf(s) == NodesOf(s[..|s| - 1]) + [node];
      assert NodesOf(r) == NodesOf(r[..k]) + [node] + NodesOf(r[k + 1..]);
      assert NodesOf(r[..k] + r[k + 1..]) == NodesOf(r[..k]) + NodesOf(r[k + 1..]);
    }
  }

  lemma RawNodesNext(points: seq<BoundaryPoint>, antiperiodic: bool, arcLength: real, angle: real, spacing: real, copies: nat)
    requires spacing > 0.0 && copies > 0
    ensures NodesOf(RawRing(points, antiperiodic, arcLength, angle, spacing, copies))
         == NodesOf(RawRing(points, antiperiodic, arcLength, angle, spacing, copies - 1)) + PointNodes(points)
  {
    var init := RawRing(points, antiperiodic, arcLength, angle, spacing, copies - 1);
    var block := Relabeled(RawBlock(points, arcLength, angle, spacing, copies - 1), LabelOf(antiperiodic));
    assert RawRing(points, antiperiodic, arcLength, angle, spacing, copies) == init + block;
    assert NodesOf(init + block) == NodesOf(init) + NodesOf(block);
    assert NodesOf(block) == PointNodes(points);
  }

  lemma CountOnce(copies: nat, count: nat)
    requires copies > 0
    ensures copies * count == (copies - 1) * count + count
  {
  }

  lemma {:induction false} RawNodes(points: seq<BoundaryPoint>, antiperiodic: bool, arcLength: real, angle: real, spacing: real, copies: nat, node: int)
    requires spacing > 0.0
    ensures multiset(NodesOf(RawRing(points, antiperiodic, arcLength, angle, spacing, copies)))[node]
         == copies * multiset(PointNodes(points))[node]
  {
    var nodes := NodesOf(RawRing(points, antiperiodic, arcLength, angle, spacing, copies));
    var count := multiset(PointNodes(points))[node];
    if copies == 0 {
      assert nodes == [];
    } else {
      var before := NodesOf(RawRing(points, antiperiodic, arcLength, angle, spacing, copies - 1));
      RawNodes(points, antiperiodic, arcLength, angle, spacing, copies - 1, node);
      RawNodesNext(points, antiperiodic, arcLength, angle, spacing, copies);
      assert multiset(nodes) == multiset(before) + multiset(PointNodes(points));
      CountOnce(copies, count);
    }
  }

  /** Every boundary node stands on the full ring once for each copy, ties or not. */
  lemma EveryNodeOncePerCopy(points: seq<BoundaryPoint>, antiperiodic: bool, arcLength: real, angle: real, spacing: real, copies: nat, node: int)
    requires spacing > 0.0
    ensures multiset(NodesOf(BuiltRing(points, antiperiodic, arcLength, angle, spacing, copies)))[node]
         == copies * multiset(PointNodes(points))[node]
  {
    var raw := RawRing(points, antiperiodic, arcLength, angle, spacing, copies);
    StableSortMultiset(raw);
    NodesOfRearranged(raw, StableSort(raw));
    RawNodes(points, antiperiodic, arcLength, angle, spacing, copies, node);
  }
}
