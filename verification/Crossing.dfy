/** Uniformly spaced rings: how the angle decides which ring points face each other. */
module Crossing {
  import opened Angles
  import opened Modular
  import opened StableOrder
  import opened RingTurning
  import opened AirGapRing
  import opened Tiling
  import opened EntryOrder
  import opened Stencil

  /** The stored ring is evenly spaced, one element apart, and fills one turn. */
  ghost predicate Uniform(ring: seq<RingPoint>, step: real) {
    && ring != [] && step > 0.0
    && Arc(|ring|, step) == FULL_TURN
    && forall i :: 0 <= i < |ring| ==> ring[i].position == ring[0].position + i as real
  }

  /** How many ring points have come past zero at an angle. */
  function Crossings(ring: seq<RingPoint>, step: real, angle: real): int
    requires ring != [] && step > 0.0
  {
    (ring[0].position + angle / step).Floor
  }

  lemma DegreesPlusAngle(p: real, angle: real, step: real)
    requires step > 0.0
    ensures Degrees(p, step) + angle == Degrees(p + angle / step, step)
  {
    MulDiv(angle, step);
  }

  lemma DegreesSplit(i: int, f: real, step: real)
    ensures Degrees(i as real + f, step) == Arc(i, step) + Degrees(f, step)
  {
  }

  lemma FractionOfElement(f: real, step: real)
    requires step > 0.0 && 0.0 <= f < 1.0
    ensures 0.0 <= Degrees(f, step) < Arc(1, step)
  {
    ProductBelow(f, step);
  }

  lemma FractionStays(r: int, f: real, n: nat, step: real)
    requires step > 0.0 && 0 <= r < n && 0.0 <= f < 1.0
    ensures 0.0 <= Arc(r, step) + Degrees(f, step) < Arc(n, step)
  {
    ArcMonotone(0, r, step);
    ArcMonotone(r + 1, n, step);
    ArcSum(r, 1, step);
    FractionOfElement(f, step);
    assert Arc(0, step) == 0.0;
  }

  lemma TurnsOfUniform(ring: seq<RingPoint>, step: real, angle: real, i: nat)
    requires Uniform(ring, step) && i < |ring|
    ensures TurnCount(ring[i].position, step, angle) == (Crossings(ring, step, angle) + i) / |ring|
  {
    var n := |ring|;
    var u := ring[0].position + angle / step;
    var s, f := u.Floor, u - u.Floor as real;
    var q, r := (s + i) / n, (s + i) % n;
    DivMod(s + i, n);
    DegreesPlusAngle(ring[i].position, angle, step);
    assert ring[i].position + angle / step == (s + i) as real + f;
    DegreesSplit(s + i, f, step);
    ArcSum(q * n, r, step);
    ArcProduct(q, n, step);
    FractionStays(r, f, n, step);
    TurnsUnique(Degrees(ring[i].position, step) + angle, q);
  }

  lemma QuotientStays(s: int, i: nat, n: nat)
    requires n > 0 && i < n
    ensures (s + i) / n == s / n <==> i < n - s % n
  {
    DivMod(s, n);
    if s % n + i < n {
      ModUnique(s + i, n, s / n, s % n + i);
    } else {
      ModUnique(s + i, n, s / n + 1, s % n + i - n);
    }
  }

  lemma UniformAscends(ring: seq<RingPoint>, step: real)
    requires Uniform(ring, step)
    ensures Ascending(ring) && WithinTurn(ring, step, Degrees(ring[0].position, step))
  {
    forall i | 0 <= i < |ring|
      ensures Degrees(ring[0].position, step) <= Degrees(ring[i].position, step) < Degrees(ring[0].position, step) + FULL_TURN
    {
      DegreesSplit(i, ring[0].position, step);
      FractionStays(i, 0.0, |ring|, step);
    }
  }

  lemma CutMatches(k: nat, c: nat, n: nat)
    requires 0 < k <= n && 0 < c <= n
    requires forall i: nat {:trigger Below(i, k)} :: i < n ==> (Below(i, k) <==> Below(i, c))
    ensures k == c
  {
    assert k < n ==> (Below(k, k) <==> Below(k, c));
    assert Below(k - 1, k) <==> Below(k - 1, c);
  }

  ghost predicate Below(i: int, k: int) { i < k }

  /** An even ring is cut where the crossings say. */
  lemma UniformCut(ring: seq<RingPoint>, step: real, angle: real)
    requires Uniform(ring, step)
    ensures var k := |ring| - Crossings(ring, step, angle) % |ring|;
      0 < k <= |ring| && Repositioned(ring, step, angle) == RotatedLeft(Turned(ring, step, angle), k)
  {
    var n, s := |ring|, Crossings(ring, step, angle);
    UniformAscends(ring, step);
    var k := RepositionedIsRotation(ring, step, angle);
    DivMod(s, n);
    forall i: nat {:trigger Below(i, k)} | i < n ensures Below(i, k) <==> Below(i, n - s % n) {
      TurnsOfUniform(ring, step, angle, i);
      TurnsOfUniform(ring, step, angle, 0);
      QuotientStays(s, i, n);
    }
    CutMatches(k, n - s % n, n);
  }

  /** Repositioning an even ring turns its nodes by the number of crossings. */
  lemma UniformRotates(ring: seq<RingPoint>, step: real, angle: real)
    requires Uniform(ring, step)
    ensures var turned := Repositioned(ring, step, angle);
      |turned| == |ring| && forall i :: 0 <= i < |ring| ==> turned[i].item == Cyclic(ring, i - Crossings(ring, step, angle)).item
  {
    var n, s := |ring|, Crossings(ring, step, angle);
    UniformCut(ring, step, angle);
    DivMod(s, n);
    var turned := Repositioned(ring, step, angle);
    forall i | 0 <= i < n ensures turned[i].item == Cyclic(ring, i - s).item {
      RotationIndex(i, s, n);
    }
  }

  lemma RotationIndex(i: nat, s: int, n: nat)
    requires n > 0 && i < n
    ensures (i - s) % n == if i < s % n then n - s % n + i else i - s % n
  {
    DivMod(s, n);
    if i < s % n {
      assert i - s == (-(s / n) - 1) * n + (n - s % n + i);
      ModUnique(i - s, n, -(s / n) - 1, n - s % n + i);
    } else {
      assert i - s == (-(s / n)) * n + (i - s % n);
      ModUnique(i - s, n, -(s / n), i - s % n);
    }
  }

  /** The same at any index around the ring. */
  lemma UniformRotatesAround(ring: seq<RingPoint>, step: real, angle: real, i: int)
    requires Uniform(ring, step)
    ensures |Repositioned(ring, step, angle)| == |ring|
    ensures Cyclic(Repositioned(ring, step, angle), i).item == Cyclic(ring, i - Crossings(ring, step, angle)).item
  {
    UniformRotates(ring, step, angle);
    ModOfSum(i, -Crossings(ring, step, angle), |ring|);
  }

  /** Equal crossings modulo the ring give equal rings, up to positions. */
  lemma SameCrossingsSameItems(ring: seq<RingPoint>, step: real, a: real, b: real, i: int)
    requires Uniform(ring, step)
    requires (Crossings(ring, step, a) - Crossings(ring, step, b)) % |ring| == 0
    ensures Cyclic(Repositioned(ring, step, a), i).item == Cyclic(Repositioned(ring, step, b), i).item
  {
    var n := |ring|;
    var sa, sb := Crossings(ring, step, a), Crossings(ring, step, b);
    UniformRotatesAround(ring, step, a, i);
    UniformRotatesAround(ring, step, b, i);
    DivMod(sa - sb, n);
    assert i - sb == i - sa + (sa - sb) / n * n;
    ModAdd(i - sa, (sa - sb) / n, n);
  }

  lemma SameItemsSameBrackets(inner: seq<RingPoint>, inner': seq<RingPoint>, outer: seq<RingPoint>, outer': seq<RingPoint>, n: nat)
    requires inner != [] && inner' != [] && outer != [] && outer' != []
    requires forall i: int :: Cyclic(inner, i).item == Cyclic(inner', i).item
    requires forall i: int :: Cyclic(outer, i).item == Cyclic(outer', i).item
    ensures Brackets(inner, outer, n) == Brackets(inner', outer', n)
  {
  }

  /** An even ring at equal crossings yields the same brackets, and so the same entries. */
  lemma SameCrossingsSameBrackets(inner: seq<RingPoint>, outer: seq<RingPoint>, step: real, a: real, b: real, y: real, n: nat)
    requires Uniform(inner, step) && outer != []
    requires (Crossings(inner, step, a) - Crossings(inner, step, b)) % |inner| == 0
    ensures Brackets(Repositioned(inner, step, a), Repositioned(outer, step, y), n)
         == Brackets(Repositioned(inner, step, b), Repositioned(outer, step, y), n)
  {
    forall i: int ensures Cyclic(Repositioned(inner, step, a), i).item == Cyclic(Repositioned(inner, step, b), i).item {
      SameCrossingsSameItems(inner, step, a, b, i);
    }
    SameItemsSameBrackets(Repositioned(inner, step, a), Repositioned(inner, step, b),
                          Repositioned(outer, step, y), Repositioned(outer, step, y), n);
  }

  // ----- both rings turned: only the relative crossings matter

  lemma RotatedNodePeriodic(ring: seq<RingPoint>, step: real, angle: real, n: nat)
    requires Uniform(ring, step) && NodePeriodic(ring, n)
    ensures Repositioned(ring, step, angle) != [] && NodePeriodic(Repositioned(ring, step, angle), n)
  {
    var s := Crossings(ring, step, angle);
    UniformRotates(ring, step, angle);
    forall i: int ensures NodeRepeats(Repositioned(ring, step, angle), n, i) {
      UniformRotatesAround(ring, step, angle, i);
      UniformRotatesAround(ring, step, angle, i + n);
      assert NodeRepeats(ring, n, i - s);
      assert i + n - s == i - s + n;
    }
  }

  ghost function RelativeCrossings(inner: seq<RingPoint>, outer: seq<RingPoint>, step: real, x: real, y: real): int
    requires inner != [] && outer != [] && step > 0.0
  {
    Crossings(inner, step, x) - Crossings(outer, step, y)
  }

  /** The same ring at two angles, read at matching indices. */
  lemma MatchingIndices(ring: seq<RingPoint>, step: real, x: real, x': real, i: int, i': int, q: int)
    requires Uniform(ring, step)
    requires i - Crossings(ring, step, x) == i' - Crossings(ring, step, x') + q * |ring|
    ensures |Repositioned(ring, step, x)| == |Repositioned(ring, step, x')| == |ring|
    ensures Cyclic(Repositioned(ring, step, x), i).item == Cyclic(Repositioned(ring, step, x'), i').item
  {
    UniformRotatesAround(ring, step, x, i);
    UniformRotatesAround(ring, step, x', i');
    ModAdd(i' - Crossings(ring, step, x'), q, |ring|);
  }

  lemma TurnedStencil(inner: seq<RingPoint>, outer: seq<RingPoint>, step: real, x: real, y: real, x': real, y': real, k: int, k': int, q: int)
    requires Uniform(inner, step) && Uniform(outer, step)
    requires k - Crossings(inner, step, x) == k' - Crossings(inner, step, x') + q * |inner|
    requires k - Crossings(outer, step, y) == k' - Crossings(outer, step, y')
    ensures |Repositioned(inner, step, x)| == |Repositioned(inner, step, x')| == |inner|
    ensures |Repositioned(outer, step, y)| == |Repositioned(outer, step, y')| == |outer|
    ensures RingStencil(Repositioned(inner, step, x), Repositioned(outer, step, y), k)
         == RingStencil(Repositioned(inner, step, x'), Repositioned(outer, step, y'), k')
  {
    MatchingIndices(inner, step, x, x', k - 2, k' - 2, q);
    MatchingIndices(inner, step, x, x', k - 1, k' - 1, q);
    MatchingIndices(inner, step, x, x', k, k', q);
    MatchingIndices(inner, step, x, x', k + 1, k' + 1, q);
    MatchingIndices(inner, step, x, x', k + 2, k' + 2, q);
    MatchingIndices(outer, step, y, y', k - 2, k' - 2, 0);
    MatchingIndices(outer, step, y, y', k - 1, k' - 1, 0);
    MatchingIndices(outer, step, y, y', k, k', 0);
    MatchingIndices(outer, step, y, y', k + 1, k' + 1, 0);
    MatchingIndices(outer, step, y, y', k + 2, k' + 2, 0);
  }

  /** What two rings at two angles bring together around the annulus. */
  ghost predicate MeetAt(inner: seq<RingPoint>, outer: seq<RingPoint>, step: real, x: real, y: real, e: Entry)
    requires Uniform(inner, step) && Uniform(outer, step)
  {
    UniformCut(inner, step, x);
    UniformCut(outer, step, y);
    MeetAround(Repositioned(inner, step, x), Repositioned(outer, step, y), e)
  }

  lemma MeetAtOtherAngles(inner: seq<RingPoint>, outer: seq<RingPoint>, step: real, x: real, y: real, x': real, y': real, q: int, e: Entry)
    requires Uniform(inner, step) && Uniform(outer, step)
    requires RelativeCrossings(inner, outer, step, x', y') - RelativeCrossings(inner, outer, step, x, y) == q * |inner|
    requires MeetAt(inner, outer, step, x, y, e)
    ensures MeetAt(inner, outer, step, x', y', e)
  {
    UniformCut(inner, step, x);
    UniformCut(outer, step, y);
    UniformCut(inner, step, x');
    UniformCut(outer, step, y');
    var k: int :| e in PairsOf(NodesIn(RingStencil(Repositioned(inner, step, x), Repositioned(outer, step, y), k)));
    var k' := k - Crossings(outer, step, y) + Crossings(outer, step, y');
    TurnedStencil(inner, outer, step, x, y, x', y', k, k', q);
    assert e in PairsOf(NodesIn(RingStencil(Repositioned(inner, step, x'), Repositioned(outer, step, y'), k')));
  }

  /** The entries of a placement of two even rings. */
  ghost function PlacedStructure(inner: seq<RingPoint>, outer: seq<RingPoint>, step: real, x: real, y: real, n: nat): set<Entry>
    requires inner != [] && outer != [] && step > 0.0
  {
    Structure(Brackets(Repositioned(inner, step, x), Repositioned(outer, step, y), n), n)
  }

  lemma PlacedStructureMeets(inner: seq<RingPoint>, outer: seq<RingPoint>, step: real, x: real, y: real, n: nat, e: Entry)
    requires Uniform(inner, step) && Uniform(outer, step) && n > 0
    requires NodePeriodic(inner, n) && NodePeriodic(outer, n)
    ensures e in PlacedStructure(inner, outer, step, x, y, n) <==> MeetAt(inner, outer, step, x, y, e)
  {
    RotatedNodePeriodic(inner, step, x, n);
    RotatedNodePeriodic(outer, step, y, n);
    StructureIsFullRing(Repositioned(inner, step, x), Repositioned(outer, step, y), n, e);
  }

  /** Two placements bring the same nodes together when their relative crossings agree
      modulo the ring, however far both rings have turned. */
  lemma SameRelativeCrossings(inner: seq<RingPoint>, outer: seq<RingPoint>, step: real, x: real, y: real, x': real, y': real, n: nat)
    requires Uniform(inner, step) && Uniform(outer, step) && n > 0
    requires NodePeriodic(inner, n) && NodePeriodic(outer, n)
    requires (RelativeCrossings(inner, outer, step, x', y') - RelativeCrossings(inner, outer, step, x, y)) % |inner| == 0
    ensures PlacedStructure(inner, outer, step, x, y, n) == PlacedStructure(inner, outer, step, x', y', n)
  {
    var d := RelativeCrossings(inner, outer, step, x', y') - RelativeCrossings(inner, outer, step, x, y);
    DivMod(d, |inner|);
    var q := d / |inner|;
    assert -d == -q * |inner|;
    PlacedWithin(inner, outer, step, x, y, x', y', n, q);
    PlacedWithin(inner, outer, step, x', y', x, y, n, -q);
  }

  lemma PlacedWithin(inner: seq<RingPoint>, outer: seq<RingPoint>, step: real, x: real, y: real, x': real, y': real, n: nat, q: int)
    requires Uniform(inner, step) && Uniform(outer, step) && n > 0
    requires NodePeriodic(inner, n) && NodePeriodic(outer, n)
    requires RelativeCrossings(inner, outer, step, x', y') - RelativeCrossings(inner, outer, step, x, y) == q * |inner|
    ensures PlacedStructure(inner, outer, step, x, y, n) <= PlacedStructure(inner, outer, step, x', y', n)
  {
    forall e | e in PlacedStructure(inner, outer, step, x, y, n) ensures e in PlacedStructure(inner, outer, step, x', y', n) {
      PlacedElsewhere(inner, outer, step, x, y, x', y', n, q, e);
    }
  }

  lemma PlacedElsewhere(inner: seq<RingPoint>, outer: seq<RingPoint>, step: real, x: real, y: real, x': real, y': real, n: nat, q: int, e: Entry)
    requires Uniform(inner, step) && Uniform(outer, step) && n > 0
    requires NodePeriodic(inner, n) && NodePeriodic(outer, n)
    requires RelativeCrossings(inner, outer, step, x', y') - RelativeCrossings(inner, outer, step, x, y) == q * |inner|
    requires e in PlacedStructure(inner, outer, step, x, y, n)
    ensures e in PlacedStructure(inner, outer, step, x', y', n)
  {
    PlacedStructureMeets(inner, outer, step, x, y, n, e);
    MeetAtOtherAngles(inner, outer, step, x, y, x', y', q, e);
    PlacedStructureMeets(inner, outer, step, x', y', n, e);
  }

  /** A whole turn adds one crossing for every ring point. */
  lemma CrossingsOfWholeTurns(ring: seq<RingPoint>, step: real, angle: real, k: int)
    requires Uniform(ring, step)
    ensures Crossings(ring, step, angle + FULL_TURN * (k as real)) == Crossings(ring, step, angle) + k * |ring|
  {
    CrossingsOfElements(ring, step, angle, k * |ring|);
    ArcProduct(k, |ring|, step);
  }

  /** Turning by whole elements adds that many crossings. */
  lemma CrossingsOfElements(ring: seq<RingPoint>, step: real, angle: real, k: int)
    requires ring != [] && step > 0.0
    ensures Crossings(ring, step, angle + Arc(k, step)) == Crossings(ring, step, angle) + k
  {
    QuotientSum(angle, k as real, step);
    assert (angle + Arc(k, step)) / step == angle / step + k as real;
  }
}
