/** Turning a ring: rotate every point, wrap it to one turn, sort again. */
module RingTurning {
  import opened Angles
  import opened StableOrder

  /** A position counted in elements, in degrees. */
  function Degrees(position: real, step: real): real {
    position * step
  }

  /** Where a point at a given position, in elements of `step` degrees, stands after a
      rotation by `angle` degrees: rotated and wrapped to one turn. */
  function Wrapped(position: real, step: real, angle: real): real
    requires step > 0.0
  {
    CanonicalDegrees(Degrees(position, step) + angle) / step
  }

  function Wrap(step: real, angle: real): real -> real
    requires step > 0.0
  {
    p => Wrapped(p, step, angle)
  }

  function Remapped<T>(s: seq<Placed<T>>, move: real -> real): (r: seq<Placed<T>>) {
    seq(|s|, i requires 0 <= i < |s| => Placed(s[i].item, move(s[i].position)))
  }

  /** Every position rotated and wrapped, in the given order. */
  function Turned<T>(s: seq<Placed<T>>, step: real, angle: real): (r: seq<Placed<T>>)
    requires step > 0.0
  {
    Remapped(s, Wrap(step, angle))
  }

  /** The rotated ring in position order. */
  function Repositioned<T>(topology: seq<Placed<T>>, step: real, angle: real): (r: seq<Placed<T>>)
    requires step > 0.0
  {
    StableSort(Turned(topology, step, angle))
  }

  function Relabeled<S, T>(s: seq<Placed<S>>, f: S -> T): (r: seq<Placed<T>>) {
    seq(|s|, i requires 0 <= i < |s| => Placed(f(s[i].item), s[i].position))
  }

  /** The points stand within less than one full turn of `start`. */
  ghost predicate WithinTurn<T>(s: seq<Placed<T>>, step: real, start: real) {
    forall i :: 0 <= i < |s| ==> start <= Degrees(s[i].position, step) < start + FULL_TURN
  }

  // ----- matching points of two sequences

  ghost function Moved<S, T>(a: seq<Placed<S>>, q: real, f: S -> T): seq<Placed<T>> {
    seq(|a|, k requires 0 <= k < |a| => Placed(f(a[k].item), q))
  }

  /** Index by index, `u` has at `q` what `s` has at `p`. */
  lemma {:induction false} AtCorresponds<S, T>(s: seq<Placed<S>>, u: seq<Placed<T>>, p: real, q: real, f: S -> T)
    requires |s| == |u|
    requires forall k :: 0 <= k < |s| ==> (s[k].position == p <==> u[k].position == q)
    requires forall k :: 0 <= k < |s| && s[k].position == p ==> u[k].item == f(s[k].item)
    ensures At(u, q) == Moved(At(s, p), q, f)
  {
    if s != [] {
      AtCorresponds(s[1..], u[1..], p, q, f);
      if s[0].position == p {
        assert u[0] == Placed(f(s[0].item), q);
      }
    }
  }

  lemma AtNowhere<T>(s: seq<Placed<T>>, p: real)
    requires forall k :: 0 <= k < |s| ==> s[k].position != p
    ensures At(s, p) == []
  {
    if At(s, p) != [] {
      AtMembers(s, p, At(s, p)[0]);
    }
  }

  lemma MulDiv(x: real, step: real)
    requires step > 0.0
    ensures x / step * step == x
    ensures Degrees(x / step, step) == x
  {
  }

  lemma DivInjective(x: real, y: real, step: real)
    requires step > 0.0
    ensures x / step == y / step <==> x == y
  {
    MulDiv(x, step);
    MulDiv(y, step);
  }

  lemma DivMonotone(x: real, y: real, step: real)
    requires step > 0.0
    ensures x / step <= y / step <==> x <= y
    ensures x / step < y / step <==> x < y
  {
    MulDiv(x, step);
    MulDiv(y, step);
    var a, b := x / step, y / step;
    if a < b { assert a * step < b * step; }
    if b < a { assert b * step < a * step; }
  }

  lemma MulInjective(x: real, y: real, step: real)
    requires step > 0.0
    ensures Degrees(x, step) == Degrees(y, step) <==> x == y
  {
    if x < y { assert x * step < y * step; }
    if y < x { assert y * step < x * step; }
  }

  // ----- relabelling

  lemma RelabeledKeepsOrder<S, T>(s: seq<Placed<S>>, r: seq<Placed<S>>, f: S -> T)
    requires SameAt(s, r)
    ensures SameAt(Relabeled(s, f), Relabeled(r, f))
  {
    forall p: real ensures At(Relabeled(s, f), p) == At(Relabeled(r, f), p) {
      AtCorresponds(s, Relabeled(s, f), p, p, f);
      AtCorresponds(r, Relabeled(r, f), p, p, f);
      assert At(s, p) == At(r, p);
    }
  }

  lemma SortRelabeled<S, T>(s: seq<Placed<S>>, f: S -> T)
    ensures StableSort(Relabeled(s, f)) == Relabeled(StableSort(s), f)
  {
    RelabeledKeepsOrder(s, StableSort(s), f);
    StableSortIs(Relabeled(s, f), Relabeled(StableSort(s), f));
  }

  // ----- moving every point by one function

  ghost predicate OneToOneOn<T>(s: seq<Placed<T>>, move: real -> real) {
    forall i, j :: 0 <= i < |s| && 0 <= j < |s| && move(s[i].position) == move(s[j].position)
      ==> s[i].position == s[j].position
  }

  lemma AtRemapped<T>(s: seq<Placed<T>>, move: real -> real, i: nat)
    requires OneToOneOn(s, move) && i < |s|
    ensures At(Remapped(s, move), move(s[i].position)) == Moved(At(s, s[i].position), move(s[i].position), (x: T) => x)
  {
    AtCorresponds(s, Remapped(s, move), s[i].position, move(s[i].position), (x: T) => x);
  }

  /** Moving respects "same points, same order at each position". */
  lemma RemappedKeepsOrder<T>(s: seq<Placed<T>>, r: seq<Placed<T>>, move: real -> real)
    requires OneToOneOn(s, move) && SameAt(s, r)
    ensures OneToOneOn(r, move)
    ensures SameAt(Remapped(s, move), Remapped(r, move))
  {
    forall e | e in r ensures e in s { SameMembers(s, r, e); }
    forall e | e in s ensures e in r { SameMembers(s, r, e); }
    forall i, j | 0 <= i < |r| && 0 <= j < |r| && move(r[i].position) == move(r[j].position)
      ensures r[i].position == r[j].position
    {
      assert r[i] in s && r[j] in s;
      var i', j' :| 0 <= i' < |s| && 0 <= j' < |s| && s[i'] == r[i] && s[j'] == r[j];
    }
    forall p: real ensures At(Remapped(s, move), p) == At(Remapped(r, move), p) {
      if i :| 0 <= i < |s| && move(s[i].position) == p {
        assert s[i] in r;
        var j :| 0 <= j < |r| && r[j] == s[i];
        AtRemapped(s, move, i);
        AtRemapped(r, move, j);
        assert At(s, s[i].position) == At(r, s[i].position);
      } else {
        forall k | 0 <= k < |r| ensures move(r[k].position) != p {
          assert r[k] in s;
        }
        AtNowhere(Remapped(s, move), p);
        AtNowhere(Remapped(r, move), p);
      }
    }
  }

  /** Sorting before a move makes no difference to the sorted result. */
  lemma SortingFirst<T>(s: seq<Placed<T>>, move: real -> real)
    requires OneToOneOn(s, move)
    ensures StableSort(Remapped(StableSort(s), move)) == StableSort(Remapped(s, move))
  {
    RemappedKeepsOrder(s, StableSort(s), move);
    var ts, tr := Remapped(s, move), Remapped(StableSort(s), move);
    var r := StableSort(tr);
    forall p: real ensures At(ts, p) == At(r, p) {
      assert At(ts, p) == At(tr, p);
      assert At(tr, p) == At(r, p);
    }
    StableSortIs(ts, r);
  }

  ghost function RotatedLeft<T>(s: seq<T>, k: nat): seq<T>
    requires k <= |s|
  {
    s[k..] + s[..k]
  }

  /** Moved in two ascending pieces, the second of which lands below the first. */
  ghost predicate CutsAt<T>(s: seq<Placed<T>>, move: real -> real, k: nat)
    requires k <= |s|
  {
    && (forall i, j :: 0 <= i < j < k ==> move(s[i].position) <= move(s[j].position))
    && (forall i, j :: k <= i < j < |s| ==> move(s[i].position) <= move(s[j].position))
    && (forall i, j :: 0 <= i < k <= j < |s| ==> move(s[j].position) < move(s[i].position))
  }

  lemma CutIsRotation<T>(s: seq<Placed<T>>, move: real -> real, k: nat)
    requires k <= |s| && CutsAt(s, move, k)
    ensures StableSort(Remapped(s, move)) == RotatedLeft(Remapped(s, move), k)
  {
    var ts := Remapped(s, move);
    CutAscends(s, move, k);
    CutKeepsPlaces(s, move, k);
    StableSortIs(ts, ts[k..] + ts[..k]);
  }

  lemma CutAscends<T>(s: seq<Placed<T>>, move: real -> real, k: nat)
    requires k <= |s| && CutsAt(s, move, k)
    ensures var ts := Remapped(s, move); Ascending(ts[k..] + ts[..k])
  {
    var ts := Remapped(s, move);
    var r, m := ts[k..] + ts[..k], |s| - k;
    forall i, j | 0 <= i < j < |r| ensures r[i].position <= r[j].position {
      if i < m <= j {
        assert r[i] == ts[k + i] && r[j] == ts[j - m];
      } else if j < m {
        assert r[i] == ts[k + i] && r[j] == ts[k + j];
      } else {
        assert r[i] == ts[i - m] && r[j] == ts[j - m];
      }
    }
  }

  lemma CutKeepsPlaces<T>(s: seq<Placed<T>>, move: real -> real, k: nat)
    requires k <= |s| && CutsAt(s, move, k)
    ensures var ts := Remapped(s, move); SameAt(ts, ts[k..] + ts[..k])
  {
    var ts := Remapped(s, move);
    var head, tail := ts[..k], ts[k..];
    assert ts == head + tail;
    forall p: real ensures At(ts, p) == At(tail + head, p) {
      AtConcat(head, tail, p);
      AtConcat(tail, head, p);
      if At(head, p) != [] && At(tail, p) != [] {
        AtMembers(head, p, At(head, p)[0]);
        AtMembers(tail, p, At(tail, p)[0]);
        assert false;
      }
    }
  }

  // ----- turning

  lemma DegreesOfWrapped(x: real, step: real)
    requires step > 0.0
    ensures Degrees(CanonicalDegrees(x) / step, step) == CanonicalDegrees(x)
  {
    MulDiv(CanonicalDegrees(x), step);
  }

  lemma WrapWholeTurns(p: real, step: real, angle: real, k: int)
    requires step > 0.0
    ensures Wrapped(p, step, angle + FULL_TURN * (k as real)) == Wrapped(p, step, angle)
  {
    var x := Degrees(p, step) + angle;
    CanonicalOfWholeTurns(x, k);
  }

  /** Only the angle within one turn matters. */
  lemma RepositionedWholeTurns<T>(s: seq<Placed<T>>, step: real, angle: real, k: int)
    requires step > 0.0
    ensures Repositioned(s, step, angle + FULL_TURN * (k as real)) == Repositioned(s, step, angle)
  {
    forall i | 0 <= i < |s|
      ensures Wrap(step, angle + FULL_TURN * (k as real))(s[i].position) == Wrap(step, angle)(s[i].position)
    {
      WrapWholeTurns(s[i].position, step, angle, k);
    }
    assert Turned(s, step, angle + FULL_TURN * (k as real)) == Turned(s, step, angle);
  }

  lemma CanonicalSeparates(x: real, y: real)
    requires -FULL_TURN < x - y < FULL_TURN && CanonicalDegrees(x) == CanonicalDegrees(y)
    ensures x == y
  {
    CanonicalIffWholeTurns(x, y);
  }

  lemma WrapSeparates(p: real, q: real, step: real, angle: real)
    requires step > 0.0
    requires -FULL_TURN < Degrees(p, step) - Degrees(q, step) < FULL_TURN
    requires Wrapped(p, step, angle) == Wrapped(q, step, angle)
    ensures p == q
  {
    DivInjective(CanonicalDegrees(Degrees(p, step) + angle), CanonicalDegrees(Degrees(q, step) + angle), step);
    CanonicalSeparates(Degrees(p, step) + angle, Degrees(q, step) + angle);
    MulInjective(p, q, step);
  }

  lemma WrapOneToOne<T>(s: seq<Placed<T>>, step: real, angle: real, start: real)
    requires step > 0.0 && WithinTurn(s, step, start)
    ensures OneToOneOn(s, Wrap(step, angle))
  {
    forall i, j | 0 <= i < |s| && 0 <= j < |s| && Wrap(step, angle)(s[i].position) == Wrap(step, angle)(s[j].position)
      ensures s[i].position == s[j].position
    {
      WrapSeparates(s[i].position, s[j].position, step, angle);
    }
  }

  /** Sorting before a turn makes no difference to the sorted turned ring,
      even for points that share a position. */
  lemma SortingFirstIsHarmless<T>(s: seq<Placed<T>>, step: real, angle: real, start: real)
    requires step > 0.0 && WithinTurn(s, step, start)
    ensures Repositioned(StableSort(s), step, angle) == Repositioned(s, step, angle)
  {
    WrapOneToOne(s, step, angle, start);
    SortingFirst(s, Wrap(step, angle));
  }

  lemma MulMonotone(x: real, y: real, step: real)
    requires step > 0.0 && x <= y
    ensures Degrees(x, step) <= Degrees(y, step)
  {
  }

  /** How many whole turns the wrap takes off. */
  function TurnCount(position: real, step: real, angle: real): int {
    Turns(Degrees(position, step) + angle)
  }

  function TurnsOf(step: real, angle: real): real -> int {
    p => TurnCount(p, step, angle)
  }

  /** In ascending order and within one turn, rotated points take one wrap count and then the next. */
  lemma TurnsStep(p: real, q: real, step: real, angle: real)
    requires step > 0.0 && p <= q && Degrees(q, step) - Degrees(p, step) < FULL_TURN
    ensures TurnCount(p, step, angle) <= TurnCount(q, step, angle) <= TurnCount(p, step, angle) + 1
    ensures TurnCount(q, step, angle) == TurnCount(p, step, angle) ==> Wrapped(p, step, angle) <= Wrapped(q, step, angle)
    ensures TurnCount(q, step, angle) == TurnCount(p, step, angle) + 1 ==> Wrapped(q, step, angle) < Wrapped(p, step, angle)
  {
    MulMonotone(p, q, step);
    var x, y := Degrees(p, step), Degrees(q, step);
    DivMonotone(CanonicalDegrees(x + angle), CanonicalDegrees(y + angle), step);
    DivMonotone(CanonicalDegrees(y + angle), CanonicalDegrees(x + angle), step);
  }

  lemma TurnsStepAll<T>(s: seq<Placed<T>>, step: real, angle: real, i: nat, j: nat)
    requires step > 0.0 && Ascending(s) && i <= j < |s|
    requires WithinTurn(s, step, Degrees(s[0].position, step))
    ensures TurnsOf(step, angle)(s[i].position) <= TurnsOf(step, angle)(s[j].position) <= TurnsOf(step, angle)(s[i].position) + 1
    ensures TurnsOf(step, angle)(s[j].position) == TurnsOf(step, angle)(s[i].position) ==>
              Wrap(step, angle)(s[i].position) <= Wrap(step, angle)(s[j].position)
    ensures TurnsOf(step, angle)(s[j].position) == TurnsOf(step, angle)(s[i].position) + 1 ==>
              Wrap(step, angle)(s[j].position) < Wrap(step, angle)(s[i].position)
  {
    MulMonotone(s[0].position, s[i].position, step);
    TurnsStep(s[i].position, s[j].position, step, angle);
  }

  /** The repositioned ring is the stored ring turned point by point and cut once, where
      the first point comes round: a cyclic rotation. */
  lemma RepositionedIsRotation<T>(s: seq<Placed<T>>, step: real, angle: real) returns (k: nat)
    requires step > 0.0 && Ascending(s) && s != []
    requires WithinTurn(s, step, Degrees(s[0].position, step))
    ensures 0 < k <= |s|
    ensures forall i :: 0 <= i < |s| ==> (i < k <==> TurnsOf(step, angle)(s[i].position) == TurnsOf(step, angle)(s[0].position))
    ensures Repositioned(s, step, angle) == RotatedLeft(Turned(s, step, angle), k)
  {
    var turns, move := TurnsOf(step, angle), Wrap(step, angle);
    forall i, j | 0 <= i <= j < |s|
      ensures turns(s[i].position) <= turns(s[j].position) <= turns(s[i].position) + 1
      ensures turns(s[j].position) == turns(s[i].position) ==> move(s[i].position) <= move(s[j].position)
      ensures turns(s[j].position) == turns(s[i].position) + 1 ==> move(s[j].position) < move(s[i].position)
    {
      TurnsStepAll(s, step, angle, i, j);
    }
    k := 1;
    while k < |s| && turns(s[k].position) == turns(s[0].position)
      invariant 1 <= k <= |s|
      invariant forall i :: 0 <= i < k ==> turns(s[i].position) == turns(s[0].position)
    {
      k := k + 1;
    }
    assert CutsAt(s, move, k);
    CutIsRotation(s, move, k);
  }
}
