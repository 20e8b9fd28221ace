/** Positioning all gaps of a solver at the angles asked for, boundary by boundary. */
module GapPlacement {
  import opened Wrappers
  import opened StableOrder
  import opened RingTurning
  import opened AirGapRing
  import opened AirGapPosition
  import opened Stencil
  import opened EntryOrder
  import opened PeriodicClosure
  import opened Bucket

  ghost predicate AllPositionable(gaps: seq<Gap>) {
    forall k :: 0 <= k < |gaps| ==> Positionable(gaps[k])
  }

  ghost predicate InNames(prepared: seq<GapPosition>, names: seq<string>) {
    forall j :: 0 <= j < |prepared| ==> prepared[j].id < |names|
  }

  ghost predicate SameTopologies(gaps: seq<Gap>, gaps': seq<Gap>) {
    |gaps| == |gaps'| && forall k :: 0 <= k < |gaps| ==> SameTopology(gaps[k], gaps'[k])
  }

  /** The gaps after positioning, up to the one whose rings do not match. */
  datatype Placing = Placing(gaps: seq<Gap>, ok: bool)

  /** One gap, positioned if it is of that name. */
  ghost function PositionOne(gaps: seq<Gap>, k: nat, name: string, p: GapPosition): (r: Placing)
    requires AllPositionable(gaps) && k < |gaps|
    ensures SameTopologies(gaps, r.gaps) && AllPositionable(r.gaps)
  {
    if gaps[k].name != name then Placing(gaps, true)
    else
      var moved := PositionedGap(gaps[k], p.innerAngle, p.outerAngle);
      if moved.Failed? then Placing(gaps, false) else Placing(gaps[k := moved.value], true)
  }

  /** Position the gaps of one boundary, among the first `upTo`. */
  ghost function PositionNamed(gaps: seq<Gap>, name: string, p: GapPosition, upTo: nat): (r: Placing)
    requires AllPositionable(gaps) && upTo <= |gaps|
    ensures SameTopologies(gaps, r.gaps) && AllPositionable(r.gaps)
  {
    if upTo == 0 then Placing(gaps, true)
    else
      var before := PositionNamed(gaps, name, p, upTo - 1);
      if before.ok then PositionOne(before.gaps, upTo - 1, name, p) else before
  }

  /** Position the gaps of the first `upTo` boundaries asked for. */
  ghost function PositionAll(gaps: seq<Gap>, names: seq<string>, prepared: seq<GapPosition>, upTo: nat): (r: Placing)
    requires AllPositionable(gaps) && InNames(prepared, names) && upTo <= |prepared|
    ensures SameTopologies(gaps, r.gaps) && AllPositionable(r.gaps)
  {
    if upTo == 0 then Placing(gaps, true)
    else
      var before := PositionAll(gaps, names, prepared, upTo - 1);
      if !before.ok then before
      else PositionNamed(before.gaps, names[prepared[upTo - 1].id], prepared[upTo - 1], |gaps|)
  }

  method PositionAirGaps(gaps: seq<Gap>, names: seq<string>, prepared: seq<GapPosition>) returns (ok: bool, placed: seq<Gap>)
    requires AllPositionable(gaps) && InNames(prepared, names)
    ensures Placing(placed, ok) == PositionAll(gaps, names, prepared, |prepared|)
  {
    placed := gaps;
    var j := 0;
    while j < |prepared|
      invariant 0 <= j <= |prepared| && AllSoFar(gaps, names, prepared, j, placed)
    {
      AllNext(gaps, names, prepared, j, placed);
      ok, placed := PositionBoundary(placed, names[prepared[j].id], prepared[j]);
      if !ok {
        return;
      }
      j := j + 1;
    }
    ok := true;
  }

  /** The first `j` boundaries have been positioned without failure. */
  ghost predicate AllSoFar(gaps: seq<Gap>, names: seq<string>, prepared: seq<GapPosition>, j: nat, placed: seq<Gap>)
    requires AllPositionable(gaps) && InNames(prepared, names) && j <= |prepared|
  {
    |placed| == |gaps| && AllPositionable(placed) && Placing(placed, true) == PositionAll(gaps, names, prepared, j)
  }

  lemma {:induction false} AllNext(gaps: seq<Gap>, names: seq<string>, prepared: seq<GapPosition>, j: nat, placed: seq<Gap>)
    requires AllPositionable(gaps) && InNames(prepared, names) && j < |prepared| && AllSoFar(gaps, names, prepared, j, placed)
    ensures var r := PositionNamed(placed, names[prepared[j].id], prepared[j], |placed|);
      if r.ok then AllSoFar(gaps, names, prepared, j + 1, r.gaps) else r == PositionAll(gaps, names, prepared, |prepared|)
  {
    var r := PositionNamed(placed, names[prepared[j].id], prepared[j], |placed|);
    assert PositionAll(gaps, names, prepared, j + 1) == r;
    if !r.ok {
      StaysFailed(gaps, names, prepared, j + 1, |prepared|);
    }
  }

  method PositionGapAt(gaps: seq<Gap>, k: nat, name: string, p: GapPosition) returns (ok: bool, placed: seq<Gap>)
    requires AllPositionable(gaps) && k < |gaps|
    ensures Placing(placed, ok) == PositionOne(gaps, k, name, p)
  {
    if gaps[k].name != name {
      return true, gaps;
    }
    var gap := new AirGapElement(gaps[k]);
    ok := gap.PositionGap(p.innerAngle, p.outerAngle);
    placed := if ok then gaps[k := gap.Value()] else gaps;
  }

  method PositionBoundary(gaps: seq<Gap>, name: string, p: GapPosition) returns (ok: bool, placed: seq<Gap>)
    requires AllPositionable(gaps)
    ensures Placing(placed, ok) == PositionNamed(gaps, name, p, |gaps|)
  {
    placed := gaps;
    var k := 0;
    while k < |gaps|
      invariant 0 <= k <= |gaps| && NamedSoFar(gaps, name, p, k, placed)
    {
      NamedNext(gaps, name, p, k, placed);
      ok, placed := PositionGapAt(placed, k, name, p);
      if !ok {
        return;
      }
      k := k + 1;
    }
    ok := true;
  }

  /** The first `k` gaps have been positioned without failure. */
  ghost predicate NamedSoFar(gaps: seq<Gap>, name: string, p: GapPosition, k: nat, placed: seq<Gap>)
    requires AllPositionable(gaps) && k <= |gaps|
  {
    |placed| == |gaps| && AllPositionable(placed) && Placing(placed, true) == PositionNamed(gaps, name, p, k)
  }

  lemma {:induction false} NamedNext(gaps: seq<Gap>, name: string, p: GapPosition, k: nat, placed: seq<Gap>)
    requires AllPositionable(gaps) && k < |gaps| && NamedSoFar(gaps, name, p, k, placed)
    ensures var r := PositionOne(placed, k, name, p);
      if r.ok then NamedSoFar(gaps, name, p, k + 1, r.gaps) else r == PositionNamed(gaps, name, p, |gaps|)
  {
    var r := PositionOne(placed, k, name, p);
    assert PositionNamed(gaps, name, p, k + 1) == r;
    if !r.ok {
      NamedStaysFailed(gaps, name, p, k + 1, |gaps|);
    }
  }

  lemma {:induction false} NamedStaysFailed(gaps: seq<Gap>, name: string, p: GapPosition, low: nat, high: nat)
    requires AllPositionable(gaps) && low <= high <= |gaps| && !PositionNamed(gaps, name, p, low).ok
    ensures PositionNamed(gaps, name, p, high) == PositionNamed(gaps, name, p, low)
  {
    if low < high {
      NamedStaysFailed(gaps, name, p, low, high - 1);
      var before := PositionNamed(gaps, name, p, high - 1);
      assert !before.ok;
      assert PositionNamed(gaps, name, p, high) == before;
    }
  }

  lemma {:induction false} StaysFailed(gaps: seq<Gap>, names: seq<string>, prepared: seq<GapPosition>, low: nat, high: nat)
    requires AllPositionable(gaps) && InNames(prepared, names) && low <= high <= |prepared|
    requires !PositionAll(gaps, names, prepared, low).ok
    ensures PositionAll(gaps, names, prepared, high) == PositionAll(gaps, names, prepared, low)
  {
    if low < high {
      StaysFailed(gaps, names, prepared, low, high - 1);
    }
  }

  // ----- where the gaps end up

  /** The last angles asked for a boundary of that name. */
  ghost function LastAsked(name: string, names: seq<string>, prepared: seq<GapPosition>, upTo: nat): (r: Outcome<GapPosition, ()>)
    requires InNames(prepared, names) && upTo <= |prepared|
  {
    if upTo == 0 then Failed(())
    else if names[prepared[upTo - 1].id] == name then Done(prepared[upTo - 1])
    else LastAsked(name, names, prepared, upTo - 1)
  }

  /** The gap stands where it was asked to: positioning it again changes nothing. */
  ghost predicate Stands(g: Gap, names: seq<string>, prepared: seq<GapPosition>, upTo: nat)
    requires Positionable(g) && InNames(prepared, names) && upTo <= |prepared|
  {
    var last := LastAsked(g.name, names, prepared, upTo);
    last.Done? ==> PositionedGap(g, last.value.innerAngle, last.value.outerAngle) == Done(g)
  }

  ghost predicate PlacedFor(gaps: seq<Gap>, names: seq<string>, prepared: seq<GapPosition>)
    requires AllPositionable(gaps) && InNames(prepared, names)
  {
    forall k :: 0 <= k < |gaps| ==> Stands(gaps[k], names, prepared, |prepared|)
  }

  /** Every gap asked for has two rings of the same size, or is not a ring. */
  ghost predicate Matching(gaps: seq<Gap>, names: seq<string>, prepared: seq<GapPosition>, upTo: nat)
    requires InNames(prepared, names) && upTo <= |prepared|
  {
    forall k :: 0 <= k < |gaps| && LastAsked(gaps[k].name, names, prepared, upTo).Done? ==> RingsMatch(gaps[k])
  }

  lemma MatchingAfter(gaps: seq<Gap>, gaps': seq<Gap>, names: seq<string>, prepared: seq<GapPosition>)
    requires InNames(prepared, names) && SameTopologies(gaps, gaps')
    ensures Matching(gaps, names, prepared, |prepared|) <==> Matching(gaps', names, prepared, |prepared|)
  {
    forall k | 0 <= k < |gaps| ensures gaps[k].name == gaps'[k].name && (RingsMatch(gaps[k]) <==> RingsMatch(gaps'[k])) {
      assert SameTopology(gaps[k], gaps'[k]);
    }
  }

  lemma RepositionTwice(g: Gap, inner: real, outer: real)
    requires Positionable(g) && PositionedGap(g, inner, outer).Done?
    ensures var h := PositionedGap(g, inner, outer).value; Positionable(h) && PositionedGap(h, inner, outer) == Done(h)
  {
  }

  /** Gap `k` has moved as asked, or is of another name. */
  ghost predicate Moved(g: Gap, g': Gap, name: string, p: GapPosition)
    requires Positionable(g)
  {
    if g.name == name then PositionedGap(g, p.innerAngle, p.outerAngle) == Done(g') else g' == g
  }

  lemma OneMoves(gaps: seq<Gap>, k: nat, name: string, p: GapPosition)
    requires AllPositionable(gaps) && k < |gaps|
    ensures var r := PositionOne(gaps, k, name, p);
      && (r.ok <==> (gaps[k].name == name ==> RingsMatch(gaps[k])))
      && (r.ok ==> Moved(gaps[k], r.gaps[k], name, p))
      && (forall i :: 0 <= i < |gaps| && i != k ==> r.gaps[i] == gaps[i])
  {
  }

  lemma NextMoves(gaps: seq<Gap>, name: string, p: GapPosition, upTo: nat, before: Placing)
    requires AllPositionable(gaps) && 0 < upTo <= |gaps| && |before.gaps| == |gaps| && AllPositionable(before.gaps)
    requires before.ok <==> forall k :: 0 <= k < upTo - 1 && gaps[k].name == name ==> RingsMatch(gaps[k])
    requires forall k :: upTo - 1 <= k < |gaps| ==> before.gaps[k] == gaps[k]
    requires before.ok ==> forall k :: 0 <= k < upTo - 1 ==> Moved(gaps[k], before.gaps[k], name, p)
    ensures var r := if before.ok then PositionOne(before.gaps, upTo - 1, name, p) else before;
      && (r.ok <==> forall k :: 0 <= k < upTo && gaps[k].name == name ==> RingsMatch(gaps[k]))
      && (forall k :: upTo <= k < |gaps| ==> r.gaps[k] == gaps[k])
      && (r.ok ==> forall k :: 0 <= k < upTo ==> Moved(gaps[k], r.gaps[k], name, p))
  {
    assert before.gaps[upTo - 1] == gaps[upTo - 1];
    if before.ok {
      OneMoves(before.gaps, upTo - 1, name, p);
    }
  }

  lemma {:induction false} NamedMoves(gaps: seq<Gap>, name: string, p: GapPosition, upTo: nat)
    requires AllPositionable(gaps) && upTo <= |gaps|
    ensures var r := PositionNamed(gaps, name, p, upTo);
      && (r.ok <==> forall k :: 0 <= k < upTo && gaps[k].name == name ==> RingsMatch(gaps[k]))
      && (forall k :: upTo <= k < |gaps| ==> r.gaps[k] == gaps[k])
      && (r.ok ==> forall k :: 0 <= k < upTo ==> Moved(gaps[k], r.gaps[k], name, p))
  {
    if upTo > 0 {
      NamedMoves(gaps, name, p, upTo - 1);
      NextMoves(gaps, name, p, upTo, PositionNamed(gaps, name, p, upTo - 1));
    }
  }

  /** Positioning succeeds exactly when the rings match, and then every gap stands where it was
      last asked to. */
  lemma {:induction false} PositionAllPlaces(gaps: seq<Gap>, names: seq<string>, prepared: seq<GapPosition>, upTo: nat)
    requires AllPositionable(gaps) && InNames(prepared, names) && upTo <= |prepared|
    ensures var r := PositionAll(gaps, names, prepared, upTo);
      && (r.ok <==> Matching(gaps, names, prepared, upTo))
      && (r.ok ==> forall k :: 0 <= k < |gaps| ==> Stands(r.gaps[k], names, prepared, upTo))
  {
    if upTo > 0 {
      var before, r := PositionAll(gaps, names, prepared, upTo - 1), PositionAll(gaps, names, prepared, upTo);
      var p := prepared[upTo - 1];
      var name := names[p.id];
      PositionAllPlaces(gaps, names, prepared, upTo - 1);
      if before.ok {
        NamedMoves(before.gaps, name, p, |gaps|);
        forall k | 0 <= k < |gaps|
          ensures gaps[k].name == before.gaps[k].name && (RingsMatch(gaps[k]) <==> RingsMatch(before.gaps[k]))
        {
          assert SameTopology(gaps[k], before.gaps[k]);
        }
        if r.ok {
          forall k | 0 <= k < |gaps| ensures Stands(r.gaps[k], names, prepared, upTo) {
            assert SameTopology(before.gaps[k], r.gaps[k]);
            assert Stands(before.gaps[k], names, prepared, upTo - 1) && Moved(before.gaps[k], r.gaps[k], name, p);
            if before.gaps[k].name == name {
              RepositionTwice(before.gaps[k], p.innerAngle, p.outerAngle);
            }
          }
        }
        MatchingNext(gaps, names, prepared, upTo);
      } else {
        MatchingNext(gaps, names, prepared, upTo);
      }
    }
  }

  lemma MatchingNext(gaps: seq<Gap>, names: seq<string>, prepared: seq<GapPosition>, upTo: nat)
    requires InNames(prepared, names) && 0 < upTo <= |prepared|
    ensures Matching(gaps, names, prepared, upTo) <==>
      && Matching(gaps, names, prepared, upTo - 1)
      && forall k :: 0 <= k < |gaps| && gaps[k].name == names[prepared[upTo - 1].id] ==> RingsMatch(gaps[k])
  {
    var name := names[prepared[upTo - 1].id];
    assert forall k :: 0 <= k < |gaps| ==>
      (LastAsked(gaps[k].name, names, prepared, upTo).Done? <==> gaps[k].name == name || LastAsked(gaps[k].name, names, prepared, upTo - 1).Done?);
  }

  // ----- what positioning keeps

  ghost predicate AllImported(gaps: seq<Gap>, numNodes: nat) {
    forall k :: 0 <= k < |gaps| ==> Imported(gaps[k], numNodes)
  }

  lemma OneMoveKeepsImported(gaps: seq<Gap>, k: nat, name: string, p: GapPosition, numNodes: nat)
    requires AllPositionable(gaps) && AllImported(gaps, numNodes) && k < |gaps|
    ensures AllImported(PositionOne(gaps, k, name, p).gaps, numNodes)
  {
    var after := PositionOne(gaps, k, name, p).gaps;
    if after[k] != gaps[k] {
      PositionedStaysImported(gaps[k], p.innerAngle, p.outerAngle, numNodes);
    }
    forall i | 0 <= i < |after| ensures Imported(after[i], numNodes) {
      assert Imported(gaps[i], numNodes);
    }
  }

  lemma {:induction false} NamedKeepsImported(gaps: seq<Gap>, name: string, p: GapPosition, upTo: nat, numNodes: nat)
    requires AllPositionable(gaps) && AllImported(gaps, numNodes) && upTo <= |gaps|
    ensures AllImported(PositionNamed(gaps, name, p, upTo).gaps, numNodes)
  {
    if upTo > 0 {
      NamedKeepsImported(gaps, name, p, upTo - 1, numNodes);
      var before := PositionNamed(gaps, name, p, upTo - 1);
      OneMoveKeepsImported(before.gaps, upTo - 1, name, p, numNodes);
      assert PositionNamed(gaps, name, p, upTo) == if before.ok then PositionOne(before.gaps, upTo - 1, name, p) else before;
    }
  }

  lemma {:induction false} PlacingKeepsImported(gaps: seq<Gap>, names: seq<string>, prepared: seq<GapPosition>, upTo: nat, numNodes: nat)
    requires AllPositionable(gaps) && AllImported(gaps, numNodes) && InNames(prepared, names) && upTo <= |prepared|
    ensures AllImported(PositionAll(gaps, names, prepared, upTo).gaps, numNodes)
  {
    if upTo > 0 {
      PlacingKeepsImported(gaps, names, prepared, upTo - 1, numNodes);
      var before := PositionAll(gaps, names, prepared, upTo - 1);
      if before.ok {
        NamedKeepsImported(before.gaps, names[prepared[upTo - 1].id], prepared[upTo - 1], |gaps|, numNodes);
      }
    }
  }

  /** A definition serves every preparation of its identity, however the gaps were repositioned since. */
  lemma DefinitionServes(d: BucketDefinition, gaps: seq<Gap>, gaps': seq<Gap>, names: seq<string>, prepared: seq<GapPosition>, prepared': seq<GapPosition>,
                         width: real, ulp: real, pairs: seq<(int, int)>, numNodes: nat)
    requires width > 0.0 && AllImported(gaps, numNodes) && AllImported(gaps', numNodes) && InNames(prepared, names) && InNames(prepared', names)
    requires SameTopologies(gaps, gaps') && IdentityOf(prepared, width) == IdentityOf(prepared', width)
    requires IsDefinition(d, gaps, names, prepared, width, ulp, pairs, numNodes)
    ensures IsDefinition(d, gaps', names, prepared', width, ulp, pairs, numNodes)
  {
    var source :| IsSource(source, gaps, names, prepared, width, ulp, numNodes)
      && forall e :: e in d.upperEntries <==> InClosure(source, pairs, numNodes, e);
    SamePreparations(prepared, prepared', width);
    forall e ensures e in source <==> Sampled(gaps', names, prepared', width, ulp, numNodes, e) {
      forall k | 0 <= k < |prepared|
        ensures SampledFor(gaps, names, prepared[k], width, ulp, numNodes, e) <==> SampledFor(gaps', names, prepared'[k], width, ulp, numNodes, e)
      {
        SampledSame(gaps, gaps', names, prepared[k], prepared'[k], width, ulp, numNodes, e);
      }
      assert e in source <==> Sampled(gaps, names, prepared, width, ulp, numNodes, e);
    }
    assert IsSource(source, gaps', names, prepared', width, ulp, numNodes);
  }

  /** Whether the patterns can be built depends on the boundaries asked for, not on their angles. */
  lemma AllMatchSurvives(gaps: seq<Gap>, gaps': seq<Gap>, names: seq<string>, prepared: seq<GapPosition>, prepared': seq<GapPosition>, width: real)
    requires width > 0.0 && InNames(prepared, names) && InNames(prepared', names)
    requires SameTopologies(gaps, gaps') && IdentityOf(prepared, width) == IdentityOf(prepared', width)
    requires AllMatch(gaps, names, prepared)
    ensures AllMatch(gaps', names, prepared')
  {
    SamePreparations(prepared, prepared', width);
    forall k | 0 <= k < |prepared'| ensures MatchesFor(gaps', names[prepared'[k].id]) {
      var name := names[prepared[k].id];
      assert MatchesFor(gaps, name);
      FindGapSame(gaps, gaps', name);
      FindGapInRange(gaps, name);
      if FindGap(gaps, name) >= 0 {
        assert SameTopology(gaps[FindGap(gaps, name)], gaps'[FindGap(gaps, name)]);
      }
    }
  }

  /** With gaps of different names, patterns can be built exactly when all gaps can be positioned. */
  lemma AllMatchIsMatching(gaps: seq<Gap>, names: seq<string>, prepared: seq<GapPosition>)
    requires InNames(prepared, names)
    requires forall i, j :: 0 <= i < j < |gaps| ==> gaps[i].name != gaps[j].name
    ensures AllMatch(gaps, names, prepared) <==> Matching(gaps, names, prepared, |prepared|)
  {
    forall j | 0 <= j < |prepared| { FindGapInRange(gaps, names[prepared[j].id]); }
    if AllMatch(gaps, names, prepared) {
      forall k | 0 <= k < |gaps| && LastAsked(gaps[k].name, names, prepared, |prepared|).Done? ensures RingsMatch(gaps[k]) {
        var j := AskedAt(gaps[k].name, names, prepared, |prepared|);
        assert MatchesFor(gaps, names[prepared[j].id]);
        FindsFirst(gaps, k);
      }
    }
    if Matching(gaps, names, prepared, |prepared|) {
      forall j | 0 <= j < |prepared| ensures MatchesFor(gaps, names[prepared[j].id]) {
        IsAsked(names, prepared, |prepared|, j);
      }
    }
  }

  lemma {:induction false} AskedAt(name: string, names: seq<string>, prepared: seq<GapPosition>, upTo: nat) returns (j: nat)
    requires InNames(prepared, names) && upTo <= |prepared| && LastAsked(name, names, prepared, upTo).Done?
    ensures j < upTo && names[prepared[j].id] == name
  {
    if names[prepared[upTo - 1].id] == name {
      j := upTo - 1;
    } else {
      j := AskedAt(name, names, prepared, upTo - 1);
    }
  }

  lemma {:induction false} IsAsked(names: seq<string>, prepared: seq<GapPosition>, upTo: nat, j: nat)
    requires InNames(prepared, names) && j < upTo <= |prepared|
    ensures LastAsked(names[prepared[j].id], names, prepared, upTo).Done?
  {
    if j < upTo - 1 {
      IsAsked(names, prepared, upTo - 1, j);
    }
  }
}
