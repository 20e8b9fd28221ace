/** Where a synchronized session's gaps stand and which bucket it has selected, in terms of its parameters. */
module SessionGaps {
  import opened Wrappers
  import opened Angles
  import opened AirGapRing
  import opened AirGapPosition
  import opened Tiling
  import opened EntryOrder
  import opened Stencil
  import opened Bucket
  import opened GapPlacement
  import opened SolverBackend
  import opened SessionModel
  import opened AnalysisSession
  import opened SessionRuns

  /** The boundary of that name with the highest number among those with angles. */
  ghost predicate IsLastNamed(s: Session, id: nat, name: string) {
    && id in s.parameters.gaps && id < |s.model.lines| && s.model.lines[id].name == name
    && forall j: nat :: id < j < |s.model.lines| && j in s.parameters.gaps ==> s.model.lines[j].name != name
  }

  /** The gap stands at the angles of the parameters: positioning it there changes nothing. */
  ghost predicate StandsAt(g: Gap, p: Position)
    requires Positionable(g)
  {
    PositionedGap(g, p.innerAngle, p.outerAngle) == Done(g)
  }

  /** Gap `k` of the solver stands at the angles of the last boundary of its name. */
  ghost predicate GapStands(s: Session, k: nat)
    requires k < |s.backend.gaps| && Positionable(s.backend.gaps[k])
  {
    forall id: nat :: IsLastNamed(s, id, s.backend.gaps[k].name) ==> StandsAt(s.backend.gaps[k], s.parameters.gaps[id])
  }

  /** Two rings of different size stand in the way. */
  ghost predicate GapFits(s: Session, k: nat)
    requires k < |s.backend.gaps|
  {
    var g := s.backend.gaps[k];
    (exists id: nat :: IsLastNamed(s, id, g.name)) ==> g.innerRing == [] || g.outerRing == [] || |g.innerRing| == |g.outerRing|
  }

  // ----- what is asked last

  lemma {:induction false} LastAskedAt(name: string, names: seq<string>, prepared: seq<GapPosition>, k: nat, upTo: nat)
    requires InNames(prepared, names) && k < upTo <= |prepared| && names[prepared[k].id] == name
    requires forall j :: k < j < upTo ==> names[prepared[j].id] != name
    ensures LastAsked(name, names, prepared, upTo) == Done(prepared[k])
  {
    if k < upTo - 1 {
      LastAskedAt(name, names, prepared, k, upTo - 1);
    }
  }

  lemma LastNamedIsAsked(s: Session, id: nat, name: string)
    requires IsLastNamed(s, id, name)
    ensures var asked := Asked(s.model, s.parameters.gaps);
      LastAsked(name, Names(s.model), asked, |asked|) == Done(GapPosition(id, s.parameters.gaps[id].innerAngle, s.parameters.gaps[id].outerAngle))
  {
    var asked, names := Asked(s.model, s.parameters.gaps), Names(s.model);
    AskedIs(s.model, s.parameters.gaps);
    var p := GapPosition(id, s.parameters.gaps[id].innerAngle, s.parameters.gaps[id].outerAngle);
    var k :| 0 <= k < |asked| && asked[k] == p;
    forall j | k < j < |asked| ensures names[asked[j].id] != name {
      assert asked[k].id < asked[j].id;
    }
    LastAskedAt(name, names, asked, k, |asked|);
  }

  /** What is asked last for a name is the last boundary of that name. */
  lemma {:induction false} AskedLast(name: string, names: seq<string>, prepared: seq<GapPosition>, upTo: nat) returns (k: nat)
    requires InNames(prepared, names) && upTo <= |prepared| && LastAsked(name, names, prepared, upTo).Done?
    ensures k < upTo && names[prepared[k].id] == name && LastAsked(name, names, prepared, upTo) == Done(prepared[k])
    ensures forall j :: k < j < upTo ==> names[prepared[j].id] != name
  {
    if names[prepared[upTo - 1].id] == name {
      k := upTo - 1;
    } else {
      k := AskedLast(name, names, prepared, upTo - 1);
    }
  }

  lemma AskedIsLastNamed(s: Session, name: string) returns (id: nat)
    requires var asked := Asked(s.model, s.parameters.gaps); LastAsked(name, Names(s.model), asked, |asked|).Done?
    ensures IsLastNamed(s, id, name)
  {
    var asked, names := Asked(s.model, s.parameters.gaps), Names(s.model);
    var k := AskedLast(name, names, asked, |asked|);
    AskedIs(s.model, s.parameters.gaps);
    id := asked[k].id;
    forall j: nat | id < j < |s.model.lines| && j in s.parameters.gaps ensures s.model.lines[j].name != name {
      var p := GapPosition(j, s.parameters.gaps[j].innerAngle, s.parameters.gaps[j].outerAngle);
      var i :| 0 <= i < |asked| && asked[i] == p;
      assert names[asked[i].id] != name;
    }
  }

  lemma MatchingIsFitting(s: Session)
    ensures var asked := Asked(s.model, s.parameters.gaps);
      Matching(s.backend.gaps, Names(s.model), asked, |asked|) <==> forall k :: 0 <= k < |s.backend.gaps| ==> GapFits(s, k)
  {
    var asked, gaps := Asked(s.model, s.parameters.gaps), s.backend.gaps;
    forall k | 0 <= k < |gaps|
      ensures LastAsked(gaps[k].name, Names(s.model), asked, |asked|).Done? <==> exists id: nat :: IsLastNamed(s, id, gaps[k].name)
    {
      if LastAsked(gaps[k].name, Names(s.model), asked, |asked|).Done? {
        var id := AskedIsLastNamed(s, gaps[k].name);
      }
      if id: nat :| IsLastNamed(s, id, gaps[k].name) {
        LastNamedIsAsked(s, id, gaps[k].name);
      }
    }
    if Matching(gaps, Names(s.model), asked, |asked|) {
      forall k | 0 <= k < |gaps| ensures GapFits(s, k) {
      }
    }
    if forall k :: 0 <= k < |gaps| ==> GapFits(s, k) {
      forall k | 0 <= k < |gaps| && LastAsked(gaps[k].name, Names(s.model), asked, |asked|).Done? ensures RingsMatch(gaps[k]) {
        assert GapFits(s, k);
      }
    }
  }

  lemma PlacedIsStanding(s: Session)
    requires AllPositionable(s.backend.gaps)
    ensures PlacedFor(s.backend.gaps, Names(s.model), Asked(s.model, s.parameters.gaps)) ==>
      forall k :: 0 <= k < |s.backend.gaps| ==> GapStands(s, k)
  {
    var asked, gaps := Asked(s.model, s.parameters.gaps), s.backend.gaps;
    if PlacedFor(gaps, Names(s.model), asked) {
      forall k | 0 <= k < |gaps| ensures GapStands(s, k) {
        assert Stands(gaps[k], Names(s.model), asked, |asked|);
        forall id: nat | IsLastNamed(s, id, gaps[k].name) ensures StandsAt(gaps[k], s.parameters.gaps[id]) {
          LastNamedIsAsked(s, id, gaps[k].name);
        }
      }
    }
  }

  // ----- synchronized sessions

  /** In a synchronized session no gap has two rings of different size if and only if every gap of the
      solver stands at the inner and outer angle that the parameters give the last boundary of its name. */
  lemma SettledGapsStand(s: Session)
    requires Valid(s) && Settled(s)
    ensures AllPositionable(s.backend.gaps)
    ensures (forall k :: 0 <= k < |s.backend.gaps| ==> GapFits(s, k)) <==> (forall k :: 0 <= k < |s.backend.gaps| ==> GapStands(s, k))
  {
    SettledIsUpToDate(s);
    MatchingIsFitting(s);
    PlacedIsStanding(s);
    if forall k :: 0 <= k < |s.backend.gaps| ==> GapStands(s, k) {
      forall k | 0 <= k < |s.backend.gaps| ensures GapFits(s, k) {
        StandingFits(s, k);
      }
    }
  }

  lemma StandingFits(s: Session, k: nat)
    requires k < |s.backend.gaps| && Positionable(s.backend.gaps[k]) && GapStands(s, k)
    ensures GapFits(s, k)
  {
    var g := s.backend.gaps[k];
    if id: nat :| IsLastNamed(s, id, g.name) {
      assert StandsAt(g, s.parameters.gaps[id]);
    }
  }

  /** The selected bucket names every gap of the parameters once, in ascending order, with the number
      of the bucket that its inner angle less its outer angle falls in. */
  ghost predicate SelectedFor(s: Session, identity: Identity)
    requires s.backend.setup.width > 0.0
  {
    && identity.width == s.backend.setup.width
    && (forall i, j :: 0 <= i < j < |identity.indices| ==> identity.indices[i].0 < identity.indices[j].0)
    && (forall j :: 0 <= j < |identity.indices| ==> identity.indices[j].0 in s.parameters.gaps)
    && (forall id: nat :: id in s.parameters.gaps ==>
          (id, (CanonicalDegrees(s.parameters.gaps[id].innerAngle - s.parameters.gaps[id].outerAngle) / s.backend.setup.width).Floor) in identity.indices)
  }

  lemma IdentityIsFor(s: Session)
    requires s.backend.setup.width > 0.0 && Known(s.model, s.parameters)
    ensures SelectedFor(s, IdentityOf(Asked(s.model, s.parameters.gaps), s.backend.setup.width))
  {
    var asked, identity := Asked(s.model, s.parameters.gaps), IdentityOf(Asked(s.model, s.parameters.gaps), s.backend.setup.width);
    AskedIs(s.model, s.parameters.gaps);
    forall id: nat | id in s.parameters.gaps
      ensures (id, (CanonicalDegrees(s.parameters.gaps[id].innerAngle - s.parameters.gaps[id].outerAngle) / s.backend.setup.width).Floor) in identity.indices
    {
      assert KnownGap(s.model, id);
      var p := GapPosition(id, s.parameters.gaps[id].innerAngle, s.parameters.gaps[id].outerAngle);
      var k :| 0 <= k < |asked| && asked[k] == p;
      assert identity.indices[k] == (id, BucketIndex(p, s.backend.setup.width));
    }
  }

  lemma SettledBucketIs(s: Session)
    requires Valid(s) && Settled(s) && s.backend.setup.device
    ensures s.backend.current.Some? && SelectedFor(s, s.backend.current.value.identity)
  {
    IdentityIsFor(s);
  }

  /** After every successful synchronization, initialization or evaluation of a run: the gaps stand at
      the angles of the parameters, unless one has two rings of different size, and a device solver
      has selected the bucket of these angles. */
  lemma PreparedGapsStand(states: seq<Session>, ops: seq<Op>, results: seq<Result>, i: nat)
    requires Run(states, ops, results) && 0 < i < |states| && Prepares(ops[i - 1], results[i - 1])
    ensures Valid(states[i]) && AllPositionable(states[i].backend.gaps)
    ensures (forall k :: 0 <= k < |states[i].backend.gaps| ==> GapFits(states[i], k))
       <==> (forall k :: 0 <= k < |states[i].backend.gaps| ==> GapStands(states[i], k))
    ensures states[i].backend.setup.device ==>
      states[i].backend.current.Some? && SelectedFor(states[i], states[i].backend.current.value.identity)
  {
    RunIsValid(states, ops, results, i);
    assert Follows(states, ops, results, i - 1);
    StepSettles(states[i - 1], ops[i - 1]);
    SettledGapsStand(states[i]);
    if states[i].backend.setup.device {
      SettledBucketIs(states[i]);
    }
  }

  // ----- the active pattern

  /** In every synchronized session on the device the selected bucket holds every entry that the gap,
      as it stands, needs: for evenly spaced rings, an outer angle of whole elements, and a relative
      angle at least one number before the end of its bucket. The angles are those of the parameters
      for the last boundary of the gap's name, and no gap before it has that name. */
  lemma SelectedBucketCoversGap(s: Session, id: nat, found: nat, elements: int, e: Entry)
    requires Valid(s) && Settled(s) && s.backend.setup.device && s.backend.setup.ulp > 0.0
    requires found < |s.backend.gaps| && IsLastNamed(s, id, s.backend.gaps[found].name)
    requires forall j :: 0 <= j < found ==> s.backend.gaps[j].name != s.backend.gaps[found].name
    requires forall k :: 0 <= k < |s.backend.gaps| ==> GapFits(s, k)
    requires EvenGap(s.backend.gaps[found]) && s.parameters.gaps[id].outerAngle == Arc(elements, Step(s.backend.gaps[found]))
    requires var p, width := GapPosition(id, s.parameters.gaps[id].innerAngle, s.parameters.gaps[id].outerAngle), s.backend.setup.width;
      var index := BucketIndex(p, width);
      RelativeAngle(p) == WindowBegin(index, width) || RelativeAngle(p) + s.backend.setup.ulp <= WindowEnd(index, width)
    requires e in Structure(s.backend.gaps[found].quadrature, s.backend.gaps[found].totalArcElements)
    ensures e in s.backend.current.value.upperEntries
  {
    var b, names, asked := s.backend, Names(s.model), Asked(s.model, s.parameters.gaps);
    GapIsPlaced(s, id, found);
    SelectedIsDefinition(s);
    var k := AskedFor(s, id, b.gaps[found].name);
    FindsFirst(b.gaps, found);
    DefinitionCoversPlacement(b.current.value, b.gaps, names, asked, b.setup.width, b.setup.ulp, b.pairs, b.numNodes, k, found, elements, e);
  }

  lemma GapIsPlaced(s: Session, id: nat, k: nat)
    requires Valid(s) && Settled(s) && k < |s.backend.gaps| && IsLastNamed(s, id, s.backend.gaps[k].name)
    requires forall i :: 0 <= i < |s.backend.gaps| ==> GapFits(s, i)
    ensures Positionable(s.backend.gaps[k]) && StandsAt(s.backend.gaps[k], s.parameters.gaps[id])
  {
    SettledGapsStand(s);
    assert GapStands(s, k);
  }

  lemma SelectedIsDefinition(s: Session)
    requires Valid(s) && Settled(s) && s.backend.setup.device
    ensures s.backend.setup.width > 0.0 && AllImported(s.backend.gaps, s.backend.numNodes) && s.backend.current.Some?
    ensures IsDefinition(s.backend.current.value, s.backend.gaps, Names(s.model), Asked(s.model, s.parameters.gaps), s.backend.setup.width,
                         s.backend.setup.ulp, s.backend.pairs, s.backend.numNodes)
  {
  }

  lemma AskedFor(s: Session, id: nat, name: string) returns (k: nat)
    requires IsLastNamed(s, id, name)
    ensures k < |Asked(s.model, s.parameters.gaps)| && Names(s.model)[id] == name
    ensures Asked(s.model, s.parameters.gaps)[k] == GapPosition(id, s.parameters.gaps[id].innerAngle, s.parameters.gaps[id].outerAngle)
  {
    AskedIs(s.model, s.parameters.gaps);
    var p := GapPosition(id, s.parameters.gaps[id].innerAngle, s.parameters.gaps[id].outerAngle);
    k :| 0 <= k < |Asked(s.model, s.parameters.gaps)| && Asked(s.model, s.parameters.gaps)[k] == p;
  }
}
