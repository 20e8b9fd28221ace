/** Where a session does less than its operations suggest: exactly when, and runs that get there. */
module SessionEdges {
  import opened Wrappers
  import opened StableOrder
  import opened AirGapRing
  import opened AirGapPosition
  import opened PeriodicClosure
  import opened EntryOrder
  import opened Stencil
  import opened Bucket
  import opened GapPlacement
  import opened SolverBackend
  import opened BackendRuns
  import opened SessionModel
  import opened AnalysisSession
  import opened SessionKeeps
  import opened SessionRuns
  import opened SessionFields

  // ----- circuits without a constraint

  /** While some circuit has no constraint, no synchronization and no evaluation succeeds. */
  lemma CircuitsNeedConstraints(s: Session, c: nat, a: Answer, attempts: Attempts)
    requires Valid(s) && Fitting(s, a) && Fit(Synced(s, a).0, attempts)
    requires c < |s.model.circuits| && c !in s.parameters.constraints
    ensures !Settled(s) && !Synced(s, a).1 && SolveStep(s, a, attempts).1.None?
  {
    assert !Configurable(s.model, s.parameters.constraints);
    SyncedKeeps(s, a);
  }

  /** An update may bring a session there: leaving a circuit out is not refused. */
  lemma UpdatesMayDropCircuits(s: Session, proposal: Proposal, c: nat)
    requires Valid(s) && Admissible(s.model, s.modelRevision, proposal) && c < |s.model.circuits|
    ensures var smaller := proposal.(constraints := proposal.constraints - {c});
      Updated(s, smaller).1 && c !in Updated(s, smaller).0.parameters.constraints
  {
  }

  // ----- updates after a material change

  /** An update that leaves the initial state alone is accepted exactly when it is admissible
      otherwise and that state is of the current model revision. */
  lemma UpdateKeepingInitialState(s: Session, proposal: Proposal)
    requires proposal.initial == s.parameters.initial && Admissible(s.model, s.modelRevision, proposal.(initial := None))
    ensures Updated(s, proposal).1 <==> s.parameters.initial.None? || s.parameters.initial.value.modelRevision == s.modelRevision
  {
  }

  /** After a material has changed no update that leaves the initial state alone is accepted, for as
      long as that state stays. */
  lemma MaterialChangeBlocksUpdates(states: seq<Session>, ops: seq<Op>, results: seq<Result>, i: nat, j: nat, proposal: Proposal)
    requires Run(states, ops, results) && i < j < |states|
    requires ops[i].SetMaterialProperty? && results[i] == Finished(true) && states[i].parameters.initial.Some?
    requires states[j].parameters.initial == states[i].parameters.initial == proposal.initial
    ensures Updated(states[j], proposal) == (states[j], false)
  {
    RunIsValid(states, ops, results, i);
    assert Follows(states, ops, results, i);
    RunsGrow(states, ops, results);
    NumbersAdvance(states, ops, results, i + 1, j);
  }

  const IRON: Material := Material(1000.0, 1000.0, 0.0, 0.0, 0, 1.0, 0.0, Complex(0.0, 0.0), [], [])
  const SOLID: Model := Model(0.0, [], [Magnetic(IRON)], [], [])
  const EARLIER: AcceptedState := AcceptedState(1, 1, 1, 1, 0.0, None)
  const LATER: Proposal := Proposal(Finite(0.0), Finite(1.0), map[], map[], Some(EARLIER))

  /** A session that starts from an earlier state. */
  lemma StartedEarlier() returns (states: seq<Session>, ops: seq<Op>, results: seq<Result>)
    ensures Run(states, ops, results) && |ops| == 1 && ops[0] == SetInitialState(Some(EARLIER)) && results[0] == Finished(true)
    ensures Valid(states[1]) && states[1].model == SOLID && states[1].modelRevision == 1 && states[1].parameters.initial == Some(EARLIER)
  {
    var s := AnalysisSession.Fresh(SOLID, 1, 1, DEVICE);
    FreshIsValid(SOLID, 1, 1, DEVICE);
    InitialSetKeeps(s, Some(EARLIER));
    Extend([s], [], [], SetInitialState(Some(EARLIER)));
    states, ops, results := [s] + [InitialSet(s, Some(EARLIER)).0], [] + [SetInitialState(Some(EARLIER))], [] + [Finished(true)];
  }

  /** Then a material changes. */
  lemma MaterialChanged() returns (states: seq<Session>, ops: seq<Op>, results: seq<Result>)
    ensures Run(states, ops, results) && |ops| == 2 && ops[0] == SetInitialState(Some(EARLIER)) && results[0] == Finished(true)
    ensures ops[1].SetMaterialProperty? && results[1] == Finished(true)
    ensures Valid(states[2]) && states[2].model.lines == [] && states[2].model.circuits == []
    ensures states[2].modelRevision == 2 && states[2].parameters.initial == Some(EARLIER)
  {
    states, ops, results := StartedEarlier();
    var s, change := states[1], SetMaterialProperty(0, Conductivity, Scalar(1.0));
    PropertySetKeeps(s, 0, Conductivity, Scalar(1.0));
    Extend(states, ops, results, change);
    states, ops, results := states + [PropertySet(s, 0, Conductivity, Scalar(1.0)).0], ops + [change], results + [Finished(true)];
  }

  /** Then moving on to another time is refused, though nothing is wrong with the update but the
      state it keeps. */
  lemma BlockedUpdateHappens() returns (states: seq<Session>, ops: seq<Op>, results: seq<Result>)
    ensures Run(states, ops, results) && |ops| == 3
    ensures ops[0] == SetInitialState(Some(EARLIER)) && results[0] == Finished(true)
    ensures ops[1].SetMaterialProperty? && results[1] == Finished(true)
    ensures ops[2] == UpdateSolveParameters(LATER) && results[2] == Finished(false)
    ensures Admissible(states[2].model, states[2].modelRevision, LATER.(initial := None)) && states[2].parameters.initial == LATER.initial
  {
    states, ops, results := MaterialChanged();
    UpdateKeepingInitialState(states[2], LATER);
    Extend(states, ops, results, UpdateSolveParameters(LATER));
    states, ops, results := states + [states[2]], ops + [UpdateSolveParameters(LATER)], results + [Finished(false)];
  }

  // ----- positions

  /** A device session with gaps of different names is never up to date with a gap out of place. */
  lemma DeviceAlwaysPlaces(s: Session)
    requires Valid(s) && Settled(s) && s.backend.setup.device
    requires forall i, j :: 0 <= i < j < |s.backend.gaps| ==> s.backend.gaps[i].name != s.backend.gaps[j].name
    ensures PlacedFor(s.backend.gaps, Names(s.model), Asked(s.model, s.parameters.gaps))
  {
    SettledIsUpToDate(s);
    AllMatchIsMatching(s.backend.gaps, Names(s.model), Asked(s.model, s.parameters.gaps));
  }

  /** A remesh gives a gap whose rings do not match. */
  ghost predicate BadRemesh(s: Session, mesh: Mesh)
    requires Valid(s)
  {
    && Meshes in s.dirty && Coupling !in s.dirty && !s.backend.setup.device
    && mesh.outcome.Imports? && Sound(mesh.gaps, mesh.numNodes, mesh.pairs)
    && Configurable(s.model, s.parameters.constraints) && Preparable(s.model, s.parameters)
    && !Matching(mesh.gaps, Names(s.model), Asked(s.model, s.parameters.gaps), |Asked(s.model, s.parameters.gaps)|)
  }

  /** Without the device, a failed positioning is not tried again: the first synchronization after
      such a remesh fails, the next one succeeds with the gaps out of place. */
  lemma RetrySkipsPositioning(s: Session, mesh: Mesh, a: Answer)
    requires Valid(s) && BadRemesh(s, mesh) && MeshedSoundly(a.meshed)
    ensures var first := Answer(Made(mesh), a.built);
      && Fitting(s, first) && !Synced(s, first).1
      && Valid(Synced(s, first).0) && Fitting(Synced(s, first).0, a)
      && Synced(Synced(s, first).0, a).1
      && Valid(Synced(Synced(s, first).0, a).0)
      && var r := Synced(Synced(s, first).0, a).0; !PlacedFor(r.backend.gaps, Names(r.model), Asked(r.model, r.parameters.gaps))
  {
    var first := Answer(Made(mesh), a.built);
    var asked := Asked(s.model, s.parameters.gaps);
    WithMeshBacked(s, first.meshed);
    var m := WithMesh(s, first.meshed).0;
    assert Operator in m.dirty;
    PositionAllPlaces(mesh.gaps, Names(s.model), asked, |asked|);
    var r := Synced(s, first).0;
    SyncedKeeps(s, first);
    MatchingAfter(mesh.gaps, r.backend.gaps, Names(s.model), asked);
    assert r.backend.topology == r.topology && r.mesh.Some?;
    assert WithMesh(r, a.meshed) == (r, true);
    SyncedKeeps(r, a);
    SettledIsUpToDate(Synced(r, a).0);
  }

  // ----- a run that accepts one field and commits another

  const SMALL: Model := Model(0.0, [], [], [], [])
  const GIVEN: Answer := Answer(Made(NODE), Done(EmptyBucket([])))

  function Converging(x: real): Attempts { Attempts(Converged([x]), Converged([x])) }

  /** A model of circuits only. */
  predicate Plain(model: Model) { model.lines == [] && model.labels == [] && model.materials == [] }

  /** A session of such a model, with or without a solver that already holds the mesh. */
  ghost predicate Small(s: Session) {
    && Valid(s) && Plain(s.model) && Configurable(s.model, s.parameters.constraints) && s.parameters.frequency == 0.0 && s.parameters.gaps == map[] && s.backend.setup == DEVICE
    && (s.mesh.Some? ==> s.mesh.value == NODE)
    && (s.backend.topology == s.topology && s.backend.topology > 0 ==> HoldsNode(s.backend))
  }

  lemma SmallDelivers(m: Session)
    requires Backed(m) && PartsCurrent(m) && Plain(m.model) && Configurable(m.model, m.parameters.constraints) && m.parameters.gaps == map[] && m.backend.setup == DEVICE
    requires m.mesh == Some(NODE) && (m.backend.topology == m.topology ==> HoldsNode(m.backend))
    ensures Candidate(m).Some? && BuildsIt(m, Candidate(m).value, GIVEN.built)
    ensures Delivered(m, GIVEN.built).1 && HoldsNode(Delivered(m, GIVEN.built).0.backend)
  {
    assert Asked(m.model, map[]) == [] && Names(m.model) == [];
    assert AllLinked(m.model, m.parameters.constraints, 0);
    assert Candidate(m).value.gaps == map[];
    NodeSynchronizes(m.backend, [], [], m.topology, Coupling in m.dirty);
  }

  lemma SmallSyncs(s: Session)
    requires Small(s)
    ensures Fitting(s, GIVEN) && Synced(s, GIVEN).1 && SameNumbers(s, Synced(s, GIVEN).0)
    ensures var r := Synced(s, GIVEN).0;
      Small(r) && Settled(r) && r.mesh.Some? && HoldsNode(r.backend) && (Meshes !in s.dirty ==> r.topology == s.topology)
  {
    if !Settled(s) {
      WithMeshBacked(s, GIVEN.meshed);
      SmallDelivers(WithMesh(s, GIVEN.meshed).0);
    }
    SyncedKeeps(s, GIVEN);
  }

  lemma SmallEvaluates(y: Session, x: real)
    requires Configurable(y.model, y.parameters.constraints) && y.parameters.frequency == 0.0 && y.backend.setup == DEVICE
    ensures var (r, trial) := Evaluated(y, Converging(x));
      && r == y.(backend := r.backend, nextSolution := y.nextSolution + 1, dirty := {})
      && r.backend == y.backend.(system := r.backend.system, trial := Some([x]))
      && trial == Some(Trial(y.nextSolution, y.id, y.modelRevision, y.parameterRevision, y.parameters.time, Some([x])))
  {
    assert Scaled([x], 1.0) == [x];
  }

  lemma SmallSolves(s: Session, x: real) returns (r: Session, t: Trial)
    requires Small(s)
    ensures Allowed(s, Solve(GIVEN, Converging(x))) && Next(s, Solve(GIVEN, Converging(x))) == (r, Issued(t))
    ensures Small(r) && Current(r, t) && t.field == Some([x]) && r.backend.trial == Some([x]) && Meshes !in r.dirty && r.backend.topology == r.topology
    ensures Meshes !in s.dirty && s.backend.topology == s.topology ==> r.backend.committed == s.backend.committed
  {
    SmallSyncs(s);
    var y := Synced(s, GIVEN).0;
    SmallEvaluates(y, x);
    SolveStepKeeps(s, GIVEN, Converging(x));
    SyncedFieldsStay(s, GIVEN);
    r := SolveStep(s, GIVEN, Converging(x)).0;
    t := SolveStep(s, GIVEN, Converging(x)).1.value;
  }

  lemma Extend(states: seq<Session>, ops: seq<Op>, results: seq<Result>, op: Op)
    requires Run(states, ops, results) && Valid(states[|ops|]) && Allowed(states[|ops|], op)
    ensures var n := Next(states[|ops|], op); Run(states + [n.0], ops + [op], results + [n.1])
  {
    var n := Next(states[|ops|], op);
    var states', ops', results' := states + [n.0], ops + [op], results + [n.1];
    forall i | 0 <= i < |ops'| ensures Follows(states', ops', results', i) {
      if i < |ops| {
        assert Follows(states, ops, results, i);
      }
    }
  }

  /** Solve once, from a fresh session. */
  lemma FirstSolved() returns (states: seq<Session>, ops: seq<Op>, results: seq<Result>, t: Trial)
    ensures Run(states, ops, results) && |ops| == 1 && Small(states[1]) && Current(states[1], t) && Meshes !in states[1].dirty
    ensures states[1].backend.trial == Some([1.0]) && states[1].backend.topology == states[1].topology
  {
    var s0 := AnalysisSession.Fresh(SMALL, 1, 1, DEVICE);
    FreshIsValid(SMALL, 1, 1, DEVICE);
    assert s0.parameters.gaps == map[];
    var s1;
    s1, t := SmallSolves(s0, 1.0);
    Extend([s0], [], [], Solve(GIVEN, Converging(1.0)));
    states, ops, results := [s0] + [s1], [] + [Solve(GIVEN, Converging(1.0))], [] + [Issued(t)];
  }

  lemma SmallAccepts(s: Session, t: Trial)
    requires Small(s) && Current(s, t) && s.backend.trial.Some?
    ensures var (r, state) := AcceptStep(s, t);
      state.Some? && Small(r) && r.dirty == s.dirty + {InitialState, SolveState} && r.backend == Committed(s.backend) && r.topology == s.topology
  {
    AcceptStepKeeps(s, t);
  }

  /** Accept what was solved. */
  lemma FirstAccepted() returns (states: seq<Session>, ops: seq<Op>, results: seq<Result>)
    ensures Run(states, ops, results) && |ops| == 2 && Small(states[2]) && Meshes !in states[2].dirty
    ensures states[2].backend.committed == Some([1.0]) && states[2].backend.topology == states[2].topology
  {
    var t;
    states, ops, results, t := FirstSolved();
    SmallAccepts(states[1], t);
    Extend(states, ops, results, AcceptSolution(t));
    var n := Next(states[1], AcceptSolution(t));
    states, ops, results := states + [n.0], ops + [AcceptSolution(t)], results + [n.1];
  }

  /** Solve again. */
  lemma SecondSolved() returns (states: seq<Session>, ops: seq<Op>, results: seq<Result>, t: Trial)
    ensures Run(states, ops, results) && |ops| == 3 && Valid(states[3]) && states[3].backend.setup == DEVICE
    ensures results[2] == Issued(t) && Current(states[3], t) && t.field == Some([2.0])
    ensures states[3].backend.committed == Some([1.0])
  {
    states, ops, results := FirstAccepted();
    var s3;
    s3, t := SmallSolves(states[2], 2.0);
    Extend(states, ops, results, Solve(GIVEN, Converging(2.0)));
    states, ops, results := states + [s3], ops + [Solve(GIVEN, Converging(2.0))], results + [Issued(t)];
  }

  /** Roll back. */
  lemma ThenRolledBack() returns (states: seq<Session>, ops: seq<Op>, results: seq<Result>, t: Trial)
    ensures Run(states, ops, results) && |ops| == 4 && Valid(states[4]) && Valid(states[3]) && states[3].backend.setup == DEVICE
    ensures results[2] == Issued(t) && Current(states[3], t) && t.field == Some([2.0])
    ensures ops[3] == RollbackToCommitted && results[3] == Finished(true) && states[4] == RollbackStep(states[3]).0
    ensures states[3].backend.committed == Some([1.0])
  {
    states, ops, results, t := SecondSolved();
    var s3 := states[3];
    RollbackShowsCommitted(s3);
    RollbackStepKeeps(s3);
    Extend(states, ops, results, RollbackToCommitted);
    states, ops, results := states + [RollbackStep(s3).0], ops + [RollbackToCommitted], results + [Finished(true)];
  }

  /** A run that accepts two trials; the second one's field is 2, but the committed field stays 1. */
  lemma RollbackDoesNotRevoke() returns (states: seq<Session>, ops: seq<Op>, results: seq<Result>)
    ensures Run(states, ops, results) && |ops| == 5
    ensures results[2].Issued? && ops[3] == RollbackToCommitted && results[3] == Finished(true)
    ensures ops[4] == AcceptSolution(results[2].trial) && results[4].Accepted?
    ensures results[4].state.field == Some([2.0]) && states[5].backend.committed == Some([1.0])
  {
    var t;
    states, ops, results, t := ThenRolledBack();
    AcceptAfterRollback(states[3], t);
    Extend(states, ops, results, AcceptSolution(t));
    var r := AcceptStep(states[4], t);
    states, ops, results := states + [r.0], ops + [AcceptSolution(t)], results + [Accepted(r.1.value)];
  }

  // ----- a run that ends with a gap out of place

  const SLIDING: Model := Model(0.0, [], [], [], [Line("gap", true, 30.0, 0.0)])
  const PLAIN: Setup := Setup(false, 10.0, 0.001, 1.0, false)
  const POINT: RingPoint := StableOrder.Placed(Signed(0, 1.0), 0.0)
  const CORNER: Bracket := Bracket(Signed(0, 1.0), Signed(0, 1.0), Signed(0, 1.0), Signed(0, 1.0))
  const UNEVEN: Gap := Gap("gap", false, 360.0, 1, [POINT], [POINT, POINT], 0.0, 0.0, 0.0, 0.0, [CORNER, CORNER])
  const UNEVEN_MESH: Mesh := Mesh([UNEVEN], 1, [], Imports)
  const UNBUILT: Outcome<BucketDefinition, PositionError> := Failed(InvalidRingTopology)

  lemma SlidingAsks(gaps: map<nat, Position>)
    requires 0 in gaps
    ensures |Asked(SLIDING, gaps)| == 1 && Asked(SLIDING, gaps)[0].id == 0 && Names(SLIDING) == ["gap"]
    ensures !Matching([UNEVEN], Names(SLIDING), Asked(SLIDING, gaps), 1)
  {
    assert Listed(gaps, 0) == [];
    var asked := Asked(SLIDING, gaps);
    assert LastAsked("gap", Names(SLIDING), asked, 1) == Done(asked[0]);
    var gaps' := [UNEVEN];
    assert gaps'[0].name == "gap" && !RingsMatch(gaps'[0]);
  }

  lemma FirstSync() returns (s: Session)
    ensures Valid(s) && s.model == SLIDING && s.backend.setup == PLAIN && Settled(s)
    ensures s == Synced(AnalysisSession.Fresh(SLIDING, 1, 1, PLAIN), Answer(Made(NODE), UNBUILT)).0
    ensures 0 in s.parameters.gaps && s.parameters.constraints == map[]
  {
    var s0, a := AnalysisSession.Fresh(SLIDING, 1, 1, PLAIN), Answer(Made(NODE), UNBUILT);
    FreshIsValid(SLIDING, 1, 1, PLAIN);
    WithMeshBacked(s0, a.meshed);
    var m := WithMesh(s0, a.meshed).0;
    assert s0.parameters.constraints == map[];
    assert AllLinked(SLIDING, m.parameters.constraints, 0);
    PositionAllPlaces([], Names(SLIDING), Asked(SLIDING, m.parameters.gaps), |Asked(SLIDING, m.parameters.gaps)|);
    SyncedKeeps(s0, a);
    s := Synced(s0, a).0;
  }

  lemma UnevenIsSound()
    ensures Sound(UNEVEN_MESH.gaps, 1, [])
  {
    assert Imported(UNEVEN, 1);
  }

  /** Such a remesh can happen to a session in use. */
  lemma BadRemeshHappens() returns (s: Session)
    ensures Valid(s) && BadRemesh(s, UNEVEN_MESH)
    ensures s == OptionsSet(Synced(AnalysisSession.Fresh(SLIDING, 1, 1, PLAIN), Answer(Made(NODE), UNBUILT)).0, Finite(20.0), Finite(1.0), false).0
  {
    var t := FirstSync();
    s := OptionsSet(t, Finite(20.0), Finite(1.0), false).0;
    OptionsSetKeeps(t, Finite(20.0), Finite(1.0), false);
    SlidingAsks(s.parameters.gaps);
    UnevenIsSound();
    SettledIsUpToDate(t);
  }
}
