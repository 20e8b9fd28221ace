/** Every public operation of a session keeps its invariant. */
module SessionKeeps {
  import opened Wrappers
  import opened AirGapRing
  import opened AirGapPosition
  import opened Bucket
  import opened GapPlacement
  import opened SolverBackend
  import opened BackendRuns
  import opened SessionModel
  import opened AnalysisSession

  // ----- setters

  lemma MesherSetKeeps(s: Session, mesher: nat)
    requires Valid(s)
    ensures Valid(MesherSet(s, mesher).0)
  {
  }

  lemma OptionsSetKeeps(s: Session, minimumAngle: Number, elementSize: Number, exact: bool)
    requires Valid(s)
    ensures Valid(OptionsSet(s, minimumAngle, elementSize, exact).0)
  {
  }

  lemma CircuitSetKeeps(s: Session, id: nat, c: Constraint)
    requires Valid(s)
    ensures Valid(CircuitSet(s, id, c).0)
  {
  }

  lemma AngleSetKeeps(s: Session, id: nat, inner: Number, outer: Number)
    requires Valid(s)
    ensures Valid(AngleSet(s, id, inner, outer).0)
  {
  }

  lemma FrequencySetKeeps(s: Session, f: Number)
    requires Valid(s)
    ensures Valid(FrequencySet(s, f).0)
  {
  }

  lemma TimeSetKeeps(s: Session, t: Number)
    requires Valid(s)
    ensures Valid(TimeSet(s, t).0)
  {
  }

  lemma InitialSetKeeps(s: Session, state: Option<AcceptedState>)
    requires Valid(s)
    ensures Valid(InitialSet(s, state).0)
  {
  }

  lemma PropertySetKeeps(s: Session, id: nat, property: Property, v: PropertyValue)
    requires Valid(s)
    ensures Valid(PropertySet(s, id, property, v).0)
  {
    var r := PropertySet(s, id, property, v);
    if r.1 && Circuits !in s.dirty && RightHandSide !in s.dirty {
      CircuitsIgnoreMaterials(s.model, r.0.model, s.parameters.constraints, |s.model.labels|);
    }
  }

  lemma {:induction false} CircuitsIgnoreMaterials(model: Model, model': Model, constraints: map<nat, Constraint>, upTo: nat)
    requires model' == model.(materials := model'.materials) && upTo <= |model.labels| && AllLinked(model, constraints, upTo)
    ensures AllLinked(model', constraints, upTo) && PreparedCircuits(model', constraints, upTo) == PreparedCircuits(model, constraints, upTo)
  {
    forall l | 0 <= l < upTo ensures Linked(model', constraints, l) {
      assert Linked(model, constraints, l);
    }
    if upTo > 0 {
      CircuitsIgnoreMaterials(model, model', constraints, upTo - 1);
    }
  }

  lemma UpdatedKeeps(s: Session, proposal: Proposal)
    requires Valid(s)
    ensures Valid(Updated(s, proposal).0)
  {
  }

  // ----- synchronize

  lemma CandidateIsCurrent(s: Session)
    requires PartsCurrent(s) && Candidate(s).Some?
    ensures PartsCurrent(s.(prepared := Candidate(s).value, dirty := {SolveState})) && Candidate(s).value.gaps == s.parameters.gaps
  {
  }

  lemma HandedKeeps(s: Session, candidate: Prepared, built: Outcome<BucketDefinition, PositionError>)
    requires Backed(s) && s.mesh.Some? && SoundMesh(s.mesh.value) && BuildsIt(s, candidate, built)
    ensures var h := Handed(s, candidate, built);
      && Held(h.0, Names(s.model))
      && (h.1 ==> h.0.loaded == h.0.topology == s.topology)
      && (h.1 && s.backend.setup.device ==> h.0.current.Some? && IsBuilt(Done(h.0.current.value), h.0, Names(s.model), Asked(s.model, candidate.gaps)))
  {
    SynchronizedKeeps(s.backend, Configurable(s.model, s.parameters.constraints), Names(s.model), Asked(s.model, candidate.gaps),
                      s.mesh.value, s.topology, Coupling in s.dirty, built);
  }

  /** How far the solver gets in taking over a mesh. */
  lemma SynchronizedNumbers(b: State, configurable: bool, names: seq<string>, prepared: seq<GapPosition>, mesh: Mesh, identity: nat, coupling: bool,
                            built: Outcome<BucketDefinition, PositionError>)
    requires b.setup.width > 0.0 && InNames(prepared, names) && Ready(b, mesh, identity)
    requires b.topology <= identity && b.loaded <= identity && (b.topology == identity ==> b.loaded == identity)
    ensures var (r, ok) := Synchronized(b, configurable, names, prepared, mesh, identity, coupling, built);
      && r.setup == b.setup && r.topology <= identity && r.loaded <= identity && (r.topology == identity ==> r.loaded == identity)
      && (ok ==> configurable)
  {
  }

  /** Where the gaps end up: standing where asked, if their rings match, unless the coupling is still dirty. */
  lemma HandedStands(s: Session, candidate: Prepared, built: Outcome<BucketDefinition, PositionError>)
    requires Backed(s) && GapsStand(s) && s.mesh.Some? && SoundMesh(s.mesh.value) && candidate.gaps == s.parameters.gaps
    ensures var h, asked := Handed(s, candidate, built), Asked(s.model, s.parameters.gaps);
      (h.1 || Coupling !in s.dirty) && h.0.topology == s.topology && AllPositionable(h.0.gaps) ==>
        (Matching(h.0.gaps, Names(s.model), asked, |asked|) ==> PlacedFor(h.0.gaps, Names(s.model), asked))
  {
    var names, asked := Names(s.model), Asked(s.model, s.parameters.gaps);
    if Configurable(s.model, s.parameters.constraints) && !LoadFails(s.backend, s.mesh.value, s.topology) {
      var l := Loaded(s.backend, s.mesh.value, s.topology);
      if s.topology != s.backend.topology || Coupling in s.dirty {
        PositionAllPlaces(l.gaps, names, asked, |asked|);
        MatchingAfter(l.gaps, Placed(l, names, asked, true).0.gaps, names, asked);
      }
    }
  }

  /** The solver may take over, in vain or not, without harm to the session. */
  lemma HandedIsBacked(s: Session, candidate: Prepared, built: Outcome<BucketDefinition, PositionError>)
    requires Backed(s) && GapsStand(s) && s.mesh.Some? && SoundMesh(s.mesh.value) && BuildsIt(s, candidate, built)
    requires candidate.gaps == s.parameters.gaps && !Settled(s)
    ensures var h := Handed(s, candidate, built);
      && h.0.setup == s.backend.setup
      && Backed(s.(backend := h.0)) && GapsStand(s.(backend := h.0))
      && (h.1 ==> Backed(s.(backend := h.0, prepared := candidate, dirty := {SolveState}))
                  && GapsStand(s.(backend := h.0, prepared := candidate, dirty := {SolveState})))
  {
    HandedKeeps(s, candidate, built);
    HandedStands(s, candidate, built);
    SynchronizedNumbers(s.backend, Configurable(s.model, s.parameters.constraints), Names(s.model), Asked(s.model, candidate.gaps),
                        s.mesh.value, s.topology, Coupling in s.dirty, built);
  }

  lemma DeliveredKeeps(m: Session, built: Outcome<BucketDefinition, PositionError>)
    requires Valid(m) && m.mesh.Some? && !Settled(m) && (Candidate(m).Some? ==> BuildsIt(m, Candidate(m).value, built))
    ensures var (r, ok) := Delivered(m, built);
      Valid(r) && (ok <==> Settled(r)) && SameNumbers(m, r)
  {
    if Candidate(m).Some? {
      CandidateIsCurrent(m);
      HandedIsBacked(m, Candidate(m).value, built);
    }
  }

  lemma SyncedKeeps(s: Session, a: Answer)
    requires Valid(s) && Fitting(s, a)
    ensures Valid(Synced(s, a).0) && (Synced(s, a).1 <==> Settled(Synced(s, a).0))
    ensures SameNumbers(s, Synced(s, a).0)
  {
    if !Settled(s) {
      WithMeshBacked(s, a.meshed);
      var (m, ok) := WithMesh(s, a.meshed);
      if ok {
        DeliveredKeeps(m, a.built);
      }
    }
  }

  /** Synchronizing and solving change neither model nor parameters nor their revisions. */
  ghost predicate SameNumbers(s: Session, r: Session) {
    && r.model == s.model && r.parameters == s.parameters && r.id == s.id && r.backend.setup == s.backend.setup
    && r.modelRevision == s.modelRevision && r.parameterRevision == s.parameterRevision && r.nextSolution == s.nextSolution
  }

  // ----- solve, initialize, accept, roll back

  /** The solver's vectors have one entry per node. */
  ghost predicate Fit(s: Session, attempts: Attempts) {
    Fits(attempts.first, s.backend.numNodes) && Fits(attempts.second, s.backend.numNodes)
  }

  /** The trial is numbered and stamped by the session, and shows the field the solver now holds. */
  ghost predicate IssuedBy(t: Trial, s: Session, after: Session) {
    && t.id == s.nextSolution && t.session == s.id
    && t.modelRevision == s.modelRevision && t.parameterRevision == s.parameterRevision && t.time == s.parameters.time
    && after.backend.trial.Some? && t.field == Some(Scaled(after.backend.trial.value, s.backend.setup.scale))
  }

  lemma SolveStepKeeps(s: Session, a: Answer, attempts: Attempts)
    requires Valid(s) && Fitting(s, a) && Fit(Synced(s, a).0, attempts)
    ensures var r := SolveStep(s, a, attempts);
      && Valid(r.0)
      && SameNumbers(s, r.0.(nextSolution := s.nextSolution))
      && r.0.nextSolution == s.nextSolution + (if r.1.Some? then 1 else 0)
      && (r.1.Some? ==> Settled(r.0) && IssuedBy(r.1.value, s, r.0))
  {
    SyncedKeeps(s, a);
    var (t, ok) := Synced(s, a);
    if ok {
      SolvedKeeps(t.backend, Names(t.model), Configurable(t.model, t.parameters.constraints), Steady(t), attempts.first, attempts.second);
      var b := Solved(t.backend, Configurable(t.model, t.parameters.constraints), Steady(t), attempts.first, attempts.second).0;
      NewFieldsKeepValid(t, b);
      SolvedKeepsValid(t.(backend := b), t.nextSolution + 1);
    }
  }

  /** New fields in the solver touch nothing else. */
  lemma NewFieldsKeepValid(t: Session, b: State)
    requires Valid(t) && Held(b, Names(t.model))
    requires b == t.backend.(system := b.system, trial := b.trial, committed := b.committed, committedIdentity := b.committedIdentity, initialized := b.initialized)
    ensures Valid(t.(backend := b))
  {
    var r := t.(backend := b);
    assert Backed(r) && GapsStand(r);
  }

  lemma SolvedKeepsValid(t: Session, n: nat)
    requires Valid(t) && Settled(t) && n > 0
    ensures Valid(t.(nextSolution := n, dirty := {}))
  {
    var r := t.(nextSolution := n, dirty := {});
    assert Backed(r) && GapsStand(r) && Meshing(r) && PartsCurrent(r);
  }

  /** Further flags do no harm, unless they ask for a mesh. */
  lemma InvalidatedKeeps(s: Session, flags: set<Flag>)
    requires Valid(s) && Meshes !in flags
    ensures Valid(Invalidated(s, flags))
  {
    var r := Invalidated(s, flags);
    assert Backed(r) && GapsStand(r) && Meshing(r) && PartsCurrent(r);
  }

  lemma InitializeStepKeeps(s: Session, a: Answer, attempts: Attempts)
    requires Valid(s) && Fitting(s, a) && Fit(Synced(s, a).0, attempts)
    ensures Valid(InitializeStep(s, a, attempts).0) && SameNumbers(s, InitializeStep(s, a, attempts).0)
  {
    SyncedKeeps(s, a);
    var (t, ok) := Synced(s, a);
    if ok {
      InitializedKeeps(t.backend, Names(t.model), Configurable(t.model, t.parameters.constraints), Steady(t), attempts.first, attempts.second);
      SolvedKeeps(t.backend, Names(t.model), Configurable(t.model, t.parameters.constraints), Steady(t), attempts.first, attempts.second);
      NewFieldsKeepValid(t, InitializeStep(s, a, attempts).0.backend);
    }
  }

  lemma AcceptStepKeeps(s: Session, t: Trial)
    requires Valid(s)
    ensures Valid(AcceptStep(s, t).0)
  {
    CommittedKeeps(s.backend, Names(s.model));
    NewFieldsKeepValid(s, Committed(s.backend));
  }

  lemma RollbackStepKeeps(s: Session)
    requires Valid(s)
    ensures Valid(RollbackStep(s).0)
  {
    RolledBackKeeps(s.backend, Names(s.model));
    NewFieldsKeepValid(s, RolledBack(s.backend).0);
    InvalidatedKeeps(s.(backend := RolledBack(s.backend).0), {InitialState});
  }
}
