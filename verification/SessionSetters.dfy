/** What the setters of a session ask for is what its solver gets with the next synchronization. */
module SessionSetters {
  import opened Wrappers
  import opened Angles
  import opened RingTurning
  import opened AirGapRing
  import opened AirGapPosition
  import opened Bucket
  import opened GapPlacement
  import opened SolverBackend
  import opened BackendRuns
  import opened SessionModel
  import opened AnalysisSession
  import opened SessionKeeps
  import opened SessionRuns
  import opened SessionGaps

  // ----- what a setter changes

  /** Only the parameters are new, by one revision, and these flags are dirty besides the solve state. */
  ghost predicate OnlyParameters(s: Session, t: Session, flags: set<Flag>) {
    && t.parameterRevision == s.parameterRevision + 1 && t.dirty == s.dirty + flags + {SolveState}
    && t == s.(parameters := t.parameters, parameterRevision := t.parameterRevision, dirty := t.dirty)
  }

  /** A given angle brought into one turn. */
  ghost predicate IsTurned(angle: real, given: Number) {
    given.Finite? && 0.0 <= angle < 360.0 && exists k: int :: TurnsApart(given.value, angle, k)
  }

  ghost predicate TurnsApart(x: real, y: real, k: int) { x == y + 360.0 * (k as real) }

  lemma CanonicalIsTurned(given: Number)
    requires given.Finite?
    ensures IsTurned(CanonicalDegrees(given.value), given)
  {
    assert TurnsApart(given.value, CanonicalDegrees(given.value), Turns(given.value));
  }

  lemma AngleSetIs(s: Session, id: nat, inner: Number, outer: Number)
    ensures var (t, ok) := AngleSet(s, id, inner, outer);
      && (ok <==> id < |s.model.lines| && s.model.lines[id].airGap && inner.Finite? && outer.Finite?)
      && (!ok ==> t == s)
      && (ok ==>
           && OnlyParameters(s, t, {Coupling, Operator}) && t.parameters == s.parameters.(gaps := t.parameters.gaps)
           && t.parameters.gaps.Keys == s.parameters.gaps.Keys + {id}
           && IsTurned(t.parameters.gaps[id].innerAngle, inner) && IsTurned(t.parameters.gaps[id].outerAngle, outer)
           && forall other: nat :: other in s.parameters.gaps && other != id ==> t.parameters.gaps[other] == s.parameters.gaps[other])
  {
    if inner.Finite? && outer.Finite? {
      CanonicalIsTurned(inner);
      CanonicalIsTurned(outer);
    }
  }

  lemma CircuitSetIs(s: Session, id: nat, c: Constraint)
    ensures var (t, ok) := CircuitSet(s, id, c);
      && (ok <==> id < |s.model.circuits|)
      && (!ok ==> t == s)
      && (ok ==>
           && OnlyParameters(s, t, if c.kind == PrescribedCurrent then {RightHandSide} else {RightHandSide, Operator})
           && t.parameters == s.parameters.(constraints := t.parameters.constraints)
           && t.parameters.constraints.Keys == s.parameters.constraints.Keys + {id} && t.parameters.constraints[id] == c
           && forall other: nat :: other in s.parameters.constraints && other != id ==> t.parameters.constraints[other] == s.parameters.constraints[other])
  {
  }

  /** Frequency, time and initial state: accepted exactly when they are finite and not negative, finite,
      and of the present model revision; the rest of the parameters stays. */
  lemma PlainSettersAre(s: Session, f: Number, time: Number, state: Option<AcceptedState>)
    ensures var (t, ok) := FrequencySet(s, f);
      && (ok <==> f.Finite? && f.value >= 0.0) && (!ok ==> t == s)
      && (ok ==> OnlyParameters(s, t, {Materials, Operator, RightHandSide}) && t.parameters == s.parameters.(frequency := f.value))
    ensures var (t, ok) := TimeSet(s, time);
      && (ok <==> time.Finite?) && (!ok ==> t == s)
      && (ok ==> OnlyParameters(s, t, {}) && t.parameters == s.parameters.(time := time.value))
    ensures var (t, ok) := InitialSet(s, state);
      && (ok <==> state.Some? ==> state.value.modelRevision == s.modelRevision) && (!ok ==> t == s)
      && (ok ==> OnlyParameters(s, t, {InitialState}) && t.parameters == s.parameters.(initial := state))
  {
  }

  /** Meshing options and another mesher ask for a new mesh, but move no revision. */
  lemma MeshSettersAre(s: Session, mesher: nat, minimumAngle: Number, elementSize: Number, exact: bool)
    ensures var (t, ok) := OptionsSet(s, minimumAngle, elementSize, exact);
      && (ok <==> minimumAngle.Finite? && minimumAngle.value >= 0.0 && elementSize.Finite? && elementSize.value >= 0.0)
      && (!ok ==> t == s)
      && (ok ==> t.options.minimumAngle == minimumAngle.value && t.options.elementSize == elementSize.value && t.options.exact == exact
                 && NeedsMesh(s, t.(options := s.options)))
    ensures var (t, ok) := MesherSet(s, mesher);
      && (ok <==> mesher > 0)
      && (!ok || mesher == s.mesher ==> t == s)
      && (ok && mesher != s.mesher ==> t.mesher == mesher && NeedsMesh(s, t.(mesher := s.mesher)))
  {
  }

  /** A mesh at hand is kept. Otherwise the mesher is asked: every mesh or refusal it returns is counted,
      and every mesh is a new topology. */
  lemma MeshIs(s: Session, meshed: Meshed)
    ensures var (t, ok) := WithMesh(s, meshed);
      if s.mesh.Some? && Meshes !in s.dirty then ok && t == s
      else
        && (ok <==> meshed.Made?)
        && t.generations == s.generations + (if meshed.MesherThrew? then 0 else 1)
        && t.topology == s.topology + (if meshed.Made? then 1 else 0)
        && t.mesh == (if meshed.Made? then Some(meshed.mesh) else s.mesh)
        && t.dirty == (if meshed.Made? then s.dirty - {Meshes} else s.dirty)
        && t == s.(generations := t.generations, topology := t.topology, mesh := t.mesh, dirty := t.dirty)
  {
  }

  /** A rollback fails exactly on a device solver with nothing committed; otherwise the initial state is
      dirty. Neither model nor parameters nor their revisions change. */
  lemma RollbackIs(s: Session)
    requires Valid(s)
    ensures var (t, ok) := RollbackStep(s);
      && (ok <==> s.backend.setup.device ==> s.backend.committed.Some?)
      && t.dirty == s.dirty + (if ok then {InitialState, SolveState} else {})
      && t == s.(backend := t.backend, dirty := t.dirty)
  {
    if s.backend.setup.device {
      RollbackRestores(s.backend, Names(s.model));
    }
  }

  /** A synchronization that succeeds leaves the solve state dirty and nothing else, or finds nothing to
      do; one that fails leaves what is prepared as it was and clears no flag but that of the mesh. */
  lemma SyncedIs(s: Session, a: Answer)
    requires Valid(s) && Fitting(s, a)
    ensures var (t, ok) := Synced(s, a);
      && (s.dirty <= {SolveState} ==> ok && t == s)
      && (ok && !(s.dirty <= {SolveState}) ==> t.dirty == {SolveState})
      && (!ok ==> t.prepared == s.prepared && s.dirty - {Meshes} <= t.dirty <= s.dirty && !(t.dirty <= {SolveState}))
  {
    SyncedKeeps(s, a);
  }

  /** An evaluation of a synchronized session that issues no trial uses up no number, and leaves in
      the solver what the run that did not converge has left; away from direct current it does nothing. */
  lemma EvaluationFails(s: Session, a: Answer, attempts: Attempts)
    requires Valid(s) && Fitting(s, a) && Synced(s, a).1 && SolveStep(s, a, attempts).1.None?
    ensures var t, r := Synced(s, a).0, SolveStep(s, a, attempts).0;
      && r == t.(backend := r.backend)
      && (t.parameters.frequency != 0.0 ==> r == t)
      && (t.parameters.frequency == 0.0 ==>
            var counts := if attempts.first.Threw? && t.backend.setup.device && t.backend.setup.fallback then attempts.second else attempts.first;
            && !counts.Converged? && r.backend == t.backend.(system := r.backend.system)
            && r.backend.system.Some? && r.backend.system.value.solution == counts.x && r.backend.system.value.rhs == counts.rhs)
  {
    SyncedKeeps(s, a);
    SettledPreparation(Synced(s, a).0);
    FailedSolveLeaves(Synced(s, a).0.backend, attempts.first, attempts.second);
  }

  ghost predicate NeedsMesh(s: Session, t: Session) {
    t.mesh == None && t.dirty == s.dirty + {Meshes, Operator, RightHandSide, SolveState} && t == s.(mesh := t.mesh, dirty := t.dirty)
  }

  /** What an update makes of a proposal: accepted exactly when every number is finite, the frequency is
      not negative, everything named exists and the initial state is of this model revision; and then
      exactly the parts it changes become dirty. */
  lemma UpdatedIs(s: Session, p: Proposal)
    ensures var (t, ok) := Updated(s, p);
      && (ok <==>
           && p.frequency.Finite? && p.frequency.value >= 0.0 && p.time.Finite?
           && (forall id :: id in p.constraints ==> id < |s.model.circuits|)
           && (forall id :: id in p.gaps ==> id < |s.model.lines| && s.model.lines[id].airGap && p.gaps[id].0.Finite? && p.gaps[id].1.Finite?)
           && (p.initial.Some? ==> p.initial.value.modelRevision == s.modelRevision))
      && (!ok ==> t == s)
      && (ok ==>
           && t.parameters.frequency == p.frequency.value && t.parameters.time == p.time.value
           && t.parameters.constraints == p.constraints && t.parameters.initial == p.initial
           && t.parameters.gaps.Keys == p.gaps.Keys
           && (forall id :: id in p.gaps ==> IsTurned(t.parameters.gaps[id].innerAngle, p.gaps[id].0) && IsTurned(t.parameters.gaps[id].outerAngle, p.gaps[id].1))
           && OnlyParameters(s, t, t.dirty)
           && (Materials in t.dirty <==> Materials in s.dirty || p.frequency.value != s.parameters.frequency)
           && (RightHandSide in t.dirty <==>
                 RightHandSide in s.dirty || p.frequency.value != s.parameters.frequency || p.constraints != s.parameters.constraints)
           && (Coupling in t.dirty <==> Coupling in s.dirty || t.parameters.gaps != s.parameters.gaps)
           && (Operator in t.dirty <==>
                 || Operator in s.dirty || p.frequency.value != s.parameters.frequency || p.constraints != s.parameters.constraints
                 || t.parameters.gaps != s.parameters.gaps)
           && (InitialState in t.dirty <==> InitialState in s.dirty || p.initial != s.parameters.initial))
  {
    if Admissible(s.model, s.modelRevision, p) {
      forall id | id in p.gaps
        ensures IsTurned(Canonical(p).gaps[id].innerAngle, p.gaps[id].0) && IsTurned(Canonical(p).gaps[id].outerAngle, p.gaps[id].1)
      {
        CanonicalIsTurned(p.gaps[id].0);
        CanonicalIsTurned(p.gaps[id].1);
      }
    }
  }

  // ----- materials by property

  function PropertyOf(m: Material, property: Property): PropertyValue {
    match property
    case RelativePermeabilityX => Scalar(m.muX)
    case RelativePermeabilityY => Scalar(m.muY)
    case Coercivity => Scalar(m.coercivity)
    case Conductivity => Scalar(m.conductivity)
    case LaminationType => Whole(m.laminationType)
    case LaminationFill => Scalar(m.laminationFill)
    case LaminationThickness => Scalar(m.laminationThickness)
    case AppliedCurrentDensity => Phasor(m.current)
    case BHCurve => Curve(m.b, m.h)
  }

  /** Setting a property to a value of its own type, with as many fields as flux densities in a curve,
      gives the property that value and leaves every other one; any other value is refused. */
  lemma PropertyIsSet(m: Material, property: Property, v: PropertyValue)
    ensures WithProperty(m, property, v).Some? <==>
      match property
      case LaminationType => v.Whole?
      case AppliedCurrentDensity => v.Phasor?
      case BHCurve => v.Curve? && |v.b| == |v.h|
      case _ => v.Scalar?
    ensures WithProperty(m, property, v).Some? ==>
      var changed := WithProperty(m, property, v).value;
      PropertyOf(changed, property) == v && forall other: Property :: other != property ==> PropertyOf(changed, other) == PropertyOf(m, other)
  {
  }

  lemma PropertySetIs(s: Session, id: nat, property: Property, v: PropertyValue)
    ensures var (t, ok) := PropertySet(s, id, property, v);
      && (ok <==> id < |s.model.materials| && s.model.materials[id].Magnetic? && WithProperty(s.model.materials[id].material, property, v).Some?)
      && (!ok ==> t == s)
      && (ok ==>
           && t.modelRevision == s.modelRevision + 1 && t.dirty == s.dirty + {Materials, Operator, SolveState}
           && t == s.(model := s.model.(materials := t.model.materials), modelRevision := t.modelRevision, dirty := t.dirty)
           && |t.model.materials| == |s.model.materials| && t.model.materials[id].Magnetic?
           && PropertyOf(t.model.materials[id].material, property) == v
           && forall other: nat :: other < |s.model.materials| && other != id ==> t.model.materials[other] == s.model.materials[other])
  {
    if id < |s.model.materials| && s.model.materials[id].Magnetic? {
      PropertyIsSet(s.model.materials[id].material, property, v);
    }
  }

  // ----- what is prepared, in numbers

  /** A prepared circuit is a magnetic label that is in a circuit, with its turns and the circuit's constraint. */
  ghost predicate IsCircuitOf(c: PreparedCircuit, model: Model, constraints: map<nat, Constraint>) {
    && c.label_ < |model.labels| && c.source < |model.circuits| && c.source in constraints
    && model.labels[c.label_].magnetic && model.labels[c.label_].inCircuit == c.source
    && c.signedTurns == model.labels[c.label_].turns && c.constraint == constraints[c.source]
  }

  ghost predicate HasLabel(circuits: seq<PreparedCircuit>, l: int) {
    exists i :: 0 <= i < |circuits| && circuits[i].label_ == l
  }

  /** The circuits are those labels, one entry each, in ascending order. */
  ghost predicate CircuitsAre(circuits: seq<PreparedCircuit>, model: Model, constraints: map<nat, Constraint>, upTo: nat) {
    && (forall i :: 0 <= i < |circuits| ==> IsCircuitOf(circuits[i], model, constraints) && circuits[i].label_ < upTo)
    && (forall i, j :: 0 <= i < j < |circuits| ==> circuits[i].label_ < circuits[j].label_)
    && (forall l :: 0 <= l < upTo && l < |model.labels| && model.labels[l].magnetic && model.labels[l].inCircuit >= 0 ==> HasLabel(circuits, l))
  }

  lemma CircuitAdded(before: seq<PreparedCircuit>, c: PreparedCircuit, model: Model, constraints: map<nat, Constraint>)
    requires CircuitsAre(before, model, constraints, c.label_) && IsCircuitOf(c, model, constraints)
    ensures CircuitsAre(before + [c], model, constraints, c.label_ + 1)
  {
    var after := before + [c];
    forall l | 0 <= l <= c.label_ && model.labels[l].magnetic && model.labels[l].inCircuit >= 0 ensures HasLabel(after, l) {
      if l == c.label_ {
        assert after[|before|].label_ == l;
      } else {
        assert HasLabel(before, l);
        var i :| 0 <= i < |before| && before[i].label_ == l;
        assert after[i] == before[i];
      }
    }
  }

  lemma LabelSkipped(before: seq<PreparedCircuit>, model: Model, constraints: map<nat, Constraint>, l: nat)
    requires CircuitsAre(before, model, constraints, l) && l < |model.labels| && !(model.labels[l].magnetic && model.labels[l].inCircuit >= 0)
    ensures CircuitsAre(before, model, constraints, l + 1)
  {
  }

  lemma {:induction false} PreparedCircuitsAre(model: Model, constraints: map<nat, Constraint>, upTo: nat)
    requires upTo <= |model.labels| && AllLinked(model, constraints, upTo)
    ensures CircuitsAre(PreparedCircuits(model, constraints, upTo), model, constraints, upTo)
  {
    if upTo > 0 {
      PreparedCircuitsAre(model, constraints, upTo - 1);
      var before, l := PreparedCircuits(model, constraints, upTo - 1), model.labels[upTo - 1];
      assert Linked(model, constraints, upTo - 1);
      if l.magnetic && l.inCircuit >= 0 {
        var c := PreparedCircuit(l.inCircuit, upTo - 1, l.turns, constraints[l.inCircuit]);
        assert IsCircuitOf(c, model, constraints);
        CircuitAdded(before, c, model, constraints);
        assert PreparedCircuits(model, constraints, upTo) == before + [c];
      } else {
        LabelSkipped(before, model, constraints, upTo - 1);
        assert PreparedCircuits(model, constraints, upTo) == before;
      }
    }
  }

  /** A prepared material is the model's own, with the slopes of its curve at the angular frequency. */
  ghost predicate IsMaterialOf(m: PreparedMaterial, item: MaterialItem, frequency: real) {
    && item.Magnetic? && m.source == item.material
    && (m.source.b == [] ==> m.slopesAt == None)
    && (m.source.b != [] ==> m.slopesAt == Some(6.28318530717958647692 * frequency))
  }

  /** In every synchronized session the solver has a constraint for each circuit and only magnetic
      labels in circuits that exist; and what was prepared is the model's materials, its circuits and
      the parameters' gaps, all of them. */
  lemma SettledPreparation(s: Session)
    requires Valid(s) && Settled(s)
    ensures forall id: nat :: id < |s.model.circuits| ==> id in s.parameters.constraints
    ensures forall l :: 0 <= l < |s.model.labels| ==> s.model.labels[l].magnetic && s.model.labels[l].inCircuit < |s.model.circuits|
    ensures |s.prepared.materials| == |s.model.materials|
    ensures forall i :: 0 <= i < |s.model.materials| ==> IsMaterialOf(s.prepared.materials[i], s.model.materials[i], s.parameters.frequency)
    ensures CircuitsAre(s.prepared.circuits, s.model, s.parameters.constraints, |s.model.labels|)
    ensures s.prepared.gaps == s.parameters.gaps && s.prepared.frequency == s.parameters.frequency
  {
    SettledIsUpToDate(s);
    PreparedCircuitsAre(s.model, s.parameters.constraints, |s.model.labels|);
    forall i | 0 <= i < |s.model.materials|
      ensures IsMaterialOf(s.prepared.materials[i], s.model.materials[i], s.parameters.frequency)
    {
      assert s.prepared.materials[i] == Prepare(s.model.materials[i].material, s.parameters.frequency);
    }
  }

  // ----- from the setter to the solver

  /** The angles last set are where the gap then stands, however many turns they hold: it is the last
      boundary of its name, and no gap has two rings of different size. */
  lemma AngleReachesSolver(s: Session, id: nat, inner: Number, outer: Number, a: Answer, k: nat)
    requires Valid(s) && AngleSet(s, id, inner, outer).1
    requires var t := AngleSet(s, id, inner, outer).0; Valid(t) && Fitting(t, a) && Synced(t, a).1
    requires var u := Synced(AngleSet(s, id, inner, outer).0, a).0;
      && k < |u.backend.gaps| && IsLastNamed(u, id, u.backend.gaps[k].name) && forall i :: 0 <= i < |u.backend.gaps| ==> GapFits(u, i)
    ensures var g := Synced(AngleSet(s, id, inner, outer).0, a).0.backend.gaps[k];
      && inner.Finite? && outer.Finite? && Positionable(g) && IsTurned(g.innerAngle, inner) && IsTurned(g.outerAngle, outer)
      && (g.innerRing != [] && g.outerRing != [] ==> PositionedGap(g, inner.value, outer.value) == Done(g))
  {
    var t := AngleSet(s, id, inner, outer).0;
    SyncedKeeps(t, a);
    var u := Synced(t, a).0;
    GapIsPlaced(u, id, k);
    AngleSetIs(s, id, inner, outer);
    var g, p := u.backend.gaps[k], u.parameters.gaps[id];
    PositionedStores(g, p.innerAngle, p.outerAngle);
    CanonicalFixed(p.innerAngle);
    CanonicalFixed(p.outerAngle);
    if g.innerRing != [] && g.outerRing != [] {
      TurnedPlacesAlike(g, p, inner, outer);
    }
  }

  lemma TurnedRingAlike(ring: seq<RingPoint>, step: real, angle: real, given: Number)
    requires step > 0.0 && IsTurned(angle, given)
    ensures Repositioned(ring, step, given.value) == Repositioned(ring, step, angle) && CanonicalDegrees(given.value) == CanonicalDegrees(angle)
  {
    var k: int :| TurnsApart(given.value, angle, k);
    CanonicalOfWholeTurns(angle, k);
    RepositionedWholeTurns(ring, step, angle, k);
  }

  lemma TurnedPlacesAlike(g: Gap, p: Position, inner: Number, outer: Number)
    requires Positionable(g) && g.innerRing != [] && g.outerRing != [] && IsTurned(p.innerAngle, inner) && IsTurned(p.outerAngle, outer)
    ensures PositionedGap(g, inner.value, outer.value) == PositionedGap(g, p.innerAngle, p.outerAngle)
  {
    TurnedRingAlike(g.innerRing, Step(g), p.innerAngle, inner);
    TurnedRingAlike(g.outerRing, Step(g), p.outerAngle, outer);
  }

  /** The constraint last set for a circuit is that of all its prepared labels. */
  lemma CircuitReachesSolver(s: Session, id: nat, c: Constraint, a: Answer)
    requires Valid(s) && CircuitSet(s, id, c).1
    requires var t := CircuitSet(s, id, c).0; Valid(t) && Fitting(t, a) && Synced(t, a).1
    ensures var circuits := Synced(CircuitSet(s, id, c).0, a).0.prepared.circuits;
      && (forall i :: 0 <= i < |circuits| && circuits[i].source == id ==> circuits[i].constraint == c)
      && (forall l :: 0 <= l < |s.model.labels| && s.model.labels[l].inCircuit == id ==> HasLabel(circuits, l))
      && (forall i :: 0 <= i < |circuits| && circuits[i].source != id ==>
            circuits[i].source in s.parameters.constraints && circuits[i].constraint == s.parameters.constraints[circuits[i].source])
  {
    var t := CircuitSet(s, id, c).0;
    SyncedKeeps(t, a);
    var u := Synced(t, a).0;
    SettledPreparation(u);
    forall i | 0 <= i < |u.prepared.circuits|
      ensures var e := u.prepared.circuits[i]; IsCircuitOf(e, u.model, u.parameters.constraints)
    {
    }
  }

  /** The frequency last set is the one all curves are prepared at. */
  lemma FrequencyReachesSolver(s: Session, f: Number, a: Answer)
    requires Valid(s) && FrequencySet(s, f).1
    requires var t := FrequencySet(s, f).0; Valid(t) && Fitting(t, a) && Synced(t, a).1
    ensures f.Finite? && f.value >= 0.0
    ensures var u := Synced(FrequencySet(s, f).0, a).0;
      && u.prepared.frequency == f.value && (Steady(u) <==> f.value == 0.0) && |u.prepared.materials| == |s.model.materials|
      && forall i :: 0 <= i < |s.model.materials| ==> IsMaterialOf(u.prepared.materials[i], s.model.materials[i], f.value)
  {
    var t := FrequencySet(s, f).0;
    SyncedKeeps(t, a);
    SettledPreparation(Synced(t, a).0);
  }

  /** The property last set is the one the solver's material then has. */
  lemma PropertyReachesSolver(s: Session, id: nat, property: Property, v: PropertyValue, a: Answer)
    requires Valid(s) && PropertySet(s, id, property, v).1
    requires var t := PropertySet(s, id, property, v).0; Valid(t) && Fitting(t, a) && Synced(t, a).1
    ensures var u := Synced(PropertySet(s, id, property, v).0, a).0;
      id < |u.prepared.materials| && PropertyOf(u.prepared.materials[id].source, property) == v
  {
    var t := PropertySet(s, id, property, v).0;
    SyncedKeeps(t, a);
    var u := Synced(t, a).0;
    SettledPreparation(u);
    PropertySetIs(s, id, property, v);
    assert IsMaterialOf(u.prepared.materials[id], u.model.materials[id], u.parameters.frequency);
  }

  /** A trial carries the time last set, and the state accepted from it all the trial's data. */
  lemma TimeReachesAcceptance(s: Session, time: Number, a: Answer, attempts: Attempts)
    requires Valid(s) && TimeSet(s, time).1
    requires var t := TimeSet(s, time).0; Valid(t) && Fitting(t, a) && Fit(Synced(t, a).0, attempts) && SolveStep(t, a, attempts).1.Some?
    ensures var (r, trial) := SolveStep(TimeSet(s, time).0, a, attempts);
      && time.Finite? && trial.value.time == time.value && trial.value.id == s.nextSolution && trial.value.session == s.id
      && AcceptStep(r, trial.value).1.Some?
  {
    SolveStepKeeps(TimeSet(s, time).0, a, attempts);
  }

  /** A trial is accepted exactly when it is numbered, of this session and of its present revisions;
      the accepted state has its data and becomes the initial state. */
  lemma AcceptIs(s: Session, t: Trial)
    ensures var (r, state) := AcceptStep(s, t);
      && (state.Some? <==> t.id > 0 && t.session == s.id && t.modelRevision == s.modelRevision && t.parameterRevision == s.parameterRevision)
      && (state.None? ==> r == s)
      && (state.Some? ==>
           && state.value.trial == t.id && state.value.session == t.session && state.value.time == t.time && state.value.field == t.field
           && state.value.modelRevision == t.modelRevision && state.value.parameterRevision == t.parameterRevision
           && OnlyParameters(s.(backend := r.backend), r, {InitialState}) && r.parameters == s.parameters.(initial := state))
  {
  }

  /** A session starts from the model: its frequency, time zero, a prescribed current for each circuit,
      every air gap at its own angles, no initial state, and everything dirty. */
  lemma FreshIs(model: Model, mesher: nat, id: nat, setup: Setup)
    ensures var s := AnalysisSession.Fresh(model, mesher, id, setup);
      && s.model == model && s.parameters.frequency == model.frequency && s.parameters.time == 0.0 && s.parameters.initial == None
      && (forall c: nat :: c in s.parameters.constraints <==> c < |model.circuits|)
      && (forall c: nat :: c < |model.circuits| ==> s.parameters.constraints[c] == Constraint(PrescribedCurrent, model.circuits[c]))
      && (forall l: nat :: l in s.parameters.gaps <==> l < |model.lines| && model.lines[l].airGap)
      && (forall l: nat :: l < |model.lines| && model.lines[l].airGap ==>
            IsTurned(s.parameters.gaps[l].innerAngle, Finite(model.lines[l].innerAngle)) && IsTurned(s.parameters.gaps[l].outerAngle, Finite(model.lines[l].outerAngle)))
      && (forall flag: Flag :: flag in s.dirty)
      && s.id == id && s.mesher == mesher && s.mesh == None && s.modelRevision == s.parameterRevision == s.nextSolution == 1
      && s.backend.setup == setup && !s.backend.initialized && s.backend.topology == s.backend.loaded == 0 && s.backend.buckets == map[]
      && s.backend.current == None && s.backend.trial == None && s.backend.committed == None && s.backend.system == None
  {
    forall l: nat | l < |model.lines| && model.lines[l].airGap
      ensures var p := InitialParameters(model).gaps[l];
        IsTurned(p.innerAngle, Finite(model.lines[l].innerAngle)) && IsTurned(p.outerAngle, Finite(model.lines[l].outerAngle))
    {
      CanonicalIsTurned(Finite(model.lines[l].innerAngle));
      CanonicalIsTurned(Finite(model.lines[l].outerAngle));
    }
    forall flag: Flag ensures flag in ALL {
      match flag
      case ModelIndex =>
      case _ =>
    }
  }
}
