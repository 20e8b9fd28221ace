/** An analysis session: what changes make it dirty, and how it brings its solver up to date. */
module AnalysisSession {
  import opened Wrappers
  import opened Angles
  import opened AirGapRing
  import opened AirGapPosition
  import opened Bucket
  import opened GapPlacement
  import opened SolverBackend
  import opened BackendRuns
  import opened SessionModel

  datatype Flag = ModelIndex | Meshes | Materials | Circuits | Coupling | Operator | RightHandSide | InitialState | SolveState

  const ALL: set<Flag> := {ModelIndex, Meshes, Materials, Circuits, Coupling, Operator, RightHandSide, InitialState, SolveState}

  datatype Options = Options(minimumAngle: real, elementSize: real, exact: bool)

  datatype Meshed = Made(mesh: Mesh) | NotMade | MesherThrew

  /** What the surroundings answer during one synchronization: the mesher, and the bucket built. */
  datatype Answer = Answer(meshed: Meshed, built: Outcome<BucketDefinition, PositionError>)

  /** How the nonlinear solver ends, and the plain solver that may step in. */
  datatype Attempts = Attempts(first: Attempt, second: Attempt)

  datatype Trial = Trial(id: nat, session: nat, modelRevision: nat, parameterRevision: nat, time: real, field: Option<Field>)

  datatype Session = Session(
    model: Model,
    parameters: Parameters,
    prepared: Prepared,
    dirty: set<Flag>,
    mesher: nat,
    options: Options,
    mesh: Option<Mesh>,
    topology: nat,
    generations: nat,
    modelRevision: nat,
    parameterRevision: nat,
    nextSolution: nat,
    id: nat,
    backend: State)

  function Fresh(model: Model, mesher: nat, id: nat, setup: Setup): Session {
    Session(model, InitialParameters(model), Prepared([], [], map[], 0.0), ALL, mesher, Options(0.0, 0.0, false), None,
            0, 0, 1, 1, 1, id, SolverBackend.Fresh(setup))
  }

  // ----- the invariant

  /** There is a mesh exactly when none is asked for; meshes are numbered from one. */
  ghost predicate Meshing(s: Session) {
    && (s.mesh.None? <==> Meshes in s.dirty)
    && (Meshes in s.dirty ==> Operator in s.dirty)
    && (s.mesh.Some? ==> s.topology > 0 && SoundMesh(s.mesh.value))
    && s.mesher > 0
  }

  ghost predicate SoundMesh(mesh: Mesh) {
    mesh.outcome.Imports? ==> Sound(mesh.gaps, mesh.numNodes, mesh.pairs)
  }

  /** The solver lags behind the session's mesh or holds it; with nothing left to synchronize it holds it. */
  ghost predicate Backed(s: Session) {
    && Held(s.backend, Names(s.model))
    && s.backend.topology <= s.topology && s.backend.loaded <= s.topology
    && (s.backend.topology == s.topology ==> s.backend.loaded == s.topology)
    && (Settled(s) ==> s.backend.topology == s.topology && Switched(s) && Configurable(s.model, s.parameters.constraints))
  }

  /** A device solver is switched to the bucket that building it now would give. */
  ghost predicate Switched(s: Session)
    requires s.backend.setup.width > 0.0 && AllImported(s.backend.gaps, s.backend.numNodes)
  {
    s.backend.setup.device ==>
      s.backend.current.Some? && IsBuilt(Done(s.backend.current.value), s.backend, Names(s.model), Asked(s.model, s.parameters.gaps))
  }

  predicate Settled(s: Session) { s.dirty <= {SolveState} }

  /** Every prepared part whose flags are clear is what preparing it afresh would give. */
  ghost predicate PartsCurrent(s: Session) {
    && (Materials !in s.dirty ==>
          AllMagnetic(s.model.materials) && s.prepared.materials == PreparedMaterials(s.model, s.parameters.frequency)
          && s.prepared.frequency == s.parameters.frequency)
    && (Circuits !in s.dirty && RightHandSide !in s.dirty ==>
          AllLinked(s.model, s.parameters.constraints, |s.model.labels|)
          && s.prepared.circuits == PreparedCircuits(s.model, s.parameters.constraints, |s.model.labels|))
    && (Coupling !in s.dirty ==> s.prepared.gaps == s.parameters.gaps)
  }

  /** With the coupling clear and the mesh in the solver, gaps whose rings match stand where asked. */
  ghost predicate GapsStand(s: Session)
    requires Backed(s)
  {
    Coupling !in s.dirty && s.backend.topology == s.topology ==>
      var asked := Asked(s.model, s.parameters.gaps);
      Matching(s.backend.gaps, Names(s.model), asked, |asked|) ==> PlacedFor(s.backend.gaps, Names(s.model), asked)
  }

  ghost predicate Numbered(s: Session) {
    && s.nextSolution > 0 && s.modelRevision > 0 && s.parameterRevision > 0
    && Known(s.model, s.parameters)
    && (s.parameters.initial.Some? ==> s.parameters.initial.value.modelRevision <= s.modelRevision)
  }

  ghost predicate Valid(s: Session) {
    Meshing(s) && Backed(s) && PartsCurrent(s) && GapsStand(s) && Numbered(s)
  }

  lemma FreshIsValid(model: Model, mesher: nat, id: nat, setup: Setup)
    requires setup.width > 0.0 && mesher > 0
    ensures Valid(Fresh(model, mesher, id, setup))
  {
  }

  // ----- the setters

  function Invalidated(s: Session, flags: set<Flag>): Session {
    s.(dirty := s.dirty + flags + {SolveState})
  }

  /** New parameters, one revision on. */
  function Reparametrized(s: Session, p: Parameters, flags: set<Flag>): Session {
    Invalidated(s.(parameters := p, parameterRevision := s.parameterRevision + 1), flags)
  }

  function MesherSet(s: Session, mesher: nat): (Session, bool) {
    if mesher == 0 then (s, false)
    else if s.mesher == mesher then (s, true)
    else (Invalidated(s.(mesher := mesher, mesh := None), {Meshes, Operator, RightHandSide}), true)
  }

  function OptionsSet(s: Session, minimumAngle: Number, elementSize: Number, exact: bool): (Session, bool) {
    if !minimumAngle.Finite? || minimumAngle.value < 0.0 || !elementSize.Finite? || elementSize.value < 0.0 then (s, false)
    else (Invalidated(s.(options := Options(minimumAngle.value, elementSize.value, exact), mesh := None), {Meshes, Operator, RightHandSide}), true)
  }

  function CircuitSet(s: Session, id: nat, c: Constraint): (Session, bool) {
    if !KnownCircuit(s.model, id) then (s, false)
    else
      (Reparametrized(s, s.parameters.(constraints := s.parameters.constraints[id := c]),
                      if c.kind.PrescribedCurrent? then {RightHandSide} else {RightHandSide, Operator}), true)
  }

  function AngleSet(s: Session, id: nat, inner: Number, outer: Number): (Session, bool) {
    if !KnownGap(s.model, id) || !inner.Finite? || !outer.Finite? then (s, false)
    else
      (Reparametrized(s, s.parameters.(gaps := s.parameters.gaps[id := SessionModel.Wrapped(inner.value, outer.value)]), {Coupling, Operator}), true)
  }

  function FrequencySet(s: Session, f: Number): (Session, bool) {
    if !f.Finite? || f.value < 0.0 then (s, false)
    else (Reparametrized(s, s.parameters.(frequency := f.value), {Materials, Operator, RightHandSide}), true)
  }

  function TimeSet(s: Session, t: Number): (Session, bool) {
    if !t.Finite? then (s, false) else (Reparametrized(s, s.parameters.(time := t.value), {}), true)
  }

  function InitialSet(s: Session, state: Option<AcceptedState>): (Session, bool) {
    if state.Some? && state.value.modelRevision != s.modelRevision then (s, false)
    else (Reparametrized(s, s.parameters.(initial := state), {InitialState}), true)
  }

  function PropertySet(s: Session, id: nat, property: Property, v: PropertyValue): (Session, bool) {
    if id >= |s.model.materials| || s.model.materials[id].OtherMaterial? then (s, false)
    else
      var changed := WithProperty(s.model.materials[id].material, property, v);
      if changed.None? then (s, false)
      else
        (Invalidated(s.(model := s.model.(materials := s.model.materials[id := Magnetic(changed.value)]), modelRevision := s.modelRevision + 1),
                     {Materials, Operator}), true)
  }

  /** The flags of what an update really changes. */
  function Changes(p: Parameters, q: Parameters): set<Flag> {
    (if p.frequency != q.frequency then {Materials, Operator, RightHandSide} else {})
    + (if p.constraints != q.constraints then {RightHandSide, Operator} else {})
    + (if p.gaps != q.gaps then {Coupling, Operator} else {})
    + (if p.initial != q.initial then {InitialState} else {})
  }

  function Updated(s: Session, proposal: Proposal): (Session, bool) {
    if !Admissible(s.model, s.modelRevision, proposal) then (s, false)
    else (Reparametrized(s, Canonical(proposal), Changes(s.parameters, Canonical(proposal))), true)
  }

  // ----- synchronize, solve, accept, roll back

  function WithMesh(s: Session, meshed: Meshed): (Session, bool) {
    if s.mesh.Some? && Meshes !in s.dirty then (s, true)
    else match meshed
      case MesherThrew => (s, false)
      case NotMade => (s.(generations := s.generations + 1), false)
      case Made(mesh) =>
        (s.(generations := s.generations + 1, mesh := Some(mesh), topology := s.topology + 1, dirty := s.dirty - {Meshes}), true)
  }

  ghost predicate MeshedSoundly(meshed: Meshed) {
    meshed.Made? ==> SoundMesh(meshed.mesh)
  }

  /** The prepared parts after rebuilding the dirty ones; nothing when one cannot be rebuilt. */
  function Candidate(s: Session): Option<Prepared> {
    var circuitsToo := Circuits in s.dirty || RightHandSide in s.dirty;
    if Materials in s.dirty && !AllMagnetic(s.model.materials) then None
    else if circuitsToo && !AllLinked(s.model, s.parameters.constraints, |s.model.labels|) then None
    else
      Some(Prepared(
        if Materials in s.dirty then PreparedMaterials(s.model, s.parameters.frequency) else s.prepared.materials,
        if circuitsToo then PreparedCircuits(s.model, s.parameters.constraints, |s.model.labels|) else s.prepared.circuits,
        if Coupling in s.dirty then s.parameters.gaps else s.prepared.gaps,
        if Materials in s.dirty then s.parameters.frequency else s.prepared.frequency))
  }

  /** What the solver is handed once there is a mesh and a candidate. */
  ghost function Handed(s: Session, candidate: Prepared, built: Outcome<BucketDefinition, PositionError>): (State, bool)
    requires Backed(s) && s.mesh.Some? && SoundMesh(s.mesh.value)
  {
    Synchronized(s.backend, Configurable(s.model, s.parameters.constraints), Names(s.model), Asked(s.model, candidate.gaps),
                 s.mesh.value, s.topology, Coupling in s.dirty, built)
  }

  /** `built` is what the solver builds when it is handed the candidate. */
  ghost predicate BuildsIt(s: Session, candidate: Prepared, built: Outcome<BucketDefinition, PositionError>)
    requires Backed(s) && s.mesh.Some? && SoundMesh(s.mesh.value)
  {
    Configurable(s.model, s.parameters.constraints) ==>
      Answers(s.backend, Names(s.model), Asked(s.model, candidate.gaps), s.mesh.value, s.topology, Coupling in s.dirty, built)
  }

  lemma WithMeshBacked(s: Session, meshed: Meshed)
    requires Valid(s) && MeshedSoundly(meshed)
    ensures var r := WithMesh(s, meshed);
      Valid(r.0) && (r.1 ==> r.0.mesh.Some?) && r.0.backend == s.backend && SameButMesh(s, r.0) && (Settled(r.0) <==> Settled(s))
  {
    if Meshes in s.dirty {
      assert Operator in s.dirty - {Meshes};
    }
  }

  /** Meshing changes neither model nor parameters nor what is prepared, and clears no other flag. */
  ghost predicate SameButMesh(s: Session, m: Session) {
    m == s.(mesh := m.mesh, topology := m.topology, generations := m.generations, dirty := m.dirty)
    && (m.dirty == s.dirty || m.dirty == s.dirty - {Meshes})
  }

  ghost predicate Builds(s: Session, a: Answer)
    requires Valid(s) && MeshedSoundly(a.meshed)
  {
    WithMeshBacked(s, a.meshed);
    var (m, ok) := WithMesh(s, a.meshed);
    ok && Candidate(m).Some? ==> BuildsIt(m, Candidate(m).value, a.built)
  }

  /** The answer fits the session: a sound mesh, and the bucket that is really built. */
  ghost predicate Fitting(s: Session, a: Answer)
    requires Valid(s)
  {
    MeshedSoundly(a.meshed) && (!Settled(s) ==> Builds(s, a))
  }

  /** Once there is a mesh: prepare what is dirty, hand it over, adopt it if the solver takes it. */
  ghost function Delivered(m: Session, built: Outcome<BucketDefinition, PositionError>): (Session, bool)
    requires Backed(m) && m.mesh.Some? && SoundMesh(m.mesh.value)
  {
    var candidate := Candidate(m);
    if candidate.None? then (m, false)
    else
      var handed := Handed(m, candidate.value, built);
      if !handed.1 then (m.(backend := handed.0), false)
      else (m.(backend := handed.0, prepared := candidate.value, dirty := {SolveState}), true)
  }

  ghost function Synced(s: Session, a: Answer): (Session, bool)
    requires Valid(s) && Fitting(s, a)
  {
    if Settled(s) then (s, true)
    else
      WithMeshBacked(s, a.meshed);
      var (m, ok) := WithMesh(s, a.meshed);
      if ok then Delivered(m, a.built) else (m, false)
  }

  function Steady(s: Session): bool { s.parameters.frequency == 0.0 }

  /** Evaluate a synchronized session: a converged solve issues a trial, stamped and numbered. */
  function Evaluated(t: Session, attempts: Attempts): (Session, Option<Trial>) {
    var (b, field) := Solved(t.backend, Configurable(t.model, t.parameters.constraints), Steady(t), attempts.first, attempts.second);
    if field.None? then (t.(backend := b), None)
    else
      (t.(backend := b, nextSolution := t.nextSolution + 1, dirty := {}),
       Some(Trial(t.nextSolution, t.id, t.modelRevision, t.parameterRevision, t.parameters.time, field)))
  }

  ghost function SolveStep(s: Session, a: Answer, attempts: Attempts): (Session, Option<Trial>)
    requires Valid(s) && Fitting(s, a)
  {
    var (t, ok) := Synced(s, a);
    if ok then Evaluated(t, attempts) else (t, None)
  }

  ghost function InitializeStep(s: Session, a: Answer, attempts: Attempts): (Session, bool)
    requires Valid(s) && Fitting(s, a)
  {
    var (t, ok) := Synced(s, a);
    if !ok then (t, false)
    else
      var (b, done) := Initialized(t.backend, Configurable(t.model, t.parameters.constraints), Steady(t), attempts.first, attempts.second);
      (t.(backend := b), done)
  }

  predicate Current(s: Session, t: Trial) {
    t.session == s.id && t.modelRevision == s.modelRevision && t.parameterRevision == s.parameterRevision && t.id != 0
  }

  function AcceptStep(s: Session, t: Trial): (Session, Option<AcceptedState>) {
    if !Current(s, t) then (s, None)
    else
      var accepted := AcceptedState(t.session, t.id, t.modelRevision, t.parameterRevision, t.time, t.field);
      (Reparametrized(s.(backend := Committed(s.backend)), s.parameters.(initial := Some(accepted)), {InitialState}), Some(accepted))
  }

  function RollbackStep(s: Session): (Session, bool) {
    var (b, ok) := RolledBack(s.backend);
    if ok then (Invalidated(s.(backend := b), {InitialState}), true) else (s.(backend := b), false)
  }
}
