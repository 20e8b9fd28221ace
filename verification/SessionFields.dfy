/** Which field a session commits and restores, over whole runs on a device solver. */
module SessionFields {
  import opened Wrappers
  import opened AirGapRing
  import opened AirGapPosition
  import opened Tiling
  import opened EntryOrder
  import opened Stencil
  import opened Bucket
  import opened GapPlacement
  import opened SolverBackend
  import opened BackendRuns
  import opened SessionModel
  import opened AnalysisSession
  import opened SessionKeeps
  import opened SessionRuns

  // ----- what a step records

  /** The fields a solver holds, the identity of the bucket it has selected, and of the one it has
      committed. Without the device nothing is ever committed or selected. */
  datatype Record = Record(held: Option<Field>, committed: Option<Field>, selected: Option<Identity>, bucket: Option<Identity>)

  const NOTHING: Record := Record(None, None, None, None)

  ghost function RecordOf(b: State): Record {
    Record(b.trial, b.committed, IdentityIn(b.current), b.committedIdentity)
  }

  /** The attempt that decides a solve: the plain solver's when it steps in. */
  function Deciding(setup: Setup, attempts: Attempts): Attempt {
    if attempts.first.Threw? && setup.device && setup.fallback then attempts.second else attempts.first
  }

  /** A new topology in the solver drops everything; a synchronized session has selected the bucket
      of its angles. */
  ghost function AfterSync(f: Record, s: Session, r: Session): Record
    requires s.backend.setup.width > 0.0
  {
    var base := if r.backend.topology == s.backend.topology then f else NOTHING;
    if Settled(r) && s.backend.setup.device then base.(selected := Some(IdentityOf(Asked(r.model, r.parameters.gaps), s.backend.setup.width))) else base
  }

  /** What one step from `s` to `r` makes of the record. */
  ghost function Recorded(f: Record, s: Session, op: Op, r: Session, result: Result): Record
    requires s.backend.setup.width > 0.0
  {
    match op
    case Synchronize(_) => AfterSync(f, s, r)
    case Initialize(_, attempts) =>
      var now := AfterSync(f, s, r);
      if s.backend.setup.device && result == Finished(true) && !s.backend.initialized
      then Record(Some(Deciding(s.backend.setup, attempts).x), Some(Deciding(s.backend.setup, attempts).x), now.selected, now.selected)
      else now
    case Solve(_, attempts) =>
      var now := AfterSync(f, s, r);
      if result.Issued? then now.(held := Some(Deciding(s.backend.setup, attempts).x)) else now
    case AcceptSolution(_) =>
      if s.backend.setup.device && result.Accepted? && f.held.Some? then f.(committed := f.held, bucket := f.selected) else f
    case RollbackToCommitted =>
      if s.backend.setup.device && result == Finished(true) then f.(held := f.committed) else f
    case _ => f
  }

  /** What synchronizing does to the solver: nothing but selecting a bucket, or a new topology drops all. */
  ghost predicate FieldsStay(b: State, b': State, ok: bool) {
    && b'.setup == b.setup && b'.initialized == b.initialized
    && if b'.topology == b.topology
       then b'.trial == b.trial && b'.committed == b.committed && b'.committedIdentity == b.committedIdentity && (!ok || !b.setup.device ==> b'.current == b.current)
       else b'.trial.None? && b'.committed.None? && b'.committedIdentity.None? && (!ok || !b.setup.device ==> b'.current.None?)
  }

  lemma SynchronizedFieldsStay(b: State, configurable: bool, names: seq<string>, prepared: seq<GapPosition>, mesh: Mesh, identity: nat, coupling: bool,
                               built: Outcome<BucketDefinition, PositionError>)
    requires b.setup.width > 0.0 && InNames(prepared, names) && Ready(b, mesh, identity)
    ensures var r := Synchronized(b, configurable, names, prepared, mesh, identity, coupling, built); FieldsStay(b, r.0, r.1)
  {
  }

  lemma DeliveredFieldsStay(m: Session, built: Outcome<BucketDefinition, PositionError>)
    requires Backed(m) && m.mesh.Some? && SoundMesh(m.mesh.value)
    ensures var (r, ok) := Delivered(m, built); FieldsStay(m.backend, r.backend, ok)
  {
    var candidate := Candidate(m);
    if candidate.Some? {
      SynchronizedFieldsStay(m.backend, Configurable(m.model, m.parameters.constraints), Names(m.model), Asked(m.model, candidate.value.gaps),
                             m.mesh.value, m.topology, Coupling in m.dirty, built);
    }
  }

  lemma SyncedFieldsStay(s: Session, a: Answer)
    requires Valid(s) && Fitting(s, a)
    ensures FieldsStay(s.backend, Synced(s, a).0.backend, Synced(s, a).1)
  {
    if !Settled(s) {
      WithMeshBacked(s, a.meshed);
      var (m, ok) := WithMesh(s, a.meshed);
      if ok {
        DeliveredFieldsStay(m, a.built);
      }
    }
  }

  /** A synchronized device session has selected the bucket of its angles. */
  lemma SettledSelects(s: Session)
    requires Backed(s) && Settled(s) && s.backend.setup.device
    ensures IdentityIn(s.backend.current) == Some(IdentityOf(Asked(s.model, s.parameters.gaps), s.backend.setup.width))
  {
  }

  lemma SyncRecords(s: Session, a: Answer)
    requires Valid(s) && Fitting(s, a)
    ensures RecordOf(Synced(s, a).0.backend) == AfterSync(RecordOf(s.backend), s, Synced(s, a).0)
    ensures Synced(s, a).0.backend.setup == s.backend.setup && Synced(s, a).0.backend.initialized == s.backend.initialized
  {
    SyncedFieldsStay(s, a);
    SyncedKeeps(s, a);
    if Synced(s, a).1 && s.backend.setup.device {
      SettledSelects(Synced(s, a).0);
    }
  }

  lemma EvaluatedRecords(t: Session, attempts: Attempts)
    ensures var (r, trial) := Evaluated(t, attempts);
      && RecordOf(r.backend) == RecordOf(t.backend).(held := if trial.Some? then Some(Deciding(t.backend.setup, attempts).x) else t.backend.trial)
      && r.backend.setup == t.backend.setup && r.backend.topology == t.backend.topology
      && r.model == t.model && r.parameters == t.parameters && (Settled(r) <==> Settled(t) || trial.Some?)
      && (trial.Some? ==> trial.value.field == Some(Scaled(Deciding(t.backend.setup, attempts).x, t.backend.setup.scale)))
  {
  }

  lemma InitializedRecords(b: State, configurable: bool, steady: bool, attempts: Attempts)
    ensures var (r, ok) := Initialized(b, configurable, steady, attempts.first, attempts.second);
      && r.setup == b.setup && r.topology == b.topology
      && RecordOf(r) == (
           if b.setup.device && ok && !b.initialized
           then Record(Some(Deciding(b.setup, attempts).x), Some(Deciding(b.setup, attempts).x), IdentityIn(b.current), IdentityIn(b.current))
           else RecordOf(b))
  {
  }

  /** Setters and meshing never reach the solver. */
  predicate IsSetter(op: Op) {
    !op.Synchronize? && !op.Initialize? && !op.Solve? && !op.AcceptSolution? && !op.RollbackToCommitted?
  }

  lemma SettersLeaveTheSolver(s: Session, op: Op)
    requires Valid(s) && Allowed(s, op) && IsSetter(op)
    ensures Next(s, op).0.backend == s.backend
  {
  }

  lemma SolveRecords(s: Session, a: Answer, attempts: Attempts)
    requires Valid(s) && Fitting(s, a)
    ensures var (r, trial) := SolveStep(s, a, attempts);
      && r.backend.setup == s.backend.setup
      && RecordOf(r.backend) == AfterSync(RecordOf(s.backend), s, r).(held :=
           if trial.Some? then Some(Deciding(s.backend.setup, attempts).x) else AfterSync(RecordOf(s.backend), s, r).held)
      && (trial.Some? ==> trial.value.field == Some(Scaled(Deciding(s.backend.setup, attempts).x, s.backend.setup.scale)))
  {
    SyncRecords(s, a);
    SyncedKeeps(s, a);
    if Synced(s, a).1 {
      EvaluatedRecords(Synced(s, a).0, attempts);
    }
  }

  lemma InitializeRecords(s: Session, a: Answer, attempts: Attempts)
    requires Valid(s) && Fitting(s, a)
    ensures var (r, ok) := InitializeStep(s, a, attempts);
      var now, x := AfterSync(RecordOf(s.backend), s, r), Some(Deciding(s.backend.setup, attempts).x);
      && r.backend.setup == s.backend.setup
      && RecordOf(r.backend) == if s.backend.setup.device && ok && !s.backend.initialized then Record(x, x, now.selected, now.selected) else now
  {
    SyncRecords(s, a);
    var t := Synced(s, a).0;
    if Synced(s, a).1 {
      InitializedRecords(t.backend, Configurable(t.model, t.parameters.constraints), Steady(t), attempts);
    }
  }

  /** One step of a session: its solver holds, has selected and has committed what the record says. */
  lemma StepRecords(s: Session, op: Op)
    requires Valid(s) && Allowed(s, op)
    ensures var (r, result) := Next(s, op);
      r.backend.setup == s.backend.setup && RecordOf(r.backend) == Recorded(RecordOf(s.backend), s, op, r, result)
  {
    if op.Synchronize? || op.Initialize? || op.Solve? {
      SolverStepRecords(s, op);
    } else {
      OtherStepRecords(s, op);
    }
  }

  lemma SolverStepRecords(s: Session, op: Op)
    requires Valid(s) && Allowed(s, op) && (op.Synchronize? || op.Initialize? || op.Solve?)
    ensures var (r, result) := Next(s, op);
      r.backend.setup == s.backend.setup && RecordOf(r.backend) == Recorded(RecordOf(s.backend), s, op, r, result)
  {
    match op
    case Synchronize(a) => SyncRecords(s, a);
    case Initialize(a, attempts) => InitializeRecords(s, a, attempts);
    case Solve(a, attempts) => SolveRecords(s, a, attempts);
  }

  lemma OtherStepRecords(s: Session, op: Op)
    requires Valid(s) && Allowed(s, op) && !op.Synchronize? && !op.Initialize? && !op.Solve?
    ensures var (r, result) := Next(s, op);
      && r.backend.setup == s.backend.setup && r.backend.topology == s.backend.topology
      && RecordOf(r.backend) == Recorded(RecordOf(s.backend), s, op, r, result)
  {
    if IsSetter(op) {
      SettersLeaveTheSolver(s, op);
      SettersRecordNothing(RecordOf(s.backend), s, op, Next(s, op).0, Next(s, op).1);
    } else {
      AcceptOrRollbackRecords(s, op);
    }
  }

  lemma SettersRecordNothing(f: Record, s: Session, op: Op, r: Session, result: Result)
    requires s.backend.setup.width > 0.0 && IsSetter(op)
    ensures Recorded(f, s, op, r, result) == f
  {
  }

  lemma AcceptOrRollbackRecords(s: Session, op: Op)
    requires Valid(s) && Allowed(s, op) && (op.AcceptSolution? || op.RollbackToCommitted?)
    ensures var (r, result) := Next(s, op);
      && r.backend.setup == s.backend.setup && r.backend.topology == s.backend.topology
      && RecordOf(r.backend) == Recorded(RecordOf(s.backend), s, op, r, result)
  {
    match op
    case AcceptSolution(t) => AcceptRecords(s, t);
    case RollbackToCommitted => RollbackRecords(s);
  }

  lemma AcceptRecords(s: Session, t: Trial)
    ensures var (r, state) := AcceptStep(s, t);
      var f := RecordOf(s.backend);
      r.backend.setup == s.backend.setup
      && RecordOf(r.backend) == if s.backend.setup.device && state.Some? && f.held.Some? then f.(committed := f.held, bucket := f.selected) else f
  {
  }

  lemma RollbackRecords(s: Session)
    requires Valid(s)
    ensures var (r, ok) := RollbackStep(s);
      var f := RecordOf(s.backend);
      r.backend.setup == s.backend.setup && RecordOf(r.backend) == if s.backend.setup.device && ok then f.(held := f.committed) else f
  {
    if s.backend.setup.device {
      RollbackRestores(s.backend, Names(s.model));
    }
  }

  /** The committed field and its bucket change only when a trial is accepted, when the session is
      initialized, and when a new topology drops them. */
  lemma CommittedOnlyChangesAt(s: Session, op: Op)
    requires Valid(s) && Allowed(s, op)
    requires !op.AcceptSolution? && !op.Initialize?
    ensures var b, b' := s.backend, Next(s, op).0.backend;
      if b'.topology == b.topology then b'.committed == b.committed && b'.committedIdentity == b.committedIdentity else b'.committed.None?
  {
    if op.Synchronize? || op.Solve? {
      SolverStepRecords(s, op);
    } else {
      OtherStepRecords(s, op);
    }
  }

  /** Rolling back a device session fails exactly when nothing was committed for the topology, and
      then changes nothing; otherwise it shows the committed field and keeps every revision, so a
      trial that was current before is still current. */
  lemma RollbackShowsCommitted(s: Session)
    requires Valid(s) && s.backend.setup.device
    ensures var (r, ok) := RollbackStep(s);
      && (ok <==> s.backend.committed.Some?)
      && (!ok ==> r == s)
      && (ok ==> r.backend.trial == r.backend.committed == s.backend.committed)
      && (ok ==> Shows(r.backend, s.backend.committed.value, s.backend.committedIdentity.value))
      && forall t :: Current(r, t) <==> Current(s, t)
  {
    RollbackRestores(s.backend, Names(s.model));
  }

  // ----- what the solver holds in any state of a run

  /** A step goes by the record; a trial it issues shows the field that is held then. */
  ghost predicate Tracks(s: Session, op: Op, r: Session, result: Result) {
    && s.backend.setup.width > 0.0 && r.backend.setup == s.backend.setup
    && RecordOf(r.backend) == Recorded(RecordOf(s.backend), s, op, r, result)
    && (result.Issued? ==> op.Solve? && result.trial.field == Some(Scaled(Deciding(s.backend.setup, op.attempts).x, s.backend.setup.scale)))
    && (result.Accepted? ==> op.AcceptSolution? && result.state.field == op.trial.field)
  }

  lemma StepIsTracked(s: Session, op: Op)
    requires Valid(s) && Allowed(s, op)
    ensures Tracks(s, op, Next(s, op).0, Next(s, op).1)
  {
    StepRecords(s, op);
    if op.Solve? {
      SolveRecords(s, op.answer, op.attempts);
    }
  }

  ghost predicate TrackedAt(states: seq<Session>, ops: seq<Op>, results: seq<Result>, i: nat)
    requires i < |ops| == |results| && |states| == |ops| + 1
  {
    Tracks(states[i], ops[i], states[i + 1], results[i])
  }

  ghost predicate Tracked(states: seq<Session>, ops: seq<Op>, results: seq<Result>) {
    && |states| == |ops| + 1 && |results| == |ops|
    && forall i :: 0 <= i < |ops| ==> TrackedAt(states, ops, results, i)
  }

  lemma {:induction false} RunIsTracked(states: seq<Session>, ops: seq<Op>, results: seq<Result>, upTo: nat)
    requires Run(states, ops, results) && upTo <= |ops|
    ensures states[upTo].backend.setup == states[0].backend.setup
    ensures forall i :: 0 <= i < upTo ==> TrackedAt(states, ops, results, i)
  {
    if upTo > 0 {
      RunIsTracked(states, ops, results, upTo - 1);
      assert Follows(states, ops, results, upTo - 1);
      StepIsTracked(states[upTo - 1], ops[upTo - 1]);
    }
  }

  /** The record of a run before step `i`, from what the operations were given and answered. */
  ghost function History(states: seq<Session>, ops: seq<Op>, results: seq<Result>, i: nat): Record
    requires Tracked(states, ops, results) && i < |states|
  {
    if i == 0 then RecordOf(states[0].backend)
    else
      assert TrackedAt(states, ops, results, i - 1);
      Recorded(History(states, ops, results, i - 1), states[i - 1], ops[i - 1], states[i], results[i - 1])
  }

  lemma {:induction false} TrackedHistory(states: seq<Session>, ops: seq<Op>, results: seq<Result>, i: nat)
    requires Tracked(states, ops, results) && i < |states|
    ensures RecordOf(states[i].backend) == History(states, ops, results, i) && states[i].backend.setup == states[0].backend.setup
  {
    if i > 0 {
      TrackedHistory(states, ops, results, i - 1);
      assert TrackedAt(states, ops, results, i - 1);
    }
  }

  /** In every state of every run the solver holds the field, has committed the
      field, has selected the bucket and has committed the bucket that the run's history tells. */
  lemma HistoryHolds(states: seq<Session>, ops: seq<Op>, results: seq<Result>, i: nat)
    requires Run(states, ops, results) && i < |states|
    ensures Tracked(states, ops, results) && RecordOf(states[i].backend) == History(states, ops, results, i)
  {
    RunIsTracked(states, ops, results, |ops|);
    TrackedHistory(states, ops, results, i);
  }

  /** What an accept commits: the held field, or what was committed before when nothing is held. */
  function Committable(f: Record): Option<Field> { if f.held.Some? then f.held else f.committed }

  function ShownAs(x: Option<Field>, scale: real): Option<Field> {
    if x.Some? then Some(Scaled(x.value, scale)) else None
  }

  /** Accepting commits what the history holds, whichever trial is accepted, with the bucket of the
      angles last synchronized. So the accepted state has the committed field exactly when the
      accepted trial has the field the history holds. */
  lemma AcceptCommitsHeld(states: seq<Session>, ops: seq<Op>, results: seq<Result>, i: nat, t: Trial)
    requires Run(states, ops, results) && i < |ops| && ops[i] == AcceptSolution(t) && results[i].Accepted?
    requires states[0].backend.setup.device
    ensures Tracked(states, ops, results)
    ensures var b, f := states[i + 1].backend, History(states, ops, results, i);
      && b.committed == Committable(f) && b.committedIdentity == (if f.held.Some? then f.selected else f.bucket)
      && results[i].state.field == t.field
      && (results[i].state.field == ShownAs(b.committed, b.setup.scale) <==> t.field == ShownAs(Committable(f), b.setup.scale))
  {
    RunIsTracked(states, ops, results, |ops|);
    TrackedHistory(states, ops, results, i);
    assert TrackedAt(states, ops, results, i);
  }

  /** The trial whose field the solver holds before step `i`: the last one issued, unless a
      rollback, an initialization or a new topology has replaced its field since. */
  ghost function LiveTrial(states: seq<Session>, ops: seq<Op>, results: seq<Result>, i: nat): Option<Trial>
    requires |states| == |ops| + 1 && |results| == |ops| && i < |states|
  {
    if i == 0 then None
    else if results[i - 1].Issued? then Some(results[i - 1].trial)
    else if LeavesHeld(states[i - 1], ops[i - 1], states[i], results[i - 1]) then LiveTrial(states, ops, results, i - 1)
    else None
  }

  /** A step that leaves the held field alone. */
  predicate LeavesHeld(s: Session, op: Op, r: Session, result: Result) {
    && !result.Issued? && !(op.RollbackToCommitted? && result == Finished(true) && s.backend.setup.device)
    && !(op.Initialize? && result == Finished(true) && s.backend.setup.device && !s.backend.initialized)
    && r.backend.topology == s.backend.topology
  }

  lemma HeldIsLeft(f: Record, s: Session, op: Op, r: Session, result: Result)
    requires s.backend.setup.width > 0.0 && LeavesHeld(s, op, r, result)
    ensures Recorded(f, s, op, r, result).held == f.held
  {
  }

  /** The field of an issued trial is the right-hand side of the solver's system: element by element
      the solution times the scale. */
  lemma TrialShowsSystem(s: Session, a: Answer, attempts: Attempts)
    requires Valid(s) && Fitting(s, a) && SolveStep(s, a, attempts).1.Some?
    ensures var (r, trial) := SolveStep(s, a, attempts);
      && r.backend.system.Some? && trial.value.field == Some(r.backend.system.value.rhs)
      && IsScaled(r.backend.system.value, s.backend.setup.scale) && r.backend.trial == Some(r.backend.system.value.solution)
  {
    SyncedFieldsStay(s, a);
    var t := Synced(s, a).0;
    SolveSucceeds(t.backend, Configurable(t.model, t.parameters.constraints), Steady(t), attempts.first, attempts.second);
  }

  /** While a trial is live, the history holds its field. */
  lemma {:induction false} HistoryHoldsLive(states: seq<Session>, ops: seq<Op>, results: seq<Result>, i: nat)
    requires Tracked(states, ops, results) && i < |states|
    ensures var live, f := LiveTrial(states, ops, results, i), History(states, ops, results, i);
      live.Some? ==> f.held.Some? && live.value.field == ShownAs(f.held, states[0].backend.setup.scale)
  {
    if i > 0 {
      HistoryHoldsLive(states, ops, results, i - 1);
      TrackedHistory(states, ops, results, i - 1);
      assert TrackedAt(states, ops, results, i - 1);
      if LeavesHeld(states[i - 1], ops[i - 1], states[i], results[i - 1]) {
        HeldIsLeft(History(states, ops, results, i - 1), states[i - 1], ops[i - 1], states[i], results[i - 1]);
      }
    }
  }

  /** In every state of every run the solver holds the field of the live trial, if there is one. */
  lemma LiveTrialIsHeld(states: seq<Session>, ops: seq<Op>, results: seq<Result>, i: nat)
    requires Run(states, ops, results) && i < |states|
    ensures var live, b := LiveTrial(states, ops, results, i), states[i].backend;
      live.Some? ==> b.trial.Some? && live.value.field == Some(Scaled(b.trial.value, b.setup.scale))
  {
    HistoryHolds(states, ops, results, i);
    TrackedHistory(states, ops, results, i);
    HistoryHoldsLive(states, ops, results, i);
  }

  /** Accepting while a trial is live commits that trial's field, whichever trial is accepted. So the
      accepted state and the committed field agree exactly when the accepted trial has the live
      trial's field, in particular when it is the live trial. */
  lemma AcceptCommitsLiveTrial(states: seq<Session>, ops: seq<Op>, results: seq<Result>, i: nat, t: Trial, live: Trial)
    requires Run(states, ops, results) && i < |ops| && ops[i] == AcceptSolution(t) && results[i].Accepted?
    requires states[0].backend.setup.device && LiveTrial(states, ops, results, i) == Some(live)
    ensures var b := states[i + 1].backend;
      && b.committed.Some? && live.field == Some(Scaled(b.committed.value, b.setup.scale))
      && results[i].state.field == t.field
      && (results[i].state.field == Some(Scaled(b.committed.value, b.setup.scale)) <==> t.field == live.field)
  {
    AcceptCommitsHeld(states, ops, results, i, t);
    HistoryHoldsLive(states, ops, results, i);
    TrackedHistory(states, ops, results, i + 1);
  }

  /** After a rollback a trial that is still current is accepted all the same, and what is committed
      is the field that was committed before: the accepted state has its own field only if the two agree. */
  lemma AcceptAfterRollback(s: Session, t: Trial)
    requires Valid(s) && s.backend.setup.device && s.backend.committed.Some? && Current(s, t)
    ensures var (r, state) := AcceptStep(RollbackStep(s).0, t);
      && state.Some? && state.value.field == t.field
      && r.backend.committed == s.backend.committed
      && (state.value.field == Some(Scaled(r.backend.committed.value, s.backend.setup.scale)) <==>
          t.field == Some(Scaled(s.backend.committed.value, s.backend.setup.scale)))
      && (r.backend.committedIdentity == s.backend.committedIdentity <==> IdentityIn(s.backend.current) == s.backend.committedIdentity)
  {
    RollbackRestores(s.backend, Names(s.model));
  }

  /** Once a new topology has reached the solver, a trial that is still current is accepted too, but
      nothing is committed: the next rollback fails. */
  lemma AcceptAfterNewTopology(s: Session, a: Answer, t: Trial)
    requires Valid(s) && s.backend.setup.device && Current(s, t) && Fitting(s, a)
    requires Synced(s, a).0.backend.topology != s.backend.topology
    ensures var (r, state) := AcceptStep(Synced(s, a).0, t);
      state.Some? && r.backend.committed.None? && !RollbackStep(r).1
  {
    SyncedFieldsStay(s, a);
    SyncedKeeps(s, a);
  }

  /** New meshing options do that, and change no revision: the next successful synchronization
      brings the solver a new topology. */
  lemma RemeshIsNewTopology(s: Session, minimumAngle: Number, elementSize: Number, exact: bool, a: Answer)
    requires Valid(s) && OptionsSet(s, minimumAngle, elementSize, exact).1
    ensures var o := OptionsSet(s, minimumAngle, elementSize, exact).0;
      && Valid(o) && o.modelRevision == s.modelRevision && o.parameterRevision == s.parameterRevision
      && (Fitting(o, a) && Synced(o, a).1 ==> Synced(o, a).0.backend.topology != s.backend.topology)
  {
    OptionsSetKeeps(s, minimumAngle, elementSize, exact);
    var o := OptionsSet(s, minimumAngle, elementSize, exact).0;
    if Fitting(o, a) && Synced(o, a).1 {
      SyncedKeeps(o, a);
      SyncedTopology(o, a);
    }
  }

  lemma SyncedTopology(s: Session, a: Answer)
    requires Valid(s) && Fitting(s, a) && Meshes in s.dirty && Synced(s, a).1
    ensures Synced(s, a).0.topology == s.topology + 1
  {
  }

  // ----- the active pattern

}
