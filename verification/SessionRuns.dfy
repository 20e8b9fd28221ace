/** Whole runs of a session: any interleaving of its operations, with whatever its surroundings answer. */
module SessionRuns {
  import opened Wrappers
  import opened AirGapRing
  import opened AirGapPosition
  import opened Bucket
  import opened GapPlacement
  import opened SolverBackend
  import opened BackendRuns
  import opened SessionModel
  import opened AnalysisSession
  import opened SessionKeeps

  datatype Op =
    | SetMesher(mesher: nat)
    | SetMeshingOptions(minimumAngle: Number, elementSize: Number, exact: bool)
    | SetCircuit(circuit: nat, constraint: Constraint)
    | SetAirGapAngle(gap: nat, inner: Number, outer: Number)
    | SetFrequency(frequency: Number)
    | SetTime(time: Number)
    | SetInitialState(state: Option<AcceptedState>)
    | SetMaterialProperty(material: nat, property: Property, v: PropertyValue)
    | UpdateSolveParameters(proposal: Proposal)
    | EnsureMesh(meshed: Meshed)
    | Synchronize(answer: Answer)
    | Initialize(answer: Answer, attempts: Attempts)
    | Solve(answer: Answer, attempts: Attempts)
    | AcceptSolution(trial: Trial)
    | RollbackToCommitted

  datatype Result = Finished(ok: bool) | Issued(trial: Trial) | Accepted(state: AcceptedState)

  /** The answers are such as a mesher, a bucket construction and a solver can give. */
  ghost predicate Allowed(s: Session, op: Op)
    requires Valid(s)
  {
    match op
    case EnsureMesh(meshed) => MeshedSoundly(meshed)
    case Synchronize(a) => Fitting(s, a)
    case Initialize(a, attempts) => Fitting(s, a) && Fit(Synced(s, a).0, attempts)
    case Solve(a, attempts) => Fitting(s, a) && Fit(Synced(s, a).0, attempts)
    case _ => true
  }

  function Told(r: (Session, bool)): (Session, Result) { (r.0, Finished(r.1)) }

  ghost function Next(s: Session, op: Op): (Session, Result)
    requires Valid(s) && Allowed(s, op)
  {
    match op
    case SetMesher(mesher) => Told(MesherSet(s, mesher))
    case SetMeshingOptions(minimumAngle, elementSize, exact) => Told(OptionsSet(s, minimumAngle, elementSize, exact))
    case SetCircuit(circuit, constraint) => Told(CircuitSet(s, circuit, constraint))
    case SetAirGapAngle(gap, inner, outer) => Told(AngleSet(s, gap, inner, outer))
    case SetFrequency(frequency) => Told(FrequencySet(s, frequency))
    case SetTime(time) => Told(TimeSet(s, time))
    case SetInitialState(state) => Told(InitialSet(s, state))
    case SetMaterialProperty(material, property, v) => Told(PropertySet(s, material, property, v))
    case UpdateSolveParameters(proposal) => Told(Updated(s, proposal))
    case EnsureMesh(meshed) => Told(WithMesh(s, meshed))
    case Synchronize(a) => Told(Synced(s, a))
    case Initialize(a, attempts) => Told(InitializeStep(s, a, attempts))
    case Solve(a, attempts) =>
      var (r, trial) := SolveStep(s, a, attempts);
      (r, if trial.Some? then Issued(trial.value) else Finished(false))
    case AcceptSolution(trial) =>
      var (r, state) := AcceptStep(s, trial);
      (r, if state.Some? then Accepted(state.value) else Finished(false))
    case RollbackToCommitted => Told(RollbackStep(s))
  }

  // ----- single steps

  ghost predicate Stamped(t: Trial, s: Session) {
    t.id == s.nextSolution && t.session == s.id && t.modelRevision == s.modelRevision && t.parameterRevision == s.parameterRevision
  }

  /** What a step does to the numbers that stamp a trial. */
  ghost predicate Advances(s: Session, op: Op, r: Session, result: Result) {
    && r.id == s.id
    && s.modelRevision <= r.modelRevision && s.parameterRevision <= r.parameterRevision
    && r.nextSolution == s.nextSolution + (if result.Issued? then 1 else 0)
    && (result.Issued? ==> Stamped(result.trial, s) && r.modelRevision == s.modelRevision && r.parameterRevision == s.parameterRevision)
    && (result.Accepted? ==> op.AcceptSolution? && Current(s, op.trial) && r.parameterRevision == s.parameterRevision + 1)
  }

  lemma StepKeeps(s: Session, op: Op)
    requires Valid(s) && Allowed(s, op)
    ensures Valid(Next(s, op).0)
  {
    match op
    case SetMesher(mesher) => MesherSetKeeps(s, mesher);
    case SetMeshingOptions(minimumAngle, elementSize, exact) => OptionsSetKeeps(s, minimumAngle, elementSize, exact);
    case SetCircuit(circuit, constraint) => CircuitSetKeeps(s, circuit, constraint);
    case SetAirGapAngle(gap, inner, outer) => AngleSetKeeps(s, gap, inner, outer);
    case SetFrequency(frequency) => FrequencySetKeeps(s, frequency);
    case SetTime(time) => TimeSetKeeps(s, time);
    case SetInitialState(state) => InitialSetKeeps(s, state);
    case SetMaterialProperty(material, property, v) => PropertySetKeeps(s, material, property, v);
    case UpdateSolveParameters(proposal) => UpdatedKeeps(s, proposal);
    case EnsureMesh(meshed) => WithMeshBacked(s, meshed);
    case Synchronize(a) => SyncedKeeps(s, a);
    case Initialize(a, attempts) => InitializeStepKeeps(s, a, attempts);
    case Solve(a, attempts) => SolveStepKeeps(s, a, attempts);
    case AcceptSolution(trial) => AcceptStepKeeps(s, trial);
    case RollbackToCommitted => RollbackStepKeeps(s);
  }

  lemma StepAdvances(s: Session, op: Op)
    requires Valid(s) && Allowed(s, op)
    ensures Advances(s, op, Next(s, op).0, Next(s, op).1)
  {
    if op.Synchronize? || op.Initialize? || op.Solve? {
      SolverStepsAdvance(s, op);
    } else {
      OtherStepsAdvance(s, op);
    }
  }

  lemma SolverStepsAdvance(s: Session, op: Op)
    requires Valid(s) && Allowed(s, op) && (op.Synchronize? || op.Initialize? || op.Solve?)
    ensures Advances(s, op, Next(s, op).0, Next(s, op).1)
  {
    match op
    case Synchronize(a) => SyncedKeeps(s, a);
    case Initialize(a, attempts) => InitializeStepKeeps(s, a, attempts);
    case Solve(a, attempts) => SolveStepKeeps(s, a, attempts);
  }

  lemma OtherStepsAdvance(s: Session, op: Op)
    requires Valid(s) && Allowed(s, op) && !op.Synchronize? && !op.Initialize? && !op.Solve?
    ensures Advances(s, op, Next(s, op).0, Next(s, op).1)
  {
  }

  /** Everything prepared is what preparing it afresh gives; the solver holds the session's mesh;
      the gaps stand where asked exactly when their rings match; and a device solver is switched
      to the bucket that would be built now. */
  ghost predicate UpToDate(s: Session)
    requires Valid(s)
  {
    var names, asked := Names(s.model), Asked(s.model, s.parameters.gaps);
    && Preparable(s.model, s.parameters) && s.prepared == FullRebuild(s.model, s.parameters)
    && s.backend.topology == s.backend.loaded == s.topology
    && (Matching(s.backend.gaps, names, asked, |asked|) <==> PlacedFor(s.backend.gaps, names, asked))
    && Switched(s)
  }

  lemma PlacedIsMatching(gaps: seq<Gap>, names: seq<string>, asked: seq<GapPosition>)
    requires AllPositionable(gaps) && InNames(asked, names) && PlacedFor(gaps, names, asked)
    ensures Matching(gaps, names, asked, |asked|)
  {
    forall k | 0 <= k < |gaps| && LastAsked(gaps[k].name, names, asked, |asked|).Done? ensures RingsMatch(gaps[k]) {
      assert Stands(gaps[k], names, asked, |asked|);
    }
  }

  lemma SettledIsUpToDate(s: Session)
    requires Valid(s) && Settled(s)
    ensures UpToDate(s)
  {
    var names, asked := Names(s.model), Asked(s.model, s.parameters.gaps);
    if PlacedFor(s.backend.gaps, names, asked) {
      PlacedIsMatching(s.backend.gaps, names, asked);
    }
  }

  // ----- runs

  /** A run: each state follows from the one before by an allowed operation. */
  ghost predicate Run(states: seq<Session>, ops: seq<Op>, results: seq<Result>) {
    && |states| == |ops| + 1 && |results| == |ops|
    && Valid(states[0])
    && forall i :: 0 <= i < |ops| ==> Follows(states, ops, results, i)
  }

  ghost predicate Follows(states: seq<Session>, ops: seq<Op>, results: seq<Result>, i: nat)
    requires i < |ops| == |results| && |states| == |ops| + 1
  {
    Valid(states[i]) && Allowed(states[i], ops[i]) && (states[i + 1], results[i]) == Next(states[i], ops[i])
  }

  lemma {:induction false} RunIsValid(states: seq<Session>, ops: seq<Op>, results: seq<Result>, i: nat)
    requires Run(states, ops, results) && i < |states|
    ensures Valid(states[i])
  {
    if i > 0 {
      assert Follows(states, ops, results, i - 1);
      StepKeeps(states[i - 1], ops[i - 1]);
    }
  }

  /** Incremental preparation is preparation from scratch: in every state of every run, whatever the
      order of operations and whatever failed before, a prepared part whose flags are clear equals
      its full rebuild; and after a successful synchronization or evaluation everything does. */
  lemma PreparationIsIncremental(states: seq<Session>, ops: seq<Op>, results: seq<Result>, i: nat)
    requires Run(states, ops, results) && i < |states|
    ensures Valid(states[i]) && PartsCurrent(states[i])
    ensures i > 0 && Prepares(ops[i - 1], results[i - 1]) ==> UpToDate(states[i])
  {
    RunIsValid(states, ops, results, i);
    if i > 0 && Prepares(ops[i - 1], results[i - 1]) {
      assert Follows(states, ops, results, i - 1);
      StepSettles(states[i - 1], ops[i - 1]);
      SettledIsUpToDate(states[i]);
    }
  }

  /** A successful synchronization, initialization or evaluation. */
  predicate Prepares(op: Op, result: Result) {
    result.Issued? || ((op.Synchronize? || op.Initialize?) && result == Finished(true))
  }

  lemma StepSettles(s: Session, op: Op)
    requires Valid(s) && Allowed(s, op)
    requires Prepares(op, Next(s, op).1)
    ensures Settled(Next(s, op).0)
  {
    match op
    case Synchronize(a) => SyncedKeeps(s, a);
    case Initialize(a, attempts) => SyncedKeeps(s, a);
    case Solve(a, attempts) => SolveStepKeeps(s, a, attempts);
    case _ =>
  }

  // ----- the order of acceptance

  /** Every step of a run moves the numbers on. */
  ghost predicate Growing(states: seq<Session>, ops: seq<Op>, results: seq<Result>) {
    && |states| == |ops| + 1 && |results| == |ops|
    && forall i :: 0 <= i < |ops| ==> Grows(states, ops, results, i)
  }

  ghost predicate Grows(states: seq<Session>, ops: seq<Op>, results: seq<Result>, i: nat)
    requires i < |ops| == |results| && |states| == |ops| + 1
  {
    Advances(states[i], ops[i], states[i + 1], results[i])
  }

  lemma RunsGrow(states: seq<Session>, ops: seq<Op>, results: seq<Result>)
    requires Run(states, ops, results)
    ensures Growing(states, ops, results)
  {
    forall i | 0 <= i < |ops| ensures Grows(states, ops, results, i) {
      assert Follows(states, ops, results, i);
      StepAdvances(states[i], ops[i]);
    }
  }

  lemma {:induction false} NumbersAdvance(states: seq<Session>, ops: seq<Op>, results: seq<Result>, i: nat, j: nat)
    requires Growing(states, ops, results) && i <= j < |states|
    ensures states[i].id == states[j].id && states[i].modelRevision <= states[j].modelRevision
    ensures states[i].parameterRevision <= states[j].parameterRevision && states[i].nextSolution <= states[j].nextSolution
  {
    if i < j {
      NumbersAdvance(states, ops, results, i, j - 1);
      assert Grows(states, ops, results, j - 1);
    }
  }

  /** Trial `t` was issued at step `k` and accepted at step `i`. */
  ghost predicate AcceptedAt(states: seq<Session>, ops: seq<Op>, results: seq<Result>, t: Trial, k: nat, i: nat) {
    |ops| == |results| && k < i < |ops| && results[k] == Issued(t) && ops[i] == AcceptSolution(t) && results[i].Accepted?
  }

  /** No revision changes between issuing a trial and accepting it. */
  lemma AcceptedIsUnchanged(states: seq<Session>, ops: seq<Op>, results: seq<Result>, t: Trial, k: nat, i: nat, j: nat)
    requires Growing(states, ops, results) && AcceptedAt(states, ops, results, t, k, i) && k <= j <= i
    ensures t.id == states[k].nextSolution && t.parameterRevision == states[j].parameterRevision && t.modelRevision == states[j].modelRevision
  {
    assert Grows(states, ops, results, k) && Grows(states, ops, results, i);
    NumbersAdvance(states, ops, results, k, j);
    NumbersAdvance(states, ops, results, j, i);
  }

  /** A trial accepted later has a later revision. */
  lemma AcceptedLater(states: seq<Session>, ops: seq<Op>, results: seq<Result>, t: Trial, k: nat, i: nat, t': Trial, k': nat, i': nat)
    requires Growing(states, ops, results) && i < i'
    requires AcceptedAt(states, ops, results, t, k, i) && AcceptedAt(states, ops, results, t', k', i')
    ensures t.parameterRevision < t'.parameterRevision
  {
    assert Grows(states, ops, results, i);
    AcceptedIsUnchanged(states, ops, results, t, k, i, i);
    AcceptedIsUnchanged(states, ops, results, t', k', i', i');
    NumbersAdvance(states, ops, results, i + 1, i');
  }

  lemma IssuedEarlier(states: seq<Session>, ops: seq<Op>, results: seq<Result>, k: nat, k': nat)
    requires Growing(states, ops, results) && k < |ops| && k' < |ops| && results[k].Issued?
    requires states[k].parameterRevision < states[k'].parameterRevision
    ensures states[k].nextSolution < states[k'].nextSolution
  {
    if k' <= k {
      NumbersAdvance(states, ops, results, k', k);
    } else {
      assert Grows(states, ops, results, k);
      NumbersAdvance(states, ops, results, k + 1, k');
    }
  }

  /** Trials are accepted in the order of their numbers, at most one for each parameter revision. */
  lemma AcceptedTrialsAscend(states: seq<Session>, ops: seq<Op>, results: seq<Result>, t: Trial, k: nat, i: nat, t': Trial, k': nat, i': nat)
    requires Run(states, ops, results) && i < i'
    requires AcceptedAt(states, ops, results, t, k, i) && AcceptedAt(states, ops, results, t', k', i')
    ensures t.id < t'.id && t.parameterRevision < t'.parameterRevision
  {
    RunsGrow(states, ops, results);
    AcceptedLater(states, ops, results, t, k, i, t', k', i');
    AcceptedIsUnchanged(states, ops, results, t, k, i, k);
    AcceptedIsUnchanged(states, ops, results, t', k', i', k');
    IssuedEarlier(states, ops, results, k, k');
  }

  /** Once the model or the parameters have changed after a trial was issued, it is refused for good. */
  lemma StaleTrialsAreRefused(states: seq<Session>, ops: seq<Op>, results: seq<Result>, t: Trial, k: nat, m: nat, i: nat)
    requires Run(states, ops, results) && k < m <= i < |ops| && results[k] == Issued(t) && ops[i] == AcceptSolution(t)
    requires states[m].modelRevision != states[k].modelRevision || states[m].parameterRevision != states[k].parameterRevision
    ensures results[i] == Finished(false) && states[i + 1] == states[i]
  {
    RunsGrow(states, ops, results);
    assert Follows(states, ops, results, i) && Grows(states, ops, results, k);
    NumbersAdvance(states, ops, results, k, m);
    NumbersAdvance(states, ops, results, m, i);
  }
}
