/** What every step of the solver backend keeps, and what a rollback gives back after any trials. */
module BackendRuns {
  import opened Wrappers
  import opened Angles
  import opened AirGapRing
  import opened AirGapPosition
  import opened PeriodicClosure
  import opened EntryOrder
  import opened Bucket
  import opened GapPlacement
  import opened SolverBackend

  // ----- the invariant

  /** A stored definition is the one its angles would be given by the gaps as they are now. */
  ghost predicate Stored(d: BucketDefinition, id: Identity, b: State, names: seq<string>, prepared: seq<GapPosition>)
    requires b.setup.width > 0.0 && AllImported(b.gaps, b.numNodes)
  {
    && InNames(prepared, names) && IdentityOf(prepared, b.setup.width) == id && d.identity == id
    && IsBuilt(Done(d), b, names, prepared)
  }

  ghost predicate Cached(b: State, names: seq<string>)
    requires b.setup.width > 0.0 && AllImported(b.gaps, b.numNodes)
  {
    forall id :: id in b.buckets ==> exists prepared :: Stored(b.buckets[id], id, b, names, prepared)
  }

  /** The fields and the vectors of the system have the same size. */
  ghost predicate Sized(b: State) {
    && (b.system.Some? ==> |b.system.value.solution| == |b.system.value.rhs|)
    && (b.trial.Some? ==> b.system.Some? && |b.trial.value| == |b.system.value.solution|)
    && (b.committed.Some? ==> b.system.Some? && |b.committed.value| == |b.system.value.solution|)
    && (b.loaded == b.topology && b.system.Some? ==> |b.system.value.solution| == b.numNodes)
  }

  /** Buckets are stored under their own identity; the current and the committed one are stored. */
  ghost predicate Bucketing(b: State) {
    && (forall id :: id in b.buckets ==> b.buckets[id].identity == id)
    && (b.current.Some? ==> b.current.value.identity in b.buckets && b.buckets[b.current.value.identity] == b.current.value)
    && (b.setup.device && b.trial.Some? ==> b.current.Some?)
    && (b.committed.Some? <==> b.committedIdentity.Some?)
    && (b.committed.Some? ==> b.setup.device && b.current.Some?)
    && (b.committedIdentity.Some? ==> b.committedIdentity.value in b.buckets)
  }

  ghost predicate Held(b: State, names: seq<string>) {
    && b.setup.width > 0.0
    && Sized(b) && Bucketing(b)
    && (b.loaded == b.topology ==> Sound(b.gaps, b.numNodes, b.pairs) && Cached(b, names))
  }

  // ----- synchronize

  lemma PlacedKeepsCache(b: State, names: seq<string>, prepared: seq<GapPosition>, asked: bool)
    requires Held(b, names) && b.loaded == b.topology && InNames(prepared, names)
    ensures Held(Placed(b, names, prepared, asked).0, names)
  {
    var r := Placed(b, names, prepared, asked).0;
    forall id | id in r.buckets ensures exists prepared' :: Stored(r.buckets[id], id, r, names, prepared') {
      var p :| Stored(b.buckets[id], id, b, names, p);
      DefinitionServes(b.buckets[id], b.gaps, r.gaps, names, p, p, b.setup.width, b.setup.ulp, b.pairs, b.numNodes);
      AllMatchSurvives(b.gaps, r.gaps, names, p, p, b.setup.width);
      assert Stored(r.buckets[id], id, r, names, p);
    }
  }

  /** Looking a bucket up by its identity gives the definition that building it now would give. */
  lemma LookupIsBuilding(b: State, names: seq<string>, prepared: seq<GapPosition>)
    requires Held(b, names) && b.loaded == b.topology && InNames(prepared, names)
    requires IdentityOf(prepared, b.setup.width) in b.buckets
    ensures IsBuilt(Done(b.buckets[IdentityOf(prepared, b.setup.width)]), b, names, prepared)
  {
    var id := IdentityOf(prepared, b.setup.width);
    var p :| Stored(b.buckets[id], id, b, names, p);
    DefinitionServes(b.buckets[id], b.gaps, b.gaps, names, p, prepared, b.setup.width, b.setup.ulp, b.pairs, b.numNodes);
    AllMatchSurvives(b.gaps, b.gaps, names, p, prepared, b.setup.width);
  }

  lemma BucketedKeeps(b: State, names: seq<string>, prepared: seq<GapPosition>, built: Outcome<BucketDefinition, PositionError>)
    requires Held(b, names) && b.loaded == b.topology && InNames(prepared, names)
    requires b.setup.device && IdentityOf(prepared, b.setup.width) !in b.buckets ==> IsBuilt(built, b, names, prepared)
    ensures var r := Bucketed(b, prepared, built);
      && Held(r.0, names)
      && (r.1 && b.setup.device ==> r.0.current.Some? && IsBuilt(Done(r.0.current.value), r.0, names, prepared))
  {
    var r := Bucketed(b, prepared, built).0;
    var id := IdentityOf(prepared, b.setup.width);
    if b.setup.device && id in b.buckets {
      LookupIsBuilding(b, names, prepared);
      forall i | i in r.buckets ensures exists p :: Stored(r.buckets[i], i, r, names, p) {
        var p :| Stored(b.buckets[i], i, b, names, p);
        assert Stored(r.buckets[i], i, r, names, p);
      }
    } else if b.setup.device && built.Done? {
      forall i | i in r.buckets ensures exists p :: Stored(r.buckets[i], i, r, names, p) {
        if i == id {
          assert Stored(r.buckets[i], i, r, names, prepared);
        } else {
          var p :| Stored(b.buckets[i], i, b, names, p);
          assert Stored(r.buckets[i], i, r, names, p);
        }
      }
    }
  }

  /** Synchronizing keeps the invariant, and a successful one selects the bucket that building it
      from the current angles and rings would give: the cache shows nowhere. */
  lemma SynchronizedKeeps(b: State, configurable: bool, names: seq<string>, prepared: seq<GapPosition>, mesh: Mesh, identity: nat, coupling: bool,
                          built: Outcome<BucketDefinition, PositionError>)
    requires Held(b, names) && InNames(prepared, names) && Ready(b, mesh, identity)
    requires identity == b.topology ==> b.loaded == b.topology
    requires configurable ==> Answers(b, names, prepared, mesh, identity, coupling, built)
    ensures var r := Synchronized(b, configurable, names, prepared, mesh, identity, coupling, built);
      && Held(r.0, names)
      && (r.1 ==> r.0.loaded == r.0.topology == identity)
      && (r.1 && b.setup.device ==> r.0.current.Some? && IsBuilt(Done(r.0.current.value), r.0, names, prepared))
  {
    if configurable && !LoadFails(b, mesh, identity) {
      var l, asked := Loaded(b, mesh, identity), identity != b.topology || coupling;
      assert Held(l, names);
      PlacedKeepsCache(l, names, prepared, asked);
      if Placed(l, names, prepared, asked).1 {
        BucketedKeeps(Placed(l, names, prepared, asked).0, names, prepared, built);
      }
    }
  }

  /** While the topology stays, synchronizing keeps the trial and committed fields, every stored
      bucket and the system. */
  lemma SynchronizedKeepsFields(b: State, configurable: bool, names: seq<string>, prepared: seq<GapPosition>, mesh: Mesh, coupling: bool,
                                built: Outcome<BucketDefinition, PositionError>)
    requires b.setup.width > 0.0 && InNames(prepared, names) && Ready(b, mesh, b.topology)
    ensures var r := Synchronized(b, configurable, names, prepared, mesh, b.topology, coupling, built).0;
      && r == b.(gaps := r.gaps, buckets := r.buckets, current := r.current)
      && forall id :: id in b.buckets ==> id in r.buckets && r.buckets[id] == b.buckets[id]
  {
  }

  /** After a successful step the gaps stand where they were asked to exactly when their rings match. */
  lemma SynchronizedPlaces(b: State, names: seq<string>, prepared: seq<GapPosition>, mesh: Mesh, identity: nat, coupling: bool,
                           built: Outcome<BucketDefinition, PositionError>)
    requires b.setup.width > 0.0 && InNames(prepared, names) && Ready(b, mesh, identity)
    requires Synchronized(b, true, names, prepared, mesh, identity, coupling, built).1
    requires identity != b.topology || coupling
    ensures var r := Synchronized(b, true, names, prepared, mesh, identity, coupling, built).0;
      AllPositionable(r.gaps) && Matching(r.gaps, names, prepared, |prepared|) && PlacedFor(r.gaps, names, prepared)
  {
    var l := Loaded(b, mesh, identity);
    PositionAllPlaces(l.gaps, names, prepared, |prepared|);
    var r := Placed(l, names, prepared, true).0;
    MatchingAfter(l.gaps, r.gaps, names, prepared);
  }

  // ----- solve, commit, roll back

  ghost predicate Fits(a: Attempt, n: nat) {
    |a.x| == n && (!a.Converged? ==> |a.rhs| == n)
  }

  lemma SolvedKeeps(b: State, names: seq<string>, configurable: bool, steady: bool, first: Attempt, second: Attempt)
    requires Held(b, names) && b.loaded == b.topology && Fits(first, b.numNodes) && Fits(second, b.numNodes)
    requires b.setup.device ==> b.current.Some?
    ensures var r := Solved(b, configurable, steady, first, second);
      && Held(r.0, names)
      && r.0 == b.(system := r.0.system, trial := r.0.trial)
      && (r.1.None? ==> r.0.trial == b.trial)
      && (r.1.Some? ==> r.0.trial.Some? && r.1.value == Scaled(r.0.trial.value, b.setup.scale))
  {
    var r := Solved(b, configurable, steady, first, second).0;
    forall id | id in r.buckets ensures exists p :: Stored(r.buckets[id], id, r, names, p) {
      var p :| Stored(b.buckets[id], id, b, names, p);
      assert Stored(r.buckets[id], id, r, names, p);
    }
  }

  lemma CommittedKeeps(b: State, names: seq<string>)
    requires Held(b, names)
    ensures Held(Committed(b), names)
  {
    var r := Committed(b);
    if b.loaded == b.topology {
      forall id | id in r.buckets ensures exists p :: Stored(r.buckets[id], id, r, names, p) {
        var p :| Stored(b.buckets[id], id, b, names, p);
        assert Stored(r.buckets[id], id, r, names, p);
      }
    }
  }

  lemma InitializedKeeps(b: State, names: seq<string>, configurable: bool, steady: bool, first: Attempt, second: Attempt)
    requires Held(b, names) && b.loaded == b.topology && Fits(first, b.numNodes) && Fits(second, b.numNodes)
    requires b.setup.device ==> b.current.Some?
    ensures Held(Initialized(b, configurable, steady, first, second).0, names)
  {
    SolvedKeeps(b, names, configurable, steady, first, second);
    var s, r := Solved(b, configurable, steady, first, second).0, Initialized(b, configurable, steady, first, second).0;
    forall id | id in r.buckets ensures exists p :: Stored(r.buckets[id], id, r, names, p) {
      var p :| Stored(b.buckets[id], id, b, names, p);
      assert Stored(r.buckets[id], id, r, names, p);
    }
  }

  lemma RolledBackKeeps(b: State, names: seq<string>)
    requires Held(b, names)
    ensures Held(RolledBack(b).0, names)
  {
    var r := RolledBack(b).0;
    if b.loaded == b.topology {
      forall id | id in r.buckets ensures exists p :: Stored(r.buckets[id], id, r, names, p) {
        var p :| Stored(b.buckets[id], id, b, names, p);
        assert Stored(r.buckets[id], id, r, names, p);
      }
    }
  }

  /** The system shows a field: its vectors hold it, and a device system is switched to the
      bucket stored for it. */
  ghost predicate Shows(b: State, x: Field, id: Identity) {
    && b.system.Some?
    && b.system.value.solution == x && b.system.value.rhs == Scaled(x, b.setup.scale)
    && (b.system.value.kind.Device? ==> id in b.buckets && b.system.value.active == Some(b.buckets[id]))
  }

  /** Rolling back a device backend fails exactly when nothing was committed for its topology;
      otherwise trial field, vectors and active bucket are the committed ones. */
  lemma RollbackRestores(b: State, names: seq<string>)
    requires Held(b, names) && b.setup.device
    ensures RolledBack(b).1 <==> b.committed.Some?
    ensures RolledBack(b).1 ==> RolledBack(b).0.trial == b.committed && Shows(RolledBack(b).0, b.committed.value, b.committedIdentity.value)
    ensures RolledBack(b).0 == b.(trial := RolledBack(b).0.trial, system := RolledBack(b).0.system)
  {
  }

  /** Element by element the right-hand side is the solution times the scale. */
  ghost predicate IsScaled(s: System, scale: real) {
    |s.rhs| == |s.solution| && forall i :: 0 <= i < |s.rhs| ==> s.rhs[i] == s.solution[i] * scale
  }

  /** A solve succeeds exactly when solver and frequency allow it and the attempt that counts converges.
      That attempt is the second one when the first threw on the device and the plain solver may step
      in, else the first. Its solution becomes the trial field; the right-hand side is the solution
      scaled, and is what the solve returns. */
  lemma SolveSucceeds(b: State, configurable: bool, steady: bool, first: Attempt, second: Attempt)
    ensures var (r, field) := Solved(b, configurable, steady, first, second);
      var counts := if first.Threw? && b.setup.device && b.setup.fallback then second else first;
      && (field.Some? <==> configurable && steady && counts.Converged?)
      && (field.Some? ==>
            && r.system.Some? && r.system.value.solution == counts.x && IsScaled(r.system.value, b.setup.scale)
            && field == Some(r.system.value.rhs) && r.trial == Some(counts.x))
      && (field.None? ==> r.trial == b.trial)
  {
  }

  /** A run that does not converge leaves its vectors in the system and the trial field as it was. */
  lemma FailedSolveLeaves(b: State, first: Attempt, second: Attempt)
    ensures var (r, field) := Solved(b, true, true, first, second);
      var counts := if first.Threw? && b.setup.device && b.setup.fallback then second else first;
      !counts.Converged? ==>
        && r.system.Some? && r.system.value.solution == counts.x && r.system.value.rhs == counts.rhs
        && r == b.(system := r.system) && field == None
  {
  }

  /** A mesh of the topology at hand is not imported again. A new one replaces everything but what is
      fixed at construction and whether the solver has been initialized; if that fails, the old
      topology, fields and buckets stay over what gaps the import has left. */
  lemma ImportIs(b: State, mesh: Mesh, identity: nat)
    ensures var r := Loaded(b, mesh, identity);
      && (identity == b.topology ==> r == b)
      && (identity != b.topology && mesh.outcome.Imports? ==>
            && r.topology == r.loaded == identity && r.gaps == mesh.gaps && r.numNodes == mesh.numNodes && r.pairs == mesh.pairs
            && r.buckets == map[] && r.current == None && r.trial == None && r.committed == None && r.system == None
            && r.setup == b.setup && r.initialized == b.initialized)
      && (identity != b.topology && mesh.outcome.Fails? ==>
            && r.loaded == identity && r.gaps == mesh.outcome.left
            && r == b.(loaded := r.loaded, gaps := r.gaps, numNodes := mesh.numNodes, pairs := mesh.pairs))
  {
  }

  /** On the device a solve is switched to the selected bucket; when the plain solver steps in, or
      without the device, the system is a plain one without a bucket. */
  lemma SolveActivates(b: State, first: Attempt, second: Attempt)
    requires b.setup.device ==> b.current.Some?
    ensures var r := Solved(b, true, true, first, second).0;
      && r.system.Some? && r.current == b.current && r.buckets == b.buckets
      && (if b.setup.device && !(first.Threw? && b.setup.fallback)
          then r.system.value.kind == Device && r.system.value.active == b.current
          else r.system.value.kind == Plain)
      && (b.setup.device && first.Threw? && b.setup.fallback ==> r.system.value.active == None)
  {
  }

  /** A rollback that finds a system of the committed field's size leaves that field in it, scaled; the
      vectors of any other system stay as they are. */
  lemma RollbackScales(b: State)
    requires b.setup.device && b.committed.Some? && b.system.Some? && RolledBack(b).1
    ensures var r := RolledBack(b).0;
      && r.system.Some?
      && if |b.system.value.solution| == |b.committed.value|
         then r.system.value.solution == b.committed.value && IsScaled(r.system.value, b.setup.scale)
         else r.system.value.solution == b.system.value.solution && r.system.value.rhs == b.system.value.rhs
  {
  }

  // ----- runs of trials

  /** One trial step on the topology at hand. */
  datatype TrialStep =
    | Resynchronize(configurable: bool, prepared: seq<GapPosition>, mesh: Mesh, coupling: bool, built: Outcome<BucketDefinition, PositionError>)
    | Evaluate(configurable: bool, steady: bool, first: Attempt, second: Attempt)

  ghost predicate Possible(b: State, names: seq<string>, t: TrialStep)
    requires Held(b, names)
  {
    b.loaded == b.topology &&
    match t
    case Resynchronize(configurable, prepared, mesh, coupling, built) =>
      InNames(prepared, names) && (configurable ==> Answers(b, names, prepared, mesh, b.topology, coupling, built))
    case Evaluate(_, _, first, second) =>
      Fits(first, b.numNodes) && Fits(second, b.numNodes) && (b.setup.device ==> b.current.Some?)
  }

  ghost function Tried(b: State, names: seq<string>, t: TrialStep): State
    requires Held(b, names) && Possible(b, names, t)
  {
    match t
    case Resynchronize(configurable, prepared, mesh, coupling, built) =>
      Synchronized(b, configurable, names, prepared, mesh, b.topology, coupling, built).0
    case Evaluate(configurable, steady, first, second) => Solved(b, configurable, steady, first, second).0
  }

  /** The states of a run: each follows from the one before by some possible trial. */
  ghost predicate TrialRun(run: seq<State>, names: seq<string>, trials: seq<TrialStep>) {
    && |run| == |trials| + 1
    && forall i :: 0 <= i < |trials| ==> Held(run[i], names) && Possible(run[i], names, trials[i]) && run[i + 1] == Tried(run[i], names, trials[i])
  }

  lemma TriedKeeps(b: State, names: seq<string>, t: TrialStep)
    requires Held(b, names) && Possible(b, names, t)
    ensures Held(Tried(b, names, t), names)
    ensures var r := Tried(b, names, t);
      && r.setup == b.setup && r.committed == b.committed && r.committedIdentity == b.committedIdentity
      && r.loaded == r.topology == b.topology
      && forall id :: id in b.buckets ==> id in r.buckets && r.buckets[id] == b.buckets[id]
  {
    match t
    case Resynchronize(configurable, prepared, mesh, coupling, built) =>
      SynchronizedKeeps(b, configurable, names, prepared, mesh, b.topology, coupling, built);
      SynchronizedKeepsFields(b, configurable, names, prepared, mesh, coupling, built);
    case Evaluate(configurable, steady, first, second) =>
      SolvedKeeps(b, names, configurable, steady, first, second);
  }

  lemma {:induction false} TrialsKeepCommitted(run: seq<State>, names: seq<string>, trials: seq<TrialStep>)
    requires TrialRun(run, names, trials) && Held(run[0], names)
    ensures var r := run[|run| - 1];
      && Held(r, names) && r.setup == run[0].setup
      && r.committed == run[0].committed && r.committedIdentity == run[0].committedIdentity
      && forall id :: id in run[0].buckets ==> id in r.buckets && r.buckets[id] == run[0].buckets[id]
  {
    if |trials| > 0 {
      var last := |trials| - 1;
      TrialsKeepCommitted(run[..last + 1], names, trials[..last]);
      TriedKeeps(run[last], names, trials[last]);
    }
  }

  /** Any number of trials, then a rollback: the trial field, the vectors and the active bucket are
      those that were committed before the trials, whatever happened in between. */
  lemma TrialsAreUndone(run: seq<State>, names: seq<string>, trials: seq<TrialStep>)
    requires TrialRun(run, names, trials) && Held(run[0], names) && run[0].setup.device && run[0].committed.Some?
    ensures var r := RolledBack(run[|run| - 1]);
      && r.1 && r.0.trial == r.0.committed == run[0].committed && r.0.committedIdentity == run[0].committedIdentity
      && Shows(r.0, run[0].committed.value, run[0].committedIdentity.value)
      && run[0].committedIdentity.value in r.0.buckets && r.0.buckets[run[0].committedIdentity.value] == run[0].buckets[run[0].committedIdentity.value]
  {
    TrialsKeepCommitted(run, names, trials);
    RollbackRestores(run[|run| - 1], names);
  }

  // ----- which bucket a commit after a rollback stores

  /** The trial step synchronizes the backend and succeeds. */
  ghost predicate Selects(b: State, names: seq<string>, t: TrialStep)
    requires Held(b, names) && Possible(b, names, t)
  {
    t.Resynchronize? && Synchronized(b, t.configurable, names, t.prepared, t.mesh, b.topology, t.coupling, t.built).1
  }

  /** The identity of the angles last synchronized with success in the first `upTo` steps of a run;
      before the first such step, that of the bucket the run starts with. */
  ghost function Selected(run: seq<State>, names: seq<string>, trials: seq<TrialStep>, upTo: nat): Option<Identity>
    requires TrialRun(run, names, trials) && upTo <= |trials|
  {
    if upTo == 0 then IdentityIn(run[0].current)
    else if Selects(run[upTo - 1], names, trials[upTo - 1]) then Some(IdentityOf(trials[upTo - 1].prepared, run[upTo - 1].setup.width))
    else Selected(run, names, trials, upTo - 1)
  }

  lemma TriedSelects(b: State, names: seq<string>, t: TrialStep)
    requires Held(b, names) && Possible(b, names, t) && b.setup.device
    ensures IdentityIn(Tried(b, names, t).current) == if Selects(b, names, t) then Some(IdentityOf(t.prepared, b.setup.width)) else IdentityIn(b.current)
  {
    TriedKeeps(b, names, t);
    if Selects(b, names, t) {
      SynchronizedKeeps(b, t.configurable, names, t.prepared, t.mesh, b.topology, t.coupling, t.built);
    }
  }

  lemma {:induction false} SelectedIsCurrent(run: seq<State>, names: seq<string>, trials: seq<TrialStep>, upTo: nat)
    requires TrialRun(run, names, trials) && upTo <= |trials| && run[0].setup.device
    ensures run[upTo].setup == run[0].setup && IdentityIn(run[upTo].current) == Selected(run, names, trials, upTo)
  {
    if upTo > 0 {
      SelectedIsCurrent(run, names, trials, upTo - 1);
      TriedKeeps(run[upTo - 1], names, trials[upTo - 1]);
      TriedSelects(run[upTo - 1], names, trials[upTo - 1]);
    }
  }

  /** After any trials and a rollback, a commit stores the field that was committed before the trials,
      but under the bucket of the angles last synchronized: a rollback restores the field and the
      active bucket, not the selected one. So the commit keeps the committed bucket exactly when
      those angles have its identity, and it is the newly stored bucket that the next rollback
      switches to. */
  lemma CommitAfterTrialsAndRollback(run: seq<State>, names: seq<string>, trials: seq<TrialStep>)
    requires TrialRun(run, names, trials) && Held(run[0], names) && run[0].setup.device && run[0].committed.Some?
    ensures var r, selected := Committed(RolledBack(run[|run| - 1]).0), Selected(run, names, trials, |trials|);
      && r.committed == run[0].committed && selected.Some? && r.committedIdentity == selected
      && (r.committedIdentity == run[0].committedIdentity <==> selected == run[0].committedIdentity)
      && RolledBack(r).1 && Shows(RolledBack(r).0, run[0].committed.value, selected.value)
  {
    var last := run[|run| - 1];
    TrialsKeepCommitted(run, names, trials);
    SelectedIsCurrent(run, names, trials, |trials|);
    RollbackRestores(last, names);
    RolledBackKeeps(last, names);
    CommittedKeeps(RolledBack(last).0, names);
    RollbackRestores(Committed(RolledBack(last).0), names);
  }

  // ----- a run over two buckets

  const DEVICE: Setup := Setup(true, 10.0, 0.001, 1.0, false)
  const NODE: Mesh := Mesh([], 1, [], Imports)

  /** Without gaps in the mesh every bucket is empty. */
  function EmptyBucket(prepared: seq<GapPosition>): BucketDefinition { BucketDefinition(IdentityOf(prepared, 10.0), []) }

  lemma EmptyIsBuilt(b: State, names: seq<string>, prepared: seq<GapPosition>)
    requires b.setup == DEVICE && b.gaps == [] && b.pairs == [] && b.numNodes == 1 && InNames(prepared, names)
    ensures IsBuilt(Done(EmptyBucket(prepared)), b, names, prepared)
  {
    var source: set<Entry> := {};
    assert IsSource(source, [], names, prepared, 10.0, 0.001, 1);
    assert forall e :: e in EmptyBucket(prepared).upperEntries <==> InClosure(source, [], 1, e);
  }

  /** The backend holds the one-node mesh. */
  predicate HoldsNode(b: State) { b.gaps == [] && b.pairs == [] && b.numNodes == 1 }

  /** Synchronizing with the one-node mesh succeeds, whatever the angles. */
  lemma NodeSynchronizes(b: State, names: seq<string>, prepared: seq<GapPosition>, identity: nat, coupling: bool)
    requires b.setup == DEVICE && InNames(prepared, names) && Ready(b, NODE, identity) && (identity == b.topology ==> HoldsNode(b))
    ensures Answers(b, names, prepared, NODE, identity, coupling, Done(EmptyBucket(prepared)))
    ensures var (r, ok) := Synchronized(b, true, names, prepared, NODE, identity, coupling, Done(EmptyBucket(prepared))); ok && HoldsNode(r)
  {
    var l := Loaded(b, NODE, identity);
    EmptyIsBuilt(l, names, prepared);
    PositionNothing(names, prepared, |prepared|);
    assert Placed(l, names, prepared, true) == (l, true);
  }

  /** A device backend with the one-node mesh. */
  ghost predicate Gapless(b: State, names: seq<string>) {
    Held(b, names) && b.setup == DEVICE && b.topology == b.loaded == 1 && HoldsNode(b)
  }

  /** Turning to other angles is a trial step that succeeds. */
  function Turning(prepared: seq<GapPosition>): TrialStep {
    Resynchronize(true, prepared, NODE, true, Done(EmptyBucket(prepared)))
  }

  lemma TurningSelects(b: State, names: seq<string>, prepared: seq<GapPosition>)
    requires Gapless(b, names) && InNames(prepared, names)
    ensures Possible(b, names, Turning(prepared)) && Selects(b, names, Turning(prepared)) && Gapless(Tried(b, names, Turning(prepared)), names)
  {
    NodeSynchronizes(b, names, prepared, b.topology, true);
    TriedKeeps(b, names, Turning(prepared));
  }

  lemma {:induction false} PositionNothing(names: seq<string>, prepared: seq<GapPosition>, upTo: nat)
    requires InNames(prepared, names) && upTo <= |prepared|
    ensures PositionAll([], names, prepared, upTo) == Placing([], true)
  {
    if upTo > 0 {
      PositionNothing(names, prepared, upTo - 1);
    }
  }

  /** Synchronize, evaluate and commit once, from scratch. */
  lemma CommittedOnce(names: seq<string>, prepared: seq<GapPosition>) returns (b: State)
    requires InNames(prepared, names)
    ensures Gapless(b, names) && b.committed == Some([1.0]) && b.committedIdentity == Some(IdentityOf(prepared, 10.0))
  {
    var l := Loaded(Fresh(DEVICE), NODE, 1);
    TurningSelects(l, names, prepared);
    TriedSelects(l, names, Turning(prepared));
    var s, solves := Tried(l, names, Turning(prepared)), Converged([1.0]);
    SolvedKeeps(s, names, true, true, solves, solves);
    var t := Solved(s, true, true, solves, solves).0;
    CommittedKeeps(t, names);
    b := Committed(t);
  }

  /** Turn and evaluate. */
  lemma TurnedAndSolved(b: State, names: seq<string>, prepared: seq<GapPosition>) returns (run: seq<State>, trials: seq<TrialStep>)
    requires Gapless(b, names) && InNames(prepared, names)
    ensures TrialRun(run, names, trials) && |trials| == 2 && run[0] == b && run[2].trial == Some([2.0])
    ensures Selected(run, names, trials, 2) == Some(IdentityOf(prepared, 10.0))
  {
    var turn, solve := Turning(prepared), Evaluate(true, true, Converged([2.0]), Converged([2.0]));
    TurningSelects(b, names, prepared);
    TriedSelects(b, names, turn);
    var turned := Tried(b, names, turn);
    run, trials := [b, turned, Tried(turned, names, solve)], [turn, solve];
    assert TrialRun(run, names, trials);
    assert Selected(run, names, trials, 1) == Some(IdentityOf(prepared, 10.0));
  }

  const FIFTH: GapPosition := GapPosition(0, 5.0, 0.0)
  const FIFTEENTH: GapPosition := GapPosition(0, 15.0, 0.0)

  lemma TwoWindows()
    ensures IdentityOf([FIFTH], 10.0) != IdentityOf([FIFTEENTH], 10.0)
  {
    CanonicalFixed(5.0);
    CanonicalFixed(15.0);
    assert IdentityOf([FIFTH], 10.0).indices[0].1 == 0 && IdentityOf([FIFTEENTH], 10.0).indices[0].1 == 1;
  }

  /** A run of two trials from a committed state, the gap turned from 5 to 15 degrees: after a
      rollback a commit stores the field committed before under the bucket of the new angle. */
  lemma RollbackKeepsOtherBucket() returns (run: seq<State>, trials: seq<TrialStep>)
    ensures TrialRun(run, ["gap"], trials) && Held(run[0], ["gap"]) && run[0].setup.device && |trials| == 2
    ensures run[2].trial == Some([2.0]) && run[0].committed == Some([1.0]) && run[0].committedIdentity == Some(IdentityOf([FIFTH], 10.0))
    ensures var r := Committed(RolledBack(run[2]).0);
      && r.committed == Some([1.0]) && r.committedIdentity == Some(IdentityOf([FIFTEENTH], 10.0))
      && r.committedIdentity != run[0].committedIdentity
  {
    var b := CommittedOnce(["gap"], [FIFTH]);
    run, trials := TurnedAndSolved(b, ["gap"], [FIFTEENTH]);
    CommitAfterTrialsAndRollback(run, ["gap"], trials);
    TwoWindows();
  }
}
