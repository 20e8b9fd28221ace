/** The persistent solver behind a session: its mesh, its trial and committed fields, its buckets. */
module SolverBackend {
  import opened Wrappers
  import opened AirGapRing
  import opened AirGapPosition
  import opened Stencil
  import opened EntryOrder
  import opened PeriodicClosure
  import opened Bucket
  import opened GapPlacement

  /** A field, one value per node. */
  type Field = seq<real>

  function Scaled(x: Field, scale: real): (r: Field)
    ensures |r| == |x|
  {
    seq(|x|, i requires 0 <= i < |x| => x[i] * scale)
  }

  /** What is fixed at construction: the persistent device solver or the plain one, the bucket width,
      the spacing of numbers, the scale from solution to potential, whether the plain solver may step in. */
  datatype Setup = Setup(device: bool, width: real, ulp: real, scale: real, fallback: bool)

  /** How far importing and ordering a mesh gets; a failure leaves some gaps behind. */
  datatype Import = Imports | Fails(left: seq<Gap>)

  datatype Mesh = Mesh(gaps: seq<Gap>, numNodes: nat, pairs: seq<(int, int)>, outcome: Import)

  datatype Kind = Device | Plain

  /** A linear system: its vectors and, on the device, the bucket it is switched to. */
  datatype System = System(kind: Kind, solution: Field, rhs: Field, active: Option<BucketDefinition>)

  /** How one run of the nonlinear solver ends, and what it leaves in the vectors. */
  datatype Attempt = Converged(x: Field) | Diverged(x: Field, rhs: Field) | Threw(x: Field, rhs: Field)

  datatype State = State(
    setup: Setup,
    topology: nat,
    loaded: nat,
    gaps: seq<Gap>,
    numNodes: nat,
    pairs: seq<(int, int)>,
    buckets: map<Identity, BucketDefinition>,
    current: Option<BucketDefinition>,
    trial: Option<Field>,
    committed: Option<Field>,
    committedIdentity: Option<Identity>,
    system: Option<System>,
    initialized: bool)

  function Fresh(setup: Setup): State {
    State(setup, 0, 0, [], 0, [], map[], None, None, None, None, None, false)
  }

  // ----- synchronize

  /** What building the bucket for these angles gives: a definition, when the rings match. */
  ghost predicate IsBuilt(built: Outcome<BucketDefinition, PositionError>, b: State, names: seq<string>, prepared: seq<GapPosition>)
    requires b.setup.width > 0.0 && AllImported(b.gaps, b.numNodes) && InNames(prepared, names)
  {
    && (built.Done? <==> AllMatch(b.gaps, names, prepared))
    && (built.Done? ==> IsDefinition(built.value, b.gaps, names, prepared, b.setup.width, b.setup.ulp, b.pairs, b.numNodes))
  }

  /** A mesh the solver can work with: sound gaps, and periodic pairs of its own nodes. */
  ghost predicate Sound(gaps: seq<Gap>, numNodes: nat, pairs: seq<(int, int)>) {
    AllImported(gaps, numNodes) && InRange(pairs, numNodes)
  }

  /** Either the mesh at hand is a new one, sound if it imports, or the solver still holds a sound one. */
  ghost predicate Ready(b: State, mesh: Mesh, identity: nat) {
    if identity == b.topology then Sound(b.gaps, b.numNodes, b.pairs)
    else mesh.outcome.Imports? ==> Sound(mesh.gaps, mesh.numNodes, mesh.pairs)
  }

  /** After handing over the mesh; a new topology forgets every field and bucket. */
  function Loaded(b: State, mesh: Mesh, identity: nat): State {
    if identity == b.topology then b
    else if mesh.outcome.Fails? then b.(loaded := identity, gaps := mesh.outcome.left, numNodes := mesh.numNodes, pairs := mesh.pairs)
    else State(b.setup, identity, identity, mesh.gaps, mesh.numNodes, mesh.pairs, map[], None, None, None, None, None, b.initialized)
  }

  predicate LoadFails(b: State, mesh: Mesh, identity: nat) {
    identity != b.topology && mesh.outcome.Fails?
  }

  /** After positioning the gaps, where that is asked for. */
  ghost function Placed(b: State, names: seq<string>, prepared: seq<GapPosition>, asked: bool): (r: (State, bool))
    requires Sound(b.gaps, b.numNodes, b.pairs) && InNames(prepared, names)
    ensures Sound(r.0.gaps, r.0.numNodes, r.0.pairs) && r.0 == b.(gaps := r.0.gaps) && SameTopologies(b.gaps, r.0.gaps)
  {
    if !asked then (b, true)
    else
      PlacingKeepsImported(b.gaps, names, prepared, |prepared|, b.numNodes);
      var placing := PositionAll(b.gaps, names, prepared, |prepared|);
      (b.(gaps := placing.gaps), placing.ok)
  }

  /** After looking up the bucket, or building it. */
  function Bucketed(b: State, prepared: seq<GapPosition>, built: Outcome<BucketDefinition, PositionError>): (State, bool)
    requires b.setup.width > 0.0
  {
    var identity := IdentityOf(prepared, b.setup.width);
    if !b.setup.device then (b, true)
    else if identity in b.buckets then (b.(current := Some(b.buckets[identity])), true)
    else if built.Failed? then (b, false)
    else (b.(buckets := b.buckets[identity := built.value], current := Some(built.value)), true)
  }

  /** The whole step; `coupling` tells whether the air-gap coupling is to be rebuilt. */
  ghost function Synchronized(b: State, configurable: bool, names: seq<string>, prepared: seq<GapPosition>, mesh: Mesh, identity: nat, coupling: bool,
                              built: Outcome<BucketDefinition, PositionError>): (State, bool)
    requires b.setup.width > 0.0 && InNames(prepared, names) && Ready(b, mesh, identity)
  {
    if !configurable then (b, false)
    else if LoadFails(b, mesh, identity) then (Loaded(b, mesh, identity), false)
    else
      var placed := Placed(Loaded(b, mesh, identity), names, prepared, identity != b.topology || coupling);
      if !placed.1 then placed else Bucketed(placed.0, prepared, built)
  }

  /** `built` is what the step builds, if it builds a bucket at all. */
  ghost predicate Answers(b: State, names: seq<string>, prepared: seq<GapPosition>, mesh: Mesh, identity: nat, coupling: bool,
                          built: Outcome<BucketDefinition, PositionError>)
    requires b.setup.width > 0.0 && InNames(prepared, names) && Ready(b, mesh, identity)
  {
    !LoadFails(b, mesh, identity) ==>
      var placed := Placed(Loaded(b, mesh, identity), names, prepared, identity != b.topology || coupling);
      placed.1 && b.setup.device && IdentityOf(prepared, b.setup.width) !in placed.0.buckets ==> IsBuilt(built, placed.0, names, prepared)
  }

  // ----- solve

  function Zeros(n: nat): (x: Field)
    ensures |x| == n
  {
    seq(n, _ => 0.0)
  }

  /** The system a solve starts with. */
  function Started(b: State): System {
    if b.setup.device && b.system.Some? && b.system.value.kind.Device?
    then b.system.value.(active := b.current)
    else System(if b.setup.device then Device else Plain, Zeros(b.numNodes), Zeros(b.numNodes), if b.setup.device then b.current else None)
  }

  function After(s: System, a: Attempt, scale: real): System {
    match a
    case Converged(x) => s.(solution := x, rhs := Scaled(x, scale))
    case Diverged(x, rhs) => s.(solution := x, rhs := rhs)
    case Threw(x, rhs) => s.(solution := x, rhs := rhs)
  }

  /** One evaluation: the field of a converged attempt becomes the trial field. */
  function Solved(b: State, configurable: bool, steady: bool, first: Attempt, second: Attempt): (State, Option<Field>) {
    if !configurable || !steady then (b, None)
    else
      var retry := first.Threw? && b.setup.device && b.setup.fallback;
      var a := if retry then second else first;
      var s := if retry then System(Plain, Zeros(b.numNodes), Zeros(b.numNodes), None) else Started(b);
      var after := After(s, a, b.setup.scale);
      if a.Converged? then (b.(system := Some(after), trial := Some(a.x)), Some(after.rhs))
      else (b.(system := Some(after)), None)
  }

  function IdentityIn(current: Option<BucketDefinition>): Option<Identity> {
    if current.Some? then Some(current.value.identity) else None
  }

  function Initialized(b: State, configurable: bool, steady: bool, first: Attempt, second: Attempt): (State, bool) {
    if !b.setup.device || b.initialized then (b, true)
    else
      var (after, field) := Solved(b, configurable, steady, first, second);
      if field.None? then (after, false)
      else (after.(committed := after.trial, committedIdentity := IdentityIn(after.current), initialized := true), true)
  }

  // ----- commit and roll back

  function Committed(b: State): State {
    if !b.setup.device || b.trial.None? then b
    else b.(committed := b.trial, committedIdentity := IdentityIn(b.current))
  }

  function Restored(s: System, x: Field, scale: real): System {
    if |s.solution| == |x| then s.(solution := x, rhs := Scaled(x, scale)) else s
  }

  predicate HasCommittedBucket(b: State) {
    b.committedIdentity.Some? && b.committedIdentity.value in b.buckets
  }

  function RolledBack(b: State): (State, bool) {
    if !b.setup.device then (b, true)
    else if b.committed.None? then (b, false)
    else
      var r := b.(trial := b.committed);
      if b.system.None? then (r, true)
      else if b.system.value.kind.Device? then
        if !HasCommittedBucket(b) then (r, false)
        else
          var s := b.system.value.(active := Some(b.buckets[b.committedIdentity.value]));
          (r.(system := Some(Restored(s, b.committed.value, b.setup.scale))), true)
      else (r.(system := Some(Restored(b.system.value, b.committed.value, b.setup.scale))), true)
  }

  // ----- the object

  class FSolverAnalysisBackend {
    const setup: Setup
    var topologyIdentity: nat
    ghost var loaded: nat
    var agelist: seq<Gap>
    var numNodes: nat
    var pbclist: seq<(int, int)>
    var cudssBuckets: map<Identity, BucketDefinition>
    var currentBucket: Option<BucketDefinition>
    var trialSolution: Field
    var haveTrialSolution: bool
    var committedSolution: Field
    var haveCommittedSolution: bool
    var committedBucketIdentity: Option<Identity>
    var lastSystem: Option<System>
    var initialized: bool

    constructor (setup: Setup)
      ensures View() == Fresh(setup)
    {
      this.setup := setup;
      topologyIdentity, loaded, agelist, numNodes, pbclist := 0, 0, [], 0, [];
      cudssBuckets, currentBucket := map[], None;
      trialSolution, haveTrialSolution, committedSolution, haveCommittedSolution := [], false, [], false;
      committedBucketIdentity, lastSystem, initialized := None, None, false;
    }

    ghost function View(): State
      reads this
    {
      State(setup, topologyIdentity, loaded, agelist, numNodes, pbclist, cudssBuckets, currentBucket,
            if haveTrialSolution then Some(trialSolution) else None,
            if haveCommittedSolution then Some(committedSolution) else None,
            committedBucketIdentity, lastSystem, initialized)
    }

    /** Drop every field and bucket of the mesh before. */
    method Forget()
      modifies this`lastSystem, this`trialSolution, this`committedSolution, this`haveTrialSolution, this`haveCommittedSolution
      modifies this`currentBucket, this`committedBucketIdentity, this`cudssBuckets
      ensures View() == old(View()).(buckets := map[], current := None, trial := None, committed := None, committedIdentity := None, system := None)
    {
      lastSystem := None;
      trialSolution, committedSolution := [], [];
      haveTrialSolution, haveCommittedSolution := false, false;
      currentBucket, committedBucketIdentity, cudssBuckets := None, None, map[];
    }

    /** Load and order a mesh that is not the one at hand. */
    method Import(mesh: Mesh, identity: nat) returns (ok: bool)
      modifies this
      ensures View() == Loaded(old(View()), mesh, identity) && ok == !LoadFails(old(View()), mesh, identity)
    {
      if identity == topologyIdentity {
        return true;
      }
      loaded, numNodes, pbclist := identity, mesh.numNodes, mesh.pairs;
      if mesh.outcome.Fails? {
        agelist := mesh.outcome.left;
        return false;
      }
      agelist := mesh.gaps;
      topologyIdentity := identity;
      Forget();
      ok := true;
    }

    method SelectBucket(names: seq<string>, prepared: seq<GapPosition>) returns (ok: bool, ghost built: Outcome<BucketDefinition, PositionError>)
      requires setup.width > 0.0 && Sound(agelist, numNodes, pbclist) && InNames(prepared, names)
      modifies this`cudssBuckets, this`currentBucket
      ensures setup.device && IdentityOf(prepared, setup.width) !in old(cudssBuckets) ==> IsBuilt(built, old(View()), names, prepared)
      ensures (View(), ok) == Bucketed(old(View()), prepared, built)
    {
      built := Failed(InvalidRingTopology);
      if !setup.device {
        return true, built;
      }
      var identity := IdentityOf(prepared, setup.width);
      if identity !in cudssBuckets {
        var definition := BuildCudssBucket(agelist, names, prepared, setup.width, setup.ulp, pbclist, numNodes);
        built := definition;
        if definition.Failed? {
          return false, built;
        }
        cudssBuckets := cudssBuckets[identity := definition.value];
      }
      currentBucket := Some(cudssBuckets[identity]);
      ok := true;
    }

    /** Import a changed mesh, reposition the gaps where needed, select the bucket. */
    method Synchronize(configurable: bool, names: seq<string>, prepared: seq<GapPosition>, mesh: Mesh, identity: nat, coupling: bool)
      returns (ok: bool, ghost built: Outcome<BucketDefinition, PositionError>)
      requires setup.width > 0.0 && InNames(prepared, names) && Ready(View(), mesh, identity)
      modifies this
      ensures (View(), ok) == Synchronized(old(View()), configurable, names, prepared, mesh, identity, coupling, built)
      ensures configurable ==> Answers(old(View()), names, prepared, mesh, identity, coupling, built)
    {
      built := Failed(InvalidRingTopology);
      if !configurable {
        return false, built;
      }
      var topologyChanged := identity != topologyIdentity;
      ok := Import(mesh, identity);
      if !ok {
        return;
      }
      ghost var imported := View();
      if topologyChanged || coupling {
        ok, agelist := PositionAirGaps(agelist, names, prepared);
      }
      assert (View(), ok) == Placed(imported, names, prepared, topologyChanged || coupling);
      if !ok {
        return;
      }
      ok, built := SelectBucket(names, prepared);
    }

    /** Evaluate: `first` is how the nonlinear solver ends, `second` how the plain one does that
        steps in. The result is the field in potentials. */
    method Solve(configurable: bool, steady: bool, first: Attempt, second: Attempt) returns (field: Option<Field>)
      modifies this`lastSystem, this`trialSolution, this`haveTrialSolution
      ensures (View(), field) == Solved(old(View()), configurable, steady, first, second)
    {
      if !configurable || !steady {
        return None;
      }
      if !setup.device || lastSystem.None? || lastSystem.value.kind.Plain? {
        lastSystem := Some(System(if setup.device then Device else Plain, Zeros(numNodes), Zeros(numNodes), None));
      }
      var system := lastSystem.value;
      if system.kind.Device? {
        system := system.(active := currentBucket);
      }
      var attempt := first;
      if first.Threw? && setup.device && setup.fallback {
        system := System(Plain, Zeros(numNodes), Zeros(numNodes), None);
        attempt := second;
      }
      match attempt {
        case Converged(x) =>
          system := system.(solution := x, rhs := Scaled(x, setup.scale));
        case Diverged(x, rhs) =>
          system := system.(solution := x, rhs := rhs);
        case Threw(x, rhs) =>
          system := system.(solution := x, rhs := rhs);
      }
      lastSystem := Some(system);
      if !attempt.Converged? {
        return None;
      }
      trialSolution, haveTrialSolution := system.solution, true;
      field := Some(system.rhs);
    }

    /** Solve once and commit, the first time only. */
    method Initialize(configurable: bool, steady: bool, first: Attempt, second: Attempt) returns (ok: bool)
      modifies this
      ensures (View(), ok) == Initialized(old(View()), configurable, steady, first, second)
    {
      if !setup.device || initialized {
        return true;
      }
      var field := Solve(configurable, steady, first, second);
      if field.None? {
        return false;
      }
      committedSolution, haveCommittedSolution := trialSolution, haveTrialSolution;
      committedBucketIdentity := IdentityIn(currentBucket);
      initialized, ok := true, true;
    }

    method CommitTrial()
      modifies this
      ensures View() == Committed(old(View()))
    {
      if !setup.device || !haveTrialSolution {
        return;
      }
      committedSolution, haveCommittedSolution := trialSolution, true;
      committedBucketIdentity := IdentityIn(currentBucket);
    }

    method RollbackToCommitted() returns (ok: bool)
      modifies this
      ensures (View(), ok) == RolledBack(old(View()))
    {
      if !setup.device {
        return true;
      }
      if !haveCommittedSolution {
        return false;
      }
      trialSolution, haveTrialSolution := committedSolution, true;
      if lastSystem.Some? && lastSystem.value.kind.Device? {
        if committedBucketIdentity.None? || committedBucketIdentity.value !in cudssBuckets {
          return false;
        }
        lastSystem := Some(lastSystem.value.(active := Some(cudssBuckets[committedBucketIdentity.value])));
      }
      if lastSystem.Some? && |lastSystem.value.solution| == |trialSolution| {
        lastSystem := Some(lastSystem.value.(solution := trialSolution, rhs := Scaled(trialSolution, setup.scale)));
      }
      ok := true;
    }
  }
}
