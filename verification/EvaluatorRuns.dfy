/** The motor evaluator together with the session it owns: from which mesh its weights are, and what
    becomes of the linkages when that is not the present one. */
module EvaluatorRuns {
  import opened Wrappers
  import opened AirGapRing
  import opened AirGapPosition
  import opened Bucket
  import opened GapPlacement
  import opened SolverBackend
  import opened BackendRuns
  import opened SessionModel
  import opened AnalysisSession
  import opened SessionKeeps
  import opened SessionRuns
  import opened SessionFields
  import opened SessionObject
  import opened SessionEdges
  import Linkage
  import Reals
  import M = MotorSession

  /** What extracting the weights from the mesh of each topology gives. */
  type Extractor = nat -> M.Weights

  /** The session, the topology whose mesh the weights were extracted from, whether anything has been
      solved, and whether the evaluator has been initialized. */
  datatype Evaluator = Evaluator(session: Session, extracted: Option<nat>, solved: bool, begun: bool)

  /** A call to the evaluator, or to the session it hands out. `opens` tells whether the physical view
      is open, or can be opened. */
  datatype Call =
    | Evaluation(answer: Answer, attempts: Attempts)
    | Begin(answer: Answer, attempts: Attempts, opens: bool)
    | Analysis(op: Op)

  ghost predicate Callable(e: Evaluator, c: Call)
    requires Valid(e.session)
  {
    match c
    case Evaluation(a, attempts) => Fitting(e.session, a)
    case Begin(a, attempts, _) => Fitting(e.session, a)
    case Analysis(op) => Allowed(e.session, op)
  }

  function Topology(e: Evaluator): nat { e.session.backend.topology }

  /** Only the first extraction looks at the mesh. */
  function Extracted(e: Evaluator): Evaluator {
    if e.extracted.Some? then e else e.(extracted := Some(Topology(e)))
  }

  /** A trial is evaluated with the weights there are, or extracted now. */
  function Noted(e: Evaluator, issued: bool): Evaluator {
    if issued then Extracted(e.(solved := true)) else e
  }

  /** The step solves once and for all: the first initialization of a device solver. */
  predicate FirstSolve(s: Session, r: Session) { r.backend.initialized && !s.backend.initialized }

  function Begun(e: Evaluator, ok: bool, opens: bool): (Evaluator, bool) {
    if !ok || (e.solved && !opens) then (e, false)
    else ((if e.solved then Extracted(e) else e).(begun := true), true)
  }

  ghost function Called(e: Evaluator, c: Call): Evaluator
    requires Valid(e.session) && Callable(e, c)
  {
    match c
    case Evaluation(a, attempts) =>
      var (s, trial) := SolveStep(e.session, a, attempts);
      Noted(e.(session := s), trial.Some?)
    case Begin(a, attempts, opens) =>
      if e.begun then e
      else
        var (s, ok) := InitializeStep(e.session, a, attempts);
        Begun(e.(session := s, solved := e.solved || FirstSolve(e.session, s)), ok, opens).0
    case Analysis(op) =>
      var (s, result) := Next(e.session, op);
      e.(session := s, solved := e.solved || result.Issued? || FirstSolve(e.session, s))
  }

  // ----- topologies only go up, and the weights stay what they are

  lemma SynchronizedTopology(b: State, configurable: bool, names: seq<string>, prepared: seq<GapPosition>, mesh: Mesh, identity: nat, coupling: bool,
                             built: Outcome<BucketDefinition, PositionError>)
    requires b.setup.width > 0.0 && InNames(prepared, names) && Ready(b, mesh, identity) && b.topology <= identity
    ensures Synchronized(b, configurable, names, prepared, mesh, identity, coupling, built).0.topology >= b.topology
  {
  }

  lemma DeliveredTopology(m: Session, built: Outcome<BucketDefinition, PositionError>)
    requires Backed(m) && m.mesh.Some? && SoundMesh(m.mesh.value)
    ensures Delivered(m, built).0.backend.topology >= m.backend.topology
  {
    if Candidate(m).Some? {
      SynchronizedTopology(m.backend, Configurable(m.model, m.parameters.constraints), Names(m.model), Asked(m.model, Candidate(m).value.gaps),
                           m.mesh.value, m.topology, Coupling in m.dirty, built);
    }
  }

  lemma SyncedTopologyGrows(s: Session, a: Answer)
    requires Valid(s) && Fitting(s, a)
    ensures Synced(s, a).0.backend.topology >= s.backend.topology
  {
    if !Settled(s) {
      WithMeshBacked(s, a.meshed);
      var (m, ok) := WithMesh(s, a.meshed);
      if ok {
        DeliveredTopology(m, a.built);
      }
    }
  }

  lemma SolveTopology(s: Session, a: Answer, attempts: Attempts)
    requires Valid(s) && Fitting(s, a)
    ensures SolveStep(s, a, attempts).0.backend.topology >= s.backend.topology
  {
    SyncedTopologyGrows(s, a);
    EvaluatedRecords(Synced(s, a).0, attempts);
  }

  lemma InitializeTopology(s: Session, a: Answer, attempts: Attempts)
    requires Valid(s) && Fitting(s, a)
    ensures InitializeStep(s, a, attempts).0.backend.topology >= s.backend.topology
  {
    SyncedTopologyGrows(s, a);
    var t := Synced(s, a).0;
    InitializedRecords(t.backend, Configurable(t.model, t.parameters.constraints), Steady(t), attempts);
  }

  lemma StepTopology(s: Session, op: Op)
    requires Valid(s) && Allowed(s, op)
    ensures Next(s, op).0.backend.topology >= s.backend.topology
  {
    if op.Synchronize? {
      SyncedTopologyGrows(s, op.answer);
    } else if op.Solve? {
      SolveTopology(s, op.answer, op.attempts);
    } else if op.Initialize? {
      InitializeTopology(s, op.answer, op.attempts);
    } else {
      OtherStepRecords(s, op);
    }
  }

  /** What every call does to the topology and to the weights. */
  ghost predicate Moves(e: Evaluator, e': Evaluator) {
    && Topology(e) <= Topology(e')
    && (e.extracted.Some? ==> e'.extracted == e.extracted)
    && (e'.extracted.Some? && e.extracted.None? ==> e'.extracted == Some(Topology(e')))
  }

  lemma CallMoves(e: Evaluator, c: Call)
    requires Valid(e.session) && Callable(e, c)
    ensures Moves(e, Called(e, c))
  {
    match c
    case Evaluation(a, attempts) => SolveTopology(e.session, a, attempts);
    case Begin(a, attempts, _) => InitializeTopology(e.session, a, attempts);
    case Analysis(op) => StepTopology(e.session, op);
  }

  // ----- runs

  /** A run of a new evaluator, with any calls to its session in between. */
  ghost predicate EvaluatorRun(es: seq<Evaluator>, cs: seq<Call>) {
    && |es| == |cs| + 1 && es[0].extracted.None?
    && forall i :: 0 <= i < |cs| ==> CallFollows(es, cs, i)
  }

  ghost predicate CallFollows(es: seq<Evaluator>, cs: seq<Call>, i: nat)
    requires i < |cs| && |es| == |cs| + 1
  {
    Valid(es[i].session) && Callable(es[i], cs[i]) && es[i + 1] == Called(es[i], cs[i])
  }

  ghost predicate MovesAt(es: seq<Evaluator>, i: nat)
    requires i + 1 < |es|
  {
    Moves(es[i], es[i + 1])
  }

  ghost predicate Moving(es: seq<Evaluator>) {
    es != [] && es[0].extracted.None? && forall i :: 0 <= i < |es| - 1 ==> MovesAt(es, i)
  }

  lemma RunMoves(es: seq<Evaluator>, cs: seq<Call>)
    requires EvaluatorRun(es, cs)
    ensures Moving(es)
  {
    forall i | 0 <= i < |es| - 1 ensures MovesAt(es, i) {
      assert CallFollows(es, cs, i);
      CallMoves(es[i], cs[i]);
    }
  }

  /** Step `j` leaves the solver's mesh alone. */
  ghost predicate SameTopologyAt(es: seq<Evaluator>, j: nat)
    requires j + 1 < |es|
  {
    Topology(es[j + 1]) == Topology(es[j])
  }

  /** No new topology reaches the solver from state `a` to state `b`. */
  ghost predicate NoNewTopology(es: seq<Evaluator>, a: nat, b: nat)
    requires b < |es|
  {
    forall j :: a <= j < b ==> SameTopologyAt(es, j)
  }

  lemma {:induction false} TopologyGrows(es: seq<Evaluator>, a: nat, b: nat)
    requires Moving(es) && a <= b < |es|
    ensures Topology(es[a]) <= Topology(es[b])
    ensures Topology(es[a]) == Topology(es[b]) <==> NoNewTopology(es, a, b)
  {
    if a < b {
      TopologyGrows(es, a, b - 1);
      assert MovesAt(es, b - 1);
      if NoNewTopology(es, a, b) {
        assert SameTopologyAt(es, b - 1);
      }
    }
  }

  /** The weights are extracted in step `k`. */
  ghost predicate ExtractedIn(es: seq<Evaluator>, k: nat)
    requires k + 1 < |es|
  {
    es[k].extracted.None? && es[k + 1].extracted.Some?
  }

  lemma {:induction false} WeightsStay(es: seq<Evaluator>, k: nat, i: nat)
    requires Moving(es) && k < i < |es| && ExtractedIn(es, k)
    ensures es[i].extracted == Some(Topology(es[k + 1]))
  {
    assert MovesAt(es, i - 1);
    if k + 1 < i {
      WeightsStay(es, k, i - 1);
    }
  }

  /** In every later state the weights are those of the mesh at hand exactly when no new topology has
      reached the solver since they were extracted. */
  lemma WeightsArePresent(es: seq<Evaluator>, cs: seq<Call>, k: nat, i: nat)
    requires EvaluatorRun(es, cs) && k < i < |es| && ExtractedIn(es, k)
    ensures es[i].extracted.Some? && (es[i].extracted.value == Topology(es[i]) <==> NoNewTopology(es, k + 1, i))
  {
    RunMoves(es, cs);
    WeightsStay(es, k, i);
    TopologyGrows(es, k + 1, i);
  }

  // ----- what the history of calls tells about the evaluator

  /** The call solves: it issues a trial, or initializes the device solver. */
  ghost predicate Solves(e: Evaluator, c: Call, e': Evaluator)
    requires Valid(e.session) && Callable(e, c)
  {
    var initializes := !e.session.backend.initialized && e'.session.backend.initialized;
    match c
    case Evaluation(a, attempts) => SolveStep(e.session, a, attempts).1.Some?
    case Begin(_, _, _) => !e.begun && initializes
    case Analysis(op) => Next(e.session, op).1.Issued? || initializes
  }

  /** The call initializes the evaluator: the session can be initialized and, once anything has been
      solved, the physical view can be opened. */
  ghost predicate Initializes(e: Evaluator, c: Call, e': Evaluator)
    requires Valid(e.session) && Callable(e, c)
  {
    c.Begin? && !e.begun && InitializeStep(e.session, c.answer, c.attempts).1 && (e'.solved ==> c.opens)
  }

  lemma CallTells(e: Evaluator, c: Call)
    requires Valid(e.session) && Callable(e, c)
    ensures var e' := Called(e, c);
      && (e'.solved <==> e.solved || Solves(e, c, e'))
      && (e'.begun <==> e.begun || Initializes(e, c, e'))
      && (e'.extracted.Some? <==> e.extracted.Some? || (c.Evaluation? && Solves(e, c, e')) || (Initializes(e, c, e') && e'.solved))
  {
  }

  ghost predicate SolvesAt(es: seq<Evaluator>, cs: seq<Call>, j: nat)
    requires j < |cs| && |es| == |cs| + 1
  {
    CallFollows(es, cs, j) && Solves(es[j], cs[j], es[j + 1])
  }

  ghost predicate InitializesAt(es: seq<Evaluator>, cs: seq<Call>, j: nat)
    requires j < |cs| && |es| == |cs| + 1
  {
    CallFollows(es, cs, j) && Initializes(es[j], cs[j], es[j + 1])
  }

  /** The weights are extracted by the first evaluation that issues a trial, or by the initialization
      if anything has been solved by then. */
  ghost predicate ExtractsAt(es: seq<Evaluator>, cs: seq<Call>, j: nat)
    requires j < |cs| && |es| == |cs| + 1
  {
    (cs[j].Evaluation? && SolvesAt(es, cs, j)) || (InitializesAt(es, cs, j) && es[j + 1].solved)
  }

  lemma StepTells(es: seq<Evaluator>, cs: seq<Call>, j: nat)
    requires j < |cs| && |es| == |cs| + 1 && CallFollows(es, cs, j)
    ensures es[j + 1].solved <==> es[j].solved || SolvesAt(es, cs, j)
    ensures es[j + 1].begun <==> es[j].begun || InitializesAt(es, cs, j)
    ensures es[j + 1].extracted.Some? <==> es[j].extracted.Some? || ExtractsAt(es, cs, j)
  {
    CallTells(es[j], cs[j]);
  }

  /** What starts false and is only ever set holds exactly when something before has set it. */
  lemma {:induction false} SetBefore(holds: seq<bool>, sets: seq<bool>, i: nat)
    requires |holds| == |sets| + 1 && !holds[0] && i < |holds|
    requires forall j :: 0 <= j < |sets| ==> holds[j + 1] == (holds[j] || sets[j])
    ensures holds[i] <==> exists j :: 0 <= j < i && sets[j]
  {
    if i > 0 {
      SetBefore(holds, sets, i - 1);
      assert holds[(i - 1) + 1] == (holds[i - 1] || sets[i - 1]);
    }
  }

  /** In every state of every run of a new evaluator the history of calls tells whether anything has been
      solved, whether the evaluator is initialized, and whether its weights are there. */
  lemma HistoryTells(es: seq<Evaluator>, cs: seq<Call>, solves: seq<bool>, initializes: seq<bool>, extracts: seq<bool>, i: nat)
    requires EvaluatorRun(es, cs) && !es[0].solved && !es[0].begun && i < |es|
    requires |solves| == |initializes| == |extracts| == |cs|
    requires forall j :: 0 <= j < |cs| ==> (solves[j] <==> SolvesAt(es, cs, j))
    requires forall j :: 0 <= j < |cs| ==> (initializes[j] <==> InitializesAt(es, cs, j))
    requires forall j :: 0 <= j < |cs| ==> (extracts[j] <==> ExtractsAt(es, cs, j))
    ensures es[i].solved <==> exists j :: 0 <= j < i && solves[j]
    ensures es[i].begun <==> exists j :: 0 <= j < i && initializes[j]
    ensures es[i].extracted.Some? <==> exists j :: 0 <= j < i && extracts[j]
  {
    var solved, begun, extracted := seq(|es|, k requires 0 <= k < |es| => es[k].solved), seq(|es|, k requires 0 <= k < |es| => es[k].begun),
      seq(|es|, k requires 0 <= k < |es| => es[k].extracted.Some?);
    forall j | 0 <= j < |cs|
      ensures solved[j + 1] == (solved[j] || solves[j]) && begun[j + 1] == (begun[j] || initializes[j]) && extracted[j + 1] == (extracted[j] || extracts[j])
    {
      assert CallFollows(es, cs, j);
      StepTells(es, cs, j);
    }
    SetBefore(solved, solves, i);
    SetBefore(begun, initializes, i);
    SetBefore(extracted, extracts, i);
  }

  // ----- what that means for the linkages

  /** The trial of a residual evaluation with the weights of some topology. */
  function LinkedWith(x: Extractor, topology: nat, p: M.Physics, s: M.Snapshot, id: nat, circuits: nat): Option<M.Trial> {
    M.Results(p, x(topology), s, M.Bare(id, circuits), M.ResidualOnly)
  }

  /** One weight vector per circuit, where the weights are available. */
  ghost predicate OnePerCircuit(x: Extractor, circuits: nat) {
    forall t: nat :: x(t).Some? ==> |x(t).value| == circuits
  }

  predicate Sized(w: M.Weights, circuits: nat, nodes: nat) {
    w.Some? && |w.value| == circuits && forall i :: 0 <= i < circuits ==> |w.value[i]| == nodes
  }

  /** Weights are available for all meshes, and all meshes have as many nodes. */
  ghost predicate OnePerNode(x: Extractor, circuits: nat, nodes: nat) {
    forall t: nat :: Sized(x(t), circuits, nodes)
  }

  /** The weights of two topologies give the same trial, whatever the meshes are. */
  ghost predicate AlwaysAgree(p: M.Physics, s: M.Snapshot, id: nat, circuits: nat, a: nat, b: nat) {
    forall x: Extractor :: OnePerCircuit(x, circuits) ==> LinkedWith(x, a, p, s, id, circuits) == LinkedWith(x, b, p, s, id, circuits)
  }

  /** The same among meshes with as many nodes as the field. */
  ghost predicate AgreeOnEqualMeshes(p: M.Physics, s: M.Snapshot, id: nat, circuits: nat, a: nat, b: nat) {
    forall x: Extractor :: OnePerNode(x, circuits, |s.rhs|) ==> LinkedWith(x, a, p, s, id, circuits) == LinkedWith(x, b, p, s, id, circuits)
  }

  /** An evaluation works exactly with weights that have an entry for every value of the field. */
  lemma LinkedNeedsShape(x: Extractor, t: nat, p: M.Physics, s: M.Snapshot, id: nat, circuits: nat)
    requires x(t).Some? ==> |x(t).value| == circuits
    ensures LinkedWith(x, t, p, s, id, circuits).Some? <==> x(t).None? || Sized(x(t), circuits, |s.rhs|)
  {
    M.LinkagesNeedShape(p, x(t), s, M.Bare(id, circuits).circuits, circuits);
  }

  lemma NoCircuitsNoLinkages(x: Extractor, t: nat, p: M.Physics, s: M.Snapshot, id: nat)
    requires x(t).Some? ==> |x(t).value| == 0
    ensures LinkedWith(x, t, p, s, id, 0) == Some(M.Bare(id, 0))
  {
    assert M.Linkages(p, x(t), s, false, M.Bare(id, 0).circuits, 0) == Some([]);
    assert M.Bare(id, 0).circuits == [];
  }

  /** The same weights for all circuits. */
  function Alike(circuits: nat, w: Field): (r: M.Weights)
    ensures Sized(r, circuits, |w|) && forall i :: 0 <= i < circuits ==> r.value[i] == w
  {
    Some(seq(circuits, _ => w))
  }

  /** Meshes of which one has as many nodes as the field, and all others one more. */
  function Growing(b: nat, circuits: nat, nodes: nat): Extractor {
    (t: nat) => Alike(circuits, Zeros(if t == b then nodes else nodes + 1))
  }

  lemma GrowingAt(b: nat, circuits: nat, nodes: nat, t: nat)
    ensures Growing(b, circuits, nodes)(t) == Alike(circuits, Zeros(if t == b then nodes else nodes + 1))
  {
  }

  /** Whatever the meshes are, the weights of one topology serve for another only if it is the same,
      or there is no circuit. */
  lemma OnlyPresentWeightsServe(p: M.Physics, s: M.Snapshot, id: nat, circuits: nat, a: nat, b: nat)
    ensures AlwaysAgree(p, s, id, circuits, a, b) <==> a == b || circuits == 0
  {
    if circuits == 0 {
      forall x: Extractor | OnePerCircuit(x, circuits) ensures LinkedWith(x, a, p, s, id, circuits) == LinkedWith(x, b, p, s, id, circuits) {
        NoCircuitsNoLinkages(x, a, p, s, id);
        NoCircuitsNoLinkages(x, b, p, s, id);
      }
    } else if a != b {
      var x := Growing(b, circuits, |s.rhs|);
      forall t: nat ensures x(t) == Alike(circuits, Zeros(if t == b then |s.rhs| else |s.rhs| + 1)) {
        GrowingAt(b, circuits, |s.rhs|, t);
      }
      LinkedNeedsShape(x, a, p, s, id, circuits);
      LinkedNeedsShape(x, b, p, s, id, circuits);
      assert x(a).value[0] == Zeros(|s.rhs| + 1);
    }
  }

  function Unit(n: nat, j: nat): (x: Field)
    ensures |x| == n
  {
    seq(n, i => if i == j then 1.0 else 0.0)
  }

  lemma {:induction false} DotWithUnit(a: Field, j: nat, upTo: nat)
    requires upTo <= |a|
    ensures Linkage.Dot(Unit(|a|, j), a, upTo) == if j < upTo then a[j] else 0.0
  {
    if upTo > 0 {
      DotWithUnit(a, j, upTo - 1);
    }
  }

  lemma {:induction false} DotWithZeros(a: Field, upTo: nat)
    requires upTo <= |a|
    ensures Linkage.Dot(Zeros(|a|), a, upTo) == 0.0
  {
    if upTo > 0 {
      DotWithZeros(a, upTo - 1);
    }
  }

  lemma {:induction false} DotOfNothing(w: Field, a: Field, upTo: nat)
    requires upTo <= |a| == |w| && forall i :: 0 <= i < |a| ==> a[i] == 0.0
    ensures Linkage.Dot(w, a, upTo) == 0.0
  {
    if upTo > 0 {
      DotOfNothing(w, a, upTo - 1);
    }
  }

  /** All linkages of the field that is zero are zero. */
  lemma {:induction false} NoFieldNoDifference(p: M.Physics, w: M.Weights, w': M.Weights, s: M.Snapshot, circuits: seq<M.Circuit>, upTo: nat)
    requires Sized(w, |circuits|, |s.rhs|) && Sized(w', |circuits|, |s.rhs|) && upTo <= |circuits|
    requires forall i :: 0 <= i < |s.rhs| ==> s.rhs[i] == 0.0
    ensures M.Linkages(p, w, s, false, circuits, upTo) == M.Linkages(p, w', s, false, circuits, upTo)
  {
    if upTo > 0 {
      NoFieldNoDifference(p, w, w', s, circuits, upTo - 1);
      DotOfNothing(w.value[upTo - 1], s.rhs, |s.rhs|);
      DotOfNothing(w'.value[upTo - 1], s.rhs, |s.rhs|);
    }
  }

  /** Meshes with equally many nodes, of which one has no winding and all others one at node `j`. */
  function Winding(b: nat, circuits: nat, nodes: nat, j: nat): Extractor {
    (t: nat) => Alike(circuits, if t == b then Zeros(nodes) else Unit(nodes, j))
  }

  lemma WindingAt(b: nat, circuits: nat, nodes: nat, j: nat, t: nat)
    ensures Winding(b, circuits, nodes, j)(t) == Alike(circuits, if t == b then Zeros(nodes) else Unit(nodes, j))
  {
  }

  lemma FirstLinkage(x: Extractor, t: nat, p: M.Physics, s: M.Snapshot, id: nat, circuits: nat)
    requires circuits > 0 && Sized(x(t), circuits, |s.rhs|)
    ensures var r := LinkedWith(x, t, p, s, id, circuits);
      r.Some? && |r.value.circuits| == circuits && r.value.circuits[0].linkage == Linkage.Dot(x(t).value[0], s.rhs, |s.rhs|)
  {
    LinkedNeedsShape(x, t, p, s, id, circuits);
    M.LinkageAt(p, x(t), s, false, M.Bare(id, circuits).circuits, circuits, 0);
  }

  lemma WindingTells(p: M.Physics, s: M.Snapshot, id: nat, circuits: nat, a: nat, b: nat, j: nat)
    requires a != b && circuits > 0 && j < |s.rhs| && s.rhs[j] != 0.0
    ensures !AgreeOnEqualMeshes(p, s, id, circuits, a, b)
  {
    var n := |s.rhs|;
    var x := Winding(b, circuits, n, j);
    forall t: nat ensures x(t) == Alike(circuits, if t == b then Zeros(n) else Unit(n, j)) {
      WindingAt(b, circuits, n, j, t);
    }
    FirstLinkage(x, a, p, s, id, circuits);
    FirstLinkage(x, b, p, s, id, circuits);
    assert x(a).value[0] == Unit(n, j) && x(b).value[0] == Zeros(n);
    DotWithUnit(s.rhs, j, n);
    DotWithZeros(s.rhs, n);
  }

  /** Even among meshes with equally many nodes they serve only then, or for the field that is zero. */
  lemma OnlyPresentWeightsServeEqualMeshes(p: M.Physics, s: M.Snapshot, id: nat, circuits: nat, a: nat, b: nat)
    ensures AgreeOnEqualMeshes(p, s, id, circuits, a, b) <==>
      a == b || circuits == 0 || forall j :: 0 <= j < |s.rhs| ==> s.rhs[j] == 0.0
  {
    if forall j :: 0 <= j < |s.rhs| ==> s.rhs[j] == 0.0 {
      forall x: Extractor | OnePerNode(x, circuits, |s.rhs|) ensures LinkedWith(x, a, p, s, id, circuits) == LinkedWith(x, b, p, s, id, circuits) {
        NoFieldNoDifference(p, x(a), x(b), s, M.Bare(id, circuits).circuits, circuits);
      }
    } else if circuits == 0 {
      forall x: Extractor | OnePerNode(x, circuits, |s.rhs|) ensures LinkedWith(x, a, p, s, id, circuits) == LinkedWith(x, b, p, s, id, circuits) {
        NoCircuitsNoLinkages(x, a, p, s, id);
        NoCircuitsNoLinkages(x, b, p, s, id);
      }
    } else if a != b {
      var j :| 0 <= j < |s.rhs| && s.rhs[j] != 0.0;
      WindingTells(p, s, id, circuits, a, b, j);
    }
  }

  /** Over every run, once the weights are extracted: a residual evaluation gives the linkages of the
      mesh at hand, whatever meshes there were, exactly when no new topology has reached the solver
      since, or there is no circuit; and among meshes with equally many nodes, or when the field is zero. */
  lemma LinkagesOfPresentMesh(es: seq<Evaluator>, cs: seq<Call>, k: nat, i: nat, p: M.Physics, s: M.Snapshot, id: nat, circuits: nat)
    requires EvaluatorRun(es, cs) && k < i < |es| && ExtractedIn(es, k)
    ensures es[i].extracted.Some?
    ensures AlwaysAgree(p, s, id, circuits, es[i].extracted.value, Topology(es[i])) <==> NoNewTopology(es, k + 1, i) || circuits == 0
    ensures AgreeOnEqualMeshes(p, s, id, circuits, es[i].extracted.value, Topology(es[i])) <==>
      NoNewTopology(es, k + 1, i) || circuits == 0 || forall j :: 0 <= j < |s.rhs| ==> s.rhs[j] == 0.0
  {
    WeightsArePresent(es, cs, k, i);
    OnlyPresentWeightsServe(p, s, id, circuits, es[i].extracted.value, Topology(es[i]));
    OnlyPresentWeightsServeEqualMeshes(p, s, id, circuits, es[i].extracted.value, Topology(es[i]));
  }

  // ----- a run with stale weights

  const WOUND: Model := Model(0.0, [Complex(1.0, 0.0)], [], [], [])

  lemma ExtendEvaluator(es: seq<Evaluator>, cs: seq<Call>, c: Call)
    requires EvaluatorRun(es, cs) && Valid(es[|cs|].session) && Callable(es[|cs|], c)
    ensures EvaluatorRun(es + [Called(es[|cs|], c)], cs + [c])
  {
    var es', cs' := es + [Called(es[|cs|], c)], cs + [c];
    forall i | 0 <= i < |cs'| ensures CallFollows(es', cs', i) {
      if i < |cs| { assert CallFollows(es, cs, i); }
    }
  }

  lemma SmallStep(s: Session, x: real)
    requires Small(s)
    ensures Fitting(s, GIVEN)
    ensures var (r, trial) := SolveStep(s, GIVEN, Converging(x));
      && trial.Some? && Small(r) && r.model == s.model && r.backend.trial == Some([x])
      && r.backend.topology == Synced(s, GIVEN).0.backend.topology
  {
    var r, t := SmallSolves(s, x);
    SolveStepKeeps(s, GIVEN, Converging(x));
    SmallSyncs(s);
    EvaluatedRecords(Synced(s, GIVEN).0, Converging(x));
  }

  /** Evaluating a session of circuits only. */
  lemma SmallEvaluation(e: Evaluator, x: real)
    requires Small(e.session)
    ensures Callable(e, Evaluation(GIVEN, Converging(x)))
    ensures var e' := Called(e, Evaluation(GIVEN, Converging(x)));
      && Small(e'.session) && e'.session.model == e.session.model && e'.session.backend.trial == Some([x])
      && e'.extracted == Extracted(e.(session := e'.session)).extracted && Topology(e') == Synced(e.session, GIVEN).0.backend.topology
  {
    SmallStep(e.session, x);
  }

  lemma WoundIsSmall()
    ensures Small(AnalysisSession.Fresh(WOUND, 1, 1, DEVICE))
  {
    FreshIsValid(WOUND, 1, 1, DEVICE);
    assert AnalysisSession.Fresh(WOUND, 1, 1, DEVICE).parameters.gaps == map[];
  }

  /** Evaluate once. */
  lemma FirstEvaluated() returns (es: seq<Evaluator>, cs: seq<Call>)
    ensures EvaluatorRun(es, cs) && cs == [Evaluation(GIVEN, Converging(1.0))] && ExtractedIn(es, 0)
    ensures Small(es[1].session) && es[1].session.model == WOUND && es[1].extracted == Some(Topology(es[1]))
  {
    var e, call := Evaluator(AnalysisSession.Fresh(WOUND, 1, 1, DEVICE), None, false, false), Evaluation(GIVEN, Converging(1.0));
    WoundIsSmall();
    SmallEvaluation(e, 1.0);
    ExtendEvaluator([e], [], call);
    es, cs := [e] + [Called(e, call)], [] + [call];
  }

  /** Then ask the session for another mesh. */
  lemma ThenRemeshed() returns (es: seq<Evaluator>, cs: seq<Call>)
    ensures EvaluatorRun(es, cs) && |cs| == 2 && cs[0] == Evaluation(GIVEN, Converging(1.0)) && ExtractedIn(es, 0)
    ensures cs[1] == Analysis(SetMeshingOptions(Finite(20.0), Finite(1.0), false))
    ensures Small(es[1].session) && es[2].session == OptionsSet(es[1].session, Finite(20.0), Finite(1.0), false).0
    ensures Small(es[2].session) && es[2].session.model == WOUND && es[2].extracted == es[1].extracted == Some(Topology(es[1]))
  {
    es, cs := FirstEvaluated();
    var op := SetMeshingOptions(Finite(20.0), Finite(1.0), false);
    OptionsSetKeeps(es[1].session, Finite(20.0), Finite(1.0), false);
    ExtendEvaluator(es, cs, Analysis(op));
    es, cs := es + [Called(es[1], Analysis(op))], cs + [Analysis(op)];
  }

  /** A wound mesh of one node, with as many turns as its topology has. */
  function Turns(): Extractor { (t: nat) => Some([[t as real]]) }

  /** Then evaluate again. */
  lemma ThenEvaluated() returns (es: seq<Evaluator>, cs: seq<Call>)
    ensures EvaluatorRun(es, cs) && |cs| == 3 && ExtractedIn(es, 0)
    ensures cs[0].Evaluation? && cs[1].Analysis? && cs[1].op.SetMeshingOptions? && cs[2].Evaluation?
    ensures es[3].extracted.Some? && es[3].extracted.value != Topology(es[3]) && es[3].session.backend.trial == Some([2.0])
  {
    es, cs := ThenRemeshed();
    var call := Evaluation(GIVEN, Converging(2.0));
    SmallEvaluation(es[2], 2.0);
    RemeshedTopology(es[1].session);
    ExtendEvaluator(es, cs, call);
    es, cs := es + [Called(es[2], call)], cs + [call];
  }

  /** In the second evaluation the weights are those of the mesh before. With as many nodes the linkage
      is that of the old winding; had the old mesh had another number of nodes, nothing comes out. */
  lemma StaleWeightsAreUsed() returns (es: seq<Evaluator>, cs: seq<Call>, p: M.Physics, s: M.Snapshot)
    ensures EvaluatorRun(es, cs) && |cs| == 3 && ExtractedIn(es, 0)
    ensures cs[0].Evaluation? && cs[1].Analysis? && cs[1].op.SetMeshingOptions? && cs[2].Evaluation?
    ensures es[3].extracted.Some? && s.rhs == [2.0] && es[3].session.backend.trial == Some([2.0])
    ensures var was, now := es[3].extracted.value, Topology(es[3]);
      && was != now
      && LinkedWith(Turns(), was, p, s, 2, 1).Some? && LinkedWith(Turns(), now, p, s, 2, 1).Some?
      && LinkedWith(Turns(), was, p, s, 2, 1).value.circuits[0].linkage == 2.0 * was as real
      && LinkedWith(Turns(), now, p, s, 2, 1).value.circuits[0].linkage == 2.0 * now as real
      && LinkedWith(Growing(now, 1, 1), was, p, s, 2, 1).None? && LinkedWith(Growing(now, 1, 1), now, p, s, 2, 1).Some?
  {
    es, cs := ThenEvaluated();
    p, s := M.Simple(), M.Snapshot([2.0], [], 0);
    StaleLinkages(es[3].extracted.value, Topology(es[3]), p, s);
  }

  lemma RemeshedTopology(s: Session)
    requires Small(s) && Small(OptionsSet(s, Finite(20.0), Finite(1.0), false).0)
    ensures var o := OptionsSet(s, Finite(20.0), Finite(1.0), false).0;
      Fitting(o, GIVEN) && Synced(o, GIVEN).0.backend.topology != s.backend.topology
  {
    RemeshIsNewTopology(s, Finite(20.0), Finite(1.0), false, GIVEN);
    SmallSyncs(OptionsSet(s, Finite(20.0), Finite(1.0), false).0);
  }

  lemma StaleLinkages(was: nat, now: nat, p: M.Physics, s: M.Snapshot)
    requires was != now && s.rhs == [2.0]
    ensures LinkedWith(Turns(), was, p, s, 2, 1).Some? && LinkedWith(Turns(), now, p, s, 2, 1).Some?
    ensures LinkedWith(Turns(), was, p, s, 2, 1).value.circuits[0].linkage == 2.0 * was as real
    ensures LinkedWith(Turns(), now, p, s, 2, 1).value.circuits[0].linkage == 2.0 * now as real
    ensures LinkedWith(Growing(now, 1, 1), was, p, s, 2, 1).None? && LinkedWith(Growing(now, 1, 1), now, p, s, 2, 1).Some?
  {
    FirstLinkage(Turns(), was, p, s, 2, 1);
    FirstLinkage(Turns(), now, p, s, 2, 1);
    OneProduct(was as real);
    OneProduct(now as real);
    GrowingAt(now, 1, 1, was);
    GrowingAt(now, 1, 1, now);
    LinkedNeedsShape(Growing(now, 1, 1), was, p, s, 2, 1);
    LinkedNeedsShape(Growing(now, 1, 1), now, p, s, 2, 1);
    assert Growing(now, 1, 1)(was).value[0] == Zeros(2);
  }

  lemma OneProduct(w: real)
    ensures Linkage.Dot([w], [2.0], 1) == 2.0 * w
  {
    assert Linkage.Dot([w], [2.0], 0) == 0.0;
  }

  // ----- the object

  function NamesOf(gaps: seq<Gap>): seq<string> {
    seq(|gaps|, i requires 0 <= i < |gaps| => gaps[i].name)
  }

  /** The evaluator as an object over its session. `extract` stands for what extracting from the
      solver's mesh gives. */
  class SessionEvaluator {
    const analysis: MagneticSession
    const motor: M.PersistentMotorSession
    const extract: Extractor
    var solved: bool
    var initialized: bool
    ghost var extracted: Option<nat>

    constructor (model: Model, mesher: nat, id: nat, setup: Setup, physics: M.Physics, nothing: M.Snapshot, extract: Extractor)
      requires setup.width > 0.0 && mesher > 0
      ensures View() == Evaluator(AnalysisSession.Fresh(model, mesher, id, setup), None, false, false) && Consistent() && Valid(analysis.View())
      ensures fresh(analysis) && fresh(analysis.backend) && fresh(motor) && this.extract == extract && motor.physics == physics
    {
      analysis := new MagneticSession(model, mesher, id, setup);
      motor := new M.PersistentMotorSession(physics, nothing);
      this.extract := extract;
      solved, initialized, extracted := false, false, None;
    }

    ghost function View(): Evaluator
      reads this, analysis, analysis.backend
    {
      Evaluator(analysis.View(), extracted, solved, initialized)
    }

    /** The weights are those of a topology, if there is one. */
    ghost predicate Holds(topology: Option<nat>)
      reads motor
    {
      && motor.directLinkageInitialized == topology.Some?
      && motor.weights == (if topology.Some? then extract(topology.value) else None)
      && (motor.view.Some? ==> topology.Some?)
    }

    ghost predicate Consistent()
      reads this, motor
    {
      Holds(extracted)
    }

    /** Solve through the session. The weights are extracted now, unless they have been before. */
    method SolveTrial(meshed: Meshed, attempts: Attempts) returns (trial: Option<Trial>, ghost answer: Answer)
      requires Valid(analysis.View()) && MeshedSoundly(meshed)
      modifies this, analysis, analysis.backend
      ensures answer.meshed == meshed && Callable(old(View()), Evaluation(answer, attempts))
      ensures View() == Called(old(View()), Evaluation(answer, attempts))
      ensures trial == SolveStep(old(analysis.View()), answer, attempts).1
      ensures Fit(Synced(old(analysis.View()), answer).0, attempts) ==> Valid(analysis.View())
      ensures trial.Some? ==> trial.value.field.Some?
      ensures trial.None? ==> extracted == old(extracted)
      ensures trial.Some? ==> extracted == if old(extracted).Some? then old(extracted) else Some(analysis.backend.topologyIdentity)
    {
      ghost var before := analysis.View();
      trial, answer := analysis.Solve(meshed, attempts);
      SolvedHasField(before, answer, attempts);
      Note(trial.Some?);
    }

    /** The mesh that counts is the one of the first extraction. */
    method Note(issued: bool)
      modifies this`solved, this`extracted
      ensures View() == Noted(old(View()), issued)
    {
      if issued {
        solved := true;
        if extracted.None? {
          extracted := Some(analysis.backend.topologyIdentity);
        }
      }
    }

    /** Once: initialize the session; if anything has been solved, open the physical view and extract
        the weights. */
    method Initialize(meshed: Meshed, attempts: Attempts, opens: bool, rest: nat) returns (ok: bool, ghost answer: Answer, ghost viewed: bool)
      requires Valid(analysis.View()) && MeshedSoundly(meshed) && Consistent()
      modifies this, analysis, analysis.backend, motor
      ensures Consistent()
      ensures old(initialized) ==> ok && View() == old(View())
      ensures !old(initialized) ==>
        && answer.meshed == meshed && Fitting(old(analysis.View()), answer)
        && var (s, done) := InitializeStep(old(analysis.View()), answer, attempts);
           (View(), ok) == Begun(old(View()).(session := s, solved := old(solved) || FirstSolve(old(analysis.View()), s)), done, viewed)
    {
      viewed := opens;
      answer := Answer(meshed, Failed(InvalidRingTopology));
      if initialized {
        return true, answer, viewed;
      }
      ok, answer := InitializeSession(meshed, attempts);
      ok, viewed := FinishInitialization(ok, opens, rest);
    }

    method FinishInitialization(done: bool, opens: bool, rest: nat) returns (ok: bool, ghost viewed: bool)
      requires Consistent() && !initialized
      modifies this`initialized, this`extracted, motor
      ensures Consistent() && (View(), ok) == Begun(old(View()), done, viewed)
    {
      ok, viewed := done, opens;
      if ok && solved {
        ok := OpenView(opens, rest);
        viewed := ok;
        if ok {
          motor.InitializeDirectLinkageExtractor(extract(analysis.backend.topologyIdentity));
          if extracted.None? {
            extracted := Some(analysis.backend.topologyIdentity);
          }
        }
      }
      initialized := ok;
    }

    method InitializeSession(meshed: Meshed, attempts: Attempts) returns (ok: bool, ghost answer: Answer)
      requires Valid(analysis.View()) && MeshedSoundly(meshed)
      modifies this`solved, analysis, analysis.backend
      ensures answer.meshed == meshed && Fitting(old(analysis.View()), answer)
      ensures (analysis.View(), ok) == InitializeStep(old(analysis.View()), answer, attempts)
      ensures solved == (old(solved) || FirstSolve(old(analysis.View()), analysis.View()))
    {
      var before := analysis.backend.initialized;
      ok, answer := analysis.Initialize(meshed, attempts);
      solved := solved || (analysis.backend.initialized && !before);
    }

    /** Open the physical view, unless it is open; without a solved field that fails. */
    method OpenView(opens: bool, rest: nat) returns (ok: bool)
      modifies motor`solver, motor`view
      ensures motor.view.Some? ==> ok
      ensures !ok ==> motor.view == old(motor.view)
    {
      if motor.view.Some? {
        return true;
      }
      if !opens || analysis.backend.lastSystem.None? {
        return false;
      }
      motor.solver := Shown(analysis.backend.lastSystem.value.rhs, rest);
      ok := motor.RefreshPhysicalView(false, true);
    }

    /** What the solver shows once a trial is solved. `rest` numbers the part of the snapshot that is
        neither field nor gap name. */
    function Shown(field: Field, rest: nat): M.Snapshot
      reads analysis.backend
    {
      M.Snapshot(field, NamesOf(analysis.backend.agelist), rest)
    }

    /** Solve through the session, then evaluate what the solver shows with the weights there are. */
    method EvaluateTrial(meshed: Meshed, attempts: Attempts, level: M.Level, rest: nat, refreshes: bool)
      returns (r: Option<M.Trial>, trial: Option<Trial>, ghost answer: Answer)
      requires Valid(analysis.View()) && MeshedSoundly(meshed) && Consistent()
      modifies this, analysis, analysis.backend, motor
      ensures Consistent() && answer.meshed == meshed && Callable(old(View()), Evaluation(answer, attempts))
      ensures View() == Called(old(View()), Evaluation(answer, attempts))
      ensures trial == SolveStep(old(analysis.View()), answer, attempts).1
      ensures Fit(Synced(old(analysis.View()), answer).0, attempts) ==> Valid(analysis.View())
      ensures trial.None? ==> r.None?
      ensures trial.Some? ==> trial.value.field.Some? && extracted.Some?
      ensures r.Some? ==> r == M.Results(motor.physics, extract(extracted.value), Shown(trial.value.field.value, rest),
                                         M.Bare(trial.value.id, |analysis.model.circuits|), level)
      ensures trial.Some? && level.ResidualOnly? && extract(extracted.value).Some? ==>
        r == LinkedWith(extract, extracted.value, motor.physics, Shown(trial.value.field.value, rest), trial.value.id, |analysis.model.circuits|)
    {
      trial, answer := SolveTrial(meshed, attempts);
      r := EvaluateSolved(trial, level, rest, refreshes, old(extracted));
    }

    /** Evaluate a trial that has just been solved. */
    method EvaluateSolved(trial: Option<Trial>, level: M.Level, rest: nat, refreshes: bool, ghost was: Option<nat>) returns (r: Option<M.Trial>)
      requires Holds(was) && (trial.Some? ==> trial.value.field.Some?)
      requires extracted == if trial.None? || was.Some? then was else Some(analysis.backend.topologyIdentity)
      modifies motor
      ensures Consistent() && (trial.None? ==> r.None?)
      ensures r.Some? ==> r == M.Results(motor.physics, extract(extracted.value), Shown(trial.value.field.value, rest),
                                         M.Bare(trial.value.id, |analysis.model.circuits|), level)
      ensures trial.Some? && level.ResidualOnly? && extract(extracted.value).Some? ==>
        r == LinkedWith(extract, extracted.value, motor.physics, Shown(trial.value.field.value, rest), trial.value.id, |analysis.model.circuits|)
    {
      var solvedNow: Option<(nat, M.Snapshot)> :=
        if trial.Some? then Some((trial.value.id, Shown(trial.value.field.value, rest))) else None;
      r := motor.EvaluateTrial(solvedNow, |analysis.model.circuits|, level, extract(analysis.backend.topologyIdentity), refreshes);
    }
  }

  lemma SolvedHasField(s: Session, a: Answer, attempts: Attempts)
    requires Valid(s) && Fitting(s, a)
    ensures SolveStep(s, a, attempts).1.Some? ==> SolveStep(s, a, attempts).1.value.field.Some?
  {
  }
}
