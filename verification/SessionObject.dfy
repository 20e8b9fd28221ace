/** The session as an object over its solver: every public method takes the step its specification says. */
module SessionObject {
  import opened Wrappers
  import opened Angles
  import opened AirGapRing
  import opened AirGapPosition
  import opened Bucket
  import opened GapPlacement
  import opened SolverBackend
  import opened BackendRuns
  import opened SessionModel
  import opened AnalysisSession
  import opened SessionKeeps

  class MagneticSession {
    const id: nat
    const backend: FSolverAnalysisBackend
    var model: Model
    var parameters: Parameters
    var prepared: Prepared
    var dirty: set<Flag>
    var mesher: nat
    var meshingOptions: Options
    var mesh: Option<Mesh>
    var meshTopologyIdentity: nat
    var meshGenerations: nat
    var modelRevision: nat
    var parameterRevision: nat
    var nextSolutionId: nat

    ghost function View(): Session
      reads this, backend
    {
      Session(model, parameters, prepared, dirty, mesher, meshingOptions, mesh, meshTopologyIdentity, meshGenerations,
              modelRevision, parameterRevision, nextSolutionId, id, backend.View())
    }

    constructor (model: Model, mesher: nat, id: nat, setup: Setup)
      requires setup.width > 0.0 && mesher > 0
      ensures View() == AnalysisSession.Fresh(model, mesher, id, setup) && Valid(View()) && fresh(backend)
    {
      this.id := id;
      backend := new FSolverAnalysisBackend(setup);
      this.model, parameters, prepared := model, InitialParameters(model), Prepared([], [], map[], 0.0);
      dirty, this.mesher, meshingOptions, mesh := ALL, mesher, Options(0.0, 0.0, false), None;
      meshTopologyIdentity, meshGenerations := 0, 0;
      modelRevision, parameterRevision, nextSolutionId := 1, 1, 1;
      new;
      FreshIsValid(model, mesher, id, setup);
    }

    // ----- setters

    method Invalidate(flags: set<Flag>)
      modifies this`dirty
      ensures View() == Invalidated(old(View()), flags)
    {
      dirty := dirty + flags + {SolveState};
    }

    /** Take new parameters: one revision on, and dirty. */
    method Reparametrize(p: Parameters, flags: set<Flag>)
      modifies this`parameters, this`parameterRevision, this`dirty
      ensures View() == Reparametrized(old(View()), p, flags)
    {
      parameters := p;
      parameterRevision := parameterRevision + 1;
      Invalidate(flags);
    }

    method SetMesher(m: nat) returns (ok: bool)
      requires Valid(View())
      modifies this
      ensures Valid(View()) && (View(), ok) == MesherSet(old(View()), m)
    {
      MesherSetKeeps(View(), m);
      if m == 0 {
        return false;
      }
      if mesher == m {
        return true;
      }
      mesher := m;
      DropMesh();
      ok := true;
    }

    /** Ask for a new mesh. */
    method DropMesh()
      modifies this`mesh, this`dirty
      ensures View() == Invalidated(old(View()).(mesh := None), {Meshes, Operator, RightHandSide})
    {
      mesh := None;
      Invalidate({Meshes, Operator, RightHandSide});
    }

    method SetMeshingOptions(minimumAngle: Number, elementSize: Number, exact: bool) returns (ok: bool)
      requires Valid(View())
      modifies this
      ensures Valid(View()) && (View(), ok) == OptionsSet(old(View()), minimumAngle, elementSize, exact)
    {
      OptionsSetKeeps(View(), minimumAngle, elementSize, exact);
      if !minimumAngle.Finite? || minimumAngle.value < 0.0 || !elementSize.Finite? || elementSize.value < 0.0 {
        return false;
      }
      meshingOptions := Options(minimumAngle.value, elementSize.value, exact);
      DropMesh();
      ok := true;
    }

    /** Current, voltage, open or coupled: a prescribed current leaves the operator alone. */
    method SetCircuit(circuit: nat, c: Constraint) returns (ok: bool)
      requires Valid(View())
      modifies this
      ensures Valid(View()) && (View(), ok) == CircuitSet(old(View()), circuit, c)
    {
      CircuitSetKeeps(View(), circuit, c);
      if circuit >= |model.circuits| {
        return false;
      }
      Reparametrize(parameters.(constraints := parameters.constraints[circuit := c]),
                    if c.kind.PrescribedCurrent? then {RightHandSide} else {RightHandSide, Operator});
      ok := true;
    }

    method SetAirGapAngle(gap: nat, inner: Number, outer: Number) returns (ok: bool)
      requires Valid(View())
      modifies this
      ensures Valid(View()) && (View(), ok) == AngleSet(old(View()), gap, inner, outer)
    {
      AngleSetKeeps(View(), gap, inner, outer);
      if gap >= |model.lines| || !model.lines[gap].airGap || inner.NonFinite? || outer.NonFinite? {
        return false;
      }
      var position := Position(CanonicalDegrees(inner.value), CanonicalDegrees(outer.value));
      Reparametrize(parameters.(gaps := parameters.gaps[gap := position]), {Coupling, Operator});
      ok := true;
    }

    method SetFrequency(f: Number) returns (ok: bool)
      requires Valid(View())
      modifies this
      ensures Valid(View()) && (View(), ok) == FrequencySet(old(View()), f)
    {
      FrequencySetKeeps(View(), f);
      if f.NonFinite? || f.value < 0.0 {
        return false;
      }
      Reparametrize(parameters.(frequency := f.value), {Materials, Operator, RightHandSide});
      ok := true;
    }

    method SetTime(t: Number) returns (ok: bool)
      requires Valid(View())
      modifies this
      ensures Valid(View()) && (View(), ok) == TimeSet(old(View()), t)
    {
      TimeSetKeeps(View(), t);
      if t.NonFinite? {
        return false;
      }
      Reparametrize(parameters.(time := t.value), {});
      ok := true;
    }

    method SetInitialState(state: Option<AcceptedState>) returns (ok: bool)
      requires Valid(View())
      modifies this
      ensures Valid(View()) && (View(), ok) == InitialSet(old(View()), state)
    {
      InitialSetKeeps(View(), state);
      if state.Some? && state.value.modelRevision != modelRevision {
        return false;
      }
      Reparametrize(parameters.(initial := state), {InitialState});
      ok := true;
    }

    method SetMaterialProperty(material: nat, property: Property, v: PropertyValue) returns (ok: bool)
      requires Valid(View())
      modifies this
      ensures Valid(View()) && (View(), ok) == PropertySet(old(View()), material, property, v)
    {
      PropertySetKeeps(View(), material, property, v);
      if material >= |model.materials| || model.materials[material].OtherMaterial? {
        return false;
      }
      var changed := WithProperty(model.materials[material].material, property, v);
      if changed.None? {
        return false;
      }
      ReplaceMaterial(material, changed.value);
      ok := true;
    }

    /** The changed material: one model revision on, and dirty. */
    method ReplaceMaterial(material: nat, m: Material)
      requires material < |model.materials|
      modifies this`model, this`modelRevision, this`dirty
      ensures View() == Invalidated(old(View()).(model := old(model).(materials := old(model).materials[material := Magnetic(m)]),
                                                 modelRevision := old(modelRevision) + 1), {Materials, Operator})
    {
      model := model.(materials := model.materials[material := Magnetic(m)]);
      modelRevision := modelRevision + 1;
      Invalidate({Materials, Operator});
    }

    /** Several changes at once; `proposal` is what the caller makes of the present parameters. */
    method UpdateSolveParameters(proposal: Proposal) returns (ok: bool)
      requires Valid(View())
      modifies this
      ensures Valid(View()) && (View(), ok) == Updated(old(View()), proposal)
    {
      UpdatedKeeps(View(), proposal);
      if !Admissible(model, modelRevision, proposal) {
        return false;
      }
      var candidate := Canonical(proposal);
      var changed: set<Flag> := {};
      if candidate.frequency != parameters.frequency {
        changed := changed + {Materials, Operator, RightHandSide};
      }
      if candidate.constraints != parameters.constraints {
        changed := changed + {RightHandSide, Operator};
      }
      if candidate.gaps != parameters.gaps {
        changed := changed + {Coupling, Operator};
      }
      if candidate.initial != parameters.initial {
        changed := changed + {InitialState};
      }
      assert changed == Changes(parameters, candidate);
      Reparametrize(candidate, changed);
      ok := true;
    }

    // ----- synchronize

    method EnsureMesh(meshed: Meshed) returns (ok: bool)
      requires Valid(View()) && MeshedSoundly(meshed)
      modifies this
      ensures Valid(View()) && (View(), ok) == WithMesh(old(View()), meshed)
    {
      WithMeshBacked(View(), meshed);
      if mesh.Some? && Meshes !in dirty {
        return true;
      }
      match meshed {
        case MesherThrew =>
          ok := false;
        case NotMade =>
          meshGenerations := meshGenerations + 1;
          ok := false;
        case Made(m) =>
          AdoptMesh(m);
          ok := true;
      }
    }

    /** A new mesh under a new number. */
    method AdoptMesh(m: Mesh)
      modifies this`mesh, this`meshGenerations, this`meshTopologyIdentity, this`dirty
      ensures View() == old(View()).(generations := old(meshGenerations) + 1, mesh := Some(m), topology := old(meshTopologyIdentity) + 1,
                                     dirty := old(dirty) - {Meshes})
    {
      meshGenerations, meshTopologyIdentity := meshGenerations + 1, meshTopologyIdentity + 1;
      mesh := Some(m);
      dirty := dirty - {Meshes};
    }

    method RebuildMaterials() returns (r: Option<seq<PreparedMaterial>>)
      ensures r.Some? <==> AllMagnetic(model.materials)
      ensures r.Some? ==> r.value == PreparedMaterials(model, parameters.frequency)
    {
      var materials: seq<PreparedMaterial> := [];
      var i := 0;
      while i < |model.materials|
        invariant 0 <= i <= |model.materials| && |materials| == i
        invariant forall k :: 0 <= k < i ==> model.materials[k].Magnetic? && materials[k] == Prepare(model.materials[k].material, parameters.frequency)
      {
        if model.materials[i].OtherMaterial? {
          return None;
        }
        materials := materials + [Prepare(model.materials[i].material, parameters.frequency)];
        i := i + 1;
      }
      r := Some(materials);
    }

    method RebuildCircuits() returns (r: Option<seq<PreparedCircuit>>)
      ensures r.Some? <==> AllLinked(model, parameters.constraints, |model.labels|)
      ensures r.Some? ==> r.value == PreparedCircuits(model, parameters.constraints, |model.labels|)
    {
      var circuits: seq<PreparedCircuit> := [];
      var l := 0;
      while l < |model.labels|
        invariant 0 <= l <= |model.labels| && AllLinked(model, parameters.constraints, l)
        invariant circuits == PreparedCircuits(model, parameters.constraints, l)
      {
        var block := model.labels[l];
        if block.magnetic && block.inCircuit >= 0 {
          if block.inCircuit >= |model.circuits| || block.inCircuit !in parameters.constraints {
            assert !Linked(model, parameters.constraints, l);
            return None;
          }
          circuits := circuits + [PreparedCircuit(block.inCircuit, l, block.turns, parameters.constraints[block.inCircuit])];
        }
        assert Linked(model, parameters.constraints, l);
        l := l + 1;
      }
      r := Some(circuits);
    }

    /** The prepared parts with the dirty ones rebuilt. */
    method PrepareCandidate() returns (r: Option<Prepared>)
      ensures r == Candidate(View())
    {
      var candidate := prepared;
      if Materials in dirty {
        var materials := RebuildMaterials();
        if materials.None? {
          return None;
        }
        candidate := candidate.(materials := materials.value, frequency := parameters.frequency);
      }
      if Circuits in dirty || RightHandSide in dirty {
        var circuits := RebuildCircuits();
        if circuits.None? {
          return None;
        }
        candidate := candidate.(circuits := circuits.value);
      }
      if Coupling in dirty {
        candidate := candidate.(gaps := parameters.gaps);
      }
      r := Some(candidate);
    }

    method Synchronize(meshed: Meshed) returns (ok: bool, ghost answer: Answer)
      requires Valid(View()) && MeshedSoundly(meshed)
      modifies this, backend
      ensures answer.meshed == meshed && Fitting(old(View()), answer)
      ensures (View(), ok) == Synced(old(View()), answer)
      ensures Valid(View()) && (ok ==> Settled(View()))
    {
      answer := Answer(meshed, Failed(InvalidRingTopology));
      ghost var before := View();
      if dirty == {} || dirty == {SolveState} {
        return true, answer;
      }
      assert !Settled(before);
      ok := EnsureMesh(meshed);
      if ok {
        ghost var built;
        ok, built := Deliver();
        answer := Answer(meshed, built);
      }
      assert Builds(before, answer);
      SyncedKeeps(before, answer);
    }

    /** Prepare what is dirty and hand it over. */
    method Deliver() returns (ok: bool, ghost built: Outcome<BucketDefinition, PositionError>)
      requires Backed(View()) && mesh.Some? && SoundMesh(mesh.value)
      modifies this`prepared, this`dirty, backend
      ensures Candidate(old(View())).Some? ==> BuildsIt(old(View()), Candidate(old(View())).value, built)
      ensures (View(), ok) == Delivered(old(View()), built)
    {
      built := Failed(InvalidRingTopology);
      var candidate := PrepareCandidate();
      if candidate.None? {
        return false, built;
      }
      ok, built := HandOver(candidate.value);
    }

    /** Let the solver take the mesh and the candidate; adopt the candidate if it does. */
    method HandOver(candidate: Prepared) returns (ok: bool, ghost built: Outcome<BucketDefinition, PositionError>)
      requires Backed(View()) && mesh.Some? && SoundMesh(mesh.value)
      modifies this`prepared, this`dirty, backend
      ensures BuildsIt(old(View()), candidate, built)
      ensures var h := Handed(old(View()), candidate, built);
        && ok == h.1
        && View() == if ok then old(View()).(backend := h.0, prepared := candidate, dirty := {SolveState}) else old(View()).(backend := h.0)
    {
      ok, built := backend.Synchronize(Configurable(model, parameters.constraints), Names(model), Asked(model, candidate.gaps),
                                       mesh.value, meshTopologyIdentity, Coupling in dirty);
      if ok {
        prepared := candidate;
        dirty := {SolveState};
      }
    }

    // ----- solve, initialize, accept, roll back

    method Solve(meshed: Meshed, attempts: Attempts) returns (trial: Option<Trial>, ghost answer: Answer)
      requires Valid(View()) && MeshedSoundly(meshed)
      modifies this, backend
      ensures answer.meshed == meshed && Fitting(old(View()), answer)
      ensures (View(), trial) == SolveStep(old(View()), answer, attempts)
      ensures Fit(Synced(old(View()), answer).0, attempts) ==> Valid(View())
    {
      ghost var before := View();
      var ok;
      ok, answer := Synchronize(meshed);
      if Fit(Synced(before, answer).0, attempts) {
        SolveStepKeeps(before, answer, attempts);
      }
      if !ok {
        return None, answer;
      }
      trial := Evaluate(attempts);
    }

    method Evaluate(attempts: Attempts) returns (trial: Option<Trial>)
      modifies this`nextSolutionId, this`dirty, backend
      ensures (View(), trial) == Evaluated(old(View()), attempts)
    {
      var field := backend.Solve(Configurable(model, parameters.constraints), parameters.frequency == 0.0, attempts.first, attempts.second);
      if field.None? {
        return None;
      }
      trial := Some(Trial(nextSolutionId, id, modelRevision, parameterRevision, parameters.time, field));
      nextSolutionId := nextSolutionId + 1;
      dirty := {};
    }

    method Initialize(meshed: Meshed, attempts: Attempts) returns (ok: bool, ghost answer: Answer)
      requires Valid(View()) && MeshedSoundly(meshed)
      modifies this, backend
      ensures answer.meshed == meshed && Fitting(old(View()), answer)
      ensures (View(), ok) == InitializeStep(old(View()), answer, attempts)
      ensures Fit(Synced(old(View()), answer).0, attempts) ==> Valid(View())
    {
      ghost var before := View();
      ok, answer := Synchronize(meshed);
      if Fit(Synced(before, answer).0, attempts) {
        InitializeStepKeeps(before, answer, attempts);
      }
      if ok {
        ok := backend.Initialize(Configurable(model, parameters.constraints), parameters.frequency == 0.0, attempts.first, attempts.second);
      }
    }

    method AcceptSolution(t: Trial) returns (state: Option<AcceptedState>)
      requires Valid(View())
      modifies this, backend
      ensures Valid(View()) && (View(), state) == AcceptStep(old(View()), t)
    {
      AcceptStepKeeps(View(), t);
      if t.session != id || t.modelRevision != modelRevision || t.parameterRevision != parameterRevision || t.id == 0 {
        return None;
      }
      backend.CommitTrial();
      state := Some(AcceptedState(t.session, t.id, t.modelRevision, t.parameterRevision, t.time, t.field));
      Reparametrize(parameters.(initial := state), {InitialState});
    }

    method RollbackToCommitted() returns (ok: bool)
      requires Valid(View())
      modifies this, backend
      ensures Valid(View()) && (View(), ok) == RollbackStep(old(View()))
    {
      RollbackStepKeeps(View());
      ok := backend.RollbackToCommitted();
      if ok {
        Invalidate({InitialState});
      }
    }
  }
}
