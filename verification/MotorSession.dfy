/** The motor evaluator: results are added to a trial level by level, from a physical view that is
    refreshed only as far as a level needs it. */
module MotorSession {
  import opened Wrappers
  import opened SolverBackend
  import Linkage
  import Reals

  /** What the solver shows: its field in potentials, its gaps, and a number for the rest of it. */
  datatype Snapshot = Snapshot(rhs: seq<real>, gaps: seq<string>, rest: nat)

  /** What each part of the post-processor's copy was last refreshed from. */
  datatype View = View(volume: Snapshot, nodal: Snapshot, gap: Snapshot)

  /** The post-processor's integrals, as functions of what they read. */
  datatype Physics = Physics(
    flux: (Snapshot, Snapshot, nat) -> real,
    stranded: (Snapshot, Snapshot, nat) -> Option<real>,
    energy: (Snapshot, Snapshot) -> real,
    coenergy: (Snapshot, Snapshot) -> real,
    torque: (Snapshot, nat) -> Option<real>,
    harmonics: (Snapshot, nat) -> seq<real>,
    gapEnergy: (Snapshot, nat) -> Option<real>)

  datatype Level = ResidualOnly | AcceptedState | FullDiagnostics

  function Rank(level: Level): nat {
    match level case ResidualOnly => 0 case AcceptedState => 1 case FullDiagnostics => 2
  }

  predicate AtLeast(l: Level, r: Level) { Rank(l) >= Rank(r) }

  function Higher(l: Level, r: Level): Level { if AtLeast(l, r) then l else r }

  datatype Circuit = Circuit(linkage: real, conventional: Option<real>, stranded: Option<real>)

  datatype GapResult = GapResult(name: string, torque: real, harmonics: seq<real>)

  datatype Trial = Trial(id: nat, circuits: seq<Circuit>, gaps: seq<GapResult>, torque: real, energy: real, coenergy: real, level: Level)

  /** A trial as the solver issues it. */
  function Bare(id: nat, circuits: nat): Trial {
    Trial(id, seq(circuits, _ => Circuit(0.0, None, None)), [], 0.0, 0.0, 0.0, ResidualOnly)
  }

  /** One weight vector per circuit, when the direct form is available. */
  type Weights = Option<seq<seq<real>>>

  // ----- what the results are, for a view refreshed from one snapshot

  predicate Agree(linkage: real, reference: real) {
    Reals.Abs(linkage - reference) <= 0.0000000000001 + 0.0000000001 * Reals.Greater(Reals.Abs(linkage), Reals.Abs(reference))
  }

  /** The results of one circuit. */
  function CircuitOf(p: Physics, w: Weights, s: Snapshot, i: nat, validate: bool, old_: Circuit): Option<Circuit>
    requires w.Some? ==> i < |w.value|
  {
    if w.Some? && |w.value[i]| != |s.rhs| then None
    else
      var conventional, reference := p.flux(s, s, i), p.stranded(s, s, i);
      var linkage := if w.Some? then Linkage.Dot(w.value[i], s.rhs, |s.rhs|) else if reference.Some? then reference.value else conventional;
      if validate && reference.Some? && !Agree(linkage, reference.value) then None
      else
        Some(Circuit(linkage,
                     if w.Some? && !validate then old_.conventional else Some(conventional),
                     if w.Some? then Some(linkage) else if reference.Some? then reference else old_.stranded))
  }

  /** The first `upTo` circuits with their linkages. */
  function Linkages(p: Physics, w: Weights, s: Snapshot, validate: bool, circuits: seq<Circuit>, upTo: nat): (r: Option<seq<Circuit>>)
    requires upTo <= |circuits| && (w.Some? ==> |w.value| == |circuits|)
    ensures r.Some? ==> |r.value| == upTo
  {
    if upTo == 0 then Some([])
    else
      var before, one := Linkages(p, w, s, validate, circuits, upTo - 1), CircuitOf(p, w, s, upTo - 1, validate, circuits[upTo - 1]);
      if before.None? || one.None? then None else Some(before.value + [one.value])
  }

  function WithLinkages(p: Physics, w: Weights, s: Snapshot, t: Trial, validate: bool): Option<Trial> {
    if w.Some? && |w.value| != |t.circuits| then None
    else
      var circuits := Linkages(p, w, s, validate, t.circuits, |t.circuits|);
      if circuits.None? then None else Some(t.(circuits := circuits.value))
  }

  /** The first `upTo` gaps and their torques added up. */
  function GapResults(p: Physics, s: Snapshot, packaged: bool, upTo: nat): (r: Option<(seq<GapResult>, real)>)
    requires upTo <= |s.gaps|
    ensures r.Some? ==> |r.value.0| == upTo
  {
    if upTo == 0 then Some(([], 0.0))
    else
      var before, torque := GapResults(p, s, packaged, upTo - 1), p.torque(s, upTo - 1);
      if before.None? || torque.None? then None
      else
        Some((before.value.0 + [GapResult(s.gaps[upTo - 1], torque.value, if packaged then p.harmonics(s, upTo - 1) else [])],
              before.value.1 + torque.value))
  }

  function WithTorque(p: Physics, s: Snapshot, t: Trial, packaged: bool): Option<Trial> {
    var gaps := GapResults(p, s, packaged, |s.gaps|);
    if gaps.None? then None else Some(t.(gaps := gaps.value.0, torque := gaps.value.1))
  }

  function GapEnergies(p: Physics, s: Snapshot, upTo: nat): Option<real>
    requires upTo <= |s.gaps|
  {
    if upTo == 0 then Some(0.0)
    else
      var before, one := GapEnergies(p, s, upTo - 1), p.gapEnergy(s, upTo - 1);
      if before.None? || one.None? then None else Some(before.value + one.value)
  }

  function WithEnergies(p: Physics, s: Snapshot, t: Trial): Option<Trial> {
    var gaps := GapEnergies(p, s, |s.gaps|);
    if gaps.None? then None else Some(t.(energy := p.energy(s, s) + gaps.value, coenergy := p.coenergy(s, s) + gaps.value))
  }

  function Then(t: Option<Trial>, f: Trial -> Option<Trial>): Option<Trial> {
    if t.None? then None else f(t.value)
  }

  /** Linkages checked, torque with harmonics, energies. */
  function Diagnosed(p: Physics, w: Weights, s: Snapshot, t: Trial): Option<Trial> {
    Then(Then(Then(WithLinkages(p, w, s, t, true), (u: Trial) => WithTorque(p, s, u, true)), (u: Trial) => WithEnergies(p, s, u)),
         (u: Trial) => Some(u.(level := FullDiagnostics)))
  }

  /** A bare trial evaluated at a level. */
  function Results(p: Physics, w: Weights, s: Snapshot, t: Trial, level: Level): Option<Trial> {
    match level
    case FullDiagnostics => Diagnosed(p, w, s, t)
    case AcceptedState =>
      Then(Then(WithLinkages(p, w, s, t, false), (u: Trial) => WithTorque(p, s, u, false)), (u: Trial) => Some(u.(level := AcceptedState)))
    case ResidualOnly => Then(WithLinkages(p, w, s, t, false), (u: Trial) => Some(u.(level := ResidualOnly)))
  }

  /** A trial completed to a level. */
  function Promoted(p: Physics, w: Weights, s: Snapshot, t: Trial, level: Level): Option<Trial> {
    if AtLeast(t.level, level) then Some(t)
    else if level.FullDiagnostics? then Diagnosed(p, w, s, t)
    else Then(WithTorque(p, s, t, false), (u: Trial) => Some(u.(level := level)))
  }

  // ----- the results in numbers

  /** A residual evaluation gives one linkage per circuit and, as yet, no gaps, torque or energies. */
  lemma ResidualHasLinkagesOnly(p: Physics, w: Weights, s: Snapshot, id: nat, circuits: nat)
    ensures var r := Results(p, w, s, Bare(id, circuits), ResidualOnly);
      && (w.Some? && |w.value| != circuits ==> r.None?)
      && (r.Some? ==>
            && r.value.id == id && |r.value.circuits| == circuits && r.value.level == ResidualOnly
            && r.value.gaps == [] && r.value.torque == 0.0 && r.value.energy == 0.0 && r.value.coenergy == 0.0)
  {
  }

  /** Two linkages agree when they differ by at most 1e-13 and 1e-10 of the larger one. */
  lemma AgreeIff(linkage: real, reference: real, larger: real)
    requires larger >= linkage && larger >= -linkage && larger >= reference && larger >= -reference
    requires larger in {linkage, -linkage, reference, -reference}
    ensures Agree(linkage, reference) <==>
      -(0.0000000000001 + 0.0000000001 * larger) <= linkage - reference <= 0.0000000000001 + 0.0000000001 * larger
  {
  }

  /** With weights a circuit's linkage is their product with the field; without, it is the stranded
      linkage, or where there is none the conventional one. It fails when the field has another size
      than the weights, or when checking finds a stranded linkage that does not agree. */
  lemma CircuitIs(p: Physics, w: Weights, s: Snapshot, i: nat, validate: bool, was: Circuit)
    requires w.Some? ==> i < |w.value|
    ensures var r, conventional, reference := CircuitOf(p, w, s, i, validate, was), p.flux(s, s, i), p.stranded(s, s, i);
      && (w.None? && reference.None? ==> r == Some(Circuit(conventional, Some(conventional), was.stranded)))
      && (w.None? && reference.Some? ==> r == Some(Circuit(reference.value, Some(conventional), reference)))
      && (w.Some? && |w.value[i]| != |s.rhs| ==> r.None?)
      && (w.Some? && |w.value[i]| == |s.rhs| && !validate ==>
            var x := Linkage.Dot(w.value[i], s.rhs, |s.rhs|); r == Some(Circuit(x, was.conventional, Some(x))))
      && (w.Some? && |w.value[i]| == |s.rhs| && validate ==>
            var x := Linkage.Dot(w.value[i], s.rhs, |s.rhs|);
            r == if reference.Some? && !Agree(x, reference.value) then None else Some(Circuit(x, Some(conventional), Some(x))))
  {
    if p.stranded(s, s, i).Some? {
      SelfAgrees(p.stranded(s, s, i).value);
    }
  }

  lemma SelfAgrees(x: real)
    ensures Agree(x, x)
  {
  }

  function Torques(gaps: seq<GapResult>): (r: seq<real>)
    ensures |r| == |gaps| && forall k :: 0 <= k < |r| ==> r[k] == gaps[k].torque
  {
    seq(|gaps|, k requires 0 <= k < |gaps| => gaps[k].torque)
  }

  lemma {:induction false} GapResultsThere(p: Physics, s: Snapshot, packaged: bool, upTo: nat)
    requires upTo <= |s.gaps|
    ensures GapResults(p, s, packaged, upTo).Some? <==> forall k: nat :: k < upTo ==> p.torque(s, k).Some?
  {
    if upTo > 0 {
      GapResultsThere(p, s, packaged, upTo - 1);
    }
  }

  lemma {:induction false} GapResultAt(p: Physics, s: Snapshot, packaged: bool, upTo: nat, k: nat)
    requires k < upTo <= |s.gaps| && GapResults(p, s, packaged, upTo).Some?
    ensures var one := GapResults(p, s, packaged, upTo).value.0[k];
      && one.name == s.gaps[k] && Some(one.torque) == p.torque(s, k)
      && one.harmonics == if packaged then p.harmonics(s, k) else []
  {
    if k < upTo - 1 {
      GapResultAt(p, s, packaged, upTo - 1, k);
    }
  }

  lemma TorquesNext(before: seq<GapResult>, one: GapResult)
    ensures Torques(before + [one]) == Torques(before) + [one.torque]
  {
  }

  lemma {:induction false} GapTorqueIsSum(p: Physics, s: Snapshot, packaged: bool, upTo: nat)
    requires upTo <= |s.gaps| && GapResults(p, s, packaged, upTo).Some?
    ensures GapResults(p, s, packaged, upTo).value.1 == Reals.Sum(Torques(GapResults(p, s, packaged, upTo).value.0))
  {
    if upTo == 0 {
      assert Torques([]) == [];
    } else {
      GapTorqueIsSum(p, s, packaged, upTo - 1);
      var before, torque := GapResults(p, s, packaged, upTo - 1).value.0, p.torque(s, upTo - 1).value;
      Reals.SumNext(Torques(before), torque);
      TorquesNext(before, GapResult(s.gaps[upTo - 1], torque, if packaged then p.harmonics(s, upTo - 1) else []));
    }
  }

  /** The torque is the sum of the torques of all gaps, each of which is listed with its own name, torque
      and, if wanted, harmonics; it is there exactly when they all are. */
  lemma TorqueIsSum(p: Physics, s: Snapshot, t: Trial, packaged: bool)
    ensures WithTorque(p, s, t, packaged).Some? <==> forall k: nat :: k < |s.gaps| ==> p.torque(s, k).Some?
    ensures WithTorque(p, s, t, packaged).Some? ==>
      var r := WithTorque(p, s, t, packaged).value;
      && r == t.(gaps := r.gaps, torque := Reals.Sum(Torques(r.gaps))) && |r.gaps| == |s.gaps|
      && forall k: nat :: k < |s.gaps| ==>
           r.gaps[k].name == s.gaps[k] && Some(r.gaps[k].torque) == p.torque(s, k) && r.gaps[k].harmonics == if packaged then p.harmonics(s, k) else []
  {
    GapResultsThere(p, s, packaged, |s.gaps|);
    if WithTorque(p, s, t, packaged).Some? {
      GapTorqueIsSum(p, s, packaged, |s.gaps|);
      var r := WithTorque(p, s, t, packaged).value;
      forall k: nat | k < |s.gaps|
        ensures r.gaps[k].name == s.gaps[k] && Some(r.gaps[k].torque) == p.torque(s, k)
        ensures r.gaps[k].harmonics == if packaged then p.harmonics(s, k) else []
      {
        GapResultAt(p, s, packaged, |s.gaps|, k);
      }
    }
  }

  function GapEnergyList(p: Physics, s: Snapshot, upTo: nat): (r: seq<real>)
    ensures |r| == upTo && forall k :: 0 <= k < upTo ==> p.gapEnergy(s, k) == Some(r[k]) || p.gapEnergy(s, k).None?
  {
    seq(upTo, k requires 0 <= k < upTo => if p.gapEnergy(s, k).Some? then p.gapEnergy(s, k).value else 0.0)
  }

  lemma {:induction false} GapEnergiesAre(p: Physics, s: Snapshot, upTo: nat)
    requires upTo <= |s.gaps|
    ensures GapEnergies(p, s, upTo).Some? <==> forall k: nat :: k < upTo ==> p.gapEnergy(s, k).Some?
    ensures GapEnergies(p, s, upTo).Some? ==>
      GapEnergies(p, s, upTo).value == Reals.Sum(GapEnergyList(p, s, upTo))
  {
    if upTo == 0 {
      assert GapEnergyList(p, s, upTo) == [];
    } else {
      GapEnergiesAre(p, s, upTo - 1);
      var energies, before := GapEnergyList(p, s, upTo), GapEnergyList(p, s, upTo - 1);
      Reals.SumNext(before, energies[upTo - 1]);
      assert energies == before + [energies[upTo - 1]];
    }
  }

  /** Energy and coenergy are those of the volume, and each has the energies of all gaps added. */
  lemma EnergiesAreSums(p: Physics, s: Snapshot, t: Trial)
    ensures var r := WithEnergies(p, s, t);
      && (r.Some? <==> forall k: nat :: k < |s.gaps| ==> p.gapEnergy(s, k).Some?)
      && (r.Some? ==>
            var gaps := Reals.Sum(GapEnergyList(p, s, |s.gaps|));
            r.value == t.(energy := p.energy(s, s) + gaps, coenergy := p.coenergy(s, s) + gaps))
  {
    GapEnergiesAre(p, s, |s.gaps|);
  }

  // ----- promotion is path independent

  lemma {:induction false} LinkagesTwice(p: Physics, w: Weights, s: Snapshot, circuits: seq<Circuit>, upTo: nat)
    requires upTo <= |circuits| && (w.Some? ==> |w.value| == |circuits|)
    requires Linkages(p, w, s, false, circuits, |circuits|).Some?
    ensures var again := Linkages(p, w, s, false, circuits, |circuits|).value;
      |again| == |circuits| && Linkages(p, w, s, true, again, upTo) == Linkages(p, w, s, true, circuits, upTo)
  {
    if upTo > 0 {
      LinkagesTwice(p, w, s, circuits, upTo - 1);
      LinkageAt(p, w, s, false, circuits, |circuits|, upTo - 1);
    }
  }

  lemma {:induction false} LinkageAt(p: Physics, w: Weights, s: Snapshot, validate: bool, circuits: seq<Circuit>, upTo: nat, i: nat)
    requires i < upTo <= |circuits| && (w.Some? ==> |w.value| == |circuits|)
    requires Linkages(p, w, s, validate, circuits, upTo).Some?
    ensures Some(Linkages(p, w, s, validate, circuits, upTo).value[i]) == CircuitOf(p, w, s, i, validate, circuits[i])
  {
    if i < upTo - 1 {
      LinkageAt(p, w, s, validate, circuits, upTo - 1, i);
    }
  }

  /** Checking the linkages against the post-processor can only fail more, not change them. */
  lemma {:induction false} UncheckedToo(p: Physics, w: Weights, s: Snapshot, circuits: seq<Circuit>, upTo: nat)
    requires upTo <= |circuits| && (w.Some? ==> |w.value| == |circuits|)
    requires Linkages(p, w, s, true, circuits, upTo).Some?
    ensures Linkages(p, w, s, false, circuits, upTo).Some?
  {
    if upTo > 0 {
      UncheckedToo(p, w, s, circuits, upTo - 1);
    }
  }

  lemma {:induction false} TorqueToo(p: Physics, s: Snapshot, upTo: nat)
    requires upTo <= |s.gaps|
    ensures GapResults(p, s, false, upTo).Some? <==> GapResults(p, s, true, upTo).Some?
  {
    if upTo > 0 {
      TorqueToo(p, s, upTo - 1);
    }
  }

  /** Diagnosing looks at a trial's number and at what its circuits' checked linkages come to. */
  lemma DiagnosedAlike(p: Physics, w: Weights, s: Snapshot, t: Trial, u: Trial)
    requires t.id == u.id && |t.circuits| == |u.circuits|
    requires (w.Some? ==> |w.value| == |t.circuits|) ==>
      Linkages(p, w, s, true, t.circuits, |t.circuits|) == Linkages(p, w, s, true, u.circuits, |u.circuits|)
    ensures Diagnosed(p, w, s, t) == Diagnosed(p, w, s, u)
  {
  }

  lemma DiagnosedNeedsLess(p: Physics, w: Weights, s: Snapshot, t: Trial, first: Level)
    requires Results(p, w, s, t, first).None?
    ensures Results(p, w, s, t, FullDiagnostics).None?
  {
    if !first.FullDiagnostics? && !(w.Some? && |w.value| != |t.circuits|) && Linkages(p, w, s, true, t.circuits, |t.circuits|).Some? {
      UncheckedToo(p, w, s, t.circuits, |t.circuits|);
      TorqueToo(p, s, |s.gaps|);
    }
  }

  /** Evaluating at one level and completing to another is evaluating at the greater of the two,
      failures included, as long as the solver shows the same. */
  lemma PromotionIsEvaluation(p: Physics, w: Weights, s: Snapshot, t: Trial, first: Level, second: Level)
    requires t == Bare(t.id, |t.circuits|)
    ensures Then(Results(p, w, s, t, first), (u: Trial) => Promoted(p, w, s, u, second)) ==
            if AtLeast(first, second) then Results(p, w, s, t, first) else Results(p, w, s, t, second)
  {
    if !AtLeast(first, second) && second.FullDiagnostics? {
      if Results(p, w, s, t, first).None? {
        DiagnosedNeedsLess(p, w, s, t, first);
      } else {
        LinkagesTwice(p, w, s, t.circuits, |t.circuits|);
        DiagnosedAlike(p, w, s, t, Results(p, w, s, t, first).value);
      }
    }
  }

  function PromotedThrough(p: Physics, w: Weights, s: Snapshot, t: Option<Trial>, levels: seq<Level>): Option<Trial> {
    if levels == [] then t
    else Then(PromotedThrough(p, w, s, t, levels[..|levels| - 1]), (u: Trial) => Promoted(p, w, s, u, levels[|levels| - 1]))
  }

  function Highest(first: Level, levels: seq<Level>): Level {
    if levels == [] then first else Higher(Highest(first, levels[..|levels| - 1]), levels[|levels| - 1])
  }

  /** Path independence: whatever the steps in between, the results are those of evaluating at the
      highest level asked for. */
  lemma {:induction false} PromotionIsPathIndependent(p: Physics, w: Weights, s: Snapshot, t: Trial, first: Level, levels: seq<Level>)
    requires t == Bare(t.id, |t.circuits|)
    ensures PromotedThrough(p, w, s, Results(p, w, s, t, first), levels) == Results(p, w, s, t, Highest(first, levels))
  {
    if levels != [] {
      var last := |levels| - 1;
      PromotionIsPathIndependent(p, w, s, t, first, levels[..last]);
      PromotionIsEvaluation(p, w, s, t, Highest(first, levels[..last]), levels[last]);
    }
  }

  // ----- the evaluator

  class PersistentMotorSession {
    const physics: Physics
    /** What the solver shows now. */
    var solver: Snapshot
    var view: Option<View>
    var directLinkageInitialized: bool
    var weights: Weights
    var lastEvaluatedTrialId: nat

    constructor (physics: Physics, solver: Snapshot)
      ensures this.physics == physics && this.solver == solver && view.None? && !directLinkageInitialized && weights.None? && lastEvaluatedTrialId == 0
    {
      this.physics, this.solver := physics, solver;
      view, directLinkageInitialized, weights, lastEvaluatedTrialId := None, false, None, 0;
    }

    /** The volume, the nodes and the gaps of the view all show the solver. */
    predicate FullyRefreshed()
      reads this
    {
      view == Some(View(solver, solver, solver))
    }

    predicate GapRefreshed()
      reads this
    {
      view.Some? && view.value.gap == solver && view.value.nodal == solver
    }

    /** Refresh the view as far as asked for; the first time all of it. */
    method RefreshPhysicalView(airGapOnly: bool, works: bool) returns (ok: bool)
      modifies this`view
      ensures ok == works
      ensures !works ==> view == old(view)
      ensures works ==> GapRefreshed() && (!airGapOnly || old(view).None? ==> FullyRefreshed())
      ensures works && airGapOnly && old(view).Some? ==> view.value.volume == old(view).value.volume
    {
      ok := works;
      if works {
        if airGapOnly && view.Some? {
          view := Some(View(view.value.volume, solver, solver));
        } else {
          view := Some(View(solver, solver, solver));
        }
      }
    }

    /** Only the first call looks at the mesh. */
    method InitializeDirectLinkageExtractor(extracted: Weights)
      modifies this`directLinkageInitialized, this`weights
      ensures directLinkageInitialized && weights == if old(directLinkageInitialized) then old(weights) else extracted
    {
      if !directLinkageInitialized {
        directLinkageInitialized, weights := true, extracted;
      }
    }

    method DirectLinkageOf(i: nat) returns (linkage: Option<real>)
      requires weights.Some? && i < |weights.value|
      ensures linkage == if |weights.value[i]| == |solver.rhs| then Some(Linkage.Dot(weights.value[i], solver.rhs, |solver.rhs|)) else None
    {
      var outcome := Linkage.DirectLinkage(weights.value[i], solver.rhs);
      linkage := if outcome.Linked? then Some(outcome.linkage) else None;
    }

    /** Linkages of all circuits. The volume is read unless the direct form is available and
        nothing is to be checked against the post-processor. */
    method AddLinkageResults(t: Trial, validate: bool) returns (r: Option<Trial>)
      requires weights.None? || validate ==> FullyRefreshed()
      ensures r == WithLinkages(physics, weights, solver, t, validate)
    {
      if weights.Some? && |weights.value| != |t.circuits| {
        return None;
      }
      var circuits: seq<Circuit> := [];
      var i := 0;
      while i < |t.circuits|
        invariant 0 <= i <= |t.circuits|
        invariant Linkages(physics, weights, solver, validate, t.circuits, i) == Some(circuits)
      {
        var one := AddCircuit(i, validate, t.circuits[i]);
        if one.None? {
          LinkagesFail(physics, weights, solver, validate, t.circuits, i + 1, |t.circuits|);
          return None;
        }
        circuits := circuits + [one.value];
        i := i + 1;
      }
      r := Some(t.(circuits := circuits));
    }

    method AddCircuit(i: nat, validate: bool, was: Circuit) returns (r: Option<Circuit>)
      requires weights.None? || validate ==> FullyRefreshed()
      requires weights.Some? ==> i < |weights.value|
      ensures r == CircuitOf(physics, weights, solver, i, validate, was)
    {
      var circuit := was;
      var linkage;
      if weights.Some? {
        var direct := DirectLinkageOf(i);
        if direct.None? {
          return None;
        }
        linkage := direct.value;
        circuit := circuit.(stranded := Some(linkage));
      } else {
        var conventional := physics.flux(view.value.volume, view.value.nodal, i);
        var stranded := physics.stranded(view.value.volume, view.value.nodal, i);
        linkage := if stranded.Some? then stranded.value else conventional;
        circuit := circuit.(conventional := Some(conventional));
        if stranded.Some? {
          circuit := circuit.(stranded := stranded);
        }
      }
      if validate {
        circuit := circuit.(conventional := Some(physics.flux(view.value.volume, view.value.nodal, i)));
        var reference := physics.stranded(view.value.volume, view.value.nodal, i);
        if reference.Some? && !Agree(linkage, reference.value) {
          return None;
        }
      }
      r := Some(circuit.(linkage := linkage));
    }

    /** Torque and gap results; only the gaps of the view are read. */
    method AddAcceptedStateResults(t: Trial, packaged: bool) returns (r: Option<Trial>)
      requires GapRefreshed()
      ensures r == WithTorque(physics, solver, t, packaged)
    {
      var gaps, torque := [], 0.0;
      var k := 0;
      while k < |view.value.gap.gaps|
        invariant 0 <= k <= |view.value.gap.gaps|
        invariant GapResults(physics, solver, packaged, k) == Some((gaps, torque))
      {
        var one := physics.torque(view.value.gap, k);
        if one.None? {
          GapResultsFail(physics, solver, packaged, k + 1, |solver.gaps|);
          return None;
        }
        torque := torque + one.value;
        gaps := gaps + [GapResult(view.value.gap.gaps[k], one.value, if packaged then physics.harmonics(view.value.gap, k) else [])];
        k := k + 1;
      }
      r := Some(t.(gaps := gaps, torque := torque));
    }

    /** Energies of the volume and of the gaps. */
    method AddFullDiagnosticResults(t: Trial) returns (r: Option<Trial>)
      requires FullyRefreshed()
      ensures r == WithEnergies(physics, solver, t)
    {
      var energy := physics.energy(view.value.volume, view.value.nodal);
      var coenergy := physics.coenergy(view.value.volume, view.value.nodal);
      ghost var energy0, coenergy0 := energy, coenergy;
      var k := 0;
      while k < |view.value.gap.gaps|
        invariant 0 <= k <= |view.value.gap.gaps|
        invariant GapEnergies(physics, solver, k).Some?
        invariant energy == energy0 + GapEnergies(physics, solver, k).value
        invariant coenergy == coenergy0 + GapEnergies(physics, solver, k).value
      {
        var one := physics.gapEnergy(view.value.gap, k);
        if one.None? {
          GapEnergiesFail(physics, solver, k + 1, |solver.gaps|);
          return None;
        }
        energy, coenergy := energy + one.value, coenergy + one.value;
        k := k + 1;
      }
      r := Some(t.(energy := energy, coenergy := coenergy));
    }

    /** Solve and evaluate. `solved` is the session's new trial and what the solver shows after it;
        `extracted` the weights of the mesh; `refreshes` whether the view can be refreshed. The
        results depend on what the solver shows, not on what the view was before. */
    method EvaluateTrial(solved: Option<(nat, Snapshot)>, circuits: nat, level: Level, extracted: Weights, refreshes: bool) returns (r: Option<Trial>)
      modifies this
      ensures solved.None? ==> r.None? && solver == old(solver) && view == old(view) && lastEvaluatedTrialId == old(lastEvaluatedTrialId)
      ensures solved.None? ==> directLinkageInitialized == old(directLinkageInitialized) && weights == old(weights)
      ensures solved.Some? ==> lastEvaluatedTrialId == solved.value.0 && solver == solved.value.1 && directLinkageInitialized
      ensures solved.Some? ==> weights == if old(directLinkageInitialized) then old(weights) else extracted
      ensures r.Some? ==> r == Results(physics, weights, solver, Bare(solved.value.0, circuits), level)
      ensures solved.Some? && (refreshes || (level.ResidualOnly? && weights.Some?)) ==> r == Results(physics, weights, solver, Bare(solved.value.0, circuits), level)
      ensures solved.Some? && !refreshes && !(level.ResidualOnly? && weights.Some?) ==> r.None?
      ensures r.Some? && AtLeast(level, AcceptedState) ==> GapRefreshed()
      ensures r.Some? && (level.FullDiagnostics? || weights.None?) ==> FullyRefreshed()
    {
      if solved.None? {
        return None;
      }
      lastEvaluatedTrialId, solver := solved.value.0, solved.value.1;
      InitializeDirectLinkageExtractor(extracted);
      var trial := Bare(solved.value.0, circuits);
      var needsFullView := level.FullDiagnostics? || weights.None?;
      if needsFullView {
        var ok := RefreshPhysicalView(false, refreshes);
        if !ok {
          return None;
        }
      }
      r := AddLinkageResults(trial, level.FullDiagnostics?);
      if r.None? {
        return;
      }
      if AtLeast(level, AcceptedState) {
        if !needsFullView {
          var ok := RefreshPhysicalView(true, refreshes);
          if !ok {
            return None;
          }
        }
        r := AddAcceptedStateResults(r.value, level.FullDiagnostics?);
        if r.None? {
          return;
        }
      }
      if level.FullDiagnostics? {
        r := AddFullDiagnosticResults(r.value);
        if r.None? {
          return;
        }
      }
      r := Some(r.value.(level := level));
    }

    /** Complete the latest trial. The results are those the solver shows now. */
    method CompleteTrial(t: Trial, level: Level, refreshes: bool) returns (r: Option<Trial>)
      modifies this`view
      ensures t.id != lastEvaluatedTrialId ==> r.None? && view == old(view)
      ensures r.Some? ==> r == Promoted(physics, weights, solver, t, level)
      ensures t.id == lastEvaluatedTrialId && (refreshes || AtLeast(t.level, level)) ==> r == Promoted(physics, weights, solver, t, level)
      ensures !refreshes && !AtLeast(t.level, level) ==> r.None? && view == old(view)
      ensures r.Some? && !AtLeast(t.level, level) ==> GapRefreshed() && (level.FullDiagnostics? ==> FullyRefreshed())
    {
      if t.id != lastEvaluatedTrialId {
        return None;
      }
      if AtLeast(t.level, level) {
        return Some(t);
      }
      var ok := RefreshPhysicalView(level.AcceptedState?, refreshes);
      if !ok {
        return None;
      }
      if level.FullDiagnostics? {
        r := AddLinkageResults(t, true);
        if r.None? {
          return;
        }
        r := AddAcceptedStateResults(r.value, true);
        if r.None? {
          return;
        }
        r := AddFullDiagnosticResults(r.value);
      } else {
        r := AddAcceptedStateResults(t, false);
      }
      if r.Some? {
        r := Some(r.value.(level := level));
      }
    }

    /** Roll the solver back; `restored` is what it shows then. Neither the view nor the number of
        the latest trial is touched. */
    method RollbackToCommitted(restored: Option<Snapshot>) returns (ok: bool)
      modifies this`solver
      ensures ok == restored.Some? && solver == if ok then restored.value else old(solver)
    {
      ok := restored.Some?;
      if ok {
        solver := restored.value;
      }
    }
  }

  lemma {:induction false} LinkagesFail(p: Physics, w: Weights, s: Snapshot, validate: bool, circuits: seq<Circuit>, low: nat, high: nat)
    requires low <= high <= |circuits| && (w.Some? ==> |w.value| == |circuits|) && Linkages(p, w, s, validate, circuits, low).None?
    ensures Linkages(p, w, s, validate, circuits, high).None?
  {
    if low < high {
      LinkagesFail(p, w, s, validate, circuits, low, high - 1);
    }
  }

  lemma {:induction false} GapResultsFail(p: Physics, s: Snapshot, packaged: bool, low: nat, high: nat)
    requires low <= high <= |s.gaps| && GapResults(p, s, packaged, low).None?
    ensures GapResults(p, s, packaged, high).None?
  {
    if low < high {
      GapResultsFail(p, s, packaged, low, high - 1);
    }
  }

  lemma {:induction false} GapEnergiesFail(p: Physics, s: Snapshot, low: nat, high: nat)
    requires low <= high <= |s.gaps| && GapEnergies(p, s, low).None?
    ensures GapEnergies(p, s, high).None?
  {
    if low < high {
      GapEnergiesFail(p, s, low, high - 1);
    }
  }

  // ----- completing after a rollback

  /** A trial evaluated for its residual keeps its own linkages and energies when it is completed to
      an accepted state after the solver has come to show `after`, but takes the torque `after` has:
      it is the trial evaluated there and then exactly when both show the same torques. */
  lemma CompletionMixesFields(p: Physics, w: Weights, s: Snapshot, after: Snapshot, t: Trial)
    requires t == Bare(t.id, |t.circuits|) && Results(p, w, s, t, ResidualOnly).Some?
    ensures var mixed := Promoted(p, w, after, Results(p, w, s, t, ResidualOnly).value, AcceptedState);
      mixed == Results(p, w, s, t, AcceptedState) <==> GapResults(p, after, false, |after.gaps|) == GapResults(p, s, false, |s.gaps|)
  {
  }

  /** There is a weight for every circuit and every value, or no weights at all. */
  predicate Shaped(w: Weights, s: Snapshot, circuits: nat) {
    w.Some? ==> |w.value| == circuits && forall i :: 0 <= i < circuits ==> |w.value[i]| == |s.rhs|
  }

  lemma {:induction false} LinkagesNeedShape(p: Physics, w: Weights, s: Snapshot, circuits: seq<Circuit>, upTo: nat)
    requires upTo <= |circuits| && (w.Some? ==> |w.value| == |circuits|)
    ensures Linkages(p, w, s, false, circuits, upTo).Some? <==> (w.Some? ==> forall i :: 0 <= i < upTo ==> |w.value[i]| == |s.rhs|)
  {
    if upTo > 0 {
      LinkagesNeedShape(p, w, s, circuits, upTo - 1);
    }
  }

  /** Completing to an accepted state what was evaluated for its residual, the solver showing
      `after` by then, gives what evaluating it for an accepted state would have given. */
  ghost predicate CompletesAsEvaluated(p: Physics, w: Weights, s: Snapshot, after: Snapshot, t: Trial) {
    Results(p, w, s, t, ResidualOnly).Some? ==>
      Promoted(p, w, after, Results(p, w, s, t, ResidualOnly).value, AcceptedState) == Results(p, w, s, t, AcceptedState)
  }

  lemma {:induction false} ConstantTorque(p: Physics, s: Snapshot, c: real, upTo: nat)
    requires upTo <= |s.gaps| && forall k: nat :: k < upTo ==> p.torque(s, k) == Some(c)
    ensures GapResults(p, s, false, upTo).Some?
    ensures forall k :: 0 <= k < upTo ==> GapResults(p, s, false, upTo).value.0[k].torque == c
  {
    if upTo > 0 {
      ConstantTorque(p, s, c, upTo - 1);
    }
  }

  /** Integrals of which the torque tells one snapshot from all others. */
  ghost function Telling(s: Snapshot): Physics {
    Physics((x: Snapshot, y: Snapshot, i: nat) => 0.0, (x: Snapshot, y: Snapshot, i: nat) => None,
            (x: Snapshot, y: Snapshot) => 0.0, (x: Snapshot, y: Snapshot) => 0.0,
            (x: Snapshot, k: nat) => Some(if x == s then 0.0 else 1.0), (x: Snapshot, k: nat) => [], (x: Snapshot, k: nat) => Some(0.0))
  }

  lemma TellingDiffers(w: Weights, s: Snapshot, after: Snapshot, t: Trial)
    requires t == Bare(t.id, |t.circuits|) && Results(Telling(s), w, s, t, ResidualOnly).Some?
    requires s != after && (s.gaps != [] || after.gaps != [])
    ensures !CompletesAsEvaluated(Telling(s), w, s, after, t)
  {
    var p := Telling(s);
    ConstantTorque(p, s, 0.0, |s.gaps|);
    ConstantTorque(p, after, 1.0, |after.gaps|);
    var here, there := GapResults(p, s, false, |s.gaps|), GapResults(p, after, false, |after.gaps|);
    assert here != there by {
      if |s.gaps| == |after.gaps| {
        assert here.value.0[0].torque == 0.0 && there.value.0[0].torque == 1.0;
      }
    }
    CompletionMixesFields(p, w, s, after, t);
  }

  /** Whatever the integrals are, such a completion gives what evaluating would have given exactly
      when the solver still shows the same, or neither snapshot has a gap; or when the weights do
      not fit, and nothing is evaluated at all. */
  lemma CompletionNeedsSameSnapshot(w: Weights, s: Snapshot, after: Snapshot, t: Trial)
    requires t == Bare(t.id, |t.circuits|)
    ensures (forall p: Physics :: CompletesAsEvaluated(p, w, s, after, t)) <==>
            s == after || (s.gaps == [] && after.gaps == []) || !Shaped(w, s, |t.circuits|)
  {
    forall p: Physics ensures Results(p, w, s, t, ResidualOnly).Some? <==> Shaped(w, s, |t.circuits|) {
      if !(w.Some? && |w.value| != |t.circuits|) {
        LinkagesNeedShape(p, w, s, t.circuits, |t.circuits|);
      }
    }
    if s == after || (s.gaps == [] && after.gaps == []) {
      forall p: Physics ensures CompletesAsEvaluated(p, w, s, after, t) {
        if Results(p, w, s, t, ResidualOnly).Some? {
          CompletionMixesFields(p, w, s, after, t);
        }
      }
    } else if Shaped(w, s, |t.circuits|) {
      TellingDiffers(w, s, after, t);
    }
  }

  /** Some circuit has a stranded linkage in `s` but none in `after`. */
  predicate StrandedLost(p: Physics, s: Snapshot, after: Snapshot, circuits: nat) {
    exists i: nat :: i < circuits && p.stranded(after, after, i).None? && p.stranded(s, s, i).Some?
  }

  lemma {:induction false} LinkagesRedone(p: Physics, w: Weights, s: Snapshot, after: Snapshot, circuits: seq<Circuit>, upTo: nat)
    requires upTo <= |circuits| && (w.Some? ==> |w.value| == |circuits|)
    requires forall i :: 0 <= i < |circuits| ==> circuits[i] == Circuit(0.0, None, None)
    requires Linkages(p, w, s, false, circuits, |circuits|).Some?
    ensures var earlier := Linkages(p, w, s, false, circuits, |circuits|).value;
      |earlier| == |circuits|
      && (Linkages(p, w, after, true, earlier, upTo) == Linkages(p, w, after, true, circuits, upTo) <==>
          Linkages(p, w, after, true, circuits, upTo).None? || w.Some? || !StrandedLost(p, s, after, upTo))
      && (Linkages(p, w, after, true, earlier, upTo).None? <==> Linkages(p, w, after, true, circuits, upTo).None?)
  {
    if upTo > 0 {
      var earlier, k := Linkages(p, w, s, false, circuits, |circuits|).value, upTo - 1;
      LinkagesRedone(p, w, s, after, circuits, k);
      LinkageAt(p, w, s, false, circuits, |circuits|, k);
      CircuitRedone(p, w, s, after, k);
      assert StrandedLost(p, s, after, upTo) <==> StrandedLost(p, s, after, k) || (p.stranded(after, after, k).None? && p.stranded(s, s, k).Some?);
      if Linkages(p, w, after, true, circuits, upTo).Some? {
        LastDiffers(Linkages(p, w, after, true, earlier, k).value, Linkages(p, w, after, true, circuits, k).value,
                    CircuitOf(p, w, after, k, true, earlier[k]).value, CircuitOf(p, w, after, k, true, circuits[k]).value);
      }
    }
  }

  lemma CircuitRedone(p: Physics, w: Weights, s: Snapshot, after: Snapshot, i: nat)
    requires (w.Some? ==> i < |w.value|) && CircuitOf(p, w, s, i, false, Circuit(0.0, None, None)).Some?
    ensures var bare := Circuit(0.0, None, None);
      var redone, anew := CircuitOf(p, w, after, i, true, CircuitOf(p, w, s, i, false, bare).value), CircuitOf(p, w, after, i, true, bare);
      && (redone.None? <==> anew.None?)
      && (redone == anew <==> anew.None? || w.Some? || p.stranded(after, after, i).Some? || p.stranded(s, s, i).None?)
  {
  }

  lemma LastDiffers<T>(a: seq<T>, b: seq<T>, x: T, y: T)
    ensures a + [x] == b + [y] <==> a == b && x == y
  {
    if a + [x] == b + [y] {
      assert (a + [x])[|a|] == x && (b + [y])[|b|] == y && |a| == |b|;
      assert a == (a + [x])[..|a|] == b;
    }
  }

  /** Completing a trial to full diagnostics recomputes all of it from what the solver shows then. It
      fails exactly when evaluating then and there fails; otherwise it is the trial evaluated then and
      there exactly when there are weights, or no circuit has lost its stranded linkage. */
  lemma FullCompletionForgets(p: Physics, w: Weights, s: Snapshot, after: Snapshot, t: Trial, first: Level)
    requires t == Bare(t.id, |t.circuits|) && !first.FullDiagnostics? && Results(p, w, s, t, first).Some?
    ensures var completed, evaluated := Promoted(p, w, after, Results(p, w, s, t, first).value, FullDiagnostics), Results(p, w, after, t, FullDiagnostics);
      && (completed.None? <==> evaluated.None?)
      && (evaluated.Some? ==> (completed == evaluated <==> w.Some? || !StrandedLost(p, s, after, |t.circuits|)))
  {
    LinkagesRedone(p, w, s, after, t.circuits, |t.circuits|);
  }

  // ----- a trial that is completed after a rollback

  const EVALUATED: Snapshot := Snapshot([], ["gap"], 2)
  const COMMITTED: Snapshot := Snapshot([], ["gap"], 1)

  /** A torque that is the number of the snapshot. */
  function Simple(): Physics {
    Physics((x: Snapshot, y: Snapshot, i: nat) => 0.0, (x: Snapshot, y: Snapshot, i: nat) => None,
            (x: Snapshot, y: Snapshot) => 0.0, (x: Snapshot, y: Snapshot) => 0.0,
            (x: Snapshot, k: nat) => Some(x.rest as real), (x: Snapshot, k: nat) => [], (x: Snapshot, k: nat) => Some(0.0))
  }

  /** Evaluate a trial, roll back, complete it: the completion is accepted, and its torque is that of
      the committed field, while evaluating it for an accepted state at once gives its own. */
  method CompletedAfterRollback() returns (completed: Option<Trial>, evaluated: Option<Trial>)
    ensures completed.Some? && evaluated.Some?
    ensures completed.value.id == evaluated.value.id && completed.value.level == evaluated.value.level == AcceptedState
    ensures evaluated.value.torque == 2.0 && completed.value.torque == 1.0
  {
    var motor := new PersistentMotorSession(Simple(), COMMITTED);
    var trial := motor.EvaluateTrial(Some((1, EVALUATED)), 0, ResidualOnly, None, true);
    var ok := motor.RollbackToCommitted(Some(COMMITTED));
    completed := motor.CompleteTrial(trial.value, AcceptedState, true);
    var other := new PersistentMotorSession(Simple(), COMMITTED);
    evaluated := other.EvaluateTrial(Some((1, EVALUATED)), 0, AcceptedState, None, true);
    OneGap(EVALUATED);
    OneGap(COMMITTED);
  }

  /** A stranded linkage of seven in the evaluated field, and none in the committed one. */
  function Fading(): Physics {
    Physics((x: Snapshot, y: Snapshot, i: nat) => 0.0, (x: Snapshot, y: Snapshot, i: nat) => if x.rest == 2 then Some(7.0) else None,
            (x: Snapshot, y: Snapshot) => 0.0, (x: Snapshot, y: Snapshot) => 0.0,
            (x: Snapshot, k: nat) => Some(0.0), (x: Snapshot, k: nat) => [], (x: Snapshot, k: nat) => Some(0.0))
  }

  /** Without weights: evaluate a trial, roll back, complete it to full diagnostics. Its circuit keeps
      the stranded linkage of the evaluated field; evaluated after the rollback it has none. */
  method StrandedLinkageStays() returns (completed: Option<Trial>, evaluated: Option<Trial>)
    ensures completed.Some? && evaluated.Some? && completed.value.id == evaluated.value.id
    ensures completed.value.level == evaluated.value.level == FullDiagnostics
    ensures completed.value.circuits == [Circuit(0.0, Some(0.0), Some(7.0))]
    ensures evaluated.value.circuits == [Circuit(0.0, Some(0.0), None)]
  {
    FadingLinkages();
    var motor := new PersistentMotorSession(Fading(), COMMITTED);
    var trial := motor.EvaluateTrial(Some((1, EVALUATED)), 1, ResidualOnly, None, true);
    var ok := motor.RollbackToCommitted(Some(COMMITTED));
    completed := motor.CompleteTrial(trial.value, FullDiagnostics, true);
    var other := new PersistentMotorSession(Fading(), COMMITTED);
    evaluated := other.EvaluateTrial(Some((1, COMMITTED)), 1, FullDiagnostics, None, true);
  }

  lemma OneCircuit(p: Physics, s: Snapshot, t: Trial, validate: bool)
    requires |t.circuits| == 1
    ensures WithLinkages(p, None, s, t, validate) ==
      var one := CircuitOf(p, None, s, 0, validate, t.circuits[0]);
      if one.None? then None else Some(t.(circuits := [one.value]))
  {
    assert Linkages(p, None, s, validate, t.circuits, 0) == Some([]);
    var one := CircuitOf(p, None, s, 0, validate, t.circuits[0]);
    assert Linkages(p, None, s, validate, t.circuits, 1) == if one.None? then None else Some([] + [one.value]);
    if one.Some? {
      assert [] + [one.value] == [one.value];
    }
  }

  lemma FadingLinkages()
    ensures forall s: Snapshot, t: Trial, validate: bool {:trigger WithLinkages(Fading(), None, s, t, validate)} :: |t.circuits| == 1 ==>
      WithLinkages(Fading(), None, s, t, validate) ==
      var one := CircuitOf(Fading(), None, s, 0, validate, t.circuits[0]);
      if one.None? then None else Some(t.(circuits := [one.value]))
    ensures GapResults(Fading(), COMMITTED, true, 1).Some? && GapEnergies(Fading(), COMMITTED, 1).Some?
  {
    forall s: Snapshot, t: Trial, validate: bool | |t.circuits| == 1
      ensures WithLinkages(Fading(), None, s, t, validate) ==
        var one := CircuitOf(Fading(), None, s, 0, validate, t.circuits[0]);
        if one.None? then None else Some(t.(circuits := [one.value]))
    {
      OneCircuit(Fading(), s, t, validate);
    }
    assert GapResults(Fading(), COMMITTED, true, 0) == Some(([], 0.0));
    assert GapEnergies(Fading(), COMMITTED, 0) == Some(0.0);
  }

  lemma OneGap(s: Snapshot)
    requires |s.gaps| == 1
    ensures GapResults(Simple(), s, false, 1).Some? && GapResults(Simple(), s, false, 1).value.1 == s.rest as real
  {
    assert GapResults(Simple(), s, false, 0) == Some(([], 0.0));
  }
}
