/** The magnetic model, the solve parameters, and what is prepared from them for the solver. */
module SessionModel {
  import opened Wrappers
  import opened Angles
  import opened Bucket
  import opened GapPlacement
  import opened SolverBackend

  datatype Number = Finite(value: real) | NonFinite

  datatype Complex = Complex(re: real, im: real)

  // ----- materials

  datatype Material = Material(muX: real, muY: real, coercivity: real, conductivity: real, laminationType: int,
                               laminationFill: real, laminationThickness: real, current: Complex, b: seq<real>, h: seq<Complex>)

  datatype MaterialItem = Magnetic(material: Material) | OtherMaterial

  datatype Property = RelativePermeabilityX | RelativePermeabilityY | Coercivity | Conductivity | LaminationType
    | LaminationFill | LaminationThickness | AppliedCurrentDensity | BHCurve

  datatype PropertyValue = Scalar(x: real) | Whole(n: int) | Phasor(z: Complex) | Curve(b: seq<real>, h: seq<Complex>)

  /** The material with one property set; nothing when the value has the wrong type or the curve's
      two columns differ in length. */
  function WithProperty(m: Material, property: Property, v: PropertyValue): Option<Material> {
    match (property, v)
    case (RelativePermeabilityX, Scalar(x)) => Some(m.(muX := x))
    case (RelativePermeabilityY, Scalar(x)) => Some(m.(muY := x))
    case (Coercivity, Scalar(x)) => Some(m.(coercivity := x))
    case (Conductivity, Scalar(x)) => Some(m.(conductivity := x))
    case (LaminationType, Whole(n)) => Some(m.(laminationType := n))
    case (LaminationFill, Scalar(x)) => Some(m.(laminationFill := x))
    case (LaminationThickness, Scalar(x)) => Some(m.(laminationThickness := x))
    case (AppliedCurrentDensity, Phasor(z)) => Some(m.(current := z))
    case (BHCurve, Curve(b, h)) => if |b| == |h| then Some(m.(b := b, h := h)) else None
    case _ => None
  }

  // ----- model and parameters

  datatype BlockLabel = BlockLabel(magnetic: bool, inCircuit: int, turns: int)

  datatype Line = Line(name: string, airGap: bool, innerAngle: real, outerAngle: real)

  datatype Model = Model(frequency: real, circuits: seq<Complex>, materials: seq<MaterialItem>, labels: seq<BlockLabel>, lines: seq<Line>)

  function Names(model: Model): (names: seq<string>)
    ensures |names| == |model.lines|
  {
    seq(|model.lines|, i requires 0 <= i < |model.lines| => model.lines[i].name)
  }

  datatype ConstraintKind = PrescribedCurrent | PrescribedVoltage | OpenCircuit | CoupledUnknown

  datatype Constraint = Constraint(kind: ConstraintKind, value: Complex)

  datatype Position = Position(innerAngle: real, outerAngle: real)

  /** An accepted state; session and trial number tell it apart from every other one. */
  datatype AcceptedState = AcceptedState(session: nat, trial: nat, modelRevision: nat, parameterRevision: nat, time: real, field: Option<Field>)

  datatype Parameters = Parameters(frequency: real, time: real, constraints: map<nat, Constraint>, gaps: map<nat, Position>,
                                   initial: Option<AcceptedState>)

  /** Parameters as a caller may leave them: numbers need not be finite, angles not wrapped. */
  datatype Proposal = Proposal(frequency: Number, time: Number, constraints: map<nat, Constraint>, gaps: map<nat, (Number, Number)>,
                               initial: Option<AcceptedState>)

  predicate KnownCircuit(model: Model, id: nat) { id < |model.circuits| }

  predicate KnownGap(model: Model, id: nat) { id < |model.lines| && model.lines[id].airGap }

  predicate Admissible(model: Model, modelRevision: nat, p: Proposal) {
    && p.frequency.Finite? && p.frequency.value >= 0.0 && p.time.Finite?
    && (forall id :: id in p.constraints ==> KnownCircuit(model, id))
    && (forall id :: id in p.gaps ==> KnownGap(model, id) && p.gaps[id].0.Finite? && p.gaps[id].1.Finite?)
    && (p.initial.Some? ==> p.initial.value.modelRevision == modelRevision)
  }

  function Wrapped(inner: real, outer: real): Position {
    Position(CanonicalDegrees(inner), CanonicalDegrees(outer))
  }

  function Canonical(p: Proposal): Parameters
    requires p.frequency.Finite? && p.time.Finite? && forall id :: id in p.gaps ==> p.gaps[id].0.Finite? && p.gaps[id].1.Finite?
  {
    Parameters(p.frequency.value, p.time.value, p.constraints,
               map id | id in p.gaps :: Wrapped(p.gaps[id].0.value, p.gaps[id].1.value), p.initial)
  }

  ghost predicate Known(model: Model, p: Parameters) {
    && (forall id :: id in p.constraints ==> KnownCircuit(model, id))
    && (forall id :: id in p.gaps ==> KnownGap(model, id))
  }

  /** What the constructor takes from the model. */
  function InitialParameters(model: Model): (p: Parameters)
    ensures Known(model, p)
  {
    Parameters(model.frequency, 0.0,
               map id: nat | id < |model.circuits| :: Constraint(PrescribedCurrent, model.circuits[id]),
               map id: nat | id < |model.lines| && model.lines[id].airGap :: Wrapped(model.lines[id].innerAngle, model.lines[id].outerAngle),
               None)
  }

  // ----- what is prepared

  /** A material with the angular frequency its slopes were computed at; none without a curve. */
  datatype PreparedMaterial = PreparedMaterial(source: Material, slopesAt: Option<real>)

  datatype PreparedCircuit = PreparedCircuit(source: nat, label_: nat, signedTurns: int, constraint: Constraint)

  datatype Prepared = Prepared(materials: seq<PreparedMaterial>, circuits: seq<PreparedCircuit>, gaps: map<nat, Position>, frequency: real)

  function Prepare(m: Material, frequency: real): PreparedMaterial {
    PreparedMaterial(m, if |m.b| > 0 then Some(frequency * 2.0 * 3.14159265358979323846) else None)
  }

  predicate AllMagnetic(materials: seq<MaterialItem>) {
    forall i :: 0 <= i < |materials| ==> materials[i].Magnetic?
  }

  function PreparedMaterials(model: Model, frequency: real): (r: seq<PreparedMaterial>)
    requires AllMagnetic(model.materials)
    ensures |r| == |model.materials|
  {
    seq(|model.materials|, i requires 0 <= i < |model.materials| => Prepare(model.materials[i].material, frequency))
  }

  predicate Linked(model: Model, constraints: map<nat, Constraint>, l: nat)
    requires l < |model.labels|
  {
    model.labels[l].magnetic && model.labels[l].inCircuit >= 0 ==>
      model.labels[l].inCircuit < |model.circuits| && model.labels[l].inCircuit in constraints
  }

  /** Every label's circuit exists and has a constraint. */
  predicate AllLinked(model: Model, constraints: map<nat, Constraint>, upTo: nat)
    requires upTo <= |model.labels|
  {
    forall l :: 0 <= l < upTo ==> Linked(model, constraints, l)
  }

  /** One entry per label that is in a circuit, in label order. */
  function PreparedCircuits(model: Model, constraints: map<nat, Constraint>, upTo: nat): seq<PreparedCircuit>
    requires upTo <= |model.labels| && AllLinked(model, constraints, upTo)
  {
    if upTo == 0 then []
    else
      var before, label_ := PreparedCircuits(model, constraints, upTo - 1), model.labels[upTo - 1];
      if label_.magnetic && label_.inCircuit >= 0
      then
        assert Linked(model, constraints, upTo - 1);
        before + [PreparedCircuit(label_.inCircuit, upTo - 1, label_.turns, constraints[label_.inCircuit])]
      else before
  }

  /** The gap positions in boundary order. */
  function Listed(gaps: map<nat, Position>, upTo: nat): (r: seq<GapPosition>)
    ensures forall j :: 0 <= j < |r| ==> r[j].id < upTo
  {
    if upTo == 0 then []
    else Listed(gaps, upTo - 1) + (if upTo - 1 in gaps then [GapPosition(upTo - 1, gaps[upTo - 1].innerAngle, gaps[upTo - 1].outerAngle)] else [])
  }

  function Asked(model: Model, gaps: map<nat, Position>): (r: seq<GapPosition>)
    ensures InNames(r, Names(model))
  {
    Listed(gaps, |model.lines|)
  }

  /** The list holds gaps of the map below `upTo`, in ascending order of their numbers, each with its
      own two angles. */
  lemma {:induction false} ListedIs(gaps: map<nat, Position>, upTo: nat)
    ensures forall i, j :: 0 <= i < j < |Listed(gaps, upTo)| ==> Listed(gaps, upTo)[i].id < Listed(gaps, upTo)[j].id
    ensures forall j :: 0 <= j < |Listed(gaps, upTo)| ==>
      var p := Listed(gaps, upTo)[j]; p.id in gaps && p.innerAngle == gaps[p.id].innerAngle && p.outerAngle == gaps[p.id].outerAngle
  {
    if upTo > 0 {
      ListedIs(gaps, upTo - 1);
    }
  }

  /** And it leaves none of them out. */
  lemma {:induction false} ListedHas(gaps: map<nat, Position>, upTo: nat, id: nat) returns (j: nat)
    requires id in gaps && id < upTo
    ensures j < |Listed(gaps, upTo)| && Listed(gaps, upTo)[j] == GapPosition(id, gaps[id].innerAngle, gaps[id].outerAngle)
  {
    if id == upTo - 1 {
      j := |Listed(gaps, upTo - 1)|;
    } else {
      j := ListedHas(gaps, upTo - 1, id);
    }
  }

  /** What the solver is asked: every gap of the parameters, by ascending number, at its own angles. */
  lemma AskedIs(model: Model, gaps: map<nat, Position>)
    ensures forall i, j :: 0 <= i < j < |Asked(model, gaps)| ==> Asked(model, gaps)[i].id < Asked(model, gaps)[j].id
    ensures forall j :: 0 <= j < |Asked(model, gaps)| ==>
      var p := Asked(model, gaps)[j]; p.id in gaps && p.innerAngle == gaps[p.id].innerAngle && p.outerAngle == gaps[p.id].outerAngle
    ensures forall id: nat :: id in gaps && id < |model.lines| ==> GapPosition(id, gaps[id].innerAngle, gaps[id].outerAngle) in Asked(model, gaps)
  {
    ListedIs(gaps, |model.lines|);
    forall id: nat | id in gaps && id < |model.lines|
      ensures GapPosition(id, gaps[id].innerAngle, gaps[id].outerAngle) in Asked(model, gaps)
    {
      var j := ListedHas(gaps, |model.lines|, id);
    }
  }

  /** Whether the solver can be configured: all labels magnetic and in circuits that exist, and a
      constraint for every circuit. */
  predicate Configurable(model: Model, constraints: map<nat, Constraint>) {
    && (forall id: nat :: id < |model.circuits| ==> id in constraints)
    && (forall l :: 0 <= l < |model.labels| ==> model.labels[l].magnetic && model.labels[l].inCircuit < |model.circuits|)
  }

  /** Everything prepared afresh from the model and the parameters as they are. */
  predicate Preparable(model: Model, p: Parameters) {
    AllMagnetic(model.materials) && AllLinked(model, p.constraints, |model.labels|)
  }

  function FullRebuild(model: Model, p: Parameters): Prepared
    requires Preparable(model, p)
  {
    Prepared(PreparedMaterials(model, p.frequency), PreparedCircuits(model, p.constraints, |model.labels|), p.gaps, p.frequency)
  }
}
