/** Fixing node values while element matrices are assembled into a symmetric system. */
module PrescribedValues {

  import opened Reals

  // ----- one element

  /** A three-node element: its nodes, its matrix by rows, its load. */
  datatype Element = Element(n: seq<nat>, me: seq<seq<real>>, be: seq<real>)

  ghost predicate Shaped(e: Element, numNodes: nat) {
    && |e.n| == |e.me| == |e.be| == 3
    && (forall j :: 0 <= j < 3 ==> |e.me[j]| == 3 && e.n[j] < numNodes)
    && e.n[0] != e.n[1] && e.n[0] != e.n[2] && e.n[1] != e.n[2]
  }

  ghost predicate SymmetricMatrix(me: seq<seq<real>>)
    requires |me| == 3 && forall j :: 0 <= j < 3 ==> |me[j]| == 3
  {
    forall j, k :: 0 <= j < 3 && 0 <= k < 3 ==> me[j][k] == me[k][j]
  }

  /** Row `j` of an element matrix times the node values, minus the load. */
  function ElementResidual(me: seq<seq<real>>, be: seq<real>, n: seq<nat>, x: seq<real>, j: nat): real
    requires |me| == |be| == |n| == 3 && j < 3 && |me[j]| == 3
    requires forall i :: 0 <= i < 3 ==> n[i] < |x|
  {
    RowResidual(me[j], be[j], [x[n[0]], x[n[1]], x[n[2]]])
  }

  /** What one gradient direction adds at (j, k): the product for the upper half, mirrored. */
  function GradientTerm(coefficient: real, p: seq<real>, j: nat, k: nat): real
    requires |p| == 3 && j < 3 && k < 3
  {
    if j <= k then coefficient * p[j] * p[k] else coefficient * p[k] * p[j]
  }

  /** The diffusion part of an element matrix: upper half added, and mirrored. */
  method AddGradient(me: array2<real>, coefficient: real, p: seq<real>)
    requires me.Length0 == me.Length1 == 3 && |p| == 3
    modifies me
    ensures forall j, k :: 0 <= j < 3 && 0 <= k < 3 ==> me[j, k] == old(me[j, k]) + GradientTerm(coefficient, p, j, k)
  {
    var j := 0;
    while j < 3
      invariant 0 <= j <= 3
      invariant forall a, b :: 0 <= a < 3 && 0 <= b < 3 ==>
        me[a, b] == if a < j || b < j then old(me[a, b]) + GradientTerm(coefficient, p, a, b) else old(me[a, b])
    {
      var k := j;
      while k < 3
        invariant j <= k <= 3
        invariant forall a, b :: 0 <= a < 3 && 0 <= b < 3 ==>
          me[a, b] == if a < j || b < j || (a == j && b < k) || (b == j && a < k)
                      then old(me[a, b]) + GradientTerm(coefficient, p, a, b) else old(me[a, b])
      {
        me[j, k] := me[j, k] + GradientTerm(coefficient, p, j, k);
        if j != k {
          me[k, j] := me[k, j] + GradientTerm(coefficient, p, k, j);
        }
        k := k + 1;
      }
      j := j + 1;
    }
  }

  lemma GradientIsSymmetric(coefficient: real, p: seq<real>, j: nat, k: nat)
    requires |p| == 3 && j < 3 && k < 3
    ensures GradientTerm(coefficient, p, j, k) == GradientTerm(coefficient, p, k, j)
  {
  }

  /** A constant field has no gradient: the shape coefficients of a triangle add up to zero, and
      with them every row of the diffusion part. */
  lemma GradientIgnoresConstants(coefficient: real, p: seq<real>, j: nat)
    requires |p| == 3 && j < 3 && p[0] + p[1] + p[2] == 0.0
    ensures GradientTerm(coefficient, p, j, 0) + GradientTerm(coefficient, p, j, 1) + GradientTerm(coefficient, p, j, 2) == 0.0
  {
    var c := coefficient * p[j];
    assert c * p[0] + c * p[1] + c * p[2] == c * (p[0] + p[1] + p[2]);
  }

  /** The condition along one side of the element, its coefficients already scaled by the length. */
  datatype Side = Plain | Mixed(stiffness: real, flux: real) | Charged(flux: real)

  function Next(j: nat): nat { if j == 2 then 0 else j + 1 }

  /** What the side from node `s` to the next one adds at (a, b). */
  function SideTerm(side: Side, s: nat, a: nat, b: nat): real {
    if !side.Mixed? || !(a in {s, Next(s)} && b in {s, Next(s)}) then 0.0
    else if a == b then side.stiffness * 2.0 else side.stiffness
  }

  function SideTerms(sides: seq<Side>, upTo: nat, a: nat, b: nat): real
    requires upTo <= |sides|
  {
    if upTo == 0 then 0.0 else SideTerms(sides, upTo - 1, a, b) + SideTerm(sides[upTo - 1], upTo - 1, a, b)
  }

  lemma {:induction false} SidesAreSymmetric(sides: seq<Side>, upTo: nat, a: nat, b: nat)
    requires upTo <= |sides|
    ensures SideTerms(sides, upTo, a, b) == SideTerms(sides, upTo, b, a)
  {
    if upTo > 0 {
      SidesAreSymmetric(sides, upTo - 1, a, b);
    }
  }

  function SideLoad(sides: seq<Side>, upTo: nat, a: nat): real
    requires upTo <= |sides|
  {
    if upTo == 0 then 0.0
    else SideLoad(sides, upTo - 1, a) + (if !sides[upTo - 1].Plain? && (a == upTo - 1 || a == Next(upTo - 1)) then sides[upTo - 1].flux else 0.0)
  }

  /** Contributions of the derivative conditions and the surface charges of the three sides. */
  method AddSides(me: array2<real>, be: array<real>, sides: seq<Side>)
    requires me.Length0 == me.Length1 == be.Length == |sides| == 3
    modifies me, be
    ensures forall a, b :: 0 <= a < 3 && 0 <= b < 3 ==> me[a, b] == old(me[a, b]) + SideTerms(sides, 3, a, b)
    ensures forall a :: 0 <= a < 3 ==> be[a] == old(be[a]) + SideLoad(sides, 3, a)
  {
    for j := 0 to 3
      invariant forall a, b :: 0 <= a < 3 && 0 <= b < 3 ==> me[a, b] == old(me[a, b]) + SideTerms(sides, j, a, b)
      invariant forall a :: 0 <= a < 3 ==> be[a] == old(be[a]) + SideLoad(sides, j, a)
    {
      var k := Next(j);
      match sides[j] {
        case Plain =>
        case Mixed(stiffness, flux) =>
          me[j, j] := me[j, j] + stiffness * 2.0;
          me[k, k] := me[k, k] + stiffness * 2.0;
          me[j, k] := me[j, k] + stiffness;
          me[k, j] := me[k, j] + stiffness;
          be[j] := be[j] + flux;
          be[k] := be[k] + flux;
        case Charged(flux) =>
          be[j] := be[j] + flux;
          be[k] := be[k] + flux;
      }
    }
  }

  /** The matrix and load of one element, before any prescribed value is looked at. */
  method BuildElement(cx: real, cy: real, p: seq<real>, q: seq<real>, charge: real, sides: seq<Side>) returns (me: array2<real>, be: array<real>)
    requires |p| == |q| == |sides| == 3
    ensures fresh(me) && fresh(be) && me.Length0 == me.Length1 == be.Length == 3
    ensures SymmetricMatrix(Rows(me))
    ensures forall a, b :: 0 <= a < 3 && 0 <= b < 3 ==>
      me[a, b] == GradientTerm(cx, p, a, b) + GradientTerm(cy, q, a, b) + SideTerms(sides, 3, a, b)
    ensures forall a :: 0 <= a < 3 ==> be[a] == charge + SideLoad(sides, 3, a)
  {
    me := new real[3, 3]((_, _) => 0.0);
    be := new real[3](_ => charge);
    AddGradient(me, cx, p);
    AddGradient(me, cy, q);
    AddSides(me, be, sides);
    forall a, b | 0 <= a < 3 && 0 <= b < 3 ensures Rows(me)[a][b] == Rows(me)[b][a] {
      GradientIsSymmetric(cx, p, a, b);
      GradientIsSymmetric(cy, q, a, b);
      SidesAreSymmetric(sides, 3, a, b);
    }
  }

  // ----- fixing node values in one element

  /** What the fixed neighbours below `upTo` contribute to row `k`. */
  function KnownPart(row: seq<real>, fixed: seq<bool>, value: seq<real>, upTo: nat): real
    requires |row| == |fixed| == |value| == 3 && upTo <= 3
  {
    if upTo == 0 then 0.0
    else KnownPart(row, fixed, value, upTo - 1) + (if fixed[upTo - 1] then Times(row[upTo - 1], value[upTo - 1]) else 0.0)
  }

  /** The element matrix with fixed rows and columns cleared off the diagonal. */
  function ReducedMatrix(me: seq<seq<real>>, fixed: seq<bool>): (r: seq<seq<real>>)
    requires |me| == |fixed| == 3 && forall j :: 0 <= j < 3 ==> |me[j]| == 3
    ensures |r| == 3 && forall j :: 0 <= j < 3 ==> |r[j]| == 3
  {
    seq(3, a requires 0 <= a < 3 => seq(3, b requires 0 <= b < 3 => if a != b && (fixed[a] || fixed[b]) then 0.0 else me[a][b]))
  }

  /** The load with the known values moved to it. */
  function ReducedLoad(me: seq<seq<real>>, be: seq<real>, fixed: seq<bool>, value: seq<real>): (r: seq<real>)
    requires |me| == |be| == |fixed| == |value| == 3 && forall j :: 0 <= j < 3 ==> |me[j]| == 3
    ensures |r| == 3
  {
    seq(3, k requires 0 <= k < 3 => if fixed[k] then Times(value[k], me[k][k]) else be[k] - KnownPart(me[k], fixed, value, 3))
  }

  ghost predicate Matches(me: array2<real>, m: seq<seq<real>>)
    reads me
  {
    me.Length0 == me.Length1 == |m| == 3 && forall a :: 0 <= a < 3 ==> |m[a]| == 3 && forall b :: 0 <= b < 3 ==> me[a, b] == m[a][b]
  }

  /** The matrix after the first `j` nodes have been looked at. */
  ghost predicate Cleared(me: array2<real>, m: seq<seq<real>>, fixed: seq<bool>, j: nat)
    requires me.Length0 == me.Length1 == |m| == |fixed| == 3 && forall a :: 0 <= a < 3 ==> |m[a]| == 3
    reads me
  {
    forall a, b :: 0 <= a < 3 && 0 <= b < 3 ==>
      me[a, b] == if a != b && ((a < j && fixed[a]) || (b < j && fixed[b])) then 0.0 else m[a][b]
  }

  ghost predicate Moved(be: array<real>, m: seq<seq<real>>, load: seq<real>, fixed: seq<bool>, value: seq<real>, j: nat)
    requires be.Length == |m| == |load| == |fixed| == |value| == 3 && j <= 3 && forall a :: 0 <= a < 3 ==> |m[a]| == 3
    reads be
  {
    forall k :: 0 <= k < 3 ==>
      && (!fixed[k] ==> be[k] == load[k] - KnownPart(m[k], fixed, value, j))
      && (fixed[k] && k < j ==> be[k] == Times(value[k], m[k][k]))
  }

  /** Fix one local node: move its known column to the load and clear its row and column. */
  method FixNode(me: array2<real>, be: array<real>, j: nat, ghost m: seq<seq<real>>, ghost load: seq<real>, ghost fixed: seq<bool>, value: seq<real>)
    requires me.Length0 == me.Length1 == be.Length == |m| == |load| == |fixed| == |value| == 3 && j < 3 && fixed[j]
    requires forall a :: 0 <= a < 3 ==> |m[a]| == 3
    requires Cleared(me, m, fixed, j) && Moved(be, m, load, fixed, value, j)
    modifies me, be
    ensures Cleared(me, m, fixed, j + 1) && Moved(be, m, load, fixed, value, j + 1)
  {
    ghost var column, before := [me[0, j], me[1, j], me[2, j]], be[..];
    var k := 0;
    while k < 3
      invariant 0 <= k <= 3
      invariant forall a, b :: 0 <= a < 3 && 0 <= b < 3 ==>
        me[a, b] == if a != b && ((a == j && b < k) || (b == j && a < k)) then 0.0 else old(me[a, b])
      invariant forall i :: 0 <= i < 3 ==> be[i] == if i < k && i != j then before[i] - Times(column[i], value[j]) else before[i]
    {
      if j != k {
        be[k] := be[k] - Times(me[k, j], value[j]);
        me[k, j] := 0.0;
        me[j, k] := 0.0;
      }
      k := k + 1;
    }
    be[j] := Times(value[j], me[j, j]);
    assert Cleared(me, m, fixed, j + 1);
    forall i | 0 <= i < 3
      ensures !fixed[i] ==> be[i] == load[i] - KnownPart(m[i], fixed, value, j + 1)
      ensures fixed[i] && i < j + 1 ==> be[i] == Times(value[i], m[i][i])
    {
      if i != j {
        assert column[i] == if i < j && fixed[i] then 0.0 else m[i][j];
        assert be[i] == before[i] - Times(column[i], value[j]);
      }
    }
  }

  /** Process the prescribed values of one element. */
  method FixPrescribed(me: array2<real>, be: array<real>, n: seq<nat>, isFixed: seq<bool>, solution: seq<real>)
    requires me.Length0 == me.Length1 == be.Length == |n| == 3 && |isFixed| == |solution|
    requires forall j :: 0 <= j < 3 ==> n[j] < |solution|
    modifies me, be
    ensures Matches(me, ReducedMatrix(old(Rows(me)), LocalFixed(n, isFixed)))
    ensures be[..] == ReducedLoad(old(Rows(me)), old(be[..]), LocalFixed(n, isFixed), LocalValue(n, solution))
  {
    ghost var m, load, fixed := Rows(me), be[..], LocalFixed(n, isFixed);
    var value := LocalValue(n, solution);
    var j := 0;
    while j < 3
      invariant 0 <= j <= 3
      invariant Cleared(me, m, fixed, j) && Moved(be, m, load, fixed, value, j)
    {
      if isFixed[n[j]] {
        FixNode(me, be, j, m, load, fixed, value);
      } else {
        assert !fixed[j];
        assert forall k :: 0 <= k < 3 ==> KnownPart(m[k], fixed, value, j + 1) == KnownPart(m[k], fixed, value, j) + 0.0;
      }
      j := j + 1;
    }
    forall k | 0 <= k < 3 ensures be[..][k] == ReducedLoad(m, load, fixed, value)[k] {
    }
    assert be[..] == ReducedLoad(m, load, fixed, value);
  }

  function Rows(me: array2<real>): (m: seq<seq<real>>)
    requires me.Length0 == me.Length1 == 3
    reads me
    ensures Matches(me, m)
  {
    seq(3, a requires 0 <= a < 3 && me.Length0 == me.Length1 == 3 reads me =>
      seq(3, b requires 0 <= b < 3 && me.Length0 == me.Length1 == 3 reads me => me[a, b]))
  }

  function LocalFixed(n: seq<nat>, isFixed: seq<bool>): (f: seq<bool>)
    requires |n| == 3 && forall j :: 0 <= j < 3 ==> n[j] < |isFixed|
    ensures |f| == 3
  {
    [isFixed[n[0]], isFixed[n[1]], isFixed[n[2]]]
  }

  function LocalValue(n: seq<nat>, solution: seq<real>): (v: seq<real>)
    requires |n| == 3 && forall j :: 0 <= j < 3 ==> n[j] < |solution|
    ensures |v| == 3
  {
    [solution[n[0]], solution[n[1]], solution[n[2]]]
  }

  /** The values respect what is prescribed. */
  ghost predicate Agrees(x: seq<real>, isFixed: seq<bool>, solution: seq<real>) {
    |x| == |isFixed| == |solution| && forall i :: 0 <= i < |x| && isFixed[i] ==> x[i] == solution[i]
  }

  /** Eliminating changes the residual of no free row and empties that of every fixed row. */
  lemma ReducedElementResidual(me: seq<seq<real>>, be: seq<real>, n: seq<nat>, isFixed: seq<bool>, solution: seq<real>, x: seq<real>, j: nat)
    requires |me| == |be| == |n| == 3 && j < 3 && forall i :: 0 <= i < 3 ==> |me[i]| == 3 && n[i] < |x|
    requires Agrees(x, isFixed, solution)
    ensures var fixed, value := LocalFixed(n, isFixed), LocalValue(n, solution);
      ElementResidual(ReducedMatrix(me, fixed), ReducedLoad(me, be, fixed, value), n, x, j)
      == if isFixed[n[j]] then 0.0 else ElementResidual(me, be, n, x, j)
  {
    var fixed, value, y := LocalFixed(n, isFixed), LocalValue(n, solution), [x[n[0]], x[n[1]], x[n[2]]];
    forall i | 0 <= i < 3 ensures fixed[i] ==> y[i] == value[i] {
    }
    if fixed[j] {
      FixedRowResidual(me, be, fixed, value, y, j);
    } else {
      FreeRowResidual(me, be, fixed, value, y, j);
    }
  }

  /** A row of an element matrix times its three node values, minus the load. */
  function RowResidual(row: seq<real>, load: real, y: seq<real>): real
    requires |row| == |y| == 3
  {
    row[0] * y[0] + row[1] * y[1] + row[2] * y[2] - load
  }

  lemma FixedRowResidual(me: seq<seq<real>>, be: seq<real>, fixed: seq<bool>, value: seq<real>, y: seq<real>, j: nat)
    requires |me| == |be| == |fixed| == |value| == |y| == 3 && j < 3 && forall i :: 0 <= i < 3 ==> |me[i]| == 3
    requires fixed[j] && y[j] == value[j]
    ensures RowResidual(ReducedMatrix(me, fixed)[j], ReducedLoad(me, be, fixed, value)[j], y) == 0.0
  {
    var row := ReducedMatrix(me, fixed)[j];
    assert forall i :: 0 <= i < 3 && i != j ==> row[i] == 0.0;
    assert row[j] == me[j][j];
  }

  lemma {:induction false} FreeRowResidual(me: seq<seq<real>>, be: seq<real>, fixed: seq<bool>, value: seq<real>, y: seq<real>, j: nat)
    requires |me| == |be| == |fixed| == |value| == |y| == 3 && j < 3 && forall i :: 0 <= i < 3 ==> |me[i]| == 3
    requires !fixed[j] && forall i :: 0 <= i < 3 && fixed[i] ==> y[i] == value[i]
    ensures RowResidual(ReducedMatrix(me, fixed)[j], ReducedLoad(me, be, fixed, value)[j], y) == RowResidual(me[j], be[j], y)
  {
    KnownPartIs(me[j], fixed, value);
    ReducedProduct(me, fixed, value, y, j, 0);
    ReducedProduct(me, fixed, value, y, j, 1);
    ReducedProduct(me, fixed, value, y, j, 2);
  }

  lemma ReducedProduct(me: seq<seq<real>>, fixed: seq<bool>, value: seq<real>, y: seq<real>, j: nat, i: nat)
    requires |me| == |fixed| == |value| == |y| == 3 && i < 3 && j < 3 && forall k :: 0 <= k < 3 ==> |me[k]| == 3
    requires !fixed[j] && (fixed[i] ==> y[i] == value[i])
    ensures ReducedMatrix(me, fixed)[j][i] * y[i] == me[j][i] * y[i] - (if fixed[i] then Times(me[j][i], value[i]) else 0.0)
  {
  }

  lemma KnownPartIs(row: seq<real>, fixed: seq<bool>, value: seq<real>)
    requires |row| == |fixed| == |value| == 3
    ensures KnownPart(row, fixed, value, 3)
         == (if fixed[0] then Times(row[0], value[0]) else 0.0)
          + (if fixed[1] then Times(row[1], value[1]) else 0.0)
          + (if fixed[2] then Times(row[2], value[2]) else 0.0)
  {
    assert KnownPart(row, fixed, value, 1) == KnownPart(row, fixed, value, 0) + (if fixed[0] then Times(row[0], value[0]) else 0.0);
    assert KnownPart(row, fixed, value, 2) == KnownPart(row, fixed, value, 1) + (if fixed[1] then Times(row[1], value[1]) else 0.0);
  }

  // ----- the contributions in numbers

  /** One gradient direction adds the product of both shape coefficients, in both halves. */
  lemma GradientIsProduct(coefficient: real, p: seq<real>, j: nat, k: nat)
    requires |p| == 3 && j < 3 && k < 3
    ensures GradientTerm(coefficient, p, j, k) == coefficient * p[j] * p[k]
  {
    assert coefficient * p[j] * p[k] == coefficient * p[k] * p[j];
  }

  function Stiffness(side: Side): real { if side.Mixed? then side.stiffness else 0.0 }

  function Flux(side: Side): real { if side.Plain? then 0.0 else side.flux }

  /** The side between two corners couples them, and adds twice as much at either; its flux goes to both. */
  lemma SidesInNumbers(sides: seq<Side>)
    requires |sides| == 3
    ensures SideTerms(sides, 3, 0, 1) == SideTerms(sides, 3, 1, 0) == Stiffness(sides[0])
    ensures SideTerms(sides, 3, 1, 2) == SideTerms(sides, 3, 2, 1) == Stiffness(sides[1])
    ensures SideTerms(sides, 3, 2, 0) == SideTerms(sides, 3, 0, 2) == Stiffness(sides[2])
    ensures SideTerms(sides, 3, 0, 0) == 2.0 * Stiffness(sides[0]) + 2.0 * Stiffness(sides[2])
    ensures SideTerms(sides, 3, 1, 1) == 2.0 * Stiffness(sides[1]) + 2.0 * Stiffness(sides[0])
    ensures SideTerms(sides, 3, 2, 2) == 2.0 * Stiffness(sides[2]) + 2.0 * Stiffness(sides[1])
    ensures SideLoad(sides, 3, 0) == Flux(sides[0]) + Flux(sides[2])
    ensures SideLoad(sides, 3, 1) == Flux(sides[0]) + Flux(sides[1])
    ensures SideLoad(sides, 3, 2) == Flux(sides[1]) + Flux(sides[2])
  {
    forall a: nat, b: nat ensures SideTerms(sides, 3, a, b) == SideTerm(sides[0], 0, a, b) + SideTerm(sides[1], 1, a, b) + SideTerm(sides[2], 2, a, b) {
      SideTermsAre(sides, a, b);
    }
    SideLoadIs(sides, 0);
    SideLoadIs(sides, 1);
    SideLoadIs(sides, 2);
  }

  lemma SideTermsAre(sides: seq<Side>, a: nat, b: nat)
    requires |sides| == 3
    ensures SideTerms(sides, 3, a, b) == SideTerm(sides[0], 0, a, b) + SideTerm(sides[1], 1, a, b) + SideTerm(sides[2], 2, a, b)
  {
    assert SideTerms(sides, 0, a, b) == 0.0;
    assert SideTerms(sides, 1, a, b) == SideTerms(sides, 0, a, b) + SideTerm(sides[0], 0, a, b);
    assert SideTerms(sides, 2, a, b) == SideTerms(sides, 1, a, b) + SideTerm(sides[1], 1, a, b);
  }

  lemma SideLoadIs(sides: seq<Side>, a: nat)
    requires |sides| == 3 && a < 3
    ensures SideLoad(sides, 3, a) == Flux(sides[a]) + Flux(sides[if a == 0 then 2 else a - 1])
  {
    assert SideLoad(sides, 0, a) == 0.0;
    assert SideLoad(sides, 1, a) == if a == 0 || a == 1 then Flux(sides[0]) else 0.0;
    assert SideLoad(sides, 2, a) == SideLoad(sides, 1, a) + (if a == 1 || a == 2 then Flux(sides[1]) else 0.0);
  }
}
