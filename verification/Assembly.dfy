/** Summing element matrices into a symmetric system of which only one half is stored. */
module Assembly {

  import opened Reals
  import opened PrescribedValues

  type Half = map<(nat, nat), real>

  function Key(i: nat, j: nat): (nat, nat) { if i <= j then (i, j) else (j, i) }

  /** The matrix that a stored half stands for. */
  function At(half: Half, i: nat, j: nat): real {
    if Key(i, j) in half then half[Key(i, j)] else 0.0
  }

  /** A symmetric linear system under construction. */
  class SymmetricSystem {
    var half: Half
    var rhs: seq<real>
    const dimension: nat

    constructor (dimension: nat)
      ensures this.dimension == dimension == |rhs| && half == map[] && forall i :: 0 <= i < dimension ==> rhs[i] == 0.0
    {
      this.dimension := dimension;
      half := map[];
      rhs := seq(dimension, _ => 0.0);
    }

    method Get(i: nat, j: nat) returns (v: real)
      ensures v == At(half, i, j)
    {
      v := if Key(i, j) in half then half[Key(i, j)] else 0.0;
    }

    method Put(v: real, i: nat, j: nat)
      modifies this`half
      ensures half == old(half)[Key(i, j) := v]
    {
      half := half[Key(i, j) := v];
    }

    /** Subtract row `j` of an element's upper half. */
    method CombineRow(me: array2<real>, n: seq<nat>, j: nat, ghost half0: Half, ghost e: Element)
      requires me.Length0 == me.Length1 == 3 && j < 3 && Formed(e) && n == e.n && Matches(me, e.me)
      requires Subtracted(half, half0, e, j, j)
      modifies this`half
      ensures Subtracted(half, half0, e, j + 1, j + 1)
    {
      var k := j;
      while k < 3
        invariant j <= k <= 3
        invariant Subtracted(half, half0, e, j, k)
      {
        var was := Get(n[j], n[k]);
        SubtractOne(half, half0, e, j, k);
        Put(was - me[j, k], n[j], n[k]);
        k := k + 1;
      }
      NextRow(half, half0, e, j);
    }

    /** Subtract one element matrix, upper half only, and its load. */
    method Combine(me: array2<real>, be: array<real>, n: seq<nat>, ghost e: Element)
      requires me.Length0 == me.Length1 == be.Length == 3 && |rhs| == dimension
      requires n == e.n && Shaped(e, dimension) && SymmetricMatrix(e.me) && Matches(me, e.me) && be[..] == e.be
      modifies this
      ensures |rhs| == dimension && Lowered(half, rhs, old(half), old(rhs), e)
    {
      ghost var half0, rhs0 := half, rhs;
      var j := 0;
      while j < 3
        invariant 0 <= j <= 3 && |rhs| == dimension
        invariant Subtracted(half, half0, e, j, j)
        invariant forall r :: 0 <= r < dimension ==> rhs[r] == rhs0[r] - LoadBelow(e, r, j)
      {
        CombineRow(me, n, j, half0, e);
        assert be[j] == e.be[j];
        NextLoad(e, j);
        rhs := rhs[n[j] := rhs[n[j]] - be[j]];
        j := j + 1;
      }
      forall r, c ensures At(half, r, c) == At(half0, r, c) - Entry(e, r, c) {
        AllSubtracted(half, half0, e, r, c);
      }
    }
  }

  /** Three distinct nodes, a three by three matrix, a load for each. */
  ghost predicate Formed(e: Element) {
    && |e.n| == |e.me| == |e.be| == 3
    && (forall j :: 0 <= j < 3 ==> |e.me[j]| == 3)
    && e.n[0] != e.n[1] && e.n[0] != e.n[2] && e.n[1] != e.n[2]
  }

  /** Where an element keeps a node. */
  function LocalIndex(n: seq<nat>, r: nat): (j: nat)
    requires |n| == 3 && r in n
    ensures j < 3 && n[j] == r
  {
    if n[0] == r then 0 else if n[1] == r then 1 else 2
  }

  /** What an element adds at a pair of nodes. */
  function Entry(e: Element, r: nat, c: nat): real
    requires Formed(e)
  {
    if r in e.n && c in e.n then e.me[LocalIndex(e.n, r)][LocalIndex(e.n, c)] else 0.0
  }

  function Load(e: Element, r: nat): real
    requires Formed(e)
  {
    if r in e.n then e.be[LocalIndex(e.n, r)] else 0.0
  }

  /** The load of the first `upTo` nodes of an element. */
  function LoadBelow(e: Element, r: nat, upTo: nat): real
    requires Formed(e)
  {
    if r in e.n && LocalIndex(e.n, r) < upTo then e.be[LocalIndex(e.n, r)] else 0.0
  }

  lemma NextLoad(e: Element, j: nat)
    requires Formed(e) && j < 3
    ensures LoadBelow(e, e.n[j], j) == 0.0 && LoadBelow(e, e.n[j], j + 1) == e.be[j]
    ensures forall r :: r != e.n[j] ==> LoadBelow(e, r, j + 1) == LoadBelow(e, r, j)
  {
  }

  // ----- one element into the stored half

  ghost predicate Done(a: nat, b: nat, j: nat, k: nat) { a < j || (a == j && b < k) }

  /** One pair of the element is subtracted exactly when it comes before (j, k). */
  ghost predicate PairSubtracted(half: Half, half0: Half, e: Element, a: nat, b: nat, j: nat, k: nat)
    requires Formed(e) && a < 3 && b < 3
  {
    At(half, e.n[a], e.n[b]) == At(half0, e.n[a], e.n[b]) - (if Done(a, b, j, k) then e.me[a][b] else 0.0)
  }

  ghost predicate Untouched(half: Half, half0: Half, e: Element) {
    forall r, c :: r !in e.n || c !in e.n ==> At(half, r, c) == At(half0, r, c)
  }

  /** The half after the pairs before (j, k) of the element have been subtracted. */
  ghost predicate Subtracted(half: Half, half0: Half, e: Element, j: nat, k: nat)
    requires Formed(e)
  {
    && (forall a: nat, b: nat :: a <= b < 3 ==> PairSubtracted(half, half0, e, a, b, j, k))
    && Untouched(half, half0, e)
  }

  lemma SameKey(i: nat, j: nat, k: nat, l: nat)
    ensures Key(i, j) == Key(k, l) <==> (i == k && j == l) || (i == l && j == k)
  {
  }

  lemma NextRow(half: Half, half0: Half, e: Element, j: nat)
    requires Formed(e) && j < 3 && Subtracted(half, half0, e, j, 3)
    ensures Subtracted(half, half0, e, j + 1, j + 1)
  {
    var i := j + 1;
    forall a: nat, b: nat | a <= b < 3 ensures PairSubtracted(half, half0, e, a, b, i, i) {
      assert PairSubtracted(half, half0, e, a, b, j, 3);
      assert Done(a, b, j, 3) == Done(a, b, i, i);
    }
  }

  lemma SubtractOne(half: Half, half0: Half, e: Element, j: nat, k: nat)
    requires j <= k < 3 && Formed(e)
    requires Subtracted(half, half0, e, j, k)
    ensures Subtracted(half[Key(e.n[j], e.n[k]) := At(half, e.n[j], e.n[k]) - e.me[j][k]], half0, e, j, k + 1)
  {
    var after := half[Key(e.n[j], e.n[k]) := At(half, e.n[j], e.n[k]) - e.me[j][k]];
    var i := k + 1;
    forall a: nat, b: nat | a <= b < 3 ensures PairSubtracted(after, half0, e, a, b, j, i) {
      assert PairSubtracted(half, half0, e, a, b, j, k);
      OtherPair(e, a, b, j, k);
      assert Done(a, b, j, i) == (Done(a, b, j, k) || (a == j && b == k));
    }
    forall r, c | r !in e.n || c !in e.n ensures At(after, r, c) == At(half0, r, c) {
      SameKey(r, c, e.n[j], e.n[k]);
    }
  }

  lemma OtherPair(e: Element, a: nat, b: nat, j: nat, k: nat)
    requires Formed(e) && a <= b < 3 && j <= k < 3
    ensures Key(e.n[a], e.n[b]) == Key(e.n[j], e.n[k]) <==> a == j && b == k
  {
    SameKey(e.n[a], e.n[b], e.n[j], e.n[k]);
    SameNode(e, a, j);
    SameNode(e, b, k);
    SameNode(e, a, k);
    SameNode(e, b, j);
  }

  lemma SameNode(e: Element, a: nat, b: nat)
    requires Formed(e) && a < 3 && b < 3
    ensures e.n[a] == e.n[b] <==> a == b
  {
  }

  lemma AllSubtracted(half: Half, half0: Half, e: Element, r: nat, c: nat)
    requires Formed(e)
    requires SymmetricMatrix(e.me) && Subtracted(half, half0, e, 3, 3)
    ensures At(half, r, c) == At(half0, r, c) - Entry(e, r, c)
  {
    if r in e.n && c in e.n {
      var a, b := LocalIndex(e.n, r), LocalIndex(e.n, c);
      assert Key(r, c) == Key(c, r);
      if a <= b {
        assert PairSubtracted(half, half0, e, a, b, 3, 3);
      } else {
        assert PairSubtracted(half, half0, e, b, a, 3, 3);
      }
    }
  }

  // ----- all elements

  ghost predicate AllShaped(elements: seq<Element>, numNodes: nat) {
    forall i :: 0 <= i < |elements| ==> Shaped(elements[i], numNodes) && SymmetricMatrix(elements[i].me)
  }

  function Total(elements: seq<Element>, r: nat, c: nat): real
    requires forall i :: 0 <= i < |elements| ==> Formed(elements[i])
  {
    if |elements| == 0 then 0.0
    else Total(elements[..|elements| - 1], r, c) + Entry(elements[|elements| - 1], r, c)
  }

  function TotalLoad(elements: seq<Element>, r: nat): real
    requires forall i :: 0 <= i < |elements| ==> Formed(elements[i])
  {
    if |elements| == 0 then 0.0
    else TotalLoad(elements[..|elements| - 1], r) + Load(elements[|elements| - 1], r)
  }

  /** The system holds exactly the negated sum of the elements. */
  ghost predicate Assembled(half: Half, rhs: seq<real>, elements: seq<Element>)
    requires AllShaped(elements, |rhs|)
  {
    && (forall r: nat, c: nat :: At(half, r, c) == -Total(elements, r, c))
    && (forall r :: 0 <= r < |rhs| ==> rhs[r] == -TotalLoad(elements, r))
  }

  /** An element with its prescribed values moved to the load. */
  function Reduced(e: Element, isFixed: seq<bool>, solution: seq<real>): (r: Element)
    requires Shaped(e, |solution|) && |isFixed| == |solution|
    ensures Shaped(r, |solution|) && r.n == e.n && (SymmetricMatrix(e.me) ==> SymmetricMatrix(r.me))
  {
    Element(e.n, ReducedMatrix(e.me, LocalFixed(e.n, isFixed)),
            ReducedLoad(e.me, e.be, LocalFixed(e.n, isFixed), LocalValue(e.n, solution)))
  }

  function ReducedAll(elements: seq<Element>, isFixed: seq<bool>, solution: seq<real>): (r: seq<Element>)
    requires AllShaped(elements, |solution|) && |isFixed| == |solution|
    ensures |r| == |elements| && AllShaped(r, |solution|)
    ensures forall i :: 0 <= i < |elements| ==> r[i] == Reduced(elements[i], isFixed, solution)
  {
    seq(|elements|, i requires 0 <= i < |elements| => Reduced(elements[i], isFixed, solution))
  }

  /** Reduce one element by the prescribed values and combine it. */
  method AssembleOne(system: SymmetricSystem, e: Element, isFixed: seq<bool>, solution: seq<real>)
    requires Shaped(e, |solution|) && SymmetricMatrix(e.me) && |isFixed| == |solution| == |system.rhs| == system.dimension
    modifies system
    ensures Lowered(system.half, system.rhs, old(system.half), old(system.rhs), Reduced(e, isFixed, solution))
  {
    var me, be := Load3(e);
    FixPrescribed(me, be, e.n, isFixed, solution);
    system.Combine(me, be, e.n, Reduced(e, isFixed, solution));
  }

  /** Build the global system: every element is reduced by the prescribed values, then combined. */
  method Assemble(elements: seq<Element>, isFixed: seq<bool>, solution: seq<real>) returns (system: SymmetricSystem)
    requires AllShaped(elements, |solution|) && |isFixed| == |solution|
    ensures fresh(system) && system.dimension == |system.rhs| == |solution|
    ensures Assembled(system.half, system.rhs, ReducedAll(elements, isFixed, solution))
  {
    system := new SymmetricSystem(|solution|);
    ghost var reduced := ReducedAll(elements, isFixed, solution);
    var i := 0;
    while i < |elements|
      invariant 0 <= i <= |elements| && fresh(system) && system.dimension == |system.rhs| == |solution|
      invariant Assembled(system.half, system.rhs, reduced[..i])
    {
      ghost var half, rhs := system.half, system.rhs;
      AssembleOne(system, elements[i], isFixed, solution);
      AddOne(system.half, system.rhs, half, rhs, reduced, i);
      i := i + 1;
    }
    assert reduced[..i] == reduced;
  }

  /** One element less: every entry and load has lost what the element adds there. */
  ghost predicate Lowered(half: Half, rhs: seq<real>, half0: Half, rhs0: seq<real>, e: Element)
    requires Formed(e)
  {
    && |rhs| == |rhs0|
    && (forall r, c :: At(half, r, c) == At(half0, r, c) - Entry(e, r, c))
    && (forall r :: 0 <= r < |rhs| ==> rhs[r] == rhs0[r] - Load(e, r))
  }

  lemma AddOne(half: Half, rhs: seq<real>, half0: Half, rhs0: seq<real>, elements: seq<Element>, i: nat)
    requires i < |elements| && AllShaped(elements, |rhs|)
    requires Lowered(half, rhs, half0, rhs0, elements[i]) && Assembled(half0, rhs0, elements[..i])
    ensures Assembled(half, rhs, elements[..i + 1])
  {
    assert elements[..i + 1][..i] == elements[..i];
  }

  method Load3(e: Element) returns (me: array2<real>, be: array<real>)
    requires Formed(e)
    ensures fresh(me) && fresh(be) && me.Length0 == me.Length1 == be.Length == 3
    ensures Rows(me) == e.me && be[..] == e.be
  {
    me := new real[3, 3]((a, b) requires 0 <= a < 3 && 0 <= b < 3 => e.me[a][b]);
    be := new real[3](a requires 0 <= a < 3 => e.be[a]);
    RowsAre(me, e.me);
  }

  lemma RowsAre(me: array2<real>, m: seq<seq<real>>)
    requires Matches(me, m)
    ensures Rows(me) == m
  {
    var rows := Rows(me);
    forall a | 0 <= a < 3 ensures rows[a] == m[a] {
      assert forall b :: 0 <= b < 3 ==> rows[a][b] == me[a, b] == m[a][b];
    }
  }

  // ----- what the assembled system says

  /** A row of the assembled matrix times the node values, over the columns below `upTo`. */
  function RowTimes(half: Half, r: nat, x: seq<real>, upTo: nat): real
    requires upTo <= |x|
  {
    if upTo == 0 then 0.0 else RowTimes(half, r, x, upTo - 1) + Times(At(half, r, upTo - 1), x[upTo - 1])
  }

  function SystemResidual(half: Half, rhs: seq<real>, r: nat, x: seq<real>): real
    requires r < |rhs|
  {
    RowTimes(half, r, x, |x|) - rhs[r]
  }

  /** The same residual, element by element: each contributes the row it keeps for the node. */
  function ElementResiduals(elements: seq<Element>, r: nat, x: seq<real>): real
    requires AllShaped(elements, |x|)
  {
    if |elements| == 0 then 0.0
    else ElementResiduals(elements[..|elements| - 1], r, x) + OwnResidual(elements[|elements| - 1], r, x)
  }

  function OwnResidual(e: Element, r: nat, x: seq<real>): real
    requires Shaped(e, |x|)
  {
    if r in e.n then ElementResidual(e.me, e.be, e.n, x, LocalIndex(e.n, r)) else 0.0
  }

  function EntryTimes(e: Element, r: nat, x: seq<real>, upTo: nat): real
    requires Shaped(e, |x|) && upTo <= |x|
  {
    if upTo == 0 then 0.0 else EntryTimes(e, r, x, upTo - 1) + Times(Entry(e, r, upTo - 1), x[upTo - 1])
  }

  function TotalTimes(elements: seq<Element>, r: nat, x: seq<real>, upTo: nat): real
    requires AllShaped(elements, |x|) && upTo <= |x|
  {
    if upTo == 0 then 0.0 else TotalTimes(elements, r, x, upTo - 1) + Times(Total(elements, r, upTo - 1), x[upTo - 1])
  }

  lemma {:induction false} AssembledRow(half: Half, rhs: seq<real>, elements: seq<Element>, r: nat, x: seq<real>, upTo: nat)
    requires AllShaped(elements, |rhs|) && |x| == |rhs| && upTo <= |x|
    requires Assembled(half, rhs, elements)
    ensures RowTimes(half, r, x, upTo) == -TotalTimes(elements, r, x, upTo)
  {
    if upTo > 0 {
      AssembledRow(half, rhs, elements, r, x, upTo - 1);
      var t := Total(elements, r, upTo - 1);
      assert At(half, r, upTo - 1) == -t;
      NegatedTimes(t, x[upTo - 1]);
    }
  }

  lemma NegatedTimes(a: real, b: real)
    ensures Times(-a, b) == -Times(a, b)
  {
  }

  lemma {:induction false} TotalTimesSplits(elements: seq<Element>, r: nat, x: seq<real>, upTo: nat)
    requires |elements| > 0 && AllShaped(elements, |x|) && upTo <= |x|
    ensures TotalTimes(elements, r, x, upTo)
         == TotalTimes(elements[..|elements| - 1], r, x, upTo) + EntryTimes(elements[|elements| - 1], r, x, upTo)
  {
    if upTo > 0 {
      TotalTimesSplits(elements, r, x, upTo - 1);
      TimesAdds(Total(elements[..|elements| - 1], r, upTo - 1), Entry(elements[|elements| - 1], r, upTo - 1), x[upTo - 1]);
    }
  }

  lemma {:induction false} NothingTimes(x: seq<real>, r: nat, upTo: nat)
    requires upTo <= |x|
    ensures TotalTimes([], r, x, upTo) == 0.0
  {
    if upTo > 0 {
      NothingTimes(x, r, upTo - 1);
    }
  }

  function Own(row: seq<real>, n: seq<nat>, x: seq<real>, j: nat, upTo: nat): real
    requires |row| == |n| == 3 && j < 3 && n[j] < |x|
  {
    if n[j] < upTo then Times(row[j], x[n[j]]) else 0.0
  }

  /** Summing an element's row over all columns visits exactly its three nodes. */
  lemma {:induction false} EntryTimesIs(e: Element, r: nat, x: seq<real>, upTo: nat)
    requires Shaped(e, |x|) && upTo <= |x| && r in e.n
    ensures var row := e.me[LocalIndex(e.n, r)];
      EntryTimes(e, r, x, upTo) == Own(row, e.n, x, 0, upTo) + Own(row, e.n, x, 1, upTo) + Own(row, e.n, x, 2, upTo)
  {
    if upTo > 0 {
      EntryTimesIs(e, r, x, upTo - 1);
      var c, row := upTo - 1, e.me[LocalIndex(e.n, r)];
      assert forall j :: 0 <= j < 3 && e.n[j] != c ==> Own(row, e.n, x, j, upTo) == Own(row, e.n, x, j, c);
      if c in e.n {
        var j := LocalIndex(e.n, c);
        assert Entry(e, r, c) == row[j];
        assert Own(row, e.n, x, j, upTo) == Own(row, e.n, x, j, c) + Times(row[j], x[c]);
      } else {
        assert Entry(e, r, c) == 0.0;
      }
    }
  }

  lemma {:induction false} ForeignRow(e: Element, r: nat, x: seq<real>, upTo: nat)
    requires Shaped(e, |x|) && upTo <= |x| && r !in e.n
    ensures EntryTimes(e, r, x, upTo) == 0.0
  {
    if upTo > 0 {
      ForeignRow(e, r, x, upTo - 1);
    }
  }

  lemma RowResidualIs(row: seq<real>, load: real, y: seq<real>)
    requires |row| == |y| == 3
    ensures RowResidual(row, load, y) == Times(row[0], y[0]) + Times(row[1], y[1]) + Times(row[2], y[2]) - load
  {
  }

  lemma OwnResidualIs(e: Element, r: nat, x: seq<real>)
    requires Shaped(e, |x|)
    ensures OwnResidual(e, r, x) == EntryTimes(e, r, x, |x|) - Load(e, r)
  {
    if r in e.n {
      EntryTimesIs(e, r, x, |x|);
      var j := LocalIndex(e.n, r);
      RowResidualIs(e.me[j], e.be[j], [x[e.n[0]], x[e.n[1]], x[e.n[2]]]);
    } else {
      ForeignRow(e, r, x, |x|);
    }
  }

  lemma {:induction false} ResidualsAddUp(elements: seq<Element>, r: nat, x: seq<real>)
    requires AllShaped(elements, |x|)
    ensures ElementResiduals(elements, r, x) == TotalTimes(elements, r, x, |x|) - TotalLoad(elements, r)
  {
    if |elements| == 0 {
      NothingTimes(x, r, |x|);
      assert elements == [];
    } else {
      ResidualsAddUp(elements[..|elements| - 1], r, x);
      TotalTimesSplits(elements, r, x, |x|);
      OwnResidualIs(elements[|elements| - 1], r, x);
    }
  }

  /** Every row of an assembled system is, up to sign, the sum of the element rows at that node. */
  lemma SystemResidualIs(half: Half, rhs: seq<real>, elements: seq<Element>, r: nat, x: seq<real>)
    requires AllShaped(elements, |rhs|) && |x| == |rhs| && r < |rhs|
    requires Assembled(half, rhs, elements)
    ensures SystemResidual(half, rhs, r, x) == -ElementResiduals(elements, r, x)
  {
    AssembledRow(half, rhs, elements, r, x, |x|);
    ResidualsAddUp(elements, r, x);
  }

  lemma {:induction false} ReducedResiduals(elements: seq<Element>, isFixed: seq<bool>, solution: seq<real>, r: nat, x: seq<real>)
    requires AllShaped(elements, |solution|) && Agrees(x, isFixed, solution) && r < |x|
    ensures ElementResiduals(ReducedAll(elements, isFixed, solution), r, x)
         == if isFixed[r] then 0.0 else ElementResiduals(elements, r, x)
  {
    if |elements| > 0 {
      var last, reduced := |elements| - 1, ReducedAll(elements, isFixed, solution);
      ReducedResiduals(elements[..last], isFixed, solution, r, x);
      assert reduced[..last] == ReducedAll(elements[..last], isFixed, solution);
      var e := elements[last];
      if r in e.n {
        ReducedElementResidual(e.me, e.be, e.n, isFixed, solution, x, LocalIndex(e.n, r));
      }
    }
  }

  /** Prescribing values preserves meaning: for node values that agree with the prescribed ones, the
      assembled system has the residual of the unreduced elements on every free row, and none on
      every fixed row, whatever the mix of fixed nodes and elements. */
  lemma PrescribingPreservesMeaning(half: Half, rhs: seq<real>, elements: seq<Element>, isFixed: seq<bool>, solution: seq<real>, x: seq<real>, r: nat)
    requires AllShaped(elements, |solution|) && Agrees(x, isFixed, solution) && |rhs| == |x| && r < |x|
    requires Assembled(half, rhs, ReducedAll(elements, isFixed, solution))
    ensures SystemResidual(half, rhs, r, x) == if isFixed[r] then 0.0 else -ElementResiduals(elements, r, x)
  {
    SystemResidualIs(half, rhs, ReducedAll(elements, isFixed, solution), r, x);
    ReducedResiduals(elements, isFixed, solution, r, x);
  }

  lemma {:induction false} FixedRowIsEmpty(elements: seq<Element>, isFixed: seq<bool>, solution: seq<real>, r: nat, c: nat)
    requires AllShaped(elements, |solution|) && |isFixed| == |solution| && r < |solution| && c < |solution| && r != c
    requires isFixed[r] || isFixed[c]
    ensures Total(ReducedAll(elements, isFixed, solution), r, c) == 0.0
  {
    if |elements| > 0 {
      var last, reduced := |elements| - 1, ReducedAll(elements, isFixed, solution);
      FixedRowIsEmpty(elements[..last], isFixed, solution, r, c);
      assert reduced[..last] == ReducedAll(elements[..last], isFixed, solution);
    }
  }

  lemma {:induction false} OnlyTheDiagonal(half: Half, r: nat, x: seq<real>, upTo: nat)
    requires upTo <= |x| && forall c :: 0 <= c < |x| && c != r ==> At(half, r, c) == 0.0
    ensures RowTimes(half, r, x, upTo) == if r < upTo then Times(At(half, r, r), x[r]) else 0.0
  {
    if upTo > 0 {
      OnlyTheDiagonal(half, r, x, upTo - 1);
    }
  }

  /** The converse: a row of a fixed node mentions that node only, so any solution of the assembled
      system takes the prescribed value wherever the node's diagonal is not zero. */
  lemma SolutionsAgree(half: Half, rhs: seq<real>, elements: seq<Element>, isFixed: seq<bool>, solution: seq<real>, x: seq<real>, r: nat)
    requires AllShaped(elements, |solution|) && |isFixed| == |rhs| == |x| == |solution| && r < |x|
    requires Assembled(half, rhs, ReducedAll(elements, isFixed, solution))
    requires isFixed[r] && At(half, r, r) != 0.0
    ensures SystemResidual(half, rhs, r, x) == 0.0 <==> x[r] == solution[r]
  {
    forall c | 0 <= c < |x| && c != r ensures At(half, r, c) == 0.0 {
      FixedRowIsEmpty(elements, isFixed, solution, r, c);
    }
    OnlyTheDiagonal(half, r, x, |x|);
    var y := x[r := solution[r]];
    FixedLoad(elements, isFixed, solution, r);
    assert rhs[r] == Times(At(half, r, r), solution[r]) by {
      NegatedTimes(Total(ReducedAll(elements, isFixed, solution), r, r), solution[r]);
    }
    TimesCancels(At(half, r, r), x[r], solution[r]);
  }

  lemma TimesCancels(a: real, b: real, c: real)
    requires a != 0.0
    ensures Times(a, b) == Times(a, c) <==> b == c
  {
    assert Times(a, b) - Times(a, c) == a * (b - c);
  }

  lemma {:induction false} FixedLoad(elements: seq<Element>, isFixed: seq<bool>, solution: seq<real>, r: nat)
    requires AllShaped(elements, |solution|) && |isFixed| == |solution| && r < |solution| && isFixed[r]
    ensures var reduced := ReducedAll(elements, isFixed, solution);
      TotalLoad(reduced, r) == Times(Total(reduced, r, r), solution[r])
  {
    if |elements| > 0 {
      var last, reduced := |elements| - 1, ReducedAll(elements, isFixed, solution);
      FixedLoad(elements[..last], isFixed, solution, r);
      assert reduced[..last] == ReducedAll(elements[..last], isFixed, solution);
      FixedElementLoad(elements[last], isFixed, solution, r);
      assert TotalLoad(reduced, r) == TotalLoad(reduced[..last], r) + Load(reduced[last], r);
      assert Total(reduced, r, r) == Total(reduced[..last], r, r) + Entry(reduced[last], r, r);
      TimesAdds(Total(reduced[..last], r, r), Entry(reduced[last], r, r), solution[r]);
    }
  }

  lemma FixedElementLoad(e: Element, isFixed: seq<bool>, solution: seq<real>, r: nat)
    requires Shaped(e, |solution|) && |isFixed| == |solution| && r < |solution| && isFixed[r]
    ensures var reduced := Reduced(e, isFixed, solution);
      Load(reduced, r) == Times(Entry(reduced, r, r), solution[r])
  {
    if r in e.n {
      var j := LocalIndex(e.n, r);
      assert LocalFixed(e.n, isFixed)[j] && LocalValue(e.n, solution)[j] == solution[r];
    }
  }
}
