/** The ten-node stencil of each air-gap slice, read off the stored brackets of one sector,
    and the sparsity entries it makes. */
module Stencil {
  import opened Modular
  import opened StableOrder
  import opened AirGapRing
  import opened EntryOrder
  import opened Tiling

  // ----- the stencil as the code reads it

  function BeforeIndex(n: nat, k: nat): int {
    if k == 0 then n - 1 else k - 1
  }

  function BeyondIndex(n: nat, k: nat): int {
    if k + 2 > n then 1 else k + 2
  }

  /** The ten brackets reads of slice `k`, from `n + 1` stored brackets. */
  function ReadStencil(quad: seq<Bracket>, n: nat, k: nat): (s: seq<Signed>)
    requires |quad| == n + 1 && k < n
    ensures |s| == 10
  {
    var before, beyond := quad[BeforeIndex(n, k)], quad[BeyondIndex(n, k)];
    [before.inner0, quad[k].inner0, quad[k].inner1, quad[k + 1].inner1, beyond.inner1,
     before.outer0, quad[k].outer0, quad[k].outer1, quad[k + 1].outer1, beyond.outer1]
  }

  function Negated(s: Signed): Signed {
    Signed(s.node, -s.sign)
  }

  /** With the sign corrections the field evaluation makes at both ends of the sector. */
  function CorrectedStencil(quad: seq<Bracket>, n: nat, antiperiodic: bool, k: nat): (s: seq<Signed>)
    requires |quad| == n + 1 && k < n
    ensures |s| == 10
  {
    var s := ReadStencil(quad, n, k);
    var t := if k == 0 && antiperiodic then s[0 := Negated(s[0])][5 := Negated(s[5])] else s;
    if k + 1 == n && antiperiodic then t[4 := Negated(t[4])][9 := Negated(t[9])] else t
  }

  // ----- the stencil on the full ring

  /** Five consecutive ring points around each of the rings. */
  function RingStencil(inner: seq<RingPoint>, outer: seq<RingPoint>, k: int): (s: seq<Signed>)
    requires inner != [] && outer != []
    ensures |s| == 10
  {
    [Cyclic(inner, k - 2).item, Cyclic(inner, k - 1).item, Cyclic(inner, k).item, Cyclic(inner, k + 1).item, Cyclic(inner, k + 2).item,
     Cyclic(outer, k - 2).item, Cyclic(outer, k - 1).item, Cyclic(outer, k).item, Cyclic(outer, k + 1).item, Cyclic(outer, k + 2).item]
  }

  lemma CyclicRepeats(ring: seq<RingPoint>, n: nat, antiperiodic: bool, i: int)
    requires QuasiPeriodic(ring, n, antiperiodic)
    ensures Cyclic(ring, i + n).item == if antiperiodic then Negated(Cyclic(ring, i).item) else Cyclic(ring, i).item
  {
    assert RepeatsAt(ring, n, antiperiodic, i % |ring|);
    ModOfSum(i, n, |ring|);
  }

  /** Two ring points before slice `k` to two behind it, the outermost two as the brackets hold them. */
  function ReadRing(ring: seq<RingPoint>, n: nat, k: nat): (s: seq<Signed>)
    requires ring != [] && k < n
    ensures |s| == 5
  {
    [Cyclic(ring, BeforeIndex(n, k) - 1).item, Cyclic(ring, k - 1).item, Cyclic(ring, k).item, Cyclic(ring, k + 1).item,
     Cyclic(ring, BeyondIndex(n, k)).item]
  }

  lemma StencilReads(inner: seq<RingPoint>, outer: seq<RingPoint>, n: nat, k: nat)
    requires inner != [] && outer != [] && k < n
    ensures ReadStencil(Brackets(inner, outer, n), n, k) == ReadRing(inner, n, k) + ReadRing(outer, n, k)
  {
    var quad := Brackets(inner, outer, n);
    assert quad[k] == BracketAt(inner, outer, k) && quad[k + 1] == BracketAt(inner, outer, k + 1);
    assert quad[BeforeIndex(n, k)] == BracketAt(inner, outer, BeforeIndex(n, k));
    assert quad[BeyondIndex(n, k)] == BracketAt(inner, outer, BeyondIndex(n, k));
  }

  /** Five consecutive ring points, except that the brackets hold the first of slice 0 and the last of
      the last slice one sector further on or back. */
  lemma ReadRingIs(ring: seq<RingPoint>, n: nat, antiperiodic: bool, k: nat)
    requires QuasiPeriodic(ring, n, antiperiodic) && k < n
    ensures var s := ReadRing(ring, n, k);
      && s[0] == (if k == 0 && antiperiodic then Negated(Cyclic(ring, k - 2).item) else Cyclic(ring, k - 2).item)
      && s[1] == Cyclic(ring, k - 1).item && s[2] == Cyclic(ring, k).item && s[3] == Cyclic(ring, k + 1).item
      && Cyclic(ring, k + 2).item == (if k + 1 == n && antiperiodic then Negated(s[4]) else s[4])
  {
    CyclicRepeats(ring, n, antiperiodic, -2);
    CyclicRepeats(ring, n, antiperiodic, 1);
    if k == 0 { assert BeforeIndex(n, k) - 1 == -2 + n; }
    if k + 1 == n { assert k + 2 == 1 + n; }
  }

  /** The `n + 1` brackets of one sector are enough: with the sign corrections, each slice sees
      five consecutive nodes and signs of either full ring, wrapped indices included. */
  lemma StencilIsFullRing(inner: seq<RingPoint>, outer: seq<RingPoint>, n: nat, antiperiodic: bool, k: nat)
    requires QuasiPeriodic(inner, n, antiperiodic) && QuasiPeriodic(outer, n, antiperiodic)
    requires k < n
    ensures 0 <= BeforeIndex(n, k) <= n && 0 <= BeyondIndex(n, k) <= n
    ensures CorrectedStencil(Brackets(inner, outer, n), n, antiperiodic, k) == RingStencil(inner, outer, k)
  {
    StencilReads(inner, outer, n, k);
    ReadRingIs(inner, n, antiperiodic, k);
    ReadRingIs(outer, n, antiperiodic, k);
  }

  // ----- sparsity entries

  function NodesIn(s: seq<Signed>): (nodes: seq<int>)
    ensures |nodes| == |s|
  {
    seq(|s|, i requires 0 <= i < |s| => s[i].node)
  }

  /** All pairs of the nodes, lower index first. */
  ghost function PairsOf(nodes: seq<int>): set<Entry> {
    set i, j | 0 <= i < |nodes| && 0 <= j < |nodes| :: Normal(nodes[i], nodes[j])
  }

  /** The entries of all slices of a sector. */
  ghost function Structure(quad: seq<Bracket>, n: nat): set<Entry>
    requires |quad| == n + 1
  {
    set k, e | 0 <= k < n && e in PairsOf(NodesIn(ReadStencil(quad, n, k))) :: e
  }

  method AppendPairs(nodes: array<int>, entries: seq<Entry>) returns (extended: seq<Entry>)
    ensures AsSet(extended) == AsSet(entries) + PairsOf(nodes[..])
  {
    extended := entries;
    var i := 0;
    while i < nodes.Length
      invariant 0 <= i <= nodes.Length
      invariant forall e :: e in extended <==> e in entries || exists a, b :: 0 <= a < i && a <= b < nodes.Length && e == Normal(nodes[a], nodes[b])
    {
      var j := i;
      while j < nodes.Length
        invariant i <= j <= nodes.Length
        invariant forall e :: e in extended <==>
          (e in entries
           || (exists a, b :: 0 <= a < i && a <= b < nodes.Length && e == Normal(nodes[a], nodes[b]))
           || (exists b :: i <= b < j && e == Normal(nodes[i], nodes[b])))
      {
        var row, column := nodes[i], nodes[j];
        if column < row {
          row, column := column, row;
        }
        extended := extended + [(row, column)];
        j := j + 1;
      }
      i := i + 1;
    }
    forall e ensures e in AsSet(extended) <==> e in AsSet(entries) + PairsOf(nodes[..]) {
      if e in PairsOf(nodes[..]) {
        var a, b :| 0 <= a < |nodes[..]| && 0 <= b < |nodes[..]| && e == Normal(nodes[..][a], nodes[..][b]);
        if a <= b {
          assert e == Normal(nodes[a], nodes[b]);
        } else {
          assert e == Normal(nodes[b], nodes[a]);
        }
      }
      if e in extended && e !in entries {
        var a, b :| 0 <= a < nodes.Length && a <= b < nodes.Length && e == Normal(nodes[a], nodes[b]);
        assert e == Normal(nodes[..][a], nodes[..][b]);
      }
    }
  }

  /** The entries of the slices before `upTo`. */
  ghost function SlicesUpTo(quad: seq<Bracket>, n: nat, upTo: nat): set<Entry>
    requires |quad| == n + 1 && upTo <= n
  {
    set k, e | 0 <= k < upTo && e in PairsOf(NodesIn(ReadStencil(quad, n, k))) :: e
  }

  lemma NextSlice(quad: seq<Bracket>, n: nat, k: nat)
    requires |quad| == n + 1 && k < n
    ensures SlicesUpTo(quad, n, k + 1) == SlicesUpTo(quad, n, k) + PairsOf(NodesIn(ReadStencil(quad, n, k)))
  {
  }

  /** Read the nodes of one slice. */
  method ReadNodes(quad: seq<Bracket>, n: nat, k: nat, nodes: array<int>)
    requires |quad| == n + 1 && k < n && nodes.Length == 10
    modifies nodes
    ensures nodes[..] == NodesIn(ReadStencil(quad, n, k))
  {
    nodes[0] := quad[if k == 0 then n - 1 else k - 1].inner0.node;
    nodes[1] := quad[k].inner0.node;
    nodes[2] := quad[k].inner1.node;
    nodes[3] := quad[k + 1].inner1.node;
    nodes[4] := quad[if k + 2 > n then 1 else k + 2].inner1.node;
    nodes[5] := quad[if k == 0 then n - 1 else k - 1].outer0.node;
    nodes[6] := quad[k].outer0.node;
    nodes[7] := quad[k].outer1.node;
    nodes[8] := quad[k + 1].outer1.node;
    nodes[9] := quad[if k + 2 > n then 1 else k + 2].outer1.node;
  }

  /** Append the entries of every slice of one gap. */
  method AppendAgeStructure(quad: seq<Bracket>, totalArcElements: nat, entries: seq<Entry>) returns (extended: seq<Entry>)
    requires |quad| == totalArcElements + 1
    ensures AsSet(extended) == AsSet(entries) + Structure(quad, totalArcElements)
  {
    var n := totalArcElements;
    var nodes := new int[10];
    extended := entries;
    var k := 0;
    while k < n
      invariant 0 <= k <= n
      invariant AsSet(extended) == AsSet(entries) + SlicesUpTo(quad, n, k)
    {
      ReadNodes(quad, n, k, nodes);
      extended := AppendPairs(nodes, extended);
      NextSlice(quad, n, k);
      k := k + 1;
    }
    assert SlicesUpTo(quad, n, n) == Structure(quad, n);
  }

  /** The nodes two rings bring together somewhere around the full annulus. */
  ghost predicate MeetAround(inner: seq<RingPoint>, outer: seq<RingPoint>, e: Entry)
    requires inner != [] && outer != []
  {
    exists k: int :: e in PairsOf(NodesIn(RingStencil(inner, outer, k)))
  }

  // ----- one sector stands for the annulus

  /** The ring repeats its nodes every `n` points. */
  ghost predicate NodePeriodic(ring: seq<RingPoint>, n: nat) {
    ring != [] && forall i: int :: NodeRepeats(ring, n, i)
  }

  ghost predicate NodeRepeats(ring: seq<RingPoint>, n: nat, i: int)
    requires ring != []
  {
    Cyclic(ring, i + n).item.node == Cyclic(ring, i).item.node
  }

  lemma QuasiPeriodicNodes(ring: seq<RingPoint>, n: nat, antiperiodic: bool)
    requires QuasiPeriodic(ring, n, antiperiodic)
    ensures NodePeriodic(ring, n)
  {
    forall i: int ensures NodeRepeats(ring, n, i) {
      CyclicRepeats(ring, n, antiperiodic, i);
    }
  }

  lemma StencilNodes(inner: seq<RingPoint>, outer: seq<RingPoint>, n: nat, k: nat)
    requires NodePeriodic(inner, n) && NodePeriodic(outer, n) && k < n
    ensures NodesIn(ReadStencil(Brackets(inner, outer, n), n, k)) == NodesIn(RingStencil(inner, outer, k))
  {
    StencilReads(inner, outer, n, k);
    ReadNodesAre(inner, n, k);
    ReadNodesAre(outer, n, k);
  }

  lemma ReadNodesAre(ring: seq<RingPoint>, n: nat, k: nat)
    requires NodePeriodic(ring, n) && k < n
    ensures var s := ReadRing(ring, n, k);
      && s[0].node == Cyclic(ring, k - 2).item.node && s[1].node == Cyclic(ring, k - 1).item.node && s[2].node == Cyclic(ring, k).item.node
      && s[3].node == Cyclic(ring, k + 1).item.node && s[4].node == Cyclic(ring, k + 2).item.node
  {
    assert NodeRepeats(ring, n, -2) && NodeRepeats(ring, n, 1);
    if k == 0 { assert BeforeIndex(n, k) - 1 == -2 + n; }
    if k + 1 == n { assert k + 2 == 1 + n; }
  }

  lemma RingStencilRepeats(inner: seq<RingPoint>, outer: seq<RingPoint>, n: nat, k: int)
    requires NodePeriodic(inner, n) && NodePeriodic(outer, n)
    ensures NodesIn(RingStencil(inner, outer, k + n)) == NodesIn(RingStencil(inner, outer, k))
  {
    assert NodeRepeats(inner, n, k - 2) && NodeRepeats(inner, n, k - 1) && NodeRepeats(inner, n, k);
    assert NodeRepeats(inner, n, k + 1) && NodeRepeats(inner, n, k + 2);
    assert NodeRepeats(outer, n, k - 2) && NodeRepeats(outer, n, k - 1) && NodeRepeats(outer, n, k);
    assert NodeRepeats(outer, n, k + 1) && NodeRepeats(outer, n, k + 2);
    assert k + n - 2 == k - 2 + n && k + n - 1 == k - 1 + n && k + n + 1 == k + 1 + n && k + n + 2 == k + 2 + n;
  }

  lemma {:induction false} RingStencilReduces(inner: seq<RingPoint>, outer: seq<RingPoint>, n: nat, k: int) returns (k': nat)
    requires NodePeriodic(inner, n) && NodePeriodic(outer, n) && n > 0
    ensures k' < n && NodesIn(RingStencil(inner, outer, k')) == NodesIn(RingStencil(inner, outer, k))
    decreases if k < 0 then -k else k
  {
    if 0 <= k < n {
      k' := k;
    } else if k >= n {
      RingStencilRepeats(inner, outer, n, k - n);
      k' := RingStencilReduces(inner, outer, n, k - n);
    } else {
      RingStencilRepeats(inner, outer, n, k);
      if k + n < 0 {
        k' := RingStencilReduces(inner, outer, n, k + n);
      } else {
        k' := k + n;
      }
    }
  }

  /** One sector's brackets yield every pair of nodes that meet anywhere on the annulus, and no other. */
  lemma StructureIsFullRing(inner: seq<RingPoint>, outer: seq<RingPoint>, n: nat, e: Entry)
    requires NodePeriodic(inner, n) && NodePeriodic(outer, n) && n > 0
    ensures e in Structure(Brackets(inner, outer, n), n) <==> MeetAround(inner, outer, e)
  {
    var quad := Brackets(inner, outer, n);
    if MeetAround(inner, outer, e) {
      var k :| e in PairsOf(NodesIn(RingStencil(inner, outer, k)));
      var k' := RingStencilReduces(inner, outer, n, k);
      StencilNodes(inner, outer, n, k');
      assert e in PairsOf(NodesIn(ReadStencil(quad, n, k')));
    }
    if e in Structure(quad, n) {
      var k :| 0 <= k < n && e in PairsOf(NodesIn(ReadStencil(quad, n, k)));
      StencilNodes(inner, outer, n, k);
      assert e in PairsOf(NodesIn(RingStencil(inner, outer, k)));
    }
  }
}
