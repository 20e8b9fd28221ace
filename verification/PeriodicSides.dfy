/** Discretizing straight boundaries: one line on its own, and the two sides of a periodic
    boundary side by side, so that their nodes can be paired. */
module PeriodicSides {
  import opened PeriodicPairs
  import opened Reals

  datatype Point = Point(x: real, y: real)

  datatype Segment = Segment(n0: int, n1: int)

  /** An input line with the largest side length wanted, or -1. */
  datatype Line = Line(n0: int, n1: int, length: real, maxSideLength: real)

  function Ceil(x: real): int {
    -((-x).Floor)
  }

  /** The node a fraction of the way along. */
  function Along(a: Point, b: Point, j: int, k: int): Point
    requires k != 0
  {
    Point(a.x + (b.x - a.x) * (j as real) / (k as real), a.y + (b.y - a.y) * (j as real) / (k as real))
  }

  /** The number of pieces of a line. */
  function Pieces(line: Line): int
    requires line.maxSideLength != 0.0
  {
    if line.maxSideLength == -1.0 then 1 else Ceil(line.length / line.maxSideLength)
  }

  // ----- chains

  /** The nodes of one side: its start, the new nodes `first, first + stride, ...`, its end. */
  function SideNode(start: int, end: int, first: int, stride: int, k: int, j: int): int {
    if j == 0 then start else if j == k then end else first + stride * (j - 1)
  }

  /** Piece `j` of a side runs from its `j`-th node to the next. */
  function SidePiece(start: int, end: int, first: int, stride: int, k: int, j: int): Segment {
    Segment(SideNode(start, end, first, stride, k, j), SideNode(start, end, first, stride, k, j + 1))
  }

  /** Two sides laid out piece by piece, alternating. */
  function Interleaved(a: Segment, b: Segment, first: int, k: nat, pieces: nat): seq<Segment> {
    if pieces == 0 then [] else
      Interleaved(a, b, first, k, pieces - 1)
      + [SidePiece(a.n0, a.n1, first, 2, k, pieces - 1), SidePiece(b.n0, b.n1, first + 1, 2, k, pieces - 1)]
  }

  /** The new nodes of both sides, alternating, at equal fractions. */
  function PairedNodes(a0: Point, a1: Point, b0: Point, b1: Point, k: nat, count: nat): seq<Point>
    requires k != 0
  {
    if count == 0 then [] else
      PairedNodes(a0, a1, b0, b1, k, count - 1) + [Along(a0, a1, count, k), Along(b0, b1, count, k)]
  }

  /** The pairs of the new nodes. */
  function NodePairs(first: int, t: bool, count: nat): seq<CommonPoint> {
    if count == 0 then [] else NodePairs(first, t, count - 1) + [CommonPoint(first + 2 * (count - 1), first + 2 * (count - 1) + 1, t)]
  }

  lemma PairedNodesCount(a0: Point, a1: Point, b0: Point, b1: Point, k: int, count: nat)
    requires k > 0
    ensures |PairedNodes(a0, a1, b0, b1, k, count)| == 2 * count
  {
  }

  type Geometry = (seq<Point>, seq<Segment>, seq<CommonPoint>)

  /** The geometry after `j` of `k` pieces: the last piece of each side needs no new node. */
  function SidesUpTo(nodes: seq<Point>, segments: seq<Segment>, pairs: seq<CommonPoint>, s0: Segment, s1: Segment,
                     a0: Point, a1: Point, b0: Point, b1: Point, k: int, t: bool, j: int): Geometry
  {
    if k < 1 || j < 0 then (nodes, segments, pairs) else
      var inner := if j < k then j else k - 1;
      (nodes + PairedNodes(a0, a1, b0, b1, k, inner),
       segments + Interleaved(s0, s1, |nodes|, k, j),
       pairs + NodePairs(|nodes|, t, inner))
  }

  /** The geometry with both sides of a periodic boundary added. */
  function WithSides(nodes: seq<Point>, segments: seq<Segment>, pairs: seq<CommonPoint>, s0: Segment, s1: Segment, k: int, t: bool): Geometry
    requires 0 <= s0.n0 < |nodes| && 0 <= s0.n1 < |nodes| && 0 <= s1.n0 < |nodes| && 0 <= s1.n1 < |nodes|
  {
    SidesUpTo(nodes, segments, pairs + [CommonPoint(s0.n0, s1.n0, t), CommonPoint(s0.n1, s1.n1, t)], s0, s1,
              nodes[s0.n0], nodes[s0.n1], nodes[s1.n0], nodes[s1.n1], k, t, k)
  }

  lemma SinglePiece(nodes: seq<Point>, s0: Segment, s1: Segment, a0: Point, a1: Point, b0: Point, b1: Point, t: bool)
    ensures Interleaved(s0, s1, |nodes|, 1, 1) == [s0, s1]
    ensures PairedNodes(a0, a1, b0, b1, 1, 0) == [] && NodePairs(|nodes|, t, 0) == []
  {
    assert Interleaved(s0, s1, |nodes|, 1, 0) == [];
  }

  lemma NoPieceYet(nodes: seq<Point>, segments: seq<Segment>, pairs: seq<CommonPoint>, s0: Segment, s1: Segment,
                   a0: Point, a1: Point, b0: Point, b1: Point, k: int, t: bool)
    ensures SidesUpTo(nodes, segments, pairs, s0, s1, a0, a1, b0, b1, k, t, 0) == (nodes, segments, pairs)
  {
    if k >= 1 {
      assert PairedNodes(a0, a1, b0, b1, k, 0) == [] && Interleaved(s0, s1, |nodes|, k, 0) == [] && NodePairs(|nodes|, t, 0) == [];
      assert nodes + [] == nodes && segments + [] == segments && pairs + [] == pairs;
    }
  }

  /** What one more piece of both sides adds. */
  lemma NextPiece(nodes: seq<Point>, segments: seq<Segment>, pairs: seq<CommonPoint>, s0: Segment, s1: Segment,
                  a0: Point, a1: Point, b0: Point, b1: Point, k: int, t: bool, j: int)
    requires 0 <= j < k
    ensures var (n, s, p) := SidesUpTo(nodes, segments, pairs, s0, s1, a0, a1, b0, b1, k, t, j);
      var (n', s', p') := SidesUpTo(nodes, segments, pairs, s0, s1, a0, a1, b0, b1, k, t, j + 1);
      && s' == s + [SidePiece(s0.n0, s0.n1, |nodes|, 2, k, j), SidePiece(s1.n0, s1.n1, |nodes| + 1, 2, k, j)]
      && n' == (if j + 1 < k then n + [Along(a0, a1, j + 1, k), Along(b0, b1, j + 1, k)] else n)
      && p' == (if j + 1 < k then p + [CommonPoint(|nodes| + 2 * j, |nodes| + 2 * j + 1, t)] else p)
  {
    AppendAppend(segments, Interleaved(s0, s1, |nodes|, k, j),
                 [SidePiece(s0.n0, s0.n1, |nodes|, 2, k, j), SidePiece(s1.n0, s1.n1, |nodes| + 1, 2, k, j)]);
    AppendAppend(nodes, PairedNodes(a0, a1, b0, b1, k, j), [Along(a0, a1, j + 1, k), Along(b0, b1, j + 1, k)]);
    AppendAppend(pairs, NodePairs(|nodes|, t, j), [CommonPoint(|nodes| + 2 * j, |nodes| + 2 * j + 1, t)]);
  }

  lemma AppendAppend<T>(a: seq<T>, b: seq<T>, c: seq<T>)
    ensures a + (b + c) == a + b + c
  {
  }

  /** The growing geometry: nodes, segments, and node pairs. */
  class Discretization {
    var nodes: seq<Point>
    var segments: seq<Segment>
    var pairs: seq<CommonPoint>

    constructor (points: seq<Point>)
      ensures nodes == points && segments == [] && pairs == []
    {
      nodes, segments, pairs := points, [], [];
    }

    /** Piece `j` of both sides. */
    method AddPiece(s0: Segment, s1: Segment, a0: Point, a1: Point, b0: Point, b1: Point, k: int, t: bool, j: int,
                    ghost nodes0: seq<Point>, ghost segments0: seq<Segment>, ghost pairs0: seq<CommonPoint>)
      requires 0 <= j < k && k != 1
      requires (nodes, segments, pairs) == SidesUpTo(nodes0, segments0, pairs0, s0, s1, a0, a1, b0, b1, k, t, j)
      modifies this
      ensures (nodes, segments, pairs) == SidesUpTo(nodes0, segments0, pairs0, s0, s1, a0, a1, b0, b1, k, t, j + 1)
    {
      var node0, node1 := Along(a0, a1, j + 1, k), Along(b0, b1, j + 1, k);
      ghost var before, beforeSegments, beforePairs := nodes, segments, pairs;
      PairedNodesCount(a0, a1, b0, b1, k, j);
      if j == 0 {
        NoPieceYet(nodes0, segments0, pairs0, s0, s1, a0, a1, b0, b1, k, t);
        var l := |nodes|;
        nodes := nodes + [node0];
        segments := segments + [Segment(s0.n0, l)];
        var x := l;
        l := |nodes|;
        nodes := nodes + [node1];
        segments := segments + [Segment(s1.n0, l)];
        pairs := pairs + [CommonPoint(x, l, t)];
        assert nodes == before + [node0, node1];
      } else if j == k - 1 {
        var l := |nodes| - 2;
        segments := segments + [Segment(l, s0.n1)];
        l := |nodes| - 1;
        segments := segments + [Segment(l, s1.n1)];
      } else {
        var l := |nodes|;
        nodes := nodes + [node0, node1];
        segments := segments + [Segment(l - 2, l)];
        segments := segments + [Segment(l - 1, l + 1)];
        pairs := pairs + [CommonPoint(l, l + 1, t)];
      }
      NextPiece(nodes0, segments0, pairs0, s0, s1, a0, a1, b0, b1, k, t, j);
      assert segments == beforeSegments + [SidePiece(s0.n0, s0.n1, |nodes0|, 2, k, j), SidePiece(s1.n0, s1.n1, |nodes0| + 1, 2, k, j)];
    }

    /** Both sides of a periodic boundary. The second side has been turned around before, so that
        first maps to first. With fewer than one piece no segment appears. */
    method AddPeriodicSides(s0: Segment, s1: Segment, k: int, t: bool)
      requires 0 <= s0.n0 < |nodes| && 0 <= s0.n1 < |nodes| && 0 <= s1.n0 < |nodes| && 0 <= s1.n1 < |nodes|
      modifies this
      ensures (nodes, segments, pairs) == WithSides(old(nodes), old(segments), old(pairs), s0, s1, k, t)
    {
      var a0, a1, b0, b1 := nodes[s0.n0], nodes[s0.n1], nodes[s1.n0], nodes[s1.n1];
      pairs := pairs + [CommonPoint(s0.n0, s1.n0, t)];
      pairs := pairs + [CommonPoint(s0.n1, s1.n1, t)];
      assert pairs == old(pairs) + [CommonPoint(s0.n0, s1.n0, t), CommonPoint(s0.n1, s1.n1, t)];
      if k == 1 {
        segments := segments + [s0];
        segments := segments + [s1];
        SinglePiece(nodes, s0, s1, a0, a1, b0, b1, t);
        assert nodes + [] == nodes && pairs + [] == pairs && segments == old(segments) + [s0, s1];
        return;
      }
      ghost var nodes0, segments0, pairs0 := nodes, segments, pairs;
      NoPieceYet(nodes, segments, pairs, s0, s1, a0, a1, b0, b1, k, t);
      var j := 0;
      while j < k
        invariant 0 <= j && (k >= 1 ==> j <= k) && (k < 1 ==> j == 0)
        invariant (nodes, segments, pairs) == SidesUpTo(nodes0, segments0, pairs0, s0, s1, a0, a1, b0, b1, k, t, j)
      {
        AddPiece(s0, s1, a0, a1, b0, b1, k, t, j, nodes0, segments0, pairs0);
        j := j + 1;
      }
    }

    /** One periodic boundary: turn the second line around, count the pieces of the first, add both sides. */
    method AddPeriodicBoundary(lines: array<Line>, i0: nat, i1: nat, t: bool)
      requires i0 < lines.Length && i1 < lines.Length && i0 != i1 && lines[i0].maxSideLength != 0.0
      requires forall i :: i == i0 || i == i1 ==> 0 <= lines[i].n0 < |nodes| && 0 <= lines[i].n1 < |nodes|
      modifies this, lines
      ensures lines[..] == old(lines[..])[i1 := old(lines[i1]).(n0 := old(lines[i1].n1), n1 := old(lines[i1].n0))]
      ensures (nodes, segments, pairs) == WithSides(old(nodes), old(segments), old(pairs),
        Segment(old(lines[i0].n0), old(lines[i0].n1)), Segment(old(lines[i1].n1), old(lines[i1].n0)), Pieces(old(lines[i0])), t)
    {
      lines[i1] := lines[i1].(n0 := lines[i1].n1, n1 := lines[i1].n0);
      var k := Pieces(lines[i0]);
      AddPeriodicSides(Segment(lines[i0].n0, lines[i0].n1), Segment(lines[i1].n0, lines[i1].n1), k, t);
    }

    /** One input line on its own. `dL` is the corner distance of smart meshing. */
    method AddLine(line: Line, smart: bool, dL: real)
      requires 0 <= line.n0 < |nodes| && 0 <= line.n1 < |nodes| && line.maxSideLength != 0.0
      modifies this
      ensures pairs == old(pairs)
      ensures segments == old(segments) + Chain(line.n0, line.n1, |old(nodes)|, LinePieces(line, smart, dL), LineAdds(line, smart, dL).0)
      ensures nodes == old(nodes) + LineNodes(line, smart, dL, old(nodes[line.n0]), old(nodes[line.n1]))
    {
      var numParts := Pieces(line);
      var a0, a1 := nodes[line.n0], nodes[line.n1];
      if numParts == 1 {
        if line.length < 3.0 * dL || !smart {
          segments := segments + [Segment(line.n0, line.n1)];
          assert Chain(line.n0, line.n1, |nodes|, 1, 0) == [];
        } else {
          AddCorners(line, a0, a1, dL);
        }
        return;
      }
      ghost var n := |nodes|;
      var j := 0;
      while j < numParts
        invariant 0 <= j && (numParts >= 1 ==> j <= numParts) && pairs == old(pairs)
        invariant numParts < 1 ==> j == 0
        invariant segments == old(segments) + Chain(line.n0, line.n1, n, numParts, j)
        invariant nodes == old(nodes) + Fractions(a0, a1, numParts, if j == numParts && j > 0 then j - 1 else j)
      {
        var node := Along(a0, a1, j + 1, numParts);
        if j == 0 {
          var l := |nodes|;
          nodes := nodes + [node];
          segments := segments + [Segment(line.n0, l)];
        } else if j == numParts - 1 {
          var l := |nodes| - 1;
          segments := segments + [Segment(l, line.n1)];
        } else {
          var l := |nodes|;
          nodes := nodes + [node];
          segments := segments + [Segment(l - 1, l)];
        }
        j := j + 1;
      }
    }

    /** All lines, or those that are not selected, one after the other. */
    method AddLines(input: Input)
      requires WellPosed(input) && nodes == input.points
      modifies this
      ensures pairs == old(pairs)
      ensures nodes == input.points + DrawingUpTo(input, |input.lines|).nodes
      ensures segments == old(segments) + DrawingUpTo(input, |input.lines|).segments
    {
      var i := 0;
      while i < |input.lines|
        invariant 0 <= i <= |input.lines| && pairs == old(pairs)
        invariant Shows(nodes, segments, input.points, old(segments), DrawingUpTo(input, i))
      {
        assert Drawable(input.lines[i], |input.points|);
        if !Skips(input, i) {
          LineShows(input, i, nodes, segments, old(segments));
          AddLine(input.lines[i], input.smart, input.dL);
        }
        i := i + 1;
      }
    }

    /** Two extra points at the corner distance from the ends of a long line. */
    method AddCorners(line: Line, a0: Point, a1: Point, dL: real)
      modifies this
      ensures pairs == old(pairs)
      ensures nodes == old(nodes) + [Toward(a0, a1, dL, line.length), Toward(a1, a0, dL, line.length)]
      ensures segments == old(segments) + Chain(line.n0, line.n1, |old(nodes)|, 3, 3)
    {
      ghost var n := |nodes|;
      assert Chain(line.n0, line.n1, n, 3, 0) == [];
      assert Chain(line.n0, line.n1, n, 3, 1) == [Segment(line.n0, n)];
      assert Chain(line.n0, line.n1, n, 3, 2) == [Segment(line.n0, n), Segment(n, n + 1)];
      var l := |nodes|;
      nodes := nodes + [Toward(a0, a1, dL, line.length)];
      segments := segments + [Segment(line.n0, l)];
      l := |nodes|;
      nodes := nodes + [Toward(a1, a0, dL, line.length)];
      segments := segments + [Segment(l - 1, l)];
      l := |nodes| - 1;
      segments := segments + [Segment(l, line.n1)];
    }
  }

  /** The point at distance `dL` from `a` on the way to `b`; a line of no length leads nowhere. */
  function Toward(a: Point, b: Point, dL: real, length: real): Point {
    if length == 0.0 then a else Point(a.x + dL * (b.x - a.x) / length, a.y + dL * (b.y - a.y) / length)
  }

  /** The first points that divide a line into `k` equal pieces. */
  function Fractions(a: Point, b: Point, k: int, count: nat): (r: seq<Point>)
    requires k != 0 || count == 0
    ensures |r| == count
  {
    if count == 0 then [] else Fractions(a, b, k, count - 1) + [Along(a, b, count, k)]
  }

  /** The points that discretizing one line adds. */
  function LineNodes(line: Line, smart: bool, dL: real, a: Point, b: Point): (r: seq<Point>)
    requires line.maxSideLength != 0.0
    ensures |r| == LineAdds(line, smart, dL).1
  {
    var k := Pieces(line);
    if k == 1 && line.length >= 3.0 * dL && smart then [Toward(a, b, dL, line.length), Toward(b, a, dL, line.length)]
    else Fractions(a, b, k, if k < 1 then 0 else k - 1)
  }

  function Chain(start: int, end: int, first: int, k: int, pieces: nat): seq<Segment> {
    if pieces == 0 then [] else Chain(start, end, first, k, pieces - 1) + [SidePiece(start, end, first, 1, k, pieces - 1)]
  }

  /** The pieces a line ends up with: three when a long line is refined at its corners. */
  function LinePieces(line: Line, smart: bool, dL: real): int
    requires line.maxSideLength != 0.0
  {
    if Pieces(line) == 1 && line.length >= 3.0 * dL && smart then 3 else Pieces(line)
  }

  // ----- the sides match

  lemma {:induction false} InterleavedAt(a: Segment, b: Segment, first: int, k: nat, pieces: nat, j: nat)
    requires j < pieces
    ensures |Interleaved(a, b, first, k, pieces)| == 2 * pieces
    ensures Interleaved(a, b, first, k, pieces)[2 * j] == SidePiece(a.n0, a.n1, first, 2, k, j)
    ensures Interleaved(a, b, first, k, pieces)[2 * j + 1] == SidePiece(b.n0, b.n1, first + 1, 2, k, j)
  {
    if j < pieces - 1 {
      InterleavedAt(a, b, first, k, pieces - 1, j);
    } else if pieces > 1 {
      InterleavedAt(a, b, first, k, pieces - 1, 0);
    } else {
      assert Interleaved(a, b, first, k, 0) == [];
    }
  }

  lemma {:induction false} PairedNodesAt(a0: Point, a1: Point, b0: Point, b1: Point, k: int, count: nat, j: nat)
    requires k > 0 && 0 < j <= count
    ensures |PairedNodes(a0, a1, b0, b1, k, count)| == 2 * count
    ensures PairedNodes(a0, a1, b0, b1, k, count)[2 * j - 2] == Along(a0, a1, j, k)
    ensures PairedNodes(a0, a1, b0, b1, k, count)[2 * j - 1] == Along(b0, b1, j, k)
  {
    PairedNodesCount(a0, a1, b0, b1, k, count - 1);
    if j < count {
      PairedNodesAt(a0, a1, b0, b1, k, count - 1, j);
    }
  }

  lemma {:induction false} NodePairsHold(first: int, t: bool, count: nat, j: nat)
    requires 0 < j <= count
    ensures CommonPoint(first + 2 * (j - 1), first + 2 * (j - 1) + 1, t) in NodePairs(first, t, count)
  {
    if j < count {
      NodePairsHold(first, t, count - 1, j);
    }
  }

  lemma AlongEnds(a: Point, b: Point, k: int)
    requires k > 0
    ensures Along(a, b, 0, k) == a && Along(a, b, k, k) == b
  {
  }

  /** Both sides become chains of the same `k` pieces from their first node to their last, and the
      `j`-th node of one is paired with the `j`-th node of the other, at the same fraction. */
  lemma SidesMatch(nodes: seq<Point>, segments: seq<Segment>, pairs: seq<CommonPoint>, s0: Segment, s1: Segment, k: nat, t: bool, j: nat)
    requires 0 <= s0.n0 < |nodes| && 0 <= s0.n1 < |nodes| && 0 <= s1.n0 < |nodes| && 0 <= s1.n1 < |nodes|
    requires 1 <= k && j <= k
    ensures var (allNodes, allSegments, allPairs) := WithSides(nodes, segments, pairs, s0, s1, k, t);
      var x, y := SideNode(s0.n0, s0.n1, |nodes|, 2, k, j), SideNode(s1.n0, s1.n1, |nodes| + 1, 2, k, j);
      && |allSegments| == |segments| + 2 * k
      && 0 <= x < |allNodes| && 0 <= y < |allNodes|
      && allNodes[x] == Along(nodes[s0.n0], nodes[s0.n1], j, k)
      && allNodes[y] == Along(nodes[s1.n0], nodes[s1.n1], j, k)
      && CommonPoint(x, y, t) in allPairs
      && (j < k ==> allSegments[|segments| + 2 * j] == Segment(x, SideNode(s0.n0, s0.n1, |nodes|, 2, k, j + 1)))
      && (j < k ==> allSegments[|segments| + 2 * j + 1] == Segment(y, SideNode(s1.n0, s1.n1, |nodes| + 1, 2, k, j + 1)))
  {
    var a0, a1, b0, b1 := nodes[s0.n0], nodes[s0.n1], nodes[s1.n0], nodes[s1.n1];
    InterleavedAt(s0, s1, |nodes|, k, k, if j < k then j else 0);
    PairedNodesCount(a0, a1, b0, b1, k, k - 1);
    AlongEnds(a0, a1, k);
    AlongEnds(b0, b1, k);
    var pairs0 := pairs + [CommonPoint(s0.n0, s1.n0, t), CommonPoint(s0.n1, s1.n1, t)];
    assert pairs0[|pairs|] == CommonPoint(s0.n0, s1.n0, t) && pairs0[|pairs| + 1] == CommonPoint(s0.n1, s1.n1, t);
    if 0 < j < k {
      PairedNodesAt(a0, a1, b0, b1, k, k - 1, j);
      NodePairsHold(|nodes|, t, k - 1, j);
    }
  }

  /** Consecutive pieces of a chain meet, it starts and ends where the line does, and it has one
      more piece than new nodes. */
  lemma ChainConnects(start: int, end: int, first: int, k: nat, j: nat)
    requires j < k
    ensures |Chain(start, end, first, k, k)| == k
    ensures Chain(start, end, first, k, k)[j] == SidePiece(start, end, first, 1, k, j)
    ensures Chain(start, end, first, k, k)[0].n0 == start && Chain(start, end, first, k, k)[k - 1].n1 == end
    ensures j + 1 < k ==> Chain(start, end, first, k, k)[j].n1 == Chain(start, end, first, k, k)[j + 1].n0 == first + j
  {
    ChainAt(start, end, first, k, k, j);
    ChainAt(start, end, first, k, k, 0);
    ChainAt(start, end, first, k, k, k - 1);
    if j + 1 < k { ChainAt(start, end, first, k, k, j + 1); }
  }

  lemma {:induction false} ChainAt(start: int, end: int, first: int, k: int, pieces: nat, j: nat)
    requires j < pieces
    ensures |Chain(start, end, first, k, pieces)| == pieces
    ensures Chain(start, end, first, k, pieces)[j] == SidePiece(start, end, first, 1, k, j)
  {
    if j < pieces - 1 {
      ChainAt(start, end, first, k, pieces - 1, j);
    } else if pieces > 1 {
      ChainAt(start, end, first, k, pieces - 1, 0);
    } else {
      assert Chain(start, end, first, k, 0) == [];
    }
  }

  /** What discretizing one line adds: segments and nodes. */
  function LineAdds(line: Line, smart: bool, dL: real): (int, int)
    requires line.maxSideLength != 0.0
  {
    var k := LinePieces(line, smart, dL);
    (if k < 0 then 0 else k, if k < 1 then 0 else k - 1)
  }

  /** A line gets one more segment than new nodes exactly when no side length is set or the line has
      a length: a line of zero length with a side length set gets no segment at all. */
  lemma OneMoreSegmentThanNodes(line: Line, smart: bool, dL: real)
    requires line.length >= 0.0 && (line.maxSideLength > 0.0 || line.maxSideLength == -1.0)
    ensures LineAdds(line, smart, dL).0 == LineAdds(line, smart, dL).1 + 1 <==> line.maxSideLength == -1.0 || line.length > 0.0
  {
    var x := line.length / line.maxSideLength;
    if line.maxSideLength > 0.0 {
      assert line.length == x * line.maxSideLength;
      if x <= 0.0 { assert x * line.maxSideLength <= 0.0; }
      if line.length == 0.0 { assert x == 0.0; }
    }
  }

  // ----- all lines of the input

  /** The input's points and lines, which of them are left out if selected, and the corner distance. */
  datatype Input = Input(points: seq<Point>, lines: seq<Line>, selected: seq<bool>, onlyUnselected: bool, smart: bool, dL: real)

  ghost predicate Drawable(line: Line, points: nat) {
    0 <= line.n0 < points && 0 <= line.n1 < points && line.maxSideLength != 0.0
  }

  ghost predicate WellPosed(input: Input) {
    |input.selected| == |input.lines| && forall i :: 0 <= i < |input.lines| ==> Drawable(input.lines[i], |input.points|)
  }

  predicate Skips(input: Input, i: nat)
    requires i < |input.selected|
  {
    input.onlyUnselected && input.selected[i]
  }

  datatype Drawing = Drawing(nodes: seq<Point>, segments: seq<Segment>)

  /** What the first `upTo` lines add to the points of the input. */
  ghost function DrawingUpTo(input: Input, upTo: nat): Drawing
    requires WellPosed(input) && upTo <= |input.lines|
  {
    if upTo == 0 then Drawing([], [])
    else
      var before := DrawingUpTo(input, upTo - 1);
      assert Drawable(input.lines[upTo - 1], |input.points|);
      if Skips(input, upTo - 1) then before else WithLine(input, before, upTo - 1)
  }

  ghost function NodesOf(input: Input, i: nat): seq<Point>
    requires i < |input.lines| && Drawable(input.lines[i], |input.points|)
  {
    var line := input.lines[i];
    LineNodes(line, input.smart, input.dL, input.points[line.n0], input.points[line.n1])
  }

  ghost function ChainOf(input: Input, i: nat, first: nat): seq<Segment>
    requires i < |input.lines| && Drawable(input.lines[i], |input.points|)
  {
    var line := input.lines[i];
    Chain(line.n0, line.n1, first, LinePieces(line, input.smart, input.dL), LineAdds(line, input.smart, input.dL).0)
  }

  ghost function WithLine(input: Input, d: Drawing, i: nat): Drawing
    requires i < |input.lines| && Drawable(input.lines[i], |input.points|)
  {
    Drawing(d.nodes + NodesOf(input, i), d.segments + ChainOf(input, i, |input.points| + |d.nodes|))
  }

  ghost predicate Shows(nodes: seq<Point>, segments: seq<Segment>, points: seq<Point>, given: seq<Segment>, d: Drawing) {
    nodes == points + d.nodes && segments == given + d.segments
  }

  lemma LineShows(input: Input, i: nat, nodes: seq<Point>, segments: seq<Segment>, given: seq<Segment>)
    requires WellPosed(input) && i < |input.lines| && Shows(nodes, segments, input.points, given, DrawingUpTo(input, i)) && !Skips(input, i)
    ensures Drawable(input.lines[i], |input.points|)
    ensures nodes[..|input.points|] == input.points
    ensures Shows(nodes + NodesOf(input, i), segments + ChainOf(input, i, |nodes|), input.points, given, DrawingUpTo(input, i + 1))
  {
    assert Drawable(input.lines[i], |input.points|);
    var d := DrawingUpTo(input, i);
    AppendAppend(input.points, d.nodes, NodesOf(input, i));
    AppendAppend(given, d.segments, ChainOf(input, i, |nodes|));
  }

  /** What is drawn stays where it is. */
  lemma {:induction false} DrawingGrows(input: Input, i: nat, j: nat)
    requires WellPosed(input) && i <= j <= |input.lines|
    ensures DrawingUpTo(input, i).nodes <= DrawingUpTo(input, j).nodes
    ensures DrawingUpTo(input, i).segments <= DrawingUpTo(input, j).segments
  {
    if i < j {
      DrawingGrows(input, i, j - 1);
      assert Drawable(input.lines[j - 1], |input.points|);
    }
  }

  /** In the finished drawing every line that is not left out has its own chain of pieces, from its
      first end to its second through its own new nodes. */
  lemma EveryLineIsDrawn(input: Input, i: nat) returns (at: nat, first: nat)
    requires WellPosed(input) && i < |input.lines| && !(input.onlyUnselected && input.selected[i])
    ensures Drawable(input.lines[i], |input.points|)
    ensures var all, chain := DrawingUpTo(input, |input.lines|), ChainOf(input, i, first);
      && at + |chain| <= |all.segments| && all.segments[at..at + |chain|] == chain
      && |input.points| <= first && first + |NodesOf(input, i)| <= |input.points + all.nodes|
      && (input.points + all.nodes)[first..first + |NodesOf(input, i)|] == NodesOf(input, i)
  {
    assert Drawable(input.lines[i], |input.points|);
    var d, all := DrawingUpTo(input, i), DrawingUpTo(input, |input.lines|);
    at, first := |d.segments|, |input.points| + |d.nodes|;
    DrawingGrows(input, i + 1, |input.lines|);
    InPrefix(all.segments, d.segments, ChainOf(input, i, first));
    AppendAppend(input.points, d.nodes, NodesOf(input, i));
    InPrefix(input.points + all.nodes, input.points + d.nodes, NodesOf(input, i));
  }

  lemma InPrefix<T>(all: seq<T>, before: seq<T>, added: seq<T>)
    requires before + added <= all
    ensures |before| + |added| <= |all| && all[|before|..|before| + |added|] == added
  {
    assert all[|before|..|before| + |added|] == all[..|before + added|][|before|..];
  }

  lemma ChainLength(start: int, end: int, first: int, k: int, pieces: nat)
    ensures |Chain(start, end, first, k, pieces)| == pieces
  {
  }

  /** A line that gets any piece at all. */
  ghost predicate IsDrawn(input: Input, i: nat)
    requires i < |input.lines| == |input.selected|
  {
    !(input.onlyUnselected && input.selected[i]) && (input.lines[i].maxSideLength == -1.0 || input.lines[i].length > 0.0)
  }

  ghost function Drawn(input: Input, upTo: nat): nat
    requires upTo <= |input.lines| == |input.selected|
  {
    if upTo == 0 then 0 else Drawn(input, upTo - 1) + (if IsDrawn(input, upTo - 1) then 1 else 0)
  }

  ghost predicate Sensible(line: Line) {
    line.length >= 0.0 && (line.maxSideLength > 0.0 || line.maxSideLength == -1.0)
  }

  lemma OneLineExceeds(input: Input, i: nat, first: nat)
    requires WellPosed(input) && i < |input.lines| && !Skips(input, i) && Sensible(input.lines[i])
    ensures Drawable(input.lines[i], |input.points|)
    ensures |ChainOf(input, i, first)| == |NodesOf(input, i)| + (if IsDrawn(input, i) then 1 else 0)
  {
    assert Drawable(input.lines[i], |input.points|);
    var line := input.lines[i];
    OneMoreSegmentThanNodes(line, input.smart, input.dL);
    ChainLength(line.n0, line.n1, first, LinePieces(line, input.smart, input.dL), LineAdds(line, input.smart, input.dL).0);
  }

  /** All in all there is one more segment than new nodes for every line that is drawn. */
  lemma {:induction false} SegmentsExceedNodes(input: Input, upTo: nat)
    requires WellPosed(input) && upTo <= |input.lines| && forall i :: 0 <= i < upTo ==> Sensible(input.lines[i])
    ensures |DrawingUpTo(input, upTo).segments| == |DrawingUpTo(input, upTo).nodes| + Drawn(input, upTo)
  {
    if upTo > 0 {
      SegmentsExceedNodes(input, upTo - 1);
      assert Sensible(input.lines[upTo - 1]);
      if !Skips(input, upTo - 1) {
        OneLineExceeds(input, upTo - 1, |input.points| + |DrawingUpTo(input, upTo - 1).nodes|);
      }
    }
  }

  // ----- lengths

  function Square(x: real): real { x * x }

  /** The length of the line is the distance of its ends. */
  ghost predicate Measured(line: Line, a: Point, b: Point) {
    line.length >= 0.0 && Square(line.length) == SquaredDistance(a, b)
  }

  function SquaredDistance(a: Point, b: Point): real { Square(b.x - a.x) + Square(b.y - a.y) }

  /** The pieces are as long as wanted or shorter, and with one piece less they would be longer. */
  lemma PiecesAreShortEnough(line: Line)
    requires line.maxSideLength > 0.0 && line.length > 0.0
    ensures Pieces(line) >= 1
    ensures line.length <= Times(Pieces(line) as real, line.maxSideLength)
    ensures Times((Pieces(line) - 1) as real, line.maxSideLength) < line.length
  {
    var x := line.length / line.maxSideLength;
    assert Times(x, line.maxSideLength) == line.length;
    TimesOrder(0.0, x, line.maxSideLength);
    TimesOrder(Pieces(line) as real, x, line.maxSideLength);
    TimesOrder((Pieces(line) - 1) as real, x, line.maxSideLength);
  }

  lemma TimesOrder(x: real, y: real, s: real)
    requires s > 0.0
    ensures Times(x, s) < Times(y, s) <==> x < y
  {
    if x < y { assert Times(y, s) - Times(x, s) == (y - x) * s; }
    if y < x { assert Times(x, s) - Times(y, s) == (x - y) * s; }
  }

  /** The pieces of a line are equally long. */
  lemma PiecesAreEqual(line: Line, a: Point, b: Point, j: nat, k: nat)
    requires Measured(line, a, b) && j < k
    ensures SquaredDistance(Along(a, b, j, k), Along(a, b, j + 1, k)) == Square(line.length / k as real)
  {
    PieceStep(a.x, b.x, j, k);
    PieceStep(a.y, b.y, j, k);
    ScaledSquares(b.x - a.x, b.y - a.y, line.length, 1.0 / k as real);
  }

  lemma PieceStep(a: real, b: real, j: nat, k: nat)
    requires k > 0
    ensures a + (b - a) * (j + 1) as real / k as real - (a + (b - a) * j as real / k as real) == (1.0 / k as real) * (b - a)
  {
  }

  lemma ScaledSquares(dx: real, dy: real, length: real, p: real)
    requires Square(length) == Square(dx) + Square(dy)
    ensures Square(p * dx) + Square(p * dy) == Square(p * length)
  {
    assert Square(p * dx) == p * p * Square(dx) && Square(p * dy) == p * p * Square(dy) && Square(p * length) == p * p * Square(length);
  }

  /** The extra points stand at the corner distance from the ends. */
  lemma CornersAtDistance(line: Line, a: Point, b: Point, dL: real)
    requires Measured(line, a, b) && line.length > 0.0
    ensures SquaredDistance(a, Toward(a, b, dL, line.length)) == Square(dL)
    ensures SquaredDistance(b, Toward(b, a, dL, line.length)) == Square(dL)
  {
    var p := dL / line.length;
    CornerStep(b.x - a.x, dL, line.length);
    CornerStep(b.y - a.y, dL, line.length);
    CornerStep(a.x - b.x, dL, line.length);
    CornerStep(a.y - b.y, dL, line.length);
    ScaledSquares(b.x - a.x, b.y - a.y, line.length, p);
    ScaledSquares(a.x - b.x, a.y - b.y, line.length, p);
    assert p * line.length == dL;
  }

  lemma CornerStep(dx: real, dL: real, length: real)
    requires length != 0.0
    ensures dL * dx / length == (dL / length) * dx
  {
  }

  /** Without a side length a line is one piece; a single piece becomes three, with the corners refined,
      exactly when meshing is smart and the line is at least three corner distances long. */
  lemma PiecesInNumbers(line: Line, smart: bool, dL: real)
    requires line.maxSideLength != 0.0
    ensures line.maxSideLength == -1.0 && !(smart && line.length >= 3.0 * dL) ==> LinePieces(line, smart, dL) == 1
    ensures line.maxSideLength == -1.0 && smart && line.length >= 3.0 * dL ==> LinePieces(line, smart, dL) == 3
    ensures line.maxSideLength > 0.0 && 0.0 < line.length <= line.maxSideLength && !(smart && line.length >= 3.0 * dL) ==> LinePieces(line, smart, dL) == 1
    ensures line.maxSideLength > 0.0 && 0.0 < line.length <= line.maxSideLength && smart && line.length >= 3.0 * dL ==> LinePieces(line, smart, dL) == 3
    ensures line.maxSideLength > 0.0 && line.length > line.maxSideLength ==> LinePieces(line, smart, dL) == Pieces(line) > 1
  {
    if line.maxSideLength > 0.0 && line.length > 0.0 {
      PiecesAreShortEnough(line);
      TimesOrder((Pieces(line) - 1) as real, 1.0, line.maxSideLength);
      TimesOrder(1.0, Pieces(line) as real, line.maxSideLength);
    }
  }
}
