/** Inferring the two air-gap rings: two-colouring the graph of changed edges, breadth first. */
module RingInference {
  import opened EntryOrder
  import opened Linking

  // ----- colourings and walks

  ghost predicate Isolated(edges: seq<Pair>, x: int) {
    forall y :: !Joined(edges, x, y)
  }

  /** A proper two-colouring of the edges. */
  ghost predicate Proper(edges: seq<Pair>, color: int -> bool) {
    forall k :: 0 <= k < |edges| ==> color(edges[k].0) != color(edges[k].1)
  }

  /** A walk with an odd number of edges that returns to its start. */
  ghost predicate OddClosedWalk(edges: seq<Pair>, walk: seq<int>) {
    IsPath(edges, walk) && walk[0] == walk[|walk| - 1] && (|walk| - 1) % 2 == 1
  }

  lemma ProperAlongEdge(edges: seq<Pair>, color: int -> bool, x: int, y: int)
    requires Proper(edges, color) && Joined(edges, x, y)
    ensures color(x) != color(y)
  {
    if (x, y) in edges {
      var k :| 0 <= k < |edges| && edges[k] == (x, y);
      assert color(edges[k].0) != color(edges[k].1);
    } else {
      var k :| 0 <= k < |edges| && edges[k] == (y, x);
      assert color(edges[k].0) != color(edges[k].1);
    }
  }

  lemma PathTail(edges: seq<Pair>, walk: seq<int>)
    requires IsPath(edges, walk) && |walk| > 1
    ensures IsPath(edges, walk[1..]) && Joined(edges, walk[0], walk[1])
  {
    var tail := walk[1..];
    forall i | 0 <= i < |tail| - 1 ensures Joined(edges, tail[i], tail[i + 1]) {
      assert Joined(edges, walk[i + 1], walk[i + 1 + 1]);
    }
    assert Joined(edges, walk[0], walk[0 + 1]);
  }

  /** Colours alternate along a walk. */
  lemma {:induction false} ProperAlongWalk(edges: seq<Pair>, color: int -> bool, walk: seq<int>)
    requires Proper(edges, color) && IsPath(edges, walk)
    ensures color(walk[|walk| - 1]) == (color(walk[0]) == ((|walk| - 1) % 2 == 0))
  {
    if |walk| > 1 {
      PathTail(edges, walk);
      ProperAlongEdge(edges, color, walk[0], walk[1]);
      ProperAlongWalk(edges, color, walk[1..]);
    }
  }

  /** A graph with an odd closed walk has no proper two-colouring. */
  lemma OddWalkForbidsColoring(edges: seq<Pair>, color: int -> bool, walk: seq<int>)
    requires OddClosedWalk(edges, walk)
    ensures !Proper(edges, color)
  {
    if Proper(edges, color) {
      ProperAlongWalk(edges, color, walk);
    }
  }

  /** Two proper colourings of linked nodes agree throughout or differ throughout. */
  lemma ColoringsAgreeOrDiffer(edges: seq<Pair>, f: int -> bool, g: int -> bool, x: int, y: int)
    requires Proper(edges, f) && Proper(edges, g) && Linked(edges, x, y)
    ensures (f(x) == g(x)) == (f(y) == g(y))
  {
    var p :| IsPath(edges, p) && p[0] == x && p[|p| - 1] == y;
    ProperAlongWalk(edges, f, p);
    ProperAlongWalk(edges, g, p);
  }

  lemma WalkExtends(edges: seq<Pair>, walk: seq<int>, y: int)
    requires IsPath(edges, walk) && Joined(edges, walk[|walk| - 1], y)
    ensures IsPath(edges, walk + [y])
  {
    var longer := walk + [y];
    forall i | 0 <= i < |longer| - 1 ensures Joined(edges, longer[i], longer[i + 1]) {
      if i < |walk| - 1 { assert Joined(edges, walk[i], walk[i + 1]); }
    }
  }

  lemma WalkReversed(edges: seq<Pair>, walk: seq<int>) returns (back: seq<int>)
    requires IsPath(edges, walk)
    ensures IsPath(edges, back) && |back| == |walk| && back[0] == walk[|walk| - 1] && back[|back| - 1] == walk[0]
  {
    back := seq(|walk|, i requires 0 <= i < |walk| => walk[|walk| - 1 - i]);
    forall i | 0 <= i < |back| - 1 ensures Joined(edges, back[i], back[i + 1]) {
      assert Joined(edges, walk[|walk| - 2 - i], walk[|walk| - 2 - i + 1]);
    }
  }

  lemma WalkJoined(edges: seq<Pair>, p: seq<int>, q: seq<int>)
    requires IsPath(edges, p) && IsPath(edges, q) && p[|p| - 1] == q[0]
    ensures IsPath(edges, p + q[1..]) && |p + q[1..]| == |p| + |q| - 1
    ensures (p + q[1..])[0] == p[0] && (p + q[1..])[|p| + |q| - 2] == q[|q| - 1]
  {
    var r := p + q[1..];
    forall i | 0 <= i < |r| - 1 ensures Joined(edges, r[i], r[i + 1]) {
      if i < |p| - 1 {
        assert Joined(edges, p[i], p[i + 1]);
      } else {
        assert Joined(edges, q[i - |p| + 1], q[i - |p| + 1 + 1]);
      }
    }
  }

  /** Walks of equal parity from one origin to both ends of an edge close into an odd walk. */
  lemma CloseOddWalk(edges: seq<Pair>, p: seq<int>, q: seq<int>) returns (walk: seq<int>)
    requires IsPath(edges, p) && IsPath(edges, q) && p[0] == q[0]
    requires |p| % 2 == |q| % 2 && Joined(edges, p[|p| - 1], q[|q| - 1])
    ensures OddClosedWalk(edges, walk)
  {
    WalkExtends(edges, p, q[|q| - 1]);
    var back := WalkReversed(edges, q);
    WalkJoined(edges, p + [q[|q| - 1]], back);
    walk := p + [q[|q| - 1]] + back[1..];
  }

  // ----- components

  ghost function ComponentOf(edges: seq<Pair>, n: nat, x: int): set<int> {
    set y | 0 <= y < n && Linked(edges, x, y)
  }

  /** The connected components that have edges. */
  ghost function Components(edges: seq<Pair>, n: nat): set<set<int>> {
    set x | 0 <= x < n && !Isolated(edges, x) :: ComponentOf(edges, n, x)
  }

  ghost predicate EdgesWithin(edges: seq<Pair>, n: nat) {
    forall k :: 0 <= k < |edges| ==> 0 <= edges[k].0 < n && 0 <= edges[k].1 < n
  }

  lemma JoinedWithin(edges: seq<Pair>, n: nat, x: int, y: int)
    requires EdgesWithin(edges, n) && Joined(edges, x, y)
    ensures 0 <= x < n && 0 <= y < n
  {
    if (x, y) in edges {
      var k :| 0 <= k < |edges| && edges[k] == (x, y);
    } else {
      var k :| 0 <= k < |edges| && edges[k] == (y, x);
    }
  }

  // ----- the state of the search

  /** A walk from `from` to `to` whose length has parity `c`. */
  ghost predicate Walked(edges: seq<Pair>, from: int, to: int, c: int) {
    exists w :: IsPath(edges, w) && w[0] == from && w[|w| - 1] == to && (|w| - 1) % 2 == c
  }

  /** Every coloured node has an origin, and its colour is the parity of a walk from there. */
  ghost predicate Labelled(edges: seq<Pair>, col: seq<int>, orig: seq<int>) {
    |col| == |orig| && forall x :: 0 <= x < |col| ==> LabelledAt(edges, col, orig, x)
  }

  ghost predicate LabelledAt(edges: seq<Pair>, col: seq<int>, orig: seq<int>, x: int)
    requires |col| == |orig| && 0 <= x < |col|
  {
    -1 <= col[x] <= 1 && (col[x] >= 0 ==> 0 <= orig[x] < |col| && Walked(edges, orig[x], x, col[x]) && !Isolated(edges, x))
  }

  /** All neighbours have the other colour and the same origin. */
  ghost predicate Settled(edges: seq<Pair>, col: seq<int>, orig: seq<int>, x: int)
    requires |col| == |orig| && 0 <= x < |col|
  {
    forall y :: Joined(edges, x, y) ==> SettledEdge(col, orig, x, y)
  }

  ghost predicate SettledEdge(col: seq<int>, orig: seq<int>, x: int, y: int)
    requires |col| == |orig| && 0 <= x < |col|
  {
    0 <= y < |col| && col[y] >= 0 && col[y] != col[x] && orig[y] == orig[x]
  }

  /** Coloured nodes are settled unless queued, or being expanded. */
  ghost predicate Frontier(edges: seq<Pair>, col: seq<int>, orig: seq<int>, pending: seq<int>, start: int, exempt: int)
    requires |col| == |orig|
  {
    && (forall x :: 0 <= x < |col| && col[x] >= 0 && x !in pending && x != exempt ==> Settled(edges, col, orig, x))
    && (forall x :: x in pending ==> 0 <= x < |col| && col[x] >= 0 && orig[x] == start)
  }

  function Uncolored(col: seq<int>): nat {
    if col == [] then 0 else Uncolored(col[..|col| - 1]) + (if col[|col| - 1] < 0 then 1 else 0)
  }

  lemma {:induction false} UncoloredFalls(col: seq<int>, y: nat, c: int)
    requires y < |col| && col[y] < 0 && c >= 0
    ensures Uncolored(col[y := c]) == Uncolored(col) - 1
  {
    var next := col[y := c];
    if y == |col| - 1 {
      assert next[..|col| - 1] == col[..|col| - 1];
    } else {
      assert next[..|col| - 1] == col[..|col| - 1][y := c];
      UncoloredFalls(col[..|col| - 1], y, c);
    }
  }

  lemma NodeColored(edges: seq<Pair>, col: seq<int>, orig: seq<int>, pending: seq<int>, start: int, node: int, y: int)
    requires Labelled(edges, col, orig) && Frontier(edges, col, orig, pending, start, node)
    requires 0 <= node < |col| && col[node] >= 0 && orig[node] == start
    requires Joined(edges, node, y) && 0 <= y < |col| && col[y] < 0
    ensures Labelled(edges, col[y := 1 - col[node]], orig[y := start])
    ensures Frontier(edges, col[y := 1 - col[node]], orig[y := start], pending + [y], start, node)
  {
    var col', orig' := col[y := 1 - col[node]], orig[y := start];
    assert LabelledAt(edges, col, orig, node);
    var w :| IsPath(edges, w) && w[0] == start && w[|w| - 1] == node && (|w| - 1) % 2 == col[node];
    WalkExtends(edges, w, y);
    assert Walked(edges, start, y, 1 - col[node]) by {
      assert (w + [y])[0] == start && (w + [y])[|w + [y]| - 1] == y;
    }
    assert Joined(edges, y, node);
    forall x | 0 <= x < |col'| ensures LabelledAt(edges, col', orig', x) {
      assert LabelledAt(edges, col, orig, x);
    }
    forall x | 0 <= x < |col'| && col'[x] >= 0 && x !in pending + [y] && x != node ensures Settled(edges, col', orig', x) {
      assert y in pending + [y] && x !in pending;
      forall z | Joined(edges, x, z) ensures SettledEdge(col', orig', x, z) {
        assert SettledEdge(col, orig, x, z);
      }
    }
  }

  /** A coloured neighbour shares the origin of the node being expanded. */
  lemma NeighborShares(edges: seq<Pair>, col: seq<int>, orig: seq<int>, pending: seq<int>, start: int, node: int, y: int)
    requires |col| == |orig| && Frontier(edges, col, orig, pending, start, node)
    requires 0 <= node < |col| && col[node] >= 0 && orig[node] == start
    requires Joined(edges, node, y) && 0 <= y < |col| && col[y] >= 0
    ensures orig[y] == start
  {
    if y !in pending && y != node {
      assert Joined(edges, y, node);
      assert SettledEdge(col, orig, y, node);
    }
  }

  lemma EqualColorsOddWalk(edges: seq<Pair>, col: seq<int>, orig: seq<int>, node: int, y: int) returns (walk: seq<int>)
    requires Labelled(edges, col, orig)
    requires 0 <= node < |col| && 0 <= y < |col| && col[node] == col[y] >= 0 && orig[node] == orig[y]
    requires Joined(edges, node, y)
    ensures OddClosedWalk(edges, walk)
  {
    assert LabelledAt(edges, col, orig, node) && LabelledAt(edges, col, orig, y);
    var p :| IsPath(edges, p) && p[0] == orig[node] && p[|p| - 1] == node && (|p| - 1) % 2 == col[node];
    var q :| IsPath(edges, q) && q[0] == orig[y] && q[|q| - 1] == y && (|q| - 1) % 2 == col[y];
    walk := CloseOddWalk(edges, p, q);
  }

  ghost predicate AdjacencyOf(edges: seq<Pair>, adjacency: seq<seq<int>>) {
    forall x, y {:trigger y in adjacency[x]} :: 0 <= x < |adjacency| ==> (y in adjacency[x] <==> Joined(edges, x, y))
  }

  /** What was coloured keeps its colour and origin; what is coloured since comes from `start`. */
  ghost predicate Grown(before: seq<int>, from: seq<int>, col: seq<int>, orig: seq<int>, start: int) {
    && |before| == |from| == |col| == |orig|
    && (forall x :: 0 <= x < |col| && before[x] >= 0 ==> col[x] == before[x] && orig[x] == from[x])
    && (forall x :: 0 <= x < |col| && before[x] < 0 && col[x] >= 0 ==> orig[x] == start)
  }

  lemma GrownFurther(before: seq<int>, from: seq<int>, col: seq<int>, orig: seq<int>, col': seq<int>, orig': seq<int>, start: int)
    requires Grown(before, from, col, orig, start) && Grown(col, orig, col', orig', start)
    ensures Grown(before, from, col', orig', start)
  {
  }

  /** Fewer nodes are left to colour, or nothing has changed. */
  ghost predicate Progress(before: seq<int>, queue: seq<int>, col: seq<int>, pending: seq<int>) {
    Uncolored(col) < Uncolored(before) || (col == before && pending == queue)
  }

  /** The first `upTo` neighbours are settled. */
  ghost predicate SettledUpTo(col: seq<int>, orig: seq<int>, node: int, neighbors: seq<int>, upTo: nat)
    requires |col| == |orig| && 0 <= node < |col| && upTo <= |neighbors|
  {
    forall k :: 0 <= k < upTo ==> SettledEdge(col, orig, node, neighbors[k])
  }

  lemma SettledStays(col: seq<int>, orig: seq<int>, col': seq<int>, orig': seq<int>, start: int, node: int, neighbors: seq<int>, upTo: nat)
    requires Grown(col, orig, col', orig', start) && 0 <= node < |col| && col[node] >= 0 && upTo < |neighbors|
    requires SettledUpTo(col, orig, node, neighbors, upTo) && SettledEdge(col', orig', node, neighbors[upTo])
    ensures SettledUpTo(col', orig', node, neighbors, upTo + 1)
  {
    forall k | 0 <= k < upTo + 1 ensures SettledEdge(col', orig', node, neighbors[k]) {
      if k < upTo { assert SettledEdge(col, orig, node, neighbors[k]); }
    }
  }

  /** Look at one neighbour of the node being expanded. */
  method Visit(ghost edges: seq<Pair>, color: array<int>, node: int, neighbor: int, pending: seq<int>, ghost orig: seq<int>, ghost start: int)
    returns (ok: bool, pending': seq<int>, ghost orig': seq<int>, ghost walk: seq<int>)
    requires Labelled(edges, color[..], orig) && Frontier(edges, color[..], orig, pending, start, node)
    requires 0 <= node < color.Length && color[node] >= 0 && orig[node] == start
    requires 0 <= neighbor < color.Length && Joined(edges, node, neighbor)
    modifies color
    ensures !ok ==> OddClosedWalk(edges, walk)
    ensures ok ==> Labelled(edges, color[..], orig') && Frontier(edges, color[..], orig', pending', start, node)
    ensures ok ==> Grown(old(color[..]), orig, color[..], orig', start) && Progress(old(color[..]), pending, color[..], pending')
    ensures ok ==> SettledEdge(color[..], orig', node, neighbor)
  {
    ghost var now := color[..];
    pending', orig', walk := pending, orig, [];
    assert LabelledAt(edges, now, orig, node);
    if color[neighbor] < 0 {
      NodeColored(edges, now, orig, pending, start, node, neighbor);
      UncoloredFalls(now, neighbor, 1 - color[node]);
      color[neighbor] := 1 - color[node];
      assert color[..] == now[neighbor := 1 - now[node]];
      orig' := orig[neighbor := start];
      pending' := pending + [neighbor];
    } else {
      NeighborShares(edges, now, orig, pending, start, node, neighbor);
      if color[neighbor] == color[node] {
        walk := EqualColorsOddWalk(edges, now, orig, node, neighbor);
        return false, pending, orig, walk;
      }
    }
    ok := true;
  }

  /** Once all its neighbours are settled, the node is. */
  lemma Expanded(edges: seq<Pair>, col: seq<int>, orig: seq<int>, pending: seq<int>, start: int, node: int, neighbors: seq<int>)
    requires |col| == |orig| && Frontier(edges, col, orig, pending, start, node) && 0 <= node < |col|
    requires forall y :: y in neighbors <==> Joined(edges, node, y)
    requires SettledUpTo(col, orig, node, neighbors, |neighbors|)
    ensures Frontier(edges, col, orig, pending, start, -1)
  {
    forall y | Joined(edges, node, y) ensures SettledEdge(col, orig, node, y) {
      var k :| 0 <= k < |neighbors| && neighbors[k] == y;
    }
  }

  /** Expand one node: colour its uncoloured neighbours, and check the others. */
  method Expand(ghost edges: seq<Pair>, neighbors: seq<int>, color: array<int>, node: int, queue: seq<int>, ghost orig: seq<int>, ghost start: int)
    returns (ok: bool, pending: seq<int>, ghost orig': seq<int>, ghost walk: seq<int>)
    requires EdgesWithin(edges, color.Length)
    requires forall y :: y in neighbors <==> Joined(edges, node, y)
    requires Labelled(edges, color[..], orig) && Frontier(edges, color[..], orig, queue, start, node)
    requires 0 <= node < color.Length && color[node] >= 0 && orig[node] == start
    modifies color
    ensures !ok ==> OddClosedWalk(edges, walk)
    ensures ok ==> Labelled(edges, color[..], orig') && Frontier(edges, color[..], orig', pending, start, -1)
    ensures ok ==> Grown(old(color[..]), orig, color[..], orig', start) && Progress(old(color[..]), queue, color[..], pending)
  {
    pending, orig' := queue, orig;
    walk := [];
    ghost var before := color[..];
    var i := 0;
    while i < |neighbors|
      invariant 0 <= i <= |neighbors|
      invariant Labelled(edges, color[..], orig') && Frontier(edges, color[..], orig', pending, start, node)
      invariant Grown(before, orig, color[..], orig', start) && Progress(before, queue, color[..], pending)
      invariant color[node] >= 0 && orig'[node] == start && SettledUpTo(color[..], orig', node, neighbors, i)
    {
      assert neighbors[i] in neighbors;
      JoinedWithin(edges, color.Length, node, neighbors[i]);
      ghost var now, from := color[..], orig';
      ok, pending, orig', walk := Visit(edges, color, node, neighbors[i], pending, orig', start);
      if !ok {
        return;
      }
      GrownFurther(before, orig, now, from, color[..], orig', start);
      SettledStays(now, from, color[..], orig', start, node, neighbors, i);
      i := i + 1;
    }
    Expanded(edges, color[..], orig', pending, start, node, neighbors);
    ok := true;
  }

  // ----- the outer loop

  /** Each start is its own origin, and every coloured node comes from one. */
  ghost predicate Started(col: seq<int>, orig: seq<int>, starts: seq<int>)
    requires |col| == |orig|
  {
    && (forall i :: 0 <= i < |starts| ==> 0 <= starts[i] < |col| && col[starts[i]] == 0 && orig[starts[i]] == starts[i])
    && (forall i, j :: 0 <= i < j < |starts| ==> starts[i] != starts[j])
    && (forall x :: 0 <= x < |col| && col[x] >= 0 ==> orig[x] in starts)
  }

  /** No node comes from a higher one. */
  ghost predicate OriginsBelow(col: seq<int>, orig: seq<int>) {
    |col| == |orig| && forall x :: 0 <= x < |col| && col[x] >= 0 ==> orig[x] <= x
  }

  /** The nodes below `upTo` that have edges are coloured. */
  ghost predicate ColoredUpTo(edges: seq<Pair>, col: seq<int>, upTo: nat) {
    upTo <= |col| && forall x :: 0 <= x < upTo && !Isolated(edges, x) ==> col[x] >= 0
  }

  /** Between two searches, all nodes below `upTo` having been looked at. */
  ghost predicate Searched(edges: seq<Pair>, col: seq<int>, orig: seq<int>, starts: seq<int>, upTo: nat) {
    && Labelled(edges, col, orig) && Frontier(edges, col, orig, [], 0, -1) && Started(col, orig, starts)
    && ColoredUpTo(edges, col, upTo) && OriginsBelow(col, orig)
  }

  /** A search starts at the lowest node that is not coloured, so what it colours lies above. */
  lemma SearchKeepsBelow(edges: seq<Pair>, before: seq<int>, from: seq<int>, col: seq<int>, orig: seq<int>, start: nat)
    requires Grown(before, from, col, orig, start) && Labelled(edges, col, orig)
    requires OriginsBelow(before, from) && ColoredUpTo(edges, before, start) && start < |col| && col[start] >= 0
    ensures OriginsBelow(col, orig) && ColoredUpTo(edges, col, start + 1)
  {
    forall x | 0 <= x < |col| && col[x] >= 0 ensures orig[x] <= x {
      assert LabelledAt(edges, col, orig, x);
    }
  }

  lemma SearchStarts(before: seq<int>, from: seq<int>, col: seq<int>, orig: seq<int>, starts: seq<int>, start: nat)
    requires Grown(before, from, col, orig, start) && Started(before, from, starts)
    requires start < |col| && before[start] < 0 && col[start] == 0
    ensures Started(col, orig, starts + [start])
  {
    var all := starts + [start];
    forall x | 0 <= x < |col| && col[x] >= 0 ensures orig[x] in all {
      assert start in all;
      assert before[x] >= 0 ==> from[x] in starts;
    }
  }

  /** Colour everything linked to the start. */
  method Explore(ghost edges: seq<Pair>, adjacency: seq<seq<int>>, color: array<int>, start: nat, ghost orig: seq<int>, ghost starts: seq<int>)
    returns (ok: bool, ghost orig': seq<int>, ghost walk: seq<int>)
    requires EdgesWithin(edges, color.Length) && |adjacency| == color.Length && AdjacencyOf(edges, adjacency)
    requires start < color.Length && color[start] < 0 && !Isolated(edges, start)
    requires Searched(edges, color[..], orig, starts, start)
    modifies color
    ensures !ok ==> OddClosedWalk(edges, walk)
    ensures ok ==> Searched(edges, color[..], orig', starts + [start], start + 1)
  {
    ghost var before := color[..];
    StartColored(edges, before, orig, start);
    color[start] := 0;
    orig' := orig[start := start];
    walk := [];
    assert color[..] == before[start := 0];
    var pending := [start];
    while pending != []
      invariant Labelled(edges, color[..], orig') && Frontier(edges, color[..], orig', pending, start, -1)
      invariant color[start] == 0 && Grown(before, orig, color[..], orig', start)
      decreases Uncolored(color[..]), |pending|
    {
      var node, queue := pending[0], pending[1..];
      Dequeued(edges, color[..], orig', pending, start);
      ghost var now, from := color[..], orig';
      ok, pending, orig', walk := Expand(edges, adjacency[node], color, node, queue, orig', start);
      if !ok {
        return;
      }
      GrownFurther(before, orig, now, from, color[..], orig', start);
    }
    SearchKeepsBelow(edges, before, orig, color[..], orig', start);
    SearchStarts(before, orig, color[..], orig', starts, start);
    ok := true;
  }

  lemma Dequeued(edges: seq<Pair>, col: seq<int>, orig: seq<int>, pending: seq<int>, start: int)
    requires |col| == |orig| && pending != [] && Frontier(edges, col, orig, pending, start, -1)
    ensures Frontier(edges, col, orig, pending[1..], start, pending[0])
    ensures 0 <= pending[0] < |col| && col[pending[0]] >= 0 && orig[pending[0]] == start
  {
    var node, queue := pending[0], pending[1..];
    assert pending == [node] + queue;
    assert node in pending;
    forall x | 0 <= x < |col| && col[x] >= 0 && x !in queue && x != node ensures Settled(edges, col, orig, x) {
      assert x !in pending;
    }
    forall x | x in queue ensures 0 <= x < |col| && col[x] >= 0 && orig[x] == start {
      assert x in pending;
    }
  }

  lemma StartColored(edges: seq<Pair>, col: seq<int>, orig: seq<int>, start: nat)
    requires Labelled(edges, col, orig) && Frontier(edges, col, orig, [], 0, -1)
    requires start < |col| && col[start] < 0 && !Isolated(edges, start)
    ensures Labelled(edges, col[start := 0], orig[start := start])
    ensures Frontier(edges, col[start := 0], orig[start := start], [start], start, -1)
  {
    var col', orig' := col[start := 0], orig[start := start];
    assert Walked(edges, start, start, 0) by {
      assert IsPath(edges, [start]) && [start][0] == start;
    }
    forall x | 0 <= x < |col'| ensures LabelledAt(edges, col', orig', x) {
      assert LabelledAt(edges, col, orig, x);
    }
    forall x | 0 <= x < |col'| && col'[x] >= 0 && x !in [start] && x != -1 ensures Settled(edges, col', orig', x) {
      assert start in [start];
      forall z | Joined(edges, x, z) ensures SettledEdge(col', orig', x, z) {
        assert SettledEdge(col, orig, x, z);
      }
    }
  }

  method BuildAdjacency(edges: seq<Pair>, n: nat) returns (adjacency: seq<seq<int>>)
    requires EdgesWithin(edges, n)
    ensures |adjacency| == n && AdjacencyOf(edges, adjacency)
  {
    adjacency := seq(n, _ => []);
    var k := 0;
    while k < |edges|
      invariant 0 <= k <= |edges| && |adjacency| == n
      invariant AdjacencyOf(edges[..k], adjacency)
    {
      var a, b := edges[k].0, edges[k].1;
      ghost var before := adjacency;
      adjacency := adjacency[a := adjacency[a] + [b]];
      adjacency := adjacency[b := adjacency[b] + [a]];
      assert edges[..k + 1] == edges[..k] + [(a, b)];
      AdjacencyGrows(edges[..k], before, adjacency, a, b);
      k := k + 1;
    }
    assert edges[..|edges|] == edges;
  }

  lemma AdjacencyGrows(edges: seq<Pair>, before: seq<seq<int>>, after: seq<seq<int>>, a: int, b: int)
    requires AdjacencyOf(edges, before) && 0 <= a < |before| && 0 <= b < |before|
    requires var first := before[a := before[a] + [b]]; after == first[b := first[b] + [a]]
    ensures AdjacencyOf(edges + [(a, b)], after)
  {
    forall x, y {:trigger y in after[x]} | 0 <= x < |after| ensures y in after[x] <==> Joined(edges + [(a, b)], x, y) {
      assert y in before[x] <==> Joined(edges, x, y);
      assert y in after[x] <==> y in before[x] || (x == a && y == b) || (x == b && y == a);
    }
  }

  // ----- the result

  datatype Coloring = NotBipartite | Colored(color: seq<int>, components: nat)

  /** Every edge joins colour 0 and colour 1; nodes without edges have no colour. */
  ghost predicate TwoColored(edges: seq<Pair>, n: nat, color: seq<int>) {
    && |color| == n
    && (forall x :: 0 <= x < n ==> -1 <= color[x] <= 1 && (color[x] < 0 <==> Isolated(edges, x)))
    && (forall x, y :: Joined(edges, x, y) ==> ColorsDiffer(color, x, y))
  }

  ghost predicate ColorsDiffer(color: seq<int>, x: int, y: int) {
    0 <= x < |color| && 0 <= y < |color| && color[x] >= 0 && color[y] >= 0 && color[x] != color[y]
  }

  /** The lowest node of its component. */
  ghost predicate Lowest(edges: seq<Pair>, x: int) {
    forall y :: 0 <= y < x ==> !Linked(edges, y, x)
  }

  /** A proper colouring in which the lowest node of every component has colour 0. */
  ghost predicate LowestColored(edges: seq<Pair>, n: nat, color: seq<int>) {
    TwoColored(edges, n, color) && forall x :: 0 <= x < n && color[x] >= 0 && Lowest(edges, x) ==> color[x] == 0
  }

  /** Breadth-first two-colouring of the changed edges. */
  method ColorGraph(edges: seq<Pair>, n: nat) returns (r: Coloring)
    requires EdgesWithin(edges, n)
    ensures r.NotBipartite? <==> exists walk :: OddClosedWalk(edges, walk)
    ensures r.Colored? ==> LowestColored(edges, n, r.color)
    ensures r.Colored? ==> r.components == |Components(edges, n)|
  {
    var adjacency := BuildAdjacency(edges, n);
    var color := new int[n](_ => -1);
    var components, start := 0, 0;
    ghost var orig, starts: seq<int> := seq(n, _ => -1), [];
    while start < n
      invariant 0 <= start <= n == color.Length && components == |starts|
      invariant Searched(edges, color[..], orig, starts, start)
    {
      NeighborsIsolated(edges, adjacency, start);
      if adjacency[start] != [] && color[start] < 0 {
        components := components + 1;
        var ok;
        ghost var walk;
        ok, orig, walk := Explore(edges, adjacency, color, start, orig, starts);
        if !ok {
          return NotBipartite;
        }
        starts := starts + [start];
      }
      start := start + 1;
    }
    SearchIsDone(edges, color[..], orig, starts);
    r := Colored(color[..], components);
  }

  lemma NeighborsIsolated(edges: seq<Pair>, adjacency: seq<seq<int>>, x: nat)
    requires AdjacencyOf(edges, adjacency) && x < |adjacency|
    ensures adjacency[x] == [] <==> Isolated(edges, x)
  {
    if adjacency[x] == [] {
      forall y ensures !Joined(edges, x, y) {
        assert y in adjacency[x] <==> Joined(edges, x, y);
      }
    } else {
      var y := adjacency[x][0];
      assert y in adjacency[x];
      assert Joined(edges, x, y);
    }
  }

  lemma SearchIsDone(edges: seq<Pair>, col: seq<int>, orig: seq<int>, starts: seq<int>)
    requires EdgesWithin(edges, |col|) && Searched(edges, col, orig, starts, |col|)
    ensures LowestColored(edges, |col|, col) && |Components(edges, |col|)| == |starts|
    ensures forall walk :: !OddClosedWalk(edges, walk)
  {
    ColoringIsProper(edges, col, orig);
    StartsAreComponents(edges, col, orig, starts);
    LowestIsOrigin(edges, col, orig, starts);
    NoOddWalk(edges, |col|, col);
  }

  lemma LowestIsOrigin(edges: seq<Pair>, col: seq<int>, orig: seq<int>, starts: seq<int>)
    requires Labelled(edges, col, orig) && Started(col, orig, starts) && OriginsBelow(col, orig)
    ensures forall x :: 0 <= x < |col| && col[x] >= 0 && Lowest(edges, x) ==> col[x] == 0
  {
    forall x | 0 <= x < |col| && col[x] >= 0 && Lowest(edges, x) ensures col[x] == 0 {
      OriginLinked(edges, col, orig, x);
      assert LabelledAt(edges, col, orig, x);
      assert orig[x] == x;
      var i :| 0 <= i < |starts| && starts[i] == orig[x];
    }
  }

  // ----- there is only one such colouring

  lemma {:induction false} LowestOf(edges: seq<Pair>, x: nat) returns (z: nat)
    ensures z <= x && Linked(edges, z, x) && Lowest(edges, z)
    decreases x
  {
    if Lowest(edges, x) {
      z := x;
      LinkedSelf(edges, x);
    } else {
      var y :| 0 <= y < x && Linked(edges, y, x);
      z := LowestOf(edges, y);
      LinkedTrans(edges, z, y, x);
    }
  }

  lemma LinkedIsNotIsolated(edges: seq<Pair>, z: int, x: int)
    requires Linked(edges, z, x) && !Isolated(edges, x)
    ensures !Isolated(edges, z)
  {
    var p :| IsPath(edges, p) && p[0] == z && p[|p| - 1] == x;
    if |p| > 1 {
      PathTail(edges, p);
    }
  }

  /** Two proper colourings that give every lowest node colour 0 are the same. */
  lemma LowestColoredUnique(edges: seq<Pair>, n: nat, color: seq<int>, color': seq<int>)
    requires LowestColored(edges, n, color) && LowestColored(edges, n, color')
    ensures color == color'
  {
    var f, g := (x: int) => 0 <= x < |color| && color[x] == 0, (x: int) => 0 <= x < |color'| && color'[x] == 0;
    ColorClassIsProper(edges, n, color, f);
    ColorClassIsProper(edges, n, color', g);
    forall x | 0 <= x < n ensures color[x] == color'[x] {
      if !Isolated(edges, x) {
        var z := LowestOf(edges, x);
        LinkedIsNotIsolated(edges, z, x);
        ColoringsAgreeOrDiffer(edges, f, g, z, x);
        assert color[z] == color'[z] == 0;
      }
    }
  }

  lemma ColoringIsProper(edges: seq<Pair>, col: seq<int>, orig: seq<int>)
    requires Labelled(edges, col, orig) && Frontier(edges, col, orig, [], 0, -1) && EdgesWithin(edges, |col|)
    requires forall x :: 0 <= x < |col| && !Isolated(edges, x) ==> col[x] >= 0
    ensures TwoColored(edges, |col|, col)
  {
    forall x | 0 <= x < |col| ensures -1 <= col[x] <= 1 && (col[x] < 0 <==> Isolated(edges, x)) {
      assert LabelledAt(edges, col, orig, x);
    }
    forall x, y | Joined(edges, x, y) ensures ColorsDiffer(col, x, y) {
      JoinedWithin(edges, |col|, x, y);
      assert Joined(edges, y, x);
      assert Settled(edges, col, orig, x);
      assert SettledEdge(col, orig, x, y);
    }
  }

  lemma NoOddWalk(edges: seq<Pair>, n: nat, color: seq<int>)
    requires TwoColored(edges, n, color)
    ensures forall walk :: !OddClosedWalk(edges, walk)
  {
    var f := (x: int) => 0 <= x < |color| && color[x] == 0;
    forall k | 0 <= k < |edges| ensures f(edges[k].0) != f(edges[k].1) {
      assert Joined(edges, edges[k].0, edges[k].1);
      assert ColorsDiffer(color, edges[k].0, edges[k].1);
    }
    forall walk ensures !OddClosedWalk(edges, walk) {
      if OddClosedWalk(edges, walk) {
        OddWalkForbidsColoring(edges, f, walk);
      }
    }
  }

  // ----- counting components

  lemma LinkedSameOrigin(edges: seq<Pair>, col: seq<int>, orig: seq<int>, path: seq<int>)
    requires Labelled(edges, col, orig) && Frontier(edges, col, orig, [], 0, -1)
    requires IsPath(edges, path) && 0 <= path[0] < |col| && col[path[0]] >= 0
    ensures 0 <= path[|path| - 1] < |col| && col[path[|path| - 1]] >= 0 && orig[path[|path| - 1]] == orig[path[0]]
    decreases |path|
  {
    if |path| > 1 {
      PathTail(edges, path);
      assert Settled(edges, col, orig, path[0]);
      assert SettledEdge(col, orig, path[0], path[1]);
      LinkedSameOrigin(edges, col, orig, path[1..]);
    }
  }

  lemma OriginLinked(edges: seq<Pair>, col: seq<int>, orig: seq<int>, x: int)
    requires Labelled(edges, col, orig) && 0 <= x < |col| && col[x] >= 0
    ensures Linked(edges, orig[x], x)
  {
    assert LabelledAt(edges, col, orig, x);
    var w :| IsPath(edges, w) && w[0] == orig[x] && w[|w| - 1] == x && (|w| - 1) % 2 == col[x];
  }

  lemma ComponentSame(edges: seq<Pair>, n: nat, x: int, y: int)
    requires Linked(edges, x, y)
    ensures ComponentOf(edges, n, x) == ComponentOf(edges, n, y)
  {
    LinkedSym(edges, x, y);
    forall z | 0 <= z < n ensures Linked(edges, x, z) <==> Linked(edges, y, z) {
      if Linked(edges, x, z) { LinkedTrans(edges, y, x, z); }
      if Linked(edges, y, z) { LinkedTrans(edges, x, y, z); }
    }
  }

  ghost function StartComponents(edges: seq<Pair>, n: nat, starts: seq<int>): set<set<int>> {
    set i | 0 <= i < |starts| :: ComponentOf(edges, n, starts[i])
  }

  lemma {:induction false} StartComponentsCount(edges: seq<Pair>, n: nat, starts: seq<int>)
    requires forall i, j :: 0 <= i < j < |starts| ==> ComponentOf(edges, n, starts[i]) != ComponentOf(edges, n, starts[j])
    ensures |StartComponents(edges, n, starts)| == |starts|
  {
    if starts != [] {
      var init, last := starts[..|starts| - 1], ComponentOf(edges, n, starts[|starts| - 1]);
      StartComponentsCount(edges, n, init);
      StartComponentsGrow(edges, n, starts);
      assert last !in StartComponents(edges, n, init);
    }
  }

  lemma StartComponentsGrow(edges: seq<Pair>, n: nat, starts: seq<int>)
    requires starts != []
    ensures StartComponents(edges, n, starts)
         == StartComponents(edges, n, starts[..|starts| - 1]) + {ComponentOf(edges, n, starts[|starts| - 1])}
  {
    var init := starts[..|starts| - 1];
    forall c | c in StartComponents(edges, n, starts)
      ensures c in StartComponents(edges, n, init) + {ComponentOf(edges, n, starts[|starts| - 1])}
    {
      var i :| 0 <= i < |starts| && c == ComponentOf(edges, n, starts[i]);
      if i < |init| { assert c == ComponentOf(edges, n, init[i]); }
    }
    forall c | c in StartComponents(edges, n, init) ensures c in StartComponents(edges, n, starts) {
      var i :| 0 <= i < |init| && c == ComponentOf(edges, n, init[i]);
      assert c == ComponentOf(edges, n, starts[i]);
    }
  }

  lemma StartsApart(edges: seq<Pair>, col: seq<int>, orig: seq<int>, starts: seq<int>, i: nat, j: nat)
    requires Labelled(edges, col, orig) && Frontier(edges, col, orig, [], 0, -1) && Started(col, orig, starts)
    requires i < j < |starts|
    ensures ComponentOf(edges, |col|, starts[i]) != ComponentOf(edges, |col|, starts[j])
  {
    LinkedSelf(edges, starts[j]);
    assert starts[j] in ComponentOf(edges, |col|, starts[j]);
    if Linked(edges, starts[i], starts[j]) {
      var p :| IsPath(edges, p) && p[0] == starts[i] && p[|p| - 1] == starts[j];
      LinkedSameOrigin(edges, col, orig, p);
    }
    assert starts[j] !in ComponentOf(edges, |col|, starts[i]);
  }

  /** One start for each component that has edges. */
  lemma StartsAreComponents(edges: seq<Pair>, col: seq<int>, orig: seq<int>, starts: seq<int>)
    requires Labelled(edges, col, orig) && Frontier(edges, col, orig, [], 0, -1) && Started(col, orig, starts)
    requires forall x :: 0 <= x < |col| && !Isolated(edges, x) ==> col[x] >= 0
    ensures |Components(edges, |col|)| == |starts|
  {
    var n := |col|;
    forall i, j | 0 <= i < j < |starts| ensures ComponentOf(edges, n, starts[i]) != ComponentOf(edges, n, starts[j]) {
      StartsApart(edges, col, orig, starts, i, j);
    }
    StartComponentsCount(edges, n, starts);
    forall c | c in Components(edges, n) ensures c in StartComponents(edges, n, starts) {
      var x :| 0 <= x < n && !Isolated(edges, x) && c == ComponentOf(edges, n, x);
      OriginLinked(edges, col, orig, x);
      ComponentSame(edges, n, orig[x], x);
      var i :| 0 <= i < |starts| && starts[i] == orig[x];
      assert c == ComponentOf(edges, n, starts[i]);
    }
    forall c | c in StartComponents(edges, n, starts) ensures c in Components(edges, n) {
      var i :| 0 <= i < |starts| && c == ComponentOf(edges, n, starts[i]);
      assert LabelledAt(edges, col, orig, starts[i]);
    }
    assert Components(edges, n) == StartComponents(edges, n, starts);
  }

  // ----- what one component buys

  /** With a single component the two rings are the two classes of every proper colouring,
      up to exchanging them. */
  lemma OneComponentDeterminesRings(edges: seq<Pair>, n: nat, color: seq<int>, f: int -> bool)
    requires EdgesWithin(edges, n) && TwoColored(edges, n, color) && |Components(edges, n)| == 1
    requires Proper(edges, f)
    ensures (forall x :: 0 <= x < n && color[x] >= 0 ==> f(x) == (color[x] == 0))
         || (forall x :: 0 <= x < n && color[x] >= 0 ==> f(x) == (color[x] == 1))
  {
    var g := (x: int) => 0 <= x < |color| && color[x] == 0;
    ColorClassIsProper(edges, n, color, g);
    var c :| c in Components(edges, n);
    var x0 :| 0 <= x0 < n && !Isolated(edges, x0) && c == ComponentOf(edges, n, x0);
    forall x | 0 <= x < n && color[x] >= 0 ensures (f(x) == g(x)) == (f(x0) == g(x0)) {
      SingleComponentLinks(edges, n, x0, x);
      ColoringsAgreeOrDiffer(edges, f, g, x0, x);
    }
  }

  lemma ColorClassIsProper(edges: seq<Pair>, n: nat, color: seq<int>, g: int -> bool)
    requires TwoColored(edges, n, color)
    requires forall x :: g(x) <==> 0 <= x < n && color[x] == 0
    ensures Proper(edges, g)
  {
    forall k | 0 <= k < |edges| ensures g(edges[k].0) != g(edges[k].1) {
      assert Joined(edges, edges[k].0, edges[k].1);
      assert ColorsDiffer(color, edges[k].0, edges[k].1);
    }
  }

  lemma SingleComponentLinks(edges: seq<Pair>, n: nat, x0: int, x: int)
    requires |Components(edges, n)| == 1
    requires 0 <= x0 < n && !Isolated(edges, x0) && 0 <= x < n && !Isolated(edges, x)
    ensures Linked(edges, x0, x)
  {
    assert ComponentOf(edges, n, x) in Components(edges, n);
    assert ComponentOf(edges, n, x0) in Components(edges, n);
    OnlyOne(Components(edges, n), ComponentOf(edges, n, x0), ComponentOf(edges, n, x));
    LinkedSelf(edges, x);
    assert x in ComponentOf(edges, n, x);
  }

  lemma OnlyOne<T>(s: set<T>, a: T, b: T)
    requires |s| == 1 && a in s && b in s
    ensures a == b
  {
    assert |s - {a}| == 0;
    assert b !in s - {a};
  }
}
