/** One sparsity pattern for a family of systems, padding systems to it, and the lower
    triangle handed to the direct solver. */
module UniversalTopology {
  import opened Wrappers
  import opened EntryOrder
  import opened Linking
  import opened SparseSystem
  import opened RingInference

  // ----- edges of a system

  /** The off-diagonal pattern entries above the diagonal. */
  ghost predicate HasEdge(s: LinearSystem, e: Entry)
    requires WellFormed(s)
  {
    0 <= e.0 < s.Dimension() && e.0 < e.1 && InRow(s, e.0, e.1)
  }

  /** Row `r` stores column `c`. */
  ghost predicate InRow(s: LinearSystem, r: nat, c: int)
    requires WellFormed(s) && r < s.Dimension()
  {
    exists j :: s.rowOffsets[r] <= j < s.rowOffsets[r + 1] && s.columnIndices[j] == c
  }

  /** Edges of the rows before `row`, and of row `row` up to position `j`. */
  ghost predicate EdgeSeen(s: LinearSystem, row: nat, j: nat, e: Entry)
    requires WellFormed(s) && row < s.Dimension() && s.rowOffsets[row] <= j <= s.rowOffsets[row + 1]
  {
    0 <= e.0 < s.Dimension() && e.0 < e.1
    && (if e.0 < row then InRow(s, e.0, e.1) else e.0 == row && exists i :: s.rowOffsets[row] <= i < j && s.columnIndices[i] == e.1)
  }

  /** An edge is an entry above the diagonal that its row stores. */
  lemma EdgeIff(s: LinearSystem, e: Entry)
    requires WellFormed(s)
    ensures HasEdge(s, e) <==>
      0 <= e.0 < s.Dimension() && e.0 < e.1 && exists j :: s.rowOffsets[e.0] <= j < s.rowOffsets[e.0 + 1] && s.columnIndices[j] == e.1
  {
  }

  method UndirectedOffDiagonalEdges(s: LinearSystem) returns (edges: seq<Entry>)
    requires Canonical(s)
    ensures StrictlySorted(edges)
    ensures forall e :: e in edges <==> HasEdge(s, e)
  {
    edges := [];
    var row := 0;
    while row < s.Dimension()
      invariant 0 <= row <= s.Dimension()
      invariant forall e :: e in edges <==> HasEdge(s, e) && e.0 < row
    {
      var j := s.rowOffsets[row];
      while j < s.rowOffsets[row + 1]
        invariant s.rowOffsets[row] <= j <= s.rowOffsets[row + 1]
        invariant forall e :: e in edges <==> EdgeSeen(s, row, j, e)
      {
        var column := s.columnIndices[j];
        ghost var before := edges;
        if row < column {
          edges := edges + [(row, column)];
        }
        forall e ensures e in edges <==> EdgeSeen(s, row, j + 1, e) {
          assert e in before <==> EdgeSeen(s, row, j, e);
        }
        j := j + 1;
      }
      forall e ensures EdgeSeen(s, row, s.rowOffsets[row + 1], e) <==> HasEdge(s, e) && e.0 < row + 1 {
      }
      row := row + 1;
    }
    edges := SortedUnique(edges);
  }

  /** The entries in exactly one of two sorted lists, as the library merges them. */
  function SymmetricDifference(a: seq<Entry>, b: seq<Entry>): seq<Entry>
    decreases |a| + |b|
  {
    if a == [] then b
    else if b == [] then a
    else if Before(a[0], b[0]) then [a[0]] + SymmetricDifference(a[1..], b)
    else if Before(b[0], a[0]) then [b[0]] + SymmetricDifference(a, b[1..])
    else SymmetricDifference(a[1..], b[1..])
  }

  lemma {:induction false} SymmetricDifferenceIs(a: seq<Entry>, b: seq<Entry>, e: Entry)
    requires StrictlySorted(a) && StrictlySorted(b)
    ensures e in SymmetricDifference(a, b) <==> (e in a) != (e in b)
    decreases |a| + |b|
  {
    if a != [] && b != [] {
      assert e in a <==> e == a[0] || e in a[1..];
      assert e in b <==> e == b[0] || e in b[1..];
      assert forall i :: 0 <= i < |a[1..]| ==> a[1..][i] == a[i + 1] && Before(a[0], a[i + 1]);
      assert forall i :: 0 <= i < |b[1..]| ==> b[1..][i] == b[i + 1] && Before(b[0], b[i + 1]);
      if Before(a[0], b[0]) {
        SymmetricDifferenceIs(a[1..], b, e);
      } else if Before(b[0], a[0]) {
        SymmetricDifferenceIs(a, b[1..], e);
      } else {
        SymmetricDifferenceIs(a[1..], b[1..], e);
      }
    }
  }

  // ----- the union pattern

  datatype Topology = Topology(
    rows: seq<nat>,
    columns: seq<int>,
    changedEdges: nat,
    components: nat,
    firstRing: seq<int>,
    secondRing: seq<int>)

  datatype TopologyError =
    | DifferentDimensions
    | IdenticalTopology
    | GraphNotBipartite
    | UnequalRings
    | Disconnected
    | SystemDimension

  ghost predicate ColumnsAscend(columns: seq<int>) {
    forall i, j :: 0 <= i < j < |columns| ==> columns[i] < columns[j]
  }

  function InsertedColumn(s: seq<int>, c: int): (r: seq<int>)
    requires ColumnsAscend(s)
    ensures ColumnsAscend(r) && forall x :: x in r <==> x in s || x == c
  {
    if s == [] then [c]
    else if s[|s| - 1] == c then s
    else if s[|s| - 1] < c then s + [c]
    else
      var r := InsertedColumn(s[..|s| - 1], c);
      assert s == s[..|s| - 1] + [s[|s| - 1]];
      assert forall x :: x in r ==> x < s[|s| - 1];
      assert forall i :: 0 <= i < |r| ==> r[i] in r;
      r + [s[|s| - 1]]
  }

  /** The library's sort of a row, then removal of neighbouring duplicates. */
  function SortedColumns(s: seq<int>): (r: seq<int>)
    ensures ColumnsAscend(r) && forall x :: x in r <==> x in s
  {
    if s == [] then [] else
      assert s == s[..|s| - 1] + [s[|s| - 1]];
      InsertedColumn(SortedColumns(s[..|s| - 1]), s[|s| - 1])
  }

  /** The nodes of a colour, in ascending order. */
  function ColorClass(color: seq<int>, wanted: int, upTo: nat): (ring: seq<int>)
    requires upTo <= |color|
    ensures ColumnsAscend(ring)
    ensures forall x :: x in ring <==> 0 <= x < upTo && color[x] == wanted
  {
    if upTo == 0 then []
    else
      var before := ColorClass(color, wanted, upTo - 1);
      assert forall i :: 0 <= i < |before| ==> before[i] in before;
      if color[upTo - 1] == wanted then before + [upTo - 1] else before
  }

  method NodesOfColor(color: seq<int>, wanted: int) returns (ring: seq<int>)
    ensures ring == ColorClass(color, wanted, |color|)
  {
    ring := [];
    var node := 0;
    while node < |color|
      invariant 0 <= node <= |color| && ring == ColorClass(color, wanted, node)
    {
      if color[node] == wanted {
        ring := ring + [node];
      }
      node := node + 1;
    }
  }

  /** Some system stores (r, c). */
  ghost predicate Stores(systems: seq<LinearSystem>, n: nat, r: nat, c: int)
    requires r < n && forall k :: 0 <= k < |systems| ==> WellFormed(systems[k]) && systems[k].Dimension() == n
  {
    exists k :: 0 <= k < |systems| && InRow(systems[k], r, c)
  }

  ghost predicate Crosses(first: seq<int>, second: seq<int>, r: int, c: int) {
    (r in first && c in second) || (r in second && c in first)
  }

  /** The columns each row ends up with, before sorting. */
  method CollectSystem(s: LinearSystem, rowColumns: seq<seq<int>>) returns (extended: seq<seq<int>>)
    requires WellFormed(s) && |rowColumns| == s.Dimension()
    ensures |extended| == |rowColumns|
    ensures forall r, c {:trigger c in extended[r]} :: 0 <= r < |extended| ==> (c in extended[r] <==> c in rowColumns[r] || InRow(s, r, c))
  {
    extended := rowColumns;
    var row := 0;
    while row < s.Dimension()
      invariant 0 <= row <= s.Dimension() && |extended| == |rowColumns|
      invariant forall r, c {:trigger c in extended[r]} :: 0 <= r < row ==> (c in extended[r] <==> c in rowColumns[r] || InRow(s, r, c))
      invariant forall r :: row <= r < |extended| ==> extended[r] == rowColumns[r]
    {
      var lo, hi := s.rowOffsets[row], s.rowOffsets[row + 1];
      var target := extended[row] + s.columnIndices[lo..hi];
      forall c ensures c in target <==> c in rowColumns[row] || InRow(s, row, c) {
        if InRow(s, row, c) {
          var j :| lo <= j < hi && s.columnIndices[j] == c;
          assert s.columnIndices[lo..hi][j - lo] == c;
        }
      }
      extended := extended[row := target];
      row := row + 1;
    }
  }

  method AppendRing(rowColumns: seq<seq<int>>, rows: seq<int>, columns: seq<int>) returns (extended: seq<seq<int>>)
    requires forall i :: 0 <= i < |rows| ==> 0 <= rows[i] < |rowColumns|
    ensures |extended| == |rowColumns|
    ensures forall r, c {:trigger c in extended[r]} :: 0 <= r < |extended| ==> (c in extended[r] <==> c in rowColumns[r] || (r in rows && c in columns))
  {
    extended := rowColumns;
    var i := 0;
    while i < |rows|
      invariant 0 <= i <= |rows| && |extended| == |rowColumns|
      invariant forall r, c {:trigger c in extended[r]} :: 0 <= r < |extended| ==> (c in extended[r] <==> c in rowColumns[r] || (r in rows[..i] && c in columns))
    {
      ghost var before := extended;
      extended := extended[rows[i] := extended[rows[i]] + columns];
      assert rows[..i + 1] == rows[..i] + [rows[i]];
      forall r, c {:trigger c in extended[r]} | 0 <= r < |extended|
        ensures c in extended[r] <==> c in rowColumns[r] || (r in rows[..i + 1] && c in columns)
      {
        assert c in before[r] <==> c in rowColumns[r] || (r in rows[..i] && c in columns);
        assert extended[r] == if r == rows[i] then before[r] + columns else before[r];
      }
      i := i + 1;
    }
    assert rows[..|rows|] == rows;
  }

  /** Appending a row leaves the rows before it alone. */
  lemma RowsStay(rows: seq<nat>, columns: seq<int>, sorted: seq<int>, row: nat)
    requires |rows| == row + 1 && rows[row] == |columns| && forall i, j :: 0 <= i <= j <= row ==> rows[i] <= rows[j]
    ensures var columns', rows' := columns + sorted, rows + [|columns + sorted|];
      && (forall r :: 0 <= r < row ==> columns'[rows'[r]..rows'[r + 1]] == columns[rows[r]..rows[r + 1]])
      && columns'[rows'[row]..rows'[row + 1]] == sorted
  {
  }

  /** The rows up to `row` are laid end to end. */
  ghost predicate Laid(rowColumns: seq<seq<int>>, rows: seq<nat>, columns: seq<int>, row: nat)
    requires row <= |rowColumns|
  {
    && |rows| == row + 1 && rows[0] == 0 && rows[row] == |columns|
    && (forall i, j :: 0 <= i <= j <= row ==> rows[i] <= rows[j])
    && (forall r :: 0 <= r < row ==> columns[rows[r]..rows[r + 1]] == SortedColumns(rowColumns[r]))
    && (forall j :: 0 <= j < |columns| ==> 0 <= columns[j] < |rowColumns|)
  }

  lemma LayOne(rowColumns: seq<seq<int>>, rows: seq<nat>, columns: seq<int>, row: nat)
    requires row < |rowColumns| && Laid(rowColumns, rows, columns, row)
    requires forall c :: c in rowColumns[row] ==> 0 <= c < |rowColumns|
    ensures var all := columns + SortedColumns(rowColumns[row]); Laid(rowColumns, rows + [|all|], all, row + 1)
  {
    var sorted := SortedColumns(rowColumns[row]);
    assert forall j :: 0 <= j < |sorted| ==> sorted[j] in rowColumns[row];
    RowsStay(rows, columns, sorted, row);
  }

  lemma LaidAscends(rowColumns: seq<seq<int>>, rows: seq<nat>, columns: seq<int>)
    requires Laid(rowColumns, rows, columns, |rowColumns|)
    ensures WellFormedPattern(rows, columns, |rowColumns|) && AscendingRows(rows, columns, |rowColumns|)
  {
    forall r, i, j | 0 <= r < |rowColumns| && rows[r] <= i < j < rows[r + 1] ensures columns[i] < columns[j] {
      var sorted := SortedColumns(rowColumns[r]);
      assert columns[rows[r]..rows[r + 1]][i - rows[r]] == sorted[i - rows[r]];
      assert columns[rows[r]..rows[r + 1]][j - rows[r]] == sorted[j - rows[r]];
    }
  }

  /** Sorted rows, laid end to end. */
  method Flatten(rowColumns: seq<seq<int>>) returns (rows: seq<nat>, columns: seq<int>)
    requires forall r, c {:trigger c in rowColumns[r]} :: 0 <= r < |rowColumns| && c in rowColumns[r] ==> 0 <= c < |rowColumns|
    ensures WellFormedPattern(rows, columns, |rowColumns|) && AscendingRows(rows, columns, |rowColumns|)
    ensures forall r :: 0 <= r < |rowColumns| ==> columns[rows[r]..rows[r + 1]] == SortedColumns(rowColumns[r])
  {
    rows, columns := [0], [];
    var row := 0;
    while row < |rowColumns|
      invariant 0 <= row <= |rowColumns| && Laid(rowColumns, rows, columns, row)
    {
      LayOne(rowColumns, rows, columns, row);
      columns := columns + SortedColumns(rowColumns[row]);
      rows := rows + [|columns|];
      row := row + 1;
    }
    LaidAscends(rowColumns, rows, columns);
  }

  /** Row `r` of the pattern lists column `c`. */
  ghost predicate Lists(t: Topology, n: nat, r: nat, c: int)
    requires WellFormedPattern(t.rows, t.columns, n) && r < n
  {
    exists j :: t.rows[r] <= j < t.rows[r + 1] && t.columns[j] == c
  }

  /** The edges present at one reference position only. */
  ghost function Changed(reference: LinearSystem, shifted: LinearSystem): iset<Entry>
    requires WellFormed(reference) && WellFormed(shifted)
  {
    iset e | HasEdge(reference, e) != HasEdge(shifted, e)
  }

  ghost predicate FamilyFits(systems: seq<LinearSystem>, n: nat) {
    forall k :: 0 <= k < |systems| ==> WellFormed(systems[k]) && systems[k].Dimension() == n
  }

  /** Two rings of equal size that properly colour the changed edges. */
  ghost predicate RingsOf(changed: seq<Entry>, n: nat, first: seq<int>, second: seq<int>) {
    exists color: seq<int> :: TwoColored(changed, n, color)
      && (forall x :: x in first <==> 0 <= x < n && color[x] == 0)
      && (forall x :: x in second <==> 0 <= x < n && color[x] == 1)
  }

  /** The two rings: the colour classes of the one colouring that gives the lowest node of every
      component colour 0. */
  ghost predicate RingsAre(changed: seq<Entry>, n: nat, first: seq<int>, second: seq<int>) {
    exists color: seq<int> :: LowestColored(changed, n, color)
      && first == ColorClass(color, 0, n) && second == ColorClass(color, 1, n)
  }

  ghost predicate EqualRings(first: seq<int>, second: seq<int>) { |first| == |second| > 0 }

  /** The changed edges have two rings, of equal size. */
  ghost predicate RingsFit(changed: seq<Entry>, n: nat) {
    exists first, second :: RingsAre(changed, n, first, second) && EqualRings(first, second)
  }

  ghost predicate RingsDiffer(changed: seq<Entry>, n: nat) {
    exists first, second :: RingsAre(changed, n, first, second) && !EqualRings(first, second)
  }

  lemma RingsAreUnique(changed: seq<Entry>, n: nat, first: seq<int>, second: seq<int>)
    requires RingsAre(changed, n, first, second)
    ensures RingsFit(changed, n) <==> EqualRings(first, second)
    ensures RingsDiffer(changed, n) <==> !EqualRings(first, second)
    ensures forall walk :: !OddClosedWalk(changed, walk)
  {
    var color :| LowestColored(changed, n, color) && first == ColorClass(color, 0, n) && second == ColorClass(color, 1, n);
    NoOddWalk(changed, n, color);
    forall f, s | RingsAre(changed, n, f, s) ensures f == first && s == second {
      var color' :| LowestColored(changed, n, color') && f == ColorClass(color', 0, n) && s == ColorClass(color', 1, n);
      LowestColoredUnique(changed, n, color, color');
    }
  }

  lemma OddWalkMeansNoRings(changed: seq<Entry>, n: nat)
    requires exists walk :: OddClosedWalk(changed, walk)
    ensures !RingsFit(changed, n) && !RingsDiffer(changed, n)
  {
    forall f, s | RingsAre(changed, n, f, s) ensures false {
      RingsAreUnique(changed, n, f, s);
    }
  }

  lemma NoEdgesNoRings(changed: seq<Entry>, n: nat)
    requires changed == []
    ensures !RingsFit(changed, n) && forall walk :: !OddClosedWalk(changed, walk)
  {
    forall walk ensures !OddClosedWalk(changed, walk) {
      if OddClosedWalk(changed, walk) { PathTail(changed, walk); }
    }
    forall f, s | RingsAre(changed, n, f, s) ensures !EqualRings(f, s) {
      var color :| LowestColored(changed, n, color) && f == ColorClass(color, 0, n) && s == ColorClass(color, 1, n);
      forall x | 0 <= x < n ensures color[x] < 0 {
        assert Isolated(changed, x);
      }
      NothingColored(color, n);
    }
  }

  lemma {:induction false} NothingColored(color: seq<int>, upTo: nat)
    requires upTo <= |color| && forall x :: 0 <= x < |color| ==> color[x] < 0
    ensures ColorClass(color, 0, upTo) == []
  {
    if upTo > 0 {
      NothingColored(color, upTo - 1);
    }
  }

  /** The edges of one of the two systems only. */
  method ChangedEdges(reference: LinearSystem, shifted: LinearSystem) returns (changed: seq<Entry>)
    requires Canonical(reference) && Canonical(shifted) && reference.Dimension() == shifted.Dimension()
    ensures forall e :: e in changed <==> e in Changed(reference, shifted)
    ensures EdgesWithin(changed, reference.Dimension())
  {
    var firstEdges := UndirectedOffDiagonalEdges(reference);
    var shiftedEdges := UndirectedOffDiagonalEdges(shifted);
    changed := SymmetricDifference(firstEdges, shiftedEdges);
    forall e ensures e in changed <==> e in Changed(reference, shifted) {
      SymmetricDifferenceIs(firstEdges, shiftedEdges, e);
    }
    forall k | 0 <= k < |changed| ensures 0 <= changed[k].0 < reference.Dimension() && 0 <= changed[k].1 < reference.Dimension() {
      assert changed[k] in changed;
    }
  }

  /** The rings of the changed edges, or the first check that fails. */
  method InferRings(reference: LinearSystem, shifted: LinearSystem)
    returns (r: Outcome<(seq<int>, seq<int>, nat), TopologyError>, changed: seq<Entry>)
    requires Canonical(reference) && Canonical(shifted)
    ensures r == Failed(DifferentDimensions) <==> reference.Dimension() != shifted.Dimension()
    ensures reference.Dimension() == shifted.Dimension() ==> forall e :: e in changed <==> e in Changed(reference, shifted)
    ensures r == Failed(IdenticalTopology) <==> reference.Dimension() == shifted.Dimension() && changed == []
    ensures r == Failed(GraphNotBipartite) <==> reference.Dimension() == shifted.Dimension() && exists walk :: OddClosedWalk(changed, walk)
    ensures r == Failed(UnequalRings) <==>
      reference.Dimension() == shifted.Dimension() && changed != [] && RingsDiffer(changed, reference.Dimension())
    ensures r.Done? <==> reference.Dimension() == shifted.Dimension() && RingsFit(changed, reference.Dimension())
    ensures r.Failed? ==> r.error !in {Disconnected, SystemDimension}
    ensures r.Done? ==> RingsAre(changed, reference.Dimension(), r.value.0, r.value.1) && EqualRings(r.value.0, r.value.1)
    ensures r.Done? ==> RingsOf(changed, reference.Dimension(), r.value.0, r.value.1)
    ensures r.Done? ==> r.value.2 == |Components(changed, reference.Dimension())|
  {
    changed := [];
    if reference.Dimension() != shifted.Dimension() {
      return Failed(DifferentDimensions), changed;
    }
    var n := reference.Dimension();
    changed := ChangedEdges(reference, shifted);
    if changed == [] {
      NoEdgesNoRings(changed, n);
      return Failed(IdenticalTopology), changed;
    }
    var coloring := ColorGraph(changed, n);
    if coloring.NotBipartite? {
      OddWalkMeansNoRings(changed, n);
      return Failed(GraphNotBipartite), changed;
    }
    var first := NodesOfColor(coloring.color, 0);
    var second := NodesOfColor(coloring.color, 1);
    assert RingsOf(changed, n, first, second);
    assert RingsAre(changed, n, first, second);
    RingsAreUnique(changed, n, first, second);
    if |first| == 0 || |first| != |second| {
      return Failed(UnequalRings), changed;
    }
    r := Done((first, second, coloring.components));
  }

  /** Which columns a row of the universal pattern must list. */
  ghost predicate Needed(systems: seq<LinearSystem>, n: nat, complete: bool, first: seq<int>, second: seq<int>, r: nat, c: int)
    requires r < n && FamilyFits(systems, n)
  {
    Stores(systems, n, r, c) || (complete && Crosses(first, second, r, c))
  }

  method CollectFamily(systems: seq<LinearSystem>, n: nat) returns (ok: bool, rowColumns: seq<seq<int>>)
    requires forall k :: 0 <= k < |systems| ==> WellFormed(systems[k])
    ensures ok <==> FamilyFits(systems, n)
    ensures ok ==> |rowColumns| == n
    ensures ok ==> forall r, c {:trigger c in rowColumns[r]} :: 0 <= r < n ==> (c in rowColumns[r] <==> Stores(systems, n, r, c))
  {
    rowColumns := seq(n, _ => []);
    var k := 0;
    while k < |systems|
      invariant 0 <= k <= |systems| && |rowColumns| == n
      invariant FamilyFits(systems[..k], n)
      invariant forall r, c {:trigger c in rowColumns[r]} :: 0 <= r < n ==> (c in rowColumns[r] <==> Stores(systems[..k], n, r, c))
    {
      if systems[k].Dimension() != n {
        return false, rowColumns;
      }
      ghost var before := rowColumns;
      rowColumns := CollectSystem(systems[k], rowColumns);
      forall r, c {:trigger c in rowColumns[r]} | 0 <= r < n ensures c in rowColumns[r] <==> Stores(systems[..k + 1], n, r, c) {
        assert c in before[r] <==> Stores(systems[..k], n, r, c);
        StoresGrows(systems, n, k, r, c);
      }
      k := k + 1;
    }
    assert systems[..|systems|] == systems;
    ok := true;
  }

  lemma StoresGrows(systems: seq<LinearSystem>, n: nat, k: nat, r: nat, c: int)
    requires r < n && k < |systems| && FamilyFits(systems[..k], n) && WellFormed(systems[k]) && systems[k].Dimension() == n
    ensures FamilyFits(systems[..k + 1], n)
    ensures Stores(systems[..k + 1], n, r, c) <==> Stores(systems[..k], n, r, c) || InRow(systems[k], r, c)
  {
    var init, longer := systems[..k], systems[..k + 1];
    assert forall i :: 0 <= i < k ==> longer[i] == init[i];
    assert longer[k] == systems[k];
    if Stores(init, n, r, c) {
      var i :| 0 <= i < k && InRow(init[i], r, c);
      assert InRow(longer[i], r, c);
    }
  }

  /** The pattern: what each row needs, ascending. */
  ghost predicate IsUnion(t: Topology, systems: seq<LinearSystem>, n: nat, complete: bool)
    requires FamilyFits(systems, n)
  {
    && WellFormedPattern(t.rows, t.columns, n) && AscendingRows(t.rows, t.columns, n)
    && forall r, c :: 0 <= r < n ==> (Lists(t, n, r, c) <==> Needed(systems, n, complete, t.firstRing, t.secondRing, r, c))
  }

  lemma ListsSorted(t: Topology, n: nat, r: nat, c: int, sorted: seq<int>)
    requires WellFormedPattern(t.rows, t.columns, n) && r < n
    requires t.columns[t.rows[r]..t.rows[r + 1]] == sorted
    ensures Lists(t, n, r, c) <==> c in sorted
  {
    if Lists(t, n, r, c) {
      var j :| t.rows[r] <= j < t.rows[r + 1] && t.columns[j] == c;
      assert t.columns[t.rows[r]..t.rows[r + 1]][j - t.rows[r]] == c;
    }
    if c in sorted {
      var i :| 0 <= i < |sorted| && sorted[i] == c;
      assert t.columns[t.rows[r] + i] == c;
    }
  }

  lemma NeededWithin(systems: seq<LinearSystem>, n: nat, first: seq<int>, second: seq<int>, changed: seq<Entry>, r: nat, c: int)
    requires r < n && FamilyFits(systems, n) && RingsOf(changed, n, first, second)
    requires Needed(systems, n, true, first, second, r, c)
    ensures 0 <= c < n
  {
  }

  /** The columns of every row: the family's, and the ring products when wanted. */
  method CollectColumns(systems: seq<LinearSystem>, n: nat, complete: bool, first: seq<int>, second: seq<int>, ghost changed: seq<Entry>)
    returns (ok: bool, rowColumns: seq<seq<int>>)
    requires forall k :: 0 <= k < |systems| ==> WellFormed(systems[k])
    requires RingsOf(changed, n, first, second)
    ensures ok <==> FamilyFits(systems, n)
    ensures ok ==> |rowColumns| == n
    ensures ok ==> forall r, c {:trigger c in rowColumns[r]} :: 0 <= r < n ==>
      (c in rowColumns[r] <==> Needed(systems, n, complete, first, second, r, c)) && (c in rowColumns[r] ==> 0 <= c < n)
  {
    ok, rowColumns := CollectFamily(systems, n);
    if !ok {
      return;
    }
    if complete {
      assert forall i :: 0 <= i < |first| ==> first[i] in first;
      assert forall i :: 0 <= i < |second| ==> second[i] in second;
      ghost var before := rowColumns;
      rowColumns := AppendRing(rowColumns, first, second);
      ghost var half := rowColumns;
      rowColumns := AppendRing(rowColumns, second, first);
      forall r, c {:trigger c in rowColumns[r]} | 0 <= r < n
        ensures c in rowColumns[r] <==> Needed(systems, n, complete, first, second, r, c)
      {
        assert c in before[r] <==> Stores(systems, n, r, c);
        assert c in half[r] <==> c in before[r] || (r in first && c in second);
      }
    }
    forall r, c {:trigger c in rowColumns[r]} | 0 <= r < n && c in rowColumns[r] ensures 0 <= c < n {
      NeededWithin(systems, n, first, second, changed, r, c);
    }
  }

  lemma FlattenedIsUnion(t: Topology, systems: seq<LinearSystem>, n: nat, complete: bool, rowColumns: seq<seq<int>>)
    requires FamilyFits(systems, n) && |rowColumns| == n
    requires WellFormedPattern(t.rows, t.columns, n) && AscendingRows(t.rows, t.columns, n)
    requires forall r :: 0 <= r < n ==> t.columns[t.rows[r]..t.rows[r + 1]] == SortedColumns(rowColumns[r])
    requires forall r, c {:trigger c in rowColumns[r]} :: 0 <= r < n ==>
      (c in rowColumns[r] <==> Needed(systems, n, complete, t.firstRing, t.secondRing, r, c))
    ensures IsUnion(t, systems, n, complete)
  {
    forall r, c | 0 <= r < n ensures Lists(t, n, r, c) <==> Needed(systems, n, complete, t.firstRing, t.secondRing, r, c) {
      ListsSorted(t, n, r, c, SortedColumns(rowColumns[r]));
      assert c in SortedColumns(rowColumns[r]) <==> c in rowColumns[r];
    }
  }

  /** The universal pattern of a family, or why there is none. */
  method BuildUniversalAgeTopology(reference: LinearSystem, shifted: LinearSystem, systems: seq<LinearSystem>, complete: bool)
    returns (r: Outcome<Topology, TopologyError>, ghost changed: seq<Entry>)
    requires Canonical(reference) && Canonical(shifted)
    requires forall k :: 0 <= k < |systems| ==> WellFormed(systems[k])
    ensures r == Failed(DifferentDimensions) <==> reference.Dimension() != shifted.Dimension()
    ensures reference.Dimension() == shifted.Dimension() ==> forall e :: e in changed <==> e in Changed(reference, shifted)
    ensures r == Failed(IdenticalTopology) <==> reference.Dimension() == shifted.Dimension() && changed == []
    ensures r == Failed(GraphNotBipartite) <==> reference.Dimension() == shifted.Dimension() && exists walk :: OddClosedWalk(changed, walk)
    ensures r == Failed(UnequalRings) <==>
      reference.Dimension() == shifted.Dimension() && changed != [] && RingsDiffer(changed, reference.Dimension())
    ensures r == Failed(Disconnected) <==>
      && reference.Dimension() == shifted.Dimension() && RingsFit(changed, reference.Dimension())
      && complete && |Components(changed, reference.Dimension())| != 1
    ensures r == Failed(SystemDimension) <==>
      && reference.Dimension() == shifted.Dimension() && RingsFit(changed, reference.Dimension())
      && (complete ==> |Components(changed, reference.Dimension())| == 1) && !FamilyFits(systems, reference.Dimension())
    ensures r.Done? ==> RingsAre(changed, reference.Dimension(), r.value.firstRing, r.value.secondRing)
    ensures r.Done? ==> FamilyFits(systems, reference.Dimension()) && IsUnion(r.value, systems, reference.Dimension(), complete)
    ensures r.Done? ==> RingsOf(changed, reference.Dimension(), r.value.firstRing, r.value.secondRing)
    ensures r.Done? ==> |r.value.firstRing| == |r.value.secondRing| > 0
    ensures r.Done? ==> r.value.components == |Components(changed, reference.Dimension())| && (complete ==> r.value.components == 1)
    ensures r.Done? ==> r.value.changedEdges == |changed|
  {
    var rings, edges := InferRings(reference, shifted);
    changed := edges;
    if rings.Failed? {
      return Failed(rings.error), changed;
    }
    var n := reference.Dimension();
    var (first, second, components) := rings.value;
    if complete && components != 1 {
      return Failed(Disconnected), changed;
    }
    var ok, rowColumns := CollectColumns(systems, n, complete, first, second, edges);
    if !ok {
      return Failed(SystemDimension), changed;
    }
    var rows, columns := Flatten(rowColumns);
    var t := Topology(rows, columns, |edges|, components, first, second);
    FlattenedIsUnion(t, systems, n, complete, rowColumns);
    r := Done(t);
  }

  // ----- padding

  /** The pattern lists everything the system stores. */
  ghost predicate Contains(t: Topology, s: LinearSystem)
    requires WellFormed(s) && WellFormedPattern(t.rows, t.columns, s.Dimension())
  {
    forall r :: 0 <= r < s.Dimension() ==> RowListed(s, t, r)
  }

  ghost predicate RowListed(s: LinearSystem, t: Topology, r: nat)
    requires WellFormed(s) && WellFormedPattern(t.rows, t.columns, s.Dimension()) && r < s.Dimension()
  {
    forall j :: s.rowOffsets[r] <= j < s.rowOffsets[r + 1] ==> Lists(t, s.Dimension(), r, s.columnIndices[j])
  }

  /** The padded values of a row while its source entries up to `j` have been placed. */
  ghost predicate RowPlaced(s: LinearSystem, t: Topology, values: seq<real>, r: nat, j: nat)
    requires WellFormed(s) && WellFormedPattern(t.rows, t.columns, s.Dimension()) && |values| == |t.columns|
    requires r < s.Dimension() && s.rowOffsets[r] <= j <= s.rowOffsets[r + 1]
  {
    forall i :: t.rows[r] <= i < t.rows[r + 1] ==> values[i] == Stored(s.columnIndices, s.values, s.rowOffsets[r], j, t.columns[i])
  }

  /** A whole row is in place. */
  ghost predicate RowDone(s: LinearSystem, t: Topology, values: seq<real>, r: nat)
    requires WellFormed(s) && WellFormedPattern(t.rows, t.columns, s.Dimension()) && |values| == |t.columns|
    requires r < s.Dimension()
  {
    RowPlaced(s, t, values, r, s.rowOffsets[r + 1])
  }

  ghost predicate AllBelow(columns: seq<int>, lo: nat, hi: nat, column: int)
    requires hi <= |columns|
  {
    forall i :: lo <= i < hi ==> columns[i] < column
  }

  /** A column that the merge has passed by is not listed. */
  lemma PassedBy(t: Topology, n: nat, r: nat, column: int, target: nat)
    requires WellFormedPattern(t.rows, t.columns, n) && AscendingRows(t.rows, t.columns, n) && r < n
    requires t.rows[r] <= target <= t.rows[r + 1] && AllBelow(t.columns, t.rows[r], target, column)
    requires target == t.rows[r + 1] || t.columns[target] > column
    ensures !Lists(t, n, r, column)
  {
  }

  /** Move the target pointer to the first column that is not below the given one. */
  method Advance(columns: seq<int>, start: nat, from: nat, end: nat, column: int) returns (target: nat)
    requires start <= from <= end <= |columns| && AllBelow(columns, start, from, column)
    ensures from <= target <= end && AllBelow(columns, start, target, column)
    ensures target == end || columns[target] >= column
  {
    target := from;
    while target < end && columns[target] < column
      invariant from <= target <= end && AllBelow(columns, start, target, column)
    {
      target := target + 1;
    }
  }

  /** The two-pointer merge of one row. */
  method PadRow(s: LinearSystem, t: Topology, values: array<real>, r: nat) returns (ok: bool)
    requires Canonical(s) && WellFormedPattern(t.rows, t.columns, s.Dimension()) && AscendingRows(t.rows, t.columns, s.Dimension())
    requires values.Length == |t.columns| && r < s.Dimension()
    requires forall i :: t.rows[r] <= i < t.rows[r + 1] ==> values[i] == 0.0
    modifies values
    ensures forall i :: 0 <= i < values.Length && !(t.rows[r] <= i < t.rows[r + 1]) ==> values[i] == old(values[i])
    ensures ok <==> RowListed(s, t, r)
    ensures ok ==> RowDone(s, t, values[..], r)
  {
    ghost var start := values[..];
    var target, j := t.rows[r], s.rowOffsets[r];
    MergeStarts(s, t, r, start);
    while j < s.rowOffsets[r + 1]
      invariant Merging(s, t, r, start, values[..], j, target)
    {
      ghost var before, from := values[..], target;
      target := Advance(t.columns, t.rows[r], target, t.rows[r + 1], s.columnIndices[j]);
      if target == t.rows[r + 1] || t.columns[target] != s.columnIndices[j] {
        NotListed(s, t, r, j, target);
        return false;
      }
      MergeOne(s, t, r, start, before, j, from, target);
      PlaceAt(values, target, s.values[j]);
      j := j + 1;
    }
    MergeEnds(s, t, r, start, values[..], j, target);
    ok := true;
  }

  lemma MergeStarts(s: LinearSystem, t: Topology, r: nat, start: seq<real>)
    requires Canonical(s) && WellFormedPattern(t.rows, t.columns, s.Dimension()) && |start| == |t.columns| && r < s.Dimension()
    requires forall i :: t.rows[r] <= i < t.rows[r + 1] ==> start[i] == 0.0
    ensures Merging(s, t, r, start, start, s.rowOffsets[r], t.rows[r])
  {
  }

  lemma MergeEnds(s: LinearSystem, t: Topology, r: nat, start: seq<real>, values: seq<real>, j: nat, target: nat)
    requires Canonical(s) && WellFormedPattern(t.rows, t.columns, s.Dimension()) && r < s.Dimension()
    requires Merging(s, t, r, start, values, j, target) && j == s.rowOffsets[r + 1]
    ensures RowListed(s, t, r) && RowDone(s, t, values, r)
  {
  }

  lemma NotListed(s: LinearSystem, t: Topology, r: nat, j: nat, target: nat)
    requires Canonical(s) && WellFormedPattern(t.rows, t.columns, s.Dimension()) && AscendingRows(t.rows, t.columns, s.Dimension())
    requires r < s.Dimension() && s.rowOffsets[r] <= j < s.rowOffsets[r + 1] && t.rows[r] <= target <= t.rows[r + 1]
    requires AllBelow(t.columns, t.rows[r], target, s.columnIndices[j])
    requires target == t.rows[r + 1] || t.columns[target] > s.columnIndices[j]
    ensures !RowListed(s, t, r)
  {
    PassedBy(t, s.Dimension(), r, s.columnIndices[j], target);
  }

  /** The entries of a row up to `j` are in place, and what lies outside the row is as it was. */
  ghost predicate Merging(s: LinearSystem, t: Topology, r: nat, start: seq<real>, values: seq<real>, j: nat, target: nat)
    requires WellFormed(s) && WellFormedPattern(t.rows, t.columns, s.Dimension()) && r < s.Dimension()
  {
    && |start| == |values| == |t.columns|
    && s.rowOffsets[r] <= j <= s.rowOffsets[r + 1] && t.rows[r] <= target <= t.rows[r + 1]
    && (forall i :: 0 <= i < |values| && !(t.rows[r] <= i < t.rows[r + 1]) ==> values[i] == start[i])
    && (forall k :: s.rowOffsets[r] <= k < j ==> Lists(t, s.Dimension(), r, s.columnIndices[k]))
    && (j < s.rowOffsets[r + 1] ==> AllBelow(t.columns, t.rows[r], target, s.columnIndices[j]))
    && RowPlaced(s, t, values, r, j)
  }

  lemma MergeOne(s: LinearSystem, t: Topology, r: nat, start: seq<real>, values: seq<real>, j: nat, from: nat, target: nat)
    requires Canonical(s) && WellFormedPattern(t.rows, t.columns, s.Dimension()) && AscendingRows(t.rows, t.columns, s.Dimension())
    requires r < s.Dimension() && s.rowOffsets[r] <= j < s.rowOffsets[r + 1] && Merging(s, t, r, start, values, j, from)
    requires t.rows[r] <= target < t.rows[r + 1] && t.columns[target] == s.columnIndices[j]
    requires AllBelow(t.columns, t.rows[r], target, s.columnIndices[j])
    ensures Merging(s, t, r, start, values[target := s.values[j]], j + 1, target)
  {
    EntryPlaced(s, t, values, r, j, target);
    NextColumn(s, r, j);
    assert Lists(t, s.Dimension(), r, s.columnIndices[j]);
  }

  method PlaceAt(values: array<real>, target: nat, v: real)
    requires target < values.Length
    modifies values
    ensures values[..] == old(values[..])[target := v]
  {
    values[target] := v;
  }

  lemma NextColumn(s: LinearSystem, r: nat, j: nat)
    requires Canonical(s) && r < s.Dimension() && s.rowOffsets[r] <= j < s.rowOffsets[r + 1]
    ensures j + 1 < s.rowOffsets[r + 1] ==> s.columnIndices[j] < s.columnIndices[j + 1]
  {
  }

  lemma EntryPlaced(s: LinearSystem, t: Topology, before: seq<real>, r: nat, j: nat, target: nat)
    requires Canonical(s) && WellFormedPattern(t.rows, t.columns, s.Dimension()) && AscendingRows(t.rows, t.columns, s.Dimension())
    requires |before| == |t.columns| && r < s.Dimension() && s.rowOffsets[r] <= j < s.rowOffsets[r + 1]
    requires t.rows[r] <= target < t.rows[r + 1] && t.columns[target] == s.columnIndices[j]
    requires RowPlaced(s, t, before, r, j)
    ensures RowPlaced(s, t, before[target := s.values[j]], r, j + 1)
  {
    StoredAbsent(s.columnIndices, s.values, s.rowOffsets[r], j, s.columnIndices[j]);
    forall i | t.rows[r] <= i < t.rows[r + 1] && i != target ensures t.columns[i] != s.columnIndices[j] {
      if i < target { assert t.columns[i] < t.columns[target]; } else { assert t.columns[target] < t.columns[i]; }
    }
  }

  /** The rows before `row` are in place, the rest is still zero. */
  ghost predicate PaddedUpTo(s: LinearSystem, t: Topology, values: seq<real>, row: nat)
    requires WellFormed(s) && WellFormedPattern(t.rows, t.columns, s.Dimension()) && |values| == |t.columns| && row <= s.Dimension()
  {
    && (forall i :: t.rows[row] <= i < |values| ==> values[i] == 0.0)
    && (forall r :: 0 <= r < row ==> RowDone(s, t, values, r) && RowListed(s, t, r))
  }

  lemma OneMoreRow(s: LinearSystem, t: Topology, before: seq<real>, after: seq<real>, row: nat)
    requires WellFormed(s) && WellFormedPattern(t.rows, t.columns, s.Dimension()) && row < s.Dimension()
    requires |before| == |after| == |t.columns| && PaddedUpTo(s, t, before, row)
    requires forall i :: 0 <= i < |after| && !(t.rows[row] <= i < t.rows[row + 1]) ==> after[i] == before[i]
    requires RowDone(s, t, after, row) && RowListed(s, t, row)
    ensures PaddedUpTo(s, t, after, row + 1)
  {
    forall r | 0 <= r < row ensures RowDone(s, t, after, r) {
      assert RowDone(s, t, before, r);
      assert t.rows[r + 1] <= t.rows[row];
    }
  }

  /** Write a system's values into the universal pattern. */
  method PadToTopology(s: LinearSystem, t: Topology) returns (r: Outcome<LinearSystem, ()>)
    requires Canonical(s) && WellFormedPattern(t.rows, t.columns, s.Dimension()) && AscendingRows(t.rows, t.columns, s.Dimension())
    ensures r.Done? <==> Contains(t, s)
    ensures r.Done? ==> WellFormed(r.value) && r.value.rowOffsets == t.rows && r.value.columnIndices == t.columns && r.value.rhs == s.rhs
    ensures r.Done? ==> SameMatrix(s, r.value)
  {
    var values := new real[|t.columns|](_ => 0.0);
    var row := 0;
    while row < s.Dimension()
      invariant 0 <= row <= s.Dimension() && PaddedUpTo(s, t, values[..], row)
    {
      ghost var before := values[..];
      var ok := PadRow(s, t, values, row);
      if !ok {
        assert !RowListed(s, t, row);
        return Failed(());
      }
      OneMoreRow(s, t, before, values[..], row);
      row := row + 1;
    }
    PaddedIsSame(s, t, values[..]);
    r := Done(LinearSystem(t.rows, t.columns, values[..], s.rhs));
  }

  lemma PaddedIsSame(s: LinearSystem, t: Topology, values: seq<real>)
    requires Canonical(s) && WellFormedPattern(t.rows, t.columns, s.Dimension()) && AscendingRows(t.rows, t.columns, s.Dimension())
    requires |values| == |t.columns| && Contains(t, s)
    requires forall r :: 0 <= r < s.Dimension() ==> RowDone(s, t, values, r)
    ensures WellFormed(LinearSystem(t.rows, t.columns, values, s.rhs))
    ensures SameMatrix(s, LinearSystem(t.rows, t.columns, values, s.rhs))
  {
    var padded := LinearSystem(t.rows, t.columns, values, s.rhs);
    forall r, c | 0 <= r < s.Dimension() && 0 <= c < s.Dimension() ensures EntryAt(s, r, c) == EntryAt(padded, r, c) {
      assert RowDone(s, t, values, r) && RowListed(s, t, r);
      if Lists(t, s.Dimension(), r, c) {
        var i :| t.rows[r] <= i < t.rows[r + 1] && t.columns[i] == c;
        forall k | t.rows[r] <= k < t.rows[r + 1] && k != i ensures t.columns[k] != c {
          if k < i { assert t.columns[k] < t.columns[i]; } else { assert t.columns[i] < t.columns[k]; }
        }
        StoredOnce(t.columns, values, t.rows[r], t.rows[r + 1], i);
      } else {
        StoredAbsent(t.columns, values, t.rows[r], t.rows[r + 1], c);
        StoredAbsent(s.columnIndices, s.values, s.rowOffsets[r], s.rowOffsets[r + 1], c);
      }
    }
  }

  /** The union lists what some system stores and, where the rings are completed, every place that
      joins a node of one ring to a node of the other; and nothing else. */
  lemma UnionIs(t: Topology, systems: seq<LinearSystem>, n: nat, complete: bool, r: nat, c: int)
    requires FamilyFits(systems, n) && IsUnion(t, systems, n, complete) && r < n
    ensures (forall k :: 0 <= k < |systems| ==> !InRow(systems[k], r, c)) ==>
      (Lists(t, n, r, c) <==> complete && ((r in t.firstRing && c in t.secondRing) || (c in t.firstRing && r in t.secondRing)))
    ensures forall k :: 0 <= k < |systems| && InRow(systems[k], r, c) ==> Lists(t, n, r, c)
  {
    assert Lists(t, n, r, c) <==> Needed(systems, n, complete, t.firstRing, t.secondRing, r, c);
    if k :| 0 <= k < |systems| && InRow(systems[k], r, c) {
      assert Stores(systems, n, r, c);
    }
  }

  /** Padding never fails for a system of the family the pattern was built from. */
  lemma FamilyIsContained(t: Topology, systems: seq<LinearSystem>, n: nat, complete: bool, k: nat)
    requires FamilyFits(systems, n) && IsUnion(t, systems, n, complete) && k < |systems|
    ensures Contains(t, systems[k])
  {
    forall r | 0 <= r < n ensures RowListed(systems[k], t, r) {
      forall j | systems[k].rowOffsets[r] <= j < systems[k].rowOffsets[r + 1]
        ensures Lists(t, n, r, systems[k].columnIndices[j])
      {
        assert InRow(systems[k], r, systems[k].columnIndices[j]);
        assert Stores(systems, n, r, systems[k].columnIndices[j]);
      }
    }
  }

  /** A padded system acts on every vector as the source did, and leaves the same residual. */
  lemma PaddingPreservesTheOperator(s: LinearSystem, padded: LinearSystem, x: seq<real>)
    requires WellFormed(s) && WellFormed(padded) && SameMatrix(s, padded) && padded.rhs == s.rhs && |x| == s.Dimension()
    ensures forall r :: 0 <= r < |x| ==> RowProduct(padded, r, x) == RowProduct(s, r, x)
    ensures RelativeResidualSquared(ResidualOf(padded, x), padded.rhs) == RelativeResidualSquared(ResidualOf(s, x), s.rhs)
  {
    forall r | 0 <= r < |x| ensures RowProduct(padded, r, x) == RowProduct(s, r, x) {
      SameMatrixSameProduct(s, padded, r, x);
    }
    SameMatrixSameResidual(s, padded, x);
  }

  // ----- symmetry and the lower triangle

  ghost predicate SymmetricPattern(s: LinearSystem)
    requires WellFormed(s)
  {
    forall r, c :: 0 <= r < s.Dimension() && 0 <= c < s.Dimension() ==> (InRow(s, r, c) <==> InRow(s, c, r))
  }

  /** The union of symmetric patterns, with the ring products, is symmetric. */
  lemma UnionIsSymmetric(t: Topology, systems: seq<LinearSystem>, n: nat, complete: bool, r: nat, c: nat)
    requires FamilyFits(systems, n) && IsUnion(t, systems, n, complete) && r < n && c < n
    requires forall k :: 0 <= k < |systems| ==> SymmetricPattern(systems[k])
    ensures Lists(t, n, r, c) <==> Lists(t, n, c, r)
  {
    assert Stores(systems, n, r, c) <==> Stores(systems, n, c, r) by {
      if Stores(systems, n, r, c) {
        var k :| 0 <= k < |systems| && InRow(systems[k], r, c);
        assert InRow(systems[k], c, r);
      }
      if Stores(systems, n, c, r) {
        var k :| 0 <= k < |systems| && InRow(systems[k], c, r);
        assert InRow(systems[k], r, c);
      }
    }
    assert Lists(t, n, r, c) <==> Needed(systems, n, complete, t.firstRing, t.secondRing, r, c);
    assert Lists(t, n, c, r) <==> Needed(systems, n, complete, t.firstRing, t.secondRing, c, r);
  }

  datatype LowerCsr = LowerCsr(rows: seq<nat>, columns: seq<int>, fullValueIndices: seq<nat>)

  /** The stored positions of a row, up to `j`, that lie on or below the diagonal. */
  ghost function LowerPositions(columns: seq<int>, r: nat, lo: nat, j: nat): (p: seq<nat>)
    requires lo <= j <= |columns|
    ensures forall i :: 0 <= i < |p| ==> p[i] < |columns|
    decreases j
  {
    if j == lo then [] else
      LowerPositions(columns, r, lo, j - 1) + (if columns[j - 1] <= r then [j - 1] else [])
  }

  /** The lower triangle, row by row. */
  ghost predicate IsLower(s: LinearSystem, lower: LowerCsr)
    requires WellFormed(s)
  {
    && WellFormedPattern(lower.rows, lower.columns, s.Dimension()) && |lower.fullValueIndices| == |lower.columns|
    && PositionsValid(s, lower)
    && forall r :: 0 <= r < s.Dimension() ==> IsLowerRow(s, lower, r)
  }

  ghost predicate PositionsValid(s: LinearSystem, lower: LowerCsr)
    requires |lower.fullValueIndices| == |lower.columns|
  {
    forall i :: 0 <= i < |lower.columns| ==>
      lower.fullValueIndices[i] < |s.columnIndices| && lower.columns[i] == s.columnIndices[lower.fullValueIndices[i]]
  }

  ghost predicate IsLowerRow(s: LinearSystem, lower: LowerCsr, r: nat)
    requires WellFormed(s) && r < s.Dimension() && r + 1 < |lower.rows|
  {
    lower.rows[r] <= lower.rows[r + 1] <= |lower.fullValueIndices|
    && lower.fullValueIndices[lower.rows[r]..lower.rows[r + 1]] == LowerPositions(s.columnIndices, r, s.rowOffsets[r], s.rowOffsets[r + 1])
  }

  /** The lower triangle of the rows up to `row`. */
  ghost predicate LowerUpTo(s: LinearSystem, lower: LowerCsr, row: nat)
    requires WellFormed(s) && row <= s.Dimension()
  {
    && |lower.rows| == row + 1 && lower.rows[0] == 0
    && lower.rows[row] == |lower.columns| == |lower.fullValueIndices|
    && (forall i, j :: 0 <= i <= j <= row ==> lower.rows[i] <= lower.rows[j])
    && PositionsValid(s, lower)
    && forall r :: 0 <= r < row ==> IsLowerRow(s, lower, r)
  }

  /** The entries of one row on or below the diagonal, with their positions. */
  method LowerRow(columns: seq<int>, r: nat, lo: nat, hi: nat) returns (kept: seq<int>, indices: seq<nat>)
    requires lo <= hi <= |columns|
    ensures indices == LowerPositions(columns, r, lo, hi) && |kept| == |indices|
    ensures forall i :: 0 <= i < |kept| ==> kept[i] == columns[indices[i]]
  {
    kept, indices := [], [];
    var j := lo;
    while j < hi
      invariant lo <= j <= hi && indices == LowerPositions(columns, r, lo, j) && |kept| == |indices|
      invariant forall i :: 0 <= i < |kept| ==> kept[i] == columns[indices[i]]
    {
      if columns[j] <= r {
        kept := kept + [columns[j]];
        indices := indices + [j];
      }
      j := j + 1;
    }
  }

  lemma LowerNext(s: LinearSystem, lower: LowerCsr, row: nat, kept: seq<int>, indices: seq<nat>)
    requires WellFormed(s) && row < s.Dimension() && LowerUpTo(s, lower, row)
    requires indices == LowerPositions(s.columnIndices, row, s.rowOffsets[row], s.rowOffsets[row + 1]) && |kept| == |indices|
    requires forall i :: 0 <= i < |kept| ==> kept[i] == s.columnIndices[indices[i]]
    ensures LowerUpTo(s, LowerCsr(lower.rows + [|lower.columns + kept|], lower.columns + kept, lower.fullValueIndices + indices), row + 1)
  {
    var next := LowerCsr(lower.rows + [|lower.columns + kept|], lower.columns + kept, lower.fullValueIndices + indices);
    forall r | 0 <= r < row ensures IsLowerRow(s, next, r) {
      LowerRowStays(s, lower, next, row, r);
    }
    assert next.fullValueIndices[next.rows[row]..next.rows[row + 1]] == indices;
  }

  lemma LowerRowStays(s: LinearSystem, lower: LowerCsr, next: LowerCsr, row: nat, r: nat)
    requires WellFormed(s) && r < row < s.Dimension() && LowerUpTo(s, lower, row)
    requires |next.rows| > row && next.rows[..row + 1] == lower.rows
    requires |next.fullValueIndices| >= |lower.fullValueIndices| && next.fullValueIndices[..|lower.fullValueIndices|] == lower.fullValueIndices
    ensures IsLowerRow(s, next, r)
  {
    assert IsLowerRow(s, lower, r);
    var lo, hi := lower.rows[r], lower.rows[r + 1];
    assert hi <= lower.rows[row];
    assert next.rows[..row + 1][r] == lo && next.rows[..row + 1][r + 1] == hi;
    assert next.fullValueIndices[lo..hi] == next.fullValueIndices[..|lower.fullValueIndices|][lo..hi];
  }

  method MakeLowerCsr(s: LinearSystem) returns (lower: LowerCsr)
    requires WellFormed(s)
    ensures IsLower(s, lower)
  {
    lower := LowerCsr([0], [], []);
    var row := 0;
    while row < s.Dimension()
      invariant 0 <= row <= s.Dimension() && LowerUpTo(s, lower, row)
    {
      var kept, indices := LowerRow(s.columnIndices, row, s.rowOffsets[row], s.rowOffsets[row + 1]);
      LowerNext(s, lower, row, kept, indices);
      var columns := lower.columns + kept;
      lower := LowerCsr(lower.rows + [|columns|], columns, lower.fullValueIndices + indices);
      row := row + 1;
    }
    forall j | 0 <= j < |lower.columns| ensures 0 <= lower.columns[j] < s.Dimension() {
      assert lower.columns[j] == s.columnIndices[lower.fullValueIndices[j]];
    }
  }

  /** Look the lower triangle's values up in the source. */
  method GatherLowerValues(s: LinearSystem, lower: LowerCsr) returns (values: seq<real>)
    requires WellFormed(s) && IsLower(s, lower)
    ensures |values| == |lower.columns|
    ensures forall i :: 0 <= i < |values| ==> values[i] == s.values[lower.fullValueIndices[i]]
  {
    values := [];
    var i := 0;
    while i < |lower.fullValueIndices|
      invariant 0 <= i <= |lower.fullValueIndices| && |values| == i
      invariant forall k :: 0 <= k < i ==> values[k] == s.values[lower.fullValueIndices[k]]
    {
      values := values + [s.values[lower.fullValueIndices[i]]];
      i := i + 1;
    }
  }

  /** What a list of stored positions adds to a column. */
  ghost function SumAt(columns: seq<int>, values: seq<real>, positions: seq<nat>, c: int): real
    requires |columns| == |values| && forall i :: 0 <= i < |positions| ==> positions[i] < |columns|
  {
    if positions == [] then 0.0 else
      var last := positions[|positions| - 1];
      SumAt(columns, values, positions[..|positions| - 1], c) + (if columns[last] == c then values[last] else 0.0)
  }

  lemma SumAtExtends(columns: seq<int>, values: seq<real>, positions: seq<nat>, p: nat, c: int)
    requires |columns| == |values| && p < |columns| && forall i :: 0 <= i < |positions| ==> positions[i] < |columns|
    ensures SumAt(columns, values, positions + [p], c) == SumAt(columns, values, positions, c) + (if columns[p] == c then values[p] else 0.0)
  {
    assert (positions + [p])[..|positions|] == positions;
  }

  lemma {:induction false} SumAtLower(columns: seq<int>, values: seq<real>, r: nat, lo: nat, j: nat, c: int)
    requires |columns| == |values| && lo <= j <= |columns|
    ensures SumAt(columns, values, LowerPositions(columns, r, lo, j), c) == if c <= r then Stored(columns, values, lo, j, c) else 0.0
    decreases j
  {
    var kept := LowerPositions(columns, r, lo, j);
    if lo == j {
      assert kept == [];
    } else {
      var init := LowerPositions(columns, r, lo, j - 1);
      SumAtLower(columns, values, r, lo, j - 1, c);
      var stored, before := Stored(columns, values, lo, j, c), Stored(columns, values, lo, j - 1, c);
      assert stored == before + (if columns[j - 1] == c then values[j - 1] else 0.0);
      if columns[j - 1] <= r {
        SumAtExtends(columns, values, init, j - 1, c);
        assert kept == init + [j - 1];
      } else {
        assert kept == init + [];
        assert kept == init;
      }
    }
  }

  lemma {:induction false} StoredIsSumAt(s: LinearSystem, lower: LowerCsr, values: seq<real>, lo: nat, hi: nat, c: int)
    requires WellFormed(s) && |lower.fullValueIndices| == |lower.columns| == |values| && PositionsValid(s, lower)
    requires forall i :: 0 <= i < |values| ==> lower.fullValueIndices[i] < |s.values| && values[i] == s.values[lower.fullValueIndices[i]]
    requires lo <= hi <= |values|
    ensures Stored(lower.columns, values, lo, hi, c) == SumAt(s.columnIndices, s.values, lower.fullValueIndices[lo..hi], c)
    decreases hi
  {
    if lo < hi {
      StoredIsSumAt(s, lower, values, lo, hi - 1, c);
      assert lower.fullValueIndices[lo..hi][..hi - 1 - lo] == lower.fullValueIndices[lo..hi - 1];
    }
  }

  /** The entry that the lower triangle stands for at (r, c): its own, or its mirror image. */
  ghost function MirroredEntry(lower: LowerCsr, values: seq<real>, r: nat, c: nat): real
    requires |values| == |lower.columns| && r + 1 < |lower.rows| && c + 1 < |lower.rows|
    requires WellFormedPattern(lower.rows, lower.columns, |lower.rows| - 1)
  {
    if c <= r then Stored(lower.columns, values, lower.rows[r], lower.rows[r + 1], c)
    else Stored(lower.columns, values, lower.rows[c], lower.rows[c + 1], r)
  }

  /** The lower triangle and its mirror image give back every entry of a symmetric matrix. */
  lemma LowerRecoversSymmetric(s: LinearSystem, lower: LowerCsr, values: seq<real>, r: nat, c: nat)
    requires WellFormed(s) && IsLower(s, lower) && |values| == |lower.columns|
    requires forall i :: 0 <= i < |values| ==> lower.fullValueIndices[i] < |s.values| && values[i] == s.values[lower.fullValueIndices[i]]
    requires r < s.Dimension() && c < s.Dimension()
    requires EntryAt(s, r, c) == EntryAt(s, c, r)
    ensures MirroredEntry(lower, values, r, c) == EntryAt(s, r, c)
  {
    var hi, lo := if c <= r then r else c, if c <= r then c else r;
    assert IsLowerRow(s, lower, hi);
    StoredIsSumAt(s, lower, values, lower.rows[hi], lower.rows[hi + 1], lo);
    SumAtLower(s.columnIndices, s.values, hi, s.rowOffsets[hi], s.rowOffsets[hi + 1], lo);
  }
}
