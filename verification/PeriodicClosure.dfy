/** Closing a sparsity pattern under periodic node pairs, with a union-find forest. */
module PeriodicClosure {
  import opened EntryOrder
  import opened Linking

  // ----- the forest

  /** An acyclic forest: `rep` is each node's root, `dist` falls along every parent step. */
  ghost predicate Forest(parent: seq<int>, rep: seq<int>, dist: seq<nat>) {
    && |parent| == |rep| == |dist|
    && (forall i :: 0 <= i < |parent| ==> 0 <= parent[i] < |parent| && 0 <= rep[i] < |parent|)
    && (forall i {:trigger parent[i]} :: 0 <= i < |parent| ==> if parent[i] == i then rep[i] == i else rep[parent[i]] == rep[i] && dist[parent[i]] < dist[i])
    && (forall i :: 0 <= i < |parent| ==> parent[rep[i]] == rep[i])
  }

  ghost predicate InRange(pairs: seq<(int, int)>, n: nat) {
    forall k :: 0 <= k < |pairs| ==> 0 <= pairs[k].0 < n && 0 <= pairs[k].1 < n
  }

  /** Follow parents to the root. */
  method Root(parent: array<int>, node: int, ghost rep: seq<int>, ghost dist: seq<nat>) returns (result: int)
    requires Forest(parent[..], rep, dist) && 0 <= node < parent.Length
    ensures 0 <= result < parent.Length && result == rep[node] && parent[result] == result
  {
    result := node;
    while parent[result] != result
      invariant 0 <= result < parent.Length && rep[result] == rep[node]
      decreases dist[result]
    {
      assert parent[..][result] == parent[result];
      result := parent[result];
    }
    assert parent[..][result] == parent[result];
  }

  /** Same root exactly when linked. */
  ghost predicate Represents(pairs: seq<Pair>, rep: seq<int>) {
    && (forall k :: 0 <= k < |pairs| ==> 0 <= pairs[k].0 < |rep| && 0 <= pairs[k].1 < |rep| && rep[pairs[k].0] == rep[pairs[k].1])
    && (forall x, y :: 0 <= x < |rep| && 0 <= y < |rep| && rep[x] == rep[y] ==> Linked(pairs, x, y))
  }

  lemma PathKeepsRoot(pairs: seq<Pair>, rep: seq<int>, path: seq<int>)
    requires Represents(pairs, rep) && IsPath(pairs, path) && 0 <= path[0] < |rep|
    ensures 0 <= path[|path| - 1] < |rep| && rep[path[|path| - 1]] == rep[path[0]]
  {
    if |path| > 1 {
      assert Joined(pairs, path[0], path[1]);
      var tail := path[1..];
      forall i | 0 <= i < |tail| - 1 ensures Joined(pairs, tail[i], tail[i + 1]) {
        assert Joined(pairs, path[i + 1], path[i + 1 + 1]);
      }
      PathKeepsRoot(pairs, rep, tail);
    }
  }

  /** Two nodes share a root exactly when a chain of pairs links them. */
  lemma SameRootIffLinked(pairs: seq<Pair>, rep: seq<int>, x: int, y: int)
    requires Represents(pairs, rep) && 0 <= x < |rep| && 0 <= y < |rep|
    ensures rep[x] == rep[y] <==> Linked(pairs, x, y)
  {
    if Linked(pairs, x, y) {
      var p :| IsPath(pairs, p) && p[0] == x && p[|p| - 1] == y;
      PathKeepsRoot(pairs, rep, p);
    }
  }

  ghost function Rerooted(rep: seq<int>, a: int, b: int): seq<int> {
    seq(|rep|, i requires 0 <= i < |rep| => if rep[i] == b then a else rep[i])
  }

  ghost function Deepened(rep: seq<int>, dist: seq<nat>, a: int, b: int): seq<nat>
    requires |rep| == |dist| && 0 <= a < |dist|
  {
    seq(|rep|, i requires 0 <= i < |rep| => if rep[i] == b then dist[i] + dist[a] + 1 else dist[i])
  }

  lemma HangRoot(parent: seq<int>, rep: seq<int>, dist: seq<nat>, a: int, b: int)
    requires Forest(parent, rep, dist) && 0 <= a < |parent| && 0 <= b < |parent|
    requires parent[a] == a && parent[b] == b && a != b
    ensures Forest(parent[b := a], Rerooted(rep, a, b), Deepened(rep, dist, a, b))
  {
  }

  lemma JoinRepresents(pairs: seq<Pair>, rep: seq<int>, p: int, q: int)
    requires Represents(pairs, rep) && 0 <= p < |rep| && 0 <= q < |rep|
    ensures Represents(pairs + [(p, q)], Rerooted(rep, rep[p], rep[q]))
  {
    var more, joined := pairs + [(p, q)], Rerooted(rep, rep[p], rep[q]);
    LinkedByPair(more, |pairs|);
    LinkedSym(more, p, q);
    forall x, y | 0 <= x < |rep| && 0 <= y < |rep| && joined[x] == joined[y] ensures Linked(more, x, y) {
      if rep[x] == rep[y] {
        LinkedGrows(pairs, more, x, y);
      } else if rep[x] == rep[p] {
        Bridge(pairs, more, x, p, q, y);
      } else {
        Bridge(pairs, more, x, q, p, y);
      }
    }
  }

  lemma Bridge(pairs: seq<Pair>, more: seq<Pair>, x: int, p: int, q: int, y: int)
    requires Linked(pairs, x, p) && Linked(more, p, q) && Linked(pairs, q, y) && pairs <= more
    ensures Linked(more, x, y)
  {
    LinkedGrows(pairs, more, x, p);
    LinkedGrows(pairs, more, q, y);
    LinkedTrans(more, x, p, q);
    LinkedTrans(more, x, q, y);
  }

  /** Join the trees of two nodes. */
  method JoinPair(parent: array<int>, p: int, q: int, ghost pairs: seq<Pair>, ghost rep: seq<int>, ghost dist: seq<nat>)
    returns (ghost rep': seq<int>, ghost dist': seq<nat>)
    requires Forest(parent[..], rep, dist) && Represents(pairs, rep)
    requires 0 <= p < parent.Length && 0 <= q < parent.Length
    modifies parent
    ensures Forest(parent[..], rep', dist') && Represents(pairs + [(p, q)], rep')
  {
    ghost var before := parent[..];
    var a := Root(parent, p, rep, dist);
    var b := Root(parent, q, rep, dist);
    JoinRepresents(pairs, rep, p, q);
    if a != b {
      HangRoot(before, rep, dist, a, b);
      parent[b] := a;
      assert parent[..] == before[b := a];
      rep', dist' := Rerooted(rep, a, b), Deepened(rep, dist, a, b);
    } else {
      assert Rerooted(rep, a, b) == rep;
      rep', dist' := rep, dist;
    }
  }

  /** Every node its own root. */
  method Singletons(n: nat) returns (parent: array<int>, ghost rep: seq<int>, ghost dist: seq<nat>)
    ensures fresh(parent) && parent.Length == n
    ensures Forest(parent[..], rep, dist) && Represents([], rep)
  {
    parent := new int[n](i => i);
    rep := seq(n, i requires 0 <= i < n => i);
    dist := seq(n, i requires 0 <= i < n => 0);
    forall x | 0 <= x < n ensures Linked([], x, x) {
      LinkedSelf([], x);
    }
  }

  method BuildForest(pairs: seq<Pair>, n: nat) returns (parent: array<int>, ghost rep: seq<int>, ghost dist: seq<nat>)
    requires InRange(pairs, n)
    ensures fresh(parent) && parent.Length == n
    ensures Forest(parent[..], rep, dist) && Represents(pairs, rep)
  {
    parent, rep, dist := Singletons(n);
    ghost var done: seq<Pair> := [];
    var k := 0;
    while k < |pairs|
      invariant 0 <= k <= |pairs| && done == pairs[..k]
      invariant Forest(parent[..], rep, dist) && Represents(done, rep)
    {
      var (p, q) := pairs[k];
      assert 0 <= p < n && 0 <= q < n;
      rep, dist := JoinPair(parent, p, q, done, rep, dist);
      done := done + [(p, q)];
      k := k + 1;
    }
    assert done == pairs;
  }

  /** A closed pattern: the source, and every pair of nodes linked to the two ends of a source entry. */
  ghost predicate InClosure(source: set<Entry>, pairs: seq<Pair>, n: nat, e: Entry) {
    e in source || exists s :: s in source && ClosesOne(pairs, n, s, e)
  }

  ghost predicate ClosesOne(pairs: seq<Pair>, n: nat, s: Entry, e: Entry) {
    exists row, column :: ClosesTo(pairs, n, s, row, column) && e == Normal(row, column)
  }

  ghost predicate AddedBy(pairs: seq<Pair>, n: nat, source: seq<Entry>, e: Entry) {
    exists s :: s in source && ClosesOne(pairs, n, s, e)
  }

  ghost predicate ClosesTo(pairs: seq<Pair>, n: nat, s: Entry, row: int, column: int) {
    0 <= row < n && 0 <= column < n && Linked(pairs, row, s.0) && Linked(pairs, column, s.1)
  }

  /** `groups[r]` holds exactly the first `count` nodes whose root is `r`. */
  ghost predicate Grouped(groups: seq<seq<int>>, rep: seq<int>, count: nat)
    requires count <= |rep|
  {
    forall r, x {:trigger x in groups[r]} :: 0 <= r < |groups| ==> (x in groups[r] <==> 0 <= x < count && rep[x] == r)
  }

  lemma GroupNext(groups: seq<seq<int>>, rep: seq<int>, node: nat)
    requires node < |rep| && 0 <= rep[node] < |groups| && Grouped(groups, rep, node)
    ensures Grouped(groups[rep[node] := groups[rep[node]] + [node]], rep, node + 1)
  {
    var next := groups[rep[node] := groups[rep[node]] + [node]];
    forall r, x | 0 <= r < |next| ensures x in next[r] <==> 0 <= x < node + 1 && rep[x] == r {
      assert x in groups[r] <==> 0 <= x < node && rep[x] == r;
      if r == rep[node] {
        assert next[r] == groups[r] + [node];
      } else {
        assert next[r] == groups[r];
      }
    }
  }

  /** The nodes of each root, in ascending order. */
  method GroupByRoot(parent: array<int>, ghost rep: seq<int>, ghost dist: seq<nat>) returns (equivalent: seq<seq<int>>)
    requires Forest(parent[..], rep, dist)
    ensures |equivalent| == parent.Length && Grouped(equivalent, rep, parent.Length)
  {
    equivalent := seq(parent.Length, _ => []);
    var node := 0;
    while node < parent.Length
      invariant 0 <= node <= parent.Length && |equivalent| == parent.Length
      invariant Grouped(equivalent, rep, node)
    {
      var r := Root(parent, node, rep, dist);
      GroupNext(equivalent, rep, node);
      equivalent := equivalent[r := equivalent[r] + [node]];
      node := node + 1;
    }
  }

  ghost function Products(rows: seq<int>, columns: seq<int>): set<Entry> {
    set row, column | row in rows && column in columns :: Normal(row, column)
  }

  lemma ProductsGrow(rows: seq<int>, columns: seq<int>, row: int, column: int)
    ensures Products(rows + [row], columns) == Products(rows, columns) + Products([row], columns)
    ensures Products([row], columns + [column]) == Products([row], columns) + {Normal(row, column)}
  {
    forall e | e in Products(rows, columns) ensures e in Products(rows + [row], columns) {
      var r, c :| r in rows && c in columns && e == Normal(r, c);
      assert r in rows + [row];
    }
    forall e | e in Products([row], columns) ensures e in Products(rows + [row], columns) && e in Products([row], columns + [column]) {
      var c :| c in columns && e == Normal(row, c);
      assert row in rows + [row] && row in [row] && c in columns + [column];
    }
    assert row in [row] && column in columns + [column];
  }

  method AppendProducts(rows: seq<int>, columns: seq<int>, entries: seq<Entry>) returns (extended: seq<Entry>)
    ensures AsSet(extended) == AsSet(entries) + Products(rows, columns)
  {
    extended := entries;
    var i := 0;
    while i < |rows|
      invariant 0 <= i <= |rows|
      invariant AsSet(extended) == AsSet(entries) + Products(rows[..i], columns)
    {
      var j := 0;
      while j < |columns|
        invariant 0 <= j <= |columns|
        invariant AsSet(extended) == AsSet(entries) + Products(rows[..i], columns) + Products([rows[i]], columns[..j])
      {
        var first, second := rows[i], columns[j];
        if second < first {
          first, second := second, first;
        }
        assert AsSet(extended + [(first, second)]) == AsSet(extended) + {(first, second)};
        extended := extended + [(first, second)];
        ProductsGrow(rows[..i], columns[..j], rows[i], columns[j]);
        assert columns[..j + 1] == columns[..j] + [columns[j]];
        j := j + 1;
      }
      assert columns[..|columns|] == columns;
      assert rows[..i + 1] == rows[..i] + [rows[i]];
      ProductsGrow(rows[..i], columns, rows[i], 0);
      i := i + 1;
    }
    assert rows[..|rows|] == rows;
  }

  lemma ProductsClose(pairs: seq<Pair>, rep: seq<int>, groups: seq<seq<int>>, s: Entry, e: Entry)
    requires Represents(pairs, rep) && Grouped(groups, rep, |rep|) && |groups| == |rep|
    requires forall i :: 0 <= i < |rep| ==> 0 <= rep[i] < |rep|
    requires 0 <= s.0 < |rep| && 0 <= s.1 < |rep|
    ensures e in Products(groups[rep[s.0]], groups[rep[s.1]]) <==> ClosesOne(pairs, |rep|, s, e)
  {
    var rows, columns := groups[rep[s.0]], groups[rep[s.1]];
    forall x ensures x in rows <==> 0 <= x < |rep| && Linked(pairs, x, s.0) {
      assert x in groups[rep[s.0]] <==> 0 <= x < |rep| && rep[x] == rep[s.0];
      if 0 <= x < |rep| { SameRootIffLinked(pairs, rep, x, s.0); }
    }
    forall x ensures x in columns <==> 0 <= x < |rep| && Linked(pairs, x, s.1) {
      assert x in groups[rep[s.1]] <==> 0 <= x < |rep| && rep[x] == rep[s.1];
      if 0 <= x < |rep| { SameRootIffLinked(pairs, rep, x, s.1); }
    }
    if ClosesOne(pairs, |rep|, s, e) {
      var row, column :| ClosesTo(pairs, |rep|, s, row, column) && e == Normal(row, column);
      assert row in rows && column in columns;
    }
    if e in Products(rows, columns) {
      var row, column :| row in rows && column in columns && e == Normal(row, column);
      assert ClosesTo(pairs, |rep|, s, row, column);
    }
  }

  lemma AddedByGrows(pairs: seq<Pair>, n: nat, source: seq<Entry>, k: nat, e: Entry)
    requires k < |source|
    ensures AddedBy(pairs, n, source[..k + 1], e) <==> AddedBy(pairs, n, source[..k], e) || ClosesOne(pairs, n, source[k], e)
  {
    assert source[..k + 1] == source[..k] + [source[k]];
  }

  /** The entries hold the source and what its first `k` entries close to. */
  ghost predicate ClosedUpTo(entries: seq<Entry>, pairs: seq<Pair>, n: nat, source: seq<Entry>, k: nat)
    requires k <= |source|
  {
    forall e :: e in entries <==> (e in source || AddedBy(pairs, n, source[..k], e))
  }

  lemma EntryClosed(pairs: seq<Pair>, rep: seq<int>, groups: seq<seq<int>>, source: seq<Entry>, k: nat, before: seq<Entry>, after: seq<Entry>)
    requires Represents(pairs, rep) && Grouped(groups, rep, |rep|) && |groups| == |rep|
    requires forall i :: 0 <= i < |rep| ==> 0 <= rep[i] < |rep|
    requires InRange(source, |rep|) && k < |source|
    requires AsSet(after) == AsSet(before) + Products(groups[rep[source[k].0]], groups[rep[source[k].1]])
    requires ClosedUpTo(before, pairs, |rep|, source, k)
    ensures ClosedUpTo(after, pairs, |rep|, source, k + 1)
  {
    forall e ensures e in after <==> (e in source || AddedBy(pairs, |rep|, source[..k + 1], e)) {
      ProductsClose(pairs, rep, groups, source[k], e);
      AddedByGrows(pairs, |rep|, source, k, e);
      assert e in after <==> e in AsSet(after);
      assert e in before <==> e in AsSet(before);
    }
  }

  method CloseEntry(parent: array<int>, ghost rep: seq<int>, ghost dist: seq<nat>, equivalent: seq<seq<int>>, entry: Entry, entries: seq<Entry>)
    returns (extended: seq<Entry>)
    requires Forest(parent[..], rep, dist) && |equivalent| == parent.Length
    requires 0 <= entry.0 < parent.Length && 0 <= entry.1 < parent.Length
    ensures AsSet(extended) == AsSet(entries) + Products(equivalent[rep[entry.0]], equivalent[rep[entry.1]])
  {
    var rootRow := Root(parent, entry.0, rep, dist);
    var rootColumn := Root(parent, entry.1, rep, dist);
    extended := AppendProducts(equivalent[rootRow], equivalent[rootColumn], entries);
  }

  lemma NothingAdded(pairs: seq<Pair>, n: nat, source: seq<Entry>)
    ensures ClosedUpTo(source, pairs, n, source, 0)
  {
  }

  lemma AllAdded(entries: seq<Entry>, pairs: seq<Pair>, n: nat, source: seq<Entry>)
    requires ClosedUpTo(entries, pairs, n, source, |source|)
    ensures forall e :: e in entries <==> InClosure(AsSet(source), pairs, n, e)
  {
    assert source[..|source|] == source;
    forall e ensures InClosure(AsSet(source), pairs, n, e) <==> (e in source || AddedBy(pairs, n, source, e)) {
    }
  }

  /** Close the entries under the periodic pairs. */
  method CloseUnderPeriodicConstraints(pairs: seq<Pair>, n: nat, source: seq<Entry>) returns (entries: seq<Entry>)
    requires InRange(pairs, n) && InRange(source, n)
    ensures forall e :: e in entries <==> InClosure(AsSet(source), pairs, n, e)
  {
    var parent, rep, dist := BuildForest(pairs, n);
    var equivalent := GroupByRoot(parent, rep, dist);
    assert |rep| == n && forall i :: 0 <= i < |rep| ==> 0 <= rep[i] < |rep|;
    ghost var forest := parent[..];
    entries := source;
    NothingAdded(pairs, n, source);
    var k := 0;
    while k < |source|
      invariant 0 <= k <= |source|
      invariant parent[..] == forest
      invariant ClosedUpTo(entries, pairs, n, source, k)
    {
      ghost var before := entries;
      entries := CloseEntry(parent, rep, dist, equivalent, source[k], entries);
      EntryClosed(pairs, rep, equivalent, source, k, before, entries);
      k := k + 1;
    }
    AllAdded(entries, pairs, n, source);
  }
}
