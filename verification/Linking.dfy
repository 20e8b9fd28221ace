/** Nodes linked by chains of undirected pairs. */
module Linking {
  type Pair = (int, int)

  ghost predicate Joined(pairs: seq<Pair>, x: int, y: int) {
    (x, y) in pairs || (y, x) in pairs
  }

  ghost predicate IsPath(pairs: seq<Pair>, path: seq<int>) {
    path != [] && forall i :: 0 <= i < |path| - 1 ==> Joined(pairs, path[i], path[i + 1])
  }

  /** A chain of pairs, each taken in either direction, leads from `x` to `y`. */
  ghost predicate Linked(pairs: seq<Pair>, x: int, y: int) {
    exists path :: IsPath(pairs, path) && path[0] == x && path[|path| - 1] == y
  }

  lemma LinkedSelf(pairs: seq<Pair>, x: int)
    ensures Linked(pairs, x, x)
  {
    assert IsPath(pairs, [x]) && [x][0] == x;
  }

  lemma LinkedTrans(pairs: seq<Pair>, x: int, y: int, z: int)
    requires Linked(pairs, x, y) && Linked(pairs, y, z)
    ensures Linked(pairs, x, z)
  {
    var p :| IsPath(pairs, p) && p[0] == x && p[|p| - 1] == y;
    var q :| IsPath(pairs, q) && q[0] == y && q[|q| - 1] == z;
    var r := p + q[1..];
    forall i | 0 <= i < |r| - 1 ensures Joined(pairs, r[i], r[i + 1]) {
      if i < |p| - 1 {
        assert Joined(pairs, p[i], p[i + 1]);
      } else {
        assert Joined(pairs, q[i - |p| + 1], q[i - |p| + 2]);
      }
    }
    assert IsPath(pairs, r) && r[0] == x && r[|r| - 1] == z;
  }

  lemma LinkedSym(pairs: seq<Pair>, x: int, y: int)
    requires Linked(pairs, x, y)
    ensures Linked(pairs, y, x)
  {
    var p :| IsPath(pairs, p) && p[0] == x && p[|p| - 1] == y;
    var r := seq(|p|, i requires 0 <= i < |p| => p[|p| - 1 - i]);
    forall i | 0 <= i < |r| - 1 ensures Joined(pairs, r[i], r[i + 1]) {
      assert Joined(pairs, p[|p| - 2 - i], p[|p| - 2 - i + 1]);
    }
    assert IsPath(pairs, r) && r[0] == y && r[|r| - 1] == x;
  }

  lemma LinkedByPair(pairs: seq<Pair>, k: nat)
    requires k < |pairs|
    ensures Linked(pairs, pairs[k].0, pairs[k].1)
  {
    var p := [pairs[k].0, pairs[k].1];
    assert Joined(pairs, p[0], p[1]);
    assert IsPath(pairs, p);
  }

  lemma LinkedGrows(pairs: seq<Pair>, more: seq<Pair>, x: int, y: int)
    requires Linked(pairs, x, y) && pairs <= more
    ensures Linked(more, x, y)
  {
    var p :| IsPath(pairs, p) && p[0] == x && p[|p| - 1] == y;
    forall i | 0 <= i < |p| - 1 ensures Joined(more, p[i], p[i + 1]) {
      assert Joined(pairs, p[i], p[i + 1]);
      assert forall e :: e in pairs ==> e in more;
    }
    assert IsPath(more, p);
  }
}
