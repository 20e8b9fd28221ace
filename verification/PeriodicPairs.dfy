/** Pruning duplicate node pairs of periodic boundaries. */
module PeriodicPairs {

  /** Two nodes and whether they are paired antiperiodically. */
  datatype CommonPoint = CommonPoint(x: int, y: int, t: bool)

  function SortXY(p: CommonPoint): CommonPoint {
    if p.x > p.y then CommonPoint(p.y, p.x, p.t) else p
  }

  predicate SamePair(p: CommonPoint, q: CommonPoint) {
    p.x == q.x && p.y == q.y
  }

  function AllSorted(s: seq<CommonPoint>): (r: seq<CommonPoint>)
    ensures |r| == |s|
  {
    seq(|s|, i requires 0 <= i < |s| => SortXY(s[i]))
  }

  /** What remains of `s` without the pair of `p`. */
  function Without(s: seq<CommonPoint>, p: CommonPoint): (r: seq<CommonPoint>)
    ensures |r| <= |s|
  {
    if s == [] then [] else (if SamePair(s[0], p) then [] else [s[0]]) + Without(s[1..], p)
  }

  /** The first occurrence of every pair, in order. */
  function FirstOnly(s: seq<CommonPoint>): (r: seq<CommonPoint>)
    decreases |s|
  {
    if s == [] then [] else [s[0]] + FirstOnly(Without(s[1..], s[0]))
  }

  /** Progress of erasing: the kept part, then what is still to be looked at. */
  ghost predicate Erasing(list: seq<CommonPoint>, pruned: seq<CommonPoint>, k: nat, j: nat) {
    && k < |list| && k + 1 <= j <= |pruned|
    && pruned[..k + 1] == list[..k + 1]
    && pruned[k + 1..j] + Without(pruned[j..], list[k]) == Without(list[k + 1..], list[k])
  }

  lemma EraseOne(list: seq<CommonPoint>, pruned: seq<CommonPoint>, k: nat, j: nat)
    requires Erasing(list, pruned, k, j) && j < |pruned| && SamePair(pruned[j], list[k])
    ensures Erasing(list, pruned[..j] + pruned[j + 1..], k, j)
  {
    var erased := pruned[..j] + pruned[j + 1..];
    assert erased[k + 1..j] == pruned[k + 1..j] && erased[j..] == pruned[j..][1..];
    assert erased[..k + 1] == pruned[..k + 1];
  }

  lemma KeepOne(list: seq<CommonPoint>, pruned: seq<CommonPoint>, k: nat, j: nat)
    requires Erasing(list, pruned, k, j) && j < |pruned| && !SamePair(pruned[j], list[k])
    ensures Erasing(list, pruned, k, j + 1)
  {
    assert pruned[j..][1..] == pruned[j + 1..];
    assert Without(pruned[j..], list[k]) == [pruned[j]] + Without(pruned[j + 1..], list[k]);
    assert pruned[k + 1..j + 1] == pruned[k + 1..j] + [pruned[j]];
  }

  /** Erase the later copies of one pair, shifting the rest down. */
  method EraseCopies(list: seq<CommonPoint>, k: nat) returns (pruned: seq<CommonPoint>)
    requires k < |list|
    ensures pruned == list[..k + 1] + Without(list[k + 1..], list[k])
  {
    pruned := list;
    var j := k + 1;
    while j < |pruned|
      invariant j >= 0 && Erasing(list, pruned, k, j)
      decreases |pruned| - j
    {
      assert pruned[k] == pruned[..k + 1][k] == list[k];
      if pruned[k].x == pruned[j].x && pruned[k].y == pruned[j].y {
        EraseOne(list, pruned, k, j);
        pruned := pruned[..j] + pruned[j + 1..];
      } else {
        KeepOne(list, pruned, k, j);
        j := j + 1;
      }
    }
    assert pruned[j..] == [];
    assert pruned == pruned[..k + 1] + pruned[k + 1..j];
  }

  /** Order both nodes of every pair. */
  method SortPairs(ptlst: array<CommonPoint>)
    modifies ptlst
    ensures ptlst[..] == AllSorted(old(ptlst[..]))
  {
    ghost var start := ptlst[..];
    var k := 0;
    while k < ptlst.Length
      invariant 0 <= k <= ptlst.Length
      invariant forall i :: 0 <= i < k ==> ptlst[i] == SortXY(start[i])
      invariant forall i :: k <= i < ptlst.Length ==> ptlst[i] == start[i]
    {
      if ptlst[k].x > ptlst[k].y {
        ptlst[k] := CommonPoint(ptlst[k].y, ptlst[k].x, ptlst[k].t);
      }
      k := k + 1;
    }
    assert ptlst[..] == AllSorted(start);
  }

  /** Erase later copies, pair by pair. */
  method Prune(list: seq<CommonPoint>) returns (pruned: seq<CommonPoint>)
    ensures pruned == FirstOnly(list)
  {
    pruned := list;
    var k := 0;
    while k + 1 < |pruned|
      invariant 0 <= k <= |pruned|
      invariant FirstOnly(list) == pruned[..k] + FirstOnly(pruned[k..])
      decreases |pruned| - k
    {
      ghost var before := pruned;
      pruned := EraseCopies(pruned, k);
      assert before[k..][0] == before[k] && before[k..][1..] == before[k + 1..];
      assert pruned[..k + 1] == before[..k] + [before[k]];
      assert pruned[k + 1..] == Without(before[k + 1..], before[k]);
      k := k + 1;
    }
    if k < |pruned| {
      assert pruned[k..] == [pruned[k]];
      assert FirstOnly(pruned[k..]) == [pruned[k]];
    }
  }

  /** The pruning of the pair list: order the nodes of each pair, keep the first of each pair. */
  method Deduplicate(ptlst: array<CommonPoint>) returns (pruned: seq<CommonPoint>)
    modifies ptlst
    ensures pruned == FirstOnly(AllSorted(old(ptlst[..])))
  {
    SortPairs(ptlst);
    pruned := Prune(ptlst[..]);
  }

  // ----- what pruning keeps

  lemma {:induction false} WithoutMembers(s: seq<CommonPoint>, p: CommonPoint, q: CommonPoint)
    ensures q in Without(s, p) <==> q in s && !SamePair(q, p)
  {
    if s != [] {
      WithoutMembers(s[1..], p, q);
      assert s == [s[0]] + s[1..];
    }
  }

  /** `q` is the first of its pair in `s`. */
  ghost predicate IsFirst(s: seq<CommonPoint>, q: CommonPoint) {
    exists i :: 0 <= i < |s| && s[i] == q && forall j :: 0 <= j < i ==> !SamePair(s[j], q)
  }

  lemma {:induction false} FirstAmong(s: seq<CommonPoint>, q: CommonPoint)
    requires s != []
    ensures IsFirst(s, q) <==> q == s[0] || (!SamePair(s[0], q) && IsFirst(s[1..], q))
  {
    if IsFirst(s, q) && q != s[0] {
      var i :| 0 <= i < |s| && s[i] == q && forall j :: 0 <= j < i ==> !SamePair(s[j], q);
      assert s[1..][i - 1] == q && forall j :: 0 <= j < i - 1 ==> !SamePair(s[1..][j], q);
    }
    if q == s[0] {
      assert s[0] == q;
    }
    if !SamePair(s[0], q) && IsFirst(s[1..], q) {
      var i :| 0 <= i < |s[1..]| && s[1..][i] == q && forall j :: 0 <= j < i ==> !SamePair(s[1..][j], q);
      assert s[i + 1] == q && forall j :: 0 <= j < i + 1 ==> !SamePair(s[j], q) by {
        forall j | 0 <= j < i + 1 ensures !SamePair(s[j], q) {
          if j > 0 { assert s[j] == s[1..][j - 1]; }
        }
      }
    }
  }

  lemma {:induction false} FirstWithout(s: seq<CommonPoint>, p: CommonPoint, q: CommonPoint)
    requires !SamePair(q, p)
    ensures IsFirst(Without(s, p), q) <==> IsFirst(s, q)
  {
    if s != [] {
      FirstWithout(s[1..], p, q);
      FirstAmong(s, q);
      var rest := Without(s, p);
      if !SamePair(s[0], p) {
        assert rest == [s[0]] + Without(s[1..], p);
        assert rest[1..] == Without(s[1..], p);
        FirstAmong(rest, q);
      } else {
        assert rest == Without(s[1..], p);
      }
    }
  }

  /** The pruned list holds exactly the first occurrence of every pair, with its type. */
  lemma {:induction false} FirstOnlyHoldsFirsts(s: seq<CommonPoint>, q: CommonPoint)
    ensures q in FirstOnly(s) <==> IsFirst(s, q)
    decreases |s|
  {
    if s != [] {
      var rest := Without(s[1..], s[0]);
      FirstOnlyHoldsFirsts(rest, q);
      FirstAmong(s, q);
      if SamePair(q, s[0]) {
        if IsFirst(rest, q) {
          WithoutMembers(s[1..], s[0], q);
        }
      } else {
        FirstWithout(s[1..], s[0], q);
      }
    }
  }

  /** No pair is left twice. */
  lemma {:induction false} FirstOnlyIsDistinct(s: seq<CommonPoint>, i: nat, j: nat)
    requires i < j < |FirstOnly(s)|
    ensures !SamePair(FirstOnly(s)[i], FirstOnly(s)[j])
    decreases |s|
  {
    var rest := Without(s[1..], s[0]);
    if i > 0 {
      FirstOnlyIsDistinct(rest, i - 1, j - 1);
    } else {
      var q := FirstOnly(rest)[j - 1];
      FirstOnlyHoldsFirsts(rest, q);
      WithoutMembers(s[1..], s[0], q);
    }
  }

  /** Every pair of the list is still there. */
  lemma {:induction false} EveryPairSurvives(s: seq<CommonPoint>, k: nat) returns (q: CommonPoint)
    requires k < |s|
    ensures q in FirstOnly(s) && SamePair(q, s[k])
  {
    var i := 0;
    while !SamePair(s[i], s[k])
      invariant i <= k && forall j :: 0 <= j < i ==> !SamePair(s[j], s[k])
      decreases k - i
    {
      i := i + 1;
    }
    q := s[i];
    FirstOnlyHoldsFirsts(s, q);
  }

  /** Sorting the ends of a pair puts the lower node first, keeps both nodes and the type, and makes
      two pairs of the same nodes alike. */
  lemma SortedEnds(p: CommonPoint, q: CommonPoint)
    ensures SortXY(p).x <= SortXY(p).y && {SortXY(p).x, SortXY(p).y} == {p.x, p.y} && SortXY(p).t == p.t
    ensures SamePair(SortXY(p), SortXY(q)) <==> {p.x, p.y} == {q.x, q.y}
  {
    if {p.x, p.y} == {q.x, q.y} {
      assert p.x in {q.x, q.y} && p.y in {q.x, q.y} && q.x in {p.x, p.y} && q.y in {p.x, p.y};
    }
    if SamePair(SortXY(p), SortXY(q)) {
      assert {SortXY(p).x, SortXY(p).y} == {p.x, p.y} && {SortXY(q).x, SortXY(q).y} == {q.x, q.y};
    }
  }
}
