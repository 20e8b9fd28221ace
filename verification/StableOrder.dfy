/** Stable sorting of ring points by position, which both the library sort and
    the hand-written bubble sort of the ring code perform. */
module StableOrder {

  /** Something placed on a ring, at a position counted in arc elements. */
  datatype Placed<T> = Placed(item: T, position: real)

  /** The points of `s` that stand at one position, in the order of `s`. */
  function At<T>(s: seq<Placed<T>>, p: real): seq<Placed<T>> {
    if s == [] then [] else (if s[0].position == p then [s[0]] else []) + At(s[1..], p)
  }

  ghost predicate Ascending<T>(s: seq<Placed<T>>) {
    forall i, j :: 0 <= i < j < |s| ==> s[i].position <= s[j].position
  }

  /** The same points, and points that share a position keep their order. */
  ghost predicate SameAt<T>(s: seq<Placed<T>>, r: seq<Placed<T>>) {
    forall p: real :: At(s, p) == At(r, p)
  }

  /** `r` is `s` sorted by position, stably. */
  ghost predicate StablySorted<T>(s: seq<Placed<T>>, r: seq<Placed<T>>) {
    Ascending(r) && SameAt(s, r)
  }

  lemma AtConcat<T>(a: seq<Placed<T>>, b: seq<Placed<T>>, p: real)
    ensures At(a + b, p) == At(a, p) + At(b, p)
  {
    if a == [] {
      assert a + b == b;
    } else {
      AtConcat(a[1..], b, p);
      assert (a + b)[1..] == a[1..] + b;
    }
  }

  lemma AtMembers<T>(s: seq<Placed<T>>, p: real, e: Placed<T>)
    ensures e in At(s, p) <==> e in s && e.position == p
  {
    if s != [] {
      AtMembers(s[1..], p, e);
      assert s == [s[0]] + s[1..];
    }
  }

  lemma SameMembers<T>(s: seq<Placed<T>>, r: seq<Placed<T>>, e: Placed<T>)
    requires SameAt(s, r)
    ensures e in s <==> e in r
  {
    AtMembers(s, e.position, e);
    AtMembers(r, e.position, e);
    assert At(s, e.position) == At(r, e.position);
  }

  /** A stably sorted sequence is determined by what it sorts. */
  lemma {:induction false} StablySortedUnique<T>(r: seq<Placed<T>>, r': seq<Placed<T>>)
    requires Ascending(r) && Ascending(r') && SameAt(r, r')
    ensures r == r'
  {
    if r == [] {
      if r' != [] {
        SameMembers(r, r', r'[0]);
      }
    } else {
      SameMembers(r, r', r[0]);
      SameMembers(r, r', r'[0]);
      var p := r[0].position;
      assert r'[0].position == p;
      assert At(r, p) == At(r', p);
      assert r[0] == At(r, p)[0] == At(r', p)[0] == r'[0];
      forall q: real ensures At(r[1..], q) == At(r'[1..], q) {
        assert At(r, q) == At(r', q);
        var head := if r[0].position == q then [r[0]] else [];
        assert At(r, q) == head + At(r[1..], q);
        assert At(r', q) == head + At(r'[1..], q);
        assert At(r[1..], q) == At(r, q)[|head|..];
        assert At(r'[1..], q) == At(r', q)[|head|..];
      }
      StablySortedUnique(r[1..], r'[1..]);
      assert r == [r[0]] + r[1..] && r' == [r'[0]] + r'[1..];
    }
  }

  lemma InsertedBelow<T>(r: seq<Placed<T>>, x: Placed<T>, r': seq<Placed<T>>)
    requires Ascending(r) && r != [] && r[|r| - 1].position > x.position
    requires StablySorted(r[..|r| - 1] + [x], r') && |r'| == |r|
    ensures StablySorted(r + [x], r' + [r[|r| - 1]])
  {
    var init, last := r[..|r| - 1], r[|r| - 1];
    forall p: real ensures At(r' + [last], p) == At(r + [x], p) {
      AtConcat(r', [last], p);
      assert At(r', p) == At(init + [x], p);
      AtConcat(init, [x], p);
      assert r + [x] == init + ([last] + [x]);
      AtConcat(init, [last] + [x], p);
      AtConcat([last], [x], p);
    }
    forall e | e in r' ensures e.position <= last.position {
      SameMembers(init + [x], r', e);
    }
  }

  /** Insert a point behind every point that is not beyond it. */
  function Inserted<T>(r: seq<Placed<T>>, x: Placed<T>): (r': seq<Placed<T>>)
    requires Ascending(r)
    ensures StablySorted(r + [x], r')
    ensures |r'| == |r| + 1
  {
    if r == [] || r[|r| - 1].position <= x.position then
      r + [x]
    else
      var init, last := r[..|r| - 1], r[|r| - 1];
      var r' := Inserted(init, x);
      InsertedBelow(r, x, r');
      r' + [last]
  }

  /** What a stable library sort by position leaves behind. */
  function StableSort<T>(s: seq<Placed<T>>): (r: seq<Placed<T>>)
    ensures StablySorted(s, r)
    ensures |r| == |s|
  {
    if s == [] then [] else
      var init, last := s[..|s| - 1], s[|s| - 1];
      assert s == init + [last];
      var r := Inserted(StableSort(init), last);
      assert SameAt(s, r) by {
        forall p: real ensures At(s, p) == At(r, p) {
          AtConcat(init, [last], p);
          AtConcat(StableSort(init), [last], p);
          assert At(StableSort(init), p) == At(init, p);
        }
      }
      r
  }

  /** Any stably sorted arrangement is the one `StableSort` computes. */
  lemma StableSortIs<T>(s: seq<Placed<T>>, r: seq<Placed<T>>)
    requires StablySorted(s, r)
    ensures r == StableSort(s)
  {
    forall p: real ensures At(r, p) == At(StableSort(s), p) {
      assert At(s, p) == At(StableSort(s), p);
      assert At(s, p) == At(r, p);
    }
    StablySortedUnique(r, StableSort(s));
  }

  lemma {:induction false} AtRank<T>(s: seq<Placed<T>>, a: nat)
    requires a < |s|
    ensures var p := s[a].position;
      |At(s[..a], p)| < |At(s, p)| && At(s, p)[|At(s[..a], p)|] == s[a]
  {
    var p := s[a].position;
    assert s == s[..a] + ([s[a]] + s[a + 1..]);
    AtConcat(s[..a], [s[a]] + s[a + 1..], p);
    AtConcat([s[a]], s[a + 1..], p);
  }

  lemma AtRankGrows<T>(s: seq<Placed<T>>, a: nat, b: nat, p: real)
    requires a <= b <= |s|
    ensures |At(s[..a], p)| <= |At(s[..b], p)|
    ensures a < b && s[a].position == p ==> |At(s[..a], p)| < |At(s[..b], p)|
  {
    assert s[..b] == s[..a] + s[a..b];
    AtConcat(s[..a], s[a..b], p);
    if a < b && s[a].position == p {
      AtMembers(s[a..b], p, s[a]);
      assert s[a..b][0] == s[a];
    }
  }

  lemma {:induction false} AtUnrank<T>(s: seq<Placed<T>>, p: real, x: nat) returns (a: nat)
    requires x < |At(s, p)|
    ensures a < |s| && s[a] == At(s, p)[x] && s[a].position == p && |At(s[..a], p)| == x
  {
    if s[0].position == p && x == 0 {
      a := 0;
    } else {
      var head := if s[0].position == p then 1 else 0;
      a := AtUnrank(s[1..], p, x - head);
      assert s[..a + 1] == [s[0]] + s[1..][..a];
      AtConcat([s[0]], s[1..][..a], p);
      a := a + 1;
    }
  }

  /** Two points that share a position stand in the same order in both sequences. */
  lemma OrderCarries<T>(s: seq<Placed<T>>, r: seq<Placed<T>>, a: nat, b: nat) returns (a': nat, b': nat)
    requires SameAt(s, r) && a < b < |s| && s[a].position == s[b].position
    ensures a' < b' < |r| && r[a'] == s[a] && r[b'] == s[b]
  {
    var p := s[a].position;
    assert At(s, p) == At(r, p);
    AtRank(s, a);
    AtRank(s, b);
    AtRankGrows(s, a, b, p);
    a' := AtUnrank(r, p, |At(s[..a], p)|);
    b' := AtUnrank(r, p, |At(s[..b], p)|);
    if b' <= a' {
      AtRankGrows(r, b', a', p);
    }
  }

  lemma InsertedMultiset<T>(r: seq<Placed<T>>, x: Placed<T>)
    requires Ascending(r)
    ensures multiset(Inserted(r, x)) == multiset(r) + multiset{x}
  {
    if r != [] && r[|r| - 1].position > x.position {
      InsertedMultiset(r[..|r| - 1], x);
      assert r == r[..|r| - 1] + [r[|r| - 1]];
    }
  }

  /** Sorting only rearranges. */
  lemma StableSortMultiset<T>(s: seq<Placed<T>>)
    ensures multiset(StableSort(s)) == multiset(s)
  {
    if s != [] {
      StableSortMultiset(s[..|s| - 1]);
      InsertedMultiset(StableSort(s[..|s| - 1]), s[|s| - 1]);
      assert s == s[..|s| - 1] + [s[|s| - 1]];
    }
  }

  lemma SwapKeepsAt<T>(s: seq<Placed<T>>, j: nat)
    requires j + 1 < |s| && s[j].position != s[j + 1].position
    ensures SameAt(s, s[j := s[j + 1]][j + 1 := s[j]])
  {
    var t := s[j := s[j + 1]][j + 1 := s[j]];
    var a, x, y, b := s[..j], [s[j]], [s[j + 1]], s[j + 2..];
    assert s == a + (x + (y + b)) && t == a + (y + (x + b));
    forall p: real ensures At(s, p) == At(t, p) {
      AtConcat(a, x + (y + b), p);
      AtConcat(x, y + b, p);
      AtConcat(y, b, p);
      AtConcat(a, y + (x + b), p);
      AtConcat(y, x + b, p);
      AtConcat(x, b, p);
    }
  }

  /** One adjacent exchange of the bubble sort. */
  method SwapIfBeyond<T>(ring: array<Placed<T>>, jj: nat) returns (swapped: bool)
    requires jj + 1 < ring.Length
    modifies ring
    ensures swapped <==> old(ring[jj].position > ring[jj + 1].position)
    ensures ring[..] == Exchanged(old(ring[..]), jj)
    ensures SameAt(old(ring[..]), ring[..])
  {
    ghost var before := ring[..];
    swapped := ring[jj].position > ring[jj + 1].position;
    if swapped {
      SwapKeepsAt(before, jj);
      var qq := ring[jj];
      ring[jj] := ring[jj + 1];
      ring[jj + 1] := qq;
      assert ring[..] == before[jj := before[jj + 1]][jj + 1 := before[jj]];
    }
  }

  /** Every point at `from` or behind is not below any point before it. */
  ghost predicate SettledFrom<T>(r: seq<Placed<T>>, from: int) {
    forall p, q :: 0 <= p < q < |r| && from <= q ==> r[p].position <= r[q].position
  }

  /** No point before `j` is beyond the one at `j`, and up to there points at `from` or behind are settled. */
  ghost predicate Climbed<T>(r: seq<Placed<T>>, from: int, j: nat) {
    j < |r| && forall p, q :: 0 <= p < q <= j && (q == j || from <= q) ==> r[p].position <= r[q].position
  }

  ghost predicate AscendingTo<T>(r: seq<Placed<T>>, j: nat) {
    j < |r| && forall p, q :: 0 <= p < q <= j ==> r[p].position <= r[q].position
  }

  /** Two neighbours put in order. */
  function Exchanged<T>(r: seq<Placed<T>>, j: nat): seq<Placed<T>>
    requires j + 1 < |r|
  {
    if r[j].position > r[j + 1].position then r[j := r[j + 1]][j + 1 := r[j]] else r
  }

  lemma ExchangeClimbs<T>(r: seq<Placed<T>>, from: nat, j: nat)
    requires j + 1 < |r| && SettledFrom(r, from) && Climbed(r, from - 1, j)
    ensures SettledFrom(Exchanged(r, j), from) && Climbed(Exchanged(r, j), from - 1, j + 1)
    ensures AscendingTo(r, j) && r[j].position <= r[j + 1].position ==> AscendingTo(Exchanged(r, j), j + 1)
  {
    var r' := Exchanged(r, j);
    forall p, q | 0 <= p < q < |r'| && from <= q ensures r'[p].position <= r'[q].position {
      if !(q == j + 1 && p == j) {
        assert r'[p].position == r[if r' == r then p else if p == j then j + 1 else if p == j + 1 then j else p].position;
        assert r'[q].position == r[if r' == r then q else if q == j then j + 1 else if q == j + 1 then j else q].position;
      }
    }
  }

  /** One sweep of the bubble sort: the largest unsettled point reaches its place. */
  method Sweep<T>(ring: array<Placed<T>>, ghost settled: nat) returns (done: bool)
    requires settled < ring.Length && SettledFrom(ring[..], ring.Length - settled)
    modifies ring
    ensures SameAt(old(ring[..]), ring[..])
    ensures SettledFrom(ring[..], ring.Length - settled - 1)
    ensures done ==> Ascending(ring[..])
  {
    done := true;
    ghost var start := ring[..];
    var jj := 0;
    while jj < ring.Length - 1
      invariant 0 <= jj <= ring.Length - 1
      invariant SameAt(start, ring[..])
      invariant SettledFrom(ring[..], ring.Length - settled) && Climbed(ring[..], ring.Length - settled - 1, jj)
      invariant done ==> AscendingTo(ring[..], jj)
    {
      ExchangeClimbs(ring[..], ring.Length - settled, jj);
      SameAtFurther(start, ring[..], Exchanged(ring[..], jj));
      var swapped := SwapIfBeyond(ring, jj);
      if swapped {
        done := false;
      }
      jj := jj + 1;
    }
  }

  lemma SameAtFurther<T>(r: seq<Placed<T>>, s: seq<Placed<T>>, t: seq<Placed<T>>)
    requires SameAt(r, s)
    ensures SameAt(s, t) ==> SameAt(r, t)
  {
    if SameAt(s, t) {
      forall p: real ensures At(r, p) == At(t, p) {
        assert At(r, p) == At(s, p);
      }
    }
  }

  /** The ring bubble sort of the Triangle mesher path, in place with its early exit. */
  method BubbleSort<T>(ring: array<Placed<T>>)
    modifies ring
    ensures StablySorted(old(ring[..]), ring[..])
    ensures ring[..] == StableSort(old(ring[..]))
  {
    ghost var start := ring[..];
    var ii := 0;
    while ii < ring.Length
      invariant 0 <= ii <= ring.Length
      invariant SameAt(start, ring[..])
      invariant SettledFrom(ring[..], ring.Length - ii)
    {
      ghost var before := ring[..];
      var done := Sweep(ring, ii);
      SameAtFurther(start, before, ring[..]);
      if done {
        break;
      }
      ii := ii + 1;
    }
    StableSortIs(start, ring[..]);
  }
}
