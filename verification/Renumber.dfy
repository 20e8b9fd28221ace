/** Sorting the mesh nodes into a new numbering, in place, by following cycles. */
module Renumber {

  ghost predicate Permutation(num: seq<int>) {
    && (forall i :: 0 <= i < |num| ==> 0 <= num[i] < |num|)
    && (forall i, j :: 0 <= i < j < |num| ==> num[i] != num[j])
  }

  /** How many positions do not hold their own number. */
  function Misplaced(num: seq<int>, upTo: nat): nat
    requires upTo <= |num|
  {
    if upTo == 0 then 0 else Misplaced(num, upTo - 1) + (if num[upTo - 1] != upTo - 1 then 1 else 0)
  }

  /** The number that was at `i` goes home. */
  function Swapped<T>(s: seq<T>, i: nat, j: nat): seq<T>
    requires i < |s| && j < |s|
  {
    s[i := s[j]][j := s[i]]
  }

  lemma {:induction false} MisplacedFalls(num: seq<int>, i: nat, j: nat, upTo: nat)
    requires i < |num| && j < |num| && i != j && num[i] == j && num[j] != j && upTo <= |num|
    ensures Misplaced(Swapped(num, i, j), upTo) <= Misplaced(num, upTo)
    ensures j < upTo ==> Misplaced(Swapped(num, i, j), upTo) < Misplaced(num, upTo)
  {
    if upTo > 0 {
      MisplacedFalls(num, i, j, upTo - 1);
    }
  }

  lemma SwapKeepsPermutation(num: seq<int>, i: nat, j: nat)
    requires Permutation(num) && i < |num| && j < |num|
    ensures Permutation(Swapped(num, i, j))
  {
  }

  /** Each node still travels with the number it was given. */
  ghost predicate Travelling<T>(num0: seq<int>, nodes0: seq<T>, num: seq<int>, nodes: seq<T>)
    requires |num0| == |nodes0| == |num| == |nodes|
  {
    forall k, o :: 0 <= k < |num| && 0 <= o < |num0| && num0[o] == num[k] ==> nodes[k] == nodes0[o]
  }

  lemma SwapKeepsTravelling<T>(num0: seq<int>, nodes0: seq<T>, num: seq<int>, nodes: seq<T>, i: nat, j: nat)
    requires |num0| == |nodes0| == |num| == |nodes| && i < |num| && j < |num|
    requires Travelling(num0, nodes0, num, nodes)
    ensures Travelling(num0, nodes0, Swapped(num, i, j), Swapped(nodes, i, j))
  {
  }

  ghost predicate FixedBelow(num: seq<int>, i: nat)
    requires i <= |num|
  {
    forall k :: 0 <= k < i ==> num[k] == k
  }

  lemma FixedStayFixed(num: seq<int>, i: nat, j: nat)
    requires Permutation(num) && i < |num| && num[i] == j && i != j
    requires FixedBelow(num, i)
    ensures i < j < |num| && num[j] != j
    ensures FixedBelow(Swapped(num, i, j), i)
  {
  }

  method Exchange<T>(a: array<T>, i: nat, j: nat)
    requires i < a.Length && j < a.Length
    modifies a
    ensures a[..] == Swapped(old(a[..]), i, j)
  {
    a[i], a[j] := a[j], a[i];
  }

  /** Swap cycles until every node sits at its new number. */
  method SortNodes<T>(newnum: seq<int>, meshnode: array<T>)
    requires |newnum| == meshnode.Length && Permutation(newnum)
    modifies meshnode
    ensures forall o :: 0 <= o < |newnum| ==> meshnode[newnum[o]] == old(meshnode[o])
  {
    ghost var nodes0 := meshnode[..];
    var num := new int[|newnum|](i requires 0 <= i < |newnum| => newnum[i]);
    assert num[..] == newnum;
    var i := 0;
    while i < num.Length
      invariant 0 <= i <= num.Length == |newnum|
      invariant Permutation(num[..])
      invariant FixedBelow(num[..], i)
      invariant Travelling(newnum, nodes0, num[..], meshnode[..])
    {
      while num[i] != i
        invariant Permutation(num[..])
        invariant FixedBelow(num[..], i)
        invariant Travelling(newnum, nodes0, num[..], meshnode[..])
        decreases Misplaced(num[..], num.Length)
      {
        ghost var before, nodes := num[..], meshnode[..];
        var j := num[i];
        FixedStayFixed(before, i, j);
        SwapKeepsPermutation(before, i, j);
        SwapKeepsTravelling(newnum, nodes0, before, nodes, i, j);
        MisplacedFalls(before, i, j, num.Length);
        Exchange(num, i, j);
        Exchange(meshnode, i, j);
      }
      i := i + 1;
    }
    forall o | 0 <= o < |newnum| ensures meshnode[newnum[o]] == nodes0[o] {
      assert num[..][newnum[o]] == newnum[o];
      assert meshnode[..][newnum[o]] == nodes0[o];
    }
  }

  // ----- only permutations finish

  /** A numbering the loop can reach by swaps. */
  ghost predicate Reaches(num: seq<int>, num': seq<int>, swaps: seq<(nat, nat)>)
    decreases |swaps|
  {
    if swaps == [] then num == num'
    else
      var (i, j) := swaps[0];
      i < |num| && j < |num| && num[i] == j && Reaches(Swapped(num, i, j), num', swaps[1..])
  }

  lemma SwapKeepsValues(num: seq<int>, i: nat, j: nat)
    requires i < |num| && j < |num|
    ensures multiset(Swapped(num, i, j)) == multiset(num)
  {
  }

  lemma ReachesKeepsValues(num: seq<int>, num': seq<int>, swaps: seq<(nat, nat)>)
    requires Reaches(num, num', swaps)
    ensures multiset(num) == multiset(num') && |num| == |num'|
    decreases |swaps|
  {
    if swaps != [] {
      var (i, j) := swaps[0];
      SwapKeepsValues(num, i, j);
      ReachesKeepsValues(Swapped(num, i, j), num', swaps[1..]);
    }
  }

  lemma IdentityOnce(num: seq<int>, x: int)
    requires forall k :: 0 <= k < |num| ==> num[k] == k
    ensures multiset(num)[x] == if 0 <= x < |num| then 1 else 0
  {
    if num != [] {
      var init := num[..|num| - 1];
      assert num == init + [|num| - 1];
      IdentityOnce(init, x);
    }
  }

  lemma RepeatedTwice(num: seq<int>, i: nat, j: nat)
    requires i < j < |num| && num[i] == num[j]
    ensures multiset(num)[num[i]] >= 2
  {
    assert num == num[..i] + [num[i]] + num[i + 1..j] + [num[j]] + num[j + 1..];
  }

  /** The loop can finish only from a permutation: on any other numbering it swaps for ever. */
  lemma FinishingNeedsPermutation(num: seq<int>, num': seq<int>, swaps: seq<(nat, nat)>)
    requires Reaches(num, num', swaps) && forall k :: 0 <= k < |num'| ==> num'[k] == k
    ensures Permutation(num)
  {
    ReachesKeepsValues(num, num', swaps);
    forall i | 0 <= i < |num| ensures 0 <= num[i] < |num| {
      assert num[i] in multiset(num');
      IdentityOnce(num', num[i]);
    }
    forall i, j | 0 <= i < j < |num| ensures num[i] != num[j] {
      if num[i] == num[j] {
        RepeatedTwice(num, i, j);
        IdentityOnce(num', num[i]);
      }
    }
  }
}
