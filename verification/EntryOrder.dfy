/** Sparsity entries (row, column), and sorted patterns of them. */
module EntryOrder {
  import opened Modular

  type Entry = (int, int)

  /** The pair with its lower number first. */
  function Normal(row: int, column: int): (e: Entry)
    ensures e.0 <= e.1 && (e == (row, column) || e == (column, row))
  {
    if column < row then (column, row) else (row, column)
  }

  ghost function AsSet<T(!new)>(s: seq<T>): set<T> {
    set e | e in s
  }

  predicate Before(a: Entry, b: Entry) {
    a.0 < b.0 || (a.0 == b.0 && a.1 < b.1)
  }

  predicate StrictlySorted(s: seq<Entry>) {
    forall i, j :: 0 <= i < j < |s| ==> Before(s[i], s[j])
  }

  lemma NonEmptyHasMember(t: seq<Entry>)
    requires t != []
    ensures exists e :: e in t
  {
    assert t[0] in t;
  }

  /** A sorted, duplicate-free pattern is determined by its entries. */
  lemma {:induction false} StrictlySortedUnique(s: seq<Entry>, t: seq<Entry>)
    requires StrictlySorted(s) && StrictlySorted(t)
    requires forall e :: e in s <==> e in t
    ensures s == t
  {
    if s == [] {
      if t != [] {
        NonEmptyHasMember(t);
        assert false;
      }
    } else {
      assert s[0] in t;
      assert t[0] in s;
      assert s[0] == t[0];
      forall e ensures e in s[1..] <==> e in t[1..] {
        assert e in s <==> e in t;
        assert e in s[1..] <==> e in s && e != s[0];
        assert e in t[1..] <==> e in t && e != t[0];
      }
      StrictlySortedUnique(s[1..], t[1..]);
      assert s == [s[0]] + s[1..] && t == [t[0]] + t[1..];
    }
  }

  function InsertedEntry(s: seq<Entry>, e: Entry): (r: seq<Entry>)
    requires StrictlySorted(s)
    ensures StrictlySorted(r) && forall x :: x in r <==> x in s || x == e
  {
    if s == [] then [e]
    else if s[|s| - 1] == e then s
    else if Before(s[|s| - 1], e) then s + [e]
    else
      var r := InsertedEntry(s[..|s| - 1], e);
      assert s == s[..|s| - 1] + [s[|s| - 1]];
      assert forall x :: x in r ==> Before(x, s[|s| - 1]);
      assert forall i :: 0 <= i < |r| ==> r[i] in r;
      r + [s[|s| - 1]]
  }

  /** The library's sort followed by removal of neighbouring duplicates. */
  function SortedUnique(s: seq<Entry>): (r: seq<Entry>)
    ensures StrictlySorted(r) && forall x :: x in r <==> x in s
  {
    if s == [] then [] else
      assert s == s[..|s| - 1] + [s[|s| - 1]];
      InsertedEntry(SortedUnique(s[..|s| - 1]), s[|s| - 1])
  }

  /** Entries are in the order of their places when a square matrix is read row by row. */
  lemma BeforeIsRowMajor(a: Entry, b: Entry, n: nat)
    requires 0 <= a.0 < n && 0 <= a.1 < n && 0 <= b.0 < n && 0 <= b.1 < n
    ensures Before(a, b) <==> a.0 * n + a.1 < b.0 * n + b.1
  {
    if a.0 < b.0 {
      MultiplesApart(a.0, b.0, n);
    } else if b.0 < a.0 {
      MultiplesApart(b.0, a.0, n);
    }
  }
}
