/** Compressed-row linear systems: what an entry, a row product and a residual mean. */
module SparseSystem {
  import opened Reals

  datatype LinearSystem = LinearSystem(
    rowOffsets: seq<nat>,
    columnIndices: seq<int>,
    values: seq<real>,
    rhs: seq<real>)
  {
    function Dimension(): nat { |rhs| }
  }

  /** Row offsets and columns of a pattern of `n` rows. */
  ghost predicate WellFormedPattern(rows: seq<nat>, columns: seq<int>, n: nat) {
    && |rows| == n + 1 && rows[0] == 0 && rows[n] == |columns|
    && (forall i, j :: 0 <= i <= j <= n ==> rows[i] <= rows[j])
    && (forall j :: 0 <= j < |columns| ==> 0 <= columns[j] < n)
  }

  /** What reading a system checks. */
  ghost predicate WellFormed(s: LinearSystem) {
    WellFormedPattern(s.rowOffsets, s.columnIndices, |s.rhs|) && |s.values| == |s.columnIndices|
  }

  /** Each row lists its columns in ascending order, once. Reading does not check this. */
  ghost predicate AscendingRows(rows: seq<nat>, columns: seq<int>, n: nat)
    requires WellFormedPattern(rows, columns, n)
  {
    forall r, i, j :: 0 <= r < n && rows[r] <= i < j < rows[r + 1] ==> columns[i] < columns[j]
  }

  ghost predicate Canonical(s: LinearSystem) {
    WellFormed(s) && AscendingRows(s.rowOffsets, s.columnIndices, s.Dimension())
  }

  /** What positions `lo` to `hi` add to column `c`. */
  function Stored(columns: seq<int>, values: seq<real>, lo: nat, hi: nat, c: int): real
    requires lo <= hi <= |columns| == |values|
    decreases hi
  {
    if lo == hi then 0.0
    else Stored(columns, values, lo, hi - 1, c) + (if columns[hi - 1] == c then values[hi - 1] else 0.0)
  }

  /** The matrix entry at (row, column). */
  function EntryAt(s: LinearSystem, r: nat, c: int): real
    requires WellFormed(s) && r < s.Dimension()
  {
    Stored(s.columnIndices, s.values, s.rowOffsets[r], s.rowOffsets[r + 1], c)
  }

  lemma StoredAbsent(columns: seq<int>, values: seq<real>, lo: nat, hi: nat, c: int)
    requires lo <= hi <= |columns| == |values|
    requires forall j :: lo <= j < hi ==> columns[j] != c
    ensures Stored(columns, values, lo, hi, c) == 0.0
    decreases hi
  {
    if lo < hi {
      StoredAbsent(columns, values, lo, hi - 1, c);
    }
  }

  lemma StoredOnce(columns: seq<int>, values: seq<real>, lo: nat, hi: nat, t: nat)
    requires lo <= t < hi <= |columns| == |values|
    requires forall j :: lo <= j < hi && j != t ==> columns[j] != columns[t]
    ensures Stored(columns, values, lo, hi, columns[t]) == values[t]
    decreases hi
  {
    if t == hi - 1 {
      StoredAbsent(columns, values, lo, hi - 1, columns[t]);
    } else {
      StoredOnce(columns, values, lo, hi - 1, t);
    }
  }

  // ----- products

  /** The running product of positions `lo` to `hi`. */
  function Product(columns: seq<int>, values: seq<real>, lo: nat, hi: nat, x: seq<real>): real
    requires lo <= hi <= |columns| == |values|
    requires forall j :: lo <= j < hi ==> 0 <= columns[j] < |x|
    decreases hi
  {
    if lo == hi then 0.0 else Product(columns, values, lo, hi - 1, x) + values[hi - 1] * x[columns[hi - 1]]
  }

  /** The same, summed over the matrix columns below `n`. */
  function Combination(columns: seq<int>, values: seq<real>, lo: nat, hi: nat, x: seq<real>, n: nat): real
    requires lo <= hi <= |columns| == |values| && n <= |x|
  {
    if n == 0 then 0.0
    else Combination(columns, values, lo, hi, x, n - 1) + Stored(columns, values, lo, hi, n - 1) * x[n - 1]
  }

  lemma CombinationExtends(columns: seq<int>, values: seq<real>, lo: nat, hi: nat, x: seq<real>, n: nat)
    requires lo < hi <= |columns| == |values| && n <= |x|
    requires 0 <= columns[hi - 1] < |x|
    ensures Combination(columns, values, lo, hi, x, n)
         == Combination(columns, values, lo, hi - 1, x, n) + (if columns[hi - 1] < n then values[hi - 1] * x[columns[hi - 1]] else 0.0)
  {
    if n > 0 {
      CombinationExtends(columns, values, lo, hi, x, n - 1);
      var s := Stored(columns, values, lo, hi - 1, n - 1);
      if columns[hi - 1] == n - 1 {
        assert (s + values[hi - 1]) * x[n - 1] == s * x[n - 1] + values[hi - 1] * x[n - 1];
      }
    }
  }

  lemma CombinationOfNothing(columns: seq<int>, values: seq<real>, lo: nat, x: seq<real>, n: nat)
    requires lo <= |columns| == |values| && n <= |x|
    ensures Combination(columns, values, lo, lo, x, n) == 0.0
  {
  }

  /** Running over stored positions is running over matrix columns. */
  lemma {:induction false} ProductIsCombination(columns: seq<int>, values: seq<real>, lo: nat, hi: nat, x: seq<real>)
    requires lo <= hi <= |columns| == |values|
    requires forall j :: lo <= j < hi ==> 0 <= columns[j] < |x|
    ensures Product(columns, values, lo, hi, x) == Combination(columns, values, lo, hi, x, |x|)
    decreases hi
  {
    if lo == hi {
      CombinationOfNothing(columns, values, lo, x, |x|);
    } else {
      ProductIsCombination(columns, values, lo, hi - 1, x);
      CombinationExtends(columns, values, lo, hi, x, |x|);
    }
  }

  lemma {:induction false} SameStoredSameCombination(columns: seq<int>, values: seq<real>, lo: nat, hi: nat,
                                  columns': seq<int>, values': seq<real>, lo': nat, hi': nat, x: seq<real>, n: nat)
    requires lo <= hi <= |columns| == |values| && lo' <= hi' <= |columns'| == |values'| && n <= |x|
    requires forall c :: 0 <= c < n ==> Stored(columns, values, lo, hi, c) == Stored(columns', values', lo', hi', c)
    ensures Combination(columns, values, lo, hi, x, n) == Combination(columns', values', lo', hi', x, n)
  {
    if n > 0 {
      SameStoredSameCombination(columns, values, lo, hi, columns', values', lo', hi', x, n - 1);
    }
  }

  function RowProduct(s: LinearSystem, r: nat, x: seq<real>): real
    requires WellFormed(s) && r < s.Dimension() == |x|
  {
    Product(s.columnIndices, s.values, s.rowOffsets[r], s.rowOffsets[r + 1], x)
  }

  /** The same matrix, whatever its storage. */
  ghost predicate SameMatrix(s: LinearSystem, t: LinearSystem)
    requires WellFormed(s) && WellFormed(t)
  {
    s.Dimension() == t.Dimension() && forall r, c :: 0 <= r < s.Dimension() && 0 <= c < s.Dimension() ==> EntryAt(s, r, c) == EntryAt(t, r, c)
  }

  /** Equal matrices act equally. */
  lemma SameMatrixSameProduct(s: LinearSystem, t: LinearSystem, r: nat, x: seq<real>)
    requires WellFormed(s) && WellFormed(t) && SameMatrix(s, t) && r < s.Dimension() == |x|
    ensures RowProduct(s, r, x) == RowProduct(t, r, x)
  {
    var lo, hi, lo', hi' := s.rowOffsets[r], s.rowOffsets[r + 1], t.rowOffsets[r], t.rowOffsets[r + 1];
    ProductIsCombination(s.columnIndices, s.values, lo, hi, x);
    ProductIsCombination(t.columnIndices, t.values, lo', hi', x);
    forall c | 0 <= c < |x|
      ensures Stored(s.columnIndices, s.values, lo, hi, c) == Stored(t.columnIndices, t.values, lo', hi', c)
    {
      assert EntryAt(s, r, c) == EntryAt(t, r, c);
    }
    SameStoredSameCombination(s.columnIndices, s.values, lo, hi, t.columnIndices, t.values, lo', hi', x, |x|);
  }

  // ----- residual

  function SumOfSquares(v: seq<real>): real {
    if v == [] then 0.0 else SumOfSquares(v[..|v| - 1]) + v[|v| - 1] * v[|v| - 1]
  }

  /** The squared relative residual: relative to the right-hand side unless that is zero. */
  function RelativeResidualSquared(residual: seq<real>, rhs: seq<real>): real {
    if SumOfSquares(rhs) == 0.0 then SumOfSquares(residual) else Over(SumOfSquares(residual), SumOfSquares(rhs))
  }

  function ResidualOf(s: LinearSystem, x: seq<real>): seq<real>
    requires WellFormed(s) && |x| == s.Dimension()
  {
    seq(|x|, r requires 0 <= r < |x| => s.rhs[r] - RowProduct(s, r, x))
  }

  method Squares(v: seq<real>) returns (sum: real)
    ensures sum == SumOfSquares(v)
  {
    sum := 0.0;
    var i := 0;
    while i < |v|
      invariant 0 <= i <= |v| && sum == SumOfSquares(v[..i])
    {
      assert v[..i + 1][..i] == v[..i];
      sum := sum + v[i] * v[i];
      i := i + 1;
    }
    assert v[..|v|] == v;
  }

  /** The residual check of a candidate solution; the final square root is left to the caller. */
  method RelativeResidual(s: LinearSystem, solution: seq<real>) returns (ok: bool, squared: real)
    requires WellFormed(s)
    ensures ok <==> |solution| == s.Dimension()
    ensures ok ==> squared == RelativeResidualSquared(ResidualOf(s, solution), s.rhs)
  {
    if |solution| != s.Dimension() {
      return false, 0.0;
    }
    var residual := new real[s.Dimension()];
    var row := 0;
    while row < s.Dimension()
      invariant 0 <= row <= s.Dimension()
      invariant forall r :: 0 <= r < row ==> residual[r] == s.rhs[r] - RowProduct(s, r, solution)
    {
      var product := 0.0;
      var j := s.rowOffsets[row];
      while j < s.rowOffsets[row + 1]
        invariant s.rowOffsets[row] <= j <= s.rowOffsets[row + 1]
        invariant product == Product(s.columnIndices, s.values, s.rowOffsets[row], j, solution)
      {
        product := product + s.values[j] * solution[s.columnIndices[j]];
        j := j + 1;
      }
      residual[row] := s.rhs[row] - product;
      row := row + 1;
    }
    assert residual[..] == ResidualOf(s, solution);
    var denominator := Squares(s.rhs);
    var numerator := Squares(residual[..]);
    ok := true;
    squared := if denominator == 0.0 then numerator else numerator / denominator;
  }

  /** Equal matrices with equal right-hand sides have equal residuals for every candidate. */
  lemma SameMatrixSameResidual(s: LinearSystem, t: LinearSystem, x: seq<real>)
    requires WellFormed(s) && WellFormed(t) && SameMatrix(s, t) && s.rhs == t.rhs && |x| == s.Dimension()
    ensures ResidualOf(s, x) == ResidualOf(t, x)
  {
    forall r | 0 <= r < |x| ensures RowProduct(s, r, x) == RowProduct(t, r, x) {
      SameMatrixSameProduct(s, t, r, x);
    }
  }

  // ----- the residual in numbers

  lemma {:induction false} SquaresVanish(v: seq<real>)
    ensures SumOfSquares(v) >= 0.0
    ensures SumOfSquares(v) == 0.0 <==> forall i :: 0 <= i < |v| ==> v[i] == 0.0
  {
    if v != [] {
      var init, last := v[..|v| - 1], v[|v| - 1];
      SquaresVanish(init);
      SquareVanishes(last, Times(last, last));
      if forall i :: 0 <= i < |v| ==> v[i] == 0.0 {
        assert forall i :: 0 <= i < |init| ==> init[i] == v[i];
      }
      if SumOfSquares(v) == 0.0 {
        assert forall i :: 0 <= i < |v| ==> v[i] == if i < |init| then init[i] else last;
      }
    }
  }

  lemma SquareVanishes(x: real, square: real)
    requires square == Times(x, x)
    ensures if x == 0.0 then square == 0.0 else square > 0.0
  {
    TimesSigns(x, x);
    if x > 0.0 {
      PositiveProduct(x, x);
    } else if x < 0.0 {
      PositiveProduct(-x, -x);
    }
  }

  lemma TimesSigns(x: real, y: real)
    ensures Times(0.0, y) == 0.0 && Times(-x, -y) == Times(x, y)
  {
  }

  lemma PositiveProduct(x: real, y: real)
    requires x > 0.0 && y > 0.0
    ensures Times(x, y) > 0.0
  {
  }

  /** A residual is measured by its square against that of the right-hand side, unless that is zero,
      and is zero exactly when all of it is. */
  lemma RelativeResidualIs(v: seq<real>, rhs: seq<real>)
    ensures var r := RelativeResidualSquared(v, rhs);
      && r >= 0.0 && (r == 0.0 <==> forall i :: 0 <= i < |v| ==> v[i] == 0.0)
      && ((forall i :: 0 <= i < |rhs| ==> rhs[i] == 0.0) ==> r == SumOfSquares(v))
      && ((exists i :: 0 <= i < |rhs| && rhs[i] != 0.0) ==> Times(r, SumOfSquares(rhs)) == SumOfSquares(v))
  {
    SquaresVanish(v);
    SquaresVanish(rhs);
    if SumOfSquares(rhs) != 0.0 {
      QuotientOf(SumOfSquares(v), SumOfSquares(rhs));
    }
  }

  /** The residual is what a row is short of the right-hand side, and vanishes exactly for a solution. */
  lemma ResidualVanishes(s: LinearSystem, x: seq<real>)
    requires WellFormed(s) && |x| == s.Dimension()
    ensures forall r :: 0 <= r < |x| ==> ResidualOf(s, x)[r] + RowProduct(s, r, x) == s.rhs[r]
    ensures RelativeResidualSquared(ResidualOf(s, x), s.rhs) == 0.0 <==> forall i :: 0 <= i < |x| ==> RowProduct(s, i, x) == s.rhs[i]
  {
    var v := ResidualOf(s, x);
    RelativeResidualIs(v, s.rhs);
    assert forall i :: 0 <= i < |x| ==> (v[i] == 0.0 <==> RowProduct(s, i, x) == s.rhs[i]);
  }

  lemma QuotientOf(a: real, b: real)
    requires a >= 0.0 && b > 0.0
    ensures Over(a, b) >= 0.0 && Times(Over(a, b), b) == a && (Over(a, b) == 0.0 <==> a == 0.0)
  {
    assert Times(Over(a, b), b) == a;
  }
}
