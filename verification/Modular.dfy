/** Division with remainder by a positive variable, in the few forms the proofs need. */
module Modular {

  lemma SmallMultipleIsZero(d: int, n: nat)
    requires n > 0 && 0 - n < d * n < n
    ensures d == 0
  {
  }

  lemma QuotientUnique(q: int, r: int, q': int, r': int, n: nat)
    requires n > 0 && q * n + r == q' * n + r' && 0 <= r < n && 0 <= r' < n
    ensures q == q' && r == r'
  {
    assert (q - q') * n == q * n - q' * n;
    SmallMultipleIsZero(q - q', n);
  }

  lemma DivMod(x: int, n: nat)
    requires n > 0
    ensures x == x / n * n + x % n && 0 <= x % n < n
  {
  }

  lemma ModUnique(x: int, n: nat, q: int, r: int)
    requires n > 0 && x == q * n + r && 0 <= r < n
    ensures x % n == r && x / n == q
  {
    DivMod(x, n);
    QuotientUnique(q, r, x / n, x % n, n);
  }

  lemma ModAdd(x: int, k: int, n: nat)
    requires n > 0
    ensures (x + k * n) % n == x % n
    ensures (x + k * n) / n == x / n + k
  {
    DivMod(x, n);
    assert x + k * n == (x / n + k) * n + x % n;
    ModUnique(x + k * n, n, x / n + k, x % n);
  }

  /** Remainders may be taken early. */
  lemma ModOfSum(x: int, y: int, n: nat)
    requires n > 0
    ensures (x % n + y) % n == (x + y) % n
  {
    DivMod(x, n);
    assert x % n + y == x + y + (-(x / n)) * n;
    ModAdd(x + y, -(x / n), n);
  }

  lemma ModSmall(x: int, n: nat)
    requires n > 0 && 0 <= x < n
    ensures x % n == x
  {
    ModUnique(x, n, 0, x);
  }

  lemma PreviousIndex(i: int, n: nat)
    requires n > 0
    ensures (i - 1) % n == if i % n == 0 then n - 1 else i % n - 1
  {
    DivMod(i, n);
    if i % n == 0 {
      assert i - 1 == (i / n - 1) * n + (n - 1);
      ModUnique(i - 1, n, i / n - 1, n - 1);
    } else {
      ModUnique(i - 1, n, i / n, i % n - 1);
    }
  }

  lemma MultiplesApart(x: int, y: int, n: nat)
    requires x < y
    ensures x * n + n <= y * n
  {
    assert (y - x - 1) * n >= 0;
    assert (y - x - 1) * n == y * n - x * n - n;
  }

  /** An index below `m * n` splits into a block and a place in the block. */
  lemma SplitIndex(k: nat, n: nat, m: nat)
    requires n > 0 && k < m * n
    ensures 0 <= k / n < m && 0 <= k % n < n && k / n * n + k % n == k
  {
    DivMod(k, n);
  }

  lemma OrderBlocks(q: int, r: int, q': int, r': int, n: nat)
    requires q * n + r < q' * n + r' && 0 <= r < n && 0 <= r' < n
    ensures (q == q' && r < r') || q * n + n <= q' * n
  {
    if q < q' {
      MultiplesApart(q, q', n);
    } else if q > q' {
      MultiplesApart(q', q, n);
    }
  }

  lemma OrderSplits(a: nat, b: nat, n: nat)
    requires n > 0 && a < b
    ensures (a / n == b / n && a % n < b % n) || a / n * n + n <= b / n * n
  {
    DivMod(a, n);
    DivMod(b, n);
    OrderBlocks(a / n, a % n, b / n, b % n, n);
  }

  /** Block `t`, place `j`: where the index `n` further lands, around `copies` blocks. */
  lemma NextBlock(t: nat, j: nat, n: nat, copies: nat)
    requires n > 0 && t < copies && j < n
    ensures t + 1 < copies ==> (t * n + j + n) % (copies * n) == (t + 1) * n + j
    ensures t + 1 == copies ==> (t * n + j + n) % (copies * n) == j
  {
    var size := copies * n;
    assert (t + 1) * n == t * n + n;
    if t + 1 < copies {
      MultiplesApart(t + 1, copies, n);
      ModSmall(t * n + j + n, size);
    } else {
      MultiplesApart(0, copies, n);
      ModUnique(t * n + j + n, size, 1, j);
    }
  }
}
