/** Facts about Euclidean `/` and `%` by a positive divisor that the cursor
    arithmetic of the selector relies on. */
module Arith {

  /** Quotient and remainder are unique. */
  lemma DivModUnique(a: int, k: int, r: int, n: int)
    requires n > 0 && 0 <= r < n && a == k * n + r
    ensures a % n == r && a / n == k
  {
    var d := a / n - k;
    assert d * n == r - a % n;
    if d > 0 {
      assert false;
    } else if d < 0 {
      assert false;
    }
  }

  /** Reducing the first summand first does not change the remainder. */
  lemma ModAdd(x: nat, y: nat, n: nat)
    requires n > 0
    ensures (x % n + y) % n == (x + y) % n
  {
    var z := x % n + y;
    DivModUnique(z, z / n, z % n, n);
    DivModUnique(x + y, x / n + z / n, z % n, n);
  }

  /** Adding the divisor adds one to the quotient. */
  lemma DivAddDivisor(x: nat, n: nat)
    requires n > 0
    ensures (x + n) / n == x / n + 1
  {
    DivModUnique(x + n, x / n + 1, x % n, n);
  }

  /** Floor and ceiling of `m / n` below one block. */
  lemma FloorCeilSmall(m: nat, n: nat)
    requires m < n
    ensures m / n == 0
    ensures (m + n - 1) / n == if m == 0 then 0 else 1
  {
  }

  /** Floor and ceiling of `m / n` grow by one per block of `n`. */
  lemma FloorCeilBlock(m: nat, n: nat)
    requires 0 < n <= m
    ensures m / n == (m - n) / n + 1
    ensures (m + n - 1) / n == (m - n + n - 1) / n + 1
  {
    DivAddDivisor(m - n, n);
    DivAddDivisor(m - 1, n);
  }
}
