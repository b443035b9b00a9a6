/**
 * The few facts about products, quotients and remainders that the other modules rest on.
 */
module Arithmetic {

  /** Numbers less than n apart have the same remainder modulo n only when equal. */
  lemma SameRemainder(x: int, y: int, n: int)
    requires n > 0 && -n < x - y < n && x % n == y % n
    ensures x == y
  {
    var d := x / n - y / n;
    assert n * d == n * (x / n) - n * (y / n) == x - y;
    SmallMultiple(n, d);
  }

  lemma SmallMultiple(n: int, d: int)
    requires -n < n * d < n
    ensures d == 0
  {
  }

  lemma ModShift(x: int, q: int, n: nat)
    requires n > 0
    ensures (x + n * q) % n == x % n
  {
    var y := x + n * q;
    var d := y / n - x / n - q;
    assert n * d == x % n - y % n by {
      assert y == n * (y / n) + y % n;
      assert x == n * (x / n) + x % n;
    }
    SmallMultiple(n, d);
  }

  lemma ModOfSum(x: int, y: int, n: nat)
    requires n > 0
    ensures (x + y) % n == (x % n + y) % n
  {
    var r := x % n;
    assert x == r + n * (x / n);
    ModShift(r + y, x / n, n);
  }

  lemma RemainderOfSum(x: int, r: int, t: int, n: nat)
    requires n > 0 && x % n == r
    ensures (x + t) % n == (r + t) % n
  {
    ModOfSum(x, t, n);
  }

  lemma Factor(x: int, n: nat)
    requires n > 0 && x % n == 0
    ensures x == n * (x / n)
  {
  }

  lemma MultipleIsDivisible(n: nat, q: int)
    requires n > 0
    ensures (n * q) % n == 0
  {
    ModShift(0, q, n);
  }

  lemma Reassociate(n: int, b: int, q: int)
    ensures (n * b) * q == n * (b * q)
  {
  }

  /** The remainder of a multiple by a multiple is a multiple. */
  lemma RemainderOfMultiple(x: int, size: nat, n: nat)
    requires n > 0 && size > 0 && x % n == 0 && size % n == 0
    ensures x % size % n == 0
  {
    var a, b, q := x / n, size / n, x / size;
    Factor(x, n);
    Factor(size, n);
    Reassociate(n, b, q);
    assert x % size == x - size * q == n * a - n * (b * q);
    assert n * a - n * (b * q) == n * (a - b * q);
    MultipleIsDivisible(n, a - b * q);
  }

  lemma NonNegativeFactor(n: nat, q: int)
    requires n > 0 && n * q >= 0
    ensures q >= 0
  {
  }

  lemma PositiveRemainder(x: nat, n: nat)
    requires n > 0
    ensures x % n > 0 ==> x > 0
  {
  }

  lemma SmallMod(a: int, n: int)
    requires 0 <= a < n
    ensures a % n == a
  {
  }

  lemma QuotientIs(x: int, n: int, q: int, r: int)
    requires 0 <= r < n && x == q * n + r
    ensures x / n == q && x % n == r
  {
    assert n * (x / n - q) == r - x % n;
    SmallMultiple(n, x / n - q);
  }

  lemma {:induction false} ProductGrows(n: nat, w: nat, q: nat)
    requires w <= q
    ensures 0 <= n * w <= n * q
  {
    if w < q {
      ProductGrows(n, w, q - 1);
      assert n * q == n * (q - 1) + n;
    }
  }

  lemma QuotientBound(x: nat, n: nat)
    requires n > 0
    ensures 0 <= x / n <= x
  {
    var q := x / n;
    assert x == n * q + x % n;
    if q >= 0 {
      ProductGrows(q, 1, n);
    }
    assert q < 0 ==> n * (-1 - q) >= 0;
  }
}
