/** Division with remainder by a variable divisor, in steps small enough for the solver. */
module Modular {
  lemma MultipleIsFar(r: int, k: int)
    requires r > 0
    ensures k >= 1 ==> r * k >= r
    ensures k <= -1 ==> r * k <= -r
  {
    if k >= 1 {
      assert r * k == r * (k - 1) + r;
    }
    if k <= -1 {
      assert r * k == r * (k + 1) - r;
    }
  }

  lemma SmallMultiple(r: int, k: int)
    requires r > 0 && -r < r * k < r
    ensures k == 0
  {
    MultipleIsFar(r, k);
  }

  lemma Quotient(n: nat, r: nat)
    requires r > 0
    ensures n == r * (n / r) + n % r
    ensures 0 <= n % r < r
  {
  }

  lemma Split(r: nat, a: int, b: int)
    ensures r * (a - b) == r * a - r * b
  {
  }

  /** Division with remainder is unique. */
  lemma RemainderUnique(n: nat, r: nat, q: nat, x: nat)
    requires n == r * q + x && x < r
    ensures n % r == x && n / r == q
  {
    Quotient(n, r);
    var a, m := n / r, n % r;
    Split(r, a, q);
    SmallMultiple(r, a - q);
  }

  lemma ModAdd(c: nat, d: nat, r: nat)
    requires d < r
    ensures (c + d) % r == if c % r + d < r then c % r + d else c % r + d - r
  {
    Quotient(c, r);
    var q, m := c / r, c % r;
    if m + d < r {
      RemainderUnique(c + d, r, q, m + d);
    } else {
      assert r * (q + 1) == r * q + r;
      RemainderUnique(c + d, r, q + 1, m + d - r);
    }
  }

  lemma MulMonotone(a: nat, b: nat, r: nat)
    requires a <= b
    ensures a * r <= b * r
  {
    assert b * r == a * r + (b - a) * r;
  }

  lemma SmallQuotient(n: nat, r: nat, k: nat)
    requires r > 0 && n <= r * k
    ensures n / r <= k
  {
    Quotient(n, r);
    if n / r > k {
      MulMonotone(k + 1, n / r, r);
    }
  }

  /** Any count of whole steps strictly below n is below the rounded-up quotient. */
  lemma CeilBound(n: nat, r: nat, k: int)
    requires r > 0 && k * r < n
    ensures k + 1 <= n / r + (if n % r > 0 then 1 else 0)
  {
    Quotient(n, r);
    if k > n / r {
      MulMonotone(n / r + 1, k, r);
    } else if k == n / r {
      assert k * r == r * (n / r);
    }
  }

  lemma AddModulus(a: nat, r: nat)
    requires r > 0
    ensures (a + r) % r == a % r
  {
    Quotient(a, r);
    assert r * (a / r + 1) == r * (a / r) + r;
    RemainderUnique(a + r, r, a / r + 1, a % r);
  }

  lemma Associate(a: int, b: int, c: int)
    ensures a * (b * c) == (a * b) * c
  {
  }

  lemma SplitSum(r: int, a: int, b: int)
    ensures r * (a + b) == r * a + r * b
  {
  }

  lemma Nested(n: int, r: int, q: int, t: int, y: int)
    requires n == r * t
    ensures n * q + r * y == r * (t * q + y)
  {
    Associate(r, t, q);
    SplitSum(r, t * q, y);
  }

  /** Reducing modulo a multiple first changes nothing. */
  lemma DividingModulus(k: nat, n: nat, r: nat)
    requires r > 0 && n > 0 && n % r == 0
    ensures (k % n) % r == k % r
  {
    Quotient(k, n);
    Quotient(n, r);
    Quotient(k % n, r);
    Composed(k, n, r, k / n, n / r, k % n / r, k % n % r);
  }

  lemma Composed(k: nat, n: nat, r: nat, q: nat, t: nat, y: nat, z: nat)
    requires n == r * t && k == n * q + (r * y + z) && z < r
    ensures k % r == z
  {
    Nested(n, r, q, t, y);
    var w: nat := t * q + y;
    RemainderUnique(k, r, w, z);
  }
}
