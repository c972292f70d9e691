/** Division rounded up: how many pages of a given size `n` items take. */
module Ceilings {
  type PageSize = n: nat | 1 <= n witness 1

  function Pages(n: int, size: PageSize): nat {
    if n <= 0 then 0 else 1 + Pages(n - size, size)
  }

  function AtLeastOne(n: nat): nat {
    if n == 0 then 1 else n
  }

  lemma {:induction false} PagesMonotone(a: int, b: int, size: PageSize)
    requires a <= b
    ensures Pages(a, size) <= Pages(b, size)
    decreases b
  {
    if 0 < b {
      PagesMonotone(a - size, b - size, size);
    }
  }

  lemma {:induction false} PagesOfSum(a: nat, b: nat, size: PageSize)
    ensures Pages(a, size) + Pages(b, size) <= Pages(a + b, size) + 1
    decreases a
  {
    if size <= a {
      PagesOfSum(a - size, b, size);
    } else if 0 < a {
      PagesMonotone(b, a + b, size);
    }
  }

  lemma Product(k: nat, size: nat)
    ensures (k + 1) * size == k * size + size
  {
  }

  lemma ProductMonotone(a: nat, b: nat, size: nat)
    requires a <= b
    ensures a * size <= b * size
  {
  }

  /** `Pages` is the quotient rounded up. */
  lemma {:induction false} PagesIsCeiling(n: nat, size: PageSize, k: nat)
    requires k * size < n <= (k + 1) * size
    ensures Pages(n, size) == k + 1
    decreases n
  {
    if k == 0 {
      assert Pages(n - size, size) == 0;
    } else {
      Product(k - 1, size);
      Product(k, size);
      PagesIsCeiling(n - size, size, k - 1);
    }
  }

  /** A bound on a product bounds the factor by the quotient. */
  lemma Quotient(k: nat, size: PageSize, m: nat)
    requires k * size <= m
    ensures k <= m / size
  {
    var q := m / size;
    assert m < q * size + size;
    if q + 1 <= k {
      ProductMonotone(q + 1, k, size);
      Product(q, size);
    }
  }
}
