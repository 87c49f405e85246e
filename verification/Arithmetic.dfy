/** Quotients and remainders by numbers that are not constants. */
module Arithmetic {

  lemma MulOrder(p: int, q: int, b: int)
    requires p <= q && b > 0
    ensures p * b <= q * b
  {
    assert (q - p) * b >= 0;
  }

  lemma Distribute(p: int, q: int, b: int)
    ensures (p - q) * b == p * b - q * b
  {
  }

  lemma QuotientTimes(a: int, b: int)
    requires b > 0
    ensures a / b * b <= a < a / b * b + b
  {
    assert a == a / b * b + a % b;
  }

  lemma ModUnique(x: nat, m: nat, q: nat, r: nat)
    requires m > 0 && x == q * m + r && r < m
    ensures x % m == r
  {
    var d, n: int := q - x / m, m;
    assert d * n == x % n - r;
    assert d >= 1 ==> d * n >= n;
    assert d <= -1 ==> d * n + n <= 0;
  }

  lemma DivUnique(x: nat, m: nat, q: nat, r: nat)
    requires m > 0 && x == q * m + r && r < m
    ensures x / m == q
  {
    ModUnique(x, m, q, r);
    var d, n: int := x / m - q, m;
    assert d * n == 0;
    assert d >= 1 ==> d * n >= n;
    assert d <= -1 ==> d * n + n <= 0;
  }

  lemma SmallQuotient(a: int, b: int)
    requires 0 <= a < b
    ensures a / b == 0
  {
  }

  /** `k` fit into `room` exactly when `k` is at most the quotient. */
  lemma AtMostQuotient(k: int, room: int, b: int)
    requires b > 0
    ensures k <= room / b <==> k * b <= room
  {
    QuotientTimes(room, b);
    if k <= room / b {
      MulOrder(k, room / b, b);
    } else {
      MulOrder(room / b + 1, k, b);
      assert (room / b + 1) * b == room / b * b + b;
    }
  }

  /* ----- filling blocks of a given capacity one item after the other ----- */

  /** The number of blocks that `n` items need. */
  function BlocksFor(n: nat, cap: nat): (r: nat)
    requires cap > 0
  {
    (n + cap - 1) / cap
  }

  /** Whole blocks of a larger size than `cap` items take are always too few. */
  lemma LargerBlocks(n: nat, size: nat, cap: nat, room: nat)
    requires n > 0 && size > 0 && cap > 0 && cap * size < room
    ensures n * size / room < BlocksFor(n, cap)
  {
    var q: int, b: int := n * size / room, BlocksFor(n, cap);
    QuotientTimes(n * size, room);
    QuotientTimes(n + cap - 1, cap);
    SomeBlock(n, cap);
    MulOrder(n, b * cap, size);
    assert b * cap * size == b * (cap * size);
    MulOrder(1, b, room - cap * size);
    Distribute(room, cap * size, b);
    assert b * room > n * size;
    if q >= b {
      MulOrder(b, q, room);
    }
  }

  lemma SomeBlock(n: nat, cap: nat)
    requires n > 0 && cap > 0
    ensures BlocksFor(n, cap) >= 1
  {
    AtMostQuotient(1, n + cap - 1, cap);
  }

  /** After `i` items `full` blocks are full and the next holds `t`. */
  ghost predicate Filled(i: nat, cap: nat, full: nat, t: nat) {
    i == full * cap + t && t <= cap
  }

  lemma FilledStart(cap: nat)
    ensures Filled(0, cap, 0, 0) && (cap > 0 ==> BlocksFor(0, cap) == 0)
  {
    if cap > 0 {
      SmallQuotient(cap - 1, cap);
    }
  }

  lemma FilledStep(i: nat, cap: nat, full: nat, t: nat)
    requires Filled(i, cap, full, t)
    ensures t <= cap && (t < cap ==> Filled(i + 1, cap, full, t + 1))
  {
  }

  lemma FilledUp(i: nat, cap: nat, full: nat)
    requires Filled(i, cap, full, cap)
    ensures Filled(i, cap, full + 1, 0)
  {
    assert (full + 1) * cap == full * cap + cap;
  }

  lemma FilledEnd(i: nat, cap: nat, full: nat, t: nat)
    requires Filled(i, cap, full, t) && t > 0
    ensures BlocksFor(i, cap) == full + 1
  {
    assert i + cap - 1 == (full + 1) * cap + (t - 1) by {
      assert (full + 1) * cap == full * cap + cap;
    }
    DivUnique(i + cap - 1, cap, full + 1, t - 1);
  }
}
