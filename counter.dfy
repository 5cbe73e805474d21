/** The wrap-around counter idiom `if (++x > limit) x = 0;` that both programs
    use: the emitter cursor of the software renderer and the background hue of
    the coding-club demo. Values stay in [0, limit] and cycle with period
    limit + 1. */
module Counter {

  /** One step of `if (++x > limit) x = 0;`. */
  function Bump(x: nat, limit: nat): (r: nat)
    ensures x <= limit ==> r <= limit
    ensures r == 0 <==> x >= limit
    ensures r != 0 ==> r == x + 1
  {
    if x + 1 > limit then 0 else x + 1
  }

  /** The counter after `k` steps from `x`. */
  function Iterate(k: nat, x: nat, limit: nat): (r: nat)
    ensures x <= limit ==> r <= limit
  {
    if k == 0 then x else Bump(Iterate(k - 1, x, limit), limit)
  }

  /** Euclidean division is determined by its quotient and remainder. */
  lemma DivModUnique(n: int, m: int, q: int, r: int)
    requires m > 0 && 0 <= r < m && n == q * m + r
    ensures n / m == q && n % m == r
  {
    var q', r' := n / m, n % m;
    assert n == q' * m + r';
    if q' < q {
      assert (q - q') * m >= m by { MulAtLeast(q - q', m); }
    } else if q' > q {
      assert (q' - q) * m >= m by { MulAtLeast(q' - q, m); }
    }
  }

  lemma MulAtLeast(a: int, m: int)
    requires a >= 1 && m > 0
    ensures a * m >= m
  {
  }

  /** How one more unit moves a remainder: up by one, or around to zero. */
  lemma ModSucc(n: nat, m: nat)
    requires m > 0
    ensures (n + 1) % m == if n % m == m - 1 then 0 else n % m + 1
  {
    var q, r := n / m, n % m;
    assert n == q * m + r;
    if r == m - 1 {
      DivModUnique(n + 1, m, q + 1, 0);
    } else {
      DivModUnique(n + 1, m, q, r + 1);
    }
  }

  /** Closed form: from any value in range, `k` steps land on (x + k) mod (limit + 1). */
  lemma {:induction false} IterateClosedForm(k: nat, x: nat, limit: nat)
    requires x <= limit
    ensures Iterate(k, x, limit) == (x + k) % (limit + 1)
  {
    if k == 0 {
      DivModUnique(x, limit + 1, 0, x);
    } else {
      IterateClosedForm(k - 1, x, limit);
      ModSucc(x + k - 1, limit + 1);
    }
  }

  /** Running `a` steps and then `b` more is running `a + b` steps. */
  lemma {:induction false} IterateAdd(a: nat, b: nat, x: nat, limit: nat)
    ensures Iterate(a + b, x, limit) == Iterate(b, Iterate(a, x, limit), limit)
  {
    if b > 0 {
      IterateAdd(a, b - 1, x, limit);
    }
  }

  /** Until it reaches `limit` the counter just counts up. */
  lemma {:induction false} IterateNoWrap(k: nat, x: nat, limit: nat)
    requires x + k <= limit
    ensures Iterate(k, x, limit) == x + k
  {
    if k > 0 {
      IterateNoWrap(k - 1, x, limit);
    }
  }

  /** The counter's period is exactly limit + 1: it returns to its start after
      limit + 1 steps and not before. */
  lemma IteratePeriod(x: nat, limit: nat)
    requires x <= limit
    ensures Iterate(limit + 1, x, limit) == x
    ensures forall k :: 0 < k <= limit ==> Iterate(k, x, limit) != x
  {
    IterateClosedForm(limit + 1, x, limit);
    DivModUnique(x + limit + 1, limit + 1, 1, x);
    forall k | 0 < k <= limit
      ensures Iterate(k, x, limit) != x
    {
      IterateClosedForm(k, x, limit);
      if x + k <= limit {
        DivModUnique(x + k, limit + 1, 0, x + k);
      } else {
        DivModUnique(x + k, limit + 1, 1, x + k - limit - 1);
      }
    }
  }
}
