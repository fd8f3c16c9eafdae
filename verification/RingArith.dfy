/** Division and remainder facts for ring indices.

    Ring positions are absolute event counts; the slot of position `k` in a ring
    of `n` slots is `k % n` and its lap is `k / n`.  Positions may be negative:
    position `k - n` is the previous content of the slot of `k`. */
module RingArith {

  /** Whether position `k` lies on an even lap, the laps whose phase tag is 1. */
  predicate EvenLap(k: int, n: nat)
    requires n > 0
  {
    k / n % 2 == 0
  }

  lemma Multiple(n: nat, d: int)
    ensures d >= 1 ==> n * d >= n
    ensures d <= -1 ==> n * d + n <= 0
  {
  }

  lemma Difference(n: nat, a: int, b: int)
    ensures n * (a - b) == n * a - n * b
  {
  }

  lemma Reassociate(a: nat, b: nat, c: nat)
    ensures a * b * c == a * (b * c)
  {
  }

  lemma Unique(k: int, n: nat, q: int, r: int)
    requires 0 <= r < n && k == n * q + r
    ensures k / n == q && k % n == r
  {
    var m := k / n;
    assert k == n * m + k % n;
    Difference(n, q, m);
    Multiple(n, q - m);
  }

  lemma DivBound(k: nat, d: nat, q: nat)
    requires d > 0
    ensures k / d >= q <==> k >= q * d
  {
    var m := k / d;
    assert k == d * m + k % d;
    Difference(d, m, q);
    Multiple(d, m - q);
  }

  lemma Lap(n: nat, q: int)
    ensures n * (q + 1) == n * q + n && n * (q - 1) == n * q - n && n * 0 == 0 && n * 1 == n
  {
  }

  /** Advancing one slot. */
  lemma NextSlot(h: nat, n: nat)
    requires h < n
    ensures (h + 1) % n == if h == n - 1 then 0 else h + 1
  {
    Lap(n, 0);
    if h == n - 1 {
      Unique(h + 1, n, 1, 0);
    } else {
      Unique(h + 1, n, 0, h + 1);
    }
  }

  lemma Next(k: int, n: nat)
    requires n > 0
    ensures (k + 1) % n == (k % n + 1) % n
    ensures (k + 1) % n == if k % n == n - 1 then 0 else k % n + 1
    ensures EvenLap(k + 1, n) == if k % n == n - 1 then !EvenLap(k, n) else EvenLap(k, n)
  {
    var q, r := k / n, k % n;
    assert k == n * q + r;
    NextSlot(r, n);
    Lap(n, q);
    if r == n - 1 {
      Unique(k + 1, n, q + 1, 0);
    } else {
      Unique(k + 1, n, q, r + 1);
    }
  }

  /** Going back one lap: same slot, opposite parity. */
  lemma LapBack(k: int, n: nat)
    requires n > 0
    ensures (k - n) % n == k % n
    ensures EvenLap(k - n, n) == !EvenLap(k, n)
  {
    assert k == n * (k / n) + k % n;
    Lap(n, k / n);
    Unique(k - n, n, k / n - 1, k % n);
  }

  /** Two positions fewer than `n` apart share a slot only if they are equal. */
  lemma Distinct(a: int, b: int, n: nat)
    requires a <= b < a + n
    ensures a % n == b % n <==> a == b
  {
    var p, q := a / n, b / n;
    assert a == n * p + a % n && b == n * q + b % n;
    Difference(n, q, p);
    Multiple(n, q - p);
  }

  /** Jumping `j <= n` positions ahead in one step. */
  lemma Jump(k: int, n: nat, j: nat)
    requires 0 < n && j <= n
    ensures (k + j) % n == (k % n + j) % n
    ensures EvenLap(k + j, n) == if k % n + j >= n && k % n + j < 2 * n then !EvenLap(k, n) else EvenLap(k, n)
  {
    var q, r := k / n, k % n;
    assert k == n * q + r;
    Lap(n, 0);
    Lap(n, 1);
    Lap(n, q);
    Lap(n, q + 1);
    if r + j >= 2 * n {
      Unique(r + j, n, 2, r + j - 2 * n);
      Unique(k + j, n, q + 2, r + j - 2 * n);
    } else if r + j >= n {
      Unique(r + j, n, 1, r + j - n);
      Unique(k + j, n, q + 1, r + j - n);
    } else {
      Unique(r + j, n, 0, r + j);
      Unique(k + j, n, q, r + j);
    }
  }
}
