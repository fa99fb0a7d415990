/**
 Facts about sums, products, quotients and remainders that the solver needs to be told.
 */
module Arithmetic {

  function One(b: bool): (n: nat) { if b then 1 else 0 }

  lemma AtLeast(a: nat, b: nat)
    requires a >= 1
    ensures a * b >= b
  {}

  lemma TimesGrows(a: nat, b: nat, c: nat)
    ensures b <= c ==> a * b <= a * c
  {
    if b <= c { assert a * c == a * b + a * (c - b); }
  }

  lemma MultipleSmall(n: nat, d: int)
    requires n > 0
    ensures 0 - n < n * d < n ==> d == 0
  {
    if d >= 1 { assert n * d >= n; }
    if d <= -1 { assert n * d <= 0 - n; }
  }

  lemma DivideUnique(x: nat, n: nat, q: nat, r: nat)
    requires 0 < n && r < n && x == n * q + r
    ensures x % n == r && x / n == q
  {
    var q', r' := x / n, x % n;
    assert n * (q - q') == r' - r;
    MultipleSmall(n, q - q');
  }

  lemma DivideGrows(a: nat, b: nat, d: nat)
    requires a <= b && d > 0
    ensures a / d <= b / d
  {
    TimesGrows(d, b / d + 1, a / d);
  }

  lemma NextMod(k: nat, n: nat)
    requires n > 0
    ensures (k + 1) % n == if k % n + 1 == n then 0 else k % n + 1
  {
    var q, r := k / n, k % n;
    assert k == n * q + r;
    if r + 1 == n {
      assert k + 1 == n * (q + 1) + 0;
      DivideUnique(k + 1, n, q + 1, 0);
    } else {
      DivideUnique(k + 1, n, q, r + 1);
    }
  }

  /** Twice the modulus leaves the remainder or moves it up by the modulus. */
  lemma ModDoubles(x: nat, n: nat)
    requires n > 0
    ensures x % (2 * n) == x % n || x % (2 * n) == x % n + n
  {
    var q, r := Divided(x, 2 * n);
    DoubledTimes(n, q);
    if r < n {
      DivideUnique(x, n, 2 * q, r);
    } else {
      DivideUnique(x, n, 2 * q + 1, r - n);
    }
  }

  lemma Divided(x: nat, n: nat) returns (q: nat, r: nat)
    requires n > 0
    ensures x == n * q + r && r == x % n < n
  {
    q, r := x / n, x % n;
  }

  lemma DoubledTimes(n: nat, q: nat)
    ensures (2 * n) * q == n * (2 * q) && n * (2 * q + 1) == (2 * n) * q + n
  {}
}
