/** Division with remainder by a number that is not a constant. */
module Arithmetic {

  lemma Times(a: nat, m: nat)
    ensures a * m == if a == 0 then 0 else (a - 1) * m + m
    ensures a > 0 ==> a * m >= m
  {
    if a > 0 { assert a * m == (a - 1) * m + m; }
  }

  lemma Divided(n: nat, m: nat)
    requires m > 0
    ensures n == n / m * m + n % m && n % m < m
  {
  }

  /** Quotient and remainder are unique. */
  lemma {:induction false} Quotient(a: nat, r: nat, b: nat, s: nat, m: nat)
    requires r < m && s < m && a * m + r == b * m + s
    ensures a == b && r == s
  {
    Times(a, m);
    Times(b, m);
    if a > 0 && b > 0 { Quotient(a - 1, r, b - 1, s, m); }
  }

  lemma Remainder(n: nat, q: nat, r: nat, m: nat)
    requires r < m && n == q * m + r
    ensures n % m == r
  {
    Quotient(n / m, n % m, q, r, m);
  }

  lemma NextRemainder(n: nat, m: nat)
    requires m > 0
    ensures (n + 1) % m == if n % m == m - 1 then 0 else n % m + 1
  {
    var q, r := n / m, n % m;
    assert n == q * m + r;
    if r == m - 1 {
      Times(q + 1, m);
      Remainder(n + 1, q + 1, 0, m);
    } else {
      Remainder(n + 1, q, r + 1, m);
    }
  }

  /** The remainder by an even number: the lowest bit, and the remainder of the rest. */
  lemma LowBits(x: nat, m: nat)
    requires m > 0
    ensures x % (2 * m) == x % 2 + 2 * (x / 2 % m)
  {
    var h := x / 2;
    var q, r := h / m, h % m;
    assert h == q * m + r && x == 2 * h + x % 2;
    assert q * (2 * m) == 2 * (q * m);
    Remainder(x, q, 2 * r + x % 2, 2 * m);
  }

  lemma SameLowBits(x: nat, y: nat, m: nat)
    requires m > 0
    ensures x % (2 * m) == y % (2 * m) <==> x % 2 == y % 2 && x / 2 % m == y / 2 % m
  {
    LowBits(x, m);
    LowBits(y, m);
    Bits(x % 2, x / 2 % m, y % 2, y / 2 % m);
  }

  lemma Bits(a: nat, p: nat, b: nat, q: nat)
    requires a < 2 && b < 2
    ensures a + 2 * p == b + 2 * q <==> a == b && p == q
  {
  }
}
