/** Powers, and division facts about integers that the solver needs spelled out. */
module Integers {

  function Power(base: nat, exponent: nat): nat {
    if exponent == 0 then 1 else base * Power(base, exponent - 1)
  }

  lemma Multiple(n: nat, d: int)
    requires n > 0
    ensures d >= 1 ==> n * d >= n
    ensures d == 0 ==> n * d == 0
    ensures d <= -1 ==> n * d <= -(n as int)
  {
    if d >= 1 {
      assert n * (d - 1) >= 0;
    } else if d <= -1 {
      assert n * (-d - 1) >= 0;
    }
  }

  lemma Quotient(a: int, n: nat, q: int, r: nat)
    requires r < n && a == n * q + r
    ensures a / n == q && a % n == r
  {
    var d := a / n - q;
    assert a == n * (a / n) + a % n;
    assert n * d == r - a % n;
    Multiple(n, d);
  }

  lemma ModShift(x: int, n: nat)
    requires n > 0
    ensures (x + n) % n == x % n
  {
    assert x == n * (x / n) + x % n;
    Quotient(x + n, n, x / n + 1, x % n);
  }

  /** Between two multiples of n there is no other. */
  lemma NoMultipleBetween(x: int, y: int, n: nat)
    requires n > 0 && x % n == 0 && x < y < x + n
    ensures y % n != 0
  {
    assert x == n * (x / n);
    Quotient(y, n, x / n, y - x);
  }
}
