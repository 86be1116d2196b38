/** Facts about integer products, quotients and remainders used across the models. */
module Arithmetic {
  lemma Scale(a: int, b: int, c: nat)
    requires a <= b
    ensures a * c <= b * c
  {
  }

  lemma ScaleStrict(a: int, b: int, c: nat)
    requires a < b
    ensures a * c + c <= b * c
  {
    Scale(a + 1, b, c);
  }

  lemma Cancel(a: int, b: int, c: nat)
    requires c > 0 && a * c <= b * c
    ensures a <= b
  {
    if b < a {
      ScaleStrict(b, a, c);
    }
  }

  lemma Floor(a: nat, b: nat)
    requires b > 0
    ensures a / b * b <= a < a / b * b + b
  {
  }

  /** The floor is the largest whole number of `b`s. */
  lemma FloorLargest(q: nat, a: nat, b: nat)
    requires b > 0 && q * b <= a
    ensures q <= a / b
  {
    Floor(a, b);
    if a / b < q {
      ScaleStrict(a / b, q, b);
    }
  }

  lemma ExactQuotient(q: nat, b: nat)
    requires b > 0
    ensures q * b / b == q
  {
    FloorLargest(q, q * b, b);
    Floor(q * b, b);
    Cancel(q * b / b, q, b);
  }

  lemma AtLeastOnce(n: nat, d: int)
    ensures d >= 1 ==> n * d >= n
    ensures d <= -1 ==> n * d + n <= 0
  {
    assert d >= 1 ==> n * d == n * (d - 1) + n && n * (d - 1) >= 0;
    assert d <= -1 ==> n * d + n == n * (d + 1) && n * (d + 1) <= 0;
  }

  /** Quotient and remainder are the only ones. */
  lemma DivModUnique(x: int, q: int, r: int, n: nat)
    requires x == n * q + r && 0 <= r < n
    ensures x / n == q && x % n == r
  {
    var p, s := x / n, x % n;
    assert x == n * p + s;
    assert n * (p - q) == n * p - n * q;
    AtLeastOnce(n, p - q);
  }

  lemma ModSmall(x: nat, n: nat)
    requires 0 < n && x < 2 * n
    ensures x % n == if x < n then x else x - n
  {
    if x < n {
      DivModUnique(x, 0, x, n);
    } else {
      DivModUnique(x, 1, x - n, n);
    }
  }

  lemma ModSum(a: nat, b: nat, n: nat)
    requires n > 0
    ensures (a % n + b) % n == (a + b) % n
  {
    var q, r := a / n, a % n;
    var p, s := (r + b) / n, (r + b) % n;
    assert n * (q + p) == n * q + n * p;
    DivModUnique(a + b, q + p, s, n);
  }

  function FloorDiv(a: nat, b: nat): (q: nat)
    requires b > 0
    ensures q * b <= a < q * b + b
  {
    a / b
  }

  function Remainder(a: nat, b: nat): (r: nat)
    requires b > 0
    ensures r < b
  {
    a % b
  }

  lemma SplitExactly(a: nat, b: nat)
    requires b > 0
    ensures FloorDiv(a, b) * b + Remainder(a, b) == a
  {
  }

  function Pow10(k: nat): (p: nat)
    ensures p > 0
  {
    if k == 0 then 1 else 10 * Pow10(k - 1)
  }

  lemma TenTimes(a: nat, k: nat)
    requires k > 0
    ensures a * Pow10(k) == 10 * (a * Pow10(k - 1))
  {
    var p := Pow10(k - 1);
    assert a * (10 * p) == 10 * (a * p);
  }

  lemma {:induction false} PowSum(a: nat, b: nat)
    ensures Pow10(a + b) == Pow10(a) * Pow10(b)
  {
    if a > 0 {
      PowSum(a - 1, b);
    }
  }
}
