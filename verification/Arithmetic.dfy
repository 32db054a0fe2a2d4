/** Quotients and remainders. */
module Arithmetic {

  lemma MultipleIsBig(d: int, n: nat)
    ensures d >= 1 ==> d * n >= n
    ensures d <= -1 ==> d * n <= 0 - n
  {
  }

  lemma RemainderOf(q: nat, n: nat, r: nat)
    requires r < n
    ensures (q * n + r) % n == r && (q * n + r) / n == q
  {
    var x := q * n + r;
    var d := x / n - q;
    assert x == x / n * n + x % n;
    assert d * n == r - x % n;
    MultipleIsBig(d, n);
  }

  lemma Reassociate(q: nat, a: nat, b: nat, s: nat, r: nat)
    ensures (q * b + s) * a + r == q * (a * b) + (s * a + r)
  {
    assert (q * b + s) * a == q * b * a + s * a;
    assert q * b * a == q * (a * b);
  }

  lemma RemainderIsSmall(a: nat, b: nat, s: nat, r: nat)
    requires r < a && s < b
    ensures s * a + r < a * b
  {
    assert (s + 1) * a <= b * a;
  }

  lemma QuotientOfBoth(n: nat, m: nat, a: nat, b: nat, q: nat, s: nat, r: nat)
    requires n == m * a + r && m == q * b + s && r < a && s < b
    ensures a * b > 0 && n / (a * b) == q
  {
    Reassociate(q, a, b, s, r);
    RemainderIsSmall(a, b, s, r);
    RemainderOf(q, a * b, s * a + r);
  }

  lemma DivideTwice(n: nat, a: nat, b: nat)
    requires a > 0 && b > 0
    ensures a * b > 0 && n / a / b == n / (a * b)
  {
    var m := n / a;
    QuotientOfBoth(n, m, a, b, m / b, m % b, n % a);
  }
}
