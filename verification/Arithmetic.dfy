/** Small facts about division that several models need. */
module Arithmetic {
  lemma ProductIsLarge(n: int, d: int)
    requires n >= 0
    ensures d >= 1 ==> n * d >= n
    ensures d <= -1 ==> n * d <= -n
  {
    if d >= 1 {
      assert n * d == n + n * (d - 1);
    } else if d <= -1 {
      assert n * d == -n + n * (d + 1);
    }
  }

  lemma NoRemainder(a: nat, n: nat, q: int)
    requires n > 0 && a == n * q
    ensures a % n == 0
  {
    var d := q - a / n;
    assert n * d == a % n;
    ProductIsLarge(n, d);
  }

  lemma Remainder(a: int, n: nat, q: int, r: nat)
    requires n > 0 && a == n * q + r && r < n
    ensures a % n == r && a / n == q
  {
    var d := q - a / n;
    assert n * d == a % n - r;
    ProductIsLarge(n, d);
  }
}
