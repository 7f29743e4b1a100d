/** Division of natural numbers by products, for positional notation. */
module Division {

  lemma DivUnique(n: nat, d: nat, q: nat, r: nat)
    requires n == q * d + r && r < d
    ensures n / d == q
  {
    var x, y := n / d, n % d;
    assert n == x * d + y && y < d;
    assert (x - q) * d == r - y;
    Grows(x - q, d);
  }

  lemma Grows(k: int, d: int)
    requires d > 0
    ensures k >= 1 ==> k * d >= d
    ensures k <= -1 ==> k * d <= -d
  {
  }

  lemma Regroup(a: nat, b: nat, q: nat, s: nat, r: nat)
    ensures a * (b * q + s) + r == q * (a * b) + (a * s + r)
  {
  }

  lemma RemainderFits(a: nat, b: nat, s: nat, r: nat)
    requires r < a && s < b
    ensures a * s + r < a * b
  {
    assert a * s + a <= a * b by {
      assert a * (s + 1) <= a * b;
    }
  }

  /** Dividing twice is dividing by the product. */
  lemma DivDiv(n: nat, a: nat, b: nat)
    requires a > 0 && b > 0
    ensures a * b > 0 && n / a / b == n / (a * b)
  {
    var q, s, r := n / a / b, n / a % b, n % a;
    Recompose(n, a);
    Recompose(n / a, b);
    Regroup(a, b, q, s, r);
    RemainderFits(a, b, s, r);
    DivUnique(n, a * b, q, a * s + r);
  }

  lemma Recompose(n: nat, a: nat)
    requires a > 0
    ensures n == a * (n / a) + n % a
  {
  }
}
