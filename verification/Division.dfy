/** Quotients and remainders from a decomposition. */
module Division {

  lemma Sign(x: int, d: nat)
    ensures x >= 0 ==> x * d >= 0
  {
  }

  lemma Quotient(n: int, d: nat, q: int, r: nat)
    requires n == q * d + r && r < d
    ensures n / d == q && n % d == r
  {
    var e := n / d - q;
    assert r - n % d == e * d;
    Sign(e - 1, d);
    Sign(-e - 1, d);
    assert (e - 1) * d == e * d - d && (-e - 1) * d == -(e * d) - d;
  }

  predicate Divides(d: nat, n: nat)
    requires d > 0
  {
    n % d == 0
  }

  lemma Multiple(d: nat, k: nat)
    requires d > 0
    ensures Divides(d, d * k) && (d * k) / d == k
  {
    Quotient(d * k, d, k, 0);
  }

  lemma Factor(d: nat, n: nat)
    requires d > 0 && Divides(d, n)
    ensures n == d * (n / d)
  {
  }

  lemma DividesMultiple(d: nat, n: nat, k: nat)
    requires d > 0 && Divides(d, n)
    ensures Divides(d, n * k)
  {
    Factor(d, n);
    assert n * k == d * (n / d * k);
    Multiple(d, n / d * k);
  }

  lemma DividesDifference(d: nat, a: nat, b: nat)
    requires d > 0 && Divides(d, a) && Divides(d, b) && b <= a
    ensures Divides(d, a - b)
  {
    Factor(d, a);
    Factor(d, b);
    assert a - b == (a / d - b / d) * d;
    Quotient(a - b, d, a / d - b / d, 0);
  }

  lemma DividesThrough(d: nat, e: nat, n: nat)
    requires d > 0 && e > 0 && Divides(d, e) && Divides(e, n)
    ensures Divides(d, n)
  {
    Factor(e, n);
    DividesMultiple(d, e, n / e);
  }
}
