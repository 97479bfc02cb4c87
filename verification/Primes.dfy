/** Primes, least factors and the list of primes. */
module Primes {
  import opened Division

  ghost predicate Prime(n: nat) {
    n >= 2 && forall d :: 2 <= d < n ==> !Divides(d, n)
  }

  lemma SelfDivides(n: nat)
    requires n > 0
    ensures Divides(n, n)
  {
  }

  function LeastFrom(n: nat, d: nat): (p: nat)
    requires 2 <= d <= n && forall e :: 2 <= e < d ==> !Divides(e, n)
    ensures d <= p <= n && Divides(p, n) && forall e :: 2 <= e < p ==> !Divides(e, n)
    decreases n - d
  {
    SelfDivides(n);
    hide Divides;
    if Divides(d, n) then d else LeastFrom(n, d + 1)
  }

  /** The smallest factor from 2 on. */
  function Least(n: nat): (p: nat)
    requires n >= 2
    ensures 2 <= p <= n && Divides(p, n) && forall e :: 2 <= e < p ==> !Divides(e, n)
  {
    LeastFrom(n, 2)
  }

  lemma LeastIsPrime(n: nat)
    requires n >= 2
    ensures Prime(Least(n)) && (Prime(n) <==> Least(n) == n)
  {
    hide Divides, LeastFrom;
    var p := Least(n);
    forall d | 2 <= d < p
      ensures !Divides(d, p)
    {
      if Divides(d, p) {
        DividesThrough(d, p, n);
        assert false;
      }
    }
  }

  /** A prime that divides a product with a smaller number divides the other factor. */
  lemma {:induction false} Euclid(q: nat, r: nat, m: nat)
    requires Prime(q) && 0 < r < q && Divides(q, m * r)
    ensures Divides(q, m)
    decreases r
  {
    hide Divides;
    if r > 1 {
      var k, s := q / r, q % r;
      assert q == r * k + s;
      assert s != 0 by {
        assert !Divides(r, q);
        NotDivided(r, q);
      }
      assert m * s == q * m - m * r * k;
      Multiple(q, m);
      DividesMultiple(q, m * r, k);
      DividesDifference(q, q * m, m * r * k);
      Euclid(q, s, m);
    } else {
      assert m * r == m;
    }
  }

  lemma NotDivided(d: nat, n: nat)
    requires d > 0 && !Divides(d, n)
    ensures n % d != 0
  {
  }

  /** A prime that divides a product divides one of the factors. */
  lemma PrimeDivides(q: nat, m: nat, p: nat)
    requires Prime(q) && Divides(q, m * p) && !Divides(q, p)
    ensures Divides(q, m)
  {
    hide Divides;
    NotDivided(q, p);
    var r, k := p % q, p / q;
    assert p == q * k + r;
    assert m * r == m * p - q * (m * k);
    Multiple(q, m * k);
    DividesDifference(q, m * p, q * (m * k));
    Euclid(q, r, m);
  }

  /** Times a prime that is no larger than its least factor, that prime is the least factor. */
  lemma LeastOfProduct(m: nat, p: nat)
    requires m >= 2 && Prime(p) && p <= Least(m)
    ensures m * p >= 2 && Least(m * p) == p
  {
    hide Divides, LeastFrom, Least;
    AtLeast(m, p);
    var q := Least(m * p);
    Multiple(p, m);
    assert m * p == p * m;
    LeastIsPrime(m * p);
    if q < p {
      PrimeDivides(q, m, p);
      assert false;
    }
  }

  lemma AtLeast(m: nat, p: nat)
    requires m >= 1 && p >= 1
    ensures m * p >= m && m * p >= p
  {
  }

  /** A composite is its least factor times a number without smaller factors. */
  lemma Split(c: nat, p: nat, m: nat)
    requires c >= 2 && !Prime(c) && p == Least(c) && m == c / p
    ensures c == m * p && 2 <= m < c && Prime(p) && p <= Least(m) <= m
  {
    hide Divides, LeastFrom, Least;
    LeastIsPrime(c);
    Factor(p, c);
    assert c == p * m == m * p;
    Cofactor(c, p, m);
    Multiple(m, p);
    var l := Least(m);
    DividesThrough(l, m, c);
    NoLess(c, p, l);
  }

  lemma Cofactor(c: nat, p: nat, m: nat)
    requires c == m * p && 2 <= p < c
    ensures 2 <= m < c
  {
    Sign(p - 2, m);
    assert m * p == 2 * m + (p - 2) * m;
  }

  lemma NoLess(c: nat, p: nat, l: nat)
    requires c >= 2 && p == Least(c) && l >= 2 && Divides(l, c)
    ensures p <= l
  {
  }

  // ----- the result

  ghost function PrimesUpTo(n: nat): seq<nat> {
    if n < 2 then [] else PrimesUpTo(n - 1) + if Prime(n) then [n] else []
  }

  ghost predicate Increasing(s: seq<nat>) {
    forall i, j :: 0 <= i < j < |s| ==> s[i] < s[j]
  }

  /** Exactly the primes, in order. */
  lemma {:induction false} PrimesAre(n: nat)
    ensures var s := PrimesUpTo(n); Increasing(s) && forall p: nat :: p in s <==> Prime(p) && p <= n
  {
    hide Prime;
    forall p: nat
      ensures Prime(p) ==> p >= 2
    {
      PrimeAtLeast(p);
    }
    if n >= 2 {
      PrimesAre(n - 1);
      var s := PrimesUpTo(n - 1);
      assert forall i :: 0 <= i < |s| ==> s[i] in s;
    }
  }

  lemma PrimeAtLeast(p: nat)
    ensures Prime(p) ==> p >= 2
  {
  }

  // ----- machine integers

  const WORD: nat := 0x1_0000_0000

  type Word = x: nat | x < WORD

  lemma SquareGrows(a: nat, b: nat)
    requires a <= b
    ensures a * a <= b * b
  {
    Sign(b - a, a + b);
    assert (b - a) * (a + b) == b * b - a * a;
  }

  // ----- primes in numbers

  lemma LeastSquare(c: nat)
    requires c >= 2 && !Prime(c)
    ensures Least(c) * Least(c) <= c
  {
    hide Prime, Least;
    var p := Least(c);
    Split(c, p, c / p);
    Sign(c / p - p, p);
    assert (c / p - p) * p == c / p * p - p * p;
  }

  /** Trial division up to the root. */
  lemma PrimeByTrial(n: nat, r: nat)
    requires n >= 2 && n < r * r && forall d :: 2 <= d < r ==> !Divides(d, n)
    ensures Prime(n)
  {
    hide Divides, Least, Prime;
    if !Prime(n) {
      LeastSquare(n);
      LeastDivides(n);
      if r <= Least(n) {
        SquareGrows(r, Least(n));
      }
    }
  }

  lemma LeastDivides(c: nat)
    requires c >= 2
    ensures 2 <= Least(c) <= c && Divides(Least(c), c)
  {
  }

  // ----- a prime below the double, as far as roots of 31-bit numbers go

  lemma SmallPrimes()
    ensures Prime(3) && Prime(5) && Prime(7)
  {
  }

  lemma Prime13()
    ensures Prime(13)
  {
    hide Prime;
    PrimeByTrial(13, 4);
  }

  lemma Prime23()
    ensures Prime(23)
  {
    hide Prime;
    PrimeByTrial(23, 5);
  }

  lemma Prime43()
    ensures Prime(43)
  {
    hide Prime;
    PrimeByTrial(43, 7);
  }

  lemma Prime83()
    ensures Prime(83)
  {
    hide Prime;
    PrimeByTrial(83, 10);
  }

  lemma Prime163()
    ensures Prime(163)
  {
    hide Prime;
    PrimeByTrial(163, 13);
  }

  lemma Prime317()
    ensures Prime(317)
  {
    hide Prime;
    PrimeByTrial(317, 18);
  }

  lemma Prime631()
    ensures Prime(631)
  {
    hide Prime;
    PrimeByTrial(631, 26);
  }

  lemma Prime1259()
    ensures Prime(1259)
  {
    hide Prime;
    PrimeByTrial(1259, 36);
  }

  lemma Prime2503()
    ensures Prime(2503)
  {
    hide Prime;
    PrimeByTrial(2503, 51);
  }

  lemma Prime4001()
    ensures Prime(4001)
  {
    hide Prime;
    PrimeByTrial(4001, 64);
  }

  lemma Prime7993()
    ensures Prime(7993)
  {
    hide Prime;
    PrimeByTrial(7993, 90);
  }

  lemma Prime15971()
    ensures Prime(15971)
  {
    hide Prime;
    PrimeByTrial(15971, 127);
  }

  lemma Prime31907()
    ensures Prime(31907)
  {
    hide Prime, Divides;
    NoDivisorsBelow90();
    NoDivisorsBelow179();
    PrimeByTrial(31907, 179);
  }

  lemma NoDivisorsBelow90()
    ensures forall d :: 2 <= d < 90 ==> !Divides(d, 31907)
  {
  }

  lemma NoDivisorsBelow179()
    ensures forall d :: 90 <= d < 179 ==> !Divides(d, 31907)
  {
  }

  lemma Prime46349()
    ensures Prime(46349)
  {
    hide Prime, Divides;
    NoDivisorsBelow110();
    NoDivisorsBelow216();
    PrimeByTrial(46349, 216);
  }

  lemma NoDivisorsBelow110()
    ensures forall d :: 2 <= d < 110 ==> !Divides(d, 46349)
  {
  }

  lemma NoDivisorsBelow216()
    ensures forall d :: 110 <= d < 216 ==> !Divides(d, 46349)
  {
  }

  /** There is a prime between a number and its double. */
  lemma PrimeBelowDouble(q: nat) returns (p: nat)
    requires 2 <= q < 46349
    ensures Prime(p) && q < p < 2 * q
  {
    hide Prime;
    SmallPrimes();
    Prime13();
    Prime23();
    Prime43();
    Prime83();
    Prime163();
    Prime317();
    Prime631();
    Prime1259();
    Prime2503();
    Prime4001();
    Prime7993();
    Prime15971();
    Prime31907();
    Prime46349();
    p := if q < 3 then 3 else if q < 5 then 5 else if q < 7 then 7 else if q < 13 then 13 else if q < 23 then 23
         else if q < 43 then 43 else if q < 83 then 83 else if q < 163 then 163 else if q < 317 then 317
         else if q < 631 then 631 else if q < 1259 then 1259 else if q < 2503 then 2503 else if q < 4001 then 4001
         else if q < 7993 then 7993 else if q < 15971 then 15971 else if q < 31907 then 31907 else 46349;
  }

  /** The prime before. */
  lemma {:induction false} PrimeBefore(p: nat, n: nat) returns (q: nat)
    requires 3 <= p && 2 <= n < p && forall r :: n < r < p ==> !Prime(r)
    ensures Prime(q) && q <= n && forall r :: q < r < p ==> !Prime(r)
    decreases n
  {
    hide Prime;
    if Prime(n) {
      q := n;
    } else {
      TwoIsPrime();
      q := PrimeBefore(p, n - 1);
    }
  }

  lemma TwoIsPrime()
    ensures Prime(2)
  {
  }
}
