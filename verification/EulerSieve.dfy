/** The sieve that crosses out every composite once. */
module EulerSieve {
  import opened Division
  import opened Primes

  /** What is crossed out when all numbers below `i`, and `i` with the primes below `b`, have been multiplied: a composite
      falls when the multiplier is the composite divided by its least factor. */
  ghost predicate Struck(c: nat, i: nat, b: nat) {
    c >= 2 && !Prime(c) && (c / Least(c) < i || (c / Least(c) == i && Least(c) < b))
  }

  ghost predicate Striking(flags: seq<bool>, struck: multiset<nat>, i: nat, b: nat) {
    forall c: nat :: StruckAs(flags, struck, c, Struck(c, i, b))
  }

  /** Struck numbers are marked, and have been marked exactly once. */
  ghost predicate StruckAs(flags: seq<bool>, struck: multiset<nat>, c: nat, gone: bool) {
    if c < |flags| then (flags[c] <==> c >= 2 && !gone) && struck[c] == (if gone then 1 else 0)
    else struck[c] == 0
  }

  lemma NotStruck(i: nat)
    requires i >= 2
    ensures Struck(i, i, 2) <==> !Prime(i)
  {
    hide Prime, Least;
    if !Prime(i) {
      Split(i, Least(i), i / Least(i));
    }
  }

  /** No prime lies between. */
  ghost predicate NextPrime(b: nat, p: nat) {
    Prime(p) && b <= p && forall q :: b <= q < p ==> !Prime(q)
  }

  /** Multiplying by the next prime strikes just the product, for the first time. */
  lemma Strikes(i: nat, b: nat, p: nat, c: nat)
    requires i >= 2 && NextPrime(b, p) && p <= Least(i)
    ensures Struck(c, i, p + 1) <==> Struck(c, i, b) || c == i * p
    ensures !Struck(i * p, i, b)
  {
    hide Prime, Least, Divides;
    LeastOfProduct(i, p);
    Multiple(p, i);
    assert i * p == p * i;
    ProductIsComposite(i, p);
    if c >= 2 && !Prime(c) && c / Least(c) == i {
      Split(c, Least(c), i);
      assert Prime(Least(c));
    }
  }

  lemma ProductIsComposite(i: nat, p: nat)
    requires i >= 2 && p >= 2 && Prime(p)
    ensures i * p >= 2 && !Prime(i * p)
  {
    hide Divides;
    Multiple(p, i);
    Sign(i - 2, p);
    assert p * i == i * p == 2 * p + (i - 2) * p;
    assert Divides(p, i * p) && 2 <= p < i * p;
  }

  /** The inner loop has done all it has to: the last prime divides `i`, or the products are beyond the limit. */
  ghost predicate Finished(i: nat, b: nat, limit: nat)
    requires i >= 2
  {
    Least(i) < b || forall p: nat :: Prime(p) && b <= p <= Least(i) ==> i * p > limit
  }

  lemma AllStruck(i: nat, b: nat, limit: nat, c: nat)
    requires i >= 2 && b >= 2 && c <= limit && Finished(i, b, limit)
    ensures Struck(c, i, b) <==> Struck(c, i + 1, 2)
  {
    hide Prime, Divides, Least;
    if c >= 2 && !Prime(c) && c / Least(c) == i {
      Split(c, Least(c), i);
      assert c == i * Least(c);
    }
  }

  lemma Beyond(i: nat, limit: nat, p: nat, q: nat)
    requires i * p > limit && p <= q
    ensures i * q > limit
  {
    Sign(q - p, i);
    assert i * q == i * p + (q - p) * i;
  }

  method StrikeOne(flags: array<bool>, ghost struck: multiset<nat>, ghost i: nat, ghost p: nat, composite: nat, ghost b: nat)
    returns (ghost struck': multiset<nat>)
    requires i >= 2 && NextPrime(b, p) && p <= Least(i) && composite == i * p < flags.Length
    requires Striking(flags[..], struck, i, b)
    modifies flags
    ensures struck' == struck + multiset{i * p} && Striking(flags[..], struck', i, p + 1)
  {
    hide Prime, Least, Struck, NextPrime;
    StrikesSequence(flags[..], struck, i, p, composite, b);
    flags[composite] := false;
    struck' := struck + multiset{composite};
    assert flags[..] == old(flags[..])[composite := false];
  }

  lemma StrikesSequence(flags: seq<bool>, struck: multiset<nat>, i: nat, p: nat, x: nat, b: nat)
    requires i >= 2 && NextPrime(b, p) && p <= Least(i) && x == i * p < |flags| && Striking(flags, struck, i, b)
    ensures Striking(flags[x := false], struck + multiset{x}, i, p + 1)
  {
    hide Prime, Least, Struck, NextPrime;
    var flags', struck', b' := flags[x := false], struck + multiset{x}, p + 1;
    forall c: nat
      ensures StruckAs(flags', struck', c, Struck(c, i, b'))
    {
      Strikes(i, b, p, c);
      assert StruckAs(flags, struck, c, Struck(c, i, b));
    }
  }

  /** The primes at hand when `i` is multiplied, and where the next one stands. */
  lemma NextInStorage(storage: seq<nat>, i: nat, j: nat, b: nat)
    requires i >= 2 && storage == PrimesUpTo(i) && j < |storage| && b == (if j == 0 then 2 else storage[j - 1] + 1)
    requires Least(i) >= b
    ensures NextPrime(b, storage[j]) && storage[j] <= Least(i) <= i && storage[j] <= i
  {
    hide Prime, Least, Divides, PrimesUpTo;
    PrimesAre(i);
    LeastIsPrime(i);
    assert storage[j] in storage;
    forall k | 0 <= k < |storage|
      ensures !(b <= storage[k] < storage[j])
    {
      assert k < j - 1 ==> storage[k] < storage[j - 1];
    }
    var k :| 0 <= k < |storage| && storage[k] == Least(i);
    assert k >= j;
    forall q | Prime(q)
      ensures q >= 2
    {
      PrimeAtLeast(q);
    }
  }

  lemma LoopDone(storage: seq<nat>, i: nat, j: nat, b: nat, limit: nat)
    requires i >= 2 && storage == PrimesUpTo(i) && j <= |storage| && b == (if j == 0 then 2 else storage[j - 1] + 1)
    requires Least(i) >= b && (j < |storage| ==> i * storage[j] > limit)
    ensures Finished(i, b, limit)
  {
    hide Prime, Least, Divides, PrimesUpTo;
    if j < |storage| {
      NextInStorage(storage, i, j, b);
      forall p: nat | Prime(p) && b <= p <= Least(i)
        ensures i * p > limit
      {
        Beyond(i, limit, storage[j], p);
      }
    } else {
      PrimesAre(i);
      LeastIsPrime(i);
      forall k | 0 <= k < |storage|
        ensures storage[k] < b
      {
        assert k < j - 1 ==> storage[k] < storage[j - 1];
      }
    }
  }

  lemma BreakDone(i: nat, p: nat, limit: nat)
    requires i >= 2 && p >= 2 && i % p == 0
    ensures Finished(i, p + 1, limit)
  {
    NoLess(i, Least(i), p);
  }

  lemma NoBreak(i: nat, p: nat)
    requires i >= 2 && p >= 2 && i % p != 0 && p <= Least(i)
    ensures p < Least(i)
  {
    LeastDivides(i);
  }

  // ----- the products that the inner loop forms

  /** The guard multiplies `i` by `p`: the primes before `p` neither divide `i` nor lead beyond the limit. */
  ghost predicate Formed(i: nat, p: nat, limit: nat) {
    2 <= i <= limit && Prime(p) && p <= Least(i) && Within(i, p, limit)
  }

  ghost predicate Within(i: nat, b: nat, limit: nat) {
    forall q: nat :: Prime(q) && q < b ==> i * q <= limit
  }

  ghost predicate NoWrap(limit: nat) {
    forall i: nat, p: nat :: Formed(i, p, limit) ==> i * p < WORD
  }

  /** No product wraps around exactly for limits of 31 bits. */
  lemma NoWrapIff(limit: nat)
    ensures NoWrap(limit) <==> limit < 0x8000_0000
  {
    hide Formed;
    if limit < 0x8000_0000 {
      forall i: nat, p: nat | Formed(i, p, limit)
        ensures i * p < WORD
      {
        FormedFits(i, p, limit);
      }
    } else {
      FormsDouble(limit);
      assert !(0x8000_0000 * 2 < WORD);
    }
  }

  lemma FormsDouble(limit: nat)
    requires limit >= 0x8000_0000
    ensures Formed(0x8000_0000, 2, limit)
  {
    hide Least;
    TwoIsPrime();
    LeastDivides(0x8000_0000);
    WithinStarts(0x8000_0000, limit);
  }

  /** The next prime is less than double the one before, which led no further than the limit. */
  lemma FormedFits(i: nat, p: nat, limit: nat)
    requires limit < 0x8000_0000 && Formed(i, p, limit)
    ensures i * p < WORD
  {
    hide Prime, Least;
    PrimeAtLeast(p);
    if p > 2 {
      var q := PrimeBefore(p, p - 1);
      PrimeAtLeast(q);
      assert i * q <= limit;
      LeastDivides(i);
      RootFits(i, q, limit);
      var r := PrimeBelowDouble(q);
      assert p <= r;
      Doubled(i, p, q, limit);
    }
  }

  lemma RootFits(i: nat, q: nat, limit: nat)
    requires q < i && i * q <= limit < 0x8000_0000
    ensures q < 46341
  {
    Sign(i - q, q);
    assert (i - q) * q == i * q - q * q;
    Sign(q - 46341, q + 46341);
    assert (q - 46341) * (q + 46341) == q * q - 46341 * 46341;
  }

  lemma Doubled(i: nat, p: nat, q: nat, limit: nat)
    requires i * q <= limit < 0x8000_0000 && p <= 2 * q
    ensures i * p < WORD
  {
    Sign(2 * q - p, i);
    assert (2 * q - p) * i == 2 * (i * q) - i * p;
  }

  lemma WithinStarts(i: nat, limit: nat)
    ensures Within(i, 2, limit)
  {
    forall q: nat
      ensures Prime(q) ==> q >= 2
    {
      PrimeAtLeast(q);
    }
  }

  lemma WithinGrows(i: nat, b: nat, p: nat, limit: nat)
    requires Within(i, b, limit) && NextPrime(b, p) && i * p <= limit
    ensures Within(i, p + 1, limit)
  {
    hide Prime;
  }

  lemma IsFormed(i: nat, b: nat, p: nat, limit: nat)
    requires 2 <= i <= limit && Within(i, b, limit) && NextPrime(b, p) && p <= Least(i)
    ensures Formed(i, p, limit)
  {
    hide Prime;
  }

  /** The inner loop. */
  method Strike(flags: array<bool>, ghost struck: multiset<nat>, i: nat, limit: nat, storage: seq<nat>)
    returns (ghost struck': multiset<nat>)
    requires 2 <= i <= limit && NoWrap(limit) && flags.Length == limit + 1
    requires storage == PrimesUpTo(i) && Striking(flags[..], struck, i, 2)
    modifies flags
    ensures Striking(flags[..], struck', i + 1, 2)
  {
    hide Prime, Struck, NextPrime, PrimesUpTo, Divides, Striking, Finished, Least, Formed, Within;
    struck' := struck;
    var j := 1;
    ghost var b := 2;
    WithinStarts(i, limit);
    while j <= |storage|
      invariant 1 <= j <= |storage| + 1 && b >= 2 && Striking(flags[..], struck', i, b) && Within(i, b, limit)
      invariant Least(i) >= b && b == if j == 1 then 2 else storage[j - 2] + 1
    {
      NextInStorage(storage, i, j - 1, b);
      NextAtLeast(b, storage[j - 1]);
      IsFormed(i, b, storage[j - 1], limit);
      var composite: Word := i * storage[j - 1];
      if composite > limit {
        break;
      }
      struck' := StrikeOne(flags, struck', i, storage[j - 1], composite, b);
      WithinGrows(i, b, storage[j - 1], limit);
      b := storage[j - 1] + 1;
      if i % storage[j - 1] == 0 {
        BreakDone(i, storage[j - 1], limit);
        FinishStriking(flags[..], struck', i, b, limit);
        return;
      }
      NoBreak(i, storage[j - 1]);
      j := j + 1;
    }
    LoopDone(storage, i, j - 1, b, limit);
    FinishStriking(flags[..], struck', i, b, limit);
  }

  lemma NextAtLeast(b: nat, p: nat)
    requires NextPrime(b, p)
    ensures p >= 2 && p >= b
  {
  }

  lemma FinishStriking(flags: seq<bool>, struck: multiset<nat>, i: nat, b: nat, limit: nat)
    requires i >= 2 && b >= 2 && Finished(i, b, limit) && |flags| == limit + 1 && Striking(flags, struck, i, b)
    ensures Striking(flags, struck, i + 1, 2)
  {
    hide Struck, Finished;
    var i' := i + 1;
    forall c: nat
      ensures StruckAs(flags, struck, c, Struck(c, i', 2))
    {
      assert StruckAs(flags, struck, c, Struck(c, i, b));
      if c <= limit {
        AllStruck(i, b, limit, c);
      }
    }
  }

  ghost predicate Composite(c: nat) {
    c >= 2 && !Prime(c)
  }

  /** All flags set except the first two. */
  method FreshFlags(limit: nat) returns (flags: array<bool>)
    requires limit >= 1
    ensures fresh(flags) && flags.Length == limit + 1 && forall c :: 0 <= c <= limit ==> flags[c] == (c >= 2)
  {
    flags := new bool[limit + 1](_ => true);
    flags[0] := false;
    flags[1] := false;
  }

  /** The primes up to the limit in order; and each composite is marked once, and nothing else is. */
  method Euler(limit: nat) returns (storage: seq<nat>, ghost struck: multiset<nat>)
    requires 1 <= limit && NoWrap(limit)
    ensures storage == PrimesUpTo(limit)
    ensures forall c: nat :: struck[c] == if c <= limit && Composite(c) then 1 else 0
  {
    hide Struck, Prime, StruckAs, NoWrap;
    storage, struck := [], multiset{};
    var isPrime := FreshFlags(limit);
    FirstStriking(isPrime[..]);
    var i: nat := 2;
    while i <= limit
      invariant 2 <= i <= limit + 1 && storage == PrimesUpTo(i - 1)
      invariant isPrime.Length == limit + 1 && fresh(isPrime) && Striking(isPrime[..], struck, i, 2)
    {
      FlagOf(isPrime[..], struck, i);
      if isPrime[i] {
        storage := storage + [i];
      }
      struck := Strike(isPrime, struck, i, limit, storage);
      i := i + 1;
    }
    LastStriking(isPrime[..], struck, limit);
  }

  lemma FirstStriking(flags: seq<bool>)
    requires forall c :: 0 <= c < |flags| ==> flags[c] == (c >= 2)
    ensures Striking(flags, multiset{}, 2, 2)
  {
    forall c: nat
      ensures StruckAs(flags, multiset{}, c, Struck(c, 2, 2))
    {
      NoneStruck(c);
    }
  }

  lemma NoneStruck(c: nat)
    ensures !Struck(c, 2, 2)
  {
    hide Prime, Least;
    if c >= 2 && !Prime(c) {
      Split(c, Least(c), c / Least(c));
    }
  }

  lemma FlagOf(flags: seq<bool>, struck: multiset<nat>, i: nat)
    requires 2 <= i < |flags| && Striking(flags, struck, i, 2)
    ensures flags[i] <==> Prime(i)
  {
    hide Struck;
    assert StruckAs(flags, struck, i, Struck(i, i, 2));
    NotStruck(i);
  }

  lemma LastStriking(flags: seq<bool>, struck: multiset<nat>, limit: nat)
    requires |flags| == limit + 1 && Striking(flags, struck, limit + 1, 2)
    ensures forall c: nat :: struck[c] == if c <= limit && Composite(c) then 1 else 0
  {
    hide Struck;
    forall c: nat
      ensures struck[c] == if c <= limit && Composite(c) then 1 else 0
    {
      assert StruckAs(flags, struck, c, Struck(c, limit + 1, 2));
      if c <= limit {
        EndStruck(c, limit);
      }
    }
  }

  lemma EndStruck(c: nat, limit: nat)
    requires c <= limit
    ensures Struck(c, limit + 1, 2) <==> Composite(c)
  {
    hide Prime, Least;
    if c >= 2 && !Prime(c) {
      Split(c, Least(c), c / Least(c));
    }
  }
}
