/** The sieve that crosses out multiples from the square on, with the square taken in 32 bits as the source takes it. */
module EratosthenesSieve {
  import opened Division
  import opened Primes
  import EulerSieve

  /** The first prime that the sieve loses: the square of 92683 wraps around to it. */
  const FIRST_LOST: nat := 203897
  const CULPRIT: nat := 92683

  /** `i * i` in 32 bits. */
  function Start(i: nat): Word {
    i * i % WORD
  }

  /** What is crossed out once the primes below `i` have been used as they should be. */
  ghost predicate Crossed(c: nat, i: nat) {
    c < 2 || (!Prime(c) && Least(c) < i)
  }

  /** The inner loop for `i` passes through `c` before it gets to `j`. */
  ghost predicate Hit(c: nat, i: nat, j: nat) {
    i > 0 && Start(i) <= c < j && Divides(i, c - Start(i))
  }

  // ----- while squares fit

  lemma NotCrossed(i: nat)
    requires i >= 2
    ensures Crossed(i, i) <==> !Prime(i)
  {
    LeastIsPrime(i);
  }

  lemma SquareFits(i: nat)
    requires i < 0x1_0000
    ensures i * i < WORD && Start(i) == i * i
  {
    SquareGrows(i, 0xffff);
  }

  lemma HitIsMultiple(c: nat, i: nat, j: nat)
    requires 0 < i < 0x1_0000
    ensures Hit(c, i, j) <==> i * i <= c < j && Divides(i, c)
  {
    hide Divides;
    SquareFits(i);
    Multiple(i, i);
    if i * i <= c {
      if Divides(i, c) {
        DividesDifference(i, c, i * i);
      }
      if Divides(i, c - i * i) {
        DividesSum(i, c - i * i, i * i);
      }
    }
  }

  lemma DividesSum(d: nat, a: nat, b: nat)
    requires d > 0 && Divides(d, a) && Divides(d, b)
    ensures Divides(d, a + b)
  {
    Factor(d, a);
    Factor(d, b);
    assert a + b == (a / d + b / d) * d;
    Quotient(a + b, d, a / d + b / d, 0);
  }

  lemma MultipleCrossed(i: nat, c: nat, j: nat)
    requires Prime(i) && i < 0x1_0000 && c < j
    ensures Crossed(c, i + 1) <==> Crossed(c, i) || Hit(c, i, j)
  {
    hide Prime, Least, Divides, Hit;
    PrimeAtLeast(i);
    HitIsMultiple(c, i, j);
    if c >= 2 {
      if Hit(c, i, j) {
        HitIsComposite(c, i);
        NoLess(c, Least(c), i);
      }
      if !Prime(c) && Least(c) == i {
        LeastDivides(c);
        LeastSquare(c);
      }
    } else {
      Sign(i - 2, i);
    }
  }

  lemma HitIsComposite(c: nat, i: nat)
    requires i >= 2 && c >= 2 && i * i <= c && Divides(i, c)
    ensures !Prime(c)
  {
    Sign(i - 2, i);
    assert (i - 2) * i == i * i - 2 * i;
  }

  lemma CompositeCrossesNone(i: nat, c: nat)
    requires !Prime(i)
    ensures Crossed(c, i + 1) <==> Crossed(c, i)
  {
    if c >= 2 {
      LeastIsPrime(c);
    }
  }

  // ----- when squares wrap around

  /** Where squares lie, and so what is left of them. */
  lemma SquareBetween(i: nat, a: nat, b: nat, k: nat)
    requires a <= i <= b && k * WORD + FIRST_LOST <= a * a && b * b < (k + 1) * WORD
    ensures Start(i) >= FIRST_LOST
  {
    SquareGrows(a, i);
    SquareGrows(i, b);
    Quotient(i * i, WORD, k, i * i - k * WORD);
  }

  /** Up to the first lost prime, squares of odd numbers wrap around to small numbers twice only. */
  lemma SmallStarts(i: nat)
    requires 0x1_0001 <= i < FIRST_LOST && i % 2 == 1
    ensures Start(i) < FIRST_LOST ==> i == 0x1_0001 || i == 146543
  {
    if 65538 <= i <= 92681 {
      SquareBetween(i, 65538, 92681, 1);
    } else if 92683 <= i <= 113511 {
      SquareBetween(i, 92683, 113511, 2);
    } else if 113513 <= i <= 131071 {
      SquareBetween(i, 113513, 131071, 3);
    } else if 131073 <= i <= 146542 {
      SquareBetween(i, 131073, 146542, 4);
    } else if 146544 <= i <= 160529 {
      SquareBetween(i, 146544, 160529, 5);
    } else if 160531 <= i <= 173391 {
      SquareBetween(i, 160531, 173391, 6);
    } else if 173393 <= i <= 185363 {
      SquareBetween(i, 173393, 185363, 7);
    } else if 185365 <= i <= 196607 {
      SquareBetween(i, 185365, 196607, 8);
    } else if 196609 <= i {
      SquareBetween(i, 196609, 203896, 9);
    }
  }

  lemma OddPrime(i: nat)
    requires Prime(i) && i > 2
    ensures i % 2 == 1
  {
    assert !Divides(2, i);
  }

  /** What these two hit above themselves is composite anyway. */
  lemma WrappedHit(i: nat, c: nat, j: nat)
    requires Prime(i) && 0x1_0001 <= i < c < FIRST_LOST && Hit(c, i, j)
    ensures !Prime(c) && Least(c) < i
  {
    hide Prime, Least;
    OddPrime(i);
    SmallStarts(i);
    var k := (c - Start(i)) / i;
    Factor(i, c - Start(i));
    assert c == Start(i) + i * k;
    if i == 0x1_0001 {
      assert Start(i) == 131073;
      assert k < 2;
    } else {
      assert Start(i) == 14369;
      assert k < 2;
    }
    assert c == 131073 || c == 196610 || c == 160912;
    SmallFactor(c, if c == 131073 then 3 else 2);
  }

  lemma SmallFactor(c: nat, d: nat)
    requires 2 <= d < c && Divides(d, c)
    ensures !Prime(c) && Least(c) <= d
  {
    NoLess(c, Least(c), d);
  }

  lemma WrappedCrossed(i: nat, c: nat, j: nat)
    requires Prime(i) && 0x1_0001 <= i < c < FIRST_LOST && c < j
    ensures Crossed(c, i + 1) <==> Crossed(c, i) || Hit(c, i, j)
  {
    hide Prime, Least, Hit;
    if Hit(c, i, j) {
      WrappedHit(i, c, j);
    }
    if !Prime(c) {
      LeastSquare(c);
      if Least(c) >= i {
        SquareGrows(i, Least(c));
        SquareGrows(0x1_0001, i);
      }
    }
  }

  lemma NotSquareOfTwo()
    ensures !Prime(0x1_0000)
  {
    assert Divides(2, 0x1_0000);
  }

  /** Below the first lost prime every round is right, for the numbers still to come. */
  lemma RoundIsRight(i: nat, c: nat, j: nat)
    requires Prime(i) && i < c < FIRST_LOST && c < j
    ensures Crossed(c, i + 1) <==> Crossed(c, i) || Hit(c, i, j)
  {
    hide Prime, Crossed, Hit;
    NotSquareOfTwo();
    if i < 0x1_0000 {
      MultipleCrossed(i, c, j);
    } else {
      WrappedCrossed(i, c, j);
    }
  }

  // ----- the two numbers that matter

  lemma NoneBelow110()
    ensures forall d :: 2 <= d < 110 ==> !Divides(d, 203897)
  {
  }

  lemma NoneBelow220()
    ensures forall d :: 110 <= d < 220 ==> !Divides(d, 203897)
  {
  }

  lemma NoneBelow340()
    ensures forall d :: 220 <= d < 340 ==> !Divides(d, 203897)
  {
  }

  lemma NoneBelow452()
    ensures forall d :: 340 <= d < 452 ==> !Divides(d, 203897)
  {
  }

  lemma CulpritBelow110()
    ensures forall d :: 2 <= d < 110 ==> !Divides(d, 92683)
  {
  }

  lemma CulpritBelow220()
    ensures forall d :: 110 <= d < 220 ==> !Divides(d, 92683)
  {
  }

  lemma CulpritBelow305()
    ensures forall d :: 220 <= d < 305 ==> !Divides(d, 92683)
  {
  }

  lemma BothPrime()
    ensures Prime(FIRST_LOST) && Prime(CULPRIT)
  {
    hide Prime, Divides;
    NoneBelow110();
    NoneBelow220();
    NoneBelow340();
    NoneBelow452();
    CulpritBelow110();
    CulpritBelow220();
    CulpritBelow305();
    PrimeByTrial(FIRST_LOST, 452);
    PrimeByTrial(CULPRIT, 305);
  }

  lemma CulpritHits(j: nat)
    requires j > FIRST_LOST
    ensures Hit(FIRST_LOST, CULPRIT, j)
  {
    assert CULPRIT * CULPRIT == 2 * WORD + FIRST_LOST;
    Quotient(CULPRIT * CULPRIT, WORD, 2, FIRST_LOST);
  }

  // ----- the loops

  ghost predicate Cleared(before: seq<bool>, flags: seq<bool>, i: nat, j: nat) {
    |flags| == |before| && forall c: nat :: c < |flags| ==> (flags[c] <==> before[c] && !Hit(c, i, j))
  }

  lemma NextHit(i: nat, j: nat, c: nat)
    requires i > 0 && Start(i) <= j && Divides(i, j - Start(i))
    ensures Hit(c, i, j + i) <==> Hit(c, i, j) || c == j
  {
    var s := Start(i);
    if j < c < j + i && Divides(i, c - s) {
      Factor(i, j - s);
      Quotient(c - s, i, (j - s) / i, c - j);
    }
  }

  lemma ClearedOne(before: seq<bool>, flags: seq<bool>, i: nat, j: nat)
    requires Cleared(before, flags, i, j) && i > 0 && Start(i) <= j < |flags| && Divides(i, j - Start(i))
    ensures Cleared(before, flags[j := false], i, j + i) && Divides(i, j + i - Start(i))
  {
    hide Hit, Divides;
    forall c: nat | c < |flags|
      ensures flags[j := false][c] <==> before[c] && !Hit(c, i, j + i)
    {
      NextHit(i, j, c);
    }
    NextMultiple(i, j - Start(i));
  }

  lemma NextMultiple(i: nat, m: nat)
    requires i > 0 && Divides(i, m)
    ensures Divides(i, m + i)
  {
    Factor(i, m);
    Quotient(m + i, i, m / i + 1, 0);
  }

  lemma NothingCleared(flags: seq<bool>, i: nat)
    ensures Cleared(flags, flags, i, Start(i))
  {
  }

  lemma AllCleared(before: seq<bool>, flags: seq<bool>, i: nat, j: nat)
    requires Cleared(before, flags, i, j) && |flags| <= j
    ensures Cleared(before, flags, i, |flags|)
  {
  }

  // ----- when the inner loop ends

  /** Where the inner loop for `i` is after `n` steps. */
  function Visit(i: nat, n: nat): Word {
    (Start(i) + n * i) % WORD
  }

  lemma VisitNext(i: nat, n: nat)
    ensures Visit(i, 0) == Start(i) && Visit(i, n + 1) == (Visit(i, n) + i) % WORD
  {
    var a := Start(i) + n * i;
    assert (n + 1) * i == n * i + i;
    SumWraps(a, i);
  }

  lemma SumWraps(a: nat, i: nat)
    ensures (a + i) % WORD == (a % WORD + i) % WORD
  {
    var b := a % WORD + i;
    Quotient(a + i, WORD, a / WORD + b / WORD, b % WORD);
  }

  ghost function Power(k: nat): nat {
    if k == 0 then 1 else 2 * Power(k - 1)
  }

  lemma PowerIsWord()
    ensures Power(32) == WORD
  {
    assert Power(8) == 0x100;
    assert Power(16) == 0x1_0000;
    assert Power(24) == 0x100_0000;
  }

  /** Odd numbers have an inverse modulo any power of two. */
  lemma {:induction false} Inverse(i: nat, k: nat) returns (x: nat, m: int)
    requires i % 2 == 1
    ensures i * x == 1 + m * Power(k)
  {
    if k == 0 {
      x, m := 0, -1;
    } else {
      var x', m' := Inverse(i, k - 1);
      var p := Power(k - 1);
      if m' % 2 == 0 {
        x, m := x', m' / 2;
        Doubled(m, m', p);
      } else {
        x, m := x' + p, (m' + i) / 2;
        Doubled(m, m' + i, p);
        Spread(i, x', m', p);
      }
    }
  }

  lemma Doubled(m: int, a: int, p: nat)
    requires a == 2 * m
    ensures a * p == m * (2 * p)
  {
  }

  lemma Spread(i: nat, x: nat, m: int, p: nat)
    ensures i * (x + p) == i * x + i * p && (m + i) * p == m * p + i * p
  {
  }

  lemma Regrouped(i: nat, x: nat, d: nat, m: int)
    requires i * x == 1 + m * WORD
    ensures (x * d) * i == d + (d * m) * WORD
  {
    assert (x * d) * i == d * (i * x);
    assert d * (1 + m * WORD) == d + d * (m * WORD);
  }

  /** The steps of an odd number come to the greatest word. */
  lemma OddReaches(i: nat) returns (n: nat)
    requires i % 2 == 1
    ensures Visit(i, n) == WORD - 1
  {
    var x, m := Inverse(i, 32);
    PowerIsWord();
    var d := WORD - 1 - Start(i);
    Sign(x, d);
    n := x * d;
    Regrouped(i, x, d, m);
    Quotient(Start(i) + n * i, WORD, d * m, WORD - 1);
  }

  lemma TwoReaches()
    ensures Visit(2, 0x7fff_fffd) == WORD - 2
  {
  }

  /** The steps of two come to even numbers only. */
  lemma TwoStaysEven(n: nat)
    ensures Visit(2, n) % 2 == 0
  {
    var a := 4 + n * 2;
    assert a % WORD == a - WORD * (a / WORD);
  }

  ghost predicate Ends(i: nat, limit: nat) {
    exists n: nat :: Visit(i, n) > limit
  }

  /** The inner loop for an odd number ends unless the limit is the greatest word; the one for two, which comes first, goes on
      forever at the greatest even word as well. */
  lemma InnerEndsIff(i: nat, limit: Word)
    requires i % 2 == 1 || i == 2
    ensures Ends(i, limit) <==> if i == 2 then limit < WORD - 2 else limit < WORD - 1
  {
    hide Visit;
    if i == 2 {
      TwoReaches();
      assert limit < WORD - 2 ==> Visit(2, 0x7fff_fffd) > limit;
      forall n: nat
        ensures Visit(2, n) <= WORD - 2
      {
        TwoStaysEven(n);
      }
    } else {
      var n := OddReaches(i);
      assert limit < WORD - 1 ==> Visit(i, n) > limit;
    }
  }

  /** Nothing is marked again, and the first number visited is not marked any more. */
  ghost predicate Lessened(before: seq<bool>, flags: seq<bool>) {
    |flags| == |before| && forall c: nat :: c < |flags| && flags[c] ==> before[c]
  }

  lemma LessenedSelf(flags: seq<bool>)
    ensures Lessened(flags, flags)
  {
  }

  lemma LessenedOne(before: seq<bool>, flags: seq<bool>, j: nat)
    requires Lessened(before, flags) && j < |flags|
    ensures Lessened(before, flags[j := false])
  {
  }

  lemma EndOf(i: Word, limit: Word) returns (n: nat)
    requires (i % 2 == 1 || i == 2) && limit < WORD - 2
    ensures Visit(i, n) > limit
  {
    hide Visit;
    InnerEndsIff(i, limit);
    n :| Visit(i, n) > limit;
  }

  /** The steps do not wrap around. */
  predicate Straight(i: nat, limit: nat) {
    limit < 0x8000_0000 || i == 2
  }

  lemma StraightStep(i: Word, j: Word, limit: nat)
    requires 2 <= i <= limit < WORD - 2 && Straight(i, limit) && j <= limit && Start(i) <= j && Divides(i, j - Start(i))
    ensures j + i < WORD
  {
    if i == 2 {
      assert j % 2 == 0;
    }
  }

  /** The inner loop, with every sum and product taken in 32 bits. */
  method CrossOut(flags: array<bool>, i: Word, limit: nat)
    requires 2 <= i <= limit < WORD - 2 && flags.Length == limit + 1 && (i % 2 == 1 || i == 2)
    modifies flags
    ensures Lessened(old(flags[..]), flags[..]) && (Start(i) <= limit ==> !flags[Start(i)])
    ensures Straight(i, limit) ==> Cleared(old(flags[..]), flags[..], i, limit + 1)
  {
    hide Cleared, Divides, Start, Visit, Straight, Lessened;
    ghost var end := EndOf(i, limit);
    LessenedSelf(flags[..]);
    ghost var n: nat := 0;
    var j: Word := i * i % WORD;
    StartIs(i, j);
    VisitNext(i, 0);
    NothingCleared(flags[..], i);
    while j <= limit
      invariant n <= end && j == Visit(i, n) && Lessened(old(flags[..]), flags[..])
      invariant n > 0 && Start(i) <= limit ==> !flags[Start(i)]
      invariant Straight(i, limit) ==> Start(i) <= j && Divides(i, j - Start(i)) && Cleared(old(flags[..]), flags[..], i, j)
      decreases end - n
    {
      if Straight(i, limit) {
        ClearedOne(old(flags[..]), flags[..], i, j);
        StraightStep(i, j, limit);
      }
      VisitNext(i, n);
      ghost var was := flags[..];
      LessenedOne(old(flags[..]), was, j);
      flags[j] := false;
      assert flags[..] == was[j := false];
      j := (j + i) % WORD;
      n := n + 1;
    }
    if Straight(i, limit) {
      AllCleared(old(flags[..]), flags[..], i, j);
    }
  }

  lemma StartIs(i: nat, j: nat)
    requires i > 0 && j == i * i % WORD
    ensures Start(i) == j && Divides(i, j - Start(i))
  {
  }

  /** The flags from `i` up to `top` are as they should be. */
  ghost predicate Right(flags: seq<bool>, i: nat, top: nat) {
    forall c: nat :: i <= c <= top && c < |flags| ==> (flags[c] <==> !Crossed(c, i))
  }

  function Top(limit: nat): nat {
    if limit < FIRST_LOST then limit else FIRST_LOST - 1
  }

  /** Up to the first lost prime all is right; once the culprit has been used, the prime is lost for good. */
  ghost predicate Sieving(flags: seq<bool>, storage: seq<nat>, i: nat, limit: nat) {
    && i >= 1 && |flags| == limit + 1 && Right(flags, i, Top(limit))
    && (i <= Top(limit) + 1 ==> storage == PrimesUpTo(i - 1))
    && (CULPRIT < i && FIRST_LOST <= limit ==> !flags[FIRST_LOST] && FIRST_LOST !in storage)
  }

  lemma SievingStarts(flags: seq<bool>, limit: nat)
    requires |flags| == limit + 1 && limit >= 1 && forall c :: 0 <= c <= limit ==> flags[c] == (c >= 2)
    ensures Sieving(flags, [], 2, limit)
  {
    forall c: nat
      ensures Crossed(c, 2) <==> c < 2
    {
    }
  }

  lemma FlagIsPrime(flags: seq<bool>, storage: seq<nat>, i: nat, limit: nat)
    requires Sieving(flags, storage, i, limit) && 2 <= i <= Top(limit)
    ensures flags[i] <==> Prime(i)
  {
    hide Prime, Crossed;
    NotCrossed(i);
  }

  lemma RightStays(flags: seq<bool>, flags': seq<bool>, storage: seq<nat>, i: nat, limit: nat)
    requires Sieving(flags, storage, i, limit) && 2 <= i <= limit && flags[i] && Cleared(flags, flags', i, limit + 1)
    ensures Right(flags', i + 1, Top(limit))
  {
    hide Prime, Crossed, Hit, PrimesUpTo;
    if i <= Top(limit) {
      FlagIsPrime(flags, storage, i, limit);
      forall c: nat | i + 1 <= c <= Top(limit)
        ensures flags'[c] <==> !Crossed(c, i + 1)
      {
        RoundIsRight(i, c, limit + 1);
      }
    }
  }

  /** A round for a number that is still marked. */
  lemma SievingKeeps(flags: seq<bool>, flags': seq<bool>, storage: seq<nat>, i: nat, limit: nat)
    requires Sieving(flags, storage, i, limit) && 2 <= i <= limit && flags[i] && Cleared(flags, flags', i, limit + 1)
    ensures Sieving(flags', storage + [i], i + 1, limit)
  {
    hide Prime, Crossed, Hit, Right;
    RightStays(flags, flags', storage, i, limit);
    if i <= Top(limit) {
      assert Right(flags, i, Top(limit));
      FlagIsPrime(flags, storage, i, limit);
    }
    if CULPRIT <= i && FIRST_LOST <= limit {
      CulpritHits(limit + 1);
      if i == CULPRIT {
        PrimesAre(i - 1);
      }
    }
  }

  /** A round for a number that is not. */
  lemma SievingSkips(flags: seq<bool>, storage: seq<nat>, i: nat, limit: nat)
    requires Sieving(flags, storage, i, limit) && 2 <= i <= limit && !flags[i]
    ensures Sieving(flags, storage, i + 1, limit)
  {
    hide Prime, Crossed;
    if i <= Top(limit) {
      FlagIsPrime(flags, storage, i, limit);
      BothPrime();
      forall c: nat
        ensures Crossed(c, i + 1) <==> Crossed(c, i)
      {
        CompositeCrossesNone(i, c);
      }
    }
  }

  // ----- limits of 32 bits

  /** Even numbers are crossed out first; and once the culprit has been passed, it is missing or the prime is lost for good. */
  ghost predicate Losing(flags: seq<bool>, storage: seq<nat>, i: nat, limit: nat) {
    && |flags| == limit + 1
    && (forall c: nat :: i > 2 && 2 < c < |flags| && c % 2 == 0 ==> !flags[c])
    && (forall p: nat :: p in storage ==> p < i)
    && (CULPRIT < i && FIRST_LOST <= limit ==> CULPRIT !in storage || (!flags[FIRST_LOST] && FIRST_LOST !in storage))
  }

  lemma EvensCleared(flags: seq<bool>, flags': seq<bool>, limit: nat)
    requires |flags| == limit + 1 && Cleared(flags, flags', 2, limit + 1)
    ensures |flags'| == limit + 1 && forall c: nat :: 2 < c < |flags'| && c % 2 == 0 ==> !flags'[c]
  {
  }

  lemma LosingKeeps(flags: seq<bool>, flags': seq<bool>, storage: seq<nat>, i: nat, limit: nat)
    requires Losing(flags, storage, i, limit) && 2 <= i <= limit && flags[i] && Lessened(flags, flags')
    requires i == 2 ==> Cleared(flags, flags', i, limit + 1)
    requires Start(i) <= limit ==> !flags'[Start(i)]
    ensures Losing(flags', storage + [i], i + 1, limit)
  {
    hide Cleared;
    if i == 2 {
      EvensCleared(flags, flags', limit);
    }
    assert Start(CULPRIT) == FIRST_LOST;
    assert i == CULPRIT ==> FIRST_LOST !in storage;
  }

  lemma LosingSkips(flags: seq<bool>, storage: seq<nat>, i: nat, limit: nat)
    requires Losing(flags, storage, i, limit) && 2 < i <= limit && !flags[i]
    ensures Losing(flags, storage, i + 1, limit)
  {
    assert CULPRIT in storage ==> CULPRIT < i;
  }

  /** The primes up to the limit in order, exactly for limits below the first lost prime. For other limits the first loop does
      not end. */
  method Eratosthenes(limit: nat) returns (storage: seq<nat>)
    requires 1 <= limit < WORD - 2
    ensures storage == PrimesUpTo(limit) <==> limit < FIRST_LOST
    ensures FIRST_LOST <= limit ==> CULPRIT !in storage || FIRST_LOST !in storage
    ensures FIRST_LOST <= limit < 0x8000_0000 ==> FIRST_LOST !in storage
  {
    hide Sieving, Cleared, Prime, PrimesUpTo, Start, Lessened;
    storage := [];
    var isPrime := EulerSieve.FreshFlags(limit);
    SievingStarts(isPrime[..], limit);
    var i: Word := 2;
    while i <= limit
      invariant 2 <= i <= limit + 1 && fresh(isPrime) && isPrime.Length == limit + 1
      invariant limit < 0x8000_0000 ==> Sieving(isPrime[..], storage, i, limit)
      invariant Losing(isPrime[..], storage, i, limit) && (i == 2 <= limit ==> isPrime[2])
    {
      ghost var was := isPrime[..];
      if isPrime[i] {
        CrossOut(isPrime, i, limit);
        LosingKeeps(was, isPrime[..], storage, i, limit);
        if limit < 0x8000_0000 {
          SievingKeeps(was, isPrime[..], storage, i, limit);
        }
        storage := storage + [i];
      } else {
        LosingSkips(was, storage, i, limit);
        if limit < 0x8000_0000 {
          SievingSkips(was, storage, i, limit);
        }
      }
      i := i + 1;
    }
    if limit < 0x8000_0000 {
      SievingEnds(isPrime[..], storage, limit);
    } else {
      OneIsLost(isPrime[..], storage, limit);
    }
  }

  lemma OneIsLost(flags: seq<bool>, storage: seq<nat>, limit: nat)
    requires Losing(flags, storage, limit + 1, limit) && limit >= FIRST_LOST
    ensures storage != PrimesUpTo(limit) && (CULPRIT !in storage || FIRST_LOST !in storage)
  {
    hide Prime, PrimesUpTo;
    PrimesAre(limit);
    BothPrime();
  }

  lemma SievingEnds(flags: seq<bool>, storage: seq<nat>, limit: nat)
    requires Sieving(flags, storage, limit + 1, limit)
    ensures storage == PrimesUpTo(limit) <==> limit < FIRST_LOST
    ensures limit >= FIRST_LOST ==> FIRST_LOST !in storage
  {
    hide Prime, PrimesUpTo;
    if limit >= FIRST_LOST {
      PrimesAre(limit);
      BothPrime();
    }
  }

  /** Both sieves agree exactly for limits below the first prime that this one loses. */
  method BothSieves(limit: nat) returns (a: seq<nat>, b: seq<nat>)
    requires 1 <= limit < 0x8000_0000
    ensures a == b <==> limit < FIRST_LOST
    ensures Increasing(b) && forall p: nat :: p in b <==> Prime(p) && p <= limit
  {
    hide Prime, PrimesUpTo, EulerSieve.NoWrap, Increasing, EulerSieve.Composite;
    PrimesAre(limit);
    EulerSieve.NoWrapIff(limit);
    a := Eratosthenes(limit);
    ghost var struck;
    b, struck := EulerSieve.Euler(limit);
  }
}
