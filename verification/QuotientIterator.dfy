/** Iterating over a quotient filter and merging filters. */
module QuotientIterator {
  import opened Words
  import opened RingLayout
  import opened RingUpdate
  import opened SlotBits
  import opened QuotientFilter

  /** The fingerprints in the first `step` slots from slot `begin` on. */
  ghost function Passed(c: seq<Cell>, begin: nat, step: nat): set<(nat, nat)>
    requires begin < |c|
  {
    set s: nat | s < |c| && c[s].Entry? && Ahead(begin, s, |c|) < step :: (c[s].quot, c[s].rem)
  }

  lemma PassedStep(c: seq<Cell>, begin: nat, step: nat)
    requires LayoutOk(c) && begin < |c| && step < |c|
    ensures var x := c[Wrap(begin + step, |c|)];
            if x.Entry? then (x.quot, x.rem) !in Passed(c, begin, step)
                             && (x.quot, x.rem) in Contents(c)
                             && Passed(c, begin, step + 1) == Passed(c, begin, step) + {(x.quot, x.rem)}
            else Passed(c, begin, step + 1) == Passed(c, begin, step)
  {
    var i := Wrap(begin + step, |c|);
    assert Ahead(begin, i, |c|) == step;
    if c[i].Entry? {
      if (c[i].quot, c[i].rem) in Passed(c, begin, step) {
        var s: nat :| s < |c| && c[s].Entry? && Ahead(begin, s, |c|) < step && (c[s].quot, c[s].rem) == (c[i].quot, c[i].rem);
        EntriesDiffer(c, s, i);
      }
    }
    forall s: nat | s < |c| && Ahead(begin, s, |c|) < step + 1 && c[s].Entry?
      ensures s == i || Ahead(begin, s, |c|) < step
    {
    }
  }

  lemma PassedAll(c: seq<Cell>, begin: nat)
    requires begin < |c|
    ensures Passed(c, begin, 0) == {}
    ensures Passed(c, begin, |c|) == Contents(c)
  {
    forall s: nat | s < |c| && c[s].Entry?
      ensures (c[s].quot, c[s].rem) in Passed(c, begin, |c|)
    {
      assert Ahead(begin, s, |c|) < |c|;
    }
  }

  lemma PassedSubset(c: seq<Cell>, begin: nat, step: nat)
    requires begin < |c|
    ensures Passed(c, begin, step) <= Contents(c)
  {
  }

  class Iterator {
    var index: nat
    var quotient: nat
    var visited: nat
    ghost var begin: nat
    ghost var step: nat

    constructor ()
      ensures index == quotient == visited == 0
    {
      index, quotient, visited := 0, 0, 0;
      begin, step := 0, 0;
    }

    /** The fingerprints this iterator has yielded. */
    ghost function Yielded(c: seq<Cell>): set<(nat, nat)>
      requires begin < |c|
      reads this
    {
      Passed(c, begin, step)
    }

    ghost predicate On(c: seq<Cell>)
      reads this
    {
      Standing(c, begin, step, index, visited, quotient)
    }
  }

  /** An iterator stands `step` slots after a cluster start and knows the quotient of the entry behind it. */
  ghost predicate Standing(c: seq<Cell>, begin: nat, step: nat, index: nat, visited: nat, quotient: nat) {
    && LayoutOk(c) && begin < |c| && step <= |c|
    && index == Wrap(begin + step, |c|)
    && visited == |Passed(c, begin, step)|
    && (Contents(c) != {} ==> c[begin].Entry? && Disp(c, begin) == 0)
    && (step > 0 && c[Prev(index, |c|)].Entry? ==> quotient == c[Prev(index, |c|)].quot)
  }

  lemma StandingStep(c: seq<Cell>, begin: nat, step: nat, index: nat, visited: nat, quotient: nat, updated: nat)
    requires Standing(c, begin, step, index, visited, quotient) && step < |c|
    requires c[index].Entry? ==> updated == c[index].quot
    ensures Standing(c, begin, step + 1, RingLayout.Next(index, |c|), visited + (if c[index].Entry? then 1 else 0), updated)
    ensures c[index].Entry? ==>
              var x := (c[index].quot, c[index].rem);
              x in Contents(c) - Passed(c, begin, step) && Passed(c, begin, step + 1) == Passed(c, begin, step) + {x}
    ensures c[index].Vacant? ==> Passed(c, begin, step + 1) == Passed(c, begin, step)
  {
    PassedStep(c, begin, step);
  }

  /** The hash that has a given quotient and remainder. */
  function HashOf(q: nat, r: nat, rBits: nat): (h: Word)
    requires q < MODULUS && r < MODULUS
  {
    WordOr(Shl(q, rBits), r)
  }

  lemma HashOfBit(q: nat, r: nat, rBits: nat, k: nat)
    requires q < MODULUS && r < Pow2(rBits) && rBits < 64 && r < MODULUS && k < 64
    ensures Bit(HashOf(q, r, rBits), k) == if k < rBits then Bit(r, k) else Bit(q, k - rBits)
  {
    BitOr(Shl(q, rBits), r, k);
    BitShl(q, rBits, k);
    if rBits <= k {
      HighBitsClear(r, rBits, k);
    }
  }

  /** Splitting the rebuilt hash gives back the quotient and the remainder. */
  lemma HashRoundTrip(f: Quotient, q: nat, r: nat)
    requires f.Sized() && q < Pow2(f.qBits) && r < Pow2(f.rBits)
    ensures q < MODULUS && r < MODULUS
    ensures f.HashToQuotient(HashOf(q, r, f.rBits)) == q
    ensures f.HashToRemainder(HashOf(q, r, f.rBits)) == r
  {
    Pow2Is64();
    Pow2Monotone(f.qBits, 64);
    Pow2Monotone(f.rBits, 64);
    var h := HashOf(q, r, f.rBits);
    forall k: nat | k < f.rBits
      ensures Bit(f.HashToRemainder(h), k) == Bit(r, k)
    {
      HashOfBit(q, r, f.rBits, k);
      BitAnd(h, LowMask(f.rBits), k);
      BitLowMask(f.rBits, k);
    }
    SameBits(f.HashToRemainder(h), r, f.rBits);
    forall k: nat | k < f.qBits
      ensures Bit(f.HashToQuotient(h), k) == Bit(q, k)
    {
      HashOfBit(q, r, f.rBits, k + f.rBits);
      BitShr(h, f.rBits, k);
      BitAnd(Shr(h, f.rBits), LowMask(f.qBits), k);
      BitLowMask(f.qBits, k);
    }
    SameBits(f.HashToQuotient(h), q, f.qBits);
  }

  /** Puts the iterator on the first cluster start. */
  method Start(f: Quotient, iter: Iterator)
    requires f.Valid() && iter.index == 0
    modifies iter
    ensures iter.On(f.cells) && iter.Yielded(f.cells) == {}
  {
    ghost var c := f.cells;
    PassedAll(c, 0);
    iter.visited := f.entries;
    if f.entries == 0 {
      iter.begin, iter.step := 0, 0;
      return;
    }
    ghost var s0 := AnyClusterStart(f.table, c);
    var start := 0;
    var elem := f.Get(start);
    while !IsClusterStart(elem)
      invariant start <= s0 && Decode(elem) == f.table[start]
      decreases s0 - start
    {
      start := start + 1;
      elem := f.Get(start);
    }
    ClusterStartIs(f.table, c, start);
    PassedAll(c, start);
    iter.visited := 0;
    iter.index := start;
    iter.begin, iter.step := start, 0;
  }

  predicate ClusterStartFlags(t: Slot) {
    t.occupied && !t.continuation && !t.shifted
  }

  lemma ClusterStartIs(t: seq<Slot>, c: seq<Cell>, s: nat)
    requires LayoutOk(c) && Matches(t, c, Quotients(c)) && s < |c|
    ensures ClusterStartFlags(t[s]) <==> c[s].Entry? && Disp(c, s) == 0
  {
    FlagsAt(t, c, s);
    assert SlotMatches(t[s], c, Quotients(c), s);
  }

  lemma AnyClusterStart(t: seq<Slot>, c: seq<Cell>) returns (s: nat)
    requires LayoutOk(c) && Matches(t, c, Quotients(c)) && Used(c) != {}
    ensures s < |c| && ClusterStartFlags(t[s])
  {
    var x: nat :| x in Used(c);
    var s0: nat :| s0 < |c| && Disp(c, s0) == 0;
    var p: int := x;
    var low := if s0 <= x then s0 else s0 - |c|;
    assert Wrap(low, |c|) == s0;
    while Q(c, p) < p
      invariant low <= p <= x && At(c, p).Entry?
      decreases p - low
    {
      QStep(c, p);
      p := p - 1;
    }
    s := Wrap(p, |c|);
    ClusterStartIs(t, c, s);
  }

  predicate Done(f: Quotient, iter: Iterator)
    reads f, iter
  {
    f.entries == iter.visited
  }

  /** Exactly the iterators that have yielded everything are done. */
  lemma DoneIsAll(f: Quotient, iter: Iterator)
    requires f.Valid() && iter.On(f.cells)
    ensures Done(f, iter) <==> iter.Yielded(f.cells) == f.Fingerprints()
    ensures iter.step == |f.cells| ==> Done(f, iter)
  {
    var c, y := f.cells, iter.Yielded(f.cells);
    PassedSubset(c, iter.begin, iter.step);
    PassedAll(c, iter.begin);
    SubsetOfSameSize(y, Contents(c));
  }

  lemma SubsetOfSameSize<T>(s: set<T>, u: set<T>)
    requires s <= u
    ensures |s| <= |u| && (|s| == |u| <==> s == u)
  {
    assert u == s + (u - s);
  }

  /** The next fingerprint, as a hash: one not yielded before, with its quotient rebuilt. */
  method Next(f: Quotient, iter: Iterator) returns (hash: Word)
    requires f.Valid() && iter.On(f.cells)
    modifies iter
    ensures iter.On(f.cells)
    ensures !old(Done(f, iter)) ==> old(iter.step) < iter.step
    ensures old(Done(f, iter)) ==> hash == 0 && iter.Yielded(f.cells) == old(iter.Yielded(f.cells))
    ensures !old(Done(f, iter)) ==>
              var x := (f.HashToQuotient(hash), f.HashToRemainder(hash));
              && x in f.Fingerprints() - old(iter.Yielded(f.cells))
              && iter.Yielded(f.cells) == old(iter.Yielded(f.cells)) + {x}
  {
    ghost var c, y := f.cells, iter.Yielded(f.cells);
    while !Done(f, iter)
      invariant iter.On(c) && iter.Yielded(c) == y && old(iter.step) <= iter.step
      decreases |c| - iter.step
    {
      DoneIsAll(f, iter);
      var found;
      found, hash := Pass(f, iter);
      if found {
        return;
      }
    }
    hash := 0;
  }

  /** Passes one slot; if it is in use, its fingerprint is the next one. */
  method Pass(f: Quotient, iter: Iterator) returns (found: bool, hash: Word)
    requires f.Valid() && iter.On(f.cells) && !Done(f, iter) && iter.step < f.capacity
    modifies iter
    ensures iter.On(f.cells) && iter.step == old(iter.step) + 1
    ensures !found ==> iter.Yielded(f.cells) == old(iter.Yielded(f.cells))
    ensures found ==>
              var x := (f.HashToQuotient(hash), f.HashToRemainder(hash));
              && x in f.Fingerprints() - old(iter.Yielded(f.cells))
              && iter.Yielded(f.cells) == old(iter.Yielded(f.cells)) + {x}
  {
    hide RingLayout.Linked, Passed, SlotMatches;
    var entry := f.Get(iter.index);
    var quotient := TrackQuotient(f, iter, entry);
    StandingStep(f.cells, iter.begin, iter.step, iter.index, iter.visited, iter.quotient, quotient);
    found, hash := EntryHash(f, iter.index, entry, quotient);
    var after := f.Up(iter.index);
    iter.quotient := quotient;
    iter.index := after;
    iter.step := iter.step + 1;
    if found {
      iter.visited := iter.visited + 1;
    }
  }

  /** Whether a slot is in use, and then the hash rebuilt from its quotient and remainder. */
  method EntryHash(f: Quotient, s: nat, entry: Word, quotient: nat) returns (found: bool, hash: Word)
    requires f.Valid() && s < f.capacity && Decode(entry) == f.table[s] && entry < Pow2(f.elemBits)
    requires f.cells[s].Entry? ==> quotient == f.cells[s].quot
    ensures found <==> f.cells[s].Entry?
    ensures found ==> (f.HashToQuotient(hash), f.HashToRemainder(hash)) == (f.cells[s].quot, f.cells[s].rem)
  {
    EntryAt(f, s, entry);
    found, hash := !IsEmptyElement(entry), 0;
    if found {
      var rem := GetRemainder(entry);
      hash := HashOf(quotient, rem, f.rBits);
    }
  }

  lemma EntryAt(f: Quotient, s: nat, entry: Word)
    requires f.Valid() && s < f.capacity && Decode(entry) == f.table[s] && entry < Pow2(f.elemBits)
    ensures IsEmptyElement(entry) <==> f.cells[s].Vacant?
    ensures f.cells[s].Entry? ==>
              var q, r := f.cells[s].quot, f.cells[s].rem;
              && r == GetRemainder(entry) && q < MODULUS && r < MODULUS
              && f.HashToQuotient(HashOf(q, r, f.rBits)) == q
              && f.HashToRemainder(HashOf(q, r, f.rBits)) == r
  {
    FlagsAt(f.table, f.cells, s);
    assert SlotMatches(f.table[s], f.cells, Quotients(f.cells), s);
    if f.cells[s].Entry? {
      RemainderFits(entry, f.rBits);
      HashRoundTrip(f, f.cells[s].quot, f.cells[s].rem);
    }
  }

  lemma RemainderFits(e: Word, rBits: nat)
    requires e < Pow2(rBits + 3)
    ensures e / 8 < Pow2(rBits)
  {
    SmallPowers();
    Pow2Sum(3, rBits);
  }

  /** The iterator's quotient, updated to that of the entry it is about to pass. */
  method TrackQuotient(f: Quotient, iter: Iterator, entry: Word) returns (quotient: nat)
    requires f.Valid() && iter.On(f.cells) && iter.step < f.capacity && !Done(f, iter)
    requires Decode(entry) == f.table[iter.index]
    ensures f.cells[iter.index].Entry? ==> quotient == f.cells[iter.index].quot
  {
    ghost var c := f.cells;
    ghost var before := Prev(iter.index, |c|);
    FlagsAt(f.table, c, iter.index);
    ClusterStartIs(f.table, c, iter.index);
    assert SlotMatches(f.table[iter.index], c, Quotients(c), iter.index);
    assert Linked(c, iter.index);
    quotient := iter.quotient;
    if IsClusterStart(entry) {
      quotient := iter.index;
    } else if IsRunStart(entry) {
      assert RingLayout.Next(before, |c|) == iter.index;
      quotient := f.RunQuotient(quotient, c, Quotients(c), before);
    }
  }

  /** Inserts everything another filter holds. When the union does not fit, what is already in stays and the
      table ends full. */
  method InsertFrom(f: Quotient, other: Quotient)
    requires f.Valid() && other.Valid() && f.qBits == other.qBits && f.rBits == other.rBits
    requires f == other || f.filter != other.filter
    modifies f, f.filter
    ensures f.Valid() && other.Valid()
    ensures Copied(f.Fingerprints(), old(f.Fingerprints()), old(other.Fingerprints()), f.capacity)
  {
    var iter := new Iterator();
    Start(other, iter);
    ghost var c, had := other.cells, f.Fingerprints();
    while !Done(other, iter)
      modifies f, f.filter, iter
      invariant f.Valid() && other.Valid() && other.cells == c && iter.On(c)
      invariant Copied(f.Fingerprints(), had, iter.Yielded(c), f.capacity)
      decreases |c| - iter.step
    {
      CopyOne(f, other, iter, had);
    }
    DoneIsAll(other, iter);
  }

  /** `now` is `had` with what has been offered, or with as much of it as fits. */
  ghost predicate Copied(now: set<(nat, nat)>, had: set<(nat, nat)>, offered: set<(nat, nat)>, capacity: nat) {
    && had <= now <= had + offered
    && (now == had + offered || |now| == capacity)
  }

  method CopyOne(f: Quotient, other: Quotient, iter: Iterator, ghost had: set<(nat, nat)>)
    requires f.Valid() && other.Valid() && f.qBits == other.qBits && f.rBits == other.rBits
    requires f == other || f.filter != other.filter
    requires iter.On(other.cells) && !Done(other, iter)
    requires Copied(f.Fingerprints(), had, iter.Yielded(other.cells), f.capacity)
    modifies f, f.filter, iter
    ensures f.Valid() && other.Valid() && other.cells == old(other.cells)
    ensures iter.On(other.cells) && old(iter.step) < iter.step
    ensures Copied(f.Fingerprints(), had, iter.Yielded(other.cells), f.capacity)
  {
    ghost var was, offered := f.Fingerprints(), iter.Yielded(other.cells);
    var hash := Next(other, iter);
    ghost var x := (other.HashToQuotient(hash), other.HashToRemainder(hash));
    SameSplit(f, other, hash);
    EntriesFit(f.cells);
    var ok := f.Insert(hash);
    CopiedStep(was, f.Fingerprints(), had, offered, x, f.capacity, ok);
  }

  lemma SameSplit(f: Quotient, other: Quotient, hash: Word)
    requires f.qBits == other.qBits < 64 && f.rBits == other.rBits < 64
    ensures f.HashToQuotient(hash) == other.HashToQuotient(hash)
    ensures f.HashToRemainder(hash) == other.HashToRemainder(hash)
  {
  }

  lemma CopiedStep(was: set<(nat, nat)>, now: set<(nat, nat)>, had: set<(nat, nat)>, offered: set<(nat, nat)>, x: (nat, nat), capacity: nat, ok: bool)
    requires Copied(was, had, offered, capacity) && |was| <= capacity
    requires now == if ok then was + {x} else was
    requires ok <==> |was| < capacity
    ensures Copied(now, had, offered + {x}, capacity)
  {
  }

  predicate Compatible(f: Quotient, other: Quotient) {
    other.qBits == f.qBits && other.rBits == f.rBits && other.hashSeed == f.hashSeed
  }

  ghost function UnionOf(others: seq<Quotient>): set<(nat, nat)>
    reads others
  {
    if others == [] then {} else UnionOf(others[..|others| - 1]) + others[|others| - 1].Fingerprints()
  }

  lemma CopiedMore(was: set<(nat, nat)>, now: set<(nat, nat)>, had: set<(nat, nat)>, u: set<(nat, nat)>, o: set<(nat, nat)>, capacity: nat)
    requires Copied(was, had, u, capacity) && Copied(now, was, o, capacity) && |now| <= capacity
    ensures Copied(now, had, u + o, capacity)
  {
    SubsetOfSameSize(was, now);
  }

  /** What is left of a union that was offered to a table of a given size. */
  lemma CopiedExactly(now: set<(nat, nat)>, had: set<(nat, nat)>, offered: set<(nat, nat)>, capacity: nat)
    requires Copied(now, had, offered, capacity) && |now| <= capacity
    ensures now == had + offered <==> |had + offered| <= capacity
    ensures |had + offered| > capacity ==> |now| == capacity
  {
    SubsetOfSameSize(now, had + offered);
  }

  method AllCompatible(f: Quotient, others: seq<Quotient>) returns (ok: bool)
    ensures ok <==> forall i :: 0 <= i < |others| ==> Compatible(f, others[i])
  {
    ok := true;
    for i := 0 to |others|
      invariant ok <==> forall j :: 0 <= j < i ==> Compatible(f, others[j])
    {
      ok := ok && Compatible(f, others[i]);
    }
  }

  /** Merges filters into `f`, or changes nothing if one of them is not compatible. If the union fits the
      table, the result is exactly the union; if not, the table ends full with part of it. */
  method Merge(f: Quotient, others: seq<Quotient>) returns (ok: bool)
    requires f.Valid() && forall i :: 0 <= i < |others| ==> others[i].Valid()
    requires forall i :: 0 <= i < |others| ==> others[i] == f || others[i].filter != f.filter
    modifies f, f.filter
    ensures f.Valid()
    ensures ok <==> forall i :: 0 <= i < |others| ==>
              others[i].qBits == f.qBits && others[i].rBits == f.rBits && others[i].hashSeed == f.hashSeed
    ensures !ok ==> unchanged(f) && unchanged(f.filter)
    ensures ok ==> var all := old(f.Fingerprints() + UnionOf(others));
                   && old(f.Fingerprints()) <= f.Fingerprints() <= all
                   && (f.Fingerprints() == all <==> |all| <= f.capacity)
                   && (|all| > f.capacity ==> |f.Fingerprints()| == f.capacity)
  {
    ok := AllCompatible(f, others);
    if ok {
      InsertAll(f, others);
      EntriesFit(f.cells);
      CopiedExactly(f.Fingerprints(), old(f.Fingerprints()), old(UnionOf(others)), f.capacity);
    }
  }

  ghost predicate Mergeable(f: Quotient, others: seq<Quotient>)
    reads f, f.filter, others, set i | 0 <= i < |others| :: others[i].filter
  {
    && f.Valid()
    && forall i :: 0 <= i < |others| ==>
         && others[i].Valid() && Compatible(f, others[i])
         && (others[i] == f || others[i].filter != f.filter)
  }

  /** One of the filters is merged in; the others keep what they hold. */
  method InsertNth(f: Quotient, others: seq<Quotient>, i: nat)
    requires Mergeable(f, others) && i < |others|
    modifies f, f.filter
    ensures Mergeable(f, others)
    ensures Copied(f.Fingerprints(), old(f.Fingerprints()), old(others[i].Fingerprints()), f.capacity)
  {
    InsertFrom(f, others[i]);
  }

  method InsertAll(f: Quotient, others: seq<Quotient>)
    requires Mergeable(f, others)
    modifies f, f.filter
    ensures f.Valid()
    ensures Copied(f.Fingerprints(), old(f.Fingerprints()), old(UnionOf(others)), f.capacity)
  {
    ghost var had := f.Fingerprints();
    for i := 0 to |others|
      invariant Mergeable(f, others)
      invariant Copied(f.Fingerprints(), had, old(UnionOf(others[..i])), f.capacity)
    {
      ghost var was := f.Fingerprints();
      assert others[..i + 1][..i] == others[..i];
      InsertNth(f, others, i);
      EntriesFit(f.cells);
      MergedNth(was, f.Fingerprints(), had, old(UnionOf(others[..i])), old(others[i].Fingerprints()), f.capacity, others[i] == f);
    }
    assert others[..|others|] == others;
  }

  lemma MergedNth(was: set<(nat, nat)>, now: set<(nat, nat)>, had: set<(nat, nat)>, u: set<(nat, nat)>, o: set<(nat, nat)>, capacity: nat, self: bool)
    requires Copied(was, had, u, capacity) && |now| <= capacity
    requires if self then o == had && Copied(now, was, was, capacity) else Copied(now, was, o, capacity)
    ensures Copied(now, had, u + o, capacity)
  {
    if self {
      assert now == was;
      assert had + (u + o) == had + u;
    } else {
      CopiedMore(was, now, had, u, o, capacity);
    }
  }
}
