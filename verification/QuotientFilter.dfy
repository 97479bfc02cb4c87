/** The quotient filter: a set of fingerprints kept in a ring of packed slots. */
module QuotientFilter {
  import opened Basics
  import opened Words
  import opened PackedSlots
  import opened RingLayout
  import opened RingUpdate
  import opened SlotBits

  lemma EntriesFit(c: seq<Cell>)
    ensures |Used(c)| <= |c|
  {
    BelowSize(|c|);
    assert Below(|c|) == Used(c) + (Below(|c|) - Used(c));
  }

  /** A table with fewer entries than slots has a vacancy, and a first one from any slot on. */
  lemma VacancyAhead(c: seq<Cell>, from: nat) returns (k: nat)
    requires from < |c| && |Used(c)| < |c|
    ensures FirstVacancy(c, from, k)
  {
    BelowSize(|c|);
    assert Used(c) != Below(|c|);
    assert exists s: nat :: s < |c| && c[s].Vacant?;
    var v: nat :| v < |c| && c[v].Vacant?;
    k := 0;
    while c[Wrap(from + k, |c|)].Entry?
      invariant k <= Ahead(from, v, |c|)
      invariant forall s: nat {:trigger c[s]} :: s < |c| && Ahead(from, s, |c|) < k ==> c[s].Entry?
      decreases |c| - k
    {
      k := k + 1;
    }
  }

  /** How far the rest of a cluster reaches from the slot after `from`. */
  lemma ClusterAhead(c: seq<Cell>, from: nat) returns (k: nat)
    requires LayoutOk(c) && from < |c| && c[from].Entry?
    ensures RestOfCluster(c, from, k)
  {
    k := 0;
    while k + 1 < |c| && Disp(c, Wrap(from + k + 1, |c|)) > 0
      invariant k < |c|
      invariant forall s: nat {:trigger Disp(c, s)} :: s < |c| && 0 < Ahead(from, s, |c|) <= k ==> Disp(c, s) > 0
    {
      k := k + 1;
    }
  }

  /** The source's `filterSizeInBytes`, which the constructor uses as a number of words. */
  function FilterSize(q: nat, r: nat): nat {
    if q == 0 || r == 0 || q + r > 64 then 0
    else
      var bits := Pow2(q) * (r + 3);
      if bits % 8 != 0 then bits / 8 + 1 else bits / 8
  }

  /** The number of slot bits in whole bytes. */
  lemma FilterSizeIs(q: nat, r: nat)
    requires q >= 1 && r >= 1 && q + r <= 64
    ensures var bits := Pow2(q) * (r + 3); bits <= 8 * FilterSize(q, r) < bits + 8
  {
  }

  lemma AllocationFits(q: nat, r: nat)
    requires 1 <= q < 31 && 1 <= r && r + 3 < 64 && q + r < 64
    ensures Pow2(q) * (r + 3) <= 64 * FilterSize(q, r)
    ensures Pow2(q) >= 2
  {
    Pow2Monotone(1, q);
  }

  lemma ZeroTable(words: seq<Word>, width: nat, count: nat)
    requires Fits(words, width, count) && forall i :: 0 <= i < |words| ==> words[i] == 0
    ensures forall i: nat {:trigger GetElement(words, width, count, i)} ::
              i < count ==> GetElement(words, width, count, i) == 0 && Decode(0) == Slot(false, false, false, 0)
  {
    forall i: nat | i < count
      ensures GetElement(words, width, count, i) == 0
    {
      var e := GetElement(words, width, count, i);
      Pow2Is64();
      forall k: nat | k < 64
        ensures Bit(e, k) == Bit(0, k)
      {
        GetElementBit(words, width, count, i, k);
        BitOfZero(k);
        var p := width * i + k;
        if p / 64 < |words| {
          BitOfZero(p % 64);
        }
      }
      SameBits(e, 0, 64);
    }
    BitOfZero(1);
    BitOfZero(2);
  }

  lemma EmptyRing(n: nat)
    requires n >= 2
    ensures var c := seq(n, i => Vacant); var t := seq(n, i => Slot(false, false, false, 0));
            LayoutOk(c) && Contents(c) == {} && Used(c) == {} && Matches(t, c, Quotients(c))
  {
    var c: seq<Cell> := seq(n, i => Vacant);
    assert Shape(c);
    assert Disp(c, 0) == 0;
    assert Quotients(c) == {};
  }

  class Quotient {
    const qBits: nat
    const rBits: nat
    const elemBits: nat
    const capacity: nat
    const hashSeed: nat
    const filter: array<Word>
    var entries: nat
    /** The packed slots, decoded. */
    ghost var table: seq<Slot>
    /** What the slots mean. */
    ghost var cells: seq<Cell>

    ghost predicate Sized()
      reads filter
    {
      && 1 <= qBits < 31 && 1 <= rBits && rBits + 3 < 64 && qBits + rBits < 64
      && elemBits == rBits + 3
      && capacity == Pow2(qBits)
      && Fits(filter[..], elemBits, capacity)
    }

    ghost predicate Packed()
      reads this, filter
    {
      && Sized()
      && |table| == capacity
      && forall i: nat {:trigger GetElement(filter[..], elemBits, capacity, i)} ::
           i < capacity ==> Decode(GetElement(filter[..], elemBits, capacity, i)) == table[i]
    }

    /** The representation invariant: layout, stored flags, and the entry counter. */
    ghost predicate Valid()
      reads this, filter
    {
      && Packed()
      && |cells| == capacity
      && LayoutOk(cells)
      && Matches(table, cells, Quotients(cells))
      && entries == |Used(cells)| == |Contents(cells)|
    }

    /** The abstract set of (quotient, remainder) pairs. */
    ghost function Fingerprints(): set<(nat, nat)>
      reads this
    {
      Contents(cells)
    }

    /** An empty filter. */
    constructor (qBits: nat, rBits: nat, hashSeed: nat)
      requires 1 <= qBits < 31 && 1 <= rBits && rBits + 3 < 64 && qBits + rBits < 64
      ensures Valid() && Fingerprints() == {} && fresh(filter)
      ensures this.qBits == qBits && this.rBits == rBits && this.hashSeed == hashSeed && filter.Length == FilterSize(qBits, rBits)
    {
      this.qBits, this.rBits, this.hashSeed := qBits, rBits, hashSeed;
      elemBits := rBits + 3;
      capacity := Pow2(qBits);
      filter := new Word[FilterSize(qBits, rBits)](i => 0);
      entries := 0;
      table := seq(Pow2(qBits), i => Slot(false, false, false, 0));
      cells := seq(Pow2(qBits), i => Vacant);
      new;
      AllocationFits(qBits, rBits);
      ZeroTable(filter[..], elemBits, capacity);
      EmptyRing(capacity);
    }

    method Clear()
      requires Valid()
      modifies this, filter
      ensures Valid() && Fingerprints() == {}
    {
      entries := 0;
      for i := 0 to filter.Length
        modifies filter
        invariant forall j :: 0 <= j < i ==> filter[j] == 0
      {
        filter[i] := 0;
      }
      table := seq(capacity, i => Slot(false, false, false, 0));
      cells := seq(capacity, i => Vacant);
      ZeroTable(filter[..], elemBits, capacity);
      EmptyRing(capacity);
    }

    method Get(index: nat) returns (elem: Word)
      requires Packed() && index < capacity
      ensures Decode(elem) == table[index]
      ensures elem < Pow2(elemBits)
    {
      GetElementBound(filter[..], elemBits, capacity, index);
      elem := GetElement(filter[..], elemBits, capacity, index);
    }

    method Put(index: nat, elem: Word)
      requires Packed() && index < capacity && elem < Pow2(elemBits)
      modifies filter, `table
      ensures Packed() && table == old(table)[index := Decode(elem)]
    {
      SetElement(filter, elemBits, capacity, index, elem);
      LowMaskValue(elemBits);
      MaskIsMod(elem, elemBits);
      ModUnique(elem, Pow2(elemBits), 0, elem);
      table := table[index := Decode(elem)];
    }

    method Up(index: nat) returns (r: nat)
      requires Packed() && index < capacity
      ensures r == Next(index, capacity)
    {
      RingSizeFits(qBits);
      r := Increase(index, qBits);
    }

    method Down(index: nat) returns (r: nat)
      requires Packed() && index < capacity
      ensures r == Prev(index, capacity)
    {
      RingSizeFits(qBits);
      r := Decrease(index, qBits);
    }

    function HashToQuotient(hash: Word): (q: nat)
      requires qBits < 64
      ensures q < Pow2(qBits)
    {
      LowMaskValue(qBits);
      And(Shr(hash, rBits), LowMask(qBits))
    }

    function HashToRemainder(hash: Word): (r: nat)
      requires rBits < 64
      ensures r < Pow2(rBits)
    {
      LowMaskValue(rBits);
      And(hash, LowMask(rBits))
    }

    /** The slot where the run of `quot` starts, or would start once its occupied bit is set. */
    method FindRunIndex(quot: nat, ghost c: seq<Cell>, ghost occ: set<nat>) returns (slot: nat, ghost pos: int)
      requires Packed() && |c| == capacity && LayoutOk(c) && Matches(table, c, occ)
      requires quot < capacity && c[quot].Entry?
      requires Quotients(c) <= occ <= Quotients(c) + {quot} && quot in occ
      ensures RunStart(c, quot, pos) && slot == Wrap(pos, capacity)
    {
      var start;
      ghost var a;
      start, a := ClusterStart(quot, c, occ);
      slot := start;
      ghost var st := a;
      pos := a;
      ReachedFirst(c, quot, a);
      while start != quot
        invariant Reached(c, quot, a, st, pos)
        invariant start == Wrap(st, capacity) && slot == Wrap(pos, capacity)
        decreases quot - st
      {
        ghost var was, head := st, pos;
        slot, pos := SkipRun(slot, c, occ, head, was);
        start, st := NextOccupied(start, occ, was, quot);
        NextRun(c, occ, quot, a, was, head, st, pos);
      }
    }

    /** From a used slot back to the unshifted entry that starts its cluster. */
    method ClusterStart(quot: nat, ghost c: seq<Cell>, ghost occ: set<nat>) returns (start: nat, ghost a: int)
      requires Packed() && |c| == capacity && LayoutOk(c) && Matches(table, c, occ)
      requires quot < capacity && c[quot].Entry?
      ensures ClusterFrom(c, quot, a) && start == Wrap(a, capacity)
    {
      ghost var s0: nat :| s0 < capacity && Disp(c, s0) == 0;
      start, a := quot, quot;
      var elem := Get(start);
      BackOne(table, c, occ, quot, a, s0);
      while IsShifted(elem)
        invariant BackTo(c, quot, a) && start == Wrap(a, capacity)
        invariant if IsShifted(elem) then BackTo(c, quot, a - 1) else ClusterFrom(c, quot, a)
        decreases a - quot + capacity
      {
        start := Down(start);
        a := a - 1;
        elem := Get(start);
        BackOne(table, c, occ, quot, a, s0);
      }
    }

    /** From an entry of the run of `q` to the first slot after it that does not continue the run. */
    method SkipRun(from: nat, ghost c: seq<Cell>, ghost occ: set<nat>, ghost head: int, ghost q: int)
      returns (slot: nat, ghost sl: int)
      requires Packed() && |c| == capacity && LayoutOk(c) && Matches(table, c, occ)
      requires 0 < head + capacity && head < q + capacity < 2 * capacity && from == Wrap(head, capacity)
      requires InRun(c, head, q)
      ensures RestOfRun(c, head, q, sl) && slot == Wrap(sl, capacity)
    {
      slot := Up(from);
      sl := head + 1;
      var elem := Get(slot);
      RestOfRunStart(c, head, q);
      RunSoFarStep(table, c, occ, head, q, sl);
      while IsContinuation(elem)
        invariant RunSoFar(c, head, q, sl) && slot == Wrap(sl, capacity)
        invariant if IsContinuation(elem) then RunSoFar(c, head, q, sl + 1) else RestOfRun(c, head, q, sl)
        decreases q + capacity - sl
      {
        slot := Up(slot);
        sl := sl + 1;
        elem := Get(slot);
        RunSoFarStep(table, c, occ, head, q, sl);
      }
    }

    /** The next slot whose occupied bit is set, where one is known to be set at position `limit`. */
    method NextOccupied(from: nat, ghost occ: set<nat>, ghost was: int, ghost limit: int)
      returns (slot: nat, ghost st: int)
      requires Packed() && (forall s: nat {:trigger table[s]} :: s < capacity ==> table[s].occupied == (s in occ))
      requires 0 < was + capacity && was < limit < capacity && from == Wrap(was, capacity) && Wrap(limit, capacity) in occ
      ensures NextIn(occ, capacity, was, st) && st <= limit && slot == Wrap(st, capacity)
    {
      slot := Up(from);
      st := was + 1;
      var elem := Get(slot);
      while !IsOccupied(elem)
        invariant was < st <= limit && slot == Wrap(st, capacity) && Decode(elem) == table[slot]
        invariant forall i {:trigger Wrap(i, capacity)} :: was < i < st ==> Wrap(i, capacity) !in occ
        decreases limit - st
      {
        slot := Up(slot);
        st := st + 1;
        elem := Get(slot);
      }
    }

    /** Scans the run of `q` for remainder `hr`: stops at the first remainder that is not smaller, or behind
        the run. `rem` is the last remainder read. */
    method Scan(start: nat, hr: nat, ghost c: seq<Cell>, ghost occ: set<nat>, ghost q: nat, ghost pos: int)
      returns (slot: nat, rem: nat, ghost p: int)
      requires Packed() && |c| == capacity && LayoutOk(c) && Matches(table, c, occ)
      requires q < capacity && RunStart(c, q, pos) && InRun(c, pos, q) && start == Wrap(pos, capacity)
      ensures Scanned(c, q, hr, pos, p) && LowerBound(c, q, hr, p) && slot == Wrap(p, capacity)
      ensures rem == hr <==> Holds(c, q, hr, p)
    {
      slot, p := start, pos;
      var more := true;
      rem := 0;
      while more
        invariant Scanned(c, q, hr, pos, p) && slot == Wrap(p, capacity)
        invariant if more then p < q + capacity && InRun(c, p, q)
                  else LowerBound(c, q, hr, p) && (rem == hr <==> Holds(c, q, hr, p))
        decreases q + capacity - p, more
      {
        var elem := Get(slot);
        rem := GetRemainder(elem);
        ScanStep(table, c, occ, q, hr, pos, p);
        if rem >= hr {
          more := false;
        } else {
          slot := Up(slot);
          p := p + 1;
          var next := Get(slot);
          more := IsContinuation(next);
        }
      }
    }

    method MayContain(hash: Word) returns (r: bool)
      requires Valid()
      ensures r <==> (HashToQuotient(hash), HashToRemainder(hash)) in Fingerprints()
    {
      var hq := HashToQuotient(hash);
      var hr := HashToRemainder(hash);
      var hqElem := Get(hq);
      QuotientsOfContents(cells, hq);
      assert SlotMatches(table[hq], cells, Quotients(cells), hq);
      if !IsOccupied(hqElem) {
        return false;
      }
      OccupiedIsUsed(cells, hq);
      ghost var pos, p;
      var slot, rem;
      slot, pos := FindRunIndex(hq, cells, Quotients(cells));
      RunHead(cells, hq, pos);
      slot, rem, p := Scan(slot, hr, cells, Quotients(cells), hq, pos);
      LowerBoundDecides(cells, hq, hr, p);
      return rem == hr;
    }

    /** Puts `elem` into slot `start` and moves everything up to the next empty slot one slot right; the
        occupied bits stay behind. */
    method InsertAt(start: nat, elem: Word, ghost k: nat)
      requires Packed() && ClearAhead(table, start, k)
      requires elem < Pow2(elemBits) && !Decode(elem).occupied
      modifies filter, `table
      ensures Packed() && table == ShiftedRight(old(table), start, k, Decode(elem))
    {
      ghost var t := table;
      var isEmpty := false;
      var slot := start;
      var currElem: Word := elem;
      ghost var j := 0;
      ShiftingStart(t, start, k, Decode(elem));
      while !isEmpty
        invariant Packed() && j <= k + 1 && isEmpty == (j == k + 1)
        invariant currElem < Pow2(elemBits)
        invariant ShiftingRight(t, table, start, k, Decode(elem), j, slot)
        invariant !isEmpty ==> Decode(currElem) == Carried(t, start, Decode(elem), j)
        decreases k + 1 - j
      {
        ShiftingStep(t, table, start, k, Decode(elem), j, slot);
        isEmpty, currElem := ShiftOne(slot, currElem);
        slot := Up(slot);
        j := j + 1;
      }
      ShiftingEnd(t, table, start, k, Decode(elem), slot);
    }

    /** Puts the carried element into a slot and takes up the one that was there. */
    method ShiftOne(slot: nat, elem: Word) returns (isEmpty: bool, carry: Word)
      requires Packed() && slot < capacity && elem < Pow2(elemBits) && !Decode(elem).occupied
      modifies filter, `table
      ensures Packed() && carry < Pow2(elemBits)
      ensures table == old(table)[slot := Decode(elem).(occupied := old(table)[slot].occupied)]
      ensures isEmpty <==> RingLayout.Clear(old(table)[slot])
      ensures !isEmpty ==> Decode(carry) == old(table)[slot].(shifted := true, occupied := false)
    {
      var currElem: Word := elem;
      var prevElem := Get(slot);
      isEmpty := IsEmptyElement(prevElem);
      if !isEmpty {
        prevElem := MarkShifted(prevElem);
        if IsOccupied(prevElem) {
          currElem := MarkOccupied(currElem);
          prevElem := ClearOccupied(prevElem);
        }
      }
      Put(slot, currElem);
      carry := prevElem;
    }

    /** Adds a fingerprint. The answer is false only when the table was already full. */
    method Insert(hash: Word) returns (ok: bool)
      requires Valid()
      modifies this, filter
      ensures Valid()
      ensures ok <==> old(entries) < capacity
      ensures var x := (HashToQuotient(hash), HashToRemainder(hash));
              && Fingerprints() == (if ok then old(Fingerprints()) + {x} else old(Fingerprints()))
              && (!ok || x in old(Fingerprints()) ==> unchanged(this) && unchanged(filter))
    {
      if entries >= capacity {
        return false;
      }
      var hq := HashToQuotient(hash);
      var hr := HashToRemainder(hash);
      var hqElem := Get(hq);
      assert SlotMatches(table[hq], cells, Quotients(cells), hq);
      FlagsAt(table, cells, hq);
      if IsEmptyElement(hqElem) {
        var entry := Fresh(hr);
        entry := MarkOccupied(entry);
        AloneInSlot(table, cells, hq, hr);
        Put(hq, entry);
        cells := Inserted(cells, hq, 0, Entry(hq, hr));
        entries := entries + 1;
        return true;
      }
      if IsOccupied(hqElem) {
        InsertIntoRun(hq, hr);
      } else {
        InsertAsRun(hq, hr, hqElem);
      }
      return true;
    }

    /** The quotient has no run yet: its occupied bit is set first, then the new run's only entry goes in. */
    method InsertAsRun(hq: nat, hr: nat, hqElem: Word)
      requires Valid() && entries < capacity && hq < capacity && hr < Pow2(rBits)
      requires cells[hq].Entry? && hq !in Quotients(cells)
      requires Decode(hqElem) == table[hq] && hqElem < Pow2(elemBits)
      modifies this, filter
      ensures Valid() && (hq, hr) !in old(Fingerprints())
      ensures Fingerprints() == old(Fingerprints()) + {(hq, hr)}
    {
      ghost var c, occ := cells, Quotients(cells) + {hq};
      var marked := MarkOccupied(hqElem);
      OccupiedMatches(table, c, hq);
      Put(hq, marked);
      var slot;
      ghost var pos;
      slot, pos := FindRunIndex(hq, c, occ);
      var entry := Fresh(hr);
      ghost var k := VacancyAhead(c, slot);
      PlaceNewRun(table, c, occ, hq, hr, pos, k);
      if slot != hq {
        entry := MarkShifted(entry);
      }
      Finish(hq, hr, slot, entry, c, occ, pos, k);
    }

    /** The quotient has a run: the fingerprint is already there, or goes to its place in the run. */
    method InsertIntoRun(hq: nat, hr: nat)
      requires Valid() && entries < capacity && hq in Quotients(cells) && hq < capacity && hr < Pow2(rBits)
      modifies this, filter
      ensures Valid()
      ensures Fingerprints() == old(Fingerprints()) + {(hq, hr)}
      ensures (hq, hr) in old(Fingerprints()) ==> unchanged(this) && unchanged(filter)
    {
      ghost var c, occ := cells, Quotients(cells);
      OccupiedIsUsed(c, hq);
      var start, slot, rem;
      ghost var pos, p;
      start, pos := FindRunIndex(hq, c, occ);
      RunHead(c, hq, pos);
      slot, rem, p := Scan(start, hr, c, occ, hq, pos);
      LowerBoundDecides(c, hq, hr, p);
      if rem == hr {
        return;
      }
      var entry := Fresh(hr);
      ghost var k := VacancyAhead(c, slot);
      PlaceInRun(table, c, occ, hq, hr, pos, p, k);
      if slot == start {
        var oldHead := Get(start);
        oldHead := MarkContinuation(oldHead);
        Put(start, oldHead);
      } else {
        entry := MarkContinuation(entry);
      }
      if slot != hq {
        entry := MarkShifted(entry);
      }
      Finish(hq, hr, slot, entry, c, occ, p, k);
    }

    /** The last step of an insertion: the move to the right, and the counter. */
    method Finish(hq: nat, hr: nat, slot: nat, entry: Word, ghost c: seq<Cell>, ghost occ: set<nat>, ghost p: int, ghost k: nat)
      requires Packed() && cells == c && |c| == capacity
      requires InsertHere(c, hq, hr, p, slot, k) && ReadyFor(table, c, occ, slot, hq)
      requires occ == Quotients(c) + {hq} && c[hq].Entry?
      requires c[slot].Vacant? ==> !table[slot].continuation
      requires entry < Pow2(elemBits)
      requires Decode(entry) == Slot(false, hq < p && Q(c, p - 1) == hq, hq < p, hr)
      requires entries == |Used(c)| == |Contents(c)|
      modifies this, filter
      ensures Valid() && Fingerprints() == Contents(c) + {(hq, hr)}
    {
      ReadyIsClearAhead(table, c, occ, slot, hq, k);
      InsertionDone(table, c, occ, hq, hr, p, slot, k, Decode(entry));
      InsertAt(slot, entry, k);
      cells := Inserted(c, slot, k, Entry(hq, hr));
      entries := entries + 1;
    }

    /** Takes a fingerprint out. The answer is false only for a hash with bits above the fingerprint. */
    method Remove(hash: Word) returns (ok: bool)
      requires Valid()
      modifies this, filter
      ensures Valid()
      ensures ok <==> hash < Pow2(qBits + rBits)
      ensures Fingerprints() ==
              if ok then old(Fingerprints()) - {(HashToQuotient(hash), HashToRemainder(hash))} else old(Fingerprints())
    {
      HighBits(hash, qBits + rBits);
      var highBits := Shr(hash, qBits + rBits);
      if highBits != 0 {
        return false;
      }
      var hq := HashToQuotient(hash);
      var hr := HashToRemainder(hash);
      var hqElem := Get(hq);
      FlagsAt(table, cells, hq);
      QuotientsOfContents(cells, hq);
      if !IsOccupied(hqElem) || entries == 0 {
        return true;
      }
      ghost var c, occ := cells, Quotients(cells);
      OccupiedIsUsed(c, hq);
      var start, slot, rem;
      ghost var pos, p;
      start, pos := FindRunIndex(hq, c, occ);
      RunHead(c, hq, pos);
      slot, rem, p := Scan(start, hr, c, occ, hq, pos);
      LowerBoundDecides(c, hq, hr, p);
      if rem != hr {
        return true;
      }
      RemoveEntry(slot, hq, hr, hqElem);
      return true;
    }

    /** Removes the entry in a slot: frees the quotient's occupied bit if the entry is its whole run, closes
        the gap, and repairs the flags of what moved into the slot. */
    method RemoveEntry(slot: nat, hq: nat, hr: nat, hqElem: Word)
      requires Valid() && slot < capacity && hq < capacity && cells[slot] == Entry(hq, hr)
      requires Decode(hqElem) == table[hq] && hqElem < Pow2(elemBits)
      modifies this, filter
      ensures Valid() && Fingerprints() == old(Fingerprints()) - {(hq, hr)}
    {
      ghost var c := cells;
      ghost var k := ClusterAhead(c, slot);
      ghost var c' := Removed(c, slot, k);
      RemovalDone(c, slot, k);
      FreedBy(c, slot, k);
      var toReplaceRunStart := FreeQuotient(slot, hq, hqElem, c, Quotients(c'));
      CloseGap(slot, hq, toReplaceRunStart, c, Quotients(c'), k);
      cells := c';
      entries := entries - 1;
    }

    method CloseGap(slot: nat, hq: nat, toReplaceRunStart: bool, ghost c: seq<Cell>, ghost occ: set<nat>, ghost k: nat)
      requires Packed() && |c| == capacity && RemoveHere(c, slot, k) && Matches(table, c, occ) && c[slot].quot == hq
      requires occ == Quotients(Removed(c, slot, k)) && Wrap(slot + k, capacity) !in occ
      requires Quotients(c) - {hq} <= occ <= Quotients(c)
      requires hq !in occ ==> !Continues(c, slot) && !Continues(c, Next(slot, capacity))
      requires toReplaceRunStart == !Continues(c, slot)
      modifies filter, `table
      ensures Packed() && Matches(table, Removed(c, slot, k), occ)
    {
      ghost var t := table;
      RemoveAt(slot, hq, c, occ, k);
      ghost var u := table;
      ClosedGap(t, c, slot, k);
      if toReplaceRunStart {
        RepairSlot(slot, hq);
      }
      assert table == u[slot := Repaired(u[slot], !Continues(c, slot), slot == hq)];
    }

    /** Clears the occupied bit of `hq` when the entry in `slot` is its whole run; tells whether the entry starts
        a run. */
    method FreeQuotient(slot: nat, hq: nat, hqElem: Word, ghost c: seq<Cell>, ghost occ: set<nat>) returns (toReplaceRunStart: bool)
      requires Packed() && |c| == capacity && LayoutOk(c) && Matches(table, c, Quotients(c))
      requires slot < capacity && hq < capacity && c[slot].Entry? && c[slot].quot == hq
      requires Decode(hqElem) == table[hq] && hqElem < Pow2(elemBits)
      requires occ == if !Continues(c, slot) && !Continues(c, Next(slot, capacity)) then Quotients(c) - {hq} else Quotients(c)
      modifies filter, `table
      ensures Packed() && toReplaceRunStart == !Continues(c, slot)
      ensures Matches(table, c, occ)
    {
      assert SlotMatches(table[slot], c, Quotients(c), slot);
      FlagsAt(table, c, slot);
      var entryToRemove := hqElem;
      if slot != hq {
        entryToRemove := Get(slot);
      }
      toReplaceRunStart := IsRunStart(entryToRemove);
      if toReplaceRunStart {
        var after := Up(slot);
        var nextElem := Get(after);
        assert SlotMatches(table[after], c, Quotients(c), after);
        if !IsContinuation(nextElem) {
          FreedMatches(table, c, hq);
          Put(hq, ClearOccupied(hqElem));
        }
      }
    }

    /** The element that moved into the slot of a removed run start loses its continuation bit, and its
        shifted bit if it is now in its canonical slot. */
    method RepairSlot(slot: nat, hq: nat)
      requires Packed() && slot < capacity
      modifies filter, `table
      ensures Packed() && table == old(table)[slot := Repaired(old(table)[slot], true, slot == hq)]
    {
      var nextElem := Get(slot);
      var updated: Word := if IsContinuation(nextElem) then ClearContinuation(nextElem) else nextElem;
      if slot == hq && IsRunStart(updated) {
        updated := ClearShifted(updated);
      }
      if updated != nextElem {
        Put(slot, updated);
      }
    }

    /** Moves the displaced entries behind slot `start` one slot left, clearing the shifted bit of each run that
        reaches its canonical slot, and empties the last slot. */
    method RemoveAt(start: nat, quot: nat, ghost c: seq<Cell>, ghost occ: set<nat>, ghost k: nat)
      requires Packed() && |c| == capacity && RemoveHere(c, start, k) && Matches(table, c, occ)
      requires c[start].quot == quot && Quotients(c) - {quot} <= occ <= Quotients(c)
      requires quot !in occ ==> !Continues(c, start) && !Continues(c, Next(start, capacity))
      modifies filter, `table
      ensures Packed() && table == ShiftedLeft(old(table), c, start, k)
    {
      ghost var t := table;
      var slot := start;
      var currElem := Get(slot);
      var scanPos := Up(slot);
      var quotient := quot;
      ghost var j := 0;
      ClosingStart(t, c, start);
      var done := false;
      while !done
        invariant Packed() && j <= k
        invariant !done ==> Closing(t, table, c, start, j, slot) && scanPos == Next(slot, capacity)
        invariant !done ==> Decode(currElem) == t[slot] && quotient == c[slot].quot
        invariant done ==> table == ShiftedLeft(t, c, start, k)
        decreases !done, k - j
      {
        var nextElem := Get(scanPos);
        ClosingStep(t, table, c, occ, start, k, j, slot);
        if IsEmptyElement(nextElem) || IsClusterStart(nextElem) || scanPos == start {
          Put(slot, 0);
          done := true;
        } else {
          var updated;
          updated, quotient := MoveOne(slot, currElem, nextElem, quotient, t, c, occ);
          Put(slot, updated);
          slot := scanPos;
          scanPos := Up(scanPos);
          currElem := nextElem;
          j := j + 1;
        }
      }
    }

    /** The element to store in `slot` when the one behind it moves in, and the quotient of its run. */
    method MoveOne(slot: nat, currElem: Word, nextElem: Word, was: nat, ghost t: seq<Slot>, ghost c: seq<Cell>, ghost occ: set<nat>)
      returns (updated: Word, quotient: nat)
      requires Packed() && |c| == |t| == capacity && LayoutOk(c) && slot < capacity
      requires forall s: nat {:trigger table[s]} :: s < capacity ==> table[s].occupied == (s in occ)
      requires c[slot].Entry? && c[slot].quot == was && occ <= Quotients(c)
      requires Decode(currElem) == t[slot] && t[slot].occupied == (slot in occ)
      requires var u := Next(slot, capacity);
               && Decode(nextElem) == t[u] && nextElem < Pow2(elemBits)
               && c[u].Entry? && Disp(c, u) > 0 && c[u].quot in occ
               && t[u].continuation == Continues(c, u) && t[u].shifted
      ensures updated < Pow2(elemBits) && Decode(updated) == MovedLeft(t, c, slot)
      ensures quotient == c[Next(slot, capacity)].quot
    {
      var isCurrOccupied := IsOccupied(currElem);
      updated, quotient := nextElem, was;
      if IsRunStart(nextElem) {
        quotient := RunQuotient(quotient, c, occ, slot);
        if isCurrOccupied && slot == quotient {
          updated := ClearShifted(nextElem);
        }
      }
      if isCurrOccupied {
        updated := MarkOccupied(updated);
      } else {
        updated := ClearOccupied(updated);
      }
    }

    /** From the quotient of the entry in `slot` to that of the run that starts behind it. */
    method RunQuotient(from: nat, ghost c: seq<Cell>, ghost occ: set<nat>, ghost slot: nat) returns (quotient: nat)
      requires Packed() && |c| == capacity && LayoutOk(c) && slot < capacity
      requires forall s: nat {:trigger table[s]} :: s < capacity ==> table[s].occupied == (s in occ)
      requires c[slot].Entry? && c[slot].quot == from
      requires occ <= Quotients(c) && c[Next(slot, capacity)].Entry? && c[Next(slot, capacity)].quot in occ
      requires Disp(c, Next(slot, capacity)) > 0 && !Continues(c, Next(slot, capacity))
      ensures quotient == c[Next(slot, capacity)].quot
    {
      ghost var was, limit := Q(c, slot), Q(c, slot + 1);
      NextQuotient(c, slot);
      ghost var st;
      quotient, st := NextOccupied(from, occ, was, limit);
      if st < limit {
        NeighbourQuotients(c, slot, st);
      }
    }

    method MarkShifted(elem: Word) returns (r: Word)
      requires Packed() && elem < Pow2(elemBits)
      ensures Decode(r) == Decode(elem).(shifted := true) && r < Pow2(elemBits)
    {
      r := SetShifted(elem);
      FlagsFit(elemBits);
      OrBound(elem, 4, elemBits);
    }

    method MarkOccupied(elem: Word) returns (r: Word)
      requires Packed() && elem < Pow2(elemBits)
      ensures Decode(r) == Decode(elem).(occupied := true) && r < Pow2(elemBits)
    {
      r := SetOccupied(elem);
      FlagsFit(elemBits);
      OrBound(elem, 1, elemBits);
    }

    method MarkContinuation(elem: Word) returns (r: Word)
      requires Packed() && elem < Pow2(elemBits)
      ensures Decode(r) == Decode(elem).(continuation := true) && r < Pow2(elemBits)
    {
      r := SetContinuation(elem);
      FlagsFit(elemBits);
      OrBound(elem, 2, elemBits);
    }

    method Fresh(hr: nat) returns (entry: Word)
      requires rBits + 3 < 64 && elemBits == rBits + 3 && hr < Pow2(rBits)
      ensures Decode(entry) == Slot(false, false, false, hr) && entry < Pow2(elemBits)
    {
      ElementFits(rBits, hr);
      entry := Plain(hr);
    }
  }

  lemma FlagsFit(width: nat)
    requires width >= 3
    ensures 4 < Pow2(width)
  {
    SmallPowers();
    Pow2Monotone(3, width);
  }

  lemma ElementFits(rBits: nat, hr: nat)
    requires rBits + 3 < 64 && hr < Pow2(rBits)
    ensures hr < MODULUS / 8 && 8 * hr < Pow2(rBits + 3)
  {
    Pow2Is64();
    SmallPowers();
    Pow2Sum(3, rBits);
    Pow2Monotone(rBits + 3, 64);
  }

  // ----- facts used by Insert

  lemma FlagsAt(t: seq<Slot>, c: seq<Cell>, s: nat)
    requires LayoutOk(c) && Matches(t, c, Quotients(c)) && s < |c|
    ensures Clear(t[s]) <==> c[s].Vacant?
    ensures t[s].occupied <==> s in Quotients(c)
  {
    if s in Quotients(c) {
      OccupiedIsUsed(c, s);
    }
    ClearIsVacant(t, c, Quotients(c), s);
    assert SlotMatches(t[s], c, Quotients(c), s);
  }

  lemma OccupiedMatches(t: seq<Slot>, c: seq<Cell>, q: nat)
    requires LayoutOk(c) && Matches(t, c, Quotients(c)) && q < |c|
    ensures Matches(t[q := t[q].(occupied := true)], c, Quotients(c) + {q})
  {
    var t' := t[q := t[q].(occupied := true)];
    forall s: nat | s < |c|
      ensures SlotMatches(t'[s], c, Quotients(c) + {q}, s)
    {
      assert SlotMatches(t[s], c, Quotients(c), s);
    }
  }

  /** Inserting into an empty canonical slot. */
  lemma AloneInSlot(t: seq<Slot>, c: seq<Cell>, q: nat, r: nat)
    requires LayoutOk(c) && Matches(t, c, Quotients(c)) && q < |c| && c[q].Vacant?
    ensures var c' := Inserted(c, q, 0, Entry(q, r));
            && LayoutOk(c')
            && Matches(t[q := Slot(true, false, false, r)], c', Quotients(c'))
            && Contents(c') == Contents(c) + {(q, r)}
            && (q, r) !in Contents(c)
            && |Contents(c')| == |Contents(c)| + 1
            && |Used(c')| == |Used(c)| + 1
  {
    var occ := Quotients(c) + {q};
    var t' := t[q := t[q].(occupied := true)];
    var elem := Slot(false, false, false, r);
    OccupiedMatches(t, c, q);
    assert FirstVacancy(c, q, 0);
    assert !Before(c, q, q, r);
    assert LowerBound(c, q, r, q);
    assert SlotMatches(t'[q], c, occ, q);
    InsertionDone(t', c, occ, q, r, q, q, 0, elem);
    assert ShiftedRight(t', q, 0, elem) == t[q := Slot(true, false, false, r)];
  }

  // ----- facts used by Remove

  lemma {:induction false} HighBits(x: Word, n: nat)
    ensures Shr(x, n) == 0 <==> x < Pow2(n)
    decreases n
  {
    if n > 0 {
      HighBits(x / 2, n - 1);
    }
  }

  lemma RemovalDone(c: seq<Cell>, from: nat, k: nat)
    requires RemoveHere(c, from, k)
    ensures var c' := Removed(c, from, k);
            && LayoutOk(c')
            && Contents(c') == Contents(c) - {(c[from].quot, c[from].rem)}
            && |Contents(c')| == |Contents(c)| - 1
            && |Used(c')| == |Used(c)| - 1
            && Wrap(from + k, |c|) !in Quotients(c')
            && Quotients(c') == if !Continues(c, from) && !Continues(c, Next(from, |c|))
                                then Quotients(c) - {c[from].quot} else Quotients(c)
  {
    var c' := Removed(c, from, k);
    RemovedLayout(c, from, k);
    RemovedContents(c, from, k);
    RemovedQuotients(c, from, k);
    assert (c[from].quot, c[from].rem) in Contents(c);
    if Wrap(from + k, |c|) in Quotients(c') {
      OccupiedIsUsed(c', Wrap(from + k, |c|));
    }
  }

  lemma FreedBy(c: seq<Cell>, from: nat, k: nat)
    requires RemoveHere(c, from, k)
    ensures var q, occ := c[from].quot, Quotients(Removed(c, from, k));
            && Quotients(c) - {q} <= occ <= Quotients(c)
            && (q !in occ ==> !Continues(c, from) && !Continues(c, Next(from, |c|)))
  {
    assert c[from].quot in Quotients(c);
    RemovedQuotients(c, from, k);
  }

  lemma FreedMatches(t: seq<Slot>, c: seq<Cell>, q: nat)
    requires LayoutOk(c) && Matches(t, c, Quotients(c)) && q < |c|
    ensures Matches(t[q := t[q].(occupied := false)], c, Quotients(c) - {q})
  {
    var t' := t[q := t[q].(occupied := false)];
    forall s: nat | s < |c|
      ensures SlotMatches(t'[s], c, Quotients(c) - {q}, s)
    {
      assert SlotMatches(t[s], c, Quotients(c), s);
    }
  }

  lemma ClosedGap(t: seq<Slot>, c: seq<Cell>, from: nat, k: nat)
    requires RemoveHere(c, from, k) && Matches(t, c, Quotients(Removed(c, from, k)))
    requires Wrap(from + k, |c|) !in Quotients(Removed(c, from, k))
    ensures var c', u := Removed(c, from, k), ShiftedLeft(t, c, from, k);
            Matches(u[from := Repaired(u[from], !Continues(c, from), from == c[from].quot)], c', Quotients(c'))
  {
    var c', u := Removed(c, from, k), ShiftedLeft(t, c, from, k);
    var occ := Quotients(c');
    var u' := u[from := Repaired(u[from], !Continues(c, from), from == c[from].quot)];
    RepairedMatches(t, c, occ, from, k);
    forall s: nat | s < |c|
      ensures SlotMatches(u'[s], c', occ, s)
    {
      if s != from {
        ShiftedLeftMatches(t, c, occ, from, k, s);
      }
    }
  }

  lemma NextQuotient(c: seq<Cell>, s: nat)
    requires LayoutOk(c) && s < |c| && c[s].Entry? && c[Next(s, |c|)].Entry?
    requires Disp(c, Next(s, |c|)) > 0 && !Continues(c, Next(s, |c|))
    ensures 0 < Q(c, s) + |c| && Q(c, s) < Q(c, s + 1) < |c|
    ensures Wrap(Q(c, s), |c|) == c[s].quot && Wrap(Q(c, s + 1), |c|) == c[Next(s, |c|)].quot
  {
    QStep(c, s + 1);
    QuotientAt(c, s);
    QuotientAt(c, s + 1);
  }

  // ----- the loop of RemoveAt

  /** The first j slots have been refilled from the right, the rest are as before. */
  ghost predicate Closing(t: seq<Slot>, now: seq<Slot>, c: seq<Cell>, start: nat, j: nat, slot: nat) {
    && Shape(c) && |now| == |t| == |c| && start < |t| && j < |t| && slot == Wrap(start + j, |t|) && c[slot].Entry?
    && forall s: nat {:trigger now[s]} :: s < |t| ==>
         now[s] == if Ahead(start, s, |t|) < j then MovedLeft(t, c, s) else t[s]
  }

  lemma ClosingStart(t: seq<Slot>, c: seq<Cell>, start: nat)
    requires Shape(c) && |t| == |c| && start < |t| && c[start].Entry?
    ensures Closing(t, t, c, start, 0, start)
  {
  }

  lemma ClosingStep(t: seq<Slot>, now: seq<Slot>, c: seq<Cell>, occ: set<nat>, start: nat, k: nat, j: nat, slot: nat)
    requires RemoveHere(c, start, k) && Matches(t, c, occ) && Closing(t, now, c, start, j, slot) && j <= k
    requires Quotients(c) - {c[start].quot} <= occ <= Quotients(c)
    requires c[start].quot !in occ ==> !Continues(c, start) && !Continues(c, Next(start, |c|))
    ensures var u := Next(slot, |c|);
            && (j == k <==> u == start || Clear(now[u]) || (now[u].occupied && !now[u].continuation && !now[u].shifted))
            && (j == k ==> now[slot := Slot(false, false, false, 0)] == ShiftedLeft(t, c, start, k))
            && (j < k ==> now[u] == t[u] && c[u].Entry? && Disp(c, u) > 0 && t[u].continuation == Continues(c, u)
                          && c[u].quot in occ
                          && Closing(t, now[slot := MovedLeft(t, c, slot)], c, start, j + 1, u)
                          && t[slot].occupied == (slot in occ) && t[u].shifted)
            && (forall s: nat {:trigger now[s]} :: s < |now| ==> now[s].occupied == (s in occ))
  {
    hide *;
    ClosingFits(t, now, c, start, j, slot);
    ClosingEnds(t, now, c, occ, start, k, j, slot);
    ClosingLast(t, now, c, occ, start, k, j, slot);
    ClosingNext(t, now, c, occ, start, k, j, slot);
    ClosingOccupied(t, now, c, occ, start, k, j, slot);
  }

  lemma ClosingFits(t: seq<Slot>, now: seq<Slot>, c: seq<Cell>, start: nat, j: nat, slot: nat)
    requires Closing(t, now, c, start, j, slot)
    ensures |now| == |t| == |c| && slot < |c| && start < |c| && c[slot].Entry? && Next(slot, |c|) < |c|
  {
  }

  /** The loop stops just where the cluster ends. */
  lemma ClosingEnds(t: seq<Slot>, now: seq<Slot>, c: seq<Cell>, occ: set<nat>, start: nat, k: nat, j: nat, slot: nat)
    requires RemoveHere(c, start, k) && Matches(t, c, occ) && Closing(t, now, c, start, j, slot) && j <= k
    requires Quotients(c) - {c[start].quot} <= occ <= Quotients(c)
    requires c[start].quot !in occ ==> !Continues(c, start) && !Continues(c, Next(start, |c|))
    ensures var u := Next(slot, |c|);
            j == k <==> u == start || Clear(now[u]) || (now[u].occupied && !now[u].continuation && !now[u].shifted)
  {
    var u := Next(slot, |c|);
    assert SlotMatches(t[u], c, occ, u) && SlotMatches(t[slot], c, occ, slot);
    if c[u].Entry? && c[u].quot !in occ {
      SoleEntry(c, start, u);
    }
  }

  lemma ClosingLast(t: seq<Slot>, now: seq<Slot>, c: seq<Cell>, occ: set<nat>, start: nat, k: nat, j: nat, slot: nat)
    requires RemoveHere(c, start, k) && Matches(t, c, occ) && Closing(t, now, c, start, j, slot) && j <= k
    requires Quotients(c) - {c[start].quot} <= occ <= Quotients(c)
    requires c[start].quot !in occ ==> !Continues(c, start) && !Continues(c, Next(start, |c|))
    ensures j == k ==> now[slot := Slot(false, false, false, 0)] == ShiftedLeft(t, c, start, k)
  {
    var u := Next(slot, |c|);
    assert SlotMatches(t[u], c, occ, u) && SlotMatches(t[slot], c, occ, slot);
    if c[u].Entry? && c[u].quot !in occ {
      SoleEntry(c, start, u);
    }
  }

  lemma ClosingNext(t: seq<Slot>, now: seq<Slot>, c: seq<Cell>, occ: set<nat>, start: nat, k: nat, j: nat, slot: nat)
    requires RemoveHere(c, start, k) && Matches(t, c, occ) && Closing(t, now, c, start, j, slot) && j <= k
    requires Quotients(c) - {c[start].quot} <= occ <= Quotients(c)
    requires c[start].quot !in occ ==> !Continues(c, start) && !Continues(c, Next(start, |c|))
    ensures var u := Next(slot, |c|);
            j < k ==> now[u] == t[u] && c[u].Entry? && Disp(c, u) > 0 && t[u].continuation == Continues(c, u)
                      && c[u].quot in occ
                      && Closing(t, now[slot := MovedLeft(t, c, slot)], c, start, j + 1, u)
                      && t[slot].occupied == (slot in occ) && t[u].shifted
  {
    var u := Next(slot, |c|);
    assert SlotMatches(t[u], c, occ, u) && SlotMatches(t[slot], c, occ, slot);
    if c[u].Entry? && c[u].quot !in occ {
      SoleEntry(c, start, u);
    }
  }

  lemma ClosingOccupied(t: seq<Slot>, now: seq<Slot>, c: seq<Cell>, occ: set<nat>, start: nat, k: nat, j: nat, slot: nat)
    requires RemoveHere(c, start, k) && Matches(t, c, occ) && Closing(t, now, c, start, j, slot) && j <= k
    requires Quotients(c) - {c[start].quot} <= occ <= Quotients(c)
    requires c[start].quot !in occ ==> !Continues(c, start) && !Continues(c, Next(start, |c|))
    ensures forall s: nat {:trigger now[s]} :: s < |now| ==> now[s].occupied == (s in occ)
  {
    var u := Next(slot, |c|);
    assert SlotMatches(t[u], c, occ, u) && SlotMatches(t[slot], c, occ, slot);
    if c[u].Entry? && c[u].quot !in occ {
      SoleEntry(c, start, u);
    }
  }

  // ----- the loop of InsertAt

  /** What `insertAt` carries when it reaches the j-th slot. */
  ghost function Carried(t: seq<Slot>, start: nat, elem: Slot, j: nat): Slot
    requires start < |t| && j <= |t|
  {
    if j == 0 then elem else t[Wrap(start + j - 1, |t|)].(shifted := true, occupied := false)
  }

  /** The first j slots have been rewritten, the rest are as before. */
  ghost predicate ShiftingRight(t: seq<Slot>, now: seq<Slot>, start: nat, k: nat, elem: Slot, j: nat, slot: nat) {
    && |now| == |t| && start < |t| && j <= |t| && slot == Wrap(start + j, |t|)
    && forall s: nat {:trigger now[s]} :: s < |t| ==>
         now[s] == if Ahead(start, s, |t|) < j then ShiftedRight(t, start, k, elem)[s] else t[s]
  }

  lemma ShiftingStart(t: seq<Slot>, start: nat, k: nat, elem: Slot)
    requires start < |t|
    ensures ShiftingRight(t, t, start, k, elem, 0, start)
  {
  }

  lemma ShiftingStep(t: seq<Slot>, now: seq<Slot>, start: nat, k: nat, elem: Slot, j: nat, slot: nat)
    requires ClearAhead(t, start, k) && ShiftingRight(t, now, start, k, elem, j, slot) && j <= k && !elem.occupied
    ensures now[slot] == t[slot]
    ensures Clear(t[slot]) <==> j == k
    ensures var x := Carried(t, start, elem, j).(occupied := t[slot].occupied);
            ShiftingRight(t, now[slot := x], start, k, elem, j + 1, Next(slot, |t|))
    ensures Carried(t, start, elem, j + 1) == t[slot].(shifted := true, occupied := false)
  {
    ShiftedAt(t, start, k, elem, j, slot);
    hide ShiftedRight;
    var x := Carried(t, start, elem, j).(occupied := t[slot].occupied);
    forall s: nat | s < |t|
      ensures now[slot := x][s] == if Ahead(start, s, |t|) < j + 1 then ShiftedRight(t, start, k, elem)[s] else t[s]
    {
      SlotAhead(start, s, j, |t|);
    }
    NextAhead(start, j, slot, |t|);
  }

  /** What the shift puts into the slot it has come to. */
  lemma ShiftedAt(t: seq<Slot>, start: nat, k: nat, elem: Slot, j: nat, slot: nat)
    requires ClearAhead(t, start, k) && start < |t| && j <= k && slot == Wrap(start + j, |t|) && !elem.occupied
    ensures Ahead(start, slot, |t|) == j && (Clear(t[slot]) <==> j == k)
    ensures |ShiftedRight(t, start, k, elem)| == |t|
    ensures ShiftedRight(t, start, k, elem)[slot] == Carried(t, start, elem, j).(occupied := t[slot].occupied)
    ensures Carried(t, start, elem, j + 1) == t[slot].(shifted := true, occupied := false)
  {
    assert Ahead(start, slot, |t|) == j;
    if j > 0 {
      assert Wrap(start + j - 1, |t|) == Prev(slot, |t|);
    }
  }

  /** Only one slot is `j` ahead. */
  lemma SlotAhead(start: nat, s: nat, j: nat, n: nat)
    requires start < n && s < n && j < n
    ensures Ahead(start, s, n) == j <==> s == Wrap(start + j, n)
  {
  }

  lemma NextAhead(start: nat, j: nat, slot: nat, n: nat)
    requires start < n && j < n && slot == Wrap(start + j, n)
    ensures Next(slot, n) == Wrap(start + (j + 1), n)
  {
  }

  lemma ShiftingEnd(t: seq<Slot>, now: seq<Slot>, start: nat, k: nat, elem: Slot, slot: nat)
    requires ClearAhead(t, start, k) && ShiftingRight(t, now, start, k, elem, k + 1, slot)
    ensures now == ShiftedRight(t, start, k, elem)
  {
  }
}
