/** The layout of a quotient filter's ring of slots.

    A ring is described by its cells: each slot is vacant or holds one entry, a (quotient, remainder)
    pair whose canonical slot is its quotient. The three flag bits stored in a slot are determined by the
    cells (`Matches`). Positions are also counted "unrolled", from -n to 2n-1, so that a cluster that wraps
    around the end of the table is still an interval; `Wrap` maps a position to its slot. */
module RingLayout {

  datatype Cell = Vacant | Entry(quot: nat, rem: nat)

  datatype Slot = Slot(occupied: bool, continuation: bool, shifted: bool, rem: nat)

  function Wrap(p: int, n: nat): (s: nat)
    requires 0 <= p + n && p < 2 * n
    ensures s < n
  {
    if p < 0 then p + n else if p < n then p else p - n
  }

  function Next(s: nat, n: nat): (r: nat)
    requires s < n
    ensures r < n
  {
    if s + 1 == n then 0 else s + 1
  }

  function Prev(s: nat, n: nat): (r: nat)
    requires s < n
    ensures r < n
  {
    if s == 0 then n - 1 else s - 1
  }

  /** How many slots `s` lies ahead of `from`, going round the ring. */
  function Ahead(from: nat, s: nat, n: nat): (d: nat)
    requires from < n && s < n
    ensures d < n
  {
    if from <= s then s - from else s - from + n
  }

  ghost predicate Shape(c: seq<Cell>) {
    |c| >= 2 && forall s :: 0 <= s < |c| && c[s].Entry? ==> c[s].quot < |c|
  }

  /** Distance of the entry in slot `s` from its canonical slot. */
  ghost function Disp(c: seq<Cell>, s: nat): (d: nat)
    requires Shape(c) && s < |c|
    ensures d < |c|
  {
    if c[s].Vacant? then 0 else Ahead(c[s].quot, s, |c|)
  }

  /** A displaced entry follows another entry directly, entries appear in quotient order, and the
      remainders of one quotient strictly increase. */
  ghost predicate Linked(c: seq<Cell>, s: nat)
    requires Shape(c) && s < |c|
  {
    var t := Prev(s, |c|);
    Disp(c, s) > 0 ==>
      && c[t].Entry?
      && Disp(c, s) <= Disp(c, t) + 1
      && (c[t].quot == c[s].quot ==> c[t].rem < c[s].rem)
  }

  /** The ring layout invariant. The last conjunct matters when the table is full. */
  ghost predicate LayoutOk(c: seq<Cell>) {
    && Shape(c)
    && (forall s: nat :: s < |c| ==> Linked(c, s))
    && exists s: nat :: s < |c| && Disp(c, s) == 0
  }

  ghost function Contents(c: seq<Cell>): set<(nat, nat)> {
    set s | 0 <= s < |c| && c[s].Entry? :: (c[s].quot, c[s].rem)
  }

  ghost function Quotients(c: seq<Cell>): set<nat> {
    set s | 0 <= s < |c| && c[s].Entry? :: c[s].quot
  }

  ghost function Used(c: seq<Cell>): set<nat> {
    set s: nat | s < |c| && c[s].Entry?
  }

  /** An entry that continues the run of the slot before it. */
  ghost predicate Continues(c: seq<Cell>, s: nat)
    requires Shape(c) && s < |c|
  {
    var t := Prev(s, |c|);
    Disp(c, s) > 0 && c[t].Entry? && c[t].quot == c[s].quot
  }

  ghost predicate SlotMatches(t: Slot, c: seq<Cell>, occ: set<nat>, s: nat)
    requires Shape(c) && s < |c|
  {
    && t.occupied == (s in occ)
    && t.continuation == Continues(c, s)
    && t.shifted == (Disp(c, s) > 0)
    && (c[s].Entry? ==> t.rem == c[s].rem)
  }

  /** The stored flags and remainders are those of the cells, where `occ` says which occupied bits are set. */
  ghost predicate Matches(t: seq<Slot>, c: seq<Cell>, occ: set<nat>) {
    && Shape(c)
    && |t| == |c|
    && forall s: nat {:trigger t[s]} :: s < |c| ==> SlotMatches(t[s], c, occ, s)
  }

  predicate Clear(t: Slot) {
    !t.occupied && !t.continuation && !t.shifted
  }

  // ----- unrolled positions

  ghost predicate Window(c: seq<Cell>, p: int) {
    -|c| <= p < 2 * |c|
  }

  ghost function At(c: seq<Cell>, p: int): Cell
    requires Window(c, p)
  {
    c[Wrap(p, |c|)]
  }

  /** The unrolled canonical position of what lies at position `p`; a vacant slot counts as its own. */
  ghost function Q(c: seq<Cell>, p: int): (q: int)
    requires Shape(c) && Window(c, p)
    ensures p - |c| < q <= p
  {
    p - Disp(c, Wrap(p, |c|))
  }

  ghost predicate Displaced(c: seq<Cell>, i: int)
    requires Shape(c) && Window(c, i)
  {
    Q(c, i) < i
  }

  ghost predicate InRun(c: seq<Cell>, i: int, q: int)
    requires Shape(c) && Window(c, i)
  {
    At(c, i).Entry? && Q(c, i) == q
  }

  ghost predicate NotEarlier(c: seq<Cell>, i: int, q: int)
    requires Shape(c) && Window(c, i)
  {
    At(c, i).Entry? ==> q <= Q(c, i)
  }

  ghost predicate Earlier(c: seq<Cell>, i: int, q: int)
    requires Shape(c) && Window(c, i)
  {
    At(c, i).Entry? && Q(c, i) < q
  }

  lemma QStep(c: seq<Cell>, p: int)
    requires LayoutOk(c) && Window(c, p) && Window(c, p - 1)
    ensures Q(c, p - 1) <= Q(c, p)
    ensures Q(c, p) < p ==> At(c, p).Entry? && At(c, p - 1).Entry?
    ensures Continues(c, Wrap(p, |c|)) <==> Q(c, p) < p && Q(c, p) == Q(c, p - 1)
    ensures Continues(c, Wrap(p, |c|)) ==> At(c, p - 1).rem < At(c, p).rem
  {
    assert Linked(c, Wrap(p, |c|));
    assert Prev(Wrap(p, |c|), |c|) == Wrap(p - 1, |c|);
  }

  lemma {:induction false} QMonotone(c: seq<Cell>, p: int, r: int)
    requires LayoutOk(c) && Window(c, p) && Window(c, r) && p <= r
    ensures Q(c, p) <= Q(c, r)
    decreases r - p
  {
    if p < r {
      QStep(c, r);
      QMonotone(c, p, r - 1);
    }
  }

  /** Between an entry's canonical position and its position there is no vacancy, and everything after
      the canonical position is displaced. */
  lemma {:induction false} Compact(c: seq<Cell>, p: int, i: int)
    requires LayoutOk(c) && Window(c, p) && Window(c, i)
    requires At(c, p).Entry? && Q(c, p) <= i <= p
    ensures At(c, i).Entry?
    ensures Q(c, p) < i ==> Q(c, i) < i
    decreases p - i
  {
    if i < p {
      Compact(c, p, i + 1);
      QStep(c, i + 1);
      QMonotone(c, i, p);
    }
  }

  lemma {:induction false} RunIncreases(c: seq<Cell>, p: int, r: int)
    requires LayoutOk(c) && Window(c, p) && Window(c, r) && p < r
    requires At(c, p).Entry? && At(c, r).Entry? && Q(c, p) == Q(c, r)
    ensures At(c, p).rem < At(c, r).rem
    decreases r - p
  {
    QStep(c, r);
    QMonotone(c, p, r - 1);
    if p < r - 1 {
      RunIncreases(c, p, r - 1);
    }
  }

  lemma QuotientAt(c: seq<Cell>, p: int)
    requires Shape(c) && Window(c, p) && Window(c, Q(c, p)) && At(c, p).Entry?
    ensures Wrap(Q(c, p), |c|) == At(c, p).quot
  {
  }

  /** The unrolled position, at or after `q`, of a slot that holds quotient `Wrap(q)`. */
  lemma Locate(c: seq<Cell>, q: int, s: nat) returns (p: int)
    requires Shape(c) && -|c| <= q < |c| && s < |c| && c[s].Entry? && c[s].quot == Wrap(q, |c|)
    ensures q <= p < q + |c| && Wrap(p, |c|) == s && Q(c, p) == q
  {
    p := q + Disp(c, s);
  }

  /** With a vacancy in the ring no entry is displaced all the way round. */
  lemma VacancyBoundsDisp(c: seq<Cell>, v: nat, s: nat)
    requires LayoutOk(c) && v < |c| && c[v].Vacant? && s < |c|
    ensures Disp(c, s) < Ahead(v, s, |c|) || s == v
    ensures Disp(c, s) < |c| - 1
  {
    if s != v {
      var p := v + Ahead(v, s, |c|);
      assert Wrap(p, |c|) == s;
      if c[s].Entry? && Q(c, p) <= v {
        Compact(c, p, v);
        assert false;
      }
    }
  }

  lemma OccupiedIsUsed(c: seq<Cell>, q: nat)
    requires LayoutOk(c) && q < |c| && q in Quotients(c)
    ensures c[q].Entry?
  {
    var s :| 0 <= s < |c| && c[s].Entry? && c[s].quot == q;
    var p := Locate(c, q, s);
    Compact(c, p, q);
  }

  /** Flag bits tell vacancies apart, as long as the occupied bits cover the stored quotients and set none at
      a vacancy. */
  lemma ClearIsVacant(t: seq<Slot>, c: seq<Cell>, occ: set<nat>, s: nat)
    requires LayoutOk(c) && Matches(t, c, occ) && s < |c|
    requires c[s].Vacant? ==> s !in occ
    requires c[s].Entry? && c[s].quot == s ==> s in occ
    ensures Clear(t[s]) <==> c[s].Vacant?
  {
    assert SlotMatches(t[s], c, occ, s);
  }

  // ----- finding a run

  /** Going back from slot `quot` has reached position `a` over displaced entries only. */
  ghost predicate BackTo(c: seq<Cell>, quot: nat, a: int)
    requires Shape(c)
  {
    && quot - |c| < a <= quot < |c|
    && At(c, a).Entry?
    && forall i :: a < i <= quot ==> Displaced(c, i)
  }

  lemma BackOne(t: seq<Slot>, c: seq<Cell>, occ: set<nat>, quot: nat, a: int, s0: nat)
    requires LayoutOk(c) && Matches(t, c, occ) && BackTo(c, quot, a)
    requires s0 < |c| && Disp(c, s0) == 0
    ensures t[Wrap(a, |c|)].shifted ==> BackTo(c, quot, a - 1)
    ensures !t[Wrap(a, |c|)].shifted ==> ClusterFrom(c, quot, a)
  {
    assert SlotMatches(t[Wrap(a, |c|)], c, occ, Wrap(a, |c|));
    QStep(c, a);
    var p := if s0 <= quot then s0 else s0 - |c|;
    assert !Displaced(c, p);
  }

  /** A set continuation bit extends the run of the slot before. */
  lemma RunStep(t: seq<Slot>, c: seq<Cell>, occ: set<nat>, i: int, q: int)
    requires LayoutOk(c) && Matches(t, c, occ) && Window(c, i) && Window(c, i - 1) && InRun(c, i - 1, q)
    ensures t[Wrap(i, |c|)].continuation == Continues(c, Wrap(i, |c|)) == InRun(c, i, q)
    ensures InRun(c, i, q) ==> At(c, i - 1).rem < At(c, i).rem && i < q + |c|
  {
    assert SlotMatches(t[Wrap(i, |c|)], c, occ, Wrap(i, |c|));
    QStep(c, i);
  }

  /** `p` is where the run of quotient `q` starts, or would start. */
  ghost predicate RunStart(c: seq<Cell>, q: nat, p: int)
    requires Shape(c)
  {
    && q <= p < q + |c| < 2 * |c|
    && (forall i :: q <= i < p ==> Earlier(c, i, q))
    && NotEarlier(c, p, q)
  }

  lemma RunHead(c: seq<Cell>, q: nat, p: int)
    requires LayoutOk(c) && RunStart(c, q, p) && q in Quotients(c)
    ensures At(c, p).Entry? && Q(c, p) == q
  {
    var s :| 0 <= s < |c| && c[s].Entry? && c[s].quot == q;
    var r := Locate(c, q, s);
    assert p <= r by {
      assert !Earlier(c, r, q);
    }
    Compact(c, r, p);
    QMonotone(c, p, r);
  }

  /** The cluster of slot `quot` starts at position `a`. */
  ghost predicate ClusterFrom(c: seq<Cell>, quot: nat, a: int)
    requires Shape(c)
  {
    && quot - |c| < a <= quot < |c|
    && InRun(c, a, a)
    && forall i :: a < i <= quot ==> Displaced(c, i)
  }

  /** The search for the run of `quot` has reached quotient `st`, whose run starts at position `sl`, or
      would start there when `st` is the quotient looked for. */
  ghost predicate Reached(c: seq<Cell>, quot: nat, a: int, st: int, sl: int)
    requires Shape(c)
  {
    && ClusterFrom(c, quot, a)
    && a <= st <= quot && a <= sl < st + |c|
    && (forall i :: a <= i < sl ==> Earlier(c, i, st))
    && (st < quot ==> InRun(c, sl, st))
    && (st == quot ==> RunStart(c, quot, sl))
  }

  lemma ReachedFirst(c: seq<Cell>, quot: nat, a: int)
    requires LayoutOk(c) && ClusterFrom(c, quot, a)
    ensures Reached(c, quot, a, a, a)
  {
  }

  /** Positions `head` to `sl - 1` are the rest of the run of `q`, and `sl` is not part of it. */
  ghost predicate RestOfRun(c: seq<Cell>, head: int, q: int, sl: int)
    requires Shape(c)
  {
    && 0 < head + |c| && head < sl <= q + |c| < 2 * |c|
    && (forall i :: head <= i < sl ==> InRun(c, i, q))
    && !Continues(c, Wrap(sl, |c|))
  }

  /** `st` is the first position after `was` whose slot is in `occ`. */
  ghost predicate NextIn(occ: set<nat>, n: nat, was: int, st: int) {
    && 0 <= was + n && was < st < n
    && Wrap(st, n) in occ
    && forall i {:trigger Wrap(i, n)} :: was < i < st ==> Wrap(i, n) !in occ
  }

  lemma RestOfRunStart(c: seq<Cell>, head: int, q: int)
    requires LayoutOk(c) && 0 < head + |c| && head < q + |c| < 2 * |c| && InRun(c, head, q)
    ensures RunSoFar(c, head, q, head + 1)
  {
  }

  ghost predicate RunSoFar(c: seq<Cell>, head: int, q: int, sl: int)
    requires Shape(c)
  {
    && 0 < head + |c| && head < sl <= q + |c| < 2 * |c|
    && forall i :: head <= i < sl ==> InRun(c, i, q)
  }

  lemma RunSoFarStep(t: seq<Slot>, c: seq<Cell>, occ: set<nat>, head: int, q: int, sl: int)
    requires LayoutOk(c) && Matches(t, c, occ) && RunSoFar(c, head, q, sl)
    ensures t[Wrap(sl, |c|)].continuation ==> sl < q + |c| && RunSoFar(c, head, q, sl + 1)
    ensures !t[Wrap(sl, |c|)].continuation ==> RestOfRun(c, head, q, sl)
  {
    assert InRun(c, sl - 1, q);
    RunStep(t, c, occ, sl, q);
  }

  /** One round of the search: from the run of quotient `was` to that of the next occupied quotient. */
  lemma NextRun(c: seq<Cell>, occ: set<nat>, quot: nat, a: int, was: int, head: int, st: int, sl: int)
    requires LayoutOk(c) && Reached(c, quot, a, was, head) && was < quot
    requires Quotients(c) <= occ <= Quotients(c) + {quot}
    requires RestOfRun(c, head, was, sl)
    requires NextIn(occ, |c|, was, st) && st <= quot
    ensures Reached(c, quot, a, st, sl)
  {
    assert forall i :: a <= i < sl ==> Earlier(c, i, was) || InRun(c, i, was);
    NextRunFound(c, occ, quot, a, was, st, sl);
    forall i | a <= i < sl
      ensures Earlier(c, i, st)
    {
      assert Earlier(c, i, was) || InRun(c, i, was);
    }
  }

  lemma NextRunFound(c: seq<Cell>, occ: set<nat>, quot: nat, a: int, was: int, st: int, sl: int)
    requires LayoutOk(c) && ClusterFrom(c, quot, a)
    requires Quotients(c) <= occ <= Quotients(c) + {quot}
    requires a <= was < st <= quot
    requires a < sl <= was + |c|
    requires forall i :: a <= i < sl ==> Earlier(c, i, was) || InRun(c, i, was)
    requires InRun(c, sl - 1, was) && !Continues(c, Wrap(sl, |c|))
    requires NextIn(occ, |c|, was, st)
    ensures st < quot ==> InRun(c, sl, st)
    ensures NotEarlier(c, sl, st)
    ensures st == quot ==> quot < sl < quot + |c|
  {
    if At(c, sl).Entry? {
      QStep(c, sl);
      assert was < Q(c, sl);
      QuotientAt(c, sl);
      assert Wrap(Q(c, sl), |c|) in occ;
      assert st <= Q(c, sl);
    }
    if sl <= quot {
      assert Displaced(c, sl);
      QStep(c, sl);
    }
    if st < quot {
      assert Wrap(st, |c|) in Quotients(c);
      var s :| 0 <= s < |c| && c[s].Entry? && c[s].quot == Wrap(st, |c|);
      var p := Locate(c, st, s);
      assert sl <= p by {
        assert !Earlier(c, p, was) && !InRun(c, p, was);
      }
      if quot < sl {
        Compact(c, p, sl);
      }
      QMonotone(c, sl, p);
    }
  }

  // ----- the place of a fingerprint

  /** What lies at position `i` sorts before fingerprint (q, r). */
  ghost predicate Before(c: seq<Cell>, i: int, q: int, r: nat)
    requires Shape(c) && Window(c, i)
  {
    At(c, i).Entry? && (Q(c, i) < q || (Q(c, i) == q && At(c, i).rem < r))
  }

  /** `p` is the first position, from the canonical slot on, that does not sort before (q, r). */
  ghost predicate LowerBound(c: seq<Cell>, q: nat, r: nat, p: int)
    requires Shape(c)
  {
    && q <= p <= q + |c| < 2 * |c|
    && (forall i {:trigger Before(c, i, q, r)} :: q <= i < p ==> Before(c, i, q, r))
    && !Before(c, p, q, r)
  }

  ghost predicate Holds(c: seq<Cell>, q: nat, r: nat, p: int)
    requires Shape(c) && Window(c, p)
  {
    At(c, p) == Entry(q, r) && Q(c, p) == q
  }

  /** A fingerprint is stored exactly when it sits at its lower bound. */
  lemma LowerBoundDecides(c: seq<Cell>, q: nat, r: nat, p: int)
    requires LayoutOk(c) && q < |c| && LowerBound(c, q, r, p)
    ensures (q, r) in Contents(c) <==> Holds(c, q, r, p)
  {
    if (q, r) in Contents(c) {
      var s :| 0 <= s < |c| && c[s].Entry? && (c[s].quot, c[s].rem) == (q, r);
      var x := Locate(c, q, s);
      assert p <= x by {
        assert !Before(c, x, q, r);
      }
      Compact(c, x, p);
      QMonotone(c, p, x);
      if p < x {
        RunIncreases(c, p, x);
        assert false;
      }
    }
  }

  /** The run of `q`, which starts at position `start`, has been scanned up to `p` over smaller remainders. */
  ghost predicate Scanned(c: seq<Cell>, q: nat, r: nat, start: int, p: int)
    requires Shape(c)
  {
    && RunStart(c, q, start) && start <= p <= q + |c|
    && forall i :: start <= i < p ==> InRun(c, i, q) && At(c, i).rem < r
  }

  lemma ScanStep(t: seq<Slot>, c: seq<Cell>, occ: set<nat>, q: nat, r: nat, start: int, p: int)
    requires LayoutOk(c) && Matches(t, c, occ) && Scanned(c, q, r, start, p) && p < q + |c| && InRun(c, p, q)
    ensures t[Wrap(p, |c|)].rem == At(c, p).rem
    ensures r <= At(c, p).rem ==> LowerBound(c, q, r, p) && (r == At(c, p).rem <==> Holds(c, q, r, p))
    ensures At(c, p).rem < r ==>
              && Scanned(c, q, r, start, p + 1)
              && if t[Wrap(p + 1, |c|)].continuation then p + 1 < q + |c| && InRun(c, p + 1, q)
                 else LowerBound(c, q, r, p + 1) && !Holds(c, q, r, p + 1)
  {
    assert SlotMatches(t[Wrap(p, |c|)], c, occ, Wrap(p, |c|));
    QuotientAt(c, p);
    forall i | q <= i < p
      ensures Before(c, i, q, r)
    {
      assert i < start ==> Earlier(c, i, q);
      assert start <= i ==> InRun(c, i, q);
    }
    if At(c, p).rem < r {
      assert Before(c, p, q, r);
      RunStep(t, c, occ, p + 1, q);
      QStep(c, p + 1);
    }
  }
}
