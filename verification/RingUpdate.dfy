/** Inserting into and removing from a ring of cells by moving the rest of a cluster one slot,
    and the same moves on the stored flag bits. */
module RingUpdate {
  import opened RingLayout

  // ----- insertion: slots from .. from + k move one slot right, the last of them into a vacancy

  /** Slots `from`, ..., `from + k - 1` are in use and `from + k` is the next vacancy. */
  ghost predicate FirstVacancy(c: seq<Cell>, from: nat, k: nat) {
    && from < |c| && k < |c|
    && (forall s: nat {:trigger c[s]} :: s < |c| && Ahead(from, s, |c|) < k ==> c[s].Entry?)
    && c[Wrap(from + k, |c|)].Vacant?
  }

  ghost function Inserted(c: seq<Cell>, from: nat, k: nat, x: Cell): seq<Cell>
    requires from < |c|
  {
    seq(|c|, s requires 0 <= s < |c| =>
      var d := Ahead(from, s, |c|);
      if d == 0 then x else if d <= k then c[Prev(s, |c|)] else c[s])
  }

  /** Where (q, r) goes: unrolled position p, slot `from`, with a vacancy k slots ahead. */
  ghost predicate InsertHere(c: seq<Cell>, q: nat, r: nat, p: int, from: nat, k: nat) {
    && LayoutOk(c) && q < |c|
    && LowerBound(c, q, r, p) && !Holds(c, q, r, p)
    && p < q + |c| && from == Wrap(p, |c|)
    && FirstVacancy(c, from, k)
  }

  lemma InsertedShape(c: seq<Cell>, q: nat, r: nat, p: int, from: nat, k: nat)
    requires InsertHere(c, q, r, p, from, k)
    ensures Shape(Inserted(c, from, k, Entry(q, r)))
  {
  }

  /** The slot before the insertion point keeps its entry, unless the new entry is unshifted. */
  lemma BeforeInsertion(c: seq<Cell>, q: nat, r: nat, p: int, from: nat, k: nat)
    requires InsertHere(c, q, r, p, from, k) && q < p
    ensures k < |c| - 1
    ensures var t := Prev(from, |c|); c[t].Entry? && Before(c, p - 1, q, r) && At(c, p - 1) == c[t]
  {
    assert Before(c, p - 1, q, r);
    assert Wrap(p - 1, |c|) == Prev(from, |c|);
  }

  lemma InsertedDisp(c: seq<Cell>, q: nat, r: nat, p: int, from: nat, k: nat, s: nat)
    requires InsertHere(c, q, r, p, from, k) && s < |c|
    requires Shape(Inserted(c, from, k, Entry(q, r)))
    ensures var d, e := Ahead(from, s, |c|), Disp(Inserted(c, from, k, Entry(q, r)), s);
            && (d == 0 ==> e == p - q)
            && (0 < d <= k ==> c[Prev(s, |c|)].Entry? && e == Disp(c, Prev(s, |c|)) + 1)
            && (k < d ==> e == Disp(c, s))
  {
    var d := Ahead(from, s, |c|);
    if 0 < d <= k {
      assert Ahead(from, Prev(s, |c|), |c|) == d - 1;
      VacancyBoundsDisp(c, Wrap(from + k, |c|), Prev(s, |c|));
    }
  }

  lemma NewEntryLinked(c: seq<Cell>, q: nat, r: nat, p: int, from: nat, k: nat)
    requires InsertHere(c, q, r, p, from, k)
    requires Shape(Inserted(c, from, k, Entry(q, r)))
    ensures Linked(Inserted(c, from, k, Entry(q, r)), from)
  {
    InsertedDisp(c, q, r, p, from, k, from);
    if q < p {
      InsertedDisp(c, q, r, p, from, k, Prev(from, |c|));
      BeforeInsertion(c, q, r, p, from, k);
    }
  }

  lemma FirstMovedLinked(c: seq<Cell>, q: nat, r: nat, p: int, from: nat, k: nat)
    requires InsertHere(c, q, r, p, from, k) && 1 <= k
    requires Shape(Inserted(c, from, k, Entry(q, r)))
    ensures Linked(Inserted(c, from, k, Entry(q, r)), Next(from, |c|))
  {
    InsertedDisp(c, q, r, p, from, k, Next(from, |c|));
    InsertedDisp(c, q, r, p, from, k, from);
    assert !Before(c, p, q, r) && At(c, p) == c[from];
  }

  lemma MovedEntryLinked(c: seq<Cell>, q: nat, r: nat, p: int, from: nat, k: nat, s: nat)
    requires InsertHere(c, q, r, p, from, k) && s < |c| && 1 < Ahead(from, s, |c|) <= k
    requires Shape(Inserted(c, from, k, Entry(q, r)))
    ensures Linked(Inserted(c, from, k, Entry(q, r)), s)
  {
    var n := |c|;
    var t := Prev(s, n);
    var u := Prev(t, n);
    InsertedDisp(c, q, r, p, from, k, s);
    InsertedDisp(c, q, r, p, from, k, t);
    assert Linked(c, t);
    assert Ahead(from, u, n) == Ahead(from, s, n) - 2;
    VacancyBoundsDisp(c, Wrap(from + k, n), u);
  }

  lemma RestLinked(c: seq<Cell>, q: nat, r: nat, p: int, from: nat, k: nat, s: nat)
    requires InsertHere(c, q, r, p, from, k) && s < |c| && k < Ahead(from, s, |c|)
    requires Shape(Inserted(c, from, k, Entry(q, r)))
    ensures Linked(Inserted(c, from, k, Entry(q, r)), s)
  {
    var t := Prev(s, |c|);
    InsertedDisp(c, q, r, p, from, k, s);
    InsertedDisp(c, q, r, p, from, k, t);
    assert Linked(c, s);
    if Ahead(from, s, |c|) == k + 1 {
      assert t == Wrap(from + k, |c|);
    }
  }

  lemma InsertedLinked(c: seq<Cell>, q: nat, r: nat, p: int, from: nat, k: nat, s: nat)
    requires InsertHere(c, q, r, p, from, k) && s < |c|
    requires Shape(Inserted(c, from, k, Entry(q, r)))
    ensures Linked(Inserted(c, from, k, Entry(q, r)), s)
  {
    var d := Ahead(from, s, |c|);
    if d == 0 {
      NewEntryLinked(c, q, r, p, from, k);
    } else if k < d {
      RestLinked(c, q, r, p, from, k, s);
    } else if d == 1 {
      FirstMovedLinked(c, q, r, p, from, k);
    } else {
      MovedEntryLinked(c, q, r, p, from, k, s);
    }
  }

  lemma InsertedLayout(c: seq<Cell>, q: nat, r: nat, p: int, from: nat, k: nat)
    requires InsertHere(c, q, r, p, from, k)
    ensures LayoutOk(Inserted(c, from, k, Entry(q, r)))
  {
    var n := |c|;
    var c' := Inserted(c, from, k, Entry(q, r));
    InsertedShape(c, q, r, p, from, k);
    forall s: nat | s < n
      ensures Linked(c', s)
    {
      InsertedLinked(c, q, r, p, from, k, s);
    }
    var v := Wrap(from + k, n);
    var s := Next(v, n);
    assert Linked(c, s);
    InsertedDisp(c, q, r, p, from, k, s);
    if k == n - 1 && q < p {
      BeforeInsertion(c, q, r, p, from, k);
    }
    assert Disp(c', s) == 0;
  }

  lemma InsertedContents(c: seq<Cell>, from: nat, k: nat, q: nat, r: nat)
    requires FirstVacancy(c, from, k)
    ensures var c' := Inserted(c, from, k, Entry(q, r));
            && Contents(c') == Contents(c) + {(q, r)}
            && Quotients(c') == Quotients(c) + {q}
            && Used(c') == Used(c) + {Wrap(from + k, |c|)}
  {
    var n := |c|;
    var c' := Inserted(c, from, k, Entry(q, r));
    assert c'[from] == Entry(q, r);
    forall s: nat | s < n && c[s].Entry?
      ensures (c[s].quot, c[s].rem) in Contents(c') && c[s].quot in Quotients(c')
    {
      var d := Ahead(from, s, n);
      var s' := if d < k then Next(s, n) else s;
      assert d != k;
      assert c'[s'] == c[s];
    }
    forall s: nat | s < n && c'[s].Entry?
      ensures (c'[s].quot, c'[s].rem) in Contents(c) + {(q, r)} && c'[s].quot in Quotients(c) + {q}
    {
      var d := Ahead(from, s, n);
      if d != 0 {
        var u := if d <= k then Prev(s, n) else s;
        assert c'[s] == c[u];
      }
    }
    forall s: nat | s < n
      ensures s in Used(c') <==> s in Used(c) || s == Wrap(from + k, n)
    {
      var d := Ahead(from, s, n);
      if 0 < d <= k {
        assert Ahead(from, Prev(s, n), n) == d - 1;
      }
    }
  }

  /** The stored slots after `insertAt`: occupied bits stay where they are. */
  ghost function ShiftedRight(t: seq<Slot>, from: nat, k: nat, elem: Slot): seq<Slot>
    requires from < |t|
  {
    seq(|t|, s requires 0 <= s < |t| =>
      var d := Ahead(from, s, |t|);
      if d == 0 then elem.(occupied := t[s].occupied)
      else if d <= k then t[Prev(s, |t|)].(shifted := true, occupied := t[s].occupied)
      else t[s])
  }

  /** The table agrees with the cells except that the continuation bit of slot `from` already says what it
      must say once (q, r) stands before it. */
  ghost predicate ReadyFor(t: seq<Slot>, c: seq<Cell>, occ: set<nat>, from: nat, q: nat)
    requires Shape(c) && from < |c|
  {
    && |t| == |c|
    && (forall s: nat {:trigger t[s]} :: s < |c| && s != from ==> SlotMatches(t[s], c, occ, s))
    && SlotMatches(t[from].(continuation := Continues(c, from)), c, occ, from)
    && (c[from].Entry? ==> t[from].continuation == (c[from].quot == q))
  }

  lemma NewEntryContinues(c: seq<Cell>, q: nat, r: nat, p: int, from: nat, k: nat)
    requires InsertHere(c, q, r, p, from, k)
    requires Shape(Inserted(c, from, k, Entry(q, r)))
    ensures Continues(Inserted(c, from, k, Entry(q, r)), from) <==> q < p && Q(c, p - 1) == q
  {
    InsertedDisp(c, q, r, p, from, k, from);
    if q < p {
      BeforeInsertion(c, q, r, p, from, k);
      QuotientAt(c, p - 1);
      assert Inserted(c, from, k, Entry(q, r))[Prev(from, |c|)] == c[Prev(from, |c|)];
    }
  }

  lemma MovedEntryContinues(c: seq<Cell>, q: nat, r: nat, p: int, from: nat, k: nat, s: nat)
    requires InsertHere(c, q, r, p, from, k) && s < |c| && 1 < Ahead(from, s, |c|) <= k
    requires Shape(Inserted(c, from, k, Entry(q, r)))
    ensures Continues(Inserted(c, from, k, Entry(q, r)), s) <==> Continues(c, Prev(s, |c|))
  {
    var n := |c|;
    var u := Prev(s, n);
    var w := Prev(u, n);
    InsertedDisp(c, q, r, p, from, k, s);
    assert Ahead(from, u, n) == Ahead(from, s, n) - 1 && Ahead(from, w, n) == Ahead(from, s, n) - 2;
    assert Inserted(c, from, k, Entry(q, r))[u] == c[w];
    VacancyBoundsDisp(c, Wrap(from + k, n), w);
  }

  lemma RestContinues(c: seq<Cell>, q: nat, r: nat, p: int, from: nat, k: nat, s: nat)
    requires InsertHere(c, q, r, p, from, k) && s < |c| && k < Ahead(from, s, |c|)
    requires Shape(Inserted(c, from, k, Entry(q, r)))
    ensures Continues(Inserted(c, from, k, Entry(q, r)), s) <==> Continues(c, s)
  {
    var u := Prev(s, |c|);
    InsertedDisp(c, q, r, p, from, k, s);
    assert Linked(c, s);
    if Ahead(from, s, |c|) == k + 1 {
      assert u == Wrap(from + k, |c|);
    } else {
      assert Ahead(from, u, |c|) == Ahead(from, s, |c|) - 1;
    }
  }

  lemma InsertedContinues(c: seq<Cell>, q: nat, r: nat, p: int, from: nat, k: nat, s: nat)
    requires InsertHere(c, q, r, p, from, k) && s < |c|
    requires Shape(Inserted(c, from, k, Entry(q, r)))
    ensures var d, b := Ahead(from, s, |c|), Continues(Inserted(c, from, k, Entry(q, r)), s);
            && (d == 0 ==> b == (q < p && Q(c, p - 1) == q))
            && (d == 1 <= k ==> c[from].Entry? && b == (c[from].quot == q))
            && (1 < d <= k ==> b == Continues(c, Prev(s, |c|)))
            && (k < d ==> b == Continues(c, s))
  {
    var d := Ahead(from, s, |c|);
    if d == 0 {
      NewEntryContinues(c, q, r, p, from, k);
    } else if k < d {
      RestContinues(c, q, r, p, from, k, s);
    } else if d == 1 {
      InsertedDisp(c, q, r, p, from, k, s);
    } else {
      MovedEntryContinues(c, q, r, p, from, k, s);
    }
  }

  /** What `insertAt` leaves in the table are the flags of the ring with (q, r) inserted. */
  lemma ShiftedRightMatches(t: seq<Slot>, c: seq<Cell>, occ: set<nat>, q: nat, r: nat, p: int, from: nat, k: nat, elem: Slot)
    requires InsertHere(c, q, r, p, from, k) && ReadyFor(t, c, occ, from, q)
    requires elem.shifted == (q < p) && elem.rem == r
    requires elem.continuation == (q < p && Q(c, p - 1) == q)
    ensures Matches(ShiftedRight(t, from, k, elem), Inserted(c, from, k, Entry(q, r)), occ)
  {
    var n := |c|;
    var t' := ShiftedRight(t, from, k, elem);
    var c' := Inserted(c, from, k, Entry(q, r));
    InsertedShape(c, q, r, p, from, k);
    forall s: nat | s < n
      ensures SlotMatches(t'[s], c', occ, s)
    {
      var u := Prev(s, n);
      InsertedDisp(c, q, r, p, from, k, s);
      InsertedContinues(c, q, r, p, from, k, s);
      assert s != from ==> SlotMatches(t[s], c, occ, s);
      assert u != from ==> SlotMatches(t[u], c, occ, u);
    }
  }

  /** Every slot up to the vacancy reads as in use, and the vacancy reads as empty. */
  ghost predicate ClearAhead(t: seq<Slot>, from: nat, k: nat) {
    && from < |t| && k < |t|
    && (forall s: nat {:trigger t[s]} :: s < |t| && Ahead(from, s, |t|) < k ==> !Clear(t[s]))
    && Clear(t[Wrap(from + k, |t|)])
  }

  lemma ReadyIsClearAhead(t: seq<Slot>, c: seq<Cell>, occ: set<nat>, from: nat, q: nat, k: nat)
    requires LayoutOk(c) && from < |c| && q < |c| && ReadyFor(t, c, occ, from, q) && FirstVacancy(c, from, k)
    requires occ == Quotients(c) + {q} && c[q].Entry?
    requires c[from].Vacant? ==> !t[from].continuation
    ensures ClearAhead(t, from, k)
  {
    hide RingLayout.Linked;
    var v := Wrap(from + k, |c|);
    forall s: nat | s < |c|
      ensures c[s].Entry? ==> !Clear(t[s])
    {
      assert s != from ==> SlotMatches(t[s], c, occ, s);
    }
    assert v != from ==> SlotMatches(t[v], c, occ, v);
    if v in Quotients(c) {
      OccupiedIsUsed(c, v);
    }
  }

  /** A new run goes exactly where the search for it ends. */
  lemma PlaceNewRun(t: seq<Slot>, c: seq<Cell>, occ: set<nat>, q: nat, r: nat, pos: int, k: nat)
    requires LayoutOk(c) && Matches(t, c, occ) && q < |c| && q !in Quotients(c)
    requires RunStart(c, q, pos) && FirstVacancy(c, Wrap(pos, |c|), k)
    ensures InsertHere(c, q, r, pos, Wrap(pos, |c|), k)
    ensures ReadyFor(t, c, occ, Wrap(pos, |c|), q)
    ensures !(q < pos && Q(c, pos - 1) == q)
  {
    var from := Wrap(pos, |c|);
    assert SlotMatches(t[from], c, occ, from);
    forall i | q <= i < pos
      ensures Before(c, i, q, r)
    {
      assert Earlier(c, i, q);
    }
    if At(c, pos).Entry? {
      QuotientAt(c, pos);
      assert At(c, pos).quot in Quotients(c);
    }
    if q < pos {
      assert Earlier(c, pos - 1, q);
    }
    QStep(c, pos);
  }

  /** A fingerprint that joins a run goes to its lower bound; its old head, if displaced, becomes a continuation. */
  lemma PlaceInRun(t: seq<Slot>, c: seq<Cell>, occ: set<nat>, q: nat, r: nat, pos: int, p: int, k: nat)
    requires LayoutOk(c) && Matches(t, c, occ) && q < |c|
    requires Scanned(c, q, r, pos, p) && InRun(c, pos, q) && LowerBound(c, q, r, p) && !Holds(c, q, r, p)
    requires FirstVacancy(c, Wrap(p, |c|), k)
    ensures p < q + |c| && InsertHere(c, q, r, p, Wrap(p, |c|), k)
    ensures Wrap(p, |c|) == Wrap(pos, |c|) <==> p == pos
    ensures p == pos ==> !(q < p && Q(c, p - 1) == q)
    ensures p == pos ==> ReadyFor(t[Wrap(p, |c|) := t[Wrap(p, |c|)].(continuation := true)], c, occ, Wrap(p, |c|), q)
    ensures pos < p ==> q < p && Q(c, p - 1) == q && ReadyFor(t, c, occ, Wrap(p, |c|), q)
  {
    var from := Wrap(p, |c|);
    var v := Wrap(from + k, |c|);
    assert p < q + |c| by {
      var x := if q <= v then v else v + |c|;
      assert Wrap(x, |c|) == v;
      assert !Before(c, x, q, r);
    }
    assert SlotMatches(t[from], c, occ, from);
    if p == pos {
      QuotientAt(c, p);
      if q < p {
        assert Earlier(c, p - 1, q);
      }
    } else {
      assert InRun(c, p - 1, q);
      RunStep(t, c, occ, p, q);
      QStep(c, p);
      if At(c, p).Entry? && Q(c, p) > q {
        QuotientAt(c, p);
      }
      if At(c, p).Entry? && Q(c, p) == q {
        QuotientAt(c, p);
      }
    }
  }

  lemma InsertedSizes(c: seq<Cell>, from: nat, k: nat, q: nat, r: nat)
    requires FirstVacancy(c, from, k) && (q, r) !in Contents(c)
    ensures var c' := Inserted(c, from, k, Entry(q, r));
            && Contents(c') == Contents(c) + {(q, r)}
            && Quotients(c') == Quotients(c) + {q}
            && |Contents(c')| == |Contents(c)| + 1
            && |Used(c')| == |Used(c)| + 1
  {
    InsertedContents(c, from, k, q, r);
    assert Wrap(from + k, |c|) !in Used(c);
  }

  /** Everything the filter's invariant needs after an insertion. */
  lemma InsertionDone(t: seq<Slot>, c: seq<Cell>, occ: set<nat>, q: nat, r: nat, p: int, from: nat, k: nat, elem: Slot)
    requires InsertHere(c, q, r, p, from, k) && ReadyFor(t, c, occ, from, q) && occ == Quotients(c) + {q}
    requires elem.shifted == (q < p) && elem.rem == r
    requires elem.continuation == (q < p && Q(c, p - 1) == q)
    ensures var c' := Inserted(c, from, k, Entry(q, r));
            && LayoutOk(c')
            && Matches(ShiftedRight(t, from, k, elem), c', Quotients(c'))
            && Contents(c') == Contents(c) + {(q, r)}
            && (q, r) !in Contents(c)
            && |Contents(c')| == |Contents(c)| + 1
            && |Used(c')| == |Used(c)| + 1
  {
    InsertedLayout(c, q, r, p, from, k);
    ShiftedRightMatches(t, c, occ, q, r, p, from, k, elem);
    LowerBoundDecides(c, q, r, p);
    InsertedSizes(c, from, k, q, r);
  }

  // ----- removal: slots from + 1 .. from + k move one slot left, and from + k becomes vacant

  /** Slots `from + 1`, ..., `from + k` are displaced, and there the cluster ends. */
  ghost predicate RestOfCluster(c: seq<Cell>, from: nat, k: nat)
    requires Shape(c)
  {
    && from < |c| && k < |c| && c[from].Entry?
    && (forall s: nat {:trigger Disp(c, s)} :: s < |c| && 0 < Ahead(from, s, |c|) <= k ==> Disp(c, s) > 0)
    && (k + 1 < |c| ==> Disp(c, Wrap(from + k + 1, |c|)) == 0)
  }

  ghost function Removed(c: seq<Cell>, from: nat, k: nat): seq<Cell>
    requires from < |c|
  {
    seq(|c|, s requires 0 <= s < |c| =>
      var d := Ahead(from, s, |c|);
      if d < k then c[Next(s, |c|)] else if d == k then Vacant else c[s])
  }

  ghost predicate RemoveHere(c: seq<Cell>, from: nat, k: nat) {
    LayoutOk(c) && RestOfCluster(c, from, k)
  }

  lemma RemovedDisp(c: seq<Cell>, from: nat, k: nat, s: nat)
    requires RemoveHere(c, from, k) && s < |c|
    ensures Shape(Removed(c, from, k))
    ensures var d, e := Ahead(from, s, |c|), Disp(Removed(c, from, k), s);
            && (d < k ==> Disp(c, Next(s, |c|)) > 0 && e == Disp(c, Next(s, |c|)) - 1)
            && (d == k ==> e == 0)
            && (k < d ==> e == Disp(c, s))
  {
    var d := Ahead(from, s, |c|);
    if d < k {
      assert Ahead(from, Next(s, |c|), |c|) == d + 1;
    }
  }

  /** Only an unshifted entry can have its cluster reach all the way round to it. */
  lemma FullCircle(c: seq<Cell>, from: nat, k: nat)
    requires RemoveHere(c, from, k) && k == |c| - 1
    ensures Disp(c, from) == 0
  {
    var s: nat :| s < |c| && Disp(c, s) == 0;
    assert Ahead(from, s, |c|) == 0;
  }

  lemma RemovedLinkedAtFrom(c: seq<Cell>, from: nat, k: nat)
    requires RemoveHere(c, from, k) && 0 < k
    ensures Shape(Removed(c, from, k)) && Linked(Removed(c, from, k), from)
  {
    var n := |c|;
    var t := Prev(from, n);
    RemovedDisp(c, from, k, from);
    RemovedDisp(c, from, k, t);
    assert Linked(c, from) && Linked(c, Next(from, n));
    if k == n - 1 {
      FullCircle(c, from, k);
    }
  }

  lemma RemovedLinkedMoved(c: seq<Cell>, from: nat, k: nat, s: nat)
    requires RemoveHere(c, from, k) && s < |c| && 0 < Ahead(from, s, |c|) < k
    ensures Shape(Removed(c, from, k)) && Linked(Removed(c, from, k), s)
  {
    var t := Prev(s, |c|);
    RemovedDisp(c, from, k, s);
    RemovedDisp(c, from, k, t);
    assert Linked(c, Next(s, |c|));
    assert Ahead(from, t, |c|) == Ahead(from, s, |c|) - 1;
  }

  lemma RemovedLinked(c: seq<Cell>, from: nat, k: nat, s: nat)
    requires RemoveHere(c, from, k) && s < |c|
    ensures Shape(Removed(c, from, k)) && Linked(Removed(c, from, k), s)
  {
    var d := Ahead(from, s, |c|);
    if d < k {
      if d == 0 {
        RemovedLinkedAtFrom(c, from, k);
      } else {
        RemovedLinkedMoved(c, from, k, s);
      }
    } else {
      RemovedDisp(c, from, k, s);
      assert Linked(c, s);
      if d == k + 1 {
        assert s == Wrap(from + k + 1, |c|);
      }
    }
  }

  lemma RemovedLayout(c: seq<Cell>, from: nat, k: nat)
    requires RemoveHere(c, from, k)
    ensures LayoutOk(Removed(c, from, k))
  {
    var c' := Removed(c, from, k);
    forall s: nat | s < |c|
      ensures Shape(c') && Linked(c', s)
    {
      RemovedLinked(c, from, k, s);
    }
    assert Disp(c', Wrap(from + k, |c|)) == 0;
  }

  lemma EntriesDiffer(c: seq<Cell>, s: nat, u: nat)
    requires LayoutOk(c) && s < |c| && u < |c| && c[s].Entry? && c[u] == c[s]
    ensures s == u
  {
    var p := Locate(c, c[s].quot, s);
    var r := Locate(c, c[s].quot, u);
    if p < r {
      RunIncreases(c, p, r);
    } else if r < p {
      RunIncreases(c, r, p);
    }
  }

  lemma RemovedContents(c: seq<Cell>, from: nat, k: nat)
    requires RemoveHere(c, from, k)
    ensures var c' := Removed(c, from, k);
            && Contents(c') == Contents(c) - {(c[from].quot, c[from].rem)}
            && Used(c') == Used(c) - {Wrap(from + k, |c|)}
            && Wrap(from + k, |c|) in Used(c)
  {
    var n := |c|;
    var c' := Removed(c, from, k);
    forall s: nat | s < n && c[s].Entry? && s != from
      ensures (c[s].quot, c[s].rem) in Contents(c')
    {
      var d := Ahead(from, s, n);
      var s' := if d <= k then Prev(s, n) else s;
      assert c'[s'] == c[s];
    }
    forall s: nat | s < n && c'[s].Entry?
      ensures (c'[s].quot, c'[s].rem) in Contents(c) - {(c[from].quot, c[from].rem)}
    {
      var d := Ahead(from, s, n);
      var u := if d < k then Next(s, n) else s;
      assert c'[s] == c[u] && u != from;
      if c[u] == c[from] {
        EntriesDiffer(c, u, from);
      }
    }
    var v := Wrap(from + k, n);
    assert k > 0 ==> Ahead(from, v, n) == k && Disp(c, v) > 0;
    forall s: nat | s < n
      ensures s in Used(c') <==> s in Used(c) && s != v
    {
      var d := Ahead(from, s, n);
      if d <= k {
        if d < k {
          assert Ahead(from, Next(s, n), n) == d + 1;
          assert Disp(c, Next(s, n)) > 0;
        }
        if d > 0 {
          assert Disp(c, s) > 0;
        }
      }
    }
  }

  lemma QuotientsOfContents(c: seq<Cell>, q: nat)
    ensures q in Quotients(c) <==> exists r :: (q, r) in Contents(c)
  {
    if q in Quotients(c) {
      var s :| 0 <= s < |c| && c[s].Entry? && c[s].quot == q;
      assert (q, c[s].rem) in Contents(c);
    }
    if r :| (q, r) in Contents(c) {
      var s :| 0 <= s < |c| && c[s].Entry? && (c[s].quot, c[s].rem) == (q, r);
    }
  }

  /** An entry that neither continues a run nor is continued is the only one with its quotient. */
  lemma SoleEntry(c: seq<Cell>, from: nat, s: nat)
    requires LayoutOk(c) && from < |c| && c[from].Entry?
    requires !Continues(c, from) && !Continues(c, Next(from, |c|))
    requires s < |c| && c[s].Entry? && c[s].quot == c[from].quot
    ensures s == from
  {
    var q := c[from].quot;
    var p := Locate(c, q, from);
    var r := Locate(c, q, s);
    if p < r {
      QMonotone(c, p, p + 1);
      QMonotone(c, p + 1, r);
      QStep(c, p + 1);
    } else if r < p {
      QMonotone(c, r, p - 1);
      QStep(c, p);
    }
  }

  /** Removing an entry frees its quotient exactly when the entry is its whole run. */
  lemma RemovedQuotients(c: seq<Cell>, from: nat, k: nat)
    requires RemoveHere(c, from, k)
    ensures Quotients(Removed(c, from, k)) ==
            if !Continues(c, from) && !Continues(c, Next(from, |c|)) then Quotients(c) - {c[from].quot} else Quotients(c)
  {
    var n := |c|;
    var c' := Removed(c, from, k);
    var q := c[from].quot;
    RemovedContents(c, from, k);
    forall x: nat | x != q
      ensures x in Quotients(c') <==> x in Quotients(c)
    {
      QuotientsOfContents(c, x);
      QuotientsOfContents(c', x);
    }
    QuotientsOfContents(c', q);
    if !Continues(c, from) && !Continues(c, Next(from, n)) {
      if r :| (q, r) in Contents(c') {
        var s :| 0 <= s < n && c[s].Entry? && (c[s].quot, c[s].rem) == (q, r);
        SoleEntry(c, from, s);
      }
    } else {
      var u := if Continues(c, from) then Prev(from, n) else Next(from, n);
      assert Linked(c, from) && Linked(c, Next(from, n));
      assert c[u].Entry? && c[u].quot == q && c[u].rem != c[from].rem;
      assert (q, c[u].rem) in Contents(c');
    }
  }

  /** No stored quotient lies strictly between those of two neighbouring entries of a cluster. */
  lemma NeighbourQuotients(c: seq<Cell>, s: nat, z: int)
    requires LayoutOk(c) && s < |c| && Q(c, s) < z < Q(c, s + 1)
    ensures Wrap(z, |c|) !in Quotients(c)
  {
    if Wrap(z, |c|) in Quotients(c) {
      var u :| 0 <= u < |c| && c[u].Entry? && c[u].quot == Wrap(z, |c|);
      var p := Locate(c, z, u);
      if p <= s {
        QMonotone(c, p, s);
      } else {
        QMonotone(c, s + 1, p);
      }
    }
  }

  /** One element moved left by `removeAt`. */
  ghost function MovedLeft(t: seq<Slot>, c: seq<Cell>, s: nat): Slot
    requires Shape(c) && |t| == |c| && s < |c|
  {
    var u := Next(s, |c|);
    t[u].(occupied := t[s].occupied, shifted := Continues(c, u) || Disp(c, u) > 1)
  }

  /** The stored slots after `removeAt`. */
  ghost function ShiftedLeft(t: seq<Slot>, c: seq<Cell>, from: nat, k: nat): seq<Slot>
    requires Shape(c) && |t| == |c| && from < |c|
  {
    seq(|t|, s requires 0 <= s < |t| =>
      var d := Ahead(from, s, |t|);
      if d < k then MovedLeft(t, c, s) else if d == k then Slot(false, false, false, 0) else t[s])
  }

  lemma RemovedContinues(c: seq<Cell>, from: nat, k: nat, s: nat)
    requires RemoveHere(c, from, k) && s < |c| && s != from
    ensures Shape(Removed(c, from, k))
    ensures var d, b := Ahead(from, s, |c|), Continues(Removed(c, from, k), s);
            && (d < k ==> b == Continues(c, Next(s, |c|)))
            && (d == k ==> !b)
            && (k < d ==> b == Continues(c, s))
  {
    var n := |c|;
    var c' := Removed(c, from, k);
    var d, t := Ahead(from, s, n), Prev(s, n);
    RemovedDisp(c, from, k, s);
    assert Ahead(from, t, n) == d - 1;
    if d < k {
      assert Disp(c, s) > 0 && Disp(c, Next(s, n)) > 0;
    } else if d == k + 1 {
      assert s == Wrap(from + k + 1, n);
    }
  }

  /** After `removeAt` every slot but `from` has the flags of the ring without the entry. */
  lemma ShiftedLeftMatches(t: seq<Slot>, c: seq<Cell>, occ: set<nat>, from: nat, k: nat, s: nat)
    requires RemoveHere(c, from, k) && Matches(t, c, occ) && s < |c| && s != from
    requires Wrap(from + k, |c|) !in occ
    ensures Shape(Removed(c, from, k)) && SlotMatches(ShiftedLeft(t, c, from, k)[s], Removed(c, from, k), occ, s)
  {
    var n := |c|;
    var d, u := Ahead(from, s, n), Next(s, n);
    RemovedDisp(c, from, k, s);
    RemovedContinues(c, from, k, s);
    assert SlotMatches(t[s], c, occ, s) && SlotMatches(t[u], c, occ, u);
    if d < k {
      assert Disp(c, s) > 0;
    }
  }

  /** The repair of slot `from` that `remove` makes when it has removed the start of a run: the element
      that moved in loses its continuation bit, and its shifted bit if it is now in its canonical slot. */
  ghost function Repaired(x: Slot, wasRunStart: bool, canonical: bool): Slot {
    if !wasRunStart then x
    else
      var y := x.(continuation := false);
      if canonical && (y.occupied || y.shifted) then y.(shifted := false) else y
  }

  lemma RepairedMatches(t: seq<Slot>, c: seq<Cell>, occ: set<nat>, from: nat, k: nat)
    requires RemoveHere(c, from, k) && Matches(t, c, occ)
    requires Wrap(from + k, |c|) !in occ
    ensures Shape(Removed(c, from, k))
    ensures SlotMatches(
              Repaired(ShiftedLeft(t, c, from, k)[from], !Continues(c, from), from == c[from].quot),
              Removed(c, from, k), occ, from)
  {
    var n := |c|;
    var u := Next(from, n);
    RemovedDisp(c, from, k, from);
    assert SlotMatches(t[from], c, occ, from) && SlotMatches(t[u], c, occ, u);
    assert Linked(c, from) && Linked(c, u);
    ContinuesAtFrom(c, from, k);
  }

  lemma ContinuesAtFrom(c: seq<Cell>, from: nat, k: nat)
    requires RemoveHere(c, from, k)
    ensures Shape(Removed(c, from, k))
    ensures Continues(Removed(c, from, k), from) <==> 0 < k && Continues(c, from) && Continues(c, Next(from, |c|))
  {
    var n := |c|;
    RemovedDisp(c, from, k, from);
    assert Linked(c, from) && Linked(c, Next(from, n));
    if 0 < k {
      assert Ahead(from, Next(from, n), n) == 1;
      if k == n - 1 {
        FullCircle(c, from, k);
      } else {
        assert Removed(c, from, k)[Prev(from, n)] == c[Prev(from, n)];
      }
    }
  }
}
