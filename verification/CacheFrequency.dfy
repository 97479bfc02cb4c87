/** The order kept by counts against a list kept by last use alone. */
module CacheFrequency {
  import opened CacheModel
  import opened Basics
  import opened CacheKeys

  // ----- the reference: entries in the order of their last use, each with its count

  /** The first position of the lowest count. */
  function Victim(counts: seq<nat>): (p: nat)
    requires counts != []
    ensures p < |counts| && forall i :: 0 <= i < |counts| ==> counts[p] <= counts[i]
    ensures forall i :: 0 <= i < p ==> counts[p] < counts[i]
  {
    var n := |counts| - 1;
    if n == 0 then 0
    else
      var p := Victim(counts[..n]);
      if counts[n] < counts[p] then n else p
  }

  function Appended<K, V>(h: Counted<K, V>, e: Entry<K, V>, c: nat): (r: Counted<K, V>)
    requires h.Shaped()
    ensures r.Shaped()
  {
    Counted(h.entries + [e], h.counts + [c])
  }

  function Again<K, V>(h: Counted<K, V>, i: nat, v: V): (r: Counted<K, V>)
    requires h.Shaped() && i < |h.entries|
    ensures r.Shaped()
  {
    Appended(Without(h, i), Entry(h.entries[i].key, v), h.counts[i] + 1)
  }

  function RefStep<K(==), V>(h: Counted<K, V>, cap: nat, op: Op<K, V>): (r: Counted<K, V>)
    requires cap > 0 && h.Shaped()
    ensures r.Shaped()
  {
    var i := At(h.entries, op.key);
    match op
    case Insert(k, v) =>
      if i < |h.entries| then Again(h, i, v)
      else Appended(if |h.entries| >= cap then Without(h, Victim(h.counts)) else h, Entry(k, v), 1)
    case Erase(k) => if i < |h.entries| then Without(h, i) else h
    case Find(k, peek) => if i < |h.entries| && !peek then Again(h, i, h.entries[i].value) else h
  }

  // ----- both seen key by key

  function Where<K(==), V>(m: Counted<K, V>, k: K): nat {
    At(m.entries, k)
  }

  predicate Has<K(==), V>(m: Counted<K, V>, k: K) {
    Where(m, k) < |m.entries|
  }

  function CountOf<K(==), V>(m: Counted<K, V>, k: K): nat
    requires m.Shaped() && Has(m, k)
  {
    m.counts[Where(m, k)]
  }

  ghost predicate Proper<K, V>(m: Counted<K, V>) {
    m.Shaped() && UniqueKeys(m.entries)
  }

  /** The same key has the same value and the same count in both. */
  ghost predicate SameFor<K, V>(m: Counted<K, V>, h: Counted<K, V>, k: K)
    requires m.Shaped() && h.Shaped()
  {
    Has(m, k) == Has(h, k) && (Has(m, k) ==> m.entries[Where(m, k)] == h.entries[Where(h, k)] && CountOf(m, k) == CountOf(h, k))
  }

  /** One key stands before another exactly when its count is lower, or equal and reached earlier. */
  ghost predicate Ranked<K, V>(m: Counted<K, V>, h: Counted<K, V>, k: K, l: K)
    requires m.Shaped() && h.Shaped()
  {
    Has(m, k) && Has(m, l) ==>
      (Where(m, k) < Where(m, l)
       <==> CountOf(m, k) < CountOf(m, l) || (CountOf(m, k) == CountOf(m, l) && Where(h, k) < Where(h, l)))
  }

  ghost predicate Agrees<K(!new), V>(m: Counted<K, V>, h: Counted<K, V>) {
    && Proper(m) && Proper(h) && |m.entries| == |h.entries|
    && (forall k :: SameFor(m, h, k))
    && (forall k, l :: Ranked(m, h, k, l))
  }

  // ----- how the steps move the keys

  lemma WithoutWhere<K, V>(m: Counted<K, V>, i: nat, k: K)
    requires Proper(m) && i < |m.entries|
    ensures var r := Without(m, i);
            && (Has(r, k) <==> Has(m, k) && k != m.entries[i].key)
            && (Has(r, k) ==> Where(r, k) == if Where(m, k) < i then Where(m, k) else Where(m, k) - 1)
            && (Has(r, k) ==> r.entries[Where(r, k)] == m.entries[Where(m, k)] && CountOf(r, k) == CountOf(m, k)
                              && Where(m, k) != i)
  {
    var r := Without(m, i);
    var p := Where(m, k);
    AtIs(m.entries, i);
    if p < |m.entries| && p != i {
      var q := if p < i then p else p - 1;
      assert r.entries[q].key == k;
      WithoutProper(m, i);
      AtIs(r.entries, q);
    } else {
      AtNone(r.entries, k);
    }
  }

  lemma WithoutProper<K, V>(m: Counted<K, V>, i: nat)
    requires Proper(m) && i < |m.entries|
    ensures Proper(Without(m, i)) && |Without(m, i).entries| == |m.entries| - 1
  {
  }

  ghost function Placed<K, V>(m: Counted<K, V>, p: nat, e: Entry<K, V>, c: nat): (r: Counted<K, V>)
    requires m.Shaped() && p <= |m.entries|
    ensures r.Shaped()
  {
    Counted(InsertedAt(m.entries, p, e), InsertedAt(m.counts, p, c))
  }

  lemma PlacedProper<K, V>(m: Counted<K, V>, p: nat, e: Entry<K, V>, c: nat)
    requires Proper(m) && p <= |m.entries| && !Has(m, e.key)
    ensures Proper(Placed(m, p, e, c)) && |Placed(m, p, e, c).entries| == |m.entries| + 1
  {
  }

  lemma PlacedWhere<K, V>(m: Counted<K, V>, p: nat, e: Entry<K, V>, c: nat, k: K)
    requires Proper(m) && p <= |m.entries| && !Has(m, e.key)
    ensures var r := Placed(m, p, e, c);
            && (Has(r, k) <==> Has(m, k) || k == e.key)
            && Where(r, e.key) == p && r.entries[p] == e && CountOf(r, e.key) == c
            && (Has(m, k) ==> k != e.key && Where(r, k) == if Where(m, k) < p then Where(m, k) else Where(m, k) + 1)
            && (Has(m, k) ==> r.entries[Where(r, k)] == m.entries[Where(m, k)] && CountOf(r, k) == CountOf(m, k))
  {
    var r := Placed(m, p, e, c);
    PlacedProper(m, p, e, c);
    assert r.entries[p] == e;
    AtIs(r.entries, p);
    var i := Where(m, k);
    if i < |m.entries| {
      var q := if i < p then i else i + 1;
      assert r.entries[q] == m.entries[i];
      AtIs(r.entries, q);
    } else if k != e.key {
      AtNone(r.entries, k);
    }
  }

  // ----- each step keeps the agreement

  lemma WithoutAgrees<K(!new), V>(m: Counted<K, V>, h: Counted<K, V>, k: K)
    requires Agrees(m, h) && Has(m, k)
    ensures SameFor(m, h, k) && Agrees(Without(m, Where(m, k)), Without(h, Where(h, k)))
    ensures !Has(Without(m, Where(m, k)), k)
  {
    hide Without, At, UniqueKeys;
    assert SameFor(m, h, k);
    var i, j := Where(m, k), Where(h, k);
    var m', h' := Without(m, i), Without(h, j);
    WithoutProper(m, i);
    WithoutProper(h, j);
    WithoutWhere(m, i, k);
    forall l
      ensures SameFor(m', h', l)
    {
      WithoutWhere(m, i, l);
      WithoutWhere(h, j, l);
      assert SameFor(m, h, l);
    }
    forall l, o
      ensures Ranked(m', h', l, o)
    {
      WithoutWhere(m, i, l);
      WithoutWhere(h, j, l);
      WithoutWhere(m, i, o);
      WithoutWhere(h, j, o);
      assert Ranked(m, h, l, o) && SameFor(m, h, l) && SameFor(m, h, o);
    }
  }

  lemma EmplacedAgrees<K(!new), V>(m: Counted<K, V>, h: Counted<K, V>, e: Entry<K, V>, c: nat)
    requires Agrees(m, h) && !Has(m, e.key)
    ensures Agrees(Emplaced(m, e, c), Appended(h, e, c))
  {
    hide At, UniqueKeys, Upper, InsertedAt;
    var p, q := Upper(m.counts, c), |h.entries|;
    var m', h' := Placed(m, p, e, c), Placed(h, q, e, c);
    assert SameFor(m, h, e.key);
    PlacedProper(m, p, e, c);
    PlacedProper(h, q, e, c);
    assert Appended(h, e, c) == h' by {
      AtEnd(h.entries, e);
      AtEnd(h.counts, c);
    }
    forall l
      ensures SameFor(m', h', l)
    {
      PlacedWhere(m, p, e, c, l);
      PlacedWhere(h, q, e, c, l);
      assert SameFor(m, h, l);
    }
    forall l, o
      ensures Ranked(m', h', l, o)
    {
      PlacedRanked(m, h, e, c, p, q, l, o);
    }
  }

  lemma AtEnd<T>(s: seq<T>, x: T)
    ensures InsertedAt(s, |s|, x) == s + [x]
  {
  }

  lemma PlacedRanked<K(!new), V>(m: Counted<K, V>, h: Counted<K, V>, e: Entry<K, V>, c: nat, p: nat, q: nat, l: K, o: K)
    requires Agrees(m, h) && !Has(m, e.key) && !Has(h, e.key) && p == Upper(m.counts, c) && q == |h.entries|
    ensures Ranked(Placed(m, p, e, c), Placed(h, q, e, c), l, o)
  {
    hide At, UniqueKeys, Placed, Upper;
    PlacedWhere(m, p, e, c, l);
    PlacedWhere(h, q, e, c, l);
    PlacedWhere(m, p, e, c, o);
    PlacedWhere(h, q, e, c, o);
    assert Ranked(m, h, l, o) && SameFor(m, h, l) && SameFor(m, h, o);
    if Has(m, l) {
      UpperRanked(m, h, c, l);
    }
    if Has(m, o) {
      UpperRanked(m, h, c, o);
    }
  }

  /** In an ordered list, the place behind a count is behind exactly the keys with at most that count. */
  lemma UpperRanked<K(!new), V>(m: Counted<K, V>, h: Counted<K, V>, c: nat, k: K)
    requires Agrees(m, h) && Has(m, k)
    ensures Where(m, k) < Upper(m.counts, c) <==> CountOf(m, k) <= c
  {
    hide Upper, UniqueKeys;
    var p, i := Upper(m.counts, c), Where(m, k);
    if p <= i {
      var l := m.entries[p].key;
      AtIs(m.entries, p);
      assert Ranked(m, h, l, k);
    }
  }

  /** The front of the ordered list is the entry the reference would give up. */
  lemma VictimFirst<K(!new), V>(m: Counted<K, V>, h: Counted<K, V>)
    requires Agrees(m, h) && m.entries != []
    ensures var k := m.entries[0].key; Has(m, k) && Where(m, k) == 0 && Has(h, k) && Where(h, k) == Victim(h.counts)
  {
    hide UniqueKeys, Victim;
    var k, p := m.entries[0].key, Victim(h.counts);
    AtIs(m.entries, 0);
    var l := h.entries[p].key;
    AtIs(h.entries, p);
    assert SameFor(m, h, k) && SameFor(m, h, l) && Ranked(m, h, l, k);
    assert h.counts[p] <= h.counts[Where(h, k)];
  }

  lemma StepAgrees<K(!new), V>(m: Counted<K, V>, h: Counted<K, V>, cap: nat, op: Op<K, V>)
    requires cap > 0 && Agrees(m, h)
    ensures Agrees(LfuStep(m, cap, op), RefStep(h, cap, op))
  {
    hide Emplaced, Without, Agrees, Victim, Appended, At;
    AgreesFor(m, h, op.key);
    if Has(m, op.key) {
      var i, j := Where(m, op.key), Where(h, op.key);
      WithoutAgrees(m, h, op.key);
      var v := if op.Insert? then op.value else m.entries[i].value;
      EmplacedAgrees(Without(m, i), Without(h, j), Entry(op.key, v), m.counts[i] + 1);
    } else if op.Insert? {
      if |m.entries| >= cap {
        VictimFirst(m, h);
        WithoutAgrees(m, h, m.entries[0].key);
        WithoutHas(m, 0, op.key);
        EmplacedAgrees(Without(m, 0), Without(h, Victim(h.counts)), Entry(op.key, op.value), 1);
      } else {
        EmplacedAgrees(m, h, Entry(op.key, op.value), 1);
      }
    }
  }

  lemma AgreesFor<K(!new), V>(m: Counted<K, V>, h: Counted<K, V>, k: K)
    requires Agrees(m, h)
    ensures SameFor(m, h, k) && |m.entries| == |h.entries| && Proper(m) && Proper(h)
  {
  }

  lemma WithoutHas<K, V>(m: Counted<K, V>, i: nat, k: K)
    requires Proper(m) && i < |m.entries| && !Has(m, k)
    ensures !Has(Without(m, i), k)
  {
    WithoutWhere(m, i, k);
  }

  // ----- runs

  function LfuReplay<K(==), V>(ops: seq<Op<K, V>>, cap: nat): (m: Counted<K, V>)
    requires cap > 0
    ensures m.Shaped()
  {
    if ops == [] then Counted([], []) else LfuStep(LfuReplay(Front(ops), cap), cap, Last(ops))
  }

  function RefReplay<K(==), V>(ops: seq<Op<K, V>>, cap: nat): (h: Counted<K, V>)
    requires cap > 0
    ensures h.Shaped()
  {
    if ops == [] then Counted([], []) else RefStep(RefReplay(Front(ops), cap), cap, Last(ops))
  }

  /** After any run the list by counts and the list by last use hold the same keys, values and counts, and the first is the
      second ordered by count; so what is replaced is the lowest count, and among equals whoever reached it first. */
  lemma {:induction false} LfuOrder<K(!new), V>(ops: seq<Op<K, V>>, cap: nat)
    requires cap > 0
    ensures Agrees(LfuReplay(ops, cap), RefReplay(ops, cap)) && |LfuReplay(ops, cap).entries| <= cap
  {
    if ops != [] {
      LfuOrder(Front(ops), cap);
      StepAgrees(LfuReplay(Front(ops), cap), RefReplay(Front(ops), cap), cap, Last(ops));
    }
  }

  // ----- the list by last use holds what the operations say

  /** The list by last use holds the keys that are there, in the order of their last use, each with its count. */
  ghost predicate ByUse<K, V>(ops: seq<Op<K, V>>, cap: nat, h: Counted<K, V>) {
    && h.Shaped() && Lists(Lfu, ops, cap, h.entries)
    && (forall i :: 0 <= i < |h.entries| ==> h.counts[i] == Uses(Lfu, ops, cap, h.entries[i].key))
    && (forall i, j :: 0 <= i < j < |h.entries| ==> LastTouch(ops, h.entries[i].key) < LastTouch(ops, h.entries[j].key))
  }

  /** As after `ops`, but for the key that the last operation is about. */
  ghost predicate ByUseBut<K, V>(ops: seq<Op<K, V>>, cap: nat, h: Counted<K, V>, k: K) {
    && h.Shaped() && UniqueKeys(h.entries) && Current(ops, h.entries)
    && (forall i :: 0 <= i < |h.entries| ==> h.entries[i].key != k && h.counts[i] == Uses(Lfu, ops, cap, h.entries[i].key))
    && (forall i, j :: 0 <= i < j < |h.entries| ==> LastTouch(ops, h.entries[i].key) < LastTouch(ops, h.entries[j].key))
  }

  lemma OthersStay<K, V>(ops: seq<Op<K, V>>, cap: nat, h: Counted<K, V>, k: K)
    requires ops != [] && Last(ops).key == k && ByUseBut(Front(ops), cap, h, k)
    ensures ByUseBut(ops, cap, h, k)
  {
    forall i | 0 <= i < |h.entries|
      ensures Uses(Lfu, ops, cap, h.entries[i].key) == Uses(Lfu, Front(ops), cap, h.entries[i].key)
      ensures LastTouch(ops, h.entries[i].key) == LastTouch(Front(ops), h.entries[i].key)
    {
    }
  }

  lemma WithoutByUse<K, V>(ops: seq<Op<K, V>>, cap: nat, h: Counted<K, V>, i: nat)
    requires ByUse(ops, cap, h) && i < |h.entries|
    ensures ByUseBut(ops, cap, Without(h, i), h.entries[i].key)
    ensures KeySet(Without(h, i).entries) == KeySet(h.entries) - {h.entries[i].key}
  {
    KeySetDropped(h.entries, i);
  }

  /** Used now, a key goes to the end. */
  lemma AppendedByUse<K, V>(ops: seq<Op<K, V>>, cap: nat, h: Counted<K, V>, k: K, v: V)
    requires ops != [] && Touches(Last(ops), k) && ByUseBut(ops, cap, h, k) && LastValue(ops, k) == Some(v)
    requires KeySet(h.entries) + {k} == Kept(Lfu, ops, cap)
    ensures ByUse(ops, cap, Appended(h, Entry(k, v), Uses(Lfu, ops, cap, k)))
  {
    hide Kept, Uses;
    KeySetJoin(h.entries, [Entry(k, v)]);
    KeySetOne(Entry(k, v));
    forall i | 0 <= i < |h.entries|
      ensures LastTouch(ops, h.entries[i].key) < LastTouch(ops, k)
    {
      assert !Touches(Last(ops), h.entries[i].key);
    }
  }

  lemma VictimIsGivenUp<K, V>(ops: seq<Op<K, V>>, cap: nat, h: Counted<K, V>)
    requires ByUse(ops, cap, h) && h.entries != []
    ensures GivenUp(Lfu, ops, cap) == {h.entries[Victim(h.counts)].key}
  {
    hide GivenUp, Kept, Uses, LastTouch, Victim;
    var v := Victim(h.counts);
    assert Foremost(Lfu, ops, cap, h.entries, v);
    OneGivenUp(Lfu, ops, cap, h.entries, v);
  }

  /** A key that is used counts one more, a new one counts one. */
  lemma UsesNow<K, V>(ops: seq<Op<K, V>>, cap: nat, h: Counted<K, V>, k: K)
    requires ops != [] && Touches(Last(ops), k) && ByUse(Front(ops), cap, h)
    ensures Uses(Lfu, ops, cap, k) == if At(h.entries, k) < |h.entries| then h.counts[At(h.entries, k)] + 1 else 1
  {
    KeyAt(h.entries, k);
  }

  lemma RefKeeps<K, V>(ops: seq<Op<K, V>>, cap: nat, h: Counted<K, V>)
    requires cap > 0 && ops != [] && ByUse(Front(ops), cap, h)
    ensures ByUse(ops, cap, RefStep(h, cap, Last(ops)))
  {
    hide GivenUp, Kept, KeySet, At, Uses, LastTouch, Without, Victim, Appended;
    var op, k := Last(ops), Last(ops).key;
    var i := At(h.entries, k);
    ListSize(Lfu, Front(ops), cap, h.entries);
    KeyAt(h.entries, k);
    KeptStep(Lfu, ops, cap);
    if i < |h.entries| {
      WithoutByUse(Front(ops), cap, h, i);
      OthersStay(ops, cap, Without(h, i), k);
      if Touches(op, k) {
        UsesNow(ops, cap, h, k);
        AppendedByUse(ops, cap, Without(h, i), k, if op.Insert? then op.value else h.entries[i].value);
      } else if op.Erase? {
        ButIsAll(ops, cap, Without(h, i), k);
      } else {
        StaysByUse(ops, cap, h);
      }
    } else {
      NotIn(Front(ops), cap, h, k);
      if op.Insert? {
        UsesNow(ops, cap, h, k);
        if |h.entries| >= cap {
          var v := Victim(h.counts);
          VictimIsGivenUp(Front(ops), cap, h);
          WithoutByUse(Front(ops), cap, h, v);
          WithoutNotIn(Front(ops), cap, h, v, k);
          OthersStay(ops, cap, Without(h, v), k);
          AppendedByUse(ops, cap, Without(h, v), k, op.value);
        } else {
          OthersStay(ops, cap, h, k);
          AppendedByUse(ops, cap, h, k, op.value);
        }
      } else {
        OthersStay(ops, cap, h, k);
        ButIsAll(ops, cap, h, k);
      }
    }
  }

  lemma NotIn<K, V>(ops: seq<Op<K, V>>, cap: nat, h: Counted<K, V>, k: K)
    requires ByUse(ops, cap, h) && At(h.entries, k) == |h.entries|
    ensures ByUseBut(ops, cap, h, k)
  {
  }

  lemma WithoutNotIn<K, V>(ops: seq<Op<K, V>>, cap: nat, h: Counted<K, V>, v: nat, k: K)
    requires ByUse(ops, cap, h) && v < |h.entries| && At(h.entries, k) == |h.entries|
    ensures ByUseBut(ops, cap, Without(h, v), k)
  {
  }

  lemma ButIsAll<K, V>(ops: seq<Op<K, V>>, cap: nat, h: Counted<K, V>, k: K)
    requires ByUseBut(ops, cap, h, k) && KeySet(h.entries) == Kept(Lfu, ops, cap)
    ensures ByUse(ops, cap, h)
  {
  }

  /** A search that only peeks changes nothing. */
  lemma StaysByUse<K, V>(ops: seq<Op<K, V>>, cap: nat, h: Counted<K, V>)
    requires ops != [] && Last(ops).Find? && Last(ops).peek && ByUse(Front(ops), cap, h)
    ensures ByUse(ops, cap, h)
  {
    forall i | 0 <= i < |h.entries|
      ensures Uses(Lfu, ops, cap, h.entries[i].key) == Uses(Lfu, Front(ops), cap, h.entries[i].key)
      ensures LastTouch(ops, h.entries[i].key) == LastTouch(Front(ops), h.entries[i].key)
    {
    }
  }

  lemma {:induction false} RefOrder<K, V>(ops: seq<Op<K, V>>, cap: nat)
    requires cap > 0
    ensures ByUse(ops, cap, RefReplay(ops, cap))
  {
    if ops != [] {
      RefOrder(Front(ops), cap);
      RefKeeps(ops, cap, RefReplay(Front(ops), cap));
    }
  }

  /** What a cache by frequency tells of a key: its value and its count after the call. */
  ghost function CountedFound<K, V>(ops: seq<Op<K, V>>, cap: nat, k: K, peek: bool): Option<(V, nat)> {
    if k in Kept(Lfu, ops, cap) && LastValue(ops, k).Some?
    then Some((LastValue(ops, k).value, Uses(Lfu, ops, cap, k) + if peek then 0 else 1)) else None
  }

  /** After any run the list by count holds just the keys that are there, with the values inserted last and the number of their
      uses, and tells no more and no less. */
  lemma LfuHolds<K(!new), V>(ops: seq<Op<K, V>>, cap: nat, k: K, peek: bool)
    requires cap > 0
    ensures var m := LfuReplay(ops, cap);
            && |m.entries| <= cap
            && (At(m.entries, k) < |m.entries| <==> k in Kept(Lfu, ops, cap))
            && Lookup(m.entries, k) == Found(Lfu, ops, cap, k)
            && CountedLookup(m, k, peek) == CountedFound(ops, cap, k, peek)
  {
    hide Kept, Uses, LastValue, Agrees, LfuReplay, RefReplay, At, KeySet;
    var m, h := LfuReplay(ops, cap), RefReplay(ops, cap);
    LfuOrder(ops, cap);
    RefOrder(ops, cap);
    AgreesFor(m, h, k);
    KeyAt(h.entries, k);
  }

  /** What stands first, and so is given up next, is the key used least, among equals the one touched least recently. */
  lemma LfuGivesUp<K(!new), V>(ops: seq<Op<K, V>>, cap: nat)
    requires cap > 0 && LfuReplay(ops, cap).entries != []
    ensures GivenUp(Lfu, ops, cap) == {LfuReplay(ops, cap).entries[0].key}
  {
    hide Kept, Uses, GivenUp, Agrees, LfuReplay, RefReplay, At, KeySet;
    var m, h := LfuReplay(ops, cap), RefReplay(ops, cap);
    LfuOrder(ops, cap);
    RefOrder(ops, cap);
    VictimFirst(m, h);
    VictimIsGivenUp(ops, cap, h);
    AgreesFor(m, h, m.entries[0].key);
  }
}
