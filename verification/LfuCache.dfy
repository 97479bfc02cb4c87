/** The cache that replaces the least frequently used key. */
module LfuCache {
  import opened Basics
  import opened CacheModel
  import opened CacheSlots

  /** An entry of the ordered multimap; each slot has at most one, so the entry serves as iterator to itself. */
  datatype Use = Use(count: nat, node: nat)

  type Slots<K, V> = seq<Element<K, V, Use>>

  ghost function Nodes(lfu: seq<Use>): (s: seq<nat>)
    ensures |s| == |lfu| && forall i :: 0 <= i < |lfu| ==> s[i] == lfu[i].node
  {
    seq(|lfu|, i requires 0 <= i < |lfu| => lfu[i].node)
  }

  function Counts(lfu: seq<Use>): (s: seq<nat>)
    ensures |s| == |lfu| && forall i :: 0 <= i < |lfu| ==> s[i] == lfu[i].count
  {
    seq(|lfu|, i requires 0 <= i < |lfu| => lfu[i].count)
  }

  /** `multimap::emplace`: behind all entries with the same count. */
  function Placed(lfu: seq<Use>, u: Use): seq<Use> {
    InsertedAt(lfu, Upper(Counts(lfu), u.count), u)
  }

  function UsePosition(lfu: seq<Use>, u: Use): (p: nat)
    ensures p <= |lfu| && (p < |lfu| ==> lfu[p] == u)
    ensures forall i :: 0 <= i < p ==> lfu[i] != u
  {
    if lfu == [] || lfu[0] == u then 0 else 1 + UsePosition(lfu[1..], u)
  }

  /** `multimap::erase` by iterator. */
  function Erased(lfu: seq<Use>, u: Use): seq<Use> {
    var p := UsePosition(lfu, u);
    if p < |lfu| then Dropped(lfu, p) else lfu
  }

  lemma ErasedAt(lfu: seq<Use>, i: nat)
    requires Distinct(Nodes(lfu)) && i < |lfu|
    ensures Erased(lfu, lfu[i]) == Dropped(lfu, i)
  {
    forall j | 0 <= j < i
      ensures lfu[j] != lfu[i]
    {
      assert Nodes(lfu)[j] != Nodes(lfu)[i];
    }
  }

  lemma DroppedParts(lfu: seq<Use>, i: nat)
    requires i < |lfu|
    ensures |Dropped(lfu, i)| == |lfu| - 1
    ensures Nodes(Dropped(lfu, i)) == Dropped(Nodes(lfu), i) && Counts(Dropped(lfu, i)) == Dropped(Counts(lfu), i)
  {
  }

  lemma PlacedParts(lfu: seq<Use>, u: Use)
    ensures |Placed(lfu, u)| == |lfu| + 1
    ensures var p := Upper(Counts(lfu), u.count);
            && Nodes(Placed(lfu, u)) == InsertedAt(Nodes(lfu), p, u.node)
            && Counts(Placed(lfu, u)) == InsertedAt(Counts(lfu), p, u.count)
  {
  }

  lemma InsertedIn<T>(s: seq<T>, p: nat, x: T, y: T)
    requires p <= |s|
    ensures y in InsertedAt(s, p, x) <==> y in s || y == x
  {
    var r := InsertedAt(s, p, x);
    assert r[p] == x;
    if y in s {
      var j :| 0 <= j < |s| && s[j] == y;
      assert r[if j < p then j else j + 1] == y;
    }
  }

  lemma InsertedDistinct(s: seq<nat>, p: nat, x: nat)
    requires p <= |s| && Distinct(s) && x !in s
    ensures Distinct(InsertedAt(s, p, x))
  {
    var r := InsertedAt(s, p, x);
    forall i, j | 0 <= i < j < |r|
      ensures r[i] != r[j]
    {
      if i == p {
        assert r[j] == s[j - 1];
      } else if j == p {
        assert r[i] == s[i];
      } else {
        assert r[i] == s[if i < p then i else i - 1] && r[j] == s[if j < p then j else j - 1];
      }
    }
  }

  lemma ListedInserted<K, V>(elements: Slots<K, V>, s: seq<nat>, p: nat, n: nat)
    requires p <= |s| && AllHold(elements, s) && n < |elements| && elements[n].Holds?
    ensures AllHold(elements, InsertedAt(s, p, n))
    ensures Listed(elements, InsertedAt(s, p, n))
         == InsertedAt(Listed(elements, s), p, Entry(elements[n].key, elements[n].value))
  {
    hide Listed;
  }

  // ----- the state of the cache

  ghost predicate AtUse<K, V>(elements: Slots<K, V>, lfu: seq<Use>) {
    forall i :: 0 <= i < |lfu| ==> Remembers(elements, lfu[i])
  }

  ghost predicate Remembers<K, V>(elements: Slots<K, V>, u: Use) {
    u.node < |elements| && elements[u.node].Holds? && elements[u.node].at == u
  }

  /** The multimap lists the used slots. */
  ghost predicate Counting<K, V>(elements: Slots<K, V>, lfu: seq<Use>, keyed: map<K, nat>) {
    Distinct(Nodes(lfu)) && Linked(elements, keyed, Nodes(lfu)) && AtUse(elements, lfu)
  }

  ghost predicate SameNodes(a: seq<nat>, b: seq<nat>) {
    forall n: nat :: n in a <==> n in b
  }

  ghost predicate Ok<K, V>(elements: Slots<K, V>, list: seq<nat>, end: nat, lfu: seq<Use>, keyed: map<K, nat>, used: nat) {
    && |elements| == |list| && used <= |list| && |lfu| == used && Arranged(list, end, used)
    && SameNodes(Nodes(lfu), list[..used]) && Counting(elements, lfu, keyed)
  }

  ghost function View<K, V>(elements: Slots<K, V>, lfu: seq<Use>, keyed: map<K, nat>): (m: Counted<K, V>)
    requires Counting(elements, lfu, keyed)
    ensures m.Shaped() && |m.entries| == |lfu|
  {
    Counted(Listed(elements, Nodes(lfu)), Counts(lfu))
  }

  /** The slot of an entry is used once more, with value `v`. */
  lemma AccessKeeps<K, V>(elements: Slots<K, V>, lfu: seq<Use>, keyed: map<K, nat>, i: nat, v: V, u': Use, lfu': seq<Use>,
                          e': Element<K, V, Use>)
    requires Counting(elements, lfu, keyed) && i < |lfu| && Remembers(elements, lfu[i])
    requires u' == Use(lfu[i].count + 1, lfu[i].node) && lfu' == Placed(Erased(lfu, lfu[i]), u')
    requires e' == Holds(elements[u'.node].key, u', v)
    ensures |lfu'| == |lfu| && SameNodes(Nodes(lfu'), Nodes(lfu)) && Counting(elements[u'.node := e'], lfu', keyed)
    ensures View(elements[u'.node := e'], lfu', keyed) == Used(View(elements, lfu, keyed), i, v)
  {
    hide Listed, Linked, Nodes, Counts, Upper, Distinct, InsertedAt, Dropped, Placed, Erased, AtUse, SameNodes;
    var n, nodes := u'.node, Nodes(lfu);
    var elements', rest := elements[n := e'], Dropped(lfu, i);
    ErasedAt(lfu, i);
    DroppedParts(lfu, i);
    PlacedParts(rest, u');
    Relinked(elements, keyed, nodes, i, e');
    var p := Upper(Counts(rest), u'.count);
    var nodes' := InsertedAt(Dropped(nodes, i), p, n);
    MovedNodes(nodes, i, p);
    Relisted(elements', keyed, nodes, nodes');
    AccessListed(elements, elements', keyed, nodes, i, p, e');
    AccessRemembered(elements, lfu, i, u', lfu', e');
  }

  lemma Relisted<K, V>(elements: Slots<K, V>, keyed: map<K, nat>, used: seq<nat>, used': seq<nat>)
    requires Linked(elements, keyed, used) && SameNodes(used', used)
    ensures Linked(elements, keyed, used')
  {
    Reordered(elements, keyed, used, used');
  }

  lemma MovedNodes(nodes: seq<nat>, i: nat, p: nat)
    requires Distinct(nodes) && i < |nodes| && p < |nodes|
    ensures Distinct(InsertedAt(Dropped(nodes, i), p, nodes[i]))
    ensures SameNodes(InsertedAt(Dropped(nodes, i), p, nodes[i]), nodes)
  {
    hide InsertedAt;
    var rest := Dropped(nodes, i);
    DroppedDistinct(nodes, i);
    DroppedIn(nodes, i, nodes[i]);
    InsertedDistinct(rest, p, nodes[i]);
    forall n: nat
      ensures n in InsertedAt(rest, p, nodes[i]) <==> n in nodes
    {
      DroppedIn(nodes, i, n);
      InsertedIn(rest, p, nodes[i], n);
    }
  }

  lemma AccessListed<K, V>(elements: Slots<K, V>, elements': Slots<K, V>, keyed: map<K, nat>, nodes: seq<nat>, i: nat, p: nat,
                           e': Element<K, V, Use>)
    requires Linked(elements, keyed, nodes) && Distinct(nodes) && i < |nodes| && p < |nodes| && nodes[i] < |elements|
    requires e'.Holds? && elements[nodes[i]].Holds? && e'.key == elements[nodes[i]].key
    requires elements' == elements[nodes[i] := e']
    ensures AllHold(elements, nodes) && AllHold(elements', InsertedAt(Dropped(nodes, i), p, nodes[i]))
    ensures Listed(elements', InsertedAt(Dropped(nodes, i), p, nodes[i]))
         == InsertedAt(Dropped(Listed(elements, nodes), i), p, Entry(e'.key, e'.value))
  {
    hide Listed, Linked, InsertedAt, Distinct;
    LinkedHold(elements, keyed, nodes);
    var m := Listed(elements, nodes);
    Relinked(elements, keyed, nodes, i, e');
    LinkedHold(elements', keyed, nodes);
    ListedDropped(elements', nodes, i);
    assert Dropped(m[i := Entry(e'.key, e'.value)], i) == Dropped(m, i);
    ListedInserted(elements', Dropped(nodes, i), p, nodes[i]);
  }

  lemma AccessRemembered<K, V>(elements: Slots<K, V>, lfu: seq<Use>, i: nat, u': Use, lfu': seq<Use>, e': Element<K, V, Use>)
    requires AtUse(elements, lfu) && Distinct(Nodes(lfu)) && i < |lfu| && u'.node == lfu[i].node < |elements|
    requires lfu' == Placed(Dropped(lfu, i), u') && e'.Holds? && e'.at == u'
    ensures AtUse(elements[u'.node := e'], lfu')
  {
    hide Upper, Counts, Nodes;
    var rest := Dropped(lfu, i);
    forall j | 0 <= j < |lfu'|
      ensures Remembers(elements[u'.node := e'], lfu'[j])
    {
      if lfu'[j] != u' {
        InsertedIn(rest, Upper(Counts(rest), u'.count), u', lfu'[j]);
        var k :| 0 <= k < |rest| && rest[k] == lfu'[j];
        var l := if k < i then k else k + 1;
        assert Remembers(elements, lfu[l]);
        assert Nodes(lfu)[l] != Nodes(lfu)[i];
      }
    }
  }

  /** A key and its slot are forgotten. */
  lemma EraseKeeps<K, V>(elements: Slots<K, V>, lfu: seq<Use>, keyed: map<K, nat>, i: nat, lfu': seq<Use>)
    requires Counting(elements, lfu, keyed) && i < |lfu| && Remembers(elements, lfu[i]) && lfu' == Erased(lfu, lfu[i])
    ensures Nodes(lfu') == Dropped(Nodes(lfu), i) && Counting(elements, lfu', keyed - {elements[lfu[i].node].key})
    ensures View(elements, lfu', keyed - {elements[lfu[i].node].key}) == Without(View(elements, lfu, keyed), i)
  {
    hide Listed, Linked, Nodes, Counts, UsePosition;
    ErasedAt(lfu, i);
    DroppedParts(lfu, i);
    LinkedHold(elements, keyed, Nodes(lfu));
    Unlinked(elements, keyed, Nodes(lfu), i);
    DroppedDistinct(Nodes(lfu), i);
    ListedDropped(elements, Nodes(lfu), i);
  }

  /** A new key in an unused slot. */
  lemma InsertKeeps<K, V>(elements: Slots<K, V>, lfu: seq<Use>, keyed: map<K, nat>, n: nat, key: K, value: V, lfu': seq<Use>,
                          e: Element<K, V, Use>)
    requires Counting(elements, lfu, keyed) && n < |elements| && n !in Nodes(lfu) && key !in keyed
    requires lfu' == Placed(lfu, Use(1, n)) && e == Holds(key, Use(1, n), value)
    ensures |lfu'| == |lfu| + 1 && Counting(elements[n := e], lfu', keyed[key := n])
    ensures forall x: nat :: x in Nodes(lfu') <==> x in Nodes(lfu) || x == n
    ensures View(elements[n := e], lfu', keyed[key := n]) == Emplaced(View(elements, lfu, keyed), Entry(key, value), 1)
  {
    hide Listed, Linked, Nodes, Counts, Upper, Distinct;
    var nodes, p := Nodes(lfu), Upper(Counts(lfu), 1);
    PlacedParts(lfu, Use(1, n));
    LinkedNew(elements, keyed, nodes, n, e);
    InsertedDistinct(nodes, p, n);
    forall x: nat
      ensures x in InsertedAt(nodes, p, n) <==> x in nodes || x == n
    {
      InsertedIn(nodes, p, n, x);
    }
    Reordered(elements[n := e], keyed[key := n], nodes + [n], InsertedAt(nodes, p, n));
    LinkedHold(elements, keyed, nodes);
    OtherSlot(elements, nodes, n, e);
    ListedInserted(elements[n := e], nodes, p, n);
    InsertRemembered(elements, lfu, n, lfu', e);
  }

  lemma InsertRemembered<K, V>(elements: Slots<K, V>, lfu: seq<Use>, n: nat, lfu': seq<Use>, e: Element<K, V, Use>)
    requires AtUse(elements, lfu) && n < |elements| && n !in Nodes(lfu)
    requires lfu' == Placed(lfu, Use(1, n)) && e.Holds? && e.at == Use(1, n)
    ensures AtUse(elements[n := e], lfu')
  {
    hide Upper, Counts, Nodes;
    forall j | 0 <= j < |lfu'|
      ensures Remembers(elements[n := e], lfu'[j])
    {
      if lfu'[j] != Use(1, n) {
        InsertedIn(lfu, Upper(Counts(lfu), 1), Use(1, n), lfu'[j]);
        var k :| 0 <= k < |lfu| && lfu[k] == lfu'[j];
        assert Remembers(elements, lfu[k]) && Nodes(lfu)[k] != n;
      }
    }
  }

  // ----- the list of open slots

  lemma ReleaseKeeps<K, V>(elements: Slots<K, V>, list: seq<nat>, end: nat, lfu: seq<Use>, keyed: map<K, nat>, used: nat,
                           i: nat, list': seq<nat>, lfu': seq<Use>)
    requires Ok(elements, list, end, lfu, keyed, used) && i < used && Remembers(elements, lfu[i]) && lfu[i].node in list
    requires Position(list, end) == used && list' == Freed(list, end, lfu[i].node) && lfu' == Erased(lfu, lfu[i])
    ensures Position(list', end) > 0
    ensures Ok(elements, list', Previous(list', end), lfu', keyed - {elements[lfu[i].node].key}, used - 1)
    ensures View(elements, lfu', keyed - {elements[lfu[i].node].key}) == Without(View(elements, lfu, keyed), i)
  {
    hide Listed, Linked, Nodes, Counts, UsePosition, Position, Freed, Arranged, Distinct, Erased, View, Counting, Without;
    var front, nodes := list[..used], Nodes(lfu);
    assert Distinct(nodes) by {
      CountingDistinct(elements, lfu, keyed);
    }
    FrontDistinct(list, end, used);
    assert nodes[i] in nodes;
    var j :| 0 <= j < |front| && front[j] == nodes[i];
    EraseArranged(list, end, used, j);
    EraseKeeps(elements, lfu, keyed, i, lfu');
    forall n: nat
      ensures n in Dropped(nodes, i) <==> n in Dropped(front, j)
    {
      DroppedIn(nodes, i, n);
      DroppedIn(front, j, n);
    }
  }

  lemma CountingDistinct<K, V>(elements: Slots<K, V>, lfu: seq<Use>, keyed: map<K, nat>)
    requires Counting(elements, lfu, keyed)
    ensures Distinct(Nodes(lfu)) && Linked(elements, keyed, Nodes(lfu)) && AtUse(elements, lfu)
  {
  }

  /** What the marker and the multimap say about the slot of an entry. */
  lemma SlotOf<K, V>(elements: Slots<K, V>, list: seq<nat>, end: nat, lfu: seq<Use>, keyed: map<K, nat>, used: nat, i: nat)
    requires Ok(elements, list, end, lfu, keyed, used) && i < used
    ensures Remembers(elements, lfu[i]) && lfu[i].node in list && Position(list, end) == used
    ensures elements[lfu[i].node].key in keyed && keyed[elements[lfu[i].node].key] == lfu[i].node
  {
    assert Nodes(lfu)[i] in Nodes(lfu);
    assert Named(elements, keyed, Nodes(lfu)[i]);
    assert Nodes(lfu)[i] in list[..used];
  }

  lemma OpenKeeps<K, V>(elements: Slots<K, V>, list: seq<nat>, end: nat, lfu: seq<Use>, keyed: map<K, nat>, used: nat,
                        key: K, value: V, lfu': seq<Use>, e: Element<K, V, Use>)
    requires Ok(elements, list, end, lfu, keyed, used) && used < |list| && key !in keyed
    requires lfu' == Placed(lfu, Use(1, end)) && e == Holds(key, Use(1, end), value)
    ensures end < |elements|
    ensures Ok(elements[end := e], list, Following(list, end, |list|), lfu', keyed[key := end], used + 1)
    ensures View(elements[end := e], lfu', keyed[key := end]) == Emplaced(View(elements, lfu, keyed), Entry(key, value), 1)
  {
    hide Listed, Linked, Nodes, Counts, Position, Placed, View, Counting, Emplaced;
    NextFree(list, end, used);
    assert end !in Nodes(lfu);
    InsertKeeps(elements, lfu, keyed, end, key, value, lfu', e);
  }

  lemma NextFree(list: seq<nat>, end: nat, used: nat)
    requires Arranged(list, end, used) && used < |list|
    ensures end < |list| && end !in list[..used] && list[..used + 1] == list[..used] + [end]
    ensures Arranged(list, Following(list, end, |list|), used + 1)
  {
    hide Position;
    assert list[used] == end;
    assert end in list;
    PositionOf(list, Following(list, end, |list|), used + 1);
  }

  class LFU<K(==), V> {
    var elements: Slots<K, V>
    var openSlotList: seq<nat>
    var openSlotListEnd: nat
    var lfuList: seq<Use>
    var keyedElements: map<K, nat>
    var usedSize: nat
    const capacity: nat

    ghost predicate Valid()
      reads this
    {
      && capacity > 0 && |elements| == capacity
      && Ok(elements, openSlotList, openSlotListEnd, lfuList, keyedElements, usedSize)
    }

    /** Keys, values and counts, the one to be replaced first in front. */
    ghost function Contents(): (m: Counted<K, V>)
      requires Valid()
      reads this
      ensures m.Shaped() && |m.entries| == usedSize
    {
      View(elements, lfuList, keyedElements)
    }

    constructor (size: nat)
      requires size > 0
      ensures Valid() && capacity == size && Contents() == Counted([], [])
    {
      capacity := size;
      elements := seq(size, _ => Blank);
      openSlotList := seq(size, i => i);
      openSlotListEnd := 0;
      lfuList := [];
      keyedElements := map[];
      usedSize := 0;
      new;
      AllFree(openSlotList);
    }

    method Insert(key: K, value: V)
      requires Valid()
      modifies this
      ensures Valid() && Contents() == LfuInsert(old(Contents()), capacity, key, value)
    {
      hide Ok, View, Used, Emplaced, Without;
      ghost var i := Locate(key);
      if key in keyedElements {
        DoUpdate(key, value, i);
      } else {
        DoInsert(key, value);
      }
    }

    /** Where a key stands in the order of the multimap. */
    ghost method Locate(key: K) returns (i: nat)
      requires Valid()
      ensures i == At(Contents().entries, key) && (key in keyedElements <==> i < usedSize)
      ensures key in keyedElements ==>
                && lfuList[i].node == keyedElements[key] < |elements| && Remembers(elements, lfuList[i])
                && elements[keyedElements[key]].key == key
                && Contents().entries[i] == Entry(key, elements[keyedElements[key]].value)
                && Contents().counts[i] == lfuList[i].count
    {
      hide Listed, Linked, Arranged;
      CountingDistinct(elements, lfuList, keyedElements);
      i := FoundAt(elements, keyedElements, Nodes(lfuList), key);
    }

    method DoUpdate(key: K, value: V, ghost i: nat)
      requires Valid() && i < usedSize && key in keyedElements && lfuList[i].node == keyedElements[key]
      modifies this
      ensures Valid() && Contents() == Used(old(Contents()), i, value)
    {
      hide Ok, View, Used;
      DoAccess(keyedElements[key], value, i);
    }

    /** `doAccess`, with the value that `doUpdate` has just assigned to the element. */
    method DoAccess(n: nat, value: V, ghost i: nat)
      requires Valid() && i < usedSize && n == lfuList[i].node
      modifies this`elements, this`lfuList
      ensures Valid() && Contents() == Used(old(Contents()), i, value)
      ensures n < |elements| && elements[n].Holds? && elements[n].value == value
      ensures elements[n].at.count == old(lfuList[i].count) + 1
    {
      hide Arranged, View, Counting, Used, Placed, Erased, Nodes;
      SlotOf(elements, openSlotList, openSlotListEnd, lfuList, keyedElements, usedSize, i);
      var e := elements[n];
      var u := Use(e.at.count + 1, keyedElements[e.key]);
      var lfu' := Placed(Erased(lfuList, e.at), u);
      var e' := Holds(e.key, u, value);
      AccessKeeps(elements, lfuList, keyedElements, i, value, u, lfu', e');
      elements := elements[n := e'];
      lfuList := lfu';
    }

    method DoErase(n: nat, ghost i: nat)
      requires Valid() && i < usedSize && n == lfuList[i].node
      modifies this
      ensures Valid() && Contents() == Without(old(Contents()), i) && usedSize == old(usedSize) - 1
      ensures keyedElements.Keys <= old(keyedElements.Keys)
    {
      hide Arranged, Counting, SameNodes, View, Without, Position, Spliced, Erased;
      SlotOf(elements, openSlotList, openSlotListEnd, lfuList, keyedElements, usedSize, i);
      ReleaseKeeps(elements, openSlotList, openSlotListEnd, lfuList, keyedElements, usedSize, i,
                   Freed(openSlotList, openSlotListEnd, n), Erased(lfuList, lfuList[i]));
      var e := elements[n];
      if n != Previous(openSlotList, openSlotListEnd) {
        openSlotList := Spliced(openSlotList, openSlotListEnd, n);
      }
      openSlotListEnd := Previous(openSlotList, openSlotListEnd);
      keyedElements := keyedElements - {e.key};
      lfuList := Erased(lfuList, e.at);
      usedSize := usedSize - 1;
    }

    method DoPrune()
      requires Valid()
      modifies this
      ensures Valid() && keyedElements.Keys <= old(keyedElements.Keys)
      ensures old(usedSize) > 0 ==> usedSize < old(usedSize)
      ensures Contents() == if old(usedSize) > 0 then Without(old(Contents()), 0) else old(Contents())
    {
      hide View, Without;
      if usedSize > 0 {
        DoErase(lfuList[0].node, 0);
      }
    }

    method DoInsert(key: K, value: V)
      requires Valid() && key !in keyedElements
      modifies this
      ensures Valid() && Contents() == LfuInsert(old(Contents()), capacity, key, value)
    {
      hide Arranged, Counting, SameNodes, View, Used, Emplaced, Without;
      ghost var i := Locate(key);
      if usedSize >= |elements| {
        DoPrune();
      }
      DoOpen(key, value);
    }

    /** The slot at the marker takes the key with a count of one, and the marker moves on. */
    method DoOpen(key: K, value: V)
      requires Valid() && key !in keyedElements && usedSize < |elements|
      modifies this
      ensures Valid() && Contents() == Emplaced(old(Contents()), Entry(key, value), 1)
    {
      hide View, Emplaced, Placed, Arranged, Counting, Position;
      var n := openSlotListEnd;
      var e := Holds(key, Use(1, n), value);
      OpenKeeps(elements, openSlotList, n, lfuList, keyedElements, usedSize, key, value, Placed(lfuList, Use(1, n)), e);
      keyedElements := keyedElements[key := n];
      lfuList := Placed(lfuList, Use(1, n));
      elements := elements[n := e];
      openSlotListEnd := Following(openSlotList, openSlotListEnd, |elements|);
      usedSize := usedSize + 1;
    }

    method Erase(key: K) returns (found: bool)
      requires Valid()
      modifies this
      ensures Valid() && Contents() == LfuErase(old(Contents()), key)
      ensures found <==> Lookup(old(Contents()).entries, key).Some?
    {
      hide View, Without, Ok;
      ghost var i := Locate(key);
      found := key in keyedElements;
      if found {
        DoErase(keyedElements[key], i);
      }
    }

    /** `findWithRefcount`; `find` drops the count. */
    method FindWithRefcount(key: K, peek: bool) returns (r: Option<(V, nat)>)
      requires Valid()
      modifies this
      ensures Valid() && Contents() == LfuFind(old(Contents()), key, peek)
      ensures r == CountedLookup(old(Contents()), key, peek)
    {
      hide View, Used, Counting, Arranged;
      ghost var i := Locate(key);
      if key in keyedElements {
        var n := keyedElements[key];
        if !peek {
          DoAccess(n, elements[n].value, i);
        }
        r := Some((elements[n].value, elements[n].at.count));
      } else {
        r := None;
      }
    }
  }
}
