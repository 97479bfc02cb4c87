/** The cache that replaces the least recently used key. */
module LruCache {
  import opened Basics
  import opened CacheModel
  import opened CacheSlots

  type Slots<K, V> = seq<Element<K, V, nat>>

  /** Every used slot knows its own node. */
  ghost predicate AtHome<K, V>(elements: Slots<K, V>, used: seq<nat>) {
    forall i :: 0 <= i < |used| ==> used[i] < |elements| && elements[used[i]].Holds? && elements[used[i]].at == used[i]
  }

  ghost predicate Ok<K, V>(elements: Slots<K, V>, list: seq<nat>, end: nat, keyed: map<K, nat>, used: nat) {
    && |elements| == |list| && used <= |list| && Arranged(list, end, used)
    && Linked(elements, keyed, list[..used]) && AtHome(elements, list[..used])
  }

  lemma AccessKeeps<K, V>(elements: Slots<K, V>, list: seq<nat>, end: nat, keyed: map<K, nat>, used: nat, i: nat)
    requires Ok(elements, list, end, keyed, used) && i < used
    ensures var list' := Spliced(list, list[0], list[i]);
            && Ok(elements, list', end, keyed, used)
            && list'[..used] == [list[i]] + Dropped(list[..used], i)
  {
    hide Linked, Listed, Arranged, Spliced;
    var front := list[..used];
    assert front[i] == list[i];
    assert Distinct(front) by {
      FrontDistinct(list, end, used);
    }
    AccessArranged(list, end, used, i);
    var front' := [list[i]] + Dropped(front, i);
    forall n
      ensures n in front <==> n in front'
    {
      DroppedIn(front, i, n);
    }
    Reordered(elements, keyed, front, front');
  }

  lemma EraseKeeps<K, V>(elements: Slots<K, V>, list: seq<nat>, end: nat, keyed: map<K, nat>, used: nat, i: nat)
    requires Ok(elements, list, end, keyed, used) && i < used
    ensures var list' := Freed(list, end, list[i]);
            && list[i] < |elements| && elements[list[i]].Holds? && Position(list, end) == used && Position(list', end) > 0
            && Ok(elements, list', Previous(list', end), keyed - {elements[list[i]].key}, used - 1)
            && list'[..used - 1] == Dropped(list[..used], i)
  {
    hide Linked, Listed, Arranged, Freed, Position;
    var front := list[..used];
    assert front[i] == list[i];
    FrontDistinct(list, end, used);
    EraseArranged(list, end, used, i);
    Unlinked(elements, keyed, front, i);
  }

  lemma LastNode<K, V>(elements: Slots<K, V>, list: seq<nat>, end: nat, keyed: map<K, nat>, used: nat)
    requires Ok(elements, list, end, keyed, used) && used == |list| > 0
    ensures list[used - 1] < |elements|
  {
    assert list[used - 1] in list;
  }

  /** Taking the first free node into use. */
  lemma OpenKeeps<K, V>(elements: Slots<K, V>, list: seq<nat>, end: nat, keyed: map<K, nat>, used: nat, key: K, value: V)
    requires Ok(elements, list, end, keyed, used) && used < |list| && key !in keyed
    ensures end < |elements| && list[..used + 1] == list[..used] + [end] && end !in list[..used]
    ensures Ok(elements[end := Holds(key, end, value)], list, Following(list, end, |list|), keyed[key := end], used + 1)
  {
    hide Linked, Listed;
    var front := list[..used];
    assert list[used] == end;
    assert end in list;
    assert list[..used + 1] == front + [end];
    LinkedNew(elements, keyed, front, end, Holds(key, end, value));
    PositionOf(list, Following(list, end, |list|), used + 1);
  }

  class LRU<K(==), V> {
    var elements: Slots<K, V>
    var lruList: seq<nat>
    var lruListEnd: nat
    var keyedElements: map<K, nat>
    var usedSize: nat
    const capacity: nat

    ghost predicate Valid()
      reads this
    {
      capacity > 0 && |elements| == capacity && Ok(elements, lruList, lruListEnd, keyedElements, usedSize)
    }

    /** Keys and values, the latest used first. */
    ghost function Contents(): (m: seq<Entry<K, V>>)
      requires Valid()
      reads this
      ensures |m| == usedSize
    {
      Listed(elements, lruList[..usedSize])
    }

    constructor (size: nat)
      requires size > 0
      ensures Valid() && capacity == size && Contents() == []
    {
      capacity := size;
      elements := seq(size, _ => Blank);
      lruList := seq(size, i => i);
      lruListEnd := 0;
      keyedElements := map[];
      usedSize := 0;
      new;
      AllFree(lruList);
    }

    method Insert(key: K, value: V)
      requires Valid()
      modifies this
      ensures Valid() && Contents() == LruInsert(old(Contents()), capacity, key, value)
    {
      if key in keyedElements {
        DoUpdate(key, value);
      } else {
        DoInsert(key, value);
      }
    }

    method Erase(key: K) returns (found: bool)
      requires Valid()
      modifies this
      ensures Valid() && Contents() == WithoutKey(old(Contents()), key)
      ensures found <==> Lookup(old(Contents()), key).Some?
    {
      hide Listed, Arranged, Linked;
      FrontDistinct(lruList, lruListEnd, usedSize);
      ghost var i := FoundAt(elements, keyedElements, lruList[..usedSize], key);
      found := key in keyedElements;
      if found {
        DoErase(keyedElements[key], i);
      }
    }

    method Find(key: K, peek: bool) returns (value: Option<V>)
      requires Valid()
      modifies this
      ensures Valid() && Contents() == LruFind(old(Contents()), key, peek)
      ensures value == Lookup(old(Contents()), key)
    {
      hide Listed, Arranged, Linked;
      FrontDistinct(lruList, lruListEnd, usedSize);
      ghost var i := FoundAt(elements, keyedElements, lruList[..usedSize], key);
      if key in keyedElements {
        var n := keyedElements[key];
        value := Some(elements[n].value);
        if !peek {
          DoAccess(n, i);
        }
      } else {
        value := None;
      }
    }

    method DoInsert(key: K, value: V)
      requires Valid() && key !in keyedElements
      modifies this
      ensures Valid() && Contents() == LruInsert(old(Contents()), capacity, key, value)
    {
      hide Listed, Arranged, Linked, Position;
      FrontDistinct(lruList, lruListEnd, usedSize);
      ghost var i := FoundAt(elements, keyedElements, lruList[..usedSize], key);
      if usedSize >= |elements| {
        DoPrune();
      }
      DoOpen(key, value);
      ghost var m := Contents();
      assert Dropped(m, usedSize - 1) == m[..usedSize - 1];
      DoAccess(lruList[usedSize - 1], usedSize - 1);
    }

    method DoPrune()
      requires Valid() && usedSize == |elements|
      modifies this
      ensures Valid() && usedSize == old(usedSize) - 1 && Contents() == old(Contents())[..usedSize]
      ensures keyedElements.Keys <= old(keyedElements.Keys)
    {
      hide Listed, Arranged, Linked, Position;
      ghost var m := Contents();
      LastNode(elements, lruList, lruListEnd, keyedElements, usedSize);
      DoErase(lruList[|lruList| - 1], usedSize - 1);
      assert Dropped(m, |m| - 1) == m[..|m| - 1];
    }

    /** The slot at the marker takes the key, and the marker moves on. */
    method DoOpen(key: K, value: V)
      requires Valid() && key !in keyedElements && usedSize < |elements|
      modifies this
      ensures Valid() && usedSize == old(usedSize) + 1 && lruList == old(lruList)
      ensures Contents() == old(Contents()) + [Entry(key, value)]
    {
      hide Listed, Arranged, Linked, Position;
      ghost var used := lruList[..usedSize];
      OpenKeeps(elements, lruList, lruListEnd, keyedElements, usedSize, key, value);
      var n := lruListEnd;
      OtherSlot(elements, used, n, Holds(key, n, value));
      keyedElements := keyedElements[key := n];
      elements := elements[n := Holds(key, n, value)];
      lruListEnd := Following(lruList, lruListEnd, |elements|);
      usedSize := usedSize + 1;
      ListedLast(elements, used, n);
    }

    method DoUpdate(key: K, value: V)
      requires Valid() && key in keyedElements
      modifies this
      ensures Valid() && Contents() == ToFront(old(Contents()), key, value)
      ensures At(old(Contents()), key) < |old(Contents())|
    {
      hide Listed, Spliced, Arranged, Linked;
      ghost var used, m := lruList[..usedSize], Contents();
      FrontDistinct(lruList, lruListEnd, usedSize);
      ghost var i := FoundAt(elements, keyedElements, used, key);
      var n := keyedElements[key];
      assert used[i] == n;
      var e := elements[n];
      var e' := Holds(e.key, e.at, value);
      Relinked(elements, keyedElements, used, i, e');
      elements := elements[n := e'];
      DoAccess(n, i);
      assert Dropped(m[i := Entry(key, value)], i) == Dropped(m, i);
    }

    method DoAccess(n: nat, ghost i: nat)
      requires Valid() && i < usedSize && n == lruList[i]
      modifies this`lruList
      ensures Valid() && Contents() == [old(Contents())[i]] + Dropped(old(Contents()), i)
    {
      hide Listed, Spliced, Arranged, Linked;
      ghost var used := lruList[..usedSize];
      assert used[i] == n;
      AccessKeeps(elements, lruList, lruListEnd, keyedElements, usedSize, i);
      ListedDropped(elements, used, i);
      lruList := Spliced(lruList, lruList[0], elements[n].at);
      ListedFirst(elements, n, Dropped(used, i));
    }

    method DoErase(n: nat, ghost i: nat)
      requires Valid() && i < usedSize && n == lruList[i] && n < |elements|
      modifies this
      ensures Valid() && elements == old(elements) && Contents() == Dropped(old(Contents()), i)
      ensures keyedElements.Keys <= old(keyedElements.Keys)
    {
      hide Listed, Spliced, Arranged, Linked, Position;
      ghost var used := lruList[..usedSize];
      assert used[i] == n;
      EraseKeeps(elements, lruList, lruListEnd, keyedElements, usedSize, i);
      ListedDropped(elements, used, i);
      var e := elements[n];
      if e.at != Previous(lruList, lruListEnd) {
        lruList := Spliced(lruList, lruListEnd, e.at);
      }
      lruListEnd := Previous(lruList, lruListEnd);
      keyedElements := keyedElements - {e.key};
      usedSize := usedSize - 1;
    }
  }
}
