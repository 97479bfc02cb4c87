/** The cache that replaces the key that came first. */
module FifoCache {
  import opened Basics
  import opened CacheModel
  import opened CacheSlots

  datatype Unit = Unit

  /** A slot without a key is blank. */
  type Slots<K, V> = seq<Element<K, V, Unit>>

  /** Blank slots stand in front, the used ones behind them, the oldest first. */
  ghost predicate Ok<K, V>(elements: Slots<K, V>, list: seq<nat>, keyed: map<K, nat>, used: nat) {
    && |elements| == |list| && used <= |list| && Whole(list)
    && (forall i :: 0 <= i < |list| - used ==> list[i] < |elements| && elements[list[i]].Blank?)
    && Linked(elements, keyed, list[|list| - used..])
  }

  ghost predicate Whole(list: seq<nat>) {
    Distinct(list) && forall n: nat :: n in list <==> n < |list|
  }

  lemma OkShape<K, V>(elements: Slots<K, V>, list: seq<nat>, keyed: map<K, nat>, used: nat)
    requires Ok(elements, list, keyed, used)
    ensures |elements| == |list| && used <= |list|
  {
  }

  lemma BackDistinct(list: seq<nat>, from: nat)
    requires Whole(list) && from <= |list|
    ensures Distinct(list[from..])
  {
  }

  /** Moving the first node to the end. */
  lemma ToLast(list: seq<nat>)
    requires Whole(list) && list != []
    ensures var list' := Spliced(list, |list|, list[0]);
            |list'| == |list| && Whole(list') && list' == list[1..] + [list[0]]
  {
    hide Position, Spliced;
    assert [list[0]] + list[1..] == list && Dropped([list[0]], 0) == [];
    var list' := list[1..] + [list[0]];
    SplicedLast(list);
    forall n: nat
      ensures n in list' <==> n in list
    {
    }
  }

  lemma SplicedLast(list: seq<nat>)
    requires Whole(list) && list != []
    ensures Spliced(list, |list|, list[0]) == list[1..] + [list[0]]
  {
    assert |list| !in list;
    PositionIs(list, 0);
    var rest := Dropped(list, 0);
    assert rest == list[1..];
    assert Position(rest, |list|) == |rest|;
  }

  /** Which slot an insertion takes: a blank one while there is one, else the oldest. */
  lemma FirstSlot<K, V>(elements: Slots<K, V>, list: seq<nat>, keyed: map<K, nat>, used: nat)
    requires Ok(elements, list, keyed, used) && list != []
    ensures list[0] < |elements| && (elements[list[0]].Holds? <==> used == |list|)
  {
    if used == |list| {
      assert list[0..] == list;
      assert Named(elements, keyed, list[0]);
    }
  }

  lemma FillKeeps<K, V>(elements: Slots<K, V>, list: seq<nat>, keyed: map<K, nat>, used: nat, key: K, value: V)
    requires Ok(elements, list, keyed, used) && used < |list| && key !in keyed
    ensures var list' := list[1..] + [list[0]];
            && list[0] < |elements| && list[0] !in list[|list| - used..]
            && Ok(elements[list[0] := Holds(key, Unit, value)], list', keyed[key := list[0]], used + 1)
            && list'[|list| - used - 1..] == list[|list| - used..] + [list[0]]
  {
    hide Linked, Spliced;
    var n, e := list[0], Holds(key, Unit, value);
    var back, list' := list[|list| - used..], list[1..] + [n];
    assert n in list;
    assert forall j :: 0 <= j < |back| ==> back[j] == list[|list| - used + j];
    LinkedNew(elements, keyed, back, n, e);
    ToLast(list);
    assert list'[|list| - used - 1..] == back + [n];
    assert forall i :: 0 <= i < |list| - used - 1 ==> list'[i] == list[i + 1];
  }

  lemma ReplaceKeeps<K, V>(elements: Slots<K, V>, list: seq<nat>, keyed: map<K, nat>, key: K, value: V)
    requires Ok(elements, list, keyed, |list|) && list != [] && key !in keyed
    requires list[0] < |elements| && elements[list[0]].Holds?
    ensures var list' := list[1..] + [list[0]];
            && Ok(elements[list[0] := Holds(key, Unit, value)], list', (keyed - {elements[list[0]].key})[key := list[0]], |list|)
            && list[0] !in list[1..]
  {
    hide Linked, Spliced;
    var n, e := list[0], Holds(key, Unit, value);
    assert list[0..] == list;
    Unlinked(elements, keyed, list, 0);
    assert Dropped(list, 0) == list[1..];
    var keyed' := keyed - {elements[n].key};
    LinkedNew(elements, keyed', list[1..], n, e);
    ToLast(list);
    var list' := list[1..] + [n];
    assert list'[0..] == list';
  }

  lemma FillLists<K, V>(elements: Slots<K, V>, list: seq<nat>, keyed: map<K, nat>, used: nat, key: K, value: V)
    requires Ok(elements, list, keyed, used) && used < |list| && key !in keyed
    ensures var list' := list[1..] + [list[0]];
            && list[0] < |elements| && AllHold(elements, list[|list| - used..])
            && Ok(elements[list[0] := Holds(key, Unit, value)], list', keyed[key := list[0]], used + 1)
            && AllHold(elements[list[0] := Holds(key, Unit, value)], list'[|list| - used - 1..])
            && Listed(elements[list[0] := Holds(key, Unit, value)], list'[|list| - used - 1..])
               == Listed(elements, list[|list| - used..]) + [Entry(key, value)]
  {
    hide Linked, Listed, Whole;
    FillKeeps(elements, list, keyed, used, key, value);
    var n, e, back := list[0], Holds(key, Unit, value), list[|list| - used..];
    LinkedHold(elements, keyed, back);
    LinkedHold(elements[n := e], keyed[key := n], back + [n]);
    OtherSlot(elements, back, n, e);
    ListedLast(elements[n := e], back, n);
  }

  lemma ReplaceLists<K, V>(elements: Slots<K, V>, list: seq<nat>, keyed: map<K, nat>, key: K, value: V)
    requires Ok(elements, list, keyed, |list|) && list != [] && key !in keyed
    requires list[0] < |elements| && elements[list[0]].Holds?
    ensures var list' := list[1..] + [list[0]];
            && AllHold(elements, list[0..])
            && Ok(elements[list[0] := Holds(key, Unit, value)], list', (keyed - {elements[list[0]].key})[key := list[0]], |list|)
            && AllHold(elements[list[0] := Holds(key, Unit, value)], list'[0..])
            && Listed(elements[list[0] := Holds(key, Unit, value)], list'[0..])
               == Listed(elements, list[0..])[1..] + [Entry(key, value)]
  {
    hide Linked, Listed, Whole;
    ReplaceKeeps(elements, list, keyed, key, value);
    var n, e, rest := list[0], Holds(key, Unit, value), list[1..];
    assert list[0..] == list && Dropped(list, 0) == rest;
    assert (rest + [n])[0..] == rest + [n];
    LinkedHold(elements, keyed, list);
    LinkedHold(elements[n := e], (keyed - {elements[n].key})[key := n], rest + [n]);
    ListedDropped(elements, list, 0);
    assert Dropped(Listed(elements, list), 0) == Listed(elements, list)[1..];
    OtherSlot(elements, rest, n, e);
    ListedLast(elements[n := e], rest, n);
  }

  /** The list after `doErase`. */
  function Freed(list: seq<nat>, n: nat): seq<nat>
    requires n in list
  {
    if n != list[0] then Spliced(list, list[0], n) else list
  }

  lemma EraseKeeps<K, V>(elements: Slots<K, V>, list: seq<nat>, keyed: map<K, nat>, used: nat, i: nat, b: nat, n: nat,
                         list': seq<nat>)
    requires Ok(elements, list, keyed, used) && i < used && b + used == |list| && n == list[b + i] && list' == Freed(list, n)
    ensures n < |elements| && elements[n].Holds? && |list'| == |list|
    ensures list'[b + 1..] == Dropped(list[b..], i) && n !in list'[b + 1..]
    ensures Ok(elements[n := Blank], list', keyed - {elements[n].key}, used - 1)
  {
    hide Linked, Spliced, Position;
    var back := list[b..];
    assert back[i] == n;
    ToFirst(list, b + i);
    assert list' == [n] + Dropped(list, b + i);
    FirstDistinct(list, b + i, list');
    BackDistinct(list, b);
    LinkedHold(elements, keyed, back);
    Unlinked(elements, keyed, back, i);
    var back' := Dropped(back, i);
    assert list'[b + 1..] == back';
    DroppedIn(back, i, n);
    OtherLinked(elements, keyed - {elements[n].key}, back', n);
    forall j | 0 <= j < b + 1
      ensures list'[j] < |elements| && elements[n := Blank][list'[j]].Blank?
    {
      if j > 0 {
        assert list'[j] == list[j - 1];
      }
    }
  }

  lemma EraseLists<K, V>(elements: Slots<K, V>, list: seq<nat>, keyed: map<K, nat>, used: nat, i: nat)
    requires Ok(elements, list, keyed, used) && i < used
    ensures var b := |list| - used; var n := list[b + i]; var list' := Freed(list, n);
            && n < |elements| && elements[n].Holds? && |list'| == |list| && AllHold(elements, list[b..])
            && Ok(elements[n := Blank], list', keyed - {elements[n].key}, used - 1)
            && AllHold(elements[n := Blank], list'[b + 1..])
            && Listed(elements[n := Blank], list'[b + 1..]) == Dropped(Listed(elements, list[b..]), i)
  {
    hide Linked, Listed, Whole, Spliced;
    var b := |list| - used;
    LinkedHold(elements, keyed, list[b..]);
    EraseKeeps(elements, list, keyed, used, i, b, list[b + i], Freed(list, list[b + i]));
    ListedDropped(elements, list[b..], i);
    OtherSlot(elements, Dropped(list[b..], i), list[b + i], Blank);
  }

  lemma OtherLinked<K, V>(elements: Slots<K, V>, keyed: map<K, nat>, used: seq<nat>, n: nat)
    requires Linked(elements, keyed, used) && n !in used && n < |elements|
    ensures Linked(elements[n := Blank], keyed, used)
  {
    var elements' := elements[n := Blank];
    forall i | 0 <= i < |used|
      ensures Named(elements', keyed, used[i])
    {
      assert Named(elements, keyed, used[i]);
    }
  }

  class FIFO<K(==), V> {
    var elements: Slots<K, V>
    var fifoList: seq<nat>
    var keyedElements: map<K, nat>
    var usedSize: nat
    const capacity: nat

    ghost predicate Valid()
      reads this
    {
      capacity > 0 && |elements| == capacity && Ok(elements, fifoList, keyedElements, usedSize)
    }

    /** Keys and values, the oldest first. */
    ghost function Contents(): (m: seq<Entry<K, V>>)
      requires Valid()
      reads this
      ensures |m| == usedSize
    {
      Listed(elements, fifoList[capacity - usedSize..])
    }

    constructor (size: nat)
      requires size > 0
      ensures Valid() && capacity == size && Contents() == []
    {
      capacity := size;
      elements := seq(size, _ => Blank);
      fifoList := seq(size, i => i);
      keyedElements := map[];
      usedSize := 0;
      new;
      AllFree(fifoList);
    }

    method Insert(key: K, value: V)
      requires Valid()
      modifies this
      ensures Valid() && Contents() == FifoInsert(old(Contents()), capacity, key, value)
    {
      if key in keyedElements {
        DoUpdate(key, value);
      } else {
        DoInsert(key, value);
      }
    }

    method DoUpdate(key: K, value: V)
      requires Valid() && key in keyedElements
      modifies this
      ensures Valid() && Contents() == FifoInsert(old(Contents()), capacity, key, value)
      ensures At(old(Contents()), key) < |old(Contents())|
    {
      hide Listed, Linked;
      ghost var used := fifoList[capacity - usedSize..];
      BackDistinct(fifoList, capacity - usedSize);
      ghost var i := FoundAt(elements, keyedElements, used, key);
      var n := keyedElements[key];
      assert fifoList[capacity - usedSize + i] == n;
      var e := elements[n];
      var e' := Holds(e.key, e.at, value);
      Relinked(elements, keyedElements, used, i, e');
      elements := elements[n := e'];
    }

    method DoInsert(key: K, value: V)
      requires Valid() && key !in keyedElements
      modifies this
      ensures Valid() && Contents() == FifoInsert(old(Contents()), capacity, key, value)
    {
      hide Listed, Linked, Whole, Spliced, Position, AllHold;
      ghost var list := fifoList;
      BackDistinct(list, capacity - usedSize);
      ghost var i := FoundAt(elements, keyedElements, list[capacity - usedSize..], key);
      FirstSlot(elements, list, keyedElements, usedSize);
      ToLast(list);
      fifoList := Spliced(fifoList, |fifoList|, fifoList[0]);
      var n := fifoList[|fifoList| - 1];
      var e := elements[n];
      if e.Holds? {
        ReplaceLists(elements, list, keyedElements, key, value);
        keyedElements := keyedElements - {e.key};
      } else {
        FillLists(elements, list, keyedElements, usedSize, key, value);
        usedSize := usedSize + 1;
      }
      keyedElements := keyedElements[key := n];
      elements := elements[n := Holds(key, Unit, value)];
    }

    method Erase(key: K) returns (found: bool)
      requires Valid()
      modifies this
      ensures Valid() && Contents() == WithoutKey(old(Contents()), key)
      ensures found <==> Lookup(old(Contents()), key).Some?
    {
      hide Listed, Linked;
      BackDistinct(fifoList, capacity - usedSize);
      ghost var i := FoundAt(elements, keyedElements, fifoList[capacity - usedSize..], key);
      found := key in keyedElements;
      if found {
        DoErase(keyedElements[key], i);
      }
    }

    method DoErase(n: nat, ghost i: nat)
      requires Valid() && i < usedSize && n == fifoList[capacity - usedSize + i]
      modifies this
      ensures Valid() && Contents() == Dropped(old(Contents()), i)
    {
      hide Listed, Ok, Spliced, AllHold, Dropped, Position;
      OkShape(elements, fifoList, keyedElements, usedSize);
      EraseLists(elements, fifoList, keyedElements, usedSize, i);
      if n != fifoList[0] {
        fifoList := Spliced(fifoList, fifoList[0], n);
      }
      keyedElements := keyedElements - {elements[n].key};
      elements := elements[n := Blank];
      usedSize := usedSize - 1;
    }

    method Find(key: K) returns (value: Option<V>)
      requires Valid()
      ensures value == Lookup(Contents(), key)
    {
      hide Listed, Linked;
      BackDistinct(fifoList, capacity - usedSize);
      ghost var i := FoundAt(elements, keyedElements, fifoList[capacity - usedSize..], key);
      value := if key in keyedElements then Some(elements[keyedElements[key]].value) else None;
    }
  }
}
