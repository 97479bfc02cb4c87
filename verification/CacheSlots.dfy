/** Slots reached from two sides: by key through a map, and by a list of slot numbers. An iterator into a list is the
    number of the slot it stands on; the end of a list is a number that is not in it. */
module CacheSlots {
  import opened CacheModel

  /** What a slot holds; `at` is its iterator into the list that orders the slots. */
  datatype Element<K, V, P> = Blank | Holds(key: K, at: P, value: V)

  ghost predicate Distinct(s: seq<nat>) {
    forall i, j :: 0 <= i < j < |s| ==> s[i] != s[j]
  }

  /** Where an iterator stands. */
  function Position(s: seq<nat>, node: nat): (p: nat)
    ensures p <= |s| && (p < |s| ==> s[p] == node)
    ensures forall i :: 0 <= i < p ==> s[i] != node
  {
    if s == [] || s[0] == node then 0 else 1 + Position(s[1..], node)
  }

  lemma PositionIs(s: seq<nat>, i: nat)
    requires Distinct(s) && i < |s|
    ensures Position(s, s[i]) == i
  {
  }

  /** `splice` within one list: the node moves in front of another or to the end. */
  function Spliced(s: seq<nat>, mark: nat, node: nat): (r: seq<nat>)
    requires node in s
  {
    if mark == node then s
    else
      var rest := Dropped(s, Position(s, node));
      var p := Position(rest, mark);
      rest[..p] + [node] + rest[p..]
  }

  function Previous(s: seq<nat>, mark: nat): nat
    requires Position(s, mark) > 0
  {
    s[Position(s, mark) - 1]
  }

  /** The node behind; `end` behind the last one. */
  function Following(s: seq<nat>, node: nat, end: nat): nat {
    var p := Position(s, node) + 1;
    if p < |s| then s[p] else end
  }

  lemma DroppedIn(s: seq<nat>, i: nat, x: nat)
    requires Distinct(s) && i < |s|
    ensures x in Dropped(s, i) <==> x in s && x != s[i]
  {
    var d := Dropped(s, i);
    if x in d {
      var j :| 0 <= j < |d| && d[j] == x;
      assert x == if j < i then s[j] else s[j + 1];
    }
    if x in s && x != s[i] {
      var j :| 0 <= j < |s| && s[j] == x;
      assert x == if j < i then d[j] else d[j - 1];
    }
  }

  lemma DroppedDistinct(s: seq<nat>, i: nat)
    requires Distinct(s) && i < |s|
    ensures Distinct(Dropped(s, i))
  {
  }

  /** Moving a node to the front. */
  lemma ToFirst(s: seq<nat>, i: nat)
    requires Distinct(s) && i < |s|
    ensures Spliced(s, s[0], s[i]) == [s[i]] + Dropped(s, i)
  {
    hide Position;
    PositionIs(s, i);
    var rest := Dropped(s, i);
    if i > 0 {
      assert rest[0] == s[0];
      assert Position(rest, s[0]) == 0;
      assert rest[..0] + [s[i]] + rest[0..] == [s[i]] + rest;
    } else {
      assert s == [s[0]] + s[1..];
    }
  }

  /** Moving a node of the front part to the end of that part. */
  lemma ToEndOfFront(front: seq<nat>, back: seq<nat>, i: nat, mark: nat)
    requires Distinct(front + back) && i < |front| && mark !in front
    requires back != [] ==> mark == back[0]
    ensures Spliced(front + back, mark, front[i]) == Dropped(front, i) + [front[i]] + back
  {
    var s := front + back;
    assert s[i] == front[i];
    PositionIs(s, i);
    var rest := Dropped(s, i);
    assert rest == Dropped(front, i) + back;
    var p := Position(rest, mark);
    forall j | 0 <= j < |front| - 1
      ensures rest[j] in front
    {
      assert rest[j] == front[if j < i then j else j + 1];
    }
    if back != [] {
      assert rest[|front| - 1] == mark;
    }
    assert p == |front| - 1;
  }

  // ----- a list whose front part is in use

  /** The list holds every slot once, the used ones in front of the end marker. */
  ghost predicate Arranged(list: seq<nat>, end: nat, used: nat) {
    && Distinct(list) && used <= |list| && Position(list, end) == used && (forall n: nat :: n in list <==> n < |list|)
  }

  /** Moving a used node to the front. */
  lemma AccessArranged(list: seq<nat>, end: nat, used: nat, i: nat)
    requires Arranged(list, end, used) && i < used
    ensures var list' := Spliced(list, list[0], list[i]);
            |list'| == |list| && Arranged(list', end, used) && list'[..used] == [list[i]] + Dropped(list[..used], i)
  {
    hide Position, Spliced;
    ToFirst(list, i);
    var list' := [list[i]] + Dropped(list, i);
    FirstDistinct(list, i, list');
    if used < |list| {
      assert list'[used] == end;
    }
    PositionOf(list', end, used);
    FirstFront(list, i, list', used);
  }

  lemma FirstFront(list: seq<nat>, i: nat, list': seq<nat>, used: nat)
    requires i < used <= |list| && list' == [list[i]] + Dropped(list, i)
    ensures list'[..used] == [list[i]] + Dropped(list[..used], i)
  {
  }

  lemma FirstDistinct(list: seq<nat>, i: nat, list': seq<nat>)
    requires Distinct(list) && i < |list| && list' == [list[i]] + Dropped(list, i)
    ensures Distinct(list') && |list'| == |list| && forall n :: n in list' <==> n in list
  {
    DroppedDistinct(list, i);
    forall n
      ensures n in list' <==> n in list
    {
      DroppedIn(list, i, n);
    }
    DroppedIn(list, i, list[i]);
  }

  lemma PositionOf(list: seq<nat>, end: nat, p: nat)
    requires Distinct(list) && p <= |list| && if p < |list| then list[p] == end else end !in list
    ensures Position(list, end) == p
  {
  }

  lemma FrontDistinct(list: seq<nat>, end: nat, used: nat)
    requires Arranged(list, end, used)
    ensures Distinct(list[..used]) && Position(list, end) == used
  {
  }

  /** What `doErase` makes of the list: the node is the first free one, and the marker stands on it. */
  function Freed(list: seq<nat>, end: nat, n: nat): seq<nat>
    requires n in list && Position(list, end) > 0
  {
    if n != Previous(list, end) then Spliced(list, end, n) else list
  }

  lemma EraseArranged(list: seq<nat>, end: nat, used: nat, i: nat)
    requires Arranged(list, end, used) && i < used
    ensures var list' := Freed(list, end, list[i]);
            && |list'| == |list| && Position(list, end) == used && Position(list', end) > 0
            && Arranged(list', Previous(list', end), used - 1)
            && list'[..used - 1] == Dropped(list[..used], i)
  {
    hide Position, Spliced;
    var front, back := list[..used], list[used..];
    assert list == front + back;
    var list' := Freed(list, end, list[i]);
    if i < used - 1 {
      ToEndOfFront(front, back, i, end);
    } else {
      assert Dropped(front, i) + [front[i]] + back == list;
    }
    assert list' == Dropped(front, i) + [front[i]] + back;
    assert front[i] == list[i];
    FreedDistinct(front, back, i, list');
    assert list'[used - 1] == list[i];
    PositionOf(list', end, used);
    PositionOf(list', list[i], used - 1);
  }

  lemma FreedDistinct(front: seq<nat>, back: seq<nat>, i: nat, list': seq<nat>)
    requires Distinct(front + back) && i < |front| && list' == Dropped(front, i) + [front[i]] + back
    ensures Distinct(list') && forall n :: n in list' <==> n in front + back
  {
    var list := front + back;
    forall a, b | 0 <= a < b < |list'|
      ensures list'[a] != list'[b]
    {
      assert list'[a] == list[Origin(a, i, |front|)] && list'[b] == list[Origin(b, i, |front|)];
    }
    forall n
      ensures n in list' <==> n in list
    {
      assert Distinct(front) by {
        assert forall a :: 0 <= a < |front| ==> list[a] == front[a];
      }
      DroppedIn(front, i, n);
    }
  }

  ghost function Origin(a: nat, i: nat, used: nat): nat {
    if a < i then a else if a + 1 < used then a + 1 else if a + 1 == used then i else a
  }

  lemma AllFree(list: seq<nat>)
    requires forall i :: 0 <= i < |list| ==> list[i] == i
    ensures Arranged(list, 0, 0)
  {
    forall n: nat | n < |list|
      ensures n in list
    {
      assert list[n] == n;
    }
  }

  // ----- slots and keys

  /** The map and the list of used slots name the same slots, each under the key it holds. */
  ghost predicate Linked<K, V, P>(elements: seq<Element<K, V, P>>, keyed: map<K, nat>, used: seq<nat>) {
    && (forall i :: 0 <= i < |used| ==> Named(elements, keyed, used[i]))
    && (forall k :: k in keyed ==> keyed[k] in used && keyed[k] < |elements| && elements[keyed[k]].Holds?
                                   && elements[keyed[k]].key == k)
  }

  ghost predicate Named<K, V, P>(elements: seq<Element<K, V, P>>, keyed: map<K, nat>, n: nat) {
    n < |elements| && elements[n].Holds? && elements[n].key in keyed && keyed[elements[n].key] == n
  }

  ghost predicate AllHold<K, V, P>(elements: seq<Element<K, V, P>>, used: seq<nat>) {
    forall i :: 0 <= i < |used| ==> used[i] < |elements| && elements[used[i]].Holds?
  }

  /** The keys and values in the order of the slots. */
  ghost function Listed<K, V, P>(elements: seq<Element<K, V, P>>, used: seq<nat>): (m: seq<Entry<K, V>>)
    requires AllHold(elements, used)
    ensures |m| == |used|
    ensures forall i :: 0 <= i < |m| ==> m[i] == Entry(elements[used[i]].key, elements[used[i]].value)
  {
    seq(|used|, i requires 0 <= i < |used| => Entry(elements[used[i]].key, elements[used[i]].value))
  }

  lemma LinkedHold<K, V, P>(elements: seq<Element<K, V, P>>, keyed: map<K, nat>, used: seq<nat>)
    requires Linked(elements, keyed, used)
    ensures AllHold(elements, used)
  {
  }

  lemma ListedUnique<K, V, P>(elements: seq<Element<K, V, P>>, keyed: map<K, nat>, used: seq<nat>)
    requires Linked(elements, keyed, used) && Distinct(used)
    ensures UniqueKeys(Listed(elements, used))
  {
    hide Listed;
    var m := Listed(elements, used);
    forall i, j | 0 <= i < j < |m|
      ensures m[i].key != m[j].key
    {
      assert keyed[elements[used[i]].key] == used[i] && keyed[elements[used[j]].key] == used[j];
    }
  }

  /** Looking up in the map finds the place in the list. */
  lemma FoundAt<K, V, P>(elements: seq<Element<K, V, P>>, keyed: map<K, nat>, used: seq<nat>, k: K) returns (i: nat)
    requires Linked(elements, keyed, used) && Distinct(used)
    ensures i == At(Listed(elements, used), k)
    ensures k in keyed <==> i < |used|
    ensures AllHold(elements, used) && (k in keyed ==> keyed[k] < |elements| && elements[keyed[k]].Holds?)
    ensures k in keyed ==> used[i] == keyed[k] && elements[keyed[k]].key == k && Listed(elements, used)[i] == Entry(k, elements[keyed[k]].value)
  {
    hide Listed;
    var m := Listed(elements, used);
    if k in keyed {
      i := Position(used, keyed[k]);
      ListedUnique(elements, keyed, used);
      AtIs(m, i);
    } else {
      forall j | 0 <= j < |m|
        ensures m[j].key != k
      {
        assert used[j] in used;
      }
      AtNone(m, k);
      i := |used|;
    }
  }

  lemma ListedDropped<K, V, P>(elements: seq<Element<K, V, P>>, used: seq<nat>, i: nat)
    requires AllHold(elements, used) && i < |used|
    ensures AllHold(elements, Dropped(used, i))
    ensures Listed(elements, Dropped(used, i)) == Dropped(Listed(elements, used), i)
  {
    hide Listed;
  }

  lemma ListedFirst<K, V, P>(elements: seq<Element<K, V, P>>, n: nat, used: seq<nat>)
    requires AllHold(elements, [n] + used)
    ensures AllHold(elements, used) && n < |elements| && elements[n].Holds?
    ensures Listed(elements, [n] + used) == [Entry(elements[n].key, elements[n].value)] + Listed(elements, used)
  {
    hide Listed;
    var all := [n] + used;
    assert all[0] == n && all[1..] == used;
  }

  lemma ListedLast<K, V, P>(elements: seq<Element<K, V, P>>, used: seq<nat>, n: nat)
    requires AllHold(elements, used + [n])
    ensures AllHold(elements, used) && n < |elements| && elements[n].Holds?
    ensures Listed(elements, used + [n]) == Listed(elements, used) + [Entry(elements[n].key, elements[n].value)]
  {
    hide Listed;
    var all := used + [n];
    assert all[|used|] == n && all[..|used|] == used;
  }

  /** The same slots in another order are linked as well. */
  lemma Reordered<K, V, P>(elements: seq<Element<K, V, P>>, keyed: map<K, nat>, used: seq<nat>, used': seq<nat>)
    requires Linked(elements, keyed, used) && forall n :: n in used <==> n in used'
    ensures Linked(elements, keyed, used')
  {
    forall i | 0 <= i < |used'|
      ensures Named(elements, keyed, used'[i])
    {
      assert used'[i] in used;
    }
  }

  /** Forgetting a key and its slot. */
  lemma Unlinked<K, V, P>(elements: seq<Element<K, V, P>>, keyed: map<K, nat>, used: seq<nat>, i: nat)
    requires Linked(elements, keyed, used) && Distinct(used) && i < |used|
    ensures elements[used[i]].Holds? && Linked(elements, keyed - {elements[used[i]].key}, Dropped(used, i))
  {
    var n := used[i];
    var k, left := elements[n].key, Dropped(used, i);
    var keyed' := keyed - {k};
    forall j | 0 <= j < |left|
      ensures Named(elements, keyed', left[j])
    {
      DroppedIn(used, i, left[j]);
      assert Named(elements, keyed, left[j]);
    }
    forall j | j in keyed'
      ensures keyed'[j] in left
    {
      DroppedIn(used, i, keyed[j]);
    }
  }

  /** Putting a new key into an unused slot. */
  lemma LinkedNew<K, V, P>(elements: seq<Element<K, V, P>>, keyed: map<K, nat>, used: seq<nat>, n: nat, e: Element<K, V, P>)
    requires Linked(elements, keyed, used) && n !in used && n < |elements| && e.Holds? && e.key !in keyed
    ensures Linked(elements[n := e], keyed[e.key := n], used + [n])
  {
    var keyed' := keyed[e.key := n];
    forall j | 0 <= j < |used + [n]|
      ensures Named(elements[n := e], keyed', (used + [n])[j])
    {
      if j < |used| {
        assert Named(elements, keyed, used[j]);
      }
    }
    forall k | k in keyed'
      ensures keyed'[k] in used + [n]
    {
      if k != e.key {
        assert keyed[k] in used;
      }
    }
  }

  /** Another value in a used slot. */
  lemma Relinked<K, V, P>(elements: seq<Element<K, V, P>>, keyed: map<K, nat>, used: seq<nat>, i: nat, e: Element<K, V, P>)
    requires Linked(elements, keyed, used) && Distinct(used) && i < |used|
    requires e.Holds? && elements[used[i]].Holds? && e.key == elements[used[i]].key
    ensures Linked(elements[used[i] := e], keyed, used)
    ensures Listed(elements[used[i] := e], used) == Listed(elements, used)[i := Entry(e.key, e.value)]
  {
    hide Listed;
    assert used[i] in used;
  }

  /** Slots that are not listed do not matter. */
  lemma OtherSlot<K, V, P>(elements: seq<Element<K, V, P>>, used: seq<nat>, n: nat, e: Element<K, V, P>)
    requires AllHold(elements, used) && n !in used && n < |elements|
    ensures AllHold(elements[n := e], used) && Listed(elements[n := e], used) == Listed(elements, used)
  {
    hide Listed;
  }
}
