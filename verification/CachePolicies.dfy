/** What the lists of the caches say about the operations that led to them. */
module CachePolicies {
  import opened Basics
  import opened CacheModel
  import opened CacheKeys

  // ----- least recently used

  function LruReplay<K(==), V>(ops: seq<Op<K, V>>, cap: nat): seq<Entry<K, V>>
    requires cap > 0
  {
    if ops == [] then [] else LruStep(LruReplay(Front(ops), cap), cap, Last(ops))
  }

  ghost predicate ByTouch<K, V>(ops: seq<Op<K, V>>, m: seq<Entry<K, V>>) {
    forall i, j :: 0 <= i < j < |m| ==> LastTouch(ops, m[i].key) > LastTouch(ops, m[j].key)
  }

  /** After any run the list holds just the keys that are there, each once, with the value inserted last, and at most as many as
      the capacity says; they stand by their last touch, the latest first. */
  lemma {:induction false} LruOrder<K, V>(ops: seq<Op<K, V>>, cap: nat)
    requires cap > 0
    ensures var m := LruReplay(ops, cap); |m| <= cap && Lists(Lru, ops, cap, m) && ByTouch(ops, m)
  {
    if ops != [] {
      LruOrder(Front(ops), cap);
      LruKeeps(ops, cap, LruReplay(Front(ops), cap));
    }
  }

  lemma LruKeeps<K, V>(ops: seq<Op<K, V>>, cap: nat, m: seq<Entry<K, V>>)
    requires cap > 0 && ops != [] && |m| <= cap && Lists(Lru, Front(ops), cap, m) && ByTouch(Front(ops), m)
    ensures var r := LruStep(m, cap, Last(ops)); |r| <= cap && Lists(Lru, ops, cap, r) && ByTouch(ops, r)
  {
    hide GivenUp, Kept, KeySet, At, WithoutKey, LastTouch;
    var k := Last(ops).key;
    ListSize(Lru, Front(ops), cap, m);
    KeyAt(m, k);
    KeptStep(Lru, ops, cap);
    Untouched(m, k);
    KeySetWithout(m, k);
    match Last(ops)
    case Insert(_, v) =>
      if At(m, k) == |m| && |m| >= cap {
        LastGoes(ops, cap, m);
        LruPuts(ops, Front(m), k, v);
        NotThere(m, k);
      } else {
        LruPuts(ops, WithoutKey(m, k), k, v);
      }
    case Erase(_) => SameBut(ops, WithoutKey(m, k), k);
    case Find(_, peek) =>
      if At(m, k) < |m| && !peek {
        ValueThere(Front(ops), m, k);
        LruPuts(ops, WithoutKey(m, k), k, m[At(m, k)].value);
      } else {
        if At(m, k) == |m| {
          NotThere(m, k);
        }
        SameBut(ops, m, k);
      }
  }

  lemma ValueThere<K, V>(ops: seq<Op<K, V>>, m: seq<Entry<K, V>>, k: K)
    requires Current(ops, m) && At(m, k) < |m|
    ensures LastValue(ops, k) == Some(m[At(m, k)].value)
  {
  }

  lemma NotThere<K, V>(m: seq<Entry<K, V>>, k: K)
    requires At(m, k) == |m|
    ensures forall i :: 0 <= i < |m| ==> m[i].key != k
  {
  }

  /** An operation that touches none of the entries. */
  lemma SameBut<K, V>(ops: seq<Op<K, V>>, m: seq<Entry<K, V>>, k: K)
    requires ops != [] && Last(ops).key == k && !Last(ops).Insert? && ByTouch(Front(ops), m) && Current(Front(ops), m)
    requires Last(ops).Find? && !Last(ops).peek ==> forall i :: 0 <= i < |m| ==> m[i].key != k
    ensures ByTouch(ops, m) && Current(ops, m)
  {
    assert forall i :: 0 <= i < |m| ==> LastTouch(ops, m[i].key) == LastTouch(Front(ops), m[i].key);
  }

  lemma LruPuts<K, V>(ops: seq<Op<K, V>>, rest: seq<Entry<K, V>>, k: K, v: V)
    requires ops != [] && Touches(Last(ops), k) && Last(ops).key == k
    requires (if Last(ops).Insert? then Last(ops).value == v else LastValue(Front(ops), k) == Some(v))
    requires UniqueKeys(rest) && ByTouch(Front(ops), rest) && Current(Front(ops), rest)
    requires forall i :: 0 <= i < |rest| ==> rest[i].key != k
    ensures var m := [Entry(k, v)] + rest; UniqueKeys(m) && ByTouch(ops, m) && Current(ops, m) && KeySet(m) == {k} + KeySet(rest)
  {
    FrontStep(ops, rest, k, v);
    KeySetJoin([Entry(k, v)], rest);
    KeySetOne(Entry(k, v));
  }

  /** The last of the list is the one touched least recently. */
  lemma LastGoes<K, V>(ops: seq<Op<K, V>>, cap: nat, m: seq<Entry<K, V>>)
    requires ops != [] && m != [] && Lists(Lru, Front(ops), cap, m) && ByTouch(Front(ops), m)
    ensures GivenUp(Lru, Front(ops), cap) == {Last(m).key} && KeySet(Front(m)) == KeySet(m) - {Last(m).key}
  {
    hide GivenUp;
    var v := |m| - 1;
    assert Foremost(Lru, Front(ops), cap, m, v);
    OneGivenUp(Lru, Front(ops), cap, m, v);
    KeySetDropped(m, v);
    assert Dropped(m, v) == Front(m);
  }

  /** Taking a key out leaves the others in their order. */
  lemma Untouched<K, V>(m: seq<Entry<K, V>>, k: K)
    requires UniqueKeys(m)
    ensures var r := WithoutKey(m, k); |r| <= |m| && forall i :: 0 <= i < |r| ==> r[i].key != k
    ensures At(m, k) < |m| ==> |WithoutKey(m, k)| < |m|
    ensures forall ops :: ByTouch(ops, m) ==> ByTouch(ops, WithoutKey(m, k))
    ensures forall ops :: Current(ops, m) ==> Current(ops, WithoutKey(m, k))
    ensures UniqueKeys(WithoutKey(m, k))
  {
  }

  /** A key touched now comes to the front. */
  lemma FrontStep<K, V>(ops: seq<Op<K, V>>, rest: seq<Entry<K, V>>, k: K, v: V)
    requires ops != [] && Touches(Last(ops), k) && LastValue(ops, k) == Some(v)
    requires UniqueKeys(rest) && ByTouch(Front(ops), rest) && Current(Front(ops), rest)
    requires forall i :: 0 <= i < |rest| ==> rest[i].key != k
    ensures var m := [Entry(k, v)] + rest; UniqueKeys(m) && ByTouch(ops, m) && Current(ops, m)
  {
    var m := [Entry(k, v)] + rest;
    forall i | 0 <= i < |rest|
      ensures LastTouch(ops, rest[i].key) == LastTouch(Front(ops), rest[i].key)
      ensures LastValue(ops, rest[i].key) == LastValue(Front(ops), rest[i].key)
    {
      assert Last(ops).key == k;
    }
  }

  // ----- first in, first out

  function FifoReplay<K(==), V>(ops: seq<Op<K, V>>, cap: nat): seq<Entry<K, V>>
    requires cap > 0
  {
    if ops == [] then [] else FifoStep(FifoReplay(Front(ops), cap), cap, Last(ops))
  }

  ghost predicate ByArrival<K, V>(ops: seq<Op<K, V>>, cap: nat, m: seq<Entry<K, V>>)
  {
    forall i, j :: 0 <= i < j < |m| ==> Arrival(Fifo, ops, cap, m[i].key) < Arrival(Fifo, ops, cap, m[j].key)
  }

  /** After any run the list holds just the keys that are there, as before; they stand by their arrival, whatever was updated or
      found in between. */
  lemma {:induction false} FifoOrder<K, V>(ops: seq<Op<K, V>>, cap: nat)
    requires cap > 0
    ensures var m := FifoReplay(ops, cap); |m| <= cap && Lists(Fifo, ops, cap, m) && ByArrival(ops, cap, m)
  {
    if ops != [] {
      FifoOrder(Front(ops), cap);
      FifoKeeps(ops, cap, FifoReplay(Front(ops), cap));
    }
  }

  lemma FifoKeeps<K, V>(ops: seq<Op<K, V>>, cap: nat, m: seq<Entry<K, V>>)
    requires cap > 0 && ops != [] && |m| <= cap && Lists(Fifo, Front(ops), cap, m) && ByArrival(Front(ops), cap, m)
    ensures var r := FifoStep(m, cap, Last(ops)); |r| <= cap && Lists(Fifo, ops, cap, r) && ByArrival(ops, cap, r)
  {
    hide GivenUp, Kept, KeySet, At, WithoutKey, Arrival;
    var k := Last(ops).key;
    ListSize(Fifo, Front(ops), cap, m);
    KeyAt(m, k);
    KeptStep(Fifo, ops, cap);
    SameArrival(ops, cap, m);
    Untouched(m, k);
    KeySetWithout(m, k);
    match Last(ops)
    case Insert(_, v) =>
      var i := At(m, k);
      if i < |m| {
        ReplacedStep(ops, cap, m, i, v);
      } else {
        NotThere(m, k);
        if |m| >= cap {
          FirstGoes(ops, cap, m);
        }
        NewStep(ops, cap, if |m| >= cap then m[1..] else m, k, v);
      }
    case Erase(_) => ArrivalWithout(ops, cap, m, k);
    case Find(_, _) =>
  }

  /** Keys that stay keep their arrival. */
  lemma SameArrival<K, V>(ops: seq<Op<K, V>>, cap: nat, m: seq<Entry<K, V>>)
    requires ops != [] && KeySet(m) == Kept(Fifo, Front(ops), cap)
    ensures forall i :: 0 <= i < |m| ==> Arrival(Fifo, ops, cap, m[i].key) == Arrival(Fifo, Front(ops), cap, m[i].key)
  {
    forall i | 0 <= i < |m|
      ensures m[i].key in Kept(Fifo, Front(ops), cap)
    {
      assert m[i] in m;
    }
  }

  lemma ArrivalWithout<K, V>(ops: seq<Op<K, V>>, cap: nat, m: seq<Entry<K, V>>, k: K)
    requires ByArrival(ops, cap, m)
    ensures ByArrival(ops, cap, WithoutKey(m, k))
  {
  }

  /** The first of the list is the oldest. */
  lemma FirstGoes<K, V>(ops: seq<Op<K, V>>, cap: nat, m: seq<Entry<K, V>>)
    requires ops != [] && m != [] && Lists(Fifo, Front(ops), cap, m) && ByArrival(Front(ops), cap, m)
    ensures GivenUp(Fifo, Front(ops), cap) == {m[0].key} && KeySet(m[1..]) == KeySet(m) - {m[0].key}
  {
    hide GivenUp;
    assert Foremost(Fifo, Front(ops), cap, m, 0);
    OneGivenUp(Fifo, Front(ops), cap, m, 0);
    KeySetDropped(m, 0);
    assert Dropped(m, 0) == m[1..];
  }

  lemma NewStep<K, V>(ops: seq<Op<K, V>>, cap: nat, rest: seq<Entry<K, V>>, k: K, v: V)
    requires ops != [] && Last(ops) == Insert(k, v) && k !in Kept(Fifo, Front(ops), cap) && UniqueKeys(rest)
    requires (forall i :: 0 <= i < |rest| ==> rest[i].key != k) && ByArrival(ops, cap, rest) && Current(Front(ops), rest)
    ensures var m := rest + [Entry(k, v)];
            UniqueKeys(m) && ByArrival(ops, cap, m) && Current(ops, m) && KeySet(m) == KeySet(rest) + {k}
  {
    var m := rest + [Entry(k, v)];
    KeySetJoin(rest, [Entry(k, v)]);
    KeySetOne(Entry(k, v));
    forall i | 0 <= i < |rest|
      ensures Arrival(Fifo, ops, cap, rest[i].key) < |ops| - 1
    {
      EarlierArrival(Front(ops), cap, rest[i].key);
    }
  }

  lemma {:induction false} EarlierArrival<K, V>(ops: seq<Op<K, V>>, cap: nat, k: K)
    ensures Arrival(Fifo, ops, cap, k) < |ops|
  {
    if ops != [] {
      EarlierArrival(Front(ops), cap, k);
    }
  }

  lemma ReplacedStep<K, V>(ops: seq<Op<K, V>>, cap: nat, m: seq<Entry<K, V>>, i: nat, v: V)
    requires ops != [] && i < |m| && Last(ops) == Insert(m[i].key, v) && UniqueKeys(m) && Current(Front(ops), m)
    requires ByArrival(ops, cap, m)
    ensures var m' := m[i := Entry(m[i].key, v)];
            UniqueKeys(m') && ByArrival(ops, cap, m') && Current(ops, m') && KeySet(m') == KeySet(m)
  {
    var m' := m[i := Entry(m[i].key, v)];
    forall k
      ensures k in KeySet(m') <==> k in KeySet(m)
    {
      KeyOf(m, k);
      KeyOf(m', k);
      assert forall j :: 0 <= j < |m| ==> m'[j].key == m[j].key;
    }
  }

  lemma KeyOf<K, V>(m: seq<Entry<K, V>>, k: K)
    ensures k in KeySet(m) <==> exists i :: 0 <= i < |m| && m[i].key == k
  {
    if k in KeySet(m) {
      var e :| e in m && e.key == k;
      var i :| 0 <= i < |m| && m[i] == e;
    }
    if i :| 0 <= i < |m| && m[i].key == k {
      assert m[i] in m;
    }
  }
}
