/** What a cache holds, read off the operations alone: which keys, their values and their counts. */
module CacheKeys {
  import opened Basics
  import opened CacheModel

  function Front<T>(s: seq<T>): seq<T>
    requires s != []
  {
    s[..|s| - 1]
  }

  function Last<T>(s: seq<T>): T
    requires s != []
  {
    s[|s| - 1]
  }

  predicate Touches<K(==), V>(op: Op<K, V>, k: K) {
    match op
    case Insert(j, _) => j == k
    case Find(j, peek) => j == k && !peek
    case Erase(_) => false
  }

  /** When a key was last inserted, updated or found; -1 if never. */
  function LastTouch<K(==), V>(ops: seq<Op<K, V>>, k: K): (t: int)
    ensures -1 <= t < |ops|
  {
    if ops == [] then -1 else if Touches(Last(ops), k) then |ops| - 1 else LastTouch(Front(ops), k)
  }

  /** The value of the last insertion of a key. */
  function LastValue<K(==), V>(ops: seq<Op<K, V>>, k: K): Option<V> {
    if ops == [] then None
    else if Last(ops).Insert? && Last(ops).key == k then Some(Last(ops).value)
    else LastValue(Front(ops), k)
  }

  datatype Policy = Lru | Fifo | Lfu

  /** The keys that are there: an insertion into a full cache gives up the key that comes first, and nothing else ever goes
      but by being erased. */
  ghost function Kept<K, V>(p: Policy, ops: seq<Op<K, V>>, cap: nat): set<K>
    decreases |ops|, 2
  {
    if ops == [] then {}
    else
      var was := Kept(p, Front(ops), cap);
      match Last(ops)
      case Insert(k, _) => if k in was || |was| < cap then was + {k} else was - GivenUp(p, Front(ops), cap) + {k}
      case Erase(k) => was - {k}
      case Find(_, _) => was
  }

  /** When a key last came in: an update of a key that is there does not count. */
  ghost function Arrival<K, V>(p: Policy, ops: seq<Op<K, V>>, cap: nat, k: K): int
    decreases |ops|, 1
  {
    if ops == [] then -1
    else if Last(ops).Insert? && Last(ops).key == k && k !in Kept(p, Front(ops), cap) then |ops| - 1
    else Arrival(p, Front(ops), cap, k)
  }

  /** How often a key has been inserted, updated or found since it came in. */
  ghost function Uses<K, V>(p: Policy, ops: seq<Op<K, V>>, cap: nat, k: K): nat
    decreases |ops|, 1
  {
    if ops == [] then 0
    else if !Touches(Last(ops), k) then Uses(p, Front(ops), cap, k)
    else if k in Kept(p, Front(ops), cap) then Uses(p, Front(ops), cap, k) + 1
    else 1
  }

  /** The key touched least recently, the oldest one, or the one used least, among equals the one touched least recently. */
  ghost predicate Sooner<K, V>(p: Policy, ops: seq<Op<K, V>>, cap: nat, k: K, l: K)
    decreases |ops|, 2
  {
    match p
    case Lru => LastTouch(ops, k) < LastTouch(ops, l)
    case Fifo => Arrival(p, ops, cap, k) < Arrival(p, ops, cap, l)
    case Lfu =>
      var a, b := Uses(p, ops, cap, k), Uses(p, ops, cap, l);
      a < b || (a == b && LastTouch(ops, k) < LastTouch(ops, l))
  }

  ghost function GivenUp<K, V>(p: Policy, ops: seq<Op<K, V>>, cap: nat): set<K>
    decreases |ops|, 3
  {
    var all := Kept(p, ops, cap);
    set k | k in all && forall l :: l in all && l != k ==> Sooner(p, ops, cap, k, l)
  }

  /** One operation more: an insertion loses no key unless the cache is full, and then just the one given up; an erasure takes
      out just its key, and a search none. */
  lemma KeptStep<K, V>(p: Policy, ops: seq<Op<K, V>>, cap: nat)
    requires ops != []
    ensures var was := Kept(p, Front(ops), cap); var k := Last(ops).key;
            Kept(p, ops, cap) == if Last(ops).Erase? then was - {k}
                                 else if Last(ops).Find? then was
                                 else if k in was || |was| < cap then was + {k}
                                 else was - GivenUp(p, Front(ops), cap) + {k}
  {
    hide GivenUp;
  }

  // ----- lists of entries with these keys

  ghost function KeySet<K, V>(m: seq<Entry<K, V>>): set<K> {
    set e | e in m :: e.key
  }

  lemma KeyAt<K, V>(m: seq<Entry<K, V>>, k: K)
    ensures At(m, k) < |m| <==> k in KeySet(m)
  {
    var i := At(m, k);
    if i < |m| {
      assert m[i] in m;
    }
  }

  lemma {:induction false} KeySetSize<K, V>(m: seq<Entry<K, V>>)
    requires UniqueKeys(m)
    ensures |KeySet(m)| == |m|
  {
    if m != [] {
      var r := m[1..];
      KeySetSize(r);
      assert m == [m[0]] + r;
      assert KeySet(m) == {m[0].key} + KeySet(r);
    }
  }

  lemma KeySetJoin<K, V>(a: seq<Entry<K, V>>, b: seq<Entry<K, V>>)
    ensures KeySet(a + b) == KeySet(a) + KeySet(b)
  {
  }

  lemma KeySetOne<K, V>(e: Entry<K, V>)
    ensures KeySet([e]) == {e.key}
  {
  }

  lemma KeySetDropped<K, V>(m: seq<Entry<K, V>>, i: nat)
    requires UniqueKeys(m) && i < |m|
    ensures KeySet(Dropped(m, i)) == KeySet(m) - {m[i].key}
  {
    var a, b := m[..i], m[i + 1..];
    assert m == a + [m[i]] + b;
    KeySetJoin(a + [m[i]], b);
    KeySetJoin(a, [m[i]]);
    KeySetJoin(a, b);
    KeySetOne(m[i]);
    assert m[i].key !in KeySet(a) && m[i].key !in KeySet(b);
  }

  lemma KeySetWithout<K, V>(m: seq<Entry<K, V>>, k: K)
    requires UniqueKeys(m)
    ensures KeySet(WithoutKey(m, k)) == KeySet(m) - {k}
  {
    KeyAt(m, k);
    var i := At(m, k);
    if i < |m| {
      KeySetDropped(m, i);
    }
  }

  ghost predicate Current<K, V>(ops: seq<Op<K, V>>, m: seq<Entry<K, V>>) {
    forall i :: 0 <= i < |m| ==> LastValue(ops, m[i].key) == Some(m[i].value)
  }

  /** The list holds the keys that are there, with the values inserted last. */
  ghost predicate Lists<K, V>(p: Policy, ops: seq<Op<K, V>>, cap: nat, m: seq<Entry<K, V>>) {
    UniqueKeys(m) && KeySet(m) == Kept(p, ops, cap) && Current(ops, m)
  }

  /** The entry at `v` comes sooner than all others. */
  ghost predicate Foremost<K, V>(p: Policy, ops: seq<Op<K, V>>, cap: nat, m: seq<Entry<K, V>>, v: nat) {
    v < |m| && forall i :: 0 <= i < |m| && i != v ==> Sooner(p, ops, cap, m[v].key, m[i].key)
  }

  lemma OneGivenUp<K, V>(p: Policy, ops: seq<Op<K, V>>, cap: nat, m: seq<Entry<K, V>>, v: nat)
    requires Lists(p, ops, cap, m) && Foremost(p, ops, cap, m, v)
    ensures GivenUp(p, ops, cap) == {m[v].key}
  {
    hide Sooner;
    var x, all := m[v].key, Kept(p, ops, cap);
    assert m[v] in m;
    forall l | l in all && l != x
      ensures Sooner(p, ops, cap, x, l)
    {
      var e :| e in m && e.key == l;
      var i :| 0 <= i < |m| && m[i] == e;
      assert i != v;
    }
    forall l | l in all && l != x
      ensures !Sooner(p, ops, cap, l, x)
    {
      NotBoth(p, ops, cap, x, l);
    }
  }

  lemma NotBoth<K, V>(p: Policy, ops: seq<Op<K, V>>, cap: nat, k: K, l: K)
    ensures !(Sooner(p, ops, cap, k, l) && Sooner(p, ops, cap, l, k))
  {
  }

  /** What a lookup finds. */
  ghost function Found<K, V>(p: Policy, ops: seq<Op<K, V>>, cap: nat, k: K): Option<V> {
    if k in Kept(p, ops, cap) then LastValue(ops, k) else None
  }

  lemma ListFinds<K, V>(p: Policy, ops: seq<Op<K, V>>, cap: nat, m: seq<Entry<K, V>>, k: K)
    requires Lists(p, ops, cap, m)
    ensures Lookup(m, k) == Found(p, ops, cap, k)
  {
    KeyAt(m, k);
  }

  lemma ListSize<K, V>(p: Policy, ops: seq<Op<K, V>>, cap: nat, m: seq<Entry<K, V>>)
    requires Lists(p, ops, cap, m)
    ensures |Kept(p, ops, cap)| == |m|
  {
    KeySetSize(m);
  }
}
