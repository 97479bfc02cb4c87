/** What the three caches are for: bounded lists of keys and values that differ in how they order them. */
module CacheModel {
  import opened Basics

  datatype Entry<K, V> = Entry(key: K, value: V)

  datatype Op<K, V> = Insert(key: K, value: V) | Erase(key: K) | Find(key: K, peek: bool)

  /** The position of a key, or the length of the list. */
  function At<K(==), V>(m: seq<Entry<K, V>>, k: K): (i: nat)
    ensures i <= |m| && (i < |m| ==> m[i].key == k)
    ensures forall j :: 0 <= j < i ==> m[j].key != k
  {
    if m == [] || m[0].key == k then 0 else 1 + At(m[1..], k)
  }

  function Dropped<T>(m: seq<T>, i: nat): seq<T>
    requires i < |m|
  {
    m[..i] + m[i + 1..]
  }

  ghost predicate UniqueKeys<K, V>(m: seq<Entry<K, V>>) {
    forall i, j :: 0 <= i < j < |m| ==> m[i].key != m[j].key
  }

  lemma AtIs<K, V>(m: seq<Entry<K, V>>, i: nat)
    requires i < |m| && UniqueKeys(m)
    ensures At(m, m[i].key) == i
  {
  }

  lemma AtNone<K, V>(m: seq<Entry<K, V>>, k: K)
    requires forall i :: 0 <= i < |m| ==> m[i].key != k
    ensures At(m, k) == |m|
  {
  }

  function Lookup<K(==), V>(m: seq<Entry<K, V>>, k: K): Option<V> {
    var i := At(m, k);
    if i < |m| then Some(m[i].value) else None
  }

  function WithoutKey<K(==), V>(m: seq<Entry<K, V>>, k: K): seq<Entry<K, V>> {
    var i := At(m, k);
    if i < |m| then Dropped(m, i) else m
  }

  // ----- least recently used: latest first

  function ToFront<K(==), V>(m: seq<Entry<K, V>>, k: K, v: V): seq<Entry<K, V>> {
    [Entry(k, v)] + WithoutKey(m, k)
  }

  function LruInsert<K(==), V>(m: seq<Entry<K, V>>, cap: nat, k: K, v: V): seq<Entry<K, V>>
    requires cap > 0
  {
    if At(m, k) == |m| && |m| >= cap then [Entry(k, v)] + m[..|m| - 1] else ToFront(m, k, v)
  }

  function LruFind<K(==), V>(m: seq<Entry<K, V>>, k: K, peek: bool): seq<Entry<K, V>> {
    var found := Lookup(m, k);
    if found.Some? && !peek then ToFront(m, k, found.value) else m
  }

  function LruStep<K(==), V>(m: seq<Entry<K, V>>, cap: nat, op: Op<K, V>): seq<Entry<K, V>>
    requires cap > 0
  {
    match op
    case Insert(k, v) => LruInsert(m, cap, k, v)
    case Erase(k) => WithoutKey(m, k)
    case Find(k, peek) => LruFind(m, k, peek)
  }

  // ----- first in, first out: oldest first

  function FifoInsert<K(==), V>(m: seq<Entry<K, V>>, cap: nat, k: K, v: V): seq<Entry<K, V>>
    requires cap > 0
  {
    var i := At(m, k);
    if i < |m| then m[i := Entry(k, v)]
    else if |m| >= cap then m[1..] + [Entry(k, v)]
    else m + [Entry(k, v)]
  }

  function FifoStep<K(==), V>(m: seq<Entry<K, V>>, cap: nat, op: Op<K, V>): seq<Entry<K, V>>
    requires cap > 0
  {
    match op
    case Insert(k, v) => FifoInsert(m, cap, k, v)
    case Erase(k) => WithoutKey(m, k)
    case Find(_, _) => m
  }

  // ----- least frequently used: entries by rising count, whoever reached a count first in front

  datatype Counted<K, V> = Counted(entries: seq<Entry<K, V>>, counts: seq<nat>) {
    ghost predicate Shaped() {
      |entries| == |counts|
    }
  }

  function InsertedAt<T>(s: seq<T>, p: nat, x: T): seq<T>
    requires p <= |s|
  {
    s[..p] + [x] + s[p..]
  }

  /** The first position with a count beyond `c`. */
  function Upper(counts: seq<nat>, c: nat): (p: nat)
    ensures p <= |counts| && (p < |counts| ==> counts[p] > c)
    ensures forall i :: 0 <= i < p ==> counts[i] <= c
  {
    if counts == [] || counts[0] > c then 0 else 1 + Upper(counts[1..], c)
  }

  function Without<K, V>(m: Counted<K, V>, i: nat): (r: Counted<K, V>)
    requires m.Shaped() && i < |m.entries|
    ensures r.Shaped()
  {
    Counted(Dropped(m.entries, i), Dropped(m.counts, i))
  }

  function Emplaced<K, V>(m: Counted<K, V>, e: Entry<K, V>, c: nat): (r: Counted<K, V>)
    requires m.Shaped()
    ensures r.Shaped()
  {
    var p := Upper(m.counts, c);
    Counted(InsertedAt(m.entries, p, e), InsertedAt(m.counts, p, c))
  }

  /** The entry at `i` is used once more, with value `v`. */
  function Used<K, V>(m: Counted<K, V>, i: nat, v: V): (r: Counted<K, V>)
    requires m.Shaped() && i < |m.entries|
    ensures r.Shaped()
  {
    Emplaced(Without(m, i), Entry(m.entries[i].key, v), m.counts[i] + 1)
  }

  function LfuInsert<K(==), V>(m: Counted<K, V>, cap: nat, k: K, v: V): (r: Counted<K, V>)
    requires cap > 0 && m.Shaped()
    ensures r.Shaped()
  {
    var i := At(m.entries, k);
    if i < |m.entries| then Used(m, i, v)
    else Emplaced(if |m.entries| >= cap then Without(m, 0) else m, Entry(k, v), 1)
  }

  function LfuErase<K(==), V>(m: Counted<K, V>, k: K): (r: Counted<K, V>)
    requires m.Shaped()
    ensures r.Shaped()
  {
    var i := At(m.entries, k);
    if i < |m.entries| then Without(m, i) else m
  }

  function LfuFind<K(==), V>(m: Counted<K, V>, k: K, peek: bool): (r: Counted<K, V>)
    requires m.Shaped()
    ensures r.Shaped()
  {
    var i := At(m.entries, k);
    if i < |m.entries| && !peek then Used(m, i, m.entries[i].value) else m
  }

  /** The value found and its count after the call. */
  function CountedLookup<K(==), V>(m: Counted<K, V>, k: K, peek: bool): Option<(V, nat)>
    requires m.Shaped()
  {
    var i := At(m.entries, k);
    if i < |m.entries| then Some((m.entries[i].value, if peek then m.counts[i] else m.counts[i] + 1)) else None
  }

  function LfuStep<K(==), V>(m: Counted<K, V>, cap: nat, op: Op<K, V>): (r: Counted<K, V>)
    requires cap > 0 && m.Shaped()
    ensures r.Shaped()
  {
    match op
    case Insert(k, v) => LfuInsert(m, cap, k, v)
    case Erase(k) => LfuErase(m, k)
    case Find(k, peek) => LfuFind(m, k, peek)
  }
}
