/** Whole runs of the caches against the lists. */
module CacheRuns {
  import opened Basics
  import opened CacheModel
  import opened CacheKeys
  import opened CachePolicies
  import opened CacheFrequency
  import LruCache
  import FifoCache
  import LfuCache

  datatype Answer<V> = Done | WasThere(found: bool) | Value(value: Option<V>) | ValueAndCount(counted: Option<(V, nat)>)

  /** What an operation answers when the cache holds `m`. */
  ghost function Reply<K, V>(m: seq<Entry<K, V>>, op: Op<K, V>): Answer<V> {
    match op
    case Insert(_, _) => Done
    case Erase(k) => WasThere(Lookup(m, k).Some?)
    case Find(k, _) => Value(Lookup(m, k))
  }

  /** What an operation is told after the operations before it, read off these alone. */
  ghost function Told<K, V>(p: Policy, ops: seq<Op<K, V>>, cap: nat, op: Op<K, V>): Answer<V> {
    match op
    case Insert(_, _) => Done
    case Erase(k) => WasThere(k in Kept(p, ops, cap))
    case Find(k, peek) =>
      if p == Lfu then ValueAndCount(CountedFound(ops, cap, k, peek)) else Value(Found(p, ops, cap, k))
  }

  ghost predicate ToldAll<K, V>(p: Policy, ops: seq<Op<K, V>>, cap: nat, answers: seq<Answer<V>>)
    requires |answers| <= |ops|
  {
    forall i :: 0 <= i < |answers| ==> answers[i] == Told(p, ops[..i], cap, ops[i])
  }

  lemma ToldNext<K, V>(p: Policy, ops: seq<Op<K, V>>, cap: nat, answers: seq<Answer<V>>, answer: Answer<V>)
    requires |answers| < |ops| && ToldAll(p, ops, cap, answers)
    requires answer == Told(p, ops[..|answers|], cap, ops[|answers|])
    ensures ToldAll(p, ops, cap, answers + [answer])
  {
    hide Told;
  }

  lemma NoneTold<K, V>(p: Policy, ops: seq<Op<K, V>>, cap: nat)
    ensures ToldAll(p, ops, cap, [])
  {
  }

  lemma ListTells<K, V>(p: Policy, ops: seq<Op<K, V>>, cap: nat, m: seq<Entry<K, V>>, op: Op<K, V>)
    requires p != Lfu && Lists(p, ops, cap, m)
    ensures Reply(m, op) == Told(p, ops, cap, op)
  {
    hide Kept, KeySet, At;
    KeyAt(m, op.key);
    ListFinds(p, ops, cap, m, op.key);
  }

  lemma LruTells<K, V>(ops: seq<Op<K, V>>, cap: nat, op: Op<K, V>)
    requires cap > 0
    ensures Reply(LruReplay(ops, cap), op) == Told(Lru, ops, cap, op)
  {
    hide *;
    LruOrder(ops, cap);
    ListTells(Lru, ops, cap, LruReplay(ops, cap), op);
  }

  lemma FifoTells<K, V>(ops: seq<Op<K, V>>, cap: nat, op: Op<K, V>)
    requires cap > 0
    ensures Reply(FifoReplay(ops, cap), op) == Told(Fifo, ops, cap, op)
  {
    hide *;
    FifoOrder(ops, cap);
    ListTells(Fifo, ops, cap, FifoReplay(ops, cap), op);
  }

  lemma LfuTells<K(!new), V>(ops: seq<Op<K, V>>, cap: nat, op: Op<K, V>)
    requires cap > 0
    ensures CountedReply(LfuReplay(ops, cap), op) == Told(Lfu, ops, cap, op)
  {
    hide Kept, Uses, LastValue, LfuReplay, At, CountedFound, CountedLookup;
    LfuHolds(ops, cap, op.key, op.Find? && op.peek);
  }

  /** The cache answers as the keys touched last, and their values, say. */
  method RunLru<K(==), V>(cap: nat, ops: seq<Op<K, V>>) returns (answers: seq<Answer<V>>)
    requires cap > 0
    ensures |answers| == |ops| && ToldAll(Lru, ops, cap, answers)
  {
    hide *;
    FirstReplay<K, V>(cap, ops);
    NoneTold(Lru, ops, cap);
    var cache := new LruCache.LRU<K, V>(cap);
    answers := [];
    for i := 0 to |ops|
      invariant fresh(cache) && cache.Valid() && cache.capacity == cap && cache.Contents() == LruReplay(ops[..i], cap)
      invariant |answers| == i && ToldAll(Lru, ops, cap, answers)
    {
      NextReplay(ops, i, cap);
      var answer := LruPerform(cache, ops[i]);
      LruTells(ops[..i], cap, ops[i]);
      ToldNext(Lru, ops, cap, answers, answer);
      answers := answers + [answer];
    }
  }

  method LruPerform<K(==), V>(cache: LruCache.LRU<K, V>, op: Op<K, V>) returns (answer: Answer<V>)
    requires cache.Valid()
    modifies cache
    ensures cache.Valid() && cache.Contents() == LruStep(old(cache.Contents()), cache.capacity, op)
    ensures answer == Reply(old(cache.Contents()), op)
  {
    match op
    case Insert(k, v) =>
      cache.Insert(k, v);
      answer := Done;
    case Erase(k) =>
      var found := cache.Erase(k);
      answer := WasThere(found);
    case Find(k, peek) =>
      var value := cache.Find(k, peek);
      answer := Value(value);
  }

  lemma NextReplay<K, V>(ops: seq<Op<K, V>>, i: nat, cap: nat)
    requires i < |ops| && cap > 0
    ensures LruReplay(ops[..i + 1], cap) == LruStep(LruReplay(ops[..i], cap), cap, ops[i])
    ensures FifoReplay(ops[..i + 1], cap) == FifoStep(FifoReplay(ops[..i], cap), cap, ops[i])
    ensures LfuReplay(ops[..i + 1], cap) == LfuStep(LfuReplay(ops[..i], cap), cap, ops[i])
  {
    hide LruStep, FifoStep, LfuStep;
    assert Front(ops[..i + 1]) == ops[..i];
  }

  lemma FirstReplay<K, V>(cap: nat, ops: seq<Op<K, V>>)
    requires cap > 0
    ensures LruReplay<K, V>(ops[..0], cap) == [] && FifoReplay<K, V>(ops[..0], cap) == []
    ensures LfuReplay<K, V>(ops[..0], cap) == Counted([], [])
  {
  }

  /** The cache answers as the keys that came in last, and their values, say. */
  method RunFifo<K(==), V>(cap: nat, ops: seq<Op<K, V>>) returns (answers: seq<Answer<V>>)
    requires cap > 0
    ensures |answers| == |ops| && ToldAll(Fifo, ops, cap, answers)
  {
    hide *;
    FirstReplay<K, V>(cap, ops);
    NoneTold(Fifo, ops, cap);
    var cache := new FifoCache.FIFO<K, V>(cap);
    answers := [];
    for i := 0 to |ops|
      invariant fresh(cache) && cache.Valid() && cache.capacity == cap && cache.Contents() == FifoReplay(ops[..i], cap)
      invariant |answers| == i && ToldAll(Fifo, ops, cap, answers)
    {
      NextReplay(ops, i, cap);
      var answer := FifoPerform(cache, ops[i]);
      FifoTells(ops[..i], cap, ops[i]);
      ToldNext(Fifo, ops, cap, answers, answer);
      answers := answers + [answer];
    }
  }

  method FifoPerform<K(==), V>(cache: FifoCache.FIFO<K, V>, op: Op<K, V>) returns (answer: Answer<V>)
    requires cache.Valid()
    modifies cache
    ensures cache.Valid() && cache.Contents() == FifoStep(old(cache.Contents()), cache.capacity, op)
    ensures answer == Reply(old(cache.Contents()), op)
  {
    match op
    case Insert(k, v) =>
      cache.Insert(k, v);
      answer := Done;
    case Erase(k) =>
      var found := cache.Erase(k);
      answer := WasThere(found);
    case Find(k, peek) =>
      var value := cache.Find(k);
      answer := Value(value);
  }

  /** What an operation answers when the cache holds `m`, with counts. */
  ghost function CountedReply<K, V>(m: Counted<K, V>, op: Op<K, V>): Answer<V>
    requires m.Shaped()
  {
    match op
    case Insert(_, _) => Done
    case Erase(k) => WasThere(Lookup(m.entries, k).Some?)
    case Find(k, peek) => ValueAndCount(CountedLookup(m, k, peek))
  }

  /** The cache answers as the keys used most, their values and the numbers of their uses say. */
  method RunLfu<K(!new, ==), V>(cap: nat, ops: seq<Op<K, V>>) returns (answers: seq<Answer<V>>)
    requires cap > 0
    ensures |answers| == |ops| && ToldAll(Lfu, ops, cap, answers)
  {
    hide *;
    FirstReplay<K, V>(cap, ops);
    NoneTold(Lfu, ops, cap);
    var cache := new LfuCache.LFU<K, V>(cap);
    answers := [];
    for i := 0 to |ops|
      invariant fresh(cache) && cache.Valid() && cache.capacity == cap && cache.Contents() == LfuReplay(ops[..i], cap)
      invariant |answers| == i && ToldAll(Lfu, ops, cap, answers)
    {
      NextReplay(ops, i, cap);
      var answer := LfuPerform(cache, ops[i]);
      LfuTells(ops[..i], cap, ops[i]);
      ToldNext(Lfu, ops, cap, answers, answer);
      answers := answers + [answer];
    }
  }

  method LfuPerform<K(==), V>(cache: LfuCache.LFU<K, V>, op: Op<K, V>) returns (answer: Answer<V>)
    requires cache.Valid()
    modifies cache
    ensures cache.Valid() && cache.Contents() == LfuStep(old(cache.Contents()), cache.capacity, op)
    ensures answer == CountedReply(old(cache.Contents()), op)
  {
    match op
    case Insert(k, v) =>
      cache.Insert(k, v);
      answer := Done;
    case Erase(k) =>
      var found := cache.Erase(k);
      answer := WasThere(found);
    case Find(k, peek) =>
      var found := cache.FindWithRefcount(k, peek);
      answer := ValueAndCount(found);
  }
}
