/** Leftist and skew heaps as tree values. */
module MergeableHeaps {
  import Words

  /** A skew heap leaves `npl` as it is. */
  datatype Heap = Empty | Node(left: Heap, key: int, npl: int, right: Heap)

  function Size(t: Heap): nat {
    if t.Empty? then 0 else Size(t.left) + 1 + Size(t.right)
  }

  ghost function Keys(t: Heap): multiset<int> {
    if t.Empty? then multiset{} else Keys(t.left) + multiset{t.key} + Keys(t.right)
  }

  ghost predicate AtMost(k: int, t: Heap) {
    t.Node? ==> k <= t.key
  }

  ghost predicate HeapOrder(t: Heap) {
    t.Node? ==> AtMost(t.key, t.left) && AtMost(t.key, t.right) && HeapOrder(t.left) && HeapOrder(t.right)
  }

  /** The root holds a least key. */
  lemma {:induction false} RootIsLeast(t: Heap, x: int)
    requires HeapOrder(t) && t.Node? && x in Keys(t)
    ensures t.key <= x
  {
    if x in Keys(t.left) {
      RootIsLeast(t.left, x);
    } else if x in Keys(t.right) {
      RootIsLeast(t.right, x);
    }
  }

  // ----- leftist

  function Min(a: int, b: int): int {
    if a < b then a else b
  }

  /** The length of a shortest path down to a missing child. */
  function NullPath(t: Heap): int {
    if t.Empty? then -1 else 1 + Min(NullPath(t.left), NullPath(t.right))
  }

  ghost predicate Leftist(t: Heap) {
    t.Node? ==>
      && t.npl == NullPath(t) && NullPath(t.left) >= NullPath(t.right)
      && Leftist(t.left) && Leftist(t.right)
  }

  /** The end of `mergeNode`: children swapped where the left one is missing or lower, and a new null path length. */
  function Leaning(l: Heap, k: int, r: Heap): Heap
    requires r.Node?
  {
    var (a, b) := if l.Empty? || l.npl < r.npl then (r, l) else (l, r);
    Node(a, k, if a.Empty? || b.Empty? then 0 else if b.npl < a.npl then b.npl + 1 else a.npl + 1, b)
  }

  function Merge(d: Heap, s: Heap): (m: Heap)
    ensures d.Node? || s.Node? ==> m.Node?
    decreases Size(d) + Size(s)
  {
    if d.Empty? then s
    else if s.Empty? then d
    else if d.key > s.key then Leaning(s.left, s.key, Merge(s.right, d))
    else Leaning(d.left, d.key, Merge(d.right, s))
  }

  lemma LeaningKeeps(l: Heap, k: int, r: Heap)
    requires r.Node? && HeapOrder(l) && HeapOrder(r) && Leftist(l) && Leftist(r) && AtMost(k, l) && AtMost(k, r)
    ensures var t := Leaning(l, k, r); HeapOrder(t) && Leftist(t) && Keys(t) == Keys(l) + multiset{k} + Keys(r)
  {
    NullPathBound(l);
    NullPathBound(r);
  }

  lemma NullPathBound(t: Heap)
    ensures NullPath(t) >= -1 && (NullPath(t) == -1 <==> t.Empty?)
  {
  }

  /** Merging keeps heap order, the left-heavy rule and exact null path lengths, and puts the keys together. */
  lemma {:induction false} MergeKeeps(d: Heap, s: Heap)
    requires HeapOrder(d) && HeapOrder(s) && Leftist(d) && Leftist(s)
    ensures HeapOrder(Merge(d, s)) && Leftist(Merge(d, s)) && Keys(Merge(d, s)) == Keys(d) + Keys(s)
    ensures forall k :: AtMost(k, d) && AtMost(k, s) ==> AtMost(k, Merge(d, s))
    decreases Size(d) + Size(s)
  {
    hide Leftist, Keys, HeapOrder, Leaning;
    if d.Node? && s.Node? {
      if d.key > s.key {
        MergeInto(s, d);
      } else {
        MergeInto(d, s);
      }
    } else {
      KeysOfEmpty();
    }
  }

  lemma KeysOfEmpty()
    ensures Keys(Empty) == multiset{}
  {
  }

  lemma {:induction false} MergeInto(d: Heap, s: Heap)
    requires HeapOrder(d) && HeapOrder(s) && Leftist(d) && Leftist(s) && d.Node? && s.Node? && d.key <= s.key
    ensures var m := Leaning(d.left, d.key, Merge(d.right, s));
            HeapOrder(m) && Leftist(m) && Keys(m) == Keys(d) + Keys(s) && m.key == d.key
    decreases Size(d) + Size(s), 0
  {
    MergeKeeps(d.right, s);
    LeaningKeeps(d.left, d.key, Merge(d.right, s));
  }

  function RemoveMin(t: Heap): Heap {
    if t.Empty? then Empty else Merge(t.left, t.right)
  }

  /** Taking out the root takes out one occurrence of the least key. */
  lemma RemoveKeeps(t: Heap)
    requires HeapOrder(t) && Leftist(t) && t.Node?
    ensures HeapOrder(RemoveMin(t)) && Leftist(RemoveMin(t)) && Keys(RemoveMin(t)) == Keys(t) - multiset{t.key}
  {
    MergeKeeps(t.left, t.right);
  }

  /** A null path length of n takes at least 2^(n+1) - 1 nodes. */
  lemma {:induction false} NullPathIsLogarithmic(t: Heap)
    requires Leftist(t)
    ensures NullPath(t) >= -1 && Size(t) + 1 >= Words.Pow2(NullPath(t) + 1)
  {
    if t.Node? {
      NullPathIsLogarithmic(t.left);
      NullPathIsLogarithmic(t.right);
      Words.Pow2Monotone(NullPath(t.right) + 1, NullPath(t.left) + 1);
    }
  }

  function Spine(t: Heap): nat {
    if t.Empty? then 0 else 1 + Spine(t.right)
  }

  /** The path that merging walks down is a shortest one. */
  lemma {:induction false} SpineIsNullPath(t: Heap)
    requires Leftist(t)
    ensures Spine(t) == NullPath(t) + 1
  {
    if t.Node? {
      SpineIsNullPath(t.right);
    }
  }

  /** How often `mergeNode` calls itself. */
  function MergeCalls(d: Heap, s: Heap): nat
    decreases Size(d) + Size(s)
  {
    if d.Empty? || s.Empty? then 0
    else if d.key > s.key then 1 + MergeCalls(s.right, d)
    else 1 + MergeCalls(d.right, s)
  }

  /** The recursion is as deep as the two right spines at most, which are logarithmic in the sizes. */
  lemma {:induction false} MergeIsShallow(d: Heap, s: Heap)
    requires Leftist(d) && Leftist(s)
    ensures MergeCalls(d, s) <= Spine(d) + Spine(s)
    ensures Words.Pow2(Spine(d)) <= Size(d) + 1 && Words.Pow2(Spine(s)) <= Size(s) + 1
    decreases Size(d) + Size(s)
  {
    SpineIsNullPath(d);
    SpineIsNullPath(s);
    NullPathIsLogarithmic(d);
    NullPathIsLogarithmic(s);
    if d.Node? && s.Node? {
      if d.key > s.key {
        MergeIsShallow(s.right, d);
      } else {
        MergeIsShallow(d.right, s);
      }
    }
  }

  // ----- skew

  function SkewMerge(d: Heap, s: Heap): (m: Heap)
    ensures d.Node? || s.Node? ==> m.Node?
    decreases Size(d) + Size(s)
  {
    if d.Empty? then s
    else if s.Empty? then d
    else if d.key > s.key then Node(SkewMerge(s.right, d), s.key, s.npl, s.left)
    else Node(SkewMerge(d.right, s), d.key, d.npl, d.left)
  }

  lemma {:induction false} SkewMergeKeeps(d: Heap, s: Heap)
    requires HeapOrder(d) && HeapOrder(s)
    ensures HeapOrder(SkewMerge(d, s)) && Keys(SkewMerge(d, s)) == Keys(d) + Keys(s)
    ensures forall k :: AtMost(k, d) && AtMost(k, s) ==> AtMost(k, SkewMerge(d, s))
    decreases Size(d) + Size(s)
  {
    hide Keys, HeapOrder;
    if d.Node? && s.Node? {
      if d.key > s.key {
        SkewMergeInto(s, d);
      } else {
        SkewMergeInto(d, s);
      }
    } else {
      KeysOfEmpty();
    }
  }

  lemma {:induction false} SkewMergeInto(d: Heap, s: Heap)
    requires HeapOrder(d) && HeapOrder(s) && d.Node? && s.Node? && d.key <= s.key
    ensures var m := Node(SkewMerge(d.right, s), d.key, d.npl, d.left); HeapOrder(m) && Keys(m) == Keys(d) + Keys(s)
    decreases Size(d) + Size(s), 0
  {
    SkewMergeKeeps(d.right, s);
  }

  function SkewRemoveMin(t: Heap): Heap {
    if t.Empty? then Empty else SkewMerge(t.left, t.right)
  }

  lemma SkewRemoveKeeps(t: Heap)
    requires HeapOrder(t) && t.Node?
    ensures HeapOrder(SkewRemoveMin(t)) && Keys(SkewRemoveMin(t)) == Keys(t) - multiset{t.key}
  {
    SkewMergeKeeps(t.left, t.right);
  }

  // ----- what skew merging costs

  /** How often the skew `mergeNode` calls itself. */
  function SkewCalls(d: Heap, s: Heap): nat
    decreases Size(d) + Size(s)
  {
    if d.Empty? || s.Empty? then 0
    else if d.key > s.key then 1 + SkewCalls(s.right, d)
    else 1 + SkewCalls(d.right, s)
  }

  /** The right side is the larger one. */
  predicate Heavy(t: Heap)
    requires t.Node?
  {
    Size(t.right) > Size(t.left)
  }

  /** The number of such nodes. */
  function Potential(t: Heap): nat {
    if t.Empty? then 0 else (if Heavy(t) then 1 else 0) + Potential(t.left) + Potential(t.right)
  }

  /** The other nodes on the right spine. */
  function LightSpine(t: Heap): nat {
    if t.Empty? then 0 else (if Heavy(t) then 0 else 1) + LightSpine(t.right)
  }

  lemma {:induction false} SkewSize(d: Heap, s: Heap)
    ensures Size(SkewMerge(d, s)) == Size(d) + Size(s)
    decreases Size(d) + Size(s)
  {
    if d.Node? && s.Node? {
      if d.key > s.key {
        SkewSize(s.right, d);
      } else {
        SkewSize(d.right, s);
      }
    }
  }

  /** Calls are paid for by heavy nodes that stop being heavy, but for the light ones on the spines. */
  lemma {:induction false} SkewIsAmortised(d: Heap, s: Heap)
    ensures SkewCalls(d, s) + Potential(SkewMerge(d, s)) <= Potential(d) + Potential(s) + 2 * (LightSpine(d) + LightSpine(s))
    decreases Size(d) + Size(s)
  {
    hide Size;
    if d.Node? && s.Node? {
      if d.key > s.key {
        SkewPays(s, d);
      } else {
        SkewPays(d, s);
      }
    }
  }

  lemma {:induction false} SkewPays(d: Heap, s: Heap)
    requires d.Node? && s.Node?
    ensures var m := Node(SkewMerge(d.right, s), d.key, d.npl, d.left);
            1 + SkewCalls(d.right, s) + Potential(m) <= Potential(d) + Potential(s) + 2 * (LightSpine(d) + LightSpine(s))
    decreases Size(d) + Size(s), 0
  {
    SkewIsAmortised(d.right, s);
    SkewSize(d.right, s);
  }

  /** Light nodes halve what is below them. */
  lemma {:induction false} LightIsLogarithmic(t: Heap)
    ensures Words.Pow2(LightSpine(t)) <= Size(t) + 1
  {
    if t.Node? {
      LightIsLogarithmic(t.right);
    }
  }

  lemma LightBound(t: Heap, k: nat)
    requires Size(t) + 1 < Words.Pow2(k + 1)
    ensures LightSpine(t) <= k
  {
    LightIsLogarithmic(t);
    if LightSpine(t) > k {
      Words.Pow2Monotone(k + 1, LightSpine(t));
    }
  }

  datatype SkewOp = Put(key: int) | Take

  function SkewAfter(t: Heap, op: SkewOp): Heap {
    match op
    case Put(key) => SkewMerge(t, Node(Empty, key, 0, Empty))
    case Take => SkewRemoveMin(t)
  }

  function SkewCost(t: Heap, op: SkewOp): nat {
    match op
    case Put(key) => SkewCalls(t, Node(Empty, key, 0, Empty))
    case Take => if t.Empty? then 0 else SkewCalls(t.left, t.right)
  }

  function SkewRun(ops: seq<SkewOp>): Heap {
    if ops == [] then Empty else SkewAfter(SkewRun(ops[..|ops| - 1]), ops[|ops| - 1])
  }

  function SkewTotal(ops: seq<SkewOp>): nat {
    if ops == [] then 0
    else SkewTotal(ops[..|ops| - 1]) + SkewCost(SkewRun(ops[..|ops| - 1]), ops[|ops| - 1])
  }

  /** One operation on a heap with less than 2^(k+1) nodes. */
  lemma SkewStep(t: Heap, op: SkewOp, k: nat)
    requires Size(t) + 1 < Words.Pow2(k + 1)
    ensures SkewCost(t, op) + Potential(SkewAfter(t, op)) <= Potential(t) + (4 * k + 2)
    ensures Size(SkewAfter(t, op)) <= Size(t) + 1
  {
    match op
    case Put(key) =>
      var n := Node(Empty, key, 0, Empty);
      SkewIsAmortised(t, n);
      SkewSize(t, n);
      LightBound(t, k);
    case Take =>
      if t.Node? {
        SkewIsAmortised(t.left, t.right);
        SkewSize(t.left, t.right);
        LightBound(t.left, k);
        LightBound(t.right, k);
      }
  }

  /** Over any run of insertions and removals the calls of `mergeNode` are at most logarithmic per operation on average. */
  lemma {:induction false} SkewRunIsLogarithmic(ops: seq<SkewOp>, k: nat)
    requires |ops| + 1 < Words.Pow2(k + 1)
    ensures SkewTotal(ops) + Potential(SkewRun(ops)) <= |ops| * (4 * k + 2) && Size(SkewRun(ops)) <= |ops|
    decreases |ops|
  {
    hide SkewCost, SkewAfter, Potential, Size;
    if ops == [] {
      NoPotential();
    } else {
      var rest, op := ops[..|ops| - 1], ops[|ops| - 1];
      SkewRunIsLogarithmic(rest, k);
      SkewStep(SkewRun(rest), op, k);
      assert |ops| * (4 * k + 2) == |rest| * (4 * k + 2) + (4 * k + 2);
    }
  }

  lemma NoPotential()
    ensures Potential(Empty) == 0 && Size(Empty) == 0
  {
  }

  // ----- draining

  ghost predicate Sorted(s: seq<int>) {
    forall i, j :: 0 <= i < j < |s| ==> s[i] <= s[j]
  }

  lemma {:induction false} KeyCount(t: Heap)
    ensures |Keys(t)| == Size(t)
  {
    if t.Node? {
      KeyCount(t.left);
      KeyCount(t.right);
    }
  }

  lemma RemoveShrinks(t: Heap)
    requires HeapOrder(t) && Leftist(t) && t.Node?
    ensures Size(RemoveMin(t)) < Size(t)
  {
    RemoveKeeps(t);
    KeyCount(t);
    KeyCount(RemoveMin(t));
  }

  /** The minima in the order in which removing them gives them. */
  ghost function Drained(t: Heap): seq<int>
    requires HeapOrder(t) && Leftist(t)
    decreases Size(t)
  {
    if t.Empty? then []
    else
      RemoveKeeps(t);
      RemoveShrinks(t);
      [t.key] + Drained(RemoveMin(t))
  }

  /** Removing the minimum again and again gives all keys in order. */
  lemma {:induction false} DrainSorts(t: Heap)
    requires HeapOrder(t) && Leftist(t)
    ensures multiset(Drained(t)) == Keys(t) && Sorted(Drained(t))
    decreases Size(t)
  {
    if t.Node? {
      RemoveKeeps(t);
      RemoveShrinks(t);
      DrainSorts(RemoveMin(t));
      FirstIsLeast(t, Drained(RemoveMin(t)));
    }
  }

  lemma RootIsKey(t: Heap)
    requires t.Node?
    ensures t.key in Keys(t)
  {
  }

  lemma FirstIsLeast(t: Heap, rest: seq<int>)
    requires HeapOrder(t) && t.Node? && Sorted(rest) && multiset(rest) == Keys(t) - multiset{t.key}
    ensures Sorted([t.key] + rest) && multiset([t.key] + rest) == Keys(t)
  {
    RootIsKey(t);
    hide Keys, HeapOrder;
    forall i | 0 <= i < |rest|
      ensures t.key <= rest[i]
    {
      assert rest[i] in multiset(rest);
      RootIsLeast(t, rest[i]);
    }
  }

  ghost function SkewDrained(t: Heap): seq<int>
    requires HeapOrder(t)
    decreases Size(t)
  {
    if t.Empty? then []
    else
      SkewRemoveKeeps(t);
      KeyCount(t);
      KeyCount(SkewRemoveMin(t));
      [t.key] + SkewDrained(SkewRemoveMin(t))
  }

  lemma {:induction false} SkewDrainSorts(t: Heap)
    requires HeapOrder(t)
    ensures multiset(SkewDrained(t)) == Keys(t) && Sorted(SkewDrained(t))
    decreases Size(t)
  {
    if t.Node? {
      SkewRemoveKeeps(t);
      KeyCount(t);
      KeyCount(SkewRemoveMin(t));
      SkewDrainSorts(SkewRemoveMin(t));
      FirstIsLeast(t, SkewDrained(SkewRemoveMin(t)));
    }
  }
}
