/** AVL trees as values: insertion and removal with stored heights and rotations. */
module AvlTree {
  import Words

  datatype Tree = Leaf | Fork(left: Tree, key: int, height: int, right: Tree)

  /** The stored height. */
  function Height(t: Tree): int {
    if t.Leaf? then 0 else t.height
  }

  function Max(a: int, b: int): int {
    if a < b then b else a
  }

  function Keys(t: Tree): set<int> {
    if t.Leaf? then {} else Keys(t.left) + {t.key} + Keys(t.right)
  }

  /** Search order. */
  ghost predicate Ordered(t: Tree) {
    t.Fork? ==>
      && Ordered(t.left) && Ordered(t.right)
      && (forall k :: k in Keys(t.left) ==> k < t.key)
      && (forall k :: k in Keys(t.right) ==> t.key < k)
  }

  /** Every stored height is the real one, and siblings differ by at most one. */
  ghost predicate Balanced(t: Tree) {
    t.Fork? ==>
      && Balanced(t.left) && Balanced(t.right)
      && t.height == Max(Height(t.left), Height(t.right)) + 1
      && -1 <= Height(t.left) - Height(t.right) <= 1
  }

  ghost predicate Valid(t: Tree) {
    Ordered(t) && Balanced(t)
  }

  // ----- rotations

  /** A node with its height recomputed from its children. */
  function Join(l: Tree, k: int, r: Tree): Tree {
    Fork(l, k, Max(Height(l), Height(r)) + 1, r)
  }

  function LeftLeft(t: Tree): Tree
    requires t.Fork? && t.left.Fork?
  {
    var k1 := t.left;
    Join(k1.left, k1.key, Join(k1.right, t.key, t.right))
  }

  function RightRight(t: Tree): Tree
    requires t.Fork? && t.right.Fork?
  {
    var k2 := t.right;
    Join(Join(t.left, t.key, k2.left), k2.key, k2.right)
  }

  function LeftRight(t: Tree): Tree
    requires t.Fork? && t.left.Fork? && t.left.right.Fork?
  {
    LeftLeft(Fork(RightRight(t.left), t.key, t.height, t.right))
  }

  function RightLeft(t: Tree): Tree
    requires t.Fork? && t.right.Fork? && t.right.left.Fork?
  {
    RightRight(Fork(t.left, t.key, t.height, LeftLeft(t.right)))
  }

  /** A rotation keeps the keys and their order. */
  ghost predicate SameOrder(t: Tree, u: Tree) {
    Keys(u) == Keys(t) && (Ordered(t) ==> Ordered(u))
  }

  lemma LeftLeftOrder(t: Tree)
    requires t.Fork? && t.left.Fork?
    ensures SameOrder(t, LeftLeft(t))
  {
    var l := t.left;
    var inner := Join(l.right, t.key, t.right);
    assert Keys(inner) == Keys(l.right) + {t.key} + Keys(t.right);
    if Ordered(t) {
      assert Ordered(l) && l.key in Keys(l);
      assert Keys(l.right) <= Keys(l);
      assert Ordered(inner);
    }
  }

  lemma RightRightOrder(t: Tree)
    requires t.Fork? && t.right.Fork?
    ensures SameOrder(t, RightRight(t))
  {
    var r := t.right;
    var inner := Join(t.left, t.key, r.left);
    assert Keys(inner) == Keys(t.left) + {t.key} + Keys(r.left);
    if Ordered(t) {
      assert Ordered(r) && r.key in Keys(r);
      assert Keys(r.left) <= Keys(r);
      assert Ordered(inner);
    }
  }

  lemma LeftRightOrder(t: Tree)
    requires t.Fork? && t.left.Fork? && t.left.right.Fork?
    ensures SameOrder(t, LeftRight(t))
  {
    RightRightOrder(t.left);
    LeftLeftOrder(Fork(RightRight(t.left), t.key, t.height, t.right));
  }

  lemma RightLeftOrder(t: Tree)
    requires t.Fork? && t.right.Fork? && t.right.left.Fork?
    ensures SameOrder(t, RightLeft(t))
  {
    LeftLeftOrder(t.right);
    RightRightOrder(Fork(t.left, t.key, t.height, LeftLeft(t.right)));
  }

  lemma NonNegative(t: Tree)
    requires Balanced(t)
    ensures Height(t) >= 0 && (Height(t) == 0 <==> t.Leaf?)
  {
  }

  /** A node whose left child is two levels too high is repaired by one or two rotations. */
  lemma LeftHeavy(t: Tree)
    requires t.Fork? && Balanced(t.left) && Balanced(t.right) && Height(t.left) == Height(t.right) + 2
    ensures t.left.Fork?
    ensures Height(t.left.right) <= Height(t.left.left) ==>
              && Balanced(LeftLeft(t))
              && Height(LeftLeft(t)) == Height(t.right) + (if Height(t.left.left) == Height(t.left.right) then 3 else 2)
    ensures Height(t.left.right) > Height(t.left.left) ==>
              && t.left.right.Fork? && Balanced(LeftRight(t)) && Height(LeftRight(t)) == Height(t.right) + 2
  {
    NonNegative(t.right);
    NonNegative(t.left.left);
    NonNegative(t.left.right);
  }

  lemma RightHeavy(t: Tree)
    requires t.Fork? && Balanced(t.left) && Balanced(t.right) && Height(t.right) == Height(t.left) + 2
    ensures t.right.Fork?
    ensures Height(t.right.left) <= Height(t.right.right) ==>
              && Balanced(RightRight(t))
              && Height(RightRight(t)) == Height(t.left) + (if Height(t.right.left) == Height(t.right.right) then 3 else 2)
    ensures Height(t.right.left) > Height(t.right.right) ==>
              && t.right.left.Fork? && Balanced(RightLeft(t)) && Height(RightLeft(t)) == Height(t.left) + 2
  {
    NonNegative(t.left);
    NonNegative(t.right.left);
    NonNegative(t.right.right);
  }

  // ----- insertion

  /** The node over a left child that has just been inserted into. */
  function FixLeft(l: Tree, k: int, h: int, r: Tree, key: int): Tree
    requires l.Fork? && (Height(l) - Height(r) > 1 && key >= l.key ==> l.right.Fork?)
  {
    if Height(l) - Height(r) > 1 then
      (if key < l.key then LeftLeft(Fork(l, k, h, r)) else LeftRight(Fork(l, k, h, r)))
    else Join(l, k, r)
  }

  function FixRight(l: Tree, k: int, h: int, r: Tree, key: int): Tree
    requires r.Fork? && (Height(l) - Height(r) < -1 && key <= r.key ==> r.left.Fork?)
  {
    if Height(l) - Height(r) < -1 then
      (if key > r.key then RightRight(Fork(l, k, h, r)) else RightLeft(Fork(l, k, h, r)))
    else Join(l, k, r)
  }

  /** The height of a tree after an insertion: at most one more, and then on the side of the key. */
  ghost predicate GrownBy(t: Tree, key: int, u: Tree) {
    && u.Fork? && Balanced(u)
    && Height(t) <= Height(u) <= Height(t) + 1
    && (t.Fork? && Height(u) == Height(t) + 1 ==>
          && key != u.key
          && (key < u.key ==> Height(u.left) == Height(u.right) + 1)
          && (key > u.key ==> Height(u.right) == Height(u.left) + 1))
  }

  function Insert(t: Tree, key: int): (u: Tree)
    requires Valid(t)
    ensures Ordered(u) && Keys(u) == Keys(t) + {key}
    ensures GrownBy(t, key, u)
  {
    if t.Leaf? then
      Join(Leaf, key, Leaf)
    else if key < t.key then
      var l := Insert(t.left, key);
      InsertLeft(t, l, key);
      FixLeft(l, t.key, t.height, t.right, key)
    else if key > t.key then
      var r := Insert(t.right, key);
      InsertRight(t, r, key);
      FixRight(t.left, t.key, t.height, r, key)
    else
      Join(t.left, t.key, t.right)
  }

  lemma InsertLeft(t: Tree, l: Tree, key: int)
    requires Valid(t) && t.Fork? && key < t.key
    requires Ordered(l) && Keys(l) == Keys(t.left) + {key} && GrownBy(t.left, key, l)
    ensures Height(l) - Height(t.right) > 1 && key >= l.key ==> l.right.Fork?
    ensures var u := FixLeft(l, t.key, t.height, t.right, key);
            Ordered(u) && Keys(u) == Keys(t) + {key} && GrownBy(t, key, u)
  {
    var x := Fork(l, t.key, t.height, t.right);
    assert Ordered(x) && Keys(x) == Keys(t) + {key};
    InsertLeftHeights(t, l, key);
    if Height(l) - Height(t.right) > 1 {
      if key < l.key {
        LeftLeftOrder(x);
      } else {
        LeftRightOrder(x);
      }
    }
  }

  lemma InsertLeftHeights(t: Tree, l: Tree, key: int)
    requires Balanced(t) && t.Fork? && key < t.key && GrownBy(t.left, key, l)
    ensures Height(l) - Height(t.right) > 1 && key >= l.key ==> l.right.Fork?
    ensures GrownBy(t, key, FixLeft(l, t.key, t.height, t.right, key))
  {
    NonNegative(t.left);
    NonNegative(t.right);
    if Height(l) - Height(t.right) > 1 {
      LeftHeavy(Fork(l, t.key, t.height, t.right));
    }
  }

  lemma InsertRight(t: Tree, r: Tree, key: int)
    requires Valid(t) && t.Fork? && key > t.key
    requires Ordered(r) && Keys(r) == Keys(t.right) + {key} && GrownBy(t.right, key, r)
    ensures Height(t.left) - Height(r) < -1 && key <= r.key ==> r.left.Fork?
    ensures var u := FixRight(t.left, t.key, t.height, r, key);
            Ordered(u) && Keys(u) == Keys(t) + {key} && GrownBy(t, key, u)
  {
    var x := Fork(t.left, t.key, t.height, r);
    assert Ordered(x) && Keys(x) == Keys(t) + {key};
    InsertRightHeights(t, r, key);
    if Height(t.left) - Height(r) < -1 {
      if key > r.key {
        RightRightOrder(x);
      } else {
        RightLeftOrder(x);
      }
    }
  }

  lemma InsertRightHeights(t: Tree, r: Tree, key: int)
    requires Balanced(t) && t.Fork? && key > t.key && GrownBy(t.right, key, r)
    ensures Height(t.left) - Height(r) < -1 && key <= r.key ==> r.left.Fork?
    ensures GrownBy(t, key, FixRight(t.left, t.key, t.height, r, key))
  {
    NonNegative(t.left);
    NonNegative(t.right);
    if Height(t.left) - Height(r) < -1 {
      RightHeavy(Fork(t.left, t.key, t.height, r));
    }
  }

  // ----- removal

  function Least(t: Tree): (k: int)
    requires t.Fork?
    ensures k in Keys(t)
  {
    if t.left.Leaf? then t.key else Least(t.left)
  }

  function Greatest(t: Tree): (k: int)
    requires t.Fork?
    ensures k in Keys(t)
  {
    if t.right.Leaf? then t.key else Greatest(t.right)
  }

  lemma LeastIsLeast(t: Tree)
    requires t.Fork? && Ordered(t)
    ensures forall k :: k in Keys(t) ==> Least(t) <= k
  {
  }

  lemma GreatestIsGreatest(t: Tree)
    requires t.Fork? && Ordered(t)
    ensures forall k :: k in Keys(t) ==> k <= Greatest(t)
  {
  }

  /** Recomputes the height of a node and rotates it if a child is two levels too high. */
  function Rebalance(t: Tree): Tree
    requires t.Fork? && Balanced(t.left) && Balanced(t.right)
    requires -2 <= Height(t.left) - Height(t.right) <= 2
  {
    var x := Join(t.left, t.key, t.right);
    var balance := Height(t.left) - Height(t.right);
    if balance > 1 then
      LeftHeavy(x);
      if Height(x.left.right) > Height(x.left.left) then LeftRight(x) else LeftLeft(x)
    else if balance < -1 then
      RightHeavy(x);
      if Height(x.right.left) > Height(x.right.right) then RightLeft(x) else RightRight(x)
    else x
  }

  lemma RebalanceKeeps(t: Tree)
    requires t.Fork? && Balanced(t.left) && Balanced(t.right)
    requires -2 <= Height(t.left) - Height(t.right) <= 2
    ensures Balanced(Rebalance(t))
    ensures SameOrder(t, Rebalance(t))
    ensures var h := Max(Height(t.left), Height(t.right)) + 1; h - 1 <= Height(Rebalance(t)) <= h
    ensures -1 <= Height(t.left) - Height(t.right) <= 1 ==>
              Height(Rebalance(t)) == Max(Height(t.left), Height(t.right)) + 1
  {
    var x := Join(t.left, t.key, t.right);
    if Height(t.left) - Height(t.right) == 2 {
      LeftHeavy(x);
      LeftLeftOrder(x);
      if t.left.right.Fork? {
        LeftRightOrder(x);
      }
    } else if Height(t.left) - Height(t.right) == -2 {
      RightHeavy(x);
      RightRightOrder(x);
      if t.right.left.Fork? {
        RightLeftOrder(x);
      }
    }
  }

  /** The height of a tree after a removal. */
  ghost predicate ShrunkTo(t: Tree, u: Tree) {
    Balanced(u) && Height(t) - 1 <= Height(u) <= Height(t)
  }

  function RemoveNode(t: Tree, key: int): (u: Tree)
    requires Valid(t)
    ensures Ordered(u) && Keys(u) == Keys(t) - {key}
    ensures ShrunkTo(t, u)
    decreases t
  {
    if t.Leaf? then Leaf
    else if key < t.key then
      var l := RemoveNode(t.left, key);
      RemovedLeft(t, l, key);
      Rebalance(Fork(l, t.key, t.height, t.right))
    else if key > t.key then
      var r := RemoveNode(t.right, key);
      RemovedRight(t, r, key);
      Rebalance(Fork(t.left, t.key, t.height, r))
    else if t.left.Fork? && t.right.Fork? then
      if Height(t.left) > Height(t.right) then
        var max := Greatest(t.left);
        var l := RemoveNode(t.left, max);
        ReplacedByGreatest(t, l);
        Rebalance(Fork(l, max, t.height, t.right))
      else
        var min := Least(t.right);
        var r := RemoveNode(t.right, min);
        ReplacedByLeast(t, r);
        Rebalance(Fork(t.left, min, t.height, r))
    else
      var u := if t.left.Fork? then t.left else t.right;
      ReplacedByChild(t, u);
      if u.Leaf? then Leaf else Rebalance(u)
  }

  lemma RemovedLeft(t: Tree, l: Tree, key: int)
    requires Valid(t) && t.Fork? && key < t.key
    requires Ordered(l) && Keys(l) == Keys(t.left) - {key} && ShrunkTo(t.left, l)
    ensures -2 <= Height(l) - Height(t.right) <= 2
    ensures var u := Rebalance(Fork(l, t.key, t.height, t.right));
            Ordered(u) && Keys(u) == Keys(t) - {key} && ShrunkTo(t, u)
  {
    assert Keys(Fork(l, t.key, t.height, t.right)) == Keys(t) - {key};
    RemovedBelow(t, l, t.key, t.right, key);
  }

  lemma RemovedRight(t: Tree, r: Tree, key: int)
    requires Valid(t) && t.Fork? && t.key < key
    requires Ordered(r) && Keys(r) == Keys(t.right) - {key} && ShrunkTo(t.right, r)
    ensures -2 <= Height(t.left) - Height(r) <= 2
    ensures var u := Rebalance(Fork(t.left, t.key, t.height, r));
            Ordered(u) && Keys(u) == Keys(t) - {key} && ShrunkTo(t, u)
  {
    assert Keys(Fork(t.left, t.key, t.height, r)) == Keys(t) - {key};
    RemovedBelow(t, t.left, t.key, r, key);
  }

  lemma ReplacedByGreatest(t: Tree, l: Tree)
    requires Valid(t) && t.Fork? && t.left.Fork?
    requires Ordered(l) && Keys(l) == Keys(t.left) - {Greatest(t.left)} && ShrunkTo(t.left, l)
    ensures -2 <= Height(l) - Height(t.right) <= 2
    ensures var u := Rebalance(Fork(l, Greatest(t.left), t.height, t.right));
            Ordered(u) && Keys(u) == Keys(t) - {t.key} && ShrunkTo(t, u)
  {
    OrderWithGreatest(t, l);
    RemovedBelow(t, l, Greatest(t.left), t.right, t.key);
  }

  lemma OrderWithGreatest(t: Tree, l: Tree)
    requires t.Fork? && Ordered(t) && t.left.Fork?
    requires Ordered(l) && Keys(l) == Keys(t.left) - {Greatest(t.left)}
    ensures var u := Fork(l, Greatest(t.left), t.height, t.right); Ordered(u) && Keys(u) == Keys(t) - {t.key}
  {
    GreatestIsGreatest(t.left);
    var max := Greatest(t.left);
    assert max in Keys(t.left) && max < t.key;
    assert forall k :: k in Keys(l) ==> k < max;
  }

  lemma ReplacedByLeast(t: Tree, r: Tree)
    requires Valid(t) && t.Fork? && t.right.Fork?
    requires Ordered(r) && Keys(r) == Keys(t.right) - {Least(t.right)} && ShrunkTo(t.right, r)
    ensures -2 <= Height(t.left) - Height(r) <= 2
    ensures var u := Rebalance(Fork(t.left, Least(t.right), t.height, r));
            Ordered(u) && Keys(u) == Keys(t) - {t.key} && ShrunkTo(t, u)
  {
    OrderWithLeast(t, r);
    RemovedBelow(t, t.left, Least(t.right), r, t.key);
  }

  lemma OrderWithLeast(t: Tree, r: Tree)
    requires t.Fork? && Ordered(t) && t.right.Fork?
    requires Ordered(r) && Keys(r) == Keys(t.right) - {Least(t.right)}
    ensures var u := Fork(t.left, Least(t.right), t.height, r); Ordered(u) && Keys(u) == Keys(t) - {t.key}
  {
    LeastIsLeast(t.right);
    var min := Least(t.right);
    assert min in Keys(t.right) && t.key < min;
    assert forall k :: k in Keys(r) ==> min < k;
  }

  lemma ReplacedByChild(t: Tree, u: Tree)
    requires Valid(t) && t.Fork? && (t.left.Leaf? || t.right.Leaf?)
    requires u == if t.left.Fork? then t.left else t.right
    ensures Valid(u) && Keys(u) == Keys(t) - {t.key} && ShrunkTo(t, u)
    ensures u.Fork? ==> -2 <= Height(u.left) - Height(u.right) <= 2 && Rebalance(u) == u
  {
    NonNegative(t.left);
    NonNegative(t.right);
  }

  /** The node over children one of which may have lost a level. */
  lemma RemovedBelow(t: Tree, l: Tree, k: int, r: Tree, key: int)
    requires Valid(t) && t.Fork? && ShrunkTo(t.left, l) && ShrunkTo(t.right, r)
    requires Height(l) == Height(t.left) || Height(r) == Height(t.right)
    requires Ordered(Fork(l, k, t.height, r)) && Keys(Fork(l, k, t.height, r)) == Keys(t) - {key}
    ensures -2 <= Height(l) - Height(r) <= 2
    ensures var u := Rebalance(Fork(l, k, t.height, r));
            Ordered(u) && Keys(u) == Keys(t) - {key} && ShrunkTo(t, u)
  {
    RebalanceKeeps(Fork(l, k, t.height, r));
  }

  function Search(t: Tree, key: int): (found: bool)
    requires Ordered(t)
    ensures found <==> key in Keys(t)
  {
    if t.Leaf? then false
    else if t.key == key then true
    else Search(if key < t.key then t.left else t.right, key)
  }

  function Remove(t: Tree, key: int): (u: Tree)
    requires Valid(t)
    ensures Ordered(u) && Keys(u) == Keys(t) - {key}
    ensures ShrunkTo(t, u)
  {
    if Search(t, key) then RemoveNode(t, key) else t
  }

  // ----- height against size

  ghost function RealHeight(t: Tree): nat {
    if t.Leaf? then 0 else Max(RealHeight(t.left), RealHeight(t.right)) + 1
  }

  ghost function Size(t: Tree): nat {
    if t.Leaf? then 0 else Size(t.left) + 1 + Size(t.right)
  }

  lemma {:induction false} StoredHeightIsReal(t: Tree)
    requires Balanced(t)
    ensures Height(t) == RealHeight(t)
  {
    if t.Fork? {
      StoredHeightIsReal(t.left);
      StoredHeightIsReal(t.right);
    }
  }

  /** The height is at most twice the logarithm of the size plus one. */
  lemma {:induction false} HeightIsLogarithmic(t: Tree)
    requires Balanced(t)
    ensures Words.Pow2(RealHeight(t) / 2) <= Size(t) + 1
  {
    if t.Fork? && RealHeight(t) >= 2 {
      var h := RealHeight(t);
      StoredHeightIsReal(t.left);
      StoredHeightIsReal(t.right);
      HeightIsLogarithmic(t.left);
      HeightIsLogarithmic(t.right);
      Words.Pow2Monotone((h - 2) / 2, RealHeight(t.left) / 2);
      Words.Pow2Monotone((h - 2) / 2, RealHeight(t.right) / 2);
      assert Words.Pow2(h / 2) == 2 * Words.Pow2((h - 2) / 2);
    }
  }

  function Fibonacci(n: nat): nat {
    if n < 2 then n else Fibonacci(n - 1) + Fibonacci(n - 2)
  }

  lemma {:induction false} FibonacciGrows(m: nat, n: nat)
    requires m <= n
    ensures Fibonacci(m) <= Fibonacci(n)
    decreases n
  {
    if m < n {
      FibonacciGrows(m, n - 1);
    }
  }

  /** The exact bound: a tree of a given height has at least as many places for keys as the Fibonacci number two beyond. */
  lemma {:induction false} SizeIsFibonacci(t: Tree)
    requires Balanced(t)
    ensures Size(t) + 1 >= Fibonacci(RealHeight(t) + 2)
  {
    hide Fibonacci;
    SmallFibonacci();
    if t.Fork? {
      StoredHeightIsReal(t.left);
      StoredHeightIsReal(t.right);
      SizeIsFibonacci(t.left);
      SizeIsFibonacci(t.right);
      var a, b := RealHeight(t.left), RealHeight(t.right);
      NextFibonacci(a, b);
    }
  }

  lemma NextFibonacci(a: nat, b: nat)
    requires -1 <= a - b <= 1
    ensures Fibonacci(Max(a, b) + 3) <= Fibonacci(a + 2) + Fibonacci(b + 2)
  {
    hide Fibonacci;
    var h := Max(a, b);
    FibonacciIs(h + 3);
    FibonacciGrows(h + 1, a + 2);
    FibonacciGrows(h + 1, b + 2);
  }

  lemma SmallFibonacci()
    ensures Fibonacci(2) == 1
  {
  }

  lemma FibonacciIs(n: nat)
    requires n >= 2
    ensures Fibonacci(n) == Fibonacci(n - 1) + Fibonacci(n - 2)
  {
  }

  /** A thinnest tree of a height: the bound is reached. */
  ghost function Thinnest(h: nat, k: int): (t: Tree)
    ensures RealHeight(t) == h && Size(t) + 1 == Fibonacci(h + 2)
    ensures Balanced(t) && Height(t) == h
  {
    if h == 0 then Leaf
    else if h == 1 then Fork(Leaf, k, 1, Leaf)
    else
      var l := Thinnest(h - 1, k);
      Fork(l, k + Size(l), h, Thinnest(h - 2, k + Size(l) + 1))
  }

  /** Any sequence of insertions and removals. */
  datatype Op = Add(key: int) | Delete(key: int)

  function Run(ops: seq<Op>): (t: Tree)
    ensures Valid(t)
  {
    if ops == [] then Leaf
    else
      var t := Run(ops[..|ops| - 1]);
      match ops[|ops| - 1]
      case Add(k) => Insert(t, k)
      case Delete(k) => Remove(t, k)
  }
}
