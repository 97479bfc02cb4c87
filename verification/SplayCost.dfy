/** What splaying costs over whole runs. The potential of a tree is the sum of the ranks of its nodes, the rank being the binary
    logarithm of the size, rounded down. */
module SplayCost {
  import opened SplayTree
  import Words

  // ----- the loop as a recursion

  /** What ends up left of the new root, the new root, and what ends up right of it. */
  datatype Parts = Parts(low: Tree, top: int, high: Tree)

  function Apart(t: Tree, key: int): (p: Parts)
    requires t.Fork?
    ensures Size(p.low) + Size(p.high) + 1 == Size(t)
    decreases Size(t)
  {
    if key < t.key then
      var u := ZigLeft(t, key);
      if u.left.Leaf? then Parts(u.left, u.key, u.right)
      else
        var p := Apart(u.left, key);
        p.(high := Fork(p.high, u.key, u.right))
    else if key > t.key then
      var u := ZigRight(t, key);
      if u.right.Leaf? then Parts(u.left, u.key, u.right)
      else
        var p := Apart(u.right, key);
        p.(low := Fork(u.left, u.key, p.low))
    else Parts(t.left, t.key, t.right)
  }

  lemma CloseOneMore(fs: seq<Frame>, f: Frame, x: Tree)
    ensures CloseLeft(fs + [f], x) == CloseLeft(fs, Fork(f.sub, f.key, x))
    ensures CloseRight(fs + [f], x) == CloseRight(fs, Fork(x, f.key, f.sub))
  {
    assert (fs + [f])[..|fs|] == fs;
  }

  lemma {:induction false} LoopParts(s: State, key: int)
    requires s.tree.Fork?
    ensures var r := Loop(s, key); var p := Apart(s.tree, key);
            && r.tree.key == p.top && CloseLeft(r.small, r.tree.left) == CloseLeft(s.small, p.low)
            && CloseRight(r.large, r.tree.right) == CloseRight(s.large, p.high)
    decreases Size(s.tree)
  {
    hide CloseLeft, CloseRight;
    if key < s.tree.key {
      var t := ZigLeft(s.tree, key);
      if t.left.Fork? {
        LoopParts(LinkRight(s, t), key);
        CloseOneMore(s.large, Frame(t.key, t.right), Apart(t.left, key).high);
      }
    } else if key > s.tree.key {
      var t := ZigRight(s.tree, key);
      if t.right.Fork? {
        LoopParts(LinkLeft(s, t), key);
        CloseOneMore(s.small, Frame(t.key, t.left), Apart(t.right, key).low);
      }
    }
  }

  /** The two assembly trees are built as the recursion says. */
  lemma SplayParts(t: Tree, key: int)
    requires t.Fork?
    ensures var p := Apart(t, key); Splay(t, key) == Fork(p.low, p.top, p.high)
  {
    LoopParts(State([], t, []), key);
  }

  // ----- ranks

  function Rank(n: nat): nat {
    if n < 2 then 0 else 1 + Rank(n / 2)
  }

  lemma {:induction false} RankGrows(m: nat, n: nat)
    requires m <= n
    ensures Rank(m) <= Rank(n)
  {
    if m >= 2 {
      RankGrows(m / 2, n / 2);
    }
  }

  /** Two parts of a whole cannot both have its rank. */
  lemma {:induction false} RankSplits(a: nat, b: nat, n: nat)
    requires a > 0 && b > 0 && a + b <= n
    ensures Rank(a) + Rank(b) + 1 <= 2 * Rank(n)
  {
    if a == 1 {
      RankGrows(b, n);
    } else if b == 1 {
      RankGrows(a, n);
    } else {
      RankSplits(a / 2, b / 2, n / 2);
    }
  }

  lemma {:induction false} RankBelow(n: nat, k: nat)
    requires n < Words.Pow2(k + 1)
    ensures Rank(n) <= k
  {
    if n >= 2 {
      if k > 0 {
        RankBelow(n / 2, k - 1);
      }
    }
  }

  /** Size with the empty places, one more than the nodes. */
  function Weight(t: Tree): nat {
    Size(t) + 1
  }

  function Potential(t: Tree): nat {
    if t.Leaf? then 0 else Potential(t.left) + Potential(t.right) + Rank(Weight(t))
  }

  // ----- one splay

  /** What a splay may cost, its new root not yet counted; `more` rounds are paid besides. */
  ghost predicate Paid(t: Tree, key: int, more: nat)
    requires t.Fork?
  {
    var p := Apart(t, key);
    more + Rounds(t, key) + 2 * Potential(p.low) + 2 * Potential(p.high) <= 2 * Potential(t) + 4 * Rank(Weight(t))
  }

  /** A step without a rotation pays nothing itself: the step after it, which goes the other way, pays for both. */
  ghost predicate PaidAfter(t: Tree, key: int, part: nat, rest: nat)
    requires t.Fork?
  {
    var p := Apart(t, key);
    1 + Rounds(t, key) + 2 * Potential(p.low) + 2 * Potential(p.high) + 2 * Rank(part + rest)
      <= 2 * Potential(t) + 6 * Rank(Weight(t) + rest)
  }

  lemma Sums(t: Tree)
    requires t.Fork?
    ensures Weight(t) == Weight(t.left) + Weight(t.right)
    ensures Potential(t) == Potential(t.left) + Potential(t.right) + Rank(Weight(t))
  {
  }

  lemma Small(t: Tree)
    ensures Weight(t) > 0 && (t.Fork? ==> Rank(Weight(t)) > 0)
    ensures t.Leaf? ==> Potential(t) == 0 && forall key :: Rounds(t, key) == 0
  {
  }

  lemma LeftRound(t: Tree, key: int)
    requires t.Fork? && key < t.key
    ensures var u := ZigLeft(t, key);
            && Rounds(t, key) == 1 + Rounds(u.left, key)
            && Apart(t, key) == if u.left.Leaf? then Parts(u.left, u.key, u.right)
                                else var p := Apart(u.left, key); p.(high := Fork(p.high, u.key, u.right))
  {
  }

  lemma RightRound(t: Tree, key: int)
    requires t.Fork? && key > t.key
    ensures var u := ZigRight(t, key);
            && Rounds(t, key) == 1 + Rounds(u.right, key)
            && Apart(t, key) == if u.right.Leaf? then Parts(u.left, u.key, u.right)
                                else var p := Apart(u.right, key); p.(low := Fork(u.left, u.key, p.low))
  {
  }

  lemma LastRound(t: Tree, key: int)
    requires t.Fork? && key == t.key
    ensures Rounds(t, key) == 1 && Apart(t, key) == Parts(t.left, t.key, t.right)
  {
  }

  lemma PartWeights(t: Tree, key: int)
    requires t.Fork?
    ensures var p := Apart(t, key); Weight(p.low) + Weight(p.high) == Weight(t)
  {
  }

  lemma {:induction false} Pays(t: Tree, key: int)
    requires t.Fork?
    ensures Paid(t, key, 0)
    decreases Size(t), 1
  {
    hide Rank, Potential, Apart, Rounds, Weight;
    Sums(t);
    Small(t);
    Small(t.left);
    Small(t.right);
    if key < t.key {
      LeftRound(t, key);
      if t.left.Fork? && key < t.left.key {
        TwiceLeft(t, key);
      } else if t.left.Fork? {
        AfterLeft(t.left, key, Weight(t.right));
        Sums(Apart(t, key).high);
      }
    } else if key > t.key {
      RightRound(t, key);
      if t.right.Fork? && key > t.right.key {
        TwiceRight(t, key);
      } else if t.right.Fork? {
        AfterRight(t.right, key, Weight(t.left));
        Sums(Apart(t, key).low);
      }
    } else {
      LastRound(t, key);
    }
  }

  /** Two steps the same way, with a rotation. */
  lemma {:induction false} TwiceLeft(t: Tree, key: int)
    requires t.Fork? && t.left.Fork? && key < t.key && key < t.left.key
    ensures Paid(t, key, 1)
    decreases Size(t), 0
  {
    hide Rank, Potential, Apart, Rounds, Weight;
    var a, u := t.left.left, ZigLeft(t, key);
    LeftRound(t, key);
    Sums(t);
    Sums(t.left);
    Sums(u.right);
    Small(a);
    Small(t.left.right);
    Small(t.right);
    RankSplits(Weight(a), Weight(u.right), Weight(t));
    RankGrows(Weight(a), Weight(t.left));
    if a.Fork? {
      Pays(a, key);
      PartWeights(a, key);
      Small(Apart(a, key).low);
      Sums(Apart(t, key).high);
      RankGrows(Weight(Apart(t, key).high), Weight(t));
    }
  }

  lemma {:induction false} TwiceRight(t: Tree, key: int)
    requires t.Fork? && t.right.Fork? && key > t.key && key > t.right.key
    ensures Paid(t, key, 1)
    decreases Size(t), 0
  {
    hide Rank, Potential, Apart, Rounds, Weight;
    var a, u := t.right.right, ZigRight(t, key);
    RightRound(t, key);
    Sums(t);
    Sums(t.right);
    Sums(u.left);
    Small(a);
    Small(t.right.left);
    Small(t.left);
    RankSplits(Weight(a), Weight(u.left), Weight(t));
    RankGrows(Weight(a), Weight(t.right));
    if a.Fork? {
      Pays(a, key);
      PartWeights(a, key);
      Small(Apart(a, key).high);
      Sums(Apart(t, key).low);
      RankGrows(Weight(Apart(t, key).low), Weight(t));
    }
  }

  /** Behind a step to the left: the loop stops, or steps to the right. */
  lemma {:induction false} AfterLeft(t: Tree, key: int, rest: nat)
    requires t.Fork? && key >= t.key && rest > 0
    ensures PaidAfter(t, key, Weight(Apart(t, key).high), rest)
    decreases Size(t), 1
  {
    hide Rank, Potential, Apart, Rounds, Weight;
    var n, p := Weight(t) + rest, Apart(t, key);
    Sums(t);
    Small(t);
    Small(t.left);
    Small(t.right);
    PartWeights(t, key);
    Small(p.low);
    RankGrows(Weight(t), n);
    RankGrows(Weight(p.high) + rest, n);
    if key == t.key {
      LastRound(t, key);
    } else {
      RightRound(t, key);
      if t.right.Fork? && key > t.right.key {
        TwiceRight(t, key);
      } else if t.right.Fork? {
        Pays(t.right, key);
        Sums(p.low);
        RankSplits(Weight(p.low), Weight(p.high) + rest, n);
        RankGrows(Weight(t.right), Weight(t));
      }
    }
  }

  lemma {:induction false} AfterRight(t: Tree, key: int, rest: nat)
    requires t.Fork? && key <= t.key && rest > 0
    ensures PaidAfter(t, key, Weight(Apart(t, key).low), rest)
    decreases Size(t), 1
  {
    hide Rank, Potential, Apart, Rounds, Weight;
    var n, p := Weight(t) + rest, Apart(t, key);
    Sums(t);
    Small(t);
    Small(t.left);
    Small(t.right);
    PartWeights(t, key);
    Small(p.high);
    RankGrows(Weight(t), n);
    RankGrows(Weight(p.low) + rest, n);
    if key == t.key {
      LastRound(t, key);
    } else {
      LeftRound(t, key);
      if t.left.Fork? && key < t.left.key {
        TwiceLeft(t, key);
      } else if t.left.Fork? {
        Pays(t.left, key);
        Sums(p.high);
        RankSplits(Weight(p.high), Weight(p.low) + rest, n);
        RankGrows(Weight(t.left), Weight(t));
      }
    }
  }

  /** Splaying pays for its rounds, but for a logarithm of the size. */
  lemma SplayPays(t: Tree, key: int)
    ensures Rounds(t, key) + 2 * Potential(Splay(t, key)) <= 2 * Potential(t) + 6 * Rank(Weight(t))
    ensures Weight(Splay(t, key)) == Weight(t) && (t.Fork? ==> Splay(t, key).Fork?)
  {
    if t.Leaf? {
      Small(t);
    } else {
      hide Rank, Potential, Apart, Rounds, Weight, Splay;
      Pays(t, key);
      SplayParts(t, key);
      PartWeights(t, key);
      Sums(Splay(t, key));
    }
  }

  // ----- the operations

  /** A round of the loop goes down by two nodes at most. */
  lemma {:induction false} WalkIsShort(t: Tree, key: int)
    ensures Walk(t, key) <= 2 * Rounds(t, key)
    decreases Size(t)
  {
    if t.Fork? && key < t.key {
      WalkIsShort(ZigLeft(t, key).left, key);
    } else if t.Fork? && key > t.key {
      WalkIsShort(ZigRight(t, key).right, key);
    }
  }

  /** A new leaf raises the potential by a logarithm at most: what one node gains, the node above it had. */
  lemma {:induction false} InsertNodeGains(t: Tree, key: int)
    ensures Potential(InsertNode(t, key)) <= Potential(t) + Rank(Weight(t) + 1)
  {
    hide Rank, Potential, Weight;
    if t.Fork? {
      var u := InsertNode(t, key);
      Sums(t);
      Sums(u);
      Small(t.left);
      Small(t.right);
      InsertNodeGains(t.left, key);
      InsertNodeGains(t.right, key);
      InsertNodeGrows(t, key);
      RankGrows(Weight(t.left) + 1, Weight(t));
      RankGrows(Weight(t.right) + 1, Weight(t));
      RankGrows(Weight(u), Weight(t) + 1);
    } else {
      OneNode(key);
    }
  }

  lemma {:induction false} InsertNodeGrows(t: Tree, key: int)
    ensures Weight(t) <= Weight(InsertNode(t, key)) <= Weight(t) + 1
    ensures Walk(t, key) <= Walk(InsertNode(t, key), key)
  {
    if t.Fork? {
      InsertNodeGrows(t.left, key);
      InsertNodeGrows(t.right, key);
    }
  }

  lemma OneNode(key: int)
    ensures Potential(Fork(Leaf, key, Leaf)) == 1 && Rank(2) == 1 && Weight(Leaf) == 1 && Potential(Leaf) == 0
  {
    assert Rank(2) == 1 + Rank(1);
    Sums(Fork(Leaf, key, Leaf));
  }

  datatype SplayOp = Add(key: int) | Delete(key: int)

  function After(t: Tree, op: SplayOp): Tree {
    match op
    case Add(key) => Insert(t, key)
    case Delete(key) => Remove(t, key)
  }

  /** Nodes looked at on the way down and rounds of the loop. */
  function Cost(t: Tree, op: SplayOp): nat {
    match op
    case Add(key) => Walk(t, key) + Rounds(InsertNode(t, key), key)
    case Delete(key) =>
      Walk(t, key) + if Search(t, key) then Rounds(t, key) + Rounds(Splay(t, key).left, key) else 0
  }

  /** What is spent on the removal of a key that is not there. */
  function Wasted(t: Tree, op: SplayOp): nat {
    if op.Delete? && !Search(t, op.key) then Walk(t, op.key) else 0
  }

  lemma AddPays(t: Tree, key: int)
    ensures Cost(t, Add(key)) + 6 * Potential(Insert(t, key)) <= 6 * Potential(t) + 24 * Rank(Weight(t) + 1)
    ensures Weight(Insert(t, key)) <= Weight(t) + 1
  {
    hide Rank, Potential, Rounds, Weight, Splay, InsertNode, Walk;
    var u := InsertNode(t, key);
    InsertNodeGains(t, key);
    InsertNodeGrows(t, key);
    WalkIsShort(u, key);
    SplayPays(u, key);
    RankGrows(Weight(u), Weight(t) + 1);
  }

  /** The second splay works on the left part; joining the rest to it costs no more than the root that goes. */
  lemma DeletePays(t: Tree, key: int)
    requires t.Fork? && Search(t, key)
    ensures Cost(t, Delete(key)) + 6 * Potential(Remove(t, key)) <= 6 * Potential(t) + 30 * Rank(Weight(t))
    ensures Weight(Remove(t, key)) <= Weight(t)
  {
    hide Rank, Potential, Rounds, Weight, Splay, Walk, Search;
    var root := Splay(t, key);
    WalkIsShort(t, key);
    SplayPays(t, key);
    SplayPays(root.left, key);
    Sums(root);
    Small(root.left);
    Small(root.right);
    RankGrows(Weight(root.left), Weight(t));
    if root.left.Fork? {
      var x := Splay(root.left, key);
      Sums(x);
      Small(x.right);
      var u := Fork(x.left, x.key, root.right);
      Sums(u);
      RankGrows(Weight(u), Weight(t));
    }
  }

  lemma OneStep(t: Tree, op: SplayOp, k: nat)
    requires Weight(t) + 1 < Words.Pow2(k + 1)
    ensures Cost(t, op) + 6 * Potential(After(t, op)) <= 6 * Potential(t) + 30 * k + Wasted(t, op)
    ensures Weight(After(t, op)) <= Weight(t) + 1
  {
    hide Rank, Potential, Rounds, Weight, Splay, Walk, Insert;
    RankBelow(Weight(t) + 1, k);
    RankGrows(Weight(t), Weight(t) + 1);
    match op
    case Add(key) => AddPays(t, key);
    case Delete(key) =>
      if Search(t, key) {
        DeletePays(t, key);
      }
  }

  // ----- runs

  function Run(ops: seq<SplayOp>): Tree {
    if ops == [] then Leaf else After(Run(ops[..|ops| - 1]), ops[|ops| - 1])
  }

  function Total(ops: seq<SplayOp>): nat {
    if ops == [] then 0 else Total(ops[..|ops| - 1]) + Cost(Run(ops[..|ops| - 1]), ops[|ops| - 1])
  }

  function TotalWasted(ops: seq<SplayOp>): nat {
    if ops == [] then 0 else TotalWasted(ops[..|ops| - 1]) + Wasted(Run(ops[..|ops| - 1]), ops[|ops| - 1])
  }

  lemma NoOps()
    ensures Run([]) == Leaf && Total([]) == TotalWasted([]) == Potential(Leaf) == 0 && Weight(Leaf) == 1
  {
  }

  lemma OneMore(ops: seq<SplayOp>, op: SplayOp)
    ensures var all := ops + [op];
            && Run(all) == After(Run(ops), op) && Total(all) == Total(ops) + Cost(Run(ops), op)
            && TotalWasted(all) == TotalWasted(ops) + Wasted(Run(ops), op)
  {
    hide After, Cost, Wasted;
    assert (ops + [op])[..|ops|] == ops;
  }

  lemma OneTimesMore(m: nat, n: nat)
    requires m > 0
    ensures m * n == (m - 1) * n + n
  {
  }

  /** Over any run of insertions and removals the work is at most logarithmic per operation on average, apart from searches for
      keys that are to be removed and are not there: those are not followed by a splay. */
  lemma {:induction false} RunIsLogarithmic(ops: seq<SplayOp>, k: nat)
    requires |ops| + 1 < Words.Pow2(k + 1)
    ensures Total(ops) + 6 * Potential(Run(ops)) <= |ops| * (30 * k) + TotalWasted(ops) && Weight(Run(ops)) <= |ops| + 1
    decreases |ops|
  {
    hide Cost, After, Potential, Wasted, Weight, Run, Total, TotalWasted;
    if ops == [] {
      NoOps();
    } else {
      var rest, op := ops[..|ops| - 1], ops[|ops| - 1];
      assert ops == rest + [op];
      RunIsLogarithmic(rest, k);
      OneStep(Run(rest), op, k);
      OneMore(rest, op);
      OneTimesMore(|ops|, 30 * k);
    }
  }

  // ----- removals of missing keys

  /** Insertions in increasing order. */
  function Climb(n: nat): (ops: seq<SplayOp>)
    ensures |ops| == n
  {
    if n == 0 then [] else Climb(n - 1) + [Add(n)]
  }

  /** The tree they leave: all to the left. */
  function Comb(n: nat): Tree {
    if n == 0 then Leaf else Fork(Comb(n - 1), n, Leaf)
  }

  lemma CombGrows(n: nat)
    ensures Insert(Comb(n), n + 1) == Comb(n + 1)
  {
    if n > 0 {
      var t := Fork(Comb(n - 1), n, Fork(Leaf, n + 1, Leaf));
      assert InsertNode(Comb(n), n + 1) == t;
      SplayParts(t, n + 1);
      RightRound(t, n + 1);
      LastRound(t.right, n + 1);
    } else {
      SplayParts(Fork(Leaf, 1, Leaf), 1);
    }
  }

  lemma {:induction false} ClimbGivesComb(n: nat)
    ensures Run(Climb(n)) == Comb(n)
  {
    if n > 0 {
      hide Run, Comb, Insert;
      ClimbGivesComb(n - 1);
      CombGrows(n - 1);
      OneMore(Climb(n - 1), Add(n));
    }
  }

  lemma {:induction false} CombMisses(n: nat)
    ensures !Search(Comb(n), 0) && Walk(Comb(n), 0) == n
  {
    if n > 0 {
      CombMisses(n - 1);
    }
  }

  lemma OneMiss(n: nat)
    ensures var t, op := Comb(n), Delete(0); After(t, op) == t && Cost(t, op) == Wasted(t, op) == n
  {
    CombMisses(n);
  }

  function Misses(n: nat, m: nat): (ops: seq<SplayOp>)
    ensures |ops| == n + m
  {
    if m == 0 then Climb(n) else Misses(n, m - 1) + [Delete(0)]
  }

  /** After `n` insertions in increasing order, any number of removals of a lesser key look at all `n` nodes each time. */
  lemma {:induction false} MissesAreLinear(n: nat, m: nat)
    ensures Run(Misses(n, m)) == Comb(n) && TotalWasted(Misses(n, m)) >= m * n && Total(Misses(n, m)) >= m * n
  {
    hide Run, Total, TotalWasted, After, Cost, Wasted, Comb, Climb;
    if m == 0 {
      ClimbGivesComb(n);
    } else {
      MissesAreLinear(n, m - 1);
      OneMiss(n);
      OneMore(Misses(n, m - 1), Delete(0));
      OneTimesMore(m, n);
    }
  }
}
