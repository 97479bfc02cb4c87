/** Splay trees as values: top-down splaying with a left and a right assembly tree. */
module SplayTree {

  datatype Tree = Leaf | Fork(left: Tree, key: int, right: Tree)

  function Inorder(t: Tree): seq<int> {
    if t.Leaf? then [] else Inorder(t.left) + [t.key] + Inorder(t.right)
  }

  ghost predicate Increasing(w: seq<int>) {
    forall i, j :: 0 <= i < j < |w| ==> w[i] < w[j]
  }

  /** Search order: the in-order sequence strictly increases. */
  ghost predicate Ordered(t: Tree) {
    Increasing(Inorder(t))
  }

  ghost predicate AllBelow(w: seq<int>, key: int) {
    forall k :: k in w ==> k < key
  }

  ghost predicate AllAbove(w: seq<int>, key: int) {
    forall k :: k in w ==> key < k
  }

  lemma IncreasingParts(a: seq<int>, b: seq<int>)
    ensures Increasing(a + b) <==>
              Increasing(a) && Increasing(b) && forall x, y :: x in a && y in b ==> x < y
  {
    var w := a + b;
    if Increasing(w) {
      forall i, j | 0 <= i < j < |a|
        ensures a[i] < a[j]
      {
        assert w[i] < w[j];
      }
      forall i, j | 0 <= i < j < |b|
        ensures b[i] < b[j]
      {
        assert w[|a| + i] < w[|a| + j];
      }
      forall x, y | x in a && y in b
        ensures x < y
      {
        var i :| 0 <= i < |a| && a[i] == x;
        var j :| 0 <= j < |b| && b[j] == y;
        assert w[i] < w[|a| + j];
      }
    }
    if Increasing(a) && Increasing(b) && forall x, y :: x in a && y in b ==> x < y {
      forall i, j | 0 <= i < j < |w|
        ensures w[i] < w[j]
      {
        if i < |a| <= j {
          assert a[i] in a && b[j - |a|] in b;
        }
      }
    }
  }

  lemma OrderedFork(l: Tree, k: int, r: Tree)
    ensures Ordered(Fork(l, k, r)) <==>
              Ordered(l) && Ordered(r) && AllBelow(Inorder(l), k) && AllAbove(Inorder(r), k)
  {
    var a, b := Inorder(l), Inorder(r);
    IncreasingParts(a + [k], b);
    IncreasingParts(a, [k]);
    if Ordered(l) && Ordered(r) && AllBelow(a, k) && AllAbove(b, k) {
      forall x, y | x in a + [k] && y in b
        ensures x < y
      {
      }
    }
    if Ordered(Fork(l, k, r)) {
      assert k in a + [k];
    }
  }

  // ----- the assembly trees

  /** A node of an assembly tree together with the subtree it brought along; its other child is the next
      frame, and the last frame's other child is still open. */
  datatype Frame = Frame(key: int, sub: Tree)

  /** The left assembly tree with its open end filled in. */
  function CloseLeft(fs: seq<Frame>, x: Tree): Tree
    decreases |fs|
  {
    if fs == [] then x
    else var f := fs[|fs| - 1]; CloseLeft(fs[..|fs| - 1], Fork(f.sub, f.key, x))
  }

  function CloseRight(fs: seq<Frame>, x: Tree): Tree
    decreases |fs|
  {
    if fs == [] then x
    else var f := fs[|fs| - 1]; CloseRight(fs[..|fs| - 1], Fork(x, f.key, f.sub))
  }

  ghost function LeftKeys(fs: seq<Frame>): seq<int> {
    if fs == [] then []
    else var f := fs[|fs| - 1]; LeftKeys(fs[..|fs| - 1]) + (Inorder(f.sub) + [f.key])
  }

  ghost function RightKeys(fs: seq<Frame>): seq<int> {
    if fs == [] then []
    else var f := fs[|fs| - 1]; ([f.key] + Inorder(f.sub)) + RightKeys(fs[..|fs| - 1])
  }

  lemma {:induction false} CloseLeftInorder(fs: seq<Frame>, x: Tree)
    ensures Inorder(CloseLeft(fs, x)) == LeftKeys(fs) + Inorder(x)
    decreases |fs|
  {
    if fs != [] {
      var f := fs[|fs| - 1];
      CloseLeftInorder(fs[..|fs| - 1], Fork(f.sub, f.key, x));
    }
  }

  lemma {:induction false} CloseRightInorder(fs: seq<Frame>, x: Tree)
    ensures Inorder(CloseRight(fs, x)) == Inorder(x) + RightKeys(fs)
    decreases |fs|
  {
    if fs != [] {
      var f := fs[|fs| - 1];
      CloseRightInorder(fs[..|fs| - 1], Fork(x, f.key, f.sub));
    }
  }

  lemma PushLeft(fs: seq<Frame>, f: Frame)
    ensures LeftKeys(fs + [f]) == LeftKeys(fs) + (Inorder(f.sub) + [f.key])
  {
    assert (fs + [f])[..|fs|] == fs;
  }

  lemma PushRight(fs: seq<Frame>, f: Frame)
    ensures RightKeys(fs + [f]) == ([f.key] + Inorder(f.sub)) + RightKeys(fs)
  {
    assert (fs + [f])[..|fs|] == fs;
  }

  // ----- splaying

  /** The state of the splaying loop: what is smaller, the tree still to be searched, what is larger. */
  datatype State = State(small: seq<Frame>, tree: Tree, large: seq<Frame>)

  ghost function AllKeys(s: State): seq<int> {
    LeftKeys(s.small) + Inorder(s.tree) + RightKeys(s.large)
  }

  function RotateRight(t: Tree): Tree
    requires t.Fork? && t.left.Fork?
  {
    Fork(t.left.left, t.left.key, Fork(t.left.right, t.key, t.right))
  }

  function RotateLeft(t: Tree): Tree
    requires t.Fork? && t.right.Fork?
  {
    Fork(Fork(t.left, t.key, t.right.left), t.right.key, t.right.right)
  }

  /** The tree after the rotation that opens a step to the left, if there is one. */
  function ZigLeft(t: Tree, key: int): (u: Tree)
    requires t.Fork?
    ensures u.Fork? && Size(u) == Size(t) && Size(u.left) < Size(t)
  {
    assert t.left.Fork? ==> Size(t.left) == Size(t.left.left) + 1 + Size(t.left.right);
    if t.left.Fork? && key < t.left.key then RotateRight(t) else t
  }

  function ZigRight(t: Tree, key: int): (u: Tree)
    requires t.Fork?
    ensures u.Fork? && Size(u) == Size(t) && Size(u.right) < Size(t)
  {
    assert t.right.Fork? ==> Size(t.right) == Size(t.right.left) + 1 + Size(t.right.right);
    if t.right.Fork? && key > t.right.key then RotateLeft(t) else t
  }

  function LinkRight(s: State, t: Tree): State
    requires t.Fork?
  {
    State(s.small, t.left, s.large + [Frame(t.key, t.right)])
  }

  function LinkLeft(s: State, t: Tree): State
    requires t.Fork?
  {
    State(s.small + [Frame(t.key, t.left)], t.right, s.large)
  }

  function Size(t: Tree): nat {
    if t.Leaf? then 0 else Size(t.left) + 1 + Size(t.right)
  }

  /** Runs the loop to its end. */
  function Loop(s: State, key: int): (r: State)
    requires s.tree.Fork?
    ensures r.tree.Fork?
    decreases Size(s.tree)
  {
    if key < s.tree.key then
      var t := ZigLeft(s.tree, key);
      if t.left.Leaf? then s.(tree := t) else Loop(LinkRight(s, t), key)
    else if key > s.tree.key then
      var t := ZigRight(s.tree, key);
      if t.right.Leaf? then s.(tree := t) else Loop(LinkLeft(s, t), key)
    else s
  }

  /** How often the condition of the loop is tested. */
  function Rounds(t: Tree, key: int): nat
    decreases Size(t)
  {
    if t.Leaf? then 0
    else if key < t.key then 1 + Rounds(ZigLeft(t, key).left, key)
    else if key > t.key then 1 + Rounds(ZigRight(t, key).right, key)
    else 1
  }

  function Assemble(s: State): Tree
    requires s.tree.Fork?
  {
    Fork(CloseLeft(s.small, s.tree.left), s.tree.key, CloseRight(s.large, s.tree.right))
  }

  function Splay(t: Tree, key: int): Tree {
    if t.Leaf? then t else Assemble(Loop(State([], t, []), key))
  }

  lemma AssembleInorder(s: State)
    requires s.tree.Fork?
    ensures Inorder(Assemble(s)) == AllKeys(s)
  {
    hide CloseLeft, CloseRight, LeftKeys, RightKeys;
    CloseLeftInorder(s.small, s.tree.left);
    CloseRightInorder(s.large, s.tree.right);
  }

  lemma LinkRightKeeps(s: State, t: Tree)
    requires t.Fork? && Inorder(t) == Inorder(s.tree)
    ensures AllKeys(LinkRight(s, t)) == AllKeys(s)
  {
    var a, b, c, d := LeftKeys(s.small), Inorder(t.left), [t.key] + Inorder(t.right), RightKeys(s.large);
    PushRight(s.large, Frame(t.key, t.right));
    assert Inorder(t) == b + c;
    Regroup(a, b, c, d);
    assert AllKeys(LinkRight(s, t)) == a + b + (c + d);
  }

  lemma Regroup(a: seq<int>, b: seq<int>, c: seq<int>, d: seq<int>)
    ensures (a + (b + c)) + d == a + b + (c + d) == (a + b) + c + d
  {
  }

  lemma LinkLeftKeeps(s: State, t: Tree)
    requires t.Fork? && Inorder(t) == Inorder(s.tree)
    ensures AllKeys(LinkLeft(s, t)) == AllKeys(s)
  {
    var a, b, c, d := LeftKeys(s.small), Inorder(t.left) + [t.key], Inorder(t.right), RightKeys(s.large);
    PushLeft(s.small, Frame(t.key, t.left));
    assert Inorder(t) == b + c;
    Regroup(a, b, c, d);
  }

  lemma RotationKeeps(a: Tree, j: int, b: Tree, k: int, c: Tree)
    ensures Inorder(Fork(Fork(a, j, b), k, c)) == Inorder(Fork(a, j, Fork(b, k, c)))
  {
    var x, y, z := Inorder(a), Inorder(b), Inorder(c);
    assert Inorder(Fork(a, j, b)) == x + [j] + y;
    assert Inorder(Fork(b, k, c)) == y + [k] + z;
    assert (x + [j] + y) + [k] + z == x + [j] + (y + [k] + z);
  }

  lemma ZigKeeps(t: Tree, key: int)
    requires t.Fork?
    ensures Inorder(ZigLeft(t, key)) == Inorder(t) && Inorder(ZigRight(t, key)) == Inorder(t)
  {
    if t.left.Fork? {
      RotationKeeps(t.left.left, t.left.key, t.left.right, t.key, t.right);
    }
    if t.right.Fork? {
      RotationKeeps(t.left, t.key, t.right.left, t.right.key, t.right.right);
    }
  }

  /** Splaying keeps the in-order sequence. */
  lemma {:induction false} LoopKeeps(s: State, key: int)
    requires s.tree.Fork?
    ensures AllKeys(Loop(s, key)) == AllKeys(s)
    decreases Size(s.tree)
  {
    ZigKeeps(s.tree, key);
    if key < s.tree.key {
      var t := ZigLeft(s.tree, key);
      if t.left.Fork? {
        LinkRightKeeps(s, t);
        LoopKeeps(LinkRight(s, t), key);
      }
    } else if key > s.tree.key {
      var t := ZigRight(s.tree, key);
      if t.right.Fork? {
        LinkLeftKeeps(s, t);
        LoopKeeps(LinkLeft(s, t), key);
      }
    }
  }

  lemma SplayKeepsInorder(t: Tree, key: int)
    ensures Inorder(Splay(t, key)) == Inorder(t)
  {
    if t.Fork? {
      var s := State([], t, []);
      LoopKeeps(s, key);
      AssembleInorder(Loop(s, key));
    }
  }

  /** The left assembly tree holds smaller keys only, the right one larger keys only. */
  ghost predicate Split(s: State, key: int) {
    Increasing(AllKeys(s)) && AllBelow(LeftKeys(s.small), key) && AllAbove(RightKeys(s.large), key)
  }

  lemma SplitTree(s: State, key: int)
    requires Split(s, key) && s.tree.Fork?
    ensures Ordered(s.tree) && AllBelow(Inorder(s.tree.left), s.tree.key) && AllAbove(Inorder(s.tree.right), s.tree.key)
  {
    IncreasingParts(LeftKeys(s.small) + Inorder(s.tree), RightKeys(s.large));
    IncreasingParts(LeftKeys(s.small), Inorder(s.tree));
    OrderedFork(s.tree.left, s.tree.key, s.tree.right);
  }

  lemma LinkRightSplit(s: State, t: Tree, key: int)
    requires Split(s, key) && t.Fork? && Inorder(t) == Inorder(s.tree) && key < t.key
    ensures Split(LinkRight(s, t), key)
  {
    LinkRightKeeps(s, t);
    var s' := s.(tree := t);
    SplitTree(s', key);
    PushRight(s.large, Frame(t.key, t.right));
  }

  lemma LinkLeftSplit(s: State, t: Tree, key: int)
    requires Split(s, key) && t.Fork? && Inorder(t) == Inorder(s.tree) && key > t.key
    ensures Split(LinkLeft(s, t), key)
  {
    LinkLeftKeeps(s, t);
    var s' := s.(tree := t);
    SplitTree(s', key);
    PushLeft(s.small, Frame(t.key, t.left));
  }

  /** Where the loop may stop: at the key, or where the key would have to be below an empty child. */
  ghost predicate Stopped(t: Tree, key: int) {
    t.Fork? && (key < t.key ==> t.left.Leaf?) && (key > t.key ==> t.right.Leaf?)
  }

  lemma {:induction false} LoopSplits(s: State, key: int)
    requires s.tree.Fork? && Split(s, key)
    ensures var r := Loop(s, key); Split(r, key) && Stopped(r.tree, key)
    decreases Size(s.tree)
  {
    ZigKeeps(s.tree, key);
    SplitTree(s, key);
    if key < s.tree.key {
      var t := ZigLeft(s.tree, key);
      if t.left.Fork? {
        LinkRightSplit(s, t, key);
        LoopSplits(LinkRight(s, t), key);
      }
    } else if key > s.tree.key {
      var t := ZigRight(s.tree, key);
      if t.right.Fork? {
        LinkLeftSplit(s, t, key);
        LoopSplits(LinkLeft(s, t), key);
      }
    }
  }

  /** The splayed root is the key if it is there, and a neighbour of its place if it is not. */
  lemma SplayFinds(t: Tree, key: int)
    requires t.Fork? && Ordered(t)
    ensures var u := Splay(t, key);
            && u.Fork? && Ordered(u)
            && (key in Inorder(t) <==> u.key == key)
            && forall k :: k in Inorder(t) ==> !(key < k < u.key) && !(u.key < k < key)
  {
    var s := State([], t, []);
    var r := Loop(s, key);
    assert AllKeys(s) == Inorder(t);
    LoopSplits(s, key);
    LoopKeeps(s, key);
    SplitTree(r, key);
    SplayKeepsInorder(t, key);
    forall k | k in Inorder(t)
      ensures k < key || key < k || k == r.tree.key
      ensures !(key < k < r.tree.key) && !(r.tree.key < k < key)
    {
      assert k in LeftKeys(r.small) || k in Inorder(r.tree) || k in RightKeys(r.large);
      SplitOutside(r, key, k);
    }
    assert r.tree.key in Inorder(r.tree);
  }

  lemma SplitOutside(r: State, key: int, k: int)
    requires Split(r, key) && r.tree.Fork?
    ensures k in LeftKeys(r.small) ==> k < r.tree.key
    ensures k in RightKeys(r.large) ==> r.tree.key < k
  {
    var a, b, c := LeftKeys(r.small), Inorder(r.tree), RightKeys(r.large);
    IncreasingParts(a + b, c);
    IncreasingParts(a, b);
    assert r.tree.key in b;
    if k in a {
      assert k < r.tree.key;
    }
    assert r.tree.key in a + b;
  }

  // ----- insertion and removal

  /** Insertion at a leaf, without splaying; nothing happens if the key is there. */
  function InsertNode(t: Tree, key: int): Tree {
    if t.Leaf? then Fork(Leaf, key, Leaf)
    else if key < t.key then Fork(InsertNode(t.left, key), t.key, t.right)
    else if key > t.key then Fork(t.left, t.key, InsertNode(t.right, key))
    else t
  }

  lemma {:induction false} InsertNodeOrder(t: Tree, key: int)
    requires Ordered(t)
    ensures Ordered(InsertNode(t, key))
    ensures forall k :: k in Inorder(InsertNode(t, key)) <==> k in Inorder(t) || k == key
  {
    if t.Leaf? {
      assert Inorder(InsertNode(t, key)) == [key];
    } else {
      OrderedFork(t.left, t.key, t.right);
      if key < t.key {
        InsertNodeOrder(t.left, key);
        OrderedFork(InsertNode(t.left, key), t.key, t.right);
      } else if key > t.key {
        InsertNodeOrder(t.right, key);
        OrderedFork(t.left, t.key, InsertNode(t.right, key));
      }
    }
  }

  /** The tree around the end of a walk: the nodes left behind, and whether the walk went right at each. */
  function Around(fs: seq<Frame>, rights: seq<bool>, v: Tree): Tree
    requires |fs| == |rights|
    decreases |fs|
  {
    if fs == [] then v
    else
      var n := |fs| - 1;
      Around(fs[..n], rights[..n], if rights[n] then Fork(fs[n].sub, fs[n].key, v) else Fork(v, fs[n].key, fs[n].sub))
  }

  /** The walk goes right exactly where the key is larger, and never meets the key. */
  ghost predicate Follows(fs: seq<Frame>, rights: seq<bool>, key: int) {
    |fs| == |rights| && forall i :: 0 <= i < |fs| ==> if rights[i] then fs[i].key < key else key < fs[i].key
  }

  /** Inserting at the end of the walk is inserting into the whole tree. */
  lemma {:induction false} InsertAround(fs: seq<Frame>, rights: seq<bool>, v: Tree, key: int)
    requires Follows(fs, rights, key)
    ensures InsertNode(Around(fs, rights, v), key) == Around(fs, rights, InsertNode(v, key))
    decreases |fs|
  {
    if fs != [] {
      var n := |fs| - 1;
      var u := if rights[n] then Fork(fs[n].sub, fs[n].key, v) else Fork(v, fs[n].key, fs[n].sub);
      assert Follows(fs[..n], rights[..n], key);
      InsertAround(fs[..n], rights[..n], u, key);
    }
  }

  function Insert(t: Tree, key: int): Tree {
    Splay(InsertNode(t, key), key)
  }

  /** Insertion adds exactly the key and brings it to the root. */
  lemma InsertAddsAtRoot(t: Tree, key: int)
    requires Ordered(t)
    ensures var u := Insert(t, key);
            && u.Fork? && Ordered(u) && u.key == key
            && forall k :: k in Inorder(u) <==> k in Inorder(t) || k == key
  {
    InsertNodeOrder(t, key);
    SplayFinds(InsertNode(t, key), key);
    SplayKeepsInorder(InsertNode(t, key), key);
  }

  /** How many nodes a search for the key looks at. */
  function Walk(t: Tree, key: int): nat {
    if t.Leaf? then 0
    else if key < t.key then 1 + Walk(t.left, key)
    else if key > t.key then 1 + Walk(t.right, key)
    else 1
  }

  predicate Search(t: Tree, key: int) {
    if t.Leaf? then false
    else t.key == key || Search(if key < t.key then t.left else t.right, key)
  }

  lemma {:induction false} SearchFinds(t: Tree, key: int)
    requires Ordered(t)
    ensures Search(t, key) <==> key in Inorder(t)
  {
    if t.Fork? {
      OrderedFork(t.left, t.key, t.right);
      SearchFinds(t.left, key);
      SearchFinds(t.right, key);
    }
  }

  /** Splaying for a key above all others never links to the right and ends without a right child. */
  lemma {:induction false} LoopOnlyRight(s: State, key: int)
    requires s.tree.Fork? && s.large == [] && AllBelow(Inorder(s.tree), key)
    ensures var r := Loop(s, key); r.large == [] && r.tree.right.Leaf?
    decreases Size(s.tree)
  {
    assert s.tree.key in Inorder(s.tree);
    var t := ZigRight(s.tree, key);
    ZigKeeps(s.tree, key);
    if s.tree.right.Fork? {
      assert s.tree.right.key in Inorder(s.tree.right);
      assert s.tree.right.key in Inorder(s.tree);
    }
    if t.right.Fork? {
      assert forall k :: k in Inorder(t.right) ==> k in Inorder(t);
      LoopOnlyRight(LinkLeft(s, t), key);
    }
  }

  lemma SplayToGreatest(t: Tree, key: int)
    requires t.Fork? && AllBelow(Inorder(t), key)
    ensures Splay(t, key).Fork? && Splay(t, key).right.Leaf?
  {
    LoopOnlyRight(State([], t, []), key);
  }

  function Remove(t: Tree, key: int): Tree {
    if t.Leaf? || !Search(t, key) then t
    else
      var root := Splay(t, key);
      if root.left.Fork? then
        var x := Splay(root.left, key);
        Fork(x.left, x.key, root.right)
      else root.right
  }

  /** Removal takes exactly the key out of the in-order sequence. Overwriting the right child of the splayed left
      part loses nothing, because that child is empty. */
  lemma RemoveTakesOut(t: Tree, key: int)
    requires Ordered(t)
    ensures Ordered(Remove(t, key))
    ensures key !in Inorder(t) ==> Remove(t, key) == t
    ensures forall i :: 0 <= i < |Inorder(t)| && Inorder(t)[i] == key ==>
              Inorder(Remove(t, key)) == Inorder(t)[..i] + Inorder(t)[i + 1..]
  {
    SearchFinds(t, key);
    if key in Inorder(t) {
      SplayFinds(t, key);
      SplayKeepsInorder(t, key);
      var root := Splay(t, key);
      var a, b := Inorder(root.left), Inorder(root.right);
      OrderedFork(root.left, root.key, root.right);
      if root.left.Fork? {
        SplayToGreatest(root.left, key);
        SplayKeepsInorder(root.left, key);
      }
      assert Inorder(Remove(t, key)) == a + b;
      RemoveFromIncreasing(a, key, b);
      assert Inorder(t) == a + [key] + b;
    }
  }

  lemma RemoveFromIncreasing(a: seq<int>, key: int, b: seq<int>)
    requires Increasing(a + [key] + b)
    ensures Increasing(a + b)
    ensures var w := a + [key] + b; forall i :: 0 <= i < |w| && w[i] == key ==> w[..i] + w[i + 1..] == a + b
  {
    var w := a + [key] + b;
    assert w[|a|] == key;
    forall i, j | 0 <= i < j < |a + b|
      ensures (a + b)[i] < (a + b)[j]
    {
      var i', j' := if i < |a| then i else i + 1, if j < |a| then j else j + 1;
      assert w[i'] < w[j'];
    }
    forall i | 0 <= i < |w| && w[i] == key
      ensures w[..i] + w[i + 1..] == a + b
    {
      assert i == |a|;
    }
  }
}
