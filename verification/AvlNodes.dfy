/** The AVL operations as the source performs them: on linked nodes, rewriting their fields in place.
    Each method is proved to compute exactly the corresponding function on tree values. */
module AvlNodes {
  import opened AvlTree

  class Node {
    var key: int
    var left: Node?
    var right: Node?
    var height: int

    constructor (key: int)
      ensures this.key == key && left == null && right == null && height == 0
    {
      this.key, left, right, height := key, null, null, 0;
    }
  }

  /** Which nodes make up a tree. */
  datatype Shape = Nil | At(node: Node, left: Shape, right: Shape)

  ghost function Root(s: Shape): Node? {
    if s.Nil? then null else s.node
  }

  ghost function Nodes(s: Shape): set<Node> {
    if s.Nil? then {} else Nodes(s.left) + {s.node} + Nodes(s.right)
  }

  /** The nodes are linked as the shape says, without sharing. */
  ghost predicate Laid(s: Shape)
    reads Nodes(s)
  {
    s.At? ==>
      && s.node.left == Root(s.left) && s.node.right == Root(s.right)
      && s.node !in Nodes(s.left) && s.node !in Nodes(s.right) && Nodes(s.left) !! Nodes(s.right)
      && Laid(s.left) && Laid(s.right)
  }

  /** The tree value that the nodes hold. */
  ghost function Value(s: Shape): Tree
    reads Nodes(s)
  {
    if s.Nil? then Leaf else Fork(Value(s.left), s.node.key, s.node.height, Value(s.right))
  }

  function GetHeight(root: Node?): int
    reads root
  {
    if root == null then 0 else root.height
  }

  method FixHeight(node: Node, ghost s: Shape)
    requires s.At? && s.node == node && Laid(s)
    modifies node`height
    ensures Laid(s) && Value(s) == Join(old(Value(s.left)), node.key, old(Value(s.right)))
  {
    node.height := Max(GetHeight(node.left), GetHeight(node.right)) + 1;
  }

  method LeftLeftRotation(k2: Node, ghost s: Shape, ghost t: Tree) returns (k1: Node, ghost s': Shape)
    requires Laid(s) && Root(s) == k2 && Value(s) == t && t.Fork? && t.left.Fork?
    modifies k2, k2.left
    ensures Laid(s') && Root(s') == k1 && Nodes(s') == Nodes(s)
    ensures Value(s') == LeftLeft(t)
  {
    ghost var l, r := s.left, s.right;
    assert Laid(l) && Value(l) == t.left && Nodes(l) == Nodes(l.left) + {l.node} + Nodes(l.right);
    k1 := k2.left;
    k2.left := k1.right;
    k1.right := k2;
    assert Laid(l.left) && Laid(l.right) && Laid(r);
    assert Value(l.left) == t.left.left && Value(l.right) == t.left.right && Value(r) == t.right;
    ghost var inner := At(k2, l.right, r);
    assert allocated(Nodes(l.left));
    FixHeight(k2, inner);
    s' := At(k1, l.left, inner);
    assert Laid(l.left) && Value(l.left) == t.left.left;
    FixHeight(k1, s');
  }

  method RightRightRotation(k1: Node, ghost s: Shape, ghost t: Tree) returns (k2: Node, ghost s': Shape)
    requires Laid(s) && Root(s) == k1 && Value(s) == t && t.Fork? && t.right.Fork?
    modifies k1, k1.right
    ensures Laid(s') && Root(s') == k2 && Nodes(s') == Nodes(s)
    ensures Value(s') == RightRight(t)
  {
    ghost var l, r := s.left, s.right;
    assert Laid(r) && Value(r) == t.right && Nodes(r) == Nodes(r.left) + {r.node} + Nodes(r.right);
    k2 := k1.right;
    k1.right := k2.left;
    k2.left := k1;
    assert Laid(r.left) && Laid(r.right) && Laid(l);
    assert Value(r.left) == t.right.left && Value(r.right) == t.right.right && Value(l) == t.left;
    ghost var inner := At(k1, l, r.left);
    assert allocated(Nodes(r.right));
    FixHeight(k1, inner);
    s' := At(k2, inner, r.right);
    assert Laid(r.right) && Value(r.right) == t.right.right;
    FixHeight(k2, s');
  }

  method LeftRightRotation(k3: Node, ghost s: Shape, ghost t: Tree) returns (k: Node, ghost s': Shape)
    requires Laid(s) && Root(s) == k3 && Value(s) == t && t.Fork? && t.left.Fork? && t.left.right.Fork?
    modifies Nodes(s)
    ensures Laid(s') && Root(s') == k && Nodes(s') == Nodes(s)
    ensures Value(s') == LeftRight(t)
  {
    ghost var l := s.left;
    assert Laid(l) && Value(l) == t.left && Nodes(l) == Nodes(l.left) + {l.node} + Nodes(l.right);
    var kl;
    ghost var sl;
    assert allocated(Nodes(s.right));
    kl, sl := RightRightRotation(k3.left, l, t.left);
    assert Laid(s.right) && Value(s.right) == t.right;
    k3.left := kl;
    assert Laid(sl) && Value(sl) == RightRight(t.left);
    assert Laid(s.right) && Value(s.right) == t.right;
    k, s' := LeftLeftRotation(k3, At(k3, sl, s.right), Fork(RightRight(t.left), t.key, t.height, t.right));
  }

  method RightLeftRotation(k1: Node, ghost s: Shape, ghost t: Tree) returns (k: Node, ghost s': Shape)
    requires Laid(s) && Root(s) == k1 && Value(s) == t && t.Fork? && t.right.Fork? && t.right.left.Fork?
    modifies Nodes(s)
    ensures Laid(s') && Root(s') == k && Nodes(s') == Nodes(s)
    ensures Value(s') == RightLeft(t)
  {
    ghost var r := s.right;
    assert Laid(r) && Value(r) == t.right && Nodes(r) == Nodes(r.left) + {r.node} + Nodes(r.right);
    var kr;
    ghost var sr;
    assert allocated(Nodes(s.left));
    kr, sr := LeftLeftRotation(k1.right, r, t.right);
    assert Laid(s.left) && Value(s.left) == t.left;
    k1.right := kr;
    assert Laid(sr) && Value(sr) == LeftLeft(t.right);
    assert Laid(s.left) && Value(s.left) == t.left;
    k, s' := RightRightRotation(k1, At(k1, s.left, sr), Fork(t.left, t.key, t.height, LeftLeft(t.right)));
  }

  /** Allocates a node for a new key, or inserts into a subtree and restores the balance on the way back. */
  method InsertNode(root: Node?, key: int, ghost s: Shape, ghost t: Tree) returns (r: Node, ghost s': Shape)
    requires Laid(s) && Root(s) == root && Value(s) == t && Valid(t)
    modifies Nodes(s)
    ensures Laid(s') && Root(s') == r && Value(s') == Insert(t, key)
    ensures fresh(Nodes(s') - Nodes(s))
    decreases s
  {
    if root == null {
      r := new Node(key);
      s' := At(r, Nil, Nil);
      FixHeight(r, s');
    } else if key < root.key {
      r, s' := InsertInLeft(root, key, s, t);
    } else if key > root.key {
      r, s' := InsertInRight(root, key, s, t);
    } else {
      r, s' := root, s;
      FixHeight(root, s);
    }
  }

  method InsertInLeft(root: Node, key: int, ghost s: Shape, ghost t: Tree) returns (r: Node, ghost s': Shape)
    requires Laid(s) && Root(s) == root && Value(s) == t && Valid(t) && t.Fork? && key < t.key
    modifies Nodes(s)
    ensures Laid(s') && Root(s') == r && Value(s') == Insert(t, key)
    ensures fresh(Nodes(s') - Nodes(s))
    decreases s, 0
  {
    var l;
    ghost var sl;
    ghost var u := Insert(t.left, key);
    assert allocated(Nodes(s.right));
    l, sl := InsertNode(root.left, key, s.left, t.left);
    assert Laid(s.right) && Value(s.right) == t.right;
    root.left := l;
    assert Laid(s.right) && Value(s.right) == t.right && Laid(sl) && Value(sl) == u;
    InsertLeft(t, u, key);
    r, s' := RepairLeft(root, key, At(root, sl, s.right), u, t.key, t.height, t.right);
  }

  method InsertInRight(root: Node, key: int, ghost s: Shape, ghost t: Tree) returns (r: Node, ghost s': Shape)
    requires Laid(s) && Root(s) == root && Value(s) == t && Valid(t) && t.Fork? && key > t.key
    modifies Nodes(s)
    ensures Laid(s') && Root(s') == r && Value(s') == Insert(t, key)
    ensures fresh(Nodes(s') - Nodes(s))
    decreases s, 0
  {
    var rr;
    ghost var sr;
    ghost var u := Insert(t.right, key);
    assert allocated(Nodes(s.left));
    rr, sr := InsertNode(root.right, key, s.right, t.right);
    assert Laid(s.left) && Value(s.left) == t.left;
    root.right := rr;
    assert Laid(s.left) && Value(s.left) == t.left && Laid(sr) && Value(sr) == u;
    InsertRight(t, u, key);
    r, s' := RepairRight(root, key, At(root, s.left, sr), t.left, t.key, t.height, u);
  }

  method RepairLeft(root: Node, key: int, ghost s: Shape, ghost l: Tree, ghost k: int, ghost h: int, ghost r: Tree)
    returns (top: Node, ghost s': Shape)
    requires Laid(s) && Root(s) == root && Value(s) == Fork(l, k, h, r) && l.Fork?
    requires Height(l) - Height(r) > 1 && key >= l.key ==> l.right.Fork?
    modifies Nodes(s)
    ensures Laid(s') && Root(s') == top && Nodes(s') == Nodes(s)
    ensures Value(s') == FixLeft(l, k, h, r, key)
  {
    top, s' := root, s;
    ghost var t := Fork(l, k, h, r);
    assert Value(s.left) == l && Value(s.right) == r;
    if root.left != null && GetHeight(root.left) - GetHeight(root.right) > 1 {
      if key < root.left.key {
        top, s' := LeftLeftRotation(root, s, t);
      } else {
        top, s' := LeftRightRotation(root, s, t);
      }
    }
    FixHeight(top, s');
  }

  method RepairRight(root: Node, key: int, ghost s: Shape, ghost l: Tree, ghost k: int, ghost h: int, ghost r: Tree)
    returns (top: Node, ghost s': Shape)
    requires Laid(s) && Root(s) == root && Value(s) == Fork(l, k, h, r) && r.Fork?
    requires Height(l) - Height(r) < -1 && key <= r.key ==> r.left.Fork?
    modifies Nodes(s)
    ensures Laid(s') && Root(s') == top && Nodes(s') == Nodes(s)
    ensures Value(s') == FixRight(l, k, h, r, key)
  {
    top, s' := root, s;
    ghost var t := Fork(l, k, h, r);
    assert Value(s.left) == l && Value(s.right) == r;
    if root.right != null && GetHeight(root.left) - GetHeight(root.right) < -1 {
      if key > root.right.key {
        top, s' := RightRightRotation(root, s, t);
      } else {
        top, s' := RightLeftRotation(root, s, t);
      }
    }
    FixHeight(top, s');
  }

  method RebalanceNode(root: Node, ghost s: Shape, ghost t: Tree) returns (top: Node, ghost s': Shape)
    requires Laid(s) && Root(s) == root && Value(s) == t && t.Fork?
    requires Balanced(t.left) && Balanced(t.right) && -2 <= Height(t.left) - Height(t.right) <= 2
    modifies Nodes(s)
    ensures Laid(s') && Root(s') == top && Nodes(s') == Nodes(s)
    ensures Value(s') == Rebalance(t)
  {
    top, s' := root, s;
    assert Value(s.left) == t.left && Value(s.right) == t.right;
    FixHeight(root, s);
    ghost var x := Join(t.left, t.key, t.right);
    assert Value(s) == x && Value(s.left) == t.left && Value(s.right) == t.right;
    var balance := GetHeight(root.left) - GetHeight(root.right);
    if balance > 1 {
      LeftHeavy(x);
      var l := root.left;
      ChildHeights(s.left, t.left);
      if GetHeight(l.right) > GetHeight(l.left) {
        top, s' := LeftRightRotation(root, s, x);
      } else {
        top, s' := LeftLeftRotation(root, s, x);
      }
    } else if balance < -1 {
      RightHeavy(x);
      var r := root.right;
      ChildHeights(s.right, t.right);
      if GetHeight(r.left) > GetHeight(r.right) {
        top, s' := RightLeftRotation(root, s, x);
      } else {
        top, s' := RightRightRotation(root, s, x);
      }
    }
  }

  lemma ChildHeights(s: Shape, t: Tree)
    requires Laid(s) && Value(s) == t && t.Fork?
    ensures GetHeight(s.node.left) == Height(t.left) && GetHeight(s.node.right) == Height(t.right)
  {
    assert Value(s.left) == t.left && Value(s.right) == t.right;
  }

  method GetMinimum(root: Node, ghost s: Shape, ghost t: Tree) returns (min: Node)
    requires Laid(s) && Root(s) == root && Value(s) == t && t.Fork?
    ensures min in Nodes(s) && min.key == Least(t)
  {
    min := root;
    ghost var x, v := s, t;
    while min.left != null
      invariant Laid(x) && Root(x) == min && Value(x) == v && v.Fork? && Nodes(x) <= Nodes(s)
      invariant Least(v) == Least(t)
      decreases x
    {
      min := min.left;
      x, v := x.left, v.left;
    }
  }

  method GetMaximum(root: Node, ghost s: Shape, ghost t: Tree) returns (max: Node)
    requires Laid(s) && Root(s) == root && Value(s) == t && t.Fork?
    ensures max in Nodes(s) && max.key == Greatest(t)
  {
    max := root;
    ghost var x, v := s, t;
    while max.right != null
      invariant Laid(x) && Root(x) == max && Value(x) == v && v.Fork? && Nodes(x) <= Nodes(s)
      invariant Greatest(v) == Greatest(t)
      decreases x
    {
      max := max.right;
      x, v := x.right, v.right;
    }
  }

  /** Removes a key from a subtree; the nodes that remain are nodes that were there. */
  method RemoveFrom(root: Node?, key: int, ghost s: Shape, ghost t: Tree) returns (r: Node?, ghost s': Shape)
    requires Laid(s) && Root(s) == root && Value(s) == t && Valid(t)
    modifies Nodes(s)
    ensures Laid(s') && Root(s') == r && Value(s') == RemoveNode(t, key) && Nodes(s') <= Nodes(s)
    decreases s
  {
    if root == null {
      return null, Nil;
    }
    if key < root.key {
      r, s' := RemoveInLeft(root, key, root.key, s, t);
    } else if key > root.key {
      r, s' := RemoveInRight(root, key, root.key, s, t);
    } else if root.left != null && root.right != null {
      if GetHeight(root.left) > GetHeight(root.right) {
        assert allocated(Nodes(s));
        var max := GetMaximum(root.left, s.left, t.left);
        r, s' := RemoveInLeft(root, max.key, max.key, s, t);
      } else {
        assert allocated(Nodes(s));
        var min := GetMinimum(root.right, s.right, t.right);
        r, s' := RemoveInRight(root, min.key, min.key, s, t);
      }
    } else {
      r := if root.left != null then root.left else root.right;
      s' := if root.left != null then s.left else s.right;
      ghost var u := if t.left.Fork? then t.left else t.right;
      ReplacedByChild(t, u);
      assert Value(s') == u;
      if r != null {
        r, s' := RebalanceNode(r, s', u);
      }
    }
  }

  /** Gives the root a key, removes one from its left subtree, and restores the balance. */
  method RemoveInLeft(root: Node, key: int, newKey: int, ghost s: Shape, ghost t: Tree) returns (r: Node, ghost s': Shape)
    requires Laid(s) && Root(s) == root && Value(s) == t && Valid(t) && t.Fork?
    requires -2 <= Height(RemoveNode(t.left, key)) - Height(t.right) <= 2
    modifies Nodes(s)
    ensures Laid(s') && Root(s') == r && Nodes(s') <= Nodes(s)
    ensures Value(s') == Rebalance(Fork(RemoveNode(t.left, key), newKey, t.height, t.right))
    decreases s, 0
  {
    root.key := newKey;
    assert Laid(s.left) && Value(s.left) == t.left && Laid(s.right) && Value(s.right) == t.right;
    var l;
    ghost var sl;
    assert allocated(Nodes(s.right));
    l, sl := RemoveFrom(root.left, key, s.left, t.left);
    assert Laid(s.right) && Value(s.right) == t.right;
    root.left := l;
    assert Laid(s.right) && Value(s.right) == t.right && Laid(sl) && Value(sl) == RemoveNode(t.left, key);
    r, s' := RebalanceNode(root, At(root, sl, s.right), Fork(RemoveNode(t.left, key), newKey, t.height, t.right));
  }

  method RemoveInRight(root: Node, key: int, newKey: int, ghost s: Shape, ghost t: Tree) returns (r: Node, ghost s': Shape)
    requires Laid(s) && Root(s) == root && Value(s) == t && Valid(t) && t.Fork?
    requires -2 <= Height(t.left) - Height(RemoveNode(t.right, key)) <= 2
    modifies Nodes(s)
    ensures Laid(s') && Root(s') == r && Nodes(s') <= Nodes(s)
    ensures Value(s') == Rebalance(Fork(t.left, newKey, t.height, RemoveNode(t.right, key)))
    decreases s, 0
  {
    root.key := newKey;
    assert Laid(s.left) && Value(s.left) == t.left && Laid(s.right) && Value(s.right) == t.right;
    var rr;
    ghost var sr;
    assert allocated(Nodes(s.left));
    rr, sr := RemoveFrom(root.right, key, s.right, t.right);
    assert Laid(s.left) && Value(s.left) == t.left;
    root.right := rr;
    assert Laid(s.left) && Value(s.left) == t.left && Laid(sr) && Value(sr) == RemoveNode(t.right, key);
    r, s' := RebalanceNode(root, At(root, s.left, sr), Fork(t.left, newKey, t.height, RemoveNode(t.right, key)));
  }

  method SearchNode(root: Node?, key: int, ghost s: Shape, ghost t: Tree) returns (found: Node?)
    requires Laid(s) && Root(s) == root && Value(s) == t && Ordered(t)
    ensures found != null <==> Search(t, key)
    ensures found != null ==> found in Nodes(s) && found.key == key
    decreases s
  {
    if root == null {
      return null;
    }
    if root.key == key {
      return root;
    }
    if key < root.key {
      found := SearchNode(root.left, key, s.left, t.left);
    } else {
      found := SearchNode(root.right, key, s.right, t.right);
    }
  }

  /** The tree object: the root field that the operations reassign. */
  class AVLTree {
    var root: Node?
    ghost var shape: Shape

    ghost function Repr(): set<object>
      reads this
    {
      {this} + Nodes(shape)
    }

    ghost predicate Ok()
      reads this, Nodes(shape)
    {
      Laid(shape) && Root(shape) == root && Valid(Value(shape))
    }

    constructor ()
      ensures Ok() && Value(shape) == Leaf && fresh(Repr())
    {
      root, shape := null, Nil;
    }

    /** Adds a key in place; the stored tree is the one the value-level insertion computes. */
    method Add(key: int)
      requires Ok()
      modifies this, Nodes(shape)
      ensures Ok() && fresh(Repr() - old(Repr()))
      ensures Value(shape) == Insert(old(Value(shape)), key)
      ensures Keys(Value(shape)) == Keys(old(Value(shape))) + {key}
    {
      var r;
      ghost var s;
      r, s := InsertNode(root, key, shape, Value(shape));
      root, shape := r, s;
    }

    method Delete(key: int)
      requires Ok()
      modifies this, Nodes(shape)
      ensures Ok() && Repr() <= old(Repr())
      ensures Value(shape) == Remove(old(Value(shape)), key)
      ensures Keys(Value(shape)) == Keys(old(Value(shape))) - {key}
    {
      ghost var t := Value(shape);
      assert allocated(Nodes(shape));
      var z := SearchNode(root, key, shape, t);
      if z != null {
        var r;
        ghost var s;
        r, s := RemoveFrom(root, z.key, shape, t);
        root, shape := r, s;
      }
    }

    method Find(key: int) returns (found: bool)
      requires Ok()
      ensures found <==> key in Keys(Value(shape))
    {
      ghost var t := Value(shape);
      assert allocated(Nodes(shape));
      var z := SearchNode(root, key, shape, t);
      found := z != null;
    }
  }
}
