/** The two heaps as the source keeps them: linked nodes whose fields `mergeNode` rewrites in place. */
module HeapNodes {
  import opened MergeableHeaps

  /** Skew nodes have no null path length; `npl` stays as it is in them. */
  class Cell {
    var key: int
    var left: Cell?
    var right: Cell?
    var npl: int

    constructor (key: int)
      ensures this.key == key && left == null && right == null && npl == 0
    {
      this.key, left, right, npl := key, null, null, 0;
    }
  }

  /** Which nodes make up a heap. */
  datatype Shape = Nil | At(node: Cell, left: Shape, right: Shape)

  ghost function Root(s: Shape): Cell? {
    if s.Nil? then null else s.node
  }

  ghost function Nodes(s: Shape): set<Cell> {
    if s.Nil? then {} else Nodes(s.left) + {s.node} + Nodes(s.right)
  }

  /** The nodes are linked as the shape says, without sharing. */
  ghost predicate Laid(s: Shape)
    reads Nodes(s)
  {
    s.At? ==>
      && s.node.left == Root(s.left) && s.node.right == Root(s.right)
      && s.node !in Nodes(s.left) && s.node !in Nodes(s.right) && Nodes(s.left) !! Nodes(s.right)
      && Laid(s.left) && Laid(s.right)
  }

  ghost function Value(s: Shape): Heap
    reads Nodes(s)
  {
    if s.Nil? then Empty else Node(Value(s.left), s.node.key, s.node.npl, Value(s.right))
  }

  ghost predicate Holds(s: Shape, root: Cell?, t: Heap)
    reads Nodes(s)
  {
    Laid(s) && Root(s) == root && Value(s) == t
  }

  lemma Parts(s: Shape, root: Cell, t: Heap)
    requires Holds(s, root, t)
    ensures s.At? && s.node == root && t.Node? && t.key == root.key && t.npl == root.npl
    ensures Holds(s.left, root.left, t.left) && Holds(s.right, root.right, t.right)
    ensures Nodes(s) == Nodes(s.left) + {root} + Nodes(s.right)
    ensures root !in Nodes(s.left) && root !in Nodes(s.right) && Nodes(s.left) !! Nodes(s.right)
  {
  }

  lemma Single(node: Cell)
    requires node.left == null && node.right == null
    ensures Holds(At(node, Nil, Nil), node, Node(Empty, node.key, node.npl, Empty)) && Nodes(At(node, Nil, Nil)) == {node}
    ensures var n := Node(Empty, node.key, 0, Empty); HeapOrder(n) && Leftist(n) && Keys(n) == multiset{node.key}
  {
  }

  lemma NothingHeld()
    ensures Holds(Nil, null, Empty) && Value(Nil) == Empty && HeapOrder(Empty) && Leftist(Empty)
  {
  }

  lemma NoRoot(s: Shape, t: Heap)
    requires Holds(s, null, t)
    ensures t == Empty
  {
  }

  lemma HeldValue(s: Shape, root: Cell?, t: Heap)
    requires Holds(s, root, t)
    ensures Value(s) == t
  {
  }

  // ----- leftist

  method MergeNode(d: Cell?, s: Cell?, ghost ds: Shape, ghost ss: Shape, ghost dt: Heap, ghost st: Heap)
    returns (m: Cell?, ghost ms: Shape)
    requires Holds(ds, d, dt) && Holds(ss, s, st) && Nodes(ds) !! Nodes(ss)
    modifies Nodes(ds), Nodes(ss)
    ensures Holds(ms, m, Merge(dt, st)) && Nodes(ms) == Nodes(ds) + Nodes(ss)
    decreases Size(dt) + Size(st), 1
  {
    if d == null {
      m, ms := s, ss;
    } else if s == null {
      m, ms := d, ds;
    } else {
      Parts(ds, d, dt);
      Parts(ss, s, st);
      if d.key > s.key {
        m, ms := MergeInto(s, d, ss, ds, st, dt);
      } else {
        m, ms := MergeInto(d, s, ds, ss, dt, st);
      }
    }
  }

  method MergeInto(d: Cell, s: Cell, ghost ds: Shape, ghost ss: Shape, ghost dt: Heap, ghost st: Heap)
    returns (m: Cell, ghost ms: Shape)
    requires Holds(ds, d, dt) && Holds(ss, s, st) && Nodes(ds) !! Nodes(ss) && dt.Node?
    modifies Nodes(ds), Nodes(ss)
    ensures Merge(dt.right, st).Node?
    ensures Holds(ms, m, Leaning(dt.left, dt.key, Merge(dt.right, st))) && Nodes(ms) == Nodes(ds) + Nodes(ss)
    decreases Size(dt) + Size(st), 0
  {
    hide Merge, Leaning, Laid, Value;
    Parts(ds, d, dt);
    assert allocated(Nodes(ds.left));
    var r;
    ghost var rs;
    SomeNode(ss, s, st);
    r, rs := MergeNode(d.right, s, ds.right, ss, dt.right, st);
    ms := Lean(d, r, ds.left, rs, dt.left, Merge(dt.right, st));
    m := d;
  }

  lemma SomeNode(s: Shape, root: Cell, t: Heap)
    requires Holds(s, root, t)
    ensures t.Node?
  {
  }

  /** The merged part becomes the right child, and the node is brought in order. */
  method Lean(d: Cell, r: Cell?, ghost ls: Shape, ghost rs: Shape, ghost lt: Heap, ghost rt: Heap) returns (ghost ms: Shape)
    requires Holds(ls, d.left, lt) && Holds(rs, r, rt) && rt.Node?
    requires d !in Nodes(ls) && d !in Nodes(rs) && Nodes(ls) !! Nodes(rs)
    modifies d
    ensures Holds(ms, d, Leaning(lt, old(d.key), rt)) && Nodes(ms) == Nodes(ls) + {d} + Nodes(rs)
  {
    d.right := r;
    assert Holds(ls, d.left, lt) && Holds(rs, d.right, rt);
    if d.left == null || d.left.npl < d.right.npl {
      d.left, d.right := d.right, d.left;
      ms := At(d, rs, ls);
    } else {
      ms := At(d, ls, rs);
    }
    assert Laid(ls) && Laid(rs) && Value(ls) == lt && Value(rs) == rt;
    if d.right == null || d.left == null {
      d.npl := 0;
    } else {
      d.npl := if d.right.npl < d.left.npl then d.right.npl + 1 else d.left.npl + 1;
    }
    assert Laid(ls) && Laid(rs) && Value(ls) == lt && Value(rs) == rt;
  }

  // ----- skew

  method SkewMergeNode(d: Cell?, s: Cell?, ghost ds: Shape, ghost ss: Shape, ghost dt: Heap, ghost st: Heap)
    returns (m: Cell?, ghost ms: Shape)
    requires Holds(ds, d, dt) && Holds(ss, s, st) && Nodes(ds) !! Nodes(ss)
    modifies Nodes(ds), Nodes(ss)
    ensures Holds(ms, m, SkewMerge(dt, st)) && Nodes(ms) == Nodes(ds) + Nodes(ss)
    decreases Size(dt) + Size(st), 1
  {
    if d == null {
      m, ms := s, ss;
    } else if s == null {
      m, ms := d, ds;
    } else {
      Parts(ds, d, dt);
      Parts(ss, s, st);
      if d.key > s.key {
        m, ms := SkewMergeInto(s, d, ss, ds, st, dt);
      } else {
        m, ms := SkewMergeInto(d, s, ds, ss, dt, st);
      }
    }
  }

  method SkewMergeInto(d: Cell, s: Cell, ghost ds: Shape, ghost ss: Shape, ghost dt: Heap, ghost st: Heap)
    returns (m: Cell, ghost ms: Shape)
    requires Holds(ds, d, dt) && Holds(ss, s, st) && Nodes(ds) !! Nodes(ss) && dt.Node?
    modifies Nodes(ds), Nodes(ss)
    ensures Holds(ms, m, Node(SkewMerge(dt.right, st), dt.key, dt.npl, dt.left)) && Nodes(ms) == Nodes(ds) + Nodes(ss)
    decreases Size(dt) + Size(st), 0
  {
    hide SkewMerge, Laid, Value;
    Parts(ds, d, dt);
    assert allocated(Nodes(ds.left));
    var merged;
    ghost var rs;
    merged, rs := SkewMergeNode(d.right, s, ds.right, ss, dt.right, st);
    ms := Twist(d, merged, ds.left, rs, dt.left, SkewMerge(dt.right, st));
    m := d;
  }

  /** The old left child goes to the right, the merged part to the left. */
  method Twist(d: Cell, merged: Cell?, ghost ls: Shape, ghost rs: Shape, ghost lt: Heap, ghost rt: Heap)
    returns (ghost ms: Shape)
    requires Holds(ls, d.left, lt) && Holds(rs, merged, rt)
    requires d !in Nodes(ls) && d !in Nodes(rs) && Nodes(ls) !! Nodes(rs)
    modifies d
    ensures Holds(ms, d, Node(rt, old(d.key), old(d.npl), lt)) && Nodes(ms) == Nodes(ls) + {d} + Nodes(rs)
  {
    d.right := d.left;
    d.left := merged;
    ms := At(d, rs, ls);
    assert Laid(ls) && Laid(rs) && Value(ls) == lt && Value(rs) == rt;
  }

  // ----- nodes that both sides share

  /** How far the recursion goes down on one side. */
  ghost function Spine(s: Shape): nat {
    if s.Nil? then 0 else 1 + Spine(s.right)
  }

  /** `mergeNode` again, for sides that may share nodes: nothing is rewritten on the way down, so it ends. */
  method MergeShared(d: Cell?, s: Cell?, ghost ds: Shape, ghost ss: Shape) returns (m: Cell?)
    requires Laid(ds) && Laid(ss) && Root(ds) == d && Root(ss) == s
    modifies Nodes(ds), Nodes(ss)
    ensures m != null <==> d != null || s != null
    decreases Spine(ds) + Spine(ss), 1
  {
    if d == null {
      m := s;
    } else if s == null {
      m := d;
    } else if d.key > s.key {
      m := MergeSharedInto(s, d, ss, ds);
    } else {
      m := MergeSharedInto(d, s, ds, ss);
    }
  }

  method MergeSharedInto(d: Cell, s: Cell, ghost ds: Shape, ghost ss: Shape) returns (m: Cell)
    requires Laid(ds) && Laid(ss) && Root(ds) == d && Root(ss) == s
    modifies Nodes(ds), Nodes(ss)
    decreases Spine(ds) + Spine(ss), 0
  {
    var r := MergeShared(d.right, s, ds.right, ss);
    d.right := r;
    if d.left == null || d.left.npl < d.right.npl {
      d.left, d.right := d.right, d.left;
    }
    if d.right == null || d.left == null {
      d.npl := 0;
    } else {
      d.npl := if d.right.npl < d.left.npl then d.right.npl + 1 else d.left.npl + 1;
    }
    m := d;
  }

  method SkewMergeShared(d: Cell?, s: Cell?, ghost ds: Shape, ghost ss: Shape) returns (m: Cell?)
    requires Laid(ds) && Laid(ss) && Root(ds) == d && Root(ss) == s
    modifies Nodes(ds), Nodes(ss)
    ensures m != null <==> d != null || s != null
    decreases Spine(ds) + Spine(ss), 1
  {
    if d == null {
      m := s;
    } else if s == null {
      m := d;
    } else if d.key > s.key {
      m := SkewMergeSharedInto(s, d, ss, ds);
    } else {
      m := SkewMergeSharedInto(d, s, ds, ss);
    }
  }

  method SkewMergeSharedInto(d: Cell, s: Cell, ghost ds: Shape, ghost ss: Shape) returns (m: Cell)
    requires Laid(ds) && Laid(ss) && Root(ds) == d && Root(ss) == s
    modifies Nodes(ds), Nodes(ss)
    decreases Spine(ds) + Spine(ss), 0
  {
    var merged := SkewMergeShared(d.right, s, ds.right, ss);
    d.right := d.left;
    d.left := merged;
    m := d;
  }

  // ----- the heaps

  class LeftistHeap {
    var root: Cell?
    ghost var shape: Shape

    ghost predicate Valid()
      reads this, Nodes(shape)
    {
      Holds(shape, root, Value(shape)) && HeapOrder(Value(shape)) && Leftist(Value(shape))
    }

    ghost function Contents(): Heap
      reads this, Nodes(shape)
    {
      Value(shape)
    }

    constructor ()
      ensures Valid() && Contents() == Empty && shape == Nil
    {
      root := null;
      shape := Nil;
    }

    method GetMinimum() returns (found: bool, key: int)
      requires Valid()
      ensures found <==> Keys(Contents()) != multiset{}
      ensures found ==> key in Keys(Contents()) && forall x :: x in Keys(Contents()) ==> key <= x
    {
      found, key := root != null, 0;
      if root != null {
        key := root.key;
        forall x | x in Keys(Contents())
          ensures key <= x
        {
          RootIsLeast(Contents(), x);
        }
      }
    }

    method Insert(key: int)
      requires Valid()
      modifies this, Nodes(shape)
      ensures Valid() && Contents() == Merge(old(Contents()), Node(Empty, key, 0, Empty))
      ensures Keys(Contents()) == old(Keys(Contents())) + multiset{key}
      ensures fresh(Nodes(shape) - old(Nodes(shape)))
    {
      hide Merge, Laid, Value, Keys, HeapOrder, Leftist, Nodes, Holds;
      ghost var t, n := Contents(), Node(Empty, key, 0, Empty);
      assert allocated(Nodes(shape));
      var node := new Cell(key);
      ghost var ns := At(node, Nil, Nil);
      Single(node);
      MergeKeeps(t, n);
      var r;
      ghost var rs;
      r, rs := MergeNode(root, node, shape, ns, t, n);
      root, shape := r, rs;
      HeldValue(shape, root, Merge(t, n));
    }

    method Remove()
      requires Valid()
      modifies this, Nodes(shape)
      ensures Valid() && Contents() == RemoveMin(old(Contents())) && Nodes(shape) <= old(Nodes(shape))
      ensures Keys(Contents())
           == if old(root) == null then old(Keys(Contents())) else old(Keys(Contents())) - multiset{old(root.key)}
    {
      hide Merge, Laid, Value, Keys, HeapOrder, Leftist, Nodes, Holds;
      if root != null {
        ghost var t := Contents();
        Parts(shape, root, t);
        RemoveKeeps(t);
        var r;
        ghost var rs;
        r, rs := MergeNode(root.left, root.right, shape.left, shape.right, t.left, t.right);
        root, shape := r, rs;
        HeldValue(shape, root, Merge(t.left, t.right));
      } else {
        NoRoot(shape, Contents());
      }
    }

    /** Empties the other heap into this one; a heap merged with itself loses all its keys. The two methods called run the same
        code and differ in what is known of it. */
    method MergeFrom(src: LeftistHeap)
      requires Valid() && src.Valid() && (src == this || Nodes(shape) !! Nodes(src.shape))
      modifies this, src, Nodes(shape), Nodes(src.shape)
      ensures Valid() && src.Valid() && src.root == null
      ensures src != this ==> Contents() == Merge(old(Contents()), old(src.Contents()))
      ensures src != this ==> Keys(Contents()) == old(Keys(Contents())) + old(Keys(src.Contents()))
      ensures src != this ==> Nodes(shape) == old(Nodes(shape)) + old(Nodes(src.shape))
      ensures src == this ==> Contents() == Empty
    {
      hide Merge, Laid, Value, Keys, HeapOrder, Leftist, Nodes, Holds;
      if src == this {
        MergeSelf();
      } else {
        MergeOther(src);
      }
    }

    method MergeSelf()
      requires Valid()
      modifies this, Nodes(shape)
      ensures Valid() && root == null && Contents() == Empty
    {
      root := MergeShared(root, root, shape, shape);
      root, shape := null, Nil;
    }

    method MergeOther(src: LeftistHeap)
      requires Valid() && src.Valid() && src != this && Nodes(shape) !! Nodes(src.shape)
      modifies this, src, Nodes(shape), Nodes(src.shape)
      ensures Valid() && src.Valid() && src.root == null
      ensures Contents() == Merge(old(Contents()), old(src.Contents()))
      ensures Keys(Contents()) == old(Keys(Contents())) + old(Keys(src.Contents()))
      ensures Nodes(shape) == old(Nodes(shape)) + old(Nodes(src.shape))
    {
      hide Merge, Laid, Value, Keys, HeapOrder, Leftist, Nodes, Holds;
      ghost var t, u := Contents(), src.Contents();
      MergeKeeps(t, u);
      var r;
      ghost var rs;
      r, rs := MergeNode(root, src.root, shape, src.shape, t, u);
      HeldValue(rs, r, Merge(t, u));
      root, shape := r, rs;
      src.root, src.shape := null, Nil;
      NothingHeld();
    }
  }

  class SkewHeap {
    var root: Cell?
    ghost var shape: Shape

    ghost predicate Valid()
      reads this, Nodes(shape)
    {
      Holds(shape, root, Value(shape)) && HeapOrder(Value(shape))
    }

    ghost function Contents(): Heap
      reads this, Nodes(shape)
    {
      Value(shape)
    }

    constructor ()
      ensures Valid() && Contents() == Empty && shape == Nil
    {
      root := null;
      shape := Nil;
    }

    method GetMinimum() returns (found: bool, key: int)
      requires Valid()
      ensures found <==> Keys(Contents()) != multiset{}
      ensures found ==> key in Keys(Contents()) && forall x :: x in Keys(Contents()) ==> key <= x
    {
      found, key := root != null, 0;
      if root != null {
        key := root.key;
        forall x | x in Keys(Contents())
          ensures key <= x
        {
          RootIsLeast(Contents(), x);
        }
      }
    }

    method Insert(key: int)
      requires Valid()
      modifies this, Nodes(shape)
      ensures Valid() && Contents() == SkewMerge(old(Contents()), Node(Empty, key, 0, Empty))
      ensures Keys(Contents()) == old(Keys(Contents())) + multiset{key}
      ensures fresh(Nodes(shape) - old(Nodes(shape)))
    {
      hide SkewMerge, Laid, Value, Keys, HeapOrder, Nodes, Holds;
      ghost var t, n := Contents(), Node(Empty, key, 0, Empty);
      assert allocated(Nodes(shape));
      var node := new Cell(key);
      ghost var ns := At(node, Nil, Nil);
      Single(node);
      SkewMergeKeeps(t, n);
      var r;
      ghost var rs;
      r, rs := SkewMergeNode(root, node, shape, ns, t, n);
      root, shape := r, rs;
      HeldValue(shape, root, SkewMerge(t, n));
    }

    method Remove()
      requires Valid()
      modifies this, Nodes(shape)
      ensures Valid() && Contents() == SkewRemoveMin(old(Contents())) && Nodes(shape) <= old(Nodes(shape))
      ensures Keys(Contents())
           == if old(root) == null then old(Keys(Contents())) else old(Keys(Contents())) - multiset{old(root.key)}
    {
      hide SkewMerge, Laid, Value, Keys, HeapOrder, Nodes, Holds;
      if root != null {
        ghost var t := Contents();
        Parts(shape, root, t);
        SkewRemoveKeeps(t);
        var r;
        ghost var rs;
        r, rs := SkewMergeNode(root.left, root.right, shape.left, shape.right, t.left, t.right);
        root, shape := r, rs;
        HeldValue(shape, root, SkewMerge(t.left, t.right));
      } else {
        NoRoot(shape, Contents());
      }
    }

    /** Empties the other heap into this one; a heap merged with itself loses all its keys. The two methods called run the same
        code and differ in what is known of it. */
    method MergeFrom(src: SkewHeap)
      requires Valid() && src.Valid() && (src == this || Nodes(shape) !! Nodes(src.shape))
      modifies this, src, Nodes(shape), Nodes(src.shape)
      ensures Valid() && src.Valid() && src.root == null
      ensures src != this ==> Contents() == SkewMerge(old(Contents()), old(src.Contents()))
      ensures src != this ==> Keys(Contents()) == old(Keys(Contents())) + old(Keys(src.Contents()))
      ensures src != this ==> Nodes(shape) == old(Nodes(shape)) + old(Nodes(src.shape))
      ensures src == this ==> Contents() == Empty
    {
      hide SkewMerge, Laid, Value, Keys, HeapOrder, Nodes, Holds;
      if src == this {
        MergeSelf();
      } else {
        MergeOther(src);
      }
    }

    method MergeSelf()
      requires Valid()
      modifies this, Nodes(shape)
      ensures Valid() && root == null && Contents() == Empty
    {
      root := SkewMergeShared(root, root, shape, shape);
      root, shape := null, Nil;
    }

    method MergeOther(src: SkewHeap)
      requires Valid() && src.Valid() && src != this && Nodes(shape) !! Nodes(src.shape)
      modifies this, src, Nodes(shape), Nodes(src.shape)
      ensures Valid() && src.Valid() && src.root == null
      ensures Contents() == SkewMerge(old(Contents()), old(src.Contents()))
      ensures Keys(Contents()) == old(Keys(Contents())) + old(Keys(src.Contents()))
      ensures Nodes(shape) == old(Nodes(shape)) + old(Nodes(src.shape))
    {
      hide SkewMerge, Laid, Value, Keys, HeapOrder, Nodes, Holds;
      ghost var t, u := Contents(), src.Contents();
      SkewMergeKeeps(t, u);
      var r;
      ghost var rs;
      r, rs := SkewMergeNode(root, src.root, shape, src.shape, t, u);
      HeldValue(rs, r, SkewMerge(t, u));
      root, shape := r, rs;
      src.root, src.shape := null, Nil;
      NothingHeld();
    }
  }
}
