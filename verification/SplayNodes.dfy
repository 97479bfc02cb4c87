/** Top-down splaying as the source performs it: nodes are relinked in place, with a header node whose two
    children are the assembly trees. Each method is proved to compute the function on tree values. */
module SplayNodes {
  import opened SplayTree
  import SplayCost

  class Node {
    var key: int
    var left: Node?
    var right: Node?

    constructor (key: int)
      ensures this.key == key && left == null && right == null
    {
      this.key, left, right := key, null, null;
    }
  }

  /** Which nodes make up a tree. */
  datatype Shape = Nil | At(node: Node, left: Shape, right: Shape)

  ghost function Root(s: Shape): Node? {
    if s.Nil? then null else s.node
  }

  ghost function Nodes(s: Shape): set<Node> {
    if s.Nil? then {} else Nodes(s.left) + {s.node} + Nodes(s.right)
  }

  /** The nodes are linked as the shape says, without sharing. */
  ghost predicate Laid(s: Shape)
    reads Nodes(s)
  {
    s.At? ==>
      && s.node.left == Root(s.left) && s.node.right == Root(s.right)
      && s.node !in Nodes(s.left) && s.node !in Nodes(s.right) && Nodes(s.left) !! Nodes(s.right)
      && Laid(s.left) && Laid(s.right)
  }

  ghost function Value(s: Shape): Tree
    reads Nodes(s)
  {
    if s.Nil? then Leaf else Fork(Value(s.left), s.node.key, Value(s.right))
  }

  // ----- chains with an open end

  /** A node whose child on one side is open, with the subtree on its other side. */
  datatype Link = Link(node: Node, sub: Shape, opensRight: bool)

  ghost function Open(f: Link): Node?
    reads f.node
  {
    if f.opensRight then f.node.right else f.node.left
  }

  ghost function Kept(f: Link): Node?
    reads f.node
  {
    if f.opensRight then f.node.left else f.node.right
  }

  ghost function LinkNodes(ls: seq<Link>): set<Node> {
    if ls == [] then {}
    else var f := ls[|ls| - 1]; LinkNodes(ls[..|ls| - 1]) + ({f.node} + Nodes(f.sub))
  }

  /** A link that shares no node with those before it. */
  ghost predicate Apart(ls: seq<Link>, f: Link) {
    f.node !in Nodes(f.sub) && ({f.node} + Nodes(f.sub)) !! LinkNodes(ls)
  }

  /** Each node keeps its subtree and has the next node on its open side; the open side of the last is free. */
  ghost predicate Chain(ls: seq<Link>)
    reads LinkNodes(ls)
  {
    ls != [] ==>
      var rest, f := ls[..|ls| - 1], ls[|ls| - 1];
      && Chain(rest) && Apart(rest, f)
      && (rest != [] ==> rest[|rest| - 1].node in LinkNodes(rest) && Open(rest[|rest| - 1]) == f.node)
      && Kept(f) == Root(f.sub) && Laid(f.sub)
  }

  ghost function Frames(ls: seq<Link>): (fs: seq<Frame>)
    reads LinkNodes(ls)
    ensures |fs| == |ls|
  {
    if ls == [] then []
    else var f := ls[|ls| - 1]; Frames(ls[..|ls| - 1]) + [Frame(f.node.key, Value(f.sub))]
  }

  /** The node at the open end: the header as long as the chain is empty. */
  ghost function Tail(ls: seq<Link>, header: Node): Node {
    if ls == [] then header else ls[|ls| - 1].node
  }

  ghost predicate AllOpen(ls: seq<Link>, right: bool) {
    forall i :: 0 <= i < |ls| ==> ls[i].opensRight == right
  }

  lemma TailNode(ls: seq<Link>, header: Node)
    ensures Tail(ls, header) == header || Tail(ls, header) in LinkNodes(ls)
  {
  }

  lemma PushedNodes(ls: seq<Link>, f: Link)
    ensures LinkNodes(ls + [f]) == LinkNodes(ls) + ({f.node} + Nodes(f.sub))
  {
    assert (ls + [f])[..|ls|] == ls;
  }

  lemma Push(ls: seq<Link>, f: Link)
    requires Chain(ls) && Apart(ls, f) && Kept(f) == Root(f.sub) && Laid(f.sub)
    requires ls != [] ==> Open(ls[|ls| - 1]) == f.node
    ensures Chain(ls + [f])
    ensures Frames(ls + [f]) == Frames(ls) + [Frame(f.node.key, Value(f.sub))]
  {
    assert (ls + [f])[..|ls|] == ls;
  }

  /** Points the open end of a chain, or the header's child on that side, somewhere; nothing else changes. */
  method SetEnd(l: Node, x: Node?, right: bool, header: Node, ghost ls: seq<Link>, ghost s: Shape, ghost others: seq<Link>)
    requires Chain(ls) && l == Tail(ls, header)
    requires ls != [] ==> ls[|ls| - 1].opensRight == right
    requires ls == [] ==> header !in Nodes(s) && header !in LinkNodes(others)
    requires Laid(s) && Nodes(s) !! LinkNodes(ls)
    requires Chain(others) && LinkNodes(others) !! LinkNodes(ls)
    modifies l
    ensures if right then l.right == x && l.left == old(l.left) else l.left == x && l.right == old(l.right)
    ensures l.key == old(l.key)
    ensures Chain(ls) && Frames(ls) == old(Frames(ls))
    ensures Laid(s) && Value(s) == old(Value(s))
    ensures Chain(others) && Frames(others) == old(Frames(others))
  {
    hide Laid, Value, Nodes, LinkNodes, Chain, Frames;
    ghost var rest, sub := ParentChain(ls), LastSub(ls);
    EndApart(ls, header, s, others, l);
    ghost var kept := if right then l.left else l.right;
    ghost var fs, v := Frames(rest), Value(sub);
    SetSide(l, x, right, rest, sub, s, others);
    Refit(ls, l, right, kept, fs, v);
  }

  ghost function ParentChain(ls: seq<Link>): seq<Link> {
    if ls == [] then [] else ls[..|ls| - 1]
  }

  ghost function LastSub(ls: seq<Link>): Shape {
    if ls == [] then Nil else ls[|ls| - 1].sub
  }

  /** The end of a chain is no node of anything else. */
  lemma EndApart(ls: seq<Link>, header: Node, s: Shape, others: seq<Link>, l: Node)
    requires Chain(ls) && l == Tail(ls, header) && (ls == [] ==> header !in Nodes(s) && header !in LinkNodes(others))
    requires Nodes(s) !! LinkNodes(ls) && LinkNodes(others) !! LinkNodes(ls)
    ensures Chain(ParentChain(ls)) && Laid(LastSub(ls))
    ensures l !in LinkNodes(ParentChain(ls)) && l !in Nodes(LastSub(ls)) && l !in LinkNodes(others) && l !in Nodes(s)
    ensures ls != [] ==>
              var f := ls[|ls| - 1];
              && Apart(ParentChain(ls), f) && Kept(f) == Root(f.sub)
              && (ParentChain(ls) != [] ==> Open(ParentChain(ls)[|ls| - 2]) == f.node)
              && (ParentChain(ls) != [] ==> ParentChain(ls)[|ls| - 2].node in LinkNodes(ParentChain(ls)))
    ensures Frames(ls) == if ls == [] then [] else Frames(ParentChain(ls)) + [Frame(l.key, Value(LastSub(ls)))]
  {
    hide Laid, Value, Nodes;
  }

  /** The assignment itself, and all that it leaves alone. */
  method SetSide(l: Node, x: Node?, right: bool, ghost rest: seq<Link>, ghost sub: Shape, ghost s: Shape, ghost others: seq<Link>)
    requires Chain(rest) && Laid(sub) && Laid(s) && Chain(others)
    requires l !in LinkNodes(rest) && l !in Nodes(sub) && l !in Nodes(s) && l !in LinkNodes(others)
    modifies l
    ensures if right then l.right == x && l.left == old(l.left) else l.left == x && l.right == old(l.right)
    ensures l.key == old(l.key)
    ensures Chain(rest) && Frames(rest) == old(Frames(rest)) && Laid(sub) && Value(sub) == old(Value(sub))
    ensures Laid(s) && Value(s) == old(Value(s)) && Chain(others) && Frames(others) == old(Frames(others))
    ensures rest != [] && rest[|rest| - 1].node in LinkNodes(rest) ==> Open(rest[|rest| - 1]) == old(Open(rest[|rest| - 1]))
  {
    hide Laid, Value, Nodes, LinkNodes, Chain, Frames;
    if right {
      l.right := x;
    } else {
      l.left := x;
    }
  }

  /** A chain whose last node keeps its subtree is a chain. */
  lemma Refit(ls: seq<Link>, l: Node, right: bool, kept: Node?, fs: seq<Frame>, v: Tree)
    requires Chain(ParentChain(ls)) && Frames(ParentChain(ls)) == fs && Laid(LastSub(ls)) && Value(LastSub(ls)) == v
    requires ls != [] ==>
               var f := ls[|ls| - 1];
               && l == f.node && f.opensRight == right && Apart(ParentChain(ls), f)
               && kept == Root(f.sub) && kept == (if right then l.left else l.right)
               && (ParentChain(ls) != [] ==> ParentChain(ls)[|ls| - 2].node in LinkNodes(ParentChain(ls))
                                             && Open(ParentChain(ls)[|ls| - 2]) == f.node)
    ensures Chain(ls) && Frames(ls) == if ls == [] then [] else fs + [Frame(l.key, v)]
  {
    hide Laid, Value, Nodes;
  }

  /** A link with its open side filled in. */
  ghost function Filled(f: Link, x: Shape): Shape {
    if f.opensRight then At(f.node, f.sub, x) else At(f.node, x, f.sub)
  }

  /** A chain with its open end filled in. */
  ghost function Closed(ls: seq<Link>, x: Shape): Shape
    decreases |ls|
  {
    if ls == [] then x else Closed(ls[..|ls| - 1], Filled(ls[|ls| - 1], x))
  }

  lemma {:induction false} ClosedNodes(ls: seq<Link>, x: Shape)
    ensures Nodes(Closed(ls, x)) == LinkNodes(ls) + Nodes(x)
    ensures Root(Closed(ls, x)) == if ls == [] then Root(x) else ls[0].node
    decreases |ls|
  {
    if ls != [] {
      ClosedNodes(ls[..|ls| - 1], Filled(ls[|ls| - 1], x));
    }
  }

  /** Once its open end points to a tree, a chain is a tree. */
  lemma {:induction false} ClosedLaid(ls: seq<Link>, x: Shape)
    requires Chain(ls) && Laid(x) && Nodes(x) !! LinkNodes(ls)
    requires ls != [] ==> ls[|ls| - 1].node in LinkNodes(ls) && Open(ls[|ls| - 1]) == Root(x)
    ensures Laid(Closed(ls, x))
    decreases |ls|
  {
    if ls != [] {
      var rest, f := ls[..|ls| - 1], ls[|ls| - 1];
      var y := Filled(f, x);
      assert Apart(rest, f) && LinkNodes(ls) == LinkNodes(rest) + ({f.node} + Nodes(f.sub));
      assert Nodes(y) == {f.node} + Nodes(f.sub) + Nodes(x);
      assert Laid(y);
      ClosedLaid(rest, y);
    }
  }

  lemma {:induction false} ClosedValue(ls: seq<Link>, x: Shape)
    ensures AllOpen(ls, true) ==> Value(Closed(ls, x)) == CloseLeft(Frames(ls), Value(x))
    ensures AllOpen(ls, false) ==> Value(Closed(ls, x)) == CloseRight(Frames(ls), Value(x))
    decreases |ls|
  {
    if ls != [] {
      var rest, f := ls[..|ls| - 1], ls[|ls| - 1];
      ClosedValue(rest, Filled(f, x));
      assert Frames(ls)[..|Frames(ls)| - 1] == Frames(rest);
    }
  }

  /** A chain whose open end points to a tree, hanging below a header. */
  lemma ClosedBelow(ls: seq<Link>, x: Shape, header: Node, right: bool) returns (closed: Shape)
    requires Chain(ls) && AllOpen(ls, right) && Laid(x) && Nodes(x) !! LinkNodes(ls)
    requires var l := Tail(ls, header); (if right then l.right else l.left) == Root(x)
    requires ls != [] ==> (if right then header.right else header.left) == ls[0].node
    ensures Laid(closed) && Nodes(closed) == LinkNodes(ls) + Nodes(x)
    ensures Root(closed) == if right then header.right else header.left
    ensures Value(closed) == if right then CloseLeft(Frames(ls), Value(x)) else CloseRight(Frames(ls), Value(x))
  {
    closed := Closed(ls, x);
    ClosedNodes(ls, x);
    ClosedLaid(ls, x);
    ClosedValue(ls, x);
  }

  // ----- the rotations of the splaying loop

  method RotateRightAt(root: Node, ghost s: Shape, ghost t: Tree, ghost small: seq<Link>, ghost large: seq<Link>)
    returns (c: Node, ghost s': Shape)
    requires Laid(s) && Root(s) == root && Value(s) == t && t.Fork? && t.left.Fork?
    requires Chain(small) && Chain(large) && Nodes(s) !! LinkNodes(small) && Nodes(s) !! LinkNodes(large)
    modifies root, root.left
    ensures Chain(small) && Frames(small) == old(Frames(small))
    ensures Chain(large) && Frames(large) == old(Frames(large))
    ensures Laid(s') && Root(s') == c && Nodes(s') == Nodes(s) && Value(s') == RotateRight(t)
  {
    hide Chain, Frames, LinkNodes;
    ghost var l, r := s.left, s.right;
    assert Laid(l) && Value(l) == t.left && Nodes(l) == Nodes(l.left) + {l.node} + Nodes(l.right);
    c := root.left;
    root.left := c.right;
    c.right := root;
    assert Laid(l.left) && Laid(l.right) && Laid(r);
    assert Value(l.left) == t.left.left && Value(l.right) == t.left.right && Value(r) == t.right;
    ghost var inner := At(root, l.right, r);
    assert Laid(inner) && Value(inner) == Fork(t.left.right, t.key, t.right);
    s' := At(c, l.left, inner);
  }

  method RotateLeftAt(root: Node, ghost s: Shape, ghost t: Tree, ghost small: seq<Link>, ghost large: seq<Link>)
    returns (c: Node, ghost s': Shape)
    requires Laid(s) && Root(s) == root && Value(s) == t && t.Fork? && t.right.Fork?
    requires Chain(small) && Chain(large) && Nodes(s) !! LinkNodes(small) && Nodes(s) !! LinkNodes(large)
    modifies root, root.right
    ensures Chain(small) && Frames(small) == old(Frames(small))
    ensures Chain(large) && Frames(large) == old(Frames(large))
    ensures Laid(s') && Root(s') == c && Nodes(s') == Nodes(s) && Value(s') == RotateLeft(t)
  {
    hide Chain, Frames, LinkNodes;
    ghost var l, r := s.left, s.right;
    assert Laid(r) && Value(r) == t.right && Nodes(r) == Nodes(r.left) + {r.node} + Nodes(r.right);
    c := root.right;
    root.right := c.left;
    c.left := root;
    assert Laid(r.left) && Laid(r.right) && Laid(l);
    assert Value(r.left) == t.right.left && Value(r.right) == t.right.right && Value(l) == t.left;
    ghost var inner := At(root, l, r.left);
    assert Laid(inner) && Value(inner) == Fork(t.left, t.key, t.right.left);
    s' := At(c, inner, r.right);
  }

  // ----- the splaying loop

  /** Which nodes take part in the splaying loop, and where. */
  datatype Work = Work(small: seq<Link>, tree: Shape, large: seq<Link>)

  ghost function WorkNodes(w: Work): set<Node> {
    LinkNodes(w.small) + Nodes(w.tree) + LinkNodes(w.large)
  }

  ghost predicate Separate(w: Work, header: Node) {
    && LinkNodes(w.small) !! Nodes(w.tree) && LinkNodes(w.small) !! LinkNodes(w.large)
    && Nodes(w.tree) !! LinkNodes(w.large)
    && header !in LinkNodes(w.small) && header !in Nodes(w.tree) && header !in LinkNodes(w.large)
  }

  lemma SeparateStepLeft(w: Work, header: Node)
    requires Separate(w, header) && w.tree.At? && Nodes(w.tree.left) !! Nodes(w.tree.right) && w.tree.node !in Nodes(w.tree.left)
    ensures var w' := Work(w.small, w.tree.left, w.large + [Link(w.tree.node, w.tree.right, false)]);
            Separate(w', header) && WorkNodes(w') == WorkNodes(w)
  {
    PushedNodes(w.large, Link(w.tree.node, w.tree.right, false));
  }

  lemma SeparateStepRight(w: Work, header: Node)
    requires Separate(w, header) && w.tree.At? && Nodes(w.tree.left) !! Nodes(w.tree.right) && w.tree.node !in Nodes(w.tree.right)
    ensures var w' := Work(w.small + [Link(w.tree.node, w.tree.left, true)], w.tree.right, w.large);
            Separate(w', header) && WorkNodes(w') == WorkNodes(w)
  {
    PushedNodes(w.small, Link(w.tree.node, w.tree.left, true));
  }

  /** The loop's invariant: both assembly trees and the tree in between are laid out on disjoint nodes, and the
      header's children are the roots of the assembly trees. */
  ghost predicate Running(w: Work, header: Node, l: Node, r: Node, root: Node)
    reads header, WorkNodes(w)
  {
    && Chain(w.small) && AllOpen(w.small, true) && Chain(w.large) && AllOpen(w.large, false)
    && Laid(w.tree) && Root(w.tree) == root
    && Separate(w, header)
    && l == Tail(w.small, header) && r == Tail(w.large, header)
    && (w.small != [] ==> header.right == w.small[0].node)
    && (w.large != [] ==> header.left == w.large[0].node)
  }

  ghost function StateOf(w: Work): State
    reads WorkNodes(w)
  {
    State(Frames(w.small), Value(w.tree), Frames(w.large))
  }

  lemma TopIs(s: Shape, t: Tree)
    requires Laid(s) && Value(s) == t && t.Fork?
    ensures s.At? && s.node in Nodes(s) && s.node.key == t.key
    ensures s.node.left == null <==> t.left.Leaf?
    ensures s.node.left != null ==> s.node.left in Nodes(s) && s.node.left.key == t.left.key
    ensures s.node.right == null <==> t.right.Leaf?
    ensures s.node.right != null ==> s.node.right in Nodes(s) && s.node.right.key == t.right.key
  {
    assert Value(s.left) == t.left && Value(s.right) == t.right;
    assert Laid(s.left) && Laid(s.right);
    assert s.left.At? ==> s.left.node in Nodes(s.left);
    assert s.right.At? ==> s.right.node in Nodes(s.right);
  }

  method ZigLeftAt(root: Node, key: int, ghost w: Work, ghost st: State, ghost header: Node, ghost l: Node, ghost r: Node)
    returns (top: Node, ghost w': Work)
    requires Running(w, header, l, r, root) && StateOf(w) == st && st.tree.Fork?
    modifies Nodes(w.tree)
    ensures Running(w', header, l, r, top) && WorkNodes(w') == WorkNodes(w)
    ensures StateOf(w') == st.(tree := ZigLeft(st.tree, key))
  {
    top, w' := root, w;
    ghost var s := w.tree;
    TopIs(s, st.tree);
    hide Laid, Value, Nodes, LinkNodes, Chain, Frames;
    if root.left != null && key < root.left.key {
      ghost var s';
      top, s' := RotateRightAt(root, s, st.tree, w.small, w.large);
      w' := w.(tree := s');
    }
  }

  method ZigRightAt(root: Node, key: int, ghost w: Work, ghost st: State, ghost header: Node, ghost l: Node, ghost r: Node)
    returns (top: Node, ghost w': Work)
    requires Running(w, header, l, r, root) && StateOf(w) == st && st.tree.Fork?
    modifies Nodes(w.tree)
    ensures Running(w', header, l, r, top) && WorkNodes(w') == WorkNodes(w)
    ensures StateOf(w') == st.(tree := ZigRight(st.tree, key))
  {
    top, w' := root, w;
    ghost var s := w.tree;
    TopIs(s, st.tree);
    hide Laid, Value, Nodes, LinkNodes, Chain, Frames;
    if root.right != null && key > root.right.key {
      ghost var s';
      top, s' := RotateLeftAt(root, s, st.tree, w.small, w.large);
      w' := w.(tree := s');
    }
  }

  /** Points the open end of the left assembly tree to `x`. */
  method FillSmall(x: Node?, l: Node, header: Node, ghost w: Work, ghost st: State, ghost r: Node, ghost root: Node)
    requires Running(w, header, l, r, root) && StateOf(w) == st
    modifies l
    ensures Running(w, header, l, r, root) && StateOf(w) == st && l.right == x && l.left == old(l.left)
  {
    TailNode(w.small, header);
    SetEnd(l, x, true, header, w.small, w.tree, w.large);
  }

  method FillLarge(x: Node?, r: Node, header: Node, ghost w: Work, ghost st: State, ghost l: Node, ghost root: Node)
    requires Running(w, header, l, r, root) && StateOf(w) == st
    modifies r
    ensures Running(w, header, l, r, root) && StateOf(w) == st && r.left == x && r.right == old(r.right)
  {
    TailNode(w.large, header);
    SetEnd(r, x, false, header, w.large, w.tree, w.small);
  }

  /** With the root hung at the end of the right assembly tree, the search can go on in its left child. */
  lemma SteppedLeft(w: Work, st: State, header: Node, l: Node, r: Node, root: Node)
    requires Running(w, header, l, r, root) && StateOf(w) == st && st.tree.Fork? && st.tree.left.Fork? && r.left == root
    ensures w.tree.At? && root.left != null
    ensures var w' := Work(w.small, w.tree.left, w.large + [Link(root, w.tree.right, false)]);
            && WorkNodes(w') == WorkNodes(w)
            && Running(w', header, l, root, root.left) && StateOf(w') == LinkRight(st, st.tree)
  {
    LeftIs(w.tree, st.tree);
    PushRoot(w.large, w.tree, false, header);
    SeparateStepLeft(w, header);
  }

  /** The root hung at the end of a chain, with the subtree on its other side. */
  lemma PushRoot(ls: seq<Link>, t: Shape, right: bool, header: Node)
    requires Chain(ls) && AllOpen(ls, right) && Laid(t) && t.At? && Nodes(t) !! LinkNodes(ls)
    requires var l := Tail(ls, header); (if right then l.right else l.left) == t.node
    requires ls != [] ==> (if right then header.right else header.left) == ls[0].node
    ensures var f := Link(t.node, if right then t.left else t.right, right);
            && Chain(ls + [f]) && AllOpen(ls + [f], right)
            && Frames(ls + [f]) == Frames(ls) + [Frame(t.node.key, Value(f.sub))]
            && Tail(ls + [f], header) == t.node
            && (if right then header.right else header.left) == (ls + [f])[0].node
  {
    var f := Link(t.node, if right then t.left else t.right, right);
    assert Apart(ls, f);
    Push(ls, f);
  }

  lemma SteppedRight(w: Work, st: State, header: Node, l: Node, r: Node, root: Node)
    requires Running(w, header, l, r, root) && StateOf(w) == st && st.tree.Fork? && st.tree.right.Fork? && l.right == root
    ensures w.tree.At? && root.right != null
    ensures var w' := Work(w.small + [Link(root, w.tree.left, true)], w.tree.right, w.large);
            && WorkNodes(w') == WorkNodes(w)
            && Running(w', header, root, r, root.right) && StateOf(w') == LinkLeft(st, st.tree)
  {
    LeftIs(w.tree, st.tree);
    PushRoot(w.small, w.tree, true, header);
    SeparateStepRight(w, header);
  }

  /** The root goes to the right assembly tree, and the search goes on in its left child. */
  method StepLeft(root: Node, r: Node, header: Node, ghost w: Work, ghost st: State, ghost l: Node)
    returns (next: Node, ghost w': Work)
    requires Running(w, header, l, r, root) && StateOf(w) == st && st.tree.Fork? && st.tree.left.Fork?
    modifies r
    ensures Running(w', header, l, root, next) && WorkNodes(w') == WorkNodes(w)
    ensures StateOf(w') == LinkRight(st, st.tree)
  {
    FillLarge(root, r, header, w, st, l, root);
    SteppedLeft(w, st, header, l, r, root);
    next := root.left;
    w' := Work(w.small, w.tree.left, w.large + [Link(root, w.tree.right, false)]);
  }

  method StepRight(root: Node, l: Node, header: Node, ghost w: Work, ghost st: State, ghost r: Node)
    returns (next: Node, ghost w': Work)
    requires Running(w, header, l, r, root) && StateOf(w) == st && st.tree.Fork? && st.tree.right.Fork?
    modifies l
    ensures Running(w', header, root, r, next) && WorkNodes(w') == WorkNodes(w)
    ensures StateOf(w') == LinkLeft(st, st.tree)
  {
    FillSmall(root, l, header, w, st, r, root);
    SteppedRight(w, st, header, l, r, root);
    next := root.right;
    w' := Work(w.small + [Link(root, w.tree.left, true)], w.tree.right, w.large);
  }

  /** The root's children go to the open ends, and the assembly trees become its children. */
  method Reassemble(root: Node, l: Node, r: Node, header: Node, ghost w: Work, ghost st: State) returns (ghost s: Shape)
    requires Running(w, header, l, r, root) && StateOf(w) == st && st.tree.Fork?
    modifies l, r, root
    ensures Laid(s) && Root(s) == root && Nodes(s) == WorkNodes(w) && Value(s) == Assemble(st)
  {
    FillSmall(root.left, l, header, w, st, r, root);
    FillLarge(root.right, r, header, w, st, l, root);
    s := AdoptBoth(root, l, r, header, w, st);
  }

  method AdoptBoth(root: Node, ghost l: Node, ghost r: Node, header: Node, ghost w: Work, ghost st: State) returns (ghost s: Shape)
    requires Running(w, header, l, r, root) && StateOf(w) == st && st.tree.Fork?
    requires l.right == root.left && r.left == root.right
    modifies root
    ensures Laid(s) && Root(s) == root && Nodes(s) == WorkNodes(w) && Value(s) == Assemble(st)
  {
    ghost var t := w.tree;
    LeftIs(t, st.tree);
    TreeApart(w, header);
    ghost var sl := ClosedBelow(w.small, t.left, header, true);
    ghost var sr := ClosedBelow(w.large, t.right, header, false);
    AdoptApart(w, header, sl, sr);
    s := Adopt(root, header, sl, sr);
  }

  lemma TreeApart(w: Work, header: Node)
    requires Separate(w, header) && w.tree.At?
    ensures LinkNodes(w.small) !! Nodes(w.tree.left) && LinkNodes(w.large) !! Nodes(w.tree.right)
    ensures header != w.tree.node
  {
  }

  /** The two closed assembly trees and the root share no node. */
  lemma AdoptApart(w: Work, header: Node, sl: Shape, sr: Shape)
    requires Separate(w, header) && w.tree.At?
    requires Nodes(sl) == LinkNodes(w.small) + Nodes(w.tree.left)
    requires Nodes(sr) == LinkNodes(w.large) + Nodes(w.tree.right)
    requires w.tree.node !in Nodes(w.tree.left) && w.tree.node !in Nodes(w.tree.right)
    requires Nodes(w.tree.left) !! Nodes(w.tree.right)
    ensures Nodes(sl) !! Nodes(sr) && w.tree.node !in Nodes(sl) && w.tree.node !in Nodes(sr)
    ensures Nodes(sl) + {w.tree.node} + Nodes(sr) == WorkNodes(w)
  {
  }

  method Adopt(root: Node, header: Node, ghost sl: Shape, ghost sr: Shape) returns (ghost s: Shape)
    requires Laid(sl) && Laid(sr) && Root(sl) == header.right && Root(sr) == header.left
    requires Nodes(sl) !! Nodes(sr) && root !in Nodes(sl) && root !in Nodes(sr) && root != header
    modifies root
    ensures Laid(s) && Root(s) == root && Nodes(s) == Nodes(sl) + {root} + Nodes(sr)
    ensures Value(s) == Fork(old(Value(sl)), root.key, old(Value(sr))) && root.key == old(root.key)
  {
    root.left := header.right;
    root.right := header.left;
    assert Laid(sl) && Laid(sr) && Value(sl) == old(Value(sl)) && Value(sr) == old(Value(sr));
    s := At(root, sl, sr);
  }

  /** What one round of the loop does to its state. */
  lemma OneRound(s: State, key: int)
    requires s.tree.Fork?
    ensures key == s.tree.key ==> Loop(s, key) == s && Rounds(s.tree, key) == 1
    ensures key < s.tree.key ==>
              var t := ZigLeft(s.tree, key);
              && Rounds(s.tree, key) == 1 + Rounds(t.left, key)
              && if t.left.Leaf? then Loop(s, key) == s.(tree := t) && Rounds(t.left, key) == 0
                 else Loop(s, key) == Loop(LinkRight(s, t), key)
    ensures key > s.tree.key ==>
              var t := ZigRight(s.tree, key);
              && Rounds(s.tree, key) == 1 + Rounds(t.right, key)
              && if t.right.Leaf? then Loop(s, key) == s.(tree := t) && Rounds(t.right, key) == 0
                 else Loop(s, key) == Loop(LinkLeft(s, t), key)
  {
    hide ZigLeft, ZigRight;
  }

  lemma EmptySplay(s: Shape, key: int)
    ensures Root(s) == null ==> Value(s) == Leaf && Splay(Leaf, key) == Leaf && Rounds(Leaf, key) == 0
    ensures Root(s) != null ==> var t := Value(s); t.Fork? && Splay(t, key) == Assemble(Loop(State([], t, []), key))
  {
    hide Loop, Assemble;
  }

  /** Splays in place, counting how often the condition of the loop is tested. */
  method SplayAt(start: Node?, key: int, ghost s: Shape, ghost t: Tree)
    returns (root: Node?, ghost s': Shape, ghost rounds: nat)
    requires Laid(s) && Root(s) == start && Value(s) == t
    modifies Nodes(s)
    ensures Laid(s') && Root(s') == root && Nodes(s') == Nodes(s) && Value(s') == Splay(t, key) && rounds == Rounds(t, key)
  {
    hide Loop, Rounds, ZigLeft, ZigRight, Splay, Assemble, Size;
    EmptySplay(s, key);
    if start == null {
      return start, s, 0;
    }
    rounds := 0;
    assert allocated(Nodes(s));
    var header := new Node(0);
    var l: Node, r: Node, top: Node := header, header, start;
    ghost var w, st := Work([], s, []), State([], t, []);
    assert Laid(s) && Value(s) == t;
    var stop := false;
    while !stop && key != top.key
      modifies header, Nodes(s)
      invariant Running(w, header, l, r, top) && WorkNodes(w) == Nodes(s) && StateOf(w) == st && st.tree.Fork?
      invariant rounds + (if stop then 0 else Rounds(st.tree, key)) == Rounds(t, key)
      invariant if stop then st == Loop(State([], t, []), key) else Loop(st, key) == Loop(State([], t, []), key)
      decreases !stop, Size(st.tree)
    {
      rounds := rounds + 1;
      OneRound(st, key);
      if key < top.key {
        top, w := ZigLeftAt(top, key, w, st, header, l, r);
        st := st.(tree := ZigLeft(st.tree, key));
        LeftIs(w.tree, st.tree);
        if top.left == null {
          stop := true;
        } else {
          var next;
          next, w := StepLeft(top, r, header, w, st, l);
          r, top, st := top, next, LinkRight(st, st.tree);
        }
      } else {
        top, w := ZigRightAt(top, key, w, st, header, l, r);
        st := st.(tree := ZigRight(st.tree, key));
        LeftIs(w.tree, st.tree);
        if top.right == null {
          stop := true;
        } else {
          var next;
          next, w := StepRight(top, l, header, w, st, r);
          l, top, st := top, next, LinkLeft(st, st.tree);
        }
      }
    }
    OneRound(st, key);
    rounds := if stop then rounds else rounds + 1;
    root := top;
    TailNode(w.small, header);
    TailNode(w.large, header);
    s' := Reassemble(top, l, r, header, w, st);
  }

  lemma LeftIs(s: Shape, t: Tree)
    requires Laid(s) && Value(s) == t && t.Fork?
    ensures s.node.left == null <==> t.left.Leaf?
    ensures s.node.right == null <==> t.right.Leaf?
    ensures Value(s.left) == t.left && Value(s.right) == t.right && s.node.key == t.key
  {
    assert Value(s.left) == t.left && Value(s.right) == t.right;
  }

  // ----- insertion

  ghost function Rights(ls: seq<Link>): (rs: seq<bool>)
    ensures |rs| == |ls|
  {
    seq(|ls|, i requires 0 <= i < |ls| => ls[i].opensRight)
  }

  lemma {:induction false} ClosedAround(ls: seq<Link>, x: Shape)
    ensures Value(Closed(ls, x)) == Around(Frames(ls), Rights(ls), Value(x))
    decreases |ls|
  {
    if ls != [] {
      var n := |ls| - 1;
      ClosedAround(ls[..n], Filled(ls[n], x));
      assert Frames(ls)[..n] == Frames(ls[..n]) && Rights(ls)[..n] == Rights(ls[..n]);
    }
  }

  /** A walk from the root of `s` has come to the subtree `x` over the nodes of `ls`. */
  ghost predicate Walking(s: Shape, ls: seq<Link>, x: Shape, key: int)
    reads LinkNodes(ls), Nodes(x)
  {
    && Closed(ls, x) == s
    && Chain(ls) && Laid(x) && Nodes(x) !! LinkNodes(ls)
    && (ls != [] ==> ls[|ls| - 1].node in LinkNodes(ls) && Open(ls[|ls| - 1]) == Root(x))
    && Follows(Frames(ls), Rights(ls), key)
  }

  lemma WalkStarts(s: Shape, key: int)
    requires Laid(s)
    ensures Walking(s, [], s, key)
  {
  }

  lemma WalkOn(s: Shape, ls: seq<Link>, x: Shape, key: int)
    requires Walking(s, ls, x, key) && x.At? && key != x.node.key
    ensures key < x.node.key ==> Walking(s, ls + [Link(x.node, x.right, false)], x.left, key)
    ensures key > x.node.key ==> Walking(s, ls + [Link(x.node, x.left, true)], x.right, key)
    ensures x.node.left == Root(x.left) && x.node.right == Root(x.right)
  {
    var f := if key < x.node.key then Link(x.node, x.right, false) else Link(x.node, x.left, true);
    var ls' := ls + [f];
    assert ls'[..|ls|] == ls;
    PushedNodes(ls, f);
    Push(ls, f);
  }

  lemma WalkedIn(s: Shape, ls: seq<Link>, x: Shape, key: int)
    requires Walking(s, ls, x, key)
    ensures Nodes(s) == LinkNodes(ls) + Nodes(x) && Value(s) == Around(Frames(ls), Rights(ls), Value(x))
    ensures InsertNode(Value(s), key) == Around(Frames(ls), Rights(ls), InsertNode(Value(x), key))
    ensures ls != [] ==> Root(s) == ls[0].node
    ensures Chain(ls) && Follows(Frames(ls), Rights(ls), key)
  {
    ClosedNodes(ls, x);
    ClosedAround(ls, x);
    InsertAround(Frames(ls), Rights(ls), Value(x), key);
  }

  lemma OneLook(x: Shape, key: int)
    requires x.At?
    ensures Walk(Value(x), key) == 1 + if key == x.node.key then 0 else Walk(Value(if key < x.node.key then x.left else x.right), key)
  {
  }

  lemma NoLook(key: int)
    ensures Walk(Leaf, key) == 0 && Value(Nil) == Leaf
  {
  }

  /** Walks down to where the key belongs and hangs the new node there, unless the key is met on the way. */
  method InsertNodeAt(root: Node?, node: Node, ghost s: Shape, ghost t: Tree)
    returns (r: Node, ghost s': Shape, ghost looked: nat)
    requires Laid(s) && Root(s) == root && Value(s) == t
    requires node !in Nodes(s) && node.left == null && node.right == null
    modifies Nodes(s)
    ensures Laid(s') && Root(s') == r && Nodes(s') <= Nodes(s) + {node}
    ensures Value(s') == InsertNode(t, node.key) && looked == Walk(t, node.key)
  {
    hide Walk, Around, Walking, Chain, Follows;
    looked := 0;
    var x: Node?, y: Node? := root, null;
    ghost var ls: seq<Link>, sx := [], s;
    WalkStarts(s, node.key);
    while x != null
      modifies {}
      invariant Walking(s, ls, sx, node.key) && Root(sx) == x && Laid(s) && Value(s) == t
      invariant y == if ls == [] then null else ls[|ls| - 1].node
      invariant looked + Walk(Value(sx), node.key) == Walk(t, node.key)
      decreases sx
    {
      y := x;
      looked := looked + 1;
      OneLook(sx, node.key);
      if node.key < x.key {
        WalkOn(s, ls, sx, node.key);
        x := x.left;
        ls, sx := ls + [Link(sx.node, sx.right, false)], sx.left;
      } else if node.key > x.key {
        WalkOn(s, ls, sx, node.key);
        x := x.right;
        ls, sx := ls + [Link(sx.node, sx.left, true)], sx.right;
      } else {
        WalkedIn(s, ls, sx, node.key);
        assert InsertNode(Value(sx), node.key) == Value(sx);
        return root, s, looked;
      }
    }
    NoLook(node.key);
    WalkedIn(s, ls, sx, node.key);
    ghost var leaf := At(node, Nil, Nil);
    LeafNode(node);
    if y == null {
      return node, leaf, looked;
    }
    r, s' := HangLeaf(root, node, y, ls, leaf, t);
  }

  lemma LeafNode(node: Node)
    requires node.left == null && node.right == null
    ensures Laid(At(node, Nil, Nil)) && Value(At(node, Nil, Nil)) == Fork(Leaf, node.key, Leaf)
  {
    assert Value(Nil) == Leaf;
  }

  method HangLeaf(root: Node?, node: Node, y: Node, ghost ls: seq<Link>, ghost leaf: Shape, ghost t: Tree)
    returns (r: Node, ghost s': Shape)
    requires Chain(ls) && ls != [] && y == ls[|ls| - 1].node && node !in LinkNodes(ls)
    requires leaf == At(node, Nil, Nil) && node.left == null && node.right == null
    requires Follows(Frames(ls), Rights(ls), node.key)
    requires root == ls[0].node && InsertNode(t, node.key) == Around(Frames(ls), Rights(ls), InsertNode(Leaf, node.key))
    modifies y
    ensures Laid(s') && Root(s') == r && Nodes(s') == LinkNodes(ls) + {node}
    ensures Value(s') == InsertNode(t, node.key)
  {
    var right := !(node.key < y.key);
    assert ls[|ls| - 1].opensRight == right;
    LeafNode(node);
    SetEnd(y, node, right, y, ls, leaf, []);
    s' := Closed(ls, leaf);
    ClosedNodes(ls, leaf);
    ClosedLaid(ls, leaf);
    ClosedAround(ls, leaf);
    r := root;
  }

  // ----- removal

  method SearchNode(root: Node?, key: int, ghost s: Shape, ghost t: Tree) returns (found: Node?, ghost looked: nat)
    requires Laid(s) && Root(s) == root && Value(s) == t
    ensures (found != null <==> Search(t, key)) && looked == Walk(t, key)
    decreases s
  {
    if root == null {
      return null, 0;
    }
    if root.key == key {
      return root, 1;
    }
    if key < root.key {
      found, looked := SearchNode(root.left, key, s.left, t.left);
    } else {
      found, looked := SearchNode(root.right, key, s.right, t.right);
    }
    looked := looked + 1;
  }

  /** Splays the key to the root, then joins the two subtrees under the greatest node of the left one. */
  method RemoveAt(start: Node?, key: int, ghost s: Shape, ghost t: Tree)
    returns (x: Node?, ghost s': Shape, ghost cost: nat)
    requires Laid(s) && Root(s) == start && Value(s) == t && Ordered(t)
    modifies Nodes(s)
    ensures Laid(s') && Root(s') == x && Nodes(s') <= Nodes(s) && Value(s') == Remove(t, key)
    ensures cost == SplayCost.Cost(t, SplayCost.Delete(key))
  {
    assert allocated(Nodes(s));
    var found;
    ghost var looked;
    found, looked := SearchNode(start, key, s, t);
    if start == null || found == null {
      return start, s, looked;
    }
    SearchFinds(t, key);
    SplayFinds(t, key);
    var root;
    ghost var s1, first, second;
    root, s1, first := SplayAt(start, key, s, t);
    x, s', second := JoinBelow(root, key, s1, Splay(t, key));
    cost := looked + (first + second);
  }

  method JoinBelow(root: Node, key: int, ghost s: Shape, ghost t: Tree) returns (x: Node?, ghost s': Shape, ghost rounds: nat)
    requires Laid(s) && Root(s) == root && Value(s) == t && t.Fork? && Ordered(t) && t.key == key
    modifies Nodes(s)
    ensures Laid(s') && Root(s') == x && Nodes(s') <= Nodes(s)
    ensures Value(s') == if t.left.Fork? then var u := Splay(t.left, key); Fork(u.left, u.key, t.right) else t.right
    ensures rounds == Rounds(t.left, key)
  {
    hide Splay, Ordered;
    rounds := 0;
    LeftIs(s, t);
    OrderedFork(t.left, t.key, t.right);
    if root.left != null {
      SplayToGreatest(t.left, key);
      ghost var sl;
      assert allocated(Nodes(s.right)) && allocated({root});
      x, sl, rounds := SplayAt(root.left, key, s.left, t.left);
      assert Laid(s.right) && Value(s.right) == t.right && root.right == Root(s.right);
      LeftIs(sl, Splay(t.left, key));
      x.right := root.right;
      assert Laid(sl.left) && Laid(s.right);
      s' := At(x, sl.left, s.right);
    } else {
      x, s' := root.right, s.right;
    }
  }

  lemma RemoveStaysOrdered(t: Tree, key: int)
    requires Ordered(t)
    ensures Ordered(Remove(t, key))
  {
    RemoveTakesOut(t, key);
  }

  lemma InsertStaysOrdered(t: Tree, key: int)
    requires Ordered(t)
    ensures Ordered(Insert(t, key)) && Insert(t, key).Fork? && Insert(t, key).key == key
  {
    InsertAddsAtRoot(t, key);
  }

  /** The tree object: the root field that the operations reassign. */
  class SplayObject {
    var root: Node?
    ghost var shape: Shape

    ghost function Repr(): set<object>
      reads this
    {
      {this} + Nodes(shape)
    }

    ghost predicate Ok()
      reads this, Nodes(shape)
    {
      Laid(shape) && Root(shape) == root && Ordered(Value(shape))
    }

    constructor ()
      ensures Ok() && Value(shape) == Leaf && fresh(Repr())
    {
      root, shape := null, Nil;
    }

    /** Adds a key in place and brings it to the root. */
    method Add(key: int) returns (ghost cost: nat)
      requires Ok()
      modifies this, Nodes(shape)
      ensures Ok() && Value(shape) == Insert(old(Value(shape)), key)
      ensures root != null && root.key == key && cost == SplayCost.Cost(old(Value(shape)), SplayCost.Add(key))
      ensures fresh(Repr() - old(Repr()))
    {
      hide Laid, Value, Nodes, InsertNode, Splay, Ordered, Rounds, Walk;
      ghost var t := Value(shape);
      InsertStaysOrdered(t, key);
      assert allocated(Nodes(shape));
      var z := new Node(key);
      var r;
      ghost var s, looked, rounds;
      assert Laid(shape) && Value(shape) == t;
      r, s, looked := InsertNodeAt(root, z, shape, t);
      var top;
      top, s, rounds := SplayAt(r, key, s, InsertNode(t, key));
      cost := looked + rounds;
      TopIs(s, Insert(t, key));
      root, shape := top, s;
    }

    method Delete(key: int) returns (ghost cost: nat)
      requires Ok()
      modifies this, Nodes(shape)
      ensures Ok() && Value(shape) == Remove(old(Value(shape)), key) && Repr() <= old(Repr())
      ensures cost == SplayCost.Cost(old(Value(shape)), SplayCost.Delete(key))
    {
      hide Laid, Value, Nodes, Remove, Ordered, SplayCost.Cost;
      ghost var t := Value(shape);
      RemoveStaysOrdered(t, key);
      var x;
      ghost var s;
      x, s, cost := RemoveAt(root, key, shape, t);
      root, shape := x, s;
    }
  }
}
