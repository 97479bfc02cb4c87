/** The order of visits is determined by the graph, the data of its vertices and the start: what the contracts of the traversals
    say of it leaves no choice. */
module TraversalOrder {
  import opened GraphPaths
  import opened GraphTraversal

  lemma SameLength(g: Adjacency, s: nat, p: seq<nat>, q: seq<nat>)
    requires Complete(g, s, p) && Complete(g, s, q)
    ensures |p| == |q|
  {
    hide Reachable;
    MembersCount(p);
    MembersCount(q);
    assert forall v: nat :: v in p <==> v in q;
    assert Members(p) == Members(q);
  }

  /** Where the orders part, what one visits next comes later in the other. */
  lemma ComesLater(g: Adjacency, s: nat, p: seq<nat>, q: seq<nat>, n: nat) returns (i: nat)
    requires Complete(g, s, p) && Complete(g, s, q) && n < |p| && n < |q| && p[..n] == q[..n] && p[n] != q[n]
    ensures n < i < |p| && p[i] == q[n]
  {
    hide Reachable;
    assert q[n] in q;
    assert forall k :: 0 <= k < n ==> p[..n][k] == p[k] && q[..n][k] == q[k];
    i :| 0 <= i < |p| && p[i] == q[n];
  }

  /** Who puts in a vertex is decided by what comes before. */
  lemma SameFirst(g: Adjacency, p: seq<nat>, q: seq<nat>, n: nat, d: nat, i: nat)
    requires FirstEdge(g, q, d, n) && n <= i < |p| && n <= |q| && p[..n] == q[..n] && p[i] == q[n]
    ensures FirstEdge(g, p, d, i)
  {
    hide Edge;
    assert forall c :: 0 <= c < n ==> p[..n][c] == p[c] && q[..n][c] == q[c];
    assert forall c :: 0 <= c < n ==> p[c] == q[c];
  }

  lemma NotBefore(g: Adjacency, data: seq<int>, p: seq<nat>, q: seq<nat>, n: nat, d: nat, e: nat, i: nat)
    requires BreadthFirst(g, data, p) && FirstEdge(g, p, d, n) && FirstEdge(g, q, e, n)
    requires 1 <= n < i < |p| && n < |q| && p[..n] == q[..n] && p[i] == q[n]
    ensures p[n] < |data| && q[n] < |data| && d <= e && (d == e ==> data[p[n]] <= data[q[n]])
  {
    hide Edge;
    SameFirst(g, p, q, n, e, i);
    assert FirstEdge(g, p, d, n) && FirstEdge(g, p, e, i);
  }

  lemma BreadthNext(g: Adjacency, data: seq<int>, s: nat, p: seq<nat>, q: seq<nat>, n: nat)
    requires Complete(g, s, p) && Complete(g, s, q) && BreadthFirst(g, data, p) && BreadthFirst(g, data, q) && DistinctData(data)
    requires 1 <= n < |p| == |q| && p[..n] == q[..n]
    ensures p[n] == q[n]
  {
    hide Complete, FirstEdge;
    if p[n] != q[n] {
      var i := ComesLater(g, s, p, q, n);
      var j := ComesLater(g, s, q, p, n);
      assert HasFirst(g, p, n) && HasFirst(g, q, n);
      var d: nat :| FirstEdge(g, p, d, n);
      var e: nat :| FirstEdge(g, q, e, n);
      NotBefore(g, data, p, q, n, d, e, i);
      NotBefore(g, data, q, p, n, e, d, j);
    }
  }

  /** There is one breadth-first order. */
  lemma {:induction false} BreadthFirstPrefix(g: Adjacency, data: seq<int>, s: nat, p: seq<nat>, q: seq<nat>, n: nat)
    requires BreadthTraversal(g, data, s, p) && BreadthTraversal(g, data, s, q) && DistinctData(data) && n <= |p| == |q|
    ensures p[..n] == q[..n]
  {
    hide Complete, BreadthFirst, DistinctData, ByDistance;
    if n > 0 {
      BreadthFirstPrefix(g, data, s, p, q, n - 1);
      if n > 1 {
        BreadthNext(g, data, s, p, q, n - 1);
      }
      assert p[..n] == p[..n - 1] + [p[n - 1]] && q[..n] == q[..n - 1] + [q[n - 1]];
    }
  }

  lemma BreadthFirstUnique(g: Adjacency, data: seq<int>, s: nat, p: seq<nat>, q: seq<nat>)
    requires BreadthTraversal(g, data, s, p) && BreadthTraversal(g, data, s, q) && DistinctData(data)
    ensures p == q
  {
    hide Complete, BreadthFirst, DistinctData, ByDistance;
    SameLength(g, s, p, q);
    BreadthFirstPrefix(g, data, s, p, q, |p|);
    assert p[..|p|] == p && q[..|q|] == q;
  }

  // ----- depth first

  /** Every vertex but the first is a neighbour of one before it: otherwise what comes before could not be left. */
  lemma AllAttached(g: Adjacency, s: nat, p: seq<nat>, b: nat)
    requires Complete(g, s, p) && DepthFirst(g, p, 0) && 0 < b < |p| && p[0] == s
    ensures Attached(g, p, 0, b)
  {
    hide Reachable, Within, Edge;
    if !Attached(g, p, 0, b) {
      var closed := Members(p[..b]);
      forall u: nat, w: nat | u in closed && Edge(g, u, w)
        ensures w in closed
      {
        var a :| 0 <= a < b && p[a] == u;
        StaysIn(g, s, p, a, b, w);
      }
      assert p[b] in p;
      NotInPrefix(p, b);
      InClosed(g, s, closed, p[b]);
    }
  }

  lemma StaysIn(g: Adjacency, s: nat, p: seq<nat>, a: nat, b: nat, w: nat)
    requires Complete(g, s, p) && DepthFirst(g, p, 0) && a < b < |p| && !Attached(g, p, 0, b) && Edge(g, p[a], w)
    ensures w in p[..b]
  {
    hide Edge;
    assert p[a] in p;
    var k: nat :| Within(g, s, p[a], k);
    WithinStep(g, s, p[a], w, k);
    assert w in p;
    var c :| 0 <= c < |p| && p[c] == w;
    assert c > b ==> Attached(g, p, a, b);
    assert c != b;
    assert p[..b][c] == w;
  }

  lemma NotInPrefix(p: seq<nat>, b: nat)
    requires NoDuplicates(p) && b < |p|
    ensures p[b] !in Members(p[..b])
  {
  }

  lemma InClosed(g: Adjacency, s: nat, closed: set<nat>, v: nat)
    requires s in closed && (forall u: nat, w: nat :: u in closed && Edge(g, u, w) ==> w in closed) && Reachable(g, s, v)
    ensures v in closed
  {
    var k: nat :| Within(g, s, v, k);
    ClosedHoldsReachable(g, s, closed, v, k);
  }

  /** The vertex at `d` is the last before `b` to have it as a neighbour. */
  ghost predicate LastEdge(g: Adjacency, p: seq<nat>, d: nat, b: nat) {
    d < b < |p| && Edge(g, p[d], p[b]) && forall k :: d < k < b ==> !Edge(g, p[k], p[b])
  }

  lemma {:induction false} FindLast(g: Adjacency, p: seq<nat>, b: nat, n: nat) returns (d: nat)
    requires n <= b < |p| && (exists k :: 0 <= k < n && Edge(g, p[k], p[b])) && forall k :: n <= k < b ==> !Edge(g, p[k], p[b])
    ensures LastEdge(g, p, d, b)
    decreases n
  {
    if Edge(g, p[n - 1], p[b]) {
      d := n - 1;
    } else {
      d := FindLast(g, p, b, n - 1);
    }
  }

  lemma NotDeeper(g: Adjacency, data: seq<int>, p: seq<nat>, q: seq<nat>, n: nat, d: nat, e: nat, i: nat)
    requires DepthFirst(g, p, 0) && ChildrenSorted(g, data, p, 0) && LastEdge(g, p, d, n) && LastEdge(g, q, e, n)
    requires n < i < |p| && n < |q| && p[..n] == q[..n] && p[i] == q[n]
    ensures p[n] < |data| && q[n] < |data| && e <= d && (d == e ==> data[p[n]] <= data[q[n]])
  {
    hide Edge;
    assert p[e] == p[..n][e] == q[e];
    assert Edge(g, p[e], p[i]);
    assert Attached(g, p, e, n);
    assert e <= d;
    assert !Attached(g, p, d + 1, n);
  }

  lemma DepthNext(g: Adjacency, data: seq<int>, s: nat, p: seq<nat>, q: seq<nat>, n: nat)
    requires DepthTraversal(g, data, s, p) && DepthTraversal(g, data, s, q) && DistinctData(data)
    requires 1 <= n < |p| == |q| && p[..n] == q[..n]
    ensures p[n] == q[n]
  {
    hide Complete, LastEdge, DepthFirst, ChildrenSorted;
    if p[n] != q[n] {
      var i := ComesLater(g, s, p, q, n);
      var j := ComesLater(g, s, q, p, n);
      AllAttached(g, s, p, n);
      AllAttached(g, s, q, n);
      var d := FindLast(g, p, n, n);
      var e := FindLast(g, q, n, n);
      NotDeeper(g, data, p, q, n, d, e, i);
      NotDeeper(g, data, q, p, n, e, d, j);
    }
  }

  lemma {:induction false} DepthFirstPrefix(g: Adjacency, data: seq<int>, s: nat, p: seq<nat>, q: seq<nat>, n: nat)
    requires DepthTraversal(g, data, s, p) && DepthTraversal(g, data, s, q) && DistinctData(data) && n <= |p| == |q|
    ensures p[..n] == q[..n]
  {
    hide Complete, DepthFirst, ChildrenSorted, DistinctData;
    if n > 0 {
      DepthFirstPrefix(g, data, s, p, q, n - 1);
      if n > 1 {
        DepthNext(g, data, s, p, q, n - 1);
      }
      assert p[..n] == p[..n - 1] + [p[n - 1]] && q[..n] == q[..n - 1] + [q[n - 1]];
    }
  }

  /** There is one depth-first order. */
  lemma DepthFirstUnique(g: Adjacency, data: seq<int>, s: nat, p: seq<nat>, q: seq<nat>)
    requires DepthTraversal(g, data, s, p) && DepthTraversal(g, data, s, q) && DistinctData(data)
    ensures p == q
  {
    hide Complete, DepthFirst, ChildrenSorted, DistinctData;
    SameLength(g, s, p, q);
    DepthFirstPrefix(g, data, s, p, q, |p|);
    assert p[..|p|] == p && q[..|q|] == q;
  }
}
