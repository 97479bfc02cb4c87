/** Breadth-first and depth-first traversal over the fixed-size arrays of the source. */
module GraphTraversal {
  import opened GraphPaths
  import GraphNodes
  import GraphArcs

  // ----- the neighbours of a vertex

  ghost predicate SomeOf(part: seq<nat>, s: seq<nat>) {
    forall i :: 0 <= i < |part| ==> part[i] in s
  }

  /** Copies the neighbours into an array; with `skip` only those not visited yet, as in undirected graphs. The array does not
      overflow because there are no parallel edges. */
  method CollectNeighbors(g: Adjacency, q: nat, visited: array<bool>, skip: bool)
    returns (neighbors: array<nat>, counter: nat)
    requires GraphOk(g) && q < |g| && visited.Length == MAX_VERTICES
    ensures fresh(neighbors) && neighbors.Length == MAX_VERTICES && counter <= MAX_VERTICES
    ensures SomeOf(neighbors[..counter], g[q])
    ensures forall w :: w in g[q] ==> w < MAX_VERTICES && (visited[w] || w in neighbors[..counter])
  {
    neighbors := new nat[MAX_VERTICES](_ => 0);
    counter := 0;
    var list := g[q];
    assert ListOk(|g|, list);
    FewDistinct(list, |g|);
    for i := 0 to |list|
      invariant counter <= i <= |list| <= MAX_VERTICES
      invariant SomeOf(neighbors[..counter], list)
      invariant forall k :: 0 <= k < i ==> visited[list[k]] || list[k] in neighbors[..counter]
    {
      if !skip || !visited[list[i]] {
        ghost var before := neighbors[..counter];
        neighbors[counter] := list[i];
        counter := counter + 1;
        assert neighbors[..counter] == before + [list[i]];
      }
    }
  }

  ghost predicate SortedBy(data: seq<int>, s: seq<nat>) {
    forall i, j :: 0 <= i < j < |s| && s[i] < |data| && s[j] < |data| ==> data[s[i]] <= data[s[j]]
  }

  ghost predicate Valid(s: seq<nat>, n: nat) {
    forall i :: 0 <= i < |s| ==> s[i] < n
  }

  /** `sortNeighbors`: insertion sort of the first `size` cells by the data of the vertices. */
  method SortNeighbors(neighbors: array<nat>, size: nat, data: seq<int>)
    requires size <= neighbors.Length && Valid(neighbors[..size], |data|)
    modifies neighbors
    ensures multiset(neighbors[..size]) == old(multiset(neighbors[..size]))
    ensures SortedBy(data, neighbors[..size])
  {
    if size == 0 {
      return;
    }
    ghost var bag := multiset(neighbors[..size]);
    for i := 1 to size
      invariant multiset(neighbors[..size]) == bag && Valid(neighbors[..size], |data|)
      invariant SortedBy(data, neighbors[..size][..i])
    {
      InsertAt(neighbors, size, i, data);
    }
  }

  /** One round: the cell at `i` moves down to its place. */
  method InsertAt(neighbors: array<nat>, size: nat, i: nat, data: seq<int>)
    requires 1 <= i < size <= neighbors.Length && Valid(neighbors[..size], |data|)
    requires SortedBy(data, neighbors[..size][..i])
    modifies neighbors
    ensures multiset(neighbors[..size]) == old(multiset(neighbors[..size])) && Valid(neighbors[..size], |data|)
    ensures SortedBy(data, neighbors[..size][..i + 1])
  {
    hide Gapped, Moved, SortedBy, Valid, Passed;
    ghost var was: seq<nat> := neighbors[..size];
    var temp := neighbors[i];
    var p := ShiftUp(neighbors, size, i, data);
    ghost var before: seq<nat> := neighbors[..size];
    StoreAt(neighbors, size, p, temp, before);
    GapFilled(was, before, neighbors[..size], i, p);
    MovedBag(was, neighbors[..size], i, p);
    MovedSorted(was, neighbors[..size], i, p, data);
  }

  /** What lies from `p` to below `i` belongs behind the cell at `i`. */
  ghost predicate Passed(s: seq<nat>, i: nat, p: nat, data: seq<int>) {
    p <= i < |s| && s[i] < |data| && forall k :: p <= k < i ==> s[k] < |data| && data[s[k]] > data[s[i]]
  }

  /** The inner loop. */
  method ShiftUp(neighbors: array<nat>, size: nat, i: nat, data: seq<int>) returns (p: nat)
    requires 1 <= i < size <= neighbors.Length && Valid(neighbors[..size], |data|)
    modifies neighbors
    ensures p <= i && Gapped(old(neighbors[..size]), neighbors[..size], i, p)
    ensures Passed(old(neighbors[..size]), i, p, data)
    ensures p > 0 ==> var s := old(neighbors[..size]);
                      s[p - 1] < |data| && s[i] < |data| && data[s[p - 1]] <= data[s[i]]
  {
    hide Gapped, Passed, Valid, GapSource;
    ghost var was: seq<nat> := neighbors[..size];
    ghost var now := was;
    var temp := neighbors[i];
    p := i;
    NoGap(was, i);
    NonePassed(was, i, data);
    var prev := ReadAt(neighbors, size, i - 1, now);
    while p > 0 && data[prev] > data[temp]
      invariant neighbors[..size] == now && |now| == size && p <= i && Gapped(was, now, i, p) && Passed(was, i, p, data)
      invariant temp == was[i] < |data| && (p > 0 ==> prev == was[p - 1] < |data|)
    {
      GapMoves(was, now, i, p);
      GapAt(was, now, i, p);
      OneMorePassed(was, i, p, data);
      StoreAt(neighbors, size, p, prev, now);
      now := now[p := prev];
      p := p - 1;
      if p > 0 {
        GapAt(was, now, i, p);
        prev := ReadAt(neighbors, size, p - 1, now);
      }
    }
  }

  method StoreAt(a: array<nat>, size: nat, k: nat, x: nat, ghost now: seq<nat>)
    requires k < size <= a.Length && a[..size] == now
    modifies a
    ensures a[..size] == now[k := x]
  {
    a[k] := x;
  }

  method ReadAt(a: array<nat>, size: nat, k: nat, ghost now: seq<nat>) returns (x: nat)
    requires k < size <= a.Length && a[..size] == now
    ensures x == now[k]
  {
    x := a[k];
  }

  lemma NonePassed(s: seq<nat>, i: nat, data: seq<int>)
    requires Valid(s, |data|) && 1 <= i < |s|
    ensures Passed(s, i, i, data) && s[i] < |data| && s[i - 1] < |data|
  {
  }

  lemma OneMorePassed(s: seq<nat>, i: nat, p: nat, data: seq<int>)
    requires Valid(s, |data|) && Passed(s, i, p, data) && 0 < p <= i < |s| && s[p - 1] < |data| && s[i] < |data|
    requires data[s[p - 1]] > data[s[i]]
    ensures Passed(s, i, p - 1, data) && (p > 1 ==> s[p - 2] < |data|)
  {
  }

  lemma NoGap(s: seq<nat>, i: nat)
    requires i < |s|
    ensures Gapped(s, s, i, i)
  {
  }

  function GapSource(i: nat, p: nat, k: nat): nat {
    if p < k <= i then k - 1 else k
  }

  /** The cells from `p` to below `i` have been copied one place up. */
  ghost predicate Gapped(s: seq<nat>, r: seq<nat>, i: nat, p: nat) {
    |r| == |s| && p <= i < |s| && forall k: nat :: k < |s| ==> r[k] == s[GapSource(i, p, k)]
  }

  lemma GapMoves(s: seq<nat>, r: seq<nat>, i: nat, p: nat)
    requires Gapped(s, r, i, p) && p > 0
    ensures Gapped(s, r[p := r[p - 1]], i, p - 1)
  {
    assert r[p - 1] == s[GapSource(i, p, p - 1)];
  }

  lemma GapAt(s: seq<nat>, r: seq<nat>, i: nat, p: nat)
    requires Gapped(s, r, i, p)
    ensures p > 0 ==> r[p - 1] == s[p - 1]
  {
  }

  lemma GapFilled(s: seq<nat>, r: seq<nat>, r': seq<nat>, i: nat, p: nat)
    requires Gapped(s, r, i, p) && r' == r[p := s[i]]
    ensures Moved(s, r', i, p)
  {
  }

  function Source(i: nat, p: nat, k: nat): nat {
    if k == p then i else GapSource(i, p, k)
  }

  /** The cell at `i` has gone to `p`, and those between have moved up. */
  ghost predicate Moved(s: seq<nat>, r: seq<nat>, i: nat, p: nat) {
    |r| == |s| && p <= i < |s| && forall k: nat :: k < |s| ==> r[k] == s[Source(i, p, k)]
  }

  lemma MovedBag(s: seq<nat>, r: seq<nat>, i: nat, p: nat)
    requires Moved(s, r, i, p)
    ensures multiset(r) == multiset(s)
  {
    var a, b, c := s[..p], s[p..i], s[i + 1..];
    assert s == a + (b + ([s[i]] + c));
    assert r == a + ([s[i]] + (b + c));
    SameBag(a, b, [s[i]], c);
  }

  lemma SameBag(a: seq<nat>, b: seq<nat>, x: seq<nat>, c: seq<nat>)
    ensures multiset(a + (b + (x + c))) == multiset(a + (x + (b + c)))
  {
    assert multiset(a + (b + (x + c))) == multiset(a) + multiset(b) + multiset(x) + multiset(c);
    assert multiset(a + (x + (b + c))) == multiset(a) + multiset(x) + multiset(b) + multiset(c);
  }

  lemma MovedSorted(s: seq<nat>, r: seq<nat>, i: nat, p: nat, data: seq<int>)
    requires Moved(s, r, i, p) && Valid(s, |data|) && SortedBy(data, s[..i])
    requires Passed(s, i, p, data) && (p > 0 ==> data[s[p - 1]] <= data[s[i]])
    ensures Valid(r, |data|) && SortedBy(data, r[..i + 1])
  {
    forall k: nat | k < |r|
      ensures r[k] < |data|
    {
      assert r[k] == s[Source(i, p, k)];
    }
    forall a: nat, b: nat | a < b <= i
      ensures data[r[a]] <= data[r[b]]
    {
      InOrder(s, i, p, data, Source(i, p, a), Source(i, p, b));
      assert r[a] == s[Source(i, p, a)] && r[b] == s[Source(i, p, b)];
    }
  }

  lemma InOrder(s: seq<nat>, i: nat, p: nat, data: seq<int>, a: nat, b: nat)
    requires p <= i < |s| && a <= i && b <= i && Valid(s, |data|) && SortedBy(data, s[..i])
    requires Passed(s, i, p, data) && (p > 0 ==> data[s[p - 1]] <= data[s[i]])
    requires (a < b < i) || (a == i && p <= b < i) || (b == i && a < p)
    ensures data[s[a]] <= data[s[b]]
  {
    var t := s[..i];
    assert forall k :: 0 <= k < i ==> t[k] == s[k];
    if b == i {
      assert a < p - 1 ==> data[t[a]] <= data[t[p - 1]];
    } else if a < i {
      assert data[t[a]] <= data[t[b]];
    }
  }

  // ----- breadth first

  ghost predicate Monotone(dist: seq<nat>) {
    forall i, j :: 0 <= i < j < |dist| ==> dist[i] <= dist[j]
  }

  ghost predicate Exact(g: Adjacency, s: nat, order: seq<nat>, dist: seq<nat>) {
    |dist| == |order| && forall i :: 0 <= i < |order| ==> Distance(g, s, order[i], dist[i])
  }

  /** All neighbours have been put in. */
  ghost predicate Expanded(g: Adjacency, order: seq<nat>, v: nat) {
    forall w: nat :: Edge(g, v, w) ==> w in order
  }

  /** What is at most `d` away has been put in. */
  ghost predicate Covered(g: Adjacency, s: nat, order: seq<nat>, d: nat) {
    forall v: nat :: Within(g, s, v, d) ==> v in order
  }

  /** The vertices put in the queue so far with their distances, those before `front` having been expanded: distances rise,
      by one at most from the front to the end, and everything as near as the front is in. */
  ghost predicate Queued(g: Adjacency, s: nat, order: seq<nat>, dist: seq<nat>, front: nat) {
    && front <= |order| && order != [] && order[0] == s && ListOk(|g|, order)
    && Exact(g, s, order, dist) && Monotone(dist)
    && (forall i :: 0 <= i < front ==> Expanded(g, order, order[i]))
    && (front < |order| ==> dist[|dist| - 1] <= dist[front] + 1 && Covered(g, s, order, dist[front]))
  }

  lemma QueueStarts(g: Adjacency, s: nat)
    requires s < |g|
    ensures Queued(g, s, [s], [0], 0)
  {
    assert Distance(g, s, s, 0);
  }

  /** A neighbour of the front that is not in yet is one step further than the front. */
  lemma QueueGrows(g: Adjacency, s: nat, order: seq<nat>, dist: seq<nat>, front: nat, v: nat)
    requires GraphOk(g) && Queued(g, s, order, dist, front) && front < |order| && Edge(g, order[front], v) && v !in order
    ensures Queued(g, s, order + [v], dist + [dist[front] + 1], front)
  {
    hide Within, Distance, ListOk;
    var d := dist[front];
    var order', dist' := order + [v], dist + [d + 1];
    NewDistance(g, s, order[front], v, d, order);
    NewMember(g, order, order[front], v);
    assert forall w: nat :: w in order ==> w in order';
    forall i | 0 <= i < |order'|
      ensures Distance(g, s, order'[i], dist'[i])
    {
    }
    forall i | 0 <= i < front
      ensures Expanded(g, order', order'[i])
    {
      assert Expanded(g, order, order[i]);
    }
  }

  lemma NewDistance(g: Adjacency, s: nat, u: nat, v: nat, d: nat, order: seq<nat>)
    requires Distance(g, s, u, d) && Edge(g, u, v) && Covered(g, s, order, d) && v !in order
    ensures Distance(g, s, v, d + 1)
  {
    WithinStep(g, s, u, v, d);
  }

  lemma NewMember(g: Adjacency, order: seq<nat>, u: nat, v: nat)
    requires GraphOk(g) && ListOk(|g|, order) && Edge(g, u, v) && v !in order
    ensures v < |g| && ListOk(|g|, order + [v])
  {
    assert ListOk(|g|, g[u]);
  }

  /** When all its neighbours are in, the front moves on. */
  lemma QueueMoves(g: Adjacency, s: nat, order: seq<nat>, dist: seq<nat>, front: nat)
    requires Queued(g, s, order, dist, front) && front < |order| && Expanded(g, order, order[front])
    ensures Queued(g, s, order, dist, front + 1)
  {
    hide Within, Distance, ListOk, Edge;
    if front + 1 < |order| {
      var d, d' := dist[front], dist[front + 1];
      assert d <= d' <= dist[|dist| - 1];
      if d' == d + 1 {
        forall v: nat | Within(g, s, v, d')
          ensures v in order
        {
          NextLevel(g, s, order, dist, front, v);
        }
      }
    }
  }

  lemma NextLevel(g: Adjacency, s: nat, order: seq<nat>, dist: seq<nat>, front: nat, v: nat)
    requires Queued(g, s, order, dist, front) && front + 1 < |order| && Expanded(g, order, order[front])
    requires dist[front + 1] == dist[front] + 1 && Within(g, s, v, dist[front] + 1)
    ensures v in order
  {
    hide ListOk;
    var d := dist[front];
    if !Within(g, s, v, d) {
      var u: nat :| Within(g, s, u, d) && Edge(g, u, v);
      assert u in order;
      var i :| 0 <= i < |order| && order[i] == u;
      Nearer(g, s, u, d, dist[i]);
      assert i <= front;
      assert Expanded(g, order, order[i]);
    }
  }

  lemma Nearer(g: Adjacency, s: nat, u: nat, d: nat, e: nat)
    requires Within(g, s, u, d) && Distance(g, s, u, e)
    ensures e <= d
  {
    if e > d {
      WithinGrows(g, s, u, d, e - 1);
    }
  }

  /** The outcome of a traversal: each vertex that can be reached, once. */
  ghost predicate Complete(g: Adjacency, s: nat, visits: seq<nat>) {
    NoDuplicates(visits) && forall v: nat :: v in visits <==> Reachable(g, s, v)
  }

  lemma QueueDone(g: Adjacency, s: nat, order: seq<nat>, dist: seq<nat>)
    requires Queued(g, s, order, dist, |order|)
    ensures Complete(g, s, order)
  {
    hide Within;
    forall v: nat
      ensures v in order <==> Reachable(g, s, v)
    {
      if v in order {
        var i :| 0 <= i < |order| && order[i] == v;
        assert Distance(g, s, order[i], dist[i]);
      }
      if Reachable(g, s, v) {
        var k: nat :| Within(g, s, v, k);
        AllIn(g, s, order, v, k);
      }
    }
  }

  lemma AllIn(g: Adjacency, s: nat, order: seq<nat>, v: nat, k: nat)
    requires s in order && (forall i :: 0 <= i < |order| ==> Expanded(g, order, order[i])) && Within(g, s, v, k)
    ensures v in order
  {
    var closed := Members(order);
    forall u: nat, w: nat | u in closed && Edge(g, u, w)
      ensures w in closed
    {
      var i :| 0 <= i < |order| && order[i] == u;
      assert Expanded(g, order, order[i]);
    }
    ClosedHoldsReachable(g, s, closed, v, k);
  }

  // ----- in which order vertices are put in

  /** The vertex at `d` is the first to have the one at `i` as a neighbour. */
  ghost predicate FirstEdge(g: Adjacency, order: seq<nat>, d: nat, i: nat) {
    d < i < |order| && Edge(g, order[d], order[i]) && forall c :: 0 <= c < d ==> !Edge(g, order[c], order[i])
  }

  ghost predicate HasFirst(g: Adjacency, order: seq<nat>, i: nat) {
    exists d :: FirstEdge(g, order, d, i)
  }

  /** Every vertex but the first is put in by the one at `par`; vertices come by who puts them in, and those put in by one
      vertex come by their data. */
  ghost predicate Batched(g: Adjacency, data: seq<int>, order: seq<nat>, par: seq<nat>, front: nat) {
    && |par| == |order| && (forall i :: 0 <= i < |order| ==> order[i] < |data|)
    && (forall i :: 1 <= i < |order| ==> par[i] < front && FirstEdge(g, order, par[i], i))
    && (forall i, j :: 1 <= i < j < |order| ==> par[i] <= par[j])
    && (forall i, j :: 1 <= i < j < |order| && par[i] == par[j] ==> data[order[i]] <= data[order[j]])
  }

  /** The same without naming who puts in whom. */
  ghost predicate BreadthFirst(g: Adjacency, data: seq<int>, order: seq<nat>) {
    && (forall i :: 0 <= i < |order| ==> order[i] < |data|)
    && (forall i :: 1 <= i < |order| ==> HasFirst(g, order, i))
    && (forall i, j, d, e :: 1 <= i < j < |order| && FirstEdge(g, order, d, i) && FirstEdge(g, order, e, j) ==>
          d <= e && (d == e ==> data[order[i]] <= data[order[j]]))
  }

  lemma FirstEdgeUnique(g: Adjacency, order: seq<nat>, d: nat, e: nat, i: nat)
    requires FirstEdge(g, order, d, i) && FirstEdge(g, order, e, i)
    ensures d == e
  {
    assert Edge(g, order[d], order[i]) && Edge(g, order[e], order[i]);
  }

  lemma BatchedIsBreadthFirst(g: Adjacency, data: seq<int>, order: seq<nat>, par: seq<nat>, front: nat)
    requires Batched(g, data, order, par, front)
    ensures BreadthFirst(g, data, order)
  {
    hide FirstEdge;
    forall i | 1 <= i < |order|
      ensures HasFirst(g, order, i)
    {
      assert FirstEdge(g, order, par[i], i);
    }
    forall i, j, d, e | 1 <= i < j < |order| && FirstEdge(g, order, d, i) && FirstEdge(g, order, e, j)
      ensures d <= e && (d == e ==> data[order[i]] <= data[order[j]])
    {
      FirstEdgeUnique(g, order, d, par[i], i);
      FirstEdgeUnique(g, order, e, par[j], j);
    }
  }

  lemma BatchStarts(g: Adjacency, data: seq<int>, s: nat)
    requires s < |data|
    ensures Batched(g, data, [s], [0], 0)
  {
  }

  lemma BatchMoves(g: Adjacency, data: seq<int>, order: seq<nat>, par: seq<nat>, front: nat)
    requires Batched(g, data, order, par, front)
    ensures Batched(g, data, order, par, front + 1)
  {
    hide FirstEdge;
  }

  /** What the front has put in so far comes before `v`. */
  ghost predicate Behind(data: seq<int>, order: seq<nat>, par: seq<nat>, front: nat, v: nat)
    requires |par| == |order|
  {
    v < |data| && forall i :: 1 <= i < |order| && par[i] == front ==> order[i] < |data| && data[order[i]] <= data[v]
  }

  lemma BatchGrows(g: Adjacency, data: seq<int>, s: nat, order: seq<nat>, dist: seq<nat>, par: seq<nat>, front: nat, v: nat)
    requires Queued(g, s, order, dist, front) && Batched(g, data, order, par, front + 1) && front < |order|
    requires Edge(g, order[front], v) && v !in order && Behind(data, order, par, front, v)
    ensures Batched(g, data, order + [v], par + [front], front + 1)
  {
    hide Edge, Exact, Covered, ListOk;
    var order', par' := order + [v], par + [front];
    forall i | 1 <= i < |order'|
      ensures par'[i] < front + 1 && FirstEdge(g, order', par'[i], i)
    {
      if i < |order| {
        FirstEdgeStays(g, order, order', par[i], i);
      } else {
        forall c | 0 <= c < front
          ensures !Edge(g, order'[c], v)
        {
          assert Expanded(g, order, order[c]);
        }
      }
    }
  }

  lemma FirstEdgeStays(g: Adjacency, order: seq<nat>, order': seq<nat>, d: nat, i: nat)
    requires order <= order' && FirstEdge(g, order, d, i)
    ensures FirstEdge(g, order', d, i)
  {
    assert order'[d] == order[d] && order'[i] == order[i];
    assert forall c :: 0 <= c < d ==> order'[c] == order[c];
  }

  /** Vertices come by their distance from the start. */
  ghost predicate ByDistance(g: Adjacency, s: nat, order: seq<nat>) {
    forall i, j, k, l :: 0 <= i < j < |order| && Distance(g, s, order[i], k) && Distance(g, s, order[j], l) ==> k <= l
  }

  lemma ExactIsByDistance(g: Adjacency, s: nat, order: seq<nat>, dist: seq<nat>)
    requires Exact(g, s, order, dist) && Monotone(dist)
    ensures ByDistance(g, s, order)
  {
    hide Distance;
    forall i, j, k, l | 0 <= i < j < |order| && Distance(g, s, order[i], k) && Distance(g, s, order[j], l)
      ensures k <= l
    {
      DistanceUnique(g, s, order[i], k, dist[i]);
      DistanceUnique(g, s, order[j], l, dist[j]);
    }
  }

  /** The flags say what has been put in. */
  ghost predicate Flagged(flags: seq<bool>, order: seq<nat>) {
    |flags| == MAX_VERTICES && forall v :: 0 <= v < |flags| ==> (flags[v] <==> v in order)
  }

  method Mark(visited: array<bool>, v: nat, ghost order: seq<nat>)
    requires v < visited.Length && Flagged(visited[..], order)
    modifies visited
    ensures Flagged(visited[..], order + [v])
  {
    visited[v] := true;
  }

  lemma NothingFlagged(flags: seq<bool>)
    requires |flags| == MAX_VERTICES && forall v :: 0 <= v < |flags| ==> !flags[v]
    ensures Flagged(flags, [])
  {
  }

  /** A choice of neighbours that leaves out none but those that are in. */
  ghost predicate Offers(g: Adjacency, q: nat, chosen: seq<nat>, order: seq<nat>) {
    && (forall i :: 0 <= i < |chosen| ==> Edge(g, q, chosen[i]))
    && (forall w: nat :: Edge(g, q, w) ==> w in order || w in chosen)
  }

  /** The neighbours of a vertex, sorted by their data. */
  method Neighbors(g: Adjacency, data: seq<int>, q: nat, visited: array<bool>, skip: bool, ghost order: seq<nat>)
    returns (neighbors: array<nat>, counter: nat)
    requires GraphOk(g) && |data| == |g| && q < |g| && visited.Length == MAX_VERTICES && Flagged(visited[..], order)
    ensures fresh(neighbors) && neighbors.Length == MAX_VERTICES && counter <= MAX_VERTICES
    ensures Offers(g, q, neighbors[..counter], order) && SortedBy(data, neighbors[..counter])
  {
    hide SortedBy, Offers, Flagged;
    neighbors, counter := CollectNeighbors(g, q, visited, skip);
    ghost var chosen: seq<nat> := neighbors[..counter];
    CollectedOffers(g, q, visited[..], order, chosen);
    SortNeighbors(neighbors, counter, data);
    SameOffers(g, q, chosen, neighbors[..counter], order);
  }

  lemma CollectedOffers(g: Adjacency, q: nat, flags: seq<bool>, order: seq<nat>, chosen: seq<nat>)
    requires GraphOk(g) && q < |g| && Flagged(flags, order) && SomeOf(chosen, g[q])
    requires forall w :: w in g[q] ==> w < |flags| && (flags[w] || w in chosen)
    ensures Offers(g, q, chosen, order) && Valid(chosen, |g|)
  {
    assert ListOk(|g|, g[q]);
  }

  lemma SameOffers(g: Adjacency, q: nat, a: seq<nat>, b: seq<nat>, order: seq<nat>)
    requires Offers(g, q, a, order) && multiset(a) == multiset(b)
    ensures Offers(g, q, b, order)
  {
    SameMembers(a, b);
    forall i | 0 <= i < |b|
      ensures Edge(g, q, b[i])
    {
      assert b[i] in a;
    }
  }

  lemma SameMembers(a: seq<nat>, b: seq<nat>)
    requires multiset(a) == multiset(b)
    ensures forall x: nat :: x in a <==> x in b
  {
    forall x: nat
      ensures x in a <==> x in b
    {
      assert x in a <==> x in multiset(a);
      assert x in b <==> x in multiset(b);
    }
  }

  lemma QueueFits(g: Adjacency, s: nat, order: seq<nat>, dist: seq<nat>, front: nat)
    requires Queued(g, s, order, dist, front)
    ensures |dist| == |order| <= |g| && front <= |order| && forall i :: 0 <= i < |order| ==> order[i] < |g|
  {
    FewDistinct(order, |g|);
  }

  /** The inner loop: what is not in yet is visited and put in. */
  method PutIn(g: Adjacency, data: seq<int>, ghost s: nat, neighbors: array<nat>, counter: nat, visited: array<bool>,
               queue: array<nat>, order: seq<nat>, ghost dist: seq<nat>, ghost par: seq<nat>, ghost front: nat)
    returns (order': seq<nat>, ghost dist': seq<nat>, ghost par': seq<nat>)
    requires GraphOk(g) && |data| == |g| && visited.Length == queue.Length == MAX_VERTICES && queue != neighbors
    requires counter <= neighbors.Length && SortedBy(data, neighbors[..counter])
    requires Queued(g, s, order, dist, front) && front < |order| <= MAX_VERTICES && queue[..|order|] == order
    requires Batched(g, data, order, par, front)
    requires Flagged(visited[..], order) && Offers(g, order[front], neighbors[..counter], order)
    modifies visited, queue
    ensures Queued(g, s, order', dist', front) && front < |order'| <= MAX_VERTICES && queue[..|order'|] == order'
    ensures Batched(g, data, order', par', front + 1)
    ensures Flagged(visited[..], order') && order <= order' && Expanded(g, order', order[front])
  {
    hide Queued, Flagged, GraphOk, Batched, SortedBy, Behind;
    order', dist', par' := order, dist, par;
    ghost var chosen: seq<nat> := neighbors[..counter];
    QueueFits(g, s, order', dist', front);
    GraphSize(g);
    OffersFit(g, order[front], chosen, order);
    NoneBehind(g, data, order, par, front, chosen);
    BatchMoves(g, data, order, par, front);
    for i := 0 to counter
      invariant order <= order' && |order'| <= |g| && |par'| == |dist'| == |order'| && neighbors[..counter] == chosen
      invariant Queued(g, s, order', dist', front) && Flagged(visited[..], order') && queue[..|order'|] == order'
      invariant forall k :: 0 <= k < i ==> chosen[k] in order'
      invariant Batched(g, data, order', par', front + 1) && forall k :: i <= k < counter ==> Behind(data, order', par', front, chosen[k])
    {
      assert chosen[i] == neighbors[i];
      GraphFits(g, order[front], chosen[i]);
      FlagIs(visited[..], order', neighbors[i]);
      if !visited[neighbors[i]] {
        QueueGrows(g, s, order', dist', front, neighbors[i]);
        BatchGrows(g, data, s, order', dist', par', front, chosen[i]);
        BehindNext(data, order', par', front, chosen, i);
        ghost var was := order';
        Mark(visited, neighbors[i], order');
        QueueFits(g, s, order' + [neighbors[i]], dist' + [dist'[front] + 1], front);
        queue[|order'|] := neighbors[i];
        dist', par' := dist' + [dist'[front] + 1], par' + [front];
        order' := order' + [neighbors[i]];
        assert queue[..|order'|] == was + [neighbors[i]];
      }
    }
    forall w: nat | Edge(g, order[front], w)
      ensures w in order'
    {
      if w !in order {
        assert w in chosen;
      }
    }
  }

  lemma OffersFit(g: Adjacency, q: nat, chosen: seq<nat>, order: seq<nat>)
    requires GraphOk(g) && Offers(g, q, chosen, order)
    ensures forall k :: 0 <= k < |chosen| ==> chosen[k] < |g|
  {
    forall k | 0 <= k < |chosen|
      ensures chosen[k] < |g|
    {
      GraphFits(g, q, chosen[k]);
    }
  }

  lemma NoneBehind(g: Adjacency, data: seq<int>, order: seq<nat>, par: seq<nat>, front: nat, chosen: seq<nat>)
    requires Batched(g, data, order, par, front) && forall k :: 0 <= k < |chosen| ==> chosen[k] < |data|
    ensures |par| == |order| && forall k :: 0 <= k < |chosen| ==> Behind(data, order, par, front, chosen[k])
  {
    hide FirstEdge;
  }

  lemma BehindNext(data: seq<int>, order: seq<nat>, par: seq<nat>, front: nat, chosen: seq<nat>, i: nat)
    requires |par| == |order| && i < |chosen| && SortedBy(data, chosen)
    requires forall k :: i <= k < |chosen| ==> Behind(data, order, par, front, chosen[k])
    ensures forall k :: i + 1 <= k < |chosen| ==> Behind(data, order + [chosen[i]], par + [front], front, chosen[k])
  {
    forall k | i + 1 <= k < |chosen|
      ensures Behind(data, order + [chosen[i]], par + [front], front, chosen[k])
    {
      assert Behind(data, order, par, front, chosen[k]) && Behind(data, order, par, front, chosen[i]);
      assert data[chosen[i]] <= data[chosen[k]];
    }
  }

  lemma GraphSize(g: Adjacency)
    requires GraphOk(g)
    ensures |g| <= MAX_VERTICES
  {
  }

  lemma GraphFits(g: Adjacency, u: nat, v: nat)
    requires GraphOk(g) && Edge(g, u, v)
    ensures v < |g| <= MAX_VERTICES
  {
    assert ListOk(|g|, g[u]);
  }

  lemma FlagIs(flags: seq<bool>, order: seq<nat>, v: nat)
    requires Flagged(flags, order) && v < MAX_VERTICES
    ensures v < |flags| && (flags[v] <==> v in order)
  {
  }

  /** Applies the operation to exactly the vertices that can be reached, each once, in the order of their distance, and those
      found from one vertex in the order of their data. The queue of 256 cells does not overflow. */
  method Bfs(g: Adjacency, data: seq<int>, start: nat, skip: bool) returns (visits: seq<nat>, ghost dist: seq<nat>)
    requires GraphOk(g) && |data| == |g| && start < |g|
    ensures Complete(g, start, visits) && BreadthFirst(g, data, visits) && visits != [] && visits[0] == start
    ensures Exact(g, start, visits, dist) && Monotone(dist)
  {
    hide Queued, Flagged, Complete, Exact, Monotone, Offers, SortedBy, Batched, BreadthFirst;
    var visited := new bool[MAX_VERTICES](_ => false);
    var queue := new nat[MAX_VERTICES](_ => 0);
    NothingFlagged(visited[..]);
    Mark(visited, start, []);
    visits, dist := [start], [0];
    ghost var par := [0];
    assert [] + [start] == [start];
    queue[0] := start;
    assert queue[..1] == [start];
    var front := 0;
    QueueStarts(g, start);
    BatchStarts(g, data, start);
    while front < |visits|
      invariant front <= |visits| <= |g| && queue[..|visits|] == visits
      invariant Queued(g, start, visits, dist, front) && Flagged(visited[..], visits) && Batched(g, data, visits, par, front)
      decreases |g| - front
    {
      QueueFits(g, start, visits, dist, front);
      var q := queue[front];
      assert q == queue[..|visits|][front] == visits[front];
      var neighbors, counter := Neighbors(g, data, q, visited, skip, visits);
      ghost var before := visits;
      visits, dist, par := PutIn(g, data, start, neighbors, counter, visited, queue, visits, dist, par, front);
      QueueFits(g, start, visits, dist, front);
      assert visits[front] == before[front];
      QueueMoves(g, start, visits, dist, front);
      front := front + 1;
    }
    QueueDone(g, start, visits, dist);
    QueueOrder(g, start, visits, dist, front);
    BatchedIsBreadthFirst(g, data, visits, par, front);
  }

  lemma QueueOrder(g: Adjacency, s: nat, order: seq<nat>, dist: seq<nat>, front: nat)
    requires Queued(g, s, order, dist, front)
    ensures Exact(g, s, order, dist) && Monotone(dist) && order != [] && order[0] == s
  {
  }

  // ----- depth first

  /** The vertex at `b` is a neighbour of one visited between `a` and it. */
  ghost predicate Attached(g: Adjacency, order: seq<nat>, a: nat, b: nat) {
    exists d :: a <= d < b < |order| && Edge(g, order[d], order[b])
  }

  ghost predicate Rooted(g: Adjacency, order: seq<nat>, lo: nat) {
    forall b :: lo < b < |order| ==> Attached(g, order, lo, b)
  }

  /** As long as a vertex has a neighbour yet to come, only what hangs on the vertices since then is visited. */
  ghost predicate DepthFirst(g: Adjacency, order: seq<nat>, lo: nat) {
    forall a, b, c :: lo <= a < b < c < |order| && Edge(g, order[a], order[c]) ==> Attached(g, order, a, b)
  }

  /** Of two neighbours of a vertex, the one visited from it directly, and first, has the lesser data. */
  ghost predicate ChildrenSorted(g: Adjacency, data: seq<int>, order: seq<nat>, lo: nat) {
    && (forall i :: lo <= i < |order| ==> order[i] < |data|)
    && forall a, b, c ::
         lo <= a < b < c < |order| && Edge(g, order[a], order[b]) && Edge(g, order[a], order[c]) && !Attached(g, order, a + 1, b)
         ==> data[order[b]] <= data[order[c]]
  }

  /** What has been visited directly from `v`, at `lo`, has lesser data than the neighbours yet to come. */
  ghost predicate DirectFirst(g: Adjacency, data: seq<int>, v: nat, order: seq<nat>, lo: nat) {
    forall b, w: nat ::
      (&& lo < b < |order| && Edge(g, v, order[b]) && !Attached(g, order, lo + 1, b)
       && Edge(g, v, w) && w !in order && order[b] < |data| && w < |data|)
      ==> data[order[b]] <= data[w]
  }

  /** From the vertices seen before, `order` has grown by vertices reached from `v`, and by all neighbours of those. */
  ghost predicate Explored(g: Adjacency, data: seq<int>, v: nat, before: seq<nat>, order: seq<nat>) {
    && before <= order && ListOk(|g|, order)
    && (forall i :: |before| <= i < |order| ==> Reachable(g, v, order[i]))
    && (forall i :: |before| <= i < |order| ==> Expanded(g, order, order[i]))
    && |before| < |order| && order[|before|] == v && Rooted(g, order, |before|) && DepthFirst(g, order, |before|)
    && ChildrenSorted(g, data, order, |before|)
  }

  /** The same, the neighbours of `v` itself being still under way. */
  ghost predicate Exploring(g: Adjacency, data: seq<int>, v: nat, before: seq<nat>, order: seq<nat>) {
    && before + [v] <= order && ListOk(|g|, order)
    && (forall i :: |before| <= i < |order| ==> Reachable(g, v, order[i]))
    && (forall i :: |before| < i < |order| ==> Expanded(g, order, order[i]))
    && Rooted(g, order, |before|) && DepthFirst(g, order, |before|)
    && ChildrenSorted(g, data, order, |before|) && DirectFirst(g, data, v, order, |before|)
  }

  lemma {:induction false} ReachableThrough(g: Adjacency, u: nat, v: nat, w: nat, k: nat)
    requires Edge(g, u, v) && Within(g, v, w, k)
    ensures Within(g, u, w, k + 1)
    decreases k
  {
    if k == 0 {
      assert Within(g, u, u, 0);
    } else if Within(g, v, w, k - 1) {
      ReachableThrough(g, u, v, w, k - 1);
    } else {
      var x: nat :| Within(g, v, x, k - 1) && Edge(g, x, w);
      ReachableThrough(g, u, v, x, k - 1);
    }
  }

  lemma ExploringStarts(g: Adjacency, data: seq<int>, v: nat, before: seq<nat>)
    requires v < |g| == |data| && ListOk(|g|, before) && v !in before
    ensures Exploring(g, data, v, before, before + [v])
  {
    assert Within(g, v, v, 0);
  }

  /** A neighbour has been explored in turn. */
  lemma ExploringGrows(g: Adjacency, data: seq<int>, v: nat, u: nat, before: seq<nat>, order: seq<nat>, order': seq<nat>)
    requires Exploring(g, data, v, before, order) && Edge(g, v, u) && Explored(g, data, u, order, order')
    requires |data| == |g| && NextIs(g, data, v, u, order)
    ensures Exploring(g, data, v, before, order')
  {
    hide Within, ListOk, Edge, Rooted, DepthFirst, ChildrenSorted, DirectFirst, NextIs;
    RootedGrows(g, v, u, before, order, order');
    DepthGrows(g, data, v, u, before, order, order');
    ChildrenGrow(g, data, v, u, before, order, order');
    DirectGrows(g, data, v, u, before, order, order');
    forall i | |before| <= i < |order'|
      ensures Reachable(g, v, order'[i])
    {
      if i < |order| {
        assert order'[i] == order[i];
      } else {
        var k: nat :| Within(g, u, order'[i], k);
        ReachableThrough(g, v, u, order'[i], k);
      }
    }
    forall i | |before| < i < |order'|
      ensures Expanded(g, order', order'[i])
    {
      if i < |order| {
        assert order'[i] == order[i] && Expanded(g, order, order[i]);
        assert forall w: nat :: w in order ==> w in order';
      }
    }
  }

  /** Of the neighbours of `v` that are still to come, `u` has the least data. */
  ghost predicate NextIs(g: Adjacency, data: seq<int>, v: nat, u: nat, order: seq<nat>) {
    u < |data| && forall w: nat :: Edge(g, v, w) && w !in order && w < |data| ==> data[u] <= data[w]
  }

  lemma AttachedBefore(g: Adjacency, order: seq<nat>, order': seq<nat>, a: nat, b: nat)
    requires order <= order' && b < |order|
    ensures Attached(g, order', a, b) <==> Attached(g, order, a, b)
  {
    assert forall k :: 0 <= k < |order| ==> order'[k] == order[k];
    if Attached(g, order', a, b) {
      var d :| a <= d < b < |order'| && Edge(g, order'[d], order'[b]);
      assert Edge(g, order[d], order[b]);
    }
    if Attached(g, order, a, b) {
      AttachedStays(g, order, order', a, b);
    }
  }

  lemma DirectGrows(g: Adjacency, data: seq<int>, v: nat, u: nat, before: seq<nat>, order: seq<nat>, order': seq<nat>)
    requires Exploring(g, data, v, before, order) && Explored(g, data, u, order, order') && NextIs(g, data, v, u, order)
    ensures DirectFirst(g, data, v, order', |before|)
  {
    hide Edge, Within, Reachable, ListOk, Expanded, DepthFirst, ChildrenSorted;
    var lo := |before|;
    forall b, w: nat | lo < b < |order'| && Edge(g, v, order'[b]) && !Attached(g, order', lo + 1, b) && Edge(g, v, w)
                       && w !in order' && order'[b] < |data| && w < |data|
      ensures data[order'[b]] <= data[w]
    {
      assert w !in order;
      if b < |order| {
        AttachedBefore(g, order, order', lo + 1, b);
        assert order'[b] == order[b];
      } else {
        DirectChild(g, data, u, order, order', lo, b);
      }
    }
  }

  lemma AttachedWider(g: Adjacency, order: seq<nat>, a: nat, a': nat, b: nat)
    ensures a <= a' && Attached(g, order, a', b) ==> Attached(g, order, a, b)
  {
  }

  lemma ChildrenGrow(g: Adjacency, data: seq<int>, v: nat, u: nat, before: seq<nat>, order: seq<nat>, order': seq<nat>)
    requires Exploring(g, data, v, before, order) && Explored(g, data, u, order, order') && NextIs(g, data, v, u, order)
    ensures ChildrenSorted(g, data, order', |before|)
  {
    hide Within, Reachable, ListOk, DepthFirst, Expanded, Edge, Rooted, Attached;
    var lo := |before|;
    assert forall k :: 0 <= k < |order| ==> order'[k] == order[k];
    forall a, b, c | lo <= a < b < c < |order'| && Edge(g, order'[a], order'[b]) && Edge(g, order'[a], order'[c])
                     && !Attached(g, order', a + 1, b)
      ensures data[order'[b]] <= data[order'[c]]
    {
      if a >= |order| {
        assert data[order'[b]] <= data[order'[c]];
      } else if b < |order| {
        AttachedBefore(g, order, order', a + 1, b);
        if c < |order| {
          assert data[order[b]] <= data[order[c]];
        } else {
          LaterIsNew(g, data, u, order, order', c);
          OwnNeighbours(g, data, v, before, order, order', a, c);
          assert data[order[b]] <= data[order'[c]];
        }
      } else {
        LaterIsNew(g, data, u, order, order', c);
        OwnNeighbours(g, data, v, before, order, order', a, c);
        DirectChild(g, data, u, order, order', a, b);
      }
    }
  }

  lemma LaterIsNew(g: Adjacency, data: seq<int>, u: nat, order: seq<nat>, order': seq<nat>, c: nat)
    requires Explored(g, data, u, order, order') && |order| <= c < |order'|
    ensures order'[c] !in order && order'[c] < |data|
  {
    forall k | 0 <= k < |order|
      ensures order[k] != order'[c]
    {
      assert order'[k] == order[k];
    }
  }

  /** A vertex with a neighbour yet to come is `v` itself: those after it have all theirs. */
  lemma OwnNeighbours(g: Adjacency, data: seq<int>, v: nat, before: seq<nat>, order: seq<nat>, order': seq<nat>, a: nat, c: nat)
    requires Exploring(g, data, v, before, order) && order <= order' && |before| <= a < |order| <= c < |order'|
    requires Edge(g, order'[a], order'[c]) && order'[c] !in order
    ensures a == |before| && order'[a] == v
  {
    assert order'[a] == order[a] && order[|before|] == (before + [v])[|before|] == v;
    assert a > |before| ==> Expanded(g, order, order[a]);
  }

  lemma DirectChild(g: Adjacency, data: seq<int>, u: nat, order: seq<nat>, order': seq<nat>, a: nat, b: nat)
    requires Explored(g, data, u, order, order') && a < |order| <= b < |order'| && !Attached(g, order', a + 1, b)
    ensures b == |order| && order'[b] == u
  {
    assert b > |order| ==> Attached(g, order', |order|, b);
    AttachedWider(g, order', a + 1, |order|, b);
  }

  lemma AttachedStays(g: Adjacency, order: seq<nat>, order': seq<nat>, a: nat, b: nat)
    requires order <= order' && Attached(g, order, a, b)
    ensures Attached(g, order', a, b)
  {
    var d :| a <= d < b < |order| && Edge(g, order[d], order[b]);
    assert order'[d] == order[d] && order'[b] == order[b];
  }

  lemma RootedGrows(g: Adjacency, v: nat, u: nat, before: seq<nat>, order: seq<nat>, order': seq<nat>)
    requires before + [v] <= order <= order' && Rooted(g, order, |before|) && Rooted(g, order', |order|)
    requires Edge(g, v, u) && |order| < |order'| && order'[|order|] == u
    ensures Rooted(g, order', |before|)
  {
    hide Edge;
    var lo := |before|;
    assert order'[lo] == order[lo] == (before + [v])[lo] == v;
    forall b | lo < b < |order'|
      ensures Attached(g, order', lo, b)
    {
      if b < |order| {
        AttachedStays(g, order, order', lo, b);
      } else if b == |order| {
        assert Edge(g, order'[lo], order'[b]);
      } else {
        assert Attached(g, order', |order|, b);
      }
    }
  }

  lemma DepthGrows(g: Adjacency, data: seq<int>, v: nat, u: nat, before: seq<nat>, order: seq<nat>, order': seq<nat>)
    requires Exploring(g, data, v, before, order) && Edge(g, v, u) && Explored(g, data, u, order, order')
    ensures DepthFirst(g, order', |before|)
  {
    hide Edge, Within, Reachable;
    RootedGrows(g, v, u, before, order, order');
    var lo := |before|;
    forall a, b, c | lo <= a < b < c < |order'| && Edge(g, order'[a], order'[c])
      ensures Attached(g, order', a, b)
    {
      if lo < a < |order| {
        assert Expanded(g, order, order[a]) && order'[a] == order[a];
        var k :| 0 <= k < |order| && order[k] == order'[c];
        assert order'[k] == order'[c];
        assert k == c;
        assert Attached(g, order, a, b);
        AttachedStays(g, order, order', a, b);
      }
    }
  }

  lemma ExploringDone(g: Adjacency, data: seq<int>, v: nat, before: seq<nat>, order: seq<nat>)
    requires Exploring(g, data, v, before, order) && Expanded(g, order, v)
    ensures Explored(g, data, v, before, order)
  {
    assert order[|before|] == (before + [v])[|before|] == v;
  }

  method DfsRecursive(g: Adjacency, data: seq<int>, v: nat, visited: array<bool>, skip: bool, order: seq<nat>)
    returns (order': seq<nat>)
    requires GraphOk(g) && |data| == |g| && v < |g| && visited.Length == MAX_VERTICES
    requires ListOk(|g|, order) && Flagged(visited[..], order) && v !in order
    modifies visited
    ensures Flagged(visited[..], order') && Explored(g, data, v, order, order') && v in order'
    decreases |g| - |order|
  {
    hide Flagged, ListOk, Offers, SortedBy, Explored, Exploring, GraphOk, Edge, NextIs;
    GraphSize(g);
    Mark(visited, v, order);
    order' := order + [v];
    ExploringStarts(g, data, v, order);
    var neighbors, counter := Neighbors(g, data, v, visited, skip, order');
    ghost var chosen: seq<nat>, first := neighbors[..counter], order';
    for i := 0 to counter
      invariant Flagged(visited[..], order') && Exploring(g, data, v, order, order') && first <= order'
      invariant neighbors[..counter] == chosen && forall k :: 0 <= k < i ==> chosen[k] in order'
    {
      var u := neighbors[i];
      assert chosen[i] == u;
      OfferFits(g, v, chosen, first, i);
      FlagIs(visited[..], order', u);
      ExploringFits(g, data, v, order, order');
      if !visited[u] {
        LessLeft(g, order, order', u);
        ChosenNext(g, data, v, chosen, first, order', i);
        ghost var was := order';
        order' := DfsRecursive(g, data, u, visited, skip, order');
        ExploredPrefix(g, data, u, was, order');
        ExploringGrows(g, data, v, u, order, was, order');
      }
    }
    AllOffered(g, v, chosen, first, order');
    ExploringDone(g, data, v, order, order');
    assert first[|order|] == v;
  }

  lemma OfferFits(g: Adjacency, q: nat, chosen: seq<nat>, order: seq<nat>, i: nat)
    requires GraphOk(g) && Offers(g, q, chosen, order) && i < |chosen|
    ensures Edge(g, q, chosen[i]) && chosen[i] < |g| <= MAX_VERTICES
  {
    assert Edge(g, q, chosen[i]);
    assert ListOk(|g|, g[q]);
  }

  /** The neighbours are gone through by their data. */
  lemma ChosenNext(g: Adjacency, data: seq<int>, v: nat, chosen: seq<nat>, first: seq<nat>, order: seq<nat>, i: nat)
    requires Offers(g, v, chosen, first) && SortedBy(data, chosen) && first <= order && i < |chosen| && chosen[i] < |data|
    requires forall k :: 0 <= k < i ==> chosen[k] in order
    ensures NextIs(g, data, v, chosen[i], order)
  {
    forall w: nat | Edge(g, v, w) && w !in order && w < |data|
      ensures data[chosen[i]] <= data[w]
    {
      assert w in chosen;
      var k :| 0 <= k < |chosen| && chosen[k] == w;
    }
  }

  lemma ExploringFits(g: Adjacency, data: seq<int>, v: nat, before: seq<nat>, order: seq<nat>)
    requires Exploring(g, data, v, before, order)
    ensures ListOk(|g|, order) && |before| < |order|
  {
  }

  lemma LessLeft(g: Adjacency, before: seq<nat>, order: seq<nat>, u: nat)
    requires ListOk(|g|, order) && |before| < |order| && u !in order && u < |g|
    ensures |before| < |order| < |g|
  {
    FewDistinct(order + [u], |g|);
  }

  lemma ExploredPrefix(g: Adjacency, data: seq<int>, v: nat, before: seq<nat>, order: seq<nat>)
    requires Explored(g, data, v, before, order)
    ensures before <= order
  {
  }

  lemma AllOffered(g: Adjacency, q: nat, chosen: seq<nat>, first: seq<nat>, order: seq<nat>)
    requires Offers(g, q, chosen, first) && first <= order && forall k :: 0 <= k < |chosen| ==> chosen[k] in order
    ensures Expanded(g, order, q)
  {
    forall w: nat | Edge(g, q, w)
      ensures w in order
    {
      if w in chosen {
        var k :| 0 <= k < |chosen| && chosen[k] == w;
      }
    }
  }

  /** Applies the operation to exactly the vertices that can be reached, each once, depth first, and those visited from one
      vertex in the order of their data. */
  method Dfs(g: Adjacency, data: seq<int>, start: nat, skip: bool) returns (visits: seq<nat>)
    requires GraphOk(g) && |data| == |g| && start < |g|
    ensures Complete(g, start, visits) && DepthFirst(g, visits, 0) && ChildrenSorted(g, data, visits, 0)
    ensures visits != [] && visits[0] == start
  {
    hide Flagged, Explored, Complete, GraphOk, DepthFirst, ChildrenSorted;
    var visited := new bool[MAX_VERTICES](_ => false);
    NothingFlagged(visited[..]);
    visits := DfsRecursive(g, data, start, visited, skip, []);
    ExploredAll(g, data, start, visits);
  }

  lemma ExploredAll(g: Adjacency, data: seq<int>, s: nat, order: seq<nat>)
    requires Explored(g, data, s, [], order) && s in order
    ensures Complete(g, s, order) && DepthFirst(g, order, 0) && ChildrenSorted(g, data, order, 0)
    ensures order != [] && order[0] == s
  {
    hide Within, ListOk, Edge;
    assert NoDuplicates(order) by {
      ListParts(|g|, order);
    }
    forall v: nat
      ensures v in order <==> Reachable(g, s, v)
    {
      if Reachable(g, s, v) {
        var k: nat :| Within(g, s, v, k);
        AllIn(g, s, order, v, k);
      }
    }
  }

  lemma ListParts(n: nat, s: seq<nat>)
    requires ListOk(n, s)
    ensures NoDuplicates(s)
  {
  }

  // ----- from a vertex given by its data

  /** A whole breadth-first traversal from `s`. */
  ghost predicate BreadthTraversal(g: Adjacency, data: seq<int>, s: nat, visits: seq<nat>) {
    && Complete(g, s, visits) && visits != [] && visits[0] == s
    && BreadthFirst(g, data, visits) && ByDistance(g, s, visits)
  }

  ghost predicate DepthTraversal(g: Adjacency, data: seq<int>, s: nat, visits: seq<nat>) {
    && Complete(g, s, visits) && visits != [] && visits[0] == s
    && DepthFirst(g, visits, 0) && ChildrenSorted(g, data, visits, 0)
  }

  /** From the vertex with data `vert`; nothing is visited if there is none. */
  method BfsFrom(g: Adjacency, data: seq<int>, vert: int, skip: bool) returns (visits: seq<nat>)
    requires GraphOk(g) && |data| == |g| && DistinctData(data)
    ensures vert !in data ==> visits == []
    ensures forall s: nat :: s < |data| && data[s] == vert ==> BreadthTraversal(g, data, s, visits)
  {
    hide GraphOk, Complete, BreadthFirst, ByDistance, Exact, Monotone;
    var index := LocateVertex(data, vert);
    visits := [];
    if index >= 0 {
      ghost var dist;
      visits, dist := Bfs(g, data, index, skip);
      ExactIsByDistance(g, index, visits, dist);
    }
  }

  method DfsFrom(g: Adjacency, data: seq<int>, vert: int, skip: bool) returns (visits: seq<nat>)
    requires GraphOk(g) && |data| == |g| && DistinctData(data)
    ensures vert !in data ==> visits == []
    ensures forall s: nat :: s < |data| && data[s] == vert ==> DepthTraversal(g, data, s, visits)
  {
    hide GraphOk, Complete, DepthFirst, ChildrenSorted;
    var index := LocateVertex(data, vert);
    visits := [];
    if index >= 0 {
      visits := Dfs(g, data, index, skip);
    }
  }

  // ----- on linked edge nodes

  /** The neighbour lists, read off the links of every vertex. */
  method ReadOff(graph: GraphNodes.UndirectedGraph) returns (g: Adjacency)
    requires graph.Valid()
    ensures g == graph.Graph()
  {
    g := [];
    for v := 0 to |graph.data|
      invariant g == graph.Graph()[..v]
    {
      var row := graph.NeighboursOf(v);
      g := g + [row];
    }
  }

  method BfsOn(graph: GraphNodes.UndirectedGraph, vert: int) returns (visits: seq<nat>)
    requires graph.Valid()
    ensures vert !in graph.data ==> visits == []
    ensures forall s: nat :: s < |graph.data| && graph.data[s] == vert ==> BreadthTraversal(graph.Graph(), graph.data, s, visits)
  {
    hide BreadthTraversal;
    var g := ReadOff(graph);
    visits := BfsFrom(g, graph.data, vert, true);
  }

  method DfsOn(graph: GraphNodes.UndirectedGraph, vert: int) returns (visits: seq<nat>)
    requires graph.Valid()
    ensures vert !in graph.data ==> visits == []
    ensures forall s: nat :: s < |graph.data| && graph.data[s] == vert ==> DepthTraversal(graph.Graph(), graph.data, s, visits)
  {
    hide DepthTraversal;
    var g := ReadOff(graph);
    visits := DfsFrom(g, graph.data, vert, true);
  }

  // ----- on linked arc nodes

  method ReadOffArcs(graph: GraphArcs.DirectedGraph) returns (g: Adjacency)
    requires graph.Valid()
    ensures g == graph.Graph()
  {
    g := [];
    for v := 0 to |graph.data|
      invariant g == graph.Graph()[..v]
    {
      var row := graph.NeighboursOf(v);
      g := g + [row];
    }
  }

  method BfsOnDirected(graph: GraphArcs.DirectedGraph, vert: int) returns (visits: seq<nat>)
    requires graph.Valid()
    ensures vert !in graph.data ==> visits == []
    ensures forall s: nat :: s < |graph.data| && graph.data[s] == vert ==> BreadthTraversal(graph.Graph(), graph.data, s, visits)
  {
    hide BreadthTraversal;
    var g := ReadOffArcs(graph);
    visits := BfsFrom(g, graph.data, vert, false);
  }

  method DfsOnDirected(graph: GraphArcs.DirectedGraph, vert: int) returns (visits: seq<nat>)
    requires graph.Valid()
    ensures vert !in graph.data ==> visits == []
    ensures forall s: nat :: s < |graph.data| && graph.data[s] == vert ==> DepthTraversal(graph.Graph(), graph.data, s, visits)
  {
    hide DepthTraversal;
    var g := ReadOffArcs(graph);
    visits := DfsFrom(g, graph.data, vert, false);
  }
}
