/** The directed graph as the source keeps it: every arc is a node on the list of its tail. The lists of incoming arcs are
    written when an arc is added and never read or repaired, so nothing is said about them. */
module GraphArcs {
  import opened GraphPaths

  class ArcNode {
    var headVex: nat
    var tailVex: nat
    var headLink: ArcNode?
    var tailLink: ArcNode?

    constructor (tail: nat, head: nat, headLink: ArcNode?, tailLink: ArcNode?)
      ensures headVex == head && tailVex == tail && this.headLink == headLink && this.tailLink == tailLink
    {
      headVex, tailVex, this.headLink, this.tailLink := head, tail, headLink, tailLink;
    }
  }

  /** What matters of a node. */
  datatype Arc = Arc(tail: nat, head: nat, next: ArcNode?)

  type Arcs = map<ArcNode, Arc>

  /** From `first` on, the links lead through the nodes `s`, all arcs out of `v`. */
  ghost predicate Chain(net: Arcs, first: ArcNode?, s: seq<ArcNode>, v: nat)
    decreases |s|
  {
    if s == [] then first == null
    else first == s[0] && s[0] in net && net[s[0]].tail == v && Chain(net, net[s[0]].next, s[1..], v)
  }

  ghost predicate Once(s: seq<ArcNode>) {
    forall i, j :: 0 <= i < j < |s| ==> s[i] != s[j]
  }

  ghost predicate Listed(net: Arcs, lists: seq<seq<ArcNode>>, e: ArcNode)
    requires e in net
  {
    net[e].tail < |lists| && net[e].head < |lists| && e in lists[net[e].tail]
  }

  ghost predicate Linked(net: Arcs, firsts: seq<ArcNode?>, lists: seq<seq<ArcNode>>, v: nat)
    requires v < |lists| <= |firsts|
  {
    Chain(net, firsts[v], lists[v], v) && Once(lists[v])
  }

  ghost predicate Simple(net: Arcs) {
    forall e, f :: e in net && f in net && net[e].tail == net[f].tail && net[e].head == net[f].head ==> e == f
  }

  /** Every vertex has its list, every arc is on the list of its tail, and no two arcs join the same vertices. */
  ghost predicate Laid(net: Arcs, firsts: seq<ArcNode?>, lists: seq<seq<ArcNode>>) {
    && |lists| <= |firsts| && (forall v: nat :: v < |lists| ==> Linked(net, firsts, lists, v))
    && (forall e :: e in net ==> Listed(net, lists, e)) && Simple(net)
  }

  ghost predicate Joined(net: Arcs, u: nat, v: nat) {
    exists e :: e in net && net[e].tail == u && net[e].head == v
  }

  // ----- chains

  lemma {:induction false} ChainNodes(net: Arcs, first: ArcNode?, s: seq<ArcNode>, v: nat, i: nat)
    requires Chain(net, first, s, v) && i < |s|
    ensures s[i] in net && net[s[i]].tail == v
    decreases |s|
  {
    if i > 0 {
      ChainNodes(net, net[s[0]].next, s[1..], v, i - 1);
    }
  }

  lemma {:induction false} SameChain(net: Arcs, net': Arcs, first: ArcNode?, s: seq<ArcNode>, v: nat)
    requires Chain(net, first, s, v)
    requires forall i :: 0 <= i < |s| && s[i] in net ==> s[i] in net' && net'[s[i]] == net[s[i]]
    ensures Chain(net', first, s, v)
    decreases |s|
  {
    if s != [] {
      SameChain(net, net', net[s[0]].next, s[1..], v);
    }
  }

  lemma ChainTail(net: Arcs, first: ArcNode?, s: seq<ArcNode>, v: nat)
    requires Chain(net, first, s, v) && s != []
    ensures first == s[0] && s[0] in net && net[s[0]].tail == v && Chain(net, net[s[0]].next, s[1..], v)
  {
  }

  lemma ChainCons(net: Arcs, e: ArcNode, s: seq<ArcNode>, v: nat)
    requires e in net && net[e].tail == v && Chain(net, net[e].next, s, v)
    ensures Chain(net, e, [e] + s, v)
  {
    assert ([e] + s)[1..] == s;
  }

  lemma ChainWithout(net: Arcs, first: ArcNode?, s: seq<ArcNode>, v: nat, p: ArcNode, f: Arc)
    requires Chain(net, first, s, v) && p !in s
    ensures Chain(net[p := f], first, s, v)
  {
    hide Chain;
    SameChain(net, net[p := f], first, s, v);
  }

  lemma OnceTail(s: seq<ArcNode>)
    requires Once(s) && s != []
    ensures Once(s[1..]) && s[0] !in s[1..]
  {
  }

  /** A node is taken out by leading the link before it past it. */
  lemma {:induction false} Bypassed(net: Arcs, first: ArcNode?, a: seq<ArcNode>, e: ArcNode, b: seq<ArcNode>, v: nat)
    requires Once(a + ([e] + b)) && Chain(net, first, a + ([e] + b), v) && a != []
    ensures e in net && a[|a| - 1] in net
    ensures var p := a[|a| - 1]; Chain(net[p := net[p].(next := net[e].next)], first, a + b, v)
    decreases |a|
  {
    hide Chain, Once;
    var s, p := a + ([e] + b), a[|a| - 1];
    ChainTail(net, first, s, v);
    OnceTail(s);
    assert s[0] == a[0];
    if |a| == 1 {
      assert s[1..] == [e] + b && a + b == [p] + b;
      ChainTail(net, net[p].next, [e] + b, v);
      assert ([e] + b)[1..] == b;
      assert p !in b;
      var f := net[p].(next := net[e].next);
      ChainWithout(net, net[e].next, b, v, p, f);
      ChainCons(net[p := f], p, b, v);
    } else {
      assert s[1..] == a[1..] + ([e] + b) && a[1..][|a| - 2] == p;
      Bypassed(net, net[a[0]].next, a[1..], e, b, v);
      assert p in s[1..];
      var f := net[p].(next := net[e].next);
      ChainCons(net[p := f], a[0], a[1..] + b, v);
      assert [a[0]] + (a[1..] + b) == a + b;
    }
  }

  /** Arcs out of other vertices are on other lists. */
  lemma NotListed(net: Arcs, first: ArcNode?, s: seq<ArcNode>, v: nat, n: ArcNode)
    requires Chain(net, first, s, v) && (n in net ==> net[n].tail != v)
    ensures n !in s
  {
    hide Chain;
    forall i | 0 <= i < |s|
      ensures s[i] != n
    {
      ChainNodes(net, first, s, v, i);
    }
  }

  // ----- adding and removing

  lemma AddedLaid(net: Arcs, firsts: seq<ArcNode?>, lists: seq<seq<ArcNode>>, i: nat, j: nat, n: ArcNode)
    requires Laid(net, firsts, lists) && i < |lists| && j < |lists| && n !in net && !Joined(net, i, j)
    ensures Laid(net[n := Arc(i, j, firsts[i])], firsts[i := n], lists[i := [n] + lists[i]])
  {
    hide Chain;
    var net', firsts', lists' := net[n := Arc(i, j, firsts[i])], firsts[i := n], lists[i := [n] + lists[i]];
    forall v: nat | v < |lists|
      ensures Linked(net', firsts', lists', v)
    {
      assert Linked(net, firsts, lists, v);
      NotListed(net, firsts[v], lists[v], v, n);
      ChainWithout(net, firsts[v], lists[v], v, n, Arc(i, j, firsts[i]));
      if v == i {
        ChainCons(net', n, lists[v], v);
      }
    }
    forall e | e in net'
      ensures Listed(net', lists', e)
    {
      assert e != n ==> Listed(net, lists, e);
    }
  }

  ghost function NetAfter(net: Arcs, a: seq<ArcNode>, e: ArcNode): Arcs
    requires e in net && (a != [] ==> a[|a| - 1] in net)
  {
    (if a == [] then net else var p := a[|a| - 1]; net[p := net[p].(next := net[e].next)]) - {e}
  }

  ghost function FirstsAfter(net: Arcs, firsts: seq<ArcNode?>, a: seq<ArcNode>, e: ArcNode, v: nat): seq<ArcNode?>
    requires e in net && v < |firsts|
  {
    if a == [] then firsts[v := net[e].next] else firsts
  }

  lemma OnceMiddle(a: seq<ArcNode>, e: ArcNode, b: seq<ArcNode>)
    requires Once(a + ([e] + b))
    ensures e !in a + b && Once(a + b)
  {
    var s, t := a + ([e] + b), a + b;
    assert s[|a|] == e;
    forall k | 0 <= k < |t|
      ensures t[k] == s[if k < |a| then k else k + 1]
    {
    }
  }

  lemma TakenSelf(net: Arcs, firsts: seq<ArcNode?>, lists: seq<seq<ArcNode>>, v: nat, a: seq<ArcNode>, e: ArcNode, b: seq<ArcNode>)
    requires v < |lists| <= |firsts| && Linked(net, firsts, lists, v) && lists[v] == a + ([e] + b)
    ensures e in net && net[e].tail == v && (a != [] ==> a[|a| - 1] in net && net[a[|a| - 1]].tail == v)
    ensures Linked(NetAfter(net, a, e), FirstsAfter(net, firsts, a, e, v), lists[v := a + b], v) && e !in a + b
  {
    hide Chain;
    var s := lists[v];
    ChainNodes(net, firsts[v], s, v, |a|);
    assert s[|a|] == e;
    ChainTail(net, firsts[v], s, v);
    OnceMiddle(a, e, b);
    var net1, first := net, if a == [] then net[e].next else firsts[v];
    if a == [] {
      assert s[1..] == b && a + b == b;
    } else {
      ChainNodes(net, firsts[v], s, v, |a| - 1);
      Bypassed(net, firsts[v], a, e, b, v);
      var p := a[|a| - 1];
      net1 := net[p := net[p].(next := net[e].next)];
    }
    Dropped(net1, first, a + b, v, e);
  }

  lemma Dropped(net: Arcs, first: ArcNode?, s: seq<ArcNode>, v: nat, e: ArcNode)
    requires Chain(net, first, s, v) && e !in s
    ensures Chain(net - {e}, first, s, v)
  {
    hide Chain;
    SameChain(net, net - {e}, first, s, v);
  }

  lemma TakenOther(net: Arcs, firsts: seq<ArcNode?>, lists: seq<seq<ArcNode>>, v: nat, a: seq<ArcNode>, e: ArcNode, w: nat, s: seq<ArcNode>)
    requires v < |lists| <= |firsts| && w < |lists| && w != v && Linked(net, firsts, lists, w)
    requires e in net && net[e].tail == v && (a != [] ==> a[|a| - 1] in net && net[a[|a| - 1]].tail == v)
    ensures Linked(NetAfter(net, a, e), FirstsAfter(net, firsts, a, e, v), lists[v := s], w)
  {
    hide Chain;
    NotListed(net, firsts[w], lists[w], w, e);
    var net1 := net;
    if a != [] {
      var p := a[|a| - 1];
      NotListed(net, firsts[w], lists[w], w, p);
      ChainWithout(net, firsts[w], lists[w], w, p, net[p].(next := net[e].next));
      net1 := net[p := net[p].(next := net[e].next)];
    }
    Dropped(net1, firsts[w], lists[w], w, e);
  }

  lemma TakenLaid(net: Arcs, firsts: seq<ArcNode?>, lists: seq<seq<ArcNode>>, v: nat, a: seq<ArcNode>, e: ArcNode, b: seq<ArcNode>)
    requires Laid(net, firsts, lists) && v < |lists| && lists[v] == a + ([e] + b)
    ensures e in net && net[e].tail == v && (a != [] ==> a[|a| - 1] in net && a[|a| - 1] != e)
    ensures Laid(NetAfter(net, a, e), FirstsAfter(net, firsts, a, e, v), lists[v := a + b])
  {
    hide Linked;
    assert Linked(net, firsts, lists, v);
    TakenSelf(net, firsts, lists, v, a, e, b);
    assert a != [] ==> a[|a| - 1] in a + b;
    var net', firsts', lists' := NetAfter(net, a, e), FirstsAfter(net, firsts, a, e, v), lists[v := a + b];
    forall w: nat | w < |lists'|
      ensures Linked(net', firsts', lists', w)
    {
      if w != v {
        assert Linked(net, firsts, lists, w);
        TakenOther(net, firsts, lists, v, a, e, w, a + b);
      }
    }
    forall x | x in net'
      ensures Listed(net', lists', x)
    {
      assert Listed(net, lists, x);
      assert x in a + ([e] + b) && x != e ==> x in a + b;
    }
  }

  lemma JoinedMore(net: Arcs, n: ArcNode, f: Arc)
    requires n !in net
    ensures forall u: nat, v: nat :: Joined(net[n := f], u, v) <==> Joined(net, u, v) || (u == f.tail && v == f.head)
  {
    forall u: nat, v: nat
      ensures Joined(net[n := f], u, v) <==> Joined(net, u, v) || (u == f.tail && v == f.head)
    {
      if Joined(net, u, v) {
        var e :| e in net && net[e].tail == u && net[e].head == v;
        assert net[n := f][e] == net[e];
      }
      if u == f.tail && v == f.head {
        assert net[n := f][n] == f;
      }
    }
  }

  lemma JoinedLess(net: Arcs, a: seq<ArcNode>, e: ArcNode)
    requires Simple(net) && e in net && (a != [] ==> a[|a| - 1] in net && a[|a| - 1] != e)
    ensures forall u: nat, v: nat ::
              Joined(NetAfter(net, a, e), u, v) <==> Joined(net, u, v) && !(u == net[e].tail && v == net[e].head)
  {
    var net' := NetAfter(net, a, e);
    forall u: nat, v: nat
      ensures Joined(net', u, v) <==> Joined(net, u, v) && !(u == net[e].tail && v == net[e].head)
    {
      if Joined(net', u, v) {
        var x :| x in net' && net'[x].tail == u && net'[x].head == v;
        assert net[x].tail == u && net[x].head == v;
      }
      if Joined(net, u, v) && !(u == net[e].tail && v == net[e].head) {
        var x :| x in net && net[x].tail == u && net[x].head == v;
        assert net'[x].tail == u && net'[x].head == v;
      }
    }
  }

  lemma NewVertexLaid(net: Arcs, firsts: seq<ArcNode?>, lists: seq<seq<ArcNode>>)
    requires Laid(net, firsts, lists) && |lists| < |firsts|
    ensures Laid(net, firsts[|lists| := null], lists + [[]])
  {
    hide Chain;
    var firsts', lists' := firsts[|lists| := null], lists + [[]];
    forall v: nat | v < |lists'|
      ensures Linked(net, firsts', lists', v)
    {
      if v < |lists| {
        assert Linked(net, firsts, lists, v);
      } else {
        EmptyChain(net, v);
      }
    }
    forall e | e in net
      ensures Listed(net, lists', e)
    {
      assert Listed(net, lists, e);
    }
  }

  lemma EmptyChain(net: Arcs, v: nat)
    ensures Chain(net, null, [], v)
  {
  }

  // ----- the graph that the lists stand for

  ghost function Heads(net: Arcs, s: seq<ArcNode>): (r: seq<nat>)
    requires forall i :: 0 <= i < |s| ==> s[i] in net
    ensures |r| == |s| && forall i :: 0 <= i < |s| ==> r[i] == net[s[i]].head
  {
    seq(|s|, i requires 0 <= i < |s| => net[s[i]].head)
  }

  ghost function AdjacencyOf(net: Arcs, firsts: seq<ArcNode?>, lists: seq<seq<ArcNode>>): (g: Adjacency)
    requires Laid(net, firsts, lists)
    ensures |g| == |lists|
  {
    seq(|lists|, v requires 0 <= v < |lists| =>
      ListIn(net, firsts, lists, v);
      Heads(net, lists[v]))
  }

  lemma ListIn(net: Arcs, firsts: seq<ArcNode?>, lists: seq<seq<ArcNode>>, v: nat)
    requires Laid(net, firsts, lists) && v < |lists|
    ensures forall i :: 0 <= i < |lists[v]| ==> lists[v][i] in net && net[lists[v][i]].tail == v
  {
    assert Linked(net, firsts, lists, v);
    forall i | 0 <= i < |lists[v]|
      ensures lists[v][i] in net && net[lists[v][i]].tail == v
    {
      ChainNodes(net, firsts[v], lists[v], v, i);
    }
  }

  /** A graph kept this way has no parallel arcs, and its arcs are those of the nodes. */
  lemma AdjacencyIsOk(net: Arcs, firsts: seq<ArcNode?>, lists: seq<seq<ArcNode>>)
    requires Laid(net, firsts, lists) && |lists| <= MAX_VERTICES
    ensures GraphOk(AdjacencyOf(net, firsts, lists))
  {
    hide Chain;
    var g := AdjacencyOf(net, firsts, lists);
    forall v: nat | v < |g|
      ensures ListOk(|g|, g[v])
    {
      RowIsOk(net, firsts, lists, v);
    }
  }

  lemma RowIsOk(net: Arcs, firsts: seq<ArcNode?>, lists: seq<seq<ArcNode>>, v: nat)
    requires Laid(net, firsts, lists) && v < |lists|
    ensures ListOk(|lists|, AdjacencyOf(net, firsts, lists)[v])
  {
    hide Chain;
    var s, r := lists[v], AdjacencyOf(net, firsts, lists)[v];
    ListIn(net, firsts, lists, v);
    assert Linked(net, firsts, lists, v);
    forall i, j | 0 <= i < j < |r|
      ensures r[i] != r[j]
    {
      assert s[i] != s[j];
    }
    forall i | 0 <= i < |r|
      ensures r[i] < |lists|
    {
      assert Listed(net, lists, s[i]);
    }
  }

  lemma EdgeIsJoined(net: Arcs, firsts: seq<ArcNode?>, lists: seq<seq<ArcNode>>, u: nat, w: nat)
    requires Laid(net, firsts, lists)
    ensures Edge(AdjacencyOf(net, firsts, lists), u, w) <==> Joined(net, u, w)
  {
    hide Chain;
    var g := AdjacencyOf(net, firsts, lists);
    if Edge(g, u, w) {
      ListIn(net, firsts, lists, u);
      var i :| 0 <= i < |g[u]| && g[u][i] == w;
      assert net[lists[u][i]].head == w;
    }
    if Joined(net, u, w) {
      var e :| e in net && net[e].tail == u && net[e].head == w;
      assert Listed(net, lists, e);
      ListIn(net, firsts, lists, u);
      var i :| 0 <= i < |lists[u]| && lists[u][i] == e;
      assert g[u][i] == w;
    }
  }

  lemma EdgesAreJoined(net: Arcs, firsts: seq<ArcNode?>, lists: seq<seq<ArcNode>>)
    requires Laid(net, firsts, lists)
    ensures forall u: nat, v: nat :: Edge(AdjacencyOf(net, firsts, lists), u, v) <==> Joined(net, u, v)
  {
    hide *;
    forall u: nat, v: nat
      ensures Edge(AdjacencyOf(net, firsts, lists), u, v) <==> Joined(net, u, v)
    {
      EdgeIsJoined(net, firsts, lists, u, v);
    }
  }

  lemma EdgesMore(net: Arcs, firsts: seq<ArcNode?>, lists: seq<seq<ArcNode>>, net': Arcs, firsts': seq<ArcNode?>,
                  lists': seq<seq<ArcNode>>, i: nat, j: nat)
    requires Laid(net, firsts, lists) && Laid(net', firsts', lists')
    requires forall u: nat, v: nat :: Joined(net', u, v) <==> Joined(net, u, v) || (u == i && v == j)
    ensures forall u: nat, v: nat ::
              Edge(AdjacencyOf(net', firsts', lists'), u, v) <==> Edge(AdjacencyOf(net, firsts, lists), u, v) || (u == i && v == j)
  {
    hide *;
    EdgesAreJoined(net, firsts, lists);
    EdgesAreJoined(net', firsts', lists');
  }

  lemma EdgesLess(net: Arcs, firsts: seq<ArcNode?>, lists: seq<seq<ArcNode>>, net': Arcs, firsts': seq<ArcNode?>,
                  lists': seq<seq<ArcNode>>, i: nat, j: nat)
    requires Laid(net, firsts, lists) && Laid(net', firsts', lists')
    requires forall u: nat, v: nat :: Joined(net', u, v) <==> Joined(net, u, v) && !(u == i && v == j)
    ensures forall u: nat, v: nat ::
              Edge(AdjacencyOf(net', firsts', lists'), u, v) <==> Edge(AdjacencyOf(net, firsts, lists), u, v) && !(u == i && v == j)
  {
    hide *;
    EdgesAreJoined(net, firsts, lists);
    EdgesAreJoined(net', firsts', lists');
  }

  /** A new vertex comes without neighbours, and the others keep theirs. */
  lemma NewVertexAlone(net: Arcs, firsts: seq<ArcNode?>, lists: seq<seq<ArcNode>>, firsts': seq<ArcNode?>)
    requires Laid(net, firsts, lists) && Laid(net, firsts', lists + [[]])
    ensures AdjacencyOf(net, firsts', lists + [[]]) == AdjacencyOf(net, firsts, lists) + [[]]
  {
    hide Laid, Chain;
    ListIn(net, firsts', lists + [[]], |lists|);
  }

  // ----- walking lists

  lemma ChainHead(net: Arcs, curr: ArcNode, s: seq<ArcNode>, k: nat, v: nat)
    requires k <= |s| && Chain(net, curr, s[k..], v)
    ensures k < |s| && curr == s[k] && curr in net && net[curr].tail == v && Chain(net, net[curr].next, s[k + 1..], v)
  {
    assert s[k..] != [] ==> s[k..][1..] == s[k + 1..];
  }

  lemma ChainEnds(net: Arcs, s: seq<ArcNode>, k: nat, v: nat)
    requires k <= |s| && Chain(net, null, s[k..], v)
    ensures k == |s|
  {
  }

  lemma NoneJoined(net: Arcs, firsts: seq<ArcNode?>, lists: seq<seq<ArcNode>>, v: nat, w: nat)
    requires Laid(net, firsts, lists) && v < |lists|
    requires forall t :: 0 <= t < |lists[v]| ==> lists[v][t] in net && net[lists[v][t]].head != w
    ensures !Joined(net, v, w)
  {
    forall e | e in net
      ensures !(net[e].tail == v && net[e].head == w)
    {
      assert Listed(net, lists, e);
    }
  }

  lemma JoinedBy(net: Arcs, e: ArcNode)
    requires e in net
    ensures Joined(net, net[e].tail, net[e].head)
  {
  }

  /** The nodes hold what `net` says. */
  ghost predicate Held(net: Arcs)
    reads net.Keys
  {
    forall e :: e in net ==> e.tailVex == net[e].tail && e.headVex == net[e].head && e.tailLink == net[e].next
  }

  lemma HeldWith(net: Arcs, n: ArcNode, f: Arc)
    requires Held(net) && n !in net && f == Arc(n.tailVex, n.headVex, n.tailLink)
    ensures Held(net[n := f])
  {
  }

  class DirectedGraph {
    var data: seq<int>
    const firstOut: array<ArcNode?>
    const firstIn: array<ArcNode?>
    ghost var net: Arcs
    ghost var lists: seq<seq<ArcNode>>

    ghost predicate Valid()
      reads this, firstOut, net.Keys
    {
      && firstOut.Length == firstIn.Length == MAX_VERTICES && firstOut != firstIn
      && |data| == |lists| <= MAX_VERTICES && DistinctData(data)
      && Laid(net, firstOut[..], lists) && Held(net)
    }

    /** The graph as lists of heads, on which the traversals run. */
    ghost function Graph(): (g: Adjacency)
      requires Valid()
      reads this, firstOut, net.Keys
      ensures |g| == |data| && GraphOk(g)
    {
      AdjacencyIsOk(net, firstOut[..], lists);
      AdjacencyOf(net, firstOut[..], lists)
    }

    constructor ()
      ensures Valid() && data == [] && net == map[]
    {
      data := [];
      firstOut := new ArcNode?[MAX_VERTICES](_ => null);
      firstIn := new ArcNode?[MAX_VERTICES](_ => null);
      net, lists := map[], [];
    }

    method AddVertex(vert: int) returns (ok: bool)
      requires Valid()
      modifies this, firstOut, firstIn
      ensures Valid() && net == old(net) && (ok <==> |old(data)| < MAX_VERTICES && vert !in old(data))
      ensures data == if ok then old(data) + [vert] else old(data)
      ensures Graph() == if ok then old(Graph()) + [[]] else old(Graph())
    {
      hide Laid;
      if |data| >= MAX_VERTICES {
        return false;
      }
      var index := LocateVertex(data, vert);
      if index >= 0 {
        return false;
      }
      NewVertexLaid(net, firstOut[..], lists);
      firstIn[|data|] := null;
      firstOut[|data|] := null;
      assert firstOut[..] == old(firstOut[..])[|data| := null];
      NewVertexAlone(net, old(firstOut[..]), lists, firstOut[..]);
      data, lists := data + [vert], lists + [[]];
      return true;
    }

    method AddArc(vert1: int, vert2: int) returns (ok: bool, ghost i: nat, ghost j: nat)
      requires Valid()
      modifies this`net, this`lists, firstOut, firstIn
      ensures Valid() && (ok <==> vert1 in data && vert2 in data && !Joined(old(net), i, j))
      ensures vert1 in data && vert2 in data ==> i < |data| && j < |data| && data[i] == vert1 && data[j] == vert2
      ensures ok ==> forall u: nat, v: nat :: Joined(net, u, v) <==> Joined(old(net), u, v) || (u == i && v == j)
      ensures ok ==> forall u: nat, v: nat :: Edge(Graph(), u, v) <==> Edge(old(Graph()), u, v) || (u == i && v == j)
      ensures !ok ==> net == old(net) && firstOut[..] == old(firstOut[..]) && Graph() == old(Graph())
      ensures fresh(net.Keys - old(net.Keys))
    {
      hide Laid, Joined, Chain, Held, DistinctData;
      var index1 := LocateVertex(data, vert1);
      var index2 := LocateVertex(data, vert2);
      i, j := 0, 0;
      if index1 < 0 || index2 < 0 {
        return false, 0, 0;
      }
      i, j := index1, index2;
      var found, prev, k := FindArc(index1, index2);
      if found != null {
        JoinedBy(net, found);
        return false, i, j;
      }
      ghost var was := firstOut[..];
      var newNode := new ArcNode(index1, index2, firstIn[index2], firstOut[index1]);
      firstIn[index2] := newNode;
      firstOut[index1] := newNode;
      assert firstOut[..] == was[i := newNode];
      AddedLaid(net, was, lists, i, j, newNode);
      HeldWith(net, newNode, Arc(i, j, was[i]));
      JoinedMore(net, newNode, Arc(i, j, was[i]));
      ghost var net0, lists0 := net, lists;
      net, lists := net[newNode := Arc(i, j, was[i])], lists[i := [newNode] + lists[i]];
      EdgesMore(net0, was, lists0, net, firstOut[..], lists, i, j);
      return true, i, j;
    }

    /** Walks the list of a tail in search of a head; `prev` is the node before. */
    method FindArc(v: nat, w: nat) returns (curr: ArcNode?, prev: ArcNode?, ghost k: nat)
      requires Valid() && v < |data|
      ensures k <= |lists[v]| && (if k == 0 then prev == null else prev == lists[v][k - 1])
      ensures curr != null ==> k < |lists[v]| && curr == lists[v][k] && curr in net && net[curr].tail == v && net[curr].head == w
      ensures curr == null ==> !Joined(net, v, w)
    {
      hide Chain;
      ghost var s := lists[v];
      k := 0;
      assert Linked(net, firstOut[..], lists, v);
      ListIn(net, firstOut[..], lists, v);
      curr, prev := firstOut[v], null;
      assert s[0..] == s;
      while curr != null
        invariant k <= |s| && Chain(net, curr, s[k..], v) && forall t :: 0 <= t < k ==> net[s[t]].head != w
        invariant if k == 0 then prev == null else prev == s[k - 1]
        decreases |s| - k
      {
        ChainHead(net, curr, s, k, v);
        if curr.headVex == w {
          return;
        }
        prev, curr := curr, curr.tailLink;
        k := k + 1;
      }
      ChainEnds(net, s, k, v);
      NoneJoined(net, firstOut[..], lists, v, w);
    }

    method DeleteArc(vert1: int, vert2: int) returns (ok: bool, ghost i: nat, ghost j: nat)
      requires Valid()
      modifies this`net, this`lists, firstOut, net.Keys
      ensures Valid() && (ok <==> vert1 in data && vert2 in data && Joined(old(net), i, j))
      ensures vert1 in data && vert2 in data ==> i < |data| && j < |data| && data[i] == vert1 && data[j] == vert2
      ensures ok ==> forall u: nat, v: nat :: Joined(net, u, v) <==> Joined(old(net), u, v) && !(u == i && v == j)
      ensures ok ==> forall u: nat, v: nat :: Edge(Graph(), u, v) <==> Edge(old(Graph()), u, v) && !(u == i && v == j)
      ensures !ok ==> net == old(net) && firstOut[..] == old(firstOut[..]) && Graph() == old(Graph())
    {
      hide Laid, Joined, Chain, NetAfter, FirstsAfter, Edge, DistinctData, AdjacencyOf, Held;
      var index1 := LocateVertex(data, vert1);
      var index2 := LocateVertex(data, vert2);
      i, j := 0, 0;
      if index1 < 0 || index2 < 0 {
        return false, 0, 0;
      }
      i, j := index1, index2;
      var curr, prev, k := FindArc(index1, index2);
      if curr == null {
        return false, i, j;
      }
      TakeOff(index1, index2, curr, prev, k);
      return true, i, j;
    }

    /** Takes the node at `k` off the list of the arcs out of `i`. */
    method TakeOff(i: nat, ghost j: nat, curr: ArcNode, prev: ArcNode?, ghost k: nat)
      requires Valid() && i < |data| && k < |lists[i]| && curr == lists[i][k]
      requires curr in net && net[curr].tail == i && net[curr].head == j
      requires if k == 0 then prev == null else prev == lists[i][k - 1]
      modifies this`net, this`lists, firstOut, net.Keys
      ensures Valid() && Joined(old(net), i, j)
      ensures forall u: nat, v: nat :: Joined(net, u, v) <==> Joined(old(net), u, v) && !(u == i && v == j)
      ensures forall u: nat, v: nat :: Edge(Graph(), u, v) <==> Edge(old(Graph()), u, v) && !(u == i && v == j)
    {
      hide Laid, Joined, Chain, NetAfter, FirstsAfter, Edge, DistinctData, AdjacencyOf, Held;
      JoinedBy(net, curr);
      ghost var net0, firsts0, lists0 := net, firstOut[..], lists;
      ghost var s := lists[i];
      ghost var a, b := s[..k], s[k + 1..];
      assert s == a + ([curr] + b);
      TakenLaid(net, firstOut[..], lists, i, a, curr, b);
      LaidIsSimple(net, firstOut[..], lists);
      JoinedLess(net, a, curr);
      Unlink(i, prev, curr, a);
      lists := lists[i := a + b];
      EdgesLess(net0, firsts0, lists0, net, firstOut[..], lists, i, j);
    }

    /** Leads the link before the node, or the start of the list, past it. */
    method Unlink(index: nat, prev: ArcNode?, curr: ArcNode, ghost a: seq<ArcNode>)
      requires index < firstOut.Length && Held(net) && curr in net
      requires if a == [] then prev == null else prev == a[|a| - 1] && prev in net && prev != curr
      modifies this`net, firstOut, net.Keys
      ensures net == NetAfter(old(net), a, curr) && Held(net)
      ensures firstOut[..] == FirstsAfter(old(net), old(firstOut[..]), a, curr, index)
    {
      net := NetAfter(net, a, curr);
      if prev != null {
        prev.tailLink := curr.tailLink;
      } else {
        firstOut[index] := curr.tailLink;
      }
    }

    /** The heads of the arcs out of a vertex, by walking its list. */
    method NeighboursOf(v: nat) returns (r: seq<nat>)
      requires Valid() && v < |data|
      ensures r == Graph()[v]
    {
      hide Chain;
      ghost var s, k, g := lists[v], 0, Graph();
      assert Linked(net, firstOut[..], lists, v);
      ListIn(net, firstOut[..], lists, v);
      var curr := firstOut[v];
      r := [];
      assert s[0..] == s;
      while curr != null
        invariant k <= |s| == |g[v]| && Chain(net, curr, s[k..], v) && r == g[v][..k]
        decreases |s| - k
      {
        ChainHead(net, curr, s, k, v);
        r := r + [curr.headVex];
        curr := curr.tailLink;
        k := k + 1;
      }
      ChainEnds(net, s, k, v);
    }
  }

  lemma LaidIsSimple(net: Arcs, firsts: seq<ArcNode?>, lists: seq<seq<ArcNode>>)
    requires Laid(net, firsts, lists)
    ensures Simple(net)
  {
  }
}
