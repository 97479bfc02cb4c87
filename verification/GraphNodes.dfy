/** The undirected graph as the source keeps it: every edge is one node on two linked lists. */
module GraphNodes {
  import opened GraphPaths

  class EdgeNode {
    var iVex: nat
    var jVex: nat
    var iLink: EdgeNode?
    var jLink: EdgeNode?

    constructor (i: nat, j: nat, link: EdgeNode?)
      ensures iVex == i && jVex == j && iLink == link && jLink == null
    {
      iVex, jVex, iLink, jLink := i, j, link, null;
    }
  }

  /** What a node holds. */
  datatype Fields = Fields(i: nat, j: nat, iLink: EdgeNode?, jLink: EdgeNode?)

  /** The nodes in use. */
  type Net = map<EdgeNode, Fields>

  /** The next node on the list of a vertex. */
  function Link(f: Fields, v: nat): EdgeNode? {
    if f.i == v then f.iLink else f.jLink
  }

  function WithLink(f: Fields, v: nat, next: EdgeNode?): Fields {
    if f.i == v then f.(iLink := next) else f.(jLink := next)
  }

  function Far(f: Fields, v: nat): nat {
    if f.i == v then f.j else f.i
  }

  predicate At(f: Fields, v: nat) {
    f.i == v || f.j == v
  }

  predicate Joins(f: Fields, u: nat, v: nat) {
    (f.i == u && f.j == v) || (f.i == v && f.j == u)
  }

  /** From `first` on, the links for `v` lead through the nodes `s`. */
  ghost predicate Chain(net: Net, first: EdgeNode?, s: seq<EdgeNode>, v: nat)
    decreases |s|
  {
    if s == [] then first == null
    else first == s[0] && s[0] in net && At(net[s[0]], v) && Chain(net, Link(net[s[0]], v), s[1..], v)
  }

  ghost predicate Once(s: seq<EdgeNode>) {
    forall i, j :: 0 <= i < j < |s| ==> s[i] != s[j]
  }

  ghost predicate Listed(net: Net, lists: seq<seq<EdgeNode>>, e: EdgeNode)
    requires e in net
  {
    net[e].i < |lists| && net[e].j < |lists| && e in lists[net[e].i] && e in lists[net[e].j]
  }

  ghost predicate Linked(net: Net, firsts: seq<EdgeNode?>, lists: seq<seq<EdgeNode>>, v: nat)
    requires v < |lists| <= |firsts|
  {
    Chain(net, firsts[v], lists[v], v) && Once(lists[v])
  }

  /** Every vertex has its list, every node is on the lists of both its ends, and no two nodes join the same vertices. */
  ghost predicate Laid(net: Net, firsts: seq<EdgeNode?>, lists: seq<seq<EdgeNode>>) {
    && |lists| <= |firsts| && (forall v: nat :: v < |lists| ==> Linked(net, firsts, lists, v))
    && (forall e :: e in net ==> Listed(net, lists, e))
    && Simple(net)
  }

  ghost predicate Simple(net: Net) {
    forall e, f :: e in net && f in net && Joins(net[e], net[f].i, net[f].j) ==> e == f
  }

  /** Between which vertices a change of an undirected edge shows. */
  ghost predicate Between(u: nat, v: nat, i: nat, j: nat) {
    (u == i && v == j) || (u == j && v == i)
  }

  ghost predicate Joined(net: Net, u: nat, v: nat) {
    exists e :: e in net && Joins(net[e], u, v)
  }

  /** The neighbours that a list stands for. */
  ghost function Neighbours(net: Net, s: seq<EdgeNode>, v: nat): (r: seq<nat>)
    requires forall i :: 0 <= i < |s| ==> s[i] in net
    ensures |r| == |s| && forall i :: 0 <= i < |s| ==> r[i] == Far(net[s[i]], v)
  {
    seq(|s|, i requires 0 <= i < |s| => Far(net[s[i]], v))
  }

  // ----- chains

  lemma {:induction false} ChainNodes(net: Net, first: EdgeNode?, s: seq<EdgeNode>, v: nat, i: nat)
    requires Chain(net, first, s, v) && i < |s|
    ensures s[i] in net && At(net[s[i]], v)
    decreases |s|
  {
    if i > 0 {
      ChainNodes(net, Link(net[s[0]], v), s[1..], v, i - 1);
    }
  }

  /** Links that are the same lead the same way. */
  lemma {:induction false} SameChain(net: Net, net': Net, first: EdgeNode?, s: seq<EdgeNode>, v: nat)
    requires Chain(net, first, s, v)
    requires forall i :: 0 <= i < |s| && s[i] in net ==>
               s[i] in net' && At(net'[s[i]], v) && Link(net'[s[i]], v) == Link(net[s[i]], v)
    ensures Chain(net', first, s, v)
    decreases |s|
  {
    if s != [] {
      SameChain(net, net', Link(net[s[0]], v), s[1..], v);
    }
  }

  lemma ChainTail(net: Net, first: EdgeNode?, s: seq<EdgeNode>, v: nat)
    requires Chain(net, first, s, v) && s != []
    ensures first == s[0] && s[0] in net && At(net[s[0]], v) && Chain(net, Link(net[s[0]], v), s[1..], v)
  {
  }

  lemma ChainCons(net: Net, e: EdgeNode, s: seq<EdgeNode>, v: nat)
    requires e in net && At(net[e], v) && Chain(net, Link(net[e], v), s, v)
    ensures Chain(net, e, [e] + s, v)
  {
    assert ([e] + s)[1..] == s;
  }

  /** Nodes other than `p` lead the same way when only `p` changes. */
  lemma ChainWithout(net: Net, first: EdgeNode?, s: seq<EdgeNode>, v: nat, p: EdgeNode, f: Fields)
    requires Chain(net, first, s, v) && p !in s
    ensures Chain(net[p := f], first, s, v)
  {
    hide Chain;
    forall i | 0 <= i < |s| && s[i] in net
      ensures At(net[s[i]], v)
    {
      ChainNodes(net, first, s, v, i);
    }
    SameChain(net, net[p := f], first, s, v);
  }

  /** A node is taken out by leading the link before it past it. */
  lemma {:induction false} Bypassed(net: Net, first: EdgeNode?, a: seq<EdgeNode>, e: EdgeNode, b: seq<EdgeNode>, v: nat)
    requires Once(a + ([e] + b)) && Chain(net, first, a + ([e] + b), v) && a != []
    ensures e in net && a[|a| - 1] in net && At(net[a[|a| - 1]], v)
    ensures var p := a[|a| - 1]; Chain(net[p := WithLink(net[p], v, Link(net[e], v))], first, a + b, v)
    decreases |a|
  {
    hide Chain, Once;
    var s, p := a + ([e] + b), a[|a| - 1];
    ChainTail(net, first, s, v);
    OnceTail(s);
    assert s[0] == a[0];
    if |a| == 1 {
      assert s[1..] == [e] + b && a + b == [p] + b;
      ChainTail(net, Link(net[p], v), [e] + b, v);
      assert ([e] + b)[1..] == b;
      assert p !in b;
      var f := WithLink(net[p], v, Link(net[e], v));
      ChainWithout(net, Link(net[e], v), b, v, p, f);
      ChainCons(net[p := f], p, b, v);
    } else {
      assert s[1..] == a[1..] + ([e] + b) && a[1..][|a| - 2] == p;
      Bypassed(net, Link(net[a[0]], v), a[1..], e, b, v);
      assert p in s[1..];
      var f := WithLink(net[p], v, Link(net[e], v));
      ChainCons(net[p := f], a[0], a[1..] + b, v);
      assert [a[0]] + (a[1..] + b) == a + b;
    }
  }

  lemma OnceTail(s: seq<EdgeNode>)
    requires Once(s) && s != []
    ensures Once(s[1..]) && s[0] !in s[1..]
  {
  }

  /** The links of other vertices do not change. */
  lemma OtherChain(net: Net, first: EdgeNode?, s: seq<EdgeNode>, p: EdgeNode, v: nat, w: nat, next: EdgeNode?)
    requires Chain(net, first, s, w) && p in net && At(net[p], v) && w != v
    ensures Chain(net[p := WithLink(net[p], v, next)], first, s, w)
  {
    var net' := net[p := WithLink(net[p], v, next)];
    forall i | 0 <= i < |s| && s[i] in net
      ensures At(net'[s[i]], w) && Link(net'[s[i]], w) == Link(net[s[i]], w)
    {
      ChainNodes(net, first, s, w, i);
    }
    SameChain(net, net', first, s, w);
  }

  // ----- adding a node

  ghost function Added(lists: seq<seq<EdgeNode>>, i: nat, j: nat, n: EdgeNode): seq<seq<EdgeNode>>
    requires i < |lists| && j < |lists|
  {
    seq(|lists|, v requires 0 <= v < |lists| => if v == i || v == j then [n] + lists[v] else lists[v])
  }

  lemma AddedLaid(net: Net, firsts: seq<EdgeNode?>, lists: seq<seq<EdgeNode>>, i: nat, j: nat, n: EdgeNode, f: Fields)
    requires Laid(net, firsts, lists) && i < |lists| && j < |lists| && n !in net && !Joined(net, i, j)
    requires f == Fields(i, j, firsts[i], firsts[i := n][j])
    ensures Laid(net[n := f], firsts[i := n][j := n], Added(lists, i, j, n))
  {
    hide Linked, Joined;
    var net', firsts', lists' := net[n := f], firsts[i := n][j := n], Added(lists, i, j, n);
    forall v: nat | v < |lists|
      ensures Linked(net', firsts', lists', v)
    {
      assert Linked(net, firsts, lists, v);
      AddedLinked(net, firsts, lists, i, j, n, f, v);
    }
    forall e | e in net'
      ensures Listed(net', lists', e)
    {
      assert e != n ==> Listed(net, lists, e);
    }
    AddedSimple(net, n, f);
  }

  lemma AddedSimple(net: Net, n: EdgeNode, f: Fields)
    requires Simple(net) && n !in net && !Joined(net, f.i, f.j)
    ensures Simple(net[n := f])
  {
    forall e | e in net
      ensures !Joins(net[e], f.i, f.j) && !Joins(f, net[e].i, net[e].j)
    {
    }
  }

  lemma AddedLinked(net: Net, firsts: seq<EdgeNode?>, lists: seq<seq<EdgeNode>>, i: nat, j: nat, n: EdgeNode, f: Fields, v: nat)
    requires v < |lists| <= |firsts| && Linked(net, firsts, lists, v) && i < |lists| && j < |lists| && n !in net
    requires f == Fields(i, j, firsts[i], firsts[i := n][j])
    ensures Linked(net[n := f], firsts[i := n][j := n], Added(lists, i, j, n), v)
  {
    hide Chain;
    var s := lists[v];
    NotListed(net, firsts[v], s, v, n);
    ChainWithout(net, firsts[v], s, v, n, f);
    if v == i || v == j {
      ChainCons(net[n := f], n, s, v);
    }
  }

  lemma NotListed(net: Net, first: EdgeNode?, s: seq<EdgeNode>, v: nat, n: EdgeNode)
    requires Chain(net, first, s, v) && n !in net
    ensures n !in s
  {
    hide Chain;
    forall i | 0 <= i < |s|
      ensures s[i] != n
    {
      ChainNodes(net, first, s, v, i);
    }
  }

  // ----- taking a node out

  /** All but `e` are listed at both ends. */
  ghost predicate Woven(net: Net, firsts: seq<EdgeNode?>, lists: seq<seq<EdgeNode>>, e: EdgeNode) {
    && |lists| <= |firsts| && (forall v: nat :: v < |lists| ==> Linked(net, firsts, lists, v))
    && (forall x :: x in net && x != e ==> Listed(net, lists, x))
    && Simple(net)
  }

  ghost predicate SameEnds(net: Net, net': Net) {
    net.Keys == net'.Keys && forall e :: e in net ==> net'[e].i == net[e].i && net'[e].j == net[e].j
  }

  /** The nodes after the link before `e` on the list of `v` has been led past it. */
  ghost function NetAfter(net: Net, a: seq<EdgeNode>, e: EdgeNode, v: nat): Net
    requires e in net && (a != [] ==> a[|a| - 1] in net)
  {
    if a == [] then net
    else
      var p := a[|a| - 1];
      net[p := WithLink(net[p], v, Link(net[e], v))]
  }

  ghost function FirstsAfter(net: Net, firsts: seq<EdgeNode?>, a: seq<EdgeNode>, e: EdgeNode, v: nat): seq<EdgeNode?>
    requires e in net && v < |firsts|
  {
    if a == [] then firsts[v := Link(net[e], v)] else firsts
  }

  lemma Split(net: Net, firsts: seq<EdgeNode?>, lists: seq<seq<EdgeNode>>, v: nat, a: seq<EdgeNode>, e: EdgeNode, b: seq<EdgeNode>)
    requires v < |lists| <= |firsts| && Linked(net, firsts, lists, v) && lists[v] == a + ([e] + b)
    ensures e in net && At(net[e], v) && (a != [] ==> a[|a| - 1] in net && At(net[a[|a| - 1]], v)) && e !in a + b && Once(a + b)
    ensures firsts[v] == (if a == [] then e else a[0])
    ensures Chain(NetAfter(net, a, e, v), FirstsAfter(net, firsts, a, e, v)[v], a + b, v)
  {
    hide Chain;
    var s := lists[v];
    ChainNodes(net, firsts[v], s, v, |a|);
    assert s[|a|] == e;
    ChainTail(net, firsts[v], s, v);
    OnceMiddle(a, e, b);
    if a == [] {
      assert s[1..] == b && a + b == b;
    } else {
      Bypassed(net, firsts[v], a, e, b, v);
    }
  }

  lemma OnceMiddle(a: seq<EdgeNode>, e: EdgeNode, b: seq<EdgeNode>)
    requires Once(a + ([e] + b))
    ensures e !in a + b && Once(a + b)
  {
    var s, t := a + ([e] + b), a + b;
    assert s[|a|] == e;
    forall k | 0 <= k < |t|
      ensures t[k] == s[if k < |a| then k else k + 1]
    {
    }
  }

  lemma TakenLinked(net: Net, firsts: seq<EdgeNode?>, lists: seq<seq<EdgeNode>>, v: nat, a: seq<EdgeNode>, e: EdgeNode,
                    b: seq<EdgeNode>, w: nat)
    requires v < |lists| <= |firsts| && Linked(net, firsts, lists, v) && lists[v] == a + ([e] + b)
    requires w < |lists| && Linked(net, firsts, lists, w) && e in net && (a != [] ==> a[|a| - 1] in net)
    ensures Linked(NetAfter(net, a, e, v), FirstsAfter(net, firsts, a, e, v), lists[v := a + b], w)
  {
    hide Chain, Once;
    Split(net, firsts, lists, v, a, e, b);
    if w != v && a != [] {
      OtherChain(net, firsts[w], lists[w], a[|a| - 1], v, w, Link(net[e], v));
    }
  }

  /** Taking `e` off one list keeps everything else woven. */
  lemma Taken(net: Net, firsts: seq<EdgeNode?>, lists: seq<seq<EdgeNode>>, v: nat, a: seq<EdgeNode>, e: EdgeNode, b: seq<EdgeNode>)
    requires Woven(net, firsts, lists, e) && v < |lists| && lists[v] == a + ([e] + b)
    ensures e in net && At(net[e], v) && (a != [] ==> a[|a| - 1] in net && At(net[a[|a| - 1]], v))
    ensures SameEnds(net, NetAfter(net, a, e, v))
    ensures Woven(NetAfter(net, a, e, v), FirstsAfter(net, firsts, a, e, v), lists[v := a + b], e)
    ensures e !in lists[v := a + b][v]
  {
    hide Linked, Once;
    assert Linked(net, firsts, lists, v);
    Split(net, firsts, lists, v, a, e, b);
    var net', firsts', lists' := NetAfter(net, a, e, v), FirstsAfter(net, firsts, a, e, v), lists[v := a + b];
    forall w: nat | w < |lists'|
      ensures Linked(net', firsts', lists', w)
    {
      assert Linked(net, firsts, lists, w);
      TakenLinked(net, firsts, lists, v, a, e, b, w);
    }
    forall x | x in net' && x != e
      ensures Listed(net', lists', x)
    {
      assert Listed(net, lists, x);
      assert x in a + ([e] + b) ==> x in a + b;
    }
    SameSimple(net, net');
  }

  lemma SameSimple(net: Net, net': Net)
    requires Simple(net) && SameEnds(net, net')
    ensures Simple(net')
  {
  }

  lemma DroppedLaid(net: Net, firsts: seq<EdgeNode?>, lists: seq<seq<EdgeNode>>, e: EdgeNode)
    requires Woven(net, firsts, lists, e) && forall v: nat :: v < |lists| ==> e !in lists[v]
    ensures Laid(net - {e}, firsts, lists)
  {
    hide Chain;
    var net' := net - {e};
    forall v: nat | v < |lists|
      ensures Linked(net', firsts, lists, v)
    {
      var s := lists[v];
      assert Linked(net, firsts, lists, v);
      forall k | 0 <= k < |s| && s[k] in net
        ensures s[k] in net' && At(net'[s[k]], v)
      {
        ChainNodes(net, firsts[v], s, v, k);
      }
      SameChain(net, net', firsts[v], s, v);
    }
    forall x | x in net'
      ensures Listed(net', lists, x)
    {
      assert Listed(net, lists, x);
    }
  }

  // ----- the graph that the lists stand for

  ghost function AdjacencyOf(net: Net, firsts: seq<EdgeNode?>, lists: seq<seq<EdgeNode>>): (g: Adjacency)
    requires Laid(net, firsts, lists)
    ensures |g| == |lists|
  {
    seq(|lists|, v requires 0 <= v < |lists| =>
      ListIn(net, firsts, lists, v);
      Neighbours(net, lists[v], v))
  }

  lemma ListIn(net: Net, firsts: seq<EdgeNode?>, lists: seq<seq<EdgeNode>>, v: nat)
    requires Laid(net, firsts, lists) && v < |lists|
    ensures forall i :: 0 <= i < |lists[v]| ==> lists[v][i] in net && At(net[lists[v][i]], v)
  {
    assert Linked(net, firsts, lists, v);
    forall i | 0 <= i < |lists[v]|
      ensures lists[v][i] in net && At(net[lists[v][i]], v)
    {
      ChainNodes(net, firsts[v], lists[v], v, i);
    }
  }

  lemma EdgeIsJoined(net: Net, firsts: seq<EdgeNode?>, lists: seq<seq<EdgeNode>>, u: nat, w: nat)
    requires Laid(net, firsts, lists)
    ensures Edge(AdjacencyOf(net, firsts, lists), u, w) <==> Joined(net, u, w)
  {
    hide Chain;
    var g := AdjacencyOf(net, firsts, lists);
    if Edge(g, u, w) {
      ListIn(net, firsts, lists, u);
      var i :| 0 <= i < |g[u]| && g[u][i] == w;
      assert Joins(net[lists[u][i]], u, w);
    }
    if Joined(net, u, w) {
      var e :| e in net && Joins(net[e], u, w);
      assert Listed(net, lists, e);
      ListIn(net, firsts, lists, u);
      var i :| 0 <= i < |lists[u]| && lists[u][i] == e;
      assert g[u][i] == w;
    }
  }

  lemma EdgesAreJoined(net: Net, firsts: seq<EdgeNode?>, lists: seq<seq<EdgeNode>>)
    requires Laid(net, firsts, lists)
    ensures forall u: nat, v: nat :: Edge(AdjacencyOf(net, firsts, lists), u, v) <==> Joined(net, u, v)
  {
    hide *;
    forall u: nat, v: nat
      ensures Edge(AdjacencyOf(net, firsts, lists), u, v) <==> Joined(net, u, v)
    {
      EdgeIsJoined(net, firsts, lists, u, v);
    }
  }

  lemma EdgesMore(net: Net, firsts: seq<EdgeNode?>, lists: seq<seq<EdgeNode>>, net': Net, firsts': seq<EdgeNode?>,
                  lists': seq<seq<EdgeNode>>, i: nat, j: nat)
    requires Laid(net, firsts, lists) && Laid(net', firsts', lists')
    requires forall u: nat, v: nat :: Joined(net', u, v) <==> Joined(net, u, v) || Between(u, v, i, j)
    ensures forall u: nat, v: nat ::
              Edge(AdjacencyOf(net', firsts', lists'), u, v) <==> Edge(AdjacencyOf(net, firsts, lists), u, v) || Between(u, v, i, j)
  {
    hide *;
    EdgesAreJoined(net, firsts, lists);
    EdgesAreJoined(net', firsts', lists');
  }

  lemma EdgesLess(net: Net, firsts: seq<EdgeNode?>, lists: seq<seq<EdgeNode>>, net': Net, firsts': seq<EdgeNode?>,
                  lists': seq<seq<EdgeNode>>, i: nat, j: nat)
    requires Laid(net, firsts, lists) && Laid(net', firsts', lists')
    requires forall u: nat, v: nat :: Joined(net', u, v) <==> Joined(net, u, v) && !Between(u, v, i, j)
    ensures forall u: nat, v: nat ::
              Edge(AdjacencyOf(net', firsts', lists'), u, v) <==> Edge(AdjacencyOf(net, firsts, lists), u, v) && !Between(u, v, i, j)
  {
    hide *;
    EdgesAreJoined(net, firsts, lists);
    EdgesAreJoined(net', firsts', lists');
  }

  /** A new vertex comes without neighbours, and the others keep theirs. */
  lemma NewVertexAlone(net: Net, firsts: seq<EdgeNode?>, lists: seq<seq<EdgeNode>>, firsts': seq<EdgeNode?>)
    requires Laid(net, firsts, lists) && Laid(net, firsts', lists + [[]])
    ensures AdjacencyOf(net, firsts', lists + [[]]) == AdjacencyOf(net, firsts, lists) + [[]]
  {
    hide Laid, Chain;
    ListIn(net, firsts', lists + [[]], |lists|);
  }

  /** A graph kept this way has no parallel edges and is symmetric. */
  lemma AdjacencyIsOk(net: Net, firsts: seq<EdgeNode?>, lists: seq<seq<EdgeNode>>)
    requires Laid(net, firsts, lists) && |lists| <= MAX_VERTICES
    ensures GraphOk(AdjacencyOf(net, firsts, lists)) && Symmetric(AdjacencyOf(net, firsts, lists))
  {
    hide Chain, Edge;
    var g := AdjacencyOf(net, firsts, lists);
    forall v: nat | v < |g|
      ensures ListOk(|g|, g[v])
    {
      RowIsOk(net, firsts, lists, v);
    }
    forall u: nat, w: nat
      ensures Edge(g, u, w) <==> Edge(g, w, u)
    {
      EdgeIsJoined(net, firsts, lists, u, w);
      EdgeIsJoined(net, firsts, lists, w, u);
      assert Joined(net, u, w) <==> Joined(net, w, u);
    }
  }

  lemma RowIsOk(net: Net, firsts: seq<EdgeNode?>, lists: seq<seq<EdgeNode>>, v: nat)
    requires Laid(net, firsts, lists) && v < |lists|
    ensures ListOk(|lists|, AdjacencyOf(net, firsts, lists)[v])
  {
    hide Chain;
    var s, r := lists[v], AdjacencyOf(net, firsts, lists)[v];
    ListIn(net, firsts, lists, v);
    assert Linked(net, firsts, lists, v);
    forall i, j | 0 <= i < j < |r|
      ensures r[i] != r[j]
    {
      assert s[i] != s[j];
    }
    forall i | 0 <= i < |r|
      ensures r[i] < |lists|
    {
      assert Listed(net, lists, s[i]);
    }
  }

  lemma NewVertexLaid(net: Net, firsts: seq<EdgeNode?>, lists: seq<seq<EdgeNode>>)
    requires Laid(net, firsts, lists) && |lists| < |firsts|
    ensures Laid(net, firsts[|lists| := null], lists + [[]])
  {
    hide Chain;
    var firsts', lists' := firsts[|lists| := null], lists + [[]];
    forall v: nat | v < |lists'|
      ensures Linked(net, firsts', lists', v)
    {
      if v < |lists| {
        assert Linked(net, firsts, lists, v);
      } else {
        EmptyChain(net, v);
      }
    }
    forall e | e in net
      ensures Listed(net, lists', e)
    {
      assert Listed(net, lists, e);
    }
  }

  lemma EmptyChain(net: Net, v: nat)
    ensures Chain(net, null, [], v)
  {
  }

  // ----- the nodes in the heap

  /** The nodes hold what `net` says. */
  ghost predicate Held(net: Net)
    reads net.Keys
  {
    forall e :: e in net ==> e.iVex == net[e].i && e.jVex == net[e].j && e.iLink == net[e].iLink && e.jLink == net[e].jLink
  }

  lemma HeldWith(net: Net, n: EdgeNode, f: Fields)
    requires Held(net) && n !in net && f == Fields(n.iVex, n.jVex, n.iLink, n.jLink)
    ensures Held(net[n := f])
  {
  }

  method GetNextEdge(e: EdgeNode, index: nat, ghost net: Net) returns (next: EdgeNode?)
    requires Held(net) && e in net
    ensures next == Link(net[e], index)
  {
    next := if e.iVex == index then e.iLink else e.jLink;
  }

  class UndirectedGraph {
    var data: seq<int>
    const firsts: array<EdgeNode?>
    ghost var net: Net
    ghost var lists: seq<seq<EdgeNode>>

    ghost predicate Valid()
      reads this, firsts, net.Keys
    {
      && firsts.Length == MAX_VERTICES && |data| == |lists| <= MAX_VERTICES && DistinctData(data)
      && Laid(net, firsts[..], lists) && Held(net)
    }

    /** The graph as neighbour lists, on which the traversals run. */
    ghost function Graph(): (g: Adjacency)
      requires Valid()
      reads this, firsts, net.Keys
      ensures |g| == |data| && GraphOk(g) && Symmetric(g)
    {
      AdjacencyIsOk(net, firsts[..], lists);
      AdjacencyOf(net, firsts[..], lists)
    }

    constructor ()
      ensures Valid() && data == [] && net == map[]
    {
      data := [];
      firsts := new EdgeNode?[MAX_VERTICES](_ => null);
      net, lists := map[], [];
    }

    method AddVertex(vert: int) returns (ok: bool)
      requires Valid()
      modifies this, firsts
      ensures Valid() && net == old(net) && (ok <==> |old(data)| < MAX_VERTICES && vert !in old(data))
      ensures data == if ok then old(data) + [vert] else old(data)
      ensures Graph() == if ok then old(Graph()) + [[]] else old(Graph())
    {
      hide Laid;
      if |data| >= MAX_VERTICES {
        return false;
      }
      var index := LocateVertex(data, vert);
      if index >= 0 {
        return false;
      }
      NewVertexLaid(net, firsts[..], lists);
      firsts[|data|] := null;
      assert firsts[..] == old(firsts[..])[|data| := null];
      NewVertexAlone(net, old(firsts[..]), lists, firsts[..]);
      data, lists := data + [vert], lists + [[]];
      return true;
    }

    /** Walks the list of a vertex in search of an edge. */
    method FindEdge(v: nat, w: nat) returns (curr: EdgeNode?)
      requires Valid() && v < |data|
      ensures curr != null ==> curr in net && Joins(net[curr], v, w)
      ensures curr == null ==> !Joined(net, v, w)
    {
      hide Chain;
      ghost var s, k := lists[v], 0;
      assert Linked(net, firsts[..], lists, v);
      ListIn(net, firsts[..], lists, v);
      curr := firsts[v];
      assert s[0..] == s;
      while curr != null
        invariant k <= |s| && Chain(net, curr, s[k..], v) && forall t :: 0 <= t < k ==> !Joins(net[s[t]], v, w)
        decreases |s| - k
      {
        ChainHead(net, curr, s, k, v);
        if (curr.iVex == v && curr.jVex == w) || (curr.iVex == w && curr.jVex == v) {
          return;
        }
        curr := GetNextEdge(curr, v, net);
        k := k + 1;
      }
      ChainEnds(net, s, k, v);
      NoneJoined(net, firsts[..], lists, v, w);
    }

    method AddEdge(vert1: int, vert2: int) returns (ok: bool, ghost i: nat, ghost j: nat)
      requires Valid()
      modifies this`net, this`lists, firsts
      ensures Valid() && (ok <==> vert1 in data && vert2 in data && !Joined(old(net), i, j))
      ensures vert1 in data && vert2 in data ==> i < |data| && j < |data| && data[i] == vert1 && data[j] == vert2
      ensures ok ==> forall u: nat, v: nat :: Joined(net, u, v) <==> Joined(old(net), u, v) || Between(u, v, i, j)
      ensures ok ==> forall u: nat, v: nat :: Edge(Graph(), u, v) <==> Edge(old(Graph()), u, v) || Between(u, v, i, j)
      ensures !ok ==> net == old(net) && firsts[..] == old(firsts[..]) && Graph() == old(Graph())
      ensures fresh(net.Keys - old(net.Keys))
    {
      hide Laid, Joined, Held, DistinctData;
      var index1 := LocateVertex(data, vert1);
      var index2 := LocateVertex(data, vert2);
      i, j := 0, 0;
      if index1 < 0 || index2 < 0 {
        return false, 0, 0;
      }
      i, j := index1, index2;
      var found := FindEdge(index1, index2);
      if found != null {
        JoinedBy(net, found, i, j);
        return false, i, j;
      }
      ghost var was := firsts[..];
      var newNode := new EdgeNode(index1, index2, firsts[index1]);
      firsts[index1] := newNode;
      newNode.jLink := firsts[index2];
      firsts[index2] := newNode;
      ghost var f := Fields(i, j, newNode.iLink, newNode.jLink);
      assert firsts[..] == was[i := newNode][j := newNode] && newNode.jLink == was[i := newNode][j];
      AddedLaid(net, was, lists, i, j, newNode, f);
      HeldWith(net, newNode, f);
      JoinedMore(net, newNode, f);
      ghost var net0, lists0 := net, lists;
      net, lists := net[newNode := f], Added(lists, i, j, newNode);
      EdgesMore(net0, was, lists0, net, firsts[..], lists, i, j);
      return true, i, j;
    }

    /** Takes a node off the list of one of its ends, if it is there. */
    method RemoveEdgeFromList(index: nat, e: EdgeNode)
      requires firsts.Length == MAX_VERTICES && index < |lists| && e in net && Woven(net, firsts[..], lists, e) && Held(net)
      modifies this`net, this`lists, firsts, net.Keys
      ensures |lists| == |old(lists)| && net.Keys == old(net.Keys) && Woven(net, firsts[..], lists, e) && Held(net) && SameEnds(old(net), net)
      ensures e !in lists[index] && forall v :: 0 <= v < |lists| && v != index ==> lists[v] == old(lists)[v]
    {
      hide Chain, Woven, SameEnds, NetAfter, FirstsAfter;
      ghost var s, k := lists[index], 0;
      WovenChain(net, firsts[..], lists, e, index);
      var curr, prev: EdgeNode? := firsts[index], null;
      assert s[0..] == s;
      while curr != null && curr != e
        modifies {}
        invariant firsts[..] == old(firsts[..])
        invariant k <= |s| && Chain(net, curr, s[k..], index) && e !in s[..k]
        invariant if k == 0 then prev == null else prev == s[k - 1]
        decreases |s| - k
      {
        ChainHead(net, curr, s, k, index);
        prev := curr;
        curr := GetNextEdge(curr, index, net);
        k := k + 1;
      }
      if curr == null {
        ChainEnds(net, s, k, index);
        assert s[..k] == s;
        SameEndsSelf(net);
        return;
      }
      ChainHead(net, curr, s, k, index);
      ghost var a, b := s[..k], s[k + 1..];
      assert s == a + ([e] + b);
      Taken(net, firsts[..], lists, index, a, e, b);
      var next := GetNextEdge(curr, index, net);
      Relink(index, prev, next, a, e);
      lists := lists[index := a + b];
    }

    /** Leads the link before a node past it. */
    method Relink(index: nat, prev: EdgeNode?, next: EdgeNode?, ghost a: seq<EdgeNode>, ghost e: EdgeNode)
      requires index < firsts.Length && Held(net) && e in net && next == Link(net[e], index)
      requires if a == [] then prev == null else prev == a[|a| - 1] && prev in net && At(net[prev], index)
      modifies this`net, firsts, net.Keys
      ensures net == NetAfter(old(net), a, e, index) && Held(net) && net.Keys == old(net.Keys)
      ensures firsts[..] == FirstsAfter(old(net), old(firsts[..]), a, e, index)
    {
      net := NetAfter(net, a, e, index);
      if prev == null {
        firsts[index] := next;
      } else if prev.iVex == index {
        prev.iLink := next;
      } else {
        prev.jLink := next;
      }
    }

    method DeleteEdge(vert1: int, vert2: int) returns (ok: bool, ghost i: nat, ghost j: nat)
      requires Valid()
      modifies this`net, this`lists, firsts, net.Keys
      ensures Valid() && (ok <==> vert1 in data && vert2 in data && Joined(old(net), i, j))
      ensures vert1 in data && vert2 in data ==> i < |data| && j < |data| && data[i] == vert1 && data[j] == vert2
      ensures ok ==> forall u: nat, v: nat :: Joined(net, u, v) <==> Joined(old(net), u, v) && !Between(u, v, i, j)
      ensures ok ==> forall u: nat, v: nat :: Edge(Graph(), u, v) <==> Edge(old(Graph()), u, v) && !Between(u, v, i, j)
      ensures !ok ==> net == old(net) && firsts[..] == old(firsts[..]) && Graph() == old(Graph())
    {
      hide Laid, Joined, Woven, SameEnds, Edge, Between;
      var index1 := LocateVertex(data, vert1);
      var index2 := LocateVertex(data, vert2);
      i, j := 0, 0;
      if index1 < 0 || index2 < 0 {
        return false, 0, 0;
      }
      i, j := index1, index2;
      var curr := FindEdge(index1, index2);
      if curr == null {
        return false, i, j;
      }
      TakeOff(index1, index2, curr);
      return true, i, j;
    }

    /** Takes a node off the lists of both its ends. */
    method TakeOff(i: nat, j: nat, curr: EdgeNode)
      requires Valid() && i < |data| && j < |data| && curr in net && Joins(net[curr], i, j)
      modifies this`net, this`lists, firsts, net.Keys
      ensures Valid() && Joined(old(net), i, j)
      ensures forall u: nat, v: nat :: Joined(net, u, v) <==> Joined(old(net), u, v) && !Between(u, v, i, j)
      ensures forall u: nat, v: nat :: Edge(Graph(), u, v) <==> Edge(old(Graph()), u, v) && !Between(u, v, i, j)
    {
      hide Laid, Joined, Woven, SameEnds, Edge, Between, DistinctData;
      JoinedBy(net, curr, i, j);
      ghost var net0, firsts0, lists0 := net, firsts[..], lists;
      ghost var was := net;
      LaidIsWoven(net, firsts[..], lists, curr);
      RemoveEdgeFromList(i, curr);
      SameEndsIn(was, net, curr);
      ghost var mid := net;
      RemoveEdgeFromList(j, curr);
      SameEndsTwice(was, mid, net);
      OffAllLists(net, firsts[..], lists, curr, i, j);
      DroppedLaid(net, firsts[..], lists, curr);
      JoinedLess(was, net, curr, i, j);
      net := net - {curr};
      EdgesLess(net0, firsts0, lists0, net, firsts[..], lists, i, j);
    }

    /** The neighbours of a vertex, by walking its list. */
    method NeighboursOf(v: nat) returns (r: seq<nat>)
      requires Valid() && v < |data|
      ensures r == Graph()[v]
    {
      hide Chain;
      ghost var s, k, g := lists[v], 0, Graph();
      assert Linked(net, firsts[..], lists, v);
      ListIn(net, firsts[..], lists, v);
      var curr := firsts[v];
      r := [];
      assert s[0..] == s;
      while curr != null
        invariant k <= |s| == |g[v]| && Chain(net, curr, s[k..], v) && r == g[v][..k]
        decreases |s| - k
      {
        ChainHead(net, curr, s, k, v);
        r := r + [if curr.iVex == v then curr.jVex else curr.iVex];
        curr := GetNextEdge(curr, v, net);
        k := k + 1;
      }
      ChainEnds(net, s, k, v);
    }
  }

  lemma ChainHead(net: Net, curr: EdgeNode, s: seq<EdgeNode>, k: nat, v: nat)
    requires k <= |s| && Chain(net, curr, s[k..], v)
    ensures k < |s| && curr == s[k] && curr in net && At(net[curr], v) && Chain(net, Link(net[curr], v), s[k + 1..], v)
  {
    assert s[k..] != [] ==> s[k..][1..] == s[k + 1..];
  }

  lemma ChainEnds(net: Net, s: seq<EdgeNode>, k: nat, v: nat)
    requires k <= |s| && Chain(net, null, s[k..], v)
    ensures k == |s|
  {
  }

  lemma NoneJoined(net: Net, firsts: seq<EdgeNode?>, lists: seq<seq<EdgeNode>>, v: nat, w: nat)
    requires Laid(net, firsts, lists) && v < |lists|
    requires forall t :: 0 <= t < |lists[v]| ==> lists[v][t] in net && !Joins(net[lists[v][t]], v, w)
    ensures !Joined(net, v, w)
  {
    forall e | e in net
      ensures !Joins(net[e], v, w)
    {
      assert Listed(net, lists, e);
    }
  }

  lemma JoinedBy(net: Net, e: EdgeNode, i: nat, j: nat)
    requires e in net && Joins(net[e], i, j)
    ensures Joined(net, i, j)
  {
  }

  lemma JoinedMore(net: Net, n: EdgeNode, f: Fields)
    requires n !in net
    ensures forall u: nat, v: nat :: Joined(net[n := f], u, v) <==> Joined(net, u, v) || Between(u, v, f.i, f.j)
  {
    forall u: nat, v: nat
      ensures Joined(net[n := f], u, v) <==> Joined(net, u, v) || Between(u, v, f.i, f.j)
    {
      if Joined(net, u, v) {
        var e :| e in net && Joins(net[e], u, v);
        assert Joins(net[n := f][e], u, v);
      }
      if Between(u, v, f.i, f.j) {
        assert Joins(net[n := f][n], u, v);
      }
    }
  }

  lemma JoinedLess(was: Net, net: Net, e: EdgeNode, i: nat, j: nat)
    requires SameEnds(was, net) && Simple(was) && e in was && Joins(was[e], i, j)
    ensures forall u: nat, v: nat :: Joined(net - {e}, u, v) <==> Joined(was, u, v) && !Between(u, v, i, j)
  {
    forall u: nat, v: nat
      ensures Joined(net - {e}, u, v) <==> Joined(was, u, v) && !Between(u, v, i, j)
    {
      if Joined(net - {e}, u, v) {
        var x :| x in net - {e} && Joins((net - {e})[x], u, v);
        assert Joins(was[x], u, v);
      }
      if Joined(was, u, v) && !Between(u, v, i, j) {
        var x :| x in was && Joins(was[x], u, v);
        assert Joins((net - {e})[x], u, v);
      }
    }
  }

  lemma WovenChain(net: Net, firsts: seq<EdgeNode?>, lists: seq<seq<EdgeNode>>, e: EdgeNode, v: nat)
    requires Woven(net, firsts, lists, e) && v < |lists|
    ensures |lists| <= |firsts| && Chain(net, firsts[v], lists[v], v)
  {
    assert Linked(net, firsts, lists, v);
  }

  lemma LaidIsWoven(net: Net, firsts: seq<EdgeNode?>, lists: seq<seq<EdgeNode>>, e: EdgeNode)
    requires Laid(net, firsts, lists)
    ensures Woven(net, firsts, lists, e) && Simple(net)
  {
  }

  lemma SameEndsSelf(net: Net)
    ensures SameEnds(net, net)
  {
  }

  lemma SameEndsIn(net: Net, net': Net, e: EdgeNode)
    requires SameEnds(net, net') && e in net
    ensures e in net'
  {
  }

  lemma SameEndsTwice(a: Net, b: Net, c: Net)
    requires SameEnds(a, b) && SameEnds(b, c)
    ensures SameEnds(a, c)
  {
  }

  /** Off the lists of its ends, a node is on no list. */
  lemma OffAllLists(net: Net, firsts: seq<EdgeNode?>, lists: seq<seq<EdgeNode>>, e: EdgeNode, i: nat, j: nat)
    requires Woven(net, firsts, lists, e) && i < |lists| && j < |lists| && e !in lists[i] && e !in lists[j]
    requires e in net && Joins(net[e], i, j)
    ensures forall v: nat :: v < |lists| ==> e !in lists[v]
  {
    hide Chain;
    forall v: nat | v < |lists|
      ensures e !in lists[v]
    {
      assert Linked(net, firsts, lists, v);
      forall k | 0 <= k < |lists[v]|
        ensures v == i || v == j || lists[v][k] != e
      {
        ChainNodes(net, firsts[v], lists[v], v, k);
      }
    }
  }
}
