/** Graphs as lists of neighbours, and what can be reached in them. */
module GraphPaths {
  import opened Basics

  const MAX_VERTICES: nat := 256

  /** Neighbours by vertex, in the order of the adjacency list. */
  type Adjacency = seq<seq<nat>>

  ghost predicate NoDuplicates(s: seq<nat>) {
    forall i, j :: 0 <= i < j < |s| ==> s[i] != s[j]
  }

  ghost predicate ListOk(n: nat, s: seq<nat>) {
    NoDuplicates(s) && forall i :: 0 <= i < |s| ==> s[i] < n
  }

  /** No parallel edges, no dangling ones, and no more vertices than the arrays hold. */
  ghost predicate GraphOk(g: Adjacency) {
    |g| <= MAX_VERTICES && forall v :: 0 <= v < |g| ==> ListOk(|g|, g[v])
  }

  ghost predicate Edge(g: Adjacency, u: nat, v: nat) {
    u < |g| && v in g[u]
  }

  /** What can be reached in at most `k` steps. */
  ghost predicate Within(g: Adjacency, s: nat, v: nat, k: nat)
    decreases k
  {
    if k == 0 then v == s else Within(g, s, v, k - 1) || exists u: nat :: Within(g, s, u, k - 1) && Edge(g, u, v)
  }

  ghost predicate Reachable(g: Adjacency, s: nat, v: nat) {
    exists k: nat :: Within(g, s, v, k)
  }

  /** `k` is the length of a shortest path. */
  ghost predicate Distance(g: Adjacency, s: nat, v: nat, k: nat) {
    Within(g, s, v, k) && (k > 0 ==> !Within(g, s, v, k - 1))
  }

  lemma WithinStep(g: Adjacency, s: nat, u: nat, v: nat, k: nat)
    requires Within(g, s, u, k) && Edge(g, u, v)
    ensures Within(g, s, v, k + 1)
  {
  }

  lemma {:induction false} WithinGrows(g: Adjacency, s: nat, v: nat, k: nat, l: nat)
    requires Within(g, s, v, k) && k <= l
    ensures Within(g, s, v, l)
  {
    if k < l {
      WithinGrows(g, s, v, k, l - 1);
    }
  }

  /** A vertex has one distance at most. */
  lemma DistanceUnique(g: Adjacency, s: nat, v: nat, k: nat, l: nat)
    requires Distance(g, s, v, k) && Distance(g, s, v, l)
    ensures k == l
  {
    if k < l {
      WithinGrows(g, s, v, k, l - 1);
    } else if l < k {
      WithinGrows(g, s, v, l, k - 1);
    }
  }

  /** A set that holds the start and all neighbours of its members holds all that can be reached. */
  lemma {:induction false} ClosedHoldsReachable(g: Adjacency, s: nat, closed: set<nat>, v: nat, k: nat)
    requires s in closed && (forall u: nat, w: nat :: u in closed && Edge(g, u, w) ==> w in closed) && Within(g, s, v, k)
    ensures v in closed
    decreases k
  {
    if k > 0 && !Within(g, s, v, k - 1) {
      var u: nat :| Within(g, s, u, k - 1) && Edge(g, u, v);
      ClosedHoldsReachable(g, s, closed, u, k - 1);
    } else if k > 0 {
      ClosedHoldsReachable(g, s, closed, v, k - 1);
    }
  }

  ghost function Members(s: seq<nat>): set<nat> {
    set x | x in s
  }

  lemma {:induction false} MembersCount(s: seq<nat>)
    requires NoDuplicates(s)
    ensures |Members(s)| == |s|
  {
    if s != [] {
      var t := s[..|s| - 1];
      MembersCount(t);
      assert Members(s) == Members(t) + {s[|s| - 1]};
    }
  }

  /** A list without duplicates over `n` vertices has at most `n` entries. */
  lemma FewDistinct(s: seq<nat>, n: nat)
    requires ListOk(n, s)
    ensures |s| <= n
  {
    MembersCount(s);
    BelowSize(n);
    SubsetSize(Members(s), Below(n));
  }

  ghost predicate Symmetric(g: Adjacency) {
    forall u: nat, v: nat :: Edge(g, u, v) <==> Edge(g, v, u)
  }

  // ----- vertices by their data

  ghost predicate DistinctData(data: seq<int>) {
    forall i, j :: 0 <= i < j < |data| ==> data[i] != data[j]
  }

  method LocateVertex(data: seq<int>, vert: int) returns (index: int)
    ensures -1 <= index < |data|
    ensures index >= 0 ==> data[index] == vert
    ensures index < 0 ==> vert !in data
  {
    for i := 0 to |data|
      invariant vert !in data[..i]
    {
      if data[i] == vert {
        return i;
      }
    }
    assert data[..|data|] == data;
    return -1;
  }
}
