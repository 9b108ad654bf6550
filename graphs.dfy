/** The directed graph that the scheduler consumes: vertices are the indices
    0 .. size-1, edges are kept in the order they were added, and the outgoing
    and incoming adjacency lists are read off that edge list. Besides the graph
    itself this module defines paths, acyclicity and vertex orders, the
    vocabulary in which the depth-first search and the two passes are specified. */
module Graphs {

  /** A directed edge between two vertex indices. */
  datatype Edge = Edge(from: nat, to: nat)

  /** A graph on the vertices 0 .. size-1. */
  datatype Graph = Graph(size: nat, edges: seq<Edge>)

  /** Every edge joins two vertices of the graph. */
  ghost predicate WellFormed(g: Graph) {
    forall e :: e in g.edges ==> e.from < g.size && e.to < g.size
  }

  predicate IsEdge(g: Graph, u: nat, v: nat) {
    Edge(u, v) in g.edges
  }

  /** The heads of the edges in `edges` whose tail is `u`, in edge order. */
  function Targets(edges: seq<Edge>, u: nat): (r: seq<nat>)
    ensures forall v :: v in r <==> Edge(u, v) in edges
  {
    if edges == [] then []
    else (if edges[0].from == u then [edges[0].to] else []) + Targets(edges[1..], u)
  }

  /** The tails of the edges in `edges` whose head is `v`, in edge order. */
  function Sources(edges: seq<Edge>, v: nat): (r: seq<nat>)
    ensures forall u :: u in r <==> Edge(u, v) in edges
  {
    if edges == [] then []
    else (if edges[0].to == v then [edges[0].from] else []) + Sources(edges[1..], v)
  }

  /** The other ends of the outgoing edges of `u` (the graph's outEdges). */
  function OutNeighbors(g: Graph, u: nat): (r: seq<nat>)
    ensures forall v :: v in r <==> IsEdge(g, u, v)
    ensures WellFormed(g) ==> forall v :: v in r ==> v < g.size
  {
    Targets(g.edges, u)
  }

  /** The tails of the incoming edges of `v` (the graph's inEdges). */
  function InNeighbors(g: Graph, v: nat): (r: seq<nat>)
    ensures forall u :: u in r <==> IsEdge(g, u, v)
    ensures WellFormed(g) ==> forall u :: u in r ==> u < g.size
  {
    Sources(g.edges, v)
  }

  /** Consecutive vertices of `p` are joined by edges. */
  ghost predicate IsPath(g: Graph, p: seq<nat>) {
    forall i :: 0 <= i < |p| - 1 ==> IsEdge(g, p[i], p[i + 1])
  }

  /** No path with at least one edge returns to its first vertex; in
      particular there is no self-loop. */
  ghost predicate Acyclic(g: Graph) {
    forall p :: IsPath(g, p) && 2 <= |p| ==> p[0] != p[|p| - 1]
  }

  lemma PathExtend(g: Graph, p: seq<nat>, w: nat)
    requires IsPath(g, p) && 0 < |p| && IsEdge(g, p[|p| - 1], w)
    ensures IsPath(g, p + [w])
  {
    var q := p + [w];
    forall i | 0 <= i < |q| - 1 ensures IsEdge(g, q[i], q[i + 1]) {
      if i < |p| - 1 {
        assert q[i] == p[i] && q[i + 1] == p[i + 1];
      }
    }
  }

  /** On an acyclic graph, an edge leaving the last vertex of a path never
      leads back onto that path: such an edge would close a cycle. */
  lemma NoEdgeBackIntoPath(g: Graph, p: seq<nat>, w: nat)
    requires Acyclic(g) && IsPath(g, p) && 0 < |p| && IsEdge(g, p[|p| - 1], w)
    ensures w !in p
  {
    forall i | 0 <= i < |p| ensures p[i] != w {
      var c := p[i..] + [w];
      forall k | 0 <= k < |c| - 1 ensures IsEdge(g, c[k], c[k + 1]) {
        if k < |c| - 2 {
          assert c[k] == p[i + k] && c[k + 1] == p[i + k + 1];
        }
      }
      assert IsPath(g, c) && c[0] == p[i] && c[|c| - 1] == w;
    }
  }

  predicate NoDuplicates<T(==)>(s: seq<T>) {
    forall i, j :: 0 <= i < j < |s| ==> s[i] != s[j]
  }

  /** `s` lists every vertex 0 .. n-1 exactly once. */
  ghost predicate IsVertexOrder(n: nat, s: seq<nat>) {
    NoDuplicates(s)
    && (forall i :: 0 <= i < |s| ==> s[i] < n)
    && (forall v: nat :: v < n ==> v in s)
  }

  /** Every edge goes from an earlier to a later position of `s`. */
  ghost predicate IsTopologicalOrder(g: Graph, s: seq<nat>) {
    IsVertexOrder(g.size, s)
    && forall i, j {:trigger IsEdge(g, s[i], s[j])} :: 0 <= i < |s| && 0 <= j < |s| && IsEdge(g, s[i], s[j]) ==> i < j
  }

  /** Every edge goes from a later to an earlier position of `s`. */
  ghost predicate IsReverseTopologicalOrder(g: Graph, s: seq<nat>) {
    IsVertexOrder(g.size, s)
    && forall i, j {:trigger IsEdge(g, s[i], s[j])} :: 0 <= i < |s| && 0 <= j < |s| && IsEdge(g, s[i], s[j]) ==> j < i
  }

  /** Every out-neighbour of a listed vertex is listed after it: the shape of
      a list built by prepending each vertex when its search finishes. */
  ghost predicate SuccessorsAfter(g: Graph, s: seq<nat>) {
    forall i, w {:trigger IsEdge(g, s[i], w)} :: 0 <= i < |s| && IsEdge(g, s[i], w) ==> w in s[i + 1..]
  }

  /** A list of every vertex exactly once has one entry per vertex. */
  lemma {:induction false} VertexOrderLength(n: nat, s: seq<nat>)
    requires IsVertexOrder(n, s)
    ensures |s| == n
    decreases n
  {
    if |s| > 0 {
      assert s[0] < n;
      assert n - 1 in s;
      var k :| 0 <= k < |s| && s[k] == n - 1;
      DropLast(n, s, k);
      assert |s[..k] + s[k + 1..]| == |s| - 1;
      VertexOrderLength(n - 1, s[..k] + s[k + 1..]);
    } else {
      assert n > 0 ==> n - 1 in s;
    }
  }

  /** Removing the largest vertex from a list of every vertex leaves a list of
      every smaller vertex. */
  lemma DropLast(n: nat, s: seq<nat>, k: nat)
    requires IsVertexOrder(n, s) && 0 < n && k < |s| && s[k] == n - 1
    ensures IsVertexOrder(n - 1, s[..k] + s[k + 1..])
  {
    var t := s[..k] + s[k + 1..];
    DropKeepsDistinct(s, k);
    forall i | 0 <= i < |t| ensures t[i] < n - 1 {
      var i' := if i < k then i else i + 1;
      assert t[i] == s[i'] && s[i'] != s[k];
    }
    forall v: nat | v < n - 1 ensures v in t {
      assert v in s;
      var i' :| 0 <= i' < |s| && s[i'] == v;
      if i' < k {
        assert t[i'] == v;
      } else {
        assert t[i' - 1] == v;
      }
    }
  }

  /** Removing one entry keeps the others distinct. */
  lemma DropKeepsDistinct(s: seq<nat>, k: nat)
    requires NoDuplicates(s) && k < |s|
    ensures NoDuplicates(s[..k] + s[k + 1..])
  {
    var t := s[..k] + s[k + 1..];
    forall i, j | 0 <= i < j < |t| ensures t[i] != t[j] {
      var i' := if i < k then i else i + 1;
      var j' := if j < k then j else j + 1;
      assert t[i] == s[i'] && t[j] == s[j'] && i' < j';
    }
  }

  /** A list whose entries all follow their out-neighbours' predecessors is a
      topological order once it lists every vertex exactly once. */
  lemma SuccessorsAfterIsTopological(g: Graph, s: seq<nat>)
    requires IsVertexOrder(g.size, s) && SuccessorsAfter(g, s)
    ensures IsTopologicalOrder(g, s)
  {
    forall i, j | 0 <= i < |s| && 0 <= j < |s| && IsEdge(g, s[i], s[j]) ensures i < j {
      assert s[j] in s[i + 1..];
      var k :| 0 <= k < |s[i + 1..]| && s[i + 1..][k] == s[j];
      assert s[i + 1 + k] == s[j];
    }
  }

  /** Along a path, positions in a topological order strictly increase. */
  lemma {:induction false} PathClimbs(g: Graph, s: seq<nat>, p: seq<nat>, k: nat, i: nat, j: nat)
    requires WellFormed(g) && IsTopologicalOrder(g, s) && IsPath(g, p)
    requires 1 <= k < |p| && i < |s| && j < |s| && s[i] == p[0] && s[j] == p[k]
    ensures i < j
    decreases k
  {
    assert IsEdge(g, p[k - 1], p[k]);
    assert p[k - 1] in s;
    var m :| 0 <= m < |s| && s[m] == p[k - 1];
    if k > 1 {
      PathClimbs(g, s, p, k - 1, i, m);
    }
  }

  /** A graph with a topological order has no cycle. */
  lemma TopologicalImpliesAcyclic(g: Graph, s: seq<nat>)
    requires WellFormed(g) && IsTopologicalOrder(g, s)
    ensures Acyclic(g)
  {
    forall p | IsPath(g, p) && 2 <= |p| ensures p[0] != p[|p| - 1] {
      assert IsEdge(g, p[0], p[1]);
      assert IsEdge(g, p[|p| - 2], p[|p| - 1]);
      assert p[0] in s && p[|p| - 1] in s;
      var i :| 0 <= i < |s| && s[i] == p[0];
      var j :| 0 <= j < |s| && s[j] == p[|p| - 1];
      PathClimbs(g, s, p, |p| - 1, i, j);
    }
  }

  /** No vertex of a topological order has an edge back to itself or to an
      earlier vertex. */
  lemma NoEdgeBackward(g: Graph, s: seq<nat>, i: nat)
    requires IsTopologicalOrder(g, s) && i < |s|
    ensures forall k :: 0 <= k <= i ==> !IsEdge(g, s[i], s[k])
  {
  }

  /** No vertex of a reverse topological order has an edge from itself or
      from an earlier vertex. */
  lemma NoEdgeForward(g: Graph, s: seq<nat>, i: nat)
    requires IsReverseTopologicalOrder(g, s) && i < |s|
    ensures forall k :: 0 <= k <= i ==> !IsEdge(g, s[k], s[i])
  {
  }

  /** `s` read back to front (what Collections.reverse leaves in a list). */
  function Reversed<T>(s: seq<T>): (r: seq<T>)
    ensures |r| == |s|
    ensures forall k :: 0 <= k < |s| ==> r[k] == s[|s| - 1 - k]
  {
    if s == [] then [] else [s[|s| - 1]] + Reversed(s[..|s| - 1])
  }

  /** Reading a list backwards keeps its entries and their distinctness. */
  lemma ReversedVertexOrder(n: nat, s: seq<nat>)
    ensures IsVertexOrder(n, s) <==> IsVertexOrder(n, Reversed(s))
  {
    var r := Reversed(s);
    var m := |s|;
    forall v ensures v in r <==> v in s {
      if v in r {
        var k :| 0 <= k < m && r[k] == v;
        assert s[m - 1 - k] == v;
      }
      if v in s {
        var k :| 0 <= k < m && s[k] == v;
        assert r[m - 1 - k] == v;
      }
    }
    if forall i :: 0 <= i < m ==> s[i] < n {
      forall i | 0 <= i < m ensures r[i] < n {
        assert r[i] == s[m - 1 - i];
      }
    }
    if forall i :: 0 <= i < m ==> r[i] < n {
      forall i | 0 <= i < m ensures s[i] < n {
        assert s[i] == r[m - 1 - i];
      }
    }
    if NoDuplicates(s) {
      forall i, j | 0 <= i < j < m ensures r[i] != r[j] {
        assert r[i] == s[m - 1 - i] && r[j] == s[m - 1 - j];
      }
    }
    if NoDuplicates(r) {
      forall i, j | 0 <= i < j < m ensures s[i] != s[j] {
        assert s[i] == r[m - 1 - i] && s[j] == r[m - 1 - j];
      }
    }
  }

  /** Reading a topological order backwards gives a reverse topological order,
      and nothing else does. */
  lemma ReversedTopological(g: Graph, s: seq<nat>)
    ensures IsTopologicalOrder(g, s) <==> IsReverseTopologicalOrder(g, Reversed(s))
  {
    ReversedVertexOrder(g.size, s);
    var r := Reversed(s);
    var m := |s|;
    if IsTopologicalOrder(g, s) {
      forall i, j | 0 <= i < m && 0 <= j < m && IsEdge(g, r[i], r[j]) ensures j < i {
        assert r[i] == s[m - 1 - i] && r[j] == s[m - 1 - j];
      }
    }
    if IsReverseTopologicalOrder(g, r) {
      forall i, j | 0 <= i < m && 0 <= j < m && IsEdge(g, s[i], s[j]) ensures i < j {
        assert s[i] == r[m - 1 - i] && s[j] == r[m - 1 - j];
      }
    }
  }
}
