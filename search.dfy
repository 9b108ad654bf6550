/** The state of the depth-first search of topologicalOrder(), stated on a
    snapshot of the `seen` flags, and the two steps that change it: opening a
    vertex (marking it seen) and closing it (prepending it to the finish list
    once all its out-neighbours are seen). */
module Search {
  import opened Graphs

  /** While the vertices of `stack` (a path of started, unfinished searches)
      are open: a vertex is seen exactly when it is finished or open, finished
      vertices are listed once each, and on an acyclic graph each finished
      vertex is listed before its out-neighbours. */
  ghost predicate SearchState(g: Graph, seen: seq<bool>, finished: seq<nat>, stack: seq<nat>) {
    |seen| == g.size
    && (forall v :: 0 <= v < g.size ==> (seen[v] <==> v in finished || v in stack))
    && (forall v :: v in finished ==> v < g.size)
    && (forall v :: v in stack ==> v < g.size && v !in finished)
    && NoDuplicates(finished)
    && (Acyclic(g) ==> SuccessorsAfter(g, finished))
  }

  /** Marking an unseen vertex seen opens it on top of the stack. */
  lemma OpenVertex(g: Graph, seen: seq<bool>, finished: seq<nat>, stack: seq<nat>, u: nat)
    requires SearchState(g, seen, finished, stack) && u < g.size && !seen[u]
    ensures u !in stack && u !in finished
    ensures SearchState(g, seen[u := true], finished, stack + [u])
  {
    var s := seen[u := true];
    forall v | 0 <= v < g.size ensures s[v] <==> v in finished || v in stack + [u] {
      assert v in stack + [u] <==> v in stack || v == u;
    }
    forall v | v in stack + [u] ensures v < g.size && v !in finished {
      assert v in stack || v == u;
    }
  }

  /** Once every out-neighbour of the open vertex `u` on top of the stack is
      seen, prepending `u` to the finish list closes it. On an acyclic graph
      none of those out-neighbours is open, so all are already listed. */
  lemma CloseVertex(g: Graph, seen: seq<bool>, finished: seq<nat>, stack: seq<nat>, u: nat, outs: seq<nat>)
    requires SearchState(g, seen, finished, stack + [u]) && u !in stack && IsPath(g, stack + [u])
    requires forall v :: v in outs <==> IsEdge(g, u, v)
    requires forall k :: 0 <= k < |outs| ==> outs[k] < g.size && seen[outs[k]]
    ensures SearchState(g, seen, [u] + finished, stack)
  {
    var f := [u] + finished;
    assert u in stack + [u];
    forall v | 0 <= v < g.size ensures seen[v] <==> v in f || v in stack {
      assert v in stack + [u] <==> v in stack || v == u;
    }
    forall v | v in stack ensures v < g.size && v !in f {
      assert v in stack + [u];
    }
    forall i, j | 0 <= i < j < |f| ensures f[i] != f[j] {
      if i > 0 {
        assert f[i] == finished[i - 1] && f[j] == finished[j - 1];
      } else {
        assert f[j] in finished;
      }
    }
    if Acyclic(g) {
      forall w | IsEdge(g, u, w) ensures w in finished {
        assert w in outs;
        var k :| 0 <= k < |outs| && outs[k] == w;
        NoEdgeBackIntoPath(g, stack + [u], w);
      }
      PrependKeepsSuccessorsAfter(g, u, finished);
    }
  }

  /** When no vertex is open and every vertex is seen, the finish list holds
      every vertex once. */
  lemma SearchDone(g: Graph, seen: seq<bool>, finished: seq<nat>)
    requires SearchState(g, seen, finished, []) && forall v :: 0 <= v < g.size ==> seen[v]
    ensures IsVertexOrder(g.size, finished)
  {
    assert forall k :: 0 <= k < |finished| ==> finished[k] in finished;
  }

  /** Prepending a vertex whose out-neighbours are all listed keeps every
      listed vertex ahead of its out-neighbours. */
  lemma PrependKeepsSuccessorsAfter(g: Graph, u: nat, s: seq<nat>)
    requires SuccessorsAfter(g, s)
    requires forall w :: IsEdge(g, u, w) ==> w in s
    ensures SuccessorsAfter(g, [u] + s)
  {
    var t := [u] + s;
    forall i, w | 0 <= i < |t| && IsEdge(g, t[i], w) ensures w in t[i + 1..] {
      if i == 0 {
        assert t[1..] == s;
      } else {
        assert t[i] == s[i - 1] && t[i + 1..] == s[i..];
      }
    }
  }

  /** The vertices finished by a nested search go in front of those the
      enclosing search had already finished. */
  lemma ListedBefore(more: seq<nat>, found: seq<nat>, rest: seq<nat>)
    ensures more + (found + rest) == (more + found) + rest
  {
  }
}
