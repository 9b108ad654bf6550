/** The PERT/CPM scheduler of PERT.java. One PERT object belongs to one graph;
    its per-vertex side table (the PERTVertex records) is held as one array per
    field, indexed by vertex. A run sorts the vertices by depth-first search,
    computes earliest times along the order, and latest times and slack along
    the reversed order. The run never checks for cycles and always reports
    success; what it computes is a correct schedule exactly when the graph is
    acyclic, which is the condition under which the postconditions below speak. */
module Pert {
  import opened Graphs
  import opened Scheduling
  import opened Passes
  import opened Search

  class PERT {
    const g: Graph
    /** Vertices in the order their searches finished, last finished first. */
    var finishList: seq<nat>
    const seen: array<bool>
    const es: array<int>
    const ef: array<int>
    const ls: array<int>
    const lf: array<int>
    const slack: array<int>
    const duration: array<int>

    /** One side-table entry per vertex, the fields held in distinct arrays. */
    ghost predicate Valid() {
      WellFormed(g)
      && seen.Length == g.size && es.Length == g.size && ef.Length == g.size
      && ls.Length == g.size && lf.Length == g.size && slack.Length == g.size
      && duration.Length == g.size
      && es != ef && es != ls && es != lf && es != slack && es != duration
      && ef != ls && ef != lf && ef != slack && ef != duration
      && ls != lf && ls != slack && ls != duration
      && lf != slack && lf != duration
      && slack != duration
    }

    /** What a finished run on an acyclic graph guarantees: the forward-pass
        and backward-pass equations hold, the backward pass is seeded with the
        project length, and slack is the non-negative gap between latest and
        earliest finish. */
    ghost predicate Scheduled()
      requires Valid()
      reads es, ef, ls, lf, slack, duration
    {
      EarliestSchedule(g, duration[..], es[..], ef[..])
      && LatestSchedule(g, duration[..], CriticalPathLength(ef[..]), ls[..], lf[..])
      && forall v :: 0 <= v < g.size ==> slack[v] == lf[v] - ef[v] && 0 <= slack[v]
    }

    /** Every entry starts unseen, with duration 0 and all times 0. */
    constructor (g: Graph)
      requires WellFormed(g)
      ensures Valid() && this.g == g && finishList == []
      ensures fresh(seen) && fresh(es) && fresh(ef) && fresh(ls) && fresh(lf)
      ensures fresh(slack) && fresh(duration)
      ensures forall v :: 0 <= v < g.size ==>
                !seen[v] && es[v] == 0 && ef[v] == 0 && ls[v] == 0 && lf[v] == 0
                && slack[v] == 0 && duration[v] == 0
    {
      this.g := g;
      finishList := [];
      seen := new bool[g.size](_ => false);
      es := new int[g.size](_ => 0);
      ef := new int[g.size](_ => 0);
      ls := new int[g.size](_ => 0);
      lf := new int[g.size](_ => 0);
      slack := new int[g.size](_ => 0);
      duration := new int[g.size](_ => 0);
    }

    method SetDuration(u: nat, d: int)
      requires Valid() && u < g.size
      modifies duration
      ensures duration[u] == d
      ensures forall v :: 0 <= v < g.size && v != u ==> duration[v] == old(duration[v])
    {
      duration[u] := d;
    }

    // ----- depth-first search -----

    ghost function Unseen(): set<nat>
      reads seen
    {
      set v: nat | v < seen.Length && !seen[v]
    }

    /** The state of the search while the vertices of `stack` (a path of
        started, unfinished searches) are open: a vertex is seen exactly when it
        is finished or open, finished vertices are listed once each, and on an
        acyclic graph each finished vertex is listed before its out-neighbours. */
    ghost predicate DfsState(stack: seq<nat>)
      requires Valid()
      reads this, seen
    {
      SearchState(g, seen[..], finishList, stack)
    }

    method Initialize()
      requires Valid()
      modifies seen
      ensures forall v :: 0 <= v < g.size ==> !seen[v]
    {
      var u := 0;
      while u < g.size
        invariant 0 <= u <= g.size
        invariant forall v :: 0 <= v < u ==> !seen[v]
      {
        seen[u] := false;
        u := u + 1;
      }
    }

    /** Searches from the unseen vertex `u`, reached along the open path
        `stack`, and prepends to finishList every vertex it finishes, `u` last. */
    method Dfs(u: nat, ghost stack: seq<nat>) returns (ghost found: seq<nat>)
      requires Valid() && u < g.size && !seen[u]
      requires DfsState(stack) && IsPath(g, stack + [u])
      modifies this, seen
      ensures DfsState(stack) && seen[u] && u in finishList
      ensures forall v :: 0 <= v < g.size && old(seen[v]) ==> seen[v]
      ensures finishList == found + old(finishList) && 0 < |found|
      decreases Unseen()
    {
      ghost var before := seen[..];
      OpenVertex(g, before, finishList, stack, u);
      seen[u] := true;
      assert seen[..] == before[u := true];
      assert Unseen() < old(Unseen()) by {
        assert u in old(Unseen()) && u !in Unseen();
      }
      var outs := OutNeighbors(g, u);
      assert forall k :: 0 <= k < |outs| ==> outs[k] in outs;
      found := [];
      var i := 0;
      while i < |outs|
        invariant 0 <= i <= |outs|
        invariant DfsState(stack + [u]) && seen[u] && u !in stack
        invariant forall k :: 0 <= k < i ==> outs[k] < g.size && seen[outs[k]]
        invariant forall v :: 0 <= v < g.size && old(seen[v]) ==> seen[v]
        invariant Unseen() < old(Unseen())
        invariant finishList == found + old(finishList)
      {
        var w := outs[i];
        assert w in outs;
        if !seen[w] {
          PathExtend(g, stack + [u], w);
          assert stack + [u] + [w] == stack + [u, w];
          var more := Dfs(w, stack + [u]);
          ListedBefore(more, found, old(finishList));
          found := more + found;
        }
        i := i + 1;
      }
      CloseVertex(g, seen[..], finishList, stack, u, outs);
      finishList := [u] + finishList;
      found := [u] + found;
    }

    method DfsAll()
      requires Valid() && finishList == []
      modifies this, seen
      ensures IsVertexOrder(g.size, finishList)
      ensures Acyclic(g) ==> SuccessorsAfter(g, finishList)
    {
      Initialize();
      var u := 0;
      while u < g.size
        invariant 0 <= u <= g.size
        invariant DfsState([])
        invariant forall v :: 0 <= v < u ==> seen[v]
      {
        if !seen[u] {
          ghost var found := Dfs(u, []);
        }
        u := u + 1;
      }
      SearchDone(g, seen[..], finishList);
    }

    /** The vertices in reverse order of finishing: every vertex once, and a
        topological order exactly when the graph is acyclic. */
    method TopologicalOrder() returns (topList: seq<nat>)
      requires Valid()
      modifies this, seen
      ensures topList == finishList
      ensures IsVertexOrder(g.size, topList) && |topList| == g.size
      ensures Acyclic(g) <==> IsTopologicalOrder(g, topList)
    {
      finishList := [];
      DfsAll();
      topList := finishList;
      VertexOrderLength(g.size, topList);
      if Acyclic(g) {
        SuccessorsAfterIsTopological(g, topList);
      }
      if IsTopologicalOrder(g, topList) {
        TopologicalImpliesAcyclic(g, topList);
      }
    }

    // ----- the two passes -----

    /** Lines 65-82 of PERT.java: clear every earliest start, then along
        `topList` fix each vertex's earliest finish and push its
        out-neighbours' earliest starts up to it. Whatever the order, every
        earliest start ends as the maximum of 0 and its predecessors' earliest
        finishes; when the order is topological the finishes also agree with
        the starts. */
    method EarliestTimes(topList: seq<nat>)
      requires Valid() && IsVertexOrder(g.size, topList)
      modifies es, ef
      ensures EarliestStartsMax(g, es[..], ef[..])
      ensures IsTopologicalOrder(g, topList) ==> EarliestSchedule(g, duration[..], es[..], ef[..])
    {
      var u := 0;
      while u < g.size
        invariant 0 <= u <= g.size
        invariant forall v :: 0 <= v < u ==> es[v] == 0
      {
        es[u] := 0;
        u := u + 1;
      }
      VertexOrderLength(g.size, topList);
      ghost var topo := IsTopologicalOrder(g, topList);
      // from[v]: the position in topList of the predecessor that set es[v]
      ghost var from: seq<nat> := seq(g.size, _ => 0);
      var i := 0;
      while i < |topList|
        invariant 0 <= i <= |topList| && |from| == g.size
        invariant NonNegative(es[..]) && Pushed(g, topList, i, es[..], ef[..])
        invariant StartsWitnessed(g, topList, i, es[..], ef[..], from)
        invariant topo ==> FinishedAt(topList, i, duration[..], es[..], ef[..])
      {
        var x := topList[i];
        ghost var finishes := ef[..];
        SetFinish(g, topList, i, duration[..], es[..], finishes, from);
        ef[x] := es[x] + duration[x];
        assert ef[..] == finishes[x := es[x] + duration[x]];
        if topo {
          NoEdgeBackward(g, topList, i);
        }
        from := ForwardRelax(x, i, topList, topo, from);
        i := i + 1;
      }
      FinishEarliest(g, duration[..], topList, es[..], ef[..], from, topo);
    }

    /** Lines 75-81 of PERT.java: push the earliest start of each out-neighbour
        of `x`, the vertex at position `i` of the order, up to x's earliest
        finish. */
    method ForwardRelax(x: nat, i: nat, topList: seq<nat>, ghost topo: bool, ghost from0: seq<nat>)
      returns (ghost from: seq<nat>)
      requires Valid() && i < |topList| && topList[i] == x && x < g.size
      requires NonNegative(es[..]) && Pushed(g, topList, i, es[..], ef[..])
      requires StartsWitnessed(g, topList, i, es[..], ef[..], from0)
      requires topo ==> FinishedAt(topList, i + 1, duration[..], es[..], ef[..])
      requires topo ==> forall k :: 0 <= k <= i ==> !IsEdge(g, x, topList[k])
      modifies es
      ensures NoneAbove(old(es[..]), es[..])
      ensures NonNegative(es[..]) && Pushed(g, topList, i + 1, es[..], ef[..])
      ensures StartsWitnessed(g, topList, i + 1, es[..], ef[..], from)
      ensures topo ==> FinishedAt(topList, i + 1, duration[..], es[..], ef[..])
    {
      from := from0;
      ghost var es0 := es[..];
      WidenStarts(g, topList, i, es0, ef[..], from);
      var outs := OutNeighbors(g, x);
      var j := 0;
      while j < |outs|
        invariant 0 <= j <= |outs|
        invariant NonNegative(es[..]) && NoneAbove(es0, es[..])
        invariant StartsWitnessed(g, topList, i + 1, es[..], ef[..], from)
        invariant AllAtLeast(outs, j, ef[x], es[..])
        invariant topo ==> SameAt(topList, i + 1, es0, es[..])
      {
        var v := outs[j];
        assert v in outs;
        if es[v] < ef[x] {
          RaiseStart(g, topList, i, es0, es[..], ef[..], from, topo, outs, j);
          es[v] := ef[x];
          from := from[v := i];
        } else {
          SkipStart(outs, j, ef[x], es[..]);
        }
        j := j + 1;
      }
      FinishPush(g, topList, i, duration[..], es0, es[..], ef[..], outs, topo);
    }

    /** Lines 92-111 of PERT.java: seed every latest finish with the project
        length `cpl`, reverse finishList in place, then run the backward pass
        along the reversed list. Whatever the order, every latest finish ends
        as the minimum of `cpl` and its successors' latest starts; when the
        list was a topological order the latest starts, finishes and slacks
        also agree at the end and no slack is negative. */
    method LatestTimes(cpl: int)
      requires Valid() && IsVertexOrder(g.size, finishList)
      requires cpl == CriticalPathLength(ef[..])
      requires IsTopologicalOrder(g, finishList) ==> EarliestSchedule(g, duration[..], es[..], ef[..])
      modifies this, ls, lf, slack
      ensures finishList == Reversed(old(finishList))
      ensures LatestFinishesMin(g, cpl, ls[..], lf[..])
      ensures IsTopologicalOrder(g, old(finishList)) ==>
                LatestSchedule(g, duration[..], cpl, ls[..], lf[..])
                && forall v :: 0 <= v < g.size ==> slack[v] == lf[v] - ef[v] && 0 <= slack[v]
    {
      var u := 0;
      while u < g.size
        invariant 0 <= u <= g.size
        invariant forall v :: 0 <= v < u ==> lf[v] == cpl
        invariant finishList == old(finishList)
      {
        lf[u] := cpl;
        u := u + 1;
      }
      ReversedVertexOrder(g.size, finishList);
      ReversedTopological(g, finishList);
      if IsTopologicalOrder(g, finishList) {
        EarliestGaps(g, duration[..], es[..], ef[..]);
      }
      finishList := Reversed(finishList);
      BackwardPass(finishList, cpl);
    }

    /** Lines 97-111 of PERT.java: along `topList`, fix each vertex's latest
        start and slack, then pull its in-neighbours' latest finishes down to
        its latest start. */
    method BackwardPass(topList: seq<nat>, cpl: int)
      requires Valid() && IsVertexOrder(g.size, topList)
      requires forall v :: 0 <= v < g.size ==> lf[v] == cpl && ef[v] <= cpl
      requires IsReverseTopologicalOrder(g, topList) ==> FinishGaps(g, duration[..], ef[..])
      modifies ls, lf, slack
      ensures LatestFinishesMin(g, cpl, ls[..], lf[..])
      ensures IsReverseTopologicalOrder(g, topList) ==>
                LatestSchedule(g, duration[..], cpl, ls[..], lf[..])
                && forall v :: 0 <= v < g.size ==> slack[v] == lf[v] - ef[v] && 0 <= slack[v]
    {
      VertexOrderLength(g.size, topList);
      ghost var topo := IsReverseTopologicalOrder(g, topList);
      // to[v]: the position in topList of the successor that set lf[v]
      ghost var to: seq<nat> := seq(g.size, _ => 0);
      var i := 0;
      while i < |topList|
        invariant 0 <= i <= |topList| && |to| == g.size
        invariant AtMost(lf[..], cpl) && Pulled(g, topList, i, ls[..], lf[..])
        invariant FinishesWitnessed(g, topList, i, cpl, ls[..], lf[..], to)
        invariant topo ==> StartedAt(topList, i, duration[..], ef[..], ls[..], lf[..], slack[..])
        invariant topo ==> NoneAbove(ef[..], lf[..])
      {
        var x := topList[i];
        SetLatestStart(x, i, topList, cpl, topo, to);
        if topo {
          PredecessorsFit(g, duration[..], ef[..], lf[..], x);
          NoEdgeForward(g, topList, i);
        }
        to := BackwardRelax(x, i, topList, cpl, topo, to);
        i := i + 1;
      }
      FinishLatest(g, duration[..], cpl, topList, ef[..], ls[..], lf[..], slack[..], to, topo);
    }

    /** The latest start and the slack of `x`, the vertex at position `i` of
        the reversed order, once its latest finish is settled. */
    method SetLatestStart(x: nat, i: nat, topList: seq<nat>, cpl: int, ghost topo: bool, ghost to: seq<nat>)
      requires Valid() && NoDuplicates(topList) && i < |topList| && topList[i] == x && x < g.size
      requires Pulled(g, topList, i, ls[..], lf[..]) && FinishesWitnessed(g, topList, i, cpl, ls[..], lf[..], to)
      requires topo ==> StartedAt(topList, i, duration[..], ef[..], ls[..], lf[..], slack[..])
      modifies ls, slack
      ensures ls[..] == old(ls[..])[x := lf[x] - duration[x]]
      ensures slack[..] == old(slack[..])[x := lf[x] - ef[x]]
      ensures Pulled(g, topList, i, ls[..], lf[..]) && FinishesWitnessed(g, topList, i, cpl, ls[..], lf[..], to)
      ensures topo ==> StartedAt(topList, i + 1, duration[..], ef[..], ls[..], lf[..], slack[..])
    {
      SetStart(g, topList, i, cpl, duration[..], ef[..], ls[..], lf[..], slack[..], to);
      ls[x] := lf[x] - duration[x];
      slack[x] := lf[x] - ef[x];
    }

    /** Lines 104-110 of PERT.java: pull the latest finish of each in-neighbour
        of `x`, the vertex at position `i` of the reversed order, down to x's
        latest start. */
    method BackwardRelax(x: nat, i: nat, topList: seq<nat>, cpl: int, ghost topo: bool, ghost to0: seq<nat>)
      returns (ghost to: seq<nat>)
      requires Valid() && i < |topList| && topList[i] == x && x < g.size
      requires AtMost(lf[..], cpl) && Pulled(g, topList, i, ls[..], lf[..])
      requires FinishesWitnessed(g, topList, i, cpl, ls[..], lf[..], to0)
      requires topo ==> StartedAt(topList, i + 1, duration[..], ef[..], ls[..], lf[..], slack[..])
      requires topo ==> NoneAbove(ef[..], lf[..])
      requires topo ==> forall k :: 0 <= k <= i ==> !IsEdge(g, topList[k], x)
      requires topo ==> forall v :: 0 <= v < g.size && IsEdge(g, v, x) ==> ef[v] <= ls[x]
      modifies lf
      ensures NoneAbove(lf[..], old(lf[..]))
      ensures AtMost(lf[..], cpl) && Pulled(g, topList, i + 1, ls[..], lf[..])
      ensures FinishesWitnessed(g, topList, i + 1, cpl, ls[..], lf[..], to)
      ensures topo ==> StartedAt(topList, i + 1, duration[..], ef[..], ls[..], lf[..], slack[..])
      ensures topo ==> NoneAbove(ef[..], lf[..])
    {
      to := to0;
      ghost var lf0 := lf[..];
      WidenFinishes(g, topList, i, cpl, ls[..], lf0, to);
      var ins := InNeighbors(g, x);
      var j := 0;
      while j < |ins|
        invariant 0 <= j <= |ins|
        invariant AtMost(lf[..], cpl) && NoneAbove(lf[..], lf0)
        invariant FinishesWitnessed(g, topList, i + 1, cpl, ls[..], lf[..], to)
        invariant AllAtMost(ins, j, ls[x], lf[..])
        invariant topo ==> SameAt(topList, i + 1, lf0, lf[..]) && NoneAbove(ef[..], lf[..])
      {
        var v := ins[j];
        assert v in ins;
        if lf[v] > ls[x] {
          LowerFinish(g, topList, i, cpl, ef[..], ls[..], lf0, lf[..], to, topo, ins, j);
          lf[v] := ls[x];
          to := to[v := i];
        } else {
          SkipFinish(ins, j, ls[x], lf[..]);
        }
        j := j + 1;
      }
      FinishPull(g, topList, i, duration[..], ef[..], ls[..], lf0, lf[..], slack[..], ins, topo);
    }

    /** pert(), lines 61-114 of PERT.java: sort, forward pass, project length, backward pass; the
        result is always `true`. */
    method Pert() returns (ok: bool)
      requires Valid()
      modifies this, seen, es, ef, ls, lf, slack
      ensures ok
      ensures IsVertexOrder(g.size, finishList) && |finishList| == g.size
      ensures Acyclic(g) <==> IsReverseTopologicalOrder(g, finishList)
      ensures EarliestStartsMax(g, es[..], ef[..])
      ensures LatestFinishesMin(g, CriticalPathLength(ef[..]), ls[..], lf[..])
      ensures Acyclic(g) ==> Scheduled()
    {
      var topList := TopologicalOrder();
      EarliestTimes(topList);
      var cpl := CriticalPath();
      LatestTimes(cpl);
      ReversedTopological(g, topList);
      ReversedVertexOrder(g.size, topList);
      ok := true;
    }

    // ----- queries, valid after pert() -----

    /** Earliest completion time of `u`. */
    function Ec(u: nat): (r: int)
      requires Valid() && u < g.size
      reads es, ef, ls, lf, slack, duration
      ensures r == ef[u]
      ensures Scheduled() ==> r == es[u] + duration[u] && r <= lf[u] && r <= CriticalPathLength(ef[..])
    {
      ef[u]
    }

    /** Latest completion time of `u`. */
    function Lc(u: nat): (r: int)
      requires Valid() && u < g.size
      reads es, ef, ls, lf, slack, duration
      ensures r == lf[u]
      ensures Scheduled() ==> ef[u] <= r <= CriticalPathLength(ef[..]) && r == ls[u] + duration[u]
    {
      lf[u]
    }

    /** Slack of `u`. */
    function Slack(u: nat): (r: int)
      requires Valid() && u < g.size
      reads es, ef, ls, lf, slack, duration
      ensures r == slack[u]
      ensures Scheduled() ==> 0 <= r && r == lf[u] - ef[u] && r == ls[u] - es[u]
    {
      assert duration[..][u] == duration[u];
      slack[u]
    }

    /** Is `u` a critical vertex? */
    function Critical(u: nat): (r: bool)
      requires Valid() && u < g.size
      reads es, ef, ls, lf, slack, duration
      ensures r <==> slack[u] == 0
      ensures Scheduled() ==> (r <==> ef[u] == lf[u]) && (r <==> es[u] == ls[u])
    {
      assert duration[..][u] == duration[u];
      slack[u] == 0
    }

    ghost function CriticalVertices(): set<nat>
      requires Valid()
      reads slack
    {
      ZeroAt(slack[..], g.size)
    }

    /** Length of a critical path: the largest earliest finish, or 0. */
    method CriticalPath() returns (maxLength: int)
      requires Valid()
      ensures maxLength == CriticalPathLength(ef[..])
    {
      maxLength := 0;
      var u := 0;
      while u < g.size
        invariant 0 <= u <= g.size
        invariant maxLength == CriticalPathLength(ef[..u])
      {
        assert ef[..u + 1][..u] == ef[..u];
        if ef[u] > maxLength {
          maxLength := ef[u];
        }
        u := u + 1;
      }
      assert ef[..g.size] == ef[..];
    }

    /** Number of critical vertices; on a scheduled non-empty project with
        non-negative durations there is at least one. */
    method NumCritical() returns (count: nat)
      requires Valid()
      ensures count == |CriticalVertices()| && count <= g.size
      ensures Scheduled() && 0 < g.size && (forall v :: 0 <= v < g.size ==> 0 <= duration[v]) ==> 0 < count
    {
      count := 0;
      var u := 0;
      while u < g.size
        invariant 0 <= u <= g.size && count <= u
        invariant count == |ZeroAt(slack[..], u)|
      {
        ZeroAtStep(slack[..], u);
        if Critical(u) {
          count := count + 1;
        }
        u := u + 1;
      }
      if Scheduled() && 0 < g.size && (forall v :: 0 <= v < g.size ==> 0 <= duration[v]) {
        ScheduledHasCritical();
      }
    }

    /** A scheduled non-empty project with non-negative durations has a
        critical vertex. */
    lemma ScheduledHasCritical()
      requires Valid() && Scheduled() && 0 < g.size
      requires forall v :: 0 <= v < g.size ==> 0 <= duration[v]
      ensures 0 < |CriticalVertices()|
    {
      SomeCritical(g, duration[..], es[..], ef[..], ls[..], lf[..], slack[..]);
    }

    /** The static pert(g, duration): a fresh PERT on `g` whose durations are
        read from `duration` by vertex index, after one run; never null, since
        the run always succeeds. */
    static method Run(g: Graph, duration: array<int>) returns (p: PERT?)
      requires WellFormed(g) && g.size <= duration.Length
      ensures p != null && fresh(p) && p.Valid() && p.g == g
      ensures p.duration[..] == duration[..g.size]
      ensures Acyclic(g) <==> IsReverseTopologicalOrder(g, p.finishList)
      ensures Acyclic(g) ==> p.Scheduled()
    {
      var q := new PERT(g);
      var u := 0;
      while u < g.size
        invariant 0 <= u <= g.size
        invariant forall v :: 0 <= v < u ==> q.duration[v] == duration[v]
        modifies q.duration
      {
        q.SetDuration(u, duration[u]);
        u := u + 1;
      }
      var ok := q.Pert();
      assert q.duration[..] == duration[..g.size];
      if ok {
        p := q;
      } else {
        p := null;
      }
    }
  }

  /** The indices below n whose entry is 0. */
  ghost function ZeroAt(s: seq<int>, n: nat): set<nat>
    requires n <= |s|
  {
    set v: nat | v < n && s[v] == 0
  }

  /** Looking at one more index adds it exactly when its entry is 0. */
  lemma ZeroAtStep(s: seq<int>, n: nat)
    requires n < |s|
    ensures |ZeroAt(s, n + 1)| == |ZeroAt(s, n)| + (if s[n] == 0 then 1 else 0)
  {
    if s[n] == 0 {
      assert ZeroAt(s, n + 1) == ZeroAt(s, n) + {n};
    } else {
      assert ZeroAt(s, n + 1) == ZeroAt(s, n);
    }
  }

  /** A schedule of a non-empty project with non-negative durations has at
      least one vertex of zero slack. */
  lemma SomeCritical(g: Graph, dur: seq<int>, es: seq<int>, ef: seq<int>, ls: seq<int>, lf: seq<int>,
                     slack: seq<int>)
    requires EarliestSchedule(g, dur, es, ef)
    requires LatestSchedule(g, dur, CriticalPathLength(ef), ls, lf)
    requires |slack| == g.size && 0 < g.size
    requires forall v :: 0 <= v < g.size ==> 0 <= dur[v] && slack[v] == lf[v] - ef[v] && 0 <= slack[v]
    ensures 0 < |ZeroAt(slack, g.size)|
  {
    CriticalTaskExists(g, dur, es, ef, ls, lf);
    var v :| 0 <= v < g.size && ef[v] == CriticalPathLength(ef) && lf[v] == CriticalPathLength(ef);
    assert v in ZeroAt(slack, g.size);
  }


}
