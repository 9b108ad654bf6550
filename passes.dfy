/** The loop invariants of the two passes of pert(), stated on sequences (a
    snapshot of the side-table arrays), and the small steps that keep them:
    one relaxation of an edge, one vertex finished, one pass completed. The
    forward pass walks an order pushing earliest starts up along out-edges; the
    backward pass walks the reversed order pulling latest finishes down along
    in-edges. `order[..n]` is the part of the order already processed. */
module Passes {
  import opened Graphs
  import opened Scheduling

  ghost predicate NonNegative(s: seq<int>) {
    forall v :: 0 <= v < |s| ==> 0 <= s[v]
  }

  ghost predicate AtMost(s: seq<int>, bound: int) {
    forall v :: 0 <= v < |s| ==> s[v] <= bound
  }

  /** Entry by entry, `lo` is no larger than `hi`. */
  ghost predicate NoneAbove(lo: seq<int>, hi: seq<int>) {
    |lo| == |hi| && forall v :: 0 <= v < |hi| ==> lo[v] <= hi[v]
  }

  /** `s` and `s0` agree on the first n vertices of `order`. */
  ghost predicate SameAt(order: seq<nat>, n: nat, s0: seq<int>, s: seq<int>) {
    |s0| == |s| && forall k :: 0 <= k < n && k < |order| && order[k] < |s| ==> s[order[k]] == s0[order[k]]
  }

  /** The first j vertices of `vs` have entries of at least `bound`. */
  ghost predicate AllAtLeast(vs: seq<nat>, j: nat, bound: int, s: seq<int>) {
    forall m :: 0 <= m < j && m < |vs| && vs[m] < |s| ==> bound <= s[vs[m]]
  }

  /** The first j vertices of `vs` have entries of at most `bound`. */
  ghost predicate AllAtMost(vs: seq<nat>, j: nat, bound: int, s: seq<int>) {
    forall m :: 0 <= m < j && m < |vs| && vs[m] < |s| ==> s[vs[m]] <= bound
  }

  // ----- forward pass -----

  /** Every out-edge of a processed vertex ends at a vertex that starts no
      earlier than the processed vertex finishes. */
  ghost predicate Pushed(g: Graph, order: seq<nat>, n: nat, es: seq<int>, ef: seq<int>) {
    forall k, v {:trigger IsEdge(g, order[k], v)} :: 0 <= k < n && k < |order| && order[k] < |ef| && 0 <= v < |es| && IsEdge(g, order[k], v) ==>
      ef[order[k]] <= es[v]
  }

  /** Every non-zero earliest start is the earliest finish of a processed
      predecessor, the one at position from[v] of the order. */
  ghost predicate StartsWitnessed(g: Graph, order: seq<nat>, n: nat, es: seq<int>, ef: seq<int>, from: seq<nat>) {
    |from| == |es|
    && forall v {:trigger from[v]} :: 0 <= v < |es| && es[v] != 0 ==>
         from[v] < n && from[v] < |order| && order[from[v]] < |ef|
         && IsEdge(g, order[from[v]], v) && es[v] == ef[order[from[v]]]
  }

  /** Processed vertices finish their duration after they start. */
  ghost predicate FinishedAt(order: seq<nat>, n: nat, dur: seq<int>, es: seq<int>, ef: seq<int>) {
    forall k :: 0 <= k < n && k < |order| && order[k] < |dur| && order[k] < |es| && order[k] < |ef| ==>
      ef[order[k]] == es[order[k]] + dur[order[k]]
  }

  lemma WidenStarts(g: Graph, order: seq<nat>, n: nat, es: seq<int>, ef: seq<int>, from: seq<nat>)
    requires StartsWitnessed(g, order, n, es, ef, from)
    ensures StartsWitnessed(g, order, n + 1, es, ef, from)
  {
  }

  /** Setting the earliest finish of the vertex at position i leaves what was
      established about the vertices before it untouched, and adds that
      vertex to those that finish their duration after they start. */
  lemma SetFinish(g: Graph, order: seq<nat>, i: nat, dur: seq<int>, es: seq<int>, ef: seq<int>, from: seq<nat>)
    requires NoDuplicates(order) && i < |order| && order[i] < |ef| && order[i] < |es| && order[i] < |dur|
    requires Pushed(g, order, i, es, ef) && StartsWitnessed(g, order, i, es, ef, from)
    ensures var ef' := ef[order[i] := es[order[i]] + dur[order[i]]];
      Pushed(g, order, i, es, ef') && StartsWitnessed(g, order, i, es, ef', from)
      && (FinishedAt(order, i, dur, es, ef) ==> FinishedAt(order, i + 1, dur, es, ef'))
  {
    var x := order[i];
    var ef' := ef[x := es[x] + dur[x]];
    forall k | 0 <= k < i ensures order[k] != x {
      assert order[k] != order[i];
    }
    forall k, v | 0 <= k < i && k < |order| && order[k] < |ef'| && 0 <= v < |es| && IsEdge(g, order[k], v)
      ensures ef'[order[k]] <= es[v]
    {
      assert ef'[order[k]] == ef[order[k]];
    }
    forall v | 0 <= v < |es| && es[v] != 0
      ensures from[v] < i && from[v] < |order| && order[from[v]] < |ef'|
              && IsEdge(g, order[from[v]], v) && es[v] == ef'[order[from[v]]]
    {
      assert ef'[order[from[v]]] == ef[order[from[v]]];
    }
    if FinishedAt(order, i, dur, es, ef) {
      forall k | 0 <= k < i + 1 && k < |order| && order[k] < |dur| && order[k] < |es| && order[k] < |ef'|
        ensures ef'[order[k]] == es[order[k]] + dur[order[k]]
      {
        if k < i {
          assert ef'[order[k]] == ef[order[k]];
        }
      }
    }
  }

  /** Raising the earliest start of an out-neighbour `v` of the vertex at
      position i to that vertex's earliest finish keeps the inner loop's
      invariants; under a topological order `v` is not yet processed. */
  lemma RaiseStart(g: Graph, order: seq<nat>, i: nat, es0: seq<int>, es: seq<int>, ef: seq<int>,
                   from: seq<nat>, topo: bool, outs: seq<nat>, j: nat)
    requires i < |order| && order[i] < |ef| && |es0| == |es| && j < |outs| && outs[j] < |es|
    requires IsEdge(g, order[i], outs[j]) && es[outs[j]] < ef[order[i]]
    requires NonNegative(es) && NoneAbove(es0, es)
    requires StartsWitnessed(g, order, i + 1, es, ef, from)
    requires AllAtLeast(outs, j, ef[order[i]], es)
    requires topo ==> SameAt(order, i + 1, es0, es)
    requires topo ==> forall k :: 0 <= k <= i ==> !IsEdge(g, order[i], order[k])
    ensures var es' := es[outs[j] := ef[order[i]]];
      NonNegative(es') && NoneAbove(es0, es')
      && StartsWitnessed(g, order, i + 1, es', ef, from[outs[j] := i])
      && AllAtLeast(outs, j + 1, ef[order[i]], es')
      && (topo ==> SameAt(order, i + 1, es0, es'))
  {
    var v := outs[j];
    if topo {
      assert forall k :: 0 <= k <= i && k < |order| ==> order[k] != v;
    }
  }

  lemma SkipStart(outs: seq<nat>, j: nat, bound: int, es: seq<int>)
    requires j < |outs| && outs[j] < |es| && bound <= es[outs[j]]
    requires AllAtLeast(outs, j, bound, es)
    ensures AllAtLeast(outs, j + 1, bound, es)
  {
  }

  /** Once every out-neighbour of the vertex at position i starts no earlier
      than it finishes, the vertex counts as processed. */
  lemma FinishPush(g: Graph, order: seq<nat>, i: nat, dur: seq<int>, es0: seq<int>, es: seq<int>, ef: seq<int>,
                   outs: seq<nat>, topo: bool)
    requires i < |order| && order[i] < |ef|
    requires Pushed(g, order, i, es0, ef) && NoneAbove(es0, es)
    requires AllAtLeast(outs, |outs|, ef[order[i]], es)
    requires forall v :: v in outs <==> IsEdge(g, order[i], v)
    requires topo ==> FinishedAt(order, i + 1, dur, es0, ef) && SameAt(order, i + 1, es0, es)
    ensures Pushed(g, order, i + 1, es, ef)
    ensures topo ==> FinishedAt(order, i + 1, dur, es, ef)
  {
    forall k, v | 0 <= k < i + 1 && k < |order| && order[k] < |ef| && 0 <= v < |es| && IsEdge(g, order[k], v)
      ensures ef[order[k]] <= es[v]
    {
      if k == i {
        assert v in outs;
        var m :| 0 <= m < |outs| && outs[m] == v;
      } else {
        assert ef[order[k]] <= es0[v];
      }
    }
  }

  /** The forward pass's invariants, once every vertex of the order is
      processed, are the forward-pass equations. */
  lemma FinishEarliest(g: Graph, dur: seq<int>, order: seq<nat>, es: seq<int>, ef: seq<int>,
                       from: seq<nat>, topo: bool)
    requires IsVertexOrder(g.size, order) && (topo ==> IsTopologicalOrder(g, order))
    requires |es| == g.size && |ef| == g.size && |dur| == g.size
    requires NonNegative(es) && Pushed(g, order, |order|, es, ef)
    requires StartsWitnessed(g, order, |order|, es, ef, from)
    requires topo ==> FinishedAt(order, |order|, dur, es, ef)
    ensures EarliestStartsMax(g, es, ef)
    ensures topo ==> EarliestSchedule(g, dur, es, ef)
  {
    forall u, v | 0 <= u < g.size && 0 <= v < g.size && IsEdge(g, u, v) ensures ef[u] <= es[v] {
      assert u in order;
      var k :| 0 <= k < |order| && order[k] == u;
    }
    forall v | 0 <= v < g.size && es[v] != 0
      ensures exists u :: 0 <= u < g.size && IsEdge(g, u, v) && es[v] == ef[u]
    {
      var u := order[from[v]];
      assert 0 <= u < g.size && IsEdge(g, u, v) && es[v] == ef[u];
    }
    if topo {
      forall v | 0 <= v < g.size ensures ef[v] == es[v] + dur[v] {
        assert v in order;
        var k :| 0 <= k < |order| && order[k] == v;
      }
    }
  }

  // ----- backward pass -----

  /** Every task finishes no later than each of its successors starts, with
      start times written as finish minus duration. */
  ghost predicate FinishGaps(g: Graph, dur: seq<int>, ef: seq<int>) {
    |dur| == g.size && |ef| == g.size
    && forall v, u :: 0 <= v < g.size && 0 <= u < g.size && IsEdge(g, v, u) ==> ef[v] <= ef[u] - dur[u]
  }

  /** A forward-pass result leaves every task's finish at least its duration
      before each successor's finish. */
  lemma EarliestGaps(g: Graph, dur: seq<int>, es: seq<int>, ef: seq<int>)
    requires EarliestSchedule(g, dur, es, ef)
    ensures FinishGaps(g, dur, ef)
  {
  }

  /** Every in-edge of a processed vertex starts at a vertex that finishes no
      later than the processed vertex starts. */
  ghost predicate Pulled(g: Graph, order: seq<nat>, n: nat, ls: seq<int>, lf: seq<int>) {
    forall k, v {:trigger IsEdge(g, v, order[k])} :: 0 <= k < n && k < |order| && order[k] < |ls| && 0 <= v < |lf| && IsEdge(g, v, order[k]) ==>
      lf[v] <= ls[order[k]]
  }

  /** Every latest finish other than `cpl` is the latest start of a processed
      successor, the one at position to[v] of the order. */
  ghost predicate FinishesWitnessed(g: Graph, order: seq<nat>, n: nat, cpl: int, ls: seq<int>, lf: seq<int>,
                                    to: seq<nat>) {
    |to| == |lf|
    && forall v {:trigger to[v]} :: 0 <= v < |lf| && lf[v] != cpl ==>
         to[v] < n && to[v] < |order| && order[to[v]] < |ls|
         && IsEdge(g, v, order[to[v]]) && lf[v] == ls[order[to[v]]]
  }

  /** Processed vertices start their duration before they finish, and their
      slack is the gap between latest and earliest finish. */
  ghost predicate StartedAt(order: seq<nat>, n: nat, dur: seq<int>, ef: seq<int>, ls: seq<int>, lf: seq<int>,
                            slack: seq<int>) {
    forall k :: 0 <= k < n && k < |order| && order[k] < |dur| && order[k] < |ef| && order[k] < |ls|
                && order[k] < |lf| && order[k] < |slack| ==>
      ls[order[k]] == lf[order[k]] - dur[order[k]] && slack[order[k]] == lf[order[k]] - ef[order[k]]
  }

  lemma WidenFinishes(g: Graph, order: seq<nat>, n: nat, cpl: int, ls: seq<int>, lf: seq<int>, to: seq<nat>)
    requires FinishesWitnessed(g, order, n, cpl, ls, lf, to)
    ensures FinishesWitnessed(g, order, n + 1, cpl, ls, lf, to)
  {
  }

  /** Setting the latest start and slack of the vertex at position i leaves
      what was established about the vertices before it untouched, and adds
      that vertex to those whose start and slack agree with its finish. */
  lemma SetStart(g: Graph, order: seq<nat>, i: nat, cpl: int, dur: seq<int>, ef: seq<int>, ls: seq<int>,
                 lf: seq<int>, slack: seq<int>, to: seq<nat>)
    requires NoDuplicates(order) && i < |order|
    requires order[i] < |dur| && order[i] < |ef| && order[i] < |ls| && order[i] < |lf| && order[i] < |slack|
    requires Pulled(g, order, i, ls, lf) && FinishesWitnessed(g, order, i, cpl, ls, lf, to)
    ensures var x := order[i];
      var ls' := ls[x := lf[x] - dur[x]];
      Pulled(g, order, i, ls', lf) && FinishesWitnessed(g, order, i, cpl, ls', lf, to)
      && (StartedAt(order, i, dur, ef, ls, lf, slack) ==>
            StartedAt(order, i + 1, dur, ef, ls', lf, slack[x := lf[x] - ef[x]]))
  {
    var x := order[i];
    var ls' := ls[x := lf[x] - dur[x]];
    forall k | 0 <= k < i ensures order[k] != x {
      assert order[k] != order[i];
    }
    assert forall k :: 0 <= k < i && order[k] < |ls| ==> ls'[order[k]] == ls[order[k]];
  }

  /** With the forward-pass gaps and every earliest finish within its latest
      finish, each predecessor of `x` finishes no later than x's latest start. */
  lemma PredecessorsFit(g: Graph, dur: seq<int>, ef: seq<int>, lf: seq<int>, x: nat)
    requires FinishGaps(g, dur, ef) && NoneAbove(ef, lf) && x < g.size
    ensures forall v :: 0 <= v < g.size && IsEdge(g, v, x) ==> ef[v] <= lf[x] - dur[x]
  {
    forall v | 0 <= v < g.size && IsEdge(g, v, x) ensures ef[v] <= lf[x] - dur[x] {
      assert ef[v] <= ef[x] - dur[x] && ef[x] <= lf[x];
    }
  }

  /** Lowering the latest finish of an in-neighbour `v` of the vertex at
      position i to that vertex's latest start keeps the inner loop's
      invariants; under a reverse topological order `v` is not yet processed
      and still finishes no earlier than its earliest finish. */
  lemma LowerFinish(g: Graph, order: seq<nat>, i: nat, cpl: int, ef: seq<int>, ls: seq<int>, lf0: seq<int>,
                    lf: seq<int>, to: seq<nat>, topo: bool, ins: seq<nat>, j: nat)
    requires i < |order| && order[i] < |ls| && |lf0| == |lf| && |ef| == |lf| && j < |ins| && ins[j] < |lf|
    requires IsEdge(g, ins[j], order[i]) && ls[order[i]] < lf[ins[j]]
    requires AtMost(lf, cpl) && NoneAbove(lf, lf0)
    requires FinishesWitnessed(g, order, i + 1, cpl, ls, lf, to)
    requires AllAtMost(ins, j, ls[order[i]], lf)
    requires topo ==> SameAt(order, i + 1, lf0, lf) && NoneAbove(ef, lf)
    requires topo ==> forall k :: 0 <= k <= i ==> !IsEdge(g, order[k], order[i])
    requires topo ==> ef[ins[j]] <= ls[order[i]]
    ensures var lf' := lf[ins[j] := ls[order[i]]];
      AtMost(lf', cpl) && NoneAbove(lf', lf0)
      && FinishesWitnessed(g, order, i + 1, cpl, ls, lf', to[ins[j] := i])
      && AllAtMost(ins, j + 1, ls[order[i]], lf')
      && (topo ==> SameAt(order, i + 1, lf0, lf') && NoneAbove(ef, lf'))
  {
    var v := ins[j];
    if topo {
      assert forall k :: 0 <= k <= i && k < |order| ==> order[k] != v;
    }
  }

  lemma SkipFinish(ins: seq<nat>, j: nat, bound: int, lf: seq<int>)
    requires j < |ins| && ins[j] < |lf| && lf[ins[j]] <= bound
    requires AllAtMost(ins, j, bound, lf)
    ensures AllAtMost(ins, j + 1, bound, lf)
  {
  }

  /** Once every in-neighbour of the vertex at position i finishes no later
      than it starts, the vertex counts as processed. */
  lemma FinishPull(g: Graph, order: seq<nat>, i: nat, dur: seq<int>, ef: seq<int>, ls: seq<int>, lf0: seq<int>,
                   lf: seq<int>, slack: seq<int>, ins: seq<nat>, topo: bool)
    requires i < |order| && order[i] < |ls|
    requires Pulled(g, order, i, ls, lf0) && NoneAbove(lf, lf0)
    requires AllAtMost(ins, |ins|, ls[order[i]], lf)
    requires forall v :: v in ins <==> IsEdge(g, v, order[i])
    requires topo ==> StartedAt(order, i + 1, dur, ef, ls, lf0, slack) && SameAt(order, i + 1, lf0, lf)
    ensures Pulled(g, order, i + 1, ls, lf)
    ensures topo ==> StartedAt(order, i + 1, dur, ef, ls, lf, slack)
  {
    forall k, v | 0 <= k < i + 1 && k < |order| && order[k] < |ls| && 0 <= v < |lf| && IsEdge(g, v, order[k])
      ensures lf[v] <= ls[order[k]]
    {
      if k == i {
        assert v in ins;
        var m :| 0 <= m < |ins| && ins[m] == v;
      } else {
        assert lf0[v] <= ls[order[k]];
      }
    }
  }

  /** The backward pass's invariants, once every vertex of the order is
      processed, are the backward-pass equations, with no negative slack. */
  lemma FinishLatest(g: Graph, dur: seq<int>, cpl: int, order: seq<nat>, ef: seq<int>, ls: seq<int>, lf: seq<int>,
                     slack: seq<int>, to: seq<nat>, topo: bool)
    requires IsVertexOrder(g.size, order)
    requires |ef| == g.size && |ls| == g.size && |lf| == g.size && |dur| == g.size && |slack| == g.size
    requires AtMost(lf, cpl) && Pulled(g, order, |order|, ls, lf)
    requires FinishesWitnessed(g, order, |order|, cpl, ls, lf, to)
    requires topo ==> StartedAt(order, |order|, dur, ef, ls, lf, slack) && NoneAbove(ef, lf)
    ensures LatestFinishesMin(g, cpl, ls, lf)
    ensures topo ==> LatestSchedule(g, dur, cpl, ls, lf)
    ensures topo ==> forall v :: 0 <= v < g.size ==> slack[v] == lf[v] - ef[v] && 0 <= slack[v]
  {
    forall v, u | 0 <= v < g.size && 0 <= u < g.size && IsEdge(g, v, u) ensures lf[v] <= ls[u] {
      assert u in order;
      var k :| 0 <= k < |order| && order[k] == u;
    }
    forall v | 0 <= v < g.size && lf[v] != cpl
      ensures exists u :: 0 <= u < g.size && IsEdge(g, v, u) && lf[v] == ls[u]
    {
      var u := order[to[v]];
      assert 0 <= u < g.size && IsEdge(g, v, u) && lf[v] == ls[u];
    }
    if topo {
      forall v | 0 <= v < g.size ensures lf[v] == ls[v] + dur[v] && slack[v] == lf[v] - ef[v] {
        assert v in order;
        var k :| 0 <= k < |order| && order[k] == v;
      }
    }
  }
}
