/** What a PERT schedule is, stated on plain sequences indexed by vertex:
    the earliest start of a task is the latest earliest finish among its
    predecessors (or 0), its latest finish is the earliest latest start among
    its successors (or the project length), and the project length is the
    largest earliest finish. The lemmas show that on a graph with a
    topological order these equations have exactly one solution, so two runs on
    the same graph and durations agree, and that some task has no slack. */
module Scheduling {
  import opened Graphs

  /** The project length as pert() and criticalPath() compute it: the largest
      entry of `ef`, and 0 if there is none or all are negative. */
  function CriticalPathLength(ef: seq<int>): (cpl: int)
    ensures 0 <= cpl
    ensures forall v :: 0 <= v < |ef| ==> ef[v] <= cpl
    ensures cpl == 0 || exists v :: 0 <= v < |ef| && ef[v] == cpl
  {
    if ef == [] then 0
    else
      var m := CriticalPathLength(ef[..|ef| - 1]);
      if ef[|ef| - 1] > m then ef[|ef| - 1] else m
  }

  /** Every task ends `dur` after it starts. */
  ghost predicate FinishAfterStart(dur: seq<int>, start: seq<int>, finish: seq<int>) {
    |start| == |dur| && |finish| == |dur|
    && forall v {:trigger dur[v]} :: 0 <= v < |dur| ==> finish[v] == start[v] + dur[v]
  }

  /** `es[v]` is the maximum of 0 and `ef[u]` over the predecessors u of v. */
  ghost predicate EarliestStartsMax(g: Graph, es: seq<int>, ef: seq<int>) {
    |es| == g.size && |ef| == g.size
    && (forall v :: 0 <= v < g.size ==> 0 <= es[v])
    && (forall u, v {:trigger IsEdge(g, u, v)} :: 0 <= u < g.size && 0 <= v < g.size && IsEdge(g, u, v) ==> ef[u] <= es[v])
    && (forall v :: 0 <= v < g.size && es[v] != 0 ==>
          exists u :: 0 <= u < g.size && IsEdge(g, u, v) && es[v] == ef[u])
  }

  /** The result of the forward pass. */
  ghost predicate EarliestSchedule(g: Graph, dur: seq<int>, es: seq<int>, ef: seq<int>) {
    EarliestStartsMax(g, es, ef) && FinishAfterStart(dur, es, ef)
  }

  /** `lf[v]` is the minimum of `cpl` and `ls[u]` over the successors u of v. */
  ghost predicate LatestFinishesMin(g: Graph, cpl: int, ls: seq<int>, lf: seq<int>) {
    |ls| == g.size && |lf| == g.size
    && (forall v :: 0 <= v < g.size ==> lf[v] <= cpl)
    && (forall v, u {:trigger IsEdge(g, v, u)} :: 0 <= v < g.size && 0 <= u < g.size && IsEdge(g, v, u) ==> lf[v] <= ls[u])
    && (forall v :: 0 <= v < g.size && lf[v] != cpl ==>
          exists u :: 0 <= u < g.size && IsEdge(g, v, u) && lf[v] == ls[u])
  }

  /** The result of the backward pass. */
  ghost predicate LatestSchedule(g: Graph, dur: seq<int>, cpl: int, ls: seq<int>, lf: seq<int>) {
    LatestFinishesMin(g, cpl, ls, lf) && FinishAfterStart(dur, ls, lf)
  }

  /** A vertex whose predecessors finish at the same earliest times in two
      forward-pass results starts and finishes at the same times in both. */
  lemma EarliestStep(g: Graph, dur: seq<int>, es1: seq<int>, ef1: seq<int>, es2: seq<int>, ef2: seq<int>, v: nat)
    requires EarliestSchedule(g, dur, es1, ef1) && EarliestSchedule(g, dur, es2, ef2) && v < g.size
    requires forall u :: 0 <= u < g.size && IsEdge(g, u, v) ==> ef1[u] == ef2[u]
    ensures es1[v] == es2[v] && ef1[v] == ef2[v]
  {
    if es1[v] != 0 {
      var u :| 0 <= u < g.size && IsEdge(g, u, v) && es1[v] == ef1[u];
      assert es1[v] <= es2[v];
    }
    if es2[v] != 0 {
      var u :| 0 <= u < g.size && IsEdge(g, u, v) && es2[v] == ef2[u];
      assert es2[v] <= es1[v];
    }
    assert ef1[v] == es1[v] + dur[v] && ef2[v] == es2[v] + dur[v];
  }

  /** Two forward-pass results agree on the first k vertices of a topological
      order. */
  lemma {:induction false} EarliestAgree(g: Graph, dur: seq<int>, order: seq<nat>,
                                         es1: seq<int>, ef1: seq<int>, es2: seq<int>, ef2: seq<int>, k: nat)
    requires WellFormed(g) && IsTopologicalOrder(g, order) && k <= |order|
    requires EarliestSchedule(g, dur, es1, ef1) && EarliestSchedule(g, dur, es2, ef2)
    ensures forall v :: 0 <= v < g.size && v in order[..k] ==> es1[v] == es2[v] && ef1[v] == ef2[v]
    decreases k
  {
    if k > 0 {
      EarliestAgree(g, dur, order, es1, ef1, es2, ef2, k - 1);
      var v := order[k - 1];
      assert v in order;
      forall u | 0 <= u < g.size && IsEdge(g, u, v) ensures ef1[u] == ef2[u] {
        assert u in order;
        var j :| 0 <= j < |order| && order[j] == u;
        assert j < k - 1;
        assert order[..k - 1][j] == u;
      }
      EarliestStep(g, dur, es1, ef1, es2, ef2, v);
      forall w | 0 <= w < g.size && w in order[..k] ensures es1[w] == es2[w] && ef1[w] == ef2[w] {
        var i :| 0 <= i < k && order[..k][i] == w;
        if i < k - 1 {
          assert order[..k - 1][i] == w;
        }
      }
    }
  }

  /** On a graph with a topological order the forward pass has one result:
      running it twice on the same graph and durations gives the same times. */
  lemma EarliestUnique(g: Graph, dur: seq<int>, order: seq<nat>,
                       es1: seq<int>, ef1: seq<int>, es2: seq<int>, ef2: seq<int>)
    requires WellFormed(g) && IsTopologicalOrder(g, order)
    requires EarliestSchedule(g, dur, es1, ef1) && EarliestSchedule(g, dur, es2, ef2)
    ensures es1 == es2 && ef1 == ef2
  {
    EarliestAgree(g, dur, order, es1, ef1, es2, ef2, |order|);
    assert order[..|order|] == order;
  }

  /** A vertex whose successors start at the same latest times in two
      backward-pass results finishes and starts at the same times in both. */
  lemma LatestStep(g: Graph, dur: seq<int>, cpl: int, ls1: seq<int>, lf1: seq<int>, ls2: seq<int>, lf2: seq<int>, v: nat)
    requires LatestSchedule(g, dur, cpl, ls1, lf1) && LatestSchedule(g, dur, cpl, ls2, lf2) && v < g.size
    requires forall u :: 0 <= u < g.size && IsEdge(g, v, u) ==> ls1[u] == ls2[u]
    ensures ls1[v] == ls2[v] && lf1[v] == lf2[v]
  {
    if lf1[v] != cpl {
      var u :| 0 <= u < g.size && IsEdge(g, v, u) && lf1[v] == ls1[u];
      assert lf2[v] <= lf1[v];
    }
    if lf2[v] != cpl {
      var u :| 0 <= u < g.size && IsEdge(g, v, u) && lf2[v] == ls2[u];
      assert lf1[v] <= lf2[v];
    }
    assert lf1[v] == ls1[v] + dur[v] && lf2[v] == ls2[v] + dur[v];
  }

  /** Two backward-pass results agree on the vertices from position k of a
      topological order onwards. */
  lemma {:induction false} LatestAgree(g: Graph, dur: seq<int>, cpl: int, order: seq<nat>,
                                       ls1: seq<int>, lf1: seq<int>, ls2: seq<int>, lf2: seq<int>, k: nat)
    requires WellFormed(g) && IsTopologicalOrder(g, order) && k <= |order|
    requires LatestSchedule(g, dur, cpl, ls1, lf1) && LatestSchedule(g, dur, cpl, ls2, lf2)
    ensures forall v :: 0 <= v < g.size && v in order[k..] ==> ls1[v] == ls2[v] && lf1[v] == lf2[v]
    decreases |order| - k
  {
    if k < |order| {
      LatestAgree(g, dur, cpl, order, ls1, lf1, ls2, lf2, k + 1);
      var v := order[k];
      assert v in order;
      forall u | 0 <= u < g.size && IsEdge(g, v, u) ensures ls1[u] == ls2[u] {
        assert u in order;
        var j :| 0 <= j < |order| && order[j] == u;
        assert k < j;
        assert order[k + 1..][j - k - 1] == u;
      }
      LatestStep(g, dur, cpl, ls1, lf1, ls2, lf2, v);
      assert order[k..] == [v] + order[k + 1..];
    }
  }

  /** On a graph with a topological order the backward pass has one result for
      a given project length. */
  lemma LatestUnique(g: Graph, dur: seq<int>, cpl: int, order: seq<nat>,
                     ls1: seq<int>, lf1: seq<int>, ls2: seq<int>, lf2: seq<int>)
    requires WellFormed(g) && IsTopologicalOrder(g, order)
    requires LatestSchedule(g, dur, cpl, ls1, lf1) && LatestSchedule(g, dur, cpl, ls2, lf2)
    ensures ls1 == ls2 && lf1 == lf2
  {
    LatestAgree(g, dur, cpl, order, ls1, lf1, ls2, lf2, 0);
    assert order[0..] == order;
  }

  /** With non-negative durations and no negative slack, a non-empty project
      has a task that finishes at the project length at the earliest and at the
      latest: a critical task, and the largest latest finish is the project
      length. */
  lemma CriticalTaskExists(g: Graph, dur: seq<int>, es: seq<int>, ef: seq<int>, ls: seq<int>, lf: seq<int>)
    requires EarliestSchedule(g, dur, es, ef)
    requires LatestSchedule(g, dur, CriticalPathLength(ef), ls, lf)
    requires forall v :: 0 <= v < g.size ==> 0 <= dur[v] && ef[v] <= lf[v]
    requires 0 < g.size
    ensures exists v :: 0 <= v < g.size && ef[v] == CriticalPathLength(ef) && lf[v] == CriticalPathLength(ef)
  {
    var cpl := CriticalPathLength(ef);
    if cpl == 0 {
      assert ef[0] == cpl && lf[0] == cpl;
    } else {
      var v :| 0 <= v < |ef| && ef[v] == cpl;
      assert lf[v] == cpl;
    }
  }
}
