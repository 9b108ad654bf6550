# PERT scheduler in Dafny

This project models the PERT/CPM scheduler of `PERT.java`, which works over a directed graph of tasks. One `PERT` object belongs to one graph. It keeps a side-table entry per vertex: seen flag, earliest and latest start and finish, slack and duration. A run of `pert()` proceeds in four steps:

1. It sorts the vertices by a depth-first search (`initialize`, `dfs`, `dfsAll`, `topologicalOrder`). Each vertex is prepended to `finishList` when its search finishes.
2. The forward pass walks that list. It sets every earliest finish to earliest start plus duration, and pushes each successor's earliest start up to that finish.
3. It takes the project length (the critical path length) as the largest earliest finish.
4. It seeds every latest finish with that length, reverses the list in place, and walks it backwards. On each vertex it sets latest start and slack, and pulls each predecessor's latest finish down to the vertex's latest start.

The queries `ec`, `lc`, `slack`, `critical`, `criticalPath` and `numCritical` read the results. The static `pert(g, duration)` builds and runs a scheduler.

`pert()` never checks for cycles and always returns `true`. Every schedule guarantee below is therefore stated under "the graph is acyclic". That is exactly when the depth-first order is topological, and the model proves this in both directions.

The files:

- `graphs.dfy` (module `Graphs`):
  - the graph: vertices `0 .. size-1`, edges kept as a list, and out- and in-neighbour lists read off that list;
  - paths and acyclicity;
  - vertex orders, topological orders, and list reversal.
- `scheduling.dfy` (module `Scheduling`): what the two passes should compute, stated on plain sequences indexed by vertex.
  - The earliest start is the maximum of 0 and the predecessors' earliest finishes.
  - The latest finish is the minimum of the project length and the successors' latest starts.
  - On an acyclic graph these equations have exactly one solution. So the result does not depend on which topological order the search produced.
  - Some task is critical.
- `search.dfy` (module `Search`): the invariant of the depth-first search, and the open and close steps that keep it.
- `passes.dfy` (module `Passes`): the loop invariants of the two passes, as predicates on sequences, and the lemmas that move them one step forward.
- `pert.dfy` (module `Pert`): class `PERT`.
  - Each side-table field is an `array` indexed by vertex, and `finishList` is a `seq`.
  - The methods follow the Java loops one for one. Each method is proved against the predicates of `Scheduling`.

## Model

| member | source | states |
|---|---|---|
| Pert.PERT.constructor | PERT.java:33-54 | Every vertex's entry starts unseen, with duration 0 and all times and slack 0; `finishList` starts empty. |
| Pert.PERT.SetDuration | PERT.java:56-58 | Sets `u`'s duration to `d` and leaves every other vertex's duration unchanged. |
| Pert.PERT.Initialize | PERT.java:119-124 | Every vertex ends unseen. |
| Pert.PERT.Dfs | PERT.java:127-138 | Starts from an unseen vertex `u`. Afterwards `u` is seen and in `finishList`, and no seen flag is cleared. The newly finished vertices are prepended to the old `finishList`. The search invariant is kept. |
| Search.OpenVertex | PERT.java:128 | Marking an unseen vertex seen puts it on the open search path and keeps the search invariant. |
| Search.CloseVertex | PERT.java:130-137 | Once all of `u`'s out-neighbours are seen, prepending `u` closes it and keeps the invariant. On an acyclic graph none of those neighbours is still open, so all of them are already listed after `u`. |
| Search.PrependKeepsSuccessorsAfter | PERT.java:137 | Prepending a vertex whose out-neighbours are all listed keeps every listed vertex ahead of its out-neighbours. |
| Search.SearchDone | PERT.java:144-148 | When every vertex is seen and no search is open, the finish list holds every vertex exactly once. |
| Pert.PERT.DfsAll | PERT.java:141-149 | `finishList` ends holding every vertex exactly once. On an acyclic graph every vertex precedes its out-neighbours. |
| Pert.PERT.TopologicalOrder | PERT.java:152-156 | Returns `finishList` itself: `size` entries, each vertex once. It is a topological order if and only if the graph is acyclic. |
| Graphs.VertexOrderLength | PERT.java:152-156 | A list holding every vertex exactly once has exactly `size` entries. |
| Graphs.SuccessorsAfterIsTopological | PERT.java:130-137 | A list of every vertex, with each entry ahead of its out-neighbours, puts every edge forward. |
| Graphs.TopologicalImpliesAcyclic | PERT.java:152-156 | A graph with a topological order has no cycle (the other direction of `TopologicalOrder`'s equivalence). |
| Graphs.OutNeighbors | PERT.java:75-76 | Lists exactly the heads of `u`'s out-edges, all vertices of the graph. |
| Graphs.InNeighbors | PERT.java:104-105 | Lists exactly the tails of `v`'s in-edges, all vertices of the graph. |
| Graphs.Reversed | PERT.java:98 | Same length; entry `k` is the original's entry `size-1-k`. |
| Graphs.ReversedVertexOrder | PERT.java:98 | A list holds every vertex exactly once if and only if its reverse does. |
| Graphs.ReversedTopological | PERT.java:98 | A list is a topological order if and only if its reverse is a reverse topological order. |
| Pert.PERT.EarliestTimes | PERT.java:65-82 | For any vertex order, each earliest start ends as the maximum of 0 and the earliest finishes of its predecessors. Along a topological order, every earliest finish is also its earliest start plus its duration. |
| Pert.PERT.ForwardRelax | PERT.java:75-81 | No earliest start decreases. Every out-neighbour of `x` ends starting no earlier than `x` finishes. Each raised start is witnessed by the vertex that raised it. |
| Passes.FinishEarliest | PERT.java:71-82 | At the end of the forward loop, its invariant gives the max-characterisation of the earliest starts, and the full forward schedule along a topological order. |
| Passes.EarliestGaps | PERT.java:71-82 | In a forward schedule, a predecessor finishes no later than its successor's earliest finish minus the successor's duration. |
| Scheduling.CriticalPathLength | PERT.java:85-90 | The project length is at least 0 and no earliest finish exceeds it. It is 0 or equal to some vertex's earliest finish. |
| Pert.PERT.CriticalPath | PERT.java:176-192 | Returns exactly the project length that `pert()` computes. |
| Pert.PERT.LatestTimes | PERT.java:92-111 | Reverses `finishList` in place. For any order, each latest finish ends as the minimum of the project length and its successors' latest starts. If the list was topological, latest starts are latest finishes minus durations, and slack is latest finish minus earliest finish, never negative. |
| Pert.PERT.BackwardPass | PERT.java:99-111 | The same guarantees as `LatestTimes`, for a list walked as given; they need a reverse topological order. |
| Pert.PERT.SetLatestStart | PERT.java:101-103 | Sets `x`'s latest start to its latest finish minus its duration, and its slack to its latest finish minus its earliest finish. Nothing else changes. |
| Pert.PERT.BackwardRelax | PERT.java:104-110 | No latest finish increases, and none rises above the project length. Every in-neighbour of `x` ends finishing no later than `x`'s latest start. |
| Passes.PredecessorsFit | PERT.java:104-110 | With the forward-pass gaps and every earliest finish within its latest finish, each predecessor of `x` has an earliest finish no later than `x`'s latest finish minus `x`'s duration. So pulling it down to `x`'s latest start never takes it below its earliest finish. |
| Passes.FinishLatest | PERT.java:99-111 | At the end of the backward loop, its invariant gives the min-characterisation of the latest finishes. On a reverse topological order it also gives the backward schedule and non-negative slack. |
| Pert.PERT.Pert | PERT.java:61-114 | Always returns `true`. Leaves `finishList` as every vertex once, a reverse topological order if and only if the graph is acyclic. Earliest starts are maxima and latest finishes are minima. On an acyclic graph the whole schedule holds. |
| Scheduling.EarliestStep | PERT.java:71-82 | A vertex whose predecessors finish at the same times in two forward schedules starts and finishes at the same times in both. |
| Scheduling.EarliestAgree | PERT.java:71-82 | Two forward schedules agree on every prefix of a topological order. |
| Scheduling.EarliestUnique | PERT.java:71-82 | On a graph with a topological order the forward schedule is unique, whichever topological order the search produced. |
| Scheduling.LatestStep | PERT.java:99-111 | A vertex whose successors start at the same latest times in two backward schedules finishes and starts at the same times in both. |
| Scheduling.LatestAgree | PERT.java:99-111 | Two backward schedules agree on every suffix of a topological order. |
| Scheduling.LatestUnique | PERT.java:99-111 | On a graph with a topological order the backward schedule for a given project length is unique. |
| Scheduling.CriticalTaskExists | PERT.java:85-111 | Assumes non-negative durations and no negative slack. Then some vertex finishes at the project length both at the earliest and at the latest, so the largest latest finish equals the project length. |
| Pert.PERT.Ec | PERT.java:161-163 | The earliest finish of `u`. After a run on an acyclic graph it is start plus duration, within `u`'s latest finish and within the project length. |
| Pert.PERT.Lc | PERT.java:166-168 | The latest finish of `u`. After a run on an acyclic graph it lies between `u`'s earliest finish and the project length, and equals latest start plus duration. |
| Pert.PERT.Slack | PERT.java:171-173 | The slack of `u`. After a run on an acyclic graph it is non-negative and equals both latest finish minus earliest finish and latest start minus earliest start. |
| Pert.PERT.Critical | PERT.java:195-197 | True if and only if the slack is 0. After a run on an acyclic graph, that is if and only if earliest and latest finish coincide, and if and only if the starts coincide. |
| Pert.ZeroAtStep | PERT.java:200-207 | Looking at one more vertex adds one to the zero-slack count exactly when that vertex has zero slack. |
| Pert.PERT.NumCritical | PERT.java:200-208 | Returns the number of vertices with zero slack, at most the vertex count. After a run on a non-empty acyclic graph with non-negative durations, it is at least 1. |
| Pert.PERT.ScheduledHasCritical | PERT.java:200-208 | A scheduled non-empty project with non-negative durations has a critical vertex. |
| Pert.SomeCritical | PERT.java:195-208 | Any schedule of a non-empty project with non-negative durations and no negative slack has a vertex of zero slack. |
| Pert.PERT.Run | PERT.java:213-224 | Returns a fresh scheduler on `g` that is never null. Each vertex's duration is copied from `duration` at its index. The finish list is reverse topological if and only if `g` is acyclic, and on an acyclic `g` the full schedule holds. |

Where the comments and the code disagree, the model follows the code:

- **No cycle check.** The comments at PERT.java:60 and PERT.java:210-212 promise `false` (and a `null` scheduler) on a graph that is not a DAG. The code has no cycle check, and `pert()` returns `true` unconditionally. The model keeps that: `Pert` ensures `ok`, and `Run` ensures `p != null`.
- **Cyclic input.** On a cyclic graph the model states what the code still guarantees: the max and min characterisations of the earliest starts and latest finishes. It states nothing more.
- **Project length.** The project length equals the largest latest finish (`CriticalTaskExists`), not the smallest one. For example, a chain a→b with durations 5 and 1 has latest finishes 5 and 6 and project length 6.

## Left out

- `main` (PERT.java:226-249) is left out. It is input parsing and printing.
- Graph.java is not part of this model. `Graph`, `Vertex`, `Edge`, `GraphAlgorithm` and `Factory` are modelled as a vertex count and an edge list.
  - A vertex is its index (`getIndex()`), and the side table is indexed by it.
  - `outEdges(u)` and `inEdges(u)` are read off the edge list in list order. The actual iteration order of the graph class is not modelled; no property proved here depends on it.
- `PERTVertex.parent`, `distance` and `status` are written but never read (PERT.java:23-24, 31, 133), so they are omitted.
- `finishList` and `topList` are one `LinkedList` object in the source. The model holds it as a `seq` field. `Collections.reverse(topList)` becomes an assignment of the reversed sequence to that field, which is what aliasing makes the in-place reversal do.
- Pert.PERT.Pert: times are mathematical integers. Java's 32-bit wrap-around of `es + duration`, `lf - duration` and `lf - ef` is not modelled. All schedule guarantees assume no overflow.
- Pert.PERT.DfsAll: requires an empty `finishList`, which `topologicalOrder()` sets up just before calling it (its only caller). With a non-empty list the "every vertex exactly once" guarantee would not hold, and the model does not state what happens then.
- Pert.PERT.Dfs: the depth of the recursion is not bounded, so the Java stack overflow that a very long path would cause is not modelled.
- Pert.PERT.BackwardPass and Pert.PERT.LatestTimes: for a list that is not reverse topological, they state only the min-characterisation of the latest finishes. Latest starts and slacks are then set from finishes that may still be lowered afterwards, and the model states nothing about them.
