/** `traverse` of src/bilinc/core/knowledge_graph.py: breadth-first search with a depth limit and a relation filter. */
module Traversal {

  /** One of possibly several parallel edges between two nodes; an edge may carry no relation type. */
  datatype Edge = Edge(id: nat, relation: string)

  /** Successors of each node in the graph's own order, and the edges to each of them. */
  datatype Graph = Graph(successors: map<string, seq<string>>, edges: map<(string, string), seq<Edge>>)

  ghost predicate WellFormed(g: Graph) {
    forall x, y :: x in g.successors && y in g.successors[x] ==> y in g.successors
  }

  // ---------------------------------------------------------------- distance

  predicate Follows(g: Graph, x: string, y: string) {
    x in g.successors && y in g.successors[x]
  }

  function Steps(g: Graph, from: set<string>): set<string> {
    set x, y | x in from && x in g.successors && y in g.successors[x] :: y
  }

  /** The nodes at directed distance at most k. */
  function Within(g: Graph, start: string, k: nat): set<string> {
    if k == 0 then {start} else Within(g, start, k - 1) + Steps(g, Within(g, start, k - 1))
  }

  lemma StepFrom(g: Graph, from: set<string>, y: string) returns (x: string)
    requires y in Steps(g, from)
    ensures x in from && Follows(g, x, y)
  {
    x :| x in from && x in g.successors && y in g.successors[x];
  }

  ghost predicate AtDistance(g: Graph, start: string, x: string, d: nat) {
    x in Within(g, start, d) && (d > 0 ==> x !in Within(g, start, d - 1))
  }

  lemma {:induction false} WithinGrows(g: Graph, start: string, k: nat, m: nat)
    requires k <= m
    ensures Within(g, start, k) <= Within(g, start, m)
  {
    if k < m {
      WithinGrows(g, start, k, m - 1);
    }
  }

  lemma WithinStep(g: Graph, start: string, k: nat, x: string, y: string)
    requires x in Within(g, start, k) && Follows(g, x, y)
    ensures y in Within(g, start, k + 1)
  {
    assert y in Steps(g, Within(g, start, k));
  }

  /** `Within` is path length: a node is within k exactly when some path of at most k edges reaches it. */
  ghost predicate IsPath(g: Graph, p: seq<string>, start: string, x: string) {
    p != [] && p[0] == start && p[|p| - 1] == x && forall i :: 0 <= i < |p| - 1 ==> Follows(g, p[i], p[i + 1])
  }

  lemma {:induction false} WithinIsPathLength(g: Graph, start: string, k: nat, x: string)
    ensures x in Within(g, start, k) <==> exists p :: IsPath(g, p, start, x) && |p| <= k + 1
  {
    if x in Within(g, start, k) {
      var _ := PathWithin(g, start, k, x);
    }
    forall p | IsPath(g, p, start, x) && |p| <= k + 1
      ensures x in Within(g, start, k)
    {
      PathReaches(g, p, start, x);
      WithinGrows(g, start, |p| - 1, k);
    }
  }

  lemma {:induction false} PathWithin(g: Graph, start: string, k: nat, x: string) returns (p: seq<string>)
    requires x in Within(g, start, k)
    ensures IsPath(g, p, start, x) && |p| <= k + 1
  {
    if k == 0 {
      p := [x];
    } else if x in Within(g, start, k - 1) {
      p := PathWithin(g, start, k - 1, x);
    } else {
      var y := StepFrom(g, Within(g, start, k - 1), x);
      p := PathWithin(g, start, k - 1, y);
      p := p + [x];
    }
  }

  lemma {:induction false} PathReaches(g: Graph, p: seq<string>, start: string, x: string)
    requires IsPath(g, p, start, x)
    ensures x in Within(g, start, |p| - 1)
  {
    var n := |p| - 1;
    if n > 0 {
      assert IsPath(g, p[..n], start, p[n - 1]) && Follows(g, p[n - 1], p[n]);
      PathReaches(g, p[..n], start, p[n - 1]);
      WithinStep(g, start, n - 1, p[n - 1], x);
    }
  }

  // ---------------------------------------------------------------- edges

  predicate Passes(filter: seq<string>, e: Edge) {
    filter == [] || e.relation == "" || e.relation in filter
  }

  function Passing(filter: seq<string>, edges: seq<Edge>): seq<Edge> {
    if edges == [] then [] else
      var last := edges[|edges| - 1];
      Passing(filter, edges[..|edges| - 1]) + (if Passes(filter, last) then [last] else [])
  }

  function EdgesBetween(g: Graph, x: string, y: string): seq<Edge> {
    if (x, y) in g.edges then g.edges[(x, y)] else []
  }

  // The filter-passing edges to the first n successors.
  function EdgesFrom(g: Graph, x: string, n: nat, filter: seq<string>): seq<Edge>
    requires x in g.successors && n <= |g.successors[x]|
  {
    if n == 0 then [] else
      EdgesFrom(g, x, n - 1, filter) + Passing(filter, EdgesBetween(g, x, g.successors[x][n - 1]))
  }

  function OutEdges(g: Graph, x: string, filter: seq<string>): seq<Edge> {
    if x in g.successors then EdgesFrom(g, x, |g.successors[x]|, filter) else []
  }

  /** The filter-passing out-edges of the first n found nodes that lie below the depth limit, node by node. */
  ghost function EdgesFound(g: Graph, found: seq<string>, depths: seq<nat>, n: nat, maxDepth: int, filter: seq<string>): seq<Edge>
    requires n <= |found| == |depths|
  {
    if n == 0 then [] else
      EdgesFound(g, found, depths, n - 1, maxDepth, filter) +
      (if depths[n - 1] < maxDepth then OutEdges(g, found[n - 1], filter) else [])
  }

  lemma {:induction false} EdgesFoundExtends(g: Graph, found: seq<string>, depths: seq<nat>, x: string, d: nat, n: nat,
                                             maxDepth: int, filter: seq<string>)
    requires n <= |found| == |depths|
    ensures EdgesFound(g, found + [x], depths + [d], n, maxDepth, filter) == EdgesFound(g, found, depths, n, maxDepth, filter)
  {
    if n > 0 {
      EdgesFoundExtends(g, found, depths, x, d, n - 1, maxDepth, filter);
    }
  }

  // ---------------------------------------------------------------- the search

  type Queue = seq<(string, nat)>

  ghost predicate Pending(queue: Queue, y: string, d: nat) {
    exists i :: 0 <= i < |queue| && queue[i].0 == y && queue[i].1 <= d
  }

  // Depths in the queue never fall, and span at most two levels.
  ghost predicate Layered(queue: Queue) {
    forall i, j :: 0 <= i <= j < |queue| ==> queue[i].1 <= queue[j].1 <= queue[i].1 + 1
  }

  ghost predicate Exact(g: Graph, start: string, found: seq<string>, depths: seq<nat>) {
    && |found| == |depths|
    && (forall i :: 0 <= i < |found| ==> AtDistance(g, start, found[i], depths[i]))
    && (forall i, j :: 0 <= i < j < |found| ==> depths[i] <= depths[j] && found[i] != found[j])
  }

  // Everything a found node below the limit leads to is found or waiting.
  ghost predicate Expanded(g: Graph, found: seq<string>, depths: seq<nat>, queue: Queue, maxDepth: int) {
    |found| == |depths| &&
    forall i, y :: 0 <= i < |found| && depths[i] < maxDepth && Follows(g, found[i], y) ==>
      y in found || Pending(queue, y, depths[i] + 1)
  }

  ghost predicate QueueSound(g: Graph, start: string, queue: Queue, maxDepth: int) {
    forall i :: 0 <= i < |queue| ==>
      queue[i].0 in Within(g, start, queue[i].1) && queue[i].1 <= maxDepth && queue[i].0 in g.successors
  }

  ghost predicate Searching(g: Graph, start: string, found: seq<string>, depths: seq<nat>, queue: Queue, maxDepth: int) {
    && Exact(g, start, found, depths) && Expanded(g, found, depths, queue, maxDepth)
    && Layered(queue) && QueueSound(g, start, queue, maxDepth)
    && (start in found || Pending(queue, start, 0))
    && (forall i :: 0 <= i < |depths| ==> depths[i] <= maxDepth && (queue != [] ==> depths[i] <= queue[0].1))
  }

  lemma ExactAt(g: Graph, start: string, found: seq<string>, depths: seq<nat>, i: nat)
    requires Exact(g, start, found, depths) && i < |found|
    ensures |found| == |depths| && AtDistance(g, start, found[i], depths[i])
  {
  }

  /** Once nothing nearer than d waits, everything nearer than d has been found. */
  lemma {:induction false} NearerIsFound(g: Graph, start: string, found: seq<string>, depths: seq<nat>, queue: Queue,
                                         maxDepth: int, d: nat, k: nat)
    requires Searching(g, start, found, depths, queue, maxDepth)
    requires k < d && k <= maxDepth && forall i :: 0 <= i < |queue| ==> queue[i].1 >= d
    ensures forall y :: y in Within(g, start, k) ==> y in found
  {
    hide Exact, Layered, QueueSound, Steps;
    if k == 0 {
      assert !Pending(queue, start, 0);
    } else {
      NearerIsFound(g, start, found, depths, queue, maxDepth, d, k - 1);
      forall y | y in Within(g, start, k)
        ensures y in found
      {
        if y !in Within(g, start, k - 1) {
          var x := StepFrom(g, Within(g, start, k - 1), y);
          var i :| 0 <= i < |found| && found[i] == x;
          ExactAt(g, start, found, depths, i);
          DepthAtMost(g, start, x, depths[i], k - 1);
        }
      }
    }
  }

  lemma DepthAtMost(g: Graph, start: string, x: string, d: nat, k: nat)
    requires AtDistance(g, start, x, d) && x in Within(g, start, k)
    ensures d <= k
  {
    if d > k {
      WithinGrows(g, start, k, d - 1);
    }
  }

  /** A node taken from the queue for the first time is found at its exact distance. */
  lemma FirstTakenIsExact(g: Graph, start: string, found: seq<string>, depths: seq<nat>, queue: Queue, maxDepth: int)
    requires Searching(g, start, found, depths, queue, maxDepth) && queue != [] && queue[0].0 !in found
    ensures AtDistance(g, start, queue[0].0, queue[0].1)
  {
    hide Within, Expanded;
    var (x, d) := queue[0];
    if d > 0 {
      NearerIsFound(g, start, found, depths, queue, maxDepth, d, d - 1);
    }
  }

  lemma SkipHead(g: Graph, start: string, found: seq<string>, depths: seq<nat>, queue: Queue, maxDepth: int)
    requires Searching(g, start, found, depths, queue, maxDepth) && queue != [] && queue[0].0 in found
    ensures Searching(g, start, found, depths, queue[1..], maxDepth)
  {
    hide Within, AtDistance;
    StillPending(queue, found);
  }

  // Dropping a found head leaves every other waiting node waiting.
  lemma StillPending(queue: Queue, found: seq<string>)
    requires queue != [] && queue[0].0 in found
    ensures forall y, d: nat :: Pending(queue, y, d) ==> y in found || Pending(queue[1..], y, d)
  {
    forall y, d: nat | Pending(queue, y, d)
      ensures y in found || Pending(queue[1..], y, d)
    {
      var i :| 0 <= i < |queue| && queue[i].0 == y && queue[i].1 <= d;
      assert i > 0 ==> queue[1..][i - 1] == queue[i];
    }
  }

  // The successors to visit next, one level deeper.
  function NextLevel(successors: seq<string>, n: nat, found: seq<string>, d: nat): Queue
    requires n <= |successors|
  {
    if n == 0 then [] else
      NextLevel(successors, n - 1, found, d) + (if successors[n - 1] !in found then [(successors[n - 1], d)] else [])
  }

  lemma {:induction false} NextLevelMeaning(successors: seq<string>, n: nat, found: seq<string>, d: nat)
    requires n <= |successors|
    ensures var more := NextLevel(successors, n, found, d);
      && (forall i :: 0 <= i < |more| ==> more[i].1 == d && more[i].0 in successors)
      && (forall j :: 0 <= j < n ==> successors[j] in found || Pending(more, successors[j], d))
  {
    if n > 0 {
      NextLevelMeaning(successors, n - 1, found, d);
      var earlier := NextLevel(successors, n - 1, found, d);
      var more := NextLevel(successors, n, found, d);
      forall j | 0 <= j < n
        ensures successors[j] in found || Pending(more, successors[j], d)
      {
        if successors[j] !in found {
          if j < n - 1 {
            PendingLonger(earlier, more[|earlier|..], successors[j], d);
            assert more == earlier + more[|earlier|..];
          } else {
            assert more[|earlier|] == (successors[j], d);
          }
        }
      }
    }
  }

  lemma PendingLonger(a: Queue, b: Queue, y: string, d: nat)
    ensures Pending(a, y, d) || Pending(b, y, d) ==> Pending(a + b, y, d)
  {
    if Pending(a, y, d) {
      var i :| 0 <= i < |a| && a[i].0 == y && a[i].1 <= d;
      assert (a + b)[i] == a[i];
    } else if Pending(b, y, d) {
      var i :| 0 <= i < |b| && b[i].0 == y && b[i].1 <= d;
      assert (a + b)[|a| + i] == b[i];
    }
  }

  function Deeper(g: Graph, x: string, d: nat, found: seq<string>, maxDepth: int): Queue {
    if d < maxDepth && x in g.successors then NextLevel(g.successors[x], |g.successors[x]|, found, d + 1) else []
  }

  lemma DeeperMeaning(g: Graph, x: string, d: nat, found: seq<string>, maxDepth: int)
    ensures var more := Deeper(g, x, d, found, maxDepth);
      && (forall i :: 0 <= i < |more| ==> more[i].1 == d + 1 <= maxDepth && Follows(g, x, more[i].0))
      && (forall y :: d < maxDepth && Follows(g, x, y) ==> y in found || Pending(more, y, d + 1))
  {
    if d < maxDepth && x in g.successors {
      var successors := g.successors[x];
      NextLevelMeaning(successors, |successors|, found, d + 1);
      var more := NextLevel(successors, |successors|, found, d + 1);
      assert Deeper(g, x, d, found, maxDepth) == more;
      forall y | Follows(g, x, y)
        ensures y in found || Pending(more, y, d + 1)
      {
        var j :| 0 <= j < |successors| && successors[j] == y;
      }
    }
  }

  lemma VisitExpanded(g: Graph, start: string, found: seq<string>, depths: seq<nat>, queue: Queue, maxDepth: int)
    requires Searching(g, start, found, depths, queue, maxDepth) && queue != []
    ensures var (x, d) := queue[0];
      Expanded(g, found + [x], depths + [d], queue[1..] + Deeper(g, x, d, found + [x], maxDepth), maxDepth)
  {
    hide Within, AtDistance, NextLevel, Exact, Layered, QueueSound;
    var (x, d) := queue[0];
    var more := Deeper(g, x, d, found + [x], maxDepth);
    var all, levels := found + [x], depths + [d];
    DeeperMeaning(g, x, d, all, maxDepth);
    StillPending(queue, all);
    forall i, y | 0 <= i < |all| && levels[i] < maxDepth && Follows(g, all[i], y)
      ensures y in all || Pending(queue[1..] + more, y, levels[i] + 1)
    {
      PendingLonger(queue[1..], more, y, levels[i] + 1);
      if i < |found| {
        assert y in found || Pending(queue, y, depths[i] + 1);
      }
    }
  }

  lemma VisitQueue(g: Graph, start: string, found: seq<string>, depths: seq<nat>, queue: Queue, maxDepth: int)
    requires Searching(g, start, found, depths, queue, maxDepth) && queue != [] && WellFormed(g)
    ensures var (x, d) := queue[0];
      var next := queue[1..] + Deeper(g, x, d, found + [x], maxDepth);
      Layered(next) && QueueSound(g, start, next, maxDepth) && forall i :: 0 <= i < |next| ==> next[i].1 >= d
  {
    hide Within, AtDistance, NextLevel, Exact, Expanded;
    var (x, d) := queue[0];
    var more := Deeper(g, x, d, found + [x], maxDepth);
    DeeperMeaning(g, x, d, found + [x], maxDepth);
    forall i | 0 <= i < |more|
      ensures more[i].0 in Within(g, start, more[i].1) && more[i].0 in g.successors && more[i].1 <= maxDepth && more[i].1 == d + 1
    {
      WithinStep(g, start, d, x, more[i].0);
    }
  }

  lemma VisitHead(g: Graph, start: string, found: seq<string>, depths: seq<nat>, queue: Queue, maxDepth: int)
    requires Searching(g, start, found, depths, queue, maxDepth) && queue != [] && queue[0].0 !in found && WellFormed(g)
    ensures var (x, d) := queue[0];
      Searching(g, start, found + [x], depths + [d], queue[1..] + Deeper(g, x, d, found + [x], maxDepth), maxDepth)
  {
    hide Within, AtDistance, Deeper, Expanded, Layered;
    var (x, d) := queue[0];
    FirstTakenIsExact(g, start, found, depths, queue, maxDepth);
    VisitExpanded(g, start, found, depths, queue, maxDepth);
    VisitQueue(g, start, found, depths, queue, maxDepth);
    assert forall i :: 0 <= i < |found| ==> found[i] in found;
    assert start in found + [x] || Pending(queue[1..] + Deeper(g, x, d, found + [x], maxDepth), start, 0) by {
      StillPending(queue, found + [x]);
      PendingLonger(queue[1..], Deeper(g, x, d, found + [x], maxDepth), start, 0);
    }
  }

  function Unseen(g: Graph, found: seq<string>): nat {
    |g.successors.Keys - set x | x in found|
  }

  lemma FewerUnseen(g: Graph, found: seq<string>, x: string)
    requires x in g.successors && x !in found
    ensures Unseen(g, found + [x]) < Unseen(g, found)
  {
    var before, after := set y | y in found, set y | y in found + [x];
    assert after == before + {x};
    assert g.successors.Keys - before == (g.successors.Keys - after) + {x};
  }

  /** What the search returns: the nodes within the limit, each once and nearest first, and exactly the filter-passing
      out-edges of those below the limit, whatever the filter; the filter does not stop the search at a node. */
  ghost predicate IsTraversal(g: Graph, start: string, maxDepth: int, filter: seq<string>, found: seq<string>,
                              depths: seq<nat>, edges: seq<Edge>) {
    && Exact(g, start, found, depths)
    && (forall x :: x in found <==> maxDepth >= 0 && x in Within(g, start, maxDepth))
    && edges == EdgesFound(g, found, depths, |found|, maxDepth, filter)
  }

  lemma SearchDone(g: Graph, start: string, found: seq<string>, depths: seq<nat>, maxDepth: int)
    requires Searching(g, start, found, depths, [], maxDepth) && maxDepth >= 0
    ensures forall x :: x in found <==> x in Within(g, start, maxDepth)
  {
    hide Within;
    NearerIsFound(g, start, found, depths, [], maxDepth, maxDepth + 1, maxDepth);
    forall x | x in found
      ensures x in Within(g, start, maxDepth)
    {
      var i :| 0 <= i < |found| && found[i] == x;
      WithinGrows(g, start, depths[i], maxDepth);
    }
  }

  // The loop's state; below a limit of zero the start itself is already too deep.
  ghost predicate State(g: Graph, start: string, found: seq<string>, depths: seq<nat>, queue: Queue, edges: seq<Edge>,
                        maxDepth: int, filter: seq<string>) {
    && |found| == |depths|
    && edges == EdgesFound(g, found, depths, |found|, maxDepth, filter)
    && (maxDepth >= 0 ==> Searching(g, start, found, depths, queue, maxDepth))
    && (maxDepth < 0 ==> found == [])
  }

  lemma StateStarts(g: Graph, start: string, maxDepth: int, filter: seq<string>)
    requires start in g.successors
    ensures State(g, start, [], [], [(start, 0)], [], maxDepth, filter)
  {
    assert [(start, 0)][0] == (start, 0);
  }

  lemma StateSkips(g: Graph, start: string, found: seq<string>, depths: seq<nat>, queue: Queue, edges: seq<Edge>,
                   maxDepth: int, filter: seq<string>)
    requires State(g, start, found, depths, queue, edges, maxDepth, filter) && queue != []
    requires queue[0].0 in found || queue[0].1 > maxDepth
    ensures State(g, start, found, depths, queue[1..], edges, maxDepth, filter)
  {
    hide Exact, Expanded, Layered, EdgesFound;
    if maxDepth >= 0 {
      SkipHead(g, start, found, depths, queue, maxDepth);
    }
  }

  lemma StateVisits(g: Graph, start: string, found: seq<string>, depths: seq<nat>, queue: Queue, edges: seq<Edge>,
                    maxDepth: int, filter: seq<string>)
    requires State(g, start, found, depths, queue, edges, maxDepth, filter) && queue != [] && WellFormed(g)
    requires queue[0].0 !in found && queue[0].1 <= maxDepth
    ensures var (x, d) := queue[0];
      && x in g.successors && Unseen(g, found + [x]) < Unseen(g, found)
      && State(g, start, found + [x], depths + [d], queue[1..] + Deeper(g, x, d, found + [x], maxDepth),
               edges + (if d < maxDepth then OutEdges(g, x, filter) else []), maxDepth, filter)
  {
    hide Exact, Expanded, Layered, Deeper, OutEdges, Unseen;
    var (x, d) := queue[0];
    VisitHead(g, start, found, depths, queue, maxDepth);
    FewerUnseen(g, found, x);
    EdgesFoundExtends(g, found, depths, x, d, |found|, maxDepth, filter);
  }

  lemma StateDone(g: Graph, start: string, found: seq<string>, depths: seq<nat>, edges: seq<Edge>,
                  maxDepth: int, filter: seq<string>)
    requires State(g, start, found, depths, [], edges, maxDepth, filter)
    ensures IsTraversal(g, start, maxDepth, filter, found, depths, edges)
  {
    hide Within, Expanded, EdgesFound;
    if maxDepth >= 0 {
      SearchDone(g, start, found, depths, maxDepth);
    }
  }

  method Traverse(g: Graph, start: string, maxDepth: int, filter: seq<string>)
    returns (foundNodes: seq<string>, foundEdges: seq<Edge>, ghost depths: seq<nat>)
    requires forall x, y :: x in g.successors && y in g.successors[x] ==> y in g.successors
    ensures start !in g.successors ==> foundNodes == [] && foundEdges == []
    ensures start in g.successors ==> IsTraversal(g, start, maxDepth, filter, foundNodes, depths, foundEdges)
    ensures start in g.successors ==> |depths| == |foundNodes|
    ensures start in g.successors ==> foundEdges == EdgesFound(g, foundNodes, depths, |foundNodes|, maxDepth, filter)
  {
    hide AtDistance, EdgesFound;
    foundNodes, foundEdges, depths := Search(g, start, maxDepth, filter);
  }

  method Search(g: Graph, start: string, maxDepth: int, filter: seq<string>)
    returns (foundNodes: seq<string>, foundEdges: seq<Edge>, ghost depths: seq<nat>)
    requires WellFormed(g)
    ensures start !in g.successors ==> foundNodes == [] && foundEdges == []
    ensures start in g.successors ==> IsTraversal(g, start, maxDepth, filter, foundNodes, depths, foundEdges)
  {
    hide *;
    foundNodes, foundEdges, depths := [], [], [];
    if start !in g.successors {
      return;
    }
    var queue: Queue := [(start, 0)];
    StateStarts(g, start, maxDepth, filter);
    while queue != []
      invariant State(g, start, foundNodes, depths, queue, foundEdges, maxDepth, filter)
      decreases Unseen(g, foundNodes), |queue|
    {
      var (node, depth) := queue[0];
      if node in foundNodes || depth > maxDepth {
        StateSkips(g, start, foundNodes, depths, queue, foundEdges, maxDepth, filter);
        queue := queue[1..];
        continue;
      }
      StateVisits(g, start, foundNodes, depths, queue, foundEdges, maxDepth, filter);
      foundNodes, depths := foundNodes + [node], depths + [depth];
      var edges, next := ExpandNode(g, node, depth, foundNodes, maxDepth, filter);
      foundEdges := foundEdges + edges;
      queue := queue[1..] + next;
    }
    StateDone(g, start, foundNodes, depths, foundEdges, maxDepth, filter);
  }

  method ExpandNode(g: Graph, node: string, depth: nat, visited: seq<string>, maxDepth: int, filter: seq<string>)
    returns (edges: seq<Edge>, next: Queue)
    requires node in g.successors
    ensures edges == if depth < maxDepth then OutEdges(g, node, filter) else []
    ensures next == Deeper(g, node, depth, visited, maxDepth)
  {
    edges, next := [], [];
    if depth < maxDepth {
      var successors := g.successors[node];
      for n := 0 to |successors|
        invariant edges == EdgesFrom(g, node, n, filter)
        invariant next == NextLevel(successors, n, visited, depth + 1)
      {
        var between := EdgesBetween(g, node, successors[n]);
        var passing: seq<Edge> := [];
        for k := 0 to |between|
          invariant passing == Passing(filter, between[..k])
        {
          assert between[..k + 1][..k] == between[..k];
          if Passes(filter, between[k]) {
            passing := passing + [between[k]];
          }
        }
        assert between[..|between|] == between;
        edges := edges + passing;
        if successors[n] !in visited {
          next := next + [(successors[n], depth + 1)];
        }
      }
    }
  }

  // ---------------------------------------------------------------- what the filter does

  lemma {:induction false} PassingConcat(filter: seq<string>, a: seq<Edge>, b: seq<Edge>)
    ensures Passing(filter, a + b) == Passing(filter, a) + Passing(filter, b)
  {
    if b == [] {
      assert a + b == a;
    } else {
      assert (a + b)[..|a + b| - 1] == a + b[..|b| - 1];
      PassingConcat(filter, a, b[..|b| - 1]);
    }
  }

  lemma {:induction false} PassingAll(edges: seq<Edge>)
    ensures Passing([], edges) == edges
  {
    if edges != [] {
      PassingAll(edges[..|edges| - 1]);
    }
  }

  lemma {:induction false} FilterEdgesFrom(g: Graph, x: string, n: nat, filter: seq<string>)
    requires x in g.successors && n <= |g.successors[x]|
    ensures EdgesFrom(g, x, n, filter) == Passing(filter, EdgesFrom(g, x, n, []))
  {
    if n > 0 {
      FilterEdgesFrom(g, x, n - 1, filter);
      var last := EdgesBetween(g, x, g.successors[x][n - 1]);
      PassingAll(last);
      PassingConcat(filter, EdgesFrom(g, x, n - 1, []), last);
    }
  }

  /** The relation filter only drops edges: the edges of a filtered search are those of the unfiltered one that pass, in
      the same order. */
  lemma {:induction false} FilterOnlyDropsEdges(g: Graph, found: seq<string>, depths: seq<nat>, n: nat, maxDepth: int,
                                                filter: seq<string>)
    requires n <= |found| == |depths|
    ensures EdgesFound(g, found, depths, n, maxDepth, filter) ==
            Passing(filter, EdgesFound(g, found, depths, n, maxDepth, []))
  {
    hide OutEdges, Passing;
    PassingNone(filter);
    if n > 0 {
      FilterOnlyDropsEdges(g, found, depths, n - 1, maxDepth, filter);
      FilterOutEdges(g, found[n - 1], filter);
      PassingConcat(filter, EdgesFound(g, found, depths, n - 1, maxDepth, []),
                    if depths[n - 1] < maxDepth then OutEdges(g, found[n - 1], []) else []);
    }
  }

  lemma PassingNone(filter: seq<string>)
    ensures Passing(filter, []) == []
  {
  }

  lemma FilterOutEdges(g: Graph, x: string, filter: seq<string>)
    ensures OutEdges(g, x, filter) == Passing(filter, OutEdges(g, x, []))
  {
    hide Passing, EdgesFrom;
    PassingNone(filter);
    if x in g.successors {
      FilterEdgesFrom(g, x, |g.successors[x]|, filter);
    }
  }

  /** Two searches from one start with one limit reach the same nodes, whatever their filters. */
  lemma FilterDoesNotLimitNodes(g: Graph, start: string, maxDepth: int, f1: seq<string>, f2: seq<string>,
                                n1: seq<string>, d1: seq<nat>, e1: seq<Edge>, n2: seq<string>, d2: seq<nat>, e2: seq<Edge>)
    requires IsTraversal(g, start, maxDepth, f1, n1, d1, e1) && IsTraversal(g, start, maxDepth, f2, n2, d2, e2)
    ensures multiset(n1) == multiset(n2)
  {
    hide EdgesFound, Within;
    forall x
      ensures multiset(n1)[x] == multiset(n2)[x]
    {
      OnceEach(n1, x);
      OnceEach(n2, x);
    }
  }

  lemma {:induction false} OnceEach(s: seq<string>, x: string)
    requires forall i, j :: 0 <= i < j < |s| ==> s[i] != s[j]
    ensures multiset(s)[x] == if x in s then 1 else 0
  {
    if s != [] {
      var front := s[..|s| - 1];
      OnceEach(front, x);
      assert s == front + [s[|s| - 1]];
      assert forall i :: 0 <= i < |front| ==> front[i] == s[i] != s[|s| - 1];
    }
  }

  // ---------------------------------------------------------------- what a traversal is

  /** The nodes of a search: those some path of at most `maxDepth` edges leads to, each once, nearest first. */
  lemma TraversalNodes(g: Graph, start: string, maxDepth: int, filter: seq<string>, found: seq<string>, depths: seq<nat>,
                       edges: seq<Edge>, x: string)
    requires IsTraversal(g, start, maxDepth, filter, found, depths, edges)
    ensures |found| == |depths| && forall i, j :: 0 <= i < j < |found| ==> depths[i] <= depths[j] && found[i] != found[j]
    ensures x in found <==> exists p: seq<string> ::
      && 0 < |p| <= maxDepth + 1 && p[0] == start && p[|p| - 1] == x
      && forall i :: 0 <= i < |p| - 1 ==> p[i] in g.successors && p[i + 1] in g.successors[p[i]]
  {
    hide EdgesFound, Within;
    if x in found {
      var p := PathWithin(g, start, maxDepth, x);
      PathMeans(g, p, start, x);
    }
    if p: seq<string> :|
      && 0 < |p| <= maxDepth + 1 && p[0] == start && p[|p| - 1] == x
      && forall i :: 0 <= i < |p| - 1 ==> p[i] in g.successors && p[i + 1] in g.successors[p[i]] {
      assert IsPath(g, p, start, x);
      PathReaches(g, p, start, x);
      WithinGrows(g, start, |p| - 1, maxDepth);
    }
  }

  /** The depth found with a node is the length of a shortest path to it. */
  lemma TraversalDepths(g: Graph, start: string, maxDepth: int, filter: seq<string>, found: seq<string>, depths: seq<nat>,
                        edges: seq<Edge>, n: nat, p: seq<string>) returns (q: seq<string>)
    requires IsTraversal(g, start, maxDepth, filter, found, depths, edges) && n < |found| == |depths|
    requires p != [] && p[0] == start && p[|p| - 1] == found[n]
    requires forall i :: 0 <= i < |p| - 1 ==> p[i] in g.successors && p[i + 1] in g.successors[p[i]]
    ensures |p| - 1 >= depths[n]
    ensures |q| == depths[n] + 1 && q[0] == start && q[|q| - 1] == found[n]
    ensures forall i :: 0 <= i < |q| - 1 ==> q[i] in g.successors && q[i + 1] in g.successors[q[i]]
  {
    hide EdgesFound, Within;
    ExactAt(g, start, found, depths, n);
    assert IsPath(g, p, start, found[n]);
    PathReaches(g, p, start, found[n]);
    DepthAtMost(g, start, found[n], depths[n], |p| - 1);
    q := PathWithin(g, start, depths[n], found[n]);
    if |q| - 1 < depths[n] {
      PathReaches(g, q, start, found[n]);
      DepthAtMost(g, start, found[n], depths[n], |q| - 1);
    }
    PathMeans(g, q, start, found[n]);
  }

  lemma PathMeans(g: Graph, p: seq<string>, start: string, x: string)
    requires IsPath(g, p, start, x)
    ensures forall i :: 0 <= i < |p| - 1 ==> p[i] in g.successors && p[i + 1] in g.successors[p[i]]
  {
    forall i | 0 <= i < |p| - 1
      ensures p[i] in g.successors && p[i + 1] in g.successors[p[i]]
    {
      assert Follows(g, p[i], p[i + 1]);
    }
  }

  /** The edges of a search, node by node and successor by successor: an edge passes when there is no filter, when it has no
      relation type, or when the filter names its type; nodes at the limit add none. */
  lemma TraversalEdges(g: Graph, found: seq<string>, depths: seq<nat>, n: nat, maxDepth: int, filter: seq<string>, x: string,
                       k: nat, e: Edge)
    requires n < |found| == |depths| && x in g.successors && k < |g.successors[x]|
    ensures EdgesFound(g, found, depths, 0, maxDepth, filter) == [] && EdgesFrom(g, x, 0, filter) == []
    ensures EdgesFound(g, found, depths, n + 1, maxDepth, filter) == EdgesFound(g, found, depths, n, maxDepth, filter) +
      if depths[n] < maxDepth && found[n] in g.successors then EdgesFrom(g, found[n], |g.successors[found[n]]|, filter) else []
    ensures EdgesFrom(g, x, k + 1, filter) == EdgesFrom(g, x, k, filter) +
      Passing(filter, if (x, g.successors[x][k]) in g.edges then g.edges[(x, g.successors[x][k])] else [])
    ensures Passing(filter, [e]) == if filter == [] || e.relation == "" || e.relation in filter then [e] else []
  {
    assert [e][..0] == [];
  }
}
