/** The disconnected islands of src/bilinc/core/blind_spots.py: a flood fill that follows every link both ways. */
module Islands {
  import opened KeyOrder

  type Adjacency = map<string, set<string>>

  function Targets(adjacency: Adjacency, x: string): set<string> {
    if x in adjacency then adjacency[x] else {}
  }

  function Sources(adjacency: Adjacency, x: string): set<string> {
    set src | src in adjacency && x in adjacency[src]
  }

  /** An edge in either direction. */
  predicate Linked(adjacency: Adjacency, x: string, y: string) {
    y in Targets(adjacency, x) || x in Targets(adjacency, y)
  }

  ghost predicate IsPath(adjacency: Adjacency, p: seq<string>) {
    p != [] && forall i :: 0 <= i < |p| - 1 ==> Linked(adjacency, p[i], p[i + 1])
  }

  ghost predicate Joins(adjacency: Adjacency, p: seq<string>, x: string, y: string) {
    IsPath(adjacency, p) && p[0] == x && p[|p| - 1] == y
  }

  /** Weakly connected. */
  ghost predicate Connected(adjacency: Adjacency, x: string, y: string) {
    exists p :: Joins(adjacency, p, x, y)
  }

  ghost predicate Closed(adjacency: Adjacency, s: set<string>) {
    forall x, y :: x in s && Linked(adjacency, x, y) ==> y in s
  }

  ghost predicate IsComponentOf(adjacency: Adjacency, s: set<string>, x: string) {
    forall y :: y in s <==> Connected(adjacency, x, y)
  }

  /** Connected: a path leads from the one to the other, each step an edge one way or the other. */
  lemma ConnectedMeans(adjacency: Adjacency, x: string, y: string)
    ensures Connected(adjacency, x, y) <==>
      exists p: seq<string> :: |p| > 0 && p[0] == x && p[|p| - 1] == y && forall i :: 0 <= i < |p| - 1 ==>
        || (p[i] in adjacency && p[i + 1] in adjacency[p[i]])
        || (p[i + 1] in adjacency && p[i] in adjacency[p[i + 1]])
  {
    if Connected(adjacency, x, y) {
      var p :| Joins(adjacency, p, x, y);
      forall i | 0 <= i < |p| - 1
        ensures || (p[i] in adjacency && p[i + 1] in adjacency[p[i]])
                || (p[i + 1] in adjacency && p[i] in adjacency[p[i + 1]])
      {
        assert Linked(adjacency, p[i], p[i + 1]);
      }
    }
    if p: seq<string> :| |p| > 0 && p[0] == x && p[|p| - 1] == y && forall i :: 0 <= i < |p| - 1 ==>
      || (p[i] in adjacency && p[i + 1] in adjacency[p[i]])
      || (p[i + 1] in adjacency && p[i] in adjacency[p[i + 1]]) {
      assert Joins(adjacency, p, x, y);
    }
  }

  lemma ConnectedSelf(adjacency: Adjacency, x: string)
    ensures Connected(adjacency, x, x)
  {
    assert Joins(adjacency, [x], x, x);
  }

  lemma ConnectedStep(adjacency: Adjacency, x: string, y: string, z: string)
    requires Connected(adjacency, x, y) && Linked(adjacency, y, z)
    ensures Connected(adjacency, x, z)
  {
    hide Linked;
    var p :| Joins(adjacency, p, x, y);
    assert Joins(adjacency, p + [z], x, z);
  }

  lemma {:induction false} ClosedHoldsPath(adjacency: Adjacency, s: set<string>, p: seq<string>, x: string, y: string)
    requires Closed(adjacency, s) && Joins(adjacency, p, x, y) && x in s
    ensures y in s
  {
    hide Linked;
    if |p| > 1 {
      var q := p[..|p| - 1];
      assert Joins(adjacency, q, x, q[|q| - 1]);
      ClosedHoldsPath(adjacency, s, q, x, q[|q| - 1]);
      assert Linked(adjacency, p[|p| - 2], p[|p| - 1]);
    }
  }

  /** A closed set of nodes connected to one of its members is that member's component. */
  lemma ClosedIsComponent(adjacency: Adjacency, s: set<string>, x: string)
    requires Closed(adjacency, s) && x in s && forall y :: y in s ==> Connected(adjacency, x, y)
    ensures IsComponentOf(adjacency, s, x)
  {
    forall y | Connected(adjacency, x, y)
      ensures y in s
    {
      var p :| Joins(adjacency, p, x, y);
      ClosedHoldsPath(adjacency, s, p, x, y);
    }
  }

  /** Every node the fill can meet: targets outside the node list included. */
  function Universe(adjacency: Adjacency, nodes: seq<string>): set<string> {
    (set n | n in nodes) + (set x, y | x in adjacency && y in adjacency[x] :: y) + adjacency.Keys
  }

  // The fill of one island in progress, within what the earlier islands left.
  ghost predicate Filling(adjacency: Adjacency, universe: set<string>, before: set<string>, node: string,
                          visited: set<string>, island: set<string>, queue: seq<string>) {
    && visited == before + island && before !! island && visited <= universe
    && (node in island || node in queue)
    && (forall q :: q in queue ==> q in universe)
    && (forall x :: x in island || x in queue ==> Connected(adjacency, node, x))
    && (forall x, y :: x in island && Linked(adjacency, x, y) ==> y in visited || y in queue)
  }

  lemma SkipVisited(adjacency: Adjacency, universe: set<string>, before: set<string>, node: string,
                    visited: set<string>, island: set<string>, queue: seq<string>)
    requires Filling(adjacency, universe, before, node, visited, island, queue)
    requires queue != [] && queue[0] in visited && node !in before
    ensures Filling(adjacency, universe, before, node, visited, island, queue[1..])
  {
    hide Linked, Connected;
    assert forall q :: q in queue ==> q == queue[0] || q in queue[1..];
  }

  lemma VisitNext(adjacency: Adjacency, universe: set<string>, before: set<string>, node: string,
                  visited: set<string>, island: set<string>, queue: seq<string>, more: seq<string>)
    requires Filling(adjacency, universe, before, node, visited, island, queue)
    requires queue != [] && queue[0] !in visited
    requires forall y :: y in more ==> Linked(adjacency, queue[0], y) && y in universe
    requires forall y :: Linked(adjacency, queue[0], y) ==> y in visited + {queue[0]} || y in more
    ensures Filling(adjacency, universe, before, node, visited + {queue[0]}, island + {queue[0]}, queue[1..] + more)
  {
    hide Linked, Connected;
    var cur := queue[0];
    assert cur in queue;
    assert forall q :: q in queue ==> q == cur || q in queue[1..];
    var rest := queue[1..] + more;
    forall x | x in island + {cur} || x in rest
      ensures Connected(adjacency, node, x)
    {
      if x in more {
        ConnectedStep(adjacency, node, cur, x);
      } else {
        assert x in island || x in queue;
      }
    }
    forall x, y | x in island + {cur} && Linked(adjacency, x, y)
      ensures y in visited + {cur} || y in rest
    {
    }
  }

  lemma FilledIsComponent(adjacency: Adjacency, universe: set<string>, before: set<string>, node: string,
                          visited: set<string>, island: set<string>)
    requires Filling(adjacency, universe, before, node, visited, island, []) && Closed(adjacency, before)
    ensures IsComponentOf(adjacency, island, node) && Closed(adjacency, visited)
    ensures node in island && island !! before && visited == before + island && visited <= universe
  {
    hide Connected;
    forall x, y | x in island && Linked(adjacency, x, y)
      ensures y in island
    {
      assert Linked(adjacency, y, x);
    }
    ClosedIsComponent(adjacency, island, node);
  }

  // The two inner loops: targets first, then every node that points here; a node may be in both.
  function Unvisited(adjacency: Adjacency, visited: set<string>, x: string): seq<string> {
    Arrange(Targets(adjacency, x) - visited) + Arrange(Sources(adjacency, x) - visited)
  }

  lemma UnvisitedNeighbours(adjacency: Adjacency, nodes: seq<string>, visited: set<string>, x: string)
    ensures forall y :: y in Unvisited(adjacency, visited, x) ==> Linked(adjacency, x, y) && y in Universe(adjacency, nodes)
    ensures forall y :: Linked(adjacency, x, y) ==> y in visited || y in Unvisited(adjacency, visited, x)
  {
    var targets, sources := Arrange(Targets(adjacency, x) - visited), Arrange(Sources(adjacency, x) - visited);
    assert forall y :: y in targets + sources <==> y in targets || y in sources;
  }

  lemma QueuedInUniverse(adjacency: Adjacency, universe: set<string>, before: set<string>, node: string,
                         visited: set<string>, island: set<string>, queue: seq<string>)
    requires Filling(adjacency, universe, before, node, visited, island, queue) && queue != []
    ensures queue[0] in universe
  {
    hide Linked, Connected;
    assert queue[0] in queue;
  }

  lemma FillStarts(adjacency: Adjacency, nodes: seq<string>, before: set<string>, node: string)
    requires node in nodes && before <= Universe(adjacency, nodes) && Connected(adjacency, node, node)
    ensures Filling(adjacency, Universe(adjacency, nodes), before, node, before, {}, [node])
  {
    hide Linked, Connected;
  }

  lemma VisitTurn(adjacency: Adjacency, nodes: seq<string>, before: set<string>, node: string,
                  visited: set<string>, island: set<string>, queue: seq<string>)
    requires Filling(adjacency, Universe(adjacency, nodes), before, node, visited, island, queue)
    requires queue != [] && queue[0] !in visited
    ensures var cur := queue[0];
      && Filling(adjacency, Universe(adjacency, nodes), before, node, visited + {cur}, island + {cur},
                 queue[1..] + Unvisited(adjacency, visited + {cur}, cur))
      && Unseen(Universe(adjacency, nodes), visited + {cur}) < Unseen(Universe(adjacency, nodes), visited)
  {
    hide Linked, Universe, Unvisited, Filling;
    var cur := queue[0];
    QueuedInUniverse(adjacency, Universe(adjacency, nodes), before, node, visited, island, queue);
    UnvisitedNeighbours(adjacency, nodes, visited + {cur}, cur);
    VisitNext(adjacency, Universe(adjacency, nodes), before, node, visited, island, queue,
              Unvisited(adjacency, visited + {cur}, cur));
    FewerLeft(Universe(adjacency, nodes), visited, cur);
  }

  /** Floods one island from a node nobody visited yet. Nodes may be queued many times; each turn visits a new node or
      shortens the queue. */
  method FillIsland(adjacency: Adjacency, nodes: seq<string>, before: set<string>, node: string) returns (island: set<string>)
    requires node in nodes && node !in before && Closed(adjacency, before) && before <= Universe(adjacency, nodes)
    ensures IsComponentOf(adjacency, island, node) && node in island && island !! before
    ensures Closed(adjacency, before + island) && before + island <= Universe(adjacency, nodes)
  {
    hide Linked, Connected, Closed, Filling, Universe, Unvisited, IsComponentOf, Unseen;
    ghost var universe := Universe(adjacency, nodes);
    var visited := before;
    island := {};
    var queue := [node];
    ConnectedSelf(adjacency, node);
    FillStarts(adjacency, nodes, before, node);
    while queue != []
      invariant Filling(adjacency, universe, before, node, visited, island, queue)
      decreases Unseen(universe, visited), |queue|
    {
      var cur := queue[0];
      if cur in visited {
        SkipVisited(adjacency, universe, before, node, visited, island, queue);
        queue := queue[1..];
        continue;
      }
      var more := Unvisited(adjacency, visited + {cur}, cur);
      VisitTurn(adjacency, nodes, before, node, visited, island, queue);
      visited := visited + {cur};
      island := island + {cur};
      queue := queue[1..] + more;
    }
    assert queue == [];
    FilledIsComponent(adjacency, universe, before, node, visited, island);
  }

  function Unseen(universe: set<string>, visited: set<string>): nat {
    |universe - visited|
  }

  lemma FewerLeft(universe: set<string>, visited: set<string>, x: string)
    requires x in universe && x !in visited
    ensures Unseen(universe, visited + {x}) < Unseen(universe, visited)
  {
    assert universe - visited == (universe - (visited + {x})) + {x};
  }

  ghost predicate Holds(islands: seq<set<string>>, x: string) {
    exists i :: 0 <= i < |islands| && x in islands[i]
  }

  ghost predicate Disjoint(islands: seq<set<string>>) {
    forall i, j :: 0 <= i < j < |islands| ==> islands[i] !! islands[j]
  }

  ghost predicate IsIsland(adjacency: Adjacency, nodes: seq<string>, island: set<string>) {
    exists n :: n in nodes && n in island && IsComponentOf(adjacency, island, n)
  }

  // The islands found so far are exactly what was visited.
  ghost predicate Split(islands: seq<set<string>>, visited: set<string>) {
    Disjoint(islands) && forall x :: x in visited <==> Holds(islands, x)
  }

  lemma NothingSplit(adjacency: Adjacency)
    ensures Closed(adjacency, {}) && Split([], {})
  {
  }

  lemma SplitMeans(islands: seq<set<string>>, visited: set<string>)
    requires Split(islands, visited)
    ensures Disjoint(islands) && forall x :: x in visited ==> Holds(islands, x)
  {
  }

  lemma SplitMore(islands: seq<set<string>>, visited: set<string>, island: set<string>)
    requires Split(islands, visited) && island !! visited
    ensures Split(islands + [island], visited + island)
  {
    var more := islands + [island];
    assert more[|islands|] == island && forall i :: 0 <= i < |islands| ==> more[i] == islands[i];
    forall x
      ensures x in visited + island <==> Holds(more, x)
    {
      if x in visited {
        var i :| 0 <= i < |islands| && x in islands[i];
        assert x in more[i];
      }
      if Holds(more, x) && x !in island {
        var i :| 0 <= i < |more| && x in more[i];
        assert x in islands[i];
      }
    }
    forall i, j | 0 <= i < j < |more|
      ensures more[i] !! more[j]
    {
      forall x | x in more[i]
        ensures x !in more[j]
      {
        assert Holds(islands, x);
      }
    }
  }

  /** The islands are pairwise disjoint, cover every listed node, and each is exactly the weakly connected component of
      one of them. */
  method FindIslands(adjacency: Adjacency, nodes: seq<string>) returns (islands: seq<set<string>>)
    ensures forall i, j :: 0 <= i < j < |islands| ==> islands[i] !! islands[j]
    ensures forall n :: n in nodes ==> exists i :: 0 <= i < |islands| && n in islands[i]
    ensures forall i :: 0 <= i < |islands| ==> islands[i] * Elements(nodes) != {}
    ensures forall i, n, m :: 0 <= i < |islands| && n in islands[i] ==> (m in islands[i] <==> Connected(adjacency, n, m))
  {
    hide Connected, IsIsland;
    islands := SplitIslands(adjacency, nodes);
    forall i | 0 <= i < |islands|
      ensures islands[i] * Elements(nodes) != {}
    {
      IslandHasNode(adjacency, nodes, islands[i]);
    }
    forall i, n, m | 0 <= i < |islands| && n in islands[i]
      ensures m in islands[i] <==> Connected(adjacency, n, m)
    {
      IslandIsComponent(adjacency, nodes, islands[i], n);
    }
    forall n | n in nodes
      ensures exists i :: 0 <= i < |islands| && n in islands[i]
    {
      assert Holds(islands, n);
    }
  }

  lemma IslandHasNode(adjacency: Adjacency, nodes: seq<string>, island: set<string>)
    requires IsIsland(adjacency, nodes, island)
    ensures island * Elements(nodes) != {}
  {
    var n :| n in nodes && n in island && IsComponentOf(adjacency, island, n);
    assert n in island * Elements(nodes);
  }

  lemma IslandIsComponent(adjacency: Adjacency, nodes: seq<string>, island: set<string>, m: string)
    requires IsIsland(adjacency, nodes, island) && m in island
    ensures forall y :: y in island <==> Connected(adjacency, m, y)
  {
    hide Connected;
    var n :| n in nodes && n in island && IsComponentOf(adjacency, island, n);
    IslandIsComponentOfItsNodes(adjacency, island, n, m);
  }

  method SplitIslands(adjacency: Adjacency, nodes: seq<string>) returns (islands: seq<set<string>>)
    ensures Disjoint(islands)
    ensures forall n :: n in nodes ==> Holds(islands, n)
    ensures forall i :: 0 <= i < |islands| ==> IsIsland(adjacency, nodes, islands[i])
  {
    hide Linked, Closed, IsComponentOf, Split, Universe;
    var visited: set<string> := {};
    islands := [];
    NothingSplit(adjacency);
    for k := 0 to |nodes|
      invariant Closed(adjacency, visited) && visited <= Universe(adjacency, nodes)
      invariant Split(islands, visited)
      invariant forall i :: 0 <= i < |islands| ==> IsIsland(adjacency, nodes, islands[i])
      invariant forall j :: 0 <= j < k ==> nodes[j] in visited
    {
      if nodes[k] !in visited {
        var island := FillIsland(adjacency, nodes, visited, nodes[k]);
        assert IsIsland(adjacency, nodes, island);
        SplitMore(islands, visited, island);
        visited := visited + island;
        islands := islands + [island];
      }
    }
    SplitMeans(islands, visited);
  }

  /** Islands are the same however the sets were enumerated: every node's island is its own component. */
  lemma IslandIsComponentOfItsNodes(adjacency: Adjacency, island: set<string>, n: string, m: string)
    requires m in island && forall y :: y in island <==> Connected(adjacency, n, y)
    ensures forall y :: y in island <==> Connected(adjacency, m, y)
  {
    hide Linked;
    ConnectedBack(adjacency, n, m);
    forall y
      ensures y in island <==> Connected(adjacency, m, y)
    {
      if y in island {
        ConnectedThrough(adjacency, m, n, y);
      }
      if Connected(adjacency, m, y) {
        ConnectedThrough(adjacency, n, m, y);
      }
    }
  }

  lemma ConnectedThrough(adjacency: Adjacency, x: string, y: string, z: string)
    requires Connected(adjacency, x, y) && Connected(adjacency, y, z)
    ensures Connected(adjacency, x, z)
  {
    hide Linked;
    var p :| Joins(adjacency, p, x, y);
    var q :| Joins(adjacency, q, y, z);
    assert Joins(adjacency, p + q[1..], x, z);
  }

  lemma ConnectedBack(adjacency: Adjacency, x: string, y: string)
    requires Connected(adjacency, x, y)
    ensures Connected(adjacency, y, x)
  {
    var p :| Joins(adjacency, p, x, y);
    var q := seq(|p|, i requires 0 <= i < |p| => p[|p| - 1 - i]);
    forall i | 0 <= i < |q| - 1
      ensures Linked(adjacency, q[i], q[i + 1])
    {
      assert Linked(adjacency, p[|p| - 2 - i], p[|p| - 1 - i]);
    }
    assert Joins(adjacency, q, y, x);
  }
}
