/** The three entity indices, the relation index and the nodes of src/bilinc/core/knowledge_graph.py. */
module KnowledgeGraph {
  import opened Wrappers
  import opened KeyOrder

  datatype NodeKind = EntityNode | FactNode | EventNode | SkillNode

  datatype Node = Node(kind: NodeKind, properties: map<string, string>)

  datatype EdgeKind = RelatedTo | Causes | Contradicts | Supports | TemporalBefore

  datatype Edge = Edge(source: string, target: string, kind: EdgeKind, crossMemory: bool)

  type EdgeKey = (string, string, EdgeKind)

  // ---------------------------------------------------------------- indices that default to the empty set

  type Index = map<string, set<string>>

  function Get(index: Index, k: string): set<string> {
    if k in index then index[k] else {}
  }

  function Put(index: Index, k: string, member: string): Index {
    index[k := Get(index, k) + {member}]
  }

  // `index.get(k, set()).discard(member)`
  function Discard(index: Index, k: string, member: string): Index {
    if k in index then index[k := index[k] - {member}] else index
  }

  /** The entity index and the memory index are inverse relations. */
  ghost predicate Inverse(byEntity: Index, byMemory: Index) {
    forall e, m :: m in Get(byEntity, e) <==> e in Get(byMemory, m)
  }

  // Some entity that folds to this name is linked to the memory.
  ghost predicate NamedBy(fold: string -> string, byEntity: Index, name: string, m: string) {
    exists e :: m in Get(byEntity, e) && fold(e) == name
  }

  /** The case-insensitive index holds a memory under a folded name exactly when some entity of that name does. */
  ghost predicate Folded(fold: string -> string, byEntity: Index, byName: Index) {
    forall name, m :: m in Get(byName, name) <==> NamedBy(fold, byEntity, name, m)
  }

  // ---------------------------------------------------------------- edges

  function KeyOf(e: Edge): EdgeKey {
    (e.source, e.target, e.kind)
  }

  function OfKey(edges: seq<Edge>, k: EdgeKey): seq<Edge> {
    if edges == [] then [] else
      var last := edges[|edges| - 1];
      OfKey(edges[..|edges| - 1], k) + (if KeyOf(last) == k then [last] else [])
  }

  type RelationIndex = map<EdgeKey, seq<Edge>>

  function GetEdges(relations: RelationIndex, k: EdgeKey): seq<Edge> {
    if k in relations then relations[k] else []
  }

  /** The relation index lists, under each key, just the edges of that key in order. */
  ghost predicate Grouped(edges: seq<Edge>, relations: RelationIndex) {
    forall k :: GetEdges(relations, k) == OfKey(edges, k)
  }

  lemma GroupedMore(edges: seq<Edge>, relations: RelationIndex, e: Edge)
    requires Grouped(edges, relations)
    ensures Grouped(edges + [e], relations[KeyOf(e) := GetEdges(relations, KeyOf(e)) + [e]])
  {
    assert (edges + [e])[..|edges|] == edges;
    forall k
      ensures GetEdges(relations[KeyOf(e) := GetEdges(relations, KeyOf(e)) + [e]], k) == OfKey(edges + [e], k)
    {
      assert GetEdges(relations, k) == OfKey(edges, k);
      assert OfKey(edges, k) + [] == OfKey(edges, k);
    }
  }

  function Untouched(edges: seq<Edge>, gone: set<string>): seq<Edge> {
    if edges == [] then [] else
      var last := edges[|edges| - 1];
      Untouched(edges[..|edges| - 1], gone) + (if last.source !in gone && last.target !in gone then [last] else [])
  }

  lemma {:induction false} UntouchedMeaning(edges: seq<Edge>, gone: set<string>)
    ensures forall e :: e in Untouched(edges, gone) <==> e in edges && e.source !in gone && e.target !in gone
  {
    if edges != [] {
      UntouchedMeaning(edges[..|edges| - 1], gone);
      assert edges == edges[..|edges| - 1] + [edges[|edges| - 1]];
    }
  }

  // ---------------------------------------------------------------- set-level steps

  // Adding one entity-memory link to all three indices keeps them in step.
  lemma LinkKeepsIndices(fold: string -> string, byEntity: Index, byName: Index, byMemory: Index, e: string, m: string)
    requires Inverse(byEntity, byMemory) && Folded(fold, byEntity, byName)
    ensures Inverse(Put(byEntity, e, m), Put(byMemory, m, e))
    ensures Folded(fold, Put(byEntity, e, m), Put(byName, fold(e), m))
  {
    var after := Put(byEntity, e, m);
    assert m in Get(after, e);
    assert forall x, y :: y in Get(after, x) <==> y in Get(byEntity, x) || (x == e && y == m);
    assert forall x, y :: x in Get(Put(byMemory, m, e), y) <==> x in Get(byMemory, y) || (x == e && y == m);
    forall name, y
      ensures y in Get(Put(byName, fold(e), m), name) <==> NamedBy(fold, after, name, y)
    {
      assert NamedBy(fold, byEntity, name, y) ==> NamedBy(fold, after, name, y);
    }
  }

  // No link of this entity is left.
  lemma UnlinkEntity(byEntity: Index, byMemory: Index, after: Index, name: string)
    requires Inverse(byEntity, byMemory) && Without(byMemory, after, {name})
    ensures Inverse(byEntity - {name}, after)
  {
    assert forall e :: Get(byEntity - {name}, e) == if e == name then {} else Get(byEntity, e);
  }

  // The same links except for these members.
  ghost predicate Without(before: Index, after: Index, gone: set<string>) {
    forall m :: Get(after, m) == Get(before, m) - gone
  }

  // The same links, and these more under one key.
  ghost predicate Gained(before: Index, after: Index, k: string, more: set<string>) {
    forall m :: Get(after, m) == if m == k then Get(before, m) + more else Get(before, m)
  }

  // The member is gone under these keys.
  ghost predicate DiscardedUnder(before: Index, after: Index, keys: set<string>, member: string) {
    forall m :: Get(after, m) == if m in keys then Get(before, m) - {member} else Get(before, m)
  }

  lemma NothingGained(index: Index, k: string)
    ensures Gained(index, index, k, {})
  {
  }

  lemma NothingGone(index: Index)
    ensures Without(index, index, {})
  {
  }

  lemma NothingDiscarded(index: Index, member: string)
    ensures DiscardedUnder(index, index, {}, member)
  {
  }

  lemma GainedStep(before: Index, now: Index, k: string, more: set<string>, e: string)
    requires Gained(before, now, k, more)
    ensures Gained(before, Put(now, k, e), k, more + {e})
  {
    forall m
      ensures Get(Put(now, k, e), m) == if m == k then Get(before, m) + (more + {e}) else Get(before, m)
    {
      assert Get(now, m) == if m == k then Get(before, m) + more else Get(before, m);
    }
  }

  lemma DiscardedStep(before: Index, now: Index, keys: set<string>, k: string, member: string)
    requires DiscardedUnder(before, now, keys, member)
    ensures DiscardedUnder(before, Discard(now, k, member), keys + {k}, member)
  {
    forall m
      ensures Get(Discard(now, k, member), m) == if m in keys + {k} then Get(before, m) - {member} else Get(before, m)
    {
      assert Get(now, m) == if m in keys then Get(before, m) - {member} else Get(before, m);
    }
  }

  lemma WithoutTwice(a: Index, b: Index, c: Index, s: set<string>, t: set<string>)
    requires Without(a, b, s) && Without(b, c, t)
    ensures Without(a, c, s + t)
  {
    forall m
      ensures Get(c, m) == Get(a, m) - (s + t)
    {
      assert Get(c, m) == Get(b, m) - t && Get(b, m) == Get(a, m) - s;
    }
  }

  lemma MinusTwice<T>(m: map<string, T>, s: set<string>, x: string)
    ensures m - s - {x} == m - (s + {x})
  {
  }

  // ---------------------------------------------------------------- the graph

  class KnowledgeGraph {
    var nodes: map<string, Node>
    var edges: seq<Edge>
    var relationIndex: RelationIndex
    var entityToMemories: Index
    var normalizedEntityToMemories: Index
    var memoryToEntities: Index
    const fold: string -> string
    const maxLinksPerEntity: nat
    const maxLinksPerEntry: nat

    constructor (fold: string -> string, maxLinksPerEntity: nat, maxLinksPerEntry: nat)
      ensures Valid() && nodes == map[] && edges == [] && memoryToEntities == map[]
      ensures this.fold == fold && this.maxLinksPerEntity == maxLinksPerEntity && this.maxLinksPerEntry == maxLinksPerEntry
    {
      nodes, edges, relationIndex := map[], [], map[];
      entityToMemories, normalizedEntityToMemories, memoryToEntities := map[], map[], map[];
      this.fold, this.maxLinksPerEntity, this.maxLinksPerEntry := fold, maxLinksPerEntity, maxLinksPerEntry;
    }

    ghost predicate Valid()
      reads this
    {
      && Inverse(entityToMemories, memoryToEntities)
      && Folded(fold, entityToMemories, normalizedEntityToMemories)
      && Grouped(edges, relationIndex)
    }

    // ---------------- queries

    /** The memories linked to an entity, in any letter case, sorted and cut at the limit. */
    method QueryMemoriesByEntity(entity: string, limit: int) returns (found: seq<string>)
      requires Valid()
      ensures entity == "" ==> found == []
      ensures entity != "" ==> exists all: set<string> ::
        && (forall m :: m in all <==> NamedBy(fold, entityToMemories, fold(entity), m))
        && found == FirstOf(Sort(all), limit)
    {
      if entity == "" {
        return [];
      }
      var all := Get(normalizedEntityToMemories, fold(entity));
      var sorted := SortKeys(all);
      found := FirstOf(sorted, limit);
    }

    method MemoryEntities(memoryKey: string) returns (entities: seq<string>)
      requires Valid()
      ensures entities == if memoryKey == "" then [] else Sort(Get(memoryToEntities, memoryKey))
      ensures memoryKey != "" ==> forall e :: e in entities <==> memoryKey in Get(entityToMemories, e)
    {
      if memoryKey == "" {
        return [];
      }
      entities := SortKeys(Get(memoryToEntities, memoryKey));
    }

    // ---------------- rebuilding

    method RebuildNormalizedEntityIndex()
      modifies `normalizedEntityToMemories
      ensures Folded(fold, entityToMemories, normalizedEntityToMemories)
    {
      hide Folded;
      normalizedEntityToMemories := map[];
      var entities := Arrange(entityToMemories.Keys);
      NothingFolded(fold, entityToMemories);
      for i := 0 to |entities|
        invariant Folded(fold, entityToMemories - Elements(entities[i..]), normalizedEntityToMemories)
      {
        var e := entities[i];
        assert e in entities;
        FoldNext(fold, entityToMemories, normalizedEntityToMemories, entities, i);
        normalizedEntityToMemories := normalizedEntityToMemories[fold(e) := Get(normalizedEntityToMemories, fold(e)) + entityToMemories[e]];
      }
      assert entityToMemories - Elements(entities[|entities|..]) == entityToMemories;
    }

    method RebuildRelationIndex()
      modifies `relationIndex
      ensures Grouped(edges, relationIndex)
    {
      relationIndex := map[];
      for i := 0 to |edges|
        invariant Grouped(edges[..i], relationIndex)
      {
        GroupedMore(edges[..i], relationIndex, edges[i]);
        assert edges[..i + 1] == edges[..i] + [edges[i]];
        relationIndex := relationIndex[KeyOf(edges[i]) := GetEdges(relationIndex, KeyOf(edges[i])) + [edges[i]]];
      }
      assert edges[..|edges|] == edges;
    }

    // ---------------- changing

    method HasRelation(source: string, target: string, kind: EdgeKind, crossMemory: bool) returns (found: bool)
      requires Valid()
      ensures found <==> Edge(source, target, kind, crossMemory) in edges || (!crossMemory && Edge(source, target, kind, true) in edges)
    {
      var same := GetEdges(relationIndex, (source, target, kind));
      OfKeyMeaning(edges, (source, target, kind));
      found := exists i :: 0 <= i < |same| && (same[i].crossMemory || !crossMemory);
      assert forall e :: e in same <==> e in edges && (e == Edge(source, target, kind, true) || e == Edge(source, target, kind, false));
      assert found <==> exists e :: e in same && (e.crossMemory || !crossMemory);
    }

    method AddEntity(name: string, kind: NodeKind, properties: map<string, string>)
      modifies `nodes
      ensures nodes == old(nodes)[name := if name in old(nodes) then old(nodes)[name].(properties := old(nodes)[name].properties + properties)
                                          else Node(kind, properties)]
    {
      if name in nodes {
        nodes := nodes[name := nodes[name].(properties := nodes[name].properties + properties)];
      } else {
        nodes := nodes[name := Node(kind, properties)];
      }
    }

    method AddRelation(source: string, target: string, kind: EdgeKind, crossMemory: bool)
      requires Valid()
      modifies `nodes, `edges, `relationIndex
      ensures Valid() && edges == old(edges) + [Edge(source, target, kind, crossMemory)]
      ensures old(nodes).Keys + {source, target} == nodes.Keys && KeptIn(old(nodes), nodes)
      ensures forall x :: x in nodes && x !in old(nodes) ==> nodes[x] == Node(EntityNode, map[])
    {
      if source !in nodes {
        AddEntity(source, EntityNode, map[]);
      }
      if target !in nodes {
        AddEntity(target, EntityNode, map[]);
      }
      var edge := Edge(source, target, kind, crossMemory);
      GroupedMore(edges, relationIndex, edge);
      edges := edges + [edge];
      relationIndex := relationIndex[KeyOf(edge) := GetEdges(relationIndex, KeyOf(edge)) + [edge]];
    }

    /** Links a memory to its entities; links it already had stay. */
    method IndexMemoryEntities(memoryKey: string, entities: set<string>)
      requires Valid()
      modifies `entityToMemories, `normalizedEntityToMemories, `memoryToEntities
      ensures Valid()
      ensures memoryKey != "" ==> Gained(old(memoryToEntities), memoryToEntities, memoryKey, entities)
      ensures memoryKey == "" ==> memoryToEntities == old(memoryToEntities)
    {
      if memoryKey == "" || entities == {} {
        return;
      }
      hide Inverse, Folded, Grouped, Gained, Put, Elements;
      var order := Arrange(entities);
      ArrangedElements(entities);
      NothingGained(memoryToEntities, memoryKey);
      for i := 0 to |order|
        invariant Valid()
        invariant Gained(old(memoryToEntities), memoryToEntities, memoryKey, Elements(order[..i]))
      {
        FrontElements(order, i);
        GainedStep(old(memoryToEntities), memoryToEntities, memoryKey, Elements(order[..i]), order[i]);
        AddLink(memoryKey, order[i]);
      }
    }

    method AddLink(memoryKey: string, entity: string)
      requires Valid()
      modifies `entityToMemories, `normalizedEntityToMemories, `memoryToEntities
      ensures Valid() && memoryToEntities == Put(old(memoryToEntities), memoryKey, entity)
    {
      hide Inverse, Folded, Grouped, Put;
      LinkKeepsIndices(fold, entityToMemories, normalizedEntityToMemories, memoryToEntities, entity, memoryKey);
      memoryToEntities := Put(memoryToEntities, memoryKey, entity);
      entityToMemories := Put(entityToMemories, entity, memoryKey);
      normalizedEntityToMemories := Put(normalizedEntityToMemories, fold(entity), memoryKey);
    }

    // `for memory_key in self._entity_to_memories.pop(name, set()): ... .discard(name)`
    method UnlinkName(name: string)
      requires Inverse(entityToMemories, memoryToEntities)
      modifies `entityToMemories, `memoryToEntities
      ensures Inverse(entityToMemories, memoryToEntities)
      ensures entityToMemories == old(entityToMemories) - {name}
      ensures Without(old(memoryToEntities), memoryToEntities, {name})
    {
      hide Inverse, Without, DiscardedUnder, Get;
      var members := Get(entityToMemories, name);
      entityToMemories := entityToMemories - {name};
      memoryToEntities := DiscardAll(memoryToEntities, members, name);
      UnlinkedAll(old(entityToMemories), old(memoryToEntities), memoryToEntities, name);
      UnlinkEntity(old(entityToMemories), old(memoryToEntities), memoryToEntities, name);
    }

    // Pops the nodes and unlinks each as an entity.
    method PopNodes(gone: set<string>)
      requires Inverse(entityToMemories, memoryToEntities)
      modifies `nodes, `entityToMemories, `memoryToEntities
      ensures Inverse(entityToMemories, memoryToEntities)
      ensures nodes == old(nodes) - gone && entityToMemories == old(entityToMemories) - gone
      ensures Without(old(memoryToEntities), memoryToEntities, gone)
    {
      hide Inverse, Without, Elements;
      var present := Arrange(gone);
      ArrangedElements(gone);
      NothingGone(memoryToEntities);
      for i := 0 to |present|
        invariant Inverse(entityToMemories, memoryToEntities)
        invariant nodes == old(nodes) - Elements(present[..i])
        invariant entityToMemories == old(entityToMemories) - Elements(present[..i])
        invariant Without(old(memoryToEntities), memoryToEntities, Elements(present[..i]))
      {
        FrontElements(present, i);
        MinusTwice(old(nodes), Elements(present[..i]), present[i]);
        MinusTwice(old(entityToMemories), Elements(present[..i]), present[i]);
        ghost var before := memoryToEntities;
        nodes := nodes - {present[i]};
        UnlinkName(present[i]);
        WithoutTwice(old(memoryToEntities), before, memoryToEntities, Elements(present[..i]), {present[i]});
      }
    }

    /** Removes several nodes with their edges and their links as entities; rebuilds the other indices once. */
    method RemoveNodes(names: set<string>) returns (removed: bool)
      requires Inverse(entityToMemories, memoryToEntities) && Grouped(edges, relationIndex)
      modifies `nodes, `edges, `relationIndex, `entityToMemories, `normalizedEntityToMemories, `memoryToEntities
      ensures removed <==> names * old(nodes).Keys != {}
      ensures Inverse(entityToMemories, memoryToEntities) && Grouped(edges, relationIndex)
      ensures removed ==> Folded(fold, entityToMemories, normalizedEntityToMemories)
      ensures !removed ==> normalizedEntityToMemories == old(normalizedEntityToMemories)
      ensures nodes == old(nodes) - (names * old(nodes).Keys) && edges == Untouched(old(edges), names * old(nodes).Keys)
      ensures entityToMemories == old(entityToMemories) - (names * old(nodes).Keys)
      ensures Without(old(memoryToEntities), memoryToEntities, names * old(nodes).Keys)
    {
      hide Inverse, Without, Folded, Grouped, Untouched;
      var gone := names * nodes.Keys;
      if gone == {} {
        UntouchedNone(edges);
        NothingGone(memoryToEntities);
        return false;
      }
      PopNodes(gone);
      edges := Untouched(edges, gone);
      RebuildNormalizedEntityIndex();
      RebuildRelationIndex();
      removed := true;
    }

    // `mirrored` is what the networkx copy of the graph answers to `has_edge`.
    method RemoveRelation(source: string, target: string, kind: Option<EdgeKind>, mirrored: bool) returns (removed: bool)
      requires Valid()
      modifies `edges, `relationIndex
      ensures Valid() && removed == mirrored
      ensures edges == if removed then NotBetween(old(edges), source, target, kind) else old(edges)
    {
      if mirrored {
        edges := NotBetween(edges, source, target, kind);
        RebuildRelationIndex();
      }
      removed := mirrored;
    }

    // Links the memory to the first of those, never twice, and to no more than the cap.
    method LinkSharedMemories(memoryKey: string, shared: set<string>) returns (created: nat, linked: set<string>)
      requires Valid()
      modifies `nodes, `edges, `relationIndex
      ensures Valid() && |edges| == |old(edges)| + created && created <= maxLinksPerEntry && old(edges) <= edges
      ensures IsLinked(old(entityToMemories), shared, memoryKey, maxLinksPerEntity, maxLinksPerEntry, linked)
      ensures forall m :: m in FirstOf(Sort(linked), maxLinksPerEntry) ==> Edge(memoryKey, m, RelatedTo, true) in edges
      ensures forall i :: |old(edges)| <= i < |edges| ==>
        && edges[i] == Edge(memoryKey, edges[i].target, RelatedTo, true) && edges[i] !in edges[..i]
        && edges[i].target in FirstOf(Sort(linked), maxLinksPerEntry)
      ensures KeptIn(old(nodes), nodes)
      ensures nodes.Keys <= old(nodes).Keys + {memoryKey} + TargetsFrom(edges, |old(edges)|)
      ensures TargetsFrom(edges, |old(edges)|) <= nodes.Keys
      ensures forall x :: x in nodes && x !in old(nodes) ==> nodes[x] == Node(EntityNode, map[])
    {
      hide Inverse, Folded, Grouped, KeptIn, IsLinked, CrossLinked, CrossNodes;
      linked := SharedMemories(entityToMemories, memoryKey, shared, maxLinksPerEntity, maxLinksPerEntry);
      var order := SortKeys(linked);
      var targets := FirstOf(order, maxLinksPerEntry);
      created := 0;
      NoCrossLinks(nodes, edges, memoryKey, targets);
      for n := 0 to |targets|
        invariant Valid() && |edges| == |old(edges)| + created && created <= n
        invariant CrossLinked(old(edges), edges, memoryKey, targets, n)
        invariant CrossNodes(old(nodes), nodes, memoryKey, TargetsFrom(edges, |old(edges)|))
      {
        var known := HasRelation(memoryKey, targets[n], RelatedTo, true);
        CrossLinkNext(old(edges), edges, memoryKey, targets, n);
        if !known {
          ghost var before, was := edges, nodes;
          AddRelation(memoryKey, targets[n], RelatedTo, true);
          CrossNodeNext(old(nodes), was, nodes, memoryKey, before, |old(edges)|, targets[n]);
          created := created + 1;
        }
      }
      CrossLinksMean(old(nodes), nodes, old(edges), edges, memoryKey, targets);
    }

    /** Reads one memory into the graph: its node, its entities, links to memories that share one, and the entity index.
        Only semantic and episodic memories (`indexed`) are read; what is extracted from the text is given. A memory adds
        one edge to each candidate, one to each pair's key in order, and then the cross links. */
    method IngestMemoryEntry(indexed: bool, memoryKey: string, properties: map<string, string>, candidates: set<string>,
                             pairs: seq<(string, string)>)
      returns (entitiesCreated: nat, relationsCreated: nat, ghost linked: set<string>)
      requires Valid()
      modifies `nodes, `edges, `relationIndex, `entityToMemories, `normalizedEntityToMemories, `memoryToEntities
      ensures Valid() && |edges| == |old(edges)| + relationsCreated && old(edges) <= edges
      ensures !indexed ==> nodes == old(nodes) && entitiesCreated == 0
      ensures !indexed || memoryKey == "" ==> memoryToEntities == old(memoryToEntities) && edges == old(edges)
      ensures indexed ==> entitiesCreated == (if memoryKey == "" then 0 else 1) + |candidates| + |pairs|
      ensures indexed && memoryKey != "" ==>
        Gained(old(memoryToEntities), memoryToEntities, memoryKey, candidates + PairKeys(pairs))
      ensures indexed && memoryKey != "" ==>
        var n, c := |old(edges)|, |candidates|;
        var cross := n + c + |pairs|;
        && |old(edges)| + c + |pairs| <= |edges| <= cross + maxLinksPerEntry
        && (forall i :: 0 <= i < c ==> edges[n + i] == Edge(memoryKey, Arrange(candidates)[i], RelatedTo, false))
        && (forall i :: 0 <= i < |pairs| ==> edges[n + c + i] == Edge(memoryKey, pairs[i].0, Supports, false))
        && IsLinked(old(entityToMemories), candidates + PairKeys(pairs), memoryKey, maxLinksPerEntity, maxLinksPerEntry, linked)
        && (forall m :: m in FirstOf(Sort(linked), maxLinksPerEntry) ==> Edge(memoryKey, m, RelatedTo, true) in edges)
        && (forall i :: cross <= i < |edges| ==>
              && edges[i] == Edge(memoryKey, edges[i].target, RelatedTo, true) && edges[i] !in edges[..i]
              && edges[i].target in FirstOf(Sort(linked), maxLinksPerEntry))
      ensures indexed ==>
        nodes.Keys == old(nodes).Keys + (if memoryKey == "" then {} else {memoryKey}) + candidates + PairKeys(pairs) +
                      TargetsFrom(edges, |old(edges)|)
      ensures indexed ==> forall x :: x in nodes ==>
        nodes[x].kind == (if x in old(nodes) then old(nodes)[x].kind
                          else if memoryKey != "" && x == memoryKey then FactNode
                          else if x in candidates then EntityNode
                          else if x in PairKeys(pairs) then FactNode else EntityNode) &&
        nodes[x].properties == (if x in old(nodes) then old(nodes)[x].properties else map[]) +
                               (if memoryKey != "" && x == memoryKey then properties else map[]) + Noted(pairs, x)
    {
      entitiesCreated, relationsCreated, linked := 0, 0, {};
      if !indexed {
        return;
      }
      hide Inverse, Folded, Grouped, Gained, PairKeys, Noted, TargetsFrom, IsLinked, FirstOf;
      entitiesCreated, relationsCreated, linked := Ingest(memoryKey, properties, candidates, pairs);
    }

    method Ingest(memoryKey: string, properties: map<string, string>, candidates: set<string>, pairs: seq<(string, string)>)
      returns (entities: nat, relations: nat, ghost linked: set<string>)
      requires Valid()
      modifies `nodes, `edges, `relationIndex, `entityToMemories, `normalizedEntityToMemories, `memoryToEntities
      ensures Valid() && |edges| == |old(edges)| + relations && old(edges) <= edges
      ensures entities == (if memoryKey == "" then 0 else 1) + |candidates| + |pairs|
      ensures memoryKey == "" ==> memoryToEntities == old(memoryToEntities) && edges == old(edges)
      ensures memoryKey != "" ==>
        && Gained(old(memoryToEntities), memoryToEntities, memoryKey, candidates + PairKeys(pairs))
        && IngestedEdges(old(edges), edges, old(entityToMemories), memoryKey, candidates, pairs, maxLinksPerEntity, maxLinksPerEntry, linked)
      ensures IngestedAll(old(nodes), nodes, TargetsFrom(edges, |old(edges)|), memoryKey, properties, candidates, pairs)
    {
      hide Inverse, Folded, Grouped, Gained, PairKeys, IsLinked, KeptIn, Mentions, MentionEdges, IngestedEdges, IngestedAll,
           TargetsFrom, FirstOf;
      linked := {};
      entities, relations := IngestMentions(memoryKey, properties, candidates, pairs);
      ghost var mentioned, c := nodes, edges;
      if memoryKey == "" {
        NothingLinked(edges, memoryKey, candidates, pairs);
        KeptSame(nodes);
      } else {
        var created, sharing := LinkSharedMemories(memoryKey, candidates + PairKeys(pairs));
        linked := sharing;
        relations := relations + created;
        EdgesInSteps(old(edges), c, edges, entityToMemories, memoryKey, candidates, pairs, maxLinksPerEntity, maxLinksPerEntry, linked);
        IndexMemoryEntities(memoryKey, candidates + PairKeys(pairs));
      }
      NodesInSteps(old(nodes), mentioned, nodes, old(edges), c, edges, memoryKey, properties, candidates, pairs);
    }

    // The memory's node and what its text mentions.
    method IngestMentions(memoryKey: string, properties: map<string, string>, candidates: set<string>, pairs: seq<(string, string)>)
      returns (entities: nat, relations: nat)
      requires Valid()
      modifies `nodes, `edges, `relationIndex
      ensures Valid() && |edges| == |old(edges)| + relations
      ensures entities == (if memoryKey == "" then 0 else 1) + |candidates| + |pairs|
      ensures Mentions(old(nodes), nodes, memoryKey, properties, candidates, pairs)
      ensures MentionEdges(old(edges), edges, memoryKey, candidates, pairs)
    {
      hide Inverse, Folded, Grouped, WithCandidates, WithPairs, EdgesTo, Arrange, Firsts;
      entities, relations := 0, 0;
      if memoryKey != "" {
        AddEntity(memoryKey, FactNode, properties);
        entities := 1;
      }
      ghost var withKey := nodes;
      var e1, r1 := IngestCandidates(memoryKey, candidates);
      ghost var withCandidates, b := nodes, edges;
      CandidateNode(withKey, candidates, withCandidates, memoryKey);
      var e2, r2 := IngestPairs(memoryKey, pairs);
      entities, relations := entities + e1 + e2, r1 + r2;
      EdgesToMean(old(edges), b, memoryKey, Arrange(candidates), RelatedTo);
      EdgesToMean(b, edges, memoryKey, Firsts(pairs, |pairs|), Supports);
      FirstsMean(pairs);
    }

    method IngestCandidates(memoryKey: string, candidates: set<string>) returns (entities: nat, relations: nat)
      requires Valid() && (memoryKey == "" || memoryKey in nodes)
      modifies `nodes, `edges, `relationIndex
      ensures Valid() && entities == |candidates| && relations == if memoryKey == "" then 0 else |candidates|
      ensures EdgesTo(old(edges), edges, memoryKey, Arrange(candidates), RelatedTo)
      ensures WithCandidates(old(nodes), candidates, nodes)
    {
      hide Inverse, Folded, Grouped, Elements, WithCandidates, EdgesTo, Entered, Arrange;
      entities, relations := 0, 0;
      var order := Arrange(candidates);
      ArrangedElements(candidates);
      NoCandidates(nodes);
      NoEdgesTo(edges, memoryKey, RelatedTo);
      for i := 0 to |order|
        invariant Valid() && entities == i && relations == if memoryKey == "" then 0 else i
        invariant memoryKey == "" || memoryKey in nodes
        invariant EdgesTo(old(edges), edges, memoryKey, order[..i], RelatedTo)
        invariant WithCandidates(old(nodes), Elements(order[..i]), nodes)
      {
        FrontElements(order, i);
        CandidateNext(old(nodes), Elements(order[..i]), nodes, order[i]);
        EdgeToNext(old(edges), edges, memoryKey, order[..i], RelatedTo, order[i]);
        assert order[..i + 1] == order[..i] + [order[i]];
        var created := IngestEntity(memoryKey, order[i], EntityNode, map[], RelatedTo);
        entities, relations := entities + 1, relations + created;
      }
      assert order[..|order|] == order;
    }

    // One extracted entity, tied to the memory it was found in.
    method IngestEntity(memoryKey: string, name: string, kind: NodeKind, properties: map<string, string>, relation: EdgeKind)
      returns (relations: nat)
      requires Valid() && (memoryKey == "" || memoryKey in nodes)
      modifies `nodes, `edges, `relationIndex
      ensures Valid() && relations == if memoryKey == "" then 0 else 1
      ensures edges == old(edges) + if memoryKey == "" then [] else [Edge(memoryKey, name, relation, false)]
      ensures nodes == Entered(old(nodes), name, kind, properties)
    {
      hide Inverse, Folded, Grouped;
      AddEntity(name, kind, properties);
      relations := 0;
      if memoryKey != "" {
        AddRelation(memoryKey, name, relation, false);
        relations := 1;
      }
    }

    method IngestPairs(memoryKey: string, pairs: seq<(string, string)>) returns (entities: nat, relations: nat)
      requires Valid() && (memoryKey == "" || memoryKey in nodes)
      modifies `nodes, `edges, `relationIndex
      ensures Valid() && entities == |pairs| && relations == if memoryKey == "" then 0 else |pairs|
      ensures EdgesTo(old(edges), edges, memoryKey, Firsts(pairs, |pairs|), Supports)
      ensures WithPairs(old(nodes), pairs, nodes)
    {
      hide Inverse, Folded, Grouped, WithPairs, EdgesTo, Entered, Firsts;
      FirstsNone(pairs);
      entities, relations := 0, 0;
      assert pairs[..0] == [];
      WithNoPairs(nodes);
      NoEdgesTo(edges, memoryKey, Supports);
      for i := 0 to |pairs|
        invariant Valid() && entities == i && relations == if memoryKey == "" then 0 else i
        invariant memoryKey == "" || memoryKey in nodes
        invariant EdgesTo(old(edges), edges, memoryKey, Firsts(pairs, i), Supports)
        invariant WithPairs(old(nodes), pairs[..i], nodes)
      {
        PairNext(old(nodes), pairs, i, nodes);
        EdgeToNext(old(edges), edges, memoryKey, Firsts(pairs, i), Supports, pairs[i].0);
        FirstsNext(pairs, i);
        var created := IngestEntity(memoryKey, pairs[i].0, FactNode, map["value" := pairs[i].1], Supports);
        entities, relations := entities + 1, relations + created;
      }
      assert pairs[..|pairs|] == pairs;
    }

    /** Rebuilds everything from exported nodes and edges: a memory is linked to an entity exactly when an imported
        `related_to` edge leads from its fact node to the entity's node. */
    method ImportFromJson(newNodes: map<string, Node>, newEdges: seq<Edge>)
      modifies this
      ensures Valid() && nodes == newNodes && edges == newEdges
      ensures forall m, e :: e in Get(memoryToEntities, m) <==> exists edge :: edge in newEdges && LinksEntity(newNodes, edge, m, e)
    {
      nodes, edges := newNodes, newEdges;
      RebuildRelationIndex();
      entityToMemories, memoryToEntities := LinksOf(newNodes, newEdges);
      RebuildNormalizedEntityIndex();
      assert newEdges[..|newEdges|] == newEdges;
    }

    method RemoveEntity(name: string) returns (removed: bool)
      requires Valid()
      modifies `nodes, `edges, `relationIndex, `entityToMemories, `normalizedEntityToMemories, `memoryToEntities
      ensures Valid() && (removed <==> name in old(nodes))
      ensures nodes == old(nodes) - {name}
      ensures entityToMemories == if removed then old(entityToMemories) - {name} else old(entityToMemories)
      ensures edges == if removed then Untouched(old(edges), {name}) else old(edges)
      ensures Without(old(memoryToEntities), memoryToEntities, if removed then {name} else {})
    {
      hide Inverse, Without, Folded, Grouped, Untouched;
      if name !in nodes {
        NothingGone(memoryToEntities);
        return false;
      }
      nodes := nodes - {name};
      edges := Untouched(edges, {name});
      UnlinkName(name);
      RebuildNormalizedEntityIndex();
      RebuildRelationIndex();
      removed := true;
    }

    // Takes the memory out of every entity's set; entities left with no memory are dropped and reported.
    method DropMemory(memoryKey: string) returns (entities: set<string>, orphaned: set<string>)
      requires Inverse(entityToMemories, memoryToEntities)
      modifies `entityToMemories, `memoryToEntities
      ensures entities == Get(old(memoryToEntities), memoryKey) && memoryToEntities == old(memoryToEntities) - {memoryKey}
      ensures Without(old(entityToMemories), entityToMemories, {memoryKey})
      ensures Inverse(entityToMemories, memoryToEntities)
      ensures orphaned == Orphans(old(entityToMemories), entities, memoryKey)
      ensures entities == {} ==> entityToMemories == old(entityToMemories)
    {
      hide Inverse, Without, DiscardedUnder, Get, Orphans;
      entities := Get(memoryToEntities, memoryKey);
      memoryToEntities := memoryToEntities - {memoryKey};
      AllLinked(entityToMemories, old(memoryToEntities), memoryKey);
      entityToMemories, orphaned := DropAll(entityToMemories, entities, memoryKey);
      MemoryDropped(old(entityToMemories), old(memoryToEntities), entityToMemories, memoryKey);
    }

    /** Forgets a memory: its links go, and with them its node and the entities only its text named. A node that is
        itself a memory (it carries `created_at`) stays. Other memories keep all their entities, except the forgotten
        key itself when it had a node. */
    method ForgetMemory(memoryKey: string) returns (changed: bool)
      requires Valid()
      modifies `nodes, `edges, `relationIndex, `entityToMemories, `normalizedEntityToMemories, `memoryToEntities
      ensures Valid()
      ensures memoryKey == "" ==> !changed && nodes == old(nodes) && memoryToEntities == old(memoryToEntities)
      ensures memoryKey != "" ==>
        var gone := Doomed(old(nodes), old(entityToMemories), old(memoryToEntities), memoryKey);
        && nodes == old(nodes) - gone && edges == Untouched(old(edges), gone)
        && Without(old(memoryToEntities) - {memoryKey}, memoryToEntities, if memoryKey in old(nodes) then {memoryKey} else {})
        && (memoryKey in old(nodes) ==> memoryKey !in entityToMemories)
        && (changed <==> Get(old(memoryToEntities), memoryKey) != {} || memoryKey in old(nodes))
    {
      if memoryKey == "" {
        return false;
      }
      hide Inverse, Without, Folded, Grouped, Untouched, Get;
      var entities, orphaned := DropMemory(memoryKey);
      var doomed := {memoryKey} + set e | e in orphaned && e in nodes && "created_at" !in nodes[e].properties;
      DoomedMeaning(nodes, old(entityToMemories), old(memoryToEntities), memoryKey, entities, orphaned, doomed);
      ghost var linked, links := entityToMemories, memoryToEntities;
      var removed := RemoveNodes(doomed);
      if entities != {} && !removed {
        RebuildNormalizedEntityIndex();
      }
      assert entityToMemories - {} == entityToMemories;
      OnlyTheKeyGoes(old(entityToMemories), old(memoryToEntities), memoryKey, links, memoryToEntities, old(nodes));
      changed := entities != {} || removed;
    }
  }

  lemma {:induction false} OfKeyMeaning(edges: seq<Edge>, k: EdgeKey)
    ensures forall e :: e in OfKey(edges, k) <==> e in edges && KeyOf(e) == k
  {
    if edges != [] {
      OfKeyMeaning(edges[..|edges| - 1], k);
      assert edges == edges[..|edges| - 1] + [edges[|edges| - 1]];
    }
  }

  lemma {:induction false} OfKeyNone(edges: seq<Edge>, k: EdgeKey)
    requires forall e :: e in edges ==> KeyOf(e) != k
    ensures OfKey(edges, k) == []
  {
    if edges != [] {
      OfKeyNone(edges[..|edges| - 1], k);
      assert edges[|edges| - 1] in edges;
    }
  }

  function NotBetween(edges: seq<Edge>, source: string, target: string, kind: Option<EdgeKind>): seq<Edge> {
    if edges == [] then [] else
      var last := edges[|edges| - 1];
      NotBetween(edges[..|edges| - 1], source, target, kind) +
      (if last.source == source && last.target == target && (kind.None? || last.kind == kind.value) then [] else [last])
  }

  // The memories found under the first n of these entities, at most `perEntity` under each.
  ghost function SharedBy(byEntity: Index, order: seq<string>, n: nat, perEntity: nat): set<string>
    requires n <= |order|
  {
    set i, m | 0 <= i < n && m in FirstOf(Sort(Get(byEntity, order[i])), perEntity) :: m
  }

  function Size(s: set<string>): nat {
    |s|
  }

  lemma SharedByNext(byEntity: Index, order: seq<string>, n: nat, perEntity: nat)
    requires n < |order|
    ensures SharedBy(byEntity, order, n + 1, perEntity) ==
            SharedBy(byEntity, order, n, perEntity) + Elements(FirstOf(Sort(Get(byEntity, order[n])), perEntity))
  {
  }

  // The search went through the first n shared entities: all of them, or as many as it took to find enough.
  ghost predicate LinkedUpTo(byEntity: Index, shared: set<string>, memoryKey: string, perEntity: nat, perEntry: nat,
                             linked: set<string>, n: nat) {
    && n <= |shared| && linked == SharedBy(byEntity, Sort(shared), n, perEntity) - {memoryKey}
    && (n == |shared| || (n > 0 && Size(SharedBy(byEntity, Sort(shared), n, perEntity)) >= perEntry))
    && (forall k :: 0 < k < n ==> Size(SharedBy(byEntity, Sort(shared), k, perEntity)) < perEntry)
  }

  ghost predicate IsLinked(byEntity: Index, shared: set<string>, memoryKey: string, perEntity: nat, perEntry: nat,
                           linked: set<string>) {
    exists n: nat :: LinkedUpTo(byEntity, shared, memoryKey, perEntity, perEntry, linked, n)
  }

  // Memories that share an entity, at most `perEntity` from each, entity by entity until there are enough.
  method SharedMemories(byEntity: Index, memoryKey: string, shared: set<string>, perEntity: nat, perEntry: nat)
    returns (linked: set<string>)
    ensures IsLinked(byEntity, shared, memoryKey, perEntity, perEntry, linked)
  {
    hide SharedBy, FirstOf, Get, Size, Elements;
    var order := SortKeys(shared);
    SharedByNone(byEntity, order, perEntity);
    linked := {};
    ghost var n: nat := 0;
    for i := 0 to |order|
      invariant n == i && linked == SharedBy(byEntity, order, i, perEntity)
      invariant forall k :: 0 < k <= i ==> Size(SharedBy(byEntity, order, k, perEntity)) < perEntry
    {
      var members := SortKeys(Get(byEntity, order[i]));
      SharedByNext(byEntity, order, i, perEntity);
      linked := linked + Elements(FirstOf(members, perEntity));
      n := i + 1;
      if Size(linked) >= perEntry {
        break;
      }
    }
    linked := linked - {memoryKey};
    assert LinkedUpTo(byEntity, shared, memoryKey, perEntity, perEntry, linked, n);
  }

  lemma SharedByNone(byEntity: Index, order: seq<string>, perEntity: nat)
    ensures SharedBy(byEntity, order, 0, perEntity) == {}
  {
  }

  /** Where neither cap bites, the linked memories are exactly the others that share an entity. */
  lemma UncappedLinksAll(byEntity: Index, shared: set<string>, memoryKey: string, perEntity: nat, perEntry: nat, linked: set<string>)
    requires IsLinked(byEntity, shared, memoryKey, perEntity, perEntry, linked)
    requires forall e :: e in shared ==> |Get(byEntity, e)| <= perEntity
    requires Size(SharedBy(byEntity, Sort(shared), |shared|, perEntity)) < perEntry
    ensures forall m :: m in linked <==> m != memoryKey && exists e :: e in shared && m in Get(byEntity, e)
  {
    hide FirstOf;
    var n: nat :| LinkedUpTo(byEntity, shared, memoryKey, perEntity, perEntry, linked, n);
    var order := Sort(shared);
    if n < |shared| {
      FewerShare(byEntity, order, n, |order|, perEntity);
    }
    forall m
      ensures m in linked <==> m != memoryKey && exists e :: e in shared && m in Get(byEntity, e)
    {
      forall i | 0 <= i < |order|
        ensures m in FirstOf(Sort(Get(byEntity, order[i])), perEntity) <==> m in Get(byEntity, order[i])
      {
        assert order[i] in order;
        WholeList(Sort(Get(byEntity, order[i])), perEntity);
      }
      if exists e :: e in shared && m in Get(byEntity, e) {
        var e :| e in shared && m in Get(byEntity, e);
        assert e in order;
        var i :| 0 <= i < |order| && order[i] == e;
      }
    }
  }

  lemma FewerShare(byEntity: Index, order: seq<string>, n: nat, k: nat, perEntity: nat)
    requires n <= k <= |order|
    ensures Size(SharedBy(byEntity, order, n, perEntity)) <= Size(SharedBy(byEntity, order, k, perEntity))
  {
    SubsetSize(SharedBy(byEntity, order, n, perEntity), SharedBy(byEntity, order, k, perEntity));
  }

  lemma WholeList(s: seq<string>, limit: nat)
    requires |s| <= limit
    ensures FirstOf(s, limit) == s
  {
  }

  // The targets of the edges from position n on.
  function TargetsFrom(edges: seq<Edge>, n: nat): set<string> {
    set i | n <= i < |edges| :: edges[i].target
  }

  lemma NoTargets(edges: seq<Edge>)
    ensures TargetsFrom(edges, |edges|) == {}
  {
  }

  lemma OneMoreEdge(edges: seq<Edge>, e: Edge, n: nat)
    requires n <= |edges|
    ensures TargetsFrom(edges + [e], n) == TargetsFrom(edges, n) + {e.target}
  {
    var more := edges + [e];
    forall x | x in TargetsFrom(edges, n) + {e.target}
      ensures x in TargetsFrom(more, n)
    {
      if x == e.target {
        assert more[|edges|].target == x;
      } else {
        var i :| n <= i < |edges| && edges[i].target == x;
        assert more[i].target == x;
      }
    }
  }

  lemma KeptSame(nodes: map<string, Node>)
    ensures KeptIn(nodes, nodes)
  {
  }

  lemma KeptTwice(a: map<string, Node>, b: map<string, Node>, c: map<string, Node>)
    requires KeptIn(a, b) && KeptIn(b, c)
    ensures KeptIn(a, c)
  {
  }

  // A memory got one edge of this kind to each name, in order; without a key, none.
  ghost predicate EdgesTo(before: seq<Edge>, after: seq<Edge>, memoryKey: string, names: seq<string>, kind: EdgeKind) {
    if memoryKey == "" then after == before else
      && |after| == |before| + |names| && before <= after
      && forall j :: 0 <= j < |names| ==> after[|before| + j] == Edge(memoryKey, names[j], kind, false)
  }

  lemma NoEdgesTo(edges: seq<Edge>, memoryKey: string, kind: EdgeKind)
    ensures EdgesTo(edges, edges, memoryKey, [], kind)
  {
  }

  lemma EdgeToNext(before: seq<Edge>, now: seq<Edge>, memoryKey: string, names: seq<string>, kind: EdgeKind, name: string)
    requires EdgesTo(before, now, memoryKey, names, kind)
    ensures EdgesTo(before, now + (if memoryKey == "" then [] else [Edge(memoryKey, name, kind, false)]), memoryKey, names + [name], kind)
  {
    assert now + [] == now;
  }

  lemma EdgesToMean(before: seq<Edge>, after: seq<Edge>, memoryKey: string, names: seq<string>, kind: EdgeKind)
    requires EdgesTo(before, after, memoryKey, names, kind)
    ensures before <= after && |after| == |before| + (if memoryKey == "" then 0 else |names|)
    ensures memoryKey != "" ==>
      forall j :: 0 <= j < |names| ==> after[|before| + j] == Edge(memoryKey, names[j], kind, false)
  {
  }

  function Firsts(pairs: seq<(string, string)>, n: nat): seq<string>
    requires n <= |pairs|
  {
    seq(n, i requires 0 <= i < n => pairs[i].0)
  }

  lemma FirstsNone(pairs: seq<(string, string)>)
    ensures Firsts(pairs, 0) == []
  {
  }

  lemma FirstsNext(pairs: seq<(string, string)>, i: nat)
    requires i < |pairs|
    ensures Firsts(pairs, i + 1) == Firsts(pairs, i) + [pairs[i].0]
  {
  }

  // The first n targets are linked across, and only them, by new edges.
  ghost predicate CrossLinked(before: seq<Edge>, after: seq<Edge>, memoryKey: string, targets: seq<string>, n: nat) {
    && before <= after && n <= |targets|
    && (forall j :: 0 <= j < n ==> Edge(memoryKey, targets[j], RelatedTo, true) in after)
    && forall i :: |before| <= i < |after| ==>
         after[i] == Edge(memoryKey, after[i].target, RelatedTo, true) && after[i] !in after[..i] && after[i].target in targets
  }

  // New nodes are entities: the memory itself, if it was missing, and the targets.
  ghost predicate CrossNodes(before: map<string, Node>, after: map<string, Node>, memoryKey: string, targets: set<string>) {
    && KeptIn(before, after) && targets <= after.Keys <= before.Keys + {memoryKey} + targets
    && forall x :: x in after && x !in before ==> after[x] == Node(EntityNode, map[])
  }

  lemma NoCrossLinks(nodes: map<string, Node>, edges: seq<Edge>, memoryKey: string, targets: seq<string>)
    ensures CrossLinked(edges, edges, memoryKey, targets, 0)
    ensures CrossNodes(nodes, nodes, memoryKey, TargetsFrom(edges, |edges|))
  {
    NoTargets(edges);
  }

  lemma CrossLinkNext(before: seq<Edge>, now: seq<Edge>, memoryKey: string, targets: seq<string>, n: nat)
    requires CrossLinked(before, now, memoryKey, targets, n) && n < |targets|
    ensures var e := Edge(memoryKey, targets[n], RelatedTo, true);
      CrossLinked(before, if e in now then now else now + [e], memoryKey, targets, n + 1)
  {
    var e := Edge(memoryKey, targets[n], RelatedTo, true);
    if e !in now {
      var after := now + [e];
      assert forall i :: 0 <= i < |now| ==> after[i] == now[i] && after[..i] == now[..i];
      assert after[..|now|] == now;
    }
  }

  lemma CrossNodeNext(before: map<string, Node>, now: map<string, Node>, next: map<string, Node>, memoryKey: string,
                      edges: seq<Edge>, n: nat, target: string)
    requires n <= |edges| && CrossNodes(before, now, memoryKey, TargetsFrom(edges, n))
    requires next.Keys == now.Keys + {memoryKey, target} && KeptIn(now, next)
    requires forall x :: x in next && x !in now ==> next[x] == Node(EntityNode, map[])
    ensures CrossNodes(before, next, memoryKey, TargetsFrom(edges + [Edge(memoryKey, target, RelatedTo, true)], n))
  {
    hide TargetsFrom;
    OneMoreEdge(edges, Edge(memoryKey, target, RelatedTo, true), n);
    KeptTwice(before, now, next);
  }

  lemma CrossLinksMean(before: map<string, Node>, after: map<string, Node>, edges: seq<Edge>, now: seq<Edge>, memoryKey: string,
                       targets: seq<string>)
    requires CrossLinked(edges, now, memoryKey, targets, |targets|)
    requires CrossNodes(before, after, memoryKey, TargetsFrom(now, |edges|))
    ensures edges <= now && forall m :: m in targets ==> Edge(memoryKey, m, RelatedTo, true) in now
    ensures forall i :: |edges| <= i < |now| ==>
      now[i] == Edge(memoryKey, now[i].target, RelatedTo, true) && now[i] !in now[..i] && now[i].target in targets
    ensures KeptIn(before, after) && TargetsFrom(now, |edges|) <= after.Keys <= before.Keys + {memoryKey} + TargetsFrom(now, |edges|)
    ensures forall x :: x in after && x !in before ==> after[x] == Node(EntityNode, map[])
  {
    hide TargetsFrom, KeptIn;
  }

  // `add_entity`: a known node keeps its kind and takes the properties.
  function Entered(nodes: map<string, Node>, name: string, kind: NodeKind, properties: map<string, string>): map<string, Node> {
    nodes[name := if name in nodes then nodes[name].(properties := nodes[name].properties + properties) else Node(kind, properties)]
  }

  // The candidates are in as entities; nothing else changed.
  ghost predicate WithCandidates(before: map<string, Node>, candidates: set<string>, after: map<string, Node>) {
    && after.Keys == before.Keys + candidates
    && forall x :: x in after ==> after[x] == if x in before then before[x] else Node(EntityNode, map[])
  }

  lemma NoCandidates(nodes: map<string, Node>)
    ensures WithCandidates(nodes, {}, nodes)
  {
  }

  lemma CandidateNext(before: map<string, Node>, done: set<string>, now: map<string, Node>, x: string)
    requires WithCandidates(before, done, now)
    ensures WithCandidates(before, done + {x}, Entered(now, x, EntityNode, map[]))
    ensures now.Keys <= Entered(now, x, EntityNode, map[]).Keys
  {
    if x in now {
      assert now[x].properties + map[] == now[x].properties;
    }
  }

  /** What the pairs note on a node: the value of the last pair that names it. */
  function Noted(pairs: seq<(string, string)>, x: string): map<string, string> {
    if pairs == [] then map[]
    else if pairs[|pairs| - 1].0 == x then map["value" := pairs[|pairs| - 1].1]
    else Noted(pairs[..|pairs| - 1], x)
  }

  lemma {:induction false} NotedIsLast(pairs: seq<(string, string)>, x: string)
    ensures x !in PairKeys(pairs) ==> Noted(pairs, x) == map[]
    ensures forall j :: 0 <= j < |pairs| && pairs[j].0 == x && (forall k :: j < k < |pairs| ==> pairs[k].0 != x) ==>
      Noted(pairs, x) == map["value" := pairs[j].1]
  {
    if pairs != [] {
      NotedIsLast(pairs[..|pairs| - 1], x);
      assert pairs[|pairs| - 1] in pairs;
      assert forall p :: p in pairs[..|pairs| - 1] ==> p in pairs;
    }
  }

  // The pairs' keys are in as facts with their values; nothing else changed.
  ghost predicate WithPairs(before: map<string, Node>, pairs: seq<(string, string)>, after: map<string, Node>) {
    && after.Keys == before.Keys + PairKeys(pairs)
    && forall x :: x in after ==>
         after[x] == if x in before then before[x].(properties := before[x].properties + Noted(pairs, x))
                     else Node(FactNode, Noted(pairs, x))
  }

  lemma WithNoPairs(nodes: map<string, Node>)
    ensures WithPairs(nodes, [], nodes)
  {
    NoPairs();
    assert forall x :: x in nodes ==> nodes[x].properties + map[] == nodes[x].properties;
  }

  lemma PairNext(before: map<string, Node>, pairs: seq<(string, string)>, i: nat, now: map<string, Node>)
    requires i < |pairs| && WithPairs(before, pairs[..i], now)
    ensures WithPairs(before, pairs[..i + 1], Entered(now, pairs[i].0, FactNode, map["value" := pairs[i].1]))
    ensures now.Keys <= Entered(now, pairs[i].0, FactNode, map["value" := pairs[i].1]).Keys
  {
    var (k, v) := pairs[i];
    var after := Entered(now, k, FactNode, map["value" := v]);
    PairKeysNext(pairs, i);
    assert pairs[..i + 1][..i] == pairs[..i];
    forall x | x in after
      ensures after[x] == if x in before then before[x].(properties := before[x].properties + Noted(pairs[..i + 1], x))
                          else Node(FactNode, Noted(pairs[..i + 1], x))
    {
      if x == k {
        NotedTwice(if x in before then before[x].properties else map[], pairs[..i], x, v);
        NotedIsLast(pairs[..i], x);
      }
    }
  }

  lemma {:induction false} NotedTwice(properties: map<string, string>, pairs: seq<(string, string)>, x: string, v: string)
    ensures properties + Noted(pairs, x) + map["value" := v] == properties + map["value" := v]
    ensures Noted(pairs, x) + map["value" := v] == map["value" := v]
  {
    if pairs != [] {
      NotedTwice(properties, pairs[..|pairs| - 1], x, v);
    }
  }

  // The targets of an ingest: candidates, keys of pairs, and those of the cross links.
  lemma IngestedTargets(a: seq<Edge>, c: seq<Edge>, d: seq<Edge>, memoryKey: string, candidates: set<string>,
                        pairs: seq<(string, string)>)
    requires memoryKey != "" && c <= d && MentionEdges(a, c, memoryKey, candidates, pairs)
    ensures TargetsFrom(d, |a|) == candidates + PairKeys(pairs) + TargetsFrom(d, |c|)
  {
    hide Arrange, MentionEdges;
    MentionEdgesMean(a, c, memoryKey, candidates, pairs);
    forall x
      ensures x in TargetsFrom(d, |a|) <==> x in candidates + PairKeys(pairs) + TargetsFrom(d, |c|)
    {
      TargetIsIngested(a, c, d, memoryKey, candidates, pairs, x);
      IngestedIsTarget(a, c, d, memoryKey, candidates, pairs, x);
    }
  }

  lemma TargetIsIngested(a: seq<Edge>, c: seq<Edge>, d: seq<Edge>, memoryKey: string, candidates: set<string>,
                         pairs: seq<(string, string)>, x: string)
    requires memoryKey != "" && c <= d && MentionEdges(a, c, memoryKey, candidates, pairs)
    ensures x in TargetsFrom(d, |a|) ==> x in candidates || x in PairKeys(pairs) || x in TargetsFrom(d, |c|)
  {
    hide Arrange, MentionEdges;
    MentionEdgesMean(a, c, memoryKey, candidates, pairs);
    if x in TargetsFrom(d, |a|) {
      var i :| |a| <= i < |d| && d[i].target == x;
      if i < |a| + |candidates| {
        assert c[|a| + (i - |a|)] == d[i];
        assert Arrange(candidates)[i - |a|] in Arrange(candidates);
      } else if i < |c| {
        assert c[|a| + |candidates| + (i - |a| - |candidates|)] == d[i];
        assert pairs[i - |a| - |candidates|] in pairs;
      }
    }
  }

  lemma IngestedIsTarget(a: seq<Edge>, c: seq<Edge>, d: seq<Edge>, memoryKey: string, candidates: set<string>,
                         pairs: seq<(string, string)>, x: string)
    requires memoryKey != "" && c <= d && MentionEdges(a, c, memoryKey, candidates, pairs)
    ensures x in candidates || x in PairKeys(pairs) || x in TargetsFrom(d, |c|) ==> x in TargetsFrom(d, |a|)
  {
    hide Arrange, MentionEdges;
    MentionEdgesMean(a, c, memoryKey, candidates, pairs);
    if x in candidates {
      assert x in Arrange(candidates);
      var i :| 0 <= i < |candidates| && Arrange(candidates)[i] == x;
      assert d[|a| + i] == c[|a| + i];
    } else if x in PairKeys(pairs) {
      var i :| 0 <= i < |pairs| && pairs[i].0 == x;
      assert d[|a| + |candidates| + i] == c[|a| + |candidates| + i];
    }
  }

  // The nodes of the mentions, in three steps.
  ghost predicate Mentions(start: map<string, Node>, end: map<string, Node>, memoryKey: string, properties: map<string, string>,
                           candidates: set<string>, pairs: seq<(string, string)>) {
    exists withCandidates ::
      && WithCandidates(if memoryKey == "" then start else Entered(start, memoryKey, FactNode, properties), candidates, withCandidates)
      && WithPairs(withCandidates, pairs, end)
  }

  // What each node is after an ingest.
  ghost predicate AsMentioned(before: map<string, Node>, after: map<string, Node>, memoryKey: string,
                              properties: map<string, string>, candidates: set<string>, pairs: seq<(string, string)>) {
    forall x :: x in after ==>
      after[x].kind == (if x in before then before[x].kind
                        else if memoryKey != "" && x == memoryKey then FactNode
                        else if x in candidates then EntityNode
                        else if x in PairKeys(pairs) then FactNode else EntityNode) &&
      after[x].properties == (if x in before then before[x].properties else map[]) +
                             (if memoryKey != "" && x == memoryKey then properties else map[]) + Noted(pairs, x)
  }

  // The nodes of an ingest, step by step.
  lemma IngestedNodes(start: map<string, Node>, withKey: map<string, Node>, withCandidates: map<string, Node>,
                      withPairs: map<string, Node>, end: map<string, Node>, memoryKey: string, properties: map<string, string>,
                      candidates: set<string>, pairs: seq<(string, string)>)
    requires withKey == if memoryKey == "" then start else Entered(start, memoryKey, FactNode, properties)
    requires WithCandidates(withKey, candidates, withCandidates) && WithPairs(withCandidates, pairs, withPairs)
    requires KeptIn(withPairs, end) && forall x :: x in end && x !in withPairs ==> end[x] == Node(EntityNode, map[])
    ensures AsMentioned(start, end, memoryKey, properties, candidates, pairs)
  {
    hide Noted, PairKeys, WithCandidates, WithPairs, KeptIn, Entered;
    forall x | x in end
      ensures end[x].kind == (if x in start then start[x].kind
                              else if memoryKey != "" && x == memoryKey then FactNode
                              else if x in candidates then EntityNode
                              else if x in PairKeys(pairs) then FactNode else EntityNode)
      ensures end[x].properties == (if x in start then start[x].properties else map[]) +
                                   (if memoryKey != "" && x == memoryKey then properties else map[]) + Noted(pairs, x)
    {
      KeyNode(start, withKey, memoryKey, properties, x);
      CandidateNode(withKey, candidates, withCandidates, x);
      PairNode(withCandidates, pairs, withPairs, x);
      KeptNode(withPairs, end, x);
      NotedIsLast(pairs, x);
      Plus(if x in start then start[x].properties else map[], Noted(pairs, x));
    }
  }

  lemma KeyNode(start: map<string, Node>, withKey: map<string, Node>, memoryKey: string, properties: map<string, string>, x: string)
    requires withKey == if memoryKey == "" then start else Entered(start, memoryKey, FactNode, properties)
    ensures x in withKey <==> x in start || (memoryKey != "" && x == memoryKey)
    ensures x in withKey ==>
      && withKey[x].kind == (if x in start then start[x].kind else FactNode)
      && withKey[x].properties == (if x in start then start[x].properties else map[]) +
                                  (if memoryKey != "" && x == memoryKey then properties else map[])
  {
    if x in start {
      assert start[x].properties + map[] == start[x].properties;
    }
    assert map[] + properties == properties;
  }

  lemma CandidateNode(before: map<string, Node>, candidates: set<string>, after: map<string, Node>, x: string)
    requires WithCandidates(before, candidates, after)
    ensures x in after <==> x in before || x in candidates
    ensures x in after ==> after[x] == if x in before then before[x] else Node(EntityNode, map[])
  {
  }

  lemma PairNode(before: map<string, Node>, pairs: seq<(string, string)>, after: map<string, Node>, x: string)
    requires WithPairs(before, pairs, after)
    ensures x in after <==> x in before || x in PairKeys(pairs)
    ensures x in after ==> after[x].kind == (if x in before then before[x].kind else FactNode)
    ensures x in after ==> after[x].properties == (if x in before then before[x].properties else map[]) + Noted(pairs, x)
  {
    assert map[] + Noted(pairs, x) == Noted(pairs, x);
  }

  lemma KeptNode(before: map<string, Node>, after: map<string, Node>, x: string)
    requires KeptIn(before, after)
    ensures x in before ==> x in after && after[x] == before[x]
  {
  }

  lemma Plus(properties: map<string, string>, more: map<string, string>)
    ensures properties + map[] == properties && map[] + more == more && map[] + map[] + more == more
    ensures properties + map[] + more == properties + more
  {
    assert properties + map[] == properties;
  }

  /** The edges an ingest adds: to each candidate, to the key of each pair, then the cross links. */
  ghost predicate IngestedEdges(before: seq<Edge>, after: seq<Edge>, byEntity: Index, memoryKey: string, candidates: set<string>,
                                pairs: seq<(string, string)>, perEntity: nat, perEntry: nat, linked: set<string>) {
    var n, c := |before|, |candidates|;
    var cross := n + c + |pairs|;
    && n + c + |pairs| <= |after| <= cross + perEntry
    && (forall i :: 0 <= i < c ==> after[n + i] == Edge(memoryKey, Arrange(candidates)[i], RelatedTo, false))
    && (forall i :: 0 <= i < |pairs| ==> after[n + c + i] == Edge(memoryKey, pairs[i].0, Supports, false))
    && IsLinked(byEntity, candidates + PairKeys(pairs), memoryKey, perEntity, perEntry, linked)
    && (forall m :: m in FirstOf(Sort(linked), perEntry) ==> Edge(memoryKey, m, RelatedTo, true) in after)
    && (forall i :: cross <= i < |after| ==>
          && after[i] == Edge(memoryKey, after[i].target, RelatedTo, true) && after[i] !in after[..i]
          && after[i].target in FirstOf(Sort(linked), perEntry))
  }

  // The edges of the mentions, in two steps.
  ghost predicate MentionEdges(before: seq<Edge>, after: seq<Edge>, memoryKey: string, candidates: set<string>,
                               pairs: seq<(string, string)>) {
    exists b :: EdgesTo(before, b, memoryKey, Arrange(candidates), RelatedTo) &&
                EdgesTo(b, after, memoryKey, Firsts(pairs, |pairs|), Supports)
  }

  lemma MentionEdgesMean(a: seq<Edge>, c: seq<Edge>, memoryKey: string, candidates: set<string>, pairs: seq<(string, string)>)
    requires memoryKey != "" && MentionEdges(a, c, memoryKey, candidates, pairs)
    ensures a <= c && |c| == |a| + |candidates| + |pairs|
    ensures forall i :: 0 <= i < |candidates| ==> c[|a| + i] == Edge(memoryKey, Arrange(candidates)[i], RelatedTo, false)
    ensures forall i :: 0 <= i < |pairs| ==> c[|a| + |candidates| + i] == Edge(memoryKey, pairs[i].0, Supports, false)
  {
    hide Arrange, EdgesTo, Firsts;
    var b :| EdgesTo(a, b, memoryKey, Arrange(candidates), RelatedTo) && EdgesTo(b, c, memoryKey, Firsts(pairs, |pairs|), Supports);
    EdgesToMean(a, b, memoryKey, Arrange(candidates), RelatedTo);
    EdgesToMean(b, c, memoryKey, Firsts(pairs, |pairs|), Supports);
    FirstsMean(pairs);
    forall i | 0 <= i < |candidates|
      ensures c[|a| + i] == Edge(memoryKey, Arrange(candidates)[i], RelatedTo, false)
    {
      assert b[|a| + i] == Edge(memoryKey, Arrange(candidates)[i], RelatedTo, false);
    }
    forall i | 0 <= i < |pairs|
      ensures c[|a| + |candidates| + i] == Edge(memoryKey, pairs[i].0, Supports, false)
    {
      assert c[|b| + i] == Edge(memoryKey, Firsts(pairs, |pairs|)[i], Supports, false);
    }
  }

  lemma FirstsMean(pairs: seq<(string, string)>)
    ensures |Firsts(pairs, |pairs|)| == |pairs| && forall i :: 0 <= i < |pairs| ==> Firsts(pairs, |pairs|)[i] == pairs[i].0
  {
  }

  lemma EdgesInSteps(a: seq<Edge>, c: seq<Edge>, d: seq<Edge>, byEntity: Index, memoryKey: string, candidates: set<string>,
                     pairs: seq<(string, string)>, perEntity: nat, perEntry: nat, linked: set<string>)
    requires memoryKey != "" && c <= d && |d| <= |c| + perEntry && MentionEdges(a, c, memoryKey, candidates, pairs)
    requires IsLinked(byEntity, candidates + PairKeys(pairs), memoryKey, perEntity, perEntry, linked)
    requires forall m :: m in FirstOf(Sort(linked), perEntry) ==> Edge(memoryKey, m, RelatedTo, true) in d
    requires forall i :: |c| <= i < |d| ==>
      && d[i] == Edge(memoryKey, d[i].target, RelatedTo, true) && d[i] !in d[..i]
      && d[i].target in FirstOf(Sort(linked), perEntry)
    ensures a <= d && IngestedEdges(a, d, byEntity, memoryKey, candidates, pairs, perEntity, perEntry, linked)
  {
    hide IsLinked, FirstOf, Arrange, PairKeys, MentionEdges;
    MentionEdgesMean(a, c, memoryKey, candidates, pairs);
    forall i | 0 <= i < |candidates|
      ensures d[|a| + i] == Edge(memoryKey, Arrange(candidates)[i], RelatedTo, false)
    {
      assert c[|a| + i] == Edge(memoryKey, Arrange(candidates)[i], RelatedTo, false);
    }
    forall i | 0 <= i < |pairs|
      ensures d[|a| + |candidates| + i] == Edge(memoryKey, pairs[i].0, Supports, false)
    {
      assert c[|a| + |candidates| + i] == Edge(memoryKey, pairs[i].0, Supports, false);
    }
  }

  // Without a key no edge is added.
  lemma NothingLinked(edges: seq<Edge>, memoryKey: string, candidates: set<string>, pairs: seq<(string, string)>)
    ensures memoryKey == "" ==> forall before :: MentionEdges(before, edges, memoryKey, candidates, pairs) ==> before == edges
    ensures TargetsFrom(edges, |edges|) == {}
  {
    NoTargets(edges);
  }

  /** The nodes of an ingest: known ones keep their kind, new ones get that of their first mention; the memory's node takes
      its properties and a pair's node the value. */
  ghost predicate IngestedAll(before: map<string, Node>, after: map<string, Node>, targets: set<string>, memoryKey: string,
                              properties: map<string, string>, candidates: set<string>, pairs: seq<(string, string)>) {
    && after.Keys == before.Keys + (if memoryKey == "" then {} else {memoryKey}) + candidates + PairKeys(pairs) + targets
    && AsMentioned(before, after, memoryKey, properties, candidates, pairs)
  }

  lemma NodesInSteps(start: map<string, Node>, mentioned: map<string, Node>, end: map<string, Node>, a: seq<Edge>, c: seq<Edge>,
                     d: seq<Edge>, memoryKey: string, properties: map<string, string>, candidates: set<string>,
                     pairs: seq<(string, string)>)
    requires Mentions(start, mentioned, memoryKey, properties, candidates, pairs)
    requires MentionEdges(a, c, memoryKey, candidates, pairs) && c <= d && (memoryKey == "" ==> a == c == d)
    requires KeptIn(mentioned, end) && forall x :: x in end && x !in mentioned ==> end[x] == Node(EntityNode, map[])
    requires TargetsFrom(d, |c|) <= end.Keys
    requires end.Keys <= mentioned.Keys + (if memoryKey == "" then {} else {memoryKey}) + TargetsFrom(d, |c|)
    ensures IngestedAll(start, end, TargetsFrom(d, |a|), memoryKey, properties, candidates, pairs)
  {
    hide Noted, PairKeys, WithCandidates, WithPairs, KeptIn, Entered, TargetsFrom, MentionEdges, AsMentioned;
    var withKey := if memoryKey == "" then start else Entered(start, memoryKey, FactNode, properties);
    var withCandidates :| WithCandidates(withKey, candidates, withCandidates) && WithPairs(withCandidates, pairs, mentioned);
    if memoryKey == "" {
      NoTargets(d);
    } else {
      IngestedTargets(a, c, d, memoryKey, candidates, pairs);
    }
    IngestedNodes(start, withKey, withCandidates, mentioned, end, memoryKey, properties, candidates, pairs);
    NodesPresent(start, withKey, withCandidates, mentioned, end, TargetsFrom(d, |a|), TargetsFrom(d, |c|), memoryKey, properties,
                 candidates, pairs);
  }

  lemma NodesPresent(start: map<string, Node>, withKey: map<string, Node>, withCandidates: map<string, Node>,
                     withPairs: map<string, Node>, end: map<string, Node>, targets: set<string>, cross: set<string>, memoryKey: string,
                     properties: map<string, string>, candidates: set<string>, pairs: seq<(string, string)>)
    requires withKey == if memoryKey == "" then start else Entered(start, memoryKey, FactNode, properties)
    requires WithCandidates(withKey, candidates, withCandidates) && WithPairs(withCandidates, pairs, withPairs)
    requires KeptIn(withPairs, end)
    requires cross <= end.Keys <= withPairs.Keys + (if memoryKey == "" then {} else {memoryKey}) + cross
    requires if memoryKey == "" then targets == {} == cross else targets == candidates + PairKeys(pairs) + cross
    ensures end.Keys == start.Keys + (if memoryKey == "" then {} else {memoryKey}) + candidates + PairKeys(pairs) + targets
  {
    hide Noted, PairKeys, WithCandidates, WithPairs, KeptIn, Entered;
    forall x
      ensures x in end <==>
        x in start || (memoryKey != "" && x == memoryKey) || x in candidates || x in PairKeys(pairs) || x in targets
    {
      KeyNode(start, withKey, memoryKey, properties, x);
      CandidateNode(withKey, candidates, withCandidates, x);
      PairNode(withCandidates, pairs, withPairs, x);
      KeptNode(withPairs, end, x);
    }
  }

  function PairKeys(pairs: seq<(string, string)>): set<string> {
    set p | p in pairs :: p.0
  }

  lemma NoPairs()
    ensures PairKeys([]) == {}
  {
  }

  lemma PairKeysNext(pairs: seq<(string, string)>, i: nat)
    requires i < |pairs|
    ensures pairs[..0] == [] && PairKeys(pairs[..i + 1]) == PairKeys(pairs[..i]) + {pairs[i].0}
  {
    assert pairs[..i + 1] == pairs[..i] + [pairs[i]];
    assert forall p :: p in pairs[..i + 1] <==> p in pairs[..i] || p == pairs[i];
  }

  /** An imported edge that ties an entity to a memory. */
  predicate LinksEntity(nodes: map<string, Node>, edge: Edge, m: string, e: string) {
    && edge.source == m && edge.target == e && edge.kind == RelatedTo && e != ""
    && m in nodes && nodes[m].kind == FactNode && e in nodes && nodes[e].kind == EntityNode
  }

  ghost predicate Links(nodes: map<string, Node>, edges: seq<Edge>, byEntity: Index, byMemory: Index) {
    && Inverse(byEntity, byMemory)
    && forall m, e :: e in Get(byMemory, m) <==> exists edge :: edge in edges && LinksEntity(nodes, edge, m, e)
  }

  lemma NoLinks(nodes: map<string, Node>)
    ensures Links(nodes, [], map[], map[])
  {
  }

  // The edges of each fact node, read in the order of the edge list.
  method LinksOf(nodes: map<string, Node>, edges: seq<Edge>) returns (byEntity: Index, byMemory: Index)
    ensures Links(nodes, edges, byEntity, byMemory)
  {
    hide Links;
    byEntity, byMemory := map[], map[];
    NoLinks(nodes);
    for i := 0 to |edges|
      invariant Links(nodes, edges[..i], byEntity, byMemory)
    {
      var edge := edges[i];
      LinksNext(nodes, edges, i, byEntity, byMemory);
      if LinksEntity(nodes, edge, edge.source, edge.target) {
        byMemory := Put(byMemory, edge.source, edge.target);
        byEntity := Put(byEntity, edge.target, edge.source);
      }
    }
    assert edges[..|edges|] == edges;
  }

  lemma LinksNext(nodes: map<string, Node>, edges: seq<Edge>, i: nat, byEntity: Index, byMemory: Index)
    requires i < |edges| && Links(nodes, edges[..i], byEntity, byMemory)
    ensures if LinksEntity(nodes, edges[i], edges[i].source, edges[i].target) then
              Links(nodes, edges[..i + 1], Put(byEntity, edges[i].target, edges[i].source),
                    Put(byMemory, edges[i].source, edges[i].target))
            else Links(nodes, edges[..i + 1], byEntity, byMemory)
  {
    var edge := edges[i];
    assert edges[..i + 1] == edges[..i] + [edge];
    assert forall x :: x in edges[..i + 1] <==> x in edges[..i] || x == edge;
    if LinksEntity(nodes, edge, edge.source, edge.target) {
      assert forall x, y :: y in Get(Put(byEntity, edge.target, edge.source), x) <==>
        y in Get(byEntity, x) || (x == edge.target && y == edge.source);
      assert forall x, y :: x in Get(Put(byMemory, edge.source, edge.target), y) <==>
        x in Get(byMemory, y) || (x == edge.target && y == edge.source);
    }
  }

  /** What forgetting a key that had a node leaves of it: nothing, in no index and on no edge. */
  lemma ForgottenLeavesNothing(fold: string -> string, oldNodes: map<string, Node>, oldEdges: seq<Edge>, byEntity: Index,
                               byMemory: Index, edges: seq<Edge>, relations: RelationIndex, newByEntity: Index,
                               byName: Index, newByMemory: Index, k: string)
    requires k in oldNodes && Inverse(newByEntity, newByMemory) && Folded(fold, newByEntity, byName) && Grouped(edges, relations)
    requires edges == Untouched(oldEdges, Doomed(oldNodes, byEntity, byMemory, k))
    requires Without(byMemory - {k}, newByMemory, {k})
    ensures forall e :: e in edges ==> e.source != k && e.target != k
    ensures forall key: EdgeKey :: key.0 == k || key.1 == k ==> GetEdges(relations, key) == []
    ensures Get(newByEntity, k) == {} && Get(newByMemory, k) == {}
    ensures forall x :: k !in Get(newByEntity, x) && k !in Get(newByMemory, x) && k !in Get(byName, x)
  {
    UntouchedMeaning(oldEdges, Doomed(oldNodes, byEntity, byMemory, k));
    assert Get(byMemory - {k}, k) == {};
    forall key: EdgeKey | key.0 == k || key.1 == k
      ensures GetEdges(relations, key) == []
    {
      OfKeyNone(edges, key);
    }
    forall x
      ensures k !in Get(newByMemory, x) && x !in Get(newByMemory, k)
    {
      assert Get(newByMemory, x) == Get(byMemory - {k}, x) - {k};
      assert Get(newByMemory, k) == Get(byMemory - {k}, k) - {k};
    }
    forall x
      ensures k !in Get(newByEntity, x) && x !in Get(newByEntity, k)
    {
      assert k in Get(newByEntity, x) <==> x in Get(newByMemory, k);
      assert x in Get(newByEntity, k) <==> k in Get(newByMemory, x);
    }
    forall x
      ensures k !in Get(byName, x)
    {
      assert k in Get(byName, x) <==> NamedBy(fold, newByEntity, x, k);
    }
  }

  // `linked.discard(memory_key)`, dropping the entity when nothing is left.
  function DropFrom(index: Index, e: string, member: string): Index {
    if e !in index then index
    else if index[e] - {member} == {} then index - {e} else index[e := index[e] - {member}]
  }

  lemma DroppedStep(before: Index, now: Index, keys: set<string>, e: string, member: string)
    requires DiscardedUnder(before, now, keys, member)
    ensures DiscardedUnder(before, DropFrom(now, e, member), keys + {e}, member)
  {
    forall m
      ensures Get(DropFrom(now, e, member), m) == if m in keys + {e} then Get(before, m) - {member} else Get(before, m)
    {
      assert Get(now, m) == if m in keys then Get(before, m) - {member} else Get(before, m);
    }
  }

  function Orphans(byEntity: Index, entities: set<string>, memoryKey: string): set<string> {
    set e | e in entities && Get(byEntity, e) <= {memoryKey}
  }

  lemma NoOrphans(byEntity: Index, memoryKey: string)
    ensures Orphans(byEntity, {}, memoryKey) == {}
  {
  }

  lemma OrphansNext(byEntity: Index, entities: set<string>, e: string, memoryKey: string)
    ensures Orphans(byEntity, entities + {e}, memoryKey) ==
            Orphans(byEntity, entities, memoryKey) + (if Get(byEntity, e) <= {memoryKey} then {e} else {})
  {
  }

  lemma AllLinked(byEntity: Index, byMemory: Index, memoryKey: string)
    requires Inverse(byEntity, byMemory)
    ensures forall e :: e in Get(byMemory, memoryKey) ==> memoryKey in Get(byEntity, e)
  {
  }

  // Nothing but the member is under the key.
  predicate IsOrphaned(index: Index, e: string, member: string) {
    e in index && index[e] - {member} == {}
  }

  // The next entity is still indexed, and becomes empty exactly when the member was its only one.
  lemma OrphanStep(before: Index, now: Index, order: seq<string>, i: nat, member: string)
    requires i < |order| && ByOrder(order) && member in Get(before, order[i])
    requires DiscardedUnder(before, now, Elements(order[..i]), member)
    ensures IsOrphaned(now, order[i], member) <==> Get(before, order[i]) <= {member}
  {
    assert Get(now, order[i]) == Get(before, order[i]) by {
      forall j | 0 <= j < i
        ensures order[j] != order[i]
      {
        LessTrichotomy(order[j], order[i]);
      }
    }
  }

  ghost predicate ByOrder(s: seq<string>) {
    KeyOrder.Sorted(s)
  }

  lemma ArrangedByOrder(keys: set<string>)
    ensures ByOrder(Arrange(keys))
  {
    ArrangeSorts(keys);
  }

  method DiscardAll(index: Index, keys: set<string>, member: string) returns (after: Index)
    ensures DiscardedUnder(index, after, keys, member)
  {
    hide DiscardedUnder, Elements, Discard;
    after := index;
    var order := Arrange(keys);
    ArrangedElements(keys);
    NothingDiscarded(index, member);
    for i := 0 to |order|
      invariant DiscardedUnder(index, after, Elements(order[..i]), member)
    {
      FrontElements(order, i);
      DiscardedStep(index, after, Elements(order[..i]), order[i], member);
      after := Discard(after, order[i], member);
    }
  }

  /** Takes the member out of the sets of these keys; keys left with nothing are dropped and reported. */
  method DropAll(index: Index, keys: set<string>, member: string) returns (after: Index, orphaned: set<string>)
    requires forall e :: e in keys ==> member in Get(index, e)
    ensures DiscardedUnder(index, after, keys, member) && orphaned == Orphans(index, keys, member)
    ensures keys == {} ==> after == index
  {
    hide DiscardedUnder, DropFrom, Elements, Get, Orphans, ByOrder, IsOrphaned;
    after, orphaned := index, {};
    var order := Arrange(keys);
    ArrangedElements(keys);
    NoOrphans(index, member);
    ArrangedByOrder(keys);
    NothingDiscarded(index, member);
    for i := 0 to |order|
      invariant DiscardedUnder(index, after, Elements(order[..i]), member)
      invariant orphaned == Orphans(index, Elements(order[..i]), member)
      invariant i == 0 ==> after == index
    {
      var e := order[i];
      assert e in keys;
      FrontElements(order, i);
      OrphansNext(index, Elements(order[..i]), e, member);
      OrphanStep(index, after, order, i, member);
      DroppedStep(index, after, Elements(order[..i]), e, member);
      if IsOrphaned(after, e, member) {
        orphaned := orphaned + {e};
      }
      after := DropFrom(after, e, member);
    }
  }

  lemma MemoryDropped(byEntity: Index, byMemory: Index, after: Index, memoryKey: string)
    requires Inverse(byEntity, byMemory) && DiscardedUnder(byEntity, after, Get(byMemory, memoryKey), memoryKey)
    ensures Without(byEntity, after, {memoryKey}) && Inverse(after, byMemory - {memoryKey})
  {
    forall e
      ensures Get(after, e) == Get(byEntity, e) - {memoryKey}
    {
      assert memoryKey in Get(byEntity, e) <==> e in Get(byMemory, memoryKey);
    }
    assert forall m :: Get(byMemory - {memoryKey}, m) == if m == memoryKey then {} else Get(byMemory, m);
  }

  /** The nodes a forgotten memory takes along: its own, and entities named by it alone that are not memories. */
  function Doomed(nodes: map<string, Node>, byEntity: Index, byMemory: Index, memoryKey: string): set<string> {
    set x | x in nodes && (x == memoryKey || (x in Get(byMemory, memoryKey) && Get(byEntity, x) <= {memoryKey} &&
                                              "created_at" !in nodes[x].properties))
  }

  lemma DoomedMeaning(nodes: map<string, Node>, byEntity: Index, byMemory: Index, memoryKey: string,
                      entities: set<string>, orphaned: set<string>, doomed: set<string>)
    requires entities == Get(byMemory, memoryKey)
    requires orphaned == Orphans(byEntity, entities, memoryKey)
    requires doomed == {memoryKey} + set e | e in orphaned && e in nodes && "created_at" !in nodes[e].properties
    ensures doomed * nodes.Keys == Doomed(nodes, byEntity, byMemory, memoryKey)
    ensures entities == {} ==> (doomed * nodes.Keys != {} <==> memoryKey in nodes)
    ensures memoryKey in nodes ==> memoryKey in doomed * nodes.Keys
  {
    hide Get;
    if memoryKey in nodes {
      assert memoryKey in doomed * nodes.Keys;
    }
    if entities == {} {
      assert orphaned == {};
      assert doomed == {memoryKey};
    }
  }

  // Doomed entities were linked to the forgotten memory only, so other memories lose at most its key.
  lemma OnlyTheKeyGoes(byEntity: Index, byMemory: Index, memoryKey: string, links: Index, after: Index, nodes: map<string, Node>)
    requires Inverse(byEntity, byMemory) && links == byMemory - {memoryKey}
    requires Without(links, after, Doomed(nodes, byEntity, byMemory, memoryKey))
    ensures Without(links, after, if memoryKey in nodes then {memoryKey} else {})
  {
    var gone := Doomed(nodes, byEntity, byMemory, memoryKey);
    forall m
      ensures Get(after, m) == Get(links, m) - if memoryKey in nodes then {memoryKey} else {}
    {
      assert Get(after, m) == Get(links, m) - gone;
      assert m == memoryKey ==> Get(links, m) == {};
      assert m != memoryKey ==> Get(links, m) == Get(byMemory, m);
      forall e | e in gone && e in Get(links, m)
        ensures e == memoryKey && memoryKey in nodes
      {
        assert m in Get(byEntity, e);
      }
    }
  }

  lemma UnlinkedAll(byEntity: Index, byMemory: Index, after: Index, name: string)
    requires Inverse(byEntity, byMemory) && DiscardedUnder(byMemory, after, Get(byEntity, name), name)
    ensures Without(byMemory, after, {name})
  {
    forall m
      ensures Get(after, m) == Get(byMemory, m) - {name}
    {
      assert m in Get(byEntity, name) <==> name in Get(byMemory, m);
    }
  }

  lemma UntouchedLast(front: seq<Edge>, last: Edge, edges: seq<Edge>)
    requires edges == front + [last]
    ensures Untouched(edges, {}) == Untouched(front, {}) + [last]
  {
    assert edges[..|edges| - 1] == front;
  }

  lemma {:induction false} UntouchedNone(edges: seq<Edge>)
    ensures Untouched(edges, {}) == edges
  {
    if edges != [] {
      hide Untouched;
      UntouchedNone(edges[..|edges| - 1]);
      UntouchedLast(edges[..|edges| - 1], edges[|edges| - 1], edges);
    }
  }

  // The nodes that were there are as they were.
  ghost predicate KeptIn(before: map<string, Node>, after: map<string, Node>) {
    forall k :: k in before ==> k in after && after[k] == before[k]
  }

  /** `s[:max(limit, 0)]`: all of s, or as much as the limit allows. */
  function FirstOf(s: seq<string>, limit: int): (first: seq<string>)
    ensures first <= s && |first| <= |s|
    ensures first == s || |first| == if limit < 0 then 0 else limit
    ensures |first| <= if limit < 0 then 0 else limit
  {
    if limit <= 0 then [] else if limit < |s| then s[..limit] else s
  }

  lemma NothingFolded(fold: string -> string, byEntity: Index)
    ensures Folded(fold, byEntity - Elements(Arrange(byEntity.Keys)[0..]), map[])
  {
    var keys := Arrange(byEntity.Keys);
    assert keys[0..] == keys;
    assert byEntity - Elements(keys) == map[];
  }

  lemma FoldNext(fold: string -> string, byEntity: Index, byName: Index, keys: seq<string>, i: nat)
    requires keys == Arrange(byEntity.Keys) && i < |keys| && keys[i] in byEntity
    requires Folded(fold, byEntity - Elements(keys[i..]), byName)
    ensures Folded(fold, byEntity - Elements(keys[i + 1..]),
                   byName[fold(keys[i]) := Get(byName, fold(keys[i])) + byEntity[keys[i]]])
  {
    hide Folded, Arrange;
    var e := keys[i];
    AddWhole(fold, byEntity - Elements(keys[i..]), byName, e, byEntity[e]);
    assert keys[i..] == [e] + keys[i + 1..];
    assert Elements(keys[i..]) == {e} + Elements(keys[i + 1..]);
    ArrangedOnce(byEntity.Keys, i);
    assert Get(byEntity - Elements(keys[i..]), e) + byEntity[e] == byEntity[e];
    assert byEntity - Elements(keys[i + 1..]) ==
           (byEntity - Elements(keys[i..]))[e := Get(byEntity - Elements(keys[i..]), e) + byEntity[e]];
  }

  lemma ArrangedOnce(keys: set<string>, i: nat)
    requires i < |Arrange(keys)|
    ensures Arrange(keys)[i] !in Elements(Arrange(keys)[i + 1..])
  {
    ArrangeSorts(keys);
    var s := Arrange(keys);
    forall j | i < j < |s|
      ensures s[j] != s[i]
    {
      LessTrichotomy(s[i], s[j]);
    }
  }

  // Adding all the memories of one entity at once.
  lemma AddWhole(fold: string -> string, byEntity: Index, byName: Index, e: string, members: set<string>)
    requires Folded(fold, byEntity, byName)
    ensures Folded(fold, byEntity[e := Get(byEntity, e) + members], byName[fold(e) := Get(byName, fold(e)) + members])
  {
    var after := byEntity[e := Get(byEntity, e) + members];
    assert forall x, y :: y in Get(after, x) <==> y in Get(byEntity, x) || (x == e && y in members);
    forall name, y
      ensures y in Get(byName[fold(e) := Get(byName, fold(e)) + members], name) <==> NamedBy(fold, after, name, y)
    {
      assert NamedBy(fold, byEntity, name, y) ==> NamedBy(fold, after, name, y);
      assert y in members ==> y in Get(after, e);
    }
  }
}
