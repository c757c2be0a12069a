/** What the indices, filters and bounds of src/bilinc/core/knowledge_graph.py mean, told from the graph's own entries. */
module GraphRules {
  import opened Wrappers
  import opened KeyOrder
  import opened KnowledgeGraph

  // ---------------------------------------------------------------- indices

  /** In a graph whose indices are in step, an entity lists a memory exactly when the memory lists the entity, and a folded
      name lists it exactly when some entity of that name does. */
  lemma IndicesMean(fold: string -> string, byEntity: Index, byName: Index, byMemory: Index, e: string, m: string, name: string)
    requires Inverse(byEntity, byMemory) && Folded(fold, byEntity, byName)
    ensures e in byEntity && m in byEntity[e] <==> m in byMemory && e in byMemory[m]
    ensures name in byName && m in byName[name] <==> exists x :: x in byEntity && m in byEntity[x] && fold(x) == name
  {
    assert m in Get(byEntity, e) <==> e in Get(byMemory, m);
    assert m in Get(byName, name) <==> NamedBy(fold, byEntity, name, m);
    if NamedBy(fold, byEntity, name, m) {
      var x :| m in Get(byEntity, x) && fold(x) == name;
      assert x in byEntity && m in byEntity[x];
    }
    if x :| x in byEntity && m in byEntity[x] && fold(x) == name {
      assert m in Get(byEntity, x);
    }
  }

  /** The relation index gives, under each key, the edges of that key in the order of the list. */
  lemma {:induction false} RelationsMean(a: seq<Edge>, b: seq<Edge>, e: Edge, k: EdgeKey)
    ensures OfKey([e], k) == if e.source == k.0 && e.target == k.1 && e.kind == k.2 then [e] else []
    ensures OfKey(a + b, k) == OfKey(a, k) + OfKey(b, k)
  {
    assert [e][..0] == [];
    if b == [] {
      assert a + b == a;
    } else {
      assert (a + b)[..|a + b| - 1] == a + b[..|b| - 1];
      RelationsMean(a, b[..|b| - 1], e, k);
    }
  }

  lemma GroupedMeans(edges: seq<Edge>, relations: RelationIndex, k: EdgeKey)
    requires Grouped(edges, relations)
    ensures OfKey(edges, k) == if k in relations then relations[k] else []
  {
    assert GetEdges(relations, k) == OfKey(edges, k);
  }

  // ---------------------------------------------------------------- removing

  /** Removing nodes takes exactly the edges that touch one of them, and leaves the others in order. */
  lemma {:induction false} UntouchedMeans(a: seq<Edge>, b: seq<Edge>, e: Edge, gone: set<string>)
    ensures Untouched([e], gone) == if e.source in gone || e.target in gone then [] else [e]
    ensures Untouched(a + b, gone) == Untouched(a, gone) + Untouched(b, gone)
  {
    assert [e][..0] == [];
    if b == [] {
      assert a + b == a;
    } else {
      assert (a + b)[..|a + b| - 1] == a + b[..|b| - 1];
      UntouchedMeans(a, b[..|b| - 1], e, gone);
    }
  }

  /** Removing a relation takes exactly the edges between the two nodes, of one kind if it is given, in that direction. */
  lemma {:induction false} NotBetweenMeans(a: seq<Edge>, b: seq<Edge>, e: Edge, source: string, target: string, kind: Option<EdgeKind>)
    ensures NotBetween([e], source, target, kind) ==
      if e.source == source && e.target == target && (kind == None || kind == Some(e.kind)) then [] else [e]
    ensures NotBetween(a + b, source, target, kind) == NotBetween(a, source, target, kind) + NotBetween(b, source, target, kind)
  {
    assert [e][..0] == [];
    if b == [] {
      assert a + b == a;
    } else {
      var front, last := b[..|b| - 1], b[|b| - 1];
      assert (a + b)[..|a + b| - 1] == a + front && (a + b)[|a + b| - 1] == last;
      NotBetweenMeans(a, front, e, source, target, kind);
    }
  }

  /** A forgotten memory takes along its own node, and the entities linked to it and to no other memory, unless they are
      memories themselves. */
  lemma DoomedMeans(nodes: map<string, Node>, byEntity: Index, byMemory: Index, memoryKey: string, x: string)
    requires Inverse(byEntity, byMemory)
    ensures x in Doomed(nodes, byEntity, byMemory, memoryKey) <==>
      && x in nodes
      && (|| x == memoryKey
          || (&& memoryKey in byMemory && x in byMemory[memoryKey] && "created_at" !in nodes[x].properties
              && forall m :: m in byMemory && x in byMemory[m] ==> m == memoryKey))
  {
    if x in Get(byMemory, memoryKey) {
      forall m
        ensures m in Get(byEntity, x) <==> m in byMemory && x in byMemory[m]
      {
        assert m in Get(byEntity, x) <==> x in Get(byMemory, m);
      }
    }
  }

  /** Links after members went, and after one key gained some. */
  lemma LinksAfter(before: Index, without: Index, gained: Index, gone: set<string>, k: string, more: set<string>, m: string, e: string)
    requires Without(before, without, gone) && Gained(before, gained, k, more)
    ensures m in without && e in without[m] <==> m in before && e in before[m] && e !in gone
    ensures m in gained && e in gained[m] <==> (m in before && e in before[m]) || (m == k && e in more)
  {
    assert e in Get(without, m) <==> e in Get(before, m) - gone;
    assert Get(gained, m) == if m == k then Get(before, m) + more else Get(before, m);
  }

  // ---------------------------------------------------------------- reading memories

  /** The keys an ingest's pairs name, and the nodes its new edges lead to. */
  lemma KeysAndTargets(pairs: seq<(string, string)>, edges: seq<Edge>, n: nat, x: string)
    ensures x in PairKeys(pairs) <==> exists i :: 0 <= i < |pairs| && pairs[i].0 == x
    ensures x in TargetsFrom(edges, n) <==> exists i :: n <= i < |edges| && edges[i].target == x
  {
    if x in PairKeys(pairs) {
      var p :| p in pairs && p.0 == x;
      var i :| 0 <= i < |pairs| && pairs[i] == p;
    }
    if i :| 0 <= i < |pairs| && pairs[i].0 == x {
      assert pairs[i] in pairs;
    }
  }

  /** Which memories an ingest links across: those found under the first n of the shared entities, in order, as many of each
      as the cap allows; n is all of them, or the first with which enough memories were found, the memory itself counted. */
  lemma LinkedMeans(byEntity: Index, shared: set<string>, memoryKey: string, perEntity: nat, perEntry: nat, linked: set<string>)
    returns (n: nat)
    requires IsLinked(byEntity, shared, memoryKey, perEntity, perEntry, linked)
    ensures n <= |shared| && (n == |shared| || n > 0)
    ensures var found := SharedBy(byEntity, Sort(shared), n, perEntity);
      && (forall m :: m in found <==> exists i :: 0 <= i < n && m in FirstOf(Sort(Get(byEntity, Sort(shared)[i])), perEntity))
      && linked == found - {memoryKey} && (n == |shared| || |found| >= perEntry)
    ensures forall k :: 0 < k < n ==> |SharedBy(byEntity, Sort(shared), k, perEntity)| < perEntry
  {
    hide FirstOf;
    n :| LinkedUpTo(byEntity, shared, memoryKey, perEntity, perEntry, linked, n);
    forall k | 0 < k < n
      ensures |SharedBy(byEntity, Sort(shared), k, perEntity)| < perEntry
    {
      assert Size(SharedBy(byEntity, Sort(shared), k, perEntity)) < perEntry;
    }
  }

  /** An import ties an entity to a memory exactly when a `related_to` edge leads from the one's fact node to the other's
      entity node. */
  lemma ImportedLink(nodes: map<string, Node>, edges: seq<Edge>, m: string, e: string)
    ensures (exists edge :: edge in edges && LinksEntity(nodes, edge, m, e)) <==>
      && e != "" && m in nodes && nodes[m].kind == FactNode && e in nodes && nodes[e].kind == EntityNode
      && exists cross :: Edge(m, e, RelatedTo, cross) in edges
  {
    if edge :| edge in edges && LinksEntity(nodes, edge, m, e) {
      assert edge == Edge(m, e, RelatedTo, edge.crossMemory);
    }
    if cross :| Edge(m, e, RelatedTo, cross) in edges {
      if e != "" && m in nodes && nodes[m].kind == FactNode && e in nodes && nodes[e].kind == EntityNode {
        assert LinksEntity(nodes, Edge(m, e, RelatedTo, cross), m, e);
      }
    }
  }
}
