/** What the steps of src/bilinc/core/belief_sync.py mean for each key, told from the entries alone. */
module BeliefRules {
  import opened Wrappers
  import opened KeyOrder
  import opened BeliefSync

  // ---------------------------------------------------------------- pulling

  /** Pulling from one source takes its entry under a key when the agent has none or an older one, unless the entry is older
      than the cut (a cut of zero is none), and keeps the agent's otherwise; and ticks the key's clock once if it took it. */
  lemma PullTakesNewer(beliefs: Beliefs, source: Beliefs, since: Option<real>, after: Beliefs, clock: Clock, ticks: Clock, k: string)
    requires Pulled(beliefs, source, since, after) && TickedWhereChanged(beliefs, after, clock, ticks)
    ensures var takes := k in source && (k !in beliefs || beliefs[k].createdAt < source[k].createdAt) &&
                         (since == None || since == Some(0.0) || source[k].createdAt >= since.value);
      && (if takes then k in after && after[k] == source[k]
          else (k in after <==> k in beliefs) && (k in beliefs ==> after[k] == beliefs[k]))
      && (if k in ticks then ticks[k] else 0) == (if k in clock then clock[k] else 0) + (if takes then 1 else 0)
  {
    assert Held(after, k) == Newer(Held(beliefs, k), Held(source, k), since);
    assert Count(ticks, k) == Count(clock, k) + (if Held(after, k) != Held(beliefs, k) then 1 else 0);
  }

  /** And those are the entries it counts. */
  lemma PullCounts(beliefs: Beliefs, source: Beliefs, since: Option<real>)
    ensures Size(Updates(beliefs, source, since)) ==
      |set k | k in source && (k !in beliefs || beliefs[k].createdAt < source[k].createdAt) &&
               (since == None || since == Some(0.0) || source[k].createdAt >= since.value)|
  {
    assert Updates(beliefs, source, since) ==
      set k | k in source && (k !in beliefs || beliefs[k].createdAt < source[k].createdAt) &&
              (since == None || since == Some(0.0) || source[k].createdAt >= since.value);
  }


  /** Along several sources the agent ends with the newest of its own entry and theirs, its own on a tie, then the earlier
      source's. */
  lemma {:induction false} PullEndsWithNewest(agents: map<string, Agent>, mine: Option<Entry>, sources: seq<string>, n: nat,
                                              since: Option<real>, k: string)
    requires n <= |sources|
    ensures var r := NewestOf(agents, mine, sources, n, since, k);
      && (mine.Some? ==> r.Some? && r.value.createdAt >= mine.value.createdAt)
      && (forall j :: 0 <= j < n && sources[j] in agents && k in agents[sources[j]].beliefs &&
                      (since == None || since == Some(0.0) || agents[sources[j]].beliefs[k].createdAt >= since.value) ==>
            r.Some? && r.value.createdAt >= agents[sources[j]].beliefs[k].createdAt)
      && (r == mine ||
          exists j :: 0 <= j < n && sources[j] in agents && k in agents[sources[j]].beliefs && r == Some(agents[sources[j]].beliefs[k])
            && (since == None || since == Some(0.0) || r.value.createdAt >= since.value)
            && (mine.Some? ==> mine.value.createdAt < r.value.createdAt)
            && forall i :: 0 <= i < j && sources[i] in agents && k in agents[sources[i]].beliefs ==>
                 || agents[sources[i]].beliefs[k].createdAt < r.value.createdAt
                 || (since.Some? && since != Some(0.0) && agents[sources[i]].beliefs[k].createdAt < since.value))
  {
    if n > 0 {
      PullEndsWithNewest(agents, mine, sources, n - 1, since, k);
    }
  }

  /** That is what a pull leaves under each key, and its clock shows how often it changed. */
  lemma PulledUnderEachKey(agents: map<string, Agent>, beliefs: Beliefs, sources: seq<string>, n: nat, since: Option<real>,
                           after: Beliefs, clock: Clock, ticks: Clock, k: string)
    requires n <= |sources| && PulledAll(agents, beliefs, sources, n, since, after)
    requires TickedPerTake(agents, beliefs, sources, n, since, clock, ticks)
    ensures var r := NewestOf(agents, if k in beliefs then Some(beliefs[k]) else None, sources, n, since, k);
      if k in after then r == Some(after[k]) else r == None
    ensures (if k in ticks then ticks[k] else 0) ==
      (if k in clock then clock[k] else 0) +
      Takes(agents, if k in beliefs then Some(beliefs[k]) else None, sources, n, since, k)
  {
    hide NewestOf, Takes;
    assert Held(after, k) == NewestOf(agents, Held(beliefs, k), sources, n, since, k);
    assert Count(ticks, k) == Count(clock, k) + Takes(agents, Held(beliefs, k), sources, n, since, k);
  }

  /** The key's clock ticks once for each source that gave the agent another entry. */
  lemma TicksPerTake(agents: map<string, Agent>, mine: Option<Entry>, sources: seq<string>, n: nat, since: Option<real>, k: string)
    requires n < |sources|
    ensures Takes(agents, mine, sources, 0, since, k) == 0
    ensures Takes(agents, mine, sources, n + 1, since, k) == Takes(agents, mine, sources, n, since, k) +
      (if NewestOf(agents, mine, sources, n + 1, since, k) != NewestOf(agents, mine, sources, n, since, k) then 1 else 0)
  {
  }

  lemma {:induction false} AfterSourcesIsNewest(agents: map<string, Agent>, beliefs: Beliefs, sources: seq<string>, n: nat,
                                                since: Option<real>, k: string)
    requires n <= |sources|
    ensures Held(AfterSources(agents, beliefs, sources, n, since), k) ==
            NewestOf(agents, Held(beliefs, k), sources, n, since, k)
  {
    if n > 0 {
      AfterSourcesIsNewest(agents, beliefs, sources, n - 1, since, k);
    }
  }

  /** The count of a pull adds up, source by source, the keys whose entry that source replaced. */
  lemma PullCountsPerSource(agents: map<string, Agent>, beliefs: Beliefs, sources: seq<string>, n: nat, since: Option<real>,
                            replaced: set<string>)
    requires n < |sources|
    requires forall k :: k in replaced <==>
               NewestOf(agents, Held(beliefs, k), sources, n + 1, since, k) != NewestOf(agents, Held(beliefs, k), sources, n, since, k)
    ensures TotalUpdates(agents, beliefs, sources, 0, since) == 0
    ensures TotalUpdates(agents, beliefs, sources, n + 1, since) == TotalUpdates(agents, beliefs, sources, n, since) + |replaced|
  {
    if sources[n] in agents {
      var now := AfterSources(agents, beliefs, sources, n, since);
      forall k
        ensures k in Updates(now, agents[sources[n]].beliefs, since) <==> k in replaced
      {
        AfterSourcesIsNewest(agents, beliefs, sources, n, since, k);
      }
      assert Updates(now, agents[sources[n]].beliefs, since) == replaced;
    } else {
      assert replaced == {};
    }
  }

  // ---------------------------------------------------------------- merging

  /** A merge offers an agent the other's entries: it takes those it has none for, and on another value the other's when that
      one is at least as reliable; ticks the clock of every key missing or in conflict; and counts each kind. */
  lemma MergeOffers(mine: Agent, theirs: Agent, clock: Clock, side: Side, k: string)
    requires MergedSide(mine, theirs, clock, side)
    ensures var missing := k in theirs.beliefs && k !in mine.beliefs;
      var conflict := k in theirs.beliefs && k in mine.beliefs && theirs.beliefs[k].value != mine.beliefs[k].value;
      && (if missing || (conflict && theirs.reliability >= mine.reliability)
          then k in side.after && side.after[k] == theirs.beliefs[k]
          else (k in side.after <==> k in mine.beliefs) && (k in mine.beliefs ==> side.after[k] == mine.beliefs[k]))
      && (if k in side.ticks then side.ticks[k] else 0) == (if k in clock then clock[k] else 0) + (if missing || conflict then 1 else 0)
    ensures var missing := set x | x in theirs.beliefs && x !in mine.beliefs;
      var conflicts := set x | x in theirs.beliefs && x in mine.beliefs && theirs.beliefs[x].value != mine.beliefs[x].value;
      && side.added == |missing| && side.conflicts == |conflicts|
      && side.merged == |missing| + (if theirs.reliability >= mine.reliability then |conflicts| else 0)
  {
    assert Held(side.after, k) == Offered(Held(mine.beliefs, k), Held(theirs.beliefs, k), theirs.reliability >= mine.reliability);
    assert Count(side.ticks, k) == Count(clock, k) +
           (if k in Missing(mine.beliefs, theirs.beliefs) + Conflicts(mine.beliefs, theirs.beliefs) then 1 else 0);
    assert Missing(mine.beliefs, theirs.beliefs) == set x | x in theirs.beliefs && x !in mine.beliefs;
    assert Conflicts(mine.beliefs, theirs.beliefs) ==
           set x | x in theirs.beliefs && x in mine.beliefs && theirs.beliefs[x].value != mine.beliefs[x].value;
  }

  /** What a merge of two agents leaves under a key: each takes the entries it had none for, and on another value that of an
      agent at least as reliable; third agents and their clocks stay as they are. */
  lemma MergeLeaves(agents: map<string, Agent>, clocks: map<string, Clock>, x: string, y: string,
                    after: map<string, Agent>, ticks: map<string, Clock>, result: Merged, k: string, z: string)
    requires x in agents && y in agents && Reconciled(agents, clocks, x, y, after, ticks, result)
    requires z != x && z != y
    ensures x in after && y in after && (z in after <==> z in agents) && (z in agents ==> after[z] == agents[z])
    ensures (if z in ticks then ticks[z] else map[]) == (if z in clocks then clocks[z] else map[])
    ensures var a, b, c, d := agents[x].beliefs, agents[y].beliefs, after[x].beliefs, after[y].beliefs;
      && (if k in b && (k !in a || (a[k].value != b[k].value && agents[y].reliability >= agents[x].reliability))
          then k in c && c[k] == b[k] else (k in c <==> k in a) && (k in a ==> c[k] == a[k]))
      && (if k in a && (k !in b || (a[k].value != b[k].value && agents[x].reliability >= agents[y].reliability))
          then k in d && d[k] == a[k] else (k in d <==> k in b) && (k in b ==> d[k] == b[k]))
  {
    hide EmptiedExactly, TickedUnder, CountedMerge, ReportedMerge;
    var a, b := agents[x], agents[y];
    assert ClockIn(ticks, z) == ClockIn(clocks, z);
    assert Held(after[x].beliefs, k) == Offered(Held(a.beliefs, k), Held(b.beliefs, k), b.reliability >= a.reliability);
    assert Held(after[y].beliefs, k) == Offered(Held(b.beliefs, k), Held(a.beliefs, k), a.reliability >= b.reliability);
  }

  /** What it reports and counts: the entries each gained, missing ones and conflicts lost to an agent at least as reliable;
      the conflicts once for each side; one sync each, and one revision for each entry that was missing. */
  lemma MergeReports(agents: map<string, Agent>, clocks: map<string, Clock>, x: string, y: string,
                     after: map<string, Agent>, ticks: map<string, Clock>, result: Merged)
    requires x in agents && y in agents && x != y && Reconciled(agents, clocks, x, y, after, ticks, result)
    ensures x in after && y in after
    ensures var a, b := agents[x].beliefs, agents[y].beliefs;
      var onlyA, onlyB := |set j | j in a && j !in b|, |set j | j in b && j !in a|;
      var conflicts := |set j | j in a && j in b && a[j].value != b[j].value|;
      && result.pushed == onlyA + (if agents[x].reliability >= agents[y].reliability then conflicts else 0)
      && result.pulled == onlyB + (if agents[y].reliability >= agents[x].reliability then conflicts else 0)
      && result.conflicts == 2 * conflicts
      && after[x].revisionCount == agents[x].revisionCount + onlyB && after[y].revisionCount == agents[y].revisionCount + onlyA
      && after[x].syncCount == agents[x].syncCount + 1 && after[y].syncCount == agents[y].syncCount + 1
      && after[x].reliability == agents[x].reliability && after[y].reliability == agents[y].reliability
  {
    hide EmptiedExactly, TickedUnder, OfferedAll;
    var a, b := agents[x], agents[y];
    assert Missing(b.beliefs, a.beliefs) == set j | j in a.beliefs && j !in b.beliefs;
    assert Missing(a.beliefs, b.beliefs) == set j | j in b.beliefs && j !in a.beliefs;
    assert Conflicts(a.beliefs, b.beliefs) == Conflicts(b.beliefs, a.beliefs) ==
           set j | j in a.beliefs && j in b.beliefs && a.beliefs[j].value != b.beliefs[j].value;
  }

  /** And the clock of every key missing or in conflict ticks. */
  lemma MergeTicks(agents: map<string, Agent>, clocks: map<string, Clock>, x: string, y: string,
                   after: map<string, Agent>, ticks: map<string, Clock>, result: Merged, k: string)
    requires x in agents && y in agents && x != y && Reconciled(agents, clocks, x, y, after, ticks, result)
    ensures var a, b := agents[x].beliefs, agents[y].beliefs;
      var conflict := k in a && k in b && a[k].value != b[k].value;
      && (if x in ticks && k in ticks[x] then ticks[x][k] else 0) ==
         (if x in clocks && k in clocks[x] then clocks[x][k] else 0) + (if conflict || (k in b && k !in a) then 1 else 0)
      && (if y in ticks && k in ticks[y] then ticks[y][k] else 0) ==
         (if y in clocks && k in clocks[y] then clocks[y][k] else 0) + (if conflict || (k in a && k !in b) then 1 else 0)
  {
    hide EmptiedExactly, OfferedAll;
    var a, b := agents[x].beliefs, agents[y].beliefs;
    assert Count(ClockIn(ticks, x), k) == Count(ClockIn(clocks, x), k) + (if k in Missing(a, b) + Conflicts(a, b) then 1 else 0);
    assert Count(ClockIn(ticks, y), k) == Count(ClockIn(clocks, y), k) + (if k in Missing(b, a) + Conflicts(b, a) then 1 else 0);
  }

  // ---------------------------------------------------------------- divergence

  /** Listed are exactly the keys one of the two agents lacks, or under which they hold different values, with what each
      holds. */
  lemma DivergenceLists(a: Beliefs, b: Beliefs, divergence: seq<Difference>, k: string)
    requires ListsDifferences(a, b, divergence)
    ensures (exists d :: d in divergence && d.key == k) <==>
            (k in a && k !in b) || (k in b && k !in a) || (k in a && k in b && a[k].value != b[k].value)
    ensures forall d :: d in divergence && d.key == k ==>
      && d.status == (if k !in a then MissingInA else if k !in b then MissingInB else Conflict)
      && d.valueA == (if k in a then Some(a[k].value) else None) && d.valueB == (if k in b then Some(b[k].value) else None)
  {
    if d :| d in divergence && d.key == k {
      assert DifferenceAt(Held(a, d.key), Held(b, d.key), d.key) == Some(d);
    }
    if (k in a && k !in b) || (k in b && k !in a) || (k in a && k in b && a[k].value != b[k].value) {
      assert k in Divergent(a, b);
    }
  }

  /** After a merge the two agents hold the same keys and values exactly when their reliabilities differ or they had no
      conflict: with equal ones each takes the other's side and the values are swapped. */
  lemma MergeSettlesExactly(agents: map<string, Agent>, clocks: map<string, Clock>, x: string, y: string,
                            after: map<string, Agent>, ticks: map<string, Clock>, result: Merged)
    requires x in agents && y in agents && Reconciled(agents, clocks, x, y, after, ticks, result)
    ensures var a, b, c, d := agents[x].beliefs, agents[y].beliefs, after[x].beliefs, after[y].beliefs;
      (forall k :: (k in c <==> k in d) && (k in c && k in d ==> c[k].value == d[k].value)) <==>
      agents[x].reliability != agents[y].reliability || forall k :: k in a && k in b ==> a[k].value == b[k].value
  {
    hide TickedUnder, OfferedAll, ReportedMerge, CountedMerge;
    SameWhenNotDivergent(after[x].beliefs, after[y].beliefs);
    NoConflictMeans(agents[x].beliefs, agents[y].beliefs);
  }

  lemma SameWhenNotDivergent(c: Beliefs, d: Beliefs)
    ensures Divergent(c, d) == {} <==> forall k :: (k in c <==> k in d) && (k in c && k in d ==> c[k].value == d[k].value)
  {
    if Divergent(c, d) == {} {
      forall k
        ensures (k in c <==> k in d) && (k in c && k in d ==> c[k].value == d[k].value)
      {
        assert k !in Divergent(c, d);
      }
    }
  }

  lemma NoConflictMeans(a: Beliefs, b: Beliefs)
    ensures Conflicts(a, b) == {} <==> forall k :: k in a && k in b ==> a[k].value == b[k].value
  {
    if Conflicts(a, b) == {} {
      forall k | k in a && k in b
        ensures a[k].value == b[k].value
      {
        assert k !in Conflicts(a, b);
      }
    }
  }

  // ---------------------------------------------------------------- convergence

  /** Once every agent has pulled from all the others, in any order, each holds under every key anyone had one of the newest
      entries for it, and nothing else. */
  lemma EveryoneGetsTheNewest(states: seq<map<string, Agent>>, pullers: seq<string>, a: string, k: string)
    requires |states| == |pullers| + 1 && a in pullers && a in states[0]
    requires forall i :: 0 <= i < |pullers| ==> PullsFromAllOthers(states[i], pullers[i], states[i + 1])
    ensures a in states[|pullers|]
    ensures var held := states[|pullers|][a].beliefs;
      && (k in held <==> exists b :: b in states[0] && k in states[0][b].beliefs)
      && (k in held ==> && (exists b :: b in states[0] && k in states[0][b].beliefs && states[0][b].beliefs[k] == held[k])
                        && forall b :: b in states[0] && k in states[0][b].beliefs ==>
                             states[0][b].beliefs[k].createdAt <= held[k].createdAt)
  {
    hide PullsFromAllOthers;
    PullsConverge(states, pullers, a, k);
    NewestMeans(states[0], states[|pullers|][a].beliefs, k);
  }

  lemma NewestMeans(start: map<string, Agent>, held: Beliefs, k: string)
    requires k in held ==> IsNewest(start, k, held[k])
    ensures k in held ==>
      && (exists b :: b in start && k in start[b].beliefs && start[b].beliefs[k] == held[k])
      && forall b :: b in start && k in start[b].beliefs ==> start[b].beliefs[k].createdAt <= held[k].createdAt
  {
    if k in held {
      var b :| b in start && Held(start[b].beliefs, k) == Some(held[k]);
      assert k in start[b].beliefs;
      forall b | b in start && k in start[b].beliefs
        ensures start[b].beliefs[k].createdAt <= held[k].createdAt
      {
        assert AtLeast(Some(held[k]), Held(start[b].beliefs, k));
      }
    }
  }

  /** And when the newest entries agree in value, no two of them differ in any key or value. */
  lemma NobodyDiffers(states: seq<map<string, Agent>>, pullers: seq<string>, a: string, b: string, k: string)
    requires |states| == |pullers| + 1 && a in pullers && b in pullers && a in states[0] && b in states[0]
    requires forall i :: 0 <= i < |pullers| ==> PullsFromAllOthers(states[i], pullers[i], states[i + 1])
    requires forall x, y :: x in states[0] && y in states[0] && k in states[0][x].beliefs && k in states[0][y].beliefs &&
                            states[0][x].beliefs[k].createdAt == states[0][y].beliefs[k].createdAt ==>
               states[0][x].beliefs[k].value == states[0][y].beliefs[k].value
    ensures a in states[|pullers|] && b in states[|pullers|]
    ensures var c, d := states[|pullers|][a].beliefs, states[|pullers|][b].beliefs;
      (k in c <==> k in d) && (k in c && k in d ==> c[k].value == d[k].value)
  {
    hide PullsFromAllOthers;
    EveryoneGetsTheNewest(states, pullers, a, k);
    EveryoneGetsTheNewest(states, pullers, b, k);
  }
}
