/** Belief gossip of src/bilinc/core/belief_sync.py: pulling newer entries, reconciling two agents, listing where they
    differ. */
module BeliefSync {
  import opened Wrappers
  import opened KeyOrder

  datatype Entry = Entry(value: string, createdAt: real)

  type Beliefs = map<string, Entry>

  type Clock = map<string, nat>

  datatype Agent = Agent(beliefs: Beliefs, reliability: real, revisionCount: nat, syncCount: nat)

  function Held(beliefs: Beliefs, k: string): Option<Entry> {
    if k in beliefs then Some(beliefs[k]) else None
  }

  lemma SameHeld(a: Beliefs, b: Beliefs)
    requires forall k :: Held(a, k) == Held(b, k)
    ensures a == b
  {
    assert forall k :: k in a <==> Held(a, k).Some?;
    assert forall k :: k in b <==> Held(b, k).Some?;
    assert forall k :: k in a ==> Some(a[k]) == Held(a, k) == Held(b, k);
  }

  // ---------------------------------------------------------------- pulling

  /** Whether a source's entry replaces what the agent has: newer than it, and not cut off by `since` (zero is no cut). */
  predicate Replaces(mine: Option<Entry>, theirs: Entry, since: Option<real>) {
    && !(mine.Some? && mine.value.createdAt >= theirs.createdAt)
    && !(since.Some? && since.value != 0.0 && theirs.createdAt < since.value)
  }

  /** The entry an agent holds after being offered another one: the newer, its own on a tie. */
  function Newer(mine: Option<Entry>, theirs: Option<Entry>, since: Option<real>): Option<Entry> {
    if theirs.Some? && Replaces(mine, theirs.value, since) then theirs else mine
  }

  function Count(clock: Clock, k: string): nat {
    if k in clock then clock[k] else 0
  }

  function Tick(clock: Clock, k: string): Clock {
    clock[k := Count(clock, k) + 1]
  }

  function ClockIn(clocks: map<string, Clock>, agent: string): Clock {
    if agent in clocks then clocks[agent] else map[]
  }

  // After offering the source's entries under the keys done so far.
  ghost predicate PulledSome(beliefs: Beliefs, source: Beliefs, since: Option<real>, done: set<string>, after: Beliefs) {
    forall k :: Held(after, k) == if k in done then Newer(Held(beliefs, k), Held(source, k), since) else Held(beliefs, k)
  }

  /** After a whole source was offered. */
  ghost predicate Pulled(beliefs: Beliefs, source: Beliefs, since: Option<real>, after: Beliefs) {
    forall k :: Held(after, k) == Newer(Held(beliefs, k), Held(source, k), since)
  }

  // One tick for each key whose entry changed.
  ghost predicate TickedWhereChanged(beliefs: Beliefs, after: Beliefs, clock: Clock, ticks: Clock) {
    forall k :: Count(ticks, k) == Count(clock, k) + (if Held(after, k) != Held(beliefs, k) then 1 else 0)
  }

  lemma PullStep(beliefs: Beliefs, source: Beliefs, since: Option<real>, done: set<string>, after: Beliefs, clock: Clock,
                 ticks: Clock, k: string)
    requires PulledSome(beliefs, source, since, done, after) && TickedWhereChanged(beliefs, after, clock, ticks)
    requires k in source && k !in done
    ensures if Replaces(Held(after, k), source[k], since) then
              && PulledSome(beliefs, source, since, done + {k}, after[k := source[k]])
              && TickedWhereChanged(beliefs, after[k := source[k]], clock, Tick(ticks, k))
            else PulledSome(beliefs, source, since, done + {k}, after)
  {
    assert Held(after, k) == Held(beliefs, k);
    if Replaces(Held(after, k), source[k], since) {
      TakeOne(beliefs, source, since, done, after, k);
      TickOne(beliefs, after, clock, ticks, k, source[k]);
    }
  }

  lemma TakeOne(beliefs: Beliefs, source: Beliefs, since: Option<real>, done: set<string>, after: Beliefs, k: string)
    requires PulledSome(beliefs, source, since, done, after) && k in source && Replaces(Held(beliefs, k), source[k], since)
    ensures PulledSome(beliefs, source, since, done + {k}, after[k := source[k]])
  {
    hide Replaces;
    assert forall x :: Held(after[k := source[k]], x) == if x == k then Some(source[k]) else Held(after, x);
  }

  lemma TickOne(beliefs: Beliefs, after: Beliefs, clock: Clock, ticks: Clock, k: string, e: Entry)
    requires TickedWhereChanged(beliefs, after, clock, ticks) && Held(after, k) == Held(beliefs, k) != Some(e)
    ensures TickedWhereChanged(beliefs, after[k := e], clock, Tick(ticks, k))
  {
    assert forall x :: Held(after[k := e], x) == if x == k then Some(e) else Held(after, x);
    assert forall x :: Count(Tick(ticks, k), x) == if x == k then Count(ticks, k) + 1 else Count(ticks, x);
  }

  lemma PullDone(beliefs: Beliefs, source: Beliefs, since: Option<real>, after: Beliefs)
    requires PulledSome(beliefs, source, since, source.Keys, after)
    ensures Pulled(beliefs, source, since, after)
  {
  }

  lemma PullNothing(beliefs: Beliefs, source: Beliefs, since: Option<real>, clock: Clock)
    ensures PulledSome(beliefs, source, since, {}, beliefs) && TickedWhereChanged(beliefs, beliefs, clock, clock)
  {
  }

  lemma NextArranged(keys: set<string>, i: nat)
    requires i < |Arrange(keys)|
    ensures var s := Arrange(keys);
      s[i] in keys && s[i] !in Elements(s[..i]) && Elements(s[..i + 1]) == Elements(s[..i]) + {s[i]}
  {
    var s := Arrange(keys);
    assert s[i] in s;
    FrontElements(s, i);
    ArrangeSorts(keys);
    forall j | 0 <= j < i
      ensures s[j] != s[i]
    {
      LessTrichotomy(s[j], s[i]);
    }
  }

  /** The keys under which a source has something newer. */
  function Updates(beliefs: Beliefs, source: Beliefs, since: Option<real>): set<string> {
    set k | k in source && Replaces(Held(beliefs, k), source[k], since)
  }

  function Size(s: set<string>): nat {
    |s|
  }

  function CountIn(some: set<string>, done: set<string>): nat {
    |some * done|
  }

  lemma CountNext(some: set<string>, done: set<string>, k: string)
    requires k !in done
    ensures CountIn(some, done + {k}) == CountIn(some, done) + (if k in some then 1 else 0)
  {
    if k in some {
      assert some * (done + {k}) == some * done + {k};
    } else {
      assert some * (done + {k}) == some * done;
    }
  }

  lemma CountEnds(some: set<string>, all: set<string>)
    requires some <= all
    ensures CountIn(some, {}) == 0 && CountIn(some, all) == |some|
  {
    assert some * all == some && some * {} == {};
  }

  lemma StillOld(beliefs: Beliefs, source: Beliefs, since: Option<real>, done: set<string>, after: Beliefs, k: string)
    requires PulledSome(beliefs, source, since, done, after) && k in source && k !in done
    ensures k in Updates(beliefs, source, since) <==> Replaces(Held(after, k), source[k], since)
  {
  }

  lemma UpdatesInSource(beliefs: Beliefs, source: Beliefs, since: Option<real>)
    ensures Updates(beliefs, source, since) <= source.Keys
  {
  }

  // The loop over one source's beliefs.
  method PullSource(beliefs: Beliefs, clock: Clock, source: Beliefs, since: Option<real>)
    returns (after: Beliefs, ticks: Clock, pulled: nat)
    ensures Pulled(beliefs, source, since, after) && TickedWhereChanged(beliefs, after, clock, ticks)
    ensures pulled == Size(Updates(beliefs, source, since))
  {
    hide PulledSome, TickedWhereChanged, Elements, Replaces, Arrange, Pulled, Updates, CountIn;
    UpdatesInSource(beliefs, source, since);
    CountEnds(Updates(beliefs, source, since), source.Keys);
    after, ticks, pulled := beliefs, clock, 0;
    var keys := Arrange(source.Keys);
    ArrangedElements(source.Keys);
    PullNothing(beliefs, source, since, clock);
    for i := 0 to |keys|
      invariant PulledSome(beliefs, source, since, Elements(keys[..i]), after)
      invariant TickedWhereChanged(beliefs, after, clock, ticks)
      invariant pulled == CountIn(Updates(beliefs, source, since), Elements(keys[..i]))
    {
      var k := keys[i];
      NextArranged(source.Keys, i);
      CountNext(Updates(beliefs, source, since), Elements(keys[..i]), k);
      StillOld(beliefs, source, since, Elements(keys[..i]), after, k);
      PullStep(beliefs, source, since, Elements(keys[..i]), after, clock, ticks, k);
      if Replaces(Held(after, k), source[k], since) {
        ticks := Tick(ticks, k);
        after := after[k := source[k]];
        pulled := pulled + 1;
      }
    }
    PullDone(beliefs, source, since, after);
  }

  /** What the agent holds under one key after pulling from the first n sources; unknown agents are skipped. */
  function NewestOf(agents: map<string, Agent>, mine: Option<Entry>, sources: seq<string>, n: nat, since: Option<real>,
                    k: string): Option<Entry>
    requires n <= |sources|
  {
    if n == 0 then mine else
      var now := NewestOf(agents, mine, sources, n - 1, since, k);
      if sources[n - 1] in agents then Newer(now, Held(agents[sources[n - 1]].beliefs, k), since) else now
  }

  /** The agent ends, under every key, with the newest of its own entry and the sources' (the earlier source on a tie). */
  ghost predicate PulledAll(agents: map<string, Agent>, beliefs: Beliefs, sources: seq<string>, n: nat, since: Option<real>, after: Beliefs)
    requires n <= |sources|
  {
    forall k :: Held(after, k) == NewestOf(agents, Held(beliefs, k), sources, n, since, k)
  }

  lemma PulledNone(agents: map<string, Agent>, beliefs: Beliefs, sources: seq<string>, since: Option<real>)
    ensures PulledAll(agents, beliefs, sources, 0, since, beliefs)
  {
  }

  lemma PulledAllNext(agents: map<string, Agent>, beliefs: Beliefs, sources: seq<string>, n: nat, since: Option<real>,
                      now: Beliefs, after: Beliefs)
    requires n < |sources| && PulledAll(agents, beliefs, sources, n, since, now)
    requires if sources[n] in agents then Pulled(now, agents[sources[n]].beliefs, since, after) else after == now
    ensures PulledAll(agents, beliefs, sources, n + 1, since, after)
  {
  }

  /** How often the agent's entry under one key was replaced along the first n sources. */
  function Takes(agents: map<string, Agent>, mine: Option<Entry>, sources: seq<string>, n: nat, since: Option<real>, k: string): nat
    requires n <= |sources|
  {
    if n == 0 then 0 else
      var now := NewestOf(agents, mine, sources, n - 1, since, k);
      Takes(agents, mine, sources, n - 1, since, k) +
      (if sources[n - 1] in agents && k in agents[sources[n - 1]].beliefs &&
          Replaces(now, agents[sources[n - 1]].beliefs[k], since) then 1 else 0)
  }

  // One tick for each time an entry was replaced.
  ghost predicate TickedPerTake(agents: map<string, Agent>, beliefs: Beliefs, sources: seq<string>, n: nat, since: Option<real>,
                                clock: Clock, ticks: Clock)
    requires n <= |sources|
  {
    forall k :: Count(ticks, k) == Count(clock, k) + Takes(agents, Held(beliefs, k), sources, n, since, k)
  }

  // The beliefs after one source, and after the first n.
  function AfterSource(beliefs: Beliefs, source: Beliefs, since: Option<real>): Beliefs {
    map k | k in beliefs.Keys + Updates(beliefs, source, since) ::
      if k in Updates(beliefs, source, since) then source[k] else beliefs[k]
  }

  lemma PulledIs(beliefs: Beliefs, source: Beliefs, since: Option<real>, after: Beliefs)
    requires Pulled(beliefs, source, since, after)
    ensures after == AfterSource(beliefs, source, since)
  {
    SameHeld(after, AfterSource(beliefs, source, since));
  }

  function AfterSources(agents: map<string, Agent>, beliefs: Beliefs, sources: seq<string>, n: nat, since: Option<real>): Beliefs
    requires n <= |sources|
  {
    if n == 0 then beliefs else
      var now := AfterSources(agents, beliefs, sources, n - 1, since);
      if sources[n - 1] in agents then AfterSource(now, agents[sources[n - 1]].beliefs, since) else now
  }

  /** The entries the first n sources had newer, each source counted when its turn comes. */
  function TotalUpdates(agents: map<string, Agent>, beliefs: Beliefs, sources: seq<string>, n: nat, since: Option<real>): nat
    requires n <= |sources|
  {
    if n == 0 then 0 else
      TotalUpdates(agents, beliefs, sources, n - 1, since) +
      (if sources[n - 1] in agents
       then Size(Updates(AfterSources(agents, beliefs, sources, n - 1, since), agents[sources[n - 1]].beliefs, since)) else 0)
  }

  lemma TicksNone(agents: map<string, Agent>, beliefs: Beliefs, sources: seq<string>, since: Option<real>, clock: Clock)
    ensures TickedPerTake(agents, beliefs, sources, 0, since, clock, clock)
  {
  }

  lemma TicksNext(agents: map<string, Agent>, beliefs: Beliefs, sources: seq<string>, n: nat, since: Option<real>, now: Beliefs,
                  after: Beliefs, clock: Clock, before: Clock, ticks: Clock)
    requires n < |sources| && PulledAll(agents, beliefs, sources, n, since, now)
    requires TickedPerTake(agents, beliefs, sources, n, since, clock, before)
    requires if sources[n] in agents
             then Pulled(now, agents[sources[n]].beliefs, since, after) && TickedWhereChanged(now, after, before, ticks)
             else ticks == before
    ensures TickedPerTake(agents, beliefs, sources, n + 1, since, clock, ticks)
  {
    forall k
      ensures Count(ticks, k) == Count(clock, k) + Takes(agents, Held(beliefs, k), sources, n + 1, since, k)
    {
      assert Held(now, k) == NewestOf(agents, Held(beliefs, k), sources, n, since, k);
      assert Count(before, k) == Count(clock, k) + Takes(agents, Held(beliefs, k), sources, n, since, k);
    }
  }

  // ---------------------------------------------------------------- merging

  /** What one side holds after the other's entry was offered: kept, unless it has none or the other side prevails on
      different values. */
  function Offered(mine: Option<Entry>, theirs: Option<Entry>, wins: bool): Option<Entry> {
    if theirs.None? then mine
    else if mine.None? then theirs
    else if theirs.value.value != mine.value.value && wins then theirs
    else mine
  }

  ghost predicate OfferedSome(mine: Beliefs, theirs: Beliefs, wins: bool, done: set<string>, after: Beliefs) {
    forall k :: Held(after, k) == if k in done then Offered(Held(mine, k), Held(theirs, k), wins) else Held(mine, k)
  }

  ghost predicate OfferedAll(mine: Beliefs, theirs: Beliefs, wins: bool, after: Beliefs) {
    forall k :: Held(after, k) == Offered(Held(mine, k), Held(theirs, k), wins)
  }

  /** Keys both hold with different values. */
  function Conflicts(a: Beliefs, b: Beliefs): set<string> {
    set k | k in a && k in b && a[k].value != b[k].value
  }

  function Missing(a: Beliefs, b: Beliefs): set<string> {
    set k | k in b && k !in a
  }

  /** Where two agents differ: missing on one side, or different values. */
  function Divergent(a: Beliefs, b: Beliefs): set<string> {
    Missing(a, b) + Missing(b, a) + Conflicts(a, b)
  }

  lemma OfferStep(mine: Beliefs, theirs: Beliefs, wins: bool, done: set<string>, after: Beliefs, k: string)
    requires OfferedSome(mine, theirs, wins, done, after) && k in theirs && k !in done
    ensures if k !in after || (theirs[k].value != after[k].value && wins) then
              OfferedSome(mine, theirs, wins, done + {k}, after[k := theirs[k]])
            else OfferedSome(mine, theirs, wins, done + {k}, after)
  {
    assert Held(after, k) == Held(mine, k);
    assert forall x :: Held(after[k := theirs[k]], x) == if x == k then Some(theirs[k]) else Held(after, x);
  }

  lemma OfferDone(mine: Beliefs, theirs: Beliefs, wins: bool, after: Beliefs)
    requires OfferedSome(mine, theirs, wins, theirs.Keys, after)
    ensures OfferedAll(mine, theirs, wins, after)
  {
  }

  lemma OfferNothing(mine: Beliefs, theirs: Beliefs, wins: bool)
    ensures OfferedSome(mine, theirs, wins, {}, mine)
  {
  }

  // One more tick for each of these keys.
  ghost predicate TickedUnder(before: Clock, after: Clock, keys: set<string>) {
    forall k :: Count(after, k) == Count(before, k) + (if k in keys then 1 else 0)
  }

  lemma TickUnder(before: Clock, now: Clock, some: set<string>, done: set<string>, k: string)
    requires TickedUnder(before, now, some * done) && k !in done
    ensures k in some ==> TickedUnder(before, Tick(now, k), some * (done + {k}))
    ensures k !in some ==> TickedUnder(before, now, some * (done + {k}))
  {
    assert forall x :: Count(Tick(now, k), x) == if x == k then Count(now, k) + 1 else Count(now, x);
    if k !in some {
      assert some * (done + {k}) == some * done;
    }
  }

  lemma TalliesEnd(mine: Beliefs, theirs: Beliefs, clock: Clock)
    ensures var m, c := Missing(mine, theirs), Conflicts(mine, theirs);
      && CountIn(m, {}) == 0 && CountIn(m, theirs.Keys) == Size(m) && CountIn(c, {}) == 0 && CountIn(c, theirs.Keys) == Size(c)
      && (m + c) * theirs.Keys == m + c && TickedUnder(clock, clock, (m + c) * {})
  {
    CountEnds(Missing(mine, theirs), theirs.Keys);
    CountEnds(Conflicts(mine, theirs), theirs.Keys);
    assert (Missing(mine, theirs) + Conflicts(mine, theirs)) * theirs.Keys == Missing(mine, theirs) + Conflicts(mine, theirs);
    assert (Missing(mine, theirs) + Conflicts(mine, theirs)) * {} == {};
  }

  // A key not yet offered is missing or in conflict just as it was at the start.
  lemma OfferKind(mine: Beliefs, theirs: Beliefs, wins: bool, done: set<string>, after: Beliefs, k: string)
    requires OfferedSome(mine, theirs, wins, done, after) && k in theirs && k !in done
    ensures k in Missing(mine, theirs) <==> k !in after
    ensures k in Conflicts(mine, theirs) <==> k in after && theirs[k].value != after[k].value
  {
    assert Held(after, k) == Held(mine, k);
  }

  // One direction of a merge: `theirs` offered to `mine`.
  method OfferEntries(mine: Beliefs, clock: Clock, theirs: Beliefs, wins: bool)
    returns (after: Beliefs, ticks: Clock, added: nat, merged: nat, conflicts: nat)
    ensures OfferedAll(mine, theirs, wins, after)
    ensures TickedUnder(clock, ticks, Missing(mine, theirs) + Conflicts(mine, theirs))
    ensures added == Size(Missing(mine, theirs)) && conflicts == Size(Conflicts(mine, theirs))
    ensures merged == added + (if wins then conflicts else 0)
  {
    hide OfferedSome, Elements, Arrange, OfferedAll, TickedUnder, Missing, Conflicts, CountIn, Size;
    after, ticks, added, merged, conflicts := mine, clock, 0, 0, 0;
    var keys := Arrange(theirs.Keys);
    ArrangedElements(theirs.Keys);
    TalliesEnd(mine, theirs, clock);
    OfferNothing(mine, theirs, wins);
    for i := 0 to |keys|
      invariant OfferedSome(mine, theirs, wins, Elements(keys[..i]), after)
      invariant TickedUnder(clock, ticks, (Missing(mine, theirs) + Conflicts(mine, theirs)) * Elements(keys[..i]))
      invariant added == CountIn(Missing(mine, theirs), Elements(keys[..i]))
      invariant conflicts == CountIn(Conflicts(mine, theirs), Elements(keys[..i]))
      invariant merged == added + (if wins then conflicts else 0)
    {
      var k := keys[i];
      NextArranged(theirs.Keys, i);
      CountNext(Missing(mine, theirs), Elements(keys[..i]), k);
      CountNext(Conflicts(mine, theirs), Elements(keys[..i]), k);
      OfferKind(mine, theirs, wins, Elements(keys[..i]), after, k);
      TickUnder(clock, ticks, Missing(mine, theirs) + Conflicts(mine, theirs), Elements(keys[..i]), k);
      OfferStep(mine, theirs, wins, Elements(keys[..i]), after, k);
      if k !in after {
        after := after[k := theirs[k]];
        added, merged := added + 1, merged + 1;
        ticks := Tick(ticks, k);
      } else if theirs[k].value != after[k].value {
        conflicts := conflicts + 1;
        if wins {
          after := after[k := theirs[k]];
          merged := merged + 1;
        }
        ticks := Tick(ticks, k);
      }
    }
    OfferDone(mine, theirs, wins, after);
  }

  // ---------------------------------------------------------------- divergence

  datatype Status = MissingInA | MissingInB | Conflict

  datatype Difference = Difference(key: string, status: Status, valueA: Option<string>, valueB: Option<string>)

  function DifferenceAt(a: Option<Entry>, b: Option<Entry>, k: string): Option<Difference> {
    if a.None? && b.Some? then Some(Difference(k, MissingInA, None, Some(b.value.value)))
    else if b.None? && a.Some? then Some(Difference(k, MissingInB, Some(a.value.value), None))
    else if a.Some? && b.Some? && a.value.value != b.value.value then
      Some(Difference(k, Conflict, Some(a.value.value), Some(b.value.value)))
    else None
  }

  lemma DifferenceKey(a: Option<Entry>, b: Option<Entry>, k: string)
    ensures DifferenceAt(a, b, k).Some? ==> DifferenceAt(a, b, k).value.key == k
  {
  }

  // The differences at the first n keys, in order.
  function Listed(a: Beliefs, b: Beliefs, keys: seq<string>, n: nat): seq<Difference>
    requires n <= |keys|
  {
    if n == 0 then [] else
      Listed(a, b, keys, n - 1) +
      (match DifferenceAt(Held(a, keys[n - 1]), Held(b, keys[n - 1]), keys[n - 1]) case None => [] case Some(d) => [d])
  }

  lemma {:induction false} ListedMeaning(a: Beliefs, b: Beliefs, keys: seq<string>, n: nat, k: string)
    requires n <= |keys|
    ensures forall d :: d in Listed(a, b, keys, n) ==> d.key in keys[..n] && DifferenceAt(Held(a, d.key), Held(b, d.key), d.key) == Some(d)
    ensures k in keys[..n] && DifferenceAt(Held(a, k), Held(b, k), k).Some? ==>
      DifferenceAt(Held(a, k), Held(b, k), k).value in Listed(a, b, keys, n)
  {
    hide DifferenceAt;
    if n > 0 {
      ListedMeaning(a, b, keys, n - 1, k);
      assert keys[..n] == keys[..n - 1] + [keys[n - 1]];
      DifferenceKey(Held(a, keys[n - 1]), Held(b, keys[n - 1]), keys[n - 1]);
    }
  }

  /** Each differing key is listed with both values, and nothing else is listed. */
  ghost predicate ListsDifferences(a: Beliefs, b: Beliefs, divergence: seq<Difference>) {
    && (forall d :: d in divergence ==> DifferenceAt(Held(a, d.key), Held(b, d.key), d.key) == Some(d))
    && (forall k :: k in Divergent(a, b) ==> exists d :: d in divergence && d.key == k)
  }

  method DivergenceOf(a: Beliefs, b: Beliefs) returns (divergence: seq<Difference>)
    ensures ListsDifferences(a, b, divergence)
  {
    hide DifferenceAt, Held;
    divergence := [];
    var keys := Arrange(a.Keys + b.Keys);
    for i := 0 to |keys|
      invariant divergence == Listed(a, b, keys, i)
    {
      var d := DifferenceAt(Held(a, keys[i]), Held(b, keys[i]), keys[i]);
      if d.Some? {
        divergence := divergence + [d.value];
      }
    }
    ListedAll(a, b, keys);
  }

  lemma DivergentDiffers(a: Beliefs, b: Beliefs, k: string)
    requires k in Divergent(a, b)
    ensures k in a.Keys + b.Keys && DifferenceAt(Held(a, k), Held(b, k), k).Some?
    ensures DifferenceAt(Held(a, k), Held(b, k), k).value.key == k
  {
  }

  lemma ListedAll(a: Beliefs, b: Beliefs, keys: seq<string>)
    requires forall k :: k in keys <==> k in a.Keys + b.Keys
    ensures ListsDifferences(a, b, Listed(a, b, keys, |keys|))
  {
    hide Listed, Divergent, DifferenceAt;
    assert keys[..|keys|] == keys;
    ListedMeaning(a, b, keys, |keys|, "");
    forall k | k in Divergent(a, b)
      ensures exists d :: d in Listed(a, b, keys, |keys|) && d.key == k
    {
      ListedMeaning(a, b, keys, |keys|, k);
      DivergentDiffers(a, b, k);
    }
  }

  // ---------------------------------------------------------------- the engine

  /** Agents are listed once each, in the order they registered. */
  ghost predicate InOrder(agents: set<string>, order: seq<string>) {
    && (forall a :: a in order <==> a in agents)
    && (forall i, j :: 0 <= i < j < |order| ==> order[i] != order[j])
  }

  class BeliefSyncEngine {
    var agents: map<string, Agent>
    var order: seq<string>
    var clocks: map<string, Clock>

    ghost predicate Valid()
      reads this
    {
      InOrder(agents.Keys, order)
    }

    constructor ()
      ensures Valid() && agents == map[]
    {
      agents, order, clocks := map[], [], map[];
    }

    /** Registers an agent, with no beliefs and a reliability between 0 and 1; one already registered stays as it is. */
    method InitSync(agent: string, reliability: real)
      requires Valid()
      modifies this
      ensures Valid()
      ensures agent in old(agents) ==> agents == old(agents) && clocks == old(clocks)
      ensures agent !in old(agents) ==>
        && agents.Keys == old(agents).Keys + {agent} && (forall a :: a in old(agents) ==> agents[a] == old(agents)[a])
        && agents[agent].beliefs == map[] && agents[agent].revisionCount == agents[agent].syncCount == 0
        && 0.0 <= agents[agent].reliability <= 1.0
        && (0.0 <= reliability <= 1.0 ==> agents[agent].reliability == reliability)
        && ClockIn(clocks, agent) == map[] && (forall a :: a != agent ==> ClockIn(clocks, a) == ClockIn(old(clocks), a))
    {
      if agent !in agents {
        var clamped := if reliability < 0.0 then 0.0 else if reliability > 1.0 then 1.0 else reliability;
        agents := agents[agent := Agent(map[], clamped, 0, 0)];
        order := order + [agent];
        clocks := clocks[agent := map[]];
      }
    }

    function Others(agent: string, n: nat): (others: seq<string>)
      requires n <= |order|
      reads `order
      ensures forall a :: a in others <==> a in order[..n] && a != agent
    {
      if n == 0 then [] else
        assert order[..n] == order[..n - 1] + [order[n - 1]];
        Others(agent, n - 1) + (if order[n - 1] == agent then [] else [order[n - 1]])
    }

    // Everybody else, in the order they registered.
    lemma {:induction false} OthersInOrder(agent: string, i: nat, n: nat)
      requires i < |order| && order[i] == agent && n <= |order| && forall a, b :: 0 <= a < b < |order| ==> order[a] != order[b]
      ensures Others(agent, n) == if n <= i then order[..n] else order[..i] + order[i + 1..n]
    {
      if n > 0 {
        OthersInOrder(agent, i, n - 1);
        assert n <= i ==> order[..n] == order[..n - 1] + [order[n - 1]];
        assert n > i + 1 ==> order[..i] + order[i + 1..n] == (order[..i] + order[i + 1..n - 1]) + [order[n - 1]];
        assert n == i + 1 ==> order[i + 1..n] == [];
      }
    }

    /** Unless told from whom, an agent pulls from everybody else, in the order they registered. */
    lemma SourcesAre(agent: string, fromAgents: seq<string>, i: nat)
      requires Valid() && i < |order| && order[i] == agent
      ensures Sources(agent, fromAgents) == if fromAgents != [] then fromAgents else order[..i] + order[i + 1..]
    {
      OthersInOrder(agent, i, |order|);
      assert order[i + 1..|order|] == order[i + 1..];
    }

    function Sources(agent: string, fromAgents: seq<string>): seq<string>
      reads `order
    {
      if fromAgents != [] then fromAgents else Others(agent, |order|)
    }

    /** Pulls newer entries from the sources in turn; nothing else of any agent changes. */
    method PullUpdates(agent: string, since: Option<real>, fromAgents: seq<string>) returns (pulled: Option<nat>)
      requires Valid()
      modifies `agents, `clocks
      ensures Valid() && (pulled.None? <==> agent !in old(agents))
      ensures pulled.None? ==> agents == old(agents) && clocks == old(clocks)
      ensures pulled.Some? ==>
        var before := old(agents)[agent];
        var sources := Sources(agent, fromAgents);
        && agents.Keys == old(agents).Keys && (forall a :: a in agents && a != agent ==> agents[a] == old(agents)[a])
        && PulledAll(old(agents), before.beliefs, sources, |sources|, since, agents[agent].beliefs)
        && TickedPerTake(old(agents), before.beliefs, sources, |sources|, since, ClockIn(old(clocks), agent), ClockIn(clocks, agent))
        && (forall x :: x != agent ==> ClockIn(clocks, x) == ClockIn(old(clocks), x))
        && pulled.value == TotalUpdates(old(agents), before.beliefs, sources, |sources|, since)
        && agents[agent].revisionCount == before.revisionCount + pulled.value
        && agents[agent].syncCount == before.syncCount + 1 && agents[agent].reliability == before.reliability
      ensures pulled.Some? && since.None? && fromAgents == [] ==> PullsFromAllOthers(old(agents), agent, agents)
    {
      if agent !in agents {
        return None;
      }
      var before := agents[agent];
      var sources := Sources(agent, fromAgents);
      var beliefs, clock, count := PullFromAll(agents, before.beliefs, ClockIn(clocks, agent), sources, since);
      clocks := clocks[agent := clock];
      agents := agents[agent := before.(beliefs := beliefs, revisionCount := before.revisionCount + count,
                                        syncCount := before.syncCount + 1)];
      pulled := Some(count);
      if since.None? && fromAgents == [] {
        CoversOthers(old(agents), agent, sources, order);
        PulledFromOthers(old(agents), agent, agents, sources);
      }
    }

    /** Reconciles two agents: each is offered what the other had when the merge began. */
    method MergeSync(agent: string, withAgent: string) returns (result: Option<Merged>)
      requires Valid()
      modifies `agents, `clocks
      ensures Valid() && (result.None? <==> agent !in old(agents) || withAgent !in old(agents))
      ensures result.None? ==> agents == old(agents) && clocks == old(clocks)
      ensures result.Some? ==>
        Reconciled(old(agents), old(clocks), agent, withAgent, agents, clocks, result.value)
    {
      if agent !in agents || withAgent !in agents {
        return None;
      }
      hide Reconciled, AfterMerge;
      var x, y := Reconcile(agents[agent], agents[withAgent], ClockIn(clocks, agent), ClockIn(clocks, withAgent));
      MergeReconciles(agents, clocks, agent, withAgent, x, y);
      clocks := clocks[withAgent := y.ticks][agent := x.ticks];
      agents := AfterMerge(agents, agent, withAgent, x, y);
      result := Some(Merged(y.merged, x.merged, x.conflicts + y.conflicts));
    }

    method GetDivergence(agentA: string, agentB: string) returns (divergence: seq<Difference>)
      ensures agentA !in agents || agentB !in agents ==> divergence == []
      ensures agentA in agents && agentB in agents ==>
        ListsDifferences(agents[agentA].beliefs, agents[agentB].beliefs, divergence)
    {
      if agentA !in agents || agentB !in agents {
        return [];
      }
      divergence := DivergenceOf(agents[agentA].beliefs, agents[agentB].beliefs);
    }
  }

  /** What a merge reports. */
  datatype Merged = Merged(pushed: nat, pulled: nat, conflicts: nat)

  // How many entries of the other agent this one takes over.
  function Taken(mine: Agent, theirs: Agent): nat {
    Size(Missing(mine.beliefs, theirs.beliefs)) +
    (if theirs.reliability >= mine.reliability then Size(Conflicts(mine.beliefs, theirs.beliefs)) else 0)
  }

  function ReportedMerge(a: Agent, b: Agent): Merged {
    Merged(Taken(b, a), Taken(a, b), Size(Conflicts(b.beliefs, a.beliefs)) + Size(Conflicts(a.beliefs, b.beliefs)))
  }

  /** The two agents no longer differ exactly when their reliabilities did, or there was no conflict to settle. */
  ghost predicate EmptiedExactly(a: Agent, b: Agent, afterA: Beliefs, afterB: Beliefs) {
    Divergent(afterA, afterB) == {} <==> a.reliability != b.reliability || Conflicts(a.beliefs, b.beliefs) == {}
  }

  // One sync, and one revision for each entry that was missing.
  predicate CountedMerge(mine: Agent, theirs: Agent, after: Agent) {
    && after.revisionCount == mine.revisionCount + Size(Missing(mine.beliefs, theirs.beliefs))
    && after.syncCount == mine.syncCount + 1 && after.reliability == mine.reliability
  }

  datatype Side = Side(after: Beliefs, ticks: Clock, added: nat, merged: nat, conflicts: nat)

  // One loop of a merge: what `mine` makes of what `theirs` held.
  ghost predicate MergedSide(mine: Agent, theirs: Agent, clock: Clock, side: Side) {
    && OfferedAll(mine.beliefs, theirs.beliefs, theirs.reliability >= mine.reliability, side.after)
    && TickedUnder(clock, side.ticks, Missing(mine.beliefs, theirs.beliefs) + Conflicts(mine.beliefs, theirs.beliefs))
    && side.added == Size(Missing(mine.beliefs, theirs.beliefs)) && side.conflicts == Size(Conflicts(mine.beliefs, theirs.beliefs))
    && side.merged == Taken(mine, theirs)
  }

  // The two loops of a merge, each over what the other agent held when it began.
  method Reconcile(a: Agent, b: Agent, clockA: Clock, clockB: Clock) returns (x: Side, y: Side)
    ensures MergedSide(a, b, clockA, x) && MergedSide(b, a, clockB, y)
  {
    hide OfferedAll, TickedUnder, Missing, Conflicts, Size;
    var afterB, ticksB, addedB, mergedB, conflictsB :=
      OfferEntries(b.beliefs, clockB, a.beliefs, a.reliability >= b.reliability);
    var afterA, ticksA, addedA, mergedA, conflictsA :=
      OfferEntries(a.beliefs, clockA, b.beliefs, b.reliability >= a.reliability);
    x, y := Side(afterA, ticksA, addedA, mergedA, conflictsA), Side(afterB, ticksB, addedB, mergedB, conflictsB);
  }

  function Counted(agent: Agent, beliefs: Beliefs, added: nat): Agent {
    agent.(beliefs := beliefs, revisionCount := agent.revisionCount + added, syncCount := agent.syncCount + 1)
  }

  // Both agents' new beliefs and counters; an agent merged with itself is synced twice.
  function AfterMerge(agents: map<string, Agent>, x: string, y: string, sideX: Side, sideY: Side): (after: map<string, Agent>)
    requires x in agents && y in agents
    ensures after.Keys == agents.Keys
  {
    var first := agents[y := Counted(agents[y], sideY.after, sideY.added)];
    first[x := Counted(first[x], sideX.after, sideX.added)]
  }

  /** The outcome of a merge of x with y: each is offered what the other held when it began, everything is counted, and
      nobody else changes. */
  ghost predicate Reconciled(agents: map<string, Agent>, clocks: map<string, Clock>, x: string, y: string,
                             after: map<string, Agent>, ticks: map<string, Clock>, result: Merged)
    requires x in agents && y in agents
  {
    var a, b := agents[x], agents[y];
    && after.Keys == agents.Keys && (forall z :: z in after && z != x && z != y ==> after[z] == agents[z])
    && OfferedAll(a.beliefs, b.beliefs, b.reliability >= a.reliability, after[x].beliefs)
    && OfferedAll(b.beliefs, a.beliefs, a.reliability >= b.reliability, after[y].beliefs)
    && EmptiedExactly(a, b, after[x].beliefs, after[y].beliefs)
    && (x != y ==>
          && CountedMerge(a, b, after[x]) && CountedMerge(b, a, after[y])
          && TickedUnder(ClockIn(clocks, x), ClockIn(ticks, x), Missing(a.beliefs, b.beliefs) + Conflicts(a.beliefs, b.beliefs))
          && TickedUnder(ClockIn(clocks, y), ClockIn(ticks, y), Missing(b.beliefs, a.beliefs) + Conflicts(b.beliefs, a.beliefs)))
    && (forall z :: z != x && z != y ==> ClockIn(ticks, z) == ClockIn(clocks, z))
    && result == ReportedMerge(a, b)
  }

  lemma MergedAgents(agents: map<string, Agent>, x: string, y: string, sideX: Side, sideY: Side)
    requires x in agents && y in agents
    ensures var after := AfterMerge(agents, x, y, sideX, sideY);
      && (forall z :: z in after && z != x && z != y ==> after[z] == agents[z])
      && after[x].beliefs == sideX.after
      && (x != y ==> after[x] == Counted(agents[x], sideX.after, sideX.added) && after[y] == Counted(agents[y], sideY.after, sideY.added))
      && (x != y ==> after[y].beliefs == sideY.after)
  {
  }

  lemma MergedClocks(clocks: map<string, Clock>, x: string, y: string, ticksX: Clock, ticksY: Clock)
    ensures var ticks := clocks[y := ticksY][x := ticksX];
      && ClockIn(ticks, x) == ticksX && (x != y ==> ClockIn(ticks, y) == ticksY)
      && forall z :: z != x && z != y ==> ClockIn(ticks, z) == ClockIn(clocks, z)
  {
  }

  lemma CountedSide(mine: Agent, theirs: Agent, clock: Clock, side: Side)
    requires MergedSide(mine, theirs, clock, side)
    ensures CountedMerge(mine, theirs, Counted(mine, side.after, side.added))
  {
  }

  lemma MergeReconciles(agents: map<string, Agent>, clocks: map<string, Clock>, x: string, y: string, sideX: Side, sideY: Side)
    requires x in agents && y in agents
    requires MergedSide(agents[x], agents[y], ClockIn(clocks, x), sideX)
    requires MergedSide(agents[y], agents[x], ClockIn(clocks, y), sideY)
    ensures Reconciled(agents, clocks, x, y, AfterMerge(agents, x, y, sideX, sideY),
                       clocks[y := sideY.ticks][x := sideX.ticks],
                       Merged(sideY.merged, sideX.merged, sideX.conflicts + sideY.conflicts))
  {
    hide OfferedAll, TickedUnder, Missing, Conflicts, Size, EmptiedExactly, Taken, AfterMerge, Counted, ClockIn, CountedMerge;
    MergedAgents(agents, x, y, sideX, sideY);
    MergedClocks(clocks, x, y, sideX.ticks, sideY.ticks);
    CountedSide(agents[x], agents[y], ClockIn(clocks, x), sideX);
    CountedSide(agents[y], agents[x], ClockIn(clocks, y), sideY);
    MergeEmptiesDivergence(agents[x], agents[y], sideX.after, sideY.after);
    if x == y {
      SelfOffer(agents[x].beliefs, true, sideX.after, sideY.after);
    }
  }

  lemma SelfOffer(beliefs: Beliefs, wins: bool, a: Beliefs, b: Beliefs)
    requires OfferedAll(beliefs, beliefs, wins, a) && OfferedAll(beliefs, beliefs, wins, b)
    ensures a == b
  {
    SameHeld(a, b);
  }

  method PullFromAll(agents: map<string, Agent>, beliefs: Beliefs, clock: Clock, sources: seq<string>, since: Option<real>)
    returns (after: Beliefs, ticks: Clock, count: nat)
    ensures PulledAll(agents, beliefs, sources, |sources|, since, after)
    ensures TickedPerTake(agents, beliefs, sources, |sources|, since, clock, ticks)
    ensures after == AfterSources(agents, beliefs, sources, |sources|, since)
    ensures count == TotalUpdates(agents, beliefs, sources, |sources|, since)
  {
    hide PulledAll, Pulled, TickedWhereChanged, TickedPerTake, Updates, AfterSource;
    after, ticks, count := beliefs, clock, 0;
    PulledNone(agents, beliefs, sources, since);
    TicksNone(agents, beliefs, sources, since, clock);
    for n := 0 to |sources|
      invariant PulledAll(agents, beliefs, sources, n, since, after)
      invariant TickedPerTake(agents, beliefs, sources, n, since, clock, ticks)
      invariant after == AfterSources(agents, beliefs, sources, n, since)
      invariant count == TotalUpdates(agents, beliefs, sources, n, since)
    {
      ghost var now, before := after, ticks;
      if sources[n] in agents {
        var pulled: nat;
        after, ticks, pulled := PullSource(after, ticks, agents[sources[n]].beliefs, since);
        count := count + pulled;
        PulledIs(now, agents[sources[n]].beliefs, since, after);
      }
      PulledAllNext(agents, beliefs, sources, n, since, now, after);
      TicksNext(agents, beliefs, sources, n, since, now, after, clock, before, ticks);
    }
  }

  // ---------------------------------------------------------------- convergence

  /** A merge leaves the two agents without differences exactly when their reliabilities differ or they had no conflict.
      With equal reliabilities each takes the other's side of every conflict, so the values are swapped. */
  lemma MergeEmptiesDivergence(a: Agent, b: Agent, afterA: Beliefs, afterB: Beliefs)
    requires OfferedAll(b.beliefs, a.beliefs, a.reliability >= b.reliability, afterB)
    requires OfferedAll(a.beliefs, b.beliefs, b.reliability >= a.reliability, afterA)
    ensures EmptiedExactly(a, b, afterA, afterB)
    ensures a.reliability == b.reliability ==> forall k :: k in Conflicts(a.beliefs, b.beliefs) ==>
      Held(afterA, k) == Held(b.beliefs, k) && Held(afterB, k) == Held(a.beliefs, k)
    ensures a.reliability == b.reliability ==> Conflicts(afterA, afterB) == Conflicts(a.beliefs, b.beliefs)
  {
    forall k
      ensures k in Divergent(afterA, afterB) <==> a.reliability == b.reliability && k in Conflicts(a.beliefs, b.beliefs)
      ensures k in Conflicts(a.beliefs, b.beliefs) && a.reliability == b.reliability ==>
        Held(afterA, k) == Held(b.beliefs, k) && Held(afterB, k) == Held(a.beliefs, k)
      ensures k in Conflicts(afterA, afterB) ==> k in Divergent(afterA, afterB)
    {
      assert Held(afterA, k) == Offered(Held(a.beliefs, k), Held(b.beliefs, k), b.reliability >= a.reliability);
      assert Held(afterB, k) == Offered(Held(b.beliefs, k), Held(a.beliefs, k), a.reliability >= b.reliability);
    }
  }

  /** One agent pulling, without a time cut, from every other agent, in any order. */
  ghost predicate PullsFromAllOthers(before: map<string, Agent>, x: string, after: map<string, Agent>) {
    && x in before && after.Keys == before.Keys
    && (forall a :: a in before && a != x ==> after[a].beliefs == before[a].beliefs)
    && exists sources :: Covers(before, x, sources) &&
         PulledAll(before, before[x].beliefs, sources, |sources|, None, after[x].beliefs)
  }

  ghost predicate Covers(agents: map<string, Agent>, x: string, sources: seq<string>) {
    (forall a :: a in sources ==> a in agents) && (forall a :: a in agents && a != x ==> a in sources)
  }

  lemma CoversOthers(agents: map<string, Agent>, x: string, sources: seq<string>, order: seq<string>)
    requires forall a :: a in order <==> a in agents
    requires forall a :: a in sources <==> a in order && a != x
    ensures Covers(agents, x, sources)
  {
  }

  lemma PulledFromOthers(before: map<string, Agent>, x: string, after: map<string, Agent>, sources: seq<string>)
    requires x in before && after.Keys == before.Keys && forall a :: a in before && a != x ==> after[a] == before[a]
    requires Covers(before, x, sources) && PulledAll(before, before[x].beliefs, sources, |sources|, None, after[x].beliefs)
    ensures PullsFromAllOthers(before, x, after)
  {
  }

  // At least as new, where there is anything.
  predicate AtLeast(mine: Option<Entry>, other: Option<Entry>) {
    other.Some? ==> mine.Some? && mine.value.createdAt >= other.value.createdAt
  }

  ghost predicate SomeoneHeld(agents: map<string, Agent>, k: string, e: Option<Entry>) {
    e.Some? ==> exists a :: a in agents && Held(agents[a].beliefs, k) == e
  }

  lemma {:induction false} NewestIsAtLeast(agents: map<string, Agent>, mine: Option<Entry>, sources: seq<string>, n: nat, k: string)
    requires n <= |sources| && forall a :: a in sources ==> a in agents
    ensures var r := NewestOf(agents, mine, sources, n, None, k);
      && AtLeast(r, mine)
      && (forall j :: 0 <= j < n ==> AtLeast(r, Held(agents[sources[j]].beliefs, k)))
      && (r == mine || SomeoneHeld(agents, k, r))
  {
    if n > 0 {
      NewestIsAtLeast(agents, mine, sources, n - 1, k);
      assert sources[n - 1] in sources;
    }
  }

  lemma PullBringsNewest(before: map<string, Agent>, x: string, after: map<string, Agent>, k: string)
    requires PullsFromAllOthers(before, x, after)
    ensures forall a :: a in before ==> AtLeast(Held(after[x].beliefs, k), Held(before[a].beliefs, k))
    ensures SomeoneHeld(before, k, Held(after[x].beliefs, k))
  {
    var sources :| Covers(before, x, sources) && PulledAll(before, before[x].beliefs, sources, |sources|, None, after[x].beliefs);
    NewestIsAtLeast(before, Held(before[x].beliefs, k), sources, |sources|, k);
    assert Held(after[x].beliefs, k) == NewestOf(before, Held(before[x].beliefs, k), sources, |sources|, None, k);
    assert before[x].beliefs == before[x].beliefs;
    forall a | a in before
      ensures AtLeast(Held(after[x].beliefs, k), Held(before[a].beliefs, k))
    {
      if a != x {
        var j :| 0 <= j < |sources| && sources[j] == a;
      }
    }
  }

  // Under one key: every entry came from the start, nobody fell behind, and whoever pulled has caught up with all.
  ghost predicate FromStart(start: map<string, Agent>, now: map<string, Agent>, k: string) {
    forall a :: a in now ==> SomeoneHeld(start, k, Held(now[a].beliefs, k))
  }

  ghost predicate NotBehind(start: map<string, Agent>, now: map<string, Agent>, k: string) {
    now.Keys == start.Keys && forall a :: a in now ==> AtLeast(Held(now[a].beliefs, k), Held(start[a].beliefs, k))
  }

  ghost predicate AheadOfAll(start: map<string, Agent>, mine: Option<Entry>, k: string) {
    forall b :: b in start ==> AtLeast(mine, Held(start[b].beliefs, k))
  }

  ghost predicate CaughtUp(start: map<string, Agent>, now: map<string, Agent>, pulled: set<string>, k: string) {
    forall a :: a in now && a in pulled ==> AheadOfAll(start, Held(now[a].beliefs, k), k)
  }

  ghost predicate Gossiped(start: map<string, Agent>, now: map<string, Agent>, pulled: set<string>, k: string) {
    FromStart(start, now, k) && NotBehind(start, now, k) && CaughtUp(start, now, pulled, k)
  }

  // Only x's beliefs changed.
  ghost predicate OthersKept(now: map<string, Agent>, x: string, next: map<string, Agent>) {
    x in now && next.Keys == now.Keys && forall a :: a in now && a != x ==> next[a].beliefs == now[a].beliefs
  }

  lemma StillFromStart(start: map<string, Agent>, now: map<string, Agent>, x: string, next: map<string, Agent>, k: string)
    requires FromStart(start, now, k) && OthersKept(now, x, next) && SomeoneHeld(now, k, Held(next[x].beliefs, k))
    ensures FromStart(start, next, k)
  {
    hide Held;
    if Held(next[x].beliefs, k).Some? {
      var a :| a in now && Held(now[a].beliefs, k) == Held(next[x].beliefs, k);
      assert SomeoneHeld(start, k, Held(now[a].beliefs, k));
    }
  }

  lemma NowAhead(start: map<string, Agent>, now: map<string, Agent>, mine: Option<Entry>, k: string)
    requires NotBehind(start, now, k) && AheadOfAll(now, mine, k)
    ensures AheadOfAll(start, mine, k)
  {
    hide Held;
    forall b | b in start
      ensures AtLeast(mine, Held(start[b].beliefs, k))
    {
      assert AtLeast(mine, Held(now[b].beliefs, k)) && AtLeast(Held(now[b].beliefs, k), Held(start[b].beliefs, k));
    }
  }

  lemma GossipStep(start: map<string, Agent>, now: map<string, Agent>, pulled: set<string>, x: string, next: map<string, Agent>, k: string)
    requires Gossiped(start, now, pulled, k) && PullsFromAllOthers(now, x, next)
    ensures Gossiped(start, next, pulled + {x}, k)
  {
    hide PullsFromAllOthers, Held, AtLeast, SomeoneHeld, FromStart, AheadOfAll;
    PullKeepsOthers(now, x, next);
    PullGetsAhead(now, x, next, k);
    StillFromStart(start, now, x, next, k);
    NowAhead(start, now, Held(next[x].beliefs, k), k);
    AheadOfOne(start, Held(next[x].beliefs, k), k, x);
  }

  lemma PullKeepsOthers(now: map<string, Agent>, x: string, next: map<string, Agent>)
    requires PullsFromAllOthers(now, x, next)
    ensures OthersKept(now, x, next)
  {
  }

  lemma PullGetsAhead(now: map<string, Agent>, x: string, next: map<string, Agent>, k: string)
    requires PullsFromAllOthers(now, x, next)
    ensures AheadOfAll(now, Held(next[x].beliefs, k), k) && SomeoneHeld(now, k, Held(next[x].beliefs, k))
  {
    PullBringsNewest(now, x, next, k);
  }

  lemma AheadOfOne(start: map<string, Agent>, mine: Option<Entry>, k: string, b: string)
    requires AheadOfAll(start, mine, k) && b in start
    ensures AtLeast(mine, Held(start[b].beliefs, k))
  {
  }

  lemma NobodyPulled(start: map<string, Agent>, k: string)
    ensures Gossiped(start, start, {}, k)
  {
  }

  /** A run of pulls, each agent in turn pulling from all the others. */
  ghost predicate IsGossip(states: seq<map<string, Agent>>, pullers: seq<string>) {
    |states| == |pullers| + 1 && forall i :: 0 <= i < |pullers| ==> PullsFromAllOthers(states[i], pullers[i], states[i + 1])
  }

  lemma {:induction false} GossipRun(states: seq<map<string, Agent>>, pullers: seq<string>, n: nat, k: string)
    requires IsGossip(states, pullers) && n <= |pullers|
    ensures Gossiped(states[0], states[n], Elements(pullers[..n]), k)
  {
    hide PullsFromAllOthers, Gossiped;
    if n == 0 {
      assert Elements(pullers[..0]) == {};
      NobodyPulled(states[0], k);
    } else {
      GossipRun(states, pullers, n - 1, k);
      GossipStep(states[0], states[n - 1], Elements(pullers[..n - 1]), pullers[n - 1], states[n], k);
      assert pullers[..n] == pullers[..n - 1] + [pullers[n - 1]];
      assert Elements(pullers[..n]) == Elements(pullers[..n - 1]) + {pullers[n - 1]};
    }
  }

  /** The entry is one of the newest anyone held under the key at the start. */
  ghost predicate IsNewest(start: map<string, Agent>, k: string, e: Entry) {
    && SomeoneHeld(start, k, Some(e))
    && forall b :: b in start ==> AtLeast(Some(e), Held(start[b].beliefs, k))
  }

  /** Once every agent has pulled from all the others, in any order, each holds under every key anyone had one of the
      newest entries for it, and nothing else. */
  lemma PullsConverge(states: seq<map<string, Agent>>, pullers: seq<string>, a: string, k: string)
    requires IsGossip(states, pullers) && a in pullers && a in states[0]
    ensures states[|pullers|].Keys == states[0].Keys
    ensures var held := Held(states[|pullers|][a].beliefs, k);
      && (held.Some? <==> exists b :: b in states[0] && k in states[0][b].beliefs)
      && (held.Some? ==> IsNewest(states[0], k, held.value))
  {
    hide PullsFromAllOthers, Held;
    GossipRun(states, pullers, |pullers|, k);
    var now := states[|pullers|];
    assert a in Elements(pullers[..|pullers|]) by {
      assert pullers[..|pullers|] == pullers;
    }
    CaughtUpMeans(states[0], now, Elements(pullers[..|pullers|]), a, k);
  }

  lemma CaughtUpMeans(start: map<string, Agent>, now: map<string, Agent>, pulled: set<string>, a: string, k: string)
    requires Gossiped(start, now, pulled, k) && a in now && a in pulled
    ensures var held := Held(now[a].beliefs, k);
      && (held.Some? <==> exists b :: b in start && k in start[b].beliefs)
      && (held.Some? ==> IsNewest(start, k, held.value))
  {
    var held := Held(now[a].beliefs, k);
    assert SomeoneHeld(start, k, held) && AheadOfAll(start, held, k);
    if held.Some? {
      var b :| b in start && Held(start[b].beliefs, k) == held;
      assert k in start[b].beliefs;
    }
  }

  /** When the newest entries agree in value, no two agents that have pulled differ anywhere. */
  lemma PullsEmptyDivergence(states: seq<map<string, Agent>>, pullers: seq<string>, a: string, b: string)
    requires IsGossip(states, pullers) && a in pullers && b in pullers && a in states[0] && b in states[0]
    requires forall k, e, f :: IsNewest(states[0], k, e) && IsNewest(states[0], k, f) ==> e.value == f.value
    ensures states[|pullers|].Keys == states[0].Keys
    ensures Divergent(states[|pullers|][a].beliefs, states[|pullers|][b].beliefs) == {}
  {
    hide PullsFromAllOthers, IsNewest;
    PullsConverge(states, pullers, a, "");
    var x, y := states[|pullers|][a].beliefs, states[|pullers|][b].beliefs;
    forall k
      ensures k !in Divergent(x, y)
    {
      PullsConverge(states, pullers, a, k);
      PullsConverge(states, pullers, b, k);
    }
  }
}
