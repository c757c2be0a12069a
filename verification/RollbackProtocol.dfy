/** Rollback previews run without the mutation lock, so their reads interleave with the effects of locked requests.
    An execute bound to a preview's root still finds the very state that preview described. */
module RollbackProtocol {
  import opened Wrappers
  import opened KeyOrder
  import opened Audit
  import opened Runtime
  import opened ReplayAgreement
  import opened PurgeFinality
  import AuditProtocol

  /** What a preview has read so far: the snapshot file, when `since` requests had been served, then the head, then the
      stored state. */
  datatype Preview =
    | FileRead(id: string, since: nat, target: Store)
    | HeadRead(id: string, since: nat, target: Store, root: Digest)
    | Done(id: string, since: nat, target: Store, root: Digest, current: Store)

  /** The request holding the lock, the state it found, and how many of its effects have happened. */
  datatype Job = Job(request: Request, start: World, actions: seq<Action>, done: nat)

  datatype System = System(world: World, job: Option<Job>, previews: map<nat, Preview>, served: seq<Request>)

  datatype Step =
    | Begin(r: Request)
    | Act
    | Finish
    | PreviewLoad(p: nat, id: string)
    | PreviewRoot(p: nat)
    | PreviewState(p: nat)

  const START := System(EMPTY, None, map[], [])

  // Snapshot identifiers are fresh.
  predicate Startable(w: World, r: Request) {
    r.CreateSnapshot? ==> r.id !in w.snapshots
  }

  predicate Enabled(s: System, step: Step) {
    match step
    case Begin(r) => s.job.None? && Startable(s.world, r)
    case Act => s.job.Some? && s.job.value.done < |s.job.value.actions|
    case Finish => s.job.Some? && s.job.value.done >= |s.job.value.actions|
    case PreviewLoad(_, id) => id in s.world.snapshots && Loadable(s.world.snapshots[id])
    case PreviewRoot(p) => p in s.previews && s.previews[p].FileRead?
    case PreviewState(p) => p in s.previews && s.previews[p].HeadRead?
  }

  function ActOn(clock: Clock, s: System): System
    requires s.job.Some? && s.job.value.done < |s.job.value.actions|
  {
    var job := s.job.value;
    s.(world := Apply(clock, s.world, job.actions[job.done]), job := Some(job.(done := job.done + 1)))
  }

  /** One step; a step that is not enabled changes nothing. */
  ghost function Next(clock: Clock, s: System, step: Step): System {
    if !Enabled(s, step) then s else
    match step
    case Begin(r) =>
      (match Plan(s.world, r)
       case Err(_) => s.(served := s.served + [r])
       case Ok(actions) => s.(job := Some(Job(r, s.world, actions, 0))))
    case Act => ActOn(clock, s)
    case Finish => s.(job := None, served := s.served + [s.job.value.request])
    case PreviewLoad(p, id) => s.(previews := s.previews[p := FileRead(id, |s.served|, EntriesOf(s.world.snapshots[id]))])
    case PreviewRoot(p) =>
      var v := s.previews[p];
      s.(previews := s.previews[p := HeadRead(v.id, v.since, v.target, HeadRoot(s.world.rows))])
    case PreviewState(p) =>
      var v := s.previews[p];
      s.(previews := s.previews[p := Done(v.id, v.since, v.target, v.root, s.world.store)])
  }

  /** The steps one by one. A request begins only when none holds the lock; its effects then happen one at a time; and a
      preview's three reads happen whenever they come, whoever holds the lock. */
  lemma StepsAre(clock: Clock, s: System, step: Step)
    ensures Next(clock, s, step) ==
      match step
      case Begin(r) =>
        if s.job.Some? || (r.CreateSnapshot? && r.id in s.world.snapshots) then s
        else if Plan(s.world, r).Err? then System(s.world, None, s.previews, s.served + [r])
        else System(s.world, Some(Job(r, s.world, Plan(s.world, r).value, 0)), s.previews, s.served)
      case Act =>
        if s.job == None || s.job.value.done >= |s.job.value.actions| then s
        else var job := s.job.value;
             System(Apply(clock, s.world, job.actions[job.done]), Some(Job(job.request, job.start, job.actions, job.done + 1)),
                    s.previews, s.served)
      case Finish =>
        if s.job == None || s.job.value.done < |s.job.value.actions| then s
        else System(s.world, None, s.previews, s.served + [s.job.value.request])
      case PreviewLoad(p, id) =>
        if id !in s.world.snapshots || s.world.snapshots[id].Unreadable? || s.world.snapshots[id].Headless? then s
        else var target: Store := if s.world.snapshots[id].Readable? then s.world.snapshots[id].entries else map[];
             System(s.world, s.job, s.previews[p := FileRead(id, |s.served|, target)], s.served)
      case PreviewRoot(p) =>
        if p !in s.previews || !s.previews[p].FileRead? then s
        else var v := s.previews[p];
             var head := if s.world.rows == [] then Genesis else s.world.rows[|s.world.rows| - 1].root;
             System(s.world, s.job, s.previews[p := HeadRead(v.id, v.since, v.target, head)], s.served)
      case PreviewState(p) =>
        if p !in s.previews || !s.previews[p].HeadRead? then s
        else var v := s.previews[p];
             System(s.world, s.job, s.previews[p := Done(v.id, v.since, v.target, v.root, s.world.store)], s.served)
  {
    hide Plan, Apply;
  }

  ghost function Run(clock: Clock, s: System, steps: seq<Step>): System {
    if steps == [] then s else Next(clock, Run(clock, s, steps[..|steps| - 1]), steps[|steps| - 1])
  }

  ghost function After(clock: Clock, steps: seq<Step>): System {
    Run(clock, START, steps)
  }

  // ---------------------------------------------------------------- what every plan is like

  predicate ChangesStore(a: Action) {
    a.Put? || a.Drop?
  }

  /** Every change of the store is followed by an audit row before the lock is released. */
  ghost predicate Settled(actions: seq<Action>) {
    forall i :: 0 <= i < |actions| && ChangesStore(actions[i]) ==> LogsAfter(actions, i + 1)
  }

  ghost predicate LogsAfter(actions: seq<Action>, n: nat) {
    exists j :: n <= j < |actions| && actions[j].LogRow?
  }

  lemma SettledConcat(a: seq<Action>, b: seq<Action>)
    requires Settled(a) && Settled(b)
    ensures Settled(a + b)
  {
    forall i | 0 <= i < |a + b| && ChangesStore((a + b)[i])
      ensures LogsAfter(a + b, i + 1)
    {
      if i < |a| {
        var j :| i + 1 <= j < |a| && a[j].LogRow?;
        assert (a + b)[j].LogRow?;
      } else {
        var j :| i - |a| + 1 <= j < |b| && b[j].LogRow?;
        assert (a + b)[|a| + j].LogRow?;
      }
    }
  }

  lemma NothingSettled()
    ensures Settled([])
  {
  }

  lemma StoreKept(actions: seq<Action>)
    requires forall i :: 0 <= i < |actions| ==> !ChangesStore(actions[i])
    ensures Settled(actions)
  {
  }

  lemma SettledByLast(actions: seq<Action>)
    requires actions != [] && actions[|actions| - 1].LogRow?
    ensures Settled(actions)
  {
    forall i | 0 <= i < |actions| && ChangesStore(actions[i])
      ensures LogsAfter(actions, i + 1)
    {
      assert actions[|actions| - 1].LogRow?;
    }
  }

  lemma {:induction false} ScrubsSettled(files: SnapshotItems, n: nat, key: string)
    requires n <= |files|
    ensures Settled(ScrubActions(files, n, key))
  {
    if n > 0 {
      ScrubsSettled(files, n - 1, key);
      SettledConcat(ScrubActions(files, n - 1, key), ScrubAction(files[n - 1], key));
    }
  }

  lemma ForgetSettled(w: World, key: string, reason: string, purge: bool, noted: bool, purgedAt: Stamp)
    ensures Settled(ForgetActions(w, key, reason, purge, noted, purgedAt))
  {
    hide Settled, ScrubActions;
    var remove := if key in w.store then RemoveActions(w.store[key], key, reason, noted) else [];
    var purges := if purge then PurgeActions(w.snapshots, key, reason, purgedAt) else [];
    NothingSettled();
    if key in w.store {
      SettledByLast(remove);
    }
    if purge {
      var first := [Redact(key), PurgeAudit(key, PlainMeta(Some(reason)), purgedAt)];
      StoreKept(first);
      ScrubsSettled(SortedItems(w.snapshots), |w.snapshots.Keys|, key);
      SettledConcat(first, ScrubActions(SortedItems(w.snapshots), |w.snapshots.Keys|, key));
    }
    SettledConcat(remove, purges);
  }

  lemma RollbackSettled(store: Store, target: Store, reason: string, cached: set<string>)
    ensures Settled(RollbackActions(store, target, reason, cached))
  {
    hide Settled, DeleteActions, RestoreActions;
    SettledByLast(RollbackActions(store, target, reason, cached));
  }

  lemma CommitSettled(store: Store, key: string, entry: Entry, accepted: bool, noted: bool)
    ensures Settled(CommitActions(store, key, entry, accepted, noted))
  {
    if accepted {
      SettledByLast(CommitActions(store, key, entry, accepted, noted));
    }
  }

  lemma ReviseSettled(previous: Entry, key: string, winner: Option<Entry>, noted: bool, reason: Option<string>)
    ensures Settled(ReviseActions(previous, key, winner, noted, reason))
  {
    if winner.Some? && winner.value != previous {
      SettledByLast(ReviseActions(previous, key, winner, noted, reason));
    }
  }

  /** No plan leaves a changed store without a later audit row. */
  lemma ChangesAreLogged(w: World, r: Request, i: nat)
    requires Plan(w, r).Ok? && i < |Plan(w, r).value| && (Plan(w, r).value[i].Put? || Plan(w, r).value[i].Drop?)
    ensures exists j :: i < j < |Plan(w, r).value| && Plan(w, r).value[j].LogRow?
  {
    hide Plan;
    PlanSettled(w, r);
    var actions := Plan(w, r).value;
    assert LogsAfter(actions, i + 1);
    var j :| i + 1 <= j < |actions| && actions[j].LogRow?;
    assert i < j;
  }

  lemma PlanSettled(w: World, r: Request)
    requires Plan(w, r).Ok?
    ensures Settled(Plan(w, r).value)
  {
    hide FailedCheck, CommitActions, ReviseActions, ForgetActions, RollbackActions;
    PlanFinds(w, r);
    match r
    case Commit(key, entry, _, accepted, noted) => CommitSettled(w.store, key, entry, accepted, noted);
    case Revise(key, _, winner, noted, reason) => ReviseSettled(w.store[key], key, winner, noted, reason);
    case Confirm(key, _, touched, reason) => SettledByLast(ConfirmActions(w.store[key], key, touched, reason));
    case Forget(key, _, reason, purge, noted, purgedAt) => ForgetSettled(w, key, reason, purge, noted, purgedAt);
    case CreateSnapshot(_, _) =>
    case Rollback(id, _, reason, cached) => RollbackSettled(w.store, EntriesOf(w.snapshots[id]), reason, cached);
  }

  // What an admitted request finds.
  lemma PlanFinds(w: World, r: Request)
    requires Plan(w, r).Ok?
    ensures r.Revise? || r.Confirm? ==> r.key in w.store
    ensures r.Rollback? ==> r.id in w.snapshots && Loadable(w.snapshots[r.id])
  {
    hide CommitActions, ReviseActions, ConfirmActions, ForgetActions, RollbackActions, ForgetRefusal;
  }

  // ---------------------------------------------------------------- only purges touch snapshot files

  predicate Purging(r: Request) {
    r.Forget? && r.purge
  }

  /** The action logs no receipt of its own, and writes an existing snapshot file only to take the purged key out of it. */
  predicate Mild(r: Request, w: World, a: Action) {
    match a
    case LogRow(op, _, _, _, _) => op != PURGE
    case WriteSnapshot(id, file) =>
      file.Readable? &&
      (id in w.snapshots ==> Purging(r) && w.snapshots[id].Readable? && file.entries == w.snapshots[id].entries - {r.key})
    case _ => true
  }

  ghost predicate AllMild(r: Request, clock: Clock, w: World, actions: seq<Action>) {
    forall i :: 0 <= i < |actions| ==> Mild(r, Perform(clock, w, actions[..i]), actions[i])
  }

  // Neither a receipt nor a snapshot file.
  predicate Quiet(a: Action) {
    !a.WriteSnapshot? && (a.LogRow? ==> a.op != PURGE)
  }

  ghost predicate AllQuiet(actions: seq<Action>) {
    forall i :: 0 <= i < |actions| ==> Quiet(actions[i])
  }

  lemma QuietIsMild(r: Request, clock: Clock, w: World, actions: seq<Action>)
    requires AllQuiet(actions)
    ensures AllMild(r, clock, w, actions)
  {
    hide Perform;
  }

  lemma QuietConcat(a: seq<Action>, b: seq<Action>)
    requires AllQuiet(a) && AllQuiet(b)
    ensures AllQuiet(a + b)
  {
  }

  lemma MildConcat(r: Request, clock: Clock, w: World, a: seq<Action>, b: seq<Action>)
    requires AllMild(r, clock, w, a) && AllMild(r, clock, Perform(clock, w, a), b)
    ensures AllMild(r, clock, w, a + b)
  {
    hide Perform, Mild;
    forall i | 0 <= i < |a + b|
      ensures Mild(r, Perform(clock, w, (a + b)[..i]), (a + b)[i])
    {
      if i < |a| {
        assert (a + b)[..i] == a[..i];
      } else {
        assert (a + b)[..i] == a + b[..i - |a|];
        PerformConcat(clock, w, a, b[..i - |a|]);
      }
    }
  }

  lemma {:induction false} DeletesQuiet(store: Store, keys: seq<string>, n: nat, reason: string, cached: set<string>)
    requires n <= |keys|
    ensures AllQuiet(DeleteActions(store, keys, n, reason, cached))
  {
    if n > 0 {
      DeletesQuiet(store, keys, n - 1, reason, cached);
      QuietConcat(DeleteActions(store, keys, n - 1, reason, cached),
                  DeleteAction(keys[n - 1], Loaded(store, keys[n - 1]), reason, keys[n - 1] in cached));
    }
  }

  lemma {:induction false} RestoresQuiet(store: Store, items: EntryItems, n: nat, reason: string)
    requires n <= |items|
    ensures AllQuiet(RestoreActions(store, items, n, reason))
  {
    if n > 0 {
      RestoresQuiet(store, items, n - 1, reason);
      QuietConcat(RestoreActions(store, items, n - 1, reason),
                  RestoreAction(items[n - 1].0, Loaded(store, items[n - 1].0), items[n - 1].1, reason));
    }
  }

  lemma LastRowQuiet(reason: string)
    ensures AllQuiet([LogRow(ROLLBACK, SYSTEM_KEY, None, None, PlainMeta(Some(reason)))])
  {
  }

  lemma RollbackQuiet(store: Store, target: Store, reason: string, cached: set<string>)
    ensures AllQuiet(RollbackActions(store, target, reason, cached))
  {
    hide AllQuiet, DeleteActions, RestoreActions;
    var extra := Sort(store.Keys - target.Keys);
    var drops := DeleteActions(store, extra, |extra|, reason, cached);
    var restores := RestoreActions(store, SortedItems(target), |target.Keys|, reason);
    var last := [LogRow(ROLLBACK, SYSTEM_KEY, None, None, PlainMeta(Some(reason)))];
    DeletesQuiet(store, extra, |extra|, reason, cached);
    RestoresQuiet(store, SortedItems(target), |target.Keys|, reason);
    LastRowQuiet(reason);
    QuietConcat(drops, restores);
    QuietConcat(drops + restores, last);
  }

  lemma ScrubMild(r: Request, w: World, file: (string, SnapshotFile), key: string)
    requires file.0 in w.snapshots && w.snapshots[file.0] == file.1 && Purging(r) && r.key == key
    ensures var step := ScrubAction(file, key); step != [] ==> Mild(r, w, step[0])
  {
  }

  // Scrubbing file n finds it as it was when the purge listed the files.
  lemma {:induction false} ScrubsMild(r: Request, clock: Clock, w: World, n: nat, key: string)
    requires n <= |w.snapshots.Keys| && Purging(r) && r.key == key
    ensures AllMild(r, clock, w, ScrubActions(SortedItems(w.snapshots), n, key))
  {
    hide Perform, SortedItems, Mild;
    if n > 0 {
      var files := SortedItems(w.snapshots);
      ScrubsMild(r, clock, w, n - 1, key);
      var step := ScrubAction(files[n - 1], key);
      var before := ScrubbedTo(w, files, n - 1, key);
      ScrubPerforms(clock, w, files, n - 1, key);
      ScrubbedFile(w, n - 1, key, n - 1);
      NothingPerforms(clock, before);
      ScrubMild(r, before, files[n - 1], key);
      assert step != [] ==> step[..0] == [];
      assert AllMild(r, clock, before, step);
      MildConcat(r, clock, w, ScrubActions(files, n - 1, key), step);
    }
  }

  lemma PurgeQuiet(key: string, reason: string, purgedAt: Stamp)
    ensures AllQuiet([Redact(key), PurgeAudit(key, PlainMeta(Some(reason)), purgedAt)])
  {
  }

  lemma RemoveQuiet(w: World, key: string, reason: string, noted: bool)
    ensures AllQuiet(if key in w.store then RemoveActions(w.store[key], key, reason, noted) else [])
  {
  }

  lemma NothingMild(r: Request, clock: Clock, w: World)
    ensures AllMild(r, clock, w, [])
  {
  }

  lemma PurgeMild(r: Request, clock: Clock, w: World, key: string, reason: string, purgedAt: Stamp)
    requires Purging(r) && r.key == key
    ensures AllMild(r, clock, w, PurgeActions(w.snapshots, key, reason, purgedAt))
  {
    hide AllMild, ScrubActions, Perform, PurgedLog, AllQuiet, Without;
    var redact, audit := Redact(key), PurgeAudit(key, PlainMeta(Some(reason)), purgedAt);
    var first := [redact, audit];
    PurgeQuiet(key, reason, purgedAt);
    QuietIsMild(r, clock, w, first);
    PerformTwo(clock, w, redact, audit);
    ScrubsMild(r, clock, Perform(clock, w, first), |w.snapshots.Keys|, key);
    MildConcat(r, clock, w, first, ScrubActions(SortedItems(w.snapshots), |w.snapshots.Keys|, key));
  }

  lemma ForgetMild(r: Request, clock: Clock, w: World, key: string, reason: string, purge: bool, noted: bool, purgedAt: Stamp)
    requires purge ==> Purging(r) && r.key == key
    ensures AllMild(r, clock, w, ForgetActions(w, key, reason, purge, noted, purgedAt))
  {
    hide AllMild, ScrubActions, Perform, PurgedLog, AllQuiet, RemoveActions, Without, AfterNote, NewRow;
    var remove := if key in w.store then RemoveActions(w.store[key], key, reason, noted) else [];
    RemoveQuiet(w, key, reason, noted);
    QuietIsMild(r, clock, w, remove);
    ForgetPerforms(clock, w, key, reason, false, noted, purgedAt);
    NothingPerforms(clock, w);
    var removed := Perform(clock, w, remove);
    assert removed.snapshots == w.snapshots;
    var purges := if purge then PurgeActions(w.snapshots, key, reason, purgedAt) else [];
    if purge {
      PurgeMild(r, clock, removed, key, reason, purgedAt);
    } else {
      NothingMild(r, clock, removed);
    }
    MildConcat(r, clock, w, remove, purges);
  }

  lemma QuietPlan(w: World, r: Request)
    requires Plan(w, r).Ok? && (r.Commit? || r.Revise? || r.Confirm?)
    ensures AllQuiet(Plan(w, r).value)
  {
    hide ForgetActions, RollbackActions, ForgetRefusal, RollbackRefusal;
  }

  lemma PlanMild(clock: Clock, w: World, r: Request)
    requires Plan(w, r).Ok? && Startable(w, r)
    ensures AllMild(r, clock, w, Plan(w, r).value)
  {
    hide FailedCheck, CommitActions, ReviseActions, ConfirmActions, ForgetActions, RollbackActions, AllMild, Perform, AllQuiet;
    match r
    case Forget(key, _, reason, purge, noted, purgedAt) => ForgetMild(r, clock, w, key, reason, purge, noted, purgedAt);
    case CreateSnapshot(id, rootHash) => SnapshotMild(r, clock, w, id, rootHash);
    case Rollback(id, _, reason, cached) =>
      PlanFinds(w, r);
      RollbackQuiet(w.store, EntriesOf(w.snapshots[id]), reason, cached);
      QuietIsMild(r, clock, w, Plan(w, r).value);
    case _ =>
      QuietPlan(w, r);
      QuietIsMild(r, clock, w, Plan(w, r).value);
  }

  lemma SnapshotMild(r: Request, clock: Clock, w: World, id: string, rootHash: Digest)
    requires id !in w.snapshots
    ensures AllMild(r, clock, w, [WriteSnapshot(id, Readable(w.store, rootHash))])
  {
    NothingPerforms(clock, w);
    assert [WriteSnapshot(id, Readable(w.store, rootHash))][..0] == [];
  }

  // ---------------------------------------------------------------- invariant

  /** How many links a root stands on. */
  function Depth(root: Digest): nat {
    match root
    case Link(prev, _) => 1 + Depth(prev)
    case _ => 0
  }

  /** The root of a sound log counts its rows, so a head that has been left never comes back. */
  lemma {:induction false} DepthCountsRows(rows: seq<Row>, n: nat)
    requires AuditProtocol.LogSound(rows) && n <= |rows|
    ensures Depth(RootBefore(rows, n)) == n
  {
    if n > 0 {
      DepthCountsRows(rows, n - 1);
      assert AuditProtocol.RowSound(rows, n - 1);
    }
  }

  ghost predicate JobSound(clock: Clock, s: System) {
    match s.job
    case None => s.world == ServeAll(clock, EMPTY, s.served)
    case Some(j) =>
      && j.start == ServeAll(clock, EMPTY, s.served)
      && Startable(j.start, j.request) && Plan(j.start, j.request) == Ok(j.actions)
      && j.done <= |j.actions|
      && s.world == Perform(clock, j.start, j.actions[..j.done])
  }

  // A row is still to come before the lock is released.
  ghost predicate RowComing(s: System) {
    s.job.Some? && LogsAfter(s.job.value.actions, s.job.value.done)
  }

  /** The keys purged by the requests served after the first n. */
  ghost function PurgedSince(clock: Clock, served: seq<Request>, n: nat): set<string>
    requires n <= |served|
  {
    if |served| == n then {} else
      var front := served[..|served| - 1];
      var last := served[|served| - 1];
      PurgedSince(clock, front, n) +
      (if last.Forget? && Purges(ServeAll(clock, EMPTY, front), last, last.key) then {last.key} else {})
  }

  // The file is the one the preview read, less the keys purged since, and maybe the one being purged now.
  ghost predicate FileSound(clock: Clock, s: System, v: Preview) {
    && v.id in s.world.snapshots && Loadable(s.world.snapshots[v.id])
    && v.since <= |s.served|
    && var left := v.target - PurgedSince(clock, s.served, v.since);
       var entries := EntriesOf(s.world.snapshots[v.id]);
       || entries == left
       || (s.job.Some? && Purging(s.job.value.request) && entries == left - {s.job.value.request.key})
  }

  ghost predicate PreviewSound(s: System, v: Preview) {
    && (!v.FileRead? ==> Depth(v.root) <= |s.world.rows|)
    && (v.Done? && Depth(v.root) == |s.world.rows| ==> s.world.store == v.current || RowComing(s))
  }

  ghost predicate Sound(clock: Clock, s: System) {
    && JobSound(clock, s)
    && AuditProtocol.LogSound(s.world.rows)
    && (forall p :: p in s.previews ==> PreviewSound(s, s.previews[p]))
    && (forall p :: p in s.previews ==> FileSound(clock, s, s.previews[p]))
  }

  lemma ApplyGrows(clock: Clock, w: World, a: Action)
    requires AuditProtocol.LogSound(w.rows)
    ensures var t := Apply(clock, w, a);
      && |t.rows| >= |w.rows|
      && (a.LogRow? ==> |t.rows| > |w.rows|)
      && (!ChangesStore(a) ==> t.store == w.store)
      && (a.WriteSnapshot? || t.snapshots == w.snapshots)
  {
    hide PurgedLog, NewRow, AuditProtocol.RowSound, AuditProtocol.ReceiptSound, Without, Trim;
    if a.PurgeAudit? {
      PurgedLogGrown(w.rows, a.key, a.meta, clock(|w.rows|), a.purgedAt);
    }
  }

  lemma SettledMeans(actions: seq<Action>, i: nat)
    requires Settled(actions) && i < |actions| && ChangesStore(actions[i])
    ensures LogsAfter(actions, i + 1)
  {
  }

  lemma MildLogs(r: Request, w: World, a: Action)
    requires Mild(r, w, a)
    ensures a.LogRow? ==> a.op != PURGE
  {
  }

  lemma ActKeepsPreview(clock: Clock, s: System, v: Preview)
    requires s.job.Some? && s.job.value.done < |s.job.value.actions| && PreviewSound(s, v)
    requires AuditProtocol.LogSound(s.world.rows) && Settled(s.job.value.actions)
    ensures PreviewSound(ActOn(clock, s), v)
  {
    hide AuditProtocol.LogSound, Settled, PurgedLog, NewRow, Without, Trim;
    var job := s.job.value;
    var a := job.actions[job.done];
    ApplyGrows(clock, s.world, a);
    if ChangesStore(a) {
      SettledMeans(job.actions, job.done);
    }
  }

  lemma ActKeepsFile(clock: Clock, s: System, v: Preview)
    requires s.job.Some? && s.job.value.done < |s.job.value.actions| && FileSound(clock, s, v)
    requires AuditProtocol.LogSound(s.world.rows)
    requires Mild(s.job.value.request, s.world, s.job.value.actions[s.job.value.done])
    ensures FileSound(clock, ActOn(clock, s), v)
  {
    hide AuditProtocol.LogSound, PurgedSince, PurgedLog, NewRow, Without, Trim;
    var job := s.job.value;
    var a := job.actions[job.done];
    ApplyGrows(clock, s.world, a);
  }

  lemma ActKeepsJob(clock: Clock, s: System)
    requires s.job.Some? && s.job.value.done < |s.job.value.actions| && JobSound(clock, s)
    ensures JobSound(clock, ActOn(clock, s))
    ensures Mild(s.job.value.request, s.world, s.job.value.actions[s.job.value.done]) && Settled(s.job.value.actions)
  {
    hide Plan, Settled, Mild, Apply, Startable;
    var job := s.job.value;
    assert job.actions[..job.done + 1][..job.done] == job.actions[..job.done];
    PlanSettled(job.start, job.request);
    PlanMild(clock, job.start, job.request);
  }

  lemma ActSound(clock: Clock, s: System)
    requires Sound(clock, s) && Enabled(s, Act)
    ensures Sound(clock, ActOn(clock, s))
  {
    hide JobSound, PreviewSound, FileSound, AuditProtocol.LogSound, Settled, Mild, Apply;
    var job := s.job.value;
    ActKeepsJob(clock, s);
    MildLogs(job.request, s.world, job.actions[job.done]);
    ApplySound(clock, s.world, job.actions[job.done]);
    forall p | p in s.previews
      ensures PreviewSound(ActOn(clock, s), s.previews[p]) && FileSound(clock, ActOn(clock, s), s.previews[p])
    {
      ActKeepsPreview(clock, s, s.previews[p]);
      ActKeepsFile(clock, s, s.previews[p]);
    }
  }

  // A step that changes neither the world nor, while previews wait for a row, the job keeps every preview sound.
  lemma KeepsPreviews(s: System, t: System)
    requires t.world == s.world && (RowComing(s) ==> RowComing(t))
    requires forall p :: p in s.previews ==> PreviewSound(s, s.previews[p])
    requires forall p :: p in t.previews ==> (p in s.previews && t.previews[p] == s.previews[p]) || PreviewSound(t, t.previews[p])
    ensures forall p :: p in t.previews ==> PreviewSound(t, t.previews[p])
  {
    hide RowComing;
  }

  // Serving one more request that purges nothing, or has purged the key out of the file.
  lemma ServedKeepsFile(clock: Clock, s: System, t: System, r: Request, v: Preview)
    requires FileSound(clock, s, v) && t == s.(job := None, served := s.served + [r])
    requires if r.Forget? && Purges(ServeAll(clock, EMPTY, s.served), r, r.key)
             then s.job.Some? && s.job.value.request == r && !Holds(s.world.snapshots[v.id], r.key)
             else s.job.None? || (s.job.value.request == r && !Purging(r))
    ensures FileSound(clock, t, v)
  {
    hide Purges, ServeAll;
    assert t.served[..|s.served|] == s.served;
  }

  lemma BeginKeepsFile(clock: Clock, s: System, r: Request, v: Preview)
    requires s.job.None? && Enabled(s, Begin(r)) && FileSound(clock, s, v) && JobSound(clock, s)
    ensures FileSound(clock, Next(clock, s, Begin(r)), v)
  {
    hide FileSound, FailedCheck, Startable, ServeAll;
    var t := Next(clock, s, Begin(r));
    if t.job.None? {
      RefusedPurgesNothing(s.world, r);
      ServedKeepsFile(clock, s, t, r, v);
    } else {
      StartedKeepsFile(clock, s, t, v);
    }
  }

  lemma StartedKeepsFile(clock: Clock, s: System, t: System, v: Preview)
    requires s.job.None? && FileSound(clock, s, v) && t == s.(job := t.job)
    ensures FileSound(clock, t, v)
  {
  }

  lemma RefusedPurgesNothing(w: World, r: Request)
    ensures Plan(w, r).Err? && r.Forget? ==> !Purges(w, r, r.key)
    ensures Plan(w, r).Ok? && Purging(r) ==> Purges(w, r, r.key)
    ensures !Purging(r) && r.Forget? ==> !Purges(w, r, r.key)
  {
    PlanRefuses(w, r);
  }

  lemma FinishKeepsFile(clock: Clock, s: System, v: Preview)
    requires Enabled(s, Finish) && FileSound(clock, s, v) && JobSound(clock, s)
    ensures FileSound(clock, Next(clock, s, Finish), v)
  {
    hide FileSound, FailedCheck, Startable, ServeAll, Plan, Perform, Purges;
    var job := s.job.value;
    assert job.actions[..|job.actions|] == job.actions;
    RefusedPurgesNothing(job.start, job.request);
    FileIsThere(clock, s, v);
    if Purging(job.request) {
      RunConsistent(clock, s.served);
      PurgedOutOfFile(clock, job.start, job.request, v.id);
    }
    ServedKeepsFile(clock, s, Next(clock, s, Finish), job.request, v);
  }

  lemma FileIsThere(clock: Clock, s: System, v: Preview)
    requires FileSound(clock, s, v)
    ensures v.id in s.world.snapshots
  {
  }

  lemma PurgedOutOfFile(clock: Clock, w: World, r: Request, id: string)
    requires Consistent(w) && r.Forget? && Purges(w, r, r.key) && id in Serve(clock, w, r).snapshots
    ensures !Holds(Serve(clock, w, r).snapshots[id], r.key)
  {
    hide Serve, CleanRows, Purges, Consistent;
    PurgeLeavesClean(clock, w, r, r.key);
  }

  lemma BeginSound(clock: Clock, s: System, r: Request)
    requires Sound(clock, s) && Enabled(s, Begin(r))
    ensures Sound(clock, Next(clock, s, Begin(r)))
  {
    hide PreviewSound, FileSound, AuditProtocol.LogSound, Plan, Perform;
    forall p | p in s.previews
      ensures FileSound(clock, Next(clock, s, Begin(r)), s.previews[p])
    {
      BeginKeepsFile(clock, s, r, s.previews[p]);
    }
    var t := Next(clock, s, Begin(r));
    assert (s.served + [r])[..|s.served|] == s.served;
    if t.job.Some? {
      NothingPerforms(clock, s.world);
      assert t.job.value.actions[..0] == [];
    }
    KeepsPreviews(s, t);
  }

  lemma FinishSound(clock: Clock, s: System)
    requires Sound(clock, s) && Enabled(s, Finish)
    ensures Sound(clock, Next(clock, s, Finish))
  {
    hide PreviewSound, FileSound, AuditProtocol.LogSound, Plan, Perform;
    forall p | p in s.previews
      ensures FileSound(clock, Next(clock, s, Finish), s.previews[p])
    {
      FinishKeepsFile(clock, s, s.previews[p]);
    }
    var t := Next(clock, s, Finish);
    var job := s.job.value;
    assert (s.served + [job.request])[..|s.served|] == s.served;
    assert job.actions[..|job.actions|] == job.actions;
    KeepsPreviews(s, t);
  }

  lemma SameRowComing(s: System, t: System)
    requires s.job == t.job
    ensures RowComing(s) == RowComing(t)
  {
  }

  lemma PreviewStepSound(clock: Clock, s: System, step: Step)
    requires Sound(clock, s) && Enabled(s, step) && (step.PreviewLoad? || step.PreviewRoot? || step.PreviewState?)
    ensures Sound(clock, Next(clock, s, step))
  {
    hide AuditProtocol.LogSound, Plan, Perform, Depth, RowComing;
    var t := Next(clock, s, step);
    var v := t.previews[step.p];
    assert t == s.(previews := s.previews[step.p := v]);
    SameRowComing(s, t);
    if step.PreviewRoot? {
      DepthCountsRows(s.world.rows, |s.world.rows|);
    }
    assert JobSound(clock, t) by { hide RowComing; }
    assert PreviewSound(t, v);
    assert FileSound(clock, t, v);
    forall q | q in t.previews
      ensures FileSound(clock, t, t.previews[q])
    {
      if q != step.p {
        assert FileSound(clock, s, s.previews[q]);
      }
    }
    KeepsPreviews(s, t);
  }

  lemma NextSound(clock: Clock, s: System, step: Step)
    requires Sound(clock, s)
    ensures Sound(clock, Next(clock, s, step))
  {
    hide Sound;
    if Enabled(s, step) {
      match step
      case Begin(r) => BeginSound(clock, s, r);
      case Act => ActSound(clock, s);
      case Finish => FinishSound(clock, s);
      case _ => PreviewStepSound(clock, s, step);
    }
  }

  lemma {:induction false} EveryRunIsSound(clock: Clock, steps: seq<Step>)
    ensures Sound(clock, After(clock, steps))
  {
    hide Next;
    if steps != [] {
      hide Sound;
      EveryRunIsSound(clock, steps[..|steps| - 1]);
      NextSound(clock, After(clock, steps[..|steps| - 1]), steps[|steps| - 1]);
    }
  }

  // ---------------------------------------------------------------- theorems over every run

  /** However previews interleave, the requests are served one after another: between two of them the state is what
      serving them in order gives, so the log verifies and replays to the store. */
  lemma LockedRequestsAreSerial(clock: Clock, steps: seq<Step>)
    requires After(clock, steps).job.None?
    ensures After(clock, steps).world == ServeAll(clock, EMPTY, After(clock, steps).served)
    ensures Consistent(After(clock, steps).world)
  {
    hide Consistent, Run;
    EveryRunIsSound(clock, steps);
    RunConsistent(clock, After(clock, steps).served);
  }

  /** An execute bound to a preview's root is admitted only on the very state the preview described. It leaves the
      entries the preview read, less the keys purged by requests served since; so the reported keys are the previewed
      ones exactly when none of the entries it read has been purged since. */
  lemma AdmittedRollbackIsTheOnePreviewed(clock: Clock, steps: seq<Step>, p: nat, r: Request)
    requires var s := After(clock, steps);
      && s.job == None && p in s.previews && s.previews[p].Done?
      && r.Rollback? && r.id == s.previews[p].id && r.expectedRoot == Some(s.previews[p].root) && Plan(s.world, r).Ok?
    ensures var s := After(clock, steps);
      var v := s.previews[p];
      && v.since <= |s.served|
      && var purged := PurgedSince(clock, s.served, v.since);
      && s.world.store == v.current
      && Serve(clock, s.world, r).store == v.target - purged
      && EntriesOf(s.world.snapshots[v.id]) == v.target - purged
      && (ChangesFor(s.world.store, v.target - purged) == ChangesFor(v.current, v.target) <==> purged !! v.target.Keys)
  {
    hide Run, Perform, RollbackActions, ChangesFor, JobSound, AuditProtocol.LogSound, PurgedSince;
    var s := After(clock, steps);
    var v := s.previews[p];
    EveryRunIsSound(clock, steps);
    assert PreviewSound(s, v) && FileSound(clock, s, v);
    DepthCountsRows(s.world.rows, |s.world.rows|);
    var purged := PurgedSince(clock, s.served, v.since);
    RollbackRestores(clock, s.world, v.target - purged, r.cause, r.cached);
    if ChangesFor(v.current, v.target - purged) == ChangesFor(v.current, v.target) {
      SameChangesSameTarget(v.current, v.target, purged);
    }
    if purged !! v.target.Keys {
      assert v.target - purged == v.target;
    }
  }

  /** The keys purged since the n-th request: those of the later requests that were purges, and were admitted. */
  lemma PurgedSinceMeans(clock: Clock, served: seq<Request>, n: nat, r: Request)
    requires n <= |served|
    ensures PurgedSince(clock, served[..n], n) == {}
    ensures PurgedSince(clock, served + [r], n) == PurgedSince(clock, served, n) +
      (if r.Forget? && r.purge && Plan(ServeAll(clock, EMPTY, served), r).Ok? then {r.key} else {})
  {
    hide Plan, FailedCheck, Perform;
    assert (served + [r])[..|served|] == served;
    PlanRefuses(ServeAll(clock, EMPTY, served), r);
  }

  lemma ReportedKeys(current: Store, target: Store, k: string)
    ensures k in ChangesFor(current, target).create <==> k in target && k !in current
    ensures k in ChangesFor(current, target).remove <==> k in current && k !in target
  {
  }

  lemma SameChangesSameTarget(current: Store, target: Store, gone: set<string>)
    requires ChangesFor(current, target - gone) == ChangesFor(current, target)
    ensures gone !! target.Keys
  {
    hide ChangesFor;
    forall k | k in target
      ensures k !in gone
    {
      ReportedKeys(current, target - gone, k);
      ReportedKeys(current, target, k);
    }
  }

  // ---------------------------------------------------------------- a preview that promises a purged key

  function Acts(n: nat): seq<Step> {
    seq(n, _ => Act)
  }

  lemma {:induction false} RunConcat(clock: Clock, s: System, a: seq<Step>, b: seq<Step>)
    ensures Run(clock, s, a + b) == Run(clock, Run(clock, s, a), b)
  {
    hide Next;
    if b == [] {
      assert a + b == a;
    } else {
      assert (a + b)[..|a + b| - 1] == a + b[..|b| - 1];
      RunConcat(clock, s, a, b[..|b| - 1]);
    }
  }

  lemma RunOne(clock: Clock, s: System, step: Step)
    ensures Run(clock, s, [step]) == Next(clock, s, step)
  {
    hide Next;
    assert [step][..0] == [];
  }

  lemma {:induction false} RunActs(clock: Clock, s: System, n: nat)
    requires s.job.Some? && s.job.value.done == 0 && n <= |s.job.value.actions|
    ensures Run(clock, s, Acts(n)) == s.(world := Perform(clock, s.world, s.job.value.actions[..n]),
                                         job := Some(s.job.value.(done := n)))
  {
    hide Apply;
    if n > 0 {
      RunActs(clock, s, n - 1);
      assert Acts(n)[..n - 1] == Acts(n - 1);
      assert s.job.value.actions[..n][..n - 1] == s.job.value.actions[..n - 1];
    }
  }

  ghost function ServeSteps(w: World, r: Request): seq<Step> {
    match Plan(w, r)
    case Err(_) => [Begin(r)]
    case Ok(actions) => [Begin(r)] + Acts(|actions|) + [Finish]
  }

  /** A request that is not interrupted by previews is one schedule, and does what `Serve` says. */
  lemma UninterruptedRequest(clock: Clock, s: System, r: Request)
    requires s.job.None? && Startable(s.world, r)
    ensures Run(clock, s, ServeSteps(s.world, r)) == s.(world := Serve(clock, s.world, r), served := s.served + [r])
  {
    hide Plan, Perform, Startable;
    var begun := Next(clock, s, Begin(r));
    RunOne(clock, s, Begin(r));
    if Plan(s.world, r).Ok? {
      var n := |Plan(s.world, r).value|;
      RunConcat(clock, s, [Begin(r)] + Acts(n), [Finish]);
      RunConcat(clock, s, [Begin(r)], Acts(n));
      RunActs(clock, begun, n);
      assert begun.job.value.actions[..n] == begun.job.value.actions;
      RunOne(clock, Run(clock, begun, Acts(n)), Finish);
    }
  }

  lemma OnePurgedSnapshot(clock: Clock, e: Entry, purgedAt: Stamp)
    ensures var w1 := Serve(clock, EMPTY, Commit("k", e, false, true, false));
      var w2 := Serve(clock, w1, CreateSnapshot("s", Genesis));
      var w3 := Serve(clock, w2, Forget("k", None, "", true, false, purgedAt));
      && w1.snapshots == map[]
      && w2.snapshots == map["s" := Readable(map["k" := e], Genesis)]
      && w3.store == map[] && "s" in w3.snapshots && Loadable(w3.snapshots["s"]) && EntriesOf(w3.snapshots["s"]) == map[]
  {
    hide Perform, CommitActions, ForgetActions, Consistent;
    CommitPerforms(clock, EMPTY, "k", e, true, false);
    var w1 := Serve(clock, EMPTY, Commit("k", e, false, true, false));
    SnapshotPerforms(clock, w1, "s", Genesis);
    var w2 := Serve(clock, w1, CreateSnapshot("s", Genesis));
    RunConsistent(clock, []);
    ServeConsistent(clock, EMPTY, Commit("k", e, false, true, false));
    ServeConsistent(clock, w1, CreateSnapshot("s", Genesis));
    var forget := Forget("k", None, "", true, false, purgedAt);
    assert FailedCheck(w2, forget).None?;
    PurgeRequest(clock, w2, forget, "k");
  }

  lemma RollbackAdmitted(w: World, r: Request)
    requires r.Rollback? && r.id in w.snapshots && Loadable(w.snapshots[r.id]) && r.expectedRoot == Some(HeadRoot(w.rows))
    ensures FailedCheck(w, r).None?
  {
  }

  // A preview reads the snapshot file, then the key is purged.
  lemma PurgeAfterFileRead(clock: Clock, e: Entry, at: Stamp) returns (steps: seq<Step>)
    ensures var s := After(clock, steps);
      && s.job.None? && s.previews == map[0 := FileRead("s", 2, map["k" := e])]
      && s.world.store == map[] && "s" in s.world.snapshots && Loadable(s.world.snapshots["s"])
      && EntriesOf(s.world.snapshots["s"]) == map[]
  {
    hide Run, Serve, ServeSteps;
    var commit, snapshot, forget := Commit("k", e, false, true, false), CreateSnapshot("s", Genesis),
                                    Forget("k", None, "", true, false, at);
    OnePurgedSnapshot(clock, e, at);
    var s1 := START.(world := Serve(clock, EMPTY, commit), served := START.served + [commit]);
    var s2 := s1.(world := Serve(clock, s1.world, snapshot), served := s1.served + [snapshot]);
    UninterruptedRequest(clock, START, commit);
    UninterruptedRequest(clock, s1, snapshot);
    RunConcat(clock, START, ServeSteps(EMPTY, commit), ServeSteps(s1.world, snapshot));
    var steps2 := ServeSteps(EMPTY, commit) + ServeSteps(s1.world, snapshot);
    var s3 := s2.(previews := map[0 := FileRead("s", 2, map["k" := e])]);
    RunOne(clock, s2, PreviewLoad(0, "s"));
    RunConcat(clock, START, steps2, [PreviewLoad(0, "s")]);
    UninterruptedRequest(clock, s3, forget);
    steps := steps2 + [PreviewLoad(0, "s")];
    RunConcat(clock, START, steps, ServeSteps(s3.world, forget));
    steps := steps + ServeSteps(s3.world, forget);
  }

  // The schedule: the preview reads the file, a purge completes, and the preview goes on with the head and the state.
  lemma ReadsOnAfterPurge(clock: Clock, e: Entry) returns (steps: seq<Step>, s: System)
    ensures s.job.None? && s.world.store == map[] && "s" in s.world.snapshots && Loadable(s.world.snapshots["s"])
    ensures EntriesOf(s.world.snapshots["s"]) == map[]
    ensures After(clock, steps) == s.(previews := map[0 := Done("s", 2, map["k" := e], HeadRoot(s.world.rows), map[])])
  {
    hide Run, Serve, FailedCheck;
    var before := PurgeAfterFileRead(clock, e, Stamp("0", 0.0));
    s := After(clock, before);
    var root := HeadRoot(s.world.rows);
    var read := s.(previews := map[0 := HeadRead("s", 2, map["k" := e], root)]);
    RunOne(clock, s, PreviewRoot(0));
    RunConcat(clock, START, before, [PreviewRoot(0)]);
    assert After(clock, before + [PreviewRoot(0)]) == read;
    RunOne(clock, read, PreviewState(0));
    RunConcat(clock, START, before + [PreviewRoot(0)], [PreviewState(0)]);
    steps := before + [PreviewRoot(0)] + [PreviewState(0)];
  }

  /** The root does not cover the snapshot file a preview read before it: a purge that completes between the two reads
      scrubs the file, and the execute is still admitted. The preview lists a key for creation that it will not create. */
  lemma PreviewCanPromiseAPurgedKey(clock: Clock) returns (steps: seq<Step>, r: Request, k: string)
    ensures var s := After(clock, steps);
      && s.job == None && 0 in s.previews && s.previews[0].Done?
      && r.Rollback? && r.id == s.previews[0].id && r.expectedRoot == Some(s.previews[0].root) && Plan(s.world, r).Ok?
      && k in s.previews[0].target && k !in s.previews[0].current && k !in Serve(clock, s.world, r).store
  {
    hide Run, Serve, FailedCheck;
    var e := Entry("");
    var s: System;
    steps, s := ReadsOnAfterPurge(clock, e);
    r, k := Rollback("s", Some(HeadRoot(s.world.rows)), "", {}), "k";
    RollbackAdmitted(s.world, r);
    PlanRefuses(s.world, r);
    AdmittedRollbackIsTheOnePreviewed(clock, steps, 0, r);
  }
}
