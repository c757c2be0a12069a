/** After a purge of a key completes, nothing the project holds has a value under it, and nothing but a fresh commit of
    the key brings one back: no revision, no confirmation and no rollback to any snapshot. */
module PurgeFinality {
  import opened Wrappers
  import opened KeyOrder
  import opened Audit
  import opened Runtime
  import opened ReplayAgreement
  import AuditProtocol

  ghost predicate CleanRows(rows: seq<Row>, key: string) {
    forall i :: 0 <= i < |rows| && rows[i].key == key && rows[i].op != PURGE ==> Blank(rows[i])
  }

  predicate CleanFile(file: SnapshotFile, key: string) {
    Scrubbable(file) && key !in EntriesOf(file)
  }

  ghost predicate CleanFiles(snapshots: map<string, SnapshotFile>, key: string) {
    forall id :: id in snapshots ==> CleanFile(snapshots[id], key)
  }

  /** No stored entry, no valued audit row, no snapshot entry and no revision record under the key. */
  ghost predicate Clean(w: World, key: string) {
    key !in w.store && CleanRows(w.rows, key) && CleanFiles(w.snapshots, key) && key !in w.opLog
  }

  // ---------------------------------------------------------------- harmless actions

  /** An action that cannot put a value under the key. */
  predicate Harmless(a: Action, key: string) {
    match a
    case Put(k, _) => k != key
    case Resave(_) => true
    case Drop(_) => true
    case LogRow(op, k, before, after, _) => op != PURGE && (k != key || (before.None? && after.None?))
    case Note(k) => k != key
    case Redact(_) => true
    case PurgeAudit(_, _, _) => true
    case WriteSnapshot(_, file) => CleanFile(file, key)
  }

  ghost predicate AllHarmless(actions: seq<Action>, key: string) {
    forall i :: 0 <= i < |actions| ==> Harmless(actions[i], key)
  }

  lemma HarmlessConcat(a: seq<Action>, b: seq<Action>, key: string)
    requires AllHarmless(a, key) && AllHarmless(b, key)
    ensures AllHarmless(a + b, key)
  {
  }

  lemma PurgedLogClean(rows: seq<Row>, other: string, meta: Meta, now: Stamp, purgedAt: Stamp, key: string)
    requires Ascending(rows) && (CleanRows(rows, key) || other == key)
    ensures CleanRows(PurgedLog(rows, other, meta, now, purgedAt), key)
  {
    hide PurgedLog;
    var after := PurgedLog(rows, other, meta, now, purgedAt);
    PurgedLogMeaning(rows, other, meta, now, purgedAt);
    forall i | 0 <= i < |after| && after[i].key == key && after[i].op != PURGE
      ensures Blank(after[i])
    {
      assert i < |rows| ==> rows[i] in rows;
    }
  }

  lemma TrimNotIn(log: seq<string>, other: string, key: string)
    requires key !in log && other != key
    ensures key !in Trim(log + [other])
  {
    assert forall i :: 0 <= i < |log| ==> log[i] in log;
  }

  lemma ApplyClean(clock: Clock, w: World, a: Action, key: string)
    requires Clean(w, key) && Harmless(a, key) && AuditProtocol.LogSound(w.rows)
    ensures Clean(Apply(clock, w, a), key)
  {
    hide PurgedLog, Trim, AuditProtocol.RowSound, AuditProtocol.ReceiptSound;
    match a
    case Put(_, _) =>
    case Resave(_) =>
    case Drop(_) =>
    case LogRow(_, _, _, _, _) =>
    case Note(k) => TrimNotIn(w.opLog, k, key);
    case Redact(_) =>
    case PurgeAudit(k, meta, purgedAt) => PurgedLogClean(w.rows, k, meta, clock(|w.rows|), purgedAt, key);
    case WriteSnapshot(_, _) =>
  }

  lemma ApplySound(clock: Clock, w: World, a: Action)
    requires AuditProtocol.LogSound(w.rows) && (a.LogRow? ==> a.op != PURGE)
    ensures AuditProtocol.LogSound(Apply(clock, w, a).rows)
  {
    hide PurgedLog, AuditProtocol.LogSound, NewRow, Trim, Without;
    match a
    case LogRow(op, k, before, after, meta) => LoggedRow(clock, w, op, k, before, after, meta);
    case PurgeAudit(k, meta, purgedAt) => PurgedLogSound(w.rows, k, meta, clock(|w.rows|), purgedAt);
    case _ =>
  }

  lemma {:induction false} PerformClean(clock: Clock, w: World, actions: seq<Action>, key: string)
    requires Clean(w, key) && AllHarmless(actions, key) && AuditProtocol.LogSound(w.rows)
    ensures Clean(Perform(clock, w, actions), key) && AuditProtocol.LogSound(Perform(clock, w, actions).rows)
  {
    hide Clean, AuditProtocol.LogSound, Apply;
    if actions != [] {
      var n := |actions| - 1;
      PerformClean(clock, w, actions[..n], key);
      ApplyClean(clock, Perform(clock, w, actions[..n]), actions[n], key);
      ApplySound(clock, Perform(clock, w, actions[..n]), actions[n]);
    }
  }

  // ---------------------------------------------------------------- harmless plans

  lemma {:induction false} DeletesHarmless(store: Store, keys: seq<string>, n: nat, reason: string, cached: set<string>,
                                           key: string)
    requires n <= |keys| && key !in keys
    ensures AllHarmless(DeleteActions(store, keys, n, reason, cached), key)
  {
    if n > 0 {
      DeletesHarmless(store, keys, n - 1, reason, cached, key);
      HarmlessConcat(DeleteActions(store, keys, n - 1, reason, cached),
                     DeleteAction(keys[n - 1], Loaded(store, keys[n - 1]), reason, keys[n - 1] in cached), key);
    }
  }

  lemma {:induction false} RestoresHarmless(store: Store, items: EntryItems, n: nat, reason: string, key: string)
    requires n <= |items| && forall i :: 0 <= i < |items| ==> items[i].0 != key
    ensures AllHarmless(RestoreActions(store, items, n, reason), key)
  {
    if n > 0 {
      RestoresHarmless(store, items, n - 1, reason, key);
      HarmlessConcat(RestoreActions(store, items, n - 1, reason),
                     RestoreAction(items[n - 1].0, Loaded(store, items[n - 1].0), items[n - 1].1, reason), key);
    }
  }

  lemma RollbackHarmless(store: Store, target: Store, reason: string, cached: set<string>, key: string)
    requires key !in store && key !in target
    ensures AllHarmless(RollbackActions(store, target, reason, cached), key)
  {
    hide AllHarmless;
    var extra := Sort(store.Keys - target.Keys);
    DeletesHarmless(store, extra, |extra|, reason, cached, key);
    forall i | 0 <= i < |target.Keys|
      ensures SortedItems(target)[i].0 != key
    {
      SortedItem(target, i);
    }
    RestoresHarmless(store, SortedItems(target), |target.Keys|, reason, key);
    var last := [LogRow(ROLLBACK, SYSTEM_KEY, None, None, PlainMeta(Some(reason)))];
    var drops := DeleteActions(store, extra, |extra|, reason, cached);
    var restores := RestoreActions(store, SortedItems(target), |target.Keys|, reason);
    HarmlessConcat(drops, restores, key);
    LastRowHarmless(reason, key);
    HarmlessConcat(drops + restores, last, key);
  }

  lemma {:induction false} ScrubsHarmless(files: SnapshotItems, n: nat, other: string, key: string)
    requires n <= |files| && forall i :: 0 <= i < |files| ==> CleanFile(files[i].1, key)
    ensures AllHarmless(ScrubActions(files, n, other), key)
  {
    if n > 0 {
      ScrubsHarmless(files, n - 1, other, key);
      HarmlessConcat(ScrubActions(files, n - 1, other), ScrubAction(files[n - 1], other), key);
    }
  }

  lemma NothingHarmless(key: string)
    ensures AllHarmless([], key)
  {
  }

  lemma LastRowHarmless(reason: string, key: string)
    ensures AllHarmless([LogRow(ROLLBACK, SYSTEM_KEY, None, None, PlainMeta(Some(reason)))], key)
  {
  }

  lemma RemoveHarmless(w: World, other: string, reason: string, noted: bool, key: string)
    requires other != key
    ensures AllHarmless(if other in w.store then RemoveActions(w.store[other], other, reason, noted) else [], key)
  {
  }

  lemma PurgeHarmless(snapshots: map<string, SnapshotFile>, other: string, reason: string, purgedAt: Stamp, key: string)
    requires CleanFiles(snapshots, key)
    ensures AllHarmless(PurgeActions(snapshots, other, reason, purgedAt), key)
  {
    hide SortedItems;
    forall i | 0 <= i < |snapshots.Keys|
      ensures CleanFile(SortedItems(snapshots)[i].1, key)
    {
      SortedItem(snapshots, i);
    }
    ScrubsHarmless(SortedItems(snapshots), |snapshots.Keys|, other, key);
    HarmlessConcat([Redact(other), PurgeAudit(other, PlainMeta(Some(reason)), purgedAt)],
                   ScrubActions(SortedItems(snapshots), |snapshots.Keys|, other), key);
  }

  lemma ForgetHarmless(w: World, other: string, reason: string, purge: bool, noted: bool, purgedAt: Stamp, key: string)
    requires Clean(w, key) && other != key
    ensures AllHarmless(ForgetActions(w, other, reason, purge, noted, purgedAt), key)
  {
    hide AllHarmless, SortedItems;
    var remove := if other in w.store then RemoveActions(w.store[other], other, reason, noted) else [];
    RemoveHarmless(w, other, reason, noted, key);
    var purges := if purge then PurgeActions(w.snapshots, other, reason, purgedAt) else [];
    NothingHarmless(key);
    if purge {
      PurgeHarmless(w.snapshots, other, reason, purgedAt, key);
    }
    HarmlessConcat(remove, purges, key);
  }

  predicate Commits(r: Request, key: string) {
    r.Commit? && r.key == key
  }

  lemma CleanNotPurgeable(w: World, key: string)
    requires Clean(w, key)
    ensures !PurgeAdmitted(w, key)
  {
  }

  lemma PlanHarmless(w: World, r: Request, key: string)
    requires Clean(w, key) && !Commits(r, key) && FailedCheck(w, r).None?
    ensures Plan(w, r).Ok? && AllHarmless(Plan(w, r).value, key)
  {
    hide RollbackActions, ForgetActions, PurgeAdmitted, CleanRows;
    match r
    case Commit(_, _, _, _, _) =>
    case Revise(_, _, _, _, _) =>
    case Confirm(_, _, _, _) =>
    case Forget(k, _, reason, purge, noted, purgedAt) =>
      CleanNotPurgeable(w, key);
      ForgetHarmless(w, k, reason, purge, noted, purgedAt, key);
    case CreateSnapshot(_, _) =>
    case Rollback(id, _, reason, cached) => RollbackHarmless(w.store, EntriesOf(w.snapshots[id]), reason, cached, key);
  }

  lemma PlanRefuses(w: World, r: Request)
    ensures Plan(w, r).Err? <==> FailedCheck(w, r).Some?
  {
    hide CommitActions, ReviseActions, ConfirmActions, ForgetActions, RollbackActions, ForgetRefusal, RollbackRefusal;
  }

  lemma ServeClean(clock: Clock, w: World, r: Request, key: string)
    requires Clean(w, key) && !Commits(r, key) && Consistent(w)
    ensures Clean(Serve(clock, w, r), key)
  {
    hide Clean, Plan, Perform, FailedCheck, AllHarmless;
    PlanRefuses(w, r);
    if FailedCheck(w, r).None? {
      PlanHarmless(w, r, key);
      PerformClean(clock, w, Plan(w, r).value, key);
    }
  }

  // ---------------------------------------------------------------- what a completed purge leaves

  lemma {:induction false} ScrubbedFile(w: World, n: nat, key: string, i: nat)
    requires n <= |w.snapshots.Keys| && i < |w.snapshots.Keys|
    ensures var (id, file) := SortedItems(w.snapshots)[i];
      var now := ScrubbedTo(w, SortedItems(w.snapshots), n, key).snapshots;
      && now.Keys == w.snapshots.Keys
      && id in now && now[id] == if i < n && Holds(file, key) then Readable(file.entries - {key}, file.rootHash) else file
  {
    hide SortedItems;
    SortedItem(w.snapshots, i);
    if n > 0 {
      ScrubbedFile(w, n - 1, key, i);
      SortedItem(w.snapshots, n - 1);
      SortDistinct(w.snapshots.Keys, n - 1);
    }
  }

  /** Scrubbing changes each file that holds the key by exactly that key, and no other file. */
  lemma ScrubbedFiles(w: World, key: string, id: string)
    requires id in w.snapshots
    ensures var now := ScrubbedTo(w, SortedItems(w.snapshots), |w.snapshots.Keys|, key).snapshots;
      var file := w.snapshots[id];
      && now.Keys == w.snapshots.Keys
      && now[id] == if Holds(file, key) then Readable(file.entries - {key}, file.rootHash) else file
  {
    hide ScrubbedTo, SortedItems;
    assert id in Sort(w.snapshots.Keys);
    var i: nat :| i < |w.snapshots.Keys| && Sort(w.snapshots.Keys)[i] == id;
    SortedItem(w.snapshots, i);
    ScrubbedFile(w, |w.snapshots.Keys|, key, i);
  }

  // Each file that held the key is left without exactly that key, and no other file changes.
  ghost predicate Scrubbed(before: map<string, SnapshotFile>, after: map<string, SnapshotFile>, key: string) {
    && after.Keys == before.Keys
    && (forall id :: id in before ==>
          after[id] == if Holds(before[id], key) then Readable(before[id].entries - {key}, before[id].rootHash) else before[id])
  }

  // What a purge does to the state it finds once the key is out of the store.
  lemma PurgeOutcomes(clock: Clock, w: World, key: string, reason: string, purgedAt: Stamp)
    requires AuditProtocol.LogSound(w.rows)
    ensures var t := Perform(clock, w, PurgeActions(w.snapshots, key, reason, purgedAt));
      && t.store == w.store && CleanRows(t.rows, key) && key !in t.opLog && Scrubbed(w.snapshots, t.snapshots, key)
  {
    hide Perform, PurgeActions, PurgedLog, ScrubbedTo, SortedItems, AuditProtocol.RowSound, AuditProtocol.ReceiptSound, CleanRows;
    PurgePerforms(clock, w, key, reason, purgedAt);
    PurgedLogClean(w.rows, key, PlainMeta(Some(reason)), clock(|w.rows|), purgedAt, key);
    var before := Apply(clock, Apply(clock, w, Redact(key)), PurgeAudit(key, PlainMeta(Some(reason)), purgedAt));
    ScrubKeeps(before, SortedItems(w.snapshots), |w.snapshots.Keys|, key);
    forall id | id in w.snapshots
      ensures var now := ScrubbedTo(before, SortedItems(w.snapshots), |w.snapshots.Keys|, key).snapshots;
        && now.Keys == w.snapshots.Keys
        && now[id] == if Holds(w.snapshots[id], key) then Readable(w.snapshots[id].entries - {key}, w.snapshots[id].rootHash)
                      else w.snapshots[id]
    {
      ScrubbedFiles(before, key, id);
    }
    if w.snapshots == map[] {
      NothingScrubbed(before, key);
    } else {
      var id :| id in w.snapshots;
    }
  }

  lemma NothingScrubbed(w: World, key: string)
    requires w.snapshots == map[]
    ensures ScrubbedTo(w, SortedItems(w.snapshots), |w.snapshots.Keys|, key) == w
  {
  }

  ghost predicate Purges(w: World, r: Request, key: string) {
    r.Forget? && r.key == key && r.purge && FailedCheck(w, r).None?
  }

  // The effect of an admitted purge on everything but rows and revision log.
  lemma PurgeRequest(clock: Clock, w: World, r: Request, key: string)
    requires Consistent(w) && Purges(w, r, key)
    ensures var t := Serve(clock, w, r);
      && t.store == w.store - {key} && CleanRows(t.rows, key) && key !in t.opLog && Scrubbed(w.snapshots, t.snapshots, key)
      && (forall id :: id in w.snapshots ==> Scrubbable(w.snapshots[id]))
  {
    hide Perform, ForgetActions, RemoveActions, PurgeActions, AuditProtocol.LogSound, Replay, Docs, CleanRows, PurgeAdmitted;
    ForgetPerforms(clock, w, key, r.cause, true, r.noted, r.purgedAt);
    var removed := if key in w.store then Perform(clock, w, RemoveActions(w.store[key], key, r.cause, r.noted)) else w;
    if key in w.store {
      RemoveConsistent(clock, w, key, r.cause, r.noted);
    }
    PurgeOutcomes(clock, removed, key, r.cause, r.purgedAt);
    forall id | id in w.snapshots
      ensures Scrubbable(w.snapshots[id])
    {
      assert FailedCheck(w, r) == ForgetRefusal(w, key, r.expected, true);
    }
  }

  lemma PurgeLeavesClean(clock: Clock, w: World, r: Request, key: string)
    requires Consistent(w) && Purges(w, r, key)
    ensures Clean(Serve(clock, w, r), key)
  {
    hide Serve, CleanRows, FailedCheck, Consistent;
    PurgeRequest(clock, w, r, key);
  }

  /** A purge that is admitted leaves no stored entry, no valued audit row, no snapshot entry and no revision record. */
  lemma PurgeLeavesNothing(clock: Clock, w: World, r: Request)
    requires Consistent(w) && r.Forget? && r.purge && Plan(w, r).Ok?
    ensures var t := Serve(clock, w, r);
      && r.key !in t.store && r.key !in t.opLog
      && (forall i :: 0 <= i < |t.rows| && t.rows[i].key == r.key && t.rows[i].op != "purge" ==>
            t.rows[i].before == None && t.rows[i].after == None)
      && forall id :: id in t.snapshots && t.snapshots[id].Readable? ==> r.key !in t.snapshots[id].entries
  {
    hide Serve, Plan, FailedCheck, Consistent;
    PlanRefuses(w, r);
    PurgeLeavesClean(clock, w, r, r.key);
    assert forall id :: id in Serve(clock, w, r).snapshots ==> CleanFile(Serve(clock, w, r).snapshots[id], r.key);
  }

  // A request about the key that is no commit of it.
  predicate Addresses(r: Request, key: string) {
    (r.Revise? || r.Confirm? || r.Forget?) && r.key == key
  }

  lemma CleanRefuses(w: World, r: Request, key: string)
    requires Clean(w, key) && Addresses(r, key)
    ensures FailedCheck(w, r).Some?
  {
    hide PurgeAdmitted, CleanRows, CleanFiles;
    CleanNotPurgeable(w, key);
  }

  /** From a clean state, no sequence of requests without a commit of the key gives it a value again, and every attempt
      to revise, confirm, forget or purge it is refused. */
  lemma {:induction false} StaysClean(clock: Clock, w: World, requests: seq<Request>, key: string)
    requires Consistent(w) && Clean(w, key)
    requires forall i :: 0 <= i < |requests| ==> !Commits(requests[i], key)
    ensures Clean(ServeAll(clock, w, requests), key) && Consistent(ServeAll(clock, w, requests))
    ensures forall i :: 0 <= i < |requests| && Addresses(requests[i], key) ==>
      FailedCheck(ServeAll(clock, w, requests[..i]), requests[i]).Some?
  {
    hide Clean, Consistent, Serve, FailedCheck, Addresses;
    if requests != [] {
      var n := |requests| - 1;
      var front := requests[..n];
      StaysClean(clock, w, front, key);
      ServeClean(clock, ServeAll(clock, w, front), requests[n], key);
      ServeConsistent(clock, ServeAll(clock, w, front), requests[n]);
      forall i | 0 <= i < |requests| && Addresses(requests[i], key)
        ensures FailedCheck(ServeAll(clock, w, requests[..i]), requests[i]).Some?
      {
        if i < n {
          assert front[i] == requests[i] && front[..i] == requests[..i];
        } else {
          CleanRefuses(ServeAll(clock, w, front), requests[n], key);
        }
      }
    }
  }

  lemma PurgedStaysClean(clock: Clock, w: World, r: Request, after: seq<Request>, key: string)
    requires Consistent(w) && Purges(w, r, key)
    requires forall i :: 0 <= i < |after| ==> !Commits(after[i], key)
    ensures var purged := Serve(clock, w, r);
      && Clean(ServeAll(clock, purged, after), key)
      && forall i :: 0 <= i < |after| && Addresses(after[i], key) ==>
           FailedCheck(ServeAll(clock, purged, after[..i]), after[i]).Some?
  {
    hide Clean, Consistent, Serve, Purges, FailedCheck, Addresses;
    PurgeLeavesClean(clock, w, r, key);
    ServeConsistent(clock, w, r);
    StaysClean(clock, Serve(clock, w, r), after, key);
  }

  /** Purging is final: along every run, once a purge of the key has been admitted and until the key is committed
      afresh, the key has no value anywhere, whatever is revised, forgotten, snapshotted or rolled back to, and every
      other request about the key is refused. */
  lemma PurgeIsFinal(clock: Clock, before: seq<Request>, r: Request, after: seq<Request>)
    requires r.Forget? && r.purge && Plan(ServeAll(clock, EMPTY, before), r).Ok?
    requires forall i :: 0 <= i < |after| && after[i].Commit? ==> after[i].key != r.key
    ensures var purged := Serve(clock, ServeAll(clock, EMPTY, before), r);
      var t := ServeAll(clock, purged, after);
      && r.key !in t.store && r.key !in t.opLog
      && (forall i :: 0 <= i < |t.rows| && t.rows[i].key == r.key && t.rows[i].op != "purge" ==>
            t.rows[i].before == None && t.rows[i].after == None)
      && (forall id :: id in t.snapshots && t.snapshots[id].Readable? ==> r.key !in t.snapshots[id].entries)
      && forall i :: 0 <= i < |after| && (after[i].Revise? || after[i].Confirm? || after[i].Forget?) && after[i].key == r.key ==>
           Plan(ServeAll(clock, purged, after[..i]), after[i]).Err?
  {
    hide Consistent, Serve, FailedCheck, Plan, ServeAll;
    var w := ServeAll(clock, EMPTY, before);
    RunConsistent(clock, before);
    PlanRefuses(w, r);
    PurgedStaysClean(clock, w, r, after, r.key);
    var t := ServeAll(clock, Serve(clock, w, r), after);
    assert forall id :: id in t.snapshots ==> CleanFile(t.snapshots[id], r.key);
    forall i | 0 <= i < |after| && (after[i].Revise? || after[i].Confirm? || after[i].Forget?) && after[i].key == r.key
      ensures Plan(ServeAll(clock, Serve(clock, w, r), after[..i]), after[i]).Err?
    {
      PlanRefuses(ServeAll(clock, Serve(clock, w, r), after[..i]), after[i]);
      assert Addresses(after[i], r.key);
    }
  }

  // ---------------------------------------------------------------- what a snapshot still restores

  /** The keys purged along a run. */
  ghost function PurgedKeys(clock: Clock, w: World, requests: seq<Request>): set<string> {
    if requests == [] then {} else
      var front := requests[..|requests| - 1];
      var last := requests[|requests| - 1];
      PurgedKeys(clock, w, front) +
      (if last.Forget? && Purges(ServeAll(clock, w, front), last, last.key) then {last.key} else {})
  }

  lemma RemoveKeepsFiles(clock: Clock, w: World, key: string, reason: string, noted: bool, purgedAt: Stamp)
    requires Consistent(w)
    ensures Perform(clock, w, ForgetActions(w, key, reason, false, noted, purgedAt)).snapshots == w.snapshots
  {
    hide Perform, ForgetActions, RemoveActions, Consistent;
    ForgetPerforms(clock, w, key, reason, false, noted, purgedAt);
  }

  /** A request changes a snapshot file only by purging a key out of it, or by writing that very snapshot. */
  lemma FileKept(clock: Clock, w: World, r: Request, id: string)
    requires Consistent(w) && !(r.CreateSnapshot? && r.id == id) && id in w.snapshots && w.snapshots[id].Readable?
    ensures var t := Serve(clock, w, r);
      && id in t.snapshots && t.snapshots[id].Readable?
      && t.snapshots[id].entries == w.snapshots[id].entries - (if r.Forget? && Purges(w, r, r.key) then {r.key} else {})
  {
    hide Perform, Consistent, CommitActions, ReviseActions, ConfirmActions, ForgetActions, RollbackActions, Apply,
         ForgetRefusal, AfterNote;
    assert w.snapshots[id].entries - {} == w.snapshots[id].entries;
    if FailedCheck(w, r).None? {
      match r
      case Commit(key, entry, _, accepted, noted) => CommitKeepsFiles(clock, w, key, entry, accepted, noted);
      case Revise(key, _, winner, noted, reason) => ReviseKeepsFiles(clock, w, key, winner, noted, reason);
      case Confirm(key, _, touched, reason) =>
        ConfirmKeepsFiles(clock, w, key, touched, reason);
      case Forget(key, _, reason, purge, noted, purgedAt) =>
        if purge {
          PurgeRequest(clock, w, r, key);
        } else {
          RemoveKeepsFiles(clock, w, key, reason, noted, purgedAt);
        }
      case CreateSnapshot(other, rootHash) => SnapshotPerforms(clock, w, other, rootHash);
      case Rollback(other, _, reason, cached) => RollbackRestores(clock, w, EntriesOf(w.snapshots[other]), reason, cached);
    }
  }

  lemma CommitKeepsFiles(clock: Clock, w: World, key: string, entry: Entry, accepted: bool, noted: bool)
    ensures Perform(clock, w, CommitActions(w.store, key, entry, accepted, noted)).snapshots == w.snapshots
  {
    hide Perform, CommitActions;
    CommitPerforms(clock, w, key, entry, accepted, noted);
  }

  lemma ConfirmKeepsFiles(clock: Clock, w: World, key: string, touched: Entry, reason: Option<string>)
    requires key in w.store
    ensures Perform(clock, w, ConfirmActions(w.store[key], key, touched, reason)).snapshots == w.snapshots
  {
    PerformTwo(clock, w, Put(key, touched),
               LogRow(UPDATE, key, Some(w.store[key]), Some(touched), Meta(reason, true, false, None)));
  }

  lemma ReviseKeepsFiles(clock: Clock, w: World, key: string, winner: Option<Entry>, noted: bool, reason: Option<string>)
    requires key in w.store
    ensures Perform(clock, w, ReviseActions(w.store[key], key, winner, noted, reason)).snapshots == w.snapshots
  {
    hide Perform, ReviseActions;
    RevisePerforms(clock, w, key, winner, noted, reason);
  }

  lemma {:induction false} FileAlongRun(clock: Clock, w: World, requests: seq<Request>, id: string)
    requires Consistent(w) && id in w.snapshots && w.snapshots[id].Readable?
    requires forall i :: 0 <= i < |requests| && requests[i].CreateSnapshot? ==> requests[i].id != id
    ensures var t := ServeAll(clock, w, requests);
      && Consistent(t) && id in t.snapshots && t.snapshots[id].Readable?
      && t.snapshots[id].entries == w.snapshots[id].entries - PurgedKeys(clock, w, requests)
  {
    hide Consistent, Serve, Purges;
    if requests != [] {
      var front := requests[..|requests| - 1];
      var last := requests[|requests| - 1];
      FileAlongRun(clock, w, front, id);
      FileKept(clock, ServeAll(clock, w, front), last, id);
      ServeConsistent(clock, ServeAll(clock, w, front), last);
    }
  }

  /** Rolling back to a snapshot, whatever was served since it was taken, brings back exactly the entries stored when it
      was taken, less the keys purged since. */
  lemma RollbackRestoresTheSnapshot(clock: Clock, w: World, id: string, rootHash: Digest, since: seq<Request>,
                                    cause: string, cached: set<string>)
    requires Consistent(w) && forall i :: 0 <= i < |since| && since[i].CreateSnapshot? ==> since[i].id != id
    ensures var taken := Serve(clock, w, CreateSnapshot(id, rootHash));
      Serve(clock, ServeAll(clock, taken, since), Rollback(id, None, cause, cached)).store ==
      w.store - PurgedKeys(clock, taken, since)
  {
    hide Perform, RollbackActions, Consistent, PurgedKeys;
    var snapshot := CreateSnapshot(id, rootHash);
    var taken := Serve(clock, w, snapshot);
    SnapshotPerforms(clock, w, id, rootHash);
    ServeConsistent(clock, w, snapshot);
    FileAlongRun(clock, taken, since, id);
    var later := ServeAll(clock, taken, since);
    RollbackRestores(clock, later, later.snapshots[id].entries, cause, cached);
  }
}
