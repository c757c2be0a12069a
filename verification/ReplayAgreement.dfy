/** Over any run of hosted requests the audit log, folded as `get_state_at` folds it, is exactly the stored map, and a
    rollback leaves exactly the snapshot. */
module ReplayAgreement {
  import opened Wrappers
  import opened KeyOrder
  import opened Audit
  import opened Runtime
  import AuditProtocol

  function Docs(store: Store): Replayed {
    map k | k in store :: EntryDoc(Some(store[k]))
  }

  /** The replay of the whole log is the store, and the log is one every audit check accepts. */
  ghost predicate Consistent(w: World) {
    Replay(w.rows) == Docs(w.store) && AuditProtocol.LogSound(w.rows)
  }

  // ---------------------------------------------------------------- one row

  lemma LoggedRow(clock: Clock, w: World, op: string, key: string, before: Option<Entry>, after: Option<Entry>, meta: Meta)
    requires AuditProtocol.LogSound(w.rows) && op != PURGE
    ensures var t := Apply(clock, w, LogRow(op, key, before, after, meta));
      && AuditProtocol.LogSound(t.rows)
      && t == w.(rows := t.rows)
      && Replay(t.rows) == if op == CREATE || op == UPDATE || op == CONSOLIDATE then Replay(w.rows)[key := EntryDoc(after)]
                           else if op == DELETE || op == FORGET then Replay(w.rows) - {key} else Replay(w.rows)
  {
    hide AuditProtocol.LogSound;
    var row := NewRow(w.rows, NextId(w.rows), clock(|w.rows|), op, key, EntryDoc(before), EntryDoc(after), meta);
    AuditProtocol.AppendKeepsLogSound(w.rows, row);
    assert (w.rows + [row])[..|w.rows|] == w.rows;
  }

  lemma SetConsistent(clock: Clock, w: World, op: string, key: string, before: Option<Entry>, entry: Entry, meta: Meta)
    requires Consistent(w) && (op == CREATE || op == UPDATE)
    ensures Consistent(Apply(clock, Apply(clock, w, Put(key, entry)), LogRow(op, key, before, Some(entry), meta)))
  {
    hide AuditProtocol.LogSound, NewRow, Replay;
    var put := Apply(clock, w, Put(key, entry));
    LoggedRow(clock, put, op, key, before, Some(entry), meta);
    assert Docs(put.store) == Docs(w.store)[key := EntryDoc(Some(entry))];
  }

  lemma NoteConsistent(clock: Clock, w: World, key: string, noted: bool)
    ensures AfterNote(clock, w, key, noted) == w.(opLog := AfterNote(clock, w, key, noted).opLog)
  {
  }

  lemma DropConsistent(clock: Clock, w: World, op: string, key: string, before: Option<Entry>, noted: bool, meta: Meta)
    requires Consistent(w) && (op == DELETE || op == FORGET)
    ensures var t := Apply(clock, AfterNote(clock, Apply(clock, w, Drop(key)), key, noted), LogRow(op, key, before, None, meta));
      Consistent(t) && t.store == w.store - {key}
  {
    hide AuditProtocol.LogSound, NewRow, Replay, AfterNote, Trim;
    var dropped := Apply(clock, w, Drop(key));
    NoteConsistent(clock, dropped, key, noted);
    LoggedRow(clock, AfterNote(clock, dropped, key, noted), op, key, before, None, meta);
    assert Docs(dropped.store) == Docs(w.store) - {key};
  }

  /** A row about an absent key, or one that sets nothing, changes no replayed state. */
  lemma IdleRowConsistent(clock: Clock, w: World, op: string, key: string, meta: Meta)
    requires Consistent(w) && (op == ROLLBACK || (op == FORGET && key !in w.store))
    ensures var t := Apply(clock, w, LogRow(op, key, None, None, meta)); Consistent(t) && t == w.(rows := t.rows)
  {
    hide AuditProtocol.LogSound, NewRow, Replay;
    LoggedRow(clock, w, op, key, None, None, meta);
    assert key !in w.store ==> Docs(w.store) - {key} == Docs(w.store);
  }

  // ---------------------------------------------------------------- purging

  lemma {:induction false} RunSound(s: AuditProtocol.System, steps: seq<AuditProtocol.Step>)
    requires AuditProtocol.Sound(s)
    ensures AuditProtocol.Sound(AuditProtocol.Run(s, steps))
  {
    hide AuditProtocol.Sound, AuditProtocol.Next;
    if steps != [] {
      RunSound(s, steps[..|steps| - 1]);
      AuditProtocol.StepSound(AuditProtocol.Run(s, steps[..|steps| - 1]), steps[|steps| - 1]);
    }
  }

  lemma PurgedLogSound(rows: seq<Row>, key: string, meta: Meta, now: Stamp, purgedAt: Stamp)
    requires AuditProtocol.LogSound(rows)
    ensures AuditProtocol.LogSound(PurgedLog(rows, key, meta, now, purgedAt))
  {
    hide AuditProtocol.LogSound, AuditProtocol.Run, PurgedLog;
    var s := AuditProtocol.System(rows, map[], map[]);
    var n := |PurgeableRows(rows, key)|;
    var steps := [AuditProtocol.Select(0, key), AuditProtocol.AppendReceipt(0, NextId(rows), now, meta)] +
                 AuditProtocol.EmptySteps(0, n, purgedAt);
    AuditProtocol.UninterruptedPurge(s, 0, key, meta, now, purgedAt);
    RunSound(s, steps);
  }

  ghost predicate EndsBy(rows: seq<Row>, time: real) {
    forall i :: 0 <= i < |rows| ==> rows[i].stamp.at <= time
  }

  lemma {:induction false} HasEnd(rows: seq<Row>)
    ensures exists time :: EndsBy(rows, time)
  {
    if rows == [] {
      assert EndsBy(rows, 0.0);
    } else {
      HasEnd(rows[..|rows| - 1]);
      var time :| EndsBy(rows[..|rows| - 1], time);
      var last := rows[|rows| - 1].stamp.at;
      assert EndsBy(rows, if time < last then last else time);
    }
  }

  lemma EndsByEarlier(a: seq<Row>, b: seq<Row>, time: real)
    requires EndsBy(b, time) && AuditProtocol.Grown(a, b)
    ensures EndsBy(a, time)
  {
    forall i | 0 <= i < |a|
      ensures a[i].stamp.at <= time
    {
      assert b[i].stamp == a[i].stamp;
    }
  }

  lemma PurgedLogGrown(rows: seq<Row>, key: string, meta: Meta, now: Stamp, purgedAt: Stamp)
    requires Ascending(rows)
    ensures AuditProtocol.Grown(rows, PurgedLog(rows, key, meta, now, purgedAt))
  {
    hide PurgedLog;
    PurgedLogMeaning(rows, key, meta, now, purgedAt);
    assert forall i :: 0 <= i < |rows| ==> rows[i] in rows;
  }

  lemma PurgeForgetsOne(rows: seq<Row>, key: string, meta: Meta, now: Stamp, purgedAt: Stamp)
    requires Ascending(rows)
    ensures OnlyForgot(key, Replay(rows), Replay(PurgedLog(rows, key, meta, now, purgedAt)))
  {
    hide PurgedLog, OnlyForgot;
    var after := PurgedLog(rows, key, meta, now, purgedAt);
    HasEnd(after);
    var time :| EndsBy(after, time);
    PurgedLogGrown(rows, key, meta, now, purgedAt);
    EndsByEarlier(rows, after, time);
    ReplayIsStateAtTheEnd(rows, time);
    ReplayIsStateAtTheEnd(after, time);
    PurgeHidesOneKeyAtEveryTime(rows, key, meta, now, purgedAt, time);
  }

  lemma PurgeAuditConsistent(clock: Clock, w: World, key: string, meta: Meta, purgedAt: Stamp)
    requires Consistent(w) && key !in w.store
    ensures var t := Apply(clock, w, PurgeAudit(key, meta, purgedAt)); Consistent(t) && t == w.(rows := t.rows)
  {
    hide PurgedLog, Replay;
    PurgedLogSound(w.rows, key, meta, clock(|w.rows|), purgedAt);
    PurgeForgetsOne(w.rows, key, meta, clock(|w.rows|), purgedAt);
  }

  // ---------------------------------------------------------------- whole requests

  lemma {:induction false} ScrubKeeps(w: World, files: SnapshotItems, n: nat, key: string)
    requires n <= |files|
    ensures ScrubbedTo(w, files, n, key) == w.(snapshots := ScrubbedTo(w, files, n, key).snapshots)
  {
    if n > 0 {
      ScrubKeeps(w, files, n - 1, key);
    }
  }

  lemma RemoveConsistent(clock: Clock, w: World, key: string, reason: string, noted: bool)
    requires Consistent(w) && key in w.store
    ensures var t := Perform(clock, w, RemoveActions(w.store[key], key, reason, noted));
      Consistent(t) && t.store == w.store - {key} && t.snapshots == w.snapshots
  {
    hide Consistent, Perform, RemoveActions, AfterNote, NewRow;
    RemovePerforms(clock, w, key, w.store[key], reason, noted);
    DropConsistent(clock, w, FORGET, key, Some(w.store[key]), noted, PlainMeta(None));
    NoteConsistent(clock, Apply(clock, w, Drop(key)), key, noted);
    var first := Apply(clock, AfterNote(clock, Apply(clock, w, Drop(key)), key, noted),
                       LogRow(FORGET, key, Some(w.store[key]), None, PlainMeta(None)));
    IdleRowConsistent(clock, first, FORGET, key, PlainMeta(Some(reason)));
  }

  lemma PurgeConsistent(clock: Clock, w: World, key: string, reason: string, purgedAt: Stamp)
    requires Consistent(w) && key !in w.store
    ensures Consistent(Perform(clock, w, PurgeActions(w.snapshots, key, reason, purgedAt)))
  {
    hide Perform, PurgeActions, PurgedLog, Replay, AuditProtocol.LogSound, ScrubbedTo, Without, SortedItems;
    PurgePerforms(clock, w, key, reason, purgedAt);
    var redacted := Apply(clock, w, Redact(key));
    PurgeAuditConsistent(clock, redacted, key, PlainMeta(Some(reason)), purgedAt);
    ScrubKeeps(Apply(clock, redacted, PurgeAudit(key, PlainMeta(Some(reason)), purgedAt)), SortedItems(w.snapshots),
               |w.snapshots.Keys|, key);
  }

  lemma {:induction false} DroppedConsistent(clock: Clock, w: World, keys: seq<string>, n: nat, reason: string,
                                             cached: set<string>)
    requires Consistent(w) && n <= |keys|
    ensures Consistent(Dropped(clock, w, keys, n, reason, cached))
  {
    hide Consistent, Apply;
    if n > 0 {
      DroppedConsistent(clock, w, keys, n - 1, reason, cached);
      var now := Dropped(clock, w, keys, n - 1, reason, cached);
      var k := keys[n - 1];
      DropConsistent(clock, now, DELETE, k, Loaded(now.store, k), k in cached, RollbackMeta(reason));
    }
  }

  lemma {:induction false} RestoredConsistent(clock: Clock, w: World, items: EntryItems, n: nat, reason: string)
    requires Consistent(w) && n <= |items|
    ensures Consistent(Restored(clock, w, items, n, reason).0)
  {
    hide Consistent, Apply;
    if n > 0 {
      RestoredConsistent(clock, w, items, n - 1, reason);
      var now := Restored(clock, w, items, n - 1, reason).0;
      var (k, wanted) := items[n - 1];
      var existing := Loaded(now.store, k);
      SetConsistent(clock, now, if existing.Some? then UPDATE else CREATE, k, existing, wanted, RollbackMeta(reason));
    }
  }

  lemma RollbackConsistent(clock: Clock, w: World, target: Store, reason: string, cached: set<string>)
    requires Consistent(w)
    ensures Consistent(Perform(clock, w, RollbackActions(w.store, target, reason, cached)))
  {
    hide Consistent, Apply, Perform, RollbackActions, Dropped, Restored;
    RollbackPerforms(clock, w, target, reason, cached);
    var deleted := Sort(w.store.Keys - target.Keys);
    DroppedConsistent(clock, w, deleted, |deleted|, reason, cached);
    var dropped := Dropped(clock, w, deleted, |deleted|, reason, cached);
    RestoredConsistent(clock, dropped, SortedItems(target), |target.Keys|, reason);
    IdleRowConsistent(clock, Restored(clock, dropped, SortedItems(target), |target.Keys|, reason).0, ROLLBACK, SYSTEM_KEY,
                      PlainMeta(Some(reason)));
  }

  lemma CommitConsistent(clock: Clock, w: World, key: string, entry: Entry, accepted: bool, noted: bool)
    requires Consistent(w)
    ensures Consistent(Perform(clock, w, CommitActions(w.store, key, entry, accepted, noted)))
  {
    hide Perform, CommitActions, NewRow, Replay, AuditProtocol.LogSound, Docs;
    CommitPerforms(clock, w, key, entry, accepted, noted);
    NoteConsistent(clock, w, key, noted);
    if accepted {
      SetConsistent(clock, AfterNote(clock, w, key, noted), if key in w.store then UPDATE else CREATE, key,
                    Loaded(w.store, key), entry, PlainMeta(None));
    }
  }

  lemma ReviseConsistent(clock: Clock, w: World, key: string, winner: Option<Entry>, noted: bool, reason: Option<string>)
    requires Consistent(w) && key in w.store
    ensures Consistent(Perform(clock, w, ReviseActions(w.store[key], key, winner, noted, reason)))
  {
    hide Perform, ReviseActions, NewRow, Replay, AuditProtocol.LogSound, Docs;
    RevisePerforms(clock, w, key, winner, noted, reason);
    NoteConsistent(clock, w, key, noted);
    if winner.Some? {
      if winner.value == w.store[key] {
        assert w.store[key := winner.value] == w.store;
      } else {
        SetConsistent(clock, AfterNote(clock, w, key, noted), UPDATE, key, Some(w.store[key]), winner.value, PlainMeta(reason));
      }
    }
  }

  lemma ConfirmConsistent(clock: Clock, w: World, key: string, touched: Entry, reason: Option<string>)
    requires Consistent(w) && key in w.store
    ensures Consistent(Perform(clock, w, ConfirmActions(w.store[key], key, touched, reason)))
  {
    hide Perform, Apply, Consistent;
    var log := LogRow(UPDATE, key, Some(w.store[key]), Some(touched), Meta(reason, true, false, None));
    PerformTwo(clock, w, Put(key, touched), log);
    SetConsistent(clock, w, UPDATE, key, Some(w.store[key]), touched, Meta(reason, true, false, None));
  }

  lemma ForgetConsistent(clock: Clock, w: World, key: string, reason: string, purge: bool, noted: bool, purgedAt: Stamp)
    requires Consistent(w)
    ensures Consistent(Perform(clock, w, ForgetActions(w, key, reason, purge, noted, purgedAt)))
  {
    hide Perform, Consistent, ForgetActions, RemoveActions, PurgeActions;
    ForgetPerforms(clock, w, key, reason, purge, noted, purgedAt);
    var removed := if key in w.store then Perform(clock, w, RemoveActions(w.store[key], key, reason, noted)) else w;
    if key in w.store {
      RemoveConsistent(clock, w, key, reason, noted);
    }
    if purge {
      PurgeConsistent(clock, removed, key, reason, purgedAt);
    }
  }

  /** No request, admitted or refused, can make the log and the store disagree. */
  lemma ServeConsistent(clock: Clock, w: World, r: Request)
    requires Consistent(w)
    ensures Consistent(Serve(clock, w, r))
  {
    hide Perform, CommitActions, ReviseActions, ConfirmActions, ForgetActions, RollbackActions, Replay,
         AuditProtocol.LogSound, Docs, ForgetRefusal, Apply;
    if FailedCheck(w, r).None? {
      match r
      case Commit(key, entry, _, accepted, noted) => CommitConsistent(clock, w, key, entry, accepted, noted);
      case Revise(key, _, winner, noted, reason) => ReviseConsistent(clock, w, key, winner, noted, reason);
      case Confirm(key, _, touched, reason) => ConfirmConsistent(clock, w, key, touched, reason);
      case Forget(key, _, reason, purge, noted, purgedAt) => ForgetConsistent(clock, w, key, reason, purge, noted, purgedAt);
      case CreateSnapshot(id, rootHash) => SnapshotPerforms(clock, w, id, rootHash);
      case Rollback(id, _, reason, cached) => RollbackConsistent(clock, w, EntriesOf(w.snapshots[id]), reason, cached);
    }
  }

  lemma SnapshotPerforms(clock: Clock, w: World, id: string, rootHash: Digest)
    ensures Perform(clock, w, [WriteSnapshot(id, Readable(w.store, rootHash))]) ==
            w.(snapshots := w.snapshots[id := Readable(w.store, rootHash)])
  {
    PerformOne(clock, w, WriteSnapshot(id, Readable(w.store, rootHash)));
  }

  // ---------------------------------------------------------------- over every run

  const EMPTY := World(map[], [], map[], [])

  ghost function ServeAll(clock: Clock, w: World, requests: seq<Request>): World {
    if requests == [] then w else Serve(clock, ServeAll(clock, w, requests[..|requests| - 1]), requests[|requests| - 1])
  }

  /** Requests are served one after the other, each on the state the earlier ones left. */
  lemma {:induction false} ServedInTurn(clock: Clock, w: World, a: seq<Request>, b: seq<Request>, r: Request)
    ensures ServeAll(clock, w, []) == w && ServeAll(clock, w, [r]) == Serve(clock, w, r)
    ensures ServeAll(clock, w, a + b) == ServeAll(clock, ServeAll(clock, w, a), b)
  {
    hide Serve;
    assert [r][..0] == [];
    if b == [] {
      assert a + b == a;
    } else {
      assert (a + b)[..|a + b| - 1] == a + b[..|b| - 1];
      ServedInTurn(clock, w, a, b[..|b| - 1], r);
    }
  }

  lemma {:induction false} RunConsistent(clock: Clock, requests: seq<Request>)
    ensures Consistent(ServeAll(clock, EMPTY, requests))
  {
    hide Serve;
    if requests != [] {
      RunConsistent(clock, requests[..|requests| - 1]);
      ServeConsistent(clock, ServeAll(clock, EMPTY, requests[..|requests| - 1]), requests[|requests| - 1]);
    }
  }

  /** The entry in a stored text: the fields of the one object it shows. */
  function ReadEntry(doc: Option<Doc>): Option<Entry> {
    if doc.None? then None else
      var text := doc.value.text;
      if |text| >= 2 && text[0] == '{' && text[|text| - 1] == '}' then Some(Entry(text[1..|text| - 1])) else None
  }

  /** A stored text gives its entry back, so two entries are never stored alike; no entry is stored as an empty text. */
  lemma StoredEntryComesBack(entry: Entry)
    ensures ReadEntry(EntryDoc(Some(entry))) == Some(entry)
    ensures EntryDoc(Some(entry)).Some? && EntryDoc(Some(entry)).value.text != ""
  {
    var text := EntryDoc(Some(entry)).value.text;
    assert text[1..|text| - 1] == entry.fields;
  }

  /** After any run of commits, revisions, confirmations, forgets, purges, snapshots and rollbacks, reading the replay of
      the whole log (at any time at or after its last row) gives back exactly the stored map, and the log verifies. */
  lemma ReplayIsTheStore(clock: Clock, requests: seq<Request>, time: real)
    requires forall i :: 0 <= i < |ServeAll(clock, EMPTY, requests).rows| ==>
               ServeAll(clock, EMPTY, requests).rows[i].stamp.at <= time
    ensures var w := ServeAll(clock, EMPTY, requests);
      && (forall k :: k in StateAt(w.rows, time) <==> k in w.store)
      && (forall k :: k in w.store ==> ReadEntry(StateAt(w.rows, time)[k]) == Some(w.store[k]))
      && ChainVerifies(w.rows)
  {
    hide Serve, AuditProtocol.LogSound, ReadEntry, EntryDoc;
    var w := ServeAll(clock, EMPTY, requests);
    RunConsistent(clock, requests);
    ReplayIsStateAtTheEnd(w.rows, time);
    AuditProtocol.SoundLogVerifies(w.rows);
    assert StateAt(w.rows, time).Keys == Docs(w.store).Keys;
    forall k | k in w.store
      ensures ReadEntry(StateAt(w.rows, time)[k]) == Some(w.store[k])
    {
      StoredEntryComesBack(w.store[k]);
    }
  }

  /** The log determines the store: two runs whose logs replay alike, whatever was asked of each and when, stored the same. */
  lemma SameReplaySameStore(clock: Clock, requests: seq<Request>, time: real,
                            clock': Clock, requests': seq<Request>, time': real)
    requires forall i :: 0 <= i < |ServeAll(clock, EMPTY, requests).rows| ==>
               ServeAll(clock, EMPTY, requests).rows[i].stamp.at <= time
    requires forall i :: 0 <= i < |ServeAll(clock', EMPTY, requests').rows| ==>
               ServeAll(clock', EMPTY, requests').rows[i].stamp.at <= time'
    requires StateAt(ServeAll(clock, EMPTY, requests).rows, time) == StateAt(ServeAll(clock', EMPTY, requests').rows, time')
    ensures ServeAll(clock, EMPTY, requests).store == ServeAll(clock', EMPTY, requests').store
  {
    hide ServeAll, StateAt, ReadEntry;
    ReplayIsTheStore(clock, requests, time);
    ReplayIsTheStore(clock', requests', time');
    var a, b := ServeAll(clock, EMPTY, requests).store, ServeAll(clock', EMPTY, requests').store;
    forall k | k in a
      ensures k in b && a[k] == b[k]
    {
    }
    assert a.Keys == b.Keys;
  }

  // ---------------------------------------------------------------- what a rollback leaves

  lemma {:induction false} DroppedGone(clock: Clock, w: World, keys: seq<string>, n: nat, reason: string,
                                       cached: set<string>, i: nat)
    requires i < n <= |keys|
    ensures keys[i] !in Dropped(clock, w, keys, n, reason, cached).store
  {
    hide AfterDelete;
    var now := Dropped(clock, w, keys, n - 1, reason, cached);
    AfterDeleteStore(clock, now, keys[n - 1], Loaded(now.store, keys[n - 1]), reason, keys[n - 1] in cached);
    if i < n - 1 {
      DroppedGone(clock, w, keys, n - 1, reason, cached, i);
    }
  }

  lemma {:induction false} RestoredHas(clock: Clock, w: World, target: Store, n: nat, reason: string, i: nat)
    requires i < n <= |target.Keys|
    ensures var (k, wanted) := SortedItems(target)[i];
      Loaded(Restored(clock, w, SortedItems(target), n, reason).0.store, k) == Some(wanted)
  {
    hide AfterRestore, SortedItems;
    var items := SortedItems(target);
    var now := Restored(clock, w, items, n - 1, reason).0;
    AfterRestoreStore(clock, now, items[n - 1].0, Loaded(now.store, items[n - 1].0), items[n - 1].1, reason);
    if i < n - 1 {
      RestoredHas(clock, w, target, n - 1, reason, i);
      ItemsDistinct(target, n - 1);
    }
  }

  // Every key ends as the snapshot has it: extra ones were dropped, wanted ones restored.
  lemma RollbackKey(clock: Clock, w: World, target: Store, reason: string, cached: set<string>, k: string)
    ensures var gone := Sort(w.store.Keys - target.Keys);
      var dropped := Dropped(clock, w, gone, |gone|, reason, cached);
      Loaded(Restored(clock, dropped, SortedItems(target), |target.Keys|, reason).0.store, k) == Loaded(target, k)
  {
    hide Dropped, Restored, SortedItems;
    var gone := Sort(w.store.Keys - target.Keys);
    var dropped := Dropped(clock, w, gone, |gone|, reason, cached);
    if k in target {
      assert k in Sort(target.Keys);
      var i: nat :| i < |target.Keys| && Sort(target.Keys)[i] == k;
      SortedItem(target, i);
      RestoredHas(clock, dropped, target, |target.Keys|, reason, i);
    } else {
      forall j | 0 <= j < |target.Keys|
        ensures SortedItems(target)[j].0 != k
      {
        SortedItem(target, j);
      }
      RestoredKeeps(clock, dropped, SortedItems(target), |target.Keys|, reason, k);
      if k in gone {
        var i: nat :| i < |gone| && gone[i] == k;
        DroppedGone(clock, w, gone, |gone|, reason, cached, i);
      } else {
        assert forall j :: 0 <= j < |gone| ==> gone[j] in gone;
        DroppedKeeps(clock, w, gone, |gone|, reason, cached, k);
      }
    }
  }

  lemma {:induction false} DroppedKeepsSnapshots(clock: Clock, w: World, keys: seq<string>, n: nat, reason: string,
                                                 cached: set<string>)
    requires n <= |keys|
    ensures Dropped(clock, w, keys, n, reason, cached).snapshots == w.snapshots
  {
    hide AfterDelete;
    if n > 0 {
      DroppedKeepsSnapshots(clock, w, keys, n - 1, reason, cached);
      var now := Dropped(clock, w, keys, n - 1, reason, cached);
      AfterDeleteStore(clock, now, keys[n - 1], Loaded(now.store, keys[n - 1]), reason, keys[n - 1] in cached);
    }
  }

  lemma {:induction false} RestoredKeepsSnapshots(clock: Clock, w: World, items: EntryItems, n: nat, reason: string)
    requires n <= |items|
    ensures Restored(clock, w, items, n, reason).0.snapshots == w.snapshots
  {
    hide AfterRestore;
    if n > 0 {
      RestoredKeepsSnapshots(clock, w, items, n - 1, reason);
      var now := Restored(clock, w, items, n - 1, reason).0;
      AfterRestoreStore(clock, now, items[n - 1].0, Loaded(now.store, items[n - 1].0), items[n - 1].1, reason);
    }
  }

  /** The final store of an admitted rollback is the snapshot, and the snapshot files are as they were. */
  lemma RollbackRestores(clock: Clock, w: World, target: Store, reason: string, cached: set<string>)
    ensures var t := Perform(clock, w, RollbackActions(w.store, target, reason, cached));
      t.store == target && t.snapshots == w.snapshots
  {
    hide Dropped, Restored, SortedItems, Perform, RollbackActions, NewRow, ChangesFor;
    var gone := Sort(w.store.Keys - target.Keys);
    var dropped := Dropped(clock, w, gone, |gone|, reason, cached);
    var final := Restored(clock, dropped, SortedItems(target), |target.Keys|, reason).0;
    RollbackPerforms(clock, w, target, reason, cached);
    DroppedKeepsSnapshots(clock, w, gone, |gone|, reason, cached);
    RestoredKeepsSnapshots(clock, dropped, SortedItems(target), |target.Keys|, reason);
    forall k: string
      ensures Loaded(final.store, k) == Loaded(target, k)
    {
      RollbackKey(clock, w, target, reason, cached, k);
    }
    SameLoads(final.store, target);
  }

  lemma SameLoads(a: Store, b: Store)
    requires forall k :: Loaded(a, k) == Loaded(b, k)
    ensures a == b
  {
    assert forall k :: k in a <==> Loaded(a, k).Some?;
    assert forall k :: k in b <==> Loaded(b, k).Some?;
    assert forall k :: k in a ==> Some(a[k]) == Loaded(a, k) == Loaded(b, k);
  }
}
