/** What each hosted request is admitted on and what it writes, told from the stored map, the log, the snapshot files and
    the revision log alone. */
module RequestEffects {
  import opened Wrappers
  import opened KeyOrder
  import opened Audit
  import opened Runtime
  import opened ReplayAgreement
  import PurgeFinality

  // ---------------------------------------------------------------- admission

  /** A request is admitted exactly when: a commit that asks for a new key finds none; a revision, confirmation or forget
      finds the entry, in the version its caller expects if any; a purge can read every snapshot file and finds the entry or
      something else of the key; a rollback finds a snapshot to load, and the head its preview saw if one is given. */
  lemma AdmittedExactlyWhen(w: World, r: Request)
    ensures Plan(w, r).Ok? <==>
      match r
      case Commit(key, _, ifAbsent, _, _) => !ifAbsent || key !in w.store
      case Revise(key, expected, _, _, _) => key in w.store && (expected == None || expected == Some(w.store[key]))
      case Confirm(key, expected, _, _) => key in w.store && (expected == None || expected == Some(w.store[key]))
      case Forget(key, expected, _, purge, _, _) =>
        && (purge ==> forall id :: id in w.snapshots ==> w.snapshots[id].Readable? || w.snapshots[id].Headless?)
        && if key in w.store then expected == None || expected == Some(w.store[key])
           else && purge
                && (|| (exists i :: 0 <= i < |w.rows| && w.rows[i].key == key && w.rows[i].op != "purge" &&
                                    (w.rows[i].before.Some? || w.rows[i].after.Some?))
                    || exists id :: id in w.snapshots && w.snapshots[id].Readable? && key in w.snapshots[id].entries)
      case CreateSnapshot(_, _) => true
      case Rollback(id, expectedRoot, _, _) =>
        && id in w.snapshots && (w.snapshots[id].Readable? || w.snapshots[id].Misshapen?)
        && (expectedRoot == None || expectedRoot == Some(if w.rows == [] then Genesis else w.rows[|w.rows| - 1].root))
  {
    hide CommitActions, ReviseActions, ConfirmActions, ForgetActions, RollbackActions, Purgeable, PurgeAdmitted;
    if r.Forget? {
      SomethingToPurge(w, r.key);
    }
  }

  lemma SomethingToPurge(w: World, key: string)
    ensures PurgeAdmitted(w, key) <==>
      || (exists i :: 0 <= i < |w.rows| && w.rows[i].key == key && w.rows[i].op != "purge" &&
                      (w.rows[i].before.Some? || w.rows[i].after.Some?))
      || exists id :: id in w.snapshots && w.snapshots[id].Readable? && key in w.snapshots[id].entries
  {
    if exists r :: r in w.rows && Purgeable(r, key) {
      var r :| r in w.rows && Purgeable(r, key);
      var i :| 0 <= i < |w.rows| && w.rows[i] == r;
      assert w.rows[i].key == key && w.rows[i].op != "purge";
    }
    if exists id :: id in w.snapshots && Holds(w.snapshots[id], key) {
      var id :| id in w.snapshots && Holds(w.snapshots[id], key);
      assert id in w.snapshots && w.snapshots[id].Readable? && key in w.snapshots[id].entries;
    }
    if id :| id in w.snapshots && w.snapshots[id].Readable? && key in w.snapshots[id].entries {
      assert Holds(w.snapshots[id], key);
    }
    assert forall i :: 0 <= i < |w.rows| ==> w.rows[i] in w.rows;
  }

  /** Why a request is refused. A refused request changes nothing. */
  lemma RefusedWith(clock: Clock, w: World, r: Request)
    requires Plan(w, r).Err?
    ensures Serve(clock, w, r) == w
    ensures var e := Plan(w, r).error;
      match r
      case Commit(_, _, _, _, _) => e == MemoryExists
      case Revise(key, _, _, _, _) => e == if key in w.store then VersionConflict else MemoryNotFound
      case Confirm(key, _, _, _) => e == if key in w.store then VersionConflict else MemoryNotFound
      case Forget(key, _, _, purge, _, _) =>
        e == if purge && exists id :: id in w.snapshots && !w.snapshots[id].Readable? && !w.snapshots[id].Headless? then PurgeBlocked
             else if key in w.store then VersionConflict else MemoryNotFound
      case CreateSnapshot(_, _) => false
      case Rollback(id, _, _, _) =>
        e == if id !in w.snapshots then SnapshotNotFound
             else if w.snapshots[id].Readable? || w.snapshots[id].Misshapen? then StateChangedSincePreview
             else SnapshotUnreadable
  {
    hide CommitActions, ReviseActions, ConfirmActions, ForgetActions, RollbackActions, PurgeAdmitted, HeadRoot;
  }

  /** The caller's expected version: a request about a stored key that expects another entry changes nothing, and one that
      changes anything met the entry it expected. */
  lemma StaleVersionChangesNothing(clock: Clock, w: World, r: Request)
    requires r.Revise? || r.Confirm? || r.Forget?
    requires r.key in w.store && r.expected.Some? && r.expected.value != w.store[r.key]
    ensures Serve(clock, w, r) == w && Plan(w, r).Err?
  {
    AdmittedExactlyWhen(w, r);
    RefusedWith(clock, w, r);
  }

  // ---------------------------------------------------------------- entries

  /** An accepted commit stores the entry and logs it with what it replaced; recorded or not by AGM, a refused one by AGM
      stores nothing. The revision log keeps its newest thousand records. */
  lemma CommitEffect(clock: Clock, w: World, key: string, entry: Entry, ifAbsent: bool, accepted: bool, noted: bool)
    requires !ifAbsent || key !in w.store
    ensures var t := Serve(clock, w, Commit(key, entry, ifAbsent, accepted, noted));
      && t.store == (if accepted then w.store[key := entry] else w.store)
      && t.rows == (if !accepted then w.rows else
           w.rows + [NewRow(w.rows, NextId(w.rows), clock(|w.rows|), if key in w.store then "update" else "create", key,
                            if key in w.store then Some(Doc("{" + w.store[key].fields + "}", [])) else None,
                            Some(Doc("{" + entry.fields + "}", [])), Meta(None, false, false, None))])
      && t.snapshots == w.snapshots
      && t.opLog == (if !noted then w.opLog else if |w.opLog| < 1000 then w.opLog + [key]
                     else w.opLog[|w.opLog| - 999..] + [key])
  {
    hide Perform, CommitActions, NewRow, NextId;
    CommitPerforms(clock, w, key, entry, accepted, noted);
    NotedEffect(clock, w, key, noted);
  }

  lemma NotedEffect(clock: Clock, w: World, key: string, noted: bool)
    ensures AfterNote(clock, w, key, noted) ==
            w.(opLog := if !noted then w.opLog else if |w.opLog| < 1000 then w.opLog + [key]
                        else w.opLog[|w.opLog| - 999..] + [key])
  {
  }

  /** An admitted revision stores the winner if there is one, and logs it only when it differs from the stored entry. */
  lemma ReviseEffect(clock: Clock, w: World, key: string, expected: Option<Entry>, winner: Option<Entry>, noted: bool,
                     reason: Option<string>)
    requires key in w.store && (expected == None || expected == Some(w.store[key]))
    ensures var t := Serve(clock, w, Revise(key, expected, winner, noted, reason));
      && t.store == (if winner.Some? then w.store[key := winner.value] else w.store)
      && t.rows == (if winner == None || winner == Some(w.store[key]) then w.rows else
           w.rows + [NewRow(w.rows, NextId(w.rows), clock(|w.rows|), "update", key,
                            Some(Doc("{" + w.store[key].fields + "}", [])), Some(Doc("{" + winner.value.fields + "}", [])),
                            Meta(reason, false, false, None))])
      && t.snapshots == w.snapshots
      && t.opLog == (if !noted then w.opLog else if |w.opLog| < 1000 then w.opLog + [key]
                     else w.opLog[|w.opLog| - 999..] + [key])
  {
    hide Perform, ReviseActions, NewRow, NextId;
    RevisePerforms(clock, w, key, winner, noted, reason);
    NotedEffect(clock, w, key, noted);
  }

  /** An admitted confirmation stores the touched entry and logs it as an update marked confirmed; AGM is not asked. */
  lemma ConfirmEffect(clock: Clock, w: World, key: string, expected: Option<Entry>, touched: Entry, reason: Option<string>)
    requires key in w.store && (expected == None || expected == Some(w.store[key]))
    ensures Serve(clock, w, Confirm(key, expected, touched, reason)) ==
      w.(store := w.store[key := touched],
         rows := w.rows + [NewRow(w.rows, NextId(w.rows), clock(|w.rows|), "update", key,
                                  Some(Doc("{" + w.store[key].fields + "}", [])), Some(Doc("{" + touched.fields + "}", [])),
                                  Meta(reason, true, false, None))])
  {
    hide Perform, NewRow, NextId;
    PerformTwo(clock, w, Put(key, touched),
               LogRow(UPDATE, key, Some(w.store[key]), Some(touched), Meta(reason, true, false, None)));
  }

  /** A new snapshot file holds the whole store; nothing else changes. */
  lemma SnapshotEffect(clock: Clock, w: World, id: string, rootHash: Digest)
    ensures Serve(clock, w, CreateSnapshot(id, rootHash)) ==
            w.(snapshots := w.snapshots[id := Readable(w.store, rootHash)])
  {
    SnapshotPerforms(clock, w, id, rootHash);
  }

  // ---------------------------------------------------------------- forgetting

  lemma RemoveEffect(clock: Clock, w: World, key: string, reason: string, noted: bool)
    requires key in w.store
    ensures var t := Perform(clock, w, RemoveActions(w.store[key], key, reason, noted));
      var first := w.rows + [NewRow(w.rows, NextId(w.rows), clock(|w.rows|), "forget", key,
                                    Some(Doc("{" + w.store[key].fields + "}", [])), None, Meta(None, false, false, None))];
      && t.store == w.store - {key} && t.snapshots == w.snapshots
      && t.rows == first + [NewRow(first, NextId(first), clock(|first|), "forget", key, None, None,
                                   Meta(Some(reason), false, false, None))]
      && t.opLog == AfterNote(clock, w, key, noted).opLog
  {
    hide Perform, RemoveActions, NewRow, NextId;
    RemovePerforms(clock, w, key, w.store[key], reason, noted);
    NotedEffect(clock, Apply(clock, w, Drop(key)), key, noted);
  }

  lemma PurgeEffect(clock: Clock, w: World, key: string, reason: string, purgedAt: Stamp)
    ensures var t := Perform(clock, w, PurgeActions(w.snapshots, key, reason, purgedAt));
      && t.store == w.store && t.opLog == Without(w.opLog, key)
      && t.rows == PurgedLog(w.rows, key, Meta(Some(reason), false, false, None), clock(|w.rows|), purgedAt)
      && t.snapshots.Keys == w.snapshots.Keys
      && forall id :: id in w.snapshots ==>
           var file := w.snapshots[id];
           t.snapshots[id] == if file.Readable? && key in file.entries then Readable(file.entries - {key}, file.rootHash) else file
  {
    hide Perform, PurgeActions, PurgedLog, ScrubbedTo, SortedItems, Without;
    PurgePerforms(clock, w, key, reason, purgedAt);
    var before := Apply(clock, Apply(clock, w, Redact(key)), PurgeAudit(key, PlainMeta(Some(reason)), purgedAt));
    ScrubKeeps(before, SortedItems(w.snapshots), |w.snapshots.Keys|, key);
    forall id | id in w.snapshots
      ensures var now := ScrubbedTo(before, SortedItems(w.snapshots), |w.snapshots.Keys|, key).snapshots;
        var file := w.snapshots[id];
        && now.Keys == w.snapshots.Keys
        && now[id] == if file.Readable? && key in file.entries then Readable(file.entries - {key}, file.rootHash) else file
    {
      PurgeFinality.ScrubbedFiles(before, key, id);
    }
    if w.snapshots == map[] {
      PurgeFinality.NothingScrubbed(before, key);
    } else {
      var id :| id in w.snapshots;
    }
  }

  /** Redacting the revision log keeps its other records, each as often as before and in their order. */
  lemma {:induction false} WithoutKeepsTheRest(a: seq<string>, b: seq<string>, key: string, other: string)
    ensures Without([key], key) == [] && (other != key ==> Without([other], key) == [other])
    ensures Without(a + b, key) == Without(a, key) + Without(b, key)
  {
    assert [key][..0] == [] && [other][..0] == [];
    if b == [] {
      assert a + b == a;
    } else {
      assert (a + b)[..|a + b| - 1] == a + b[..|b| - 1];
      WithoutKeepsTheRest(a, b[..|b| - 1], key, other);
    }
  }

  /** An admitted forget takes the entry out and logs two rows: the core's with the removed state, then one with the reason
      and no value. A purge then redacts the revision log, empties the key's rows, those two among them, behind a receipt,
      and takes the key out of each snapshot file that holds it. */
  lemma ForgetEffect(clock: Clock, w: World, key: string, expected: Option<Entry>, reason: string, purge: bool, noted: bool,
                     purgedAt: Stamp)
    requires Plan(w, Forget(key, expected, reason, purge, noted, purgedAt)).Ok?
    ensures var t := Serve(clock, w, Forget(key, expected, reason, purge, noted, purgedAt));
      var first := if key !in w.store then w.rows else
        w.rows + [NewRow(w.rows, NextId(w.rows), clock(|w.rows|), "forget", key, Some(Doc("{" + w.store[key].fields + "}", [])),
                         None, Meta(None, false, false, None))];
      var removed := if key !in w.store then w.rows else
        first + [NewRow(first, NextId(first), clock(|first|), "forget", key, None, None, Meta(Some(reason), false, false, None))];
      var records := if key !in w.store || !noted then w.opLog else if |w.opLog| < 1000 then w.opLog + [key]
                     else w.opLog[|w.opLog| - 999..] + [key];
      && t.store == w.store - {key}
      && t.rows == (if purge then PurgedLog(removed, key, Meta(Some(reason), false, false, None), clock(|removed|), purgedAt)
                    else removed)
      && t.opLog == (if purge then Without(records, key) else records)
      && t.snapshots.Keys == w.snapshots.Keys
      && forall id :: id in w.snapshots ==>
           var file := w.snapshots[id];
           t.snapshots[id] == if purge && file.Readable? && key in file.entries
                              then Readable(file.entries - {key}, file.rootHash) else file
  {
    hide Perform, ForgetActions, RemoveActions, PurgeActions, NewRow, NextId, PurgedLog, Without, ForgetRefusal;
    ForgetPerforms(clock, w, key, reason, purge, noted, purgedAt);
    var removed := if key in w.store then Perform(clock, w, RemoveActions(w.store[key], key, reason, noted)) else w;
    if key in w.store {
      RemoveEffect(clock, w, key, reason, noted);
      NotedEffect(clock, w, key, noted);
    }
    PurgeEffect(clock, removed, key, reason, purgedAt);
  }

  // ---------------------------------------------------------------- rolling back

  // Every row of `a` is where it was in `b`.
  ghost predicate Begins(a: seq<Row>, b: seq<Row>) {
    a <= b
  }

  lemma BeginsOn(a: seq<Row>, b: seq<Row>, c: seq<Row>)
    requires Begins(a, b) && Begins(b, c)
    ensures Begins(a, c)
  {
  }

  function At(clock: Clock, n: nat): Stamp {
    clock(n)
  }

  ghost predicate IsDeletion(row: Row, stamp: Stamp, store: Store, key: string, reason: string) {
    && row.op == "delete" && row.key == key && row.stamp == stamp && row.meta == Meta(Some(reason), false, true, None)
    && row.before == EntryDoc(Loaded(store, key)) && row.after == None
  }

  ghost predicate IsRestoration(row: Row, stamp: Stamp, store: Store, target: Store, key: string, reason: string) {
    && row.op == (if key in store then "update" else "create") && row.key == key && row.stamp == stamp
    && row.meta == Meta(Some(reason), false, true, None)
    && row.before == EntryDoc(Loaded(store, key)) && row.after == EntryDoc(Loaded(target, key))
  }

  ghost predicate IsClosing(row: Row, stamp: Stamp, reason: string) {
    && row.op == "rollback" && row.key == "__system" && row.stamp == stamp && row.before == None && row.after == None
    && row.meta == Meta(Some(reason), false, false, None)
  }

  lemma AfterDeleteRows(clock: Clock, w: World, k: string, store: Store, reason: string, noted: bool)
    requires Loaded(w.store, k) == Loaded(store, k)
    ensures var rows := AfterDelete(clock, w, k, Loaded(w.store, k), reason, noted).rows;
      |rows| == |w.rows| + 1 && w.rows <= rows && IsDeletion(rows[|w.rows|], At(clock, |w.rows|), store, k, reason)
  {
    hide NextId, AfterNote;
    var dropped := Apply(clock, w, Drop(k));
    NoteConsistent(clock, dropped, k, noted);
  }

  lemma {:induction false} DropsCount(clock: Clock, w: World, gone: set<string>, n: nat, reason: string, cached: set<string>)
    requires n <= |gone|
    ensures var rows := Dropped(clock, w, Sort(gone), n, reason, cached).rows; |rows| == |w.rows| + n && Begins(w.rows, rows)
  {
    hide AfterDelete, IsDeletion, At;
    if n > 0 {
      var keys, k := Sort(gone), Sort(gone)[n - 1];
      var now := Dropped(clock, w, keys, n - 1, reason, cached);
      DropsCount(clock, w, gone, n - 1, reason, cached);
      AfterDeleteRows(clock, now, k, now.store, reason, k in cached);
    }
  }

  // One row per deleted key.
  lemma {:induction false} DropsLog(clock: Clock, w: World, gone: set<string>, n: nat, reason: string, cached: set<string>,
                                    i: nat, at: nat)
    requires i < n <= |gone| && at == |w.rows| + i
    ensures var rows := Dropped(clock, w, Sort(gone), n, reason, cached).rows;
      at < |rows| && IsDeletion(rows[at], At(clock, at), w.store, Sort(gone)[i], reason)
  {
    hide AfterDelete, IsDeletion, At;
    var keys, k := Sort(gone), Sort(gone)[n - 1];
    var now := Dropped(clock, w, keys, n - 1, reason, cached);
    DropsCount(clock, w, gone, n - 1, reason, cached);
    SortDistinct(gone, n - 1);
    DroppedKeeps(clock, w, keys, n - 1, reason, cached, k);
    AfterDeleteRows(clock, now, k, w.store, reason, k in cached);
    if i < n - 1 {
      DropsLog(clock, w, gone, n - 1, reason, cached, i, at);
    } else {
      assert |now.rows| == at;
    }
  }

  // The first n keys whose stored entry, if any, is not the wanted one.
  function FilterChanged(store: Store, items: EntryItems, n: nat): seq<string>
    requires n <= |items|
  {
    if n == 0 then []
    else if Loaded(store, items[n - 1].0) == Some(items[n - 1].1) then FilterChanged(store, items, n - 1)
    else FilterChanged(store, items, n - 1) + [items[n - 1].0]
  }

  lemma AfterRestoreRows(clock: Clock, w: World, k: string, store: Store, target: Store, reason: string)
    requires Loaded(w.store, k) == Loaded(store, k) && k in target
    ensures var rows := AfterRestore(clock, w, k, Loaded(w.store, k), target[k], reason).rows;
      if Loaded(store, k) == Some(target[k]) then rows == w.rows
      else |rows| == |w.rows| + 1 && w.rows <= rows
           && IsRestoration(rows[|w.rows|], At(clock, |w.rows|), store, target, k, reason)
  {
    hide NextId;
  }

  lemma {:induction false} RestoresCount(clock: Clock, w: World, store: Store, target: Store, n: nat, reason: string)
    requires n <= |target.Keys| && SameFor(w.store, store, target)
    ensures var rows := Restored(clock, w, SortedItems(target), n, reason).0.rows;
      |rows| == |w.rows| + |FilterChanged(store, SortedItems(target), n)| && Begins(w.rows, rows)
  {
    hide AfterRestore, SameFor, SortedItems, IsRestoration, At;
    if n > 0 {
      RestoresCount(clock, w, store, target, n - 1, reason);
      RestoreFinds(clock, w, store, target, n - 1, reason);
      SortedItem(target, n - 1);
      AfterRestoreRows(clock, Restored(clock, w, SortedItems(target), n - 1, reason).0, SortedItems(target)[n - 1].0, store,
                       target, reason);
    }
  }

  // One row per restored key.
  lemma {:induction false} RestoresLog(clock: Clock, w: World, store: Store, target: Store, n: nat, reason: string, i: nat,
                                       at: nat)
    requires n <= |target.Keys| && SameFor(w.store, store, target) && i < |FilterChanged(store, SortedItems(target), n)|
    requires at == |w.rows| + i
    ensures var rows := Restored(clock, w, SortedItems(target), n, reason).0.rows;
      at < |rows| &&
      IsRestoration(rows[at], At(clock, at), store, target, FilterChanged(store, SortedItems(target), n)[i], reason)
  {
    hide AfterRestore, SameFor, SortedItems, IsRestoration, At;
    RestoresCount(clock, w, store, target, n - 1, reason);
    RestoreFinds(clock, w, store, target, n - 1, reason);
    SortedItem(target, n - 1);
    AfterRestoreRows(clock, Restored(clock, w, SortedItems(target), n - 1, reason).0, SortedItems(target)[n - 1].0, store,
                     target, reason);
    if i < |FilterChanged(store, SortedItems(target), n - 1)| {
      RestoresLog(clock, w, store, target, n - 1, reason, i, at);
    } else {
      assert |Restored(clock, w, SortedItems(target), n - 1, reason).0.rows| == at;
    }
  }

  ghost function Changed(store: Store, target: Store): set<string> {
    set k | k in target && (k !in store || store[k] != target[k])
  }

  lemma {:induction false} FilterChangedKeeps(store: Store, target: Store, n: nat)
    requires n <= |target.Keys|
    ensures Keeps(FilterChanged(store, SortedItems(target), n), Sort(target.Keys), n, Changed(store, target))
  {
    hide Keeps, Sorted;
    if n == 0 {
      KeepsNothing(Sort(target.Keys), Changed(store, target));
    } else {
      FilterChangedKeeps(store, target, n - 1);
      SortedItem(target, n - 1);
      SortSorts(target.Keys);
      KeepsExtend(FilterChanged(store, SortedItems(target), n - 1), Sort(target.Keys), n - 1, Changed(store, target));
    }
  }

  lemma FilterChangedIs(store: Store, target: Store)
    ensures FilterChanged(store, SortedItems(target), |target.Keys|) == Sort(Changed(store, target))
  {
    FilterChangedKeeps(store, target, |target.Keys|);
    KeepsAll(FilterChanged(store, SortedItems(target), |target.Keys|), Sort(target.Keys), Changed(store, target));
  }

  /** An admitted rollback performs the restore of the snapshot's entries. */
  lemma RollbackServes(clock: Clock, w: World, id: string, expectedRoot: Option<Digest>, reason: string, cached: set<string>)
    requires Plan(w, Rollback(id, expectedRoot, reason, cached)).Ok?
    ensures id in w.snapshots
    ensures Serve(clock, w, Rollback(id, expectedRoot, reason, cached)) ==
            Perform(clock, w, RollbackActions(w.store, if w.snapshots[id].Readable? then w.snapshots[id].entries else map[],
                                              reason, cached))
  {
    hide Perform, RollbackActions;
  }

  lemma DropsFind(clock: Clock, w: World, target: Store, reason: string, cached: set<string>)
    ensures var extra := Sort(w.store.Keys - target.Keys);
      SameFor(Dropped(clock, w, extra, |extra|, reason, cached).store, w.store, target)
  {
    hide Dropped;
    var extra := Sort(w.store.Keys - target.Keys);
    var dropped := Dropped(clock, w, extra, |extra|, reason, cached);
    forall k | k in target
      ensures Loaded(dropped.store, k) == Loaded(w.store, k)
    {
      assert forall j :: 0 <= j < |extra| ==> extra[j] in extra && extra[j] != k;
      DroppedKeeps(clock, w, extra, |extra|, reason, cached, k);
    }
  }

  lemma DeletionStays(a: seq<Row>, b: seq<Row>, n: nat, stamp: Stamp, store: Store, key: string, reason: string)
    requires Begins(a, b) && n < |a| && IsDeletion(a[n], stamp, store, key, reason)
    ensures n < |b| && IsDeletion(b[n], stamp, store, key, reason)
  {
  }

  lemma RestorationStays(a: seq<Row>, b: seq<Row>, n: nat, stamp: Stamp, store: Store, target: Store, key: string, reason: string)
    requires Begins(a, b) && n < |a| && IsRestoration(a[n], stamp, store, target, key, reason)
    ensures n < |b| && IsRestoration(b[n], stamp, store, target, key, reason)
  {
  }

  // The log after the deletions, after the restores and after the closing row.
  lemma RestoreLogs(clock: Clock, w: World, target: Store, reason: string, cached: set<string>, n: nat)
    requires n == |w.rows| + |w.store.Keys - target.Keys| + |Changed(w.store, target)|
    ensures var gone := w.store.Keys - target.Keys;
      var dropped := Dropped(clock, w, Sort(gone), |gone|, reason, cached);
      var restored := Restored(clock, dropped, SortedItems(target), |target.Keys|, reason).0.rows;
      var rows := Perform(clock, w, RollbackActions(w.store, target, reason, cached)).rows;
      && SameFor(dropped.store, w.store, target)
      && Begins(w.rows, rows) && Begins(dropped.rows, rows) && Begins(restored, rows)
      && |dropped.rows| == |w.rows| + |gone| && |restored| == n && |rows| == n + 1
      && IsClosing(rows[n], At(clock, n), reason)
  {
    hide Dropped, Restored, Perform, RollbackActions, SortedItems, Changed, SameFor, FilterChanged, Begins, IsClosing, Apply, At;
    var gone := w.store.Keys - target.Keys;
    var dropped := Dropped(clock, w, Sort(gone), |gone|, reason, cached);
    var restored := Restored(clock, dropped, SortedItems(target), |target.Keys|, reason).0;
    var rows := Perform(clock, w, RollbackActions(w.store, target, reason, cached)).rows;
    RollbackPerforms(clock, w, target, reason, cached);
    DropsCount(clock, w, gone, |gone|, reason, cached);
    DropsFind(clock, w, target, reason, cached);
    RestoresCount(clock, dropped, w.store, target, |target.Keys|, reason);
    FilterChangedIs(w.store, target);
    ClosingRow(clock, restored, reason, n);
    BeginsOn(dropped.rows, restored.rows, rows);
    BeginsOn(w.rows, dropped.rows, rows);
  }

  lemma ClosingRow(clock: Clock, w: World, reason: string, n: nat)
    requires n == |w.rows|
    ensures var rows := Apply(clock, w, LogRow(ROLLBACK, SYSTEM_KEY, None, None, PlainMeta(Some(reason)))).rows;
      |rows| == n + 1 && Begins(w.rows, rows) && IsClosing(rows[n], At(clock, n), reason)
  {
    hide NextId;
  }

  lemma DeletionLogged(clock: Clock, w: World, target: Store, reason: string, cached: set<string>, i: nat, at: nat)
    requires i < |w.store.Keys - target.Keys| && at == |w.rows| + i
    ensures var rows := Perform(clock, w, RollbackActions(w.store, target, reason, cached)).rows;
      at < |rows| && IsDeletion(rows[at], At(clock, at), w.store, Sort(w.store.Keys - target.Keys)[i], reason)
  {
    hide Dropped, Restored, Perform, RollbackActions, SortedItems, Changed, IsDeletion, At, SameFor, Begins, IsClosing;
    var gone := w.store.Keys - target.Keys;
    RestoreLogs(clock, w, target, reason, cached, |w.rows| + |gone| + |Changed(w.store, target)|);
    DropsLog(clock, w, gone, |gone|, reason, cached, i, at);
    DeletionStays(Dropped(clock, w, Sort(gone), |gone|, reason, cached).rows,
                  Perform(clock, w, RollbackActions(w.store, target, reason, cached)).rows, at, At(clock, at), w.store,
                  Sort(gone)[i], reason);
  }

  lemma RestorationLogged(clock: Clock, w: World, target: Store, reason: string, cached: set<string>, i: nat, at: nat)
    requires i < |Changed(w.store, target)| && at == |w.rows| + |w.store.Keys - target.Keys| + i
    ensures var rows := Perform(clock, w, RollbackActions(w.store, target, reason, cached)).rows;
      at < |rows| && IsRestoration(rows[at], At(clock, at), w.store, target, Sort(Changed(w.store, target))[i], reason)
  {
    hide Dropped, Restored, Perform, RollbackActions, SortedItems, Changed, IsRestoration, At, SameFor, Begins, IsClosing,
         FilterChanged;
    var gone := w.store.Keys - target.Keys;
    var dropped := Dropped(clock, w, Sort(gone), |gone|, reason, cached);
    RestoreLogs(clock, w, target, reason, cached, |w.rows| + |gone| + |Changed(w.store, target)|);
    FilterChangedIs(w.store, target);
    RestoresLog(clock, dropped, w.store, target, |target.Keys|, reason, i, at);
    RestorationStays(Restored(clock, dropped, SortedItems(target), |target.Keys|, reason).0.rows,
                     Perform(clock, w, RollbackActions(w.store, target, reason, cached)).rows, at, At(clock, at), w.store,
                     target, Sort(Changed(w.store, target))[i], reason);
  }

  /** A restore stores exactly the snapshot, keeps every earlier row, and logs one row per key it changes and one, the n-th,
      about no key of the project, for itself. */
  lemma RestoreEffect(clock: Clock, w: World, target: Store, reason: string, cached: set<string>, n: nat)
    requires n == |w.rows| + |w.store.Keys - target.Keys| + |set k | k in target && (k !in w.store || w.store[k] != target[k])|
    ensures var t := Perform(clock, w, RollbackActions(w.store, target, reason, cached));
      && t.store == target && t.snapshots == w.snapshots
      && |t.rows| == n + 1 && w.rows <= t.rows
      && t.rows[n].op == "rollback" && t.rows[n].key == "__system" && t.rows[n].before == None && t.rows[n].after == None
      && t.rows[n].meta == Meta(Some(reason), false, false, None) && t.rows[n].stamp == clock(n)
  {
    hide Perform, RollbackActions, Dropped, Restored, SortedItems, SameFor;
    assert Changed(w.store, target) == set k | k in target && (k !in w.store || w.store[k] != target[k]);
    RollbackRestores(clock, w, target, reason, cached);
    RestoreLogs(clock, w, target, reason, cached, n);
  }

  /** First the extra keys, in order: a deletion each, with the entry that went. */
  lemma RestoreDeletes(clock: Clock, w: World, target: Store, reason: string, cached: set<string>, i: nat, n: nat)
    requires i < |w.store.Keys - target.Keys| && n == |w.rows| + i
    ensures var rows, key := Perform(clock, w, RollbackActions(w.store, target, reason, cached)).rows, Sort(w.store.Keys - target.Keys)[i];
      && key in w.store && n < |rows|
      && rows[n].op == "delete" && rows[n].key == key && rows[n].stamp == clock(n)
      && rows[n].before == Some(Doc("{" + w.store[key].fields + "}", [])) && rows[n].after == None
      && rows[n].meta == Meta(Some(reason), false, true, None)
  {
    hide Perform, RollbackActions, Changed;
    DeletionLogged(clock, w, target, reason, cached, i, n);
    var extra := Sort(w.store.Keys - target.Keys);
    assert extra[i] in extra;
  }

  /** Then, in order, the snapshot's entries that were not stored as they are: a creation or an update each, with the entry
      that was there. */
  lemma RestoreWrites(clock: Clock, w: World, target: Store, reason: string, cached: set<string>, i: nat, n: nat)
    requires i < |set k | k in target && (k !in w.store || w.store[k] != target[k])|
    requires n == |w.rows| + |w.store.Keys - target.Keys| + i
    ensures var rows := Perform(clock, w, RollbackActions(w.store, target, reason, cached)).rows;
      var key := Sort(set k | k in target && (k !in w.store || w.store[k] != target[k]))[i];
      && key in target && n < |rows|
      && rows[n].op == (if key in w.store then "update" else "create") && rows[n].key == key && rows[n].stamp == clock(n)
      && rows[n].before == (if key in w.store then Some(Doc("{" + w.store[key].fields + "}", [])) else None)
      && rows[n].after == Some(Doc("{" + target[key].fields + "}", []))
      && rows[n].meta == Meta(Some(reason), false, true, None)
  {
    hide Perform, RollbackActions;
    RestorationLogged(clock, w, target, reason, cached, i, n);
    var changed := Sort(Changed(w.store, target));
    assert changed[i] in changed;
  }

  // The first n keys that are cached.
  function FilterCached(keys: seq<string>, n: nat, cached: set<string>): seq<string>
    requires n <= |keys|
  {
    if n == 0 then []
    else if keys[n - 1] in cached then FilterCached(keys, n - 1, cached) + [keys[n - 1]]
    else FilterCached(keys, n - 1, cached)
  }

  lemma {:induction false} FilterCachedKeeps(keys: seq<string>, n: nat, cached: set<string>, gone: set<string>)
    requires n <= |keys| && Sorted(keys) && forall i :: 0 <= i < |keys| ==> keys[i] in gone
    ensures Keeps(FilterCached(keys, n, cached), keys, n, gone * cached)
  {
    hide Keeps, Sorted;
    if n == 0 {
      KeepsNothing(keys, gone * cached);
    } else {
      FilterCachedKeeps(keys, n - 1, cached, gone);
      KeepsExtend(FilterCached(keys, n - 1, cached), keys, n - 1, gone * cached);
      assert keys[n - 1] in gone * cached <==> keys[n - 1] in cached;
    }
  }

  lemma FilterCachedIs(gone: set<string>, cached: set<string>)
    ensures FilterCached(Sort(gone), |gone|, cached) == Sort(gone * cached)
  {
    SortSorts(gone);
    assert forall i :: 0 <= i < |gone| ==> Sort(gone)[i] in Sort(gone);
    FilterCachedKeeps(Sort(gone), |gone|, cached, gone);
    KeepsAll(FilterCached(Sort(gone), |gone|, cached), Sort(gone), gone * cached);
  }

  // A log after these records, one at a time.
  function Recorded(log: seq<string>, keys: seq<string>): seq<string> {
    if keys == [] then log else Trim(log + keys)
  }

  lemma TrimOneMore(records: seq<string>, key: string)
    ensures Trim(Trim(records) + [key]) == Trim(records + [key])
  {
    var from := |records| - MAX_OPERATION_LOG;
    if from > 0 {
      assert (records[from..] + [key])[1..] == records[from + 1..] + [key] == (records + [key])[from + 1..];
    }
  }

  lemma RecordedOneMore(log: seq<string>, keys: seq<string>, key: string)
    ensures Trim(Recorded(log, keys) + [key]) == Recorded(log, keys + [key])
  {
    hide Trim;
    TrimOneMore(log + keys, key);
    if keys == [] {
      assert keys + [key] == [key];
    } else {
      assert log + (keys + [key]) == (log + keys) + [key];
    }
  }

  lemma {:induction false} DropsRecord(clock: Clock, w: World, keys: seq<string>, n: nat, reason: string, cached: set<string>)
    requires n <= |keys|
    ensures Dropped(clock, w, keys, n, reason, cached).opLog == Recorded(w.opLog, FilterCached(keys, n, cached))
  {
    hide Recorded, Trim;
    if n == 0 {
      RecordedNothing(w.opLog);
    } else {
      DropsRecord(clock, w, keys, n - 1, reason, cached);
      RecordedOneMore(w.opLog, FilterCached(keys, n - 1, cached), keys[n - 1]);
      var now := Dropped(clock, w, keys, n - 1, reason, cached);
      AfterDeleteRecords(clock, now, keys[n - 1], reason, keys[n - 1] in cached);
    }
  }

  lemma RecordedNothing(log: seq<string>)
    ensures Recorded(log, []) == log
  {
  }

  lemma AfterDeleteRecords(clock: Clock, w: World, key: string, reason: string, noted: bool)
    ensures AfterDelete(clock, w, key, Loaded(w.store, key), reason, noted).opLog ==
            if noted then Trim(w.opLog + [key]) else w.opLog
  {
    hide NewRow, NextId, Trim;
  }

  lemma {:induction false} RestoresRecordNothing(clock: Clock, w: World, items: EntryItems, n: nat, reason: string)
    requires n <= |items|
    ensures Restored(clock, w, items, n, reason).0.opLog == w.opLog
  {
    hide NewRow, NextId;
    if n > 0 {
      RestoresRecordNothing(clock, w, items, n - 1, reason);
    }
  }

  lemma RestoreRecordsCached(clock: Clock, w: World, target: Store, reason: string, cached: set<string>)
    ensures Perform(clock, w, RollbackActions(w.store, target, reason, cached)).opLog ==
            Recorded(w.opLog, Sort((w.store.Keys - target.Keys) * cached))
  {
    hide Dropped, Restored, Perform, RollbackActions, SortedItems, FilterCached, Apply, Recorded, ChangesFor;
    var extra := Sort(w.store.Keys - target.Keys);
    var dropped := Dropped(clock, w, extra, |extra|, reason, cached);
    RollbackPerforms(clock, w, target, reason, cached);
    DropsRecord(clock, w, extra, |extra|, reason, cached);
    FilterCachedIs(w.store.Keys - target.Keys, cached);
    RestoresRecordNothing(clock, dropped, SortedItems(target), |target.Keys|, reason);
    ClosingRecordsNothing(clock, Restored(clock, dropped, SortedItems(target), |target.Keys|, reason).0, reason);
  }

  /** A restore records the deleted keys that AGM had cached, in order, and no restored one. */
  lemma RestoreRecords(clock: Clock, w: World, target: Store, reason: string, cached: set<string>)
    ensures var noted := Sort((w.store.Keys - target.Keys) * cached);
      var log := w.opLog + noted;
      Perform(clock, w, RollbackActions(w.store, target, reason, cached)).opLog ==
      if noted == [] then w.opLog else if |log| <= 1000 then log else log[|log| - 1000..]
  {
    hide Perform, RollbackActions;
    RestoreRecordsCached(clock, w, target, reason, cached);
  }

  lemma ClosingRecordsNothing(clock: Clock, w: World, reason: string)
    ensures Apply(clock, w, LogRow(ROLLBACK, SYSTEM_KEY, None, None, PlainMeta(Some(reason)))).opLog == w.opLog
  {
    hide NewRow, NextId;
  }
}
