/** One hosted project of src/bilinc/cloud/runtime.py: its stored entries, audit log, snapshot files and revision log. */
module Runtime {
  import opened Wrappers
  import opened KeyOrder
  import opened Audit
  import opened Sequences

  /** An entry's state: the fields of its JSON object, in the one order the runtime writes them. */
  datatype Entry = Entry(fields: string)

  type Store = map<string, Entry>

  /** `Unreadable` is no JSON object and can neither be loaded nor scrubbed. `Headless` has no snapshot in it, which stops
      a load and not a purge. `Misshapen` has entries that are no object: it loads as an empty snapshot and stops a purge. */
  datatype SnapshotFile = Unreadable | Headless | Misshapen | Readable(entries: Store, rootHash: Digest)

  predicate Loadable(file: SnapshotFile) {
    file.Readable? || file.Misshapen?
  }

  predicate Scrubbable(file: SnapshotFile) {
    file.Readable? || file.Headless?
  }

  function EntriesOf(file: SnapshotFile): Store {
    if file.Readable? then file.entries else map[]
  }

  /** `opLog` holds, per AGM record, the one key the record is about. */
  datatype World = World(store: Store, rows: seq<Row>, snapshots: map<string, SnapshotFile>, opLog: seq<string>)

  const MAX_OPERATION_LOG := 1000
  const SYSTEM_KEY := "__system"

  datatype Error = MemoryNotFound | MemoryExists | VersionConflict | PurgeBlocked | SnapshotNotFound |
                   SnapshotUnreadable | StateChangedSincePreview

  // ---------------------------------------------------------------- atomic actions

  /** What a mutation does to durable state, one indivisible effect at a time. */
  datatype Action =
    | Put(key: string, entry: Entry)
    | Resave(key: string)  // a save of the entry already stored
    | Drop(key: string)
    | LogRow(op: string, key: string, before: Option<Entry>, after: Option<Entry>, meta: Meta)
    | Note(key: string)
    | Redact(key: string)
    | PurgeAudit(key: string, meta: Meta, purgedAt: Stamp)
    | WriteSnapshot(id: string, file: SnapshotFile)

  type Clock = nat -> Stamp

  function EntryDoc(entry: Option<Entry>): Option<Doc> {
    if entry.None? then None else Some(Doc("{" + entry.value.fields + "}", []))
  }

  function Trim(log: seq<string>): seq<string> {
    if |log| > MAX_OPERATION_LOG then log[|log| - MAX_OPERATION_LOG..] else log
  }

  function Without(log: seq<string>, key: string): (kept: seq<string>)
    ensures key !in kept && forall k :: k in kept ==> k in log
  {
    if log == [] then [] else Without(log[..|log| - 1], key) + (if log[|log| - 1] == key then [] else [log[|log| - 1]])
  }

  function Apply(clock: Clock, w: World, a: Action): World {
    match a
    case Put(key, entry) => w.(store := w.store[key := entry])
    case Resave(_) => w
    case Drop(key) => w.(store := w.store - {key})
    case LogRow(op, key, before, after, meta) =>
      w.(rows := w.rows + [NewRow(w.rows, NextId(w.rows), clock(|w.rows|), op, key, EntryDoc(before), EntryDoc(after), meta)])
    case Note(key) => w.(opLog := Trim(w.opLog + [key]))
    case Redact(key) => w.(opLog := Without(w.opLog, key))
    case PurgeAudit(key, meta, purgedAt) => w.(rows := PurgedLog(w.rows, key, meta, clock(|w.rows|), purgedAt))
    case WriteSnapshot(id, file) => w.(snapshots := w.snapshots[id := file])
  }

  function Perform(clock: Clock, w: World, actions: seq<Action>): World {
    if actions == [] then w else
      Apply(clock, Perform(clock, w, actions[..|actions| - 1]), actions[|actions| - 1])
  }

  lemma {:induction false} PerformConcat(clock: Clock, w: World, a: seq<Action>, b: seq<Action>)
    ensures Perform(clock, w, a + b) == Perform(clock, Perform(clock, w, a), b)
  {
    if b == [] {
      assert a + b == a;
    } else {
      assert (a + b)[..|a + b| - 1] == a + b[..|b| - 1];
      PerformConcat(clock, w, a, b[..|b| - 1]);
    }
  }

  // ---------------------------------------------------------------- requests

  /** A serialized mutation with everything it takes from outside: what AGM decided, whether AGM recorded it, fresh
      names and times. `expected` is the caller's expected version, which pins one entry state. */
  datatype Request =
    | Commit(key: string, entry: Entry, ifAbsent: bool, accepted: bool, noted: bool)
    | Revise(key: string, expected: Option<Entry>, winner: Option<Entry>, noted: bool, reason: Option<string>)
    | Confirm(key: string, expected: Option<Entry>, touched: Entry, reason: Option<string>)
    | Forget(key: string, expected: Option<Entry>, cause: string, purge: bool, noted: bool, purgedAt: Stamp)
    | CreateSnapshot(id: string, rootHash: Digest)
    | Rollback(id: string, expectedRoot: Option<Digest>, cause: string, cached: set<string>)

  function Loaded(store: Store, key: string): Option<Entry> {
    if key in store then Some(store[key]) else None
  }

  function Noted(key: string, noted: bool): seq<Action> {
    if noted then [Note(key)] else []
  }

  function PlainMeta(reason: Option<string>): Meta {
    Meta(reason, false, false, None)
  }

  function CommitActions(store: Store, key: string, entry: Entry, accepted: bool, noted: bool): seq<Action> {
    Noted(key, noted) +
    if !accepted then [] else
      [Put(key, entry),
       LogRow(if key in store then UPDATE else CREATE, key, Loaded(store, key), Some(entry), PlainMeta(None))]
  }

  function ReviseActions(previous: Entry, key: string, winner: Option<Entry>, noted: bool, reason: Option<string>): seq<Action> {
    Noted(key, noted) +
    if winner.None? then []
    else if winner.value == previous then [Resave(key)]
    else [Put(key, winner.value), LogRow(UPDATE, key, Some(previous), winner, PlainMeta(reason))]
  }

  function ConfirmActions(previous: Entry, key: string, touched: Entry, reason: Option<string>): seq<Action> {
    [Put(key, touched), LogRow(UPDATE, key, Some(previous), Some(touched), Meta(reason, true, false, None))]
  }

  // The two FORGET rows: the core's, with the removed state, then a value-free one with the reason.
  function RemoveActions(previous: Entry, key: string, reason: string, noted: bool): seq<Action> {
    [Drop(key)] + Noted(key, noted) +
    [LogRow(FORGET, key, Some(previous), None, PlainMeta(None)),
     LogRow(FORGET, key, None, None, PlainMeta(Some(reason)))]
  }

  predicate Holds(file: SnapshotFile, key: string) {
    file.Readable? && key in file.entries
  }

  type SnapshotItems = seq<(string, SnapshotFile)>

  function ScrubAction(file: (string, SnapshotFile), key: string): seq<Action> {
    if Holds(file.1, key) then [WriteSnapshot(file.0, Readable(file.1.entries - {key}, file.1.rootHash))] else []
  }

  // For the first n files.
  function ScrubActions(files: SnapshotItems, n: nat, key: string): seq<Action>
    requires n <= |files|
  {
    if n == 0 then [] else ScrubActions(files, n - 1, key) + ScrubAction(files[n - 1], key)
  }

  ghost function PurgeActions(snapshots: map<string, SnapshotFile>, key: string, reason: string, purgedAt: Stamp): seq<Action> {
    [Redact(key), PurgeAudit(key, PlainMeta(Some(reason)), purgedAt)] +
    ScrubActions(SortedItems(snapshots), |snapshots.Keys|, key)
  }

  ghost function ForgetActions(w: World, key: string, reason: string, purge: bool, noted: bool, purgedAt: Stamp): seq<Action> {
    (if key in w.store then RemoveActions(w.store[key], key, reason, noted) else []) +
    (if purge then PurgeActions(w.snapshots, key, reason, purgedAt) else [])
  }

  function RollbackMeta(reason: string): Meta {
    Meta(Some(reason), false, true, None)
  }

  function DeleteAction(k: string, existing: Option<Entry>, reason: string, noted: bool): seq<Action> {
    [Drop(k)] + Noted(k, noted) + [LogRow(DELETE, k, existing, None, RollbackMeta(reason))]
  }

  // For the first n keys.
  function DeleteActions(store: Store, keys: seq<string>, n: nat, reason: string, cached: set<string>): seq<Action>
    requires n <= |keys|
  {
    if n == 0 then [] else
      var k := keys[n - 1];
      DeleteActions(store, keys, n - 1, reason, cached) + DeleteAction(k, Loaded(store, k), reason, k in cached)
  }

  function RestoreAction(k: string, existing: Option<Entry>, wanted: Entry, reason: string): seq<Action> {
    if existing == Some(wanted) then [] else
      [Put(k, wanted), LogRow(if existing.Some? then UPDATE else CREATE, k, existing, Some(wanted), RollbackMeta(reason))]
  }

  type EntryItems = seq<(string, Entry)>

  // For the first n items.
  function RestoreActions(store: Store, items: EntryItems, n: nat, reason: string): seq<Action>
    requires n <= |items|
  {
    if n == 0 then [] else
      var (k, wanted) := items[n - 1];
      RestoreActions(store, items, n - 1, reason) + RestoreAction(k, Loaded(store, k), wanted, reason)
  }

  ghost function RollbackActions(store: Store, target: Store, reason: string, cached: set<string>): seq<Action> {
    var extra := Sort(store.Keys - target.Keys);
    DeleteActions(store, extra, |extra|, reason, cached) +
    RestoreActions(store, SortedItems(target), |target.Keys|, reason) +
    [LogRow(ROLLBACK, SYSTEM_KEY, None, None, PlainMeta(Some(reason)))]
  }

  function FailedCheck(w: World, r: Request): Option<Error> {
    match r
    case Commit(key, _, ifAbsent, _, _) => if ifAbsent && key in w.store then Some(MemoryExists) else None
    case Revise(key, expected, _, _, _) => CheckLoaded(w.store, key, expected)
    case Confirm(key, expected, _, _) => CheckLoaded(w.store, key, expected)
    case Forget(key, expected, _, purge, _, _) => ForgetRefusal(w, key, expected, purge)
    case CreateSnapshot(_, _) => None
    case Rollback(id, expectedRoot, _, _) => RollbackRefusal(w, id, expectedRoot)
  }

  function CheckLoaded(store: Store, key: string, expected: Option<Entry>): Option<Error> {
    if key !in store then Some(MemoryNotFound)
    else if expected.Some? && expected.value != store[key] then Some(VersionConflict)
    else None
  }

  function RollbackRefusal(w: World, id: string, expectedRoot: Option<Digest>): Option<Error> {
    if id !in w.snapshots then Some(SnapshotNotFound)
    else if !Loadable(w.snapshots[id]) then Some(SnapshotUnreadable)
    else if expectedRoot.Some? && expectedRoot.value != HeadRoot(w.rows) then Some(StateChangedSincePreview)
    else None
  }

  function ForgetRefusal(w: World, key: string, expected: Option<Entry>, purge: bool): Option<Error> {
    if purge && exists id :: id in w.snapshots && !Scrubbable(w.snapshots[id]) then Some(PurgeBlocked)
    else if key in w.store then CheckLoaded(w.store, key, expected)
    else if purge && PurgeAdmitted(w, key) then None
    else Some(MemoryNotFound)
  }

  // There is something of a forgotten key left to purge.
  predicate PurgeAdmitted(w: World, key: string) {
    (exists r :: r in w.rows && Purgeable(r, key)) || exists id :: id in w.snapshots && Holds(w.snapshots[id], key)
  }

  /** The effects of a request on the state it finds under the project's mutation lock, or why it is refused. */
  ghost function Plan(w: World, r: Request): Result<seq<Action>, Error> {
    if FailedCheck(w, r).Some? then Err(FailedCheck(w, r).value) else
    match r
    case Commit(key, entry, _, accepted, noted) => Ok(CommitActions(w.store, key, entry, accepted, noted))
    case Revise(key, _, winner, noted, reason) => Ok(ReviseActions(w.store[key], key, winner, noted, reason))
    case Confirm(key, _, touched, reason) => Ok(ConfirmActions(w.store[key], key, touched, reason))
    case Forget(key, _, reason, purge, noted, purgedAt) =>
      Ok(ForgetActions(w, key, reason, purge, noted, purgedAt))
    case CreateSnapshot(id, rootHash) => Ok([WriteSnapshot(id, Readable(w.store, rootHash))])
    case Rollback(id, _, reason, cached) => Ok(RollbackActions(w.store, EntriesOf(w.snapshots[id]), reason, cached))
  }

  /** The state after a request; a refused one changes nothing. */
  ghost function Serve(clock: Clock, w: World, r: Request): World {
    match Plan(w, r)
    case Ok(actions) => Perform(clock, w, actions)
    case Err(_) => w
  }

  // ---------------------------------------------------------------- the plane

  /** What a restore changes: keys it creates, updates and removes, each ascending. */
  datatype Changes = Changes(create: seq<string>, update: seq<string>, remove: seq<string>)

  ghost function ChangesFor(current: Store, target: Store): Changes {
    Changes(Sort(target.Keys - current.Keys),
            Sort(Differing(current, target)),
            Sort(current.Keys - target.Keys))
  }

  lemma ChangesAre(current: Store, target: Store)
    ensures var c := ChangesFor(current, target);
      && c.create == Sort(target.Keys - current.Keys) && c.remove == Sort(current.Keys - target.Keys)
      && c.update == Sort(set k | k in target && k in current && target[k] != current[k])
  {
    assert Differing(current, target) == set k | k in target && k in current && target[k] != current[k];
  }

  /** What a preview answers: the counts are those of the whole change, the keys the first of each kind. */
  datatype PreviewReport = PreviewReport(root: Digest, created: nat, updated: nat, removed: nat, keys: Changes, truncated: bool)

  lemma TakeIs(s: seq<string>, n: nat)
    ensures Take(s, n) == if |s| > n then s[..n] else s
  {
  }

  method Report(root: Digest, current: Store, target: Store, bound: nat) returns (r: PreviewReport)
    ensures var create, remove := target.Keys - current.Keys, current.Keys - target.Keys;
      var update := set k | k in target && k in current && target[k] != current[k];
      && r.root == root && r.created == |create| && r.updated == |update| && r.removed == |remove|
      && r.keys.create == (if |create| > bound then Sort(create)[..bound] else Sort(create))
      && r.keys.update == (if |update| > bound then Sort(update)[..bound] else Sort(update))
      && r.keys.remove == (if |remove| > bound then Sort(remove)[..bound] else Sort(remove))
      && (r.truncated <==> |create| > bound || |update| > bound || |remove| > bound)
  {
    assert Differing(current, target) == set k | k in target && k in current && target[k] != current[k];
    hide Take;
    var create := SortKeys(target.Keys - current.Keys);
    var remove := SortKeys(current.Keys - target.Keys);
    var update := SortKeys(Differing(current, target));
    TakeIs(create, bound);
    TakeIs(update, bound);
    TakeIs(remove, bound);
    r := PreviewReport(root, |create|, |update|, |remove|,
                       Changes(Take(create, bound), Take(update, bound), Take(remove, bound)),
                       |create| > bound || |update| > bound || |remove| > bound);
  }

  class Plane {
    var store: Store
    var snapshots: map<string, SnapshotFile>
    var opLog: seq<string>
    const audit: AuditTrail
    const clock: Clock

    constructor (audit: AuditTrail, clock: Clock)
      ensures this.audit == audit && this.clock == clock
      ensures Now() == World(map[], audit.table.rows, map[], [])
    {
      store, snapshots, opLog := map[], map[], [];
      this.audit := audit;
      this.clock := clock;
    }

    ghost function Now(): World
      reads this, audit.table
    {
      World(store, audit.table.rows, snapshots, opLog)
    }

    method Save(key: string, entry: Entry)
      modifies `store
      ensures Now() == Apply(clock, old(Now()), Put(key, entry))
    {
      store := store[key := entry];
    }

    method Delete(key: string)
      modifies `store
      ensures Now() == Apply(clock, old(Now()), Drop(key))
    {
      store := store - {key};
    }

    method Log(op: string, key: string, before: Option<Entry>, after: Option<Entry>, meta: Meta)
      modifies audit`rootHash, audit.table
      ensures Now() == Apply(clock, old(Now()), LogRow(op, key, before, after, meta))
      ensures audit.rootHash == HeadRoot(audit.table.rows)
    {
      var _ := audit.Log(op, key, EntryDoc(before), EntryDoc(after), meta, clock(|audit.table.rows|));
    }

    method RecordBelief(key: string, noted: bool)
      modifies `opLog
      ensures Now() == if noted then Apply(clock, old(Now()), Note(key)) else old(Now())
    {
      if noted {
        opLog := Trim(opLog + [key]);
      }
    }

    method CommitEntry(key: string, entry: Entry, ifAbsent: bool, accepted: bool, noted: bool)
      returns (r: Result<bool, Error>)
      modifies this, audit`rootHash, audit.table
      ensures r == if ifAbsent && key in old(store) then Err(MemoryExists) else Ok(accepted)
      ensures Now() == Serve(clock, old(Now()), Commit(key, entry, ifAbsent, accepted, noted))
    {
      if ifAbsent && key in store {
        return Err(MemoryExists);
      }
      var previous := Loaded(store, key);
      RecordBelief(key, noted);
      if accepted {
        Save(key, entry);
        Log(if previous.Some? then UPDATE else CREATE, key, previous, Some(entry), PlainMeta(None));
      }
      CommitPerforms(clock, old(Now()), key, entry, accepted, noted);
      r := Ok(accepted);
    }

    method ReviseEntry(key: string, expected: Option<Entry>, winner: Option<Entry>, noted: bool, reason: Option<string>)
      returns (r: Result<bool, Error>)
      modifies this, audit`rootHash, audit.table
      ensures r == match CheckLoaded(old(store), key, expected) case None => Ok(winner.Some?) case Some(e) => Err(e)
      ensures Now() == Serve(clock, old(Now()), Revise(key, expected, winner, noted, reason))
    {
      if key !in store {
        return Err(MemoryNotFound);
      }
      var previous := store[key];
      if expected.Some? && expected.value != previous {
        return Err(VersionConflict);
      }
      RecordBelief(key, noted);
      if winner.Some? {
        Save(key, winner.value);
        if winner.value != previous {
          Log(UPDATE, key, Some(previous), winner, PlainMeta(reason));
        }
      }
      RevisePerforms(clock, old(Now()), key, winner, noted, reason);
      r := Ok(winner.Some?);
    }

    method ConfirmEntry(key: string, expected: Option<Entry>, touched: Entry, reason: Option<string>)
      returns (r: Result<(), Error>)
      modifies this, audit`rootHash, audit.table
      ensures r == match CheckLoaded(old(store), key, expected) case None => Ok(()) case Some(e) => Err(e)
      ensures Now() == Serve(clock, old(Now()), Confirm(key, expected, touched, reason))
    {
      if key !in store {
        return Err(MemoryNotFound);
      }
      var previous := store[key];
      if expected.Some? && expected.value != previous {
        return Err(VersionConflict);
      }
      Save(key, touched);
      Log(UPDATE, key, Some(previous), Some(touched), Meta(reason, true, false, None));
      PerformTwo(clock, old(Now()), Put(key, touched),
                 LogRow(UPDATE, key, Some(previous), Some(touched), Meta(reason, true, false, None)));
      r := Ok(());
    }

    method AnyUnscrubbable() returns (blocked: bool)
      ensures blocked <==> exists id :: id in snapshots && !Scrubbable(snapshots[id])
    {
      var ids := SortKeys(snapshots.Keys);
      blocked := false;
      for i := 0 to |ids|
        invariant blocked <==> exists j :: 0 <= j < i && !Scrubbable(snapshots[ids[j]])
      {
        assert ids[i] in ids;
        blocked := blocked || !Scrubbable(snapshots[ids[i]]);
      }
      assert forall id :: id in snapshots ==> id in ids;
    }

    method AnyHolds(key: string) returns (found: bool)
      ensures found <==> exists id :: id in snapshots && Holds(snapshots[id], key)
    {
      var ids := SortKeys(snapshots.Keys);
      found := false;
      for i := 0 to |ids|
        invariant found <==> exists j :: 0 <= j < i && Holds(snapshots[ids[j]], key)
      {
        assert ids[i] in ids;
        found := found || Holds(snapshots[ids[i]], key);
      }
      assert forall id :: id in snapshots ==> id in ids;
    }

    method CheckForget(key: string, expected: Option<Entry>, purge: bool) returns (refusal: Option<Error>)
      ensures refusal == ForgetRefusal(Now(), key, expected, purge)
    {
      if purge {
        var blocked := AnyUnscrubbable();
        if blocked {
          return Some(PurgeBlocked);
        }
      }
      var existing := Loaded(store, key);
      if existing.None? && !purge {
        return Some(MemoryNotFound);
      }
      if existing.Some? {
        if expected.Some? && expected.value != existing.value {
          return Some(VersionConflict);
        }
      } else {
        var rowsLeft := audit.HasPurgeableRows(key);
        var held := AnyHolds(key);
        if !rowsLeft && !held {
          return Some(MemoryNotFound);
        }
      }
      refusal := None;
    }

    method ForgetEntry(key: string, expected: Option<Entry>, reason: string, purge: bool, noted: bool, purgedAt: Stamp)
      returns (r: Result<bool, Error>)
      modifies this, audit`rootHash, audit.table
      ensures match ForgetRefusal(old(Now()), key, expected, purge)
              case Some(e) => r == Err(e)
              case None => r == Ok(key in old(store))
      ensures Now() == Serve(clock, old(Now()), Forget(key, expected, reason, purge, noted, purgedAt))
    {
      var refusal := CheckForget(key, expected, purge);
      if refusal.Some? {
        return Err(refusal.value);
      }
      var existing := Loaded(store, key);
      if existing.Some? {
        RemoveStored(key, existing.value, reason, noted);
      }
      if purge {
        PurgeStored(key, reason, purgedAt);
      }
      ForgetPerforms(clock, old(Now()), key, reason, purge, noted, purgedAt);
      r := Ok(existing.Some?);
    }

    method RemoveStored(key: string, existing: Entry, reason: string, noted: bool)
      modifies `store, `opLog, audit`rootHash, audit.table
      ensures snapshots == old(snapshots)
      ensures Now() == Perform(clock, old(Now()), RemoveActions(existing, key, reason, noted))
    {
      Delete(key);
      RecordBelief(key, noted);
      Log(FORGET, key, Some(existing), None, PlainMeta(None));
      Log(FORGET, key, None, None, PlainMeta(Some(reason)));
      RemovePerforms(clock, old(Now()), key, existing, reason, noted);
    }

    /** The revision log, then the audit rows, then every snapshot file that holds the key. */
    method PurgeStored(key: string, reason: string, purgedAt: Stamp)
      modifies `opLog, `snapshots, audit`rootHash, audit.table
      ensures Now() == Perform(clock, old(Now()), PurgeActions(old(snapshots), key, reason, purgedAt))
    {
      hide PurgedLog, ScrubbedTo, Perform, PurgeActions;
      RedactBeliefs(key);
      PurgeRows(key, PlainMeta(Some(reason)), purgedAt);
      PurgePerforms(clock, old(Now()), key, reason, purgedAt);
      ScrubSnapshots(key);
    }

    method RedactBeliefs(key: string)
      modifies `opLog
      ensures Now() == Apply(clock, old(Now()), Redact(key))
    {
      opLog := Without(opLog, key);
    }

    method PurgeRows(key: string, meta: Meta, purgedAt: Stamp)
      modifies audit`rootHash, audit.table
      ensures Now() == Apply(clock, old(Now()), PurgeAudit(key, meta, purgedAt))
    {
      hide PurgedLog;
      var _ := audit.PurgeKey(key, meta, clock(|audit.table.rows|), purgedAt);
    }

    method ScrubSnapshots(key: string)
      modifies `snapshots
      ensures Now() == ScrubbedTo(old(Now()), SortedItems(old(snapshots)), |old(snapshots).Keys|, key)
    {
      var files := ItemsSorted(snapshots);
      for i := 0 to |files|
        invariant Now() == ScrubbedTo(old(Now()), files, i, key)
      {
        if Holds(files[i].1, key) {
          snapshots := snapshots[files[i].0 := Readable(files[i].1.entries - {key}, files[i].1.rootHash)];
        }
      }
    }

    method SaveSnapshot(id: string)
      modifies `snapshots
      ensures Now() == Serve(clock, old(Now()), CreateSnapshot(id, audit.rootHash))
    {
      snapshots := snapshots[id := Readable(store, audit.rootHash)];
      PerformOne(clock, old(Now()), WriteSnapshot(id, Readable(store, audit.rootHash)));
    }

    method LoadSnapshot(id: string) returns (r: Result<Store, Error>)
      ensures r == if id !in snapshots then Err(SnapshotNotFound)
                   else if !Loadable(snapshots[id]) then Err(SnapshotUnreadable) else Ok(EntriesOf(snapshots[id]))
    {
      if id !in snapshots {
        return Err(SnapshotNotFound);
      }
      match snapshots[id]
      case Unreadable => r := Err(SnapshotUnreadable);
      case Headless => r := Err(SnapshotUnreadable);
      case Misshapen => r := Ok(map[]);
      case Readable(entries, _) => r := Ok(entries);
    }

    /** Restores a snapshot: refused when the head is not the expected one, else the store becomes the snapshot and
        the reported keys are exactly those that differed. */
    method RollbackExecute(id: string, expectedRoot: Option<Digest>, reason: string, cached: set<string>)
      returns (r: Result<Changes, Error>)
      modifies this, audit`rootHash, audit.table
      ensures match RollbackRefusal(old(Now()), id, expectedRoot)
              case Some(e) => r == Err(e)
              case None => r == Ok(ChangesFor(old(store), EntriesOf(old(snapshots)[id])))
      ensures r.Ok? ==>
        var target: Store := if old(snapshots)[id].Readable? then old(snapshots)[id].entries else map[];
        && r.value.create == Sort(target.Keys - old(store).Keys) && r.value.remove == Sort(old(store).Keys - target.Keys)
        && r.value.update == Sort(set k | k in target && k in old(store) && target[k] != old(store)[k])
      ensures Now() == Serve(clock, old(Now()), Rollback(id, expectedRoot, reason, cached))
    {
      hide Perform, RollbackActions, ChangesFor;
      var loaded := LoadSnapshot(id);
      if loaded.Err? {
        return Err(loaded.error);
      }
      var target := loaded.value;
      var currentRoot := audit.RefreshRootHash();
      if expectedRoot.Some? && currentRoot != expectedRoot.value {
        return Err(StateChangedSincePreview);
      }
      var changes := RestoreTo(target, reason, cached);
      ChangesAre(old(store), target);
      r := Ok(changes);
    }

    method RestoreTo(target: Store, reason: string, cached: set<string>) returns (changes: Changes)
      modifies this, audit`rootHash, audit.table
      ensures changes == ChangesFor(old(store), target)
      ensures Now() == Perform(clock, old(Now()), RollbackActions(old(store), target, reason, cached))
    {
      var deleted := DropExtra(target, reason, cached);
      var created, updated := RestoreMissing(target, reason);
      Log(ROLLBACK, SYSTEM_KEY, None, None, PlainMeta(Some(reason)));
      RollbackPerforms(clock, old(Now()), target, reason, cached);
      changes := Changes(created, updated, deleted);
    }

    method DropExtra(target: Store, reason: string, cached: set<string>) returns (deleted: seq<string>)
      modifies `store, `opLog, audit`rootHash, audit.table
      ensures deleted == Sort(old(store).Keys - target.Keys)
      ensures Now() == Dropped(clock, old(Now()), deleted, |deleted|, reason, cached)
    {
      var gone := SortKeys(store.Keys - target.Keys);
      deleted := [];
      for i := 0 to |gone|
        invariant Now() == Dropped(clock, old(Now()), gone, i, reason, cached)
        invariant deleted == Front(gone, i)
      {
        var key := gone[i];
        var existing := Loaded(store, key);
        Delete(key);
        RecordBelief(key, key in cached);
        Log(DELETE, key, existing, None, RollbackMeta(reason));
        deleted := deleted + [key];
      }
      FrontAll(gone, |gone|);
    }

    method RestoreMissing(target: Store, reason: string) returns (created: seq<string>, updated: seq<string>)
      modifies `store, audit`rootHash, audit.table
      ensures (Now(), created, updated) == Restored(clock, old(Now()), SortedItems(target), |target.Keys|, reason)
    {
      hide AfterRestore;
      var wanted := ItemsSorted(target);
      created, updated := [], [];
      for i := 0 to |wanted|
        invariant (Now(), created, updated) == Restored(clock, old(Now()), wanted, i, reason)
      {
        var (key, entry) := wanted[i];
        var existing := RestoreOne(key, entry, reason);
        if existing.None? {
          created := created + [key];
        } else if existing.value != entry {
          updated := updated + [key];
        }
      }
    }

    method RestoreOne(key: string, wanted: Entry, reason: string) returns (existing: Option<Entry>)
      modifies `store, audit`rootHash, audit.table
      ensures existing == Loaded(old(store), key)
      ensures Now() == AfterRestore(clock, old(Now()), key, existing, wanted, reason)
    {
      existing := Loaded(store, key);
      if existing != Some(wanted) {
        Save(key, wanted);
        Log(if existing.Some? then UPDATE else CREATE, key, existing, Some(wanted), RollbackMeta(reason));
      }
    }

    /** The head first, the state after it. Here nothing runs in between; RollbackProtocol interleaves the two reads. */
    method RollbackPreview(id: string, limit: int) returns (r: Result<PreviewReport, Error>)
      modifies audit`rootHash
      ensures r.Err? <==> id !in snapshots || snapshots[id].Unreadable? || snapshots[id].Headless?
      ensures r.Err? ==> r.error == if id in snapshots then SnapshotUnreadable else SnapshotNotFound
      ensures r.Ok? ==>
        var target: Store := if snapshots[id].Readable? then snapshots[id].entries else map[];
        var create, remove := target.Keys - store.Keys, store.Keys - target.Keys;
        var update := set k | k in target && k in store && target[k] != store[k];
        var bound := if limit < 1 then 1 else limit;
        && r.value.root == (if audit.table.rows == [] then Genesis else audit.table.rows[|audit.table.rows| - 1].root)
        && r.value.created == |create| && r.value.updated == |update| && r.value.removed == |remove|
        && r.value.keys.create == (if |create| > bound then Sort(create)[..bound] else Sort(create))
        && r.value.keys.update == (if |update| > bound then Sort(update)[..bound] else Sort(update))
        && r.value.keys.remove == (if |remove| > bound then Sort(remove)[..bound] else Sort(remove))
        && (r.value.truncated <==> |create| > bound || |update| > bound || |remove| > bound)
    {
      var loaded := LoadSnapshot(id);
      if loaded.Err? {
        return Err(loaded.error);
      }
      var currentRoot := audit.RefreshRootHash();
      var report := Report(currentRoot, store, loaded.value, if limit < 1 then 1 else limit);
      r := Ok(report);
    }
  }

  // ---------------------------------------------------------------- what action lists perform

  lemma NothingPerforms(clock: Clock, w: World)
    ensures Perform(clock, w, []) == w
  {
  }

  lemma PerformOne(clock: Clock, w: World, a: Action)
    ensures Perform(clock, w, [a]) == Apply(clock, w, a)
  {
    assert [a][..0] == [];
  }

  lemma PerformTwo(clock: Clock, w: World, a: Action, b: Action)
    ensures Perform(clock, w, [a, b]) == Apply(clock, Apply(clock, w, a), b)
  {
    assert [a, b][..1] == [a];
    PerformOne(clock, w, a);
  }

  function AfterNote(clock: Clock, w: World, key: string, noted: bool): World {
    if noted then Apply(clock, w, Note(key)) else w
  }

  lemma NotedPerforms(clock: Clock, w: World, key: string, noted: bool, more: seq<Action>)
    ensures Perform(clock, w, Noted(key, noted) + more) == Perform(clock, AfterNote(clock, w, key, noted), more)
  {
    PerformConcat(clock, w, Noted(key, noted), more);
    PerformOne(clock, w, Note(key));
  }

  lemma CommitPerforms(clock: Clock, w: World, key: string, entry: Entry, accepted: bool, noted: bool)
    ensures var n := AfterNote(clock, w, key, noted);
      Perform(clock, w, CommitActions(w.store, key, entry, accepted, noted)) ==
      if !accepted then n else
        Apply(clock, Apply(clock, n, Put(key, entry)),
              LogRow(if key in w.store then UPDATE else CREATE, key, Loaded(w.store, key), Some(entry), PlainMeta(None)))
  {
    var put := Put(key, entry);
    var log := LogRow(if key in w.store then UPDATE else CREATE, key, Loaded(w.store, key), Some(entry), PlainMeta(None));
    NotedPerforms(clock, w, key, noted, if accepted then [put, log] else []);
    PerformTwo(clock, AfterNote(clock, w, key, noted), put, log);
  }

  lemma RevisePerforms(clock: Clock, w: World, key: string, winner: Option<Entry>, noted: bool, reason: Option<string>)
    requires key in w.store
    ensures var n := AfterNote(clock, w, key, noted);
      Perform(clock, w, ReviseActions(w.store[key], key, winner, noted, reason)) ==
      if winner.None? then n
      else if winner.value == w.store[key] then Apply(clock, n, Put(key, winner.value))
      else Apply(clock, Apply(clock, n, Put(key, winner.value)),
                 LogRow(UPDATE, key, Some(w.store[key]), winner, PlainMeta(reason)))
  {
    var n := AfterNote(clock, w, key, noted);
    if winner.None? {
      NotedPerforms(clock, w, key, noted, []);
    } else if winner.value == w.store[key] {
      NotedPerforms(clock, w, key, noted, [Resave(key)]);
      PerformOne(clock, n, Resave(key));
      assert n.store[key := winner.value] == n.store;
    } else {
      var log := LogRow(UPDATE, key, Some(w.store[key]), winner, PlainMeta(reason));
      NotedPerforms(clock, w, key, noted, [Put(key, winner.value), log]);
      PerformTwo(clock, n, Put(key, winner.value), log);
    }
  }

  lemma DropPerforms(clock: Clock, w: World, key: string, noted: bool, more: seq<Action>)
    ensures Perform(clock, w, [Drop(key)] + Noted(key, noted) + more) ==
            Perform(clock, AfterNote(clock, Apply(clock, w, Drop(key)), key, noted), more)
  {
    assert [Drop(key)] + Noted(key, noted) + more == [Drop(key)] + (Noted(key, noted) + more);
    PerformConcat(clock, w, [Drop(key)], Noted(key, noted) + more);
    PerformOne(clock, w, Drop(key));
    NotedPerforms(clock, Apply(clock, w, Drop(key)), key, noted, more);
  }

  lemma RemovePerforms(clock: Clock, w: World, key: string, existing: Entry, reason: string, noted: bool)
    ensures Perform(clock, w, RemoveActions(existing, key, reason, noted)) ==
            Apply(clock, Apply(clock, AfterNote(clock, Apply(clock, w, Drop(key)), key, noted),
                               LogRow(FORGET, key, Some(existing), None, PlainMeta(None))),
                  LogRow(FORGET, key, None, None, PlainMeta(Some(reason))))
  {
    var first := LogRow(FORGET, key, Some(existing), None, PlainMeta(None));
    var second := LogRow(FORGET, key, None, None, PlainMeta(Some(reason)));
    DropPerforms(clock, w, key, noted, [first, second]);
    PerformTwo(clock, AfterNote(clock, Apply(clock, w, Drop(key)), key, noted), first, second);
  }

  function AfterDelete(clock: Clock, w: World, key: string, existing: Option<Entry>, reason: string, noted: bool): World {
    Apply(clock, AfterNote(clock, Apply(clock, w, Drop(key)), key, noted),
          LogRow(DELETE, key, existing, None, RollbackMeta(reason)))
  }

  lemma DeletePerforms(clock: Clock, w: World, key: string, existing: Option<Entry>, reason: string, noted: bool)
    ensures Perform(clock, w, DeleteAction(key, existing, reason, noted)) ==
            AfterDelete(clock, w, key, existing, reason, noted)
  {
    var log := LogRow(DELETE, key, existing, None, RollbackMeta(reason));
    DropPerforms(clock, w, key, noted, [log]);
    PerformOne(clock, AfterNote(clock, Apply(clock, w, Drop(key)), key, noted), log);
  }

  /** The two loops of a restore as folds over the state they find: each step reads the store as it then is. */
  function Dropped(clock: Clock, w: World, keys: seq<string>, n: nat, reason: string, cached: set<string>): World
    requires n <= |keys|
  {
    if n == 0 then w else
      var now := Dropped(clock, w, keys, n - 1, reason, cached);
      var k := keys[n - 1];
      AfterDelete(clock, now, k, Loaded(now.store, k), reason, k in cached)
  }

  function AfterRestore(clock: Clock, w: World, key: string, existing: Option<Entry>, wanted: Entry, reason: string): World {
    if existing == Some(wanted) then w else
      Apply(clock, Apply(clock, w, Put(key, wanted)),
            LogRow(if existing.Some? then UPDATE else CREATE, key, existing, Some(wanted), RollbackMeta(reason)))
  }

  function Restored(clock: Clock, w: World, items: EntryItems, n: nat, reason: string): (World, seq<string>, seq<string>)
    requires n <= |items|
  {
    if n == 0 then (w, [], []) else
      var (now, created, updated) := Restored(clock, w, items, n - 1, reason);
      var (k, wanted) := items[n - 1];
      var existing := Loaded(now.store, k);
      (AfterRestore(clock, now, k, existing, wanted, reason),
       if existing.None? then created + [k] else created,
       if existing.Some? && existing.value != wanted then updated + [k] else updated)
  }

  function AfterScrub(w: World, file: (string, SnapshotFile), key: string): World {
    if Holds(file.1, key) then
      w.(snapshots := w.snapshots[file.0 := Readable(file.1.entries - {key}, file.1.rootHash)])
    else w
  }

  function ScrubbedTo(w: World, files: SnapshotItems, n: nat, key: string): World
    requires n <= |files|
  {
    if n == 0 then w else AfterScrub(ScrubbedTo(w, files, n - 1, key), files[n - 1], key)
  }

  lemma ScrubStep(clock: Clock, w: World, file: (string, SnapshotFile), key: string)
    ensures Perform(clock, w, ScrubAction(file, key)) == AfterScrub(w, file, key)
  {
    if Holds(file.1, key) {
      PerformOne(clock, w, ScrubAction(file, key)[0]);
    }
  }

  lemma {:induction false} ScrubPerforms(clock: Clock, w: World, files: SnapshotItems, n: nat, key: string)
    requires n <= |files|
    ensures Perform(clock, w, ScrubActions(files, n, key)) == ScrubbedTo(w, files, n, key)
  {
    hide Perform, ScrubAction, AfterScrub;
    if n == 0 {
      NothingPerforms(clock, w);
    } else {
      ScrubPerforms(clock, w, files, n - 1, key);
      PerformConcat(clock, w, ScrubActions(files, n - 1, key), ScrubAction(files[n - 1], key));
      ScrubStep(clock, ScrubbedTo(w, files, n - 1, key), files[n - 1], key);
    }
  }

  lemma AfterDeleteStore(clock: Clock, w: World, key: string, existing: Option<Entry>, reason: string, noted: bool)
    ensures AfterDelete(clock, w, key, existing, reason, noted).store == w.store - {key}
    ensures AfterDelete(clock, w, key, existing, reason, noted).snapshots == w.snapshots
  {
  }

  lemma {:induction false} DroppedKeeps(clock: Clock, w: World, keys: seq<string>, n: nat, reason: string,
                                        cached: set<string>, k: string)
    requires n <= |keys| && forall j :: 0 <= j < n ==> keys[j] != k
    ensures Loaded(Dropped(clock, w, keys, n, reason, cached).store, k) == Loaded(w.store, k)
  {
    hide AfterDelete;
    if n > 0 {
      DroppedKeeps(clock, w, keys, n - 1, reason, cached, k);
      var now := Dropped(clock, w, keys, n - 1, reason, cached);
      AfterDeleteStore(clock, now, keys[n - 1], Loaded(now.store, keys[n - 1]), reason, keys[n - 1] in cached);
    }
  }

  lemma {:induction false} DropsPerform(clock: Clock, w: World, gone: set<string>, n: nat, reason: string,
                                        cached: set<string>)
    requires n <= |gone|
    ensures Dropped(clock, w, Sort(gone), n, reason, cached) ==
            Perform(clock, w, DeleteActions(w.store, Sort(gone), n, reason, cached))
  {
    hide AfterDelete, DeleteAction, Perform;
    var keys := Sort(gone);
    if n == 0 {
      NothingPerforms(clock, w);
    } else {
      var k := keys[n - 1];
      DropsPerform(clock, w, gone, n - 1, reason, cached);
      PerformConcat(clock, w, DeleteActions(w.store, keys, n - 1, reason, cached),
                    DeleteAction(k, Loaded(w.store, k), reason, k in cached));
      SortDistinct(gone, n - 1);
      DroppedKeeps(clock, w, keys, n - 1, reason, cached, k);
      DeletePerforms(clock, Dropped(clock, w, keys, n - 1, reason, cached), k, Loaded(w.store, k), reason, k in cached);
    }
  }

  lemma RestoreStep(clock: Clock, w: World, store: Store, items: EntryItems, n: nat, reason: string)
    requires n < |items| && Loaded(w.store, items[n].0) == Loaded(store, items[n].0)
    ensures var (k, wanted) := items[n];
      Perform(clock, w, RestoreAction(k, Loaded(store, k), wanted, reason)) ==
      AfterRestore(clock, w, k, Loaded(w.store, k), wanted, reason)
  {
    var (k, wanted) := items[n];
    if Loaded(store, k) != Some(wanted) {
      var action := RestoreAction(k, Loaded(store, k), wanted, reason);
      PerformTwo(clock, w, action[0], action[1]);
    }
  }

  ghost predicate SameFor(a: Store, b: Store, target: Store) {
    forall k :: k in target ==> Loaded(a, k) == Loaded(b, k)
  }

  lemma AfterRestoreStore(clock: Clock, w: World, key: string, existing: Option<Entry>, wanted: Entry, reason: string)
    requires existing == Loaded(w.store, key)
    ensures AfterRestore(clock, w, key, existing, wanted, reason).store == w.store[key := wanted]
    ensures AfterRestore(clock, w, key, existing, wanted, reason).snapshots == w.snapshots
  {
    if existing == Some(wanted) {
      assert w.store[key := wanted] == w.store;
    }
  }

  lemma {:induction false} RestoredKeeps(clock: Clock, w: World, items: EntryItems, n: nat, reason: string, k: string)
    requires n <= |items| && forall j :: 0 <= j < n ==> items[j].0 != k
    ensures Loaded(Restored(clock, w, items, n, reason).0.store, k) == Loaded(w.store, k)
  {
    hide AfterRestore;
    if n > 0 {
      RestoredKeeps(clock, w, items, n - 1, reason, k);
      var now := Restored(clock, w, items, n - 1, reason).0;
      AfterRestoreStore(clock, now, items[n - 1].0, Loaded(now.store, items[n - 1].0), items[n - 1].1, reason);
    }
  }

  lemma ItemsDistinct<T>(m: map<string, T>, i: nat)
    requires i < |m.Keys|
    ensures forall j :: 0 <= j < i ==> SortedItems(m)[j].0 != SortedItems(m)[i].0
  {
    SortDistinct(m.Keys, i);
  }

  lemma {:induction false} RestoresPerform(clock: Clock, w: World, store: Store, target: Store, n: nat, reason: string)
    requires n <= |target.Keys| && SameFor(w.store, store, target)
    ensures Restored(clock, w, SortedItems(target), n, reason).0 ==
            Perform(clock, w, RestoreActions(store, SortedItems(target), n, reason))
  {
    hide AfterRestore, RestoreAction, Perform, SameFor, SortedItems;
    if n == 0 {
      NothingPerforms(clock, w);
    } else {
      var items := SortedItems(target);
      var (k, wanted) := items[n - 1];
      RestoresPerform(clock, w, store, target, n - 1, reason);
      RestoreFinds(clock, w, store, target, n - 1, reason);
      var before := Restored(clock, w, items, n - 1, reason).0;
      PerformConcat(clock, w, RestoreActions(store, items, n - 1, reason), RestoreAction(k, Loaded(store, k), wanted, reason));
      RestoreStep(clock, before, store, items, n - 1, reason);
    }
  }

  // The restore of item n finds its key as it was before the restore began.
  lemma RestoreFinds(clock: Clock, w: World, store: Store, target: Store, n: nat, reason: string)
    requires n < |target.Keys| && SameFor(w.store, store, target)
    ensures var k := SortedItems(target)[n].0;
      Loaded(Restored(clock, w, SortedItems(target), n, reason).0.store, k) == Loaded(store, k)
  {
    hide AfterRestore;
    SortedItem(target, n);
    ItemsDistinct(target, n);
    RestoredKeeps(clock, w, SortedItems(target), n, reason, SortedItems(target)[n].0);
  }

  lemma {:induction false} RestoresReport(clock: Clock, w: World, store: Store, target: Store, n: nat, reason: string)
    requires n <= |target.Keys| && SameFor(w.store, store, target)
    ensures var (now, created, updated) := Restored(clock, w, SortedItems(target), n, reason);
      && created == FilterCreated(store, SortedItems(target), n)
      && updated == FilterUpdated(store, SortedItems(target), n)
  {
    hide AfterRestore, SameFor, SortedItems;
    if n > 0 {
      RestoresReport(clock, w, store, target, n - 1, reason);
      RestoreFinds(clock, w, store, target, n - 1, reason);
    }
  }

  lemma PurgePerforms(clock: Clock, w: World, key: string, reason: string, purgedAt: Stamp)
    ensures Perform(clock, w, PurgeActions(w.snapshots, key, reason, purgedAt)) ==
            ScrubbedTo(Apply(clock, Apply(clock, w, Redact(key)), PurgeAudit(key, PlainMeta(Some(reason)), purgedAt)),
                       SortedItems(w.snapshots), |w.snapshots.Keys|, key)
  {
    var redact, purge := Redact(key), PurgeAudit(key, PlainMeta(Some(reason)), purgedAt);
    PerformConcat(clock, w, [redact, purge], ScrubActions(SortedItems(w.snapshots), |w.snapshots.Keys|, key));
    PerformTwo(clock, w, redact, purge);
    ScrubPerforms(clock, Apply(clock, Apply(clock, w, redact), purge), SortedItems(w.snapshots), |w.snapshots.Keys|, key);
  }

  lemma ForgetPerforms(clock: Clock, w: World, key: string, reason: string, purge: bool, noted: bool, purgedAt: Stamp)
    ensures var removed := if key in w.store then Perform(clock, w, RemoveActions(w.store[key], key, reason, noted)) else w;
      && removed.snapshots == w.snapshots
      && Perform(clock, w, ForgetActions(w, key, reason, purge, noted, purgedAt)) ==
         if purge then Perform(clock, removed, PurgeActions(w.snapshots, key, reason, purgedAt)) else removed
  {
    if key in w.store {
      RemovePerforms(clock, w, key, w.store[key], reason, noted);
    }
    PerformConcat(clock, w, if key in w.store then RemoveActions(w.store[key], key, reason, noted) else [],
                  if purge then PurgeActions(w.snapshots, key, reason, purgedAt) else []);
  }

  /** The restore loops do what the plan lists, and report exactly the keys that differ. */
  lemma RollbackPerforms(clock: Clock, w: World, target: Store, reason: string, cached: set<string>)
    ensures var deleted := Sort(w.store.Keys - target.Keys);
      var dropped := Dropped(clock, w, deleted, |deleted|, reason, cached);
      var (now, created, updated) := Restored(clock, dropped, SortedItems(target), |target.Keys|, reason);
      && Changes(created, updated, deleted) == ChangesFor(w.store, target)
      && Perform(clock, w, RollbackActions(w.store, target, reason, cached)) ==
         Apply(clock, now, LogRow(ROLLBACK, SYSTEM_KEY, None, None, PlainMeta(Some(reason))))
  {
    var deleted := Sort(w.store.Keys - target.Keys);
    var drops := DeleteActions(w.store, deleted, |deleted|, reason, cached);
    var restores := RestoreActions(w.store, SortedItems(target), |target.Keys|, reason);
    var last := LogRow(ROLLBACK, SYSTEM_KEY, None, None, PlainMeta(Some(reason)));
    var dropped := Dropped(clock, w, deleted, |deleted|, reason, cached);
    DropsPerform(clock, w, w.store.Keys - target.Keys, |deleted|, reason, cached);
    forall k | k in target
      ensures Loaded(dropped.store, k) == Loaded(w.store, k)
    {
      assert forall j :: 0 <= j < |deleted| ==> deleted[j] in deleted && deleted[j] != k;
      DroppedKeeps(clock, w, deleted, |deleted|, reason, cached, k);
    }
    RestoresPerform(clock, dropped, w.store, target, |target.Keys|, reason);
    RestoresReport(clock, dropped, w.store, target, |target.Keys|, reason);
    PerformConcat(clock, w, drops + restores, [last]);
    PerformConcat(clock, w, drops, restores);
    PerformOne(clock, Perform(clock, w, drops + restores), last);
    FilterCreatedIs(w.store, target);
    FilterUpdatedIs(w.store, target);
  }

  // ---------------------------------------------------------------- the reported keys

  function Front(s: seq<string>, n: nat): seq<string>
    requires n <= |s|
  {
    if n == 0 then [] else Front(s, n - 1) + [s[n - 1]]
  }

  lemma {:induction false} FrontAll(s: seq<string>, n: nat)
    requires n <= |s|
    ensures Front(s, n) == s[..n]
  {
    if n > 0 {
      FrontAll(s, n - 1);
    }
  }

  function FilterCreated(store: Store, items: EntryItems, n: nat): seq<string>
    requires n <= |items|
  {
    if n == 0 then []
    else if items[n - 1].0 in store then FilterCreated(store, items, n - 1)
    else FilterCreated(store, items, n - 1) + [items[n - 1].0]
  }

  function FilterUpdated(store: Store, items: EntryItems, n: nat): seq<string>
    requires n <= |items|
  {
    if n == 0 then []
    else if items[n - 1].0 in store && store[items[n - 1].0] != items[n - 1].1 then
      FilterUpdated(store, items, n - 1) + [items[n - 1].0]
    else FilterUpdated(store, items, n - 1)
  }

  // `kept` lists, in order, the wanted ones among the first n keys.
  ghost predicate Keeps(kept: seq<string>, keys: seq<string>, n: nat, wanted: set<string>)
    requires n <= |keys|
  {
    && Sorted(kept)
    && (forall k :: k in kept ==> k in wanted && exists i :: 0 <= i < n && keys[i] == k)
    && (forall i :: 0 <= i < n && keys[i] in wanted ==> keys[i] in kept)
  }

  lemma KeepsNothing(keys: seq<string>, wanted: set<string>)
    ensures Keeps([], keys, 0, wanted)
  {
  }

  lemma KeepsExtend(kept: seq<string>, keys: seq<string>, n: nat, wanted: set<string>)
    requires n < |keys| && Sorted(keys) && Keeps(kept, keys, n, wanted)
    ensures Keeps(if keys[n] in wanted then kept + [keys[n]] else kept, keys, n + 1, wanted)
  {
    forall i | 0 <= i < |kept|
      ensures Less(kept[i], keys[n])
    {
      assert kept[i] in kept;
    }
  }

  lemma {:induction false} FilterCreatedKeeps(store: Store, target: Store, n: nat)
    requires n <= |target.Keys|
    ensures Keeps(FilterCreated(store, SortedItems(target), n), Sort(target.Keys), n, target.Keys - store.Keys)
  {
    hide Keeps, Sorted;
    if n == 0 {
      KeepsNothing(Sort(target.Keys), target.Keys - store.Keys);
    } else {
      FilterCreatedKeeps(store, target, n - 1);
      SortedItem(target, n - 1);
      SortSorts(target.Keys);
      KeepsExtend(FilterCreated(store, SortedItems(target), n - 1), Sort(target.Keys), n - 1, target.Keys - store.Keys);
    }
  }

  function Differing(store: Store, target: Store): set<string> {
    set k | k in target && k in store && target[k] != store[k]
  }

  lemma {:induction false} FilterUpdatedKeeps(store: Store, target: Store, n: nat)
    requires n <= |target.Keys|
    ensures Keeps(FilterUpdated(store, SortedItems(target), n), Sort(target.Keys), n, Differing(store, target))
  {
    hide Keeps, Sorted;
    if n == 0 {
      KeepsNothing(Sort(target.Keys), Differing(store, target));
    } else {
      FilterUpdatedKeeps(store, target, n - 1);
      SortedItem(target, n - 1);
      SortSorts(target.Keys);
      KeepsExtend(FilterUpdated(store, SortedItems(target), n - 1), Sort(target.Keys), n - 1, Differing(store, target));
    }
  }

  lemma KeepsAll(kept: seq<string>, keys: seq<string>, wanted: set<string>)
    requires Keeps(kept, keys, |keys|, wanted) && forall k :: k in wanted ==> k in keys
    ensures kept == Sort(wanted)
  {
    SortSorts(wanted);
    SortedUnique(kept, Sort(wanted));
  }

  lemma FilterCreatedIs(store: Store, target: Store)
    ensures FilterCreated(store, SortedItems(target), |target.Keys|) == Sort(target.Keys - store.Keys)
  {
    FilterCreatedKeeps(store, target, |target.Keys|);
    KeepsAll(FilterCreated(store, SortedItems(target), |target.Keys|), Sort(target.Keys), target.Keys - store.Keys);
  }

  lemma FilterUpdatedIs(store: Store, target: Store)
    ensures FilterUpdated(store, SortedItems(target), |target.Keys|) == Sort(Differing(store, target))
  {
    FilterUpdatedKeeps(store, target, |target.Keys|);
    KeepsAll(FilterUpdated(store, SortedItems(target), |target.Keys|), Sort(target.Keys), Differing(store, target));
  }
}
