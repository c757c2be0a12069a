/** The append-only audit log of src/bilinc/core/audit.py: a hash chain whose rows can be emptied behind a receipt. */
module Audit {
  import JsonText
  import opened Wrappers

  const CREATE := "create"
  const UPDATE := "update"
  const DELETE := "delete"
  const CONSOLIDATE := "consolidate"
  const FORGET := "forget"
  const ROLLBACK := "rollback"
  const PURGE := "purge"

  /** SHA-256 (FIPS 180-4, section 6.2) as a free constructor: equal digests come from equal inputs, and no digest
      of a row or of a link is the all-zero genesis root. `Foreign` is stored text that no hash of the chain produced. */
  datatype Digest = Genesis | OfText(text: string) | Link(prev: Digest, data: Digest) | Foreign(stored: string)

  /** An item of a receipt; `OtherItem` is one that is no `{id, data_hash}`. */
  datatype ReceiptItem = ReceiptItem(id: int, dataHash: Digest) | OtherItem

  /** A JSON text column: its characters, and the items `json.loads` finds under `purged` (none when the text is not a
      receipt). */
  datatype Doc = Doc(text: string, purged: seq<ReceiptItem>)

  /** A REAL timestamp: how it prints inside the hashed text, and where it lies in time. */
  datatype Stamp = Stamp(text: string, at: real)

  datatype Meta = Meta(reason: Option<string>, confirmed: bool, rollback: bool, purgedAt: Option<Stamp>)

  datatype Row = Row(id: int, stamp: Stamp, op: string, key: string, before: Option<Doc>, after: Option<Doc>,
                     dataHash: Digest, prevRoot: Digest, root: Digest, meta: Meta)

  // ---------------------------------------------------------------- hashing

  function Show(column: Option<Doc>): string {
    if column.None? then "None" else column.value.text
  }

  function SerialText(op: string, key: string, stamp: Stamp, before: Option<Doc>, after: Option<Doc>): string {
    op + ":" + key + ":" + stamp.text + ":" + Show(before) + ":" + Show(after)
  }

  function Serialised(row: Row): string {
    SerialText(row.op, row.key, row.stamp, row.before, row.after)
  }

  function RowDataHash(row: Row): Digest {
    OfText(Serialised(row))
  }

  predicate Blank(row: Row) {
    row.before.None? && row.after.None?
  }

  // ---------------------------------------------------------------- receipts

  predicate IsReceipt(row: Row) {
    row.op == PURGE && row.after.Some? && row.after.value.text != ""
  }

  type Targets = map<int, (Digest, int)>

  function AddItems(targets: Targets, items: seq<ReceiptItem>, receiptId: int): Targets {
    if items == [] then targets else
      var earlier := AddItems(targets, items[..|items| - 1], receiptId);
      match items[|items| - 1]
      case ReceiptItem(id, dataHash) => earlier[id := (dataHash, receiptId)]
      case OtherItem => earlier
  }

  function ReceiptTargets(rows: seq<Row>): Targets {
    if rows == [] then map[] else
      var earlier := ReceiptTargets(rows[..|rows| - 1]);
      var last := rows[|rows| - 1];
      if IsReceipt(last) then AddItems(earlier, last.after.value.purged, last.id) else earlier
  }

  // Receipt row j names the row with this id and data hash.
  ghost predicate Names(rows: seq<Row>, j: int, id: int, dataHash: Digest) {
    0 <= j < |rows| && IsReceipt(rows[j]) && ReceiptItem(id, dataHash) in rows[j].after.value.purged
  }

  lemma {:induction false} AddItemsMeaning(targets: Targets, items: seq<ReceiptItem>, receiptId: int)
    ensures var r := AddItems(targets, items, receiptId);
      && (forall item :: item in items && item.ReceiptItem? ==> item.id in r)
      && (forall id :: id in targets ==> id in r)
      && (forall id :: id in r ==>
            (id in targets && r[id] == targets[id]) || (r[id].1 == receiptId && ReceiptItem(id, r[id].0) in items))
  {
    if items != [] {
      AddItemsMeaning(targets, items[..|items| - 1], receiptId);
    }
  }

  /** Each target comes from a receipt that names exactly it, and every named id has a target. */
  lemma {:induction false} TargetsMeaning(rows: seq<Row>)
    ensures forall id :: id in ReceiptTargets(rows) ==>
      exists j :: Names(rows, j, id, ReceiptTargets(rows)[id].0) && rows[j].id == ReceiptTargets(rows)[id].1
    ensures forall j, item :: 0 <= j < |rows| && IsReceipt(rows[j]) && item in rows[j].after.value.purged && item.ReceiptItem? ==>
      item.id in ReceiptTargets(rows)
  {
    if rows != [] {
      var n := |rows| - 1;
      var front := rows[..n];
      var last := rows[n];
      TargetsMeaning(front);
      if IsReceipt(last) {
        AddItemsMeaning(ReceiptTargets(front), last.after.value.purged, last.id);
      }
      var targets := ReceiptTargets(rows);
      forall id | id in targets
        ensures exists j :: Names(rows, j, id, targets[id].0) && rows[j].id == targets[id].1
      {
        if id in ReceiptTargets(front) && targets[id] == ReceiptTargets(front)[id] {
          var j :| Names(front, j, id, targets[id].0) && front[j].id == targets[id].1;
          assert Names(rows, j, id, targets[id].0) && rows[j].id == targets[id].1;
        } else {
          assert Names(rows, n, id, targets[id].0) && rows[n].id == targets[id].1;
        }
      }
      forall j, item | 0 <= j < |rows| && IsReceipt(rows[j]) && item in rows[j].after.value.purged && item.ReceiptItem?
        ensures item.id in targets
      {
        if j < n {
          assert front[j] == rows[j];
        }
      }
    }
  }

  lemma {:induction false} LastOfItems(targets: Targets, items: seq<ReceiptItem>, receiptId: int, k: nat)
    requires k < |items| && items[k].ReceiptItem?
    requires forall m :: k < m < |items| && items[m].ReceiptItem? ==> items[m].id != items[k].id
    ensures var r := AddItems(targets, items, receiptId);
      items[k].id in r && r[items[k].id] == (items[k].dataHash, receiptId)
  {
    if k < |items| - 1 {
      LastOfItems(targets, items[..|items| - 1], receiptId, k);
    }
  }

  lemma {:induction false} UnnamedItems(targets: Targets, items: seq<ReceiptItem>, receiptId: int, id: int)
    requires forall m :: 0 <= m < |items| && items[m].ReceiptItem? ==> items[m].id != id
    ensures var r := AddItems(targets, items, receiptId);
      (id in r <==> id in targets) && (id in targets ==> r[id] == targets[id])
  {
    if items != [] {
      UnnamedItems(targets, items[..|items| - 1], receiptId, id);
    }
  }

  /** The last item, of the last receipt, that names a row is the one the check trusts it by. */
  lemma {:induction false} LastItemDecides(rows: seq<Row>, j: nat, k: nat)
    requires j < |rows| && rows[j].op == "purge" && rows[j].after.Some? && rows[j].after.value.text != ""
    requires k < |rows[j].after.value.purged| && rows[j].after.value.purged[k].ReceiptItem?
    requires var items := rows[j].after.value.purged;
      forall m :: k < m < |items| && items[m].ReceiptItem? ==> items[m].id != items[k].id
    requires forall i, m :: j < i < |rows| && rows[i].op == "purge" && rows[i].after.Some? && rows[i].after.value.text != "" &&
                            0 <= m < |rows[i].after.value.purged| && rows[i].after.value.purged[m].ReceiptItem? ==>
               rows[i].after.value.purged[m].id != rows[j].after.value.purged[k].id
    ensures var item := rows[j].after.value.purged[k];
      item.id in ReceiptTargets(rows) && ReceiptTargets(rows)[item.id] == (item.dataHash, rows[j].id)
  {
    var n := |rows| - 1;
    var front, last := rows[..n], rows[n];
    if j == n {
      LastOfItems(ReceiptTargets(front), last.after.value.purged, last.id, k);
    } else {
      forall i, m | j < i < |front| && front[i].op == "purge" && front[i].after.Some? && front[i].after.value.text != "" &&
                    0 <= m < |front[i].after.value.purged| && front[i].after.value.purged[m].ReceiptItem?
        ensures front[i].after.value.purged[m].id != front[j].after.value.purged[k].id
      {
        assert front[i] == rows[i];
      }
      LastItemDecides(front, j, k);
      if IsReceipt(last) {
        UnnamedItems(ReceiptTargets(front), last.after.value.purged, last.id, rows[j].after.value.purged[k].id);
      }
    }
  }

  method PurgeReceiptTargets(rows: seq<Row>) returns (targets: Targets)
    ensures targets == ReceiptTargets(rows)
  {
    targets := map[];
    for i := 0 to |rows|
      invariant targets == ReceiptTargets(rows[..i])
    {
      assert rows[..i + 1][..i] == rows[..i];
      if rows[i].op != PURGE || rows[i].after.None? || rows[i].after.value.text == "" {
        continue;
      }
      var items := rows[i].after.value.purged;
      for k := 0 to |items|
        invariant targets == AddItems(ReceiptTargets(rows[..i]), items[..k], rows[i].id)
      {
        assert items[..k + 1][..k] == items[..k];
        if items[k].ReceiptItem? {
          targets := targets[items[k].id := (items[k].dataHash, rows[i].id)];
        }
      }
      assert items[..|items|] == items;
    }
    assert rows[..|rows|] == rows;
  }

  // ---------------------------------------------------------------- verification

  // A row whose stored data hash is trusted because a later receipt names it.
  predicate TrustedEmpty(row: Row, targets: Targets) {
    && RowDataHash(row) != row.dataHash
    && row.id in targets && targets[row.id].0 == row.dataHash && targets[row.id].1 > row.id
    && Blank(row)
  }

  predicate Accepted(row: Row, targets: Targets) {
    RowDataHash(row) == row.dataHash || TrustedEmpty(row, targets)
  }

  function RootBefore(rows: seq<Row>, i: nat): Digest
    requires i <= |rows|
  {
    if i == 0 then Genesis else rows[i - 1].root
  }

  function HeadRoot(rows: seq<Row>): Digest {
    RootBefore(rows, |rows|)
  }

  predicate LinkedAt(rows: seq<Row>, i: nat)
    requires i < |rows|
  {
    rows[i].root == Link(RootBefore(rows, i), rows[i].dataHash)
  }

  ghost predicate Linked(rows: seq<Row>) {
    forall i :: 0 <= i < |rows| ==> LinkedAt(rows, i)
  }

  predicate RowVerifies(rows: seq<Row>, i: nat)
    requires i < |rows|
  {
    Accepted(rows[i], ReceiptTargets(rows)) && LinkedAt(rows, i)
  }

  ghost predicate VerifiesUpTo(rows: seq<Row>, n: nat)
    requires n <= |rows|
  {
    forall i :: 0 <= i < n ==> RowVerifies(rows, i)
  }

  ghost predicate ChainVerifies(rows: seq<Row>) {
    VerifiesUpTo(rows, |rows|)
  }

  datatype ChainError = DataHashMismatch(id: int) | RootHashMismatch(id: int)

  datatype ChainReport = ChainReport(valid: bool, entries: nat, currentRoot: Digest, storedRoot: Digest,
                                     rootMismatch: bool, firstError: Option<ChainError>, purgedRows: nat)

  // The rows among the first n that are trusted though their text does not hash to what they store.
  ghost function TrustedRows(rows: seq<Row>, n: nat): set<int>
    requires n <= |rows|
  {
    set i | 0 <= i < n && TrustedEmpty(rows[i], ReceiptTargets(rows))
  }

  lemma TrustedNext(rows: seq<Row>, n: nat)
    requires n < |rows|
    ensures |TrustedRows(rows, n + 1)| ==
            |TrustedRows(rows, n)| + (if TrustedEmpty(rows[n], ReceiptTargets(rows)) then 1 else 0)
  {
    hide TrustedEmpty, ReceiptTargets, Serialised, RowDataHash;
    if TrustedEmpty(rows[n], ReceiptTargets(rows)) {
      assert TrustedRows(rows, n + 1) == TrustedRows(rows, n) + {n};
    } else {
      assert TrustedRows(rows, n + 1) == TrustedRows(rows, n);
    }
  }

  /** What the check asks of one row: its root chains on the row before, and its data hash is that of the text it shows or,
      for a row without values, one a later receipt names. */
  lemma RowVerifiesExactlyWhen(rows: seq<Row>, i: nat)
    requires i < |rows|
    ensures var row := rows[i];
      var text := row.op + ":" + row.key + ":" + row.stamp.text + ":" +
                  (if row.before.Some? then row.before.value.text else "None") + ":" +
                  (if row.after.Some? then row.after.value.text else "None");
      RowVerifies(rows, i) <==>
        && row.root == Link(if i == 0 then Genesis else rows[i - 1].root, row.dataHash)
        && (|| row.dataHash == OfText(text)
            || (&& row.before == None && row.after == None
                && row.id in ReceiptTargets(rows) && ReceiptTargets(rows)[row.id].0 == row.dataHash
                && ReceiptTargets(rows)[row.id].1 > row.id))
  {
    hide ReceiptTargets;
  }

  /** The log is valid exactly when every row verifies; otherwise the first row that does not is named, and the root reached
      is the one before it. The rows counted as purged are those read that show another text than the one hashed and are
      accepted all the same. */
  method VerifyChain(rows: seq<Row>) returns (report: ChainReport, ghost read: nat)
    ensures report.valid <==> forall i :: 0 <= i < |rows| ==> RowVerifies(rows, i)
    ensures report.entries == |rows|
    ensures report.storedRoot == if rows == [] then Genesis else rows[|rows| - 1].root
    ensures report.rootMismatch <==> report.storedRoot != report.currentRoot
    ensures report.valid <==> report.firstError == None
    ensures report.valid ==> read == |rows| && report.currentRoot == report.storedRoot
    ensures !report.valid ==>
      && 0 < read <= |rows| && !RowVerifies(rows, read - 1) && (forall i :: 0 <= i < read - 1 ==> RowVerifies(rows, i))
      && report.currentRoot == (if read == 1 then Genesis else rows[read - 2].root)
      && var failed := rows[read - 1];
         report.firstError == Some(if Accepted(failed, ReceiptTargets(rows)) then RootHashMismatch(failed.id)
                                   else DataHashMismatch(failed.id))
    ensures report.purgedRows ==
            |set i | 0 <= i < read && rows[i].dataHash != RowDataHash(rows[i]) && Accepted(rows[i], ReceiptTargets(rows))|
  {
    hide ReceiptTargets, SerialText, Show, RowDataHash, TrustedRows;
    read := 0;
    TrustedRowsAre(rows, 0);
    NothingTrusted(rows);
    if rows == [] {
      report := ChainReport(true, 0, Genesis, Genesis, false, None, 0);
      return;
    }
    var targets := PurgeReceiptTargets(rows);
    var currentRoot := Genesis;
    var firstError: Option<ChainError> := None;
    var purgedRows := 0;
    var i := 0;
    while i < |rows|
      invariant 0 <= i <= |rows|
      invariant firstError.None?
      invariant VerifiesUpTo(rows, i) && currentRoot == RootBefore(rows, i)
      invariant purgedRows == |TrustedRows(rows, i)|
    {
      TrustedNext(rows, i);
      var row := rows[i];
      var expectedDataHash := RowDataHash(row);
      if expectedDataHash != row.dataHash && row.id in targets && targets[row.id].0 == row.dataHash &&
         targets[row.id].1 > row.id && row.before.None? && row.after.None? {
        expectedDataHash := row.dataHash;
        purgedRows := purgedRows + 1;
      }
      var expectedRoot := Link(currentRoot, expectedDataHash);
      if row.dataHash != expectedDataHash {
        firstError := Some(DataHashMismatch(row.id));
        assert !RowVerifies(rows, i);
        break;
      }
      if row.root != expectedRoot {
        firstError := Some(RootHashMismatch(row.id));
        assert !RowVerifies(rows, i);
        break;
      }
      currentRoot := expectedRoot;
      i := i + 1;
    }
    var storedRoot := rows[|rows| - 1].root;
    var rootMismatch := storedRoot != currentRoot;
    read := if i < |rows| then i + 1 else i;
    TrustedRowsAre(rows, read);
    report := ChainReport(firstError.None? && !rootMismatch, |rows|, currentRoot, storedRoot, rootMismatch, firstError,
                          purgedRows);
  }

  lemma TrustedRowsAre(rows: seq<Row>, n: nat)
    requires n <= |rows|
    ensures TrustedRows(rows, n) ==
            set i | 0 <= i < n && rows[i].dataHash != RowDataHash(rows[i]) && Accepted(rows[i], ReceiptTargets(rows))
  {
    hide RowDataHash, ReceiptTargets;
  }

  lemma NothingTrusted(rows: seq<Row>)
    ensures |TrustedRows(rows, 0)| == 0
  {
    assert TrustedRows(rows, 0) == {};
  }

  // ---------------------------------------------------------------- what a valid root binds

  function DataHashes(rows: seq<Row>): seq<Digest> {
    seq(|rows|, i requires 0 <= i < |rows| => rows[i].dataHash)
  }

  lemma {:induction false} LinkedFront(a: seq<Row>)
    requires Linked(a) && a != []
    ensures Linked(a[..|a| - 1]) && HeadRoot(a[..|a| - 1]) == RootBefore(a, |a| - 1)
    ensures HeadRoot(a) == Link(RootBefore(a, |a| - 1), a[|a| - 1].dataHash)
  {
    var front := a[..|a| - 1];
    forall i | 0 <= i < |front|
      ensures LinkedAt(front, i)
    {
      assert LinkedAt(a, i);
    }
    assert LinkedAt(a, |a| - 1);
  }

  lemma {:induction false} LinkedBinding(a: seq<Row>, b: seq<Row>)
    requires Linked(a) && Linked(b) && HeadRoot(a) == HeadRoot(b)
    ensures |a| == |b| && DataHashes(a) == DataHashes(b)
  {
    if a != [] {
      LinkedFront(a);
    }
    if b != [] {
      LinkedFront(b);
    }
    if a != [] && b != [] {
      LinkedBinding(a[..|a| - 1], b[..|b| - 1]);
      assert DataHashes(a) == DataHashes(a[..|a| - 1]) + [a[|a| - 1].dataHash];
      assert DataHashes(b) == DataHashes(b[..|b| - 1]) + [b[|b| - 1].dataHash];
    }
  }

  lemma ChainVerifiesMeans(a: seq<Row>)
    requires ChainVerifies(a)
    ensures Linked(a)
  {
    forall i | 0 <= i < |a|
      ensures LinkedAt(a, i)
    {
      assert RowVerifies(a, i);
    }
  }

  lemma {:induction false} SameDataHashesSameRoots(a: seq<Row>, b: seq<Row>, n: nat)
    requires Linked(a) && Linked(b) && |a| == |b| && DataHashes(a) == DataHashes(b) && n <= |a|
    ensures forall i :: 0 <= i < n ==> a[i].dataHash == b[i].dataHash && a[i].root == b[i].root
  {
    if n > 0 {
      SameDataHashesSameRoots(a, b, n - 1);
      assert LinkedAt(a, n - 1) && LinkedAt(b, n - 1) && DataHashes(a)[n - 1] == DataHashes(b)[n - 1];
    }
  }

  /** Two logs that verify and end in the same root have the same rows hash for hash, and the same hashed text at
      every row neither of them treats as purged. */
  lemma RootBindsLog(a: seq<Row>, b: seq<Row>)
    requires ChainVerifies(a) && ChainVerifies(b) && HeadRoot(a) == HeadRoot(b)
    ensures |a| == |b| && forall i :: 0 <= i < |a| ==> a[i].dataHash == b[i].dataHash && a[i].root == b[i].root
    ensures forall i :: 0 <= i < |a| && !TrustedEmpty(a[i], ReceiptTargets(a)) && !TrustedEmpty(b[i], ReceiptTargets(b)) ==>
      Serialised(a[i]) == Serialised(b[i])
  {
    ChainVerifiesMeans(a);
    ChainVerifiesMeans(b);
    LinkedBinding(a, b);
    forall i | 0 <= i < |a| && !TrustedEmpty(a[i], ReceiptTargets(a)) && !TrustedEmpty(b[i], ReceiptTargets(b))
      ensures Serialised(a[i]) == Serialised(b[i])
    {
      assert RowVerifies(a, i) && RowVerifies(b, i);
      assert DataHashes(a)[i] == DataHashes(b)[i];
    }
    SameDataHashesSameRoots(a, b, |a|);
  }

  // The columns the check reads besides `after.purged` of receipts.
  ghost predicate SameCheckedColumns(a: seq<Row>, b: seq<Row>) {
    |a| == |b| && forall i :: 0 <= i < |a| ==> a[i] == b[i].(prevRoot := a[i].prevRoot, meta := a[i].meta)
  }

  lemma {:induction false} TargetsIgnore(a: seq<Row>, b: seq<Row>)
    requires SameCheckedColumns(a, b)
    ensures ReceiptTargets(a) == ReceiptTargets(b)
  {
    if a != [] {
      TargetsIgnore(a[..|a| - 1], b[..|b| - 1]);
    }
  }

  /** `prev_root` and `metadata` are outside the check: changing them anywhere changes no verdict. */
  lemma PrevRootAndMetadataUnchecked(a: seq<Row>, b: seq<Row>)
    requires |a| == |b| && forall i :: 0 <= i < |a| ==> a[i] == b[i].(prevRoot := a[i].prevRoot, meta := a[i].meta)
    ensures forall i :: 0 <= i < |a| ==> (RowVerifies(a, i) <==> RowVerifies(b, i))
    ensures ChainVerifies(a) <==> ChainVerifies(b)
  {
    TargetsIgnore(a, b);
    forall i | 0 <= i < |a|
      ensures RowVerifies(a, i) <==> RowVerifies(b, i)
    {
      assert Serialised(a[i]) == Serialised(b[i]);
      assert i > 0 ==> a[i - 1].root == b[i - 1].root;
    }
    assert (forall i :: 0 <= i < |a| ==> RowVerifies(a, i)) <==> (forall i :: 0 <= i < |a| ==> RowVerifies(b, i));
  }

  // ---------------------------------------------------------------- emptied rows

  /** Emptying rows of a valid log keeps it valid exactly when each row whose text changed is named, with its very
      data hash, by the last receipt for its id, and that receipt is later. */
  lemma EmptiedRowsNeedReceipts(a: seq<Row>, b: seq<Row>)
    requires ChainVerifies(a) && |a| == |b|
    requires forall i :: 0 <= i < |a| ==>
      b[i] == a[i].(meta := b[i].meta) || b[i] == a[i].(before := None, after := None, meta := b[i].meta)
    ensures forall i :: 0 <= i < |b| ==> (RowVerifies(b, i) <==> Accepted(b[i], ReceiptTargets(b)))
    ensures ChainVerifies(b) <==> forall i :: 0 <= i < |b| ==> Accepted(b[i], ReceiptTargets(b))
  {
    forall i | 0 <= i < |b|
      ensures RowVerifies(b, i) <==> Accepted(b[i], ReceiptTargets(b))
    {
      assert RowVerifies(a, i);
      assert i > 0 ==> b[i - 1].root == a[i - 1].root;
    }
    assert ChainVerifies(b) ==> forall i :: 0 <= i < |b| ==> RowVerifies(b, i);
  }

  /** A row emptied with no later receipt naming its exact id and data hash does not verify. */
  lemma EmptiedWithoutReceiptFails(a: seq<Row>, b: seq<Row>, n: nat)
    requires ChainVerifies(a) && |a| == |b| && n < |b|
    requires forall i :: 0 <= i < |a| ==>
      b[i] == a[i].(meta := b[i].meta) || b[i] == a[i].(before := None, after := None, meta := b[i].meta)
    requires Serialised(b[n]) != Serialised(a[n]) && RowDataHash(a[n]) == a[n].dataHash
    requires !exists j :: Names(b, j, b[n].id, b[n].dataHash) && b[j].id > b[n].id
    ensures !RowVerifies(b, n) && !ChainVerifies(b)
  {
    EmptiedRowsNeedReceipts(a, b);
    TargetsMeaning(b);
    assert RowDataHash(b[n]) != b[n].dataHash;
  }

  // ---------------------------------------------------------------- writing

  function NextId(rows: seq<Row>): int {
    if rows == [] then 1 else rows[|rows| - 1].id + 1
  }

  // The row `log` inserts: it chains on the stored head, whatever head the process had cached.
  function NewRow(rows: seq<Row>, id: int, now: Stamp, op: string, key: string, before: Option<Doc>, after: Option<Doc>,
                  meta: Meta): Row {
    var dataHash := OfText(SerialText(op, key, now, before, after));
    Row(id, now, op, key, before, after, dataHash, HeadRoot(rows), Link(HeadRoot(rows), dataHash), meta)
  }

  predicate Purgeable(row: Row, key: string) {
    row.key == key && !Blank(row) && row.op != PURGE
  }

  /** The rows `purge_key` selects, oldest first. */
  function PurgeableRows(rows: seq<Row>, key: string): (picked: seq<Row>)
    ensures forall r :: r in picked <==> r in rows && Purgeable(r, key)
  {
    if rows == [] then [] else
      var last := rows[|rows| - 1];
      PurgeableRows(rows[..|rows| - 1], key) + (if Purgeable(last, key) then [last] else [])
  }

  function ReceiptItems(picked: seq<Row>): seq<ReceiptItem> {
    seq(|picked|, i requires 0 <= i < |picked| => ReceiptItem(picked[i].id, picked[i].dataHash))
  }

  function Decimal(n: int): (text: string)
    ensures text != "" && forall c :: c in text ==> JsonText.IsNumberChar(c)
    decreases n < 0, if n < 0 then -n else n
  {
    if n < 0 then "-" + Decimal(-n) else (if n < 10 then "" else Decimal(n / 10)) + ['0' + (n % 10) as char]
  }

  function DigestText(d: Digest): string {
    match d
    case Genesis => seq(64, _ => '0')
    case OfText(text) => "sha256(" + text + ")"
    case Link(prev, data) => "sha256(" + DigestText(prev) + ":" + DigestText(data) + ")"
    case Foreign(stored) => stored
  }

  function ItemsJson(items: seq<ReceiptItem>): JsonText.Items
    requires forall item :: item in items ==> item.ReceiptItem?
  {
    if items == [] then JsonText.NoItems else
      var dataHash := JsonText.Field("data_hash", JsonText.Text(DigestText(items[0].dataHash)), JsonText.NoFields);
      JsonText.Item(JsonText.Object(JsonText.Field("id", JsonText.Number(Decimal(items[0].id)), dataHash)), ItemsJson(items[1..]))
  }

  function ReceiptJson(items: seq<ReceiptItem>): JsonText.Json
    requires forall item :: item in items ==> item.ReceiptItem?
  {
    JsonText.Object(JsonText.Field("purged", JsonText.Array(ItemsJson(items)), JsonText.NoFields))
  }

  function ReceiptDoc(picked: seq<Row>): (doc: Doc)
    ensures doc.text == JsonText.Dumps(ReceiptJson(ReceiptItems(picked))) != "" && doc.purged == ReceiptItems(picked)
  {
    Doc(JsonText.Dumps(ReceiptJson(ReceiptItems(picked))), ReceiptItems(picked))
  }

  /** The receipt's text: an object of one list, an id and a data hash per emptied row. */
  lemma ReceiptText(picked: seq<Row>)
    ensures ReceiptJson(ReceiptItems(picked)) ==
            JsonText.Object(JsonText.Field("purged", JsonText.Array(ItemsJson(ReceiptItems(picked))), JsonText.NoFields))
    ensures ReceiptItems([]) == [] && ItemsJson([]) == JsonText.NoItems
    ensures picked == [] || ItemsJson(ReceiptItems(picked)) ==
      JsonText.Item(JsonText.Object(JsonText.Field("id", JsonText.Number(Decimal(picked[0].id)),
                                    JsonText.Field("data_hash", JsonText.Text(DigestText(picked[0].dataHash)), JsonText.NoFields))),
                    ItemsJson(ReceiptItems(picked[1..])))
  {
    hide Decimal, DigestText;
    if picked != [] {
      assert ReceiptItems(picked)[1..] == ReceiptItems(picked[1..]);
    }
  }

  /** Numbers in decimal. */
  lemma DecimalIs(n: int, digit: int)
    requires 0 <= digit < 10 && 0 < n
    ensures Decimal(digit) == [(48 + digit) as char]
    ensures Decimal(10 * n + digit) == Decimal(n) + [(48 + digit) as char]
    ensures Decimal(0 - n) == "-" + Decimal(n)
  {
  }

  /** `"0" * 64` */
  lemma GenesisText(j: nat)
    ensures |DigestText(Genesis)| == 64 && (j < 64 ==> DigestText(Genesis)[j] == '0')
  {
  }

  function Emptied(row: Row, selected: Row, purgedAt: Stamp): Row {
    row.(before := None, after := None, meta := selected.meta.(purgedAt := Some(purgedAt)))
  }

  // `UPDATE audit_log SET before_value = NULL, after_value = NULL, metadata = ? WHERE id = ?`
  function EmptyRow(rows: seq<Row>, selected: Row, purgedAt: Stamp): seq<Row> {
    seq(|rows|, i requires 0 <= i < |rows| =>
      if rows[i].id == selected.id then Emptied(rows[i], selected, purgedAt) else rows[i])
  }

  function EmptyRows(rows: seq<Row>, picked: seq<Row>, purgedAt: Stamp): seq<Row> {
    if picked == [] then rows else
      EmptyRow(EmptyRows(rows, picked[..|picked| - 1], purgedAt), picked[|picked| - 1], purgedAt)
  }

  function PurgedLog(rows: seq<Row>, key: string, meta: Meta, now: Stamp, purgedAt: Stamp): seq<Row> {
    var picked := PurgeableRows(rows, key);
    if picked == [] then rows else
      var receipt := NewRow(rows, NextId(rows), now, PURGE, key, None, Some(ReceiptDoc(picked)), meta);
      EmptyRows(rows + [receipt], picked, purgedAt)
  }

  predicate Ascending(rows: seq<Row>) {
    forall i, j :: 0 <= i < j < |rows| ==> rows[i].id < rows[j].id
  }

  lemma {:induction false} EmptyRowsMeaning(rows: seq<Row>, picked: seq<Row>, purgedAt: Stamp)
    requires Ascending(rows) && forall r :: r in picked ==> r in rows
    ensures var e := EmptyRows(rows, picked, purgedAt);
      |e| == |rows| && forall i :: 0 <= i < |rows| ==>
        e[i] == if rows[i] in picked then Emptied(rows[i], rows[i], purgedAt) else rows[i]
  {
    if picked != [] {
      var n := |picked| - 1;
      var front := picked[..n];
      EmptyRowsMeaning(rows, front, purgedAt);
      assert picked == front + [picked[n]];
      var before := EmptyRows(rows, front, purgedAt);
      assert picked[n] in picked;
      var j :| 0 <= j < |rows| && rows[j] == picked[n];
      forall i | 0 <= i < |rows|
        ensures EmptyRows(rows, picked, purgedAt)[i] ==
                if rows[i] in picked then Emptied(rows[i], rows[i], purgedAt) else rows[i]
      {
        assert before[i].id == rows[i].id;
        assert i != j ==> rows[i].id != rows[j].id;
      }
    }
  }

  // The item is one of the rows a purge of the key would empty.
  ghost predicate NamesPurgeable(rows: seq<Row>, key: string, item: ReceiptItem) {
    exists r :: r in rows && Purgeable(r, key) && item == ReceiptItem(r.id, r.dataHash)
  }

  lemma ReceiptItemsMeaning(rows: seq<Row>, key: string, item: ReceiptItem)
    ensures item in ReceiptItems(PurgeableRows(rows, key)) <==> NamesPurgeable(rows, key, item)
  {
    var picked := PurgeableRows(rows, key);
    if item in ReceiptItems(picked) {
      var k :| 0 <= k < |picked| && ReceiptItems(picked)[k] == item;
      assert picked[k] in picked;
    }
    if NamesPurgeable(rows, key, item) {
      var r :| r in rows && Purgeable(r, key) && item == ReceiptItem(r.id, r.dataHash);
      assert r in picked;
      var k :| 0 <= k < |picked| && picked[k] == r;
      assert ReceiptItems(picked)[k] == item;
    }
  }

  // Every row as it was, except that the key's value-bearing rows are empty.
  ghost predicate EmptiedForKey(rows: seq<Row>, key: string, purgedAt: Stamp, after: seq<Row>) {
    |after| >= |rows| && forall i :: 0 <= i < |rows| ==>
      after[i] == if Purgeable(rows[i], key) then Emptied(rows[i], rows[i], purgedAt) else rows[i]
  }

  /** The key's value-bearing rows are empty and one receipt at the end names exactly those rows with their data
      hashes; when there was nothing to empty, nothing changed. */
  ghost predicate PurgeOutcome(rows: seq<Row>, key: string, purgedAt: Stamp, after: seq<Row>) {
    if forall r :: r in rows ==> !Purgeable(r, key) then after == rows else
      && |after| == |rows| + 1
      && EmptiedForKey(rows, key, purgedAt, after)
      && IsReceipt(after[|rows|]) && after[|rows|].key == key && after[|rows|].id == NextId(rows)
      && (forall item :: item in after[|rows|].after.value.purged <==> NamesPurgeable(rows, key, item))
  }

  lemma PurgedLogMeaning(rows: seq<Row>, key: string, meta: Meta, now: Stamp, purgedAt: Stamp)
    requires Ascending(rows)
    ensures PurgeOutcome(rows, key, purgedAt, PurgedLog(rows, key, meta, now, purgedAt))
  {
    hide SerialText, HeadRoot, ReceiptJson, EmptyRows, NamesPurgeable;
    var picked := PurgeableRows(rows, key);
    if picked == [] {
      forall r | r in rows
        ensures !Purgeable(r, key)
      {
        assert r !in picked;
      }
    } else {
      assert picked[0] in picked;
      var receipt := NewRow(rows, NextId(rows), now, PURGE, key, None, Some(ReceiptDoc(picked)), meta);
      var appended := rows + [receipt];
      EmptyRowsMeaning(appended, picked, purgedAt);
      forall i | 0 <= i < |rows|
        ensures appended[i] in picked <==> Purgeable(rows[i], key)
      {
        assert rows[i] in rows;
      }
      forall item
        ensures item in receipt.after.value.purged <==> NamesPurgeable(rows, key, item)
      {
        ReceiptItemsMeaning(rows, key, item);
      }
      assert receipt !in picked;
    }
  }

  /** A purge empties, in place, the rows of its key that have a value and are no receipt, and leaves every other row. */
  lemma PurgeEmptiesRows(rows: seq<Row>, key: string, meta: Meta, now: Stamp, purgedAt: Stamp, i: nat)
    requires i < |rows| && forall a, b :: 0 <= a < b < |rows| ==> rows[a].id < rows[b].id
    ensures var after := PurgedLog(rows, key, meta, now, purgedAt);
      && |after| >= |rows|
      && after[i] == if rows[i].key == key && rows[i].op != "purge" && (rows[i].before.Some? || rows[i].after.Some?)
                     then rows[i].(before := None, after := None, meta := rows[i].meta.(purgedAt := Some(purgedAt)))
                     else rows[i]
  {
    hide SerialText, ReceiptJson, EmptyRows, NamesPurgeable, PurgedLog, RowDataHash;
    PurgedLogMeaning(rows, key, meta, now, purgedAt);
    assert rows[i] in rows;
  }

  /** Row i is one the purge of its key empties: then one receipt is chained on the head. */
  lemma PurgeAppendsReceipt(rows: seq<Row>, meta: Meta, now: Stamp, purgedAt: Stamp, i: nat)
    requires i < |rows| && rows[i].op != "purge" && (rows[i].before.Some? || rows[i].after.Some?)
    requires forall a, b :: 0 <= a < b < |rows| ==> rows[a].id < rows[b].id
    ensures var after := PurgedLog(rows, rows[i].key, meta, now, purgedAt);
      && |after| == |rows| + 1
      && var receipt := after[|rows|];
         && receipt.id == rows[|rows| - 1].id + 1 && receipt.stamp == now && receipt.op == "purge"
         && receipt.key == rows[i].key && receipt.before == None && receipt.after.Some?
         && receipt.after.value.text != "" && receipt.meta == meta
         && receipt.prevRoot == rows[|rows| - 1].root && receipt.root == Link(receipt.prevRoot, receipt.dataHash)
         && RowDataHash(receipt) == receipt.dataHash
  {
    hide SerialText, ReceiptJson, EmptyRows, PurgedLog;
    assert Purgeable(rows[i], rows[i].key) && rows[i] in rows;
    PurgeReceiptIs(rows, rows[i].key, meta, now, purgedAt);
  }

  /** With nothing of the key to empty a purge writes nothing at all. */
  lemma PurgeOfNothing(rows: seq<Row>, key: string, meta: Meta, now: Stamp, purgedAt: Stamp)
    requires forall i :: 0 <= i < |rows| && rows[i].key == key && rows[i].op != "purge" ==>
               rows[i].before == None && rows[i].after == None
    ensures PurgedLog(rows, key, meta, now, purgedAt) == rows
  {
    if PurgeableRows(rows, key) != [] {
      assert PurgeableRows(rows, key)[0] in PurgeableRows(rows, key);
    }
  }

  /** The receipt lists exactly the emptied rows, oldest first, each by its id and its data hash. */
  lemma PurgeReceiptNames(rows: seq<Row>, meta: Meta, now: Stamp, purgedAt: Stamp, i: nat, item: ReceiptItem)
    requires i < |rows| && rows[i].op != "purge" && (rows[i].before.Some? || rows[i].after.Some?)
    requires forall a, b :: 0 <= a < b < |rows| ==> rows[a].id < rows[b].id
    ensures var key := rows[i].key;
      var after := PurgedLog(rows, key, meta, now, purgedAt);
      && |after| == |rows| + 1 && after[|rows|].after.Some?
      && var items := after[|rows|].after.value.purged;
         && (item in items <==>
               exists j :: 0 <= j < |rows| && rows[j].key == key && rows[j].op != "purge" &&
                           (rows[j].before.Some? || rows[j].after.Some?) && item == ReceiptItem(rows[j].id, rows[j].dataHash))
         && forall a, b :: 0 <= a < b < |items| ==> items[a].ReceiptItem? && items[b].ReceiptItem? && items[a].id < items[b].id
  {
    hide SerialText, ReceiptJson, EmptyRows, PurgedLog, PurgeableRows;
    assert Purgeable(rows[i], rows[i].key) && rows[i] in rows;
    PurgeReceiptIs(rows, rows[i].key, meta, now, purgedAt);
    ReceiptItemsMeaning(rows, rows[i].key, item);
    PurgeableItems(rows, rows[i].key, item);
    PurgeableAscend(rows, rows[i].key);
  }

  lemma PurgeableItems(rows: seq<Row>, key: string, item: ReceiptItem)
    ensures NamesPurgeable(rows, key, item) <==>
            exists i :: 0 <= i < |rows| && rows[i].key == key && rows[i].op != "purge" &&
                        (rows[i].before.Some? || rows[i].after.Some?) && item == ReceiptItem(rows[i].id, rows[i].dataHash)
  {
    if NamesPurgeable(rows, key, item) {
      var r :| r in rows && Purgeable(r, key) && item == ReceiptItem(r.id, r.dataHash);
      var i :| 0 <= i < |rows| && rows[i] == r;
      assert rows[i].key == key && rows[i].op != "purge";
    }
    assert forall i :: 0 <= i < |rows| ==> rows[i] in rows;
  }

  lemma {:induction false} PurgeableAscend(rows: seq<Row>, key: string)
    requires Ascending(rows)
    ensures Ascending(PurgeableRows(rows, key))
    ensures forall r :: r in PurgeableRows(rows, key) ==> rows != [] && r.id <= rows[|rows| - 1].id
  {
    if rows != [] {
      PurgeableAscend(rows[..|rows| - 1], key);
    }
  }

  // The receipt is the row `log` writes on the stored head.
  lemma PurgeReceiptIs(rows: seq<Row>, key: string, meta: Meta, now: Stamp, purgedAt: Stamp)
    requires Ascending(rows) && exists r :: r in rows && Purgeable(r, key)
    ensures var after := PurgedLog(rows, key, meta, now, purgedAt);
      && |after| == |rows| + 1
      && after[|rows|] == NewRow(rows, NextId(rows), now, PURGE, key, None, Some(ReceiptDoc(PurgeableRows(rows, key))), meta)
  {
    hide SerialText, HeadRoot, ReceiptJson, EmptyRows;
    var picked := PurgeableRows(rows, key);
    var r :| r in rows && Purgeable(r, key);
    assert r in picked;
    var receipt := NewRow(rows, NextId(rows), now, PURGE, key, None, Some(ReceiptDoc(picked)), meta);
    EmptyRowsMeaning(rows + [receipt], picked, purgedAt);
    assert receipt !in picked;
  }

  // ---------------------------------------------------------------- replay

  predicate SetsKey(row: Row) {
    row.op == CREATE || row.op == UPDATE || row.op == CONSOLIDATE
  }

  predicate DropsKey(row: Row) {
    row.op == DELETE || row.op == FORGET
  }

  type Replayed = map<string, Option<Doc>>

  function LoadedAfter(row: Row): Option<Doc> {
    if row.after.Some? && row.after.value.text != "" then row.after else None
  }

  function ReplayRow(state: Replayed, row: Row): Replayed {
    if SetsKey(row) then state[row.key := LoadedAfter(row)] else if DropsKey(row) then state - {row.key} else state
  }

  /** The state at a time: every row stamped at or before it, in id order. */
  function StateAt(rows: seq<Row>, time: real): Replayed {
    if rows == [] then map[] else
      var state := StateAt(rows[..|rows| - 1], time);
      var last := rows[|rows| - 1];
      if last.stamp.at <= time then ReplayRow(state, last) else state
  }

  // The state after the last row.
  function Replay(rows: seq<Row>): Replayed {
    if rows == [] then map[] else ReplayRow(Replay(rows[..|rows| - 1]), rows[|rows| - 1])
  }

  lemma {:induction false} ReplayIsStateAtTheEnd(rows: seq<Row>, time: real)
    requires forall i :: 0 <= i < |rows| ==> rows[i].stamp.at <= time
    ensures StateAt(rows, time) == Replay(rows)
  {
    if rows != [] {
      ReplayIsStateAtTheEnd(rows[..|rows| - 1], time);
    }
  }

  /** At any time the newest row about a key, among those that create, change or remove entries, decides it alone. */
  lemma {:induction false} LastRowDecides(rows: seq<Row>, time: real, key: string, i: nat)
    requires i < |rows| && rows[i].key == key && rows[i].stamp.at <= time
    requires rows[i].op in {"create", "update", "consolidate", "delete", "forget"}
    requires forall j :: i < j < |rows| && rows[j].key == key && rows[j].stamp.at <= time ==>
               rows[j].op !in {"create", "update", "consolidate", "delete", "forget"}
    ensures if rows[i].op in {"delete", "forget"} then key !in StateAt(rows, time)
            else && key in StateAt(rows, time)
                 && StateAt(rows, time)[key] == if rows[i].after.Some? && rows[i].after.value.text != "" then rows[i].after else None
  {
    if i < |rows| - 1 {
      LastRowDecides(rows[..|rows| - 1], time, key, i);
    }
  }

  lemma {:induction false} UnwrittenKeyIsAbsent(rows: seq<Row>, time: real, key: string)
    requires forall j :: 0 <= j < |rows| && rows[j].key == key && rows[j].stamp.at <= time ==>
               rows[j].op !in {"create", "update", "consolidate"}
    ensures key !in StateAt(rows, time)
  {
    if rows != [] {
      UnwrittenKeyIsAbsent(rows[..|rows| - 1], time, key);
    }
  }

  /** Same keys, same values for every other key, and nothing left under the purged one. */
  ghost predicate OnlyForgot(key: string, before: Replayed, after: Replayed) {
    && after.Keys == before.Keys
    && (forall k :: k in before && k != key ==> after[k] == before[k])
    && (key in after ==> after[key] == None)
  }

  lemma {:induction false} EmptyingHidesOneKey(rows: seq<Row>, emptied: seq<Row>, key: string, time: real)
    requires |emptied| == |rows|
    requires forall i :: 0 <= i < |rows| ==>
               || emptied[i] == rows[i]
               || (rows[i].key == key && emptied[i] == rows[i].(before := None, after := None, meta := emptied[i].meta))
    requires forall i :: 0 <= i < |rows| && emptied[i].key == key && emptied[i].op != PURGE ==> Blank(emptied[i])
    ensures OnlyForgot(key, StateAt(rows, time), StateAt(emptied, time))
  {
    if rows != [] {
      var n := |rows| - 1;
      assert emptied[..n][..n] == emptied[..n];
      EmptyingHidesOneKey(rows[..n], emptied[..n], key, time);
    }
  }

  lemma EmptiedForKeyHidesOneKey(rows: seq<Row>, key: string, purgedAt: Stamp, after: seq<Row>, time: real)
    requires EmptiedForKey(rows, key, purgedAt, after)
    ensures OnlyForgot(key, StateAt(rows, time), StateAt(after[..|rows|], time))
  {
    var emptied := after[..|rows|];
    forall i | 0 <= i < |rows|
      ensures emptied[i] == rows[i] ||
              (rows[i].key == key && emptied[i] == rows[i].(before := None, after := None, meta := emptied[i].meta))
      ensures emptied[i].key == key && emptied[i].op != PURGE ==> Blank(emptied[i])
    {
      assert emptied[i] == after[i];
    }
    EmptyingHidesOneKey(rows, emptied, key, time);
  }

  lemma PurgeOutcomeHidesOneKey(rows: seq<Row>, key: string, purgedAt: Stamp, after: seq<Row>, time: real)
    requires PurgeOutcome(rows, key, purgedAt, after)
    ensures OnlyForgot(key, StateAt(rows, time), StateAt(after, time))
  {
    if forall r :: r in rows ==> !Purgeable(r, key) {
      assert forall i :: 0 <= i < |rows| ==> rows[i] in rows;
      EmptiedForKeyHidesOneKey(rows, key, purgedAt, rows, time);
      assert rows[..|rows|] == rows;
    } else {
      EmptiedForKeyHidesOneKey(rows, key, purgedAt, after, time);
      assert after[..|after| - 1] == after[..|rows|];
    }
  }

  /** Purging a key leaves the replay at every timestamp with the same keys and the same values for all other keys,
      and turns the purged key's value into None wherever the key is present. */
  lemma PurgeHidesOneKeyAtEveryTime(rows: seq<Row>, key: string, meta: Meta, now: Stamp, purgedAt: Stamp, time: real)
    requires Ascending(rows)
    ensures var before, after := StateAt(rows, time), StateAt(PurgedLog(rows, key, meta, now, purgedAt), time);
      && OnlyForgot(key, before, after)
      && (forall k :: k in after <==> k in before) && (forall k :: k in before && k != key ==> after[k] == before[k])
      && (key in after ==> after[key] == None)
  {
    hide PurgedLog, StateAt, PurgeOutcome;
    PurgedLogMeaning(rows, key, meta, now, purgedAt);
    PurgeOutcomeHidesOneKey(rows, key, purgedAt, PurgedLog(rows, key, meta, now, purgedAt), time);
  }

  // ---------------------------------------------------------------- the trail

  /** The `audit_log` table, shared by every process that opened it. */
  class AuditTable {
    var rows: seq<Row>

    constructor ()
      ensures rows == []
    {
      rows := [];
    }
  }

  /** One process's handle on the table, with the head it last saw. */
  class AuditTrail {
    const table: AuditTable
    var rootHash: Digest

    constructor (table: AuditTable)
      ensures this.table == table && rootHash == HeadRoot(table.rows)
    {
      this.table := table;
      rootHash := HeadRoot(table.rows);
    }

    /** Appends one row chained on the stored head; the cached head, stale or not, plays no part. */
    method Log(op: string, key: string, before: Option<Doc>, after: Option<Doc>, meta: Meta, now: Stamp)
      returns (entry: Row)
      modifies this`rootHash, table
      ensures var earlier := old(table.rows);
        && entry.id == (if earlier == [] then 1 else earlier[|earlier| - 1].id + 1)
        && entry.stamp == now && entry.op == op && entry.key == key && entry.before == before && entry.after == after
        && entry.prevRoot == (if earlier == [] then Genesis else earlier[|earlier| - 1].root)
        && entry.root == Link(entry.prevRoot, entry.dataHash) && entry.meta == meta
        && RowDataHash(entry) == entry.dataHash
      ensures entry == NewRow(old(table.rows), NextId(old(table.rows)), now, op, key, before, after, meta)
      ensures table.rows == old(table.rows) + [entry] && rootHash == entry.root == HeadRoot(table.rows)
    {
      var dataHash := OfText(SerialText(op, key, now, before, after));
      var prevRoot := if table.rows == [] then Genesis else table.rows[|table.rows| - 1].root;
      var newRoot := Link(prevRoot, dataHash);
      entry := Row(NextId(table.rows), now, op, key, before, after, dataHash, prevRoot, newRoot, meta);
      table.rows := table.rows + [entry];
      rootHash := newRoot;
    }

    method VerifyIntegrity() returns (report: ChainReport)
      ensures report.valid <==> ChainVerifies(table.rows)
      ensures report.valid <==> forall i :: 0 <= i < |table.rows| ==> RowVerifies(table.rows, i)
    {
      ghost var read;
      report, read := VerifyChain(table.rows);
    }

    method HasPurgeableRows(key: string) returns (found: bool)
      ensures found <==> exists r :: r in table.rows && Purgeable(r, key)
      ensures found <==> exists i {:trigger table.rows[i]} :: 0 <= i < |table.rows| && table.rows[i].key == key &&
                                     table.rows[i].op != "purge" && (table.rows[i].before.Some? || table.rows[i].after.Some?)
    {
      found := false;
      for i := 0 to |table.rows|
        invariant found <==> exists j :: 0 <= j < i && Purgeable(table.rows[j], key)
      {
        if Purgeable(table.rows[i], key) {
          assert table.rows[i] in table.rows[..i + 1];
          found := true;
        }
      }
      assert table.rows[..|table.rows|] == table.rows;
    }

    /** The receipt first, then the rows it names, one by one. */
    method PurgeKey(key: string, meta: Meta, now: Stamp, purgedAt: Stamp) returns (emptied: nat)
      modifies this`rootHash, table
      ensures table.rows == PurgedLog(old(table.rows), key, meta, now, purgedAt)
      ensures emptied == |PurgeableRows(old(table.rows), key)|
      ensures emptied == 0 ==> rootHash == old(rootHash)
      ensures emptied > 0 ==> |table.rows| == |old(table.rows)| + 1 && rootHash == HeadRoot(table.rows)
    {
      hide NewRow, ReceiptDoc, SerialText, EmptyRows;
      var picked := PurgeableRows(table.rows, key);
      if picked == [] {
        return 0;
      }
      var receipt := Log(PURGE, key, None, Some(ReceiptDoc(picked)), meta, now);
      EmptyEach(picked, purgedAt);
      emptied := |picked|;
    }

    // One UPDATE per selected row.
    method EmptyEach(picked: seq<Row>, purgedAt: Stamp)
      modifies table
      ensures table.rows == EmptyRows(old(table.rows), picked, purgedAt)
      ensures |table.rows| == |old(table.rows)| && HeadRoot(table.rows) == HeadRoot(old(table.rows))
    {
      for i := 0 to |picked|
        invariant table.rows == EmptyRows(old(table.rows), picked[..i], purgedAt)
        invariant |table.rows| == |old(table.rows)| && HeadRoot(table.rows) == HeadRoot(old(table.rows))
      {
        assert picked[..i + 1][..i] == picked[..i];
        table.rows := EmptyRow(table.rows, picked[i], purgedAt);
      }
      assert picked[..|picked|] == picked;
    }

    method GetStateAt(time: real) returns (state: Replayed)
      ensures state == StateAt(table.rows, time)
    {
      state := map[];
      for i := 0 to |table.rows|
        invariant state == StateAt(table.rows[..i], time)
      {
        assert table.rows[..i + 1][..i] == table.rows[..i];
        var r := table.rows[i];
        if r.stamp.at <= time {
          if r.op == CREATE || r.op == UPDATE || r.op == CONSOLIDATE {
            state := state[r.key := if r.after.Some? && r.after.value.text != "" then r.after else None];
          } else if r.op == DELETE || r.op == FORGET {
            state := state - {r.key};
          }
        }
      }
      assert table.rows[..|table.rows|] == table.rows;
    }

    method RefreshRootHash() returns (head: Digest)
      modifies this`rootHash
      ensures head == rootHash == HeadRoot(table.rows)
    {
      rootHash := HeadRoot(table.rows);
      head := rootHash;
    }
  }
}
