/** Any number of processes sharing one audit table: appends interleaved with the steps of purges, and crashes. */
module AuditProtocol {
  import opened Wrappers
  import opened Audit

  /** Where a process stands inside `purge_key`: the rows it selected, then the receipt it appended, then the rows it
      has emptied so far. */
  datatype Process = Idle | Selected(key: string, picked: seq<Row>) | Emptying(picked: seq<Row>, next: nat)

  datatype System = System(rows: seq<Row>, processes: map<nat, Process>, cachedRoots: map<nat, Digest>)

  const START := System([], map[], map[])

  function ProcessOf(s: System, p: nat): Process {
    if p in s.processes then s.processes[p] else Idle
  }

  datatype Step =
    // `log` of anything but a receipt: one transaction
    | Append(p: nat, id: int, now: Stamp, op: string, key: string, before: Option<Doc>, after: Option<Doc>, meta: Meta)
    | Select(p: nat, key: string)
    | AppendReceipt(p: nat, id: int, now: Stamp, meta: Meta)
    | EmptyNext(p: nat, purgedAt: Stamp)
    | RefreshRoot(p: nat)
    | Crash(p: nat)

  predicate Enabled(s: System, step: Step) {
    match step
    case Append(p, id, _, op, _, _, _, _) => ProcessOf(s, p).Idle? && op != PURGE && id >= NextId(s.rows)
    case Select(p, _) => ProcessOf(s, p).Idle?
    case AppendReceipt(p, id, _, _) => ProcessOf(s, p).Selected? && id >= NextId(s.rows)
    case EmptyNext(p, _) => ProcessOf(s, p).Emptying?
    case RefreshRoot(_) => true
    case Crash(_) => true
  }

  function WithRow(s: System, p: nat, row: Row, process: Process): System {
    System(s.rows + [row], s.processes[p := process], s.cachedRoots[p := row.root])
  }

  /** One step; a step that is not enabled changes nothing. */
  function Next(s: System, step: Step): System {
    if !Enabled(s, step) then s else
    match step
    case Append(p, id, now, op, key, before, after, meta) =>
      WithRow(s, p, NewRow(s.rows, id, now, op, key, before, after, meta), Idle)
    case Select(p, key) =>
      var picked := PurgeableRows(s.rows, key);
      s.(processes := s.processes[p := if picked == [] then Idle else Selected(key, picked)])
    case AppendReceipt(p, id, now, meta) =>
      var process := ProcessOf(s, p);
      var receipt := NewRow(s.rows, id, now, PURGE, process.key, None, Some(ReceiptDoc(process.picked)), meta);
      WithRow(s, p, receipt, Emptying(process.picked, 0))
    case EmptyNext(p, purgedAt) =>
      var process := ProcessOf(s, p);
      if process.next >= |process.picked| then s.(processes := s.processes[p := Idle]) else
        s.(rows := EmptyRow(s.rows, process.picked[process.next], purgedAt),
           processes := s.processes[p := process.(next := process.next + 1)])
    case RefreshRoot(p) => s.(cachedRoots := s.cachedRoots[p := HeadRoot(s.rows)])
    case Crash(p) => s.(processes := s.processes[p := Idle])
  }

  /** The steps one by one. Whether a step takes effect depends on where its own process stands, and on nothing the others
      do: appends and purges interleave freely. */
  lemma StepsAre(s: System, step: Step)
    ensures var own := if step.p in s.processes then s.processes[step.p] else Idle;
      var free := if s.rows == [] then 1 else s.rows[|s.rows| - 1].id + 1;
      Next(s, step) ==
      match step
      case Append(p, id, now, op, key, before, after, meta) =>
        if own.Idle? && op != "purge" && id >= free then
          var row := NewRow(s.rows, id, now, op, key, before, after, meta);
          System(s.rows + [row], s.processes[p := Idle], s.cachedRoots[p := row.root])
        else s
      case Select(p, key) =>
        if own.Idle? then
          var picked := PurgeableRows(s.rows, key);
          System(s.rows, s.processes[p := if picked == [] then Idle else Selected(key, picked)], s.cachedRoots)
        else s
      case AppendReceipt(p, id, now, meta) =>
        if own.Selected? && id >= free then
          var row := NewRow(s.rows, id, now, "purge", own.key, None, Some(ReceiptDoc(own.picked)), meta);
          System(s.rows + [row], s.processes[p := Emptying(own.picked, 0)], s.cachedRoots[p := row.root])
        else s
      case EmptyNext(p, purgedAt) =>
        if !own.Emptying? then s
        else if own.next >= |own.picked| then System(s.rows, s.processes[p := Idle], s.cachedRoots)
        else System(EmptyRow(s.rows, own.picked[own.next], purgedAt), s.processes[p := Emptying(own.picked, own.next + 1)],
                    s.cachedRoots)
      case RefreshRoot(p) => System(s.rows, s.processes, s.cachedRoots[p := if s.rows == [] then Genesis else s.rows[|s.rows| - 1].root])
      case Crash(p) => System(s.rows, s.processes[p := Idle], s.cachedRoots)
  {
    hide NewRow, PurgeableRows, ReceiptDoc, EmptyRow;
  }

  function Run(s: System, steps: seq<Step>): System {
    if steps == [] then s else Next(Run(s, steps[..|steps| - 1]), steps[|steps| - 1])
  }

  function After(steps: seq<Step>): System {
    Run(START, steps)
  }

  // ---------------------------------------------------------------- invariant

  predicate Intact(row: Row) {
    RowDataHash(row) == row.dataHash
  }

  // Row i is the one an item names, and it is not itself a receipt.
  ghost predicate IsTarget(rows: seq<Row>, i: int, item: ReceiptItem) {
    0 <= i < |rows| && item.ReceiptItem? && rows[i].id == item.id && rows[i].dataHash == item.dataHash && rows[i].op != PURGE
  }

  ghost predicate EmptiedLegally(rows: seq<Row>, i: nat)
    requires i < |rows|
  {
    Blank(rows[i]) && rows[i].op != PURGE && exists j :: i < j && Names(rows, j, rows[i].id, rows[i].dataHash)
  }

  ghost predicate RowSound(rows: seq<Row>, i: nat)
    requires i < |rows|
  {
    LinkedAt(rows, i) && rows[i].prevRoot == RootBefore(rows, i) && (Intact(rows[i]) || EmptiedLegally(rows, i))
  }

  // Every item of a receipt names an earlier row with that row's data hash.
  ghost predicate ReceiptSound(rows: seq<Row>, j: nat)
    requires j < |rows|
  {
    rows[j].op == PURGE ==>
      Intact(rows[j]) && IsReceipt(rows[j]) &&
      forall item :: item in rows[j].after.value.purged ==> exists i :: i < j && IsTarget(rows, i, item)
  }

  ghost predicate LogSound(rows: seq<Row>) {
    && Ascending(rows)
    && (forall i :: 0 <= i < |rows| ==> RowSound(rows, i))
    && (forall j :: 0 <= j < |rows| ==> ReceiptSound(rows, j))
  }

  ghost predicate ProcessSound(rows: seq<Row>, process: Process) {
    match process
    case Idle => true
    case Selected(_, picked) => forall r :: r in picked ==> exists i :: IsTarget(rows, i, ReceiptItem(r.id, r.dataHash))
    case Emptying(picked, _) => forall r :: r in picked ==> exists j :: Names(rows, j, r.id, r.dataHash)
  }

  ghost predicate Sound(s: System) {
    LogSound(s.rows) && forall p :: p in s.processes ==> ProcessSound(s.rows, s.processes[p])
  }

  // What no step changes about a row that is in the log, whatever happens later.
  ghost predicate Grown(a: seq<Row>, b: seq<Row>) {
    |a| <= |b| && forall i :: 0 <= i < |a| ==>
      || b[i] == a[i]
      || (a[i].op != PURGE && b[i] == a[i].(before := None, after := None, meta := b[i].meta))
  }

  lemma GrownKeepsNames(a: seq<Row>, b: seq<Row>, j: int, id: int, dataHash: Digest)
    requires Grown(a, b) && Names(a, j, id, dataHash)
    ensures Names(b, j, id, dataHash)
  {
    assert b[j] == a[j];
  }

  lemma GrownKeepsProcess(a: seq<Row>, b: seq<Row>, process: Process)
    requires Grown(a, b) && ProcessSound(a, process)
    ensures ProcessSound(b, process)
  {
    match process
    case Idle =>
    case Selected(_, picked) =>
      forall r | r in picked
        ensures exists i :: IsTarget(b, i, ReceiptItem(r.id, r.dataHash))
      {
        var i :| IsTarget(a, i, ReceiptItem(r.id, r.dataHash));
        assert IsTarget(b, i, ReceiptItem(r.id, r.dataHash));
      }
    case Emptying(picked, _) =>
      forall r | r in picked
        ensures exists j :: Names(b, j, r.id, r.dataHash)
      {
        var j :| Names(a, j, r.id, r.dataHash);
        GrownKeepsNames(a, b, j, r.id, r.dataHash);
      }
  }

  lemma GrownKeepsRow(a: seq<Row>, b: seq<Row>, i: nat)
    requires Grown(a, b) && i < |a| && RowSound(a, i) && ReceiptSound(a, i)
    requires b[i] == a[i] || exists j :: i < j && Names(a, j, a[i].id, a[i].dataHash)
    ensures RowSound(b, i)
    ensures ReceiptSound(b, i)
  {
    assert LinkedAt(b, i) && b[i].prevRoot == RootBefore(b, i) by {
      assert LinkedAt(a, i) && (i > 0 ==> b[i - 1].root == a[i - 1].root);
    }
    if b[i] != a[i] || !Intact(a[i]) {
      assert exists j :: i < j && Names(a, j, a[i].id, a[i].dataHash);
      var j :| i < j && Names(a, j, a[i].id, a[i].dataHash);
      GrownKeepsNames(a, b, j, a[i].id, a[i].dataHash);
      assert EmptiedLegally(b, i);
    }
    if a[i].op == PURGE {
      forall item | item in b[i].after.value.purged
        ensures exists k :: k < i && IsTarget(b, k, item)
      {
        var k :| k < i && IsTarget(a, k, item);
        assert IsTarget(b, k, item);
      }
    }
  }

  lemma AppendKeepsLogSound(rows: seq<Row>, row: Row)
    requires LogSound(rows) && row.id >= NextId(rows)
    requires row.prevRoot == HeadRoot(rows) && row.root == Link(HeadRoot(rows), row.dataHash) && Intact(row)
    requires row.op == PURGE ==> IsReceipt(row)
    requires row.op == PURGE ==> forall item :: item in row.after.value.purged ==> exists i :: IsTarget(rows, i, item)
    ensures LogSound(rows + [row]) && Grown(rows, rows + [row])
  {
    var b := rows + [row];
    var n := |rows|;
    forall i | 0 <= i < |b|
      ensures RowSound(b, i) && ReceiptSound(b, i)
    {
      if i < n {
        assert RowSound(rows, i) && ReceiptSound(rows, i);
        GrownKeepsRow(rows, b, i);
      } else {
        assert RootBefore(b, i) == HeadRoot(rows);
        if row.op == PURGE {
          forall item | item in row.after.value.purged
            ensures exists k :: k < i && IsTarget(b, k, item)
          {
            var k :| IsTarget(rows, k, item);
            assert IsTarget(b, k, item);
          }
        }
      }
    }
  }

  /** Emptying a row that some receipt names keeps the log sound: the row is older than the receipt. */
  lemma EmptyKeepsLogSound(rows: seq<Row>, selected: Row, purgedAt: Stamp, j: int)
    requires LogSound(rows) && Names(rows, j, selected.id, selected.dataHash)
    ensures LogSound(EmptyRow(rows, selected, purgedAt)) && Grown(rows, EmptyRow(rows, selected, purgedAt))
  {
    var b := EmptyRow(rows, selected, purgedAt);
    assert ReceiptSound(rows, j);
    var t :| t < j && IsTarget(rows, t, ReceiptItem(selected.id, selected.dataHash));
    assert forall i :: 0 <= i < |rows| && rows[i].id == selected.id ==> i == t;
    assert Grown(rows, b);
    forall i | 0 <= i < |b|
      ensures RowSound(b, i) && ReceiptSound(b, i)
    {
      assert RowSound(rows, i) && ReceiptSound(rows, i);
      GrownKeepsRow(rows, b, i);
    }
  }

  lemma SelectedRowsAreTargets(rows: seq<Row>, key: string)
    ensures ProcessSound(rows, Selected(key, PurgeableRows(rows, key)))
  {
    forall r | r in PurgeableRows(rows, key)
      ensures exists i :: IsTarget(rows, i, ReceiptItem(r.id, r.dataHash))
    {
      var i :| 0 <= i < |rows| && rows[i] == r;
      assert IsTarget(rows, i, ReceiptItem(r.id, r.dataHash));
    }
  }

  lemma NewReceiptNames(s: System, p: nat, receipt: Row)
    requires ProcessOf(s, p).Selected? && Sound(s)
    requires IsReceipt(receipt) && receipt.after.value == ReceiptDoc(ProcessOf(s, p).picked)
    ensures forall item :: item in receipt.after.value.purged ==> exists i :: IsTarget(s.rows, i, item)
    ensures ProcessSound(s.rows + [receipt], Emptying(ProcessOf(s, p).picked, 0))
  {
    var picked := ProcessOf(s, p).picked;
    assert ProcessSound(s.rows, s.processes[p]);
    forall item | item in receipt.after.value.purged
      ensures exists i :: IsTarget(s.rows, i, item)
    {
      var k :| 0 <= k < |picked| && ReceiptItems(picked)[k] == item;
      assert picked[k] in picked;
    }
    forall r | r in picked
      ensures exists j :: Names(s.rows + [receipt], j, r.id, r.dataHash)
    {
      var k :| 0 <= k < |picked| && picked[k] == r;
      assert ReceiptItems(picked)[k] == ReceiptItem(r.id, r.dataHash);
      assert Names(s.rows + [receipt], |s.rows|, r.id, r.dataHash);
    }
  }

  lemma StepSound(s: System, step: Step)
    requires Sound(s)
    ensures Sound(Next(s, step)) && Grown(s.rows, Next(s, step).rows)
  {
    hide RowSound, ReceiptSound, PurgeableRows, ReceiptDoc, SerialText, HeadRoot, Ascending, EmptyRow;
    var t := Next(s, step);
    if Enabled(s, step) {
      match step {
      case Append(p, id, now, op, key, before, after, meta) =>
        AppendKeepsLogSound(s.rows, NewRow(s.rows, id, now, op, key, before, after, meta));
      case Select(p, key) =>
        SelectedRowsAreTargets(s.rows, key);
      case AppendReceipt(p, id, now, meta) =>
        var receipt := t.rows[|s.rows|];
        NewReceiptNames(s, p, receipt);
        AppendKeepsLogSound(s.rows, receipt);
      case EmptyNext(p, purgedAt) =>
        var process := ProcessOf(s, p);
        if process.next < |process.picked| {
          var selected := process.picked[process.next];
          assert selected in process.picked && ProcessSound(s.rows, s.processes[p]);
          var j :| Names(s.rows, j, selected.id, selected.dataHash);
          EmptyKeepsLogSound(s.rows, selected, purgedAt, j);
          GrownKeepsProcess(s.rows, t.rows, process);
        }
      case RefreshRoot(_) =>
      case Crash(_) =>
      }
      forall q | q in s.processes
        ensures ProcessSound(t.rows, s.processes[q])
      {
        GrownKeepsProcess(s.rows, t.rows, s.processes[q]);
      }
    }
  }

  // ---------------------------------------------------------------- theorems over every run

  lemma {:induction false} EveryRunIsSound(steps: seq<Step>)
    ensures Sound(After(steps))
  {
    if steps != [] {
      EveryRunIsSound(steps[..|steps| - 1]);
      StepSound(After(steps[..|steps| - 1]), steps[|steps| - 1]);
    }
  }

  lemma SoundLogVerifies(rows: seq<Row>)
    requires LogSound(rows)
    ensures ChainVerifies(rows)
  {
    var targets := ReceiptTargets(rows);
    TargetsMeaning(rows);
    forall i | 0 <= i < |rows|
      ensures RowVerifies(rows, i)
    {
      assert RowSound(rows, i);
      if !Intact(rows[i]) {
        var id := rows[i].id;
        var j :| i < j && Names(rows, j, id, rows[i].dataHash);
        assert id in targets;
        var k :| Names(rows, k, id, targets[id].0) && rows[k].id == targets[id].1;
        assert ReceiptSound(rows, k);
        var t :| t < k && IsTarget(rows, t, ReceiptItem(id, targets[id].0));
        assert t == i;
      }
    }
  }

  /** However appends, purges and crashes interleave, the log verifies at every moment. Ids strictly increase, no
      receipt is ever emptied, and every item of every receipt names one earlier row with its unchanged data hash. */
  lemma EveryRunVerifies(steps: seq<Step>)
    ensures var rows := Run(System([], map[], map[]), steps).rows;
      && ChainVerifies(rows)
      && (forall i, j :: 0 <= i < j < |rows| ==> rows[i].id < rows[j].id)
      && (forall j :: 0 <= j < |rows| && rows[j].op == "purge" ==>
            RowDataHash(rows[j]) == rows[j].dataHash && rows[j].after.Some? && rows[j].after.value.text != "")
      && (forall j, item :: 0 <= j < |rows| && rows[j].op == "purge" && item in rows[j].after.value.purged ==>
            exists i :: 0 <= i < j && rows[i].op != "purge" && item == ReceiptItem(rows[i].id, rows[i].dataHash))
  {
    hide Run, ChainVerifies;
    EveryRunIsSound(steps);
    var rows := After(steps).rows;
    SoundLogVerifies(rows);
    forall j | 0 <= j < |rows| && rows[j].op == "purge"
      ensures RowDataHash(rows[j]) == rows[j].dataHash && rows[j].after.Some? && rows[j].after.value.text != ""
      ensures forall item :: item in rows[j].after.value.purged ==>
        exists i :: 0 <= i < j && rows[i].op != "purge" && item == ReceiptItem(rows[i].id, rows[i].dataHash)
    {
      assert ReceiptSound(rows, j);
      forall item | item in rows[j].after.value.purged
        ensures exists i :: 0 <= i < j && rows[i].op != "purge" && item == ReceiptItem(rows[i].id, rows[i].dataHash)
      {
        var i :| i < j && IsTarget(rows, i, item);
        assert rows[i].op != "purge" && item == ReceiptItem(rows[i].id, rows[i].dataHash);
      }
    }
  }

  lemma GrownTransitive(a: seq<Row>, b: seq<Row>, c: seq<Row>)
    requires Grown(a, b) && Grown(b, c)
    ensures Grown(a, c)
  {
    forall i | 0 <= i < |a|
      ensures c[i] == a[i] || (a[i].op != PURGE && c[i] == a[i].(before := None, after := None, meta := c[i].meta))
    {
      assert b[i] == a[i] || b[i].op == a[i].op;
    }
  }

  /** History is append-only along every run: a row keeps its id, key, operation, time, hashes and roots for ever, a
      receipt keeps everything, and values only ever change by being removed. */
  lemma HistoryOnlyGrows(earlier: seq<Step>, more: seq<Step>, i: nat)
    requires i < |After(earlier).rows|
    ensures i < |After(earlier + more).rows|
    ensures var before, after := After(earlier).rows[i], After(earlier + more).rows[i];
      && (after.id, after.stamp, after.op, after.key) == (before.id, before.stamp, before.op, before.key)
      && (after.dataHash, after.prevRoot, after.root) == (before.dataHash, before.prevRoot, before.root)
      && (after == before || (before.op != "purge" && after.before == None && after.after == None))
  {
    hide After;
    RunGrows(earlier, more);
  }

  lemma {:induction false} RunGrows(earlier: seq<Step>, more: seq<Step>)
    ensures Grown(After(earlier).rows, After(earlier + more).rows)
  {
    if more == [] {
      assert earlier + more == earlier;
    } else {
      var m := |more| - 1;
      RunGrows(earlier, more[..m]);
      var all := earlier + more;
      assert all[..|all| - 1] == earlier + more[..m];
      EveryRunIsSound(earlier + more[..m]);
      StepSound(After(earlier + more[..m]), more[m]);
      GrownTransitive(After(earlier).rows, After(earlier + more[..m]).rows, After(all).rows);
    }
  }

  /** A value still in the log at a key can be gone from every later state only because some receipt names its row. */
  lemma ValuesLeaveOnlyBehindReceipts(steps: seq<Step>, i: nat)
    requires i < |After(steps).rows| && After(steps).rows[i].dataHash != RowDataHash(After(steps).rows[i])
    ensures var rows := After(steps).rows;
      && rows[i].before == None && rows[i].after == None
      && exists j :: i < j < |rows| && rows[j].op == "purge" && rows[j].after.Some? && rows[j].after.value.text != "" &&
                     ReceiptItem(rows[i].id, rows[i].dataHash) in rows[j].after.value.purged
  {
    hide After, RowDataHash;
    EveryRunIsSound(steps);
    var rows := After(steps).rows;
    assert RowSound(rows, i);
    var j :| i < j && Names(rows, j, rows[i].id, rows[i].dataHash);
    assert rows[j].op == "purge" && rows[j].after.Some?;
  }

  /** A process's cached root may be behind the head, but it is always a root the chain once had. */
  lemma {:induction false} CachedRootsArePastHeads(steps: seq<Step>, p: nat)
    requires p in After(steps).cachedRoots
    ensures exists n: nat :: n <= |After(steps).rows| && After(steps).cachedRoots[p] == RootBefore(After(steps).rows, n)
  {
    var earlier := steps[..|steps| - 1];
    var before, after := After(earlier), After(steps);
    EveryRunIsSound(earlier);
    StepSound(before, steps[|steps| - 1]);
    if p in before.cachedRoots && after.cachedRoots[p] == before.cachedRoots[p] {
      CachedRootsArePastHeads(earlier, p);
      var n: nat :| n <= |before.rows| && before.cachedRoots[p] == RootBefore(before.rows, n);
      assert n > 0 ==> after.rows[n - 1].root == before.rows[n - 1].root;
      assert after.cachedRoots[p] == RootBefore(after.rows, n);
    } else {
      assert after.cachedRoots[p] == RootBefore(after.rows, |after.rows|);
    }
  }

  // ---------------------------------------------------------------- one process alone

  function EmptySteps(p: nat, n: nat, purgedAt: Stamp): seq<Step> {
    seq(n, _ => EmptyNext(p, purgedAt))
  }

  lemma {:induction false} EmptyStepsEmptyRows(s: System, p: nat, n: nat, purgedAt: Stamp)
    requires ProcessOf(s, p).Emptying? && ProcessOf(s, p).next == 0 && n <= |ProcessOf(s, p).picked|
    ensures var t := Run(s, EmptySteps(p, n, purgedAt));
      && t.rows == EmptyRows(s.rows, ProcessOf(s, p).picked[..n], purgedAt)
      && ProcessOf(t, p) == Emptying(ProcessOf(s, p).picked, n)
  {
    if n > 0 {
      EmptyStepsEmptyRows(s, p, n - 1, purgedAt);
      var steps := EmptySteps(p, n, purgedAt);
      assert steps[..n - 1] == EmptySteps(p, n - 1, purgedAt);
      var picked := ProcessOf(s, p).picked;
      assert picked[..n][..n - 1] == picked[..n - 1];
    }
  }

  lemma {:induction false} RunConcat(s: System, a: seq<Step>, b: seq<Step>)
    ensures Run(s, a + b) == Run(Run(s, a), b)
  {
    if b == [] {
      assert a + b == a;
    } else {
      assert (a + b)[..|a + b| - 1] == a + b[..|b| - 1];
      RunConcat(s, a, b[..|b| - 1]);
    }
  }

  /** `purge_key` run without interruption is one schedule of these steps, so everything proved of every schedule
      holds of `AuditTrail.PurgeKey`. */
  lemma UninterruptedPurge(s: System, p: nat, key: string, meta: Meta, now: Stamp, purgedAt: Stamp)
    requires ProcessOf(s, p).Idle?
    ensures var n := |PurgeableRows(s.rows, key)|;
      var steps := [Select(p, key), AppendReceipt(p, NextId(s.rows), now, meta)] + EmptySteps(p, n, purgedAt);
      Run(s, steps).rows == PurgedLog(s.rows, key, meta, now, purgedAt)
  {
    var picked := PurgeableRows(s.rows, key);
    var select, append := Select(p, key), AppendReceipt(p, NextId(s.rows), now, meta);
    RunConcat(s, [select, append], EmptySteps(p, |picked|, purgedAt));
    assert [select, append][..1] == [select];
    assert [select][..0] == [];
    var selected := Next(s, select);
    assert Run(s, [select]) == selected && Run(s, [select, append]) == Next(selected, append);
    if picked != [] {
      EmptyStepsEmptyRows(Next(selected, append), p, |picked|, purgedAt);
      assert picked[..|picked|] == picked;
    }
  }
}
