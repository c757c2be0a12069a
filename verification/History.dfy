/** One key's change history as src/bilinc/cloud/runtime.py shows it: newest first, bounded, and without any value the
    key had when it was last forgotten or earlier. */
module History {
  import opened Wrappers
  import opened Audit
  import opened Sequences

  /** How values are shown: whether at all, which columns hold JSON, and the two opaque readings of a stored state. */
  datatype View = View(showValues: bool, parses: Doc -> bool, render: Doc -> string, source: Doc -> Option<string>)

  datatype Record = Record(op: string, at: Stamp, reason: Option<string>, source: Option<string>,
                           purgedRows: Option<nat>, purged: bool, rolledBack: bool, redacted: bool,
                           before: Option<string>, after: Option<string>)

  predicate HasReason(row: Row) {
    row.meta.reason.Some? && row.meta.reason.value != ""
  }

  function Parsed(column: Option<Doc>, view: View): Option<Doc> {
    if column.Some? && view.parses(column.value) then column else None
  }

  // ---------------------------------------------------------------- specification

  /** The second half of a forget: the core's own row, found right after the reasoned one when reading newest first. */
  predicate IsSecondForget(rows: seq<Row>, i: nat)
    requires i < |rows|
  {
    rows[i].op == FORGET && !HasReason(rows[i]) && i > 0 && rows[i - 1].op == FORGET && HasReason(rows[i - 1])
  }

  // A FORGET among the first n rows: these are the newest ones.
  predicate ForgottenIn(rows: seq<Row>, n: nat)
    requires n <= |rows|
  {
    exists i :: 0 <= i < n && rows[i].op == FORGET
  }

  function ShownValue(column: Option<Doc>, row: Row, forgotten: bool, view: View): Option<string> {
    if Parsed(column, view).None? || !view.showValues || forgotten || row.op == FORGET then None
    else Some(view.render(column.value))
  }

  /** The public record of one row. */
  function RecordOf(row: Row, forgotten: bool, view: View): Record {
    var op := if row.meta.confirmed then "confirm" else row.op;
    if row.op == PURGE then
      Record(op, row.stamp, row.meta.reason, None,
             Some(if Parsed(row.after, view).Some? then |row.after.value.purged| else 0), false, false, false, None, None)
    else
      Record(op, row.stamp, row.meta.reason, if Parsed(row.after, view).Some? then view.source(row.after.value) else None,
             None, row.meta.purgedAt.Some?, row.meta.rollback, view.showValues && forgotten,
             ShownValue(row.before, row, forgotten, view), ShownValue(row.after, row, forgotten, view))
  }

  /** The records of the first n of newest-first rows. */
  ghost function Records(rows: seq<Row>, n: nat, view: View): seq<Record>
    requires n <= |rows|
  {
    if n == 0 then [] else
      Records(rows, n - 1, view) +
      (if IsSecondForget(rows, n - 1) then [] else [RecordOf(rows[n - 1], ForgottenIn(rows, n), view)])
  }

  /** Newest first, each row is one record, its values forgotten when it or a newer row is a FORGET; but a FORGET without a
      reason right behind one with a reason is none. */
  lemma RecordsRowByRow(rows: seq<Row>, n: nat, view: View)
    requires n < |rows|
    ensures Records(rows, 0, view) == []
    ensures var half := rows[n].op == "forget" && (rows[n].meta.reason == None || rows[n].meta.reason == Some("")) &&
                        n > 0 && rows[n - 1].op == "forget" &&
                        rows[n - 1].meta.reason != None && rows[n - 1].meta.reason != Some("");
      Records(rows, n + 1, view) ==
      if half then Records(rows, n, view)
      else Records(rows, n, view) + [RecordOf(rows[n], exists i :: 0 <= i <= n && rows[i].op == "forget", view)]
  {
    hide RecordOf;
    assert ForgottenIn(rows, n + 1) <==> exists i :: 0 <= i <= n && rows[i].op == "forget";
  }

  // ---------------------------------------------------------------- the loop

  method HistoryRecords(rows: seq<Row>, view: View) returns (records: seq<Record>)
    ensures records == Records(rows, |rows|, view)
  {
    hide RecordOf;
    records := [];
    var forgotten, previousWasReasonedForget := false, false;
    for i := 0 to |rows|
      invariant records == Records(rows, i, view)
      invariant forgotten == ForgottenIn(rows, i)
      invariant previousWasReasonedForget == (i > 0 && rows[i - 1].op == FORGET && HasReason(rows[i - 1]))
    {
      var row := rows[i];
      if row.op == FORGET {
        forgotten := true;
        if previousWasReasonedForget && !HasReason(row) {
          previousWasReasonedForget := false;
          continue;
        }
        previousWasReasonedForget := HasReason(row);
      } else {
        previousWasReasonedForget := false;
      }
      assert forgotten == ForgottenIn(rows, i + 1);
      var record := PublicRecord(row, forgotten, view);
      records := records + [record];
    }
  }

  method PublicRecord(row: Row, forgotten: bool, view: View) returns (record: Record)
    ensures record == RecordOf(row, forgotten, view)
    ensures record.op == (if row.meta.confirmed then "confirm" else row.op)
    ensures record.at == row.stamp && record.reason == row.meta.reason
    ensures var shown := row.after.Some? && view.parses(row.after.value);
      && record.source == (if shown && row.op != "purge" then view.source(row.after.value) else None)
      && record.purgedRows == (if row.op == "purge" then Some(if shown then |row.after.value.purged| else 0) else None)
    ensures record.purged <==> row.op != "purge" && row.meta.purgedAt.Some?
    ensures record.rolledBack <==> row.op != "purge" && row.meta.rollback
    ensures record.redacted <==> row.op != "purge" && view.showValues && forgotten
    ensures var open := view.showValues && !forgotten && row.op != "purge" && row.op != "forget";
      && record.before == (if open && row.before.Some? && view.parses(row.before.value) then Some(view.render(row.before.value)) else None)
      && record.after == (if open && row.after.Some? && view.parses(row.after.value) then Some(view.render(row.after.value)) else None)
  {
    var op := if row.meta.confirmed then "confirm" else row.op;
    var parsedBefore, parsedAfter := Parsed(row.before, view), Parsed(row.after, view);
    record := Record(op, row.stamp, row.meta.reason, None, None, false, false, false, None, None);
    if parsedAfter.Some? {
      record := record.(source := view.source(parsedAfter.value));
    }
    if row.op == PURGE {
      return record.(source := None, purgedRows := Some(if parsedAfter.Some? then |parsedAfter.value.purged| else 0));
    }
    if row.meta.purgedAt.Some? {
      record := record.(purged := true);
    }
    if row.meta.rollback {
      record := record.(rolledBack := true);
    }
    if view.showValues {
      if forgotten {
        record := record.(redacted := true);
      } else if row.op != FORGET {
        if parsedBefore.Some? {
          record := record.(before := Some(view.render(parsedBefore.value)));
        }
        if parsedAfter.Some? {
          record := record.(after := Some(view.render(parsedAfter.value)));
        }
      }
    }
  }

  // ---------------------------------------------------------------- the window

  lemma {:induction false} WindowRecords(rows: seq<Row>, w: nat, n: nat, view: View)
    requires n <= w <= |rows|
    ensures Records(rows[..w], n, view) == Records(rows, n, view)
  {
    if n > 0 {
      WindowRecords(rows, w, n - 1, view);
      assert rows[..w][n - 1] == rows[n - 1];
      assert n > 1 ==> rows[..w][n - 2] == rows[n - 2];
      assert forall i :: 0 <= i < n ==> rows[..w][i] == rows[i];
      assert ForgottenIn(rows[..w], n) == ForgottenIn(rows, n);
    }
  }

  /** No two rows in a row are second halves, so n rows hold at least half as many records. */
  lemma {:induction false} HalfAreRecords(rows: seq<Row>, n: nat, view: View)
    requires n <= |rows|
    ensures 2 * |Records(rows, n, view)| >= n
    ensures n > 0 && !IsSecondForget(rows, n - 1) ==> 2 * |Records(rows, n, view)| >= n + 1
  {
    if n > 0 {
      HalfAreRecords(rows, n - 1, view);
    }
  }

  lemma {:induction false} RecordsGrow(rows: seq<Row>, n: nat, m: nat, view: View)
    requires n <= m <= |rows|
    ensures Records(rows, n, view) <= Records(rows, m, view)
  {
    if n < m {
      RecordsGrow(rows, n, m - 1, view);
    }
  }

  /** Reading only the newest 2 * (bound + 1) rows gives the same page and the same `truncated` flag as reading all. */
  lemma WindowIsExact(rows: seq<Row>, bound: nat, view: View)
    ensures var window := Take(rows, 2 * (bound + 1));
      var seen, all := Records(window, |window|, view), Records(rows, |rows|, view);
      Take(seen, bound) == Take(all, bound) && (|seen| > bound <==> |all| > bound)
  {
    var w := 2 * (bound + 1);
    if w < |rows| {
      WindowRecords(rows, w, w, view);
      HalfAreRecords(rows, w, view);
      RecordsGrow(rows, w, |rows|, view);
    }
  }

  // ---------------------------------------------------------------- the request

  // `SELECT * FROM audit_log WHERE key = ? ORDER BY id DESC`; an empty key selects every row.
  function Newest(rows: seq<Row>, key: string): seq<Row> {
    if rows == [] then [] else
      var last := rows[|rows| - 1];
      (if key == "" || last.key == key then [last] else []) + Newest(rows[..|rows| - 1], key)
  }

  /** The rows of the key, latest first. */
  lemma {:induction false} NewestTurnsAround(a: seq<Row>, b: seq<Row>, key: string, row: Row)
    ensures Newest([row], key) == if key == "" || row.key == key then [row] else []
    ensures Newest(a + b, key) == Newest(b, key) + Newest(a, key)
  {
    assert [row][..0] == [];
    if b == [] {
      assert a + b == a;
    } else {
      var front, last := b[..|b| - 1], b[|b| - 1];
      var own := if key == "" || last.key == key then [last] else [];
      assert (a + b)[..|a + b| - 1] == a + front && (a + b)[|a + b| - 1] == last;
      NewestTurnsAround(a, front, key, row);
      assert Newest(a + b, key) == own + (Newest(front, key) + Newest(a, key));
      assert Newest(b, key) == own + Newest(front, key);
    }
  }

  lemma NewestStep(rows: seq<Row>, i: nat, key: string)
    requires i < |rows|
    ensures Newest(rows[..i + 1], key) == (if key == "" || rows[i].key == key then [rows[i]] else []) + Newest(rows[..i], key)
  {
    assert rows[..i + 1][..i] == rows[..i];
  }

  lemma NewestOfNone(key: string)
    ensures Newest([], key) == []
  {
  }

  method GetHistory(rows: seq<Row>, key: string, limit: nat) returns (found: seq<Row>)
    ensures found == Take(Newest(rows, key), limit)
  {
    hide Newest;
    found := [];
    var i := |rows|;
    assert rows[..i] == rows;
    while i > 0 && |found| < limit
      invariant 0 <= i <= |rows| && |found| <= limit
      invariant Newest(rows, key) == found + Newest(rows[..i], key)
    {
      i := i - 1;
      NewestStep(rows, i, key);
      if key == "" || rows[i].key == key {
        found := found + [rows[i]];
      }
    }
    NewestOfNone(key);
    if i == 0 {
      assert rows[..0] == [];
    }
  }

  datatype Page = Page(isStored: bool, entries: seq<Record>, truncated: bool)

  /** The page is the newest `bound` changes of the whole history, and `truncated` tells whether there are more; it is
      refused when it is too large, which a single change never is. */
  method History(rows: seq<Row>, stored: set<string>, key: string, limit: int, view: View, tooLarge: Page -> bool)
    returns (page: Option<Page>)
    ensures var all := Newest(rows, key);
      var records := Records(all, |all|, view);
      var bound := if limit < 1 then 1 else limit;
      var shown := if |records| > bound then records[..bound] else records;
      var whole := Page(key in stored, shown, |records| > bound);
      page == if |shown| > 1 && tooLarge(whole) then None else Some(whole)
  {
    var bound: nat := if limit < 1 then 1 else limit;
    var window := GetHistory(rows, key, 2 * (bound + 1));
    var records := HistoryRecords(window, view);
    WindowIsExact(Newest(rows, key), bound, view);
    var entries := Take(records, bound);
    page := Some(Page(key in stored, entries, |records| > bound));
    if |entries| > 1 && tooLarge(page.value) {
      page := None;
    }
  }

  // ---------------------------------------------------------------- what is never shown

  // Record r is the one of row i.
  ghost predicate Reports(rows: seq<Row>, n: nat, r: nat, i: nat, view: View)
    requires n <= |rows|
  {
    && r < |Records(rows, n, view)| && i < n && !IsSecondForget(rows, i)
    && Records(rows, n, view)[r] == RecordOf(rows[i], ForgottenIn(rows, i + 1), view)
  }

  lemma {:induction false} EveryRecordReportsARow(rows: seq<Row>, n: nat, r: nat, view: View) returns (i: nat)
    requires n <= |rows| && r < |Records(rows, n, view)|
    ensures Reports(rows, n, r, i, view)
  {
    if r < |Records(rows, n - 1, view)| {
      i := EveryRecordReportsARow(rows, n - 1, r, view);
    } else {
      i := n - 1;
    }
  }

  /** A record carries a value exactly when its row has one to show and neither it nor any newer row is a FORGET; so no
      record at or before the newest FORGET, and no PURGE record, ever carries one. */
  lemma NoForgottenValueIsShown(rows: seq<Row>, r: nat, view: View) returns (i: nat)
    requires r < |Records(rows, |rows|, view)|
    ensures i < |rows|
    ensures Records(rows, |rows|, view)[r] == RecordOf(rows[i], exists j :: 0 <= j <= i && rows[j].op == "forget", view)
    ensures var record := Records(rows, |rows|, view)[r];
      && (record.after.Some? <==> view.showValues && rows[i].op != PURGE && Parsed(rows[i].after, view).Some? &&
                                  forall j :: 0 <= j <= i ==> rows[j].op != FORGET)
      && (record.before.Some? <==> view.showValues && rows[i].op != PURGE && Parsed(rows[i].before, view).Some? &&
                                   forall j :: 0 <= j <= i ==> rows[j].op != FORGET)
  {
    i := EveryRecordReportsARow(rows, |rows|, r, view);
    assert ForgottenIn(rows, i + 1) <==> exists j :: 0 <= j <= i && rows[j].op == "forget";
  }

  lemma {:induction false} RowIsReported(rows: seq<Row>, n: nat, i: nat, view: View)
    requires i < n <= |rows|
    ensures (exists r: nat :: Reports(rows, n, r, i, view)) || (IsSecondForget(rows, i) && !IsSecondForget(rows, i - 1))
  {
    if !IsSecondForget(rows, i) {
      if i == n - 1 {
        assert Reports(rows, n, |Records(rows, n - 1, view)|, i, view);
      } else {
        RowIsReported(rows, n - 1, i, view);
        var r: nat :| Reports(rows, n - 1, r, i, view);
        assert Reports(rows, n, r, i, view);
      }
    }
  }

  /** Every row is reported, except the core's half of a forget whose reasoned half is reported just before it. */
  lemma EveryRowIsReported(rows: seq<Row>, i: nat, view: View)
    requires i < |rows|
    ensures var record := RecordOf(rows[i], exists j :: 0 <= j <= i && rows[j].op == "forget", view);
      record in Records(rows, |rows|, view) ||
      (&& rows[i].op == "forget" && (rows[i].meta.reason == None || rows[i].meta.reason == Some(""))
       && i > 0 && rows[i - 1].op == "forget" && rows[i - 1].meta.reason != None && rows[i - 1].meta.reason != Some("")
       && RecordOf(rows[i - 1], true, view) in Records(rows, |rows|, view))
  {
    hide RecordOf, Records;
    RowIsReported(rows, |rows|, i, view);
    assert ForgottenIn(rows, i + 1) <==> exists j :: 0 <= j <= i && rows[j].op == "forget";
    if IsSecondForget(rows, i) {
      RowIsReported(rows, |rows|, i - 1, view);
    }
  }
}
