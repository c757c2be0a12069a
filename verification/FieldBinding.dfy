/** Which fields of a row the data hash of src/bilinc/core/audit.py binds: it is taken of the fields joined by colons. */
module FieldBinding {
  import opened Audit
  import opened JsonText
  import opened Wrappers

  /** The rows show the same five hashed fields. */
  predicate SameFields(a: Row, b: Row) {
    && a.op == b.op && a.key == b.key && a.stamp.text == b.stamp.text
    && Show(a.before) == Show(b.before) && Show(a.after) == Show(b.after)
  }

  /** Some field of one row, with the colon that follows it, begins the same field of the other. */
  predicate SomeFieldRunsOn(a: Row, b: Row) {
    RunsOn(a.op, b.op) || RunsOn(a.key, b.key) || RunsOn(a.stamp.text, b.stamp.text) || RunsOn(Show(a.before), Show(b.before))
  }

  /** Rows with the same hashed text agree field by field exactly when no field of one, with a colon after it, begins that
      field of the other. */
  lemma HashedTextBindsFieldsExactly(a: Row, b: Row)
    requires Serialised(a) == Serialised(b)
    ensures var x, y, u, v := if a.before.Some? then a.before.value.text else "None", if b.before.Some? then b.before.value.text else "None",
                              if a.after.Some? then a.after.value.text else "None", if b.after.Some? then b.after.value.text else "None";
      a.op == b.op && a.key == b.key && a.stamp.text == b.stamp.text && x == y && u == v <==>
      && !(a.op + ":" <= b.op) && !(b.op + ":" <= a.op)
      && !(a.key + ":" <= b.key) && !(b.key + ":" <= a.key)
      && !(a.stamp.text + ":" <= b.stamp.text) && !(b.stamp.text + ":" <= a.stamp.text)
      && !(x + ":" <= y) && !(y + ":" <= x)
  {
    hide Serialised;
    FieldsRunOnOrAgree(a, b);
  }

  lemma FieldsRunOnOrAgree(a: Row, b: Row)
    requires Serialised(a) == Serialised(b)
    ensures SameFields(a, b) <==> !SomeFieldRunsOn(a, b)
  {
    hide RunsOn;
    var s, t := RestOfRow(a), RestOfRow(b);
    JoinsApart(a.op, s.0, b.op, t.0);
    if a.op == b.op {
      JoinsApart(a.key, s.1, b.key, t.1);
      if a.key == b.key {
        JoinsApart(a.stamp.text, s.2, b.stamp.text, t.2);
        if a.stamp.text == b.stamp.text {
          JoinsApart(Show(a.before), Show(a.after), Show(b.before), Show(b.after));
        }
      }
    }
  }

  // What follows the operation, the key and the timestamp in the hashed text.
  function RestOfRow(a: Row): (rest: (string, string, string))
    ensures Serialised(a) == a.op + ":" + rest.0
    ensures rest.0 == a.key + ":" + rest.1
    ensures rest.1 == a.stamp.text + ":" + rest.2
    ensures rest.2 == Show(a.before) + ":" + Show(a.after)
  {
    var columns := Show(a.before) + ":" + Show(a.after);
    var stamped := a.stamp.text + ":" + columns;
    var keyed := a.key + ":" + stamped;
    assert Serialised(a) == a.op + ":" + keyed;
    (keyed, stamped, columns)
  }

  ghost predicate IsJsonColumn(column: Option<Doc>) {
    column.Some? ==> exists j :: column.value.text == Dumps(j)
  }

  /** A row in the form `log` writes: a plain operation and number, values as `json.dumps` writes them, and any key. */
  ghost predicate IsWritten(row: Row) {
    Plain(row.op) && Plain(row.stamp.text) && IsJsonColumn(row.before) && IsJsonColumn(row.after)
  }

  /** What the trail appends has that form: a row of JSON values, and a purge's receipt. */
  lemma TrailWrites(rows: seq<Row>, now: Stamp, op: string, key: string, before: Option<Doc>, after: Option<Doc>, meta: Meta)
    requires Plain(op) && Plain(now.text) && IsJsonColumn(before) && IsJsonColumn(after)
    ensures IsWritten(NewRow(rows, NextId(rows), now, op, key, before, after, meta))
    ensures IsWritten(NewRow(rows, NextId(rows), now, PURGE, key, None, Some(ReceiptDoc(PurgeableRows(rows, key))), meta))
  {
    hide Dumps;
    assert IsJsonColumn(Some(ReceiptDoc(PurgeableRows(rows, key))));
  }

  lemma WrittenColumn(column: Option<Doc>)
    requires IsJsonColumn(column)
    ensures Enclosed(Show(column)) && (Show(column) == "None" <==> column.None?)
  {
    hide Enclosed;
    if column.None? {
      WordsArePlain();
      PlainIsEnclosed("None");
    } else {
      var j :| column.value.text == Dumps(j);
      DumpsIsEnclosed(j);
      DumpsIsNotNone(j);
    }
  }

  /** The hashed text of a row in the form `log` writes gives back every field, whatever colons the key and the values hold. */
  lemma WrittenFieldsAreBound(a: Row, b: Row)
    requires IsWritten(a) && IsWritten(b) && Serialised(a) == Serialised(b)
    ensures a.op == b.op && a.key == b.key && a.stamp.text == b.stamp.text
    ensures a.before.Some? && b.before.Some? ==> a.before.value.text == b.before.value.text
    ensures a.after.Some? && b.after.Some? ==> a.after.value.text == b.after.value.text
    ensures (a.before.None? <==> b.before.None?) && (a.after.None? <==> b.after.None?)
  {
    hide Enclosed, RunsOn, Plain, IsJsonColumn;
    WrittenColumn(a.before);
    WrittenColumn(a.after);
    WrittenColumn(b.before);
    WrittenColumn(b.after);
    PlainIsEnclosed(a.op);
    PlainIsEnclosed(b.op);
    PlainIsEnclosed(a.stamp.text);
    PlainIsEnclosed(b.stamp.text);
    var s, t := RestOfRow(a), RestOfRow(b);
    EnclosedDoNotRunOn(a.op, b.op);
    JoinsApart(a.op, s.0, b.op, t.0);
    JoinedRest(a);
    JoinedRest(b);
    NameAndTextsComeBack(a.key, a.stamp.text, Show(a.before), Show(a.after), b.key, b.stamp.text, Show(b.before), Show(b.after));
  }

  lemma JoinedRest(a: Row)
    ensures RestOfRow(a).0 == a.key + ":" + Joined(a.stamp.text, Show(a.before), Show(a.after))
  {
    assert RestOfRow(a).1 == Joined(a.stamp.text, Show(a.before), Show(a.after));
  }

  /** Two logs that verify and end in one root agree in the fields of a row that shows its hashed text in both exactly when
      no field of one runs on into that of the other; in particular wherever both rows have the form `log` writes. */
  lemma RootBindsFields(a: seq<Row>, b: seq<Row>, i: nat)
    requires ChainVerifies(a) && ChainVerifies(b) && HeadRoot(a) == HeadRoot(b)
    requires i < |a|
    ensures |a| == |b|
    ensures RowDataHash(a[i]) == a[i].dataHash && RowDataHash(b[i]) == b[i].dataHash ==>
      && (SameFields(a[i], b[i]) <==> !SomeFieldRunsOn(a[i], b[i]))
      && (IsWritten(a[i]) && IsWritten(b[i]) ==>
            && a[i].op == b[i].op && a[i].key == b[i].key && a[i].stamp.text == b[i].stamp.text
            && (if a[i].before.Some? then b[i].before.Some? && a[i].before.value.text == b[i].before.value.text else b[i].before == None)
            && (if a[i].after.Some? then b[i].after.Some? && a[i].after.value.text == b[i].after.value.text else b[i].after == None))
  {
    hide ChainVerifies, SameFields, SomeFieldRunsOn, IsWritten, HeadRoot, ReceiptTargets, Serialised;
    RootBindsLog(a, b);
    if RowDataHash(a[i]) == a[i].dataHash && RowDataHash(b[i]) == b[i].dataHash {
      FieldsRunOnOrAgree(a[i], b[i]);
      if IsWritten(a[i]) && IsWritten(b[i]) {
        WrittenFieldsAreBound(a[i], b[i]);
      }
    }
  }

  /** The condition can fail: moving the colon between the values of a row `log` wrote leaves a log that verifies, with
      the same root and other values. */
  lemma RootDoesNotBindFields()
    ensures exists a: Row, b: Row ::
              && IsWritten(a) && a == NewRow([], 1, a.stamp, a.op, a.key, a.before, a.after, a.meta)
              && ChainVerifies([a]) && ChainVerifies([b]) && HeadRoot([a]) == HeadRoot([b])
              && Show(a.before) != Show(b.before) && Show(a.after) != Show(b.after)
  {
    hide IsWritten, ChainVerifies, Dumps;
    var meta := Meta(None, false, false, None);
    var before, after := Doc(Dumps(Text("x:y")), []), Doc(Dumps(Text("z")), []);
    var a := NewRow([], 1, Stamp("1.0", 1.0), UPDATE, "k", Some(before), Some(after), meta);
    var b := a.(before := Some(Doc("\"x", [])), after := Some(Doc("y\":\"z\"", [])));
    StringsAsWritten();
    MovedColon("\"x", "y\"", "\"z\"", a);
    assert "\"x" + ":" + "y\"" == "\"x:y\"" && "y\"" + ":" + "\"z\"" == "y\":\"z\"";
    OneRowVerifies(a);
    OneRowVerifies(b);
    assert IsWritten(a) by { WrittenByLog(a, Text("x:y"), Text("z")); }
    assert |Show(a.before)| == 5 && |Show(b.before)| == 2 && |Show(a.after)| == 3 && |Show(b.after)| == 6;
  }

  lemma StringsAsWritten()
    ensures Dumps(Text("x:y")) == "\"x:y\"" && Dumps(Text("z")) == "\"z\""
  {
    assert EscapeAll("x:y") == "x:y" && EscapeAll("z") == "z";
  }

  lemma WrittenByLog(a: Row, before: Json, after: Json)
    requires a.op == UPDATE && a.stamp.text == "1.0"
    requires a.before.Some? && a.before.value.text == Dumps(before) && a.after.Some? && a.after.value.text == Dumps(after)
    ensures IsWritten(a)
  {
    hide Dumps;
  }

  lemma OneRowVerifies(a: Row)
    requires RowDataHash(a) == a.dataHash && a.root == Link(Genesis, a.dataHash)
    ensures ChainVerifies([a]) && HeadRoot([a]) == a.root
  {
    assert RowVerifies([a], 0);
  }

  // The same three pieces, joined, whichever two of them make one column.
  lemma MovedColon(x: string, y: string, z: string, row: Row)
    ensures SerialText(row.op, row.key, row.stamp, Some(Doc(x + ":" + y, [])), Some(Doc(z, []))) ==
            SerialText(row.op, row.key, row.stamp, Some(Doc(x, [])), Some(Doc(y + ":" + z, [])))
  {
    var front := row.op + ":" + row.key + ":" + row.stamp.text + ":";
    assert front + (x + ":" + y) + ":" + z == front + x + ":" + (y + ":" + z);
  }
}
