/** The rules of an indexing pass of src/bilinc/embeddings/daemon.py, each told from the scanned rows, the table, the waiting
    keys and the encoder's answers alone. */
module IndexingRules {
  import opened Wrappers
  import opened KeyOrder
  import opened Sequences
  import opened EmbeddingIndex

  // ---------------------------------------------------------------- what is wanted

  lemma {:induction false} WantedUpTo(c: Config, rows: Rows, n: nat, j: nat)
    requires j < n <= |rows| && forall a, b :: 0 <= a < b < |rows| ==> rows[a].0 != rows[b].0
    ensures rows[j].0 in Wanted(c, rows, n) <==> c.inScope(rows[j].0) && rows[j].1 != ""
    ensures rows[j].0 in Wanted(c, rows, n) ==> Wanted(c, rows, n)[rows[j].0] == rows[j].1
  {
    if j < n - 1 {
      WantedUpTo(c, rows, n - 1, j);
    } else {
      NotYetWanted(c, rows, n - 1, rows[j].0);
    }
  }

  lemma {:induction false} WantedIsScanned(c: Config, rows: Rows, n: nat, k: string)
    requires n <= |rows| && k in Wanted(c, rows, n)
    ensures exists j :: 0 <= j < n && rows[j].0 == k
  {
    if k != rows[n - 1].0 {
      WantedIsScanned(c, rows, n - 1, k);
    }
  }

  /** Wanted are the scanned memories in scope that have a text, with that text, and no others. */
  lemma WantedIs(c: Config, rows: Rows, j: nat, k: string)
    requires j < |rows| && forall a, b :: 0 <= a < b < |rows| ==> rows[a].0 != rows[b].0
    ensures rows[j].0 in AllWanted(c, rows) <==> c.inScope(rows[j].0) && rows[j].1 != ""
    ensures rows[j].0 in AllWanted(c, rows) ==> AllWanted(c, rows)[rows[j].0] == rows[j].1
    ensures k in AllWanted(c, rows) ==> exists i :: 0 <= i < |rows| && rows[i].0 == k
  {
    WantedUpTo(c, rows, |rows|, j);
    if k in AllWanted(c, rows) {
      WantedIsScanned(c, rows, |rows|, k);
    }
  }

  /** To do, each once: the wanted keys whose stored fingerprint is not that of their text, apart from those that wait after
      a failure on that very text. */
  lemma ToDoIs(c: Config, s: Index, i: Inputs, k: string)
    requires forall a, b :: 0 <= a < b < |i.rows| ==> i.rows[a].0 != i.rows[b].0
    ensures var wanted, todo := AllWanted(c, i.rows), TodoOf(c, s, i);
      && (k in todo <==>
           && k in wanted && !((k, c.model) in s.table && s.table[(k, c.model)].sha == wanted[k])
           && !(k in s.failed && s.failed[k].sha == wanted[k] && s.failed[k].notBefore > i.now))
      && forall a, b :: 0 <= a < b < |todo| ==> todo[a] != todo[b]
  {
    hide Todo, Wanted, IndexedShas, TodoOf;
    assert DistinctKeys(i.rows);
    TodoKeys(c, s, i, k);
  }

  // ---------------------------------------------------------------- attempts

  /** One attempt: vectors are kept with the text they are of and end the key's wait; a rejection makes it wait and is the
      last of the pass when it is the third in a row; an outage ends the pass and says nothing about the key. */
  lemma OneAttempt(p: Progress, key: string, text: string, result: Encoding, at: real)
    ensures var q := TryKey(p, key, text, result, at);
      match result
      case Vectors(v) => q == Progress(p.embedded + [Embedded(key, text, v)], p.failed - {key}, p.tried + 1, 0, false)
      case Outage => q == Progress(p.embedded, p.failed, p.tried, p.inARow, true)
      case Rejected =>
        && q.embedded == p.embedded && q.tried == p.tried + 1 && q.inARow == p.inARow + 1
        && (q.stopped <==> p.inARow >= 2)
        && key in q.failed && q.failed[key].sha == text && q.failed[key].notBefore == at + q.failed[key].delay
        && q.failed - {key} == p.failed - {key}
  {
    if result.Rejected? {
      assert p.failed[key := Failure(text, at + Delay(p.failed, key), Delay(p.failed, key))] - {key} == p.failed - {key};
    }
  }

  /** The wait after the n-th rejection in a row: one minute, doubled each time up to an hour. */
  lemma {:induction false} BackoffDoubles(attempts: seq<Progress>, key: string, text: string, at: nat -> real, n: nat)
    requires 1 <= n < |attempts| && key !in attempts[0].failed
    requires forall j: nat :: j + 1 < |attempts| ==> attempts[j + 1] == TryKey(attempts[j], key, text, Rejected, at(j))
    ensures key in attempts[n].failed
    ensures attempts[n].failed[key].delay ==
            if n == 1 then 60.0 else if n == 2 then 120.0 else if n == 3 then 240.0 else if n == 4 then 480.0
            else if n == 5 then 960.0 else if n == 6 then 1920.0 else 3600.0
  {
    assert attempts[n - 1 + 1] == TryKey(attempts[n - 1], key, text, Rejected, at(n - 1));
    if n > 1 {
      BackoffDoubles(attempts, key, text, at, n - 1);
    }
  }

  /** The pass encodes the keys in order, each with its text, its own attempt and its own time, until it stops. */
  lemma EncodesInOrder(batch: seq<string>, n: nat, wanted: map<string, string>, failed: Failures, i: Inputs)
    requires n < |batch| && forall k :: k in batch ==> k in wanted
    ensures Encoded(batch, 0, wanted, failed, i) == Progress([], failed, 0, 0, false)
    ensures var p := Encoded(batch, n, wanted, failed, i);
      Encoded(batch, n + 1, wanted, failed, i) ==
      if p.stopped then p
      else TryKey(p, batch[n], wanted[batch[n]], i.encode(p.tried, wanted[batch[n]]), i.clock(p.tried))
  {
    hide TryKey;
  }

  // ---------------------------------------------------------------- what a pass leaves

  /** Whatever was edited or forgotten while a pass was encoding, it writes vectors only for the text that is stored when
      it takes the write lock, and those are what the encoder made of that very text. */
  lemma WritesOnlyCurrentText(c: Config, s: Index, i: Inputs, p: (string, string))
    requires forall a, b :: 0 <= a < b < |i.rows| ==> i.rows[a].0 != i.rows[b].0
    requires p in Pass(c, s, i).table
    ensures p.1 == c.model && p.0 in AllWanted(c, i.rows)
    ensures var stored := Pass(c, s, i).table[p];
      || (p in s.table && s.table[p] == stored)
      || (&& p.0 in i.current && i.current[p.0] == stored.sha
          && exists attempt: nat :: i.encode(attempt, stored.sha) == Vectors(stored.vectors))
  {
    hide Pass;
    PassIsSafe(c, s, i, p);
    OnlyWantedStay(c, s, i);
    assert p in Pass(c, s, i).table.Keys;
  }

  /** A wanted key keeps its vectors unless it was embedded from the text still stored, and then those are up to date. */
  lemma KeptOrUpdated(c: Config, s: Index, i: Inputs, k: string)
    requires forall a, b :: 0 <= a < b < |i.rows| ==> i.rows[a].0 != i.rows[b].0
    requires k in AllWanted(c, i.rows)
    ensures var p, before, after := (k, c.model), s.table, Pass(c, s, i).table;
      || ((p in after <==> p in before) && (p in after ==> after[p] == before[p]))
      || exists e :: e in ProgressOf(c, s, i).embedded && e.key == k && e.sha == AllWanted(c, i.rows)[k]
    ensures (exists e :: e in ProgressOf(c, s, i).embedded && e.key == k) && k in i.current && i.current[k] == AllWanted(c, i.rows)[k] ==>
      var after := Pass(c, s, i).table; (k, c.model) in after && after[(k, c.model)].sha == AllWanted(c, i.rows)[k]
  {
    hide Pass, ProgressOf, Tallied;
    TableAfterPass(c, s, i, k);
    PassEmbeds(c, s, i);
  }

  lemma PassEmbeds(c: Config, s: Index, i: Inputs)
    requires DistinctKeys(i.rows)
    ensures forall e :: e in ProgressOf(c, s, i).embedded ==> e.key in AllWanted(c, i.rows) && e.sha == AllWanted(c, i.rows)[e.key]
  {
    hide ProgressOf, TodoOf, Wanted;
    PassTallied(c, s, i);
  }

  /** No key ever waits to retry a text its vectors already are of: true of a new daemon, and kept by every pass. */
  lemma NoRetryOfIndexedText(c: Config, s: Index, i: Inputs, k: string)
    requires forall a, b :: 0 <= a < b < |i.rows| ==> i.rows[a].0 != i.rows[b].0
    requires forall j :: j in s.failed ==> !((j, c.model) in s.table && s.table[(j, c.model)].sha == s.failed[j].sha)
    ensures var t := Pass(c, s, i);
      k in t.failed ==> !((k, c.model) in t.table && t.table[(k, c.model)].sha == t.failed[k].sha)
  {
    hide Pass;
    PassKeepsFailuresNotIndexed(c, s, i);
    if k in Pass(c, s, i).failed {
      assert !UpToDate(Pass(c, s, i).table, c.model, k, Pass(c, s, i).failed[k].sha);
    }
  }

  /** With no concurrent writer, the count a pass reports is exactly the number of wanted memories whose vectors are up to
      date, failures, backoff and outages included. */
  lemma ReportCountsUpToDate(c: Config, s: Index, i: Inputs)
    requires forall a, b :: 0 <= a < b < |i.rows| ==> i.rows[a].0 != i.rows[b].0
    requires forall j :: j in s.failed ==> !((j, c.model) in s.table && s.table[(j, c.model)].sha == s.failed[j].sha)
    requires forall k :: k in AllWanted(c, i.rows) ==> k in i.current && i.current[k] == AllWanted(c, i.rows)[k]
    ensures var wanted, t := AllWanted(c, i.rows), Pass(c, s, i).table;
      PassReport(c, s, i).indexed == |set k | k in wanted && (k, c.model) in t && t[(k, c.model)].sha == wanted[k]|
  {
    hide Pass, PassReport, Wanted;
    ReportedCountIsExact(c, s, i);
    var wanted, t := AllWanted(c, i.rows), Pass(c, s, i).table;
    assert UpToDateKeys(t, c.model, wanted) == set k | k in wanted && (k, c.model) in t && t[(k, c.model)].sha == wanted[k];
  }

  /** Without edits and failures, once the keys that wait from before may be tried again, n passes of `keys_per_pass` keys
      make the index exactly the wanted texts when no more of them are behind: each key with its own fingerprint, and no
      other. */
  lemma IndexBecomesTheTexts(c: Config, s: Index, rows: Rows, run: seq<Inputs>, n: nat)
    requires forall a, b :: 0 <= a < b < |rows| ==> rows[a].0 != rows[b].0
    requires forall j :: j in s.failed ==> !((j, c.model) in s.table && s.table[(j, c.model)].sha == s.failed[j].sha)
    requires 0 < n <= |run| && forall j :: 0 <= j < |run| ==> run[j].rows == rows
    requires forall j, k :: 0 <= j < |run| && k in AllWanted(c, rows) ==>
               k in run[j].current && run[j].current[k] == AllWanted(c, rows)[k]
    requires forall j, attempt: nat, text: string :: 0 <= j < |run| ==> run[j].encode(attempt, text).Vectors?
    requires forall j, k :: 0 <= j < |run| && k in s.failed ==> s.failed[k].notBefore <= run[j].now
    requires var wanted := AllWanted(c, rows);
      n * c.keysPerPass >= |set k | k in wanted && !((k, c.model) in s.table && s.table[(k, c.model)].sha == wanted[k])|
    ensures var wanted, t := AllWanted(c, rows), Passes(c, s, rows, run, n).table;
      forall k :: (k, c.model) in t.Keys <==> k in wanted
    ensures var wanted, t := AllWanted(c, rows), Passes(c, s, rows, run, n).table;
      forall k :: k in wanted && (k, c.model) in t.Keys ==> t[(k, c.model)].sha == wanted[k]
  {
    hide Passes, Wanted, Ripe, Undisturbed, IndexedShas;
    var wanted, t := AllWanted(c, rows), Passes(c, s, rows, run, n).table;
    RunIsUndisturbed(c, s, rows, run);
    assert wanted.Keys - UpToDateKeys(s.table, c.model, wanted) ==
           set k | k in wanted && !((k, c.model) in s.table && s.table[(k, c.model)].sha == wanted[k]);
    PassesConverge(c, s, rows, run, n);
    forall k
      ensures (k, c.model) in t.Keys <==> k in wanted
      ensures k in wanted && (k, c.model) in t.Keys ==> t[(k, c.model)].sha == wanted[k]
    {
      IndexedMeaning(t, c.model, k, if k in wanted then wanted[k] else "");
    }
  }

  lemma RunIsUndisturbed(c: Config, s: Index, rows: Rows, run: seq<Inputs>)
    requires forall j :: 0 <= j < |run| ==> run[j].rows == rows
    requires forall j, k :: 0 <= j < |run| && k in AllWanted(c, rows) ==>
               k in run[j].current && run[j].current[k] == AllWanted(c, rows)[k]
    requires forall j, attempt: nat, text: string :: 0 <= j < |run| ==> run[j].encode(attempt, text).Vectors?
    requires forall j, k :: 0 <= j < |run| && k in s.failed ==> s.failed[k].notBefore <= run[j].now
    ensures Undisturbed(c, rows, run) && forall j :: 0 <= j < |run| ==> Ripe(s, run[j])
  {
  }

  /** And each pass on the way leaves exactly `keys_per_pass` fewer of them behind. */
  lemma EachPassShrinksTheBacklog(c: Config, s: Index, i: Inputs)
    requires forall a, b :: 0 <= a < b < |i.rows| ==> i.rows[a].0 != i.rows[b].0
    requires forall j :: j in s.failed ==> !((j, c.model) in s.table && s.table[(j, c.model)].sha == s.failed[j].sha)
    requires forall k :: k in AllWanted(c, i.rows) ==> k in i.current && i.current[k] == AllWanted(c, i.rows)[k]
    requires forall attempt: nat, text: string :: i.encode(attempt, text).Vectors?
    requires forall k :: k in s.failed ==> s.failed[k].notBefore <= i.now
    ensures var wanted, before, after := AllWanted(c, i.rows), s.table, Pass(c, s, i).table;
      var behind := |set k | k in wanted && !((k, c.model) in before && before[(k, c.model)].sha == wanted[k])|;
      |set k | k in wanted && !((k, c.model) in after && after[(k, c.model)].sha == wanted[k])| ==
      if behind <= c.keysPerPass then 0 else behind - c.keysPerPass
  {
    hide Pass, Wanted;
    PassShrinksBacklog(c, s, i);
    BehindIs(c, s, i);
    BehindIs(c, Pass(c, s, i), i);
  }

  lemma BehindIs(c: Config, s: Index, i: Inputs)
    ensures var wanted := AllWanted(c, i.rows);
      Behind(c, s, i) == set k | k in wanted && !((k, c.model) in s.table && s.table[(k, c.model)].sha == wanted[k])
  {
  }

  // The places, up to n, of what was embedded from a text still stored.
  ghost function StillCurrent(embedded: seq<Embedded>, n: nat, current: map<string, string>): set<int>
    requires n <= |embedded|
  {
    set j | 0 <= j < n && embedded[j].key in current && current[embedded[j].key] == embedded[j].sha
  }

  lemma StillCurrentNext(embedded: seq<Embedded>, n: nat, current: map<string, string>)
    requires n < |embedded|
    ensures StillCurrent(embedded, 0, current) == {} && n !in StillCurrent(embedded, n, current)
    ensures StillCurrent(embedded, n + 1, current) ==
            StillCurrent(embedded, n, current) + (if IsCurrent(embedded[n], current) then {n} else {})
  {
  }

  lemma {:induction false} WrittenCounted(embedded: seq<Embedded>, n: nat, current: map<string, string>)
    requires n <= |embedded|
    ensures CountWritten(embedded, n, current) == |StillCurrent(embedded, n, current)|
  {
    if n > 0 {
      hide StillCurrent, IsCurrent;
      WrittenCounted(embedded, n - 1, current);
      StillCurrentNext(embedded, n - 1, current);
    }
  }

  /** What else a pass reports: the vectors written, those whose text was still stored; the keys to do it did not get to, once
      it wrote something; and how many wait. */
  lemma ReportIs(c: Config, s: Index, i: Inputs)
    requires forall a, b :: 0 <= a < b < |i.rows| ==> i.rows[a].0 != i.rows[b].0
    ensures var r, made := PassReport(c, s, i), ProgressOf(c, s, i).embedded;
      && r.embedded == |set j | 0 <= j < |made| && made[j].key in i.current && i.current[made[j].key] == made[j].sha|
      && r.pending == (if r.embedded == 0 then 0 else |TodoOf(c, s, i)| - ProgressOf(c, s, i).tried)
      && r.failed == |Pass(c, s, i).failed|
  {
    hide ProgressOf, TodoOf, Wanted, CountWritten;
    var made := ProgressOf(c, s, i).embedded;
    WrittenCounted(made, |made|, i.current);
  }
}
