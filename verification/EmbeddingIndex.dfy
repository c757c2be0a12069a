/** The embedding indexer of src/bilinc/embeddings/daemon.py over the table of src/bilinc/embeddings/store.py: bounded
    passes that race with edits of the memories they index. */
module EmbeddingIndex {
  import opened Wrappers
  import opened KeyOrder
  import opened Sequences

  const FAILURE_BACKOFF := 60.0
  const FAILURE_BACKOFF_MAX := 3600.0
  const MAX_FAILURES_PER_PASS := 3

  /** All chunk rows of one (memory key, model). The text stands for its own fingerprint. */
  datatype Stored = Stored(sha: string, vectors: string)

  type Table = map<(string, string), Stored>

  datatype Failure = Failure(sha: string, notBefore: real, delay: real)

  type Failures = map<string, Failure>

  datatype Encoding = Vectors(vectors: string) | Rejected | Outage

  type Rows = seq<(string, string)>

  /** What a pass takes from outside: the memories it scans, the memories stored when it takes the write lock, two
      clocks, and what the encoder does at each attempt. */
  datatype Inputs = Inputs(rows: Rows, current: map<string, string>, now: real, clock: nat -> real,
                           encode: (nat, string) -> Encoding)

  datatype Config = Config(model: string, keysPerPass: nat, inScope: string -> bool)

  datatype Index = Index(table: Table, failed: Failures)

  datatype Report = Report(embedded: nat, pending: int, failed: nat, indexed: int)

  // The key is the primary key of `memories`.
  ghost predicate DistinctKeys(rows: Rows) {
    forall i, j :: 0 <= i < j < |rows| ==> rows[i].0 != rows[j].0
  }

  // ---------------------------------------------------------------- scanning

  predicate IsWanted(c: Config, row: (string, string)) {
    c.inScope(row.0) && row.1 != ""
  }

  // The text of each wanted key among the first n rows.
  function Wanted(c: Config, rows: Rows, n: nat): map<string, string>
    requires n <= |rows|
  {
    if n == 0 then map[]
    else if IsWanted(c, rows[n - 1]) then Wanted(c, rows, n - 1)[rows[n - 1].0 := rows[n - 1].1]
    else Wanted(c, rows, n - 1)
  }

  function AllWanted(c: Config, rows: Rows): map<string, string> {
    Wanted(c, rows, |rows|)
  }

  function IndexedShas(table: Table, model: string): map<string, string> {
    map p | p in table.Keys && p.1 == model :: p.0 := table[p].sha
  }

  function StillFailed(failed: Failures, wanted: map<string, string>): Failures {
    map k | k in failed && k in wanted && wanted[k] == failed[k].sha :: failed[k]
  }

  predicate IsDue(k: string, wanted: map<string, string>, indexed: map<string, string>, failed: Failures, now: real)
    requires k in wanted
  {
    && !(k in indexed && indexed[k] == wanted[k])
    && !(k in failed && failed[k].notBefore > now)
  }

  lemma {:induction false} NotYetWanted(c: Config, rows: Rows, n: nat, k: string)
    requires n <= |rows| && forall i :: 0 <= i < n ==> rows[i].0 != k
    ensures k !in Wanted(c, rows, n)
  {
    if n > 0 {
      NotYetWanted(c, rows, n - 1, k);
    }
  }

  // The wanted keys that are due, in the order the rows were read.
  function Todo(c: Config, rows: Rows, n: nat, indexed: map<string, string>, failed: Failures, now: real): seq<string>
    requires n <= |rows|
  {
    if n == 0 then [] else
      var (k, text) := rows[n - 1];
      var earlier := Todo(c, rows, n - 1, indexed, failed, now);
      if IsWanted(c, rows[n - 1]) && IsDue(k, map[k := text], indexed, failed, now) then earlier + [k] else earlier
  }

  /** Exactly the wanted keys that are due, each once. */
  lemma {:induction false} TodoMeaning(c: Config, rows: Rows, n: nat, indexed: map<string, string>, failed: Failures, now: real)
    requires DistinctKeys(rows) && n <= |rows|
    ensures var todo := Todo(c, rows, n, indexed, failed, now);
      && (forall k :: k in todo <==> k in Wanted(c, rows, n) && IsDue(k, Wanted(c, rows, n), indexed, failed, now))
      && AllDistinct(todo)
  {
    hide IsWanted;
    if n > 0 {
      TodoMeaning(c, rows, n - 1, indexed, failed, now);
      NotYetWanted(c, rows, n - 1, rows[n - 1].0);
      var earlier := Todo(c, rows, n - 1, indexed, failed, now);
      var todo := Todo(c, rows, n, indexed, failed, now);
      assert forall a :: 0 <= a < |earlier| ==> earlier[a] in earlier;
      forall k
        ensures k in todo <==> k in Wanted(c, rows, n) && IsDue(k, Wanted(c, rows, n), indexed, failed, now)
      {
        assert k in todo <==> k in earlier || (todo != earlier && k == rows[n - 1].0);
      }
    }
  }

  // ---------------------------------------------------------------- encoding

  datatype Embedded = Embedded(key: string, sha: string, vectors: string)

  datatype Progress = Progress(embedded: seq<Embedded>, failed: Failures, tried: nat, inARow: nat, stopped: bool)

  function Delay(failed: Failures, key: string): real {
    var next := 2.0 * if key in failed then failed[key].delay else FAILURE_BACKOFF / 2.0;
    if FAILURE_BACKOFF_MAX < next then FAILURE_BACKOFF_MAX else next
  }

  function TryKey(p: Progress, key: string, text: string, result: Encoding, at: real): Progress {
    match result
    case Vectors(v) => Progress(p.embedded + [Embedded(key, text, v)], p.failed - {key}, p.tried + 1, 0, false)
    case Outage => p.(stopped := true)  // says nothing about this memory: still to do
    case Rejected =>
      var delay := Delay(p.failed, key);
      Progress(p.embedded, p.failed[key := Failure(text, at + delay, delay)], p.tried + 1, p.inARow + 1,
               p.inARow + 1 >= MAX_FAILURES_PER_PASS)
  }

  /** The encoding of the first n keys of the batch, unless it stopped before. */
  function Encoded(batch: seq<string>, n: nat, wanted: map<string, string>, failed: Failures, i: Inputs): Progress
    requires n <= |batch| && forall k :: k in batch ==> k in wanted
  {
    if n == 0 then Progress([], failed, 0, 0, false) else
      var p := Encoded(batch, n - 1, wanted, failed, i);
      if p.stopped then p else
        TryKey(p, batch[n - 1], wanted[batch[n - 1]], i.encode(p.tried, wanted[batch[n - 1]]), i.clock(p.tried))
  }

  // ---------------------------------------------------------------- committing

  predicate IsCurrent(e: Embedded, current: map<string, string>) {
    e.key in current && current[e.key] == e.sha
  }

  function Written(table: Table, model: string, embedded: seq<Embedded>, n: nat, current: map<string, string>): Table
    requires n <= |embedded|
  {
    if n == 0 then table else
      var t := Written(table, model, embedded, n - 1, current);
      var e := embedded[n - 1];
      if IsCurrent(e, current) then t[(e.key, model) := Stored(e.sha, e.vectors)] else t
  }

  function CountWritten(embedded: seq<Embedded>, n: nat, current: map<string, string>): nat
    requires n <= |embedded|
  {
    if n == 0 then 0 else
      CountWritten(embedded, n - 1, current) + (if IsCurrent(embedded[n - 1], current) then 1 else 0)
  }

  // Without keys that are no longer wanted, and without other models' vectors.
  function Pruned(table: Table, model: string, stale: set<string>): Table {
    map p | p in table && p.1 == model && p.0 !in stale :: table[p]
  }

  function Stale(indexed: map<string, string>, wanted: map<string, string>): set<string> {
    indexed.Keys - wanted.Keys
  }

  function Drop<T>(s: seq<T>, n: nat): seq<T> {
    if n < |s| then s[n..] else []
  }

  // ---------------------------------------------------------------- one pass

  function TodoOf(c: Config, s: Index, i: Inputs): seq<string> {
    Todo(c, i.rows, |i.rows|, IndexedShas(s.table, c.model), StillFailed(s.failed, AllWanted(c, i.rows)), i.now)
  }

  ghost predicate Readable(c: Config, s: Index, i: Inputs) {
    forall k :: k in TodoOf(c, s, i) ==> k in AllWanted(c, i.rows)
  }

  lemma TodoIsWanted(c: Config, s: Index, i: Inputs)
    requires DistinctKeys(i.rows)
    ensures Readable(c, s, i)
  {
    hide IsWanted, IsDue, IndexedShas;
    TodoMeaning(c, i.rows, |i.rows|, IndexedShas(s.table, c.model), StillFailed(s.failed, AllWanted(c, i.rows)), i.now);
  }

  function ProgressOf(c: Config, s: Index, i: Inputs): Progress
    requires DistinctKeys(i.rows)
  {
    TodoIsWanted(c, s, i);
    var batch := Take(TodoOf(c, s, i), c.keysPerPass);
    var wanted := AllWanted(c, i.rows);
    Encoded(batch, |batch|, wanted, StillFailed(s.failed, wanted), i)
  }

  /** The state after a pass. */
  function Pass(c: Config, s: Index, i: Inputs): Index
    requires DistinctKeys(i.rows)
  {
    var p := ProgressOf(c, s, i);
    Index(Pruned(Written(s.table, c.model, p.embedded, |p.embedded|, i.current), c.model,
                 Stale(IndexedShas(s.table, c.model), AllWanted(c, i.rows))),
          p.failed)
  }

  function PassReport(c: Config, s: Index, i: Inputs): Report
    requires DistinctKeys(i.rows)
  {
    var p := ProgressOf(c, s, i);
    var todo := TodoOf(c, s, i);
    var written := CountWritten(p.embedded, |p.embedded|, i.current);
    var notDone := Elements(Drop(todo, p.tried)) + p.failed.Keys;
    Report(written, if written > 0 then |todo| - p.tried else 0, |p.failed|,
           |AllWanted(c, i.rows)| - |notDone| - (|p.embedded| - written))
  }

  class EmbeddingDaemon {
    const config: Config
    var table: Table
    var failed: Failures

    constructor (config: Config, table: Table)
      ensures this.config == config && Now() == Index(table, map[])
    {
      this.config, this.table, failed := config, table, map[];
    }

    ghost function Now(): Index
      reads this
    {
      Index(table, failed)
    }

    method ReadWanted(rows: Rows) returns (wanted: map<string, string>)
      ensures wanted == AllWanted(config, rows)
    {
      wanted := map[];
      for n := 0 to |rows|
        invariant wanted == Wanted(config, rows, n)
      {
        if IsWanted(config, rows[n]) {
          wanted := wanted[rows[n].0 := rows[n].1];
        }
      }
    }

    method IndexOnce(i: Inputs) returns (report: Report)
      requires DistinctKeys(i.rows)
      modifies `table, `failed
      ensures Now() == Pass(config, old(Now()), i)
      ensures report == PassReport(config, old(Now()), i)
    {
      hide Wanted, Todo, Encoded, Written, CountWritten, Pruned, Stale, IndexedShas, StillFailed, DistinctKeys, Elements,
           Take, Drop;
      var wanted := ReadWanted(i.rows);
      var indexed := IndexedShas(table, config.model);
      var stale := Stale(indexed, wanted);
      TodoIsWanted(config, Now(), i);
      ghost var before := Now();
      failed := StillFailed(failed, wanted);
      var todo := Todo(config, i.rows, |i.rows|, indexed, failed, i.now);
      var batch := Take(todo, config.keysPerPass);
      TakeIsPart(todo, config.keysPerPass);
      var embedded, tried: nat;
      embedded, failed, tried := EncodeBatch(batch, wanted, failed, i);
      var written := Commit(embedded, i.current);
      table := Pruned(table, config.model, stale);
      var remaining := |todo| - tried;
      var notDone := Elements(Drop(todo, tried)) + failed.Keys;
      report := Report(written, if written > 0 then remaining else 0, |failed|,
                       |wanted| - |notDone| - (|embedded| - written));
    }

    method Commit(embedded: seq<Embedded>, current: map<string, string>) returns (written: nat)
      modifies `table
      ensures table == Written(old(table), config.model, embedded, |embedded|, current)
      ensures written == CountWritten(embedded, |embedded|, current)
    {
      written := 0;
      for n := 0 to |embedded|
        invariant table == Written(old(table), config.model, embedded, n, current)
        invariant written == CountWritten(embedded, n, current)
      {
        if IsCurrent(embedded[n], current) {
          table := table[(embedded[n].key, config.model) := Stored(embedded[n].sha, embedded[n].vectors)];
          written := written + 1;
        }
      }
    }
  }

  method EncodeBatch(batch: seq<string>, wanted: map<string, string>, before: Failures, i: Inputs)
    returns (embedded: seq<Embedded>, failed: Failures, tried: nat)
    requires forall k :: k in batch ==> k in wanted
    ensures var p := Encoded(batch, |batch|, wanted, before, i);
      embedded == p.embedded && tried == p.tried && failed == p.failed
  {
    hide Encoded;
    embedded, failed, tried := [], before, 0;
    var failuresInARow := 0;
    EncodedNone(batch, wanted, before, i);
    for n := 0 to |batch|
      invariant Progress(embedded, failed, tried, failuresInARow, false) == Encoded(batch, n, wanted, before, i)
    {
      var key := batch[n];
      var text := wanted[key];
      EncodedNext(batch, n, wanted, before, i);
      match i.encode(tried, text) {
        case Vectors(v) =>
          embedded := embedded + [Embedded(key, text, v)];
          failed := failed - {key};
          failuresInARow := 0;
          tried := tried + 1;
        case Outage =>
          StopsEncoding(batch, n + 1, wanted, before, i);
          return;
        case Rejected =>
          var delay := Delay(failed, key);
          failed := failed[key := Failure(text, i.clock(tried) + delay, delay)];
          failuresInARow := failuresInARow + 1;
          tried := tried + 1;
          if failuresInARow >= MAX_FAILURES_PER_PASS {
            StopsEncoding(batch, n + 1, wanted, before, i);
            return;
          }
      }
    }
  }

  lemma EncodedNone(batch: seq<string>, wanted: map<string, string>, failed: Failures, i: Inputs)
    requires forall k :: k in batch ==> k in wanted
    ensures Encoded(batch, 0, wanted, failed, i) == Progress([], failed, 0, 0, false)
  {
  }

  lemma EncodedNext(batch: seq<string>, n: nat, wanted: map<string, string>, failed: Failures, i: Inputs)
    requires n < |batch| && (forall k :: k in batch ==> k in wanted)
    ensures var p := Encoded(batch, n, wanted, failed, i);
      !p.stopped ==> Encoded(batch, n + 1, wanted, failed, i) ==
                     TryKey(p, batch[n], wanted[batch[n]], i.encode(p.tried, wanted[batch[n]]), i.clock(p.tried))
  {
  }

  // Nothing more is encoded once the pass stopped.
  lemma {:induction false} StoppedStays(batch: seq<string>, n: nat, m: nat, wanted: map<string, string>, failed: Failures, i: Inputs)
    requires n <= m <= |batch| && (forall k :: k in batch ==> k in wanted)
    requires Encoded(batch, n, wanted, failed, i).stopped
    ensures Encoded(batch, m, wanted, failed, i) == Encoded(batch, n, wanted, failed, i)
  {
    if n < m {
      StoppedStays(batch, n, m - 1, wanted, failed, i);
    }
  }

  lemma StopsEncoding(batch: seq<string>, n: nat, wanted: map<string, string>, failed: Failures, i: Inputs)
    requires n <= |batch| && (forall k :: k in batch ==> k in wanted)
    requires Encoded(batch, n, wanted, failed, i).stopped
    ensures Encoded(batch, |batch|, wanted, failed, i) == Encoded(batch, n, wanted, failed, i)
  {
    StoppedStays(batch, n, |batch|, wanted, failed, i);
  }

  // ---------------------------------------------------------------- safety

  ghost predicate ComesFromEncoder(i: Inputs, stored: Stored) {
    exists attempt: nat :: i.encode(attempt, stored.sha) == Vectors(stored.vectors)
  }

  lemma {:induction false} EmbeddedComesFromEncoder(batch: seq<string>, n: nat, wanted: map<string, string>, failed: Failures,
                                                    i: Inputs, e: Embedded)
    requires n <= |batch| && (forall k :: k in batch ==> k in wanted)
    requires e in Encoded(batch, n, wanted, failed, i).embedded
    ensures ComesFromEncoder(i, Stored(e.sha, e.vectors))
  {
    var p := Encoded(batch, n - 1, wanted, failed, i);
    if e in p.embedded {
      EmbeddedComesFromEncoder(batch, n - 1, wanted, failed, i, e);
    } else {
      assert i.encode(p.tried, e.sha) == Vectors(e.vectors);
    }
  }

  // The n-th write or an earlier one put this there, or it was there before.
  lemma {:induction false} WrittenIsCurrent(table: Table, model: string, embedded: seq<Embedded>, n: nat,
                                            current: map<string, string>, p: (string, string))
    requires n <= |embedded| && p in Written(table, model, embedded, n, current)
    ensures var stored := Written(table, model, embedded, n, current)[p];
      || (p in table && table[p] == stored)
      || (p.1 == model && p.0 in current && current[p.0] == stored.sha && Embedded(p.0, stored.sha, stored.vectors) in embedded)
  {
    if n > 0 {
      var before := Written(table, model, embedded, n - 1, current);
      var e := embedded[n - 1];
      if p in before && before[p] == Written(table, model, embedded, n, current)[p] {
        WrittenIsCurrent(table, model, embedded, n - 1, current, p);
      } else {
        assert e in embedded && p == (e.key, model);
      }
    }
  }

  /** Whatever was edited or forgotten while a pass was encoding, it writes vectors only for the text that is stored when
      it takes the write lock, and those are what the encoder made of that very text. */
  lemma PassIsSafe(c: Config, s: Index, i: Inputs, p: (string, string))
    requires DistinctKeys(i.rows) && p in Pass(c, s, i).table
    ensures p.1 == c.model
    ensures var stored := Pass(c, s, i).table[p];
      || (p in s.table && s.table[p] == stored)
      || (p.0 in i.current && i.current[p.0] == stored.sha && ComesFromEncoder(i, stored))
  {
    hide Todo, Wanted, Encoded, Written, DistinctKeys, IndexedShas, StillFailed, Stale, Take, ComesFromEncoder;
    var progress := ProgressOf(c, s, i);
    var stored := Pass(c, s, i).table[p];
    WrittenIsCurrent(s.table, c.model, progress.embedded, |progress.embedded|, i.current, p);
    if Embedded(p.0, stored.sha, stored.vectors) in progress.embedded {
      TodoIsWanted(c, s, i);
      var batch := Take(TodoOf(c, s, i), c.keysPerPass);
      var wanted := AllWanted(c, i.rows);
      TakeIsPart(TodoOf(c, s, i), c.keysPerPass);
      EmbeddedComesFromEncoder(batch, |batch|, wanted, StillFailed(s.failed, wanted), i,
                               Embedded(p.0, stored.sha, stored.vectors));
    }
  }

  lemma TakeIsPart(s: seq<string>, n: nat)
    ensures forall k :: k in Take(s, n) ==> k in s
    ensures AllDistinct(s) ==> AllDistinct(Take(s, n))
    ensures forall m: nat :: m <= |Take(s, n)| ==> Take(s, n)[..m] == s[..m]
  {
  }

  lemma DistinctNext(s: seq<string>, n: nat)
    requires n < |s|
    ensures Elements(s[..n + 1]) == Elements(s[..n]) + {s[n]}
    ensures AllDistinct(s) ==> s[n] !in Elements(s[..n])
  {
    FrontElements(s, n);
  }

  // ---------------------------------------------------------------- what encoding a batch amounts to

  function EmbeddedKeys(embedded: seq<Embedded>): set<string> {
    set e | e in embedded :: e.key
  }

  ghost predicate AllDistinct(s: seq<string>) {
    forall a, b :: 0 <= a < b < |s| ==> s[a] != s[b]
  }

  // Each tried key was embedded or failed, and nothing changed for the others.
  ghost predicate Tallied(p: Progress, tried: set<string>, wanted: map<string, string>, failed: Failures) {
    && EmbeddedKeys(p.embedded) <= tried <= wanted.Keys
    && |EmbeddedKeys(p.embedded)| == |p.embedded|
    && (forall e :: e in p.embedded ==> e.key in wanted && e.sha == wanted[e.key])
    && (forall k :: k in tried ==> (k in p.failed <==> k !in EmbeddedKeys(p.embedded)))
    && (forall k :: k in tried && k in p.failed ==> p.failed[k].sha == wanted[k])
    && (forall k :: k !in tried ==> (k in p.failed <==> k in failed))
    && (forall k :: k !in tried && k in failed ==> p.failed[k] == failed[k])
  }

  lemma NothingTallied(batch: seq<string>, wanted: map<string, string>, failed: Failures)
    ensures Tallied(Progress([], failed, 0, 0, false), Elements(batch[..0]), wanted, failed)
  {
  }

  lemma StopTallied(p: Progress, tried: set<string>, wanted: map<string, string>, failed: Failures)
    requires Tallied(p, tried, wanted, failed)
    ensures Tallied(p.(stopped := true), tried, wanted, failed)
  {
  }

  lemma TalliedStep(p: Progress, tried: set<string>, wanted: map<string, string>, failed: Failures, key: string,
                   result: Encoding, at: real)
    requires Tallied(p, tried, wanted, failed) && key in wanted && key !in tried && !result.Outage?
    ensures Tallied(TryKey(p, key, wanted[key], result, at), tried + {key}, wanted, failed)
  {
    if result.Vectors? {
      var e := Embedded(key, wanted[key], result.vectors);
      assert EmbeddedKeys(p.embedded + [e]) == EmbeddedKeys(p.embedded) + {key} by {
        assert (p.embedded + [e])[|p.embedded|] == e;
        forall k | k in EmbeddedKeys(p.embedded) + {key}
          ensures k in EmbeddedKeys(p.embedded + [e])
        {
          if k == key {
            assert e in p.embedded + [e];
          } else {
            var o :| o in p.embedded && o.key == k;
            assert o in p.embedded + [e];
          }
        }
      }
    }
  }

  lemma {:induction false} EncodedTallied(batch: seq<string>, n: nat, wanted: map<string, string>, failed: Failures, i: Inputs)
    requires n <= |batch| && (forall k :: k in batch ==> k in wanted) && AllDistinct(batch)
    ensures var p := Encoded(batch, n, wanted, failed, i);
      && p.tried <= n && (!p.stopped ==> p.tried == n)
      && Tallied(p, Elements(batch[..p.tried]), wanted, failed)
  {
    hide Tallied, TryKey, Elements, AllDistinct;
    if n == 0 {
      NothingTallied(batch, wanted, failed);
    } else {
      EncodedTallied(batch, n - 1, wanted, failed, i);
      var p := Encoded(batch, n - 1, wanted, failed, i);
      if !p.stopped {
        TryTallied(p, batch, n, wanted, failed, i.encode(p.tried, wanted[batch[n - 1]]), i.clock(p.tried));
      }
    }
  }

  lemma TryTallied(p: Progress, batch: seq<string>, n: nat, wanted: map<string, string>, failed: Failures, result: Encoding,
                   at: real)
    requires 0 < n <= |batch| && batch[n - 1] in wanted && AllDistinct(batch)
    requires !p.stopped && p.tried == n - 1 && Tallied(p, Elements(batch[..n - 1]), wanted, failed)
    ensures var q := TryKey(p, batch[n - 1], wanted[batch[n - 1]], result, at);
      q.tried <= n && (!q.stopped ==> q.tried == n) && Tallied(q, Elements(batch[..q.tried]), wanted, failed)
  {
    hide Elements, AllDistinct, Delay, Tallied;
    if result.Outage? {
      StopTallied(p, Elements(batch[..n - 1]), wanted, failed);
    } else {
      DistinctNext(batch, n - 1);
      TalliedStep(p, Elements(batch[..n - 1]), wanted, failed, batch[n - 1], result, at);
    }
  }

  // What a pass tried: the first keys to do.
  lemma PassTallied(c: Config, s: Index, i: Inputs)
    requires DistinctKeys(i.rows)
    ensures var p := ProgressOf(c, s, i);
      var todo := TodoOf(c, s, i);
      && p.tried <= |todo| && p.tried <= c.keysPerPass && (!p.stopped ==> p.tried == |Take(todo, c.keysPerPass)|)
      && Tallied(p, Elements(todo[..p.tried]), AllWanted(c, i.rows), StillFailed(s.failed, AllWanted(c, i.rows)))
  {
    hide Tallied, Todo, Wanted, Encoded, DistinctKeys, IndexedShas, StillFailed, Elements;
    var todo := TodoOf(c, s, i);
    var wanted := AllWanted(c, i.rows);
    TodoIsWanted(c, s, i);
    TodoMeaning(c, i.rows, |i.rows|, IndexedShas(s.table, c.model), StillFailed(s.failed, wanted), i.now);
    var batch := Take(todo, c.keysPerPass);
    TakeIsPart(todo, c.keysPerPass);
    EncodedTallied(batch, |batch|, wanted, StillFailed(s.failed, wanted), i);
    var p := ProgressOf(c, s, i);
    assert batch[..p.tried] == todo[..p.tried];
  }

  // ---------------------------------------------------------------- what is in the table after a pass

  lemma {:induction false} WrittenOther(table: Table, model: string, embedded: seq<Embedded>, n: nat,
                                        current: map<string, string>, k: string)
    requires n <= |embedded| && k !in EmbeddedKeys(embedded)
    ensures (k, model) in Written(table, model, embedded, n, current) <==> (k, model) in table
    ensures (k, model) in table ==> Written(table, model, embedded, n, current)[(k, model)] == table[(k, model)]
  {
    if n > 0 {
      WrittenOther(table, model, embedded, n - 1, current, k);
      assert embedded[n - 1] in embedded;
    }
  }

  lemma {:induction false} WrittenKey(table: Table, model: string, embedded: seq<Embedded>, n: nat,
                                      wanted: map<string, string>, current: map<string, string>, k: string)
    requires n <= |embedded| && k in wanted && k in current && current[k] == wanted[k]
    requires forall e :: e in embedded ==> e.key in wanted && e.sha == wanted[e.key]
    requires exists j :: 0 <= j < n && embedded[j].key == k
    ensures (k, model) in Written(table, model, embedded, n, current)
    ensures Written(table, model, embedded, n, current)[(k, model)].sha == wanted[k]
  {
    if embedded[n - 1].key != k {
      WrittenKey(table, model, embedded, n - 1, wanted, current, k);
    }
  }

  /** The key's vectors are those of this text. */
  predicate UpToDate(table: Table, model: string, k: string, text: string) {
    (k, model) in table && table[(k, model)].sha == text
  }

  lemma IndexedMeaning(table: Table, model: string, k: string, text: string)
    ensures k in IndexedShas(table, model) && IndexedShas(table, model)[k] == text <==> UpToDate(table, model, k, text)
    ensures k in IndexedShas(table, model) <==> (k, model) in table
  {
    if (k, model) in table {
      assert (k, model) in table.Keys;
    }
  }

  // A wanted key after a pass: as before, unless it was embedded from the text still stored.
  lemma TableAfterPass(c: Config, s: Index, i: Inputs, k: string)
    requires DistinctKeys(i.rows) && k in AllWanted(c, i.rows)
    ensures var p := ProgressOf(c, s, i);
      var t := Pass(c, s, i).table;
      && (k !in EmbeddedKeys(p.embedded) ==>
            ((k, c.model) in t <==> (k, c.model) in s.table) && ((k, c.model) in t ==> t[(k, c.model)] == s.table[(k, c.model)]))
      && (k in EmbeddedKeys(p.embedded) && k in i.current && i.current[k] == AllWanted(c, i.rows)[k] ==>
            UpToDate(t, c.model, k, AllWanted(c, i.rows)[k]))
  {
    hide Todo, Wanted, Encoded, Written, DistinctKeys, IndexedShas, StillFailed, Take, Elements;
    var p := ProgressOf(c, s, i);
    PassTallied(c, s, i);
    if k in EmbeddedKeys(p.embedded) {
      if k in i.current && i.current[k] == AllWanted(c, i.rows)[k] {
        var e :| e in p.embedded && e.key == k;
        var j :| 0 <= j < |p.embedded| && p.embedded[j] == e;
        WrittenKey(s.table, c.model, p.embedded, |p.embedded|, AllWanted(c, i.rows), i.current, k);
      }
    } else {
      WrittenOther(s.table, c.model, p.embedded, |p.embedded|, i.current, k);
    }
  }

  /** No key waits to retry a text its vectors already are of. */
  ghost predicate FailuresNotIndexed(c: Config, s: Index) {
    forall k :: k in s.failed ==> !UpToDate(s.table, c.model, k, s.failed[k].sha)
  }

  // A key to do is wanted and its vectors are not of its text.
  lemma TodoKeys(c: Config, s: Index, i: Inputs, k: string)
    requires DistinctKeys(i.rows)
    ensures var wanted := AllWanted(c, i.rows);
      k in TodoOf(c, s, i) <==>
        && k in wanted && !UpToDate(s.table, c.model, k, wanted[k])
        && !(k in s.failed && s.failed[k].sha == wanted[k] && s.failed[k].notBefore > i.now)
    ensures AllDistinct(TodoOf(c, s, i))
  {
    hide Todo, Wanted, DistinctKeys, IndexedShas;
    var wanted := AllWanted(c, i.rows);
    TodoMeaning(c, i.rows, |i.rows|, IndexedShas(s.table, c.model), StillFailed(s.failed, wanted), i.now);
    if k in wanted {
      IndexedMeaning(s.table, c.model, k, wanted[k]);
    }
  }

  lemma InFront(s: seq<string>, n: nat, k: string)
    requires n <= |s| && AllDistinct(s)
    ensures k in Elements(s[..n]) ==> k in s
    ensures k in Elements(Drop(s, n)) <==> k in s && k !in Elements(s[..n])
  {
    assert s == s[..n] + s[n..];
    if k in s[..n] {
      var a :| 0 <= a < n && s[a] == k;
      assert forall b :: n <= b < |s| ==> s[b] != k;
    }
  }

  /** One pass keeps that invariant, whatever happened to the memories meanwhile. */
  lemma PassKeepsFailuresNotIndexed(c: Config, s: Index, i: Inputs)
    requires DistinctKeys(i.rows) && FailuresNotIndexed(c, s)
    ensures FailuresNotIndexed(c, Pass(c, s, i))
  {
    hide Todo, Wanted, DistinctKeys, IndexedShas, Encoded, Written, Elements, ProgressOf, TodoOf, Pruned;
    var t := Pass(c, s, i);
    var p := ProgressOf(c, s, i);
    var todo := TodoOf(c, s, i);
    PassTallied(c, s, i);
    forall k | k in t.failed
      ensures !UpToDate(t.table, c.model, k, t.failed[k].sha)
    {
      TodoKeys(c, s, i, k);
      InFront(todo, p.tried, k);
      TableAfterPass(c, s, i, k);
    }
  }

  // ---------------------------------------------------------------- the reported count

  /** The memories the pass scanned are still the stored ones when it commits. */
  ghost predicate NoConcurrentWriter(c: Config, i: Inputs) {
    forall k :: k in AllWanted(c, i.rows) ==> k in i.current && i.current[k] == AllWanted(c, i.rows)[k]
  }

  function UpToDateKeys(table: Table, model: string, wanted: map<string, string>): set<string> {
    set k | k in wanted && UpToDate(table, model, k, wanted[k])
  }

  lemma {:induction false} AllWritten(embedded: seq<Embedded>, n: nat, wanted: map<string, string>, current: map<string, string>)
    requires n <= |embedded|
    requires forall e :: e in embedded ==> e.key in wanted && e.sha == wanted[e.key]
    requires forall k :: k in wanted ==> k in current && current[k] == wanted[k]
    ensures CountWritten(embedded, n, current) == n
  {
    if n > 0 {
      AllWritten(embedded, n - 1, wanted, current);
      assert embedded[n - 1] in embedded;
    }
  }

  // Whether a wanted key is up to date after an undisturbed pass: unless it is still to do or failed.
  lemma DoneUnless(c: Config, s: Index, i: Inputs, k: string)
    requires DistinctKeys(i.rows) && FailuresNotIndexed(c, s) && NoConcurrentWriter(c, i) && k in AllWanted(c, i.rows)
    ensures var p := ProgressOf(c, s, i);
      UpToDate(Pass(c, s, i).table, c.model, k, AllWanted(c, i.rows)[k]) <==>
      k !in Elements(Drop(TodoOf(c, s, i), p.tried)) && k !in p.failed
  {
    hide Todo, Wanted, DistinctKeys, IndexedShas, Encoded, Written, Elements, ProgressOf, TodoOf, Pass, Drop;
    PassTallied(c, s, i);
    TodoKeys(c, s, i, k);
    InFront(TodoOf(c, s, i), ProgressOf(c, s, i).tried, k);
    TableAfterPass(c, s, i, k);
  }

  lemma NotDoneIsWanted(c: Config, s: Index, i: Inputs)
    requires DistinctKeys(i.rows)
    ensures var p := ProgressOf(c, s, i);
      Elements(Drop(TodoOf(c, s, i), p.tried)) + p.failed.Keys <= AllWanted(c, i.rows).Keys
  {
    hide Todo, Wanted, DistinctKeys, IndexedShas, Encoded, Written, Elements, ProgressOf, TodoOf, Drop;
    PassTallied(c, s, i);
    var p := ProgressOf(c, s, i);
    forall k | k in Elements(Drop(TodoOf(c, s, i), p.tried)) + p.failed.Keys
      ensures k in AllWanted(c, i.rows)
    {
      TodoKeys(c, s, i, k);
      InFront(TodoOf(c, s, i), p.tried, k);
    }
  }

  /** With no concurrent writer, the count a pass reports is exactly the number of wanted memories whose vectors are up to
      date, failures, backoff and outages included. */
  lemma ReportedCountIsExact(c: Config, s: Index, i: Inputs)
    requires DistinctKeys(i.rows) && FailuresNotIndexed(c, s) && NoConcurrentWriter(c, i)
    ensures PassReport(c, s, i).indexed == |UpToDateKeys(Pass(c, s, i).table, c.model, AllWanted(c, i.rows))|
  {
    hide Todo, Wanted, DistinctKeys, IndexedShas, Encoded, Written, Elements, ProgressOf, TodoOf, Pass, Drop, CountWritten, UpToDate;
    var p := ProgressOf(c, s, i);
    var wanted := AllWanted(c, i.rows);
    var notDone := Elements(Drop(TodoOf(c, s, i), p.tried)) + p.failed.Keys;
    NotDoneIsWanted(c, s, i);
    PassTallied(c, s, i);
    AllWritten(p.embedded, |p.embedded|, wanted, i.current);
    forall k | k in wanted
      ensures UpToDate(Pass(c, s, i).table, c.model, k, wanted[k]) <==> k !in notDone
    {
      DoneUnless(c, s, i, k);
    }
    assert UpToDateKeys(Pass(c, s, i).table, c.model, wanted) == wanted.Keys - notDone;
    SubsetSize(notDone, wanted.Keys);
  }

  // ---------------------------------------------------------------- convergence

  ghost predicate NeverFails(i: Inputs) {
    forall attempt: nat, text: string :: i.encode(attempt, text).Vectors?
  }

  /** Every key that waits may be tried again. */
  ghost predicate Ripe(s: Index, i: Inputs) {
    forall k :: k in s.failed ==> s.failed[k].notBefore <= i.now
  }

  ghost predicate Within(few: Failures, many: Failures) {
    forall k :: k in few ==> k in many && few[k] == many[k]
  }

  lemma {:induction false} NothingStops(batch: seq<string>, n: nat, wanted: map<string, string>, failed: Failures, i: Inputs)
    requires n <= |batch| && (forall k :: k in batch ==> k in wanted) && NeverFails(i)
    ensures var p := Encoded(batch, n, wanted, failed, i); !p.stopped && Within(p.failed, failed)
  {
    if n > 0 {
      NothingStops(batch, n - 1, wanted, failed, i);
      var p := Encoded(batch, n - 1, wanted, failed, i);
      assert i.encode(p.tried, wanted[batch[n - 1]]).Vectors?;
    }
  }

  // The wanted keys whose vectors are missing or old.
  function Behind(c: Config, s: Index, i: Inputs): set<string> {
    AllWanted(c, i.rows).Keys - UpToDateKeys(s.table, c.model, AllWanted(c, i.rows))
  }

  function Monus(a: nat, b: int): nat {
    if a <= b then 0 else if b < 0 then a else a - b
  }

  /** A pass without edits or failures, once no key has to wait, leaves exactly `keys_per_pass` fewer keys to do. */
  lemma PassShrinksBacklog(c: Config, s: Index, i: Inputs)
    requires DistinctKeys(i.rows) && NoConcurrentWriter(c, i) && NeverFails(i) && FailuresNotIndexed(c, s) && Ripe(s, i)
    ensures var t := Pass(c, s, i);
      && Within(t.failed, s.failed)
      && |Behind(c, t, i)| == Monus(|Behind(c, s, i)|, c.keysPerPass)
      && t.table.Keys <= set k | k in AllWanted(c, i.rows) :: (k, c.model)
  {
    hide Wanted, DistinctKeys, Elements, Drop, UpToDate, Behind, NeverFails, NoConcurrentWriter, TodoOf, ProgressOf, Pass,
         Ripe, Within, FailuresNotIndexed;
    var p := ProgressOf(c, s, i);
    var todo := TodoOf(c, s, i);
    NothingFails(c, s, i);
    BehindIsTodo(c, s, i);
    BehindAfter(c, s, i);
    DropSize(todo, p.tried);
    OnlyWantedStay(c, s, i);
  }

  lemma NothingFails(c: Config, s: Index, i: Inputs)
    requires DistinctKeys(i.rows) && NeverFails(i)
    ensures var p := ProgressOf(c, s, i);
      && Pass(c, s, i).failed == p.failed && Within(p.failed, s.failed)
      && p.tried == if |TodoOf(c, s, i)| <= c.keysPerPass then |TodoOf(c, s, i)| else c.keysPerPass
  {
    hide Wanted, DistinctKeys, NeverFails, TodoOf, Encoded;
    var batch := Take(TodoOf(c, s, i), c.keysPerPass);
    var wanted := AllWanted(c, i.rows);
    PassTallied(c, s, i);
    TodoIsWanted(c, s, i);
    TakeIsPart(TodoOf(c, s, i), c.keysPerPass);
    NothingStops(batch, |batch|, wanted, StillFailed(s.failed, wanted), i);
  }

  // A key that still waits after a pass without failures was not reached by it.
  lemma StillWaitingIsLeft(c: Config, s: Index, i: Inputs, k: string)
    requires DistinctKeys(i.rows) && NeverFails(i) && FailuresNotIndexed(c, s) && Ripe(s, i)
    ensures k in ProgressOf(c, s, i).failed ==> k in Elements(Drop(TodoOf(c, s, i), ProgressOf(c, s, i).tried))
  {
    hide Wanted, DistinctKeys, Elements, Drop, TodoOf, ProgressOf, NeverFails, Pass, UpToDate;
    var p := ProgressOf(c, s, i);
    NothingFails(c, s, i);
    PassTallied(c, s, i);
    TodoKeys(c, s, i, k);
    InFront(TodoOf(c, s, i), p.tried, k);
    NothingRejected(c, s, i, k);
  }

  // Without failures every tried key is embedded.
  lemma NothingRejected(c: Config, s: Index, i: Inputs, k: string)
    requires DistinctKeys(i.rows) && NeverFails(i)
    ensures var p := ProgressOf(c, s, i);
      p.tried <= |TodoOf(c, s, i)| && (k in Elements(TodoOf(c, s, i)[..p.tried]) ==> k !in p.failed)
  {
    hide Wanted, DistinctKeys, Elements, TodoOf, NeverFails, Encoded, Tallied;
    var todo := TodoOf(c, s, i);
    var batch := Take(todo, c.keysPerPass);
    var wanted := AllWanted(c, i.rows);
    PassTallied(c, s, i);
    TodoIsWanted(c, s, i);
    TakeIsPart(todo, c.keysPerPass);
    TodoKeys(c, s, i, k);
    NothingStops(batch, |batch|, wanted, StillFailed(s.failed, wanted), i);
    TriedIsCleared(batch, |batch|, wanted, StillFailed(s.failed, wanted), i, k);
    assert batch[..|batch|] == todo[..|batch|];
  }

  lemma {:induction false} TriedIsCleared(batch: seq<string>, n: nat, wanted: map<string, string>, failed: Failures, i: Inputs, k: string)
    requires n <= |batch| && (forall j :: j in batch ==> j in wanted) && NeverFails(i)
    ensures k in Elements(batch[..n]) ==> k !in Encoded(batch, n, wanted, failed, i).failed
  {
    if n > 0 {
      TriedIsCleared(batch, n - 1, wanted, failed, i, k);
      NothingStops(batch, n - 1, wanted, failed, i);
      DistinctNext(batch, n - 1);
      var p := Encoded(batch, n - 1, wanted, failed, i);
      assert i.encode(p.tried, wanted[batch[n - 1]]).Vectors?;
    }
  }

  lemma BehindAfter(c: Config, s: Index, i: Inputs)
    requires DistinctKeys(i.rows) && NoConcurrentWriter(c, i) && NeverFails(i) && FailuresNotIndexed(c, s) && Ripe(s, i)
    ensures Behind(c, Pass(c, s, i), i) == Elements(Drop(TodoOf(c, s, i), ProgressOf(c, s, i).tried))
  {
    hide Wanted, DistinctKeys, Elements, Drop, UpToDate, NeverFails, NoConcurrentWriter, TodoOf, ProgressOf, Pass, Ripe,
         FailuresNotIndexed;
    var wanted := AllWanted(c, i.rows);
    var left := Elements(Drop(TodoOf(c, s, i), ProgressOf(c, s, i).tried));
    NotDoneIsWanted(c, s, i);
    forall k | k in wanted
      ensures UpToDate(Pass(c, s, i).table, c.model, k, wanted[k]) <==> k !in left
    {
      DoneUnless(c, s, i, k);
      StillWaitingIsLeft(c, s, i, k);
    }
  }

  lemma BehindIsTodo(c: Config, s: Index, i: Inputs)
    requires DistinctKeys(i.rows) && Ripe(s, i)
    ensures Behind(c, s, i) == Elements(TodoOf(c, s, i)) && |Behind(c, s, i)| == |TodoOf(c, s, i)|
    ensures AllDistinct(TodoOf(c, s, i))
  {
    hide Todo, Wanted, DistinctKeys, UpToDate, TodoOf;
    TodoKeys(c, s, i, "");
    forall k
      ensures k in TodoOf(c, s, i) <==> k in Behind(c, s, i)
    {
      TodoKeys(c, s, i, k);
    }
    DistinctSize(TodoOf(c, s, i), |TodoOf(c, s, i)|);
    assert TodoOf(c, s, i)[..|TodoOf(c, s, i)|] == TodoOf(c, s, i);
  }

  lemma {:induction false} DistinctSize(s: seq<string>, n: nat)
    requires AllDistinct(s) && n <= |s|
    ensures |Elements(s[..n])| == n
  {
    hide AllDistinct;
    if n > 0 {
      DistinctSize(s, n - 1);
      DistinctNext(s, n - 1);
    }
  }

  lemma DropSize(s: seq<string>, n: nat)
    requires AllDistinct(s) && n <= |s|
    ensures |Elements(Drop(s, n))| == |s| - n
  {
    var rest := Drop(s, n);
    DistinctSize(rest, |rest|);
    assert rest[..|rest|] == rest;
  }

  // Vectors of forgotten keys and of other models go.
  lemma OnlyWantedStay(c: Config, s: Index, i: Inputs)
    requires DistinctKeys(i.rows)
    ensures Pass(c, s, i).table.Keys <= set k | k in AllWanted(c, i.rows) :: (k, c.model)
  {
    hide Todo, Wanted, DistinctKeys, Encoded, TodoOf, ProgressOf, IndexedShas;
    var p := ProgressOf(c, s, i);
    PassTallied(c, s, i);
    forall q | q in Pass(c, s, i).table
      ensures q.0 in AllWanted(c, i.rows) && q.1 == c.model && q == (q.0, c.model)
    {
      WrittenIsCurrent(s.table, c.model, p.embedded, |p.embedded|, i.current, q);
      IndexedMeaning(s.table, c.model, q.0, "");
    }
  }

  // Every pass of the run scans these rows and finds them unchanged, and no encoding fails.
  ghost predicate Undisturbed(c: Config, rows: Rows, run: seq<Inputs>) {
    forall j :: 0 <= j < |run| ==> run[j].rows == rows && NoConcurrentWriter(c, run[j]) && NeverFails(run[j])
  }

  function Passes(c: Config, s: Index, rows: Rows, run: seq<Inputs>, n: nat): Index
    requires DistinctKeys(rows) && n <= |run| && forall j :: 0 <= j < |run| ==> run[j].rows == rows
  {
    if n == 0 then s else Pass(c, Passes(c, s, rows, run, n - 1), run[n - 1])
  }

  lemma SameBehind(c: Config, s: Index, i: Inputs, j: Inputs)
    requires i.rows == j.rows
    ensures Behind(c, s, i) == Behind(c, s, j)
  {
  }

  lemma MonusTwice(a: nat, n: nat, step: nat)
    requires n > 0
    ensures Monus(Monus(a, (n - 1) * step), step) == Monus(a, n * step)
  {
    assert n * step == (n - 1) * step + step;
  }

  lemma {:induction false} BacklogAfter(c: Config, s: Index, rows: Rows, run: seq<Inputs>, n: nat)
    requires DistinctKeys(rows) && FailuresNotIndexed(c, s) && Undisturbed(c, rows, run) && 0 < n <= |run|
    requires forall j :: 0 <= j < |run| ==> Ripe(s, run[j])
    ensures var t := Passes(c, s, rows, run, n);
      && FailuresNotIndexed(c, t) && Within(t.failed, s.failed)
      && |Behind(c, t, run[n - 1])| == Monus(|Behind(c, s, run[n - 1])|, n * c.keysPerPass)
      && t.table.Keys <= set k | k in AllWanted(c, rows) :: (k, c.model)
  {
    hide Pass, Behind, Wanted, DistinctKeys, NoConcurrentWriter, NeverFails, Monus, AllWanted, FailuresNotIndexed;
    var before := Passes(c, s, rows, run, n - 1);
    assert Ripe(s, run[n - 1]);
    if n > 1 {
      BacklogAfter(c, s, rows, run, n - 1);
      SameBehind(c, before, run[n - 2], run[n - 1]);
      SameBehind(c, s, run[n - 2], run[n - 1]);
      MonusTwice(|Behind(c, s, run[n - 1])|, n, c.keysPerPass);
    }
    PassShrinksBacklog(c, before, run[n - 1]);
    PassKeepsFailuresNotIndexed(c, before, run[n - 1]);
  }

  /** Without edits and failures, once the keys that wait from before may be tried again, enough passes make the index
      exactly the in-scope texts: each wanted key with its own fingerprint, and no other. `keys_per_pass` keys a pass
      suffice. */
  lemma PassesConverge(c: Config, s: Index, rows: Rows, run: seq<Inputs>, n: nat)
    requires DistinctKeys(rows) && FailuresNotIndexed(c, s) && Undisturbed(c, rows, run) && 0 < n <= |run|
    requires forall j :: 0 <= j < |run| ==> Ripe(s, run[j])
    requires n * c.keysPerPass >= |AllWanted(c, rows).Keys - UpToDateKeys(s.table, c.model, AllWanted(c, rows))|
    ensures IndexedShas(Passes(c, s, rows, run, n).table, c.model) == AllWanted(c, rows)
  {
    hide Pass, Wanted, DistinctKeys, NoConcurrentWriter, NeverFails, Passes, IndexedShas, FailuresNotIndexed, Ripe;
    var t := Passes(c, s, rows, run, n).table;
    var wanted := AllWanted(c, rows);
    BacklogAfter(c, s, rows, run, n);
    assert Behind(c, Passes(c, s, rows, run, n), run[n - 1]) == {};
    forall k
      ensures k in IndexedShas(t, c.model) <==> k in wanted
      ensures k in wanted ==> k in IndexedShas(t, c.model) && IndexedShas(t, c.model)[k] == wanted[k]
    {
      IndexedMeaning(t, c.model, k, if k in wanted then wanted[k] else "");
      assert (k, c.model) in t <==> (k, c.model) in t.Keys;
      if k in wanted {
        assert k !in Behind(c, Passes(c, s, rows, run, n), run[n - 1]);
      }
    }
  }
}
