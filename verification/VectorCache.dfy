/** The process-wide document-vector cache of src/bilinc/core/vector_search.py: an ordered dictionary bounded in entries
    and in bytes, least recently used first. */
module VectorCache {
  import opened Wrappers

  /** The key stands for the encoder configuration and the digest of the text. */
  datatype Entry = Entry(key: string, vector: string, bytes: nat)

  type Entries = seq<Entry>

  function Sum(entries: Entries): nat {
    if entries == [] then 0 else entries[0].bytes + Sum(entries[1..])
  }

  ghost predicate DistinctKeys(entries: Entries) {
    forall i, j :: 0 <= i < j < |entries| ==> entries[i].key != entries[j].key
  }

  function RemoveKey(entries: Entries, key: string): Entries {
    if entries == [] then [] else
      (if entries[0].key == key then [] else [entries[0]]) + RemoveKey(entries[1..], key)
  }

  function Find(entries: Entries, key: string): Option<Entry> {
    if entries == [] then None else if entries[0].key == key then Some(entries[0]) else Find(entries[1..], key)
  }

  predicate Fits(entries: Entries, size: int, maxBytes: int) {
    |entries| <= size && Sum(entries) <= maxBytes
  }

  /** What is left when the oldest entries go until both bounds hold. */
  function Trimmed(entries: Entries, size: int, maxBytes: int): Entries {
    if entries == [] || Fits(entries, size, maxBytes) then entries else Trimmed(entries[1..], size, maxBytes)
  }

  // ---------------------------------------------------------------- trimming

  /** Trimming keeps the longest end of the list that fits: it holds both bounds, and any longer end breaks one. */
  lemma {:induction false} TrimKeepsLongestFittingEnd(entries: Entries, size: int, maxBytes: int) returns (n: nat)
    ensures n <= |entries| && Trimmed(entries, size, maxBytes) == entries[n..]
    ensures entries[n..] != [] ==> |entries| - n <= size && Sum(entries[n..]) <= maxBytes
    ensures forall m: nat :: m < n ==> |entries| - m > size || Sum(entries[m..]) > maxBytes
  {
    if entries == [] || Fits(entries, size, maxBytes) {
      n := 0;
      assert entries[0..] == entries;
    } else {
      var k := TrimKeepsLongestFittingEnd(entries[1..], size, maxBytes);
      n := k + 1;
      assert entries[n..] == entries[1..][k..];
      forall m: nat | m < n
        ensures |entries| - m > size || Sum(entries[m..]) > maxBytes
      {
        if m == 0 {
          assert entries[0..] == entries;
        } else {
          assert entries[m..] == entries[1..][m - 1..];
        }
      }
    }
  }

  /** A newest entry that fits by itself survives. */
  lemma NewestSurvives(entries: Entries, size: int, maxBytes: int)
    requires entries != [] && size >= 1 && entries[|entries| - 1].bytes <= maxBytes
    ensures var t := Trimmed(entries, size, maxBytes); t != [] && t[|t| - 1] == entries[|entries| - 1]
  {
    var n := TrimKeepsLongestFittingEnd(entries, size, maxBytes);
    var last := entries[|entries| - 1..];
    assert last == [entries[|entries| - 1]] && last[1..] == [];
    assert Sum(last) == entries[|entries| - 1].bytes;
    assert Fits(entries[|entries| - 1..], size, maxBytes);
  }

  // ---------------------------------------------------------------- the recency list

  ghost predicate IsEndOf(part: Entries, whole: Entries) {
    exists n: nat :: n <= |whole| && part == whole[n..]
  }

  lemma {:induction false} RemoveElements(entries: Entries, key: string)
    ensures forall e :: e in RemoveKey(entries, key) <==> e in entries && e.key != key
  {
    if entries != [] {
      RemoveElements(entries[1..], key);
      assert entries == [entries[0]] + entries[1..];
    }
  }

  lemma {:induction false} RemoveKeepsDistinct(entries: Entries, key: string)
    requires DistinctKeys(entries)
    ensures DistinctKeys(RemoveKey(entries, key))
  {
    if entries != [] {
      RemoveKeepsDistinct(entries[1..], key);
      RemoveElements(entries[1..], key);
      var rest := RemoveKey(entries[1..], key);
      forall i | 0 <= i < |rest|
        ensures rest[i].key != entries[0].key
      {
        assert rest[i] in entries[1..];
      }
    }
  }

  lemma {:induction false} FindMeaning(entries: Entries, key: string)
    ensures Find(entries, key).Some? ==> Find(entries, key).value in entries && Find(entries, key).value.key == key
  {
    if entries != [] && entries[0].key != key {
      FindMeaning(entries[1..], key);
    }
  }

  lemma {:induction false} RemoveSum(entries: Entries, key: string)
    requires DistinctKeys(entries)
    ensures Sum(RemoveKey(entries, key)) == Sum(entries) - (if Find(entries, key).Some? then Find(entries, key).value.bytes else 0)
  {
    if entries != [] {
      if entries[0].key == key {
        RemoveAbsent(entries[1..], key);
        assert RemoveKey(entries, key) == entries[1..];
      } else {
        RemoveSum(entries[1..], key);
        assert RemoveKey(entries, key)[1..] == RemoveKey(entries[1..], key);
      }
    }
  }

  lemma {:induction false} RemoveAbsent(entries: Entries, key: string)
    requires forall i :: 0 <= i < |entries| ==> entries[i].key != key
    ensures RemoveKey(entries, key) == entries && Find(entries, key) == None
  {
    if entries != [] {
      RemoveAbsent(entries[1..], key);
      assert entries == [entries[0]] + entries[1..];
    }
  }

  lemma {:induction false} RemoveConcat(a: Entries, b: Entries, key: string)
    ensures RemoveKey(a + b, key) == RemoveKey(a, key) + RemoveKey(b, key)
  {
    if a == [] {
      assert a + b == b;
    } else {
      assert (a + b)[1..] == a[1..] + b;
      RemoveConcat(a[1..], b, key);
    }
  }

  lemma {:induction false} SumConcat(a: Entries, b: Entries)
    ensures Sum(a + b) == Sum(a) + Sum(b)
  {
    if a == [] {
      assert a + b == b;
    } else {
      assert (a + b)[1..] == a[1..] + b;
      SumConcat(a[1..], b);
    }
  }

  /** Moving a key to the end of the cache and of the unbounded list keeps the cache an end of the list. */
  lemma EndAfterUse(part: Entries, whole: Entries, e: Entry)
    requires IsEndOf(part, whole)
    ensures IsEndOf(RemoveKey(part, e.key) + [e], RemoveKey(whole, e.key) + [e])
    ensures IsEndOf(RemoveKey(part, e.key), RemoveKey(whole, e.key))
  {
    hide RemoveKey;
    var n: nat :| n <= |whole| && part == whole[n..];
    var front := RemoveKey(whole[..n], e.key);
    assert whole == whole[..n] + part;
    RemoveConcat(whole[..n], part, e.key);
    var list := RemoveKey(whole, e.key);
    assert list[|front|..] == RemoveKey(part, e.key);
    assert (list + [e])[|front|..] == RemoveKey(part, e.key) + [e];
  }

  lemma EmptyIsEnd()
    ensures IsEndOf([], [])
  {
    var none: Entries := [];
    assert none == none[0..];
  }

  lemma EndOfEnd(a: Entries, b: Entries, c: Entries)
    requires IsEndOf(a, b) && IsEndOf(b, c)
    ensures IsEndOf(a, c)
  {
    var n: nat :| n <= |b| && a == b[n..];
    var m: nat :| m <= |c| && b == c[m..];
    assert a == c[m + n..];
  }

  lemma TrimIsEnd(entries: Entries, size: int, maxBytes: int)
    ensures IsEndOf(Trimmed(entries, size, maxBytes), entries)
  {
    var n := TrimKeepsLongestFittingEnd(entries, size, maxBytes);
  }

  lemma EndKeeps(part: Entries, whole: Entries, lastPut: map<string, string>)
    requires IsEndOf(part, whole) && DistinctKeys(whole) && LastPut(whole, lastPut)
    ensures DistinctKeys(part) && LastPut(part, lastPut)
  {
  }

  // Every entry holds the last vector put for its key.
  ghost predicate LastPut(entries: Entries, lastPut: map<string, string>) {
    forall e :: e in entries ==> e.key in lastPut && lastPut[e.key] == e.vector
  }

  lemma UsedKeepsList(list: Entries, lastPut: map<string, string>, e: Entry)
    requires DistinctKeys(list) && LastPut(list, lastPut)
    ensures DistinctKeys(RemoveKey(list, e.key) + [e]) && LastPut(RemoveKey(list, e.key) + [e], lastPut[e.key := e.vector])
    ensures DistinctKeys(RemoveKey(list, e.key)) && LastPut(RemoveKey(list, e.key), lastPut[e.key := e.vector])
  {
    RemoveElements(list, e.key);
    RemoveKeepsDistinct(list, e.key);
    assert forall i :: 0 <= i < |RemoveKey(list, e.key)| ==> RemoveKey(list, e.key)[i] in RemoveKey(list, e.key);
  }

  // ---------------------------------------------------------------- the cache

  class SemanticCache {
    var entries: Entries
    var bytes: int
    /** Every key ever used and not dropped on purpose, by its last put or hit. */
    ghost var used: Entries
    ghost var lastPut: map<string, string>

    constructor ()
      ensures Valid() && entries == [] && used == [] && lastPut == map[]
    {
      entries, bytes, used, lastPut := [], 0, [], map[];
      EmptyIsEnd();
    }

    /** The counter is the sum of the entries, and the cache is the most recently used end of the unbounded list. */
    ghost predicate Valid()
      reads this
    {
      bytes == Sum(entries) && IsEndOf(entries, used) && DistinctKeys(used) && LastPut(used, lastPut)
    }

    method Trim(size: int, maxBytes: int)
      requires Valid()
      modifies `entries, `bytes
      ensures Valid() && entries == Trimmed(old(entries), size, maxBytes)
    {
      hide IsEndOf, DistinctKeys, LastPut, Trimmed, Sum;
      TrimIsEnd(entries, size, maxBytes);
      EndOfEnd(Trimmed(entries, size, maxBytes), entries, used);
      entries, bytes := PopOldest(entries, bytes, size, maxBytes);
    }

    method Clear()
      modifies `entries, `bytes, `used
      ensures entries == [] && bytes == 0 && used == []
    {
      entries, bytes, used := [], 0, [];
    }

    // The environment may change the limits between any two calls.
    method SemanticCacheGet(key: string, size: int, maxBytes: int) returns (vector: Option<string>)
      requires Valid()
      modifies `entries, `bytes, `used
      ensures Valid()
      ensures entries == AfterGet(old(entries), key, size, maxBytes)
      ensures vector == Found(old(entries), key, size, maxBytes)
      ensures vector.Some? ==> key in lastPut && vector.value == lastPut[key]
    {
      hide IsEndOf, DistinctKeys, LastPut, Trimmed, RemoveKey, Find, Sum;
      if size <= 0 || maxBytes <= 0 {
        Clear();
        EmptyIsValid(lastPut);
        return None;
      }
      Trim(size, maxBytes);
      var cached := Find(entries, key);
      if cached.None? {
        return None;
      }
      MoveToEndKeeps(entries, used, lastPut, key);
      EndAfterUse(entries, used, cached.value);
      entries := RemoveKey(entries, key) + [cached.value];
      used := RemoveKey(used, key) + [cached.value];
      vector := Some(cached.value.vector);
    }

    method SemanticCachePut(key: string, vector: string, vectorBytes: nat, size: int, maxBytes: int)
      requires Valid()
      modifies this
      ensures Valid() && lastPut == old(lastPut)[key := vector]
      ensures entries == AfterPut(old(entries), Entry(key, vector, vectorBytes), size, maxBytes)
    {
      hide IsEndOf, DistinctKeys, LastPut, Trimmed, RemoveKey, Sum;
      var e := Entry(key, vector, vectorBytes);
      lastPut := lastPut[key := vector];
      if size <= 0 || maxBytes <= 0 {
        Clear();
        EmptyIsValid(lastPut);
        return;
      }
      DropPrevious(e, old(lastPut));
      if vectorBytes <= maxBytes {
        Append(e);
      }
      Trim(size, maxBytes);
    }

    method DropPrevious(e: Entry, ghost before: map<string, string>)
      requires bytes == Sum(entries) && IsEndOf(entries, used) && DistinctKeys(used) && LastPut(used, before)
      requires lastPut == before[e.key := e.vector]
      modifies `entries, `bytes, `used
      ensures Valid() && entries == RemoveKey(old(entries), e.key) && used == RemoveKey(old(used), e.key)
      ensures DistinctKeys(used + [e]) && LastPut(used + [e], lastPut)
    {
      hide IsEndOf, DistinctKeys, LastPut, RemoveKey, Find, Sum;
      var previous := Find(entries, e.key);
      RemovedSum(entries, used, before, e.key);
      UsedKeepsList(used, before, e);
      EndAfterUse(entries, used, e);
      if previous.Some? {
        bytes := bytes - previous.value.bytes;
      }
      entries, used := RemoveKey(entries, e.key), RemoveKey(used, e.key);
    }

    method Append(e: Entry)
      requires Valid() && DistinctKeys(used + [e]) && LastPut(used + [e], lastPut)
      modifies `entries, `bytes, `used
      ensures Valid() && entries == old(entries) + [e]
    {
      hide DistinctKeys, LastPut, Sum;
      AppendedSum(entries, e);
      EndAppended(entries, used, e);
      entries, used := entries + [e], used + [e];
      bytes := bytes + e.bytes;
    }
  }

  /** Both bounds hold after a read; with a limit of zero the cache is empty. */
  function AfterGet(entries: Entries, key: string, size: int, maxBytes: int): Entries {
    if size <= 0 || maxBytes <= 0 then [] else
      var kept := Trimmed(entries, size, maxBytes);
      match Find(kept, key) case None => kept case Some(e) => RemoveKey(kept, key) + [e]
  }

  function Found(entries: Entries, key: string, size: int, maxBytes: int): Option<string> {
    if size <= 0 || maxBytes <= 0 then None else
      match Find(Trimmed(entries, size, maxBytes), key) case None => None case Some(e) => Some(e.vector)
  }

  function AfterPut(entries: Entries, e: Entry, size: int, maxBytes: int): Entries {
    if size <= 0 || maxBytes <= 0 then []
    else Trimmed(if e.bytes <= maxBytes then RemoveKey(entries, e.key) + [e] else RemoveKey(entries, e.key), size, maxBytes)
  }

  lemma {:induction false} FindFinds(entries: Entries, e: Entry)
    requires DistinctKeys(entries) && e in entries
    ensures Find(entries, e.key) == Some(e)
  {
    if entries[0] == e {
    } else {
      assert e in entries[1..];
      var j :| 0 <= j < |entries[1..]| && entries[1..][j] == e;
      assert entries[j + 1] == e;
      FindFinds(entries[1..], e);
    }
  }

  /** A read trims first; then an entry of the key is the answer and becomes the newest, and without one nothing moves. A
      limit of zero or less empties the cache. */
  lemma GetLeaves(entries: Entries, key: string, size: int, maxBytes: int, e: Entry)
    requires forall i, j :: 0 <= i < j < |entries| ==> entries[i].key != entries[j].key
    ensures size <= 0 || maxBytes <= 0 ==> AfterGet(entries, key, size, maxBytes) == [] && Found(entries, key, size, maxBytes) == None
    ensures size > 0 && maxBytes > 0 && e in Trimmed(entries, size, maxBytes) && e.key == key ==>
      && AfterGet(entries, key, size, maxBytes) == RemoveKey(Trimmed(entries, size, maxBytes), key) + [e]
      && Found(entries, key, size, maxBytes) == Some(e.vector)
    ensures size > 0 && maxBytes > 0 && (forall x :: x in Trimmed(entries, size, maxBytes) ==> x.key != key) ==>
      && AfterGet(entries, key, size, maxBytes) == Trimmed(entries, size, maxBytes)
      && Found(entries, key, size, maxBytes) == None
  {
    hide Trimmed, RemoveKey, Find;
    var kept := Trimmed(entries, size, maxBytes);
    TrimIsEnd(entries, size, maxBytes);
    EndDistinct(kept, entries);
    if e in kept && e.key == key {
      FindFinds(kept, e);
    }
    if forall x :: x in kept ==> x.key != key {
      RemoveAbsent(kept, key);
    }
  }

  /** A put replaces the key's entry by the new one as the newest, or only drops it when the new one is too large by itself,
      and then trims. */
  lemma PutLeaves(entries: Entries, e: Entry, size: int, maxBytes: int, other: Entry)
    ensures AfterPut(entries, e, size, maxBytes) ==
      if size <= 0 || maxBytes <= 0 then []
      else Trimmed(RemoveKey(entries, e.key) + (if e.bytes <= maxBytes then [e] else []), size, maxBytes)
    ensures RemoveKey([other], e.key) == if other.key == e.key then [] else [other]
  {
    hide Trimmed;
    assert [other][1..] == [];
    assert RemoveKey(entries, e.key) + [] == RemoveKey(entries, e.key);
  }

  /** After each call both bounds hold, and a vector that fits is the newest entry right after it was put. */
  lemma CallsKeepBounds(entries: Entries, key: string, e: Entry, size: int, maxBytes: int)
    requires DistinctKeys(entries)
    ensures var b := if size <= 0 || maxBytes <= 0 then 0 else size;
      && |AfterGet(entries, key, size, maxBytes)| <= b && |AfterPut(entries, e, size, maxBytes)| <= b
    ensures var b := if size <= 0 || maxBytes <= 0 then 0 else maxBytes;
      && Sum(AfterGet(entries, key, size, maxBytes)) <= b && Sum(AfterPut(entries, e, size, maxBytes)) <= b
    ensures size > 0 && e.bytes <= maxBytes && maxBytes > 0 ==>
      var put := AfterPut(entries, e, size, maxBytes); put != [] && put[|put| - 1] == e
  {
    hide Trimmed, RemoveKey, Sum, DistinctKeys;
    EmptyIsValid(map[]);
    if size > 0 && maxBytes > 0 {
      var kept := Trimmed(entries, size, maxBytes);
      TrimFits(entries, size, maxBytes);
      TrimIsEnd(entries, size, maxBytes);
      EndDistinct(kept, entries);
      if Find(kept, key).Some? {
        MovedSum(kept, key);
      }
      var rest := if e.bytes <= maxBytes then RemoveKey(entries, e.key) + [e] else RemoveKey(entries, e.key);
      TrimFits(rest, size, maxBytes);
      if e.bytes <= maxBytes {
        NewestSurvives(rest, size, maxBytes);
      }
    }
  }

  lemma EndDistinct(part: Entries, whole: Entries)
    requires IsEndOf(part, whole) && DistinctKeys(whole)
    ensures DistinctKeys(part)
  {
  }

  lemma MovedSum(entries: Entries, key: string)
    requires DistinctKeys(entries) && Find(entries, key).Some?
    ensures var e := Find(entries, key).value;
      Sum(RemoveKey(entries, key) + [e]) == Sum(entries) && |RemoveKey(entries, key) + [e]| == |entries|
  {
    RemoveSum(entries, key);
    RemovedOne(entries, key);
    AppendedSum(RemoveKey(entries, key), Find(entries, key).value);
  }

  // `while cache and (len(cache) > size or bytes > max_bytes): popitem(last=False)`
  method PopOldest(entries: Entries, bytes: int, size: int, maxBytes: int) returns (kept: Entries, keptBytes: int)
    requires bytes == Sum(entries)
    ensures kept == Trimmed(entries, size, maxBytes) && keptBytes == Sum(kept)
  {
    kept, keptBytes := entries, bytes;
    while kept != [] && (|kept| > size || keptBytes > maxBytes)
      invariant keptBytes == Sum(kept)
      invariant Trimmed(kept, size, maxBytes) == Trimmed(entries, size, maxBytes)
      decreases |kept|
    {
      keptBytes := keptBytes - kept[0].bytes;
      kept := kept[1..];
    }
  }

  lemma EmptyIsValid(lastPut: map<string, string>)
    ensures IsEndOf([], []) && DistinctKeys([]) && LastPut([], lastPut) && Sum([]) == 0
  {
    EmptyIsEnd();
  }

  lemma EndAppended(part: Entries, whole: Entries, e: Entry)
    requires IsEndOf(part, whole)
    ensures IsEndOf(part + [e], whole + [e])
  {
    var n: nat :| n <= |whole| && part == whole[n..];
    assert part + [e] == (whole + [e])[n..];
  }

  lemma TrimFits(entries: Entries, size: int, maxBytes: int)
    requires size >= 0 && maxBytes >= 0
    ensures Fits(Trimmed(entries, size, maxBytes), size, maxBytes)
  {
    var n := TrimKeepsLongestFittingEnd(entries, size, maxBytes);
  }

  lemma AppendedSum(entries: Entries, e: Entry)
    ensures Sum(entries + [e]) == Sum(entries) + e.bytes
  {
    SumConcat(entries, [e]);
    assert Sum([e]) == e.bytes + Sum([e][1..]);
  }

  lemma RemovedSum(entries: Entries, used: Entries, lastPut: map<string, string>, key: string)
    requires IsEndOf(entries, used) && DistinctKeys(used) && LastPut(used, lastPut)
    ensures Sum(RemoveKey(entries, key)) == Sum(entries) - (if Find(entries, key).Some? then Find(entries, key).value.bytes else 0)
  {
    EndKeeps(entries, used, lastPut);
    RemoveSum(entries, key);
  }

  // A hit moves its entry to the end: nothing else changes, and the list stays as it must be.
  lemma MoveToEndKeeps(entries: Entries, used: Entries, lastPut: map<string, string>, key: string)
    requires IsEndOf(entries, used) && DistinctKeys(used) && LastPut(used, lastPut) && Find(entries, key).Some?
    ensures var e := Find(entries, key).value;
      && e.key == key && key in lastPut && lastPut[key] == e.vector
      && DistinctKeys(RemoveKey(used, key) + [e]) && LastPut(RemoveKey(used, key) + [e], lastPut)
      && Sum(RemoveKey(entries, key) + [e]) == Sum(entries) && |RemoveKey(entries, key) + [e]| == |entries|
  {
    var e := Find(entries, key).value;
    EndKeeps(entries, used, lastPut);
    FindMeaning(entries, key);
    UsedKeepsList(used, lastPut, e);
    assert lastPut[e.key := e.vector] == lastPut;
    MovedSum(entries, key);
  }

  lemma {:induction false} RemovedOne(entries: Entries, key: string)
    requires DistinctKeys(entries) && Find(entries, key).Some?
    ensures |RemoveKey(entries, key)| == |entries| - 1
  {
    if entries[0].key == key {
      RemoveAbsent(entries[1..], key);
    } else {
      RemovedOne(entries[1..], key);
    }
  }

  /** Only least recently used entries are ever missing: a key that is in the list and not in the cache was used before
      every key that is in the cache. */
  lemma MissingAreOlder(entries: Entries, used: Entries, i: nat, j: nat)
    requires IsEndOf(entries, used) && DistinctKeys(used) && i < |used| && j < |used|
    requires used[i] !in entries && used[j] in entries
    ensures i < j
  {
    var n: nat :| n <= |used| && entries == used[n..];
    assert forall m :: n <= m < |used| ==> used[m] == entries[m - n];
  }
}
