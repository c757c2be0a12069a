/** The full listing of src/bilinc/client.py: pages in key order from src/bilinc/cloud/runtime.py, whose store changes
    between requests, fetched again in smaller pages when one is too large. */
module PageWalk {
  import opened Wrappers
  import opened KeyOrder
  import opened Cursors
  import opened Sequences

  type Item = (string, string)
  type Items = seq<Item>

  /** What the walk meets: the entries matching the filters at each request, all within one finite set of keys, and the
      pages whose text exceeds the response limit. */
  datatype Server = Server(codec: JsonCodec, stores: nat -> map<string, string>, universe: set<string>,
                           tooBig: (nat, Items) -> bool)

  ghost predicate Finite(s: Server) {
    forall t: nat :: s.stores(t).Keys <= s.universe
  }

  function KeysAfter(keys: set<string>, after: Option<string>): set<string> {
    set k | k in keys && (after.None? || Less(after.value, k))
  }

  // ---------------------------------------------------------------- one page

  datatype Response = BadCursor | TooLarge | Page(items: Items, next: Option<string>)

  // A cursor names the key to continue after; no cursor starts at the first key.
  function StartOf(s: Server, cursor: Option<string>): Result<Option<string>, CursorError> {
    if cursor.None? then Ok(None) else
      match ListAfterKey(s.codec, cursor.value)
      case Err(e) => Err(e)
      case Ok(key) => Ok(Some(key))
  }

  function ItemsOf(store: map<string, string>, keys: seq<string>): Items
    requires forall k :: k in keys ==> k in store
  {
    seq(|keys|, i requires 0 <= i < |keys| => assert keys[i] in keys; (keys[i], store[keys[i]]))
  }

  // `list_page`: the first entries strictly after the cursor, in key order.
  ghost function ListPage(store: map<string, string>, after: Option<string>, limit: nat): (keys: seq<string>)
    ensures forall k :: k in keys ==> k in KeysAfter(store.Keys, after)
  {
    var all := Sort(KeysAfter(store.Keys, after));
    assert forall k :: k in Take(all, limit) ==> k in all;
    Take(all, limit)
  }

  ghost function Respond(s: Server, t: nat, cursor: Option<string>, limit: nat): Response
    requires limit > 0
  {
    match StartOf(s, cursor)
    case Err(_) => BadCursor
    case Ok(after) =>
      var page := ListPage(s.stores(t), after, limit + 1);
      var keys := Take(page, limit);
      var items := ItemsOf(s.stores(t), keys);
      if |items| > 1 && s.tooBig(t, items) then TooLarge
      else Page(items, if |page| > limit then Some(EncodeCursor(keys[limit - 1])) else None)
  }

  method ListMemories(s: Server, t: nat, cursor: Option<string>, limit: nat) returns (r: Response)
    requires limit > 0
    ensures r == Respond(s, t, cursor, limit)
  {
    var start := StartOf(s, cursor);
    if start.Err? {
      return BadCursor;
    }
    var store := s.stores(t);
    var all := SortKeys(KeysAfter(store.Keys, start.value));
    var page := Take(all, limit + 1);
    assert page == ListPage(store, start.value, limit + 1);
    var hasMore := |page| > limit;
    var keys := Take(page, limit);
    var items := ItemsOf(store, keys);
    if |items| > 1 && s.tooBig(t, items) {
      return TooLarge;
    }
    r := Page(items, if hasMore then Some(EncodeCursor(keys[limit - 1])) else None);
  }

  /** A page to the letter: the stored keys after the cursor, in the order of their code points, are `all`; the first ones,
      `items`, are served, with a cursor for the last of them when there are more, unless several are too large together. */
  lemma PageIs(s: Server, t: nat, cursor: Option<string>, limit: nat, after: Option<string>, all: seq<string>, items: Items)
    requires limit > 0
    requires if cursor.None? then after.None? else ListAfterKey(s.codec, cursor.value).Ok? &&
                                                   after == Some(ListAfterKey(s.codec, cursor.value).value)
    requires forall k :: k in all <==> (k in s.stores(t) && (after.None? || after.value < k ||
      exists i :: 0 <= i < |after.value| && i < |k| && after.value[..i] == k[..i] && after.value[i] < k[i]))
    requires forall a, b :: 0 <= a < b < |all| ==>
               all[a] < all[b] || exists i :: 0 <= i < |all[a]| && i < |all[b]| && all[a][..i] == all[b][..i] && all[a][i] < all[b][i]
    requires |items| == if |all| > limit then limit else |all|
    requires forall a :: 0 <= a < |items| ==> all[a] in s.stores(t) && items[a] == (all[a], s.stores(t)[all[a]])
    ensures Respond(s, t, cursor, limit) ==
            if |items| > 1 && s.tooBig(t, items) then TooLarge
            else Page(items, if |all| > limit then Some(EncodeCursor(all[limit - 1])) else None)
  {
    hide EncodeCursor, ListAfterKey, Respond, ListPage, Take, ItemsOf;
    KeysInOrder(s.stores(t).Keys, after, all);
    ListedPage(s.stores(t), after, limit + 1, all);
    TakesFirst(all, limit);
    FirstItems(s.stores(t), all, |items|, items);
    RespondsWith(s, t, cursor, limit, after, all, items);
  }

  lemma ListedPage(store: map<string, string>, after: Option<string>, limit: nat, all: seq<string>)
    requires all == Sort(KeysAfter(store.Keys, after))
    ensures ListPage(store, after, limit) == Take(all, limit)
  {
    hide KeysAfter, Take;
  }

  lemma RespondsWith(s: Server, t: nat, cursor: Option<string>, limit: nat, after: Option<string>, all: seq<string>, items: Items)
    requires limit > 0 && StartOf(s, cursor) == Ok(after)
    requires ListPage(s.stores(t), after, limit + 1) == Take(all, limit + 1)
    requires |Take(all, limit + 1)| > limit <==> |all| > limit
    requires var keys := Take(Take(all, limit + 1), limit);
      && (forall k :: k in keys ==> k in s.stores(t)) && ItemsOf(s.stores(t), keys) == items
      && (|all| > limit ==> |keys| == limit && keys[limit - 1] == all[limit - 1])
    ensures Respond(s, t, cursor, limit) ==
            if |items| > 1 && s.tooBig(t, items) then TooLarge
            else Page(items, if |all| > limit then Some(EncodeCursor(all[limit - 1])) else None)
  {
    hide EncodeCursor, ListAfterKey, ListPage, Take, ItemsOf, StartOf;
  }

  lemma TakesFirst(all: seq<string>, limit: nat)
    requires limit > 0
    ensures |Take(all, limit + 1)| > limit <==> |all| > limit
    ensures Take(Take(all, limit + 1), limit) == all[..if |all| > limit then limit else |all|]
    ensures |all| > limit ==> |Take(Take(all, limit + 1), limit)| == limit &&
                              Take(Take(all, limit + 1), limit)[limit - 1] == all[limit - 1]
  {
  }

  lemma FirstItems(store: map<string, string>, all: seq<string>, n: nat, items: Items)
    requires n <= |all| && |items| == n && forall k :: k in all ==> k in store
    requires forall a :: 0 <= a < n ==> all[a] in store && items[a] == (all[a], store[all[a]])
    ensures forall k :: k in all[..n] ==> k in store
    ensures ItemsOf(store, all[..n]) == items
  {
    assert forall k :: k in all[..n] ==> k in all;
  }

  lemma KeysInOrder(keys: set<string>, after: Option<string>, all: seq<string>)
    requires forall k :: k in all <==> (k in keys && (after.None? || after.value < k ||
      exists i :: 0 <= i < |after.value| && i < |k| && after.value[..i] == k[..i] && after.value[i] < k[i]))
    requires forall a, b :: 0 <= a < b < |all| ==>
               all[a] < all[b] || exists i :: 0 <= i < |all[a]| && i < |all[b]| && all[a][..i] == all[b][..i] && all[a][i] < all[b][i]
    ensures all == Sort(KeysAfter(keys, after))
  {
    hide Less;
    forall k | k in keys
      ensures k in all <==> k in KeysAfter(keys, after)
    {
      if after.Some? {
        LessIsLexicographic(after.value, k);
      }
    }
    forall a, b | 0 <= a < b < |all|
      ensures Less(all[a], all[b])
    {
      LessIsLexicographic(all[a], all[b]);
    }
    SortSorts(KeysAfter(keys, after));
    SortedUnique(all, Sort(KeysAfter(keys, after)));
  }

  /** A cursor that is refused gets no page. */
  lemma NoPageIs(s: Server, t: nat, cursor: string, limit: nat)
    requires limit > 0
    ensures Respond(s, t, Some(cursor), limit).BadCursor? <==> ListAfterKey(s.codec, cursor).Err?
  {
    hide EncodeCursor, ListAfterKey;
  }

  // ---------------------------------------------------------------- the walk

  /** `sorted({page_size, min(page_size, 10), 1}, reverse=True)` */
  function Sizes(pageSize: nat): (sizes: seq<nat>)
    requires pageSize > 0
    ensures sizes != [] && sizes[0] == pageSize && sizes[|sizes| - 1] == 1
    ensures forall i :: 0 <= i < |sizes| ==> sizes[i] > 0
    ensures forall n :: n in sizes <==> n == pageSize || n == 1 || (n == 10 && pageSize > 10)
    ensures forall i, j :: 0 <= i < j < |sizes| ==> sizes[i] > sizes[j]
  {
    if pageSize == 1 then [1] else if pageSize <= 10 then [pageSize, 1] else [pageSize, 10, 1]
  }

  /** How a walk ends. The caller cannot tell `CutShort`, an empty cursor taken for the end, from `Finished`. */
  datatype End = Finished | CutShort | Refused | Oversized | Repeated

  /** `boundaries` are the keys at which one page ended and more was to come. */
  datatype Outcome = Outcome(items: Items, end: End, boundaries: seq<string>, requests: nat)

  function Prepend(items: Items, boundary: string, rest: Outcome): Outcome {
    Outcome(items + rest.items, rest.end, [boundary] + rest.boundaries, rest.requests + 1)
  }

  function LaterBy(rest: Outcome): Outcome {
    rest.(requests := rest.requests + 1)
  }

  // How many keys can still come.
  function Ahead(s: Server, cursor: Option<string>): nat {
    match StartOf(s, cursor)
    case Err(_) => 0
    case Ok(after) => |KeysAfter(s.universe, after)|
  }

  function Pred(i: nat): nat {
    if i == 0 then 0 else i - 1
  }

  function LastKey(items: Items): string
    requires items != []
  {
    items[|items| - 1].0
  }

  ghost function Walk(s: Server, sizes: seq<nat>, t: nat, cursor: Option<string>, i: nat): Outcome
    requires Finite(s) && i < |sizes| && forall j :: 0 <= j < |sizes| ==> sizes[j] > 0
    decreases Ahead(s, cursor), |sizes| - i
  {
    match Respond(s, t, cursor, sizes[i])
    case BadCursor => Outcome([], Refused, [], 1)
    case TooLarge =>
      if i == |sizes| - 1 then Outcome([], Oversized, [], 1) else LaterBy(Walk(s, sizes, t + 1, cursor, i + 1))
    case Page(items, next) =>
      if next.None? then Outcome(items, Finished, [], 1)
      else
        PageEnds(s, t, cursor, sizes[i]);
        if next.value == "" then Outcome(items, CutShort, [LastKey(items)], 1)
        else
          Prepend(items, LastKey(items), Walk(s, sizes, t + 1, next, Pred(i)))
  }

  lemma Shrinks(keys: set<string>, after: Option<string>, k: string)
    requires k in KeysAfter(keys, after)
    ensures |KeysAfter(keys, Some(k))| < |KeysAfter(keys, after)|
    ensures KeysAfter(keys, Some(k)) <= KeysAfter(keys, after)
  {
    var small, big := KeysAfter(keys, Some(k)), KeysAfter(keys, after);
    LessTrichotomy(k, k);
    forall x | x in small
      ensures x in big
    {
      if after.Some? {
        LessTransitive(after.value, k, x);
      }
    }
    assert small <= big - {k};
    SubsetSize(small, big - {k});
  }

  /** A page ends at its last key, which is past the cursor; continuing there leaves fewer keys ahead. */
  lemma PageEnds(s: Server, t: nat, cursor: Option<string>, limit: nat)
    requires Finite(s) && limit > 0 && Respond(s, t, cursor, limit).Page? && Respond(s, t, cursor, limit).next.Some?
    ensures var r := Respond(s, t, cursor, limit);
      && r.items != [] && r.next == Some(EncodeCursor(LastKey(r.items))) && |r.items| == limit
      && StartOf(s, cursor).Ok? && (StartOf(s, cursor).value.Some? ==> Less(StartOf(s, cursor).value.value, LastKey(r.items)))
      && Ahead(s, r.next) < Ahead(s, cursor)
  {
    hide EncodeCursor, ListAfterKey, Less;
    var r := Respond(s, t, cursor, limit);
    var after := StartOf(s, cursor).value;
    var page := ListPage(s.stores(t), after, limit + 1);
    var last := LastKey(r.items);
    assert page[limit - 1] == last && page[limit - 1] in page;
    assert s.stores(t).Keys <= s.universe;
    Shrinks(s.universe, after, last);
    NextStart(s, last);
  }

  // Decoding the cursor of a key gives that key, or nothing.
  lemma NextStart(s: Server, key: string)
    ensures StartOf(s, Some(EncodeCursor(key))) == Ok(Some(key)) || StartOf(s, Some(EncodeCursor(key))).Err?
    ensures StartOf(s, Some(EncodeCursor(key))).Ok? <==> key != "" && !IsOrderCursorPayload(s.codec, key)
  {
    hide EncodeCursor, DecodeCursor, ListAfterKey;
    KeysThatContinue(s.codec, key);
    if ListAfterKey(s.codec, EncodeCursor(key)).Ok? {
      ListedKey(s.codec, key);
    }
  }

  lemma ListedKey(codec: JsonCodec, key: string)
    requires ListAfterKey(codec, EncodeCursor(key)).Ok?
    ensures ListAfterKey(codec, EncodeCursor(key)).value == key
  {
    hide EncodeCursor, DecodeCursor;
    var listed := ListAfterKey(codec, EncodeCursor(key)).value;
    DecodeAcceptsExactlyEncodings(EncodeCursor(key), listed);
    CursorsAreInjective(key, listed);
  }

  // ---------------------------------------------------------------- the loop

  // The loop does the specified walk.
  method IterPages(s: Server, pageSize: nat, start: Option<string>) returns (outcome: Outcome)
    requires Finite(s) && pageSize > 0
    ensures outcome == Walk(s, Sizes(pageSize), 0, start, 0)
  {
    hide Respond, EncodeCursor, ListAfterKey, StartOf, KeysAfter, Ahead, Sizes, After, SeenBefore;
    var sizes := Sizes(pageSize);
    var sizeIndex := 0;
    var seen: set<string> := {};
    var cursor := start;
    var items: Items, boundaries, t := [], [], 0;
    ghost var whole := Walk(s, sizes, 0, start, 0);
    AfterNothing(whole);
    NothingSeen(s, cursor);
    while true
      invariant 0 <= sizeIndex < |sizes|
      invariant whole == After(items, boundaries, t, Walk(s, sizes, t, cursor, sizeIndex))
      invariant SeenBefore(s, seen, cursor)
      decreases Ahead(s, cursor), |sizes| - sizeIndex
    {
      ghost var rest := Walk(s, sizes, t, cursor, sizeIndex);
      AfterSteps(items, boundaries, t, rest);
      var page := ListMemories(s, t, cursor, sizes[sizeIndex]);
      t := t + 1;
      if page.BadCursor? {
        return Outcome(items, Refused, boundaries, t);
      }
      if page.TooLarge? {
        if sizeIndex == |sizes| - 1 {
          return Outcome(items, Oversized, boundaries, t);
        }
        sizeIndex := sizeIndex + 1;
        AfterMore(items, boundaries, t - 1, [], "", Walk(s, sizes, t, cursor, sizeIndex));
        continue;
      }
      var size := sizes[sizeIndex];
      sizeIndex := if sizeIndex - 1 < 0 then 0 else sizeIndex - 1;
      items := items + page.items;
      if page.next.None? {
        return Outcome(items, Finished, boundaries, t);
      }
      PageEnds(s, t - 1, cursor, size);
      boundaries := boundaries + [LastKey(page.items)];
      if page.next.value == "" {
        return Outcome(items, CutShort, boundaries, t);
      }
      NotSeen(s, seen, cursor, LastKey(page.items));
      outcome := Outcome(items, Repeated, boundaries, t);
      if page.next.value in seen {
        return;
      }
      AfterMore(items[..|items| - |page.items|], boundaries[..|boundaries| - 1], t - 1, page.items, LastKey(page.items),
                Walk(s, sizes, t, page.next, sizeIndex));
      seen := seen + {page.next.value};
      cursor := page.next;
    }
  }

  lemma AfterNothing(rest: Outcome)
    ensures After([], [], 0, rest) == rest
  {
  }

  lemma AfterSteps(items: Items, boundaries: seq<string>, t: nat, rest: Outcome)
    ensures rest.items == [] && rest.boundaries == [] && rest.requests == 1 ==>
      After(items, boundaries, t, rest) == Outcome(items, rest.end, boundaries, t + 1)
    ensures rest.boundaries == [] && rest.requests == 1 ==>
      After(items, boundaries, t, rest) == Outcome(items + rest.items, rest.end, boundaries, t + 1)
    ensures rest.requests == 1 ==>
      After(items, boundaries, t, rest) == Outcome(items + rest.items, rest.end, boundaries + rest.boundaries, t + 1)
  {
  }

  lemma AfterMore(items: Items, boundaries: seq<string>, t: nat, page: Items, boundary: string, rest: Outcome)
    ensures After(items, boundaries, t, LaterBy(rest)) == After(items, boundaries, t + 1, rest)
    ensures After(items, boundaries, t, Prepend(page, boundary, rest)) ==
            After(items + page, boundaries + [boundary], t + 1, rest)
  {
    assert boundaries + ([boundary] + rest.boundaries) == (boundaries + [boundary]) + rest.boundaries;
    assert items + (page + rest.items) == (items + page) + rest.items;
  }

  function After(items: Items, boundaries: seq<string>, requests: nat, rest: Outcome): Outcome {
    Outcome(items + rest.items, rest.end, boundaries + rest.boundaries, requests + rest.requests)
  }

  // The walk is not before the key.
  ghost predicate NotPast(s: Server, cursor: Option<string>, k: string) {
    StartOf(s, cursor).Ok? ==> StartOf(s, cursor).value.Some? && !Less(StartOf(s, cursor).value.value, k)
  }

  ghost predicate SeenBefore(s: Server, seen: set<string>, cursor: Option<string>) {
    forall c :: c in seen ==> exists k :: c == EncodeCursor(k) && NotPast(s, cursor, k)
  }

  lemma NothingSeen(s: Server, cursor: Option<string>)
    ensures SeenBefore(s, {}, cursor)
  {
  }

  /** The cursor of a key past the present one is new, so a repeated cursor is never met. */
  lemma NotSeen(s: Server, seen: set<string>, cursor: Option<string>, key: string)
    requires SeenBefore(s, seen, cursor) && StartOf(s, cursor).Ok?
    requires StartOf(s, cursor).value.Some? ==> Less(StartOf(s, cursor).value.value, key)
    ensures EncodeCursor(key) !in seen && SeenBefore(s, seen + {EncodeCursor(key)}, Some(EncodeCursor(key)))
  {
    hide EncodeCursor, ListAfterKey, StartOf;
    NextStart(s, key);
    LessTrichotomy(key, key);
    assert NotPast(s, Some(EncodeCursor(key)), key);
    forall c | c in seen
      ensures c != EncodeCursor(key)
      ensures exists k :: c == EncodeCursor(k) && NotPast(s, Some(EncodeCursor(key)), k)
    {
      var k :| c == EncodeCursor(k) && NotPast(s, cursor, k);
      if EncodeCursor(k) == EncodeCursor(key) {
        CursorsAreInjective(k, key);
      }
      if Less(key, k) {
        LessTransitive(StartOf(s, cursor).value.value, key, k);
      }
      assert NotPast(s, Some(EncodeCursor(key)), k);
    }
  }

  // ---------------------------------------------------------------- what a page holds

  ghost predicate Past(after: Option<string>, key: string) {
    after.Some? ==> Less(after.value, key)
  }

  /** Strictly increasing keys, all past the starting point. */
  ghost predicate Ascends(items: Items, after: Option<string>) {
    && (forall a :: 0 <= a < |items| ==> Past(after, items[a].0))
    && (forall a, b :: 0 <= a < b < |items| ==> Less(items[a].0, items[b].0))
  }

  predicate Lists(items: Items, k: string) {
    exists a :: 0 <= a < |items| && items[a].0 == k
  }

  lemma PageHolds(s: Server, t: nat, cursor: Option<string>, limit: nat)
    requires Finite(s) && limit > 0 && Respond(s, t, cursor, limit).Page?
    ensures StartOf(s, cursor).Ok?
    ensures var r := Respond(s, t, cursor, limit);
      && Ascends(r.items, StartOf(s, cursor).value)
      && (forall a :: 0 <= a < |r.items| ==> r.items[a].0 in s.stores(t) && s.stores(t)[r.items[a].0] == r.items[a].1)
  {
    hide EncodeCursor, ListAfterKey, Less;
    var after := StartOf(s, cursor).value;
    SortSorts(KeysAfter(s.stores(t).Keys, after));
    var r := Respond(s, t, cursor, limit);
    var all := Sort(KeysAfter(s.stores(t).Keys, after));
    assert forall a :: 0 <= a < |r.items| ==> r.items[a].0 == all[a] && all[a] in all;
  }

  /** A page skips nothing: a stored key past the start is on it, or past its last key when more is to come. */
  lemma PageSkipsNothing(s: Server, t: nat, cursor: Option<string>, limit: nat, k: string)
    requires Finite(s) && limit > 0 && Respond(s, t, cursor, limit).Page?
    requires k in s.stores(t) && Past(StartOf(s, cursor).value, k)
    ensures var r := Respond(s, t, cursor, limit);
      Lists(r.items, k) || (r.next.Some? && r.items != [] && Less(LastKey(r.items), k))
  {
    hide EncodeCursor, ListAfterKey, Less;
    var after := StartOf(s, cursor).value;
    SortSorts(KeysAfter(s.stores(t).Keys, after));
    var r := Respond(s, t, cursor, limit);
    var all := Sort(KeysAfter(s.stores(t).Keys, after));
    assert k in all;
    var j :| 0 <= j < |all| && all[j] == k;
    if j < |r.items| {
      assert r.items[j].0 == k;
    } else {
      assert r.items[limit - 1].0 == all[limit - 1];
    }
  }

  // ---------------------------------------------------------------- theorems about every walk

  ghost predicate Usable(s: Server, sizes: seq<nat>) {
    Finite(s) && |sizes| > 0 && sizes[|sizes| - 1] == 1 && forall j :: 0 <= j < |sizes| ==> sizes[j] > 0
  }

  lemma OneEntryFits(s: Server, t: nat, cursor: Option<string>)
    ensures !Respond(s, t, cursor, 1).TooLarge?
  {
    hide ListAfterKey, StartOf;
  }

  /** The walk never fails on size, and no cursor ever repeats. */
  lemma {:induction false} NeverFailsOnSize(s: Server, sizes: seq<nat>, t: nat, cursor: Option<string>, i: nat)
    requires Usable(s, sizes) && i < |sizes|
    ensures !Walk(s, sizes, t, cursor, i).end.Oversized? && !Walk(s, sizes, t, cursor, i).end.Repeated?
    decreases Ahead(s, cursor), |sizes| - i
  {
    hide Respond, Ahead, EncodeCursor;
    var r := Respond(s, t, cursor, sizes[i]);
    OneEntryFits(s, t, cursor);
    if r.TooLarge? {
      NeverFailsOnSize(s, sizes, t + 1, cursor, i + 1);
    } else if r.Page? && r.next.Some? {
      PageEnds(s, t, cursor, sizes[i]);
      if r.next.value != "" {
        NeverFailsOnSize(s, sizes, t + 1, r.next, Pred(i));
      }
    }
  }

  lemma NothingAscends(after: Option<string>)
    ensures Ascends([], after)
  {
  }

  lemma AscendsOn(page: Items, rest: Items, after: Option<string>)
    requires page != [] && Ascends(page, after) && Ascends(rest, Some(LastKey(page)))
    ensures Ascends(page + rest, after)
  {
    hide Less;
    var all := page + rest;
    forall a, b | 0 <= a < b < |all|
      ensures Less(all[a].0, all[b].0)
    {
      if a < |page| <= b && a != |page| - 1 {
        LessTransitive(page[a].0, LastKey(page), all[b].0);
      }
    }
    forall a | 0 <= a < |all|
      ensures Past(after, all[a].0)
    {
      if a >= |page| && after.Some? {
        LessTransitive(after.value, LastKey(page), all[a].0);
      }
    }
  }

  // Where a walk from this cursor starts, if the server accepts the cursor.
  function StartKey(s: Server, cursor: Option<string>): Option<string> {
    match StartOf(s, cursor) case Ok(after) => after case Err(_) => None
  }

  lemma StartOfNext(s: Server, key: string)
    ensures StartOf(s, Some(EncodeCursor(key))).Ok? ==> StartKey(s, Some(EncodeCursor(key))) == Some(key)
  {
    hide EncodeCursor, StartOf;
    NextStart(s, key);
  }

  lemma {:induction false} RefusedListsNothing(s: Server, sizes: seq<nat>, t: nat, cursor: Option<string>, i: nat)
    requires Usable(s, sizes) && i < |sizes| && StartOf(s, cursor).Err?
    ensures Walk(s, sizes, t, cursor, i) == Outcome([], Refused, [], 1)
  {
  }

  /** Keys come in strictly increasing order, so none comes twice, and every entry was stored when it was read. */
  lemma {:induction false} WalkAscends(s: Server, sizes: seq<nat>, t: nat, cursor: Option<string>, i: nat)
    requires Usable(s, sizes) && i < |sizes|
    ensures Ascends(Walk(s, sizes, t, cursor, i).items, StartKey(s, cursor))
    decreases Ahead(s, cursor), |sizes| - i
  {
    hide Respond, Ahead, EncodeCursor, Ascends, StartOf;
    var r := Respond(s, t, cursor, sizes[i]);
    NothingAscends(StartKey(s, cursor));
    if r.TooLarge? && i < |sizes| - 1 {
      WalkAscends(s, sizes, t + 1, cursor, i + 1);
    } else if r.Page? {
      PageHolds(s, t, cursor, sizes[i]);
      if r.next.Some? {
        PageEnds(s, t, cursor, sizes[i]);
        if r.next.value != "" {
          WalkAscends(s, sizes, t + 1, r.next, Pred(i));
          StartOfNext(s, LastKey(r.items));
          var rest := Walk(s, sizes, t + 1, r.next, Pred(i)).items;
          if StartOf(s, r.next).Err? {
            RefusedListsNothing(s, sizes, t + 1, r.next, Pred(i));
            NothingAscends(Some(LastKey(r.items)));
          }
          AscendsOn(r.items, rest, StartKey(s, cursor));
        }
      }
    }
  }

  // The entry was stored at one of the n requests from t on.
  ghost predicate WasStored(s: Server, t: nat, n: nat, item: Item) {
    exists u: nat :: t <= u < t + n && item.0 in s.stores(u) && s.stores(u)[item.0] == item.1
  }

  ghost predicate AllStored(s: Server, t: nat, n: nat, items: Items) {
    forall a :: 0 <= a < |items| ==> WasStored(s, t, n, items[a])
  }

  lemma NothingStored(s: Server, t: nat)
    ensures AllStored(s, t, 1, [])
  {
  }

  lemma PageStored(s: Server, t: nat, items: Items)
    requires forall a :: 0 <= a < |items| ==> items[a].0 in s.stores(t) && s.stores(t)[items[a].0] == items[a].1
    ensures AllStored(s, t, 1, items)
  {
  }

  lemma StoredBoth(s: Server, t: nat, n: nat, a: Items, b: Items)
    requires AllStored(s, t, n, a) && AllStored(s, t, n, b)
    ensures AllStored(s, t, n, a + b)
  {
  }

  lemma StoredLonger(s: Server, t: nat, n: nat, t': nat, n': nat, items: Items)
    requires AllStored(s, t, n, items) && t' <= t && t + n <= t' + n'
    ensures AllStored(s, t', n', items)
  {
    forall a | 0 <= a < |items|
      ensures WasStored(s, t', n', items[a])
    {
      assert WasStored(s, t, n, items[a]);
    }
  }

  lemma {:induction false} WalkListsStoredEntries(s: Server, sizes: seq<nat>, t: nat, cursor: Option<string>, i: nat)
    requires Usable(s, sizes) && i < |sizes|
    ensures var o := Walk(s, sizes, t, cursor, i); o.requests > 0 && AllStored(s, t, o.requests, o.items)
    decreases Ahead(s, cursor), |sizes| - i
  {
    hide Respond, Ahead, EncodeCursor, Ascends, StartOf, AllStored;
    var r := Respond(s, t, cursor, sizes[i]);
    NothingStored(s, t);
    if r.TooLarge? && i < |sizes| - 1 {
      WalkListsStoredEntries(s, sizes, t + 1, cursor, i + 1);
      var o := Walk(s, sizes, t + 1, cursor, i + 1);
      StoredLonger(s, t + 1, o.requests, t, o.requests + 1, o.items);
    } else if r.Page? {
      PageHolds(s, t, cursor, sizes[i]);
      PageStored(s, t, r.items);
      if r.next.Some? {
        PageEnds(s, t, cursor, sizes[i]);
        if r.next.value != "" {
          WalkListsStoredEntries(s, sizes, t + 1, r.next, Pred(i));
          var o := Walk(s, sizes, t + 1, r.next, Pred(i));
          StoredLonger(s, t, 1, t, o.requests + 1, r.items);
          StoredLonger(s, t + 1, o.requests, t, o.requests + 1, o.items);
          StoredBoth(s, t, o.requests + 1, r.items, o.items);
        }
      }
    }
  }

  ghost predicate Throughout(s: Server, t: nat, n: nat, k: string) {
    forall u: nat :: t <= u < t + n ==> k in s.stores(u)
  }

  /** A walk that finishes has listed every entry past its start that was stored at each of its requests, however other
      keys came and went and whatever sizes it stepped through. */
  lemma {:induction false} FinishedWalkMissesNothing(s: Server, sizes: seq<nat>, t: nat, cursor: Option<string>, i: nat, k: string)
    requires Usable(s, sizes) && i < |sizes| && Walk(s, sizes, t, cursor, i).end.Finished?
    requires Throughout(s, t, Walk(s, sizes, t, cursor, i).requests, k) && Past(StartKey(s, cursor), k)
    ensures Lists(Walk(s, sizes, t, cursor, i).items, k)
    decreases Ahead(s, cursor), |sizes| - i
  {
    hide Respond, Ahead, EncodeCursor, StartOf, Less;
    var r := Respond(s, t, cursor, sizes[i]);
    if r.TooLarge? {
      FinishedWalkMissesNothing(s, sizes, t + 1, cursor, i + 1, k);
    } else {
      PageHolds(s, t, cursor, sizes[i]);
      WalkListsStoredEntries(s, sizes, t, cursor, i);
      PageSkipsNothing(s, t, cursor, sizes[i], k);
      if r.next.Some? {
        PageEnds(s, t, cursor, sizes[i]);
        var rest := Walk(s, sizes, t + 1, r.next, Pred(i));
        if Lists(r.items, k) {
          var a :| 0 <= a < |r.items| && r.items[a].0 == k;
          assert (r.items + rest.items)[a].0 == k;
        } else {
          StartOfNext(s, LastKey(r.items));
          if StartOf(s, r.next).Err? {
            RefusedListsNothing(s, sizes, t + 1, r.next, Pred(i));
          }
          FinishedWalkMissesNothing(s, sizes, t + 1, r.next, Pred(i), k);
          var a :| 0 <= a < |rest.items| && rest.items[a].0 == k;
          assert (r.items + rest.items)[|r.items| + a].0 == k;
        }
      }
    }
  }

  /** `iter_memories`: steps down a size when a page is too large and back up after one that fits. What it lists comes in the
      order of code points, so nothing twice, and was stored at the request that read it; and a walk from the start that ends
      by itself has listed every key stored at each of its requests. */
  method IterMemories(s: Server, pageSize: nat, start: Option<string>) returns (outcome: Outcome)
    requires Finite(s) && pageSize > 0
    ensures outcome == Walk(s, Sizes(pageSize), 0, start, 0)
    ensures !outcome.end.Oversized? && !outcome.end.Repeated?
    ensures forall a, b :: 0 <= a < b < |outcome.items| ==> var x, y := outcome.items[a].0, outcome.items[b].0;
      x < y || exists i :: 0 <= i < |x| && i < |y| && x[..i] == y[..i] && x[i] < y[i]
    ensures forall a :: 0 <= a < |outcome.items| ==> outcome.items[a].0 in s.universe && exists u: nat ::
      u < outcome.requests && outcome.items[a].0 in s.stores(u) && s.stores(u)[outcome.items[a].0] == outcome.items[a].1
    ensures start.None? && outcome.end.Finished? ==>
      forall k :: k in s.universe && (forall u: nat :: u < outcome.requests ==> k in s.stores(u)) ==>
        exists a :: 0 <= a < |outcome.items| && outcome.items[a].0 == k
  {
    hide Walk, Sizes, Ascends, AllStored, Respond, EncodeCursor, ListAfterKey, Less;
    outcome := IterPages(s, pageSize, start);
    ghost var sizes := Sizes(pageSize);
    NeverFailsOnSize(s, sizes, 0, start, 0);
    WalkAscends(s, sizes, 0, start, 0);
    WalkListsStoredEntries(s, sizes, 0, start, 0);
    InCodePointOrder(outcome.items, StartKey(s, start));
    StoredWhenRead(s, outcome.requests, outcome.items);
    forall k | start.None? && outcome.end.Finished? && k in s.universe &&
               forall u: nat :: u < outcome.requests ==> k in s.stores(u)
      ensures exists a :: 0 <= a < |outcome.items| && outcome.items[a].0 == k
    {
      FinishedWalkMissesNothing(s, sizes, 0, start, 0, k);
    }
  }

  lemma InCodePointOrder(items: Items, after: Option<string>)
    requires Ascends(items, after)
    ensures forall a, b :: 0 <= a < b < |items| ==> var x, y := items[a].0, items[b].0;
      x < y || exists i :: 0 <= i < |x| && i < |y| && x[..i] == y[..i] && x[i] < y[i]
  {
    hide Less;
    forall a, b | 0 <= a < b < |items|
      ensures var x, y := items[a].0, items[b].0;
        x < y || exists i :: 0 <= i < |x| && i < |y| && x[..i] == y[..i] && x[i] < y[i]
    {
      LessIsLexicographic(items[a].0, items[b].0);
    }
  }

  lemma StoredWhenRead(s: Server, n: nat, items: Items)
    requires Finite(s) && AllStored(s, 0, n, items)
    ensures forall a :: 0 <= a < |items| ==> items[a].0 in s.universe && exists u: nat :: u < n && items[a].0 in s.stores(u) && s.stores(u)[items[a].0] == items[a].1
  {
    forall a | 0 <= a < |items|
      ensures items[a].0 in s.universe && exists u: nat :: u < n && items[a].0 in s.stores(u) && s.stores(u)[items[a].0] == items[a].1
    {
      assert WasStored(s, 0, n, items[a]);
      var u: nat :| 0 <= u < 0 + n && items[a].0 in s.stores(u) && s.stores(u)[items[a].0] == items[a].1;
      assert u < n && items[a].0 in s.stores(u) && s.stores(u).Keys <= s.universe;
    }
  }

  /** How the walk goes on: after a page too large it asks again in the next smaller size, after a page that fits from there
      on in the next larger one, and an empty cursor reads as the end. */
  lemma WalkGoesOn(s: Server, sizes: seq<nat>, t: nat, cursor: Option<string>, i: nat)
    requires Finite(s) && i < |sizes| && forall j :: 0 <= j < |sizes| ==> sizes[j] > 0
    ensures var r, o := Respond(s, t, cursor, sizes[i]), Walk(s, sizes, t, cursor, i);
      match r
      case BadCursor => o == Outcome([], Refused, [], 1)
      case TooLarge =>
        if i + 1 == |sizes| then o == Outcome([], Oversized, [], 1)
        else var more := Walk(s, sizes, t + 1, cursor, i + 1);
             o == Outcome(more.items, more.end, more.boundaries, more.requests + 1)
      case Page(items, None) => o == Outcome(items, Finished, [], 1)
      case Page(items, Some(next)) =>
        && items != []
        && if next == "" then o == Outcome(items, CutShort, [items[|items| - 1].0], 1)
           else var more := Walk(s, sizes, t + 1, r.next, if i == 0 then 0 else i - 1);
                o == Outcome(items + more.items, more.end, [items[|items| - 1].0] + more.boundaries, more.requests + 1)
  {
    hide Respond, Ahead;
    if Respond(s, t, cursor, sizes[i]).Page? && Respond(s, t, cursor, sizes[i]).next.Some? {
      PageEnds(s, t, cursor, sizes[i]);
    }
  }

  /** A page that ends at this key can be continued. */
  predicate Continues(codec: JsonCodec, k: string) {
    k != "" && !IsOrderCursorPayload(codec, k)
  }

  lemma CursorIsEmptyForEmptyKey(key: string)
    ensures EncodeCursor(key) == "" <==> key == ""
  {
    hide EncodeCursor;
    EncodedCursorIs("");
    if EncodeCursor(key) == "" {
      CursorsAreInjective(key, "");
    }
  }

  lemma BadCursorMeans(s: Server, t: nat, cursor: Option<string>, limit: nat)
    requires limit > 0
    ensures Respond(s, t, cursor, limit).BadCursor? <==> StartOf(s, cursor).Err?
  {
    hide ListAfterKey, EncodeCursor, StartOf;
  }

  /** Exactly when a walk finishes: its start is accepted, and no page with more to come ends at the empty key, whose
      cursor reads as the end, or at a key that is itself an order payload, whose cursor is refused. */
  lemma {:induction false} FinishesExactlyWhen(s: Server, sizes: seq<nat>, t: nat, cursor: Option<string>, i: nat)
    requires Usable(s, sizes) && i < |sizes|
    ensures var o := Walk(s, sizes, t, cursor, i);
      o.end.Finished? <==> StartOf(s, cursor).Ok? && forall b :: 0 <= b < |o.boundaries| ==> Continues(s.codec, o.boundaries[b])
    decreases Ahead(s, cursor), |sizes| - i
  {
    hide Respond, Ahead, EncodeCursor, StartOf, IsOrderCursorPayload;
    var r := Respond(s, t, cursor, sizes[i]);
    NeverFailsOnSize(s, sizes, t, cursor, i);
    if r.BadCursor? {
      BadCursorMeans(s, t, cursor, sizes[i]);
    } else if r.TooLarge? {
      FinishesExactlyWhen(s, sizes, t + 1, cursor, i + 1);
    } else {
      PageHolds(s, t, cursor, sizes[i]);
      if r.next.Some? {
        PageEnds(s, t, cursor, sizes[i]);
        var last := LastKey(r.items);
        CursorIsEmptyForEmptyKey(last);
        if last == "" {
          assert Walk(s, sizes, t, cursor, i).boundaries[0] == "";
        } else {
          FinishesExactlyWhen(s, sizes, t + 1, r.next, Pred(i));
          NextStart(s, last);
          var rest := Walk(s, sizes, t + 1, r.next, Pred(i));
          assert forall b :: 0 <= b < |rest.boundaries| ==> ([last] + rest.boundaries)[b + 1] == rest.boundaries[b];
          assert ([last] + rest.boundaries)[0] == last;
        }
      }
    }
  }

  // ---------------------------------------------------------------- when every walk finishes

  // One of these keys, and not the last of them.
  ghost predicate IsFollowed(keys: set<string>, k: string) {
    k in keys && exists k' :: k' in keys && Less(k, k')
  }

  lemma BoundaryHasNext(s: Server, t: nat, cursor: Option<string>, limit: nat)
    requires Finite(s) && limit > 0 && Respond(s, t, cursor, limit).Page? && Respond(s, t, cursor, limit).next.Some?
    ensures var r := Respond(s, t, cursor, limit); r.items != [] && IsFollowed(s.stores(t).Keys, LastKey(r.items))
  {
    hide EncodeCursor, ListAfterKey, Less;
    var after := StartOf(s, cursor).value;
    SortSorts(KeysAfter(s.stores(t).Keys, after));
    var r := Respond(s, t, cursor, limit);
    var all := Sort(KeysAfter(s.stores(t).Keys, after));
    assert all[limit - 1] in all && all[limit] in all && r.items[limit - 1].0 == all[limit - 1];
    assert Less(all[limit - 1], all[limit]);
  }

  ghost predicate BoundariesHaveNext(s: Server, boundaries: seq<string>) {
    forall b :: 0 <= b < |boundaries| ==> exists u: nat :: IsFollowed(s.stores(u).Keys, boundaries[b])
  }

  lemma {:induction false} EveryBoundaryHasNext(s: Server, sizes: seq<nat>, t: nat, cursor: Option<string>, i: nat)
    requires Usable(s, sizes) && i < |sizes|
    ensures BoundariesHaveNext(s, Walk(s, sizes, t, cursor, i).boundaries)
    decreases Ahead(s, cursor), |sizes| - i
  {
    hide Respond, Ahead, EncodeCursor, IsFollowed;
    var r := Respond(s, t, cursor, sizes[i]);
    if r.TooLarge? && i < |sizes| - 1 {
      EveryBoundaryHasNext(s, sizes, t + 1, cursor, i + 1);
    } else if r.Page? && r.next.Some? {
      PageEnds(s, t, cursor, sizes[i]);
      BoundaryHasNext(s, t, cursor, sizes[i]);
      if r.next.value != "" {
        EveryBoundaryHasNext(s, sizes, t + 1, r.next, Pred(i));
        var rest := Walk(s, sizes, t + 1, r.next, Pred(i));
        forall b | 0 <= b < |rest.boundaries| + 1
          ensures exists u: nat :: IsFollowed(s.stores(u).Keys, ([LastKey(r.items)] + rest.boundaries)[b])
        {
          assert b > 0 ==> ([LastKey(r.items)] + rest.boundaries)[b] == rest.boundaries[b - 1];
        }
      } else {
        assert IsFollowed(s.stores(t).Keys, Walk(s, sizes, t, cursor, i).boundaries[0]);
      }
    }
  }

  ghost predicate Still(s: Server, store: map<string, string>) {
    forall t: nat :: s.stores(t) == store
  }

  // One entry at a time, every key that is followed ends a page; at a bad one the walk stops, before the next.
  lemma {:induction false} SingleStepsMiss(s: Server, store: map<string, string>, t: nat, cursor: Option<string>, k: string, next: string)
    requires Usable(s, [1]) && Still(s, store)
    requires k in store && next in store && Less(k, next) && !Continues(s.codec, k) && Past(StartKey(s, cursor), k)
    ensures var o := Walk(s, [1], t, cursor, 0); !o.end.Finished? && !Lists(o.items, next)
    decreases Ahead(s, cursor)
  {
    hide Respond, Ahead, EncodeCursor, StartOf, IsOrderCursorPayload, Less;
    var r := Respond(s, t, cursor, 1);
    OneEntryFits(s, t, cursor);
    if r.Page? {
      PageHolds(s, t, cursor, 1);
      PageSkipsNothing(s, t, cursor, 1, k);
      assert s.stores(t) == store;
      LessTrichotomy(k, next);
      OneItem(s, t, cursor);
      if r.next.None? {
        if StartKey(s, cursor).Some? {
          LessTransitive(StartKey(s, cursor).value, k, next);
        }
        PageSkipsNothing(s, t, cursor, 1, next);
      } else {
        PageEnds(s, t, cursor, 1);
        var last := LastKey(r.items);
        FinishesExactlyWhen(s, [1], t, cursor, 0);
        CursorIsEmptyForEmptyKey(last);
        NextStart(s, last);
        if last != k {
          LessTransitive(last, k, next);
          LessTrichotomy(last, next);
        }
        if last != "" {
          StepMisses(s, store, t, cursor, k, next);
        } else {
          assert Walk(s, [1], t, cursor, 0).boundaries[0] == last;
        }
      }
    }
  }

  lemma {:induction false} StepMisses(s: Server, store: map<string, string>, t: nat, cursor: Option<string>, k: string, next: string)
    requires Usable(s, [1]) && Still(s, store)
    requires k in store && next in store && Less(k, next) && !Continues(s.codec, k)
    requires Respond(s, t, cursor, 1).Page? && Respond(s, t, cursor, 1).next.Some? && |Respond(s, t, cursor, 1).items| == 1
    requires var last := LastKey(Respond(s, t, cursor, 1).items); last != "" && last != next && (last == k || Less(last, k))
    ensures var o := Walk(s, [1], t, cursor, 0); !o.end.Finished? && !Lists(o.items, next)
    decreases Ahead(s, cursor), 0
  {
    hide Respond, Ahead, EncodeCursor, StartOf, IsOrderCursorPayload, Less;
    var r := Respond(s, t, cursor, 1);
    var last := LastKey(r.items);
    PageEnds(s, t, cursor, 1);
    CursorIsEmptyForEmptyKey(last);
    NextStart(s, last);
    StartOfNext(s, last);
    if StartOf(s, r.next).Err? {
      RefusedListsNothing(s, [1], t + 1, r.next, 0);
    } else {
      SingleStepsMiss(s, store, t + 1, r.next, k, next);
    }
  }

  lemma OneItem(s: Server, t: nat, cursor: Option<string>)
    requires Respond(s, t, cursor, 1).Page?
    ensures |Respond(s, t, cursor, 1).items| <= 1
  {
    hide ListAfterKey, EncodeCursor;
  }

  lemma BadKeyStops(s: Server, store: map<string, string>, k: string)
    requires Finite(s) && Still(s, store) && IsFollowed(store.Keys, k) && !Continues(s.codec, k)
    ensures !Walk(s, Sizes(1), 0, None, 0).end.Finished?
  {
    hide Walk, Continues, Less;
    var next :| next in store && Less(k, next);
    SingleStepsMiss(s, store, 0, None, k, next);
  }

  /** Walks of an unchanging store finish at every page size exactly when no key but the last is empty or reads as an
      order payload; a caller can check that before walking. */
  lemma EveryPageSizeFinishesExactlyWhen(s: Server, store: map<string, string>)
    requires Finite(s) && forall t: nat :: s.stores(t) == store
    ensures (forall n: nat :: n > 0 ==> Walk(s, Sizes(n), 0, None, 0).end.Finished?) <==>
            (forall k :: IsFollowed(store.Keys, k) ==> Continues(s.codec, k))
  {
    hide Walk, IsFollowed, Continues;
    if forall k :: IsFollowed(store.Keys, k) ==> Continues(s.codec, k) {
      forall n: nat | n > 0
        ensures Walk(s, Sizes(n), 0, None, 0).end.Finished?
      {
        var o := Walk(s, Sizes(n), 0, None, 0);
        EveryBoundaryHasNext(s, Sizes(n), 0, None, 0);
        FinishesExactlyWhen(s, Sizes(n), 0, None, 0);
        forall b | 0 <= b < |o.boundaries|
          ensures Continues(s.codec, o.boundaries[b])
        {
          var u: nat :| IsFollowed(s.stores(u).Keys, o.boundaries[b]);
          assert s.stores(u) == store;
        }
      }
    }
    if forall n: nat :: n > 0 ==> Walk(s, Sizes(n), 0, None, 0).end.Finished? {
      forall k | IsFollowed(store.Keys, k)
        ensures Continues(s.codec, k)
      {
        assert Walk(s, Sizes(1), 0, None, 0).end.Finished?;
        if !Continues(s.codec, k) {
          BadKeyStops(s, store, k);
        }
      }
    }
  }

  // ---------------------------------------------------------------- the full walk

  /** Every entry stored at each request of the walk is listed, in strictly increasing key order, so none twice; and every
      listed entry was stored when it was read. */
  ghost predicate ListsAll(s: Server, n: nat)
    requires Finite(s) && n > 0
  {
    var o := Walk(s, Sizes(n), 0, None, 0);
    && Ascends(o.items, None) && AllStored(s, 0, o.requests, o.items)
    && forall k :: Throughout(s, 0, o.requests, k) ==> Lists(o.items, k)
  }

  ghost predicate IsServer(s: Server, codec: JsonCodec, keys: set<string>) {
    s.codec == codec && s.universe == keys && Finite(s)
  }

  // No key but the last is empty or an order payload.
  ghost predicate AllContinue(codec: JsonCodec, keys: set<string>) {
    forall k :: IsFollowed(keys, k) ==> Continues(codec, k)
  }

  lemma FollowedInUniverse(s: Server, u: nat, k: string)
    requires Finite(s) && IsFollowed(s.stores(u).Keys, k)
    ensures IsFollowed(s.universe, k)
  {
    var next :| next in s.stores(u).Keys && Less(k, next);
    assert s.stores(u).Keys <= s.universe;
  }

  lemma FinishesWhenAllContinue(s: Server, n: nat)
    requires Finite(s) && n > 0 && AllContinue(s.codec, s.universe)
    ensures Walk(s, Sizes(n), 0, None, 0).end.Finished?
  {
    hide Walk, IsFollowed, Continues;
    var o := Walk(s, Sizes(n), 0, None, 0);
    EveryBoundaryHasNext(s, Sizes(n), 0, None, 0);
    FinishesExactlyWhen(s, Sizes(n), 0, None, 0);
    forall b | 0 <= b < |o.boundaries|
      ensures Continues(s.codec, o.boundaries[b])
    {
      var u: nat :| IsFollowed(s.stores(u).Keys, o.boundaries[b]);
      FollowedInUniverse(s, u, o.boundaries[b]);
    }
  }

  lemma FinishedListsAll(s: Server, n: nat)
    requires Finite(s) && n > 0 && Walk(s, Sizes(n), 0, None, 0).end.Finished?
    ensures ListsAll(s, n)
  {
    hide Walk, Sizes, Ascends, AllStored, Throughout, Lists;
    var o := Walk(s, Sizes(n), 0, None, 0);
    WalkAscends(s, Sizes(n), 0, None, 0);
    WalkListsStoredEntries(s, Sizes(n), 0, None, 0);
    forall k | Throughout(s, 0, o.requests, k)
      ensures Lists(o.items, k)
    {
      FinishedWalkMissesNothing(s, Sizes(n), 0, None, 0, k);
    }
  }

  // An unchanging store of all the keys.
  function StillServer(codec: JsonCodec, keys: set<string>): Server {
    Server(codec, t => map k | k in keys :: "v", keys, (t, items) => false)
  }

  lemma BadKeyMisses(codec: JsonCodec, keys: set<string>, k: string)
    requires IsFollowed(keys, k) && !Continues(codec, k)
    ensures var s := StillServer(codec, keys);
      IsServer(s, codec, keys) && !ListsAll(s, 1) && !Walk(s, Sizes(1), 0, None, 0).end.Finished?
  {
    hide Continues, Walk, Less, Ascends, AllStored;
    var s := StillServer(codec, keys);
    var store := map x | x in keys :: "v";
    var next :| next in keys && Less(k, next);
    SingleStepsMiss(s, store, 0, None, k, next);
    assert Throughout(s, 0, Walk(s, Sizes(1), 0, None, 0).requests, next);
  }

  /** The full walk, whatever is written between its pages: over the servers whose keys come from a given set, every walk
      of every page size lists all that stays stored, and ends by itself, exactly when no key of the set but the last is
      empty or an order payload. */
  lemma FullWalkExactlyWhen(codec: JsonCodec, keys: set<string>)
    ensures (forall s, n: nat :: IsServer(s, codec, keys) && n > 0 ==> ListsAll(s, n)) <==> AllContinue(codec, keys)
    ensures (forall s, n: nat :: IsServer(s, codec, keys) && n > 0 ==> Walk(s, Sizes(n), 0, None, 0).end.Finished?) <==>
            AllContinue(codec, keys)
  {
    hide Walk, ListsAll, Continues, IsFollowed;
    if AllContinue(codec, keys) {
      forall s, n: nat | IsServer(s, codec, keys) && n > 0
        ensures ListsAll(s, n) && Walk(s, Sizes(n), 0, None, 0).end.Finished?
      {
        FinishesWhenAllContinue(s, n);
        FinishedListsAll(s, n);
      }
    } else {
      var k :| IsFollowed(keys, k) && !Continues(codec, k);
      BadKeyMisses(codec, keys, k);
      var s := StillServer(codec, keys);
      assert IsServer(s, codec, keys) && !ListsAll(s, 1);
    }
  }

  // Two keys still to come do not fit one page of one.
  lemma TwoPending(s: Server, t: nat, cursor: Option<string>, a: string, b: string)
    requires Finite(s) && Respond(s, t, cursor, 1).Page? && a != b
    requires a in s.stores(t) && b in s.stores(t) && StartOf(s, cursor).Ok?
    requires Past(StartOf(s, cursor).value, a) && Past(StartOf(s, cursor).value, b)
    ensures Respond(s, t, cursor, 1).next.Some?
  {
    hide Respond;
    PageSkipsNothing(s, t, cursor, 1, a);
    PageSkipsNothing(s, t, cursor, 1, b);
    OneItem(s, t, cursor);
  }

  /** A store whose first key is itself an order payload, as the text of any order cursor is: a walk one entry at a time
      is refused after that entry and never lists the other. */
  lemma PayloadKeyStopsTheWalk(s: Server, k: string, big: string)
    requires Finite(s) && s.stores(0).Keys == {k, big} && Less(k, big) && IsOrderCursorPayload(s.codec, k)
    ensures var o := Walk(s, Sizes(1), 0, None, 0);
      o.end == Refused && Lists(o.items, k) && !Lists(o.items, big)
  {
    hide EncodeCursor, Respond, IsOrderCursorPayload, Less, Walk, Sizes, Finite;
    var r := Respond(s, 0, None, 1);
    OneEntryFits(s, 0, None);
    BadCursorMeans(s, 0, None, 1);
    LessTrichotomy(k, big);
    TwoPending(s, 0, None, k, big);
    PageHolds(s, 0, None, 1);
    PageSkipsNothing(s, 0, None, 1, k);
    OneItem(s, 0, None);
    PageEnds(s, 0, None, 1);
    assert Lists(r.items, k) && LastKey(r.items) == k;
    CursorIsEmptyForEmptyKey(k);
    NextStart(s, k);
    PayloadIsNotEmpty(s.codec, k);
    BadCursorMeans(s, 1, r.next, 1);
    RefusedAfterOnePage(s);
  }

  /** Such keys exist: the text of any order cursor is one, so under it and any greater key some server's walk never
      lists all. */
  lemma OrderCursorTextStopsWalks(codec: JsonCodec, order: string, stamp: real, key: string, big: string)
    requires ReadsBack(codec, order, stamp, key) && Less(codec.dumps(order, stamp, key), big)
    ensures var text := codec.dumps(order, stamp, key);
      IsOrderCursorPayload(codec, text) && !AllContinue(codec, {text, big})
  {
    var text := codec.dumps(order, stamp, key);
    assert IsFollowed({text, big}, text);
  }

  lemma RefusedAfterOnePage(s: Server)
    requires Finite(s) && Respond(s, 0, None, 1).Page? && Respond(s, 0, None, 1).next.Some?
    requires Respond(s, 0, None, 1).next.value != "" && Respond(s, 1, Respond(s, 0, None, 1).next, 1).BadCursor?
    ensures var o := Walk(s, Sizes(1), 0, None, 0);
      o.end == Refused && o.items == Respond(s, 0, None, 1).items
  {
    hide EncodeCursor, Respond;
    PageEnds(s, 0, None, 1);
  }

  lemma PayloadIsNotEmpty(codec: JsonCodec, k: string)
    requires IsOrderCursorPayload(codec, k)
    ensures k != ""
  {
  }

  /** The empty key is the first in order, so a walk one entry at a time over a store that holds it and anything else
      returns normally after a single entry. */
  lemma EmptyKeyCutsTheWalkShort(codec: JsonCodec)
    ensures var s := Server(codec, t => map["" := "v", "a" := "w"], {"", "a"}, (t, items) => false);
      Finite(s) && Walk(s, Sizes(1), 0, None, 0).end == CutShort && |Walk(s, Sizes(1), 0, None, 0).items| == 1
  {
    var s := Server(codec, t => map["" := "v", "a" := "w"], {"", "a"}, (t, items) => false);
    assert Finite(s);
    hide EncodeCursor, Respond;
    var r := Respond(s, 0, None, 1);
    OneEntryFits(s, 0, None);
    BadCursorMeans(s, 0, None, 1);
    assert Less("", "a");
    PageHolds(s, 0, None, 1);
    TwoPending(s, 0, None, "", "a");
    PageSkipsNothing(s, 0, None, 1, "");
    OneItem(s, 0, None);
    PageEnds(s, 0, None, 1);
    CursorIsEmptyForEmptyKey(LastKey(r.items));
    assert Lists(r.items, "");
  }
}
