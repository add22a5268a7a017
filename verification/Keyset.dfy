/** Keyset pagination: sort, keep what comes after the cursor, take one item too many to learn whether
    there is more, and hand out the key of the last item as the next cursor. */
module Keyset {
  import opened Prelude

  /** How a collection is paged: each item's sort key, and the strict order of keys. */
  datatype Order<!T, !K> = Order(key: T -> K, before: (K, K) -> bool)

  ghost predicate StrictTotal<K(!new)>(before: (K, K) -> bool) {
    && (forall a :: !before(a, a))
    && (forall a, b, c :: before(a, b) && before(b, c) ==> before(a, c))
    && (forall a, b :: a == b || before(a, b) || before(b, a))
  }

  ghost predicate Distinct<T, K>(items: seq<T>, order: Order<T, K>) {
    forall i, j :: 0 <= i < j < |items| ==> order.key(items[i]) != order.key(items[j])
  }

  ghost predicate Ascending<T, K>(items: seq<T>, order: Order<T, K>) {
    forall i, j :: 0 <= i < j < |items| ==> order.before(order.key(items[i]), order.key(items[j]))
  }

  /** The stable sort. */
  function Sort<T, K>(items: seq<T>, order: Order<T, K>): seq<T> {
    if items == [] then [] else Insert(items[0], Sort(items[1..], order), order)
  }

  function Insert<T, K>(x: T, items: seq<T>, order: Order<T, K>): seq<T> {
    if items == [] then [x]
    else if order.before(order.key(items[0]), order.key(x)) then [items[0]] + Insert(x, items[1..], order)
    else [x] + items
  }

  predicate IsAfter<T, K>(x: T, cursor: Option<K>, order: Order<T, K>) {
    cursor.None? || order.before(cursor.value, order.key(x))
  }

  function After<T, K>(items: seq<T>, cursor: Option<K>, order: Order<T, K>): seq<T> {
    if items == [] then []
    else (if IsAfter(items[0], cursor, order) then [items[0]] else []) + After(items[1..], cursor, order)
  }

  datatype Page<+T, +K> = Page(items: seq<T>, next: Option<K>)

  /** The first page of what is left to return. */
  function Cut<T, K>(rest: seq<T>, limit: nat, order: Order<T, K>): Page<T, K>
    requires limit > 0
  {
    if |rest| > limit then Page(rest[..limit], Some(order.key(rest[limit - 1]))) else Page(rest, None)
  }

  function PageOf<T, K>(items: seq<T>, cursor: Option<K>, limit: nat, order: Order<T, K>): Page<T, K>
    requires limit > 0
  {
    Cut(After(Sort(items, order), cursor, order), limit, order)
  }

  /** The same page computed as the handlers do it: over-fetch by one, then pop. */
  method FetchPage<T, K>(items: seq<T>, cursor: Option<K>, limit: nat, order: Order<T, K>) returns (page: Page<T, K>)
    requires limit > 0
    ensures page == PageOf(items, cursor, limit, order)
  {
    var rows := After(Sort(items, order), cursor, order);
    if |rows| > limit + 1 {
      rows := rows[..limit + 1];
    }
    var hasMore := |rows| > limit;
    if hasMore {
      rows := rows[..|rows| - 1];
    }
    var next := None;
    if hasMore {
      next := Some(order.key(rows[|rows| - 1]));
    }
    page := Page(rows, next);
  }

  // ---------------------------------------------------------------- sorting and filtering

  lemma {:induction false} ConsAscending<T, K>(x: T, items: seq<T>, order: Order<T, K>)
    requires Ascending(items, order)
    requires forall y :: y in items ==> order.before(order.key(x), order.key(y))
    ensures Ascending([x] + items, order)
  {
  }

  /** `rest` holds exactly the items that come after the cursor. */
  ghost predicate Selects<T(!new), K>(rest: seq<T>, items: seq<T>, cursor: Option<K>, order: Order<T, K>) {
    forall x :: x in rest <==> x in items && IsAfter(x, cursor, order)
  }

  lemma {:induction false} InsertPermutes<T, K>(x: T, items: seq<T>, order: Order<T, K>)
    ensures multiset(Insert(x, items, order)) == multiset(items) + multiset{x}
    decreases |items|
  {
    if items != [] {
      assert items == [items[0]] + items[1..];
      InsertPermutes(x, items[1..], order);
    }
  }

  lemma {:induction false} InsertKeeps<T(!new), K(!new)>(x: T, items: seq<T>, order: Order<T, K>)
    requires StrictTotal(order.before) && Ascending(items, order)
    requires forall y :: y in items ==> order.key(y) != order.key(x)
    ensures Ascending(Insert(x, items, order), order)
    ensures multiset(Insert(x, items, order)) == multiset(items) + multiset{x}
    decreases |items|
  {
    InsertPermutes(x, items, order);
    if items != [] {
      if order.before(order.key(items[0]), order.key(x)) {
        InsertKeeps(x, items[1..], order);
        InsertMembers(x, items[1..], order);
        ConsAscending(items[0], Insert(x, items[1..], order), order);
      } else {
        assert order.before(order.key(x), order.key(items[0]));
        ConsAscending(x, items, order);
      }
    }
  }

  lemma {:induction false} SortSorts<T(!new), K(!new)>(items: seq<T>, order: Order<T, K>)
    requires StrictTotal(order.before) && Distinct(items, order)
    ensures Ascending(Sort(items, order), order) && multiset(Sort(items, order)) == multiset(items)
    decreases |items|
  {
    if items != [] {
      assert items == [items[0]] + items[1..];
      SortSorts(items[1..], order);
      forall y | y in Sort(items[1..], order) ensures order.key(y) != order.key(items[0]) {
        assert y in multiset(items[1..]);
      }
      InsertKeeps(items[0], Sort(items[1..], order), order);
    }
  }

  /** Sorting loses nothing, whether or not keys repeat. */
  lemma {:induction false} SortPermutes<T, K>(items: seq<T>, order: Order<T, K>)
    ensures multiset(Sort(items, order)) == multiset(items)
    decreases |items|
  {
    if items != [] {
      assert items == [items[0]] + items[1..];
      SortPermutes(items[1..], order);
      InsertPermutes(items[0], Sort(items[1..], order), order);
    }
  }

  lemma {:induction false} AfterFilters<T(!new), K>(items: seq<T>, cursor: Option<K>, order: Order<T, K>)
    requires Ascending(items, order)
    ensures Ascending(After(items, cursor, order), order)
    ensures Selects(After(items, cursor, order), items, cursor, order)
    decreases |items|
  {
    if items != [] {
      assert items == [items[0]] + items[1..];
      AfterFilters(items[1..], cursor, order);
      forall y | y in After(items[1..], cursor, order) ensures order.before(order.key(items[0]), order.key(y)) {
        assert y in items[1..];
        var i :| 0 <= i < |items[1..]| && items[1..][i] == y;
        assert y == items[i + 1];
      }
      ConsAscending(items[0], After(items[1..], cursor, order), order);
    }
  }

  /** What follows the cursor, in order and nothing else. */
  lemma {:induction false} RestExact<T(!new), K(!new)>(items: seq<T>, cursor: Option<K>, order: Order<T, K>)
    requires StrictTotal(order.before) && Distinct(items, order)
    ensures var rest := After(Sort(items, order), cursor, order);
            Ascending(rest, order) && Selects(rest, items, cursor, order)
  {
    var sorted := Sort(items, order);
    SortSorts(items, order);
    forall x ensures x in sorted <==> x in items {
      assert x in multiset(sorted) <==> x in multiset(items);
    }
    AfterFilters(sorted, cursor, order);
  }

  lemma {:induction false} CutExact<T(!new), K(!new)>(rest: seq<T>, limit: nat, order: Order<T, K>)
    requires StrictTotal(order.before) && Ascending(rest, order) && limit > 0
    ensures var page := Cut(rest, limit, order);
            && Ascending(page.items, order) && |page.items| <= limit
            && (forall x :: x in page.items ==> x in rest)
            && (page.next.Some? ==> |page.items| == limit && page.next.value == order.key(page.items[limit - 1]))
            && (forall x :: x in rest && (page.next.None? || !order.before(page.next.value, order.key(x)))
                            ==> x in page.items)
  {
    var page := Cut(rest, limit, order);
    forall x | x in rest && (page.next.None? || !order.before(page.next.value, order.key(x))) ensures x in page.items {
      var i :| 0 <= i < |rest| && rest[i] == x;
      assert page.items[i] == x;
    }
  }

  /** What one page contains, whatever the collection was before and will be next. */
  lemma {:induction false} PageExact<T(!new), K(!new)>(items: seq<T>, cursor: Option<K>, limit: nat, order: Order<T, K>)
    requires StrictTotal(order.before) && Distinct(items, order) && limit > 0
    ensures var page := PageOf(items, cursor, limit, order);
            && Ascending(page.items, order)
            && (forall x :: x in page.items ==> x in items && IsAfter(x, cursor, order))
            && |page.items| <= limit
            && (page.next.Some? ==> |page.items| == limit && page.next.value == order.key(page.items[limit - 1]))
            && (forall x :: x in items && IsAfter(x, cursor, order)
                            && (page.next.None? || !order.before(page.next.value, order.key(x)))
                            ==> x in page.items)
  {
    var rest := After(Sort(items, order), cursor, order);
    RestExact(items, cursor, order);
    CutExact(rest, limit, order);
    hide Cut, Sort, After, Ascending, StrictTotal, Distinct, IsAfter;
  }

  lemma {:induction false} InsertMembers<T(!new), K>(x: T, items: seq<T>, order: Order<T, K>)
    ensures forall y :: y in Insert(x, items, order) ==> y == x || y in items
    decreases |items|
  {
    if items != [] {
      InsertMembers(x, items[1..], order);
    }
  }

  lemma {:induction false} SortMembers<T(!new), K>(items: seq<T>, order: Order<T, K>)
    ensures forall y :: y in Sort(items, order) ==> y in items
    decreases |items|
  {
    if items != [] {
      SortMembers(items[1..], order);
      InsertMembers(items[0], Sort(items[1..], order), order);
    }
  }

  lemma {:induction false} AfterMembers<T(!new), K>(items: seq<T>, cursor: Option<K>, order: Order<T, K>)
    ensures forall y :: y in After(items, cursor, order) ==> y in items
    decreases |items|
  {
    if items != [] {
      AfterMembers(items[1..], cursor, order);
    }
  }

  /** A next cursor is the key of some item of the collection, even one with equal keys. */
  lemma {:induction false} NextNamesAnItem<T(!new), K>(items: seq<T>, cursor: Option<K>, limit: nat, order: Order<T, K>)
    returns (x: Option<T>)
    requires limit > 0
    ensures PageOf(items, cursor, limit, order).next
         == if x.None? then None else Some(order.key(x.value))
    ensures x.Some? ==> x.value in items
  {
    var rest := After(Sort(items, order), cursor, order);
    SortMembers(items, order);
    AfterMembers(Sort(items, order), cursor, order);
    x := if |rest| > limit then Some(rest[limit - 1]) else None;
    assert x.Some? ==> x.value in rest;
  }

  // ---------------------------------------------------------------- walks over a changing collection

  /** The pages a client collects when the collection is `snapshots[i]` at its i-th request. */
  function Walk<T, K>(snapshots: seq<seq<T>>, cursor: Option<K>, limit: nat, order: Order<T, K>): seq<seq<T>>
    requires limit > 0
    decreases |snapshots|
  {
    if snapshots == [] then []
    else
      var page := PageOf(snapshots[0], cursor, limit, order);
      [page.items] + (if page.next.None? then [] else Walk(snapshots[1..], page.next, limit, order))
  }

  /** The walk reached a page without a next cursor. */
  predicate Completes<T, K>(snapshots: seq<seq<T>>, cursor: Option<K>, limit: nat, order: Order<T, K>)
    requires limit > 0
    decreases |snapshots|
  {
    snapshots != []
    && var page := PageOf(snapshots[0], cursor, limit, order);
       page.next.None? || Completes(snapshots[1..], page.next, limit, order)
  }

  function Flatten<T>(pages: seq<seq<T>>): seq<T> {
    if pages == [] then [] else pages[0] + Flatten(pages[1..])
  }

  ghost predicate HasKey<T, K>(items: seq<T>, k: K, order: Order<T, K>) {
    exists i :: 0 <= i < |items| && order.key(items[i]) == k
  }

  /** While items come, go and move between requests, no key is ever returned twice and every returned item
      comes from the snapshot of its page. */
  lemma {:induction false} WalkNeverRepeats<T(!new), K(!new)>(
      snapshots: seq<seq<T>>, cursor: Option<K>, limit: nat, order: Order<T, K>)
    requires StrictTotal(order.before) && limit > 0
    requires forall i :: 0 <= i < |snapshots| ==> Distinct(snapshots[i], order)
    ensures Ascending(Flatten(Walk(snapshots, cursor, limit, order)), order)
    ensures forall x :: x in Flatten(Walk(snapshots, cursor, limit, order)) ==> IsAfter(x, cursor, order)
    decreases |snapshots|
  {
    if snapshots != [] {
      var page := PageOf(snapshots[0], cursor, limit, order);
      PageExact(snapshots[0], cursor, limit, order);
      var walk := Walk(snapshots, cursor, limit, order);
      assert walk[0] == page.items;
      if page.next.None? {
        assert walk[1..] == [];
        assert Flatten(walk) == page.items;
      } else {
        var tail := Walk(snapshots[1..], page.next, limit, order);
        assert walk[1..] == tail;
        WalkNeverRepeats(snapshots[1..], page.next, limit, order);
        var last := page.items[limit - 1];
        forall x, y | x in page.items && y in Flatten(tail) ensures order.before(order.key(x), order.key(y)) {
          var i :| 0 <= i < |page.items| && page.items[i] == x;
          assert i < limit - 1 ==> order.before(order.key(x), order.key(last));
        }
      }
    }
  }

  /** An item whose key is present and unchanged in every snapshot is returned by every completed walk. */
  lemma {:induction false} WalkFindsStableKeys<T(!new), K(!new)>(
      snapshots: seq<seq<T>>, cursor: Option<K>, limit: nat, order: Order<T, K>, k: K)
    requires StrictTotal(order.before) && limit > 0
    requires forall i :: 0 <= i < |snapshots| ==> Distinct(snapshots[i], order) && HasKey(snapshots[i], k, order)
    requires cursor.None? || order.before(cursor.value, k)
    requires Completes(snapshots, cursor, limit, order)
    ensures HasKey(Flatten(Walk(snapshots, cursor, limit, order)), k, order)
    decreases |snapshots|
  {
    var page := PageOf(snapshots[0], cursor, limit, order);
    PageExact(snapshots[0], cursor, limit, order);
    var walk := Walk(snapshots, cursor, limit, order);
    assert Flatten(walk) == page.items + Flatten(walk[1..]);
    var n :| 0 <= n < |snapshots[0]| && order.key(snapshots[0][n]) == k;
    var x := snapshots[0][n];
    if page.next.None? || !order.before(page.next.value, k) {
      assert x in page.items;
      var i :| 0 <= i < |page.items| && page.items[i] == x;
      assert Flatten(walk)[i] == x;
    } else {
      var tail := Walk(snapshots[1..], page.next, limit, order);
      assert walk[1..] == tail;
      WalkFindsStableKeys(snapshots[1..], page.next, limit, order, k);
      var i :| 0 <= i < |Flatten(tail)| && order.key(Flatten(tail)[i]) == k;
      assert Flatten(walk)[|page.items| + i] == Flatten(tail)[i];
    }
  }

  ghost predicate OnlyAt<T, K>(items: seq<T>, k: K, i: int, order: Order<T, K>) {
    0 <= i < |items| && order.key(items[i]) == k
    && forall j :: 0 <= j < |items| && order.key(items[j]) == k ==> j == i
  }

  /** Over a changing collection, every key that stays fixed throughout a completed walk is returned exactly
      once. */
  lemma {:induction false} StableKeysExactlyOnce<T(!new), K(!new)>(
      snapshots: seq<seq<T>>, limit: nat, order: Order<T, K>, k: K)
    returns (i: int)
    requires StrictTotal(order.before) && limit > 0
    requires forall i :: 0 <= i < |snapshots| ==> Distinct(snapshots[i], order) && HasKey(snapshots[i], k, order)
    requires Completes(snapshots, None, limit, order)
    ensures OnlyAt(Flatten(Walk(snapshots, None, limit, order)), k, i, order)
  {
    WalkFindsStableKeys(snapshots, None, limit, order, k);
    WalkNeverRepeats(snapshots, None, limit, order);
    var all := Flatten(Walk(snapshots, None, limit, order));
    i :| 0 <= i < |all| && order.key(all[i]) == k;
    forall j | 0 <= j < |all| && order.key(all[j]) == k ensures j == i {
    }
  }

  // ---------------------------------------------------------------- walks by opaque cursors

  /** How keys are written into cursor texts, and which texts are accepted back. */
  datatype Codec<!K> = Codec(encode: K -> string, decode: string -> Option<K>)

  /** The cursor of every item is accepted back as the item's key. */
  ghost predicate RoundTrips<T, K>(items: seq<T>, order: Order<T, K>, codec: Codec<K>) {
    forall x :: x in items ==> codec.decode(codec.encode(order.key(x))) == Some(order.key(x))
  }

  /** What a client collects by sending each response's cursor text back, or `None` when a cursor is refused. */
  function OpaqueWalk<T, K>(snapshots: seq<seq<T>>, cursor: Option<string>, limit: nat, order: Order<T, K>,
                            codec: Codec<K>): Option<seq<seq<T>>>
    requires limit > 0
    decreases |snapshots|
  {
    var after := if cursor.Some? then codec.decode(cursor.value) else None;
    if snapshots == [] then Some([])
    else if cursor.Some? && after.None? then None
    else
      var page := PageOf(snapshots[0], after, limit, order);
      if page.next.None? then Some([page.items])
      else
        var rest := OpaqueWalk(snapshots[1..], Some(codec.encode(page.next.value)), limit, order, codec);
        if rest.None? then None else Some([page.items] + rest.value)
  }

  /** No cursor the service emitted is ever refused, and following the texts is following the keys. */
  lemma {:induction false} OpaqueWalkIsKeyWalk<T(!new), K(!new)>(
      snapshots: seq<seq<T>>, cursor: Option<string>, after: Option<K>, limit: nat, order: Order<T, K>, codec: Codec<K>)
    requires limit > 0 && forall i :: 0 <= i < |snapshots| ==> RoundTrips(snapshots[i], order, codec)
    requires if cursor.Some? then after.Some? && codec.decode(cursor.value) == after else after.None?
    ensures OpaqueWalk(snapshots, cursor, limit, order, codec) == Some(Walk(snapshots, after, limit, order))
    decreases |snapshots|
  {
    hide PageOf;
    if snapshots != [] {
      var page := PageOf(snapshots[0], after, limit, order);
      var x := NextNamesAnItem(snapshots[0], after, limit, order);
      if page.next.Some? {
        assert RoundTrips(snapshots[0], order, codec);
        OpaqueWalkIsKeyWalk(snapshots[1..], Some(codec.encode(page.next.value)), page.next, limit, order, codec);
      } else {
        assert [page.items] + [] == [page.items];
      }
    }
  }

  /** A client that follows opaque cursors over a changing collection to the end has received every key that
      stayed fixed exactly once, and all keys in order. */
  lemma {:induction false} OpaqueWalkIsExact<T(!new), K(!new)>(
      snapshots: seq<seq<T>>, limit: nat, order: Order<T, K>, codec: Codec<K>, k: K)
    returns (i: int)
    requires StrictTotal(order.before) && limit > 0
    requires forall n :: 0 <= n < |snapshots| ==>
               Distinct(snapshots[n], order) && HasKey(snapshots[n], k, order) && RoundTrips(snapshots[n], order, codec)
    requires Completes(snapshots, None, limit, order)
    ensures var pages := OpaqueWalk(snapshots, None, limit, order, codec);
            pages.Some? && OnlyAt(Flatten(pages.value), k, i, order) && Ascending(Flatten(pages.value), order)
  {
    OpaqueWalkIsKeyWalk(snapshots, None, None, limit, order, codec);
    i := StableKeysExactlyOnce(snapshots, limit, order, k);
    WalkNeverRepeats(snapshots, None, limit, order);
  }

  // ---------------------------------------------------------------- walks over a fixed collection

  function Repeat<T>(items: seq<T>, n: nat): seq<seq<T>> {
    if n == 0 then [] else [items] + Repeat(items, n - 1)
  }

  lemma {:induction false} AfterIndex<T(!new), K(!new)>(items: seq<T>, i: nat, order: Order<T, K>)
    requires StrictTotal(order.before) && Ascending(items, order) && i < |items|
    ensures After(items, Some(order.key(items[i])), order) == items[i + 1..]
    decreases i
  {
    var cursor := Some(order.key(items[i]));
    if i == 0 {
      AllAfter(items[1..], cursor, order);
    } else {
      AfterIndex(items[1..], i - 1, order);
      assert order.before(order.key(items[0]), order.key(items[i]));
    }
  }

  lemma {:induction false} AllAfter<T, K>(items: seq<T>, cursor: Option<K>, order: Order<T, K>)
    requires forall x :: x in items ==> IsAfter(x, cursor, order)
    ensures After(items, cursor, order) == items
    decreases |items|
  {
    if items != [] {
      AllAfter(items[1..], cursor, order);
    }
  }

  lemma {:induction false} FixedFrom<T(!new), K(!new)>(
      items: seq<T>, from: nat, cursor: Option<K>, limit: nat, order: Order<T, K>, n: nat)
    requires StrictTotal(order.before) && Distinct(items, order) && limit > 0
    requires from <= |Sort(items, order)| && After(Sort(items, order), cursor, order) == Sort(items, order)[from..]
    requires Enough(n, limit, |Sort(items, order)| - from)
    ensures Completes(Repeat(items, n), cursor, limit, order)
    ensures Flatten(Walk(Repeat(items, n), cursor, limit, order)) == Sort(items, order)[from..]
    decreases n
  {
    hide Sort, Insert, Ascending, StrictTotal, Distinct, Walk, Completes, Repeat, After, Flatten;
    var sorted := Sort(items, order);
    SortSorts(items, order);
    UnfoldRepeat(items, cursor, limit, order, n);
    var page := PageOf(items, cursor, limit, order);
    assert page == Cut(sorted[from..], limit, order);
    if |sorted| - from > limit {
      AfterIndex(sorted, from + limit - 1, order);
      FixedFrom(items, from + limit, page.next, limit, order, n - 1);
      assert sorted[from..] == page.items + sorted[from + limit..];
    }
  }

  lemma {:induction false} UnfoldRepeat<T, K>(items: seq<T>, cursor: Option<K>, limit: nat, order: Order<T, K>, n: nat)
    requires limit > 0 && n > 0
    ensures var page := PageOf(items, cursor, limit, order);
            && (page.next.None? ==>
                  && Completes(Repeat(items, n), cursor, limit, order)
                  && Flatten(Walk(Repeat(items, n), cursor, limit, order)) == page.items)
            && (page.next.Some? ==>
                  && (Completes(Repeat(items, n), cursor, limit, order)
                      <==> Completes(Repeat(items, n - 1), page.next, limit, order))
                  && Flatten(Walk(Repeat(items, n), cursor, limit, order))
                     == page.items + Flatten(Walk(Repeat(items, n - 1), page.next, limit, order)))
  {
    hide PageOf;
    var snapshots := Repeat(items, n);
    assert snapshots[0] == items && snapshots[1..] == Repeat(items, n - 1);
    var page := PageOf(items, cursor, limit, order);
    var walk := Walk(snapshots, cursor, limit, order);
    assert walk[0] == page.items;
    if page.next.None? {
      assert walk[1..] == [];
    } else {
      assert walk[1..] == Walk(Repeat(items, n - 1), page.next, limit, order);
    }
  }

  /** `n` pages of `limit` items hold `left` items. */
  predicate Enough(n: nat, limit: nat, left: int)
    decreases n
  {
    n > 0 && (left > limit ==> Enough(n - 1, limit, left - limit))
  }

  lemma {:induction false} EnoughPages(n: nat, limit: nat, left: int)
    requires n > 0 && n * limit >= left
    ensures Enough(n, limit, left)
    decreases n
  {
    if left > limit {
      assert (n - 1) * limit == n * limit - limit;
      if n > 1 {
        EnoughPages(n - 1, limit, left - limit);
      }
    }
  }

  /** Over a fixed collection with distinct keys, any number of requests large enough to cover it completes
      the walk, and the pages concatenate to the whole sorted collection. */
  lemma {:induction false} FixedWalkIsTheSortedList<T(!new), K(!new)>(
      items: seq<T>, limit: nat, order: Order<T, K>, n: nat)
    requires StrictTotal(order.before) && Distinct(items, order) && limit > 0
    requires n * limit >= |items| && n > 0
    ensures Completes(Repeat(items, n), None, limit, order)
    ensures var all := Flatten(Walk(Repeat(items, n), None, limit, order));
            all == Sort(items, order) && Ascending(all, order) && multiset(all) == multiset(items)
  {
    var sorted := Sort(items, order);
    SortSorts(items, order);
    assert |multiset(sorted)| == |multiset(items)|;
    AllAfter(sorted, None, order);
    EnoughPages(n, limit, |sorted|);
    FixedFrom(items, 0, None, limit, order, n);
  }
}
