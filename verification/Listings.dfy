/** The two keyset listings: repositories by (updated_at desc, name asc) and activity events by
    (created_at desc, id desc). */
module Listings {
  import opened Prelude
  import opened Keyset
  import opened CursorCodec
  import opened LfsPointer

  const MAX_REPO_PAGE_SIZE: nat := 100
  const DEFAULT_REPO_PAGE_SIZE: nat := 100
  const MAX_ACTIVITY_PAGE_SIZE: nat := 100
  const DEFAULT_ACTIVITY_PAGE_SIZE: nat := 50

  /** Timestamps of repositories are compared as text, exactly as they are stored. */
  datatype RepoInfo = RepoInfo(name: string, updatedAt: string, details: string)

  datatype ActivityEvent = ActivityEvent(id: int, createdAt: int, payload: string)

  predicate LexLess(a: string, b: string) {
    if b == [] then false
    else if a == [] then true
    else a[0] < b[0] || (a[0] == b[0] && LexLess(a[1..], b[1..]))
  }

  predicate RepoBefore(a: RepoKey, b: RepoKey) {
    LexLess(b.updatedAt, a.updatedAt) || (a.updatedAt == b.updatedAt && LexLess(a.name, b.name))
  }

  predicate ActivityBefore(a: ActivityKey, b: ActivityKey) {
    b.createdAt < a.createdAt || (a.createdAt == b.createdAt && b.id < a.id)
  }

  const REPO_ORDER: Order<RepoInfo, RepoKey> := Order((r: RepoInfo) => RepoKey(r.updatedAt, r.name), RepoBefore)
  const ACTIVITY_ORDER: Order<ActivityEvent, ActivityKey> :=
    Order((e: ActivityEvent) => ActivityKey(e.createdAt, e.id), ActivityBefore)

  lemma {:induction false} LexTransitive(a: string, b: string, c: string)
    requires LexLess(a, b) && LexLess(b, c)
    ensures LexLess(a, c)
  {
    if a != [] && a[0] == b[0] == c[0] {
      LexTransitive(a[1..], b[1..], c[1..]);
    }
  }

  lemma {:induction false} LexTotal(a: string, b: string)
    ensures a == b || LexLess(a, b) || LexLess(b, a)
    ensures !LexLess(a, a)
  {
    if a != [] {
      if b != [] && a[0] == b[0] {
        LexTotal(a[1..], b[1..]);
        assert a == [a[0]] + a[1..] && b == [b[0]] + b[1..];
      } else {
        LexTotal(a[1..], a[1..]);
      }
    }
  }

  // ---------------------------------------------------------------- what the orders mean

  /** Text order: a proper prefix comes first, otherwise the first differing character decides. */
  ghost predicate TextLess(a: string, b: string) {
    || (|a| < |b| && b[..|a|] == a)
    || (exists k :: 0 <= k < |a| && k < |b| && a[..k] == b[..k] && a[k] < b[k])
  }

  lemma {:induction false} LexIsTextOrder(a: string, b: string)
    ensures LexLess(a, b) <==> TextLess(a, b)
  {
    if a != [] && b != [] && a[0] == b[0] {
      LexIsTextOrder(a[1..], b[1..]);
      if TextLess(a[1..], b[1..]) {
        TextLessCons(a[0], a[1..], b[1..]);
        assert a == [a[0]] + a[1..] && b == [b[0]] + b[1..];
      }
      if TextLess(a, b) {
        TextLessTail(a, b);
      }
    } else if a != [] && b != [] {
      assert a[0] < b[0] ==> a[..0] == b[..0];
    }
  }

  lemma {:induction false} TextLessCons(c: char, a: string, b: string)
    requires TextLess(a, b)
    ensures TextLess([c] + a, [c] + b)
  {
    var x, y := [c] + a, [c] + b;
    if !(|a| < |b| && b[..|a|] == a) {
      var k :| 0 <= k < |a| && k < |b| && a[..k] == b[..k] && a[k] < b[k];
      assert x[..k + 1] == [c] + a[..k] && y[..k + 1] == [c] + b[..k];
      assert x[k + 1] < y[k + 1];
    } else {
      assert y[..|x|] == [c] + b[..|a|];
    }
  }

  lemma {:induction false} TextLessTail(a: string, b: string)
    requires a != [] && b != [] && a[0] == b[0] && TextLess(a, b)
    ensures TextLess(a[1..], b[1..])
  {
    var x, y := a[1..], b[1..];
    if !(|a| < |b| && b[..|a|] == a) {
      var k :| 0 <= k < |a| && k < |b| && a[..k] == b[..k] && a[k] < b[k];
      assert x[..k - 1] == a[..k][1..] && y[..k - 1] == b[..k][1..];
      assert x[k - 1] < y[k - 1];
    } else {
      assert y[..|x|] == b[..|a|][1..];
    }
  }

  /** Newest first; repositories with the same timestamp by ascending name. */
  ghost predicate NewestReposFirst(repos: seq<RepoInfo>) {
    forall i, j :: 0 <= i < j < |repos| ==>
      && !TextLess(repos[i].updatedAt, repos[j].updatedAt)
      && (repos[i].updatedAt == repos[j].updatedAt ==> TextLess(repos[i].name, repos[j].name))
  }

  /** Newest first; events of the same instant by descending id. */
  ghost predicate NewestEventsFirst(events: seq<ActivityEvent>) {
    forall i, j :: 0 <= i < j < |events| ==>
      && events[i].createdAt >= events[j].createdAt
      && (events[i].createdAt == events[j].createdAt ==> events[i].id > events[j].id)
  }

  lemma {:induction false} AscendingReposAreNewestFirst(repos: seq<RepoInfo>)
    requires Ascending(repos, REPO_ORDER)
    ensures NewestReposFirst(repos)
  {
    forall i, j | 0 <= i < j < |repos|
      ensures !TextLess(repos[i].updatedAt, repos[j].updatedAt)
      ensures repos[i].updatedAt == repos[j].updatedAt ==> TextLess(repos[i].name, repos[j].name)
    {
      var a, b := repos[i], repos[j];
      assert RepoBefore(RepoKey(a.updatedAt, a.name), RepoKey(b.updatedAt, b.name));
      hide Ascending, TextLess;
      LexIsTextOrder(a.updatedAt, b.updatedAt);
      LexIsTextOrder(b.updatedAt, a.updatedAt);
      LexIsTextOrder(a.name, b.name);
      LexTotal(a.updatedAt, a.updatedAt);
      if LexLess(a.updatedAt, b.updatedAt) && LexLess(b.updatedAt, a.updatedAt) {
        LexTransitive(a.updatedAt, b.updatedAt, a.updatedAt);
      }
    }
  }

  /** A repository off the page that comes after the cursor is not newer than any on it, and with the timestamp of
      one on it has the greater name. */
  ghost predicate NothingNewerLeftOut(repos: seq<RepoInfo>, after: Option<RepoKey>, page: seq<RepoInfo>) {
    forall x, y :: x in repos && x !in page && y in page
                   && (after.None? || TextLess(x.updatedAt, after.value.updatedAt)
                       || (x.updatedAt == after.value.updatedAt && TextLess(after.value.name, x.name))) ==>
      && !TextLess(y.updatedAt, x.updatedAt)
      && (y.updatedAt == x.updatedAt ==> TextLess(y.name, x.name))
  }

  /** Everything on the page is older than the cursor, or of the same timestamp and with a greater name. */
  ghost predicate BeyondCursor(after: Option<RepoKey>, page: seq<RepoInfo>) {
    forall y :: y in page && after.Some? ==>
      || TextLess(y.updatedAt, after.value.updatedAt)
      || (y.updatedAt == after.value.updatedAt && TextLess(after.value.name, y.name))
  }

  lemma {:induction false} RepoBeforeMeans(a: RepoKey, b: RepoKey)
    ensures RepoBefore(a, b)
            <==> TextLess(b.updatedAt, a.updatedAt) || (a.updatedAt == b.updatedAt && TextLess(a.name, b.name))
    ensures RepoBefore(a, b) ==> !TextLess(a.updatedAt, b.updatedAt)
  {
    hide TextLess;
    LexIsTextOrder(a.updatedAt, b.updatedAt);
    LexIsTextOrder(b.updatedAt, a.updatedAt);
    LexIsTextOrder(a.name, b.name);
    LexTotal(a.updatedAt, a.updatedAt);
    if LexLess(a.updatedAt, b.updatedAt) && LexLess(b.updatedAt, a.updatedAt) {
      LexTransitive(a.updatedAt, b.updatedAt, a.updatedAt);
    }
  }

  /** What a page of repositories is, in terms of timestamps and names. */
  lemma {:induction false} RepoPageMeans(repos: seq<RepoInfo>, after: Option<RepoKey>, limit: nat)
    requires limit > 0 && UniqueNames(repos)
    ensures var page := PageOf(repos, after, limit, REPO_ORDER).items;
            && NewestReposFirst(page) && BeyondCursor(after, page) && NothingNewerLeftOut(repos, after, page)
            && |page| <= limit && (forall y :: y in page ==> y in repos)
  {
    RepoOrderIsTotal();
    PageExact(repos, after, limit, REPO_ORDER);
    var page := PageOf(repos, after, limit, REPO_ORDER);
    AscendingReposAreNewestFirst(page.items);
    hide PageOf, TextLess, Ascending, NewestReposFirst, RepoBefore, LexLess;
    forall y | y in page.items && after.Some?
      ensures TextLess(y.updatedAt, after.value.updatedAt)
              || (y.updatedAt == after.value.updatedAt && TextLess(after.value.name, y.name))
    {
      RepoBeforeMeans(after.value, REPO_ORDER.key(y));
    }
    forall x, y | x in repos && x !in page.items && y in page.items
                  && (after.None? || TextLess(x.updatedAt, after.value.updatedAt)
                      || (x.updatedAt == after.value.updatedAt && TextLess(after.value.name, x.name)))
      ensures !TextLess(y.updatedAt, x.updatedAt)
      ensures y.updatedAt == x.updatedAt ==> TextLess(y.name, x.name)
    {
      if after.Some? { RepoBeforeMeans(after.value, REPO_ORDER.key(x)); }
      assert page.next.Some? && RepoBefore(page.next.value, REPO_ORDER.key(x));
      LastOfPage(repos, after, limit, y);
      BeforeChain(REPO_ORDER.key(y), page.next.value, REPO_ORDER.key(x));
      RepoBeforeMeans(REPO_ORDER.key(y), REPO_ORDER.key(x));
    }
  }

  lemma {:induction false} BeforeChain(a: RepoKey, b: RepoKey, c: RepoKey)
    requires (a == b || RepoBefore(a, b)) && RepoBefore(b, c)
    ensures RepoBefore(a, c)
  {
    RepoOrderIsTotal();
  }

  lemma {:induction false} LastOfPage(repos: seq<RepoInfo>, after: Option<RepoKey>, limit: nat, y: RepoInfo)
    requires limit > 0 && UniqueNames(repos) && y in PageOf(repos, after, limit, REPO_ORDER).items
    requires PageOf(repos, after, limit, REPO_ORDER).next.Some?
    ensures var last := PageOf(repos, after, limit, REPO_ORDER).next.value;
            REPO_ORDER.key(y) == last || RepoBefore(REPO_ORDER.key(y), last)
  {
    RepoOrderIsTotal();
    PageExact(repos, after, limit, REPO_ORDER);
    var items := PageOf(repos, after, limit, REPO_ORDER).items;
    hide PageOf, LexLess, RepoBefore;
    var n :| 0 <= n < |items| && items[n] == y;
    assert n < limit - 1 ==> REPO_ORDER.before(REPO_ORDER.key(items[n]), REPO_ORDER.key(items[limit - 1]));
  }

  /** Of two repositories the newer one makes up the first page of one. */
  lemma {:induction false} NewerOneFirst()
    ensures var late, early := RepoInfo("new", "2024", ""), RepoInfo("old", "2023", "");
            && PageOf([early, late], None, 1, REPO_ORDER).items == [late]
            && PageOf([late, early], None, 1, REPO_ORDER).items == [late]
  {
    var late, early := RepoInfo("new", "2024", ""), RepoInfo("old", "2023", "");
    assert TextLess("2023", "2024") by {
      assert "2023"[..3] == "202" == "2024"[..3] && "2023"[3] < "2024"[3];
    }
    FirstOfTwo([early, late], late, early);
    FirstOfTwo([late, early], late, early);
  }

  lemma {:induction false} FirstOfTwo(repos: seq<RepoInfo>, late: RepoInfo, early: RepoInfo)
    requires repos == [early, late] || repos == [late, early]
    requires late.name != early.name && TextLess(early.updatedAt, late.updatedAt)
    ensures PageOf(repos, None, 1, REPO_ORDER).items == [late]
  {
    RepoPageMeans(repos, None, 1);
    RepoOrderIsTotal();
    PageExact(repos, None, 1, REPO_ORDER);
    var page := PageOf(repos, None, 1, REPO_ORDER);
    hide PageOf, TextLess, RepoBefore, LexLess;
    assert late in repos && early in repos;
  }

  lemma {:induction false} AscendingEventsAreNewestFirst(events: seq<ActivityEvent>)
    requires Ascending(events, ACTIVITY_ORDER)
    ensures NewestEventsFirst(events)
  {
    forall i, j | 0 <= i < j < |events|
      ensures events[i].createdAt >= events[j].createdAt
      ensures events[i].createdAt == events[j].createdAt ==> events[i].id > events[j].id
    {
      assert ACTIVITY_ORDER.before(ACTIVITY_ORDER.key(events[i]), ACTIVITY_ORDER.key(events[j]));
    }
  }

  /** What a page of events is, in terms of timestamps and ids. */
  lemma {:induction false} ActivityPageMeans(events: seq<ActivityEvent>, after: Option<ActivityKey>, limit: nat)
    requires limit > 0 && UniqueIds(events)
    ensures var page := PageOf(events, after, limit, ACTIVITY_ORDER).items;
            && NewestEventsFirst(page) && |page| <= limit && (forall y :: y in page ==> y in events)
            && (forall y :: y in page && after.Some? ==>
                  y.createdAt < after.value.createdAt
                  || (y.createdAt == after.value.createdAt && y.id < after.value.id))
            && (forall x, y :: (x in events && x !in page && y in page
                                && (after.None? || x.createdAt < after.value.createdAt
                                    || (x.createdAt == after.value.createdAt && x.id < after.value.id)))
                               ==> x.createdAt < y.createdAt || (x.createdAt == y.createdAt && x.id < y.id))
  {
    ActivityOrderIsTotal();
    PageExact(events, after, limit, ACTIVITY_ORDER);
    var page := PageOf(events, after, limit, ACTIVITY_ORDER);
    AscendingEventsAreNewestFirst(page.items);
    hide PageOf, NewestEventsFirst;
    forall x, y | x in events && x !in page.items && y in page.items
                  && (after.None? || x.createdAt < after.value.createdAt
                      || (x.createdAt == after.value.createdAt && x.id < after.value.id))
      ensures x.createdAt < y.createdAt || (x.createdAt == y.createdAt && x.id < y.id)
    {
      assert IsAfter(x, after, ACTIVITY_ORDER);
      assert page.next.Some? && ACTIVITY_ORDER.before(page.next.value, ACTIVITY_ORDER.key(x));
      var n :| 0 <= n < |page.items| && page.items[n] == y;
      assert n < limit - 1
             ==> ACTIVITY_ORDER.before(ACTIVITY_ORDER.key(page.items[n]), ACTIVITY_ORDER.key(page.items[limit - 1]));
    }
  }

  lemma {:induction false} RepoOrderIsTotal()
    ensures StrictTotal(REPO_ORDER.before)
  {
    forall a: RepoKey, b: RepoKey ensures a == b || RepoBefore(a, b) || RepoBefore(b, a) {
      LexTotal(a.updatedAt, b.updatedAt);
      LexTotal(a.name, b.name);
    }
    forall a: RepoKey ensures !RepoBefore(a, a) {
      LexTotal(a.updatedAt, a.updatedAt);
      LexTotal(a.name, a.name);
    }
    forall a: RepoKey, b: RepoKey, c: RepoKey | RepoBefore(a, b) && RepoBefore(b, c) ensures RepoBefore(a, c) {
      if LexLess(b.updatedAt, a.updatedAt) && LexLess(c.updatedAt, b.updatedAt) {
        LexTransitive(c.updatedAt, b.updatedAt, a.updatedAt);
      } else if LexLess(a.name, b.name) && LexLess(b.name, c.name) {
        LexTransitive(a.name, b.name, c.name);
      }
    }
  }

  lemma {:induction false} ActivityOrderIsTotal()
    ensures StrictTotal(ACTIVITY_ORDER.before)
  {
  }

  datatype ListResponse<+T> = ListResponse(items: seq<T>, nextCursor: Option<string>)

  /** Repository names are unique in an accessible listing, because ambiguous names are left out of it. */
  ghost predicate UniqueNames(repos: seq<RepoInfo>) {
    forall i, j :: 0 <= i < j < |repos| ==> repos[i].name != repos[j].name
  }

  ghost predicate UniqueIds(events: seq<ActivityEvent>) {
    forall i, j :: 0 <= i < j < |events| ==> events[i].id != events[j].id
  }

  /** Every string is UTF-8. */
  ghost predicate Utf8Repos(repos: seq<RepoInfo>) {
    forall r :: r in repos ==> ValidUtf8(r.updatedAt) && ValidUtf8(r.name)
  }

  /** Event ids come from a 64-bit sequence that starts at one, and timestamps from a 64-bit column. */
  ghost predicate SequencedEvents(events: seq<ActivityEvent>) {
    forall e :: e in events ==> 0 < e.id <= I64_MAX && Representable(e.createdAt)
  }

  function RepoCursor(next: Option<RepoKey>): Option<string>
    requires next.Some? ==> ValidUtf8(next.value.updatedAt) && ValidUtf8(next.value.name)
  {
    if next.None? then None else Some(EncodeRepoCursor(next.value))
  }

  lemma {:induction false} NextRepoIsUtf8(repos: seq<RepoInfo>, after: Option<RepoKey>, limit: nat)
    requires Utf8Repos(repos) && limit > 0
    ensures var next := PageOf(repos, after, limit, REPO_ORDER).next;
            next.Some? ==> ValidUtf8(next.value.updatedAt) && ValidUtf8(next.value.name)
  {
    hide PageOf, ValidUtf8;
    var x := NextNamesAnItem(repos, after, limit, REPO_ORDER);
  }

  method PaginateRepos(other: Other<RepoKey>, repos: seq<RepoInfo>, limit: Option<nat>, cursor: Option<string>)
    returns (r: Result<ListResponse<RepoInfo>, string>)
    requires Utf8Repos(repos)
    ensures var size := if limit.Some? then limit.value else 100;
            var after := if cursor.Some? then DecodeRepoCursor(other, cursor.value) else None;
            r.Ok? && UniqueNames(repos) ==>
              && NewestReposFirst(r.value.items) && BeyondCursor(after, r.value.items)
              && NothingNewerLeftOut(repos, after, r.value.items)
              && |r.value.items| <= size && forall y :: y in r.value.items ==> y in repos
    ensures var size := if limit.Some? then limit.value else 100;
            var after := if cursor.Some? then DecodeRepoCursor(other, cursor.value) else None;
            && (r.Err? <==> !(1 <= size <= 100) || (cursor.Some? && after.None?))
            && (r.Ok? ==>
                  var page := PageOf(repos, after, size, REPO_ORDER);
                  && (page.next.Some? ==> ValidUtf8(page.next.value.updatedAt) && ValidUtf8(page.next.value.name))
                  && r.value == ListResponse(page.items, RepoCursor(page.next)))
  {
    hide PageOf, DecodeRepoCursor, EncodeRepoCursor, ValidUtf8;
    var size := if limit.Some? then limit.value else DEFAULT_REPO_PAGE_SIZE;
    if size < 1 || size > MAX_REPO_PAGE_SIZE {
      return Err("limit must be between 1 and 100");
    }
    var after := None;
    if cursor.Some? {
      after := DecodeRepoCursor(other, cursor.value);
      if after.None? {
        return Err("invalid repository cursor");
      }
    }
    var page := FetchPage(repos, after, size, REPO_ORDER);
    NextRepoIsUtf8(repos, after, size);
    if UniqueNames(repos) {
      RepoPageMeans(repos, after, size);
    }
    r := Ok(ListResponse(page.items, RepoCursor(page.next)));
  }

  function ActivityCursor(clock: Clock, next: Option<ActivityKey>): Option<string>
    requires next.Some? ==> next.value.id > 0 && IsBytes(ActivityJson(clock, next.value))
  {
    if next.None? then None else Some(EncodeActivityCursor(clock, next.value))
  }

  lemma {:induction false} NextEventIsSequenced(
      clock: Clock, events: seq<ActivityEvent>, after: Option<ActivityKey>, limit: nat)
    requires Faithful(clock) && SequencedEvents(events) && limit > 0
    ensures var next := PageOf(events, after, limit, ACTIVITY_ORDER).next;
            next.Some? ==> 0 < next.value.id <= I64_MAX && IsBytes(ActivityJson(clock, next.value))
  {
    hide PageOf, IsBytes, ActivityJson, Faithful;
    var x := NextNamesAnItem(events, after, limit, ACTIVITY_ORDER);
    if x.Some? {
      ActivityJsonIsBytes(clock, ActivityKey(x.value.createdAt, x.value.id));
    }
  }

  method ListActivity(clock: Clock, other: Other<ActivityKey>, visible: seq<ActivityEvent>, limit: Option<nat>,
                      cursor: Option<string>)
    returns (r: Result<ListResponse<ActivityEvent>, string>)
    requires Faithful(clock) && SequencedEvents(visible)
    ensures var size := if limit.Some? then limit.value else 50;
            r.Ok? && UniqueIds(visible) ==>
              && NewestEventsFirst(r.value.items) && |r.value.items| <= size
              && forall y :: y in r.value.items ==> y in visible
    ensures var size := if limit.Some? then limit.value else 50;
            var after := if cursor.Some? then DecodeActivityCursor(clock, other, cursor.value) else None;
            && (r.Err? <==> !(1 <= size <= 100) || (cursor.Some? && after.None?))
            && (r.Ok? ==>
                  var page := PageOf(visible, after, size, ACTIVITY_ORDER);
                  && (page.next.Some? ==> page.next.value.id > 0 && IsBytes(ActivityJson(clock, page.next.value)))
                  && r.value == ListResponse(page.items, ActivityCursor(clock, page.next)))
  {
    hide PageOf, DecodeActivityCursor, EncodeActivityCursor, IsBytes, ActivityJson, Faithful;
    var size := if limit.Some? then limit.value else DEFAULT_ACTIVITY_PAGE_SIZE;
    if size < 1 || size > MAX_ACTIVITY_PAGE_SIZE {
      return Err("limit must be between 1 and 100");
    }
    var after := None;
    if cursor.Some? {
      after := DecodeActivityCursor(clock, other, cursor.value);
      if after.None? {
        return Err("invalid activity cursor");
      }
    }
    var page := FetchPage(visible, after, size, ACTIVITY_ORDER);
    NextEventIsSequenced(clock, visible, after, size);
    if UniqueIds(visible) {
      ActivityPageMeans(visible, after, size);
    }
    r := Ok(ListResponse(page.items, ActivityCursor(clock, page.next)));
  }

  // ---------------------------------------------------------------- walks by opaque cursors

  ghost predicate LegalRepos(repos: seq<RepoInfo>) {
    forall r :: r in repos ==> LegalName(r.name) && Printable(r.updatedAt) && |r.updatedAt| <= 1024
  }

  function RepoCodec(other: Other<RepoKey>): Codec<RepoKey> {
    Codec((k: RepoKey) => if ValidUtf8(k.updatedAt) && ValidUtf8(k.name) then EncodeRepoCursor(k) else "",
          (text: string) => DecodeRepoCursor(other, text))
  }

  function ActivityCodec(clock: Clock, other: Other<ActivityKey>): Codec<ActivityKey> {
    Codec((k: ActivityKey) =>
            if k.id > 0 && IsBytes(ActivityJson(clock, k)) then EncodeActivityCursor(clock, k) else "",
          (text: string) => DecodeActivityCursor(clock, other, text))
  }

  lemma {:induction false} LegalReposRoundTrip(other: Other<RepoKey>, repos: seq<RepoInfo>)
    requires LegalRepos(repos)
    ensures RoundTrips(repos, REPO_ORDER, RepoCodec(other))
  {
    hide DecodeRepoCursor, EncodeRepoCursor, ValidUtf8, LegalName, Printable;
    forall r | r in repos
      ensures var k := REPO_ORDER.key(r); RepoCodec(other).decode(RepoCodec(other).encode(k)) == Some(k)
    {
      LegalRepoCursorIsAccepted(other, RepoKey(r.updatedAt, r.name));
    }
  }

  lemma {:induction false} EventsRoundTrip(clock: Clock, other: Other<ActivityKey>, events: seq<ActivityEvent>)
    requires Faithful(clock) && SequencedEvents(events)
    ensures RoundTrips(events, ACTIVITY_ORDER, ActivityCodec(clock, other))
  {
    hide DecodeActivityCursor, EncodeActivityCursor, IsBytes, ActivityJson, Faithful;
    forall e | e in events
      ensures var k := ACTIVITY_ORDER.key(e);
              ActivityCodec(clock, other).decode(ActivityCodec(clock, other).encode(k)) == Some(k)
    {
      ActivityCursorRoundTrip(clock, other, ActivityKey(e.createdAt, e.id));
    }
  }

  /** Walking the repository listing by its opaque cursors returns every repository whose name and timestamp
      stay fixed exactly once, and never has a cursor refused. */
  lemma {:induction false} OpaqueRepoWalkIsExact(
      other: Other<RepoKey>, snapshots: seq<seq<RepoInfo>>, limit: nat, repo: RepoKey)
    returns (i: int)
    requires 1 <= limit <= MAX_REPO_PAGE_SIZE
    requires forall n :: 0 <= n < |snapshots| ==>
               UniqueNames(snapshots[n]) && LegalRepos(snapshots[n]) && HasKey(snapshots[n], repo, REPO_ORDER)
    requires Completes(snapshots, None, limit, REPO_ORDER)
    ensures var pages := OpaqueWalk(snapshots, None, limit, REPO_ORDER, RepoCodec(other));
            && pages.Some? && OnlyAt(Flatten(pages.value), repo, i, REPO_ORDER)
            && NewestReposFirst(Flatten(pages.value))
  {
    RepoOrderIsTotal();
    forall n | 0 <= n < |snapshots|
      ensures Distinct(snapshots[n], REPO_ORDER) && RoundTrips(snapshots[n], REPO_ORDER, RepoCodec(other))
    {
      LegalReposRoundTrip(other, snapshots[n]);
    }
    i := OpaqueWalkIsExact(snapshots, limit, REPO_ORDER, RepoCodec(other), repo);
    AscendingReposAreNewestFirst(Flatten(OpaqueWalk(snapshots, None, limit, REPO_ORDER, RepoCodec(other)).value));
  }

  /** The same for activity events. */
  lemma {:induction false} OpaqueActivityWalkIsExact(
      clock: Clock, other: Other<ActivityKey>, snapshots: seq<seq<ActivityEvent>>, limit: nat, event: ActivityKey)
    returns (i: int)
    requires 1 <= limit <= MAX_ACTIVITY_PAGE_SIZE && Faithful(clock)
    requires forall n :: 0 <= n < |snapshots| ==>
               UniqueIds(snapshots[n]) && SequencedEvents(snapshots[n]) && HasKey(snapshots[n], event, ACTIVITY_ORDER)
    requires Completes(snapshots, None, limit, ACTIVITY_ORDER)
    ensures var pages := OpaqueWalk(snapshots, None, limit, ACTIVITY_ORDER, ActivityCodec(clock, other));
            && pages.Some? && OnlyAt(Flatten(pages.value), event, i, ACTIVITY_ORDER)
            && NewestEventsFirst(Flatten(pages.value))
  {
    ActivityOrderIsTotal();
    forall n | 0 <= n < |snapshots|
      ensures Distinct(snapshots[n], ACTIVITY_ORDER)
              && RoundTrips(snapshots[n], ACTIVITY_ORDER, ActivityCodec(clock, other))
    {
      EventsRoundTrip(clock, other, snapshots[n]);
    }
    i := OpaqueWalkIsExact(snapshots, limit, ACTIVITY_ORDER, ActivityCodec(clock, other), event);
    AscendingEventsAreNewestFirst(
      Flatten(OpaqueWalk(snapshots, None, limit, ACTIVITY_ORDER, ActivityCodec(clock, other)).value));
  }

  // ---------------------------------------------------------------- walks by keys

  /** Repositories may be created, renamed, touched and deleted between requests: one whose name and
      timestamp stay the same throughout a completed walk is returned exactly once, and no key twice. */
  lemma {:induction false} RepoWalkIsExact(snapshots: seq<seq<RepoInfo>>, limit: nat, repo: RepoKey) returns (i: int)
    requires 1 <= limit <= MAX_REPO_PAGE_SIZE
    requires forall n :: 0 <= n < |snapshots| ==> UniqueNames(snapshots[n]) && HasKey(snapshots[n], repo, REPO_ORDER)
    requires Completes(snapshots, None, limit, REPO_ORDER)
    ensures OnlyAt(Flatten(Walk(snapshots, None, limit, REPO_ORDER)), repo, i, REPO_ORDER)
    ensures NewestReposFirst(Flatten(Walk(snapshots, None, limit, REPO_ORDER)))
  {
    RepoOrderIsTotal();
    assert forall n :: 0 <= n < |snapshots| ==> Distinct(snapshots[n], REPO_ORDER);
    i := StableKeysExactlyOnce(snapshots, limit, REPO_ORDER, repo);
    WalkNeverRepeats(snapshots, None, limit, REPO_ORDER);
    AscendingReposAreNewestFirst(Flatten(Walk(snapshots, None, limit, REPO_ORDER)));
  }

  /** Events only ever appear and disappear, so every event visible throughout a completed walk is returned
      exactly once. */
  lemma {:induction false} ActivityWalkIsExact(
      snapshots: seq<seq<ActivityEvent>>, limit: nat, event: ActivityKey)
    returns (i: int)
    requires 1 <= limit <= MAX_ACTIVITY_PAGE_SIZE
    requires forall n :: 0 <= n < |snapshots| ==> UniqueIds(snapshots[n]) && HasKey(snapshots[n], event, ACTIVITY_ORDER)
    requires Completes(snapshots, None, limit, ACTIVITY_ORDER)
    ensures OnlyAt(Flatten(Walk(snapshots, None, limit, ACTIVITY_ORDER)), event, i, ACTIVITY_ORDER)
    ensures NewestEventsFirst(Flatten(Walk(snapshots, None, limit, ACTIVITY_ORDER)))
  {
    ActivityOrderIsTotal();
    assert forall n :: 0 <= n < |snapshots| ==> Distinct(snapshots[n], ACTIVITY_ORDER);
    i := StableKeysExactlyOnce(snapshots, limit, ACTIVITY_ORDER, event);
    WalkNeverRepeats(snapshots, None, limit, ACTIVITY_ORDER);
    AscendingEventsAreNewestFirst(Flatten(Walk(snapshots, None, limit, ACTIVITY_ORDER)));
  }

  /** Over an unchanging set of repositories the walk ends and returns all of them, newest first. */
  lemma {:induction false} RepoWalkIsComplete(repos: seq<RepoInfo>, limit: nat, requests: nat)
    requires 1 <= limit <= MAX_REPO_PAGE_SIZE && UniqueNames(repos)
    requires requests > 0 && requests * limit >= |repos|
    ensures Completes(Repeat(repos, requests), None, limit, REPO_ORDER)
    ensures var all := Flatten(Walk(Repeat(repos, requests), None, limit, REPO_ORDER));
            multiset(all) == multiset(repos) && NewestReposFirst(all)
  {
    RepoOrderIsTotal();
    FixedWalkIsTheSortedList(repos, limit, REPO_ORDER, requests);
    AscendingReposAreNewestFirst(Flatten(Walk(Repeat(repos, requests), None, limit, REPO_ORDER)));
  }

  /** Over an unchanging feed the walk ends and returns every event, newest first. */
  lemma {:induction false} ActivityWalkIsComplete(events: seq<ActivityEvent>, limit: nat, requests: nat)
    requires 1 <= limit <= MAX_ACTIVITY_PAGE_SIZE && UniqueIds(events)
    requires requests > 0 && requests * limit >= |events|
    ensures Completes(Repeat(events, requests), None, limit, ACTIVITY_ORDER)
    ensures var all := Flatten(Walk(Repeat(events, requests), None, limit, ACTIVITY_ORDER));
            multiset(all) == multiset(events) && NewestEventsFirst(all)
  {
    ActivityOrderIsTotal();
    FixedWalkIsTheSortedList(events, limit, ACTIVITY_ORDER, requests);
    AscendingEventsAreNewestFirst(Flatten(Walk(Repeat(events, requests), None, limit, ACTIVITY_ORDER)));
  }
}
