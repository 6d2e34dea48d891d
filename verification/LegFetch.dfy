/** Fetching every stored message of a set of calls in bounded queries: chunks of
    Call-IDs, and per chunk a re-reading paginator over ascending timestamps. */
module LegFetch {
  import opened Wrappers
  import opened Ordering
  import opened Lists
  import opened ClickHouseText

  const FETCH_CHUNK_CALLIDS: nat := 25
  const MAX_FETCH_CALLIDS: nat := 400

  /** A stored message, as far as the fetch tells messages apart. */
  datatype Row = Row(ts: int, callId: string, srcIp: string, dstIp: string, node: string, raw: string)

  type Store = multiset<Row>

  predicate Wanted(r: Row, cids: seq<string>, lo: int, hi: int) {
    r.callId in cids && lo <= r.ts < hi
  }

  ghost predicate Ascending(rows: seq<Row>) {
    forall i, j | 0 <= i < j < |rows| :: rows[i].ts <= rows[j].ts
  }

  /** What the store may answer to "rows of these calls in [lo, hi), by ascending
      time, at most `limit`": any tie order, and only later rows left out. */
  ghost predicate IsAnswer(page: seq<Row>, store: Store, cids: seq<string>, lo: int, hi: int, limit: nat) {
    && |page| <= limit
    && Ascending(page)
    && (forall r | r in page :: r in store && Wanted(r, cids, lo, hi))
    && (forall r | r in store && Wanted(r, cids, lo, hi) && r !in page ::
          |page| == limit && forall q | q in page :: q.ts <= r.ts)
  }

  // ----- one chunk -----

  function AddNew(out: seq<Row>, page: seq<Row>): seq<Row>
    decreases |page|
  {
    if page == [] then out
    else AddNew(if page[0] in out then out else out + [page[0]], page[1..])
  }

  function Latest(page: seq<Row>): (t: int)
    requires page != []
    ensures forall r | r in page :: r.ts <= t
    ensures exists r :: r in page && r.ts == t
  {
    if |page| == 1 then
      assert page[0] in page;
      page[0].ts
    else
      var t := Latest(page[1..]);
      assert page[0] in page && forall r | r in page[1..] :: r in page;
      if page[0].ts > t then page[0].ts else t
  }

  /** The store's answers, by page number and cursor. */
  type Replies = (nat, int) -> seq<Row>

  /** The rows from page `p` on, and whether a bound cut them short. */
  function Fetch(replies: Replies, p: nat, cursor: int, out: seq<Row>, limit: nat, maxPages: nat): (seq<Row>, bool)
    requires limit > 0
    decreases maxPages - p
  {
    if p >= maxPages then (out, true)
    else
      var page := replies(p, cursor);
      var more := AddNew(out, page);
      if |page| < limit then (more, false)
      else if Latest(page) <= cursor then (more, true)
      else Fetch(replies, p + 1, Latest(page), more, limit, maxPages)
  }

  method FetchChunk(replies: Replies, start: int, limit: nat, maxPages: nat) returns (out: seq<Row>, capped: bool)
    requires limit > 0
    ensures (out, capped) == Fetch(replies, 0, start, [], limit, maxPages)
  {
    out := [];
    var cursor := start;
    var p := 0;
    while p < maxPages
      invariant p <= maxPages
      invariant Fetch(replies, p, cursor, out, limit, maxPages) == Fetch(replies, 0, start, [], limit, maxPages)
    {
      var page := replies(p, cursor);
      ghost var before := out;
      for i := 0 to |page|
        invariant AddNew(out, page[i..]) == AddNew(before, page)
      {
        assert page[i..][1..] == page[i + 1..];
        if page[i] !in out {
          out := out + [page[i]];
        }
      }
      assert page[|page|..] == [];
      if |page| < limit {
        return out, false;
      }
      var last := Latest(page);
      if last <= cursor {
        break;
      }
      cursor, p := last, p + 1;
    }
    return out, true;
  }

  /** Everything before the cursor is held, once and in order, and nothing else. */
  ghost predicate HoldsUpto(out: seq<Row>, store: Store, cids: seq<string>, start: int, cursor: int, end: int) {
    && NoDup(out) && Ascending(out)
    && (forall r | r in out :: r in store && Wanted(r, cids, start, end) && r.ts <= cursor)
    && (forall r | r in store && Wanted(r, cids, start, end) && r.ts < cursor :: r in out)
  }

  lemma AppendRow(out: seq<Row>, r: Row)
    requires NoDup(out) && Ascending(out) && r !in out && forall q | q in out :: q.ts <= r.ts
    ensures NoDup(out + [r]) && Ascending(out + [r])
  {
    assert forall i | 0 <= i < |out| :: out[i] in out;
  }

  lemma {:induction false} AddNewMembers(out: seq<Row>, page: seq<Row>)
    ensures forall r :: r in AddNew(out, page) <==> r in out || r in page
    decreases |page|
  {
    if page != [] {
      AddNewMembers(if page[0] in out then out else out + [page[0]], page[1..]);
      assert page == [page[0]] + page[1..];
    }
  }

  lemma {:induction false} AddNewOrders(out: seq<Row>, page: seq<Row>)
    requires NoDup(out) && Ascending(out) && Ascending(page)
    requires forall r, q | r in out && q in page && q !in out :: r.ts <= q.ts
    ensures NoDup(AddNew(out, page)) && Ascending(AddNew(out, page))
    decreases |page|
  {
    if page != [] {
      var r, rest := page[0], page[1..];
      assert forall i | 0 < i < |page| :: r.ts <= page[i].ts;
      assert forall q | q in rest :: q in page && r.ts <= q.ts;
      if r in out {
        AddNewOrders(out, rest);
      } else {
        AppendRow(out, r);
        AddNewOrders(out + [r], rest);
      }
    }
  }

  /** Exactly the rows of the range. */
  ghost predicate IsWhole(rows: seq<Row>, store: Store, cids: seq<string>, start: int, end: int) {
    forall r :: r in rows <==> r in store && Wanted(r, cids, start, end)
  }

  /** Only rows of the range, and what is missing is no older than any of them. */
  ghost predicate OnlyLaterMissing(rows: seq<Row>, store: Store, cids: seq<string>, start: int, end: int) {
    && (forall r | r in rows :: r in store && Wanted(r, cids, start, end))
    && (forall r, q | r in store && Wanted(r, cids, start, end) && r !in rows && q in rows :: q.ts <= r.ts)
  }

  /** What a chunk is when the fetch ends. */
  ghost predicate IsFetched(rows: seq<Row>, capped: bool, store: Store, cids: seq<string>, start: int, end: int) {
    && NoDup(rows) && Ascending(rows)
    && (if capped then OnlyLaterMissing(rows, store, cids, start, end) else IsWhole(rows, store, cids, start, end))
  }

  lemma {:induction false} PageExtends(out: seq<Row>, page: seq<Row>, store: Store, cids: seq<string>, start: int, cursor: int, end: int, limit: nat)
    requires limit > 0 && start <= cursor
    requires HoldsUpto(out, store, cids, start, cursor, end)
    requires IsAnswer(page, store, cids, cursor, end, limit)
    ensures |page| < limit ==> IsFetched(AddNew(out, page), false, store, cids, start, end)
    ensures |page| >= limit ==> HoldsUpto(AddNew(out, page), store, cids, start, Latest(page), end) && Latest(page) >= cursor
  {
    AddNewMembers(out, page);
    AddNewOrders(out, page);
  }

  lemma HeldMeansCapped(out: seq<Row>, store: Store, cids: seq<string>, start: int, cursor: int, end: int)
    requires HoldsUpto(out, store, cids, start, cursor, end)
    ensures IsFetched(out, true, store, cids, start, end)
  {
  }

  ghost predicate AllAnswers(replies: Replies, store: Store, cids: seq<string>, end: int, limit: nat) {
    forall k: nat, c: int, page | page == replies(k, c) :: IsAnswer(page, store, cids, c, end, limit)
  }

  lemma AnswerAt(replies: Replies, store: Store, cids: seq<string>, end: int, limit: nat, k: nat, c: int)
    requires AllAnswers(replies, store, cids, end, limit)
    ensures IsAnswer(replies(k, c), store, cids, c, end, limit)
  {
  }

  lemma {:induction false} FetchEnds(replies: Replies, p: nat, cursor: int, out: seq<Row>,
      store: Store, cids: seq<string>, start: int, end: int, limit: nat, maxPages: nat)
    requires limit > 0 && start <= cursor && AllAnswers(replies, store, cids, end, limit)
    requires HoldsUpto(out, store, cids, start, cursor, end)
    ensures var (rows, capped) := Fetch(replies, p, cursor, out, limit, maxPages);
            IsFetched(rows, capped, store, cids, start, end)
    decreases maxPages - p
  {
    if p >= maxPages {
      HeldMeansCapped(out, store, cids, start, cursor, end);
    } else {
      var page := replies(p, cursor);
      AnswerAt(replies, store, cids, end, limit, p, cursor);
      PageExtends(out, page, store, cids, start, cursor, end, limit);
      if |page| >= limit {
        if Latest(page) > cursor {
          FetchEnds(replies, p + 1, Latest(page), AddNew(out, page), store, cids, start, end, limit, maxPages);
        } else {
          HeldMeansCapped(AddNew(out, page), store, cids, start, Latest(page), end);
        }
      }
    }
  }

  /** The chunk's rows are the whole range, or the cap is reported and only rows
      no older than anything returned are missing. */
  lemma FetchIsCompleteOrCapped(replies: Replies, p: nat, cursor: int, out: seq<Row>,
      store: Store, cids: seq<string>, start: int, end: int, limit: nat, maxPages: nat)
    requires limit > 0 && start <= cursor
    requires forall k: nat, c: int :: IsAnswer(replies(k, c), store, cids, c, end, limit)
    requires HoldsUpto(out, store, cids, start, cursor, end)
    ensures var (rows, capped) := Fetch(replies, p, cursor, out, limit, maxPages);
            IsFetched(rows, capped, store, cids, start, end)
  {
    FetchEnds(replies, p, cursor, out, store, cids, start, end, limit, maxPages);
  }

  /** One query without a limit, de-duplicated, is what an uncapped chunk equals. */
  lemma ChunkEqualsOneBigQuery(replies: Replies, whole: seq<Row>, store: Store, cids: seq<string>,
      start: int, end: int, limit: nat, maxPages: nat)
    requires limit > 0
    requires forall k: nat, c: int :: IsAnswer(replies(k, c), store, cids, c, end, limit)
    requires IsAnswer(whole, store, cids, start, end, |whole| + 1)
    requires !Fetch(replies, 0, start, [], limit, maxPages).1
    ensures var rows := Fetch(replies, 0, start, [], limit, maxPages).0;
            NoDup(rows) && Ascending(rows) && forall r :: r in rows <==> r in whole
  {
    FetchIsCompleteOrCapped(replies, 0, start, [], store, cids, start, end, limit, maxPages);
  }

  // ----- when a chunk is not capped -----

  /** Wanted rows from `lo` on, each as often as it is stored. */
  function CountFrom(all: seq<Row>, cids: seq<string>, lo: int, end: int): nat {
    |Select((r: Row) => Wanted(r, cids, lo, end), all)|
  }

  /** Wanted rows at one instant. */
  function CountAt(all: seq<Row>, cids: seq<string>, t: int): nat {
    |Select((r: Row) => r.callId in cids && r.ts == t, all)|
  }

  /** An answer that gives no row more often than it is stored. */
  ghost predicate IsReply(page: seq<Row>, all: seq<Row>, cids: seq<string>, lo: int, end: int, limit: nat) {
    IsAnswer(page, multiset(all), cids, lo, end, limit) && multiset(page) <= multiset(all)
  }

  lemma PageCounts(page: seq<Row>, all: seq<Row>, cids: seq<string>, lo: int, end: int, limit: nat)
    requires IsReply(page, all, cids, lo, end, limit)
    ensures |page| <= CountFrom(all, cids, lo, end)
  {
    SelectAll((r: Row) => Wanted(r, cids, lo, end), page);
    SelectFewer((r: Row) => Wanted(r, cids, lo, end), page, all);
  }

  /** Wanted rows in [lo, hi). */
  function CountIn(all: seq<Row>, cids: seq<string>, lo: int, hi: int): nat {
    |Select((r: Row) => Wanted(r, cids, lo, hi), all)|
  }

  lemma CountSplits(all: seq<Row>, cids: seq<string>, lo: int, mid: int, end: int)
    requires lo <= mid <= end
    ensures CountFrom(all, cids, lo, end) == CountIn(all, cids, lo, mid) + CountFrom(all, cids, mid, end)
  {
    SelectEither((r: Row) => Wanted(r, cids, lo, end), (r: Row) => Wanted(r, cids, lo, mid), (r: Row) => Wanted(r, cids, mid, end), all);
  }

  /** All of a page but what is at its last instant is before that. */
  lemma PageBeforeItsLast(page: seq<Row>, all: seq<Row>, cids: seq<string>, lo: int, end: int, limit: nat)
    requires IsReply(page, all, cids, lo, end, limit) && page != []
    ensures lo <= Latest(page) < end
    ensures |page| <= CountIn(all, cids, lo, Latest(page)) + CountAt(all, cids, Latest(page))
  {
    var t := Latest(page);
    var before, at := (r: Row) => Wanted(r, cids, lo, t), (r: Row) => r.callId in cids && r.ts == t;
    var both := (r: Row) => before(r) || at(r);
    SelectAll(both, page);
    SelectEither(both, before, at, page);
    SelectFewer(before, page, all);
    SelectFewer(at, page, all);
  }

  /** A full page moves the cursor on, past all but `most` of its rows. */
  lemma FullPageMovesOn(page: seq<Row>, all: seq<Row>, cids: seq<string>, lo: int, end: int, limit: nat, most: nat)
    requires IsReply(page, all, cids, lo, end, limit) && |page| == limit && most < limit
    requires CountAt(all, cids, Latest(page)) <= most
    ensures lo < Latest(page)
    ensures CountFrom(all, cids, Latest(page), end) <= CountFrom(all, cids, lo, end) - (limit - most)
  {
    PageBeforeItsLast(page, all, cids, lo, end, limit);
    CountSplits(all, cids, lo, Latest(page), end);
    if CountIn(all, cids, lo, Latest(page)) > 0 {
      SelectedIn((r: Row) => Wanted(r, cids, lo, Latest(page)), all);
      assert Select((r: Row) => Wanted(r, cids, lo, Latest(page)), all)[0] in Select((r: Row) => Wanted(r, cids, lo, Latest(page)), all);
    }
  }

  /** How many rows `left` full pages and one more can hold, each two overlapping by
      all but `step` rows. */
  function Room(left: nat, step: nat, limit: nat): nat {
    if left == 0 then limit else Room(left - 1, step, limit) + step
  }

  lemma {:induction false} RoomIs(left: nat, step: nat, limit: nat)
    ensures Room(left, step, limit) == left * step + limit
  {
    if left > 0 {
      RoomIs(left - 1, step, limit);
      assert left * step == (left - 1) * step + step;
    }
  }

  predicate Fits(all: seq<Row>, cids: seq<string>, lo: int, end: int, limit: nat, most: nat, left: nat)
    requires most < limit
  {
    CountFrom(all, cids, lo, end) < Room(left, limit - most, limit)
  }

  lemma FullPageFits(page: seq<Row>, all: seq<Row>, cids: seq<string>, lo: int, end: int, limit: nat, most: nat, left: nat)
    requires most < limit == |page| && IsReply(page, all, cids, lo, end, limit) && CountAt(all, cids, Latest(page)) <= most
    requires Fits(all, cids, lo, end, limit, most, left)
    ensures left > 0 && lo < Latest(page) && Fits(all, cids, Latest(page), end, limit, most, left - 1)
  {
    PageCounts(page, all, cids, lo, end, limit);
    FullPageMovesOn(page, all, cids, lo, end, limit, most);
  }

  ghost predicate AllReplies(replies: Replies, all: seq<Row>, cids: seq<string>, end: int, limit: nat) {
    forall k: nat, c: int, page | page == replies(k, c) :: IsReply(page, all, cids, c, end, limit)
  }

  ghost predicate FewAtOnce(all: seq<Row>, cids: seq<string>, most: nat) {
    forall t :: CountAt(all, cids, t) <= most
  }

  lemma NextFits(replies: Replies, p: nat, cursor: int, all: seq<Row>, cids: seq<string>, end: int, limit: nat, most: nat, left: nat)
    requires most < limit && AllReplies(replies, all, cids, end, limit) && FewAtOnce(all, cids, most)
    requires Fits(all, cids, cursor, end, limit, most, left)
    ensures var page := replies(p, cursor);
            |page| >= limit ==> left > 0 && cursor < Latest(page) && Fits(all, cids, Latest(page), end, limit, most, left - 1)
  {
    var page := replies(p, cursor);
    assert IsReply(page, all, cids, cursor, end, limit);
    if |page| >= limit {
      assert CountAt(all, cids, Latest(page)) <= most;
      FullPageFits(page, all, cids, cursor, end, limit, most, left);
    }
  }

  lemma {:induction false} EnoughPages(replies: Replies, p: nat, cursor: int, out: seq<Row>,
      all: seq<Row>, cids: seq<string>, end: int, limit: nat, maxPages: nat, most: nat)
    requires p < maxPages && most < limit && AllReplies(replies, all, cids, end, limit) && FewAtOnce(all, cids, most)
    requires Fits(all, cids, cursor, end, limit, most, maxPages - p - 1)
    ensures !Fetch(replies, p, cursor, out, limit, maxPages).1
    decreases maxPages - p
  {
    var page := replies(p, cursor);
    NextFits(replies, p, cursor, all, cids, end, limit, most, maxPages - p - 1);
    if |page| >= limit {
      EnoughPages(replies, p + 1, Latest(page), AddNew(out, page), all, cids, end, limit, maxPages, most);
    }
  }

  lemma RoomOf(limit: nat, maxPages: nat, most: nat)
    requires maxPages > 0
    ensures limit * maxPages - most * (maxPages - 1) == (maxPages - 1) * (limit - most) + limit
  {
  }

  /** When no instant has more than `most` of the wanted rows, `most` is less than a
      page, and all wanted rows fit in the pages with as much overlap between each two,
      the chunk is not capped and holds them all. */
  lemma FetchIsWholeIfItFits(replies: Replies, all: seq<Row>, cids: seq<string>,
      start: int, end: int, limit: nat, maxPages: nat, most: nat)
    requires maxPages > 0 && most < limit
    requires forall k: nat, c: int :: IsReply(replies(k, c), all, cids, c, end, limit)
    requires forall t :: CountAt(all, cids, t) <= most
    requires CountFrom(all, cids, start, end) < limit * maxPages - most * (maxPages - 1)
    ensures var (rows, capped) := Fetch(replies, 0, start, [], limit, maxPages);
            !capped && NoDup(rows) && Ascending(rows) && IsWhole(rows, multiset(all), cids, start, end)
  {
    RoomIs(maxPages - 1, limit - most, limit);
    RoomOf(limit, maxPages, most);
    EnoughPages(replies, 0, start, [], all, cids, end, limit, maxPages, most);
    FetchIsCompleteOrCapped(replies, 0, start, [], multiset(all), cids, start, end, limit, maxPages);
  }

  // ----- all chunks -----

  datatype Reason = FetchCapReached(n: nat) | Timeout | ClickHouseError
  datatype Health = Health(reasons: seq<Reason>, degraded: bool, truncated: bool)
  {
    function Add(r: Reason): Health {
      if r in reasons then this else this.(reasons := reasons + [r])
    }
  }

  const HEALTHY := Health([], false, false)

  /** What the environment does to each chunk: answers, or a failure. */
  datatype World = World(replies: (nat, nat, int) -> seq<Row>, failure: nat -> Option<Reason>)

  function Chunk(cids: seq<string>, i: nat): seq<string>
    requires i * FETCH_CHUNK_CALLIDS < |cids|
  {
    var hi := (i + 1) * FETCH_CHUNK_CALLIDS;
    cids[i * FETCH_CHUNK_CALLIDS..if hi < |cids| then hi else |cids|]
  }

  function ChunkCount(cids: seq<string>): (n: nat)
    ensures n == 0 <==> cids == []
    ensures cids != [] ==> (n - 1) * FETCH_CHUNK_CALLIDS < |cids| <= n * FETCH_CHUNK_CALLIDS
  {
    (|cids| + FETCH_CHUNK_CALLIDS - 1) / FETCH_CHUNK_CALLIDS
  }

  /** Rows so far, health, and how many chunks failed. */
  datatype Progress = Progress(rows: seq<Row>, health: Health, failures: nat)

  function RepliesTo(w: World, i: nat): Replies {
    (p: nat, c: int) => w.replies(i, p, c)
  }

  function AddChunk(w: World, i: nat, start: int, limit: nat, maxPages: nat, g: Progress): Progress
    requires limit > 0
  {
    if w.failure(i).Some? then Progress(g.rows, g.health.Add(w.failure(i).value), g.failures + 1)
    else
      var (more, capped) := Fetch(RepliesTo(w, i), 0, start, [], limit, maxPages);
      var h := if capped then g.health.Add(FetchCapReached(limit * maxPages)).(truncated := true) else g.health;
      Progress(g.rows + more, h, g.failures)
  }

  /** After the first `n` chunks. */
  function Gather(w: World, n: nat, start: int, limit: nat, maxPages: nat, health: Health): Progress
    requires limit > 0
  {
    if n == 0 then Progress([], health, 0)
    else AddChunk(w, n - 1, start, limit, maxPages, Gather(w, n - 1, start, limit, maxPages, health))
  }

  /** The Call-IDs that are asked for at all: safe ones, sorted. */
  function Askable(callIds: seq<string>): seq<string> {
    Sort(StringLe, SafeOnly(callIds))
  }

  function SafeOnly(callIds: seq<string>): seq<string> {
    Select((c: string) => IsSafeCallId(c), callIds)
  }

  function FetchLegs(w: World, callIds: seq<string>, start: int, limit: nat, maxPages: nat): (seq<Row>, Health)
    requires limit > 0
  {
    var all := Askable(callIds);
    var over := |all| > MAX_FETCH_CALLIDS;
    var h0 := if over then HEALTHY.Add(FetchCapReached(MAX_FETCH_CALLIDS)).(truncated := true) else HEALTHY;
    var n := ChunkCount(if over then all[..MAX_FETCH_CALLIDS] else all);
    var g := Gather(w, n, start, limit, maxPages, h0);
    (g.rows, if g.failures > 0 && g.failures == n then g.health.(degraded := true) else g.health)
  }

  /** One chunk's rows, or its failure. */
  method TakeChunk(w: World, i: nat, start: int, limit: nat, maxPages: nat, rows0: seq<Row>, health0: Health, failures0: nat)
    returns (rows: seq<Row>, health: Health, failures: nat)
    requires limit > 0
    ensures Progress(rows, health, failures) == AddChunk(w, i, start, limit, maxPages, Progress(rows0, health0, failures0))
  {
    rows, health, failures := rows0, health0, failures0;
    var failed := w.failure(i);
    if failed.Some? {
      failures, health := failures + 1, health.Add(failed.value);
    } else {
      var more, capped := FetchChunk(RepliesTo(w, i), start, limit, maxPages);
      if capped {
        health := health.Add(FetchCapReached(limit * maxPages)).(truncated := true);
      }
      rows := rows + more;
    }
  }

  method FetchAllLegs(w: World, callIds: seq<string>, start: int, limit: nat, maxPages: nat)
    returns (rows: seq<Row>, health: Health)
    requires limit > 0
    ensures (rows, health) == FetchLegs(w, callIds, start, limit, maxPages)
  {
    var cids := Askable(callIds);
    health := HEALTHY;
    if |cids| > MAX_FETCH_CALLIDS {
      health := health.Add(FetchCapReached(MAX_FETCH_CALLIDS)).(truncated := true);
      cids := cids[..MAX_FETCH_CALLIDS];
    }
    ghost var h0 := health;
    var failures := 0;
    rows := [];
    for i := 0 to ChunkCount(cids)
      invariant Progress(rows, health, failures) == Gather(w, i, start, limit, maxPages, h0)
    {
      rows, health, failures := TakeChunk(w, i, start, limit, maxPages, rows, health, failures);
    }
    if failures > 0 && failures == ChunkCount(cids) {
      health := health.(degraded := true);
    }
  }

  predicate IsCapped(w: World, i: nat, start: int, limit: nat, maxPages: nat)
    requires limit > 0
  {
    w.failure(i).None? && Fetch(RepliesTo(w, i), 0, start, [], limit, maxPages).1
  }

  /** Chunk `i` reports this: its failure, or the page cap. */
  predicate Reports(w: World, i: nat, start: int, limit: nat, maxPages: nat, r: Reason)
    requires limit > 0
  {
    w.failure(i) == Some(r) || (IsCapped(w, i, start, limit, maxPages) && r == FetchCapReached(limit * maxPages))
  }

  lemma {:induction false} GatherReports(w: World, n: nat, start: int, limit: nat, maxPages: nat, health: Health)
    requires limit > 0
    ensures var g := Gather(w, n, start, limit, maxPages, health);
            && (forall r :: r in g.health.reasons <==> r in health.reasons || exists i: nat :: i < n && Reports(w, i, start, limit, maxPages, r))
            && (g.health.truncated <==> health.truncated || exists i: nat :: i < n && IsCapped(w, i, start, limit, maxPages))
            && g.failures <= n && (g.failures == n <==> forall i: nat | i < n :: w.failure(i).Some?)
            && g.health.degraded == health.degraded
  {
    if n > 0 {
      GatherReports(w, n - 1, start, limit, maxPages, health);
      ReportsOneMore(w, n - 1, start, limit, maxPages, Gather(w, n - 1, start, limit, maxPages, health));
    }
  }

  lemma AddsOnce(h: Health, r: Reason)
    requires NoDup(h.reasons)
    ensures NoDup(h.Add(r).reasons)
  {
  }

  lemma {:induction false} ReasonsOnce(w: World, n: nat, start: int, limit: nat, maxPages: nat, health: Health)
    requires limit > 0 && NoDup(health.reasons)
    ensures NoDup(Gather(w, n, start, limit, maxPages, health).health.reasons)
  {
    if n > 0 {
      ReasonsOnce(w, n - 1, start, limit, maxPages, health);
      var g := Gather(w, n - 1, start, limit, maxPages, health);
      if w.failure(n - 1).Some? {
        AddsOnce(g.health, w.failure(n - 1).value);
      } else {
        AddsOnce(g.health, FetchCapReached(limit * maxPages));
      }
    }
  }

  lemma ReportsOneMore(w: World, i: nat, start: int, limit: nat, maxPages: nat, g: Progress)
    requires limit > 0
    ensures var g' := AddChunk(w, i, start, limit, maxPages, g);
            && (forall r :: r in g'.health.reasons <==> r in g.health.reasons || Reports(w, i, start, limit, maxPages, r))
            && (g'.health.truncated <==> g.health.truncated || IsCapped(w, i, start, limit, maxPages))
            && g'.failures == g.failures + (if w.failure(i).Some? then 1 else 0)
            && g'.health.degraded == g.health.degraded
  {
  }

  /** What is reported, each reason once: the cap of 400 Call-IDs, each chunk's failure,
      and the page cap of each chunk that reached it; "truncated" says that a cap was reached, "degraded"
      that there were chunks and all of them failed. */
  lemma HealthSays(w: World, callIds: seq<string>, start: int, limit: nat, maxPages: nat)
    requires limit > 0
    ensures var cids, h := Askable(callIds), FetchLegs(w, callIds, start, limit, maxPages).1;
            var n := ChunkCount(if |cids| > 400 then cids[..400] else cids);
            && (forall r :: r in h.reasons <==>
                  (|cids| > 400 && r == FetchCapReached(400)) || exists i: nat :: i < n && Reports(w, i, start, limit, maxPages, r))
            && (h.truncated <==> |cids| > 400 || exists i: nat :: i < n && IsCapped(w, i, start, limit, maxPages))
            && (h.degraded <==> n > 0 && forall i: nat | i < n :: w.failure(i).Some?)
            && NoDup(h.reasons)
  {
    var cids := Askable(callIds);
    var over := |cids| > MAX_FETCH_CALLIDS;
    var h0 := if over then HEALTHY.Add(FetchCapReached(MAX_FETCH_CALLIDS)).(truncated := true) else HEALTHY;
    GatherReports(w, ChunkCount(if over then cids[..MAX_FETCH_CALLIDS] else cids), start, limit, maxPages, h0);
    ReasonsOnce(w, ChunkCount(if over then cids[..MAX_FETCH_CALLIDS] else cids), start, limit, maxPages, h0);
  }

  /** Every chunk that answers answers from the one store, for its own Call-IDs. */
  ghost predicate Answers(w: World, store: Store, cids: seq<string>, end: int, limit: nat) {
    forall i: nat, p: nat, c: int | i < ChunkCount(cids) :: ChunkAnswer(w, store, cids, end, limit, i, p, c)
  }

  ghost predicate ChunkAnswer(w: World, store: Store, cids: seq<string>, end: int, limit: nat, i: nat, p: nat, c: int)
    requires i < ChunkCount(cids)
  {
    IsAnswer(w.replies(i, p, c), store, Chunk(cids, i), c, end, limit)
  }

  /** Call-IDs of the first `n` chunks. */
  function Upto(cids: seq<string>, n: nat): seq<string> {
    if n * FETCH_CHUNK_CALLIDS < |cids| then cids[..n * FETCH_CHUNK_CALLIDS] else cids
  }

  lemma ChunkSplits(cids: seq<string>, n: nat)
    requires 0 < n <= ChunkCount(cids)
    ensures (n - 1) * FETCH_CHUNK_CALLIDS < |cids|
    ensures Upto(cids, n) == Upto(cids, n - 1) + Chunk(cids, n - 1)
  {
  }

  /** No query asks for more than 25 Call-IDs, only the last one for fewer, and together
      they ask for each once, in order. */
  lemma {:induction false} ChunksAre(cids: seq<string>, n: nat)
    requires n <= ChunkCount(cids)
    ensures forall i: nat | i < n :: i * 25 < |cids| && |Chunk(cids, i)| == if i + 1 < ChunkCount(cids) then 25 else |cids| - i * 25
    ensures forall i: nat | i < n :: 0 < |Chunk(cids, i)| <= 25
    ensures Joined(cids, n) == Upto(cids, n)
  {
    if n > 0 {
      ChunksAre(cids, n - 1);
      ChunkSplits(cids, n);
    }
  }

  /** The Call-IDs of the first `n` queries. */
  function Joined(cids: seq<string>, n: nat): seq<string>
    requires n <= ChunkCount(cids)
  {
    if n == 0 then [] else Joined(cids, n - 1) + Chunk(cids, n - 1)
  }

  /** With nothing reported so far, the rows of the first chunks are theirs exactly. */
  lemma {:induction false} GatherIsComplete(w: World, n: nat, store: Store, cids: seq<string>,
      start: int, end: int, limit: nat, maxPages: nat, health: Health)
    requires limit > 0 && n <= ChunkCount(cids) && NoDup(cids)
    requires Answers(w, store, cids, end, limit)
    requires Gather(w, n, start, limit, maxPages, health).health.reasons == []
    ensures health.reasons == []
    ensures var rows := Gather(w, n, start, limit, maxPages, health).rows;
            NoDup(rows) && forall r :: r in rows <==> r in store && Wanted(r, Upto(cids, n), start, end)
  {
    if n > 0 {
      var i := n - 1;
      ChunkSplits(cids, n);
      var rows := Gather(w, i, start, limit, maxPages, health).rows;
      var replies := RepliesTo(w, i);
      forall p: nat, c: int ensures IsAnswer(replies(p, c), store, Chunk(cids, i), c, end, limit) {
        assert ChunkAnswer(w, store, cids, end, limit, i, p, c);
      }
      assert w.failure(i).None?;
      GatherIsComplete(w, i, store, cids, start, end, limit, maxPages, health);
      FetchIsCompleteOrCapped(replies, 0, start, [], store, Chunk(cids, i), start, end, limit, maxPages);
      JoinChunks(rows, Fetch(replies, 0, start, [], limit, maxPages).0, store, cids, n, start, end);
    }
  }

  lemma JoinChunks(rows: seq<Row>, more: seq<Row>, store: Store, cids: seq<string>, n: nat, start: int, end: int)
    requires 0 < n <= ChunkCount(cids) && NoDup(cids) && NoDup(rows) && NoDup(more)
    requires forall r :: r in rows <==> r in store && Wanted(r, Upto(cids, n - 1), start, end)
    requires forall r :: r in more <==> r in store && Wanted(r, Chunk(cids, n - 1), start, end)
    ensures NoDup(rows + more)
    ensures forall r :: r in rows + more <==> r in store && Wanted(r, Upto(cids, n), start, end)
  {
    ChunkSplits(cids, n);
    var a, b := Upto(cids, n - 1), Chunk(cids, n - 1);
    forall i, j | 0 <= i < |rows| && 0 <= j < |more| ensures rows[i] != more[j] {
      assert rows[i] in rows && more[j] in more;
      var x :| 0 <= x < |a| && a[x] == rows[i].callId;
      var y :| 0 <= y < |b| && b[y] == more[j].callId;
      assert cids[x] == a[x] && cids[(n - 1) * FETCH_CHUNK_CALLIDS + y] == b[y];
    }
  }

  lemma SafeOnlyIs(callIds: seq<string>)
    ensures forall c :: c in SafeOnly(callIds) <==> c in callIds && IsSafeCallId(c)
    ensures NoDup(callIds) ==> NoDup(SafeOnly(callIds))
  {
    SelectedIn((c: string) => IsSafeCallId(c), callIds);
    if NoDup(callIds) {
      SelectOnce((c: string) => IsSafeCallId(c), callIds);
    }
  }

  /** When nothing is reported, the fetch returned every stored message of every
      safe Call-ID in the window, once each. */
  lemma NothingReportedMeansNothingMissing(w: World, callIds: seq<string>, store: Store,
      start: int, end: int, limit: nat, maxPages: nat)
    requires limit > 0 && NoDup(callIds)
    requires Answers(w, store, Askable(callIds), end, limit)
    requires FetchLegs(w, callIds, start, limit, maxPages).1.reasons == []
    ensures var rows := FetchLegs(w, callIds, start, limit, maxPages).0;
      && NoDup(rows)
      && forall r :: r in rows <==> r in store && r.callId in callIds && IsSafeCallId(r.callId) && start <= r.ts < end
  {
    var cids := Askable(callIds);
    StringOrder();
    SafeOnlyIs(callIds);
    SortMembers(StringLe, SafeOnly(callIds));
    assert |cids| <= MAX_FETCH_CALLIDS by {
      if |cids| > MAX_FETCH_CALLIDS {
        var h0 := HEALTHY.Add(FetchCapReached(MAX_FETCH_CALLIDS)).(truncated := true);
        GatherKeepsReasons(w, ChunkCount(cids[..MAX_FETCH_CALLIDS]), start, limit, maxPages, h0);
      }
    }
    GatherIsComplete(w, ChunkCount(cids), store, cids, start, end, limit, maxPages, HEALTHY);
    assert Upto(cids, ChunkCount(cids)) == cids;
  }

  lemma {:induction false} GatherKeepsReasons(w: World, n: nat, start: int, limit: nat, maxPages: nat, health: Health)
    requires limit > 0 && health.reasons != []
    ensures Gather(w, n, start, limit, maxPages, health).health.reasons != []
  {
    if n > 0 {
      GatherKeepsReasons(w, n - 1, start, limit, maxPages, health);
    }
  }
}
