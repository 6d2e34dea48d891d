/** Paging a number search by call, newest first: what one page holds, and what
    following the cursor to the end returns. */
module IndexPaging {
  import opened Wrappers
  import opened Ordering
  import opened Lists
  import opened ClickHouseText
  import opened IndexLookup

  const INDEX_CALL_LIMIT: nat := 50
  const INDEX_TIE_EXTRA: nat := 20
  const FETCHED: nat := INDEX_CALL_LIMIT + INDEX_TIE_EXTRA

  // ----- one page -----

  datatype Page = Page(calls: seq<Hit>, hasMore: bool, cursor: Option<int>)

  const NO_PAGE := Page([], false, None)

  function Safe(hs: seq<Hit>): seq<Hit> {
    Select((h: Hit) => IsSafeCallId(h.id), hs)
  }

  /** How far calls tied with the cursor reach, from `i` on. */
  function TieEnd(safe: seq<Hit>, i: nat, cursor: int): (m: nat)
    requires i <= |safe|
    ensures i <= m <= |safe|
    ensures forall j | i <= j < m :: safe[j].first == cursor
    ensures m < |safe| ==> safe[m].first != cursor
    decreases |safe| - i
  {
    if i < |safe| && safe[i].first == cursor then TieEnd(safe, i + 1, cursor) else i
  }

  predicate SomeOlder(hs: seq<Hit>, cursor: int) {
    exists i :: 0 <= i < |hs| && hs[i].first < cursor
  }

  /** How many calls a page has before ties are added. */
  function PageSize(safe: seq<Hit>): (k: nat)
    ensures k <= |safe|
  {
    if |safe| < INDEX_CALL_LIMIT then |safe| else INDEX_CALL_LIMIT
  }

  /** The first message of the page's oldest call. */
  function CursorOf(safe: seq<Hit>): int
    requires safe != []
  {
    safe[PageSize(safe) - 1].first
  }

  /** Where the page ends in the list of safe hits. */
  function PageEnd(safe: seq<Hit>): (m: nat)
    requires safe != []
    ensures m <= |safe|
  {
    TieEnd(safe, PageSize(safe), CursorOf(safe))
  }

  function SearchPage(rows: seq<Row>, q: Search, end: int): Page {
    var hits := Lookup(rows, q, end, FETCHED);
    var safe := Safe(hits);
    if safe == [] then NO_PAGE
    else
      var cursor, m := CursorOf(safe), PageEnd(safe);
      var more := SomeOlder(safe[m..], cursor)
                  || (|hits| >= FETCHED && Lookup(rows, q, cursor, 1) != []);
      Page(safe[..m], more, Some(cursor))
  }

  /** The page's calls: up to the limit, and any more that tie with the oldest. */
  method TakePage(safe: seq<Hit>) returns (page: seq<Hit>)
    requires safe != []
    ensures page == safe[..PageEnd(safe)]
  {
    var k := PageSize(safe);
    page := safe[..k];
    var oldest := page[|page| - 1].first;
    var i := k;
    while i < |safe| && safe[i].first == oldest
      invariant k <= i <= |safe| && page == safe[..i]
      invariant TieEnd(safe, i, oldest) == PageEnd(safe)
    {
      assert safe[..i + 1] == safe[..i] + [safe[i]];
      page := page + [safe[i]];
      i := i + 1;
    }
  }

  method SearchViaIndex(rows: seq<Row>, q: Search, end: int) returns (page: seq<Hit>, hasMore: bool, cursor: Option<int>)
    ensures Page(page, hasMore, cursor) == SearchPage(rows, q, end)
  {
    var hits := Lookup(rows, q, end, FETCHED);
    var truncated := |hits| >= FETCHED;
    var safe := Safe(hits);
    if safe == [] {
      return [], false, None;
    }
    page := TakePage(safe);
    var oldest := CursorOf(safe);
    cursor := Some(oldest);
    if SomeOlder(safe[|page|..], oldest) {
      hasMore := true;
    } else if truncated {
      var older := Lookup(rows, q, oldest, 1);
      hasMore := older != [];
    } else {
      hasMore := false;
    }
  }

  lemma CursorIsInside(rows: seq<Row>, q: Search, end: int)
    ensures var p := SearchPage(rows, q, end); p.cursor.Some? ==> p.cursor.value < end && q.start < end
    ensures SearchPage(rows, q, end).hasMore ==> SearchPage(rows, q, end).cursor.Some?
  {
    HitsHold(rows, q, end);
    var hits := Lookup(rows, q, end, FETCHED);
    SelectedIn((h: Hit) => IsSafeCallId(h.id), hits);
    var safe := Safe(hits);
    assert forall j | 0 <= j < |safe| :: safe[j] in hits;
    assert forall h | h in hits :: IsFound(rows, q, end, h);
  }

  /** The client: ask again below the cursor while there is more. */
  function Follow(rows: seq<Row>, q: Search, end: int): seq<Hit>
    decreases if end > q.start then end - q.start else 0
  {
    var p := SearchPage(rows, q, end);
    CursorIsInside(rows, q, end);
    if p.hasMore then p.calls + Follow(rows, q, p.cursor.value) else p.calls
  }

  lemma FollowUnfolds(rows: seq<Row>, q: Search, end: int)
    ensures var p := SearchPage(rows, q, end);
            (p.hasMore ==> p.cursor.Some?) && (p.cursor.Some? ==> p.cursor.value < end && q.start < end)
    ensures var p := SearchPage(rows, q, end);
            Follow(rows, q, end) == if p.hasMore then p.calls + Follow(rows, q, p.cursor.value) else p.calls
  {
    CursorIsInside(rows, q, end);
  }

  lemma Regroup(a: seq<Hit>, b: seq<Hit>, c: seq<Hit>)
    ensures a + (b + c) == (a + b) + c
  {
  }

  method FollowPages(rows: seq<Row>, q: Search, windowEnd: int) returns (all: seq<Hit>)
    ensures all == Follow(rows, q, windowEnd)
  {
    all := [];
    var end := windowEnd;
    FollowUnfolds(rows, q, end);
    var page, hasMore, cursor := SearchViaIndex(rows, q, end);
    while hasMore
      invariant Page(page, hasMore, cursor) == SearchPage(rows, q, end)
      invariant all + Follow(rows, q, end) == Follow(rows, q, windowEnd)
      decreases hasMore, if end > q.start then end - q.start else 0
    {
      FollowUnfolds(rows, q, end);
      Regroup(all, page, Follow(rows, q, cursor.value));
      all, end := all + page, cursor.value;
      page, hasMore, cursor := SearchViaIndex(rows, q, end);
    }
    FollowUnfolds(rows, q, end);
    all := all + page;
  }

  // ----- what a page takes from the list of safe calls -----

  /** How many calls of a newest-first list start at `cursor` or later. */
  function NotOlder(all: seq<Hit>, cursor: int): (n: nat)
    ensures n <= |all|
  {
    if all != [] && all[0].first >= cursor then 1 + NotOlder(all[1..], cursor) else 0
  }

  lemma {:induction false} NotOlderSplits(all: seq<Hit>, cursor: int)
    requires SortedBy(NewestFirst, all)
    ensures forall i | 0 <= i < |all| :: all[i].first >= cursor <==> i < NotOlder(all, cursor)
  {
    if all != [] && all[0].first >= cursor {
      NotOlderSplits(all[1..], cursor);
      forall i | 0 < i < |all|
        ensures all[i].first >= cursor <==> i < NotOlder(all, cursor)
      {
        assert all[i] == all[1..][i - 1];
      }
    } else {
      assert forall i | 0 < i < |all| :: NewestFirst(all[0], all[i]);
    }
  }

  lemma {:induction false} OlderIsTheTail(all: seq<Hit>, cursor: int)
    requires SortedBy(NewestFirst, all)
    ensures OlderThan(all, cursor) == all[NotOlder(all, cursor)..]
  {
    NotOlderSplits(all, cursor);
    if all != [] {
      if all[0].first >= cursor {
        OlderIsTheTail(all[1..], cursor);
        assert all[1..][NotOlder(all[1..], cursor)..] == all[NotOlder(all, cursor)..];
      } else {
        forall h | h in all
          ensures h.first < cursor
        {
          var i :| 0 <= i < |all| && all[i] == h;
        }
        SelectAll((h: Hit) => h.first < cursor, all);
        assert all[0..] == all;
      }
    }
  }

  /** An unfetched call ties with the page's oldest. */
  ghost predicate TiesUnfetched(all: seq<Hit>, fetched: nat)
    requires 0 < fetched <= |all|
  {
    exists j :: fetched <= j < |all| && all[j].first == CursorOf(all[..fetched])
  }

  /** Nothing after the limit is newer than the cursor, and everything in the page is
      at least as new. */
  lemma PageSpans(all: seq<Hit>, fetched: nat)
    requires SortedBy(NewestFirst, all) && 0 < fetched <= |all|
    ensures var hits := all[..fetched];
            var cursor, m := CursorOf(hits), PageEnd(hits);
            && 0 < m <= fetched && (m < fetched ==> all[m].first != cursor)
            && all[m - 1].first == cursor
            && (forall j | m <= j < |all| :: all[j].first <= cursor)
  {
    var hits := all[..fetched];
    var cursor, k := CursorOf(hits), PageSize(hits);
    assert all[k - 1].first == cursor;
    forall j | k <= j < |all|
      ensures all[j].first <= cursor
    {
      assert NewestFirst(all[k - 1], all[j]);
    }
  }

  /** The page ends where the older calls begin, unless an unfetched call ties with
      its oldest; then it ends before. */
  lemma PageCut(all: seq<Hit>, fetched: nat)
    requires SortedBy(NewestFirst, all) && 0 < fetched <= |all|
    ensures var hits := all[..fetched];
            var cursor, m := CursorOf(hits), PageEnd(hits);
            if TiesUnfetched(all, fetched) then m < NotOlder(all, cursor) else m == NotOlder(all, cursor)
  {
    var cursor, m := CursorOf(all[..fetched]), PageEnd(all[..fetched]);
    NotOlderSplits(all, cursor);
    PageSpans(all, fetched);
    if m < fetched {
      assert forall j | m < j < |all| :: NewestFirst(all[m], all[j]);
    } else if TiesUnfetched(all, fetched) {
      var j :| fetched <= j < |all| && all[j].first == cursor;
      assert j < NotOlder(all, cursor);
    }
  }

  /** When everything was fetched, the page sees an older call if there is one. */
  lemma OlderIsSeen(all: seq<Hit>)
    requires SortedBy(NewestFirst, all) && all != []
    ensures NotOlder(all, CursorOf(all)) < |all| ==> SomeOlder(all[PageEnd(all)..], CursorOf(all))
  {
    assert all[..|all|] == all;
    PageCut(all, |all|);
    var cursor, m := CursorOf(all), PageEnd(all);
    NotOlderSplits(all, cursor);
    if m < |all| {
      assert all[m..][0] == all[m];
    }
  }

  // ----- what a page leaves for the next -----

  /** Every call that can be shown: the safe ones of the whole answer. */
  function Showable(rows: seq<Row>, q: Search, end: int): seq<Hit> {
    Safe(Hits(rows, q, end))
  }

  function FetchedSafe(rows: seq<Row>, q: Search, end: int): seq<Hit> {
    Safe(Lookup(rows, q, end, FETCHED))
  }

  lemma FetchedIsAPrefix(rows: seq<Row>, q: Search, end: int)
    ensures var all, safe := Showable(rows, q, end), FetchedSafe(rows, q, end);
            && |safe| <= |all| && safe == all[..|safe|]
            && (|Lookup(rows, q, end, FETCHED)| < FETCHED ==> safe == all)
    ensures SortedBy(NewestFirst, Showable(rows, q, end)) && NoDup(Showable(rows, q, end))
  {
    var whole, hits := Hits(rows, q, end), Lookup(rows, q, end, FETCHED);
    var p := (h: Hit) => IsSafeCallId(h.id);
    HitsHold(rows, q, end);
    assert whole == hits + whole[|hits|..];
    SelectJoins(p, hits, whole[|hits|..]);
    SelectSorted(NewestFirst, p, whole);
    SelectOnce(p, whole);
  }

  /** A call older than the cursor that the lookup below it does not find: some needle
      has no row by then, no row reaches into the window by then, or the cursor is not
      after the window's start. */
  ghost predicate Late(rows: seq<Row>, q: Search, t: int, h: Hit) {
    h.first < t && !Settled(rows, q, t, h.id)
  }

  /** The page loses calls: it shows none though there are some, an unfetched call ties
      with its oldest, or an older one is late. */
  ghost predicate PageLoses(rows: seq<Row>, q: Search, end: int) {
    var all, safe := Showable(rows, q, end), FetchedSafe(rows, q, end);
    if safe == [] then all != []
    else
      || (exists h :: h in all && h !in safe && h.first == CursorOf(safe))
      || (exists h :: h in all && Late(rows, q, CursorOf(safe), h))
  }

  lemma TiesAreUnfetched(all: seq<Hit>, fetched: nat)
    requires NoDup(all) && 0 < fetched <= |all|
    ensures TiesUnfetched(all, fetched)
            <==> exists h :: h in all && h !in all[..fetched] && h.first == CursorOf(all[..fetched])
  {
    if TiesUnfetched(all, fetched) {
      var j :| fetched <= j < |all| && all[j].first == CursorOf(all[..fetched]);
      assert all[j] in all && forall i | 0 <= i < fetched :: all[i] != all[j];
    }
    assert forall i | 0 <= i < fetched :: all[i] in all[..fetched];
    if h :| h in all && h !in all[..fetched] && h.first == CursorOf(all[..fetched]) {
      var j :| 0 <= j < |all| && all[j] == h;
    }
  }

  /** What can be shown below `t` is what is older and not late. */
  lemma ShowableBelow(rows: seq<Row>, q: Search, t: int, end: int)
    requires t <= end && GoodRows(rows)
    ensures var all, next := Showable(rows, q, end), Showable(rows, q, t);
            && |next| <= |OlderThan(all, t)|
            && (next == OlderThan(all, t) <==> forall h | h in all :: !Late(rows, q, t, h))
            && (|next| == |OlderThan(all, t)| ==> next == OlderThan(all, t))
  {
    var safe, older, settled := (h: Hit) => IsSafeCallId(h.id), (h: Hit) => h.first < t, (h: Hit) => Settled(rows, q, t, h.id);
    var whole, all := Hits(rows, q, end), Showable(rows, q, end);
    LowerBoundLeaves(rows, q, t, end);
    SelectBoth((h: Hit) => h.first < t && Settled(rows, q, t, h.id), safe,
               (h: Hit) => h.first < t && Settled(rows, q, t, h.id) && IsSafeCallId(h.id), whole);
    SelectBoth(safe, (h: Hit) => h.first < t && Settled(rows, q, t, h.id),
               (h: Hit) => h.first < t && Settled(rows, q, t, h.id) && IsSafeCallId(h.id), whole);
    SelectBoth(older, settled, (h: Hit) => h.first < t && Settled(rows, q, t, h.id), all);
    assert Showable(rows, q, t) == Select(settled, OlderThan(all, t));
    SettledOnes(rows, q, t, all);
  }

  lemma SettledOnes(rows: seq<Row>, q: Search, t: int, all: seq<Hit>)
    ensures var next := Select((h: Hit) => Settled(rows, q, t, h.id), OlderThan(all, t));
            && |next| <= |OlderThan(all, t)|
            && (next == OlderThan(all, t) <==> forall h | h in all :: !Late(rows, q, t, h))
            && (|next| == |OlderThan(all, t)| ==> next == OlderThan(all, t))
  {
    var settled := (h: Hit) => Settled(rows, q, t, h.id);
    SelectSize(settled, OlderThan(all, t));
    SelectedIn((h: Hit) => h.first < t, all);
    if forall h | h in all :: !Late(rows, q, t, h) {
      SelectAll(settled, OlderThan(all, t));
    }
  }

  lemma LosesMeans(rows: seq<Row>, q: Search, end: int)
    requires GoodRows(rows) && FetchedSafe(rows, q, end) != []
    ensures var all, safe := Showable(rows, q, end), FetchedSafe(rows, q, end);
            var t := CursorOf(safe);
            && t < end
            && PageEnd(safe) <= NotOlder(all, t) && |Showable(rows, q, t)| <= |all| - NotOlder(all, t)
            && (PageLoses(rows, q, end) <==>
                  PageEnd(safe) < NotOlder(all, t) || |Showable(rows, q, t)| < |all| - NotOlder(all, t))
            && (!PageLoses(rows, q, end) ==> Showable(rows, q, t) == all[NotOlder(all, t)..])
  {
    var all, safe := Showable(rows, q, end), FetchedSafe(rows, q, end);
    var t := CursorOf(safe);
    FetchedIsAPrefix(rows, q, end);
    CursorIsInside(rows, q, end);
    PageCut(all, |safe|);
    TiesAreUnfetched(all, |safe|);
    OlderIsTheTail(all, t);
    ShowableBelow(rows, q, t, end);
  }

  /** A page that shows something and what can be shown below its cursor are the whole
      list exactly when the page loses nothing; otherwise some call is in neither. */
  lemma PageLosesOrIsWhole(rows: seq<Row>, q: Search, end: int)
    requires GoodRows(rows) && FetchedSafe(rows, q, end) != []
    ensures SearchPage(rows, q, end).cursor.Some? && SearchPage(rows, q, end).cursor.value < end
    ensures var p := SearchPage(rows, q, end);
            var all, next := Showable(rows, q, end), Showable(rows, q, p.cursor.value);
            && (p.calls + next == all <==> !PageLoses(rows, q, end))
            && (PageLoses(rows, q, end) ==> |p.calls| + |next| < |all|)
            && (!PageLoses(rows, q, end) && !p.hasMore ==> next == [])
  {
    var all, safe := Showable(rows, q, end), FetchedSafe(rows, q, end);
    var t := CursorOf(safe);
    FetchedIsAPrefix(rows, q, end);
    LosesMeans(rows, q, end);
    CutDecides(all, PageEnd(safe), NotOlder(all, t), Showable(rows, q, t));
    assert safe[..PageEnd(safe)] == all[..PageEnd(safe)];
    if !SearchPage(rows, q, end).hasMore && !PageLoses(rows, q, end) {
      NoMoreMeansNone(rows, q, end);
    }
  }

  lemma CutDecides(all: seq<Hit>, m: nat, n: nat, next: seq<Hit>)
    requires m <= n <= |all| && |next| <= |all| - n
    ensures all[..m] + next == all ==> m == n && next == all[n..]
    ensures m == n && next == all[n..] ==> all[..m] + next == all
    ensures m < n || |next| < |all| - n ==> m + |next| < |all|
  {
    if all[..m] + next == all {
      assert m + |next| == |all|;
      assert all[m..] == next;
    }
    if m == n && next == all[n..] {
      assert all[..n] + all[n..] == all;
    }
  }

  /** When a page that loses nothing says there is no more, nothing older can be
      shown. */
  lemma NoMoreMeansNone(rows: seq<Row>, q: Search, end: int)
    requires GoodRows(rows) && FetchedSafe(rows, q, end) != []
    requires !PageLoses(rows, q, end) && !SearchPage(rows, q, end).hasMore
    ensures Showable(rows, q, CursorOf(FetchedSafe(rows, q, end))) == []
  {
    var all, safe := Showable(rows, q, end), FetchedSafe(rows, q, end);
    var t := CursorOf(safe);
    FetchedIsAPrefix(rows, q, end);
    if |Lookup(rows, q, end, FETCHED)| < FETCHED {
      LosesMeans(rows, q, end);
      OlderIsSeen(all);
    } else {
      assert Hits(rows, q, t) == [];
    }
  }

  /** When a page says there is more, some matching call is older than its oldest. */
  lemma MoreMeansOlder(rows: seq<Row>, q: Search, end: int)
    requires GoodRows(rows)
    ensures var p := SearchPage(rows, q, end);
            p.hasMore ==> p.cursor.Some? && exists h :: h in Hits(rows, q, end) && h.first < p.cursor.value
  {
    var safe, p := FetchedSafe(rows, q, end), SearchPage(rows, q, end);
    if p.hasMore {
      var t := CursorOf(safe);
      CursorIsInside(rows, q, end);
      SelectedIn((h: Hit) => IsSafeCallId(h.id), Lookup(rows, q, end, FETCHED));
      if SomeOlder(safe[PageEnd(safe)..], t) {
        var i :| 0 <= i < |safe[PageEnd(safe)..]| && safe[PageEnd(safe)..][i].first < t;
        assert safe[PageEnd(safe) + i] in safe;
      } else {
        LowerHits(rows, q, t, end, 0);
        LowerBoundLeaves(rows, q, t, end);
        SelectedIn((h: Hit) => h.first < t && Settled(rows, q, t, h.id), Hits(rows, q, end));
        assert Hits(rows, q, t)[0] in Hits(rows, q, t);
      }
    }
  }

  lemma OlderRemains(all: seq<Hit>, t: int, h: Hit)
    requires SortedBy(NewestFirst, all) && h in all && h.first < t
    ensures all[NotOlder(all, t)..] != []
  {
    NotOlderSplits(all, t);
    var i :| 0 <= i < |all| && all[i] == h;
  }

  lemma OlderIsNext(rows: seq<Row>, q: Search, end: int, h: Hit)
    requires GoodRows(rows) && FetchedSafe(rows, q, end) != [] && !PageLoses(rows, q, end)
    requires h in Showable(rows, q, end) && h.first < CursorOf(FetchedSafe(rows, q, end))
    ensures Showable(rows, q, CursorOf(FetchedSafe(rows, q, end))) != []
  {
    LosesMeans(rows, q, end);
    FetchedIsAPrefix(rows, q, end);
    OlderRemains(Showable(rows, q, end), CursorOf(FetchedSafe(rows, q, end)), h);
  }

  /** A page that loses nothing, in a search whose Call-IDs are all safe, says there is
      more if and only if the next page shows something. */
  lemma HasMoreIff(rows: seq<Row>, q: Search, end: int)
    requires GoodRows(rows) && FetchedSafe(rows, q, end) != [] && !PageLoses(rows, q, end)
    requires forall h | h in Hits(rows, q, end) :: IsSafeCallId(h.id)
    ensures SearchPage(rows, q, end).hasMore <==> Showable(rows, q, CursorOf(FetchedSafe(rows, q, end))) != []
  {
    if SearchPage(rows, q, end).hasMore {
      MoreMeansOlder(rows, q, end);
      AllShowable(rows, q, end);
      var h :| h in Hits(rows, q, end) && h.first < SearchPage(rows, q, end).cursor.value;
      OlderIsNext(rows, q, end, h);
    } else {
      NoMoreMeansNone(rows, q, end);
    }
  }

  /** A page shows at least 50 calls when that many can be shown of the newest 70, and
      else all of those. */
  lemma PageIsFull(rows: seq<Row>, q: Search, end: int)
    ensures var safe, calls := Safe(Lookup(rows, q, end, 70)), SearchPage(rows, q, end).calls;
            && |calls| <= |safe| && calls == safe[..|calls|]
            && (if |safe| <= 50 then calls == safe else |calls| >= 50)
  {
  }

  /** No page reached from here on loses a call. */
  ghost predicate NoPageLoses(rows: seq<Row>, q: Search, end: int)
    decreases if end > q.start then end - q.start else 0
  {
    var p := SearchPage(rows, q, end);
    CursorIsInside(rows, q, end);
    !PageLoses(rows, q, end) && (p.hasMore ==> NoPageLoses(rows, q, p.cursor.value))
  }

  lemma NoPageUnfolds(rows: seq<Row>, q: Search, end: int)
    ensures var p := SearchPage(rows, q, end);
            && (p.hasMore ==> p.cursor.Some?)
            && (NoPageLoses(rows, q, end) <==> !PageLoses(rows, q, end) && (p.hasMore ==> NoPageLoses(rows, q, p.cursor.value)))
  {
    CursorIsInside(rows, q, end);
  }

  /** Lists that share a first part agree exactly when their rests do. */
  lemma FirstPartDecides(page: seq<Hit>, rest: seq<Hit>, older: seq<Hit>, all: seq<Hit>)
    requires page + older == all
    ensures page + rest == all <==> rest == older
  {
    if page + rest == all {
      assert rest == all[|page|..] && older == all[|page|..];
    }
  }

  /** Following the cursor returns every call that can be shown, newest first and
      once, exactly when no reached page loses one; it never returns too much. */
  lemma {:induction false} FollowIsCompleteIffNoPageLoses(rows: seq<Row>, q: Search, end: int)
    requires GoodRows(rows)
    ensures Follow(rows, q, end) == Showable(rows, q, end) <==> NoPageLoses(rows, q, end)
    ensures |Follow(rows, q, end)| <= |Showable(rows, q, end)|
    decreases if end > q.start then end - q.start else 0
  {
    FollowUnfolds(rows, q, end);
    NoPageUnfolds(rows, q, end);
    var p, all := SearchPage(rows, q, end), Showable(rows, q, end);
    if FetchedSafe(rows, q, end) != [] {
      var next := Showable(rows, q, p.cursor.value);
      PageLosesOrIsWhole(rows, q, end);
      if p.hasMore {
        FollowIsCompleteIffNoPageLoses(rows, q, p.cursor.value);
        if !PageLoses(rows, q, end) {
          FirstPartDecides(p.calls, Follow(rows, q, p.cursor.value), next, all);
        }
      } else if !PageLoses(rows, q, end) {
        assert p.calls + next == p.calls;
      }
    }
  }

  // ----- conditions a caller can check -----

  /** Calls whose first message is at `t`. */
  function TiesAt(hs: seq<Hit>, t: int): seq<Hit> {
    Select((h: Hit) => h.first == t, hs)
  }

  /** Every matching call begins in the window and has, if there are several needles, a
      row for each on its first day. */
  ghost predicate NeverLate(rows: seq<Row>, q: Search, end: int) {
    forall h | h in Hits(rows, q, end) :: q.start <= h.first && (|q.needles| == 1 || WholeOnItsFirstDay(rows, q, h))
  }

  lemma NotLate(rows: seq<Row>, q: Search, end: int, t: int, h: Hit)
    requires GoodRows(rows) && q.needles != [] && NeverLate(rows, q, end) && h in Hits(rows, q, end) && t <= end
    ensures !Late(rows, q, t, h)
  {
    HitsHold(rows, q, end);
    assert IsFound(rows, q, end, h);
    if h.first < t {
      if |q.needles| == 1 {
        OneNeedleIsSettled(rows, q, t, end, h);
      } else {
        SettledOnItsFirstDay(rows, q, end, h);
        SettledStays(rows, q, h.first + 1, t, h.id);
      }
    }
  }

  /** More than 21 calls begin with the page's oldest one when an unfetched call ties
      with it. */
  lemma UnfetchedNeedsTies(hs: seq<Hit>)
    requires SortedBy(NewestFirst, hs) && |hs| > FETCHED && TiesUnfetched(hs, FETCHED)
    ensures |TiesAt(hs, CursorOf(hs[..FETCHED]))| > INDEX_TIE_EXTRA + 1
  {
    var t := CursorOf(hs[..FETCHED]);
    var j :| FETCHED <= j < |hs| && hs[j].first == t;
    assert hs[INDEX_CALL_LIMIT - 1].first == t;
    forall i | INDEX_CALL_LIMIT - 1 <= i <= j
      ensures hs[i].first == t
    {
      assert i < j ==> NewestFirst(hs[i], hs[j]);
      assert i > INDEX_CALL_LIMIT - 1 ==> NewestFirst(hs[INDEX_CALL_LIMIT - 1], hs[i]);
    }
    SelectLength((h: Hit) => h.first == t, hs, INDEX_CALL_LIMIT - 1, j + 1);
  }

  lemma {:induction false} SelectLength(p: Hit -> bool, s: seq<Hit>, lo: nat, hi: nat)
    requires lo <= hi <= |s| && forall i | lo <= i < hi :: p(s[i])
    ensures |Select(p, s)| >= hi - lo
  {
    if hi > 0 {
      if lo == 0 {
        SelectLength(p, s[1..], 0, hi - 1);
      } else {
        SelectLength(p, s[1..], lo - 1, hi - 1);
      }
    }
  }

  lemma AllShowable(rows: seq<Row>, q: Search, end: int)
    requires forall h | h in Hits(rows, q, end) :: IsSafeCallId(h.id)
    ensures Showable(rows, q, end) == Hits(rows, q, end)
    ensures FetchedSafe(rows, q, end) == Lookup(rows, q, end, FETCHED)
  {
    var p, hits := (h: Hit) => IsSafeCallId(h.id), Lookup(rows, q, end, FETCHED);
    SelectAll(p, Hits(rows, q, end));
    assert forall h | h in hits :: h in Hits(rows, q, end);
    SelectAll(p, hits);
  }

  /** What the conditions at the window's end say about a lower bound. */
  lemma LowerHits(rows: seq<Row>, q: Search, t: int, end: int, at: int)
    requires GoodRows(rows) && t <= end
    ensures forall h | h in Hits(rows, q, t) :: h in Hits(rows, q, end)
    ensures |TiesAt(Hits(rows, q, t), at)| <= |TiesAt(Hits(rows, q, end), at)|
  {
    var p, tied := (h: Hit) => h.first < t && Settled(rows, q, t, h.id), (h: Hit) => h.first == at;
    var whole, below := Hits(rows, q, end), Hits(rows, q, t);
    LowerBoundLeaves(rows, q, t, end);
    SelectedIn(p, whole);
    HitsHold(rows, q, t);
    SelectOnce(tied, below);
    SelectedIn(tied, below);
    SelectedIn(tied, whole);
    NoLongerThan(TiesAt(below, at), TiesAt(whole, at));
  }

  lemma PageKeeps(rows: seq<Row>, q: Search, t: int, end: int)
    requires GoodRows(rows) && q.needles != [] && NeverLate(rows, q, end) && t <= end
    requires forall h | h in Hits(rows, q, end) :: IsSafeCallId(h.id)
    requires forall at :: |TiesAt(Hits(rows, q, end), at)| <= INDEX_TIE_EXTRA + 1
    ensures !PageLoses(rows, q, t)
  {
    var hs := Hits(rows, q, t);
    HitsHold(rows, q, t);
    LowerHits(rows, q, t, end, 0);
    AllShowable(rows, q, t);
    if hs != [] {
      var cursor, f := CursorOf(FetchedSafe(rows, q, t)), |FetchedSafe(rows, q, t)|;
      CursorIsInside(rows, q, t);
      forall h | h in hs
        ensures !Late(rows, q, cursor, h)
      {
        NotLate(rows, q, end, cursor, h);
      }
      FetchedIsAPrefix(rows, q, t);
      TiesAreUnfetched(hs, f);
      if TiesUnfetched(hs, f) {
        UnfetchedNeedsTies(hs);
        LowerHits(rows, q, t, end, cursor);
      }
    }
  }

  lemma {:induction false} EveryPageKeeps(rows: seq<Row>, q: Search, t: int, end: int)
    requires GoodRows(rows) && q.needles != [] && NeverLate(rows, q, end) && t <= end
    requires forall h | h in Hits(rows, q, end) :: IsSafeCallId(h.id)
    requires forall at :: |TiesAt(Hits(rows, q, end), at)| <= INDEX_TIE_EXTRA + 1
    ensures NoPageLoses(rows, q, t)
    decreases if t > q.start then t - q.start else 0
  {
    PageKeeps(rows, q, t, end);
    NoPageUnfolds(rows, q, t);
    CursorIsInside(rows, q, t);
    if SearchPage(rows, q, t).hasMore {
      EveryPageKeeps(rows, q, SearchPage(rows, q, t).cursor.value, end);
    }
  }

  /** Paging returns every matching call exactly once, newest first: with safe
      Call-IDs, at most 21 calls beginning at any one instant, and no call late. */
  lemma FollowReturnsEveryCallOnce(rows: seq<Row>, q: Search, end: int)
    requires GoodRows(rows) && q.needles != [] && NeverLate(rows, q, end)
    requires forall h | h in Hits(rows, q, end) :: IsSafeCallId(h.id)
    requires forall at :: |TiesAt(Hits(rows, q, end), at)| <= INDEX_TIE_EXTRA + 1
    ensures var all := Follow(rows, q, end);
            && SortedBy(NewestFirst, all) && NoDup(all)
            && forall h :: h in all <==> IsFound(rows, q, end, h)
  {
    EveryPageKeeps(rows, q, end, end);
    FollowIsCompleteIffNoPageLoses(rows, q, end);
    AllShowable(rows, q, end);
    HitsHold(rows, q, end);
  }
}
