/** Three small indexes on which paging loses calls. */
module IndexPagingLosses {
  import opened Ordering
  import opened Lists
  import opened ClickHouseText
  import opened IndexCoverage
  import opened IndexLookup
  import opened IndexPaging

  /** What paging returns was found by the first, widest lookup. */
  lemma {:induction false} FollowedAreFound(rows: seq<Row>, q: Search, end: int)
    requires GoodRows(rows)
    ensures forall h | h in Follow(rows, q, end) :: h in Hits(rows, q, end)
    decreases if end > q.start then end - q.start else 0
  {
    FollowUnfolds(rows, q, end);
    FetchedIsAPrefix(rows, q, end);
    SelectedIn((h: Hit) => IsSafeCallId(h.id), Hits(rows, q, end));
    var p := SearchPage(rows, q, end);
    if p.hasMore {
      FollowedAreFound(rows, q, p.cursor.value);
      LowerHits(rows, q, p.cursor.value, end, 0);
    }
  }

  /** A call older than the first page and late at its cursor is never returned. */
  lemma LateCallIsLost(rows: seq<Row>, q: Search, end: int, h: Hit)
    requires GoodRows(rows) && FetchedSafe(rows, q, end) != []
    requires Late(rows, q, CursorOf(FetchedSafe(rows, q, end)), h)
    ensures h !in Follow(rows, q, end)
  {
    var safe := FetchedSafe(rows, q, end);
    var t := CursorOf(safe);
    FollowUnfolds(rows, q, end);
    FetchedIsAPrefix(rows, q, end);
    forall i | 0 <= i < PageEnd(safe)
      ensures safe[i] != h
    {
      assert i < PageSize(safe) - 1 ==> NewestFirst(safe[i], safe[PageSize(safe) - 1]);
    }
    if SearchPage(rows, q, end).hasMore {
      FollowedAreFound(rows, q, t);
      HitsHold(rows, q, t);
      FoundMeans(rows, q, t, h);
    }
  }

  // ----- many calls -----

  function Name(c: char, k: nat): (id: string)
    ensures |id| == k + 1 && id[0] == c && forall x | x in id :: x == c
  {
    if k == 0 then [c] else Name(c, k - 1) + [c]
  }

  /** When call `k` begins: all at `at`, or one nanosecond apart from there. */
  function When(at: int, apart: bool, k: nat): int {
    if apart then at + k else at
  }

  function RowOf(c: char, number: string, role: Role, at: int, apart: bool, k: nat): Row {
    var t := When(at, apart, k);
    Row(UtcDay(t), number, role, Name(c, k), t, t)
  }

  /** One row each for `n` calls. */
  function Many(n: nat, c: char, number: string, role: Role, at: int, apart: bool): seq<Row> {
    if n == 0 then [] else Many(n - 1, c, number, role, at, apart) + [RowOf(c, number, role, at, apart, n - 1)]
  }

  lemma {:induction false} ManyHold(n: nat, c: char, number: string, role: Role, at: int, apart: bool)
    ensures forall r :: r in Many(n, c, number, role, at, apart)
                        <==> exists k: nat :: k < n && r == RowOf(c, number, role, at, apart, k)
  {
    if n > 0 {
      ManyHold(n - 1, c, number, role, at, apart);
      forall r
        ensures r in Many(n, c, number, role, at, apart) <==> exists k: nat :: k < n && r == RowOf(c, number, role, at, apart, k)
      {
        if r == RowOf(c, number, role, at, apart, n - 1) {
          assert r in Many(n, c, number, role, at, apart);
        }
      }
    }
  }

  function Expected(n: nat, c: char, at: int, apart: bool): seq<Hit> {
    if n == 0 then [] else Expected(n - 1, c, at, apart) + [Hit(Name(c, n - 1), When(at, apart, n - 1))]
  }

  lemma {:induction false} ExpectedHold(n: nat, c: char, at: int, apart: bool)
    ensures |Expected(n, c, at, apart)| == n
    ensures forall i | 0 <= i < n :: Expected(n, c, at, apart)[i] == Hit(Name(c, i), When(at, apart, i))
    ensures NoDup(Expected(n, c, at, apart))
  {
    if n > 0 {
      ExpectedHold(n - 1, c, at, apart);
    }
  }

  /** If these calls are in an ordered answer, at least so many come before whatever is
      older. */
  lemma NewestComeFirst(hs: seq<Hit>, n: nat, c: char, at: int, apart: bool)
    requires SortedBy(NewestFirst, hs) && NoDup(hs)
    requires forall k: nat | k < n :: Hit(Name(c, k), When(at, apart, k)) in hs
    ensures |hs| >= n && forall i | 0 <= i < n :: hs[i].first >= at
  {
    var m, es := NotOlder(hs, at), Expected(n, c, at, apart);
    NotOlderSplits(hs, at);
    ExpectedHold(n, c, at, apart);
    forall h | h in es
      ensures h in hs[..m]
    {
      var k :| 0 <= k < n && es[k] == h;
      assert Hit(Name(c, k), When(at, apart, k)) in hs;
      var j :| 0 <= j < |hs| && hs[j] == h;
      assert j < m;
      assert hs[..m][j] == h;
    }
    NoLongerThan(es, hs[..m]);
  }

  /** A first page with so many calls that are not older ends among them. */
  lemma CursorAmongTheNewest(rows: seq<Row>, q: Search, end: int, c: char, at: int, apart: bool)
    requires forall k: nat | k < INDEX_CALL_LIMIT :: Hit(Name(c, k), When(at, apart, k)) in Hits(rows, q, end)
    requires forall h | h in Hits(rows, q, end) :: IsSafeCallId(h.id)
    ensures FetchedSafe(rows, q, end) != []
    ensures CursorOf(FetchedSafe(rows, q, end)) >= at
    ensures exists h :: h in Hits(rows, q, end) && h.first == CursorOf(FetchedSafe(rows, q, end))
  {
    var hs := Hits(rows, q, end);
    HitsHold(rows, q, end);
    AllShowable(rows, q, end);
    NewestComeFirst(hs, INDEX_CALL_LIMIT, c, at, apart);
    assert hs[INDEX_CALL_LIMIT - 1] in hs;
  }

  lemma NothingSafeIsFetched(rows: seq<Row>, q: Search, end: int, c: char, at: int)
    requires forall k: nat | k < FETCHED :: Hit(Name(c, k), at) in Hits(rows, q, end)
    requires forall h | h in Hits(rows, q, end) :: h.first <= at && (h.first == at ==> !IsSafeCallId(h.id))
    ensures FetchedSafe(rows, q, end) == []
  {
    var hs, hits := Hits(rows, q, end), Lookup(rows, q, end, FETCHED);
    HitsHold(rows, q, end);
    NewestComeFirst(hs, FETCHED, c, at, false);
    forall h | h in hits
      ensures !IsSafeCallId(h.id)
    {
      var i :| 0 <= i < |hits| && hits[i] == h;
      assert hs[i] in hs;
    }
    SelectNone((h: Hit) => IsSafeCallId(h.id), hits);
  }

  // ----- a second needle seen on the next day -----

  const CALLER: string := "5550000001"
  const OTHER_PARTY: string := "5550000002"
  const TWO_NEEDLES := Search([Needle(FromUser, CALLER), Needle(AnyNumber, OTHER_PARTY)], 0)
  const LATE_EVENING: int := DAY_NS - 2 * NS
  const BEFORE_THAT: int := DAY_NS - 10 * NS
  const AFTER_MIDNIGHT: int := DAY_NS + 5 * NS
  const TWO_DAYS: int := 2 * DAY_NS

  function LateInvite(): Row {
    Row(Day(0), CALLER, From, "late", BEFORE_THAT, BEFORE_THAT)
  }

  function LateAnswer(): Row {
    Row(Day(1), OTHER_PARTY, Other, "late", AFTER_MIDNIGHT, AFTER_MIDNIGHT)
  }

  function EarlyInvite(k: nat): Row {
    RowOf('a', CALLER, From, LATE_EVENING, true, k)
  }

  function EarlyAnswer(k: nat): Row {
    RowOf('a', OTHER_PARTY, Other, LATE_EVENING, true, k)
  }

  /** Fifty calls from 23:59:58 on, a nanosecond apart, match both needles; one at
      23:59:50 matches the second only in its answer, at 00:00:05 the next day. */
  function TwoDayIndex(): seq<Row> {
    Many(50, 'a', CALLER, From, LATE_EVENING, true) + Many(50, 'a', OTHER_PARTY, Other, LATE_EVENING, true)
    + [LateInvite(), LateAnswer()]
  }

  lemma Days()
    ensures UtcDay(0) == Day(0) && UtcDay(BEFORE_THAT) == Day(0)
    ensures forall t | BEFORE_THAT <= t <= LATE_EVENING + 50 :: UtcDay(t) == Day(0)
    ensures UtcDay(AFTER_MIDNIGHT) == Day(1) && UtcDay(TWO_DAYS - 1) == Day(1)
  {
  }

  lemma TwoDayRows(r: Row)
    ensures r in TwoDayIndex() <==>
              || (exists k: nat :: k < 50 && r == EarlyInvite(k))
              || (exists k: nat :: k < 50 && r == EarlyAnswer(k))
              || r == LateInvite() || r == LateAnswer()
  {
    EarlyInvites(r);
    EarlyAnswers(r);
    var a, b := Many(50, 'a', CALLER, From, LATE_EVENING, true), Many(50, 'a', OTHER_PARTY, Other, LATE_EVENING, true);
    assert r in TwoDayIndex() <==> r in a || r in b || r in [LateInvite(), LateAnswer()];
  }

  lemma EarlyInvites(r: Row)
    ensures r in Many(50, 'a', CALLER, From, LATE_EVENING, true) <==> exists k: nat :: k < 50 && r == EarlyInvite(k)
  {
    ManyHold(50, 'a', CALLER, From, LATE_EVENING, true);
    if k: nat :| k < 50 && r == RowOf('a', CALLER, From, LATE_EVENING, true, k) {
      assert r == EarlyInvite(k);
    }
  }

  lemma EarlyAnswers(r: Row)
    ensures r in Many(50, 'a', OTHER_PARTY, Other, LATE_EVENING, true) <==> exists k: nat :: k < 50 && r == EarlyAnswer(k)
  {
    ManyHold(50, 'a', OTHER_PARTY, Other, LATE_EVENING, true);
    if k: nat :| k < 50 && r == RowOf('a', OTHER_PARTY, Other, LATE_EVENING, true, k) {
      assert r == EarlyAnswer(k);
    }
  }

  lemma EarlyRows(k: nat)
    requires k < 50
    ensures EarlyInvite(k) in TwoDayIndex() && EarlyAnswer(k) in TwoDayIndex()
  {
    TwoDayRows(EarlyInvite(k));
    TwoDayRows(EarlyAnswer(k));
  }

  lemma LateRows()
    ensures LateInvite() in TwoDayIndex() && LateAnswer() in TwoDayIndex()
  {
    TwoDayRows(LateInvite());
    TwoDayRows(LateAnswer());
  }

  /** The row of a call that is not the late one. */
  ghost predicate IsEarly(r: Row, k: nat) {
    && k < 50 && r.callId == Name('a', k) && r.first == When(LATE_EVENING, true, k) == r.last && r.day == Day(0)
  }

  lemma EarlyOnes(k: nat)
    requires k < 50
    ensures IsEarly(EarlyInvite(k), k) && EarlyInvite(k).number == CALLER && EarlyInvite(k).role == From
    ensures IsEarly(EarlyAnswer(k), k) && EarlyAnswer(k).number == OTHER_PARTY
  {
    Days();
  }

  lemma EarlyOrLate(r: Row) returns (k: nat)
    requires r in TwoDayIndex()
    ensures r == LateInvite() || r == LateAnswer() || IsEarly(r, k)
    ensures (r.number == CALLER && r.role == From && r.day == Day(0)) || r.number == OTHER_PARTY
  {
    TwoDayRows(r);
    k := 0;
    if j: nat :| j < 50 && r == EarlyInvite(j) {
      EarlyOnes(j);
      k := j;
    } else if j: nat :| j < 50 && r == EarlyAnswer(j) {
      EarlyOnes(j);
      k := j;
    }
  }

  lemma NamesDiffer(k: nat)
    ensures Name('a', k) != "late"
  {
    assert Name('a', k)[0] == 'a' && "late"[0] == 'l';
  }

  lemma TwoDayRowsAreGood()
    ensures GoodRows(TwoDayIndex())
    ensures forall r | r in TwoDayIndex() :: 0 <= r.first <= r.last && 0 <= r.day.n <= 1 && IsSafeCallId(r.callId)
    ensures forall r | r in TwoDayIndex() :: (r.number == CALLER && r.role == From) || r.number == OTHER_PARTY
    ensures forall r | r in TwoDayIndex() && r.callId == "late" :: r == LateInvite() || r == LateAnswer()
  {
    Days();
    forall r | r in TwoDayIndex()
      ensures GoodRow(r) && 0 <= r.first <= r.last && 0 <= r.day.n <= 1 && IsSafeCallId(r.callId)
      ensures (r.number == CALLER && r.role == From) || r.number == OTHER_PARTY
      ensures r.callId == "late" ==> r == LateInvite() || r == LateAnswer()
    {
      var k := EarlyOrLate(r);
      NamesDiffer(k);
    }
  }

  lemma BothNeedlesRead(r: Row, end: int)
    requires r in TwoDayIndex()
    ensures Reads(TWO_NEEDLES, end, r) <==> r.day.n <= UtcDay(end - 1).n
    ensures r.number == CALLER ==> Matches(TWO_NEEDLES.needles[0], r)
    ensures r.number == OTHER_PARTY ==> Matches(TWO_NEEDLES.needles[1], r) && !Matches(TWO_NEEDLES.needles[0], r)
    ensures r.number == CALLER ==> !Matches(TWO_NEEDLES.needles[1], r)
  {
    Days();
    TwoDayRowsAreGood();
    assert Matches(TWO_NEEDLES.needles[if r.number == CALLER then 0 else 1], r);
  }

  /** Two rows of a call, one for each needle, make it found. */
  lemma FoundByTwoRows(end: int, id: string, a: Row, b: Row)
    requires end > 0 && a in TwoDayIndex() && b in TwoDayIndex() && a.callId == id == b.callId
    requires a.number == CALLER && b.number == OTHER_PARTY
    requires a.day.n <= UtcDay(end - 1).n && b.day.n <= UtcDay(end - 1).n
    requires a.first < end && forall r | r in TwoDayIndex() && r.callId == id :: a.first <= r.first
    ensures IsFound(TwoDayIndex(), TWO_NEEDLES, end, Hit(id, a.first))
  {
    var rows := TwoDayIndex();
    TwoDayRowsAreGood();
    BothNeedlesRead(a, end);
    BothNeedlesRead(b, end);
    assert Readable(rows, TWO_NEEDLES, end, id, a) && Readable(rows, TWO_NEEDLES, end, id, b);
    assert Matched(rows, TWO_NEEDLES, end, id, 0) && Matched(rows, TWO_NEEDLES, end, id, 1);
    assert AllMatched(rows, TWO_NEEDLES, end, id);
    FoundMeans(rows, TWO_NEEDLES, end, Hit(id, a.first));
  }

  lemma LateIsFound()
    ensures IsFound(TwoDayIndex(), TWO_NEEDLES, TWO_DAYS, Hit("late", BEFORE_THAT))
  {
    Days();
    TwoDayRowsAreGood();
    LateRows();
    FoundByTwoRows(TWO_DAYS, "late", LateInvite(), LateAnswer());
  }

  lemma {:induction false} NamesAreOnce(j: nat, k: nat)
    requires Name('a', j) == Name('a', k)
    ensures j == k
  {
  }

  /** The rows of an early call all begin when it does. */
  lemma EarlyBegins(k: nat)
    requires k < 50
    ensures forall r | r in TwoDayIndex() && r.callId == Name('a', k) :: IsEarly(r, k)
  {
    NamesDiffer(k);
    forall r | r in TwoDayIndex() && r.callId == Name('a', k)
      ensures IsEarly(r, k)
    {
      var j := EarlyOrLate(r);
      NamesAreOnce(j, k);
    }
  }

  lemma EarlyIsFound(k: nat)
    requires k < 50
    ensures IsFound(TwoDayIndex(), TWO_NEEDLES, TWO_DAYS, Hit(Name('a', k), When(LATE_EVENING, true, k)))
  {
    Days();
    EarlyRows(k);
    EarlyBegins(k);
    FoundByTwoRows(TWO_DAYS, Name('a', k), EarlyInvite(k), EarlyAnswer(k));
  }

  /** Every call found can be shown, begins in the window before midnight, and is the
      late one or one of the fifty. */
  lemma TwoDayHit(h: Hit) returns (k: nat)
    requires IsFound(TwoDayIndex(), TWO_NEEDLES, TWO_DAYS, h)
    ensures 0 <= h.first <= LATE_EVENING + 50 && IsSafeCallId(h.id)
    ensures h == Hit("late", BEFORE_THAT) || (k < 50 && h == Hit(Name('a', k), When(LATE_EVENING, true, k)))
  {
    Days();
    TwoDayRowsAreGood();
    FoundMeans(TwoDayIndex(), TWO_NEEDLES, TWO_DAYS, h);
    var r :| Readable(TwoDayIndex(), TWO_NEEDLES, TWO_DAYS, h.id, r) && r.first == h.first;
    k := EarlyOrLate(r);
    LateRows();
    if h.id == "late" {
      BothNeedlesRead(LateInvite(), TWO_DAYS);
      assert Readable(TwoDayIndex(), TWO_NEEDLES, TWO_DAYS, h.id, LateInvite());
    }
  }

  /** Below a cursor on the first day the late call's second row is not read. */
  lemma LateAtTheCursor(t: int)
    requires BEFORE_THAT < t <= LATE_EVENING + 50
    ensures Late(TwoDayIndex(), TWO_NEEDLES, t, Hit("late", BEFORE_THAT))
  {
    var rows := TwoDayIndex();
    Days();
    TwoDayRowsAreGood();
    forall r | Readable(rows, TWO_NEEDLES, t, "late", r)
      ensures !Matches(TWO_NEEDLES.needles[1], r)
    {
      BothNeedlesRead(r, t);
    }
    assert !Matched(rows, TWO_NEEDLES, t, "late", 1);
    assert !AllMatched(rows, TWO_NEEDLES, t, "late");
  }

  lemma FirstPageEndsInTheEvening()
    ensures var safe := FetchedSafe(TwoDayIndex(), TWO_NEEDLES, TWO_DAYS);
            safe != [] && BEFORE_THAT < CursorOf(safe) <= LATE_EVENING + 50
  {
    var rows := TwoDayIndex();
    HitsHold(rows, TWO_NEEDLES, TWO_DAYS);
    forall h | h in Hits(rows, TWO_NEEDLES, TWO_DAYS)
      ensures h.first <= LATE_EVENING + 50 && IsSafeCallId(h.id)
    {
      var _ := TwoDayHit(h);
    }
    forall k: nat | k < INDEX_CALL_LIMIT
      ensures Hit(Name('a', k), When(LATE_EVENING, true, k)) in Hits(rows, TWO_NEEDLES, TWO_DAYS)
    {
      EarlyIsFound(k);
    }
    CursorAmongTheNewest(rows, TWO_NEEDLES, TWO_DAYS, 'a', LATE_EVENING, true);
  }

  /** Lists without repeats that hold only one element are that short. */
  lemma AtMostOne(hs: seq<Hit>, h: Hit)
    requires NoDup(hs) && forall x | x in hs :: x == h
    ensures |hs| <= 1
  {
    NoLongerThan(hs, [h]);
  }

  lemma SameInstant(g: Hit, h: Hit)
    requires IsFound(TwoDayIndex(), TWO_NEEDLES, TWO_DAYS, g) && IsFound(TwoDayIndex(), TWO_NEEDLES, TWO_DAYS, h)
    requires g.first == h.first
    ensures g == h
  {
    var j := TwoDayHit(g);
    var k := TwoDayHit(h);
  }

  lemma NoTwoAtOnce(at: int)
    ensures |TiesAt(Hits(TwoDayIndex(), TWO_NEEDLES, TWO_DAYS), at)| <= 1
  {
    var hs := Hits(TwoDayIndex(), TWO_NEEDLES, TWO_DAYS);
    var tied := TiesAt(hs, at);
    HitsHold(TwoDayIndex(), TWO_NEEDLES, TWO_DAYS);
    SelectedIn((h: Hit) => h.first == at, hs);
    SelectOnce((h: Hit) => h.first == at, hs);
    if tied != [] {
      assert tied[0] in tied;
      forall h | h in tied
        ensures h == tied[0]
      {
        SameInstant(h, tied[0]);
      }
      AtMostOne(tied, tied[0]);
    }
  }

  /** Safe Call-IDs, every call in the window, no two at one instant, and yet paging
      with two needles loses a call that the first lookup finds: its second needle is
      seen a day later, and the second page's day bound hides that row. */
  lemma SecondNeedleAfterMidnightIsLost()
    ensures GoodRows(TwoDayIndex())
    ensures forall h | h in Hits(TwoDayIndex(), TWO_NEEDLES, TWO_DAYS) :: IsSafeCallId(h.id) && TWO_NEEDLES.start <= h.first
    ensures forall at :: |TiesAt(Hits(TwoDayIndex(), TWO_NEEDLES, TWO_DAYS), at)| <= 1
    ensures Hit("late", BEFORE_THAT) in Hits(TwoDayIndex(), TWO_NEEDLES, TWO_DAYS)
    ensures Hit("late", BEFORE_THAT) !in Follow(TwoDayIndex(), TWO_NEEDLES, TWO_DAYS)
  {
    TwoDayRowsAreGood();
    HitsHold(TwoDayIndex(), TWO_NEEDLES, TWO_DAYS);
    LateIsFound();
    forall h | h in Hits(TwoDayIndex(), TWO_NEEDLES, TWO_DAYS)
      ensures IsSafeCallId(h.id) && TWO_NEEDLES.start <= h.first
    {
      var _ := TwoDayHit(h);
    }
    forall at
      ensures |TiesAt(Hits(TwoDayIndex(), TWO_NEEDLES, TWO_DAYS), at)| <= 1
    {
      NoTwoAtOnce(at);
    }
    FirstPageEndsInTheEvening();
    LateAtTheCursor(CursorOf(FetchedSafe(TwoDayIndex(), TWO_NEEDLES, TWO_DAYS)));
    LateCallIsLost(TwoDayIndex(), TWO_NEEDLES, TWO_DAYS, Hit("late", BEFORE_THAT));
  }

  // ----- a page of unsafe Call-IDs -----

  const ONE_NEEDLE := Search([Needle(FromUser, CALLER)], 0)

  /** A character that a Call-ID header can hold and the index stores, but that no
      safe Call-ID has: DEL. */
  const UNSAFE: char := 127 as char

  /** Seventy calls with unsafe Call-IDs, and an older one that can be shown. */
  function UnsafeIndex(): seq<Row> {
    Many(FETCHED, UNSAFE, CALLER, From, 1000, false) + [Row(Day(0), CALLER, From, "a", 10, 10)]
  }

  lemma UnsafeRows(r: Row)
    ensures r in UnsafeIndex() <==>
              (exists k: nat :: k < FETCHED && r == RowOf(UNSAFE, CALLER, From, 1000, false, k)) || r == Row(Day(0), CALLER, From, "a", 10, 10)
    ensures r in UnsafeIndex() ==>
              GoodRow(r) && Reads(ONE_NEEDLE, 2000, r) && r.last >= 0 && (r.callId == "a" ==> r.first == 10)
              && (r.callId != "a" ==> r.first == 1000 && !IsSafeCallId(r.callId))
  {
    ManyHold(FETCHED, UNSAFE, CALLER, From, 1000, false);
    var many := Many(FETCHED, UNSAFE, CALLER, From, 1000, false);
    assert r in UnsafeIndex() <==> r in many || r in [Row(Day(0), CALLER, From, "a", 10, 10)];
    if r in UnsafeIndex() {
      assert Matches(ONE_NEEDLE.needles[0], r);
      if k: nat :| k < FETCHED && r == RowOf(UNSAFE, CALLER, From, 1000, false, k) {
        assert r.callId[0] == UNSAFE && r.callId[0] in r.callId;
      }
    }
  }

  /** A call with one row that the search reads is found from that row. */
  lemma FoundByOneRow(rows: seq<Row>, end: int, r: Row)
    requires r in rows && Reads(ONE_NEEDLE, end, r) && r.last >= 0 && end > 0 && r.first < end
    requires forall x | x in rows && x.callId == r.callId :: r.first <= x.first
    ensures IsFound(rows, ONE_NEEDLE, end, Hit(r.callId, r.first))
  {
    assert Readable(rows, ONE_NEEDLE, end, r.callId, r);
    FoundMeans(rows, ONE_NEEDLE, end, Hit(r.callId, r.first));
  }

  lemma UnsafeFound(r: Row)
    requires r in UnsafeIndex()
    ensures IsFound(UnsafeIndex(), ONE_NEEDLE, 2000, Hit(r.callId, r.first))
  {
    UnsafeRows(r);
    forall x | x in UnsafeIndex() && x.callId == r.callId
      ensures r.first <= x.first
    {
      UnsafeRows(x);
    }
    FoundByOneRow(UnsafeIndex(), 2000, r);
  }

  lemma UnsafeHits()
    ensures var hs := Hits(UnsafeIndex(), ONE_NEEDLE, 2000);
            && Hit("a", 10) in hs && (forall k: nat | k < FETCHED :: Hit(Name(UNSAFE, k), 1000) in hs)
            && forall h | h in hs :: h.first <= 1000 && (h.first == 1000 ==> !IsSafeCallId(h.id))
  {
    var rows := UnsafeIndex();
    HitsHold(rows, ONE_NEEDLE, 2000);
    UnsafeRows(Row(Day(0), CALLER, From, "a", 10, 10));
    UnsafeFound(Row(Day(0), CALLER, From, "a", 10, 10));
    forall k: nat | k < FETCHED
      ensures Hit(Name(UNSAFE, k), 1000) in Hits(rows, ONE_NEEDLE, 2000)
    {
      UnsafeRows(RowOf(UNSAFE, CALLER, From, 1000, false, k));
      UnsafeFound(RowOf(UNSAFE, CALLER, From, 1000, false, k));
    }
    forall h | h in Hits(rows, ONE_NEEDLE, 2000)
      ensures h.first <= 1000 && (h.first == 1000 ==> !IsSafeCallId(h.id))
    {
      FoundMeans(rows, ONE_NEEDLE, 2000, h);
      var r :| Readable(rows, ONE_NEEDLE, 2000, h.id, r) && r.first == h.first;
      UnsafeRows(r);
    }
  }

  /** A page of unsafe Call-IDs ends the search though an older call can be shown. */
  lemma UnsafeNewestHideTheRest()
    ensures GoodRows(UnsafeIndex())
    ensures Hit("a", 10) in Showable(UnsafeIndex(), ONE_NEEDLE, 2000)
    ensures PageLoses(UnsafeIndex(), ONE_NEEDLE, 2000) && Follow(UnsafeIndex(), ONE_NEEDLE, 2000) == []
  {
    var rows := UnsafeIndex();
    forall r | r in rows
      ensures GoodRow(r)
    {
      UnsafeRows(r);
    }
    UnsafeHits();
    SelectedIn((h: Hit) => IsSafeCallId(h.id), Hits(rows, ONE_NEEDLE, 2000));
    NothingSafeIsFetched(rows, ONE_NEEDLE, 2000, UNSAFE, 1000);
    FollowUnfolds(rows, ONE_NEEDLE, 2000);
  }

  // ----- more calls at one instant than are fetched -----

  const TIED: nat := FETCHED + 1

  /** Seventy-one calls that begin at one instant. */
  function TiedIndex(): seq<Row> {
    Many(TIED, 'a', CALLER, From, 1000, false)
  }

  lemma TiedRows(r: Row)
    ensures r in TiedIndex() <==> exists k: nat :: k < TIED && r == RowOf('a', CALLER, From, 1000, false, k)
    ensures r in TiedIndex() ==>
              GoodRow(r) && Reads(ONE_NEEDLE, 2000, r) && r.first == 1000 == r.last && IsSafeCallId(r.callId)
  {
    ManyHold(TIED, 'a', CALLER, From, 1000, false);
    if r in TiedIndex() {
      assert Matches(ONE_NEEDLE.needles[0], r);
    }
  }

  lemma TiedFound(k: nat)
    requires k < TIED
    ensures Hit(Name('a', k), 1000) in Hits(TiedIndex(), ONE_NEEDLE, 2000)
  {
    var r := RowOf('a', CALLER, From, 1000, false, k);
    TiedRows(r);
    forall x | x in TiedIndex() && x.callId == r.callId
      ensures r.first <= x.first
    {
      TiedRows(x);
    }
    FoundByOneRow(TiedIndex(), 2000, r);
    HitsHold(TiedIndex(), ONE_NEEDLE, 2000);
  }

  lemma TiedHit(h: Hit)
    requires h in Hits(TiedIndex(), ONE_NEEDLE, 2000)
    ensures h.first == 1000 && IsSafeCallId(h.id)
  {
    HitsHold(TiedIndex(), ONE_NEEDLE, 2000);
    FoundMeans(TiedIndex(), ONE_NEEDLE, 2000, h);
    var r :| Readable(TiedIndex(), ONE_NEEDLE, 2000, h.id, r) && r.first == h.first;
    TiedRows(r);
  }

  /** The fetch ends inside the tie. */
  lemma OneIsUnfetched(hs: seq<Hit>)
    requires |hs| > FETCHED && forall h | h in hs :: h.first == 1000
    ensures TiesUnfetched(hs, FETCHED)
  {
    assert forall i | 0 <= i < |hs| :: hs[i] in hs;
    assert hs[FETCHED].first == CursorOf(hs[..FETCHED]);
  }

  /** Every Call-ID safe, one needle, every call in the window, and yet the tied calls
      past the extra ones fetched are lost. */
  lemma CallsPastTheExtraOnesAreCut()
    ensures GoodRows(TiedIndex())
    ensures forall h | h in Hits(TiedIndex(), ONE_NEEDLE, 2000) :: h.first == 1000 && IsSafeCallId(h.id)
    ensures PageLoses(TiedIndex(), ONE_NEEDLE, 2000)
    ensures Follow(TiedIndex(), ONE_NEEDLE, 2000) != Showable(TiedIndex(), ONE_NEEDLE, 2000)
    ensures |Follow(TiedIndex(), ONE_NEEDLE, 2000)| <= |Showable(TiedIndex(), ONE_NEEDLE, 2000)|
  {
    var rows, hs := TiedIndex(), Hits(TiedIndex(), ONE_NEEDLE, 2000);
    forall r | r in rows
      ensures GoodRow(r)
    {
      TiedRows(r);
    }
    forall h | h in hs
      ensures h.first == 1000 && IsSafeCallId(h.id)
    {
      TiedHit(h);
    }
    forall k: nat | k < TIED
      ensures Hit(Name('a', k), When(1000, false, k)) in hs
    {
      TiedFound(k);
    }
    HitsHold(rows, ONE_NEEDLE, 2000);
    NewestComeFirst(hs, TIED, 'a', 1000, false);
    AllShowable(rows, ONE_NEEDLE, 2000);
    OneIsUnfetched(hs);
    TiesAreUnfetched(hs, FETCHED);
    NoPageUnfolds(rows, ONE_NEEDLE, 2000);
    FollowIsCompleteIffNoPageLoses(rows, ONE_NEEDLE, 2000);
  }
}
