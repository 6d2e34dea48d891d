/** The number index and the lookup of calls in it: which rows a bound lets it read,
    how they are grouped by call, and how the answer changes when the bound moves. */
module IndexLookup {
  import opened Ordering
  import opened Lists
  import opened IndexCoverage

  const EXACT_MIN_DIGITS: nat := 10

  datatype Role = Ruri | From | To | Pai | Diversion | Other
  datatype Field = AnyNumber | FromUser | ToUser
  datatype Needle = Needle(field: Field, digits: string)

  /** One row: a number seen in messages of one call on one UTC day, with the times of
      the first and the last of them. */
  datatype Row = Row(day: Day, number: string, role: Role, callId: string, first: int, last: int)

  ghost predicate GoodRow(r: Row) {
    r.first <= r.last && UtcDay(r.first) == r.day == UtcDay(r.last)
  }

  predicate Allows(f: Field, r: Role) {
    match f
    case AnyNumber => true
    case FromUser => r == From || r == Pai
    case ToUser => r == To || r == Ruri
  }

  predicate Contains(s: string, part: string) {
    |part| <= |s| && (s[..|part|] == part || (s != "" && Contains(s[1..], part)))
  }

  /** A full number matches exactly, a shorter one anywhere inside. */
  predicate Matches(n: Needle, r: Row) {
    Allows(n.field, r.role)
    && if |n.digits| >= EXACT_MIN_DIGITS then r.number == n.digits else Contains(r.number, n.digits)
  }

  lemma {:induction false} Occurs(before: string, part: string, after: string)
    ensures Contains(before + part + after, part)
  {
    var s := before + part + after;
    if before == [] {
      assert s[..|part|] == part;
    } else {
      Occurs(before[1..], part, after);
      assert s[1..] == before[1..] + part + after;
    }
  }

  lemma {:induction false} Occurrence(s: string, part: string) returns (before: string, after: string)
    requires Contains(s, part)
    ensures s == before + part + after
  {
    if s[..|part|] == part {
      before, after := [], s[|part|..];
    } else {
      var b, a := Occurrence(s[1..], part);
      before, after := [s[0]] + b, a;
      assert s == [s[0]] + s[1..];
    }
  }

  lemma ContainsMeans(s: string, part: string)
    ensures Contains(s, part) <==> exists before: string, after: string :: s == before + part + after
  {
    if Contains(s, part) {
      var before, after := Occurrence(s, part);
    }
    if before: string, after: string :| s == before + part + after {
      Occurs(before, part, after);
    }
  }

  /** A needle of ten digits or more matches a number that equals it, a shorter one a
      number it occurs in; as a caller in From or P-Asserted-Identity, as a callee in To
      or the request line, and as just a number in any role. */
  lemma MatchMeans(n: Needle, r: Row)
    ensures Matches(n, r) <==>
              && (n.field == FromUser ==> r.role in {From, Pai})
              && (n.field == ToUser ==> r.role in {To, Ruri})
              && (if |n.digits| >= 10 then r.number == n.digits
                  else exists before: string, after: string :: r.number == before + n.digits + after)
  {
    ContainsMeans(r.number, n.digits);
  }

  /** What is looked for: the needles and the window's start. */
  datatype Search = Search(needles: seq<Needle>, start: int)

  predicate InDays(q: Search, end: int, r: Row) {
    UtcDay(q.start).n <= r.day.n <= UtcDay(end - 1).n
  }

  /** PREWHERE and WHERE: the row matches some needle, and its day is neither before
      the start's nor after the bound's. */
  predicate Reads(q: Search, end: int, r: Row) {
    (exists i :: 0 <= i < |q.needles| && Matches(q.needles[i], r)) && InDays(q, end, r)
  }

  /** The rows of one call that are read. */
  function Group(rows: seq<Row>, q: Search, end: int, id: string): seq<Row> {
    Select((r: Row) => Reads(q, end, r) && r.callId == id, rows)
  }

  function First(rs: seq<Row>): int
    requires rs != []
  {
    if |rs| == 1 || rs[0].first <= First(rs[1..]) then rs[0].first else First(rs[1..])
  }

  function Last(rs: seq<Row>): int
    requires rs != []
  {
    if |rs| == 1 || rs[0].last >= Last(rs[1..]) then rs[0].last else Last(rs[1..])
  }

  predicate SomeMatch(n: Needle, rs: seq<Row>) {
    exists j :: 0 <= j < |rs| && Matches(n, rs[j])
  }

  /** HAVING, for one call: every needle matched (said only when there are several),
      and the matched rows overlap the window. */
  predicate Having(q: Search, end: int, rs: seq<Row>)
    requires rs != []
  {
    && (|q.needles| > 1 ==> forall i | 0 <= i < |q.needles| :: SomeMatch(q.needles[i], rs))
    && Last(rs) >= q.start && First(rs) < end
  }

  /** A call of the answer, with its first matching message. */
  datatype Hit = Hit(id: string, first: int)

  /** First message descending, then Call-ID descending. */
  predicate NewestFirst(a: Hit, b: Hit) {
    a.first > b.first || (a.first == b.first && StringLe(b.id, a.id))
  }

  lemma {:induction false} NewestOrder()
    ensures TotalOrder(NewestFirst)
  {
    StringOrder();
  }

  /** The Call-IDs of some rows, each once. */
  function Ids(rows: seq<Row>): (ids: seq<string>)
    ensures NoDup(ids)
    ensures forall id :: id in ids <==> exists j :: 0 <= j < |rows| && rows[j].callId == id
  {
    if rows == [] then []
    else
      var before, id := Ids(rows[..|rows| - 1]), rows[|rows| - 1].callId;
      assert forall j | 0 <= j < |rows| - 1 :: rows[..|rows| - 1][j] == rows[j];
      if id in before then before else before + [id]
  }

  function Grouped(rows: seq<Row>, q: Search, end: int, ids: seq<string>): seq<Hit> {
    if ids == [] then []
    else
      var rest, rs := Grouped(rows, q, end, ids[1..]), Group(rows, q, end, ids[0]);
      if rs != [] && Having(q, end, rs) then [Hit(ids[0], First(rs))] + rest else rest
  }

  /** Every call in [start, end) that matches, in lookup order. */
  function Hits(rows: seq<Row>, q: Search, end: int): seq<Hit> {
    if end <= q.start then [] else Sort(NewestFirst, Grouped(rows, q, end, Ids(rows)))
  }

  function Lookup(rows: seq<Row>, q: Search, end: int, limit: nat): seq<Hit> {
    var all := Hits(rows, q, end);
    if |all| <= limit then all else all[..limit]
  }

  // ----- what the answer holds -----

  lemma {:induction false} FirstIsLeast(rs: seq<Row>)
    requires rs != []
    ensures forall r | r in rs :: First(rs) <= r.first
    ensures exists r :: r in rs && r.first == First(rs)
  {
    assert rs == [rs[0]] + rs[1..];
    if |rs| > 1 {
      FirstIsLeast(rs[1..]);
    }
    assert rs[0] in rs;
  }

  lemma {:induction false} LastIsGreatest(rs: seq<Row>)
    requires rs != []
    ensures forall r | r in rs :: r.last <= Last(rs)
    ensures exists r :: r in rs && r.last == Last(rs)
  {
    assert rs == [rs[0]] + rs[1..];
    if |rs| > 1 {
      LastIsGreatest(rs[1..]);
    }
    assert rs[0] in rs;
  }

  lemma GroupHolds(rows: seq<Row>, q: Search, end: int, id: string)
    ensures forall r :: r in Group(rows, q, end, id) <==> r in rows && Reads(q, end, r) && r.callId == id
  {
    SelectedIn((r: Row) => Reads(q, end, r) && r.callId == id, rows);
  }

  /** The call is in the answer up to `end`. */
  ghost predicate IsFound(rows: seq<Row>, q: Search, end: int, h: Hit) {
    var rs := Group(rows, q, end, h.id);
    end > q.start && rs != [] && Having(q, end, rs) && h.first == First(rs)
  }

  lemma {:induction false} GroupedHolds(rows: seq<Row>, q: Search, end: int, ids: seq<string>)
    requires NoDup(ids)
    ensures NoDup(Grouped(rows, q, end, ids))
    ensures forall h :: h in Grouped(rows, q, end, ids) <==>
              h.id in ids && Group(rows, q, end, h.id) != [] && Having(q, end, Group(rows, q, end, h.id))
              && h.first == First(Group(rows, q, end, h.id))
  {
    if ids != [] {
      GroupedHolds(rows, q, end, ids[1..]);
      assert ids[0] !in ids[1..];
      assert ids == [ids[0]] + ids[1..];
    }
  }

  /** The answer is ordered, names each call once, and holds exactly the calls whose
      readable rows match every needle and overlap the window. */
  lemma HitsHold(rows: seq<Row>, q: Search, end: int)
    ensures SortedBy(NewestFirst, Hits(rows, q, end)) && NoDup(Hits(rows, q, end))
    ensures forall h :: h in Hits(rows, q, end) <==> IsFound(rows, q, end, h)
  {
    if end > q.start {
      var ids := Ids(rows);
      var grouped := Grouped(rows, q, end, ids);
      NewestOrder();
      GroupedHolds(rows, q, end, ids);
      SortSorts(NewestFirst, grouped);
      SortMembers(NewestFirst, grouped);
      forall h
        ensures h in Hits(rows, q, end) <==> IsFound(rows, q, end, h)
      {
        var rs := Group(rows, q, end, h.id);
        if rs != [] {
          GroupHolds(rows, q, end, h.id);
          assert rs[0] in rs;
          var j :| 0 <= j < |rows| && rows[j] == rs[0];
          assert h.id in ids;
        }
      }
    }
  }

  /** The answer is by first message, newest first, and by Call-ID, last first, where
      these agree. */
  lemma HitsAreNewestFirst(rows: seq<Row>, q: Search, end: int, i: nat, j: nat)
    requires i < j < |Hits(rows, q, end)|
    ensures var a, b := Hits(rows, q, end)[i], Hits(rows, q, end)[j];
            a.first > b.first || (a.first == b.first && a.id != b.id && StringLe(b.id, a.id))
  {
    HitsHold(rows, q, end);
  }

  // ----- moving the bound -----

  /** A row of the call that the lookup up to `end` reads. */
  ghost predicate Readable(rows: seq<Row>, q: Search, end: int, id: string, r: Row) {
    r in rows && Reads(q, end, r) && r.callId == id
  }

  /** By `t` needle `i` has a row of the call. */
  ghost predicate Matched(rows: seq<Row>, q: Search, t: int, id: string, i: nat)
    requires i < |q.needles|
  {
    exists r :: Readable(rows, q, t, id, r) && Matches(q.needles[i], r)
  }

  ghost predicate AllMatched(rows: seq<Row>, q: Search, t: int, id: string) {
    |q.needles| > 1 ==> forall i: nat | i < |q.needles| :: Matched(rows, q, t, id, i)
  }

  /** By `t` some row of the call reaches into the window. */
  ghost predicate Reaches(rows: seq<Row>, q: Search, t: int, id: string) {
    exists r :: Readable(rows, q, t, id, r) && r.last >= q.start
  }

  /** Up to `t` the call can be found: by then every needle has a row, when there are
      several, and some row reaches into the window. */
  ghost predicate Settled(rows: seq<Row>, q: Search, t: int, id: string) {
    t > q.start && AllMatched(rows, q, t, id) && Reaches(rows, q, t, id)
  }

  /** The call's first readable message. */
  ghost predicate Begins(rows: seq<Row>, q: Search, t: int, h: Hit) {
    && (forall r | Readable(rows, q, t, h.id, r) :: h.first <= r.first)
    && (exists r :: Readable(rows, q, t, h.id, r) && r.first == h.first)
  }

  lemma NeedleMatched(rows: seq<Row>, q: Search, end: int, id: string, i: nat)
    requires i < |q.needles|
    ensures SomeMatch(q.needles[i], Group(rows, q, end, id)) <==> Matched(rows, q, end, id, i)
  {
    var rs := Group(rows, q, end, id);
    GroupHolds(rows, q, end, id);
    if SomeMatch(q.needles[i], rs) {
      var j :| 0 <= j < |rs| && Matches(q.needles[i], rs[j]);
      assert rs[j] in rs;
      assert Readable(rows, q, end, id, rs[j]);
    }
    if Matched(rows, q, end, id, i) {
      var r :| Readable(rows, q, end, id, r) && Matches(q.needles[i], r);
      assert r in rs;
      var j :| 0 <= j < |rs| && rs[j] == r;
    }
  }

  lemma FirstMeans(rows: seq<Row>, q: Search, end: int, h: Hit)
    ensures Group(rows, q, end, h.id) != [] && h.first == First(Group(rows, q, end, h.id)) <==> Begins(rows, q, end, h)
  {
    var rs := Group(rows, q, end, h.id);
    GroupHolds(rows, q, end, h.id);
    assert forall r | Readable(rows, q, end, h.id, r) :: r in rs;
    if rs != [] {
      FirstIsLeast(rs);
      assert forall r | r in rs :: Readable(rows, q, end, h.id, r);
      var least :| least in rs && least.first == First(rs);
      if Begins(rows, q, end, h) {
        var r :| Readable(rows, q, end, h.id, r) && r.first == h.first;
        assert r in rs && h.first <= least.first;
      } else if h.first == First(rs) {
        assert Begins(rows, q, end, h);
      }
    }
  }

  lemma LastMeans(rows: seq<Row>, q: Search, end: int, id: string)
    requires Group(rows, q, end, id) != []
    ensures Last(Group(rows, q, end, id)) >= q.start <==> Reaches(rows, q, end, id)
  {
    var rs := Group(rows, q, end, id);
    GroupHolds(rows, q, end, id);
    LastIsGreatest(rs);
    var greatest :| greatest in rs && greatest.last == Last(rs);
    assert Readable(rows, q, end, id, greatest);
    if Reaches(rows, q, end, id) {
      var r :| Readable(rows, q, end, id, r) && r.last >= q.start;
      assert r in rs;
    }
  }

  lemma NeedlesMatched(rows: seq<Row>, q: Search, end: int, id: string)
    ensures (|q.needles| > 1 ==> forall i | 0 <= i < |q.needles| :: SomeMatch(q.needles[i], Group(rows, q, end, id)))
            <==> AllMatched(rows, q, end, id)
  {
    forall i: nat | i < |q.needles|
      ensures SomeMatch(q.needles[i], Group(rows, q, end, id)) <==> Matched(rows, q, end, id, i)
    {
      NeedleMatched(rows, q, end, id, i);
    }
  }

  lemma FoundMeans(rows: seq<Row>, q: Search, end: int, h: Hit)
    ensures IsFound(rows, q, end, h) <==> Settled(rows, q, end, h.id) && h.first < end && Begins(rows, q, end, h)
  {
    FirstMeans(rows, q, end, h);
    NeedlesMatched(rows, q, end, h.id);
    if Group(rows, q, end, h.id) != [] {
      LastMeans(rows, q, end, h.id);
      FoundMeansForAGroup(rows, q, end, h);
    }
  }

  lemma FoundMeansForAGroup(rows: seq<Row>, q: Search, end: int, h: Hit)
    requires Group(rows, q, end, h.id) != []
    requires h.first == First(Group(rows, q, end, h.id)) <==> Begins(rows, q, end, h)
    requires Last(Group(rows, q, end, h.id)) >= q.start <==> Reaches(rows, q, end, h.id)
    requires (|q.needles| > 1 ==> forall i | 0 <= i < |q.needles| :: SomeMatch(q.needles[i], Group(rows, q, end, h.id)))
             <==> AllMatched(rows, q, end, h.id)
    ensures IsFound(rows, q, end, h) <==> Settled(rows, q, end, h.id) && h.first < end && Begins(rows, q, end, h)
  {
  }

  /** A lower bound reads exactly the rows of no later day; a row it does not read
      starts at the bound or later. */
  lemma LowerBoundReads(q: Search, t: int, end: int, r: Row)
    requires t <= end && GoodRow(r)
    ensures Reads(q, t, r) ==> Reads(q, end, r)
    ensures Reads(q, end, r) && r.first < t ==> Reads(q, t, r)
  {
    DayOrder(t - 1, end - 1);
    if r.first < t {
      DayOrder(r.first, t - 1);
    }
  }

  ghost predicate GoodRows(rows: seq<Row>) {
    forall r | r in rows :: GoodRow(r)
  }

  lemma ReadableBelow(rows: seq<Row>, q: Search, t: int, end: int, id: string)
    requires t <= end && GoodRows(rows)
    ensures forall r | Readable(rows, q, t, id, r) :: Readable(rows, q, end, id, r)
    ensures forall r | Readable(rows, q, end, id, r) && r.first < t :: Readable(rows, q, t, id, r)
  {
    forall r | r in rows
      ensures Reads(q, t, r) ==> Reads(q, end, r)
      ensures Reads(q, end, r) && r.first < t ==> Reads(q, t, r)
    {
      LowerBoundReads(q, t, end, r);
    }
  }

  lemma SettledStays(rows: seq<Row>, q: Search, t: int, end: int, id: string)
    requires t <= end && GoodRows(rows) && Settled(rows, q, t, id)
    ensures Settled(rows, q, end, id)
  {
    ReadableBelow(rows, q, t, end, id);
    forall i: nat | |q.needles| > 1 && i < |q.needles|
      ensures Matched(rows, q, end, id, i)
    {
      assert Matched(rows, q, t, id, i);
      var r :| Readable(rows, q, t, id, r) && Matches(q.needles[i], r);
      assert Readable(rows, q, end, id, r);
    }
  }

  lemma BeginsBelow(rows: seq<Row>, q: Search, t: int, end: int, h: Hit)
    requires t <= end && GoodRows(rows) && h.first < t
    ensures Begins(rows, q, t, h) <==> Begins(rows, q, end, h)
  {
    ReadableBelow(rows, q, t, end, h.id);
    if Begins(rows, q, t, h) {
      var r :| Readable(rows, q, t, h.id, r) && r.first == h.first;
      assert Readable(rows, q, end, h.id, r);
    }
    if Begins(rows, q, end, h) {
      var r :| Readable(rows, q, end, h.id, r) && r.first == h.first;
      assert Readable(rows, q, t, h.id, r);
    }
  }

  /** Under a lower bound a call keeps its first message, and is found exactly when
      that is below the bound and the call is settled by then. */
  lemma FoundBelow(rows: seq<Row>, q: Search, t: int, end: int, h: Hit)
    requires t <= end && GoodRows(rows)
    ensures IsFound(rows, q, t, h) <==> IsFound(rows, q, end, h) && h.first < t && Settled(rows, q, t, h.id)
  {
    FoundMeans(rows, q, t, h);
    FoundMeans(rows, q, end, h);
    if h.first < t {
      BeginsBelow(rows, q, t, end, h);
      if Settled(rows, q, t, h.id) {
        SettledStays(rows, q, t, end, h.id);
      }
    }
  }

  /** The part of an answer that a lower bound leaves. */
  ghost function Below(rows: seq<Row>, q: Search, t: int, hs: seq<Hit>): seq<Hit> {
    Select((h: Hit) => h.first < t && Settled(rows, q, t, h.id), hs)
  }

  /** The answer below `t` is the part of the answer below `end` that is older than
      `t` and settled by then. */
  lemma LowerBoundLeaves(rows: seq<Row>, q: Search, t: int, end: int)
    requires t <= end && GoodRows(rows)
    ensures Hits(rows, q, t) == Below(rows, q, t, Hits(rows, q, end))
  {
    var all, p := Hits(rows, q, end), (h: Hit) => h.first < t && Settled(rows, q, t, h.id);
    HitsHold(rows, q, t);
    HitsHold(rows, q, end);
    NewestOrder();
    SelectOnce(p, all);
    SelectSorted(NewestFirst, p, all);
    SelectedIn(p, all);
    forall h
      ensures h in Hits(rows, q, t) <==> h in Select(p, all)
    {
      FoundBelow(rows, q, t, end, h);
    }
    SameElements(NewestFirst, Hits(rows, q, t), Select(p, all));
  }

  // ----- when the day bound shows -----

  /** With one needle, a call that begins in the window is settled as soon as it has
      begun. */
  lemma OneNeedleIsSettled(rows: seq<Row>, q: Search, t: int, end: int, h: Hit)
    requires GoodRows(rows) && |q.needles| == 1
    requires IsFound(rows, q, end, h) && q.start <= h.first < t <= end
    ensures Settled(rows, q, t, h.id)
  {
    BegunIsReached(rows, q, t, end, h);
  }

  lemma BegunIsReached(rows: seq<Row>, q: Search, t: int, end: int, h: Hit)
    requires GoodRows(rows) && IsFound(rows, q, end, h) && q.start <= h.first < t <= end
    ensures Reaches(rows, q, t, h.id) && t > q.start
  {
    FoundMeans(rows, q, end, h);
    BeginsBelow(rows, q, t, end, h);
    var r :| Readable(rows, q, t, h.id, r) && r.first == h.first;
    assert GoodRow(r);
  }

  /** On the day of its first message the call has a row for needle `i`. */
  ghost predicate MatchesOnItsFirstDay(rows: seq<Row>, q: Search, h: Hit, i: nat)
    requires i < |q.needles|
  {
    exists r :: r in rows && r.callId == h.id && r.day == UtcDay(h.first) && Matches(q.needles[i], r)
  }

  /** So it has for every needle. */
  ghost predicate WholeOnItsFirstDay(rows: seq<Row>, q: Search, h: Hit) {
    forall i: nat | i < |q.needles| :: MatchesOnItsFirstDay(rows, q, h, i)
  }

  lemma OnlyTheFirstDayIsRead(rows: seq<Row>, q: Search, end: int, h: Hit, r: Row)
    requires GoodRows(rows) && IsFound(rows, q, end, h) && q.start <= h.first
    requires Readable(rows, q, h.first + 1, h.id, r)
    ensures r.day == UtcDay(h.first)
  {
    FoundMeans(rows, q, end, h);
    ReadableBelow(rows, q, h.first + 1, end, h.id);
    assert GoodRow(r) && h.first <= r.first;
    DayOrder(h.first, r.first);
  }

  lemma NeedleOnItsFirstDay(rows: seq<Row>, q: Search, end: int, h: Hit, i: nat)
    requires GoodRows(rows) && IsFound(rows, q, end, h) && q.start <= h.first && i < |q.needles|
    ensures Matched(rows, q, h.first + 1, h.id, i) <==> MatchesOnItsFirstDay(rows, q, h, i)
  {
    if Matched(rows, q, h.first + 1, h.id, i) {
      var r :| Readable(rows, q, h.first + 1, h.id, r) && Matches(q.needles[i], r);
      OnlyTheFirstDayIsRead(rows, q, end, h, r);
    }
    if MatchesOnItsFirstDay(rows, q, h, i) {
      var r :| r in rows && r.callId == h.id && r.day == UtcDay(h.first) && Matches(q.needles[i], r);
      DayOrder(q.start, h.first);
      assert Readable(rows, q, h.first + 1, h.id, r);
    }
  }

  lemma SettledOnItsFirstDay(rows: seq<Row>, q: Search, end: int, h: Hit)
    requires GoodRows(rows) && |q.needles| > 1 && IsFound(rows, q, end, h) && q.start <= h.first
    ensures Settled(rows, q, h.first + 1, h.id) <==> WholeOnItsFirstDay(rows, q, h)
  {
    var t := h.first + 1;
    BegunIsReached(rows, q, t, end, h);
    if Settled(rows, q, t, h.id) {
      forall i: nat | i < |q.needles|
        ensures MatchesOnItsFirstDay(rows, q, h, i)
      {
        NeedleOnItsFirstDay(rows, q, end, h, i);
      }
    }
    if WholeOnItsFirstDay(rows, q, h) {
      forall i: nat | i < |q.needles|
        ensures Matched(rows, q, t, h.id, i)
      {
        NeedleOnItsFirstDay(rows, q, end, h, i);
      }
    }
  }

  /** The calls older than `t`, whatever the lookup then finds. */
  function OlderThan(hs: seq<Hit>, t: int): seq<Hit> {
    Select((h: Hit) => h.first < t, hs)
  }

  lemma AllSettledMeansOlder(rows: seq<Row>, q: Search, t: int, end: int)
    requires GoodRows(rows) && t <= end
    requires forall h | h in Hits(rows, q, end) && h.first < t :: Settled(rows, q, t, h.id)
    ensures Hits(rows, q, t) == OlderThan(Hits(rows, q, end), t)
  {
    LowerBoundLeaves(rows, q, t, end);
    SelectSame((h: Hit) => h.first < t && Settled(rows, q, t, h.id), (h: Hit) => h.first < t, Hits(rows, q, end));
  }

  /** With one needle the day bound never shows. */
  lemma OneNeedleHidesTheDayBound(rows: seq<Row>, q: Search, t: int, end: int)
    requires GoodRows(rows) && |q.needles| == 1 && t <= end
    requires forall h | h in Hits(rows, q, end) :: q.start <= h.first
    ensures Hits(rows, q, t) == OlderThan(Hits(rows, q, end), t)
  {
    HitsHold(rows, q, end);
    forall h | h in Hits(rows, q, end) && h.first < t
      ensures Settled(rows, q, t, h.id)
    {
      OneNeedleIsSettled(rows, q, t, end, h);
    }
    AllSettledMeansOlder(rows, q, t, end);
  }

  lemma WholeDaysHideTheDayBound(rows: seq<Row>, q: Search, t: int, end: int)
    requires GoodRows(rows) && |q.needles| > 1 && t <= end
    requires forall h | h in Hits(rows, q, end) :: q.start <= h.first && WholeOnItsFirstDay(rows, q, h)
    ensures Hits(rows, q, t) == OlderThan(Hits(rows, q, end), t)
  {
    HitsHold(rows, q, end);
    forall h | h in Hits(rows, q, end) && h.first < t
      ensures Settled(rows, q, t, h.id)
    {
      SettledOnItsFirstDay(rows, q, end, h);
      SettledStays(rows, q, h.first + 1, t, h.id);
    }
    AllSettledMeansOlder(rows, q, t, end);
  }

  lemma HiddenMeansWhole(rows: seq<Row>, q: Search, end: int, h: Hit)
    requires GoodRows(rows) && |q.needles| > 1 && h in Hits(rows, q, end) && q.start <= h.first
    requires Hits(rows, q, h.first + 1) == OlderThan(Hits(rows, q, end), h.first + 1)
    ensures WholeOnItsFirstDay(rows, q, h)
  {
    var t := h.first + 1;
    HitsHold(rows, q, end);
    HitsHold(rows, q, t);
    SelectedIn((x: Hit) => x.first < t, Hits(rows, q, end));
    FoundMeans(rows, q, t, h);
    SettledOnItsFirstDay(rows, q, end, h);
  }

  /** For several needles the day bound never shows, whatever the cursor, if and only
      if every call has a row for each needle on the day of its first message. */
  lemma DayBoundIsInvisibleIff(rows: seq<Row>, q: Search, end: int)
    requires GoodRows(rows) && |q.needles| > 1 && forall h | h in Hits(rows, q, end) :: q.start <= h.first
    ensures (forall t | q.start < t <= end :: Hits(rows, q, t) == OlderThan(Hits(rows, q, end), t))
            <==> forall h | h in Hits(rows, q, end) :: WholeOnItsFirstDay(rows, q, h)
  {
    if forall h | h in Hits(rows, q, end) :: WholeOnItsFirstDay(rows, q, h) {
      forall t | q.start < t <= end
        ensures Hits(rows, q, t) == OlderThan(Hits(rows, q, end), t)
      {
        WholeDaysHideTheDayBound(rows, q, t, end);
      }
    }
    if forall t | q.start < t <= end :: Hits(rows, q, t) == OlderThan(Hits(rows, q, end), t) {
      HitsHold(rows, q, end);
      forall h | h in Hits(rows, q, end)
        ensures WholeOnItsFirstDay(rows, q, h)
      {
        assert IsFound(rows, q, end, h);
        HiddenMeansWhole(rows, q, end, h);
      }
    }
  }
}
