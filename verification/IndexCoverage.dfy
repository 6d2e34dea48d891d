/** From what instant on is the SIP number index complete?

    The index is filled by a materialized view from some moment on, and by
    backfill runs of whole UTC days. `compute_capability` turns the recorded
    start times into one claim, "complete from here on". Instants are
    nanoseconds since the epoch; a day is its number since the epoch. */
module IndexCoverage {
  import opened Wrappers

  const NS: int := 1_000_000_000
  const MS_NS: int := 1_000_000
  const DAY_NS: int := 86_400 * NS
  const INDEX_RETENTION_DAYS: int := 7

  datatype Day = Day(n: int)

  function UtcDay(ns: int): Day {
    Day(ns / DAY_NS)
  }

  function Midnight(d: Day): int {
    d.n * DAY_NS
  }

  /** The readable rows of the coverage table. */
  datatype CoverageRow = Mv(startedMs: int) | Backfill(day: Day, startedMs: int)

  /** Which index objects exist; the view with its recorded creation second. */
  datatype Tables = Tables(viewCreatedS: Option<int>, hasIndexTable: bool)

  datatype Reason = Absent | Stale | Usable
  datatype Capability = Capability(numberIndex: bool, coveredFromNs: Option<int>, reason: Reason)
  {
    predicate Covers(startNs: int) {
      numberIndex && coveredFromNs.Some? && startNs >= coveredFromNs.value
    }
  }

  type Filled = map<Day, int>

  function Max(a: int, b: int): int {
    if a >= b then a else b
  }

  // ----- what the two loops compute -----

  function MvSince(createdS: int, rows: seq<CoverageRow>): int {
    if rows == [] then createdS * NS
    else
      var r := rows[|rows| - 1];
      var m := MvSince(createdS, rows[..|rows| - 1]);
      if r.Mv? then Max(m, r.startedMs * MS_NS) else m
  }

  function FilledBy(rows: seq<CoverageRow>): Filled {
    if rows == [] then map[]
    else
      var r := rows[|rows| - 1];
      var f := FilledBy(rows[..|rows| - 1]);
      if r.Backfill? then f[r.day := Max(if r.day in f then f[r.day] else 0, r.startedMs * MS_NS)] else f
  }

  predicate DayCounts(filled: Filled, since: int, d: Day) {
    (if d in filled then filled[d] else -1) >= since
  }

  /** Days still to walk, a bound on the backward walk. */
  ghost function Upto(filled: Filled, d: Day): set<Day> {
    set k | k in filled && k.n <= d.n
  }

  /** The earliest instant the days at and before `d` carry coverage back to. */
  function WalkBack(filled: Filled, since: int, d: Day, covered: int): int
    requires since >= 0
    decreases Upto(filled, d)
  {
    if DayCounts(filled, since, d) then
      assert d in Upto(filled, d) && d !in Upto(filled, Day(d.n - 1));
      WalkBack(filled, since, Day(d.n - 1), Midnight(d))
    else covered
  }

  function CoveredFrom(createdS: int, rows: seq<CoverageRow>): int
    requires createdS >= 0
  {
    SinceIsLatest(createdS, rows);
    var since := MvSince(createdS, rows);
    WalkBack(FilledBy(rows), since, UtcDay(since), since)
  }

  function RetentionFloor(nowNs: int): int {
    Midnight(Day(UtcDay(nowNs).n - INDEX_RETENTION_DAYS))
  }

  function CapabilityOf(tables: Tables, rows: seq<CoverageRow>, nowNs: int, stale: bool): Capability
    requires tables.viewCreatedS.Some? ==> tables.viewCreatedS.value >= 0
  {
    if tables.viewCreatedS.None? || !tables.hasIndexTable then Capability(false, None, Absent)
    else if stale then Capability(false, None, Stale)
    else Capability(true, Some(Max(CoveredFrom(tables.viewCreatedS.value, rows), RetentionFloor(nowNs))), Usable)
  }

  method ComputeCapability(tables: Tables, rows: seq<CoverageRow>, nowNs: int, stale: bool) returns (cap: Capability)
    requires tables.viewCreatedS.Some? ==> tables.viewCreatedS.value >= 0
    ensures cap == CapabilityOf(tables, rows, nowNs, stale)
  {
    if tables.viewCreatedS.None? || !tables.hasIndexTable {
      return Capability(false, None, Absent);
    }
    if stale {
      return Capability(false, None, Stale);
    }
    var created := tables.viewCreatedS.value;
    var since := created * NS;
    var filled: Filled := map[];
    for i := 0 to |rows|
      invariant since == MvSince(created, rows[..i])
      invariant filled == FilledBy(rows[..i])
    {
      var r := rows[i];
      assert rows[..i + 1][..i] == rows[..i];
      match r {
        case Mv(ms) => since := Max(since, ms * MS_NS);
        case Backfill(day, ms) =>
          filled := filled[day := Max(if day in filled then filled[day] else 0, ms * MS_NS)];
      }
    }
    assert rows[..|rows|] == rows;
    SinceIsLatest(created, rows);
    var covered, d := since, UtcDay(since);
    while DayCounts(filled, since, d)
      invariant WalkBack(filled, since, d, covered) == WalkBack(filled, since, UtcDay(since), since)
      decreases Upto(filled, d)
    {
      assert d in Upto(filled, d) && d !in Upto(filled, Day(d.n - 1));
      covered, d := Midnight(d), Day(d.n - 1);
    }
    return Capability(true, Some(Max(covered, RetentionFloor(nowNs))), Usable);
  }

  // ----- what the computed values are -----

  /** The view counts from the latest of its creation second and the starts its own rows
      record, in nanoseconds. */
  lemma {:induction false} SinceIsLatest(createdS: int, rows: seq<CoverageRow>)
    ensures MvSince(createdS, rows) >= createdS * 1_000_000_000
    ensures forall i | 0 <= i < |rows| && rows[i].Mv? :: rows[i].startedMs * 1_000_000 <= MvSince(createdS, rows)
    ensures MvSince(createdS, rows) == createdS * 1_000_000_000
            || exists i :: 0 <= i < |rows| && rows[i].Mv? && rows[i].startedMs * 1_000_000 == MvSince(createdS, rows)
  {
    if rows != [] {
      var init := rows[..|rows| - 1];
      SinceIsLatest(createdS, init);
      assert forall i | 0 <= i < |init| :: init[i] == rows[i];
    }
  }

  /** A day counts from `since >= 0` exactly when one of its runs started by then or later. */
  lemma {:induction false} DayCountsByARun(rows: seq<CoverageRow>, since: int, d: Day)
    requires forall i | 0 <= i < |rows| :: rows[i].startedMs >= 0
    requires since >= 0
    ensures DayCounts(FilledBy(rows), since, d)
            <==> exists i :: 0 <= i < |rows| && rows[i].Backfill? && rows[i].day == d && rows[i].startedMs * MS_NS >= since
    ensures d in FilledBy(rows) ==> FilledBy(rows)[d] >= 0
    ensures (exists i :: 0 <= i < |rows| && rows[i].Backfill? && rows[i].day == d) ==> d in FilledBy(rows)
  {
    if rows != [] {
      var n := |rows| - 1;
      var r := rows[n];
      DayCountsByARun(rows[..n], since, d);
      if exists i :: 0 <= i < n && rows[i].Backfill? && rows[i].day == d && rows[i].startedMs * MS_NS >= since {
        var i :| 0 <= i < n && rows[i].Backfill? && rows[i].day == d && rows[i].startedMs * MS_NS >= since;
        assert rows[..n][i] == rows[i];
      }
    }
  }

  /** The walk stops at the first day that does not count, and only there. */
  lemma {:induction false} WalkIsMaximal(filled: Filled, since: int, d: Day, covered: int) returns (first: Day)
    requires since >= 0
    ensures first.n <= d.n + 1
    ensures forall k: Day | first.n <= k.n <= d.n :: DayCounts(filled, since, k)
    ensures !DayCounts(filled, since, Day(first.n - 1))
    ensures WalkBack(filled, since, d, covered) == if first.n <= d.n then Midnight(first) else covered
    decreases Upto(filled, d)
  {
    if DayCounts(filled, since, d) {
      assert d in Upto(filled, d) && d !in Upto(filled, Day(d.n - 1));
      first := WalkIsMaximal(filled, since, Day(d.n - 1), Midnight(d));
      forall k: Day | first.n <= k.n <= d.n ensures DayCounts(filled, since, k) {
        assert k.n == d.n ==> k == d;
      }
      assert first.n == d.n ==> first == d;
    } else {
      first := Day(d.n + 1);
      assert Day(first.n - 1) == d;
    }
  }

  // ----- what "complete" means -----

  /** One stored SIP row: its own time, and when it reached the store. */
  datatype Sample = Sample(ts: int, inserted: int)

  /** The view indexes what is inserted once it runs; a backfill of a day reads
      what was inserted before it started. */
  ghost predicate Indexed(s: Sample, viewBegan: int, rows: seq<CoverageRow>) {
    || s.inserted >= viewBegan
    || exists i :: 0 <= i < |rows| && rows[i].Backfill? && rows[i].day == UtcDay(s.ts) && s.inserted < rows[i].startedMs * MS_NS
  }

  /** Whatever rows there are from `start` on, the index holds them. */
  ghost predicate CompleteFrom(start: int, viewBegan: int, rows: seq<CoverageRow>) {
    forall s: Sample | s.ts >= start && s.inserted >= s.ts :: Indexed(s, viewBegan, rows)
  }

  lemma DayOf(ns: int)
    ensures Midnight(UtcDay(ns)) <= ns < Midnight(UtcDay(ns)) + DAY_NS
  {
  }

  lemma DayIs(ns: int, n: int)
    requires n * DAY_NS <= ns < n * DAY_NS + DAY_NS
    ensures UtcDay(ns) == Day(n)
  {
  }

  lemma DayOrder(a: int, b: int)
    requires a <= b
    ensures UtcDay(a).n <= UtcDay(b).n
  {
    DayOf(a);
    DayOf(b);
  }

  lemma CoveredIsComplete(createdS: int, rows: seq<CoverageRow>, viewBegan: int, start: int)
    requires createdS >= 0 && forall i | 0 <= i < |rows| :: rows[i].startedMs >= 0
    requires viewBegan <= MvSince(createdS, rows)
    requires start >= CoveredFrom(createdS, rows)
    ensures CompleteFrom(start, viewBegan, rows)
  {
    SinceIsLatest(createdS, rows);
    var since := MvSince(createdS, rows);
    var first := WalkIsMaximal(FilledBy(rows), since, UtcDay(since), since);
    forall s: Sample | s.ts >= start && s.inserted >= s.ts ensures Indexed(s, viewBegan, rows) {
      if s.inserted < since {
        var d := UtcDay(s.ts);
        DayOf(s.ts);
        DayOrder(s.ts, since);
        assert first.n <= UtcDay(since).n && Midnight(first) <= s.ts;
        assert first.n <= d.n;
        DayCountsByARun(rows, since, d);
      }
    }
  }

  /** If the index claims a start, no row from there on is missing from it,
      provided the view ran by the moment the records say it did. */
  lemma CoversMeansComplete(tables: Tables, rows: seq<CoverageRow>, nowNs: int, stale: bool, viewBegan: int, start: int)
    requires tables.viewCreatedS.Some? ==> tables.viewCreatedS.value >= 0
    requires forall i | 0 <= i < |rows| :: rows[i].startedMs >= 0
    requires tables.viewCreatedS.Some? ==> viewBegan <= MvSince(tables.viewCreatedS.value, rows)
    requires CapabilityOf(tables, rows, nowNs, stale).Covers(start)
    ensures CompleteFrom(start, viewBegan, rows) && start >= RetentionFloor(nowNs) && !stale
  {
    CoveredIsComplete(tables.viewCreatedS.value, rows, viewBegan, start);
  }

  /** The one case in which the walk stops short: the view began exactly at a
      midnight, that day is not backfilled, and the day before it is. */
  ghost predicate StopsShort(createdS: int, rows: seq<CoverageRow>)
  {
    var since := MvSince(createdS, rows);
    && Midnight(UtcDay(since)) == since
    && !DayCounts(FilledBy(rows), since, UtcDay(since))
    && DayCounts(FilledBy(rows), since, Day(UtcDay(since).n - 1))
  }

  lemma BeforeTheWalk(filled: Filled, since: int)
    requires since >= 0
    ensures var claim, today := WalkBack(filled, since, UtcDay(since), since), UtcDay(since);
            && claim <= since
            && (DayCounts(filled, since, UtcDay(claim - 1)) ==>
                  Midnight(today) == since && !DayCounts(filled, since, today) && UtcDay(claim - 1) == Day(today.n - 1))
  {
    var today := UtcDay(since);
    var first := WalkIsMaximal(filled, since, today, since);
    DayOf(since);
    if first.n <= today.n {
      assert first.n * DAY_NS <= today.n * DAY_NS;
      DayIs(first.n * DAY_NS - 1, first.n - 1);
    } else if Midnight(today) == since {
      DayIs(since - 1, today.n - 1);
    } else {
      DayIs(since - 1, today.n);
    }
  }

  lemma TheDayBeforeDoesNotCount(createdS: int, rows: seq<CoverageRow>)
    requires createdS >= 0 && !StopsShort(createdS, rows)
    ensures var since := MvSince(createdS, rows);
            && CoveredFrom(createdS, rows) <= since
            && !DayCounts(FilledBy(rows), since, UtcDay(CoveredFrom(createdS, rows) - 1))
  {
    SinceIsLatest(createdS, rows);
    BeforeTheWalk(FilledBy(rows), MvSince(createdS, rows));
  }

  lemma NotCountingIsNotRead(rows: seq<CoverageRow>, since: int, s: Sample)
    requires since >= 0 && forall i | 0 <= i < |rows| :: rows[i].startedMs >= 0
    requires s.inserted == since - 1 && !DayCounts(FilledBy(rows), since, UtcDay(s.ts))
    ensures !Indexed(s, since, rows)
  {
    DayCountsByARun(rows, since, UtcDay(s.ts));
  }

  /** A row just before the claim that neither the view nor a backfill saw. */
  lemma EarlierIsNotComplete(createdS: int, rows: seq<CoverageRow>, start: int)
    requires createdS >= 0 && forall i | 0 <= i < |rows| :: rows[i].startedMs >= 0
    requires !StopsShort(createdS, rows)
    requires start < CoveredFrom(createdS, rows)
    ensures !CompleteFrom(start, MvSince(createdS, rows), rows)
  {
    SinceIsLatest(createdS, rows);
    var since := MvSince(createdS, rows);
    TheDayBeforeDoesNotCount(createdS, rows);
    var s := Sample(CoveredFrom(createdS, rows) - 1, since - 1);
    NotCountingIsNotRead(rows, since, s);
  }

  lemma StoppingShortIsStillComplete(createdS: int, rows: seq<CoverageRow>)
    requires createdS >= 0 && forall i | 0 <= i < |rows| :: rows[i].startedMs >= 0
    requires StopsShort(createdS, rows)
    ensures CompleteFrom(CoveredFrom(createdS, rows) - 1, MvSince(createdS, rows), rows)
  {
    SinceIsLatest(createdS, rows);
    var since := MvSince(createdS, rows);
    forall s: Sample | s.ts >= since - 1 && s.inserted >= s.ts ensures Indexed(s, since, rows) {
      if s.inserted < since {
        assert s.ts == since - 1;
        DayOf(s.ts);
        assert UtcDay(s.ts) == Day(UtcDay(since).n - 1);
        DayCountsByARun(rows, since, UtcDay(s.ts));
      }
    }
  }

  ghost predicate ExactClaim(createdS: int, rows: seq<CoverageRow>)
    requires createdS >= 0
  {
    forall start :: start >= CoveredFrom(createdS, rows) <==> CompleteFrom(start, MvSince(createdS, rows), rows)
  }

  /** The claim is exactly the earliest complete start, for every coverage
      table, if and only if the view's start did not fall in the one case above. */
  lemma ClaimIsExact(createdS: int, rows: seq<CoverageRow>)
    requires createdS >= 0 && forall i | 0 <= i < |rows| :: rows[i].startedMs >= 0
    ensures ExactClaim(createdS, rows) <==> !StopsShort(createdS, rows)
  {
    forall start | start >= CoveredFrom(createdS, rows) ensures CompleteFrom(start, MvSince(createdS, rows), rows) {
      CoveredIsComplete(createdS, rows, MvSince(createdS, rows), start);
    }
    if StopsShort(createdS, rows) {
      StoppingShortIsStillComplete(createdS, rows);
    } else {
      forall start | start < CoveredFrom(createdS, rows) ensures !CompleteFrom(start, MvSince(createdS, rows), rows) {
        EarlierIsNotComplete(createdS, rows, start);
      }
    }
  }

  // ----- the capability -----

  /** The index is offered if and only if its view and its table exist and it is not
      stale, and the reason says which of these fails. */
  lemma CapabilityIff(tables: Tables, rows: seq<CoverageRow>, nowNs: int, stale: bool)
    requires tables.viewCreatedS.Some? ==> tables.viewCreatedS.value >= 0
    ensures var cap := CapabilityOf(tables, rows, nowNs, stale);
            && (cap.numberIndex <==> tables.viewCreatedS.Some? && tables.hasIndexTable && !stale)
            && (cap.reason == Absent <==> !(tables.viewCreatedS.Some? && tables.hasIndexTable))
            && (cap.reason == Stale <==> tables.viewCreatedS.Some? && tables.hasIndexTable && stale)
            && (cap.coveredFromNs.Some? <==> cap.numberIndex)
  {
  }

  lemma ShortClaimIsTheBeginning(createdS: int, rows: seq<CoverageRow>)
    requires createdS >= 0 && StopsShort(createdS, rows)
    ensures CoveredFrom(createdS, rows) == MvSince(createdS, rows)
  {
    SinceIsLatest(createdS, rows);
  }

  /** An offered index covers a start if and only if that is no earlier than the midnight
      seven UTC days before today's, and the index is complete from there on; in the
      midnight case, if and only if the view had begun by then. */
  lemma CoversIff(tables: Tables, rows: seq<CoverageRow>, nowNs: int, stale: bool, start: int)
    requires tables.viewCreatedS.Some? && tables.viewCreatedS.value >= 0 && tables.hasIndexTable && !stale
    requires forall i | 0 <= i < |rows| :: rows[i].startedMs >= 0
    ensures var since := MvSince(tables.viewCreatedS.value, rows);
            var kept := start >= (nowNs / (86_400 * 1_000_000_000) - 7) * (86_400 * 1_000_000_000);
            CapabilityOf(tables, rows, nowNs, stale).Covers(start)
            <==> kept && if StopsShort(tables.viewCreatedS.value, rows) then start >= since else CompleteFrom(start, since, rows)
  {
    var created := tables.viewCreatedS.value;
    SinceIsLatest(created, rows);
    if StopsShort(created, rows) {
      ShortClaimIsTheBeginning(created, rows);
    } else if start >= CoveredFrom(created, rows) {
      CoveredIsComplete(created, rows, MvSince(created, rows), start);
    } else {
      EarlierIsNotComplete(created, rows, start);
    }
  }

  /** Every day from `start` up to the view's beginning has a backfill that started
      after the view ran. */
  ghost predicate BackfilledUpTo(start: int, viewBegan: int, rows: seq<CoverageRow>) {
    forall d: Day | UtcDay(start).n <= d.n <= UtcDay(viewBegan - 1).n :: DayCounts(FilledBy(rows), viewBegan, d)
  }

  lemma CompleteNeedsTheDay(start: int, viewBegan: int, rows: seq<CoverageRow>, d: Day)
    requires viewBegan >= 0 && forall i | 0 <= i < |rows| :: rows[i].startedMs >= 0
    requires CompleteFrom(start, viewBegan, rows) && start < viewBegan
    requires UtcDay(start).n <= d.n <= UtcDay(viewBegan - 1).n
    ensures DayCounts(FilledBy(rows), viewBegan, d)
  {
    var s := Sample(Max(start, Midnight(d)), viewBegan - 1);
    DayOf(start);
    DayOf(viewBegan - 1);
    assert d.n * DAY_NS <= UtcDay(viewBegan - 1).n * DAY_NS;
    assert (UtcDay(start).n + 1) * DAY_NS <= (d.n + 1) * DAY_NS;
    DayIs(s.ts, d.n);
    assert Indexed(s, viewBegan, rows);
    DayCountsByARun(rows, viewBegan, d);
  }

  /** The index is complete from `start` on exactly when the view ran by then, or every
      day in between was backfilled by a run that started after the view did. */
  lemma CompleteFromIff(start: int, viewBegan: int, rows: seq<CoverageRow>)
    requires viewBegan >= 0 && forall i | 0 <= i < |rows| :: rows[i].startedMs >= 0
    ensures CompleteFrom(start, viewBegan, rows) <==> viewBegan <= start || BackfilledUpTo(start, viewBegan, rows)
  {
    if CompleteFrom(start, viewBegan, rows) && start < viewBegan {
      forall d: Day | UtcDay(start).n <= d.n <= UtcDay(viewBegan - 1).n
        ensures DayCounts(FilledBy(rows), viewBegan, d)
      {
        CompleteNeedsTheDay(start, viewBegan, rows, d);
      }
    }
    if viewBegan <= start || BackfilledUpTo(start, viewBegan, rows) {
      forall s: Sample | s.ts >= start && s.inserted >= s.ts
        ensures Indexed(s, viewBegan, rows)
      {
        if s.inserted < viewBegan {
          DayOrder(start, s.ts);
          DayOrder(s.ts, viewBegan - 1);
          DayCountsByARun(rows, viewBegan, UtcDay(s.ts));
        }
      }
    }
  }

  /** Whenever the view really began, the claim holds if and only if that was by the
      claimed start, or every day from the claim to the beginning has a backfill that
      started after it. The recorded times alone do not say so: a modification time in
      whole seconds can lie before the beginning. */
  lemma ClaimHoldsIff(createdS: int, rows: seq<CoverageRow>, viewBegan: int)
    requires createdS >= 0 && viewBegan >= 0 && forall i | 0 <= i < |rows| :: rows[i].startedMs >= 0
    ensures var claim := CoveredFrom(createdS, rows);
            CompleteFrom(claim, viewBegan, rows) <==> viewBegan <= claim || BackfilledUpTo(claim, viewBegan, rows)
  {
    CompleteFromIff(CoveredFrom(createdS, rows), viewBegan, rows);
  }

  /** The last instant of the second recorded as the view's creation. */
  function EndOfSecond(createdS: int): (last: int)
    ensures last == createdS * 1_000_000_000 + 999_999_999
  {
    (createdS + 1) * NS - 1
  }

  /** From the tables alone: the claim holds wherever in its recorded second the view
      began, if and only if it starts no earlier than that second's end, or every day
      up to there was backfilled after it. */
  lemma ClaimHoldsForTheWholeSecondIff(createdS: int, rows: seq<CoverageRow>)
    requires createdS >= 0 && forall i | 0 <= i < |rows| :: rows[i].startedMs >= 0
    ensures var claim, last := CoveredFrom(createdS, rows), EndOfSecond(createdS);
            (forall began | createdS * NS <= began <= last :: CompleteFrom(claim, began, rows))
            <==> last <= claim || BackfilledUpTo(claim, last, rows)
  {
    var claim, last := CoveredFrom(createdS, rows), EndOfSecond(createdS);
    ClaimHoldsIff(createdS, rows, last);
    if CompleteFrom(claim, last, rows) {
      forall began | createdS * NS <= began <= last
        ensures CompleteFrom(claim, began, rows)
      {
        EarlierBeginningIndexesMore(claim, began, last, rows);
      }
    }
  }

  lemma EarlierBeginningIndexesMore(start: int, began: int, later: int, rows: seq<CoverageRow>)
    requires began <= later && CompleteFrom(start, later, rows)
    ensures CompleteFrom(start, began, rows)
  {
    forall s: Sample | s.ts >= start && s.inserted >= s.ts
      ensures Indexed(s, began, rows)
    {
      assert Indexed(s, later, rows);
    }
  }

  /** The creation time is kept in whole seconds: without the view's own row, a
      view created within second 10 is claimed complete from the start of that
      second, before it indexed anything. */
  lemma WholeSecondsClaimTooMuch()
    ensures CoveredFrom(10, []) == 10 * NS
    ensures !CompleteFrom(CoveredFrom(10, []), 10 * NS + 700_000_000, [])
    ensures CompleteFrom(CoveredFrom(10, [Mv(10_700)]), 10 * NS + 700_000_000, [Mv(10_700)])
  {
    assert !Indexed(Sample(10 * NS, 10 * NS), 10 * NS + 700_000_000, []);
    var rows := [Mv(10_700)];
    assert rows[..0] == [];
    assert MvSince(10, []) == 10 * NS;
    CoveredIsComplete(10, rows, 10 * NS + 700_000_000, CoveredFrom(10, rows));
  }
}
