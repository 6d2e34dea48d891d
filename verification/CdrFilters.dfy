/** The WHERE clause of a CDR query: what is emitted for a set of filters, with
    which numbered binds, and which rows the database then accepts. */
module CdrFilters {
  import opened Wrappers
  import opened Lists

  /** The columns the filters look at; None is NULL. `customerNumber` is the
      canonical customer-side number the SQL computes from a row. */
  datatype Row = Row(
    startTime: Option<int>, callId: Option<string>, uuid: Option<string>, customerId: Option<int>, trunkId: Option<int>,
    productType: Option<string>, direction: Option<string>, destination: Option<string>,
    customerNumber: Option<string>, sbcId: Option<string>, ratedAt: Option<int>, leg: Option<string>)

  datatype Value = Time(t: int) | Number(n: int) | Text(s: string)

  /** The fixed fragments of text. */
  datatype Test =
    | StartBetween
    | CallIdOrUuid
    | CustomerIs
    | TrunkIs
    | ProductIs
    | DirectionIs
    | DestinationLike
    | CustomerNumberIs
    | SbcIs
    | SbcLike
    | RatedAtNotNull
    | LegDistinctFromB
    | LegIsB

  function Arity(t: Test): nat {
    match t
    case StartBetween => 2
    case RatedAtNotNull => 0
    case LegDistinctFromB => 0
    case LegIsB => 0
    case _ => 1
  }

  /** A fragment with the placeholder numbers written into it. */
  datatype Clause = Clause(test: Test, places: seq<nat>)

  datatype Query = Query(clauses: seq<Clause>, values: seq<Value>)

  // ----- LIKE -----

  function ReplaceChar(s: string, c: char, sub: string): string {
    if s == "" then "" else (if s[0] == c then sub else [s[0]]) + ReplaceChar(s[1..], c, sub)
  }

  function EscapeLike(s: string): string {
    ReplaceChar(ReplaceChar(ReplaceChar(s, '\\', "\\\\"), '%', "\\%"), '_', "\\_")
  }

  /** PostgreSQL's LIKE with its default escape character. */
  predicate Like(pattern: string, s: string)
    decreases |pattern|, |s|
  {
    if pattern == "" then s == ""
    else if pattern[0] == '\\' then |pattern| >= 2 && s != "" && s[0] == pattern[1] && Like(pattern[2..], s[1..])
    else if pattern[0] == '%' then Like(pattern[1..], s) || (s != "" && Like(pattern, s[1..]))
    else if pattern[0] == '_' then s != "" && Like(pattern[1..], s[1..])
    else s != "" && s[0] == pattern[0] && Like(pattern[1..], s[1..])
  }

  predicate IsMeta(c: char) {
    c == '\\' || c == '%' || c == '_'
  }

  function EscapeOne(c: char): string {
    if IsMeta(c) then ['\\', c] else [c]
  }

  lemma {:induction false} ReplaceJoins(a: string, b: string, c: char, sub: string)
    ensures ReplaceChar(a + b, c, sub) == ReplaceChar(a, c, sub) + ReplaceChar(b, c, sub)
  {
    if a == "" {
      assert a + b == b;
    } else {
      assert (a + b)[1..] == a[1..] + b;
      ReplaceJoins(a[1..], b, c, sub);
    }
  }

  lemma ReplaceOne(x: char, c: char, sub: string)
    ensures ReplaceChar([x], c, sub) == if x == c then sub else [x]
  {
    assert [x][1..] == "";
  }

  lemma ReplaceTwo(x: char, y: char, c: char, sub: string)
    requires x != c && y != c
    ensures ReplaceChar([x, y], c, sub) == [x, y]
  {
    assert [x, y] == [x] + [y];
    ReplaceJoins([x], [y], c, sub);
    ReplaceOne(x, c, sub);
    ReplaceOne(y, c, sub);
  }

  lemma EscapeLikeOne(x: char)
    ensures EscapeLike([x]) == EscapeOne(x)
  {
    ReplaceOne(x, '\\', "\\\\");
    ReplaceOne(x, '%', "\\%");
    ReplaceOne(x, '_', "\\_");
    ReplaceTwo('\\', '\\', '%', "\\%");
    ReplaceTwo('\\', '\\', '_', "\\_");
    ReplaceTwo('\\', '%', '_', "\\_");
  }

  /** The three replacements in sequence escape each character on its own. */
  lemma EscapeLikeHead(s: string)
    requires s != ""
    ensures EscapeLike(s) == EscapeOne(s[0]) + EscapeLike(s[1..])
  {
    var a, b := [s[0]], s[1..];
    assert s == a + b;
    EscapeLikeOne(s[0]);
    ReplaceJoins(a, b, '\\', "\\\\");
    var a1, b1 := ReplaceChar(a, '\\', "\\\\"), ReplaceChar(b, '\\', "\\\\");
    ReplaceJoins(a1, b1, '%', "\\%");
    ReplaceJoins(ReplaceChar(a1, '%', "\\%"), ReplaceChar(b1, '%', "\\%"), '_', "\\_");
  }

  lemma {:induction false} LikeAnything(s: string)
    ensures Like("%", s)
  {
    assert "%"[1..] == "";
    if s != "" {
      LikeAnything(s[1..]);
    }
  }

  /** With the escaped text and a final wildcard, LIKE is a literal prefix match. */
  lemma {:induction false} EscapedLikeIsPrefix(d: string, s: string)
    ensures Like(EscapeLike(d) + "%", s) <==> d <= s
    decreases |d|
  {
    if d == "" {
      assert EscapeLike(d) + "%" == "%";
      LikeAnything(s);
    } else {
      EscapeLikeHead(d);
      var more := EscapeLike(d[1..]) + "%";
      assert EscapeLike(d) + "%" == EscapeOne(d[0]) + more;
      assert (EscapeOne(d[0]) + more)[|EscapeOne(d[0])|..] == more;
      if s != "" {
        EscapedLikeIsPrefix(d[1..], s[1..]);
        assert d <= s <==> d[0] == s[0] && d[1..] <= s[1..];
      }
    }
  }

  /** Text without metacharacters needs no escaping. */
  lemma {:induction false} PlainNeedsNoEscape(d: string)
    requires forall c | c in d :: !IsMeta(c)
    ensures EscapeLike(d) == d
  {
    if d != "" {
      EscapeLikeHead(d);
      PlainNeedsNoEscape(d[1..]);
    }
  }

  // ----- how the database evaluates -----

  /** SQL's three truth values. */
  datatype Truth = True | False | Unknown

  function And(a: Truth, b: Truth): Truth {
    if a == False || b == False then False else if a == Unknown || b == Unknown then Unknown else True
  }

  function Or(a: Truth, b: Truth): Truth {
    if a == True || b == True then True else if a == Unknown || b == Unknown then Unknown else False
  }

  function Tell(b: bool): Truth {
    if b then True else False
  }

  function TextEq(column: Option<string>, v: Value): Truth {
    if column.None? || !v.Text? then Unknown else Tell(column.value == v.s)
  }

  function NumberEq(column: Option<int>, v: Value): Truth {
    if column.None? || !v.Number? then Unknown else Tell(column.value == v.n)
  }

  function TextLike(column: Option<string>, v: Value): Truth {
    if column.None? || !v.Text? then Unknown else Tell(Like(v.s, column.value))
  }

  function Between(column: Option<int>, lo: Value, hi: Value): Truth {
    if column.None? || !lo.Time? || !hi.Time? then Unknown else And(Tell(column.value >= lo.t), Tell(column.value <= hi.t))
  }

  /** Placeholders count from 1; `lo` and `hi` are the values the first and the
      last placeholder of a fragment stand for. */
  function Apply(t: Test, lo: Value, hi: Value, r: Row): Truth {
    match t
    case StartBetween => Between(r.startTime, lo, hi)
    case CallIdOrUuid => Or(TextEq(r.callId, lo), TextEq(r.uuid, lo))
    case CustomerIs => NumberEq(r.customerId, lo)
    case TrunkIs => NumberEq(r.trunkId, lo)
    case ProductIs => TextEq(r.productType, lo)
    case DirectionIs => TextEq(r.direction, lo)
    case DestinationLike => TextLike(r.destination, lo)
    case CustomerNumberIs => TextEq(r.customerNumber, lo)
    case SbcIs => TextEq(r.sbcId, lo)
    case SbcLike => TextLike(r.sbcId, lo)
    case RatedAtNotNull => Tell(r.ratedAt.Some?)
    case LegDistinctFromB => Tell(r.leg != Some("B"))
    case LegIsB => if r.leg.None? then Unknown else Tell(r.leg.value == "B")
  }

  /** The fixed fragments have no placeholder and look at no value. */
  const NO_VALUE := Number(0)

  predicate Bound(c: Clause, values: seq<Value>) {
    |c.places| == Arity(c.test) && forall i | 0 <= i < |c.places| :: 1 <= c.places[i] <= |values|
  }

  function Evaluate(c: Clause, values: seq<Value>, r: Row): Truth
    requires Bound(c, values)
  {
    if c.places == [] then Apply(c.test, NO_VALUE, NO_VALUE, r)
    else Apply(c.test, values[c.places[0] - 1], values[c.places[|c.places| - 1] - 1], r)
  }

  predicate AllBound(cs: seq<Clause>, values: seq<Value>) {
    forall i | 0 <= i < |cs| :: Bound(cs[i], values)
  }

  function EvaluateAll(cs: seq<Clause>, values: seq<Value>, r: Row): Truth
    requires AllBound(cs, values)
  {
    if cs == [] then True else And(EvaluateAll(cs[..|cs| - 1], values, r), Evaluate(cs[|cs| - 1], values, r))
  }

  /** Every placeholder has its bind. */
  predicate Sound(q: Query) {
    AllBound(q.clauses, q.values)
  }

  /** WHERE keeps a row only when its condition is true. */
  predicate Selects(q: Query, r: Row) {
    Sound(q) && EvaluateAll(q.clauses, q.values, r) == True
  }

  // ----- what is emitted -----

  /** One filter that is present: a fragment and the values it is about. */
  datatype Filter = Filter(test: Test, binds: seq<Value>)

  predicate Good(p: Filter) {
    |p.binds| == Arity(p.test)
  }

  /** The filter read on its own. */
  predicate Means(p: Filter, r: Row)
    requires Good(p)
  {
    (if p.binds == [] then Apply(p.test, NO_VALUE, NO_VALUE, r)
     else Apply(p.test, p.binds[0], p.binds[|p.binds| - 1], r)) == True
  }

  /** The `k` placeholders after number `n`. */
  function Next(n: nat, k: nat): (places: seq<nat>)
    ensures |places| == k && forall i | 0 <= i < k :: places[i] == n + i + 1
  {
    if k == 0 then [] else Next(n, k - 1) + [n + k]
  }

  function Append(q: Query, p: Filter): Query {
    Query(q.clauses + [Clause(p.test, Next(|q.values|, |p.binds|))], q.values + p.binds)
  }

  /** The text and binds for a list of filters, the absent ones left out. */
  function Emit(os: seq<Option<Filter>>): Query {
    if os == [] then Query([], [])
    else if os[|os| - 1].None? then Emit(os[..|os| - 1])
    else Append(Emit(os[..|os| - 1]), os[|os| - 1].value)
  }

  function AllPlaceholders(cs: seq<Clause>): seq<nat> {
    if cs == [] then [] else AllPlaceholders(cs[..|cs| - 1]) + cs[|cs| - 1].places
  }

  /** Binds appended later change no earlier fragment. */
  lemma {:induction false} LaterBindsChangeNothing(cs: seq<Clause>, values: seq<Value>, more: seq<Value>, r: Row)
    requires AllBound(cs, values)
    ensures AllBound(cs, values + more)
    ensures EvaluateAll(cs, values + more, r) == EvaluateAll(cs, values, r)
  {
    if cs != [] {
      LaterBindsChangeNothing(cs[..|cs| - 1], values, more, r);
    }
  }

  lemma AppendNarrows(q: Query, p: Filter, r: Row)
    requires Good(p) && Sound(q)
    ensures Sound(Append(q, p)) && (Selects(Append(q, p), r) <==> Selects(q, r) && Means(p, r))
  {
    LaterBindsChangeNothing(q.clauses, q.values, p.binds, r);
    assert Append(q, p).clauses[..|q.clauses|] == q.clauses;
  }

  predicate Holds(o: Option<Filter>, r: Row)
    requires o.Some? ==> Good(o.value)
  {
    o.Some? ==> Means(o.value, r)
  }

  predicate AllGood(os: seq<Option<Filter>>) {
    forall i | 0 <= i < |os| :: os[i].Some? ==> Good(os[i].value)
  }

  predicate AllHold(os: seq<Option<Filter>>, r: Row)
    requires AllGood(os)
  {
    forall i | 0 <= i < |os| :: Holds(os[i], r)
  }

  lemma AllHoldByLast(os: seq<Option<Filter>>, r: Row)
    requires os != [] && AllGood(os)
    ensures AllGood(os[..|os| - 1])
    ensures AllHold(os, r) <==> AllHold(os[..|os| - 1], r) && Holds(os[|os| - 1], r)
  {
    var init := os[..|os| - 1];
    assert forall i | 0 <= i < |init| :: init[i] == os[i];
    assert AllHold(os, r) ==> forall i | 0 <= i < |init| :: Holds(os[i], r);
  }

  /** The emitted text with its binds accepts the rows every filter means. */
  lemma {:induction false} EmittedMeansTheConjunction(os: seq<Option<Filter>>, r: Row)
    requires AllGood(os)
    ensures Sound(Emit(os)) && (Selects(Emit(os), r) <==> AllHold(os, r))
  {
    if os != [] {
      AllHoldByLast(os, r);
      EmittedMeansTheConjunction(os[..|os| - 1], r);
      if os[|os| - 1].Some? {
        AppendNarrows(Emit(os[..|os| - 1]), os[|os| - 1].value, r);
      }
    }
  }

  lemma {:induction false} NextJoins(n: nat, k: nat, l: nat)
    ensures Next(n, k) + Next(n + k, l) == Next(n, k + l)
  {
    if l > 0 {
      NextJoins(n, k, l - 1);
      assert Next(n, k) + (Next(n + k, l - 1) + [n + k + l]) == (Next(n, k) + Next(n + k, l - 1)) + [n + k + l];
    }
  }

  lemma OneMoreClause(cs: seq<Clause>, c: Clause)
    ensures AllPlaceholders(cs + [c]) == AllPlaceholders(cs) + c.places
  {
    assert (cs + [c])[..|cs|] == cs;
  }

  lemma AppendCounts(q: Query, p: Filter)
    requires AllPlaceholders(q.clauses) == Next(0, |q.values|)
    ensures AllPlaceholders(Append(q, p).clauses) == Next(0, |Append(q, p).values|)
  {
    OneMoreClause(q.clauses, Clause(p.test, Next(|q.values|, |p.binds|)));
    NextJoins(0, |q.values|, |p.binds|);
  }

  /** Every bind is referred to once, in order, counting from 1. */
  lemma {:induction false} PlaceholdersAreThePositions(os: seq<Option<Filter>>)
    ensures AllPlaceholders(Emit(os).clauses) == Next(0, |Emit(os).values|)
  {
    if os != [] {
      PlaceholdersAreThePositions(os[..|os| - 1]);
      if os[|os| - 1].Some? {
        AppendCounts(Emit(os[..|os| - 1]), os[|os| - 1].value);
      }
    }
  }

  // ----- the builder -----

  datatype Filters = Filters(
    startDate: int, endDate: int, customerId: Option<int>, trunkId: Option<int>, productType: Option<string>,
    direction: Option<string>, destination: Option<string>, sbcId: Option<string>, zone: Option<string>,
    ratedOnly: bool, leg: string, callId: Option<string>, number: Option<string>)

  predicate GoodFilters(f: Filters) {
    Given(f.zone) ==> f.zone.value in {"east", "west", "central"}
  }

  /** Present and not empty. */
  predicate Given(s: Option<string>) {
    s.Some? && s.value != ""
  }

  predicate IsSpace(c: char) {
    c == ' ' || '\t' <= c <= '\r' || '\U{1c}' <= c <= '\U{1f}'
  }

  function TrimLeft(s: string): string {
    if s != "" && IsSpace(s[0]) then TrimLeft(s[1..]) else s
  }

  function Trim(s: string): string {
    TrimRight(TrimLeft(s))
  }

  function TrimRight(s: string): string {
    if s != "" && IsSpace(s[|s| - 1]) then TrimRight(s[..|s| - 1]) else s
  }

  function Lower(s: string): string {
    if s == "" then "" else [if 'A' <= s[0] <= 'Z' then (s[0] as int + 32) as char else s[0]] + Lower(s[1..])
  }

  function ProductFilter(p: Option<string>): Option<string> {
    if p.None? || Trim(p.value) == "" || Lower(Trim(p.value)) == "all" then None else p
  }

  // ----- which product values mean no filter -----

  /** The ASCII white space that Python strips. */
  predicate AllSpace(s: string) {
    forall c | c in s :: c as int in {9, 10, 11, 12, 13, 28, 29, 30, 31, 32}
  }

  predicate SaysAll(s: string) {
    |s| == 3 && s[0] in {'a', 'A'} && s[1] in {'l', 'L'} && s[2] in {'l', 'L'}
  }

  /** Blank, or "all" in any case with white space around it. */
  ghost predicate MeansAnyProduct(s: string) {
    exists before: string, core: string, after: string ::
      s == before + core + after && AllSpace(before) && AllSpace(after) && (core == "" || SaysAll(core))
  }

  ghost predicate SpaceFree(s: string) {
    s == "" || (!IsSpace(s[0]) && !IsSpace(s[|s| - 1]))
  }

  lemma {:induction false} TrimsLeft(before: string, s: string)
    requires AllSpace(before) && (s == "" || !IsSpace(s[0]))
    ensures TrimLeft(before + s) == s
  {
    if before == "" {
      assert before + s == s;
    } else {
      assert before[0] in before && forall c | c in before[1..] :: c in before;
      TrimsLeft(before[1..], s);
      assert (before + s)[1..] == before[1..] + s;
    }
  }

  lemma {:induction false} TrimsRight(s: string, after: string)
    requires AllSpace(after) && (s == "" || !IsSpace(s[|s| - 1]))
    ensures TrimRight(s + after) == s
  {
    if after == "" {
      assert s + after == s;
    } else {
      var n := |after| - 1;
      assert after[n] in after && forall c | c in after[..n] :: c in after;
      TrimsRight(s, after[..n]);
      assert (s + after)[..|s + after| - 1] == s + after[..n];
    }
  }

  lemma TrimIs(before: string, core: string, after: string)
    requires AllSpace(before) && AllSpace(after) && SpaceFree(core)
    ensures Trim(before + core + after) == core
  {
    if core == "" {
      assert before + core + after == (before + after) + "";
      TrimsLeft(before + after, "");
    } else {
      assert before + core + after == before + (core + after);
      TrimsLeft(before, core + after);
      TrimsRight(core, after);
    }
  }

  lemma {:induction false} LeftSplits(s: string) returns (before: string)
    ensures s == before + TrimLeft(s) && AllSpace(before)
  {
    before := "";
    if s != "" && IsSpace(s[0]) {
      var b := LeftSplits(s[1..]);
      before := [s[0]] + b;
    }
  }

  lemma {:induction false} RightSplits(s: string) returns (after: string)
    ensures s == TrimRight(s) + after && AllSpace(after)
  {
    after := "";
    if s != "" && IsSpace(s[|s| - 1]) {
      var a := RightSplits(s[..|s| - 1]);
      after := a + [s[|s| - 1]];
    }
  }

  lemma LowerIsAll(s: string)
    ensures Lower(s) == "all" <==> SaysAll(s)
  {
    LowerKeepsLength(s);
    if |s| == 3 {
      assert s[1..][1..] == s[2..] && s[2..][1..] == "";
      assert Lower(s) == [Lower(s)[0], Lower(s[1..])[0], Lower(s[2..])[0]];
    }
  }

  lemma {:induction false} LowerKeepsLength(s: string)
    ensures |Lower(s)| == |s|
  {
    if s != "" {
      LowerKeepsLength(s[1..]);
    }
  }

  /** The product filter is applied, with the value as it came, unless that is absent,
      blank, or "all" in any case. */
  lemma ProductFilterMeans(p: Option<string>)
    ensures ProductFilter(p) == if p.None? || MeansAnyProduct(p.value) then None else p
  {
    if p.Some? {
      var s := p.value;
      var before := LeftSplits(s);
      var after := RightSplits(TrimLeft(s));
      assert s == before + Trim(s) + after;
      LowerIsAll(Trim(s));
      if before: string, core: string, after: string :|
        s == before + core + after && AllSpace(before) && AllSpace(after) && (core == "" || SaysAll(core)) {
        TrimIs(before, core, after);
      }
    }
  }

  const FILTERABLE: nat := 11

  /** The filters one by one, in the order the builder looks at them. A call id
      replaces the time window; an unknown leg view is one row per call. */
  function AskedAt(f: Filters, i: nat): Option<Filter> {
    if i == 0 then Some(if Given(f.callId) then Filter(CallIdOrUuid, [Text(f.callId.value)])
                        else Filter(StartBetween, [Time(f.startDate), Time(f.endDate)]))
    else if i == 1 then if f.customerId.Some? then Some(Filter(CustomerIs, [Number(f.customerId.value)])) else None
    else if i == 2 then if f.trunkId.Some? then Some(Filter(TrunkIs, [Number(f.trunkId.value)])) else None
    else if i == 3 then if ProductFilter(f.productType).Some? then Some(Filter(ProductIs, [Text(f.productType.value)])) else None
    else if i == 4 then if Given(f.direction) then Some(Filter(DirectionIs, [Text(f.direction.value)])) else None
    else if i == 5 then if Given(f.destination) then Some(Filter(DestinationLike, [Text(EscapeLike(f.destination.value) + "%")])) else None
    else if i == 6 then if Given(f.number) then Some(Filter(CustomerNumberIs, [Text(f.number.value)])) else None
    else if i == 7 then if Given(f.sbcId) then Some(Filter(SbcIs, [Text(f.sbcId.value)])) else None
    else if i == 8 then if Given(f.zone) then Some(Filter(SbcLike, [Text(f.zone.value + "-%")])) else None
    else if i == 9 then if f.ratedOnly then Some(Filter(RatedAtNotNull, [])) else None
    else if f.leg == "all" then None else if f.leg == "b" then Some(Filter(LegIsB, [])) else Some(Filter(LegDistinctFromB, []))
  }

  function Asked(f: Filters): (os: seq<Option<Filter>>)
    ensures |os| == FILTERABLE && forall i: nat | i < FILTERABLE :: os[i] == AskedAt(f, i)
  {
    seq(FILTERABLE, i requires 0 <= i => AskedAt(f, i))
  }

  function EmitAll(f: Filters): Query {
    Emit(Asked(f))
  }

  /** The text and binds are what the first `n` filters call for, and `idx` is the
      next placeholder. */
  ghost predicate UpTo(f: Filters, n: nat, sql: seq<Clause>, values: seq<Value>, idx: nat) {
    n <= FILTERABLE && Query(sql, values) == Emit(Asked(f)[..n]) && idx == |values| + 1
  }

  lemma EmitMore(os: seq<Option<Filter>>, n: nat)
    requires n < |os|
    ensures Emit(os[..n + 1]) == if os[n].None? then Emit(os[..n]) else Append(Emit(os[..n]), os[n].value)
  {
    assert os[..n + 1][..n] == os[..n];
  }

  lemma Skipped(f: Filters, n: nat, sql: seq<Clause>, values: seq<Value>, idx: nat)
    requires UpTo(f, n, sql, values, idx) && n < FILTERABLE && AskedAt(f, n).None?
    ensures UpTo(f, n + 1, sql, values, idx)
  {
    EmitMore(Asked(f), n);
  }

  lemma Bound1(f: Filters, n: nat, sql: seq<Clause>, values: seq<Value>, idx: nat, test: Test, value: Value)
    requires UpTo(f, n, sql, values, idx) && n < FILTERABLE && AskedAt(f, n) == Some(Filter(test, [value]))
    ensures UpTo(f, n + 1, sql + [Clause(test, [idx])], values + [value], idx + 1)
  {
    EmitMore(Asked(f), n);
    assert Next(|values|, 1) == [idx];
  }

  lemma Fixed(f: Filters, n: nat, sql: seq<Clause>, values: seq<Value>, idx: nat, test: Test)
    requires UpTo(f, n, sql, values, idx) && n < FILTERABLE && AskedAt(f, n) == Some(Filter(test, []))
    ensures UpTo(f, n + 1, sql + [Clause(test, [])], values, idx)
  {
    EmitMore(Asked(f), n);
    assert values + [] == values;
  }

  lemma EmitFirst(f: Filters)
    ensures Given(f.callId) ==> UpTo(f, 1, [Clause(CallIdOrUuid, [1])], [Text(f.callId.value)], 2)
    ensures !Given(f.callId) ==> UpTo(f, 1, [Clause(StartBetween, [1, 2])], [Time(f.startDate), Time(f.endDate)], 3)
  {
    EmitMore(Asked(f), 0);
    assert Emit(Asked(f)[..0]) == Query([], []);
    var p := AskedAt(f, 0).value;
    assert Emit(Asked(f)[..1]) == Append(Query([], []), p);
    assert Next(0, 1) == [1];
    assert Next(0, 2) == [1, 2];
  }

  /** Customer, trunk and product. */
  method AddParties(f: Filters, sql0: seq<Clause>, values0: seq<Value>, idx0: nat)
    returns (sql: seq<Clause>, values: seq<Value>, idx: nat)
    requires UpTo(f, 1, sql0, values0, idx0)
    ensures UpTo(f, 4, sql, values, idx)
  {
    sql, values, idx := sql0, values0, idx0;
    if f.customerId.Some? {
      Bound1(f, 1, sql, values, idx, CustomerIs, Number(f.customerId.value));
      sql := sql + [Clause(CustomerIs, [idx])];
      values := values + [Number(f.customerId.value)];
      idx := idx + 1;
    } else {
      Skipped(f, 1, sql, values, idx);
    }
    if f.trunkId.Some? {
      Bound1(f, 2, sql, values, idx, TrunkIs, Number(f.trunkId.value));
      sql := sql + [Clause(TrunkIs, [idx])];
      values := values + [Number(f.trunkId.value)];
      idx := idx + 1;
    } else {
      Skipped(f, 2, sql, values, idx);
    }
    var product := ProductFilter(f.productType);
    if product.Some? {
      Bound1(f, 3, sql, values, idx, ProductIs, Text(product.value));
      sql := sql + [Clause(ProductIs, [idx])];
      values := values + [Text(product.value)];
      idx := idx + 1;
    } else {
      Skipped(f, 3, sql, values, idx);
    }
  }

  /** Direction, dialled prefix and customer number. */
  method AddNumbers(f: Filters, sql0: seq<Clause>, values0: seq<Value>, idx0: nat)
    returns (sql: seq<Clause>, values: seq<Value>, idx: nat)
    requires UpTo(f, 4, sql0, values0, idx0)
    ensures UpTo(f, 7, sql, values, idx)
  {
    sql, values, idx := sql0, values0, idx0;
    if Given(f.direction) {
      Bound1(f, 4, sql, values, idx, DirectionIs, Text(f.direction.value));
      sql := sql + [Clause(DirectionIs, [idx])];
      values := values + [Text(f.direction.value)];
      idx := idx + 1;
    } else {
      Skipped(f, 4, sql, values, idx);
    }
    if Given(f.destination) {
      Bound1(f, 5, sql, values, idx, DestinationLike, Text(EscapeLike(f.destination.value) + "%"));
      sql := sql + [Clause(DestinationLike, [idx])];
      values := values + [Text(EscapeLike(f.destination.value) + "%")];
      idx := idx + 1;
    } else {
      Skipped(f, 5, sql, values, idx);
    }
    if Given(f.number) {
      Bound1(f, 6, sql, values, idx, CustomerNumberIs, Text(f.number.value));
      sql := sql + [Clause(CustomerNumberIs, [idx])];
      values := values + [Text(f.number.value)];
      idx := idx + 1;
    } else {
      Skipped(f, 6, sql, values, idx);
    }
  }

  /** SBC and zone. */
  method AddPlaces(f: Filters, sql0: seq<Clause>, values0: seq<Value>, idx0: nat)
    returns (sql: seq<Clause>, values: seq<Value>, idx: nat)
    requires UpTo(f, 7, sql0, values0, idx0)
    ensures UpTo(f, 9, sql, values, idx)
  {
    sql, values, idx := sql0, values0, idx0;
    if Given(f.sbcId) {
      Bound1(f, 7, sql, values, idx, SbcIs, Text(f.sbcId.value));
      sql := sql + [Clause(SbcIs, [idx])];
      values := values + [Text(f.sbcId.value)];
      idx := idx + 1;
    } else {
      Skipped(f, 7, sql, values, idx);
    }
    if Given(f.zone) {
      Bound1(f, 8, sql, values, idx, SbcLike, Text(f.zone.value + "-%"));
      sql := sql + [Clause(SbcLike, [idx])];
      values := values + [Text(f.zone.value + "-%")];
      idx := idx + 1;
    } else {
      Skipped(f, 8, sql, values, idx);
    }
  }

  /** The fragments that bind nothing. */
  method AddFixed(f: Filters, sql0: seq<Clause>, values0: seq<Value>, idx0: nat)
    returns (sql: seq<Clause>, values: seq<Value>, idx: nat)
    requires UpTo(f, 9, sql0, values0, idx0)
    ensures UpTo(f, FILTERABLE, sql, values, idx)
  {
    sql, values, idx := sql0, values0, idx0;
    if f.ratedOnly {
      Fixed(f, 9, sql, values, idx, RatedAtNotNull);
      sql := sql + [Clause(RatedAtNotNull, [])];
    } else {
      Skipped(f, 9, sql, values, idx);
    }
    if f.leg == "b" {
      Fixed(f, 10, sql, values, idx, LegIsB);
      sql := sql + [Clause(LegIsB, [])];
    } else if f.leg != "all" {
      Fixed(f, 10, sql, values, idx, LegDistinctFromB);
      sql := sql + [Clause(LegDistinctFromB, [])];
    } else {
      Skipped(f, 10, sql, values, idx);
    }
  }

  method BuildCdrFilters(f: Filters) returns (sql: seq<Clause>, values: seq<Value>)
    ensures Query(sql, values) == EmitAll(f)
  {
    var idx: nat;
    if Given(f.callId) {
      sql, values, idx := [Clause(CallIdOrUuid, [1])], [Text(f.callId.value)], 2;
    } else {
      sql, values, idx := [Clause(StartBetween, [1, 2])], [Time(f.startDate), Time(f.endDate)], 3;
    }
    EmitFirst(f);
    sql, values, idx := AddParties(f, sql, values, idx);
    sql, values, idx := AddNumbers(f, sql, values, idx);
    sql, values, idx := AddPlaces(f, sql, values, idx);
    sql, values, idx := AddFixed(f, sql, values, idx);
    assert Asked(f)[..FILTERABLE] == Asked(f);
  }

  // ----- what the filters mean together -----

  /** Absent or empty, so that nothing is filtered. */
  predicate Unasked(s: Option<string>) {
    s == None || s == Some("")
  }

  /** Whether filter `i` lets a row through, said without SQL. */
  ghost predicate Lets(f: Filters, r: Row, i: nat) {
    if i == 0 then if Unasked(f.callId) then r.startTime.Some? && f.startDate <= r.startTime.value <= f.endDate
                   else r.callId == f.callId || r.uuid == f.callId
    else if i == 1 then f.customerId == None || r.customerId == f.customerId
    else if i == 2 then f.trunkId == None || r.trunkId == f.trunkId
    else if i == 3 then f.productType == None || MeansAnyProduct(f.productType.value) || r.productType == f.productType
    else if i == 4 then Unasked(f.direction) || r.direction == f.direction
    else if i == 5 then Unasked(f.destination) || (r.destination.Some? && f.destination.value <= r.destination.value)
    else if i == 6 then Unasked(f.number) || r.customerNumber == f.number
    else if i == 7 then Unasked(f.sbcId) || r.sbcId == f.sbcId
    else if i == 8 then Unasked(f.zone) || (r.sbcId.Some? && f.zone.value + "-" <= r.sbcId.value)
    else if i == 9 then !f.ratedOnly || r.ratedAt.Some?
    else if f.leg == "all" then true
    else if f.leg == "b" then r.leg == Some("B")
    else r.leg != Some("B")
  }

  /** The rows a set of filters selects. */
  ghost predicate Matches(f: Filters, r: Row) {
    forall i: nat | i < FILTERABLE :: Lets(f, r, i)
  }

  lemma ZonePatternIsPrefix(z: string, r: Row)
    requires z in {"east", "west", "central"}
    ensures r.sbcId.Some? ==> (Like(z + "-%", r.sbcId.value) <==> z + "-" <= r.sbcId.value)
  {
    PlainNeedsNoEscape(z + "-");
    assert z + "-" + "%" == z + "-%";
    if r.sbcId.Some? {
      EscapedLikeIsPrefix(z + "-", r.sbcId.value);
    }
  }

  lemma OneFilter(f: Filters, i: nat, r: Row)
    requires GoodFilters(f)
    ensures AskedAt(f, i).Some? ==> Good(AskedAt(f, i).value)
    ensures Lets(f, r, i) <==> AskedAt(f, i).Some? ==> Means(AskedAt(f, i).value, r)
  {
    if i == 3 {
      ProductFilterMeans(f.productType);
    }
    if i == 5 && Given(f.destination) && r.destination.Some? {
      EscapedLikeIsPrefix(f.destination.value, r.destination.value);
    }
    if i == 8 && Given(f.zone) {
      ZonePatternIsPrefix(f.zone.value, r);
    }
  }

  /** Every combination of filters: the emitted text with its binds accepts
      exactly the rows that match. */
  lemma {:induction false} FiltersMeanTheirConjunction(f: Filters, r: Row)
    requires GoodFilters(f)
    ensures Selects(EmitAll(f), r) <==> Matches(f, r)
  {
    var os := Asked(f);
    forall i: nat | i < FILTERABLE
      ensures os[i].Some? ==> Good(os[i].value)
      ensures Lets(f, r, i) <==> Holds(os[i], r)
    {
      OneFilter(f, i, r);
    }
    EmittedMeansTheConjunction(os, r);
  }

  lemma EmitIsSound(f: Filters, r: Row)
    requires GoodFilters(f)
    ensures Sound(EmitAll(f))
  {
    forall i: nat | i < FILTERABLE
      ensures Asked(f)[i].Some? ==> Good(Asked(f)[i].value)
    {
      OneFilter(f, i, r);
    }
    EmittedMeansTheConjunction(Asked(f), r);
  }

  // ----- the page query -----

  const CALL_ID_LOOKUP_LIMIT := 50

  /** What is left of a request once the caller is known to be a tenant. */
  function Scoped(tenant: Option<int>, f: Filters): Filters {
    if tenant.None? then f
    else f.(customerId := tenant, ratedOnly := false, sbcId := None, zone := None, leg := "calls", callId := None)
  }

  /** A call-id lookup is one call, so its page is capped. */
  function PageLimit(tenant: Option<int>, request: Filters, limit: nat): nat {
    if tenant.None? && Given(request.callId) && limit > CALL_ID_LOOKUP_LIMIT then CALL_ID_LOOKUP_LIMIT else limit
  }

  /** The page query: the filter's text and binds, then LIMIT and OFFSET at the
      next two placeholders. `countValues` are the binds of COUNT(*). */
  method QueryCdrs(tenant: Option<int>, request: Filters, limit: nat, offset: nat)
    returns (sql: seq<Clause>, countValues: seq<Value>, values: seq<Value>, limitAt: nat, offsetAt: nat)
    requires GoodFilters(request)
    ensures var count := EmitAll(Scoped(tenant, request));
            && Query(sql, countValues) == count
            && Query(sql, values) == WithPage(count, PageLimit(tenant, request, limit), offset)
    ensures limitAt == |values| - 1 && offsetAt == |values|
    ensures limitAt > 0 && values[limitAt - 1].Number? && values[offsetAt - 1].Number?
    ensures forall table :: RunPage(table, Query(sql, values), limitAt, offsetAt) == Wanted(tenant, request, limit, offset, table)
  {
    var f := request;
    if tenant.Some? {
      f := f.(customerId := tenant);
      f := f.(ratedOnly := false, sbcId := None, zone := None);
      f := f.(leg := "calls", callId := None);
    }
    var n := limit;
    if Given(f.callId) {
      n := if limit < CALL_ID_LOOKUP_LIMIT then limit else CALL_ID_LOOKUP_LIMIT;
    }
    sql, countValues := BuildCdrFilters(f);
    limitAt := |countValues| + 1;
    offsetAt := limitAt + 1;
    values := countValues + [Number(n), Number(offset)];
    forall table
      ensures RunPage(table, Query(sql, values), limitAt, offsetAt) == Wanted(tenant, request, limit, offset, table)
    {
      PageReturnsWhatIsWanted(tenant, request, limit, offset, table);
    }
  }

  function WithPage(q: Query, limit: nat, offset: nat): Query {
    q.(values := q.values + [Number(limit), Number(offset)])
  }

  lemma TwoMoreBinds(q: Query, limit: nat, offset: nat, r: Row)
    requires Sound(q)
    ensures Sound(WithPage(q, limit, offset)) && (Selects(WithPage(q, limit, offset), r) <==> Selects(q, r))
  {
    LaterBindsChangeNothing(q.clauses, q.values, [Number(limit), Number(offset)], r);
  }

  /** The page selects the rows that match, as the count does: LIMIT and OFFSET bind
      after the filters and change none of them. */
  lemma {:induction false} PageAndCountAgree(f: Filters, limit: nat, offset: nat, r: Row)
    requires GoodFilters(f)
    ensures Selects(WithPage(EmitAll(f), limit, offset), r) <==> Matches(f, r)
  {
    FiltersMeanTheirConjunction(f, r);
    EmitIsSound(f, r);
    TwoMoreBinds(EmitAll(f), limit, offset, r);
  }

  /** Their placeholders are the two after the last filter's, so that all
      placeholders of the page query together are the positions of its binds. */
  lemma {:induction false} PagePlaceholders(f: Filters, limit: nat, offset: nat)
    ensures var n := |WithPage(EmitAll(f), limit, offset).values|;
            AllPlaceholders(EmitAll(f).clauses) + [n - 1, n] == Next(0, n)
  {
    PlaceholdersAreThePositions(Asked(f));
  }

  // ----- the page -----

  /** What LIMIT and OFFSET at these placeholders leave of an ordered table. */
  ghost function RunPage(table: seq<Row>, q: Query, limitAt: nat, offsetAt: nat): seq<Row>
    requires 1 <= limitAt <= |q.values| && 1 <= offsetAt <= |q.values|
    requires q.values[limitAt - 1].Number? && q.values[offsetAt - 1].Number?
  {
    Cut(Select((r: Row) => Selects(q, r), table), q.values[limitAt - 1].n, q.values[offsetAt - 1].n)
  }

  /** Without the first `offset`, and then at most `limit`. */
  function Cut<T>(s: seq<T>, limit: int, offset: int): (page: seq<T>)
    ensures limit >= 0 && offset >= 0 ==>
              && |page| == (if offset + limit <= |s| then limit else if offset <= |s| then |s| - offset else 0)
              && forall k | 0 <= k < |page| :: page[k] == s[offset + k]
  {
    var rest := if offset <= 0 then s else if offset >= |s| then [] else s[offset..];
    if limit >= |rest| then rest else if limit <= 0 then [] else rest[..limit]
  }

  /** The rows asked for: those that match, for a staff caller the filters as they are,
      without the first `offset`, and of these at most `limit`, or 50 when a staff caller
      looks up a call. */
  ghost function Wanted(tenant: Option<int>, request: Filters, limit: nat, offset: nat, table: seq<Row>): seq<Row> {
    var n := if tenant == None && !Unasked(request.callId) && limit > 50 then 50 else limit;
    var f := if tenant == None then request else Scoped(tenant, request);
    Cut(Select((r: Row) => Matches(f, r), table), n, offset)
  }

  lemma {:induction false} SameSelected(f: Filters, limit: nat, offset: nat, table: seq<Row>)
    requires GoodFilters(f)
    ensures Select((r: Row) => Selects(WithPage(EmitAll(f), limit, offset), r), table) == Select((r: Row) => Matches(f, r), table)
  {
    forall r: Row
      ensures Selects(WithPage(EmitAll(f), limit, offset), r) <==> Matches(f, r)
    {
      PageAndCountAgree(f, limit, offset, r);
    }
    SelectSame((r: Row) => Selects(WithPage(EmitAll(f), limit, offset), r), (r: Row) => Matches(f, r), table);
  }

  /** The page query returns the rows asked for, of every ordered table. */
  lemma PageReturnsWhatIsWanted(tenant: Option<int>, request: Filters, limit: nat, offset: nat, table: seq<Row>)
    requires GoodFilters(request)
    ensures var q := WithPage(EmitAll(Scoped(tenant, request)), PageLimit(tenant, request, limit), offset);
            var n := |q.values|;
            && n >= 2 && q.values[n - 2].Number? && q.values[n - 1].Number?
            && RunPage(table, q, n - 1, n) == Wanted(tenant, request, limit, offset, table)
  {
    SameSelected(Scoped(tenant, request), PageLimit(tenant, request, limit), offset, table);
  }

  /** What a tenant's page matches is its own customer's, one row per call, whatever
      it asked for; the filters it may not use change nothing. */
  lemma TenantSeesItsOwnCalls(t: int, f: Filters, g: Filters, r: Row)
    requires GoodFilters(f) && GoodFilters(g)
    requires g == f.(customerId := g.customerId, ratedOnly := g.ratedOnly, sbcId := g.sbcId, zone := g.zone,
                     leg := g.leg, callId := g.callId)
    ensures Scoped(Some(t), f) == Scoped(Some(t), g) && GoodFilters(Scoped(Some(t), f))
    ensures Matches(Scoped(Some(t), f), r) <==>
              && r.customerId == Some(t) && r.leg != Some("B")
              && r.startTime.Some? && f.startDate <= r.startTime.value <= f.endDate
              && Lets(f, r, 2) && Lets(f, r, 3) && Lets(f, r, 4) && Lets(f, r, 5) && Lets(f, r, 6)
  {
    var s := Scoped(Some(t), f);
    assert forall i: nat | 2 <= i <= 6 :: Lets(s, r, i) <==> Lets(f, r, i);
    if Matches(s, r) {
      assert Lets(s, r, 0) && Lets(s, r, 1) && Lets(s, r, 10);
    }
  }
}
