/** The per-process cache behind "may this session's user still come in?".

    A request asks the cache; on a miss it looks the status up and, some time
    later, remembers the result. Requests overlap freely, so a run is a sequence
    of the atomic pieces between awaits, in any order the event loop picks. */
module SessionStatus {
  import opened Wrappers

  const STATUS_TTL_S: real := 30.0
  const FAIL_OPEN_TTL_S: real := 5.0
  const LOOKUP_TIMEOUT_S: real := 2.0
  const MAX_ENTRIES: nat := 10_000

  datatype UserId = UserId(id: nat)
  datatype Entry = Entry(expires: real, allowed: bool)
  type Cache = map<UserId, Entry>

  function Swept(cache: Cache, now: real): Cache {
    map u | u in cache && cache[u].expires > now :: cache[u]
  }

  /** Below the bound nothing goes; at it the expired go, or else everything. */
  function WithRoom(cache: Cache, now: real): Cache {
    if |cache| < MAX_ENTRIES then cache
    else if |Swept(cache, now)| < MAX_ENTRIES then Swept(cache, now)
    else map[]
  }

  function Remembered(cache: Cache, uid: UserId, allowed: bool, ttl: real, now: real): Cache {
    WithRoom(cache, now)[uid := Entry(now + ttl, allowed)]
  }

  function Hit(cache: Cache, uid: UserId, now: real): Option<bool> {
    if uid in cache && cache[uid].expires > now then Some(cache[uid].allowed) else None
  }

  class StatusCache {
    var cache: Cache

    constructor ()
      ensures cache == map[]
    {
      cache := map[];
    }

    method Remember(uid: UserId, allowed: bool, ttl: real, now: real)
      modifies this
      ensures cache == Remembered(old(cache), uid, allowed, ttl, now)
    {
      if |cache| >= MAX_ENTRIES {
        var stale := set u | u in cache && cache[u].expires <= now;
        ghost var before := cache;
        while stale != {}
          invariant cache.Keys <= before.Keys
          invariant forall u | u in cache :: cache[u] == before[u]
          invariant forall u | u in before && u !in cache :: before[u].expires <= now
          invariant forall u | u in cache && cache[u].expires <= now :: u in stale
          decreases stale
        {
          var u :| u in stale;
          cache, stale := cache - {u}, stale - {u};
        }
        assert cache == Swept(before, now);
        if |cache| >= MAX_ENTRIES {
          cache := map[];
        }
      }
      cache := cache[uid := Entry(now + ttl, allowed)];
    }

    method Probe(uid: UserId, now: real) returns (hit: Option<bool>)
      ensures hit == Hit(cache, uid, now)
    {
      hit := None;
      if uid in cache && cache[uid].expires > now {
        hit := Some(cache[uid].allowed);
      }
    }
  }

  // ----- runs -----

  /** One uninterrupted piece of a request. `Read` is the moment the database
      takes the status the lookup will return. */
  datatype Event =
    | Ask(request: nat, uid: UserId, at: real)
    | Read(request: nat, status: Option<string>, at: real)
    | Finish(request: nat, at: real)
    | Fail(request: nat, at: real)
    | Forget(at: real)

  datatype Lookup = Lookup(uid: UserId, since: real, read: Option<Fact>)
  datatype Fact = Fact(uid: UserId, active: bool, at: real)
  datatype Failure = Failure(uid: UserId, at: real)
  datatype Answer = Answer(uid: UserId, allowed: bool, at: real)

  /** The cache, the lookups under way, and what the run has seen and answered. */
  datatype State = State(
    cache: Cache,
    waiting: map<nat, Lookup>,
    now: real,
    facts: seq<Fact>,
    failures: seq<Failure>,
    answers: seq<Answer>)

  const START := State(map[], map[], 0.0, [], [], [])

  /** Time does not step back; a request asks once, reads at most once, and its
      lookup ends within the timeout. */
  predicate Possible(s: State, e: Event) {
    && s.now <= e.at
    && match e
       case Ask(r, _, _) => r !in s.waiting
       case Read(r, _, _) => r in s.waiting && s.waiting[r].read.None?
       case Finish(r, at) => r in s.waiting && s.waiting[r].read.Some? && at - s.waiting[r].since <= LOOKUP_TIMEOUT_S
       case Fail(r, _) => r in s.waiting
       case Forget(_) => true
  }

  function Step(s: State, e: Event): State
    requires Possible(s, e)
  {
    match e
    case Ask(r, uid, at) =>
      var hit := Hit(s.cache, uid, at);
      if hit.Some? then s.(now := at, answers := s.answers + [Answer(uid, hit.value, at)])
      else s.(now := at, waiting := s.waiting[r := Lookup(uid, at, None)])
    case Read(r, status, at) =>
      var fact := Fact(s.waiting[r].uid, status == Some("active"), at);
      s.(now := at, facts := s.facts + [fact], waiting := s.waiting[r := s.waiting[r].(read := Some(fact))])
    case Finish(r, at) =>
      var l := s.waiting[r];
      s.(now := at, waiting := s.waiting - {r},
         cache := Remembered(s.cache, l.uid, l.read.value.active, STATUS_TTL_S, at),
         answers := s.answers + [Answer(l.uid, l.read.value.active, at)])
    case Fail(r, at) =>
      var l := s.waiting[r];
      s.(now := at, waiting := s.waiting - {r},
         cache := Remembered(s.cache, l.uid, true, FAIL_OPEN_TTL_S, at),
         failures := s.failures + [Failure(l.uid, at)],
         answers := s.answers + [Answer(l.uid, true, at)])
    case Forget(at) =>
      s.(now := at, cache := map[])
  }

  predicate PossibleRun(es: seq<Event>)
    decreases |es|, 0
  {
    es == [] || (PossibleRun(es[..|es| - 1]) && Possible(After(es[..|es| - 1]), es[|es| - 1]))
  }

  function After(es: seq<Event>): State
    requires PossibleRun(es)
    decreases |es|, 1
  {
    if es == [] then START else Step(After(es[..|es| - 1]), es[|es| - 1])
  }

  // ----- the staleness bound -----

  /** The status was read so within the window before `at`. */
  ghost predicate ReadWithin(facts: seq<Fact>, uid: UserId, active: bool, at: real, window: real) {
    exists i :: 0 <= i < |facts| && facts[i].uid == uid && facts[i].active == active
             && facts[i].at <= at < facts[i].at + window
  }

  ghost predicate FailedWithin(failures: seq<Failure>, uid: UserId, at: real, window: real) {
    exists i :: 0 <= i < |failures| && failures[i].uid == uid
             && failures[i].at <= at < failures[i].at + window
  }

  /** The answer rests on a read at most the TTL and `slack` old, or lets in after a
      lookup failure. */
  ghost predicate GroundedWithin(s: State, a: Answer, slack: real) {
    || ReadWithin(s.facts, a.uid, a.allowed, a.at, STATUS_TTL_S + slack)
    || (a.allowed && FailedWithin(s.failures, a.uid, a.at, FAIL_OPEN_TTL_S))
  }

  ghost predicate Grounded(s: State, a: Answer) {
    GroundedWithin(s, a, LOOKUP_TIMEOUT_S)
  }

  /** What an entry rests on: a fact or a failure recent enough for its expiry. */
  ghost predicate Backed(s: State, uid: UserId, e: Entry) {
    || (exists i :: 0 <= i < |s.facts| && s.facts[i].uid == uid && s.facts[i].active == e.allowed
                 && e.expires <= s.facts[i].at + STATUS_TTL_S + LOOKUP_TIMEOUT_S)
    || (e.allowed && exists i :: 0 <= i < |s.failures| && s.failures[i].uid == uid
                              && e.expires <= s.failures[i].at + FAIL_OPEN_TTL_S)
  }

  ghost predicate Sound(s: State) {
    && (forall u | u in s.cache :: Backed(s, u, s.cache[u]))
    && (forall r | r in s.waiting && s.waiting[r].read.Some? ::
          && s.waiting[r].read.value in s.facts
          && s.waiting[r].read.value.uid == s.waiting[r].uid
          && s.waiting[r].since <= s.waiting[r].read.value.at)
    && (forall r | r in s.waiting :: s.waiting[r].since <= s.now)
    && (forall i | 0 <= i < |s.facts| :: s.facts[i].at <= s.now)
    && (forall i | 0 <= i < |s.failures| :: s.failures[i].at <= s.now)
    && (forall i | 0 <= i < |s.answers| :: Grounded(s, s.answers[i]))
  }

  /** More history grounds and backs whatever less did. */
  lemma MoreHistory(s: State, t: State)
    requires s.facts <= t.facts && s.failures <= t.failures
    ensures forall a :: Grounded(s, a) ==> Grounded(t, a)
    ensures forall u, e :: Backed(s, u, e) ==> Backed(t, u, e)
  {
  }

  lemma RememberedKeepsBacked(s: State, t: State, uid: UserId, e: Entry, ttl: real, now: real)
    requires forall u | u in s.cache :: Backed(t, u, s.cache[u])
    requires e == Entry(now + ttl, e.allowed) && Backed(t, uid, e)
    requires t.cache == Remembered(s.cache, uid, e.allowed, ttl, now)
    ensures forall u | u in t.cache :: Backed(t, u, t.cache[u])
  {
    forall u | u in t.cache ensures Backed(t, u, t.cache[u]) {
      if u != uid {
        assert u in WithRoom(s.cache, now) && t.cache[u] == s.cache[u];
      }
    }
  }

  lemma {:induction false} AskIsSound(s: State, e: Event)
    requires Sound(s) && Possible(s, e) && (e.Ask? || e.Forget? || e.Read?)
    ensures Sound(Step(s, e))
  {
    var t := Step(s, e);
    MoreHistory(s, t);
    if e.Ask? && Hit(s.cache, e.uid, e.at).Some? {
      assert Backed(s, e.uid, s.cache[e.uid]);
      var a := t.answers[|s.answers|];
      assert Grounded(t, a);
    }
  }

  lemma {:induction false} FinishIsSound(s: State, e: Event)
    requires Sound(s) && Possible(s, e) && e.Finish?
    ensures Sound(Step(s, e))
  {
    var t := Step(s, e);
    MoreHistory(s, t);
    var l := s.waiting[e.request];
    var i :| 0 <= i < |t.facts| && t.facts[i] == l.read.value;
    assert t.facts[i].uid == l.uid && e.at <= t.facts[i].at + LOOKUP_TIMEOUT_S;
    RememberedKeepsBacked(s, t, l.uid, Entry(e.at + STATUS_TTL_S, l.read.value.active), STATUS_TTL_S, e.at);
    assert Grounded(t, t.answers[|s.answers|]);
  }

  lemma {:induction false} FailIsSound(s: State, e: Event)
    requires Sound(s) && Possible(s, e) && e.Fail?
    ensures Sound(Step(s, e))
  {
    var t := Step(s, e);
    MoreHistory(s, t);
    var l := s.waiting[e.request];
    assert t.failures[|s.failures|] == Failure(l.uid, e.at);
    RememberedKeepsBacked(s, t, l.uid, Entry(e.at + FAIL_OPEN_TTL_S, true), FAIL_OPEN_TTL_S, e.at);
    assert Grounded(t, t.answers[|s.answers|]);
  }

  lemma {:induction false} RunIsSound(es: seq<Event>)
    requires PossibleRun(es)
    ensures Sound(After(es))
  {
    if es != [] {
      var n := |es| - 1;
      RunIsSound(es[..n]);
      var s, e := After(es[..n]), es[n];
      match e {
        case Ask(_, _, _) => AskIsSound(s, e);
        case Read(_, _, _) => AskIsSound(s, e);
        case Forget(_) => AskIsSound(s, e);
        case Finish(_, _) => FinishIsSound(s, e);
        case Fail(_, _) => FailIsSound(s, e);
      }
    }
  }

  /** Whatever the interleaving: an allowed answer rests on an `active` read at
      most TTL + timeout old or a lookup failure at most the fail-open TTL old,
      and a refusal rests on a read of some other status that recent. */
  lemma EveryAnswerIsGrounded(es: seq<Event>, i: nat)
    requires PossibleRun(es) && i < |After(es).answers|
    ensures Grounded(After(es), After(es).answers[i])
  {
    RunIsSound(es);
  }

  /** A user read only as not active since `cut` is out once the TTL and the
      timeout have passed, whatever was evicted or overwritten, unless a lookup
      has just failed. */
  lemma DisabledUserIsLockedOut(es: seq<Event>, i: nat, cut: real)
    requires PossibleRun(es) && i < |After(es).answers|
    requires NotActiveSince(After(es), After(es).answers[i], cut)
    requires cut + STATUS_TTL_S + LOOKUP_TIMEOUT_S <= After(es).answers[i].at
    ensures !After(es).answers[i].allowed
  {
    RunIsSound(es);
    assert Grounded(After(es), After(es).answers[i]);
  }

  /** The answer's user was not read as active after `cut`, and no lookup has just
      failed. */
  ghost predicate NotActiveSince(s: State, a: Answer, cut: real) {
    && (forall k | 0 <= k < |s.facts| && s.facts[k].uid == a.uid && s.facts[k].active :: s.facts[k].at <= cut)
    && !FailedWithin(s.failures, a.uid, a.at, FAIL_OPEN_TTL_S)
  }

  // ----- what the cache remembers -----

  /** Remembering a user leaves another's entry as it was, unless the cache is full and
      that entry has expired or nothing has. */
  lemma OthersAreKeptIff(cache: Cache, uid: UserId, allowed: bool, ttl: real, now: real, other: UserId)
    requires other != uid && other in cache
    ensures var after, live := Remembered(cache, uid, allowed, ttl, now), set u | u in cache && cache[u].expires > now;
            && (other in after <==> |cache| < 10_000 || (cache[other].expires > now && |live| < 10_000))
            && (other in after ==> after[other] == cache[other])
            && after.Keys <= cache.Keys + {uid}
            && uid in after && after[uid] == Entry(now + ttl, allowed)
  {
    assert Swept(cache, now).Keys == set u | u in cache && cache[u].expires > now;
  }

  /** A looked-up status answers that user's requests, refusals too, without another
      lookup, for 30 s and no longer. */
  lemma RememberedAnswers(s: State, r: nat, at: real, again: nat, later: real)
    requires Possible(s, Finish(r, at)) && at <= later
    requires again !in Step(s, Finish(r, at)).waiting
    ensures var l, t := s.waiting[r], Step(s, Finish(r, at));
            var u := Step(t, Ask(again, l.uid, later));
            if later < at + 30.0 then u.waiting == t.waiting && u.answers == t.answers + [Answer(l.uid, l.read.value.active, later)]
            else again in u.waiting && u.answers == t.answers
  {
  }

  /** An answer after a lookup failure is remembered for 5 s. */
  lemma FailureAnswers(s: State, r: nat, at: real, again: nat, later: real)
    requires Possible(s, Fail(r, at)) && at <= later
    requires again !in Step(s, Fail(r, at)).waiting
    ensures var l, t := s.waiting[r], Step(s, Fail(r, at));
            var u := Step(t, Ask(again, l.uid, later));
            if later < at + 5.0 then u.waiting == t.waiting && u.answers == t.answers + [Answer(l.uid, true, later)]
            else again in u.waiting && u.answers == t.answers
  {
  }

  /** Once the cache is forgotten every user is looked up again. */
  lemma ForgettingAsksAgain(s: State, at: real, r: nat, uid: UserId, later: real)
    requires Possible(s, Forget(at)) && at <= later && r !in s.waiting
    ensures var u := Step(Step(s, Forget(at)), Ask(r, uid, later));
            r in u.waiting && u.answers == s.answers
  {
  }

  /** This fact was read in the run: some request of that user read it, and it says
      active just when the status was "active". */
  ghost predicate WasRead(es: seq<Event>, f: Fact) {
    exists i, j | 0 <= i < j < |es| ::
      && es[i].Ask? && es[j].Read? && es[i].request == es[j].request
      && es[i].uid == f.uid && es[j].at == f.at && (f.active <==> es[j].status == Some("active"))
  }

  ghost predicate WasAsked(es: seq<Event>, r: nat, uid: UserId) {
    exists i | 0 <= i < |es| :: es[i].Ask? && es[i].request == r && es[i].uid == uid
  }

  lemma AskedBefore(es: seq<Event>, e: Event, r: nat, uid: UserId)
    requires WasAsked(es, r, uid)
    ensures WasAsked(es + [e], r, uid)
  {
    var i :| 0 <= i < |es| && es[i].Ask? && es[i].request == r && es[i].uid == uid;
    assert (es + [e])[i] == es[i];
  }

  lemma ReadBefore(es: seq<Event>, e: Event, f: Fact)
    requires WasRead(es, f)
    ensures WasRead(es + [e], f)
  {
    var i, j :| 0 <= i < j < |es| && es[i].Ask? && es[j].Read? && es[i].request == es[j].request
                && es[i].uid == f.uid && es[j].at == f.at && (f.active <==> es[j].status == Some("active"));
    assert (es + [e])[i] == es[i] && (es + [e])[j] == es[j];
  }

  lemma ReadNow(es: seq<Event>, r: nat, status: Option<string>, at: real, uid: UserId)
    requires WasAsked(es, r, uid)
    ensures WasRead(es + [Read(r, status, at)], Fact(uid, status == Some("active"), at))
  {
    var i :| 0 <= i < |es| && es[i].Ask? && es[i].request == r && es[i].uid == uid;
    var all := es + [Read(r, status, at)];
    assert all[i] == es[i] && all[|es|] == Read(r, status, at);
  }

  /** The facts of a run are what its requests read. */
  lemma {:induction false} FactsWereRead(es: seq<Event>)
    requires PossibleRun(es)
    ensures forall k | 0 <= k < |After(es).facts| :: WasRead(es, After(es).facts[k])
    ensures forall r | r in After(es).waiting :: WasAsked(es, r, After(es).waiting[r].uid)
  {
    if es != [] {
      var init, e := es[..|es| - 1], es[|es| - 1];
      var s := After(init);
      FactsWereRead(init);
      assert es == init + [e];
      forall k | 0 <= k < |After(es).facts|
        ensures WasRead(es, After(es).facts[k])
      {
        if k < |s.facts| {
          ReadBefore(init, e, s.facts[k]);
        } else {
          ReadNow(init, e.request, e.status, e.at, s.waiting[e.request].uid);
        }
      }
      forall r | r in After(es).waiting
        ensures WasAsked(es, r, After(es).waiting[r].uid)
      {
        if e.Ask? && r == e.request {
          assert es[|init|] == e;
        } else {
          AskedBefore(init, e, r, s.waiting[r].uid);
        }
      }
    }
  }

  lemma SweptFits(cache: Cache, now: real)
    ensures |WithRoom(cache, now)| < MAX_ENTRIES
  {
  }

  lemma AddOne(cache: Cache, uid: UserId, e: Entry)
    ensures |cache[uid := e]| <= |cache| + 1
  {
    assert cache[uid := e].Keys == cache.Keys + {uid};
    assert |cache[uid := e]| == |cache[uid := e].Keys|;
    if uid in cache {
      assert cache.Keys + {uid} == cache.Keys;
    }
  }

  /** No run grows the cache past its bound. */
  lemma {:induction false} CacheStaysBounded(es: seq<Event>)
    requires PossibleRun(es)
    ensures |After(es).cache| <= MAX_ENTRIES
  {
    if es != [] {
      var n := |es| - 1;
      CacheStaysBounded(es[..n]);
      var s, e := After(es[..n]), es[n];
      if e.Finish? || e.Fail? {
        var l := s.waiting[e.request];
        SweptFits(s.cache, e.at);
        AddOne(WithRoom(s.cache, e.at), l.uid, After(es).cache[l.uid]);
      }
    }
  }

  lemma RunOn(es: seq<Event>, e: Event)
    requires PossibleRun(es) && Possible(After(es), e)
    ensures PossibleRun(es + [e]) && After(es + [e]) == Step(After(es), e)
  {
    assert (es + [e])[..|es|] == es;
  }

  const USER := UserId(7)

  const OVERTAKEN: seq<Event> := [
    Ask(0, USER, 1.0), Read(0, Some("active"), 1.0), Ask(1, USER, 1.5), Read(1, Some("disabled"), 1.5),
    Finish(1, 1.6), Finish(0, 3.0), Ask(2, USER, 32.5)]

  lemma RefusalThenOverwrite(s: State)
    requires s.cache == map[] && s.now == 1.5 && s.answers == []
    requires s.waiting == map[0 := Lookup(USER, 1.0, Some(Fact(USER, true, 1.0))), 1 := Lookup(USER, 1.5, Some(Fact(USER, false, 1.5)))]
    ensures Possible(s, OVERTAKEN[4])
    ensures var t := Step(s, OVERTAKEN[4]);
            Possible(t, OVERTAKEN[5]) && t.cache == map[USER := Entry(31.6, false)]
    ensures var u := Step(Step(s, OVERTAKEN[4]), OVERTAKEN[5]);
            u.cache == map[USER := Entry(33.0, true)] && u.now == 3.0 && u.answers == [Answer(USER, false, 1.6), Answer(USER, true, 3.0)]
  {
  }

  lemma TwoLookupsUnderWay()
    ensures PossibleRun(OVERTAKEN[..4])
    ensures var s := After(OVERTAKEN[..4]);
            && s.cache == map[] && s.now == 1.5 && s.answers == []
            && s.waiting == map[0 := Lookup(USER, 1.0, Some(Fact(USER, true, 1.0))),
                                1 := Lookup(USER, 1.5, Some(Fact(USER, false, 1.5)))]
  {
    var es := OVERTAKEN;
    assert After([]) == START;
    RunOn([], es[0]);
    assert [] + [es[0]] == es[..1];
    RunOn(es[..1], es[1]);
    assert es[..1] + [es[1]] == es[..2];
    RunOn(es[..2], es[2]);
    assert es[..2] + [es[2]] == es[..3];
    RunOn(es[..3], es[3]);
    assert es[..3] + [es[3]] == es[..4];
  }

  /** The timeout's share of the bound is real: a slow lookup that read `active`
      before the user was disabled overwrites a fresher refusal, and the session
      is let in more than a whole TTL after that read. */
  lemma SlowLookupOverwritesARefusal()
    ensures PossibleRun(OVERTAKEN)
    ensures After(OVERTAKEN).answers == [Answer(USER, false, 1.6), Answer(USER, true, 3.0), Answer(USER, true, 32.5)]
  {
    var es := OVERTAKEN;
    TwoLookupsUnderWay();
    var s := After(es[..4]);
    RefusalThenOverwrite(s);
    RunOn(es[..4], es[4]);
    assert es[..4] + [es[4]] == es[..5];
    RunOn(es[..5], es[5]);
    assert es[..5] + [es[5]] == es[..6];
    RunOn(es[..6], es[6]);
    assert es[..6] + [es[6]] == es;
  }
  // ----- which bound the code keeps -----

  /** In every run every answer is grounded within the TTL and `slack`. */
  ghost predicate BoundHolds(slack: real) {
    forall es: seq<Event>, i: nat | PossibleRun(es) && i < |After(es).answers| ::
      GroundedWithin(After(es), After(es).answers[i], slack)
  }

  /** In every run a user not read as active for `wait` is refused. */
  ghost predicate LockedOutWithin(wait: real) {
    forall es: seq<Event>, i: nat, cut: real |
      && PossibleRun(es) && i < |After(es).answers|
      && NotActiveSince(After(es), After(es).answers[i], cut) && cut + wait <= After(es).answers[i].at ::
      !After(es).answers[i].allowed
  }

  /** The user is read as active at once, the lookup takes the whole timeout, and the
      user comes again at `at`. */
  function SlowLookup(at: real): seq<Event> {
    [Ask(0, USER, 0.0), Read(0, Some("active"), 0.0), Finish(0, LOOKUP_TIMEOUT_S), Ask(1, USER, at)]
  }

  lemma SlowLookupRemembered()
    ensures var es := SlowLookup(2.0)[..3];
            && PossibleRun(es)
            && After(es) == State(map[USER := Entry(32.0, true)], map[], 2.0, [Fact(USER, true, 0.0)], [], [Answer(USER, true, 2.0)])
  {
    var es := SlowLookup(2.0);
    assert After([]) == START;
    RunOn([], es[0]);
    assert [] + [es[0]] == es[..1];
    RunOn(es[..1], es[1]);
    assert es[..1] + [es[1]] == es[..2];
    assert After(es[..2]) == State(map[], map[0 := Lookup(USER, 0.0, Some(Fact(USER, true, 0.0)))], 0.0, [Fact(USER, true, 0.0)], [], []);
    RunOn(es[..2], es[2]);
    assert es[..2] + [es[2]] == es[..3];
  }

  lemma SlowLookupStillAnswers(at: real)
    requires 2.0 <= at < 32.0
    ensures PossibleRun(SlowLookup(at))
    ensures After(SlowLookup(at)).answers == [Answer(USER, true, 2.0), Answer(USER, true, at)]
    ensures After(SlowLookup(at)).facts == [Fact(USER, true, 0.0)] && After(SlowLookup(at)).failures == []
  {
    SlowLookupRemembered();
    var es := SlowLookup(at);
    assert es[..3] == SlowLookup(2.0)[..3];
    RunOn(es[..3], es[3]);
    assert es[..3] + [es[3]] == es;
  }

  lemma NotGroundedAt(s: State, at: real, slack: real)
    requires s.facts == [Fact(USER, true, 0.0)] && s.failures == [] && at >= STATUS_TTL_S + slack
    ensures !GroundedWithin(s, Answer(USER, true, at), slack)
  {
  }

  /** The staleness bound that holds over all runs is the TTL and the timeout, and no
      smaller one: the documented TTL alone is not kept. */
  lemma BoundHoldsIff(slack: real)
    ensures BoundHolds(slack) <==> slack >= LOOKUP_TIMEOUT_S
  {
    if slack >= LOOKUP_TIMEOUT_S {
      forall es: seq<Event>, i: nat | PossibleRun(es) && i < |After(es).answers|
        ensures GroundedWithin(After(es), After(es).answers[i], slack)
      {
        EveryAnswerIsGrounded(es, i);
      }
    } else {
      var at := if STATUS_TTL_S + slack < 2.0 then 2.0 else STATUS_TTL_S + slack;
      SlowLookupStillAnswers(at);
      NotGroundedAt(After(SlowLookup(at)), at, slack);
      assert !GroundedWithin(After(SlowLookup(at)), After(SlowLookup(at)).answers[1], slack);
    }
  }

  /** Likewise a disabled user is sure to be out after the TTL and the timeout, and no
      sooner. */
  lemma LockedOutWithinIff(wait: real)
    ensures LockedOutWithin(wait) <==> wait >= STATUS_TTL_S + LOOKUP_TIMEOUT_S
  {
    if wait >= STATUS_TTL_S + LOOKUP_TIMEOUT_S {
      forall es: seq<Event>, i: nat, cut: real |
        && PossibleRun(es) && i < |After(es).answers|
        && NotActiveSince(After(es), After(es).answers[i], cut) && cut + wait <= After(es).answers[i].at
        ensures !After(es).answers[i].allowed
      {
        DisabledUserIsLockedOut(es, i, cut);
      }
    } else {
      var at := if wait < 2.0 then 2.0 else wait;
      SlowLookupStillAnswers(at);
      var s := After(SlowLookup(at));
      assert NotActiveSince(s, s.answers[1], 0.0) && 0.0 + wait <= s.answers[1].at && s.answers[1].allowed;
    }
  }
}
