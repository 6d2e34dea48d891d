/** The calls-per-second limiter: a Redis sorted set that is purged, capped and
    left to expire must answer like a limiter that remembers every admission.

    Milliseconds throughout. A request carries the caller's clock (`now`, which
    the script gets as an argument) and the Redis server's own clock (`server`,
    which decides when the key expires). */
module CpsLimiter {
  import opened Wrappers

  const WINDOW_MS: int := 1000
  const EXPIRE_MS: int := 2000

  /** One sorted-set member; the script builds it from the clock and a nonce. */
  datatype CallId = CallId(ms: int, nonce: string)

  datatype Request =
    | Check(now: int, nonce: string, server: int)
    | Count(now: int, server: int)

  datatype Answer = Answer(allowed: bool, current: nat)

  /** The key as Redis holds it. */
  datatype Key = Key(members: map<CallId, int>, expiresAt: Option<int>)

  const NO_KEY := Key(map[], None)

  // ----- what Redis does with the key -----

  function Alive(key: Key, server: int): Key {
    if key.expiresAt.Some? && key.expiresAt.value <= server then NO_KEY else key
  }

  function Purged(members: map<CallId, int>, windowStart: int): map<CallId, int> {
    map c | c in members && members[c] > windowStart :: members[c]
  }

  /** The key and the answer after one request. */
  function Serve(key: Key, limit: int, r: Request): (Key, Answer) {
    var live := Alive(key, r.server);
    var kept := Purged(live.members, r.now - WINDOW_MS);
    var rest := if kept == map[] then NO_KEY else live.(members := kept);
    if r.Count? then (rest, Answer(false, |kept|))
    else if |kept| >= limit then (rest, Answer(false, |kept|))
    else (Key(kept[CallId(r.now, r.nonce) := r.now], Some(r.server + EXPIRE_MS)), Answer(true, |kept| + 1))
  }

  /** The sorted set as the API's module sees it: one object, changed in place. */
  class CpsKey {
    var members: map<CallId, int>
    var expiresAt: Option<int>

    constructor ()
      ensures View() == NO_KEY
    {
      members, expiresAt := map[], None;
    }

    ghost function View(): Key
      reads this
    {
      Key(members, expiresAt)
    }

    method Expire(server: int)
      modifies this
      ensures View() == Alive(old(View()), server)
    {
      if expiresAt.Some? && expiresAt.value <= server {
        members, expiresAt := map[], None;
      }
    }

    /** ZREMRANGEBYSCORE -inf windowStart; a set left empty is no key at all. */
    method Purge(windowStart: int)
      modifies this
      ensures members == Purged(old(members), windowStart)
      ensures expiresAt == if members == map[] then None else old(expiresAt)
    {
      var todo := members.Keys;
      ghost var before := members;
      while todo != {}
        invariant todo <= members.Keys <= before.Keys
        invariant forall c | c in members :: members[c] == before[c]
        invariant forall c | c in before && c !in todo :: c in members <==> before[c] > windowStart
        invariant expiresAt == old(expiresAt)
        decreases todo
      {
        var c :| c in todo;
        if members[c] <= windowStart {
          members := members - {c};
        }
        todo := todo - {c};
      }
      assert members == Purged(before, windowStart);
      if members == map[] {
        expiresAt := None;
      }
    }

    method CheckCpsLimit(limit: int, now: int, nonce: string, server: int) returns (allowed: bool, current: nat)
      modifies this
      ensures (View(), Answer(allowed, current)) == Serve(old(View()), limit, Check(now, nonce, server))
    {
      Expire(server);
      Purge(now - WINDOW_MS);
      current := |members|;
      if current >= limit {
        return false, current;
      }
      members := members[CallId(now, nonce) := now];
      expiresAt := Some(server + EXPIRE_MS);
      return true, current + 1;
    }

    method GetCurrentCps(now: int, server: int) returns (current: nat)
      modifies this
      ensures forall limit :: (View(), Answer(false, current)) == Serve(old(View()), limit, Count(now, server))
    {
      Expire(server);
      Purge(now - WINDOW_MS);
      current := |members|;
    }
  }

  // ----- the reference: a limiter that forgets nothing -----

  /** Admissions later than `lo`. */
  function CountAfter(history: seq<CallId>, lo: int): nat {
    if history == [] then 0
    else CountAfter(history[1..], lo) + if history[0].ms > lo then 1 else 0
  }

  /** Admissions in (lo, hi]. */
  function InWindow(history: seq<CallId>, lo: int, hi: int): nat {
    if history == [] then 0
    else InWindow(history[1..], lo, hi) + if lo < history[0].ms <= hi then 1 else 0
  }

  function Decide(history: seq<CallId>, limit: int, r: Request): (seq<CallId>, Answer) {
    var recent := CountAfter(history, r.now - WINDOW_MS);
    if r.Check? && recent < limit then (history + [CallId(r.now, r.nonce)], Answer(true, recent + 1))
    else (history, Answer(false, recent))
  }

  function RunKey(rs: seq<Request>, limit: int): (Key, seq<Answer>) {
    if rs == [] then (NO_KEY, [])
    else
      var n := |rs| - 1;
      var (key, answers) := RunKey(rs[..n], limit);
      var (key', a) := Serve(key, limit, rs[n]);
      (key', answers + [a])
  }

  function RunHistory(rs: seq<Request>, limit: int): (seq<CallId>, seq<Answer>) {
    if rs == [] then ([], [])
    else
      var n := |rs| - 1;
      var (history, answers) := RunHistory(rs[..n], limit);
      var (history', a) := Decide(history, limit, rs[n]);
      (history', answers + [a])
  }

  /** No two checks build the same member. */
  predicate FreshIds(rs: seq<Request>) {
    forall i, j | 0 <= i < j < |rs| && rs[i].Check? && rs[j].Check? ::
      (rs[i].now, rs[i].nonce) != (rs[j].now, rs[j].nonce)
  }

  // ----- what the script forgets, and whether anyone needs it -----

  predicate Admits(rs: seq<Request>, answers: seq<Answer>, k: nat)
    requires k < |rs| == |answers|
  {
    rs[k].Check? && answers[k].allowed
  }

  predicate IsLastAdmission(rs: seq<Request>, answers: seq<Answer>, i: nat, m: nat)
    requires i <= |rs| == |answers|
  {
    m < i && Admits(rs, answers, m) && forall k: nat | m < k < i :: !Admits(rs, answers, k)
  }

  /** By request `i` the expiry set with the last admission has passed. */
  predicate Expires(rs: seq<Request>, answers: seq<Answer>, i: nat)
    requires i < |rs| == |answers|
  {
    exists m: nat | m < i :: IsLastAdmission(rs, answers, i, m) && rs[m].server + EXPIRE_MS <= rs[i].server
  }

  /** Request `i` makes the script forget the admission `k`: it is out of that caller's
      window, or the key has expired. */
  predicate Forgets(rs: seq<Request>, answers: seq<Answer>, i: nat, k: nat)
    requires k < i < |rs| == |answers|
  {
    rs[k].now <= rs[i].now - WINDOW_MS || Expires(rs, answers, i)
  }

  predicate Forgotten(rs: seq<Request>, answers: seq<Answer>, n: nat, k: nat)
    requires k < n <= |rs| == |answers|
  {
    exists i: nat | k < i < n :: Forgets(rs, answers, i, k)
  }

  /** Nothing forgotten by then is still in the window of caller `j`. */
  ghost predicate NotMissed(rs: seq<Request>, answers: seq<Answer>, j: nat)
    requires j < |rs| == |answers|
  {
    forall k: nat | k < j && Admits(rs, answers, k) && Forgotten(rs, answers, j + 1, k) :: rs[k].now <= rs[j].now - WINDOW_MS
  }

  ghost predicate NoneMissedUpto(rs: seq<Request>, answers: seq<Answer>, n: nat)
    requires n <= |rs| == |answers|
  {
    forall j: nat | j < n :: NotMissed(rs, answers, j)
  }

  /** The clocks are such that nobody misses what was forgotten. */
  ghost predicate NothingMissed(rs: seq<Request>, answers: seq<Answer>)
    requires |rs| == |answers|
  {
    NoneMissedUpto(rs, answers, |rs|)
  }

  // ----- counting -----

  ghost function Newer(history: seq<CallId>, lo: int): set<CallId> {
    set c | c in history && c.ms > lo
  }

  ghost predicate NoRepeats(history: seq<CallId>) {
    forall i, j | 0 <= i < j < |history| :: history[i] != history[j]
  }

  lemma {:induction false} CountIsCardinality(history: seq<CallId>, lo: int)
    requires NoRepeats(history)
    ensures CountAfter(history, lo) == |Newer(history, lo)|
  {
    if history != [] {
      CountIsCardinality(history[1..], lo);
      var c := history[0];
      assert c !in history[1..];
      if c.ms > lo {
        assert Newer(history, lo) == Newer(history[1..], lo) + {c};
      } else {
        assert Newer(history, lo) == Newer(history[1..], lo);
      }
    }
  }

  lemma {:induction false} InWindowAppend(history: seq<CallId>, c: CallId, lo: int, hi: int)
    ensures InWindow(history + [c], lo, hi) == InWindow(history, lo, hi) + if lo < c.ms <= hi then 1 else 0
  {
    if history == [] {
      assert history + [c] == [c];
    } else {
      InWindowAppend(history[1..], c, lo, hi);
      assert (history + [c])[1..] == history[1..] + [c];
    }
  }

  lemma {:induction false} WindowIsAfter(history: seq<CallId>, lo: int, hi: int, lo': int)
    requires lo' <= lo
    ensures InWindow(history, lo, hi) <= CountAfter(history, lo')
  {
    if history != [] {
      WindowIsAfter(history[1..], lo, hi, lo');
    }
  }

  lemma SubsetOfSameSize(a: set<CallId>, b: set<CallId>)
    requires a <= b
    ensures a == b <==> |a| == |b|
  {
    assert b == a + (b - a);
    assert |b| == |a| + |b - a|;
  }

  // ----- the refinement -----

  /** The member that check `k` built. */
  function MemberOf(rs: seq<Request>, k: nat): CallId
    requires k < |rs| && rs[k].Check?
  {
    CallId(rs[k].now, rs[k].nonce)
  }

  ghost predicate IsAdmission(rs: seq<Request>, answers: seq<Answer>, k: nat, c: CallId)
    requires k < |rs| == |answers|
  {
    Admits(rs, answers, k) && c == MemberOf(rs, k)
  }

  /** One of the first `n` requests admitted it. */
  ghost predicate WasAdmitted(rs: seq<Request>, answers: seq<Answer>, n: nat, c: CallId)
    requires n <= |rs| == |answers|
  {
    exists k: nat | k < n :: IsAdmission(rs, answers, k, c)
  }

  /** And requests before `upto` have not made the script forget it. */
  ghost predicate IsKept(rs: seq<Request>, answers: seq<Answer>, n: nat, upto: nat, c: CallId)
    requires n <= upto <= |rs| == |answers|
  {
    exists k: nat | k < n :: IsAdmission(rs, answers, k, c) && !Forgotten(rs, answers, upto, k)
  }

  /** The history holds what was admitted, once each. */
  ghost predicate Records(history: seq<CallId>, rs: seq<Request>, answers: seq<Answer>, n: nat)
    requires n <= |rs| == |answers|
  {
    NoRepeats(history) && forall c :: c in history <==> WasAdmitted(rs, answers, n, c)
  }

  /** The key holds what was admitted and not forgotten, and expires when the last
      admission said. */
  ghost predicate Tracks(key: Key, rs: seq<Request>, answers: seq<Answer>, n: nat)
    requires n <= |rs| == |answers|
  {
    && (forall c :: c in key.members <==> IsKept(rs, answers, n, n, c))
    && (forall c | c in key.members :: key.members[c] == c.ms)
    && (key.members != map[] ==>
          exists m: nat | m < n :: IsLastAdmission(rs, answers, n, m) && key.expiresAt == Some(rs[m].server + EXPIRE_MS))
  }

  lemma OneLastAdmission(rs: seq<Request>, answers: seq<Answer>, i: nat, l: nat, m: nat)
    requires i <= |rs| == |answers| && IsLastAdmission(rs, answers, i, l) && IsLastAdmission(rs, answers, i, m)
    ensures l == m
  {
  }

  lemma AliveIffNotExpired(key: Key, rs: seq<Request>, answers: seq<Answer>, n: nat)
    requires n < |rs| == |answers| && Tracks(key, rs, answers, n)
    ensures Alive(key, rs[n].server).members == if Expires(rs, answers, n) then map[] else key.members
  {
    if key.members != map[] {
      var m: nat :| m < n && IsLastAdmission(rs, answers, n, m) && key.expiresAt == Some(rs[m].server + EXPIRE_MS);
      if Expires(rs, answers, n) {
        var l: nat :| l < n && IsLastAdmission(rs, answers, n, l) && rs[l].server + EXPIRE_MS <= rs[n].server;
        OneLastAdmission(rs, answers, n, l, m);
      }
    }
  }

  lemma ForgottenByOneMore(rs: seq<Request>, answers: seq<Answer>, n: nat, k: nat)
    requires k < n < |rs| == |answers|
    ensures Forgotten(rs, answers, n + 1, k) <==> Forgotten(rs, answers, n, k) || Forgets(rs, answers, n, k)
  {
    if Forgotten(rs, answers, n + 1, k) {
      var i: nat :| k < i < n + 1 && Forgets(rs, answers, i, k);
      assert i < n || i == n;
    }
    if Forgotten(rs, answers, n, k) {
      var i: nat :| k < i < n && Forgets(rs, answers, i, k);
      assert i < n + 1;
    }
  }

  /** What expiry and purge leave of the key when request `n` comes. */
  function KeptAt(key: Key, r: Request): map<CallId, int> {
    Purged(Alive(key, r.server).members, r.now - WINDOW_MS)
  }

  lemma KeptOneMore(rs: seq<Request>, answers: seq<Answer>, n: nat, c: CallId)
    requires n < |rs| == |answers|
    ensures IsKept(rs, answers, n, n + 1, c)
            <==> IsKept(rs, answers, n, n, c) && !Expires(rs, answers, n) && c.ms > rs[n].now - WINDOW_MS
  {
    if IsKept(rs, answers, n, n + 1, c) {
      var k: nat :| k < n && IsAdmission(rs, answers, k, c) && !Forgotten(rs, answers, n + 1, k);
      ForgottenByOneMore(rs, answers, n, k);
    }
    if IsKept(rs, answers, n, n, c) {
      var k: nat :| k < n && IsAdmission(rs, answers, k, c) && !Forgotten(rs, answers, n, k);
      ForgottenByOneMore(rs, answers, n, k);
    }
  }

  lemma KeptAreNotForgotten(key: Key, rs: seq<Request>, answers: seq<Answer>, n: nat)
    requires n < |rs| == |answers| && Tracks(key, rs, answers, n)
    ensures forall c :: c in KeptAt(key, rs[n]) <==> IsKept(rs, answers, n, n + 1, c)
    ensures forall c | c in KeptAt(key, rs[n]) :: KeptAt(key, rs[n])[c] == c.ms
  {
    AliveIffNotExpired(key, rs, answers, n);
    forall c
      ensures c in KeptAt(key, rs[n]) <==> IsKept(rs, answers, n, n + 1, c)
    {
      KeptOneMore(rs, answers, n, c);
    }
  }

  lemma SameMember(rs: seq<Request>, answers: seq<Answer>, j: nat, k: nat, c: CallId)
    requires j < |rs| == |answers| && k < |rs| && FreshIds(rs)
    requires IsAdmission(rs, answers, j, c) && IsAdmission(rs, answers, k, c)
    ensures j == k
  {
  }

  /** The script counts what the history counts exactly when its caller misses
      nothing. */
  lemma CountsAgreeIff(key: Key, history: seq<CallId>, rs: seq<Request>, answers: seq<Answer>, n: nat)
    requires n < |rs| == |answers| && FreshIds(rs)
    requires Tracks(key, rs, answers, n) && Records(history, rs, answers, n)
    ensures |KeptAt(key, rs[n])| == CountAfter(history, rs[n].now - WINDOW_MS) <==> NotMissed(rs, answers, n)
  {
    var kept, newer := KeptAt(key, rs[n]).Keys, Newer(history, rs[n].now - WINDOW_MS);
    KeptAreNotForgotten(key, rs, answers, n);
    CountIsCardinality(history, rs[n].now - WINDOW_MS);
    forall c | c in kept
      ensures c in newer
    {
      KeptOneMore(rs, answers, n, c);
    }
    SubsetOfSameSize(kept, newer);
    assert |KeptAt(key, rs[n])| == |kept|;
    if NotMissed(rs, answers, n) {
      forall c | c in newer
        ensures c in kept
      {
        var k: nat :| k < n && IsAdmission(rs, answers, k, c);
      }
    }
    if kept == newer {
      forall k: nat | k < n && Admits(rs, answers, k) && Forgotten(rs, answers, n + 1, k)
        ensures rs[k].now <= rs[n].now - WINDOW_MS
      {
        AllAreKept(history, rs, answers, n, k);
      }
    }
  }

  lemma AllAreKept(history: seq<CallId>, rs: seq<Request>, answers: seq<Answer>, n: nat, k: nat)
    requires k < n < |rs| == |answers| && FreshIds(rs) && Records(history, rs, answers, n)
    requires forall c | c in history && c.ms > rs[n].now - WINDOW_MS :: IsKept(rs, answers, n, n + 1, c)
    requires Admits(rs, answers, k) && Forgotten(rs, answers, n + 1, k)
    ensures rs[k].now <= rs[n].now - WINDOW_MS
  {
    var c := MemberOf(rs, k);
    assert IsAdmission(rs, answers, k, c);
    if IsKept(rs, answers, n, n + 1, c) {
      var j: nat :| j < n && IsAdmission(rs, answers, j, c) && !Forgotten(rs, answers, n + 1, j);
      SameMember(rs, answers, j, k, c);
    }
  }

  lemma {:induction false} HistoryRecords(rs: seq<Request>, limit: int, n: nat)
    requires n <= |rs| && FreshIds(rs)
    ensures |RunHistory(rs, limit).1| == |rs| && |RunHistory(rs[..n], limit).1| == n
    ensures RunHistory(rs, limit).1[..n] == RunHistory(rs[..n], limit).1
    ensures Records(RunHistory(rs[..n], limit).0, rs, RunHistory(rs, limit).1, n)
  {
    AnswersPrefix(rs, limit, n);
    AnswersPrefix(rs, limit, |rs|);
    assert rs[..|rs|] == rs;
    if n > 0 {
      HistoryRecords(rs, limit, n - 1);
      assert rs[..n][..n - 1] == rs[..n - 1] && rs[..n][n - 1] == rs[n - 1];
      var answers := RunHistory(rs, limit).1;
      AnswersPrefix(rs, limit, n - 1);
      assert answers[..n][n - 1] == answers[n - 1];
      RecordsOneMore(RunHistory(rs[..n - 1], limit).0, limit, rs, answers, n - 1);
    }
  }

  lemma {:induction false} AnswersPrefix(rs: seq<Request>, limit: int, n: nat)
    requires n <= |rs|
    ensures |RunHistory(rs, limit).1| == |rs| && |RunHistory(rs[..n], limit).1| == n
    ensures RunHistory(rs, limit).1[..n] == RunHistory(rs[..n], limit).1
    decreases |rs|
  {
    if n == |rs| {
      assert rs[..n] == rs;
      if n > 0 {
        AnswersPrefix(rs[..n - 1], limit, n - 1);
      }
    } else {
      var l := |rs| - 1;
      var before, a := RunHistory(rs[..l], limit).1, Decide(RunHistory(rs[..l], limit).0, limit, rs[l]).1;
      AnswersPrefix(rs[..l], limit, n);
      assert rs[..l][..n] == rs[..n];
      assert RunHistory(rs, limit).1 == before + [a];
      assert (before + [a])[..n] == before[..n];
    }
  }

  lemma RecordsOneMore(history: seq<CallId>, limit: int, rs: seq<Request>, answers: seq<Answer>, n: nat)
    requires n < |rs| == |answers| && FreshIds(rs) && Records(history, rs, answers, n)
    requires answers[n] == Decide(history, limit, rs[n]).1
    ensures Records(Decide(history, limit, rs[n]).0, rs, answers, n + 1)
  {
    forall c
      ensures WasAdmitted(rs, answers, n + 1, c) <==> WasAdmitted(rs, answers, n, c) || IsAdmission(rs, answers, n, c)
    {
      AdmittedOneMore(rs, answers, n, c);
    }
    if Admits(rs, answers, n) {
      assert IsAdmission(rs, answers, n, MemberOf(rs, n));
      NotAdmittedBefore(rs, answers, n);
    }
  }

  lemma AdmittedOneMore(rs: seq<Request>, answers: seq<Answer>, n: nat, c: CallId)
    requires n < |rs| == |answers|
    ensures WasAdmitted(rs, answers, n + 1, c) <==> WasAdmitted(rs, answers, n, c) || IsAdmission(rs, answers, n, c)
  {
    if WasAdmitted(rs, answers, n + 1, c) {
      var k: nat :| k < n + 1 && IsAdmission(rs, answers, k, c);
      assert k < n || k == n;
    }
    if WasAdmitted(rs, answers, n, c) {
      var k: nat :| k < n && IsAdmission(rs, answers, k, c);
      assert k < n + 1;
    }
  }

  lemma NotAdmittedBefore(rs: seq<Request>, answers: seq<Answer>, n: nat)
    requires n < |rs| == |answers| && FreshIds(rs) && Admits(rs, answers, n)
    ensures !WasAdmitted(rs, answers, n, MemberOf(rs, n))
  {
  }

  lemma KeptWithTheNew(rs: seq<Request>, answers: seq<Answer>, n: nat, c: CallId)
    requires n < |rs| == |answers|
    ensures IsKept(rs, answers, n + 1, n + 1, c) <==> IsKept(rs, answers, n, n + 1, c) || IsAdmission(rs, answers, n, c)
  {
    if IsKept(rs, answers, n + 1, n + 1, c) {
      var k: nat :| k < n + 1 && IsAdmission(rs, answers, k, c) && !Forgotten(rs, answers, n + 1, k);
      assert k < n || k == n;
    }
    if IsKept(rs, answers, n, n + 1, c) {
      var k: nat :| k < n && IsAdmission(rs, answers, k, c) && !Forgotten(rs, answers, n + 1, k);
      assert k < n + 1;
    }
    if IsAdmission(rs, answers, n, c) {
      assert !Forgotten(rs, answers, n + 1, n);
    }
  }

  lemma TracksAdmission(kept: map<CallId, int>, rs: seq<Request>, answers: seq<Answer>, n: nat)
    requires n < |rs| == |answers| && Admits(rs, answers, n)
    requires forall c :: c in kept <==> IsKept(rs, answers, n, n + 1, c)
    requires forall c | c in kept :: kept[c] == c.ms
    ensures Tracks(Key(kept[MemberOf(rs, n) := rs[n].now], Some(rs[n].server + EXPIRE_MS)), rs, answers, n + 1)
  {
    var key := Key(kept[MemberOf(rs, n) := rs[n].now], Some(rs[n].server + EXPIRE_MS));
    forall c
      ensures c in key.members <==> IsKept(rs, answers, n + 1, n + 1, c)
    {
      KeptWithTheNew(rs, answers, n, c);
    }
    assert IsLastAdmission(rs, answers, n + 1, n);
  }

  lemma TracksOthers(key: Key, kept: map<CallId, int>, rs: seq<Request>, answers: seq<Answer>, n: nat)
    requires n < |rs| == |answers| && !Admits(rs, answers, n)
    requires forall c :: c in kept <==> IsKept(rs, answers, n, n + 1, c)
    requires forall c | c in kept :: kept[c] == c.ms
    requires key.members == kept
    requires kept != map[] ==>
               exists m: nat | m < n + 1 :: IsLastAdmission(rs, answers, n + 1, m) && key.expiresAt == Some(rs[m].server + EXPIRE_MS)
    ensures Tracks(key, rs, answers, n + 1)
  {
    forall c
      ensures c in kept <==> IsKept(rs, answers, n + 1, n + 1, c)
    {
      KeptWithTheNew(rs, answers, n, c);
    }
  }

  /** After a request that was answered as the history answers it, the key still
      tracks. */
  lemma TracksOneMore(key: Key, limit: int, rs: seq<Request>, answers: seq<Answer>, n: nat)
    requires n < |rs| == |answers| && Tracks(key, rs, answers, n)
    requires Serve(key, limit, rs[n]).1 == answers[n]
    ensures Tracks(Serve(key, limit, rs[n]).0, rs, answers, n + 1)
  {
    var key', kept := Serve(key, limit, rs[n]).0, KeptAt(key, rs[n]);
    KeptAreNotForgotten(key, rs, answers, n);
    if Admits(rs, answers, n) {
      TracksAdmission(kept, rs, answers, n);
    } else {
      if kept != map[] {
        LastStaysLast(key, rs, answers, n);
        LiveKeepsItsExpiry(key, rs[n]);
      }
      TracksOthers(key', kept, rs, answers, n);
    }
  }

  lemma LiveKeepsItsExpiry(key: Key, r: Request)
    requires KeptAt(key, r) != map[]
    ensures key.members != map[] && Alive(key, r.server) == key
  {
    assert Purged(map[], r.now - WINDOW_MS) == map[];
  }

  lemma LastStaysLast(key: Key, rs: seq<Request>, answers: seq<Answer>, n: nat)
    requires n < |rs| == |answers| && Tracks(key, rs, answers, n) && key.members != map[] && !Admits(rs, answers, n)
    ensures exists m: nat | m < n + 1 :: IsLastAdmission(rs, answers, n + 1, m) && key.expiresAt == Some(rs[m].server + EXPIRE_MS)
  {
    var m: nat :| m < n && IsLastAdmission(rs, answers, n, m) && key.expiresAt == Some(rs[m].server + EXPIRE_MS);
    assert IsLastAdmission(rs, answers, n + 1, m);
  }

  /** One answer agrees exactly when the counts do. */
  lemma AnswerIsTheCount(key: Key, history: seq<CallId>, limit: int, r: Request)
    ensures Serve(key, limit, r).1 == Decide(history, limit, r).1 <==> |KeptAt(key, r)| == CountAfter(history, r.now - WINDOW_MS)
  {
  }

  lemma NoneMissedOneMore(rs: seq<Request>, answers: seq<Answer>, n: nat)
    requires n < |rs| == |answers|
    ensures NoneMissedUpto(rs, answers, n + 1) <==> NoneMissedUpto(rs, answers, n) && NotMissed(rs, answers, n)
  {
  }

  /** The runs agree so far exactly when nobody missed anything, and then the key
      tracks. */
  ghost predicate AgreeIff(k: (Key, seq<Answer>), h: (seq<CallId>, seq<Answer>), rs: seq<Request>, answers: seq<Answer>, n: nat)
    requires n <= |rs| == |answers|
  {
    && (k.1 == h.1 <==> NoneMissedUpto(rs, answers, n))
    && (k.1 == h.1 ==> Tracks(k.0, rs, answers, n))
  }

  /** The same for the runs themselves; written with a bound variable so that a proof
      does not look inside unless it names the predicate. */
  ghost predicate AgreesUpto(rs: seq<Request>, limit: int, answers: seq<Answer>, n: nat)
    requires n <= |rs| == |answers|
  {
    forall m: nat | m == n :: AgreeIff(RunKey(rs[..m], limit), RunHistory(rs[..m], limit), rs, answers, m)
  }

  lemma AgreeOneMore(k: (Key, seq<Answer>), h: (seq<CallId>, seq<Answer>), limit: int, rs: seq<Request>, answers: seq<Answer>, n: nat)
    requires n < |rs| == |answers| && FreshIds(rs) && |k.1| == |h.1|
    requires AgreeIff(k, h, rs, answers, n) && Records(h.0, rs, answers, n)
    requires answers[n] == Decide(h.0, limit, rs[n]).1
    ensures var (key', x), (history', y) := Serve(k.0, limit, rs[n]), Decide(h.0, limit, rs[n]);
            AgreeIff((key', k.1 + [x]), (history', h.1 + [y]), rs, answers, n + 1)
  {
    var x, y := Serve(k.0, limit, rs[n]).1, Decide(h.0, limit, rs[n]).1;
    AppendedAgree(k.1, h.1, x, y);
    NoneMissedOneMore(rs, answers, n);
    if k.1 == h.1 {
      AnswersAgreeIff(k.0, h.0, limit, rs, answers, n);
    }
  }

  lemma AnswersAgreeIff(key: Key, history: seq<CallId>, limit: int, rs: seq<Request>, answers: seq<Answer>, n: nat)
    requires n < |rs| == |answers| && FreshIds(rs)
    requires Tracks(key, rs, answers, n) && Records(history, rs, answers, n)
    requires answers[n] == Decide(history, limit, rs[n]).1
    ensures Serve(key, limit, rs[n]).1 == answers[n] <==> NotMissed(rs, answers, n)
    ensures Serve(key, limit, rs[n]).1 == answers[n] ==> Tracks(Serve(key, limit, rs[n]).0, rs, answers, n + 1)
  {
    AnswerIsTheCount(key, history, limit, rs[n]);
    CountsAgreeIff(key, history, rs, answers, n);
    if Serve(key, limit, rs[n]).1 == answers[n] {
      TracksOneMore(key, limit, rs, answers, n);
    }
  }

  /** Both runs, one request further. */
  lemma RunOneMore(rs: seq<Request>, limit: int, n: nat)
    requires n < |rs|
    ensures RunKey(rs[..n + 1], limit)
            == (var (key, answers) := RunKey(rs[..n], limit);
                var (key', a) := Serve(key, limit, rs[n]);
                (key', answers + [a]))
    ensures RunHistory(rs[..n + 1], limit)
            == (var (history, answers) := RunHistory(rs[..n], limit);
                var (history', a) := Decide(history, limit, rs[n]);
                (history', answers + [a]))
  {
    assert rs[..n + 1][..n] == rs[..n] && rs[..n + 1][n] == rs[n];
  }

  lemma AnswerAt(rs: seq<Request>, limit: int, n: nat)
    requires n < |rs|
    ensures |RunHistory(rs, limit).1| == |rs|
    ensures RunHistory(rs, limit).1[n] == Decide(RunHistory(rs[..n], limit).0, limit, rs[n]).1
  {
    AnswersPrefix(rs, limit, n);
    AnswersPrefix(rs, limit, n + 1);
    RunOneMore(rs, limit, n);
    assert RunHistory(rs, limit).1[..n + 1][n] == RunHistory(rs, limit).1[n];
  }

  lemma AgreesOneMore(rs: seq<Request>, limit: int, answers: seq<Answer>, n: nat)
    requires n < |rs| == |answers| && FreshIds(rs) && AgreesUpto(rs, limit, answers, n)
    requires Records(RunHistory(rs[..n], limit).0, rs, answers, n)
    requires answers[n] == Decide(RunHistory(rs[..n], limit).0, limit, rs[n]).1
    requires |RunKey(rs[..n], limit).1| == |RunHistory(rs[..n], limit).1|
    ensures AgreesUpto(rs, limit, answers, n + 1)
  {
    assert AgreeIff(RunKey(rs[..n], limit), RunHistory(rs[..n], limit), rs, answers, n);
    AgreeOneMore(RunKey(rs[..n], limit), RunHistory(rs[..n], limit), limit, rs, answers, n);
    RunOneMore(rs, limit, n);
    assert AgreeIff(RunKey(rs[..n + 1], limit), RunHistory(rs[..n + 1], limit), rs, answers, n + 1);
  }

  lemma NothingYet(rs: seq<Request>, limit: int, answers: seq<Answer>)
    requires |rs| == |answers|
    ensures AgreesUpto(rs, limit, answers, 0)
  {
  }

  lemma {:induction false} AgreesUptoIff(rs: seq<Request>, limit: int, n: nat)
    requires n <= |rs| && FreshIds(rs)
    ensures |RunHistory(rs, limit).1| == |rs|
    ensures AgreesUpto(rs, limit, RunHistory(rs, limit).1, n)
  {
    AnswersPrefix(rs, limit, 0);
    if n == 0 {
      NothingYet(rs, limit, RunHistory(rs, limit).1);
    } else {
      AgreesUptoIff(rs, limit, n - 1);
      HistoryRecords(rs, limit, n - 1);
      OneAnswerEach(rs[..n - 1], limit);
      AnswerAt(rs, limit, n - 1);
      AgreesOneMore(rs, limit, RunHistory(rs, limit).1, n - 1);
    }
  }

  lemma AppendedAgree(a: seq<Answer>, b: seq<Answer>, x: Answer, y: Answer)
    requires |a| == |b|
    ensures a + [x] == b + [y] <==> a == b && x == y
  {
    if a + [x] == b + [y] {
      assert (a + [x])[|a|] == x && (b + [y])[|b|] == y;
      assert (a + [x])[..|a|] == a && (b + [y])[..|b|] == b;
    }
  }

  /** Purging and expiry never show, in admitted calls and reported counts alike, if
      and only if no caller's window reaches back to an admission that an earlier purge
      or expiry has dropped. */
  lemma KeyAnswersLikeHistoryIff(rs: seq<Request>, limit: int)
    requires FreshIds(rs)
    ensures |RunHistory(rs, limit).1| == |rs|
    ensures RunKey(rs, limit).1 == RunHistory(rs, limit).1 <==> NothingMissed(rs, RunHistory(rs, limit).1)
  {
    var n := |rs|;
    assert rs[..n] == rs;
    AgreesUptoIff(rs, limit, n);
    assert AgreeIff(RunKey(rs[..n], limit), RunHistory(rs[..n], limit), rs, RunHistory(rs, limit).1, n);
  }

  /** Caller clocks never step back, and the server's clock stays within one
      window of a fixed offset from them. */
  predicate SaneClocks(rs: seq<Request>, offset: int) {
    && (forall i, j | 0 <= i < j < |rs| :: rs[i].now <= rs[j].now)
    && (forall i | 0 <= i < |rs| :: offset <= rs[i].server - rs[i].now <= offset + WINDOW_MS)
  }

  lemma ForgottenIsOld(rs: seq<Request>, answers: seq<Answer>, offset: int, i: nat, k: nat)
    requires k < i < |rs| == |answers| && SaneClocks(rs, offset) && Admits(rs, answers, k) && Forgets(rs, answers, i, k)
    ensures rs[k].now <= rs[i].now - WINDOW_MS
  {
    if Expires(rs, answers, i) {
      var m: nat :| m < i && IsLastAdmission(rs, answers, i, m) && rs[m].server + EXPIRE_MS <= rs[i].server;
      assert k <= m;
    }
  }

  /** With such clocks nobody misses anything, whoever was admitted. */
  lemma SaneClocksMissNothing(rs: seq<Request>, answers: seq<Answer>, offset: int)
    requires |rs| == |answers| && SaneClocks(rs, offset)
    ensures NothingMissed(rs, answers)
  {
    forall j: nat, k: nat | k < j < |rs| && Admits(rs, answers, k) && Forgotten(rs, answers, j + 1, k)
      ensures rs[k].now <= rs[j].now - WINDOW_MS
    {
      var i: nat :| k < i < j + 1 && Forgets(rs, answers, i, k);
      ForgottenIsOld(rs, answers, offset, i, k);
    }
  }

  /** So purging and expiry never show in any run with such clocks. */
  lemma KeyAnswersLikeHistory(rs: seq<Request>, limit: int, offset: int)
    requires SaneClocks(rs, offset) && FreshIds(rs)
    ensures RunKey(rs, limit).1 == RunHistory(rs, limit).1
  {
    KeyAnswersLikeHistoryIff(rs, limit);
    SaneClocksMissNothing(rs, RunHistory(rs, limit).1, offset);
  }

  /** A key that is left alone goes away two seconds after its last admission, by the
      server's clock, and not before. */
  lemma IdleKeyExpires(key: Key, limit: int, r: Request, server: int)
    requires Serve(key, limit, r).1.allowed
    ensures Alive(Serve(key, limit, r).0, server) == if server >= r.server + 2000 then NO_KEY else Serve(key, limit, r).0
  {
  }

  // ----- the limit -----

  /** Every half-open window, wherever it ends, holds at most `limit` admissions of the
      forgetless limiter, whatever the clocks do. */
  lemma {:induction false} EveryWindowWithinLimit(rs: seq<Request>, limit: nat, t: int)
    ensures InWindow(RunHistory(rs, limit).0, t - 1000, t) <= limit
  {
    if rs != [] {
      var n := |rs| - 1;
      var r := rs[n];
      EveryWindowWithinLimit(rs[..n], limit, t);
      var history := RunHistory(rs[..n], limit).0;
      if Decide(history, limit, r).1.allowed {
        InWindowAppend(history, CallId(r.now, r.nonce), t - WINDOW_MS, t);
        if t - WINDOW_MS < r.now <= t {
          WindowIsAfter(history, t - WINDOW_MS, t, r.now - WINDOW_MS);
        }
      }
    }
  }

  /** The same for what the script itself admitted, read off its answers. */
  function Admitted(rs: seq<Request>, answers: seq<Answer>): seq<CallId>
    requires |answers| == |rs|
  {
    if rs == [] then []
    else
      var n := |rs| - 1;
      Admitted(rs[..n], answers[..n]) +
      if rs[n].Check? && answers[n].allowed then [CallId(rs[n].now, rs[n].nonce)] else []
  }

  lemma {:induction false} AnswersRecordHistory(rs: seq<Request>, limit: int)
    ensures |RunHistory(rs, limit).1| == |rs|
    ensures Admitted(rs, RunHistory(rs, limit).1) == RunHistory(rs, limit).0
  {
    if rs != [] {
      var n := |rs| - 1;
      AnswersRecordHistory(rs[..n], limit);
      var (_, answers) := RunHistory(rs, limit);
      assert answers[..n] == RunHistory(rs[..n], limit).1;
    }
  }

  /** The script keeps the limit in every window of every run in which nobody misses
      what it forgot. */
  lemma ScriptWithinLimitIfNothingMissed(rs: seq<Request>, limit: nat, t: int)
    requires FreshIds(rs) && |RunHistory(rs, limit).1| == |rs| && NothingMissed(rs, RunHistory(rs, limit).1)
    ensures |RunKey(rs, limit).1| == |rs|
    ensures InWindow(Admitted(rs, RunKey(rs, limit).1), t - 1000, t) <= limit
  {
    KeyAnswersLikeHistoryIff(rs, limit);
    AnswersRecordHistory(rs, limit);
    EveryWindowWithinLimit(rs, limit, t);
  }

  lemma ScriptWithinLimit(rs: seq<Request>, limit: nat, offset: int, t: int)
    requires SaneClocks(rs, offset) && FreshIds(rs)
    ensures |RunKey(rs, limit).1| == |rs|
    ensures InWindow(Admitted(rs, RunKey(rs, limit).1), t - 1000, t) <= limit
  {
    KeyAnswersLikeHistoryIff(rs, limit);
    SaneClocksMissNothing(rs, RunHistory(rs, limit).1, offset);
    ScriptWithinLimitIfNothingMissed(rs, limit, t);
  }

  const STEPPED_BACK: seq<Request> :=
    [Check(1000, "a", 1000), Check(1000, "b", 1001), Check(2500, "c", 2500), Check(1900, "d", 2501)]

  lemma {:induction false} OneAnswerEach(rs: seq<Request>, limit: int)
    ensures |RunKey(rs, limit).1| == |rs|
  {
    if rs != [] {
      OneAnswerEach(rs[..|rs| - 1], limit);
    }
  }

  /** One more request, and what the run so far admitted. */
  lemma {:induction false} OneMore(rs: seq<Request>, limit: int, r: Request)
    requires r.Check?
    ensures |RunKey(rs, limit).1| == |rs|
    ensures var (key, answers) := RunKey(rs, limit);
            var (key', a) := Serve(key, limit, r);
            && RunKey(rs + [r], limit) == (key', answers + [a])
            && Admitted(rs + [r], answers + [a])
               == Admitted(rs, answers) + if a.allowed then [CallId(r.now, r.nonce)] else []
  {
    OneAnswerEach(rs, limit);
    assert (rs + [r])[..|rs|] == rs;
    var (key, answers) := RunKey(rs, limit);
    var a := Serve(key, limit, r).1;
    assert (answers + [a])[..|rs|] == answers;
  }

  const TWO_HELD := Key(map[CallId(1000, "a") := 1000, CallId(1000, "b") := 1000], Some(3001))

  const ONE_HELD := Key(map[CallId(1000, "a") := 1000], Some(3000))
  const LATER_HELD := Key(map[CallId(2500, "c") := 2500], Some(4500))

  lemma FirstTwo()
    ensures Serve(NO_KEY, 2, STEPPED_BACK[0]) == (ONE_HELD, Answer(true, 1))
    ensures Serve(ONE_HELD, 2, STEPPED_BACK[1]) == (TWO_HELD, Answer(true, 2))
  {
    assert Purged(ONE_HELD.members, 0) == ONE_HELD.members;
  }

  lemma PurgesBoth()
    ensures Serve(TWO_HELD, 2, STEPPED_BACK[2]) == (LATER_HELD, Answer(true, 1))
  {
    assert Purged(TWO_HELD.members, 1500) == map[];
  }

  lemma StepsBack()
    ensures Serve(LATER_HELD, 2, STEPPED_BACK[3]).1 == Answer(true, 2)
  {
    assert Purged(LATER_HELD.members, 900) == LATER_HELD.members;
  }

  lemma StepsBackRun()
    ensures |RunKey(STEPPED_BACK, 2).1| == 4
    ensures Admitted(STEPPED_BACK, RunKey(STEPPED_BACK, 2).1)
            == [CallId(1000, "a"), CallId(1000, "b"), CallId(2500, "c"), CallId(1900, "d")]
  {
    var rs := STEPPED_BACK;
    FirstTwo();
    PurgesBoth();
    StepsBack();
    var r1, r2, r3 := [rs[0]], [rs[0], rs[1]], [rs[0], rs[1], rs[2]];
    assert [] + [rs[0]] == r1 && r1 + [rs[1]] == r2 && r2 + [rs[2]] == r3 && r3 + [rs[3]] == rs;
    OneMore([], 2, rs[0]);
    OneMore(r1, 2, rs[1]);
    OneMore(r2, 2, rs[2]);
    OneMore(r3, 2, rs[3]);
  }

  /** The clock hypothesis is needed: after a purge, a caller whose clock steps
      back is admitted into a window that already holds the limit. */
  lemma {:induction false} BackwardClockOverfillsAWindow()
    ensures FreshIds(STEPPED_BACK)
    ensures |RunKey(STEPPED_BACK, 2).1| == 4
    ensures InWindow(Admitted(STEPPED_BACK, RunKey(STEPPED_BACK, 2).1), 1900 - 1000, 1900) == 3
  {
    StepsBackRun();
    var a, b, c, d := CallId(1000, "a"), CallId(1000, "b"), CallId(2500, "c"), CallId(1900, "d");
    assert [a, b, c, d] == [a, b] + [c] + [d];
    ThreeOfFour(a, b, c, d);
  }

  lemma ThreeOfFour(a: CallId, b: CallId, c: CallId, d: CallId)
    requires a.ms == b.ms == 1000 && c.ms == 2500 && d.ms == 1900
    ensures InWindow([a, b] + [c] + [d], 900, 1900) == 3
  {
    assert [a] == [] + [a] && [a, b] == [a] + [b];
    InWindowAppend([], a, 900, 1900);
    InWindowAppend([a], b, 900, 1900);
    InWindowAppend([a, b], c, 900, 1900);
    InWindowAppend([a, b] + [c], d, 900, 1900);
  }
}
