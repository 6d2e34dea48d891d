/** The reporting loop of the carrier monitor: a cheap event counter decides when
    to send a full report early, a heartbeat decides when to send one anyway. */
module CarrierMonitor {
  import opened Wrappers
  import opened Powers

  /** Seconds; the environment's minimum for both backoff values is 1. */
  datatype Config = Config(pollInterval: real, backoffBase: nat, backoffMax: nat)

  predicate GoodConfig(c: Config) {
    c.pollInterval >= 1.0 && c.backoffBase >= 1 && c.backoffMax >= 1
  }

  /** How one full poll ends; a posted report carries the counter value its
      dispatcher snapshot was taken at. */
  datatype Poll = ReadFailed | ParseFailed | NoCarriers | PostFailed | Posted(snapshot: int)

  /** What one tick meets: the counter as read at its start (if it can be read),
      the two clock readings, and how a poll would end. */
  datatype Tick = Tick(gen: Option<int>, checkedAt: real, attemptedAt: real, poll: Poll)

  datatype State = State(lastGen: Option<int>, lastFullTime: real, failures: nat)
  datatype Outcome = Outcome(reported: bool, extraBackoff: nat)

  function Min(a: nat, b: nat): nat {
    if a <= b then a else b
  }

  /** The exponent is capped before the power is taken. */
  const MAX_EXPONENT: nat := 30

  function ExtraBackoff(c: Config, failures: nat): nat
    requires failures >= 1
  {
    Min(c.backoffBase * Pow2(Min(failures - 1, MAX_EXPONENT)), c.backoffMax)
  }

  predicate Transition(s: State, t: Tick) {
    t.gen.Some? && s.lastGen.Some? && t.gen != s.lastGen
  }

  predicate HeartbeatDue(c: Config, s: State, t: Tick) {
    t.checkedAt - s.lastFullTime >= c.pollInterval
  }

  function Step(c: Config, s: State, t: Tick): (State, Outcome) {
    if Transition(s, t) || HeartbeatDue(c, s, t) then
      if t.poll.Posted? then
        (State(if t.gen.Some? then t.gen else s.lastGen, t.attemptedAt, 0), Outcome(true, 0))
      else
        (State(s.lastGen, t.attemptedAt, s.failures + 1), Outcome(true, ExtraBackoff(c, s.failures + 1)))
    else
      (s.(lastGen := if t.gen.Some? then t.gen else s.lastGen), Outcome(false, 0))
  }

  function Start(c: Config, now: real): State {
    State(None, now - c.pollInterval, 0)
  }

  class Loop {
    const cfg: Config
    var lastGen: Option<int>
    var lastFullTime: real
    var consecutiveFailures: nat

    constructor (cfg: Config, now: real)
      ensures View() == Start(cfg, now) && this.cfg == cfg
    {
      this.cfg := cfg;
      lastGen, lastFullTime, consecutiveFailures := None, now - cfg.pollInterval, 0;
    }

    ghost function View(): State
      reads this
    {
      State(lastGen, lastFullTime, consecutiveFailures)
    }

    method RunTick(t: Tick) returns (reported: bool, extraBackoff: nat)
      modifies this
      ensures (View(), Outcome(reported, extraBackoff)) == Step(cfg, old(View()), t)
    {
      extraBackoff := 0;
      var transition := t.gen.Some? && lastGen.Some? && t.gen != lastGen;
      var heartbeatDue := t.checkedAt - lastFullTime >= cfg.pollInterval;
      reported := transition || heartbeatDue;
      if reported {
        lastFullTime := t.attemptedAt;
        if t.poll.Posted? {
          consecutiveFailures := 0;
          if t.gen.Some? {
            lastGen := t.gen;
          }
        } else {
          consecutiveFailures := consecutiveFailures + 1;
          var exp := Min(consecutiveFailures - 1, MAX_EXPONENT);
          extraBackoff := Min(cfg.backoffBase * Pow2(exp), cfg.backoffMax);
        }
      } else if t.gen.Some? {
        lastGen := t.gen;
      }
    }
  }

  // ----- runs -----

  function Run(c: Config, s: State, ts: seq<Tick>): State {
    if ts == [] then s else Step(c, Run(c, s, ts[..|ts| - 1]), ts[|ts| - 1]).0
  }

  function OutcomeAt(c: Config, s: State, ts: seq<Tick>, i: nat): Outcome
    requires i < |ts|
  {
    Step(c, Run(c, s, ts[..i]), ts[i]).1
  }

  predicate Succeeds(c: Config, s: State, ts: seq<Tick>, i: nat)
    requires i < |ts|
  {
    OutcomeAt(c, s, ts, i).reported && ts[i].poll.Posted?
  }

  /** After a tick the known counter value is the one read at its start, before any
      dispatcher snapshot, if it could be read and no report failed; else it stays. So a
      known value moves exactly in a tick that read another one and posted a report. */
  lemma KnownGenMovesIff(c: Config, s: State, t: Tick)
    ensures var (s', o) := Step(c, s, t);
            && s'.lastGen == (if t.gen.Some? && (o.reported ==> t.poll.Posted?) then t.gen else s.lastGen)
            && (s.lastGen.Some? ==> (s'.lastGen != s.lastGen <==> t.gen.Some? && t.gen != s.lastGen && t.poll.Posted?))
  {
  }

  /** From a known value on, and until a report is posted, every tick that can read
      a different value reports: a change is retried, never forgotten. */
  lemma {:induction false} ChangeIsRetriedUntilPosted(c: Config, s: State, ts: seq<Tick>, i: nat)
    requires s.lastGen.Some? && i < |ts|
    requires forall k: nat | k < i :: !Succeeds(c, s, ts, k)
    ensures Run(c, s, ts[..i]).lastGen == s.lastGen
    ensures ts[i].gen.Some? && ts[i].gen != s.lastGen ==> OutcomeAt(c, s, ts, i).reported
    decreases i
  {
    if i > 0 {
      ChangeIsRetriedUntilPosted(c, s, ts, i - 1);
      assert ts[..i][..i - 1] == ts[..i - 1];
      KnownGenMovesIff(c, Run(c, s, ts[..i - 1]), ts[i - 1]);
      assert !Succeeds(c, s, ts, i - 1);
    }
  }

  /** Failed attempts since the last posted report, read off the run's outcomes. */
  function FailedInARow(c: Config, s: State, ts: seq<Tick>): nat {
    if ts == [] then s.failures
    else
      var n := |ts| - 1;
      if !OutcomeAt(c, s, ts, n).reported then FailedInARow(c, s, ts[..n])
      else if ts[n].poll.Posted? then 0
      else FailedInARow(c, s, ts[..n]) + 1
  }

  /** The last attempt's time, or what the start state holds. */
  function LastAttempt(c: Config, s: State, ts: seq<Tick>): real {
    if ts == [] then s.lastFullTime
    else
      var n := |ts| - 1;
      if OutcomeAt(c, s, ts, n).reported then ts[n].attemptedAt else LastAttempt(c, s, ts[..n])
  }

  lemma {:induction false} StateIsItsHistory(c: Config, s: State, ts: seq<Tick>)
    ensures Run(c, s, ts).failures == FailedInARow(c, s, ts)
    ensures Run(c, s, ts).lastFullTime == LastAttempt(c, s, ts)
  {
    if ts != [] {
      StateIsItsHistory(c, s, ts[..|ts| - 1]);
    }
  }

  /** A tick at least a poll interval after the last attempt always attempts; an
      earlier one attempts only for a changed counter. */
  lemma HeartbeatFiresOnTime(c: Config, s: State, ts: seq<Tick>, i: nat)
    requires i < |ts|
    ensures OutcomeAt(c, s, ts, i).reported
            <==> ts[i].checkedAt - LastAttempt(c, s, ts[..i]) >= c.pollInterval || Transition(Run(c, s, ts[..i]), ts[i])
  {
    StateIsItsHistory(c, s, ts[..i]);
  }

  // ----- the backoff -----

  lemma Times(a: nat, b: nat, k: nat)
    requires a <= b
    ensures k * a <= k * b && (a < b && k > 0 ==> k * a < k * b)
  {
  }

  /** The capped exponent computes the documented wait. */
  predicate Documented(c: Config, n: nat)
    requires n >= 1
  {
    var doubled := c.backoffBase * Pow2(n - 1);
    ExtraBackoff(c, n) == if doubled > c.backoffMax then c.backoffMax else doubled
  }

  /** Every failure waits min(base * 2^(n-1), max) exactly when max is within the
      capped exponent's reach. */
  lemma {:induction false} BackoffIsDocumentedIffMaxInReach(c: Config)
    requires GoodConfig(c)
    ensures (forall n: nat | n >= 1 :: Documented(c, n)) <==> c.backoffMax <= c.backoffBase * Pow2(30)
  {
    if c.backoffMax <= c.backoffBase * Pow2(MAX_EXPONENT) {
      forall n: nat | n >= 1 ensures Documented(c, n) {
        if n - 1 > MAX_EXPONENT {
          Pow2Grows(MAX_EXPONENT, n - 1);
          Times(Pow2(MAX_EXPONENT), Pow2(n - 1), c.backoffBase);
        }
      }
    } else {
      Pow2Grows(MAX_EXPONENT, MAX_EXPONENT + 1);
      Times(Pow2(MAX_EXPONENT), Pow2(MAX_EXPONENT + 1), c.backoffBase);
      assert !Documented(c, MAX_EXPONENT + 2);
    }
  }

  /** In every run the wait after a failed attempt is set by how many failed in a
      row, and nothing is added after any other tick. The wait is the documented one
      while max is within the capped exponent's reach. */
  lemma {:induction false} BackoffFollowsTheFailures(c: Config, s: State, ts: seq<Tick>, i: nat)
    requires GoodConfig(c) && i < |ts|
    ensures var o, n := OutcomeAt(c, s, ts, i), FailedInARow(c, s, ts[..i]) + 1;
            && o.extraBackoff == (if o.reported && !ts[i].poll.Posted? then ExtraBackoff(c, n) else 0)
            && (c.backoffMax <= c.backoffBase * Pow2(30) ==> Documented(c, n))
  {
    StateIsItsHistory(c, s, ts[..i]);
    BackoffIsDocumentedIffMaxInReach(c);
  }

  // ----- what the API holds -----

  /** The snapshot the API last accepted. */
  function Held(c: Config, s: State, ts: seq<Tick>): Option<int> {
    if ts == [] then None
    else
      var n := |ts| - 1;
      if Succeeds(c, s, ts, n) then Some(ts[n].poll.snapshot) else Held(c, s, ts[..n])
  }

  /** The counter never runs backwards, so a snapshot is at least as new as the
      counter read before it and no older than any earlier reading. */
  ghost predicate CounterGrows(ts: seq<Tick>) {
    forall i, j | 0 <= i <= j < |ts| && ts[i].gen.Some? && ts[j].poll.Posted? :: ts[i].gen.value <= ts[j].poll.snapshot
  }

  /** The API is behind the counter the monitor goes by: it would not be told until the
      counter changes again or the heartbeat is due. */
  predicate Behind(c: Config, s: State, ts: seq<Tick>) {
    var known, held := Run(c, s, ts).lastGen, Held(c, s, ts);
    known.Some? && (held.None? || held.value < known.value)
  }

  /** Tick `a` takes over the counter without a report: it was unknown, and the
      heartbeat was not due. */
  predicate Adopts(c: Config, s: State, ts: seq<Tick>, a: nat)
    requires a < |ts|
  {
    Run(c, s, ts[..a]).lastGen.None? && ts[a].gen.Some? && !OutcomeAt(c, s, ts, a).reported
  }

  /** Adopted at `a`, newer than anything posted before, and nothing posted since. */
  ghost predicate AdoptedUnposted(c: Config, s: State, ts: seq<Tick>, a: nat)
    requires a < |ts|
  {
    && Adopts(c, s, ts, a)
    && (Held(c, s, ts[..a]).None? || Held(c, s, ts[..a]).value < ts[a].gen.value)
    && forall k: nat | a < k < |ts| :: !Succeeds(c, s, ts, k)
  }

  lemma PrefixSame(c: Config, s: State, ts: seq<Tick>, n: nat, k: nat)
    requires k < n <= |ts|
    ensures ts[..n][k] == ts[k] && ts[..n][..k] == ts[..k]
    ensures OutcomeAt(c, s, ts[..n], k) == OutcomeAt(c, s, ts, k)
    ensures Succeeds(c, s, ts[..n], k) <==> Succeeds(c, s, ts, k)
    ensures Adopts(c, s, ts[..n], k) <==> Adopts(c, s, ts, k)
  {
    assert ts[..n][..k] == ts[..k];
  }

  lemma {:induction false} KnownGenWasRead(c: Config, s: State, ts: seq<Tick>)
    requires s.lastGen.None?
    ensures Run(c, s, ts).lastGen.Some? ==> exists i :: 0 <= i < |ts| && ts[i].gen == Run(c, s, ts).lastGen
  {
    if ts != [] {
      var n := |ts| - 1;
      KnownGenWasRead(c, s, ts[..n]);
      assert forall i | 0 <= i < n :: ts[..n][i] == ts[i];
    }
  }

  /** Once known, the counter stays known. */
  lemma {:induction false} KnownStays(c: Config, s: State, ts: seq<Tick>, a: nat)
    requires a < |ts| && Run(c, s, ts[..a + 1]).lastGen.Some?
    ensures Run(c, s, ts).lastGen.Some?
  {
    if a + 1 == |ts| {
      assert ts[..a + 1] == ts;
    } else {
      var n := |ts| - 1;
      assert ts[..n][..a + 1] == ts[..a + 1];
      KnownStays(c, s, ts[..n], a);
    }
  }

  lemma AdoptingMakesKnown(c: Config, s: State, ts: seq<Tick>, a: nat)
    requires a < |ts| && Adopts(c, s, ts, a)
    ensures Run(c, s, ts).lastGen.Some?
    ensures Run(c, s, ts[..a + 1]).lastGen == ts[a].gen
  {
    assert ts[..a + 1][..a] == ts[..a];
    KnownStays(c, s, ts, a);
  }

  /** A posted report brings the API up to the known counter. */
  lemma PostedIsNotBehind(c: Config, s: State, ts: seq<Tick>)
    requires s.lastGen.None? && CounterGrows(ts) && ts != [] && Succeeds(c, s, ts, |ts| - 1)
    ensures !Behind(c, s, ts)
  {
    KnownGenWasRead(c, s, ts);
  }

  lemma OneTickLater(c: Config, s: State, ts: seq<Tick>, a: nat)
    requires a < |ts| - 1
    ensures AdoptedUnposted(c, s, ts, a)
            <==> AdoptedUnposted(c, s, ts[..|ts| - 1], a) && !Succeeds(c, s, ts, |ts| - 1)
  {
    var n := |ts| - 1;
    PrefixSame(c, s, ts, n, a);
    forall k: nat | a < k < n
      ensures Succeeds(c, s, ts[..n], k) <==> Succeeds(c, s, ts, k)
    {
      PrefixSame(c, s, ts, n, k);
    }
  }

  /** The API is behind exactly when the known counter was adopted at some tick without
      a report, nothing posted before was as new, and nothing has been posted since. */
  lemma {:induction false} BehindIff(c: Config, s: State, ts: seq<Tick>)
    requires s.lastGen.None? && CounterGrows(ts)
    ensures Behind(c, s, ts) <==> exists a: nat :: a < |ts| && AdoptedUnposted(c, s, ts, a)
  {
    if ts != [] {
      var n := |ts| - 1;
      var init := ts[..n];
      assert forall i | 0 <= i < n :: init[i] == ts[i];
      BehindIff(c, s, init);
      forall a: nat | a < n
        ensures AdoptedUnposted(c, s, ts, a) <==> AdoptedUnposted(c, s, init, a) && !Succeeds(c, s, ts, n)
        ensures Adopts(c, s, ts, a) ==> Run(c, s, init).lastGen.Some?
      {
        OneTickLater(c, s, ts, a);
        PrefixSame(c, s, ts, n, a);
        if Adopts(c, s, init, a) {
          AdoptingMakesKnown(c, s, init, a);
        }
      }
      if Succeeds(c, s, ts, n) {
        PostedIsNotBehind(c, s, ts);
      } else if Adopts(c, s, ts, n) {
        assert AdoptedUnposted(c, s, ts, n) <==> Behind(c, s, ts);
      } else {
        assert Run(c, s, ts).lastGen == Run(c, s, init).lastGen;
      }
    }
  }

  /** The first tick that does not report. */
  lemma {:induction false} FirstQuiet(c: Config, s: State, ts: seq<Tick>, k: nat) returns (a: nat)
    requires k < |ts| && !OutcomeAt(c, s, ts, k).reported
    ensures a <= k && !OutcomeAt(c, s, ts, a).reported
    ensures forall j: nat | j < a :: OutcomeAt(c, s, ts, j).reported
    decreases k
  {
    a := k;
    if j: nat :| j < k && !OutcomeAt(c, s, ts, j).reported {
      a := FirstQuiet(c, s, ts, j);
    }
  }

  /** While every report fails, nothing is known and nothing held. */
  lemma {:induction false} FailingKnowsNothing(c: Config, s: State, ts: seq<Tick>)
    requires s.lastGen.None?
    requires forall k: nat | k < |ts| :: OutcomeAt(c, s, ts, k).reported && !Succeeds(c, s, ts, k)
    ensures Run(c, s, ts).lastGen.None? && Held(c, s, ts).None?
  {
    if ts != [] {
      var n := |ts| - 1;
      forall k: nat | k < n
        ensures OutcomeAt(c, s, ts[..n], k).reported && !Succeeds(c, s, ts[..n], k)
      {
        PrefixSame(c, s, ts, n, k);
      }
      FailingKnowsNothing(c, s, ts[..n]);
      assert OutcomeAt(c, s, ts, n).reported && !Succeeds(c, s, ts, n);
    }
  }

  /** With the counter readable at every tick, the API is behind exactly when no report
      has been posted and some tick did not report. */
  lemma {:induction false} BehindIffNothingPosted(c: Config, s: State, ts: seq<Tick>)
    requires s.lastGen.None? && CounterGrows(ts) && forall k | 0 <= k < |ts| :: ts[k].gen.Some?
    ensures Behind(c, s, ts)
            <==> (forall k: nat | k < |ts| :: !Succeeds(c, s, ts, k)) && exists k: nat :: k < |ts| && !OutcomeAt(c, s, ts, k).reported
  {
    BehindIff(c, s, ts);
    if a: nat :| a < |ts| && AdoptedUnposted(c, s, ts, a) {
      forall k: nat | k < |ts|
        ensures !Succeeds(c, s, ts, k)
      {
        if k < a && Succeeds(c, s, ts, k) {
          PostingMakesKnown(c, s, ts, k, a);
        }
      }
    }
    if (forall k: nat | k < |ts| :: !Succeeds(c, s, ts, k)) && exists k: nat :: k < |ts| && !OutcomeAt(c, s, ts, k).reported {
      var k: nat :| k < |ts| && !OutcomeAt(c, s, ts, k).reported;
      var a := FirstQuiet(c, s, ts, k);
      forall j: nat | j < a
        ensures OutcomeAt(c, s, ts[..a], j).reported && !Succeeds(c, s, ts[..a], j)
      {
        PrefixSame(c, s, ts, a, j);
      }
      FailingKnowsNothing(c, s, ts[..a]);
      assert AdoptedUnposted(c, s, ts, a);
    }
  }

  lemma PostingMakesKnown(c: Config, s: State, ts: seq<Tick>, k: nat, a: nat)
    requires k < a < |ts| && Succeeds(c, s, ts, k) && ts[k].gen.Some?
    ensures Run(c, s, ts[..a]).lastGen.Some?
  {
    assert ts[..k + 1][..k] == ts[..k] && ts[..a][..k + 1] == ts[..k + 1];
    KnownStays(c, s, ts[..a], k);
  }

  /** The exception is real: when the first report fails, the next tick adopts the
      counter without a report, and the API holds nothing until the heartbeat. */
  lemma FailedBaselineWaitsForTheHeartbeat()
    ensures var c := Config(15.0, 5, 120);
            var ts := [Tick(Some(7), 100.0, 100.0, PostFailed), Tick(Some(7), 108.0, 108.0, Posted(7)),
                       Tick(Some(7), 111.0, 111.0, Posted(7))];
            Behind(c, Start(c, 100.0), ts) && Held(c, Start(c, 100.0), ts) == None
  {
    var c := Config(15.0, 5, 120);
    var s := Start(c, 100.0);
    var ts := [Tick(Some(7), 100.0, 100.0, PostFailed), Tick(Some(7), 108.0, 108.0, Posted(7)),
               Tick(Some(7), 111.0, 111.0, Posted(7))];
    assert ts[..1][..0] == [] && ts[..2][..1] == ts[..1];
    assert Pow2(0) == 1;
    assert Run(c, s, ts[..1]) == State(None, 100.0, 1) && Held(c, s, ts[..1]) == None;
    assert Run(c, s, ts[..2]) == State(Some(7), 100.0, 1) && Held(c, s, ts[..2]) == None;
  }
}
