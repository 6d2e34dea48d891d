/** When the forwarder may try: the backoff for the whole queue, cut short by a
    probe, over any run of passes. */
module SpoolBackoff {
  import opened Wrappers
  import opened Powers
  import opened Spool

  /** The fields that outlive a pass. `network` is the flag that the last failure
      was a network one. */
  datatype Control = Control(backoff: real, nextAttempt: real, lastScan: real, lastProbe: real, network: bool, reachable: bool)

  const START := Control(0.0, 0.0, 0.0, 0.0, false, false)

  /** What one pass meets: the time, the messages left after the caps, the probe's
      answer if it is asked, the network's answers, and the clock and the jitter
      factor at a failure. */
  datatype Pass = Pass(now: real, queue: seq<Msg>, probe: bool, answers: Uuid -> Exchange, failedAt: real, jitter: real)

  function Min(a: real, b: real): real {
    if a <= b then a else b
  }

  function Max(a: real, b: real): real {
    if a >= b then a else b
  }

  function Heard(c: Control, x: Exchange): Control {
    match x
    case NoAnswer => c.(reachable := false, network := true)
    case Answered(_, _) => c.(reachable := true, network := false)
    case _ => c
  }

  function BackOff(cfg: Config, c: Control, at: real, jitter: real): Control {
    var b := Min(cfg.backoffMax, Max(cfg.backoffMin, c.backoff * 2.0));
    c.(backoff := b, nextAttempt := at + b * jitter)
  }

  function AfterOne(cfg: Config, c: Control, m: Msg, p: Pass): Control {
    if m.error.Some? then c
    else
      var h := Heard(c, p.answers(m.uuid));
      match Classify(p.answers(m.uuid))
      case Refused => h
      case Retry => BackOff(cfg, h, p.failedAt, p.jitter)
      case _ => h.(backoff := 0.0)
  }

  function AfterEach(cfg: Config, c: Control, ms: seq<Msg>, p: Pass): Control {
    if ms == [] then c else AfterOne(cfg, AfterEach(cfg, c, ms[..|ms| - 1], p), ms[|ms| - 1], p)
  }

  /** Whether the probe is asked at all. */
  predicate MayProbe(cfg: Config, c: Control, now: real) {
    c.network && now - c.lastProbe >= cfg.scanInterval
  }

  /** Whether the queue is replayed in this pass. */
  predicate Goes(cfg: Config, c: Control, p: Pass) {
    p.queue != [] && (p.now >= c.nextAttempt || (MayProbe(cfg, c, p.now) && p.probe))
  }

  predicate Early(c: Control, p: Pass) {
    p.now < c.nextAttempt
  }

  /** The control state when the replay starts, or when the pass ends without one. */
  function Gate(cfg: Config, c: Control, p: Pass): Control {
    var c1 := c.(lastScan := p.now);
    if p.queue == [] || !Early(c, p) || !MayProbe(cfg, c, p.now) then c1
    else if !p.probe then c1.(lastProbe := p.now)
    else c1.(lastProbe := p.now, reachable := true, backoff := 0.0)
  }

  function Tried(p: Pass): seq<Msg> {
    p.queue[..Reached(p.queue, p.answers)]
  }

  function AfterPass(cfg: Config, c: Control, p: Pass): Control {
    if Goes(cfg, c, p) then AfterEach(cfg, Gate(cfg, c, p), Tried(p), p) else Gate(cfg, c, p)
  }

  function AfterRun(cfg: Config, ps: seq<Pass>): Control {
    if ps == [] then START else AfterPass(cfg, AfterRun(cfg, ps[..|ps| - 1]), ps[|ps| - 1])
  }

  // ----- the history a run leaves, and what it alone says -----

  datatype Signal = Probed | Sent(x: Exchange)

  function Signals(ms: seq<Msg>, p: Pass): seq<Signal> {
    if ms == [] then []
    else Signals(ms[..|ms| - 1], p) + if ms[|ms| - 1].error.Some? then [] else [Sent(p.answers(ms[|ms| - 1].uuid))]
  }

  /** A pass leaves a signal for the probe that opened it and for every message
      tried. */
  function PassHistory(cfg: Config, c: Control, p: Pass): seq<Signal> {
    if !Goes(cfg, c, p) then [] else (if Early(c, p) then [Probed] else []) + Signals(Tried(p), p)
  }

  function History(cfg: Config, ps: seq<Pass>): seq<Signal> {
    if ps == [] then []
    else History(cfg, ps[..|ps| - 1]) + PassHistory(cfg, AfterRun(cfg, ps[..|ps| - 1]), ps[|ps| - 1])
  }

  predicate Fails(s: Signal) {
    s.Sent? && IsFailure(s.x)
  }

  /** A delivery, a 410 or an answered probe ends the count; a 422 does not. */
  predicate Clears(s: Signal) {
    s.Probed? || SaysHeld(s.x) || SaysGone(s.x)
  }

  /** Failures with nothing after them that clears. */
  function Failures(h: seq<Signal>): nat {
    if h == [] || Clears(h[|h| - 1]) then 0
    else Failures(h[..|h| - 1]) + if Fails(h[|h| - 1]) then 1 else 0
  }

  predicate OnWire(s: Signal) {
    s.Sent? && (s.x.NoAnswer? || s.x.Answered?)
  }

  /** The last attempt that reached the wire got no answer. */
  predicate WireIsDown(h: seq<Signal>) {
    h != [] && if OnWire(h[|h| - 1]) then h[|h| - 1].x.NoAnswer? else WireIsDown(h[..|h| - 1])
  }

  function LastFailure(h: seq<Signal>): Option<Exchange> {
    if h == [] then None else if Fails(h[|h| - 1]) then Some(h[|h| - 1].x) else LastFailure(h[..|h| - 1])
  }

  /** The documented backoff after `n` failures. */
  function Doubled(cfg: Config, n: nat): real {
    if n == 0 then 0.0 else Min(cfg.backoffMax, cfg.backoffMin * Pow2(n - 1) as real)
  }

  predicate GoodConfig(cfg: Config) {
    cfg.backoffMin >= 1.0 && cfg.backoffMax >= 1.0
  }

  /** The API was reached last: by an answered probe, or by a request that was answered;
      a request that never reached the wire says nothing. */
  predicate WasReached(h: seq<Signal>) {
    h != [] && (h[|h| - 1].Probed? || if OnWire(h[|h| - 1]) then h[|h| - 1].x.Answered? else WasReached(h[..|h| - 1]))
  }

  /** What the control state has to do with the history. */
  predicate Tells(cfg: Config, c: Control, h: seq<Signal>) {
    c.backoff == Doubled(cfg, Failures(h)) && c.network == WireIsDown(h) && c.reachable == WasReached(h)
  }

  lemma DoublingOnce(cfg: Config, n: nat)
    requires GoodConfig(cfg)
    ensures Min(cfg.backoffMax, Max(cfg.backoffMin, Doubled(cfg, n) * 2.0)) == Doubled(cfg, n + 1)
  {
    if n > 0 {
      Pow2Positive(n - 1);
      var p := Pow2(n - 1) as real;
      assert Pow2(n) as real == 2.0 * p;
      assert cfg.backoffMin * p >= cfg.backoffMin;
      assert cfg.backoffMin * (2.0 * p) == cfg.backoffMin * p * 2.0;
    }
  }

  lemma OneSignalMore(cfg: Config, c: Control, h: seq<Signal>, m: Msg, p: Pass)
    requires GoodConfig(cfg) && Tells(cfg, c, h)
    ensures Tells(cfg, AfterOne(cfg, c, m, p), h + if m.error.Some? then [] else [Sent(p.answers(m.uuid))])
  {
    if m.error.Some? {
      assert h + [] == h;
    } else {
      var h' := h + [Sent(p.answers(m.uuid))];
      assert h'[..|h|] == h;
      DoublingOnce(cfg, Failures(h));
    }
  }

  lemma {:induction false} ReplayTells(cfg: Config, c: Control, h: seq<Signal>, ms: seq<Msg>, p: Pass)
    requires GoodConfig(cfg) && Tells(cfg, c, h)
    ensures Tells(cfg, AfterEach(cfg, c, ms, p), h + Signals(ms, p))
  {
    if ms == [] {
      assert h + Signals(ms, p) == h;
    } else {
      var init, m := ms[..|ms| - 1], ms[|ms| - 1];
      ReplayTells(cfg, c, h, init, p);
      OneSignalMore(cfg, AfterEach(cfg, c, init, p), h + Signals(init, p), m, p);
      assert h + Signals(init, p) + (if m.error.Some? then [] else [Sent(p.answers(m.uuid))]) == h + Signals(ms, p);
    }
  }

  lemma PassTells(cfg: Config, c: Control, h: seq<Signal>, p: Pass)
    requires GoodConfig(cfg) && Tells(cfg, c, h)
    ensures Tells(cfg, AfterPass(cfg, c, p), h + PassHistory(cfg, c, p))
  {
    if !Goes(cfg, c, p) {
      assert h + [] == h;
    } else {
      var before := h + if Early(c, p) then [Probed] else [];
      assert Early(c, p) ==> before[..|h|] == h;
      assert !Early(c, p) ==> before == h;
      ReplayTells(cfg, Gate(cfg, c, p), before, Tried(p), p);
      assert before + Signals(Tried(p), p) == h + PassHistory(cfg, c, p);
    }
  }

  /** Over every run: after n failures since the last delivery, 410 or answered
      probe, the backoff is min(max, min * 2^(n-1)), and the network flag says
      whether the last attempt that reached the wire went unanswered. */
  lemma {:induction false} BackoffFollowsTheFailures(cfg: Config, ps: seq<Pass>)
    requires GoodConfig(cfg)
    ensures AfterRun(cfg, ps).backoff == Doubled(cfg, Failures(History(cfg, ps)))
    ensures AfterRun(cfg, ps).network == WireIsDown(History(cfg, ps))
    ensures AfterRun(cfg, ps).reachable == WasReached(History(cfg, ps))
  {
    if ps != [] {
      BackoffFollowsTheFailures(cfg, ps[..|ps| - 1]);
      PassTells(cfg, AfterRun(cfg, ps[..|ps| - 1]), History(cfg, ps[..|ps| - 1]), ps[|ps| - 1]);
    }
  }

  /** A pass with something to send tries it exactly when the backoff is over, or
      when the wire was last seen down, a scan interval has gone by since the last
      probe, and the probe is answered. */
  lemma TriesOnlyWhenDueOrProbed(cfg: Config, ps: seq<Pass>, p: Pass)
    requires GoodConfig(cfg)
    ensures var c, h := AfterRun(cfg, ps), History(cfg, ps);
            Goes(cfg, c, p)
            <==> p.queue != []
                 && (p.now >= c.nextAttempt || (WireIsDown(h) && p.now - c.lastProbe >= cfg.scanInterval && p.probe))
  {
    BackoffFollowsTheFailures(cfg, ps);
  }

  lemma OnePassMore(cfg: Config, ps: seq<Pass>, p: Pass)
    ensures AfterRun(cfg, ps + [p]) == AfterPass(cfg, AfterRun(cfg, ps), p)
    ensures History(cfg, ps + [p]) == History(cfg, ps) + PassHistory(cfg, AfterRun(cfg, ps), p)
  {
    assert (ps + [p])[..|ps|] == ps;
  }

  /** The probe is asked in this pass. */
  predicate Asks(cfg: Config, c: Control, p: Pass) {
    p.queue != [] && Early(c, p) && MayProbe(cfg, c, p.now)
  }

  lemma {:induction false} AnAskedProbeIsRemembered(cfg: Config, ps: seq<Pass>, i: nat)
    requires i < |ps| && Asks(cfg, AfterRun(cfg, ps[..i]), ps[i])
    requires forall j, k | 0 <= j < k < |ps| :: ps[j].now <= ps[k].now
    ensures ps[i].now <= AfterRun(cfg, ps).lastProbe <= ps[|ps| - 1].now
  {
    var init, p := ps[..|ps| - 1], ps[|ps| - 1];
    OnlyTheGateProbes(cfg, AfterRun(cfg, init), p);
    if i < |init| {
      assert init[..i] == ps[..i];
      AnAskedProbeIsRemembered(cfg, init, i);
    } else {
      assert ps[..i] == init;
    }
  }

  lemma {:induction false} SendsDoNotProbe(cfg: Config, c: Control, ms: seq<Msg>, p: Pass)
    ensures AfterEach(cfg, c, ms, p).lastProbe == c.lastProbe
  {
    if ms != [] {
      SendsDoNotProbe(cfg, c, ms[..|ms| - 1], p);
    }
  }

  lemma OnlyTheGateProbes(cfg: Config, c: Control, p: Pass)
    ensures AfterPass(cfg, c, p).lastProbe == if Asks(cfg, c, p) then p.now else c.lastProbe
  {
    SendsDoNotProbe(cfg, Gate(cfg, c, p), Tried(p), p);
  }

  /** Two probes are at least a scan interval apart, in every run whose clock does
      not step back. */
  lemma ProbesAreSpaced(cfg: Config, ps: seq<Pass>, i: nat, j: nat)
    requires i < j < |ps|
    requires forall a, b | 0 <= a < b < |ps| :: ps[a].now <= ps[b].now
    ensures Asks(cfg, AfterRun(cfg, ps[..i]), ps[i]) && Asks(cfg, AfterRun(cfg, ps[..j]), ps[j])
            ==> ps[j].now - ps[i].now >= cfg.scanInterval
  {
    if Asks(cfg, AfterRun(cfg, ps[..i]), ps[i]) && Asks(cfg, AfterRun(cfg, ps[..j]), ps[j]) {
      assert ps[..j][..i] == ps[..i];
      AnAskedProbeIsRemembered(cfg, ps[..j], i);
    }
  }

  lemma FailureSetsTheTime(cfg: Config, c: Control, p: Pass)
    requires Goes(cfg, c, p) && Reached(p.queue, p.answers) > 0
    requires Stops(Tried(p)[|Tried(p)| - 1], p.answers)
    ensures var c' := AfterPass(cfg, c, p); c'.nextAttempt == p.failedAt + c'.backoff * p.jitter
  {
  }

  lemma Jitter(b: real, j: real)
    requires b >= 0.0 && 0.8 <= j <= 1.2
    ensures 0.8 * b <= b * j <= 1.2 * b
  {
  }

  lemma DoubledIsPositive(cfg: Config, n: nat)
    requires GoodConfig(cfg) && n > 0
    ensures Doubled(cfg, n) >= 1.0
  {
    Pow2Positive(n - 1);
    assert cfg.backoffMin * Pow2(n - 1) as real >= cfg.backoffMin;
  }

  lemma LastSignalIsTheFailure(cfg: Config, c: Control, h: seq<Signal>, p: Pass)
    requires Goes(cfg, c, p) && Reached(p.queue, p.answers) > 0
    requires Stops(Tried(p)[|Tried(p)| - 1], p.answers)
    ensures Failures(h + PassHistory(cfg, c, p)) > 0
  {
    var last := Tried(p)[|Tried(p)| - 1];
    var all := h + PassHistory(cfg, c, p);
    assert Signals(Tried(p), p)[|Signals(Tried(p), p)| - 1] == Sent(p.answers(last.uuid));
    assert all[|all| - 1] == Sent(p.answers(last.uuid));
  }

  /** The next attempt is within a fifth of the backoff. */
  predicate IsJittered(c: Control, at: real) {
    c.backoff >= 0.0 && at + 0.8 * c.backoff <= c.nextAttempt <= at + 1.2 * c.backoff
  }

  lemma JitteredControl(c: Control, at: real, jitter: real)
    requires c.backoff >= 0.0 && 0.8 <= jitter <= 1.2 && c.nextAttempt == at + c.backoff * jitter
    ensures IsJittered(c, at)
  {
    Jitter(c.backoff, jitter);
  }

  lemma FailedPassIsJittered(cfg: Config, c: Control, p: Pass)
    requires 0.8 <= p.jitter <= 1.2 && Goes(cfg, c, p) && Reached(p.queue, p.answers) > 0
    requires Stops(Tried(p)[|Tried(p)| - 1], p.answers) && AfterPass(cfg, c, p).backoff >= 0.0
    ensures IsJittered(AfterPass(cfg, c, p), p.failedAt)
  {
    FailureSetsTheTime(cfg, c, p);
    JitteredControl(AfterPass(cfg, c, p), p.failedAt, p.jitter);
  }

  /** A pass that ends at a failure sets the next attempt within a fifth of the
      doubled backoff, counted from the failure. */
  lemma {:induction false} NextAttemptIsJittered(cfg: Config, ps: seq<Pass>, p: Pass)
    requires GoodConfig(cfg) && 0.8 <= p.jitter <= 1.2
    requires Goes(cfg, AfterRun(cfg, ps), p) && Reached(p.queue, p.answers) > 0
    requires Stops(Tried(p)[|Tried(p)| - 1], p.answers)
    ensures var n := Failures(History(cfg, ps + [p]));
            && n > 0
            && Doubled(cfg, n) >= 1.0
            && p.failedAt + 0.8 * Doubled(cfg, n) <= AfterRun(cfg, ps + [p]).nextAttempt <= p.failedAt + 1.2 * Doubled(cfg, n)
  {
    var n := Failures(History(cfg, ps + [p]));
    OnePassMore(cfg, ps, p);
    LastSignalIsTheFailure(cfg, AfterRun(cfg, ps), History(cfg, ps), p);
    BackoffFollowsTheFailures(cfg, ps + [p]);
    DoubledIsPositive(cfg, n);
    FailedPassIsJittered(cfg, AfterRun(cfg, ps), p);
  }

  predicate NeverOnWire(x: Exchange) {
    x in {NotConfigured, NoSecret, BlobUnreadable}
  }

  lemma {:induction false} DownMeansAFailure(h: seq<Signal>)
    requires WireIsDown(h)
    ensures LastFailure(h).Some?
    ensures LastFailure(h).value.NoAnswer? <==> !NeverOnWire(LastFailure(h).value)
  {
    if !OnWire(h[|h| - 1]) && !Fails(h[|h| - 1]) {
      DownMeansAFailure(h[..|h| - 1]);
    }
  }

  /** An attempt before its time follows a network failure, as documented, exactly
      when the last failure was not a local one that never reached the wire. */
  lemma {:induction false} EarlyAttemptFollowsANetworkFailureUnlessLocal(cfg: Config, ps: seq<Pass>, p: Pass)
    requires GoodConfig(cfg)
    requires Goes(cfg, AfterRun(cfg, ps), p) && Early(AfterRun(cfg, ps), p)
    ensures var last := LastFailure(History(cfg, ps));
            && last.Some?
            && (last.value.NoAnswer? <==> !NeverOnWire(last.value))
  {
    BackoffFollowsTheFailures(cfg, ps);
    DownMeansAFailure(History(cfg, ps));
  }

  const DEFAULTS := Config(604800.0, 2147483648, 10.0, 5.0, 300.0, 3600.0)

  lemma OneMessagePass(cfg: Config, c: Control, p: Pass, m: Msg)
    requires p.queue == [m] && m.error.None? && Goes(cfg, c, p)
    ensures AfterPass(cfg, c, p) == AfterOne(cfg, Gate(cfg, c, p), m, p)
    ensures PassHistory(cfg, c, p) == (if Early(c, p) then [Probed] else []) + [Sent(p.answers(m.uuid))]
  {
    assert [m][..0] == [];
    assert Tried(p) == [m];
    assert AfterEach(cfg, Gate(cfg, c, p), [], p) == Gate(cfg, c, p);
    assert Signals([], p) == [];
    assert Signals([m], p) == [Sent(p.answers(m.uuid))];
  }

  lemma FailingPass(cfg: Config, ps: seq<Pass>, p: Pass, m: Msg, x: Exchange)
    requires p.queue == [m] && m.error.None? && p.answers(m.uuid) == x && IsFailure(x)
    requires p.now >= AfterRun(cfg, ps).nextAttempt
    ensures AfterRun(cfg, ps + [p]) == BackOff(cfg, Heard(AfterRun(cfg, ps).(lastScan := p.now), x), p.failedAt, p.jitter)
    ensures LastFailure(History(cfg, ps + [p])) == Some(x)
  {
    OnePassMore(cfg, ps, p);
    OneMessagePass(cfg, AfterRun(cfg, ps), p, m);
    var h := History(cfg, ps + [p]);
    assert h[|h| - 1] == Sent(x);
  }

  /** A network failure at 0, then a missing secret at 10: the flag is stale, and a
      probe at 20 still cuts the second backoff short although the network was not
      what failed last. */
  lemma StaleFlagCutsALocalBackoff(m: Msg, p1: Pass, p2: Pass, p3: Pass)
    requires m.error.None?
    requires p1 == Pass(0.0, [m], true, u => NoAnswer, 0.0, 1.2)
    requires p2 == Pass(10.0, [m], true, u => NoSecret, 10.0, 1.2)
    requires p3 == Pass(20.0, [m], true, u => NoAnswer, 20.0, 1.2)
    ensures LastFailure(History(DEFAULTS, [p1, p2])) == Some(NoSecret)
    ensures Early(AfterRun(DEFAULTS, [p1, p2]), p3) && Goes(DEFAULTS, AfterRun(DEFAULTS, [p1, p2]), p3)
  {
    FailingPass(DEFAULTS, [], p1, m, NoAnswer);
    assert [] + [p1] == [p1];
    FailingPass(DEFAULTS, [p1], p2, m, NoSecret);
    assert [p1] + [p2] == [p1, p2];
  }
}
