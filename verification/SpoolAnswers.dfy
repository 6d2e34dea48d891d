/** What an answer makes of a pending message, over a whole pass and both directories,
    said by the answer's code and status. */
module SpoolAnswers {
  import opened Wrappers
  import opened Spool
  import opened SpoolBackoff
  import opened SpoolPass
  import opened SpoolConservation
  import opened SpoolRejected
  import opened SpoolStranding

  lemma QueuedFits(cap: nat, pending: seq<Msg>, rejected: seq<Msg>, m: Msg)
    requires OneEach(pending) && m in Evict(cap, pending, rejected).pending
    ensures m in pending && Sum(From(pending, m.uuid)) <= cap
  {
    var kept := Evict(cap, pending, rejected).pending;
    PendingIsATail(cap, pending, rejected);
    assert m in pending;
    var j :| 0 <= j < |pending| && pending[j] == m;
    var k :| 0 <= k < |kept| && kept[k] == m;
    HeldIn(kept, m.uuid, k);
    KeptIffItFits(cap, pending, rejected, j);
    FromIs(pending, j);
  }

  /** A message that the caps kept in the queue has the fate its answer gives it, if it
      is tried, and is untouched if not. */
  lemma QueuedFate(cfg: Config, c: Control, ms: seq<Msg>, rs: seq<Msg>, p: Pass, m: Msg)
    requires OneEach(ms) && p.queue == Evict(cfg.maxBytes, Young(cfg, ms, p.now), Young(cfg, rs, p.now)).pending
    requires m in p.queue
    ensures FateIn(cfg, c, ms, p, m) == if Goes(cfg, c, p) && m in Tried(p) then FateOf(m, p.answers) else Pending
  {
    YoungAreKept(cfg, ms, p.now);
    YoungKeepsOrder(cfg, ms, p.now);
    QueuedFits(cfg.maxBytes, Young(cfg, ms, p.now), Young(cfg, rs, p.now), m);
  }

  lemma SweepSparesStrangers(cfg: Config, s: Dirs, s1: Dirs, i: Inputs, u: Uuid)
    requires Listed(s, i) && Paired(s.main, u) && NoneAt(s.rejected, u)
    ensures var swept := SweepOps(cfg, s1, AllOrphans(s, i), i.now);
            SameAt(s1.rejected, ApplyAll(s1, swept).rejected, u) && SameAt(s1.main, ApplyAll(s1, swept).main, u)
  {
    var os := AllOrphans(s, i);
    forall o | o in os
      ensures Spares(cfg, o, i.now, Main, u) && Spares(cfg, o, i.now, Rejected, u)
    {
      NoOrphanOfAPair(cfg, s, i, u, o);
      NoOrphanOfAName(s, i, u, o);
    }
    SweepClear(cfg, s1, os, i.now, Rejected, u);
    SweepClear(cfg, s1, os, i.now, Main, u);
    ClearChangesNothing(s1, SweepOps(cfg, s1, os, i.now), Rejected, u);
    ClearChangesNothing(s1, SweepOps(cfg, s1, os, i.now), Main, u);
  }

  lemma NoOrphanOfAName(s: Dirs, i: Inputs, u: Uuid, o: Orphan)
    requires Listed(s, i) && Paired(s.main, u) && NoneAt(s.rejected, u) && o in AllOrphans(s, i)
    ensures !IsOf(o.name, u)
  {
    if o in Orphans(i.mainNames, Main, s.main) {
      OrphansAreHalves(i.mainNames, Main, s.main, o);
    } else {
      OrphansAreHalves(i.rejectedNames, Rejected, s.rejected, o);
    }
  }

  /** A pass puts the pending message of a name into the rejected directory exactly when
      it reaches it and sets it aside; else nothing comes there under that name. */
  lemma ComesToRejected(decode: Bytes -> Doc, cfg: Config, s: Dirs, c: Control, i: Inputs, u: Uuid)
    requires Listed(s, i) && Paired(s.main, u) && NoneAt(s.rejected, u)
    ensures var s', p := ApplyAll(s, PassOps(decode, cfg, s, c, i)), PassOf(decode, cfg, s, i);
            if IsSetAside(cfg, c, p, u) then SameAt(s.main, s'.rejected, u) else NoneAt(s'.rejected, u)
  {
    var ms, rs, p := Messages(decode, s.main, i.mainNames), Messages(decode, s.rejected, i.rejectedNames), PassOf(decode, cfg, s, i);
    Scanned(decode, s.main, i.mainNames, u);
    Scanned(decode, s.rejected, i.rejectedNames, u);
    HoldsIfScanned(ms, decode, s.main, u);
    PassIsItsPhases(decode, cfg, s, c, i);
    PhasesComeToRejected(cfg, c, s, i, ms, rs, p, CapOps(CapParts(cfg, ms, rs, i.now)), u);
  }

  lemma PhasesComeToRejected(cfg: Config, c: Control, s: Dirs, i: Inputs, ms: seq<Msg>, rs: seq<Msg>, p: Pass, k: seq<Op>, u: Uuid)
    requires Listed(s, i) && Paired(s.main, u) && NoneAt(s.rejected, u) && p.now == i.now
    requires OneEach(ms) && (Holds(ms, u) <==> Paired(s.main, u)) && !Holds(rs, u)
    requires p.queue == Evict(cfg.maxBytes, Young(cfg, ms, i.now), Young(cfg, rs, i.now)).pending
    requires k == CapOps(CapParts(cfg, ms, rs, i.now))
    ensures var ops := k + SweepOps(cfg, ApplyAll(s, k), AllOrphans(s, i), i.now) + ReplayOps(cfg, c, p);
            var s' := ApplyAll(s, ops);
            if IsSetAside(cfg, c, p, u) then SameAt(s.main, s'.rejected, u) else NoneAt(s'.rejected, u)
  {
    var s1 := ApplyAll(s, k);
    var swept := SweepOps(cfg, s1, AllOrphans(s, i), i.now);
    StrangersStayRejected(cfg, s, ms, rs, i.now, u);
    SweepSparesStrangers(cfg, s, s1, i, u);
    CapsLeaveMain(cfg, s, ms, rs, p, u);
    PhasesJoin(s, k, swept, ReplayOps(cfg, c, p), u);
    AsideIsQueued(cfg, c, p, u);
    assert Holds(p.queue, u) ==> Paired(ApplyAll(s1, swept).main, u);
    ReplayOnRejected(cfg, c, p, ApplyAll(s1, swept), u);
  }

  lemma TriedIsSetAside(cfg: Config, c: Control, p: Pass, m: Msg)
    requires OneEach(p.queue) && Goes(cfg, c, p) && m in Tried(p)
    ensures m in p.queue && (IsSetAside(cfg, c, p, m.uuid) <==> SetsAside(m, p.answers))
  {
    var j :| 0 <= j < |Tried(p)| && Tried(p)[j] == m;
    assert p.queue[j] == m;
    forall k: nat | k < Reached(p.queue, p.answers) && p.queue[k].uuid == m.uuid
      ensures k == j
    {
      OnlyThatOne(p, m.uuid, j, k);
    }
  }

  /** The files tell the fates apart. */
  lemma FateIsSeen(s: Dirs, s': Dirs, ops: seq<Op>, m: Msg, answers: Uuid -> Exchange)
    requires Paired(s.main, m.uuid) && Ends(s, s', ops, m.uuid, FateOf(m, answers))
    requires if SetsAside(m, answers) then SameAt(s.main, s'.rejected, m.uuid) else NoneAt(s'.rejected, m.uuid)
    ensures var u, x, bad := m.uuid, answers(m.uuid), m.error.Some?;
            && (NoneAt(s'.main, u) && NoneAt(s'.rejected, u) <==> !bad && (SaysHeld(x) || SaysGone(x)))
            && (NoneAt(s'.main, u) && SameAt(s.main, s'.rejected, u) <==> bad || SaysRefused(x))
            && (SameAt(s.main, s'.main, u) && NoneAt(s'.rejected, u) <==> !bad && IsFailure(x))
  {
    assert Paired(s.main, m.uuid) ==> !(NoneAt(s.main, m.uuid));
  }

  /** For a message that the replay reaches, with nothing under its name in the rejected
      directory before: after the pass it is in neither directory if and only if it was
      answered 200 or 201 with a status of "stored" or "duplicate", or 410; it is set
      aside, unchanged, if and only if its sidecar was bad or it was answered 422; and
      otherwise it is untouched. */
  lemma {:induction false} AnswerDecides(decode: Bytes -> Doc, cfg: Config, s: Dirs, c: Control, i: Inputs, u: Uuid)
    requires Listed(s, i) && Paired(s.main, u) && NoneAt(s.rejected, u)
    requires Goes(cfg, c, PassOf(decode, cfg, s, i)) && Load(decode, s.main, u) in Tried(PassOf(decode, cfg, s, i))
    ensures var s', x := ApplyAll(s, PassOps(decode, cfg, s, c, i)), i.answers(u);
            var bad := Load(decode, s.main, u).error.Some?;
            var taken := x.Answered? && (x.code == 410 || ((x.code == 200 || x.code == 201) && (x.status == Some("stored") || x.status == Some("duplicate"))));
            var refused := x.Answered? && x.code == 422;
            && (NoneAt(s'.main, u) && NoneAt(s'.rejected, u) <==> !bad && taken)
            && (NoneAt(s'.main, u) && SameAt(s.main, s'.rejected, u) <==> bad || refused)
            && (SameAt(s.main, s'.main, u) && NoneAt(s'.rejected, u) <==> !bad && !taken && !refused)
  {
    var ms, rs, p := Messages(decode, s.main, i.mainNames), Messages(decode, s.rejected, i.rejectedNames), PassOf(decode, cfg, s, i);
    var m := Load(decode, s.main, u);
    Scanned(decode, s.main, i.mainNames, u);
    PassIsItsPhases(decode, cfg, s, c, i);
    QueueOnce(cfg, ms, rs, p, u);
    TriedIsSetAside(cfg, c, p, m);
    QueuedFate(cfg, c, ms, rs, p, m);
    ComesToRejected(decode, cfg, s, c, i, u);
    EveryMessageEndsOnce(decode, cfg, s, c, i, u);
    FateIsSeen(s, ApplyAll(s, PassOps(decode, cfg, s, c, i)), PassOps(decode, cfg, s, c, i), m, i.answers);
  }
}
