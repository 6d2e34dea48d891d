/** The messages already set aside, over a whole pass: dropped by a cap, replaced by
    what the pass sets aside under the same name, or left as they are. */
module SpoolRejected {
  import opened Wrappers
  import opened Ordering
  import opened Spool
  import opened SpoolBackoff
  import opened SpoolPass
  import opened SpoolConservation

  // ----- the caps -----

  /** A pair in the rejected directory stays as it is, or is dropped by a cap with
      one journal line. */
  ghost predicate RejectedEnds(s: Dirs, s': Dirs, ops: seq<Op>, u: Uuid, e: Option<Event>) {
    if e.None? then SameAt(s.rejected, s'.rejected, u) && Entries(ops, Rejected, u) == []
    else
      && NoneAt(s'.rejected, u) && Entries(ops, Rejected, u) == [Entry(e.value, u)]
      && (e.value == DroppedAge(Rejected) || (e.value.DroppedSize? && e.value.where == Rejected))
  }

  lemma RejectedDropEnds(s: Dirs, pre: seq<Op>, post: seq<Op>, u: Uuid, why: Why, e: Event)
    requires Clear(pre, Rejected, u) && Clear(post, Rejected, u)
    requires e == DroppedAge(Rejected) || (e.DroppedSize? && e.where == Rejected)
    ensures var ops := pre + (RemovePair(Rejected, u, why) + [Write(Entry(e, u))]) + post;
            RejectedEnds(s, ApplyAll(s, ops), ops, u, Some(e))
  {
    var one := RemovePair(Rejected, u, why) + [Write(Entry(e, u))];
    OnlyItsOwnOpsCount(s, pre, one, post, Rejected, u);
    RemoveScript(ApplyAll(s, pre), Rejected, u, why, Entry(e, u));
  }

  /** What the caps do, as the parts of a pass that has nothing else. */
  function CapParts(cfg: Config, ms: seq<Msg>, rs: seq<Msg>, now: real): Parts {
    Parts(AgeOps(cfg, rs, Rejected, now), AgeOps(cfg, ms, Main, now),
          Evict(cfg.maxBytes, Young(cfg, ms, now), Young(cfg, rs, now)).ops, [], [])
  }

  function CapOps(p: Parts): seq<Op> {
    p.agedRejected + p.agedPending + p.evicted
  }

  lemma AgedRejectedEnds(s: Dirs, p: Parts, pre: seq<Op>, post: seq<Op>, u: Uuid)
    requires p.agedRejected == pre + (RemovePair(Rejected, u, Aged) + [Write(Entry(DroppedAge(Rejected), u))]) + post
    requires Clear(pre, Rejected, u) && Clear(post, Rejected, u)
    requires Clear(p.agedPending, Rejected, u) && Clear(p.evicted, Rejected, u)
    ensures RejectedEnds(s, ApplyAll(s, CapOps(p)), CapOps(p), u, Some(DroppedAge(Rejected)))
  {
    var one := RemovePair(Rejected, u, Aged) + [Write(Entry(DroppedAge(Rejected), u))];
    var after := post + p.agedPending + p.evicted;
    assert CapOps(p) == pre + one + after;
    RejectedDropEnds(s, pre, after, u, Aged, DroppedAge(Rejected));
  }

  lemma EvictedRejectedEnds(s: Dirs, p: Parts, pre: seq<Op>, post: seq<Op>, m: Msg, left: int)
    requires p.evicted == pre + DropForSize(m, Rejected, left) + post
    requires Clear(p.agedRejected, Rejected, m.uuid) && Clear(p.agedPending, Rejected, m.uuid)
    requires Clear(pre, Rejected, m.uuid) && Clear(post, Rejected, m.uuid)
    ensures RejectedEnds(s, ApplyAll(s, CapOps(p)), CapOps(p), m.uuid, Some(DroppedSize(Rejected, left)))
  {
    var before := p.agedRejected + p.agedPending + pre;
    assert CapOps(p) == before + DropForSize(m, Rejected, left) + post;
    RejectedDropEnds(s, before, post, m.uuid, OverCap, DroppedSize(Rejected, left));
  }

  lemma OldRejectedEnds(cfg: Config, s: Dirs, ms: seq<Msg>, rs: seq<Msg>, p: Parts, now: real, m: Msg)
    requires p == CapParts(cfg, ms, rs, now) && OneEach(rs) && m in rs && TooOld(cfg, m, now)
    ensures RejectedEnds(s, ApplyAll(s, CapOps(p)), CapOps(p), m.uuid, Some(DroppedAge(Rejected)))
  {
    var u, young, others := m.uuid, Young(cfg, ms, now), Young(cfg, rs, now);
    YoungHold(cfg, rs, m, now);
    AgeClear(cfg, ms, Main, now, Rejected, u);
    EvictClear(cfg.maxBytes, young, others, Rejected, u);
    var j :| 0 <= j < |rs| && rs[j] == m;
    var pre, post := AgeTakes(cfg, rs, Rejected, now, j);
    AgedRejectedEnds(s, p, pre, post, u);
  }

  /** What the size cap makes of a message that was set aside: it goes if it does not
      fit together with the newer ones and all pending ones. */
  function SizeFate(cap: nat, pending: seq<Msg>, rejected: seq<Msg>, m: Msg): Option<Event> {
    var rest := From(rejected, m.uuid);
    if rest != [] && Sum(pending) + Sum(rest) > cap then Some(DroppedSize(Rejected, Sum(pending) + Sum(rest[1..]))) else None
  }

  /** The age cap, then the size cap. */
  function CapFate(cfg: Config, ms: seq<Msg>, rs: seq<Msg>, now: real, m: Msg): Option<Event> {
    if now - m.received > cfg.maxAge then Some(DroppedAge(Rejected))
    else SizeFate(cfg.maxBytes, Young(cfg, ms, now), Young(cfg, rs, now), m)
  }

  lemma SizeFateIs(cap: nat, pending: seq<Msg>, rejected: seq<Msg>, j: nat)
    requires j < |rejected| && OneEach(rejected)
    ensures SizeFate(cap, pending, rejected, rejected[j])
            == if Holds(Evict(cap, pending, rejected).rejected, rejected[j].uuid) then None
               else Some(DroppedSize(Rejected, Sum(pending) + Sum(rejected[j + 1..])))
  {
    RejectedKeptIffItFits(cap, pending, rejected, j);
    FromIs(rejected, j);
    assert rejected[j..][1..] == rejected[j + 1..];
  }

  lemma SizeSettles(cap: nat, pending: seq<Msg>, rejected: seq<Msg>, m: Msg) returns (pre: seq<Op>, left: int, post: seq<Op>)
    requires OneEach(rejected) && m in rejected
    ensures var k := Evict(cap, pending, rejected);
            && Settles(k.rejected, k.ops, m, Rejected, pre, left, post)
            && SizeFate(cap, pending, rejected, m) == if Holds(k.rejected, m.uuid) then None else Some(DroppedSize(Rejected, left))
  {
    var j :| 0 <= j < |rejected| && rejected[j] == m;
    pre, post := EvictSettlesRejected(cap, pending, rejected, j);
    left := Sum(pending) + Sum(rejected[j + 1..]);
    SizeFateIs(cap, pending, rejected, j);
  }

  lemma AgeSparesIt(cfg: Config, ms: seq<Msg>, rs: seq<Msg>, now: real, m: Msg)
    requires OneEach(rs) && m in rs && !TooOld(cfg, m, now)
    ensures Clear(AgeOps(cfg, rs, Rejected, now), Rejected, m.uuid) && Clear(AgeOps(cfg, ms, Main, now), Rejected, m.uuid)
    ensures OneEach(Young(cfg, rs, now)) && m in Young(cfg, rs, now)
  {
    YoungHold(cfg, rs, m, now);
    OnlyOneHas(rs, m);
    AgeClear(cfg, rs, Rejected, now, Rejected, m.uuid);
    AgeClear(cfg, ms, Main, now, Rejected, m.uuid);
  }

  lemma SparedRejectedEnds(cfg: Config, s: Dirs, ms: seq<Msg>, rs: seq<Msg>, p: Parts, now: real, m: Msg)
    requires p == CapParts(cfg, ms, rs, now) && OneEach(rs) && m in rs && !TooOld(cfg, m, now)
    ensures RejectedEnds(s, ApplyAll(s, CapOps(p)), CapOps(p), m.uuid, CapFate(cfg, ms, rs, now, m))
  {
    AgeSparesIt(cfg, ms, rs, now, m);
    var pre, left, post := SizeSettles(cfg.maxBytes, Young(cfg, ms, now), Young(cfg, rs, now), m);
    SettledEnds(s, p, Evict(cfg.maxBytes, Young(cfg, ms, now), Young(cfg, rs, now)).rejected, m, pre, left, post);
  }

  lemma SettledEnds(s: Dirs, p: Parts, kept: seq<Msg>, m: Msg, pre: seq<Op>, left: int, post: seq<Op>)
    requires Settles(kept, p.evicted, m, Rejected, pre, left, post)
    requires Clear(p.agedRejected, Rejected, m.uuid) && Clear(p.agedPending, Rejected, m.uuid)
    ensures RejectedEnds(s, ApplyAll(s, CapOps(p)), CapOps(p), m.uuid,
                         if Holds(kept, m.uuid) then None else Some(DroppedSize(Rejected, left)))
  {
    if Holds(kept, m.uuid) {
      ClearChangesNothing(s, CapOps(p), Rejected, m.uuid);
    } else {
      EvictedRejectedEnds(s, p, pre, post, m, left);
    }
  }

  /** What the caps leave of a pair that was set aside. */
  lemma CapsOnRejected(cfg: Config, s: Dirs, ms: seq<Msg>, rs: seq<Msg>, p: Parts, now: real, m: Msg)
    requires p == CapParts(cfg, ms, rs, now) && OneEach(rs) && m in rs
    ensures RejectedEnds(s, ApplyAll(s, CapOps(p)), CapOps(p), m.uuid, CapFate(cfg, ms, rs, now, m))
  {
    if TooOld(cfg, m, now) {
      OldRejectedEnds(cfg, s, ms, rs, p, now, m);
    } else {
      SparedRejectedEnds(cfg, s, ms, rs, p, now, m);
    }
  }

  /** The caps leave alone what is not a pending pair, or is kept in the queue. */
  lemma CapsSpareMain(cfg: Config, ms: seq<Msg>, rs: seq<Msg>, p: Parts, now: real, u: Uuid)
    requires p == CapParts(cfg, ms, rs, now) && OneEach(ms)
    requires !Holds(ms, u) || Holds(Evict(cfg.maxBytes, Young(cfg, ms, now), Young(cfg, rs, now)).pending, u)
    ensures Clear(CapOps(p), Main, u)
  {
    AgeClear(cfg, rs, Rejected, now, Main, u);
    if !Holds(ms, u) {
      StrangersSpared(cfg, ms, rs, now, u);
    } else {
      KeptSpared(cfg, ms, rs, now, u);
    }
  }

  lemma StrangersSpared(cfg: Config, ms: seq<Msg>, rs: seq<Msg>, now: real, u: Uuid)
    requires !Holds(ms, u)
    ensures Clear(AgeOps(cfg, ms, Main, now), Main, u)
    ensures Clear(Evict(cfg.maxBytes, Young(cfg, ms, now), Young(cfg, rs, now)).ops, Main, u)
  {
    var young := Young(cfg, ms, now);
    YoungAreKept(cfg, ms, now);
    assert forall m | m in ms :: exists i :: 0 <= i < |ms| && ms[i] == m;
    assert forall m | m in ms :: m.uuid != u;
    assert forall i | 0 <= i < |young| :: young[i] in ms;
    AgeClear(cfg, ms, Main, now, Main, u);
    EvictClear(cfg.maxBytes, young, Young(cfg, rs, now), Main, u);
  }

  lemma KeptIsPending(cap: nat, pending: seq<Msg>, rejected: seq<Msg>, u: Uuid) returns (m: Msg)
    requires OneEach(pending) && Holds(Evict(cap, pending, rejected).pending, u)
    ensures m in pending && m.uuid == u && Clear(Evict(cap, pending, rejected).ops, Main, u)
  {
    var kept := Evict(cap, pending, rejected).pending;
    PendingIsATail(cap, pending, rejected);
    var i :| 0 <= i < |kept| && kept[i].uuid == u;
    m := kept[i];
    assert m in pending;
    var j :| 0 <= j < |pending| && pending[j] == m;
    var _, _ := EvictSettles(cap, pending, rejected, j);
  }

  lemma KeptSpared(cfg: Config, ms: seq<Msg>, rs: seq<Msg>, now: real, u: Uuid)
    requires OneEach(ms) && Holds(Evict(cfg.maxBytes, Young(cfg, ms, now), Young(cfg, rs, now)).pending, u)
    ensures Clear(AgeOps(cfg, ms, Main, now), Main, u)
    ensures Clear(Evict(cfg.maxBytes, Young(cfg, ms, now), Young(cfg, rs, now)).ops, Main, u)
  {
    YoungAreKept(cfg, ms, now);
    YoungKeepsOrder(cfg, ms, now);
    var m := KeptIsPending(cfg.maxBytes, Young(cfg, ms, now), Young(cfg, rs, now), u);
    OnlyOneHas(ms, m);
    AgeClear(cfg, ms, Main, now, Main, u);
  }

  // ----- journal lines -----

  /** These operations write nothing about the rejected directory. */
  ghost predicate WritesMain(ops: seq<Op>) {
    forall op | op in ops :: op.Write? ==> Where(op.entry.event) == Main
  }

  lemma {:induction false} NoRejectedLines(ops: seq<Op>, u: Uuid)
    requires WritesMain(ops)
    ensures Entries(ops, Rejected, u) == []
  {
    if ops != [] {
      assert ops[|ops| - 1] in ops && forall op | op in ops[..|ops| - 1] :: op in ops;
      NoRejectedLines(ops[..|ops| - 1], u);
    }
  }

  lemma {:induction false} SweepWritesMain(cfg: Config, s: Dirs, os: seq<Orphan>, now: real)
    ensures WritesMain(SweepOps(cfg, s, os, now))
  {
    if os != [] {
      SweepWritesMain(cfg, s, os[..|os| - 1], now);
    }
  }

  lemma OneWritesMain(m: Msg, answers: Uuid -> Exchange)
    ensures WritesMain(ReplayOne(m, answers))
  {
  }

  lemma {:induction false} ReplayWritesMain(ms: seq<Msg>, answers: Uuid -> Exchange)
    ensures WritesMain(ReplayEach(ms, answers))
  {
    if ms != [] {
      ReplayWritesMain(ms[..|ms| - 1], answers);
      OneWritesMain(ms[|ms| - 1], answers);
    }
  }

  // ----- the sweep -----

  /** A pending blob without metadata, old enough to be swept. */
  predicate OldLoneBlob(cfg: Config, s: Dirs, now: real, u: Uuid) {
    Cms(u) in s.main && Json(u) !in s.main && now - s.main[Cms(u)].mtime > cfg.orphanAge
  }

  lemma {:induction false} LoneTimes(us: seq<Uuid>, other: seq<Uuid>, dir: Dir, d: Disk)
    ensures forall o | o in LoneCms(us, other, dir, d) :: o.mtime == Mtime(d, o.name)
    ensures forall o | o in LoneJson(us, other, dir, d) :: o.mtime == Mtime(d, o.name)
  {
    if us != [] {
      LoneTimes(us[..|us| - 1], other, dir, d);
    }
  }

  lemma {:induction false} LeftoverTimes(ns: seq<Name>, dir: Dir, d: Disk)
    ensures forall o | o in Leftovers(ns, dir, d) :: o.mtime == Mtime(d, o.name)
  {
    if ns != [] {
      LeftoverTimes(ns[..|ns| - 1], dir, d);
    }
  }

  lemma OrphanTimes(names: seq<Name>, dir: Dir, d: Disk)
    ensures forall o | o in Orphans(names, dir, d) :: o.mtime == Mtime(d, o.name)
  {
    LoneTimes(CmsStems(names), JsonStems(names), dir, d);
    LoneTimes(JsonStems(names), CmsStems(names), dir, d);
    LeftoverTimes(Tmps(names), dir, d);
  }

  /** A pair that is set aside is no leftover, and the sweep touches its name only to
      move an old lone blob. */
  lemma SweepSpares(cfg: Config, s: Dirs, i: Inputs, u: Uuid, o: Orphan)
    requires Listed(s, i) && Paired(s.rejected, u) && o in AllOrphans(s, i)
    ensures !Spares(cfg, o, i.now, Rejected, u) ==> OldLoneBlob(cfg, s, i.now, u) && o == Orphan(Main, Cms(u), s.main[Cms(u)].mtime)
  {
    OrphanTimes(i.mainNames, Main, s.main);
    OrphanTimes(i.rejectedNames, Rejected, s.rejected);
    if o in Orphans(i.mainNames, Main, s.main) {
      OrphansAreHalves(i.mainNames, Main, s.main, o);
    } else {
      OrphansAreHalves(i.rejectedNames, Rejected, s.rejected, o);
    }
  }

  lemma {:induction false} LoneBlobAt(us: seq<Uuid>, other: seq<Uuid>, dir: Dir, d: Disk, u: Uuid) returns (j: nat)
    requires NoDup(us) && u in us && u !in other
    ensures j < |LoneCms(us, other, dir, d)| && LoneCms(us, other, dir, d)[j] == Orphan(dir, Cms(u), Mtime(d, Cms(u)))
    ensures forall k | 0 <= k < |LoneCms(us, other, dir, d)| && k != j :: LoneCms(us, other, dir, d)[k].name != Cms(u)
  {
    var init, last := us[..|us| - 1], us[|us| - 1];
    LoneAreUnpaired(init, other, dir, d);
    assert us == init + [last];
    if last == u {
      assert u !in init;
      j := |LoneCms(init, other, dir, d)|;
      assert forall k | 0 <= k < j :: LoneCms(init, other, dir, d)[k] in LoneCms(init, other, dir, d);
    } else {
      j := LoneBlobAt(init, other, dir, d, u);
    }
  }

  function LoneBlobs(s: Dirs, i: Inputs): seq<Orphan> {
    LoneCms(CmsStems(i.mainNames), JsonStems(i.mainNames), Main, s.main)
  }

  function OtherOrphans(s: Dirs, i: Inputs): seq<Orphan> {
    LoneJson(JsonStems(i.mainNames), CmsStems(i.mainNames), Main, s.main) + Leftovers(Tmps(i.mainNames), Main, s.main)
    + Orphans(i.rejectedNames, Rejected, s.rejected)
  }

  lemma LoneBlobsFirst(s: Dirs, i: Inputs)
    ensures AllOrphans(s, i) == LoneBlobs(s, i) + OtherOrphans(s, i)
  {
    RegroupOrphans(LoneBlobs(s, i), LoneJson(JsonStems(i.mainNames), CmsStems(i.mainNames), Main, s.main),
                   Leftovers(Tmps(i.mainNames), Main, s.main), Orphans(i.rejectedNames, Rejected, s.rejected));
  }

  lemma RegroupOrphans(a: seq<Orphan>, b: seq<Orphan>, c: seq<Orphan>, d: seq<Orphan>)
    ensures (a + b + c) + d == a + (b + c + d)
  {
  }

  lemma OtherNames(s: Dirs, i: Inputs, u: Uuid, o: Orphan)
    requires Listed(s, i) && Paired(s.rejected, u) && Json(u) !in s.main && o in OtherOrphans(s, i)
    ensures !IsOf(o.name, u)
  {
    var more := LoneJson(JsonStems(i.mainNames), CmsStems(i.mainNames), Main, s.main);
    if o in Orphans(i.rejectedNames, Rejected, s.rejected) {
      OrphansAreHalves(i.rejectedNames, Rejected, s.rejected, o);
    } else if o in more {
      LoneAreUnpaired(JsonStems(i.mainNames), CmsStems(i.mainNames), Main, s.main);
      StemsAreTheNames(i.mainNames, u);
    } else {
      TmpsAreTmp(i.mainNames);
      LeftoversAreTmp(Tmps(i.mainNames), Main, s.main);
    }
  }

  /** Where the old lone blob stands among the leftovers, and that no other leftover
      has its name. */
  lemma BlobAmongOrphans(s: Dirs, i: Inputs, u: Uuid) returns (j: nat)
    requires Listed(s, i) && Paired(s.rejected, u) && Cms(u) in s.main && Json(u) !in s.main
    ensures j < |AllOrphans(s, i)| && AllOrphans(s, i)[j] == Orphan(Main, Cms(u), s.main[Cms(u)].mtime)
    ensures forall k | 0 <= k < |AllOrphans(s, i)| && k != j :: !IsOf(AllOrphans(s, i)[k].name, u)
  {
    StemsOnce(i.mainNames);
    StemsAreTheNames(i.mainNames, u);
    j := LoneBlobAt(CmsStems(i.mainNames), JsonStems(i.mainNames), Main, s.main, u);
    LoneAreUnpaired(CmsStems(i.mainNames), JsonStems(i.mainNames), Main, s.main);
    forall o | o in OtherOrphans(s, i)
      ensures !IsOf(o.name, u)
    {
      OtherNames(s, i, u, o);
    }
    LoneBlobsFirst(s, i);
    JoinedNames(LoneBlobs(s, i), OtherOrphans(s, i), u, j);
  }

  lemma JoinedNames(a: seq<Orphan>, b: seq<Orphan>, u: Uuid, j: nat)
    requires j < |a| && forall k | 0 <= k < |a| && k != j :: a[k].name != Cms(u)
    requires forall o | o in a :: o.name.Cms?
    requires forall o | o in b :: !IsOf(o.name, u)
    ensures forall k | 0 <= k < |a + b| && k != j :: !IsOf((a + b)[k].name, u)
  {
    forall k | 0 <= k < |a + b| && k != j
      ensures !IsOf((a + b)[k].name, u)
    {
      if k < |a| {
        assert a[k] in a;
      } else {
        assert b[k - |a|] in b;
      }
    }
  }

  function SweptBlob(u: Uuid): seq<Op> {
    [Reject(Cms(u)), Write(Entry(OrphanNoMetadata, u))]
  }

  ghost predicate ClearEverywhere(ops: seq<Op>, u: Uuid) {
    Clear(ops, Main, u) && Clear(ops, Rejected, u)
  }

  lemma SweepClearsEverywhere(cfg: Config, s: Dirs, os: seq<Orphan>, now: real, u: Uuid)
    requires forall k | 0 <= k < |os| :: !IsOf(os[k].name, u)
    ensures ClearEverywhere(SweepOps(cfg, s, os, now), u)
  {
    forall o | o in os
      ensures !IsOf(o.name, u)
    {
      var k :| 0 <= k < |os| && os[k] == o;
    }
    SweepClear(cfg, s, os, now, Main, u);
    SweepClear(cfg, s, os, now, Rejected, u);
  }

  lemma OneMovesTheBlob(cfg: Config, s: Dirs, o: Orphan, now: real, u: Uuid)
    requires o.dir == Main && o.name == Cms(u) && now - o.mtime > cfg.orphanAge && Cms(u) in s.main
    ensures SweepOne(cfg, s, o, now) == SweptBlob(u)
  {
  }

  lemma OneIsClear(cfg: Config, s: Dirs, o: Orphan, now: real, u: Uuid)
    requires !IsOf(o.name, u)
    ensures ClearEverywhere(SweepOne(cfg, s, o, now), u)
  {
  }

  /** The sweep moves the old lone blob, once, and does nothing else to its name. */
  lemma {:induction false} SweepTakes(cfg: Config, s: Dirs, os: seq<Orphan>, now: real, u: Uuid, j: nat)
    returns (pre: seq<Op>, post: seq<Op>)
    requires j < |os| && os[j].dir == Main && os[j].name == Cms(u) && now - os[j].mtime > cfg.orphanAge && Cms(u) in s.main
    requires forall k | 0 <= k < |os| && k != j :: !IsOf(os[k].name, u)
    ensures SweepOps(cfg, s, os, now) == pre + SweptBlob(u) + post
    ensures ClearEverywhere(pre, u) && ClearEverywhere(post, u)
  {
    var init, o := os[..|os| - 1], os[|os| - 1];
    var before := SweepOps(cfg, s, init, now);
    if j == |os| - 1 {
      SweepClearsEverywhere(cfg, s, init, now, u);
      ClearChangesNothing(s, before, Main, u);
      OneMovesTheBlob(cfg, ApplyAll(s, before), o, now, u);
      pre, post := before, [];
    } else {
      var one := SweepOne(cfg, ApplyAll(s, before), o, now);
      var p, q := SweepTakes(cfg, s, init, now, u, j);
      OneIsClear(cfg, ApplyAll(s, before), o, now, u);
      ClearBoth(q, one, Main, u);
      ClearBoth(q, one, Rejected, u);
      pre, post := p, q + one;
      Regroup(p, SweptBlob(u), q, one);
    }
  }

  lemma SweptBlobScript(s: Dirs, u: Uuid)
    requires Cms(u) in s.main
    ensures var s' := ApplyAll(s, SweptBlob(u));
            && At(s'.rejected, Cms(u)) == At(s.main, Cms(u)) && At(s'.rejected, Json(u)) == At(s.rejected, Json(u))
  {
    var ops := SweptBlob(u);
    assert ops[..1] == [ops[0]] && ops[..1][..0] == [];
    assert ApplyAll(s, ops[..1]) == Apply(s, ops[0]);
  }

  // ----- the replay -----

  /** Sets the message aside. */
  predicate SetsAside(m: Msg, answers: Uuid -> Exchange) {
    m.error.Some? || SaysRefused(answers(m.uuid))
  }

  lemma {:induction false} NoRejectNoChange(s: Dirs, ops: seq<Op>)
    requires KeepsRejected(ops) && forall op | op in ops :: !op.Reject?
    ensures ApplyAll(s, ops).rejected == s.rejected
  {
    if ops != [] {
      assert forall op | op in ops[..|ops| - 1] :: op in ops;
      NoRejectNoChange(s, ops[..|ops| - 1]);
      assert ops[|ops| - 1] in ops;
    }
  }

  /** What the replay of one message does to the rejected directory. */
  lemma OneOnRejected(s: Dirs, m: Msg, answers: Uuid -> Exchange)
    requires Paired(s.main, m.uuid)
    ensures var s' := ApplyAll(s, ReplayOne(m, answers));
            if SetsAside(m, answers) then SameAt(s.main, s'.rejected, m.uuid) else s'.rejected == s.rejected
  {
    var u, one := m.uuid, ReplayOne(m, answers);
    if m.error.Some? {
      RejectScript(s, u, Entry(RejectedBadSidecar(m.error.value), u));
    } else if SaysRefused(answers(u)) {
      assert one == [Send(u, answers(u))] + Settle(u, Refused);
      SendFirst(s, u, answers(u), Settle(u, Refused));
      RejectScript(s, u, Entry(ApiRejected422, u));
    } else {
      OneClear(m, answers, Rejected, u);
      NoRejectNoChange(s, one);
    }
  }

  /** The pass reaches the pending message of that name and sets it aside. */
  predicate IsSetAside(cfg: Config, c: Control, p: Pass, u: Uuid) {
    Goes(cfg, c, p) && exists j :: 0 <= j < Reached(p.queue, p.answers) && p.queue[j].uuid == u && SetsAside(p.queue[j], p.answers)
  }

  function ReplayOps(cfg: Config, c: Control, p: Pass): seq<Op> {
    if Goes(cfg, c, p) then Replay(p.queue, p.answers) else []
  }

  lemma TriedOnce(cfg: Config, c: Control, p: Pass, s: Dirs, u: Uuid, j: nat)
    requires Goes(cfg, c, p) && OneEach(p.queue) && j < Reached(p.queue, p.answers) && p.queue[j].uuid == u
    requires Paired(s.main, u)
    ensures var s' := ApplyAll(s, ReplayOps(cfg, c, p));
            if SetsAside(p.queue[j], p.answers) then SameAt(s.main, s'.rejected, u) else SameAt(s.rejected, s'.rejected, u)
  {
    var tried, m := Tried(p), p.queue[j];
    assert tried[j] == m;
    var pre, post := ReplayTakes(tried, p.answers, Main, j);
    var pre', post' := ReplayTakes(tried, p.answers, Rejected, j);
    assert pre == pre' && post == post' by {
      assert |pre| == |pre'|;
      SameRest(pre, ReplayOne(m, p.answers), post, post');
    }
    var one := ReplayOne(m, p.answers);
    OnlyItsOwnOpsCount(s, pre, one, post, Main, u);
    OnlyItsOwnOpsCount(s, pre, one, post, Rejected, u);
    ClearChangesNothing(s, pre, Rejected, u);
    OneOnRejected(ApplyAll(s, pre), m, p.answers);
  }

  lemma SameRest(a: seq<Op>, b: seq<Op>, c: seq<Op>, d: seq<Op>)
    requires a + b + c == a + b + d
    ensures c == d
  {
    assert c == (a + b + c)[|a + b|..];
  }

  lemma OnlyThatOne(p: Pass, u: Uuid, j: nat, k: nat)
    requires OneEach(p.queue) && j < |p.queue| && k < |p.queue| && p.queue[j].uuid == u && p.queue[k].uuid == u
    ensures j == k
  {
  }

  /** The replay replaces a pair that was set aside exactly when it sets aside the
      pending message of that name. */
  lemma ReplayOnRejected(cfg: Config, c: Control, p: Pass, s: Dirs, u: Uuid)
    requires OneEach(p.queue) && (Holds(p.queue, u) ==> Paired(s.main, u))
    ensures var s' := ApplyAll(s, ReplayOps(cfg, c, p));
            if IsSetAside(cfg, c, p, u) then SameAt(s.main, s'.rejected, u) else SameAt(s.rejected, s'.rejected, u)
    ensures Entries(ReplayOps(cfg, c, p), Rejected, u) == []
  {
    var n, ops := Reached(p.queue, p.answers), ReplayOps(cfg, c, p);
    ReplayWritesMain(Tried(p), p.answers);
    NoRejectedLines(ops, u);
    if j: nat :| Goes(cfg, c, p) && j < n && p.queue[j].uuid == u {
      TriedOnce(cfg, c, p, s, u, j);
      forall k | 0 <= k < n && p.queue[k].uuid == u
        ensures k == j
      {
        OnlyThatOne(p, u, j, k);
      }
    } else {
      if Goes(cfg, c, p) {
        assert forall k | 0 <= k < n :: Tried(p)[k].uuid == p.queue[k].uuid != u;
        ReplayClear(Tried(p), p.answers, Rejected, u);
      }
      ClearChangesNothing(s, ops, Rejected, u);
    }
  }

  /** The sweep puts an old lone blob in the place of the set-aside one. */
  lemma SweepOnRejected(cfg: Config, s: Dirs, s1: Dirs, i: Inputs, u: Uuid)
    requires Listed(s, i) && Paired(s.rejected, u)
    requires OldLoneBlob(cfg, s, i.now, u) ==> SameAt(s.main, s1.main, u)
    ensures var ops := SweepOps(cfg, s1, AllOrphans(s, i), i.now);
            var s2 := ApplyAll(s1, ops);
            && At(s2.rejected, Json(u)) == At(s1.rejected, Json(u))
            && At(s2.rejected, Cms(u)) == (if OldLoneBlob(cfg, s, i.now, u) then At(s.main, Cms(u)) else At(s1.rejected, Cms(u)))
            && (Paired(s.main, u) ==> SameAt(s1.main, s2.main, u))
            && Entries(ops, Rejected, u) == []
  {
    var os, ops := AllOrphans(s, i), SweepOps(cfg, s1, AllOrphans(s, i), i.now);
    SweepWritesMain(cfg, s1, os, i.now);
    NoRejectedLines(ops, u);
    if OldLoneBlob(cfg, s, i.now, u) {
      var j := BlobAmongOrphans(s, i, u);
      var pre, post := SweepTakes(cfg, s1, os, i.now, u, j);
      OnlyItsOwnOpsCount(s1, pre, SweptBlob(u), post, Rejected, u);
      ClearChangesNothing(s1, pre, Main, u);
      SweptBlobScript(ApplyAll(s1, pre), u);
    } else {
      forall o | o in os
        ensures Spares(cfg, o, i.now, Rejected, u)
      {
        SweepSpares(cfg, s, i, u, o);
      }
      SweepClear(cfg, s1, os, i.now, Rejected, u);
      ClearChangesNothing(s1, ops, Rejected, u);
    }
    if Paired(s.main, u) {
      forall o | o in os
        ensures Spares(cfg, o, i.now, Main, u)
      {
        NoOrphanOfAPair(cfg, s, i, u, o);
      }
      SweepClear(cfg, s1, os, i.now, Main, u);
      ClearChangesNothing(s1, ops, Main, u);
    }
  }

  // ----- a whole pass -----

  /** Whether something else takes the name: the pending pair, or an old lone blob. */
  datatype Replacement = NotReplaced | ByPair | ByBlob

  function ReplacementOf(cfg: Config, c: Control, s: Dirs, p: Pass, u: Uuid): Replacement {
    if OldLoneBlob(cfg, s, p.now, u) then ByBlob
    else if IsSetAside(cfg, c, p, u) then ByPair
    else NotReplaced
  }

  /** A set-aside pair after a pass: `e` is the cap that dropped it, if one did, `r` what
      took its name. Only the cap leaves a line in the journal. */
  ghost predicate SetAsideEnds(s: Dirs, s': Dirs, ops: seq<Op>, u: Uuid, e: Option<Event>, r: Replacement) {
    && At(s'.rejected, Cms(u)) == (if r != NotReplaced then At(s.main, Cms(u)) else if e.None? then At(s.rejected, Cms(u)) else None)
    && At(s'.rejected, Json(u)) == (if r == ByPair then At(s.main, Json(u)) else if e.None? then At(s.rejected, Json(u)) else None)
    && Entries(ops, Rejected, u) == (if e.None? then [] else [Entry(e.value, u)])
    && (e.Some? ==> e.value == DroppedAge(Rejected) || (e.value.DroppedSize? && e.value.where == Rejected))
  }

  lemma PhasesJoin(s: Dirs, k: seq<Op>, swept: seq<Op>, replayed: seq<Op>, u: Uuid)
    ensures ApplyAll(s, k + swept + replayed) == ApplyAll(ApplyAll(ApplyAll(s, k), swept), replayed)
    ensures Entries(k + swept + replayed, Rejected, u)
            == Entries(k, Rejected, u) + Entries(swept, Rejected, u) + Entries(replayed, Rejected, u)
  {
    ApplyConcat(s, k, swept);
    ApplyConcat(s, k + swept, replayed);
    EntriesConcat(k, swept, Rejected, u);
    EntriesConcat(k + swept, replayed, Rejected, u);
  }

  lemma PhasesLeave(s: Dirs, s1: Dirs, s2: Dirs, s3: Dirs, caps: seq<Op>, ops: seq<Op>, u: Uuid, e: Option<Event>, r: Replacement)
    requires RejectedEnds(s, s1, caps, u, e) && Entries(ops, Rejected, u) == Entries(caps, Rejected, u)
    requires At(s2.rejected, Json(u)) == At(s1.rejected, Json(u))
    requires At(s2.rejected, Cms(u)) == if r == ByBlob then At(s.main, Cms(u)) else At(s1.rejected, Cms(u))
    requires if r == ByPair then SameAt(s.main, s3.rejected, u) else SameAt(s2.rejected, s3.rejected, u)
    ensures SetAsideEnds(s, s3, ops, u, e, r)
  {
  }

  /** The caps leave the pending files of that name alone when they matter later. */
  lemma CapsLeaveMain(cfg: Config, s: Dirs, ms: seq<Msg>, rs: seq<Msg>, p: Pass, u: Uuid)
    requires OneEach(ms) && (Holds(ms, u) <==> Paired(s.main, u))
    requires p.queue == Evict(cfg.maxBytes, Young(cfg, ms, p.now), Young(cfg, rs, p.now)).pending
    ensures OneEach(p.queue) && (Holds(p.queue, u) ==> Paired(s.main, u))
    ensures !Paired(s.main, u) || Holds(p.queue, u) ==>
              SameAt(s.main, ApplyAll(s, CapOps(CapParts(cfg, ms, rs, p.now))).main, u)
  {
    var caps := CapParts(cfg, ms, rs, p.now);
    QueueOnce(cfg, ms, rs, p, u);
    if !Paired(s.main, u) || Holds(p.queue, u) {
      CapsSpareMain(cfg, ms, rs, caps, p.now, u);
      ClearChangesNothing(s, CapOps(caps), Main, u);
    }
  }

  /** The sweep and the replay after the caps. */
  lemma LaterPhases(cfg: Config, c: Control, s: Dirs, s1: Dirs, i: Inputs, p: Pass, u: Uuid)
    requires Listed(s, i) && Paired(s.rejected, u) && p.now == i.now && OneEach(p.queue)
    requires Holds(p.queue, u) ==> Paired(s.main, u)
    requires !Paired(s.main, u) || Holds(p.queue, u) ==> SameAt(s.main, s1.main, u)
    ensures var swept, replayed := SweepOps(cfg, s1, AllOrphans(s, i), i.now), ReplayOps(cfg, c, p);
            var s2, r := ApplyAll(s1, swept), ReplacementOf(cfg, c, s, p, u);
            var s3 := ApplyAll(s2, replayed);
            && At(s2.rejected, Json(u)) == At(s1.rejected, Json(u))
            && At(s2.rejected, Cms(u)) == (if r == ByBlob then At(s.main, Cms(u)) else At(s1.rejected, Cms(u)))
            && (if r == ByPair then SameAt(s.main, s3.rejected, u) else SameAt(s2.rejected, s3.rejected, u))
            && Entries(swept, Rejected, u) == [] && Entries(replayed, Rejected, u) == []
  {
    var s2 := ApplyAll(s1, SweepOps(cfg, s1, AllOrphans(s, i), i.now));
    SweepOnRejected(cfg, s, s1, i, u);
    assert Holds(p.queue, u) ==> Paired(s2.main, u);
    ReplayOnRejected(cfg, c, p, s2, u);
    AsideIsQueued(cfg, c, p, u);
  }

  lemma AsideIsQueued(cfg: Config, c: Control, p: Pass, u: Uuid)
    ensures IsSetAside(cfg, c, p, u) ==> Holds(p.queue, u)
  {
  }

  lemma PhasesAfterCaps(cfg: Config, c: Control, s: Dirs, i: Inputs, p: Pass, u: Uuid, k: seq<Op>, e: Option<Event>)
    requires Listed(s, i) && Paired(s.rejected, u) && p.now == i.now && OneEach(p.queue)
    requires RejectedEnds(s, ApplyAll(s, k), k, u, e) && (Holds(p.queue, u) ==> Paired(s.main, u))
    requires !Paired(s.main, u) || Holds(p.queue, u) ==> SameAt(s.main, ApplyAll(s, k).main, u)
    ensures var ops := k + SweepOps(cfg, ApplyAll(s, k), AllOrphans(s, i), i.now) + ReplayOps(cfg, c, p);
            SetAsideEnds(s, ApplyAll(s, ops), ops, u, e, ReplacementOf(cfg, c, s, p, u))
  {
    var s1 := ApplyAll(s, k);
    var swept, replayed := SweepOps(cfg, s1, AllOrphans(s, i), i.now), ReplayOps(cfg, c, p);
    PhasesJoin(s, k, swept, replayed, u);
    LaterPhases(cfg, c, s, s1, i, p, u);
    PhasesLeave(s, s1, ApplyAll(s1, swept), ApplyAll(ApplyAll(s1, swept), replayed), k, k + swept + replayed, u, e,
                ReplacementOf(cfg, c, s, p, u));
  }

  /** The three phases put together, over the lists the scan made. */
  lemma PhasesOnRejected(cfg: Config, c: Control, s: Dirs, i: Inputs, ms: seq<Msg>, rs: seq<Msg>, p: Pass, m: Msg, k: seq<Op>)
    requires Listed(s, i) && Paired(s.rejected, m.uuid) && p.now == i.now
    requires OneEach(ms) && OneEach(rs) && m in rs && (Holds(ms, m.uuid) <==> Paired(s.main, m.uuid))
    requires p.queue == Evict(cfg.maxBytes, Young(cfg, ms, i.now), Young(cfg, rs, i.now)).pending
    requires k == CapOps(CapParts(cfg, ms, rs, i.now))
    ensures var ops := k + SweepOps(cfg, ApplyAll(s, k), AllOrphans(s, i), i.now) + ReplayOps(cfg, c, p);
            SetAsideEnds(s, ApplyAll(s, ops), ops, m.uuid, CapFate(cfg, ms, rs, i.now, m), ReplacementOf(cfg, c, s, p, m.uuid))
  {
    var e := CapFate(cfg, ms, rs, i.now, m);
    CapsOnRejected(cfg, s, ms, rs, CapParts(cfg, ms, rs, i.now), i.now, m);
    CapsLeaveMain(cfg, s, ms, rs, p, m.uuid);
    PhasesAfterCaps(cfg, c, s, i, p, m.uuid, k, e);
  }

  lemma QueueOnce(cfg: Config, ms: seq<Msg>, rs: seq<Msg>, p: Pass, u: Uuid)
    requires OneEach(ms) && p.queue == Evict(cfg.maxBytes, Young(cfg, ms, p.now), Young(cfg, rs, p.now)).pending
    ensures OneEach(p.queue) && (Holds(p.queue, u) ==> Holds(ms, u))
  {
    YoungAreKept(cfg, ms, p.now);
    YoungKeepsOrder(cfg, ms, p.now);
    PendingIsATail(cfg.maxBytes, Young(cfg, ms, p.now), Young(cfg, rs, p.now));
    if Holds(p.queue, u) {
      var j :| 0 <= j < |p.queue| && p.queue[j].uuid == u;
      assert p.queue[j] in Young(cfg, ms, p.now);
      assert p.queue[j] in ms;
    }
  }

  lemma PassIsItsPhases(decode: Bytes -> Doc, cfg: Config, s: Dirs, c: Control, i: Inputs)
    ensures var ms, rs := Messages(decode, s.main, i.mainNames), Messages(decode, s.rejected, i.rejectedNames);
            var k, p := CapOps(CapParts(cfg, ms, rs, i.now)), PassOf(decode, cfg, s, i);
            && PassOps(decode, cfg, s, c, i) == k + SweepOps(cfg, ApplyAll(s, k), AllOrphans(s, i), i.now) + ReplayOps(cfg, c, p)
            && p.now == i.now && p.queue == Evict(cfg.maxBytes, Young(cfg, ms, i.now), Young(cfg, rs, i.now)).pending
  {
  }

  /** Every pair that was set aside, whatever has its name among the pending, has one
      end, and the scan and the answers decide which: a cap has dropped it, with one
      journal line; or the pending message or old lone blob of that name has taken its
      place, with no line about it; or it is there unchanged. */
  lemma {:induction false} EverySetAsideEndsOnce(decode: Bytes -> Doc, cfg: Config, s: Dirs, c: Control, i: Inputs, u: Uuid)
    requires Listed(s, i) && Paired(s.rejected, u)
    ensures var ms, rs := Messages(decode, s.main, i.mainNames), Messages(decode, s.rejected, i.rejectedNames);
            var ops, m := PassOps(decode, cfg, s, c, i), Load(decode, s.rejected, u);
            SetAsideEnds(s, ApplyAll(s, ops), ops, u, CapFate(cfg, ms, rs, i.now, m),
                         ReplacementOf(cfg, c, s, PassOf(decode, cfg, s, i), u))
  {
    var ms, rs := Messages(decode, s.main, i.mainNames), Messages(decode, s.rejected, i.rejectedNames);
    Scanned(decode, s.main, i.mainNames, u);
    Scanned(decode, s.rejected, i.rejectedNames, u);
    PassIsItsPhases(decode, cfg, s, c, i);
    HoldsIfScanned(ms, decode, s.main, u);
    PhasesOnRejected(cfg, c, s, i, ms, rs, PassOf(decode, cfg, s, i), Load(decode, s.rejected, u),
                     CapOps(CapParts(cfg, ms, rs, i.now)));
  }

  lemma HoldsIfScanned(ms: seq<Msg>, decode: Bytes -> Doc, d: Disk, u: Uuid)
    requires if Paired(d, u) then Load(decode, d, u) in ms else !Holds(ms, u)
    ensures Holds(ms, u) <==> Paired(d, u)
  {
    if Paired(d, u) {
      var j :| 0 <= j < |ms| && ms[j] == Load(decode, d, u);
      assert ms[j].uuid == u;
    }
  }

  /** With no line in the journal about it, the blob that was set aside is replaced if
      and only if the pending message of its name is set aside in this pass (bad
      sidecar, or reached and answered 422) or an old lone blob of its name is swept. */
  lemma {:induction false} ReplacedSilentlyIff(decode: Bytes -> Doc, cfg: Config, s: Dirs, c: Control, i: Inputs, u: Uuid)
    requires Listed(s, i) && Paired(s.rejected, u) && At(s.main, Cms(u)) != At(s.rejected, Cms(u))
    ensures var ops, p := PassOps(decode, cfg, s, c, i), PassOf(decode, cfg, s, i);
            Entries(ops, Rejected, u) == [] ==>
              (At(ApplyAll(s, ops).rejected, Cms(u)) != At(s.rejected, Cms(u))
               <==> IsSetAside(cfg, c, p, u) || OldLoneBlob(cfg, s, i.now, u))
  {
    EverySetAsideEndsOnce(decode, cfg, s, c, i, u);
    var ops, p := PassOps(decode, cfg, s, c, i), PassOf(decode, cfg, s, i);
  }

  // ----- a pass that replaces -----

  const SECOND := File([2], 100.0)
  const FIRST := File([1], 100.0)
  const NO_SIDECAR := File([], 100.0)

  /** A pending message and one already set aside under the same name. */
  function Twins(u: Uuid): Dirs {
    Dirs(map[Cms(u) := SECOND, Json(u) := NO_SIDECAR], map[Cms(u) := FIRST, Json(u) := NO_SIDECAR])
  }

  function At100(u: Uuid): Inputs {
    Inputs(100.0, [Cms(u), Json(u)], [Cms(u), Json(u)], false, _ => NoAnswer, 100.0, 1.0)
  }

  lemma OnlyMessage(decode: Bytes -> Doc, d: Disk, names: seq<Name>, u: Uuid)
    requires Listing(names, d) && Paired(d, u) && forall v | Paired(d, v) :: v == u
    ensures Messages(decode, d, names) == [Load(decode, d, u)]
  {
    var ms := Messages(decode, d, names);
    ScanFindsThePairs(decode, d, names);
    Scanned(decode, d, names, u);
    TwoDiffer(ms);
    assert forall k | 0 <= k < |ms| :: Holds(ms, ms[k].uuid);
    assert forall k | 0 <= k < |ms| :: ms[k].uuid == u;
  }

  lemma TwoDiffer(ms: seq<Msg>)
    requires OneEach(ms)
    ensures |ms| > 1 ==> ms[0].uuid != ms[1].uuid
  {
  }

  lemma OneYoung(cfg: Config, m: Msg, dir: Dir, now: real)
    requires !TooOld(cfg, m, now)
    ensures Young(cfg, [m], now) == [m] && AgeOps(cfg, [m], dir, now) == []
  {
    assert [m][..0] == [];
    assert AgeOps(cfg, [m], dir, now) == AgeOps(cfg, [m][..0], dir, now) + [];
  }

  lemma NothingCapped(cfg: Config, m: Msg, r: Msg, now: real)
    requires !TooOld(cfg, m, now) && !TooOld(cfg, r, now) && m.size + r.size <= cfg.maxBytes
    ensures Evict(cfg.maxBytes, Young(cfg, [m], now), Young(cfg, [r], now)) == Kept([], [m], [r])
    ensures CapOps(CapParts(cfg, [m], [r], now)) == []
  {
    OneYoung(cfg, m, Main, now);
    OneYoung(cfg, r, Rejected, now);
    assert Sum([m]) == m.size + Sum([m][1..]) && Sum([r]) == r.size + Sum([r][1..]);
  }

  lemma TwinsAreScanned(u: Uuid)
    ensures var s, i := Twins(u), At100(u);
            && Listed(s, i)
            && Messages(_ => NotJson, s.main, i.mainNames) == [Msg(u, 1, 100.0, None, [], Some(NotADocument))]
            && Messages(_ => NotJson, s.rejected, i.rejectedNames) == [Msg(u, 1, 100.0, None, [], Some(NotADocument))]
  {
    var s, i := Twins(u), At100(u);
    OnlyMessage(_ => NotJson, s.main, i.mainNames, u);
    OnlyMessage(_ => NotJson, s.rejected, i.rejectedNames, u);
  }

  lemma TwinQueue(u: Uuid)
    ensures var p := PassOf(_ => NotJson, DEFAULTS, Twins(u), At100(u));
            p.queue == [Msg(u, 1, 100.0, None, [], Some(NotADocument))] && p.now == 100.0
  {
    var m := Msg(u, 1, 100.0, None, [], Some(NotADocument));
    TwinsAreScanned(u);
    NothingCapped(DEFAULTS, m, m, 100.0);
    PassIsItsPhases(_ => NotJson, DEFAULTS, Twins(u), START, At100(u));
  }

  lemma OnlyOneIsReached(p: Pass, m: Msg)
    requires p.queue == [m] && m.error.Some? && p.now >= 0.0
    ensures IsSetAside(DEFAULTS, START, p, m.uuid)
  {
    assert [m][..0] == [];
    assert Reached(p.queue, p.answers) == 1;
    assert p.queue[0].uuid == m.uuid && SetsAside(p.queue[0], p.answers);
  }

  lemma TwinIsSetAside(u: Uuid)
    ensures IsSetAside(DEFAULTS, START, PassOf(_ => NotJson, DEFAULTS, Twins(u), At100(u)), u)
    ensures !OldLoneBlob(DEFAULTS, Twins(u), 100.0, u)
  {
    TwinQueue(u);
    OnlyOneIsReached(PassOf(_ => NotJson, DEFAULTS, Twins(u), At100(u)), Msg(u, 1, 100.0, None, [], Some(NotADocument)));
  }

  lemma TwinIsNotCapped(u: Uuid)
    ensures var m := Msg(u, 1, 100.0, None, [], Some(NotADocument)); CapFate(DEFAULTS, [m], [m], 100.0, m) == None
  {
    var m := Msg(u, 1, 100.0, None, [], Some(NotADocument));
    OneYoung(DEFAULTS, m, Main, 100.0);
    assert Sum([m]) == m.size + Sum([m][1..]);
  }

  /** One pass: the second message has an unusable sidecar, so it is set aside, and the
      first one's blob is gone without a line in the journal about it. */
  lemma SecondTwinReplacesTheFirst(u: Uuid)
    ensures var s, i := Twins(u), At100(u);
            var ops := PassOps(_ => NotJson, DEFAULTS, s, START, i);
            && Listed(s, i) && At(s.rejected, Cms(u)) == Some(FIRST)
            && At(ApplyAll(s, ops).rejected, Cms(u)) == Some(SECOND)
            && Entries(ops, Rejected, u) == []
  {
    TwinsAreScanned(u);
    TwinIsSetAside(u);
    TwinIsNotCapped(u);
    EverySetAsideEndsOnce(_ => NotJson, DEFAULTS, Twins(u), START, At100(u), u);
  }
}
