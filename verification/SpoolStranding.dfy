/** Whether metadata in the rejected directory is ever removed while its blob is
    there. */
module SpoolStranding {
  import opened Spool
  import opened SpoolBackoff
  import opened SpoolPass
  import opened SpoolConservation
  import opened SpoolRejected

  /** At some operation the metadata of `u` is removed from the rejected directory
      while the blob is in it. */
  ghost predicate Strands(s: Dirs, ops: seq<Op>, u: Uuid) {
    exists k: nat :: k < |ops| && StrandsAt(ApplyAll(s, ops[..k]), ops[k], u)
  }

  predicate StrandsAt(s: Dirs, op: Op, u: Uuid) {
    op.Remove? && op.dir == Rejected && op.name == Json(u) && Cms(u) in s.rejected
  }

  lemma StrandsInEither(s: Dirs, a: seq<Op>, b: seq<Op>, u: Uuid)
    ensures Strands(s, a + b, u) <==> Strands(s, a, u) || Strands(ApplyAll(s, a), b, u)
  {
    if k: nat :| k < |a| && StrandsAt(ApplyAll(s, a[..k]), a[k], u) {
      assert (a + b)[..k] == a[..k] && (a + b)[k] == a[k];
    }
    if k: nat :| k < |b| && StrandsAt(ApplyAll(ApplyAll(s, a), b[..k]), b[k], u) {
      assert (a + b)[..|a| + k] == a + b[..k] && (a + b)[|a| + k] == b[k];
      ApplyConcat(s, a, b[..k]);
    }
    if k: nat :| k < |a + b| && StrandsAt(ApplyAll(s, (a + b)[..k]), (a + b)[k], u) {
      if k < |a| {
        assert (a + b)[..k] == a[..k];
      } else {
        assert (a + b)[..k] == a + b[..k - |a|];
        ApplyConcat(s, a, b[..k - |a|]);
        assert StrandsAt(ApplyAll(ApplyAll(s, a), b[..k - |a|]), b[k - |a|], u);
      }
    }
  }

  /** No metadata of `u` is removed from the rejected directory. */
  ghost predicate LeavesMetadata(ops: seq<Op>, u: Uuid) {
    forall op | op in ops :: !(op.Remove? && op.dir == Rejected && op.name == Json(u))
  }

  lemma LeavingIsNotStranding(s: Dirs, ops: seq<Op>, u: Uuid)
    requires LeavesMetadata(ops, u)
    ensures !Strands(s, ops, u)
  {
  }

  /** The blob of `u` does not come to the rejected directory. */
  ghost predicate BringsNoBlob(ops: seq<Op>, u: Uuid) {
    Reject(Cms(u)) !in ops
  }

  lemma {:induction false} BlobStaysAway(s: Dirs, ops: seq<Op>, u: Uuid)
    requires Cms(u) !in s.rejected && BringsNoBlob(ops, u)
    ensures Cms(u) !in ApplyAll(s, ops).rejected
  {
    if ops != [] {
      var init, last := ops[..|ops| - 1], ops[|ops| - 1];
      assert ops == init + [last];
      BlobStaysAway(s, init, u);
    }
  }

  lemma NoBlobIsNotStranding(s: Dirs, ops: seq<Op>, u: Uuid)
    requires Cms(u) !in s.rejected && BringsNoBlob(ops, u)
    ensures !Strands(s, ops, u)
  {
    forall k: nat | k < |ops|
      ensures Cms(u) !in ApplyAll(s, ops[..k]).rejected
    {
      assert Reject(Cms(u)) in ops[..k] ==> Reject(Cms(u)) in ops;
      BlobStaysAway(s, ops[..k], u);
    }
  }

  // ----- the caps and the replay never strand -----

  lemma DropDoesNotStrand(s: Dirs, dir: Dir, v: Uuid, why: Why, e: Entry, u: Uuid)
    ensures !Strands(s, RemovePair(dir, v, why) + [Write(e)], u)
    ensures BringsNoBlob(RemovePair(dir, v, why) + [Write(e)], u)
  {
    var ops := RemovePair(dir, v, why) + [Write(e)];
    assert ops[..1] == [ops[0]] && ops[..1][..0] == [];
    assert ApplyAll(s, ops[..1]) == Apply(s, ops[0]);
    if v != u {
      LeavingIsNotStranding(s, ops, u);
    }
  }

  lemma {:induction false} AgeDoesNotStrand(cfg: Config, s: Dirs, ms: seq<Msg>, dir: Dir, now: real, u: Uuid)
    ensures !Strands(s, AgeOps(cfg, ms, dir, now), u) && BringsNoBlob(AgeOps(cfg, ms, dir, now), u)
  {
    if ms != [] {
      var init, m := ms[..|ms| - 1], ms[|ms| - 1];
      var before := AgeOps(cfg, init, dir, now);
      AgeDoesNotStrand(cfg, s, init, dir, now, u);
      if TooOld(cfg, m, now) {
        DropDoesNotStrand(ApplyAll(s, before), dir, m.uuid, Aged, Entry(DroppedAge(dir), m.uuid), u);
        StrandsInEither(s, before, RemovePair(dir, m.uuid, Aged) + [Write(Entry(DroppedAge(dir), m.uuid))], u);
      } else {
        assert before + [] == before;
      }
    }
  }

  lemma VictimDoesNotStrand(s: Dirs, ops: seq<Op>, m: Msg, dir: Dir, left: int, rest: seq<Op>, u: Uuid)
    requires ops == DropForSize(m, dir, left) + rest
    requires !Strands(ApplyAll(s, DropForSize(m, dir, left)), rest, u) && BringsNoBlob(rest, u)
    ensures !Strands(s, ops, u) && BringsNoBlob(ops, u)
  {
    DropDoesNotStrand(s, dir, m.uuid, OverCap, Entry(DroppedSize(dir, left), m.uuid), u);
    StrandsInEither(s, DropForSize(m, dir, left), rest, u);
  }

  lemma {:induction false} EvictDoesNotStrand(s: Dirs, cap: nat, pending: seq<Msg>, rejected: seq<Msg>, u: Uuid)
    ensures !Strands(s, Evict(cap, pending, rejected).ops, u) && BringsNoBlob(Evict(cap, pending, rejected).ops, u)
    decreases |pending| + |rejected|
  {
    var total := Sum(pending) + Sum(rejected);
    if total <= cap || (rejected == [] && pending == []) {
    } else if rejected != [] {
      var left := total - rejected[0].size;
      EvictRejectedOps(cap, pending, rejected);
      EvictDoesNotStrand(ApplyAll(s, DropForSize(rejected[0], Rejected, left)), cap, pending, rejected[1..], u);
      VictimDoesNotStrand(s, Evict(cap, pending, rejected).ops, rejected[0], Rejected, left, Evict(cap, pending, rejected[1..]).ops, u);
    } else {
      var left := total - pending[0].size;
      EvictPendingOps(cap, pending);
      EvictDoesNotStrand(ApplyAll(s, DropForSize(pending[0], Main, left)), cap, pending[1..], [], u);
      VictimDoesNotStrand(s, Evict(cap, pending, []).ops, pending[0], Main, left, Evict(cap, pending[1..], []).ops, u);
    }
  }

  lemma CapsDoNotStrand(cfg: Config, s: Dirs, ms: seq<Msg>, rs: seq<Msg>, now: real, u: Uuid)
    ensures !Strands(s, CapOps(CapParts(cfg, ms, rs, now)), u) && BringsNoBlob(CapOps(CapParts(cfg, ms, rs, now)), u)
  {
    var p := CapParts(cfg, ms, rs, now);
    AgeDoesNotStrand(cfg, s, rs, Rejected, now, u);
    AgeDoesNotStrand(cfg, ApplyAll(s, p.agedRejected), ms, Main, now, u);
    EvictDoesNotStrand(ApplyAll(s, p.agedRejected + p.agedPending), cfg.maxBytes, Young(cfg, ms, now), Young(cfg, rs, now), u);
    StrandsInEither(s, p.agedRejected, p.agedPending, u);
    StrandsInEither(s, p.agedRejected + p.agedPending, p.evicted, u);
  }

  lemma ReplayDoesNotStrand(cfg: Config, c: Control, p: Pass, s: Dirs, u: Uuid)
    ensures !Strands(s, ReplayOps(cfg, c, p), u)
  {
    ReplayClear(Tried(p), p.answers, Main, u);
    LeavingIsNotStranding(s, ReplayOps(cfg, c, p), u);
  }

  // ----- the sweep -----

  /** Metadata alone in the rejected directory, old enough to be swept. */
  predicate OldLoneMetadata(cfg: Config, s: Dirs, now: real, u: Uuid) {
    Json(u) in s.rejected && Cms(u) !in s.rejected && now - s.rejected[Json(u)].mtime > cfg.orphanAge
  }

  lemma OrphanMeans(s: Dirs, i: Inputs, o: Orphan)
    requires Listed(s, i) && o in AllOrphans(s, i)
    ensures o.mtime == Mtime(Contents(s, o.dir), o.name)
    ensures o.name.Cms? || o.name.Json? ==> o.name in Contents(s, o.dir)
    ensures o.name.Cms? ==> Json(o.name.uuid) !in Contents(s, o.dir)
    ensures o.name.Json? ==> Cms(o.name.uuid) !in Contents(s, o.dir)
  {
    OrphanTimes(i.mainNames, Main, s.main);
    OrphanTimes(i.rejectedNames, Rejected, s.rejected);
    if o in Orphans(i.mainNames, Main, s.main) {
      OrphansAreHalves(i.mainNames, Main, s.main, o);
    } else {
      OrphansAreHalves(i.rejectedNames, Rejected, s.rejected, o);
    }
  }

  lemma {:induction false} SweepComesFromOrphans(cfg: Config, s: Dirs, os: seq<Orphan>, now: real, u: Uuid)
    ensures (forall o | o in os :: !(o.dir == Rejected && o.name == Json(u) && now - o.mtime > cfg.orphanAge))
            ==> LeavesMetadata(SweepOps(cfg, s, os, now), u)
    ensures (forall o | o in os :: !(o.dir == Main && o.name == Cms(u) && now - o.mtime > cfg.orphanAge))
            ==> BringsNoBlob(SweepOps(cfg, s, os, now), u)
  {
    if os != [] {
      var init, o := os[..|os| - 1], os[|os| - 1];
      assert os == init + [o];
      SweepComesFromOrphans(cfg, s, init, now, u);
    }
  }

  lemma Associate(a: seq<Op>, b: seq<Op>, c: seq<Op>)
    ensures (a + b) + c == a + (b + c)
  {
  }

  lemma SweepLast(cfg: Config, s: Dirs, os: seq<Orphan>, o: Orphan, now: real)
    ensures SweepOps(cfg, s, os + [o], now)
            == SweepOps(cfg, s, os, now) + SweepOne(cfg, ApplyAll(s, SweepOps(cfg, s, os, now)), o, now)
  {
    assert (os + [o])[..|os|] == os;
  }

  /** Sweeping `a` and then `b` is sweeping both. */
  ghost predicate SweepsJoin(cfg: Config, s: Dirs, a: seq<Orphan>, b: seq<Orphan>, now: real) {
    var first := SweepOps(cfg, s, a, now);
    SweepOps(cfg, s, a + b, now) == first + SweepOps(cfg, ApplyAll(s, first), b, now)
  }

  lemma SweepsJoinNone(cfg: Config, s: Dirs, a: seq<Orphan>, now: real)
    ensures SweepsJoin(cfg, s, a, [], now)
  {
    assert a + [] == a;
  }

  lemma SweepsJoinOneMore(cfg: Config, s: Dirs, a: seq<Orphan>, b: seq<Orphan>, o: Orphan, now: real)
    requires SweepsJoin(cfg, s, a, b, now)
    ensures SweepsJoin(cfg, s, a, b + [o], now)
  {
    var first := SweepOps(cfg, s, a, now);
    var s1 := ApplyAll(s, first);
    var rest := SweepOps(cfg, s1, b, now);
    assert a + (b + [o]) == (a + b) + [o];
    SweepLast(cfg, s, a + b, o, now);
    SweepLast(cfg, s1, b, o, now);
    ApplyConcat(s, first, rest);
    Associate(first, rest, SweepOne(cfg, ApplyAll(s1, rest), o, now));
  }

  lemma {:induction false} SweepConcat(cfg: Config, s: Dirs, a: seq<Orphan>, b: seq<Orphan>, now: real)
    ensures SweepsJoin(cfg, s, a, b, now)
  {
    if b == [] {
      SweepsJoinNone(cfg, s, a, now);
    } else {
      SweepConcat(cfg, s, a, b[..|b| - 1], now);
      SweepsJoinOneMore(cfg, s, a, b[..|b| - 1], b[|b| - 1], now);
      assert b[..|b| - 1] + [b[|b| - 1]] == b;
    }
  }

  /** Sweeping the spool brings the old lone blob, and leaves metadata that is in the
      rejected directory. */
  lemma {:induction false} SweepBringsTheBlob(cfg: Config, s: Dirs, os: seq<Orphan>, now: real, u: Uuid)
    requires forall o | o in os :: o.dir == Main && o.name != Json(u) && (o.name == Cms(u) ==> now - o.mtime > cfg.orphanAge)
    requires Json(u) in s.rejected && (Cms(u) in s.main || Cms(u) in s.rejected)
    ensures var s' := ApplyAll(s, SweepOps(cfg, s, os, now));
            && Json(u) in s'.rejected && (Cms(u) in s'.main || Cms(u) in s'.rejected)
            && ((exists o :: o in os && o.name == Cms(u)) ==> Cms(u) in s'.rejected)
  {
    if os != [] {
      var init, o := os[..|os| - 1], os[|os| - 1];
      assert os == init + [o];
      SweepBringsTheBlob(cfg, s, init, now, u);
      var before := SweepOps(cfg, s, init, now);
      var s1 := ApplyAll(s, before);
      ApplyConcat(s, before, SweepOne(cfg, s1, o, now));
      OneOfMain(cfg, s1, o, now, u);
    }
  }

  lemma OneOfMain(cfg: Config, s: Dirs, o: Orphan, now: real, u: Uuid)
    requires o.dir == Main && o.name != Json(u) && (o.name == Cms(u) ==> now - o.mtime > cfg.orphanAge)
    requires Json(u) in s.rejected && (Cms(u) in s.main || Cms(u) in s.rejected)
    ensures var s' := ApplyAll(s, SweepOne(cfg, s, o, now));
            && Json(u) in s'.rejected && (Cms(u) in s'.main || Cms(u) in s'.rejected)
            && (Cms(u) in s.rejected || o.name == Cms(u) ==> Cms(u) in s'.rejected)
  {
    var ops := SweepOne(cfg, s, o, now);
    if |ops| == 2 {
      assert ops[..1] == [ops[0]] && ops[..1][..0] == [];
      assert ApplyAll(s, ops[..1]) == Apply(s, ops[0]);
      assert ApplyAll(s, ops) == Apply(s, ops[0]);
    } else if |ops| == 1 {
      assert ops[..0] == [];
      assert ApplyAll(s, ops) == Apply(s, ops[0]);
    }
  }

  /** Sweeping the rejected directory then removes the metadata beside its blob. */
  lemma {:induction false} SweepStrands(cfg: Config, s: Dirs, os: seq<Orphan>, now: real, u: Uuid, o: Orphan)
    requires o in os && o.dir == Rejected && o.name == Json(u) && now - o.mtime > cfg.orphanAge
    requires forall x | x in os :: x.dir == Rejected && x.name != Cms(u)
    requires Json(u) in s.rejected && Cms(u) in s.rejected
    ensures Strands(s, SweepOps(cfg, s, os, now), u)
  {
    var init, last := os[..|os| - 1], os[|os| - 1];
    var before := SweepOps(cfg, s, init, now);
    var s1 := ApplyAll(s, before);
    assert os == init + [last];
    StrandsInEither(s, before, SweepOne(cfg, s1, last, now), u);
    if x :| x in init && x.name == Json(u) && now - x.mtime > cfg.orphanAge {
      SweepStrands(cfg, s, init, now, u, x);
    } else {
      forall x | x in init
        ensures Spares(cfg, x, now, Rejected, u)
      {
      }
      SweepClear(cfg, s, init, now, Rejected, u);
      ClearChangesNothing(s, before, Rejected, u);
      assert last == o;
      var one := SweepOne(cfg, s1, last, now);
      assert one == [Remove(Rejected, Json(u), Leftover)] && one[..0] == [];
      assert StrandsAt(ApplyAll(s1, one[..0]), one[0], u);
    }
  }

  // ----- a whole pass -----

  lemma StrangersStayRejected(cfg: Config, s: Dirs, ms: seq<Msg>, rs: seq<Msg>, now: real, u: Uuid)
    requires !Holds(rs, u)
    ensures SameAt(s.rejected, ApplyAll(s, CapOps(CapParts(cfg, ms, rs, now))).rejected, u)
  {
    var young, others, p := Young(cfg, ms, now), Young(cfg, rs, now), CapParts(cfg, ms, rs, now);
    YoungAreKept(cfg, rs, now);
    assert forall m | m in rs :: exists i :: 0 <= i < |rs| && rs[i] == m;
    assert forall m | m in rs :: m.uuid != u;
    assert forall i | 0 <= i < |others| :: others[i] in rs;
    AgeClear(cfg, rs, Rejected, now, Rejected, u);
    AgeClear(cfg, ms, Main, now, Rejected, u);
    EvictClear(cfg.maxBytes, young, others, Rejected, u);
    ClearChangesNothing(s, CapOps(p), Rejected, u);
  }

  /** The sweep strands exactly when both halves are there, alone and old. */
  lemma SweepStrandsIff(cfg: Config, s: Dirs, s1: Dirs, i: Inputs, u: Uuid)
    requires Listed(s, i)
    requires !Paired(s.main, u) ==> SameAt(s.main, s1.main, u)
    requires !Paired(s.rejected, u) ==> SameAt(s.rejected, s1.rejected, u)
    ensures Strands(s1, SweepOps(cfg, s1, AllOrphans(s, i), i.now), u)
            <==> OldLoneBlob(cfg, s, i.now, u) && OldLoneMetadata(cfg, s, i.now, u)
  {
    var os := AllOrphans(s, i);
    forall o | o in os
      ensures o.dir == Rejected && o.name == Json(u) && i.now - o.mtime > cfg.orphanAge ==> OldLoneMetadata(cfg, s, i.now, u)
      ensures o.dir == Main && o.name == Cms(u) && i.now - o.mtime > cfg.orphanAge ==> OldLoneBlob(cfg, s, i.now, u)
    {
      OrphanMeans(s, i, o);
    }
    SweepComesFromOrphans(cfg, s1, os, i.now, u);
    if !OldLoneMetadata(cfg, s, i.now, u) {
      LeavingIsNotStranding(s1, SweepOps(cfg, s1, os, i.now), u);
    } else if !OldLoneBlob(cfg, s, i.now, u) {
      NoBlobIsNotStranding(s1, SweepOps(cfg, s1, os, i.now), u);
    } else {
      BothHalvesStrand(cfg, s, s1, i, u);
    }
  }

  lemma BothHalvesStrand(cfg: Config, s: Dirs, s1: Dirs, i: Inputs, u: Uuid)
    requires Listed(s, i) && OldLoneBlob(cfg, s, i.now, u) && OldLoneMetadata(cfg, s, i.now, u)
    requires SameAt(s.main, s1.main, u) && SameAt(s.rejected, s1.rejected, u)
    ensures Strands(s1, SweepOps(cfg, s1, AllOrphans(s, i), i.now), u)
  {
    var a, b := Orphans(i.mainNames, Main, s.main), Orphans(i.rejectedNames, Rejected, s.rejected);
    var first := SweepOps(cfg, s1, a, i.now);
    var s2 := ApplyAll(s1, first);
    var blob, metadata := HalvesListed(s, i, u);
    SweepConcat(cfg, s1, a, b, i.now);
    forall o | o in a
      ensures o.dir == Main && o.name != Json(u) && (o.name == Cms(u) ==> i.now - o.mtime > cfg.orphanAge)
    {
      OrphanMeans(s, i, o);
      OrphansAreHalves(i.mainNames, Main, s.main, o);
    }
    SweepBringsTheBlob(cfg, s1, a, i.now, u);
    forall o | o in b
      ensures o.dir == Rejected && o.name != Cms(u)
    {
      OrphanMeans(s, i, o);
      OrphansAreHalves(i.rejectedNames, Rejected, s.rejected, o);
    }
    SweepStrands(cfg, s2, b, i.now, u, metadata);
    StrandsInEither(s1, first, SweepOps(cfg, s2, b, i.now), u);
  }

  lemma HalvesListed(s: Dirs, i: Inputs, u: Uuid) returns (blob: Orphan, metadata: Orphan)
    requires Listed(s, i) && Cms(u) in s.main && Json(u) !in s.main && Json(u) in s.rejected && Cms(u) !in s.rejected
    ensures blob in Orphans(i.mainNames, Main, s.main) && blob == Orphan(Main, Cms(u), s.main[Cms(u)].mtime)
    ensures metadata in Orphans(i.rejectedNames, Rejected, s.rejected) && metadata == Orphan(Rejected, Json(u), s.rejected[Json(u)].mtime)
  {
    StemsAreTheNames(i.mainNames, u);
    StemsAreTheNames(i.rejectedNames, u);
    blob, metadata := Orphan(Main, Cms(u), s.main[Cms(u)].mtime), Orphan(Rejected, Json(u), s.rejected[Json(u)].mtime);
    LoneCmsListed(CmsStems(i.mainNames), JsonStems(i.mainNames), Main, s.main, u);
    LoneJsonListed(JsonStems(i.rejectedNames), CmsStems(i.rejectedNames), Rejected, s.rejected, u);
  }

  lemma {:induction false} LoneCmsListed(us: seq<Uuid>, other: seq<Uuid>, dir: Dir, d: Disk, u: Uuid)
    requires u in us && u !in other
    ensures Orphan(dir, Cms(u), Mtime(d, Cms(u))) in LoneCms(us, other, dir, d)
  {
    assert us == us[..|us| - 1] + [us[|us| - 1]];
    if us[|us| - 1] != u {
      LoneCmsListed(us[..|us| - 1], other, dir, d, u);
    }
  }

  lemma {:induction false} LoneJsonListed(us: seq<Uuid>, other: seq<Uuid>, dir: Dir, d: Disk, u: Uuid)
    requires u in us && u !in other
    ensures Orphan(dir, Json(u), Mtime(d, Json(u))) in LoneJson(us, other, dir, d)
  {
    assert us == us[..|us| - 1] + [us[|us| - 1]];
    if us[|us| - 1] != u {
      LoneJsonListed(us[..|us| - 1], other, dir, d, u);
    }
  }

  lemma PhasesStrandIff(cfg: Config, c: Control, s: Dirs, i: Inputs, ms: seq<Msg>, rs: seq<Msg>, p: Pass, k: seq<Op>, u: Uuid)
    requires Listed(s, i) && OneEach(ms) && (Holds(ms, u) <==> Paired(s.main, u)) && (Holds(rs, u) <==> Paired(s.rejected, u))
    requires k == CapOps(CapParts(cfg, ms, rs, i.now))
    ensures var ops := k + SweepOps(cfg, ApplyAll(s, k), AllOrphans(s, i), i.now) + ReplayOps(cfg, c, p);
            Strands(s, ops, u) <==> OldLoneBlob(cfg, s, i.now, u) && OldLoneMetadata(cfg, s, i.now, u)
  {
    var s1 := ApplyAll(s, k);
    var swept := SweepOps(cfg, s1, AllOrphans(s, i), i.now);
    CapsDoNotStrand(cfg, s, ms, rs, i.now, u);
    if !Paired(s.main, u) {
      CapsSpareMain(cfg, ms, rs, CapParts(cfg, ms, rs, i.now), i.now, u);
      ClearChangesNothing(s, k, Main, u);
    }
    if !Paired(s.rejected, u) {
      StrangersStayRejected(cfg, s, ms, rs, i.now, u);
    }
    SweepStrandsIff(cfg, s, s1, i, u);
    ReplayDoesNotStrand(cfg, c, p, ApplyAll(s, k + swept), u);
    StrandsInEither(s, k, swept, u);
    StrandsInEither(s, k + swept, ReplayOps(cfg, c, p), u);
  }

  /** A pass removes metadata from the rejected directory while the blob is in it
      exactly when that metadata was there alone, the blob was pending alone, and both
      were old enough to be swept: then the sweep first moves the blob beside its
      metadata and then removes that. */
  lemma {:induction false} MetadataGoesBeforeItsBlobIff(decode: Bytes -> Doc, cfg: Config, s: Dirs, c: Control, i: Inputs, u: Uuid)
    requires Listed(s, i)
    ensures Strands(s, PassOps(decode, cfg, s, c, i), u)
            <==> OldLoneBlob(cfg, s, i.now, u) && OldLoneMetadata(cfg, s, i.now, u)
  {
    var ms, rs := Messages(decode, s.main, i.mainNames), Messages(decode, s.rejected, i.rejectedNames);
    Scanned(decode, s.main, i.mainNames, u);
    Scanned(decode, s.rejected, i.rejectedNames, u);
    HoldsIfScanned(ms, decode, s.main, u);
    HoldsIfScanned(rs, decode, s.rejected, u);
    PassIsItsPhases(decode, cfg, s, c, i);
    PhasesStrandIff(cfg, c, s, i, ms, rs, PassOf(decode, cfg, s, i), CapOps(CapParts(cfg, ms, rs, i.now)), u);
  }

  /** The two halves of a message whose setting aside a crash cut short, an hour on. */
  function Halves(u: Uuid): Dirs {
    Dirs(map[Cms(u) := SECOND], map[Json(u) := NO_SIDECAR])
  }

  /** One pass on them strands the blob. */
  lemma HalvesAreStranded(u: Uuid)
    ensures var s, i := Halves(u), Inputs(4000.0, [Cms(u)], [Json(u)], false, _ => NoAnswer, 4000.0, 1.0);
            Listed(s, i) && Strands(s, PassOps(_ => NotJson, DEFAULTS, s, START, i), u)
  {
    var s, i := Halves(u), Inputs(4000.0, [Cms(u)], [Json(u)], false, _ => NoAnswer, 4000.0, 1.0);
    MetadataGoesBeforeItsBlobIff(_ => NotJson, DEFAULTS, s, START, i, u);
  }
}
