/** Whole runs: voicemail deposited at any time, passes cut short by a crash between
    any two file operations, replies lost after the API stored the message. */
module SpoolRuns {
  import opened Wrappers
  import opened Spool
  import opened SpoolBackoff
  import opened SpoolPass
  import opened SpoolConservation

  datatype Copy = Copy(uuid: Uuid, blob: Bytes)

  /** The directories, the API's copies and the messages it answered 410 for, the
      rest of the pass under way, and what the run has seen so far: the blobs
      deposited, those a cap or the sweep deleted, and those whose move to the
      rejected directory began. */
  datatype World = World(
    spool: Dirs, api: seq<Copy>, gone: set<Uuid>, todo: seq<Op>,
    deposited: map<Uuid, Bytes>, dropped: set<Uuid>, rejecting: set<Uuid>)

  /** Metadata is deposited first, the blob last. `Execute(stores)` is the next
      operation of the pass; a request on the wire may be stored whatever becomes
      of its answer. A crash forgets the rest of the pass. */
  datatype Happening =
    | DepositJson(uuid: Uuid, file: File)
    | DepositCms(uuid: Uuid, file: File)
    | Begin(c: Control, inputs: Inputs)
    | Execute(stores: bool)
    | Crash

  function Held(api: seq<Copy>): set<Uuid> {
    set c | c in api :: c.uuid
  }

  function Blobs(d: Disk): set<Uuid> {
    set n | n in d && n.Cms? :: n.uuid
  }

  predicate OnTheWire(x: Exchange) {
    x.NoAnswer? || x.Answered?
  }

  function Store(w: World, u: Uuid): seq<Copy> {
    if u in Held(w.api) || Cms(u) !in w.spool.main then w.api else w.api + [Copy(u, w.spool.main[Cms(u)].bytes)]
  }

  /** An honest API: "stored" or "duplicate" is answered only by one that has the
      message. A message goes on the wire only after its blob was read. A deposit
      uses a fresh id, and is finished before its metadata counts as a leftover. */
  ghost predicate Possible(w: World, e: Happening) {
    match e
    case DepositJson(u, _) => u !in w.deposited && Json(u) !in w.spool.main
    case DepositCms(u, _) =>
      u !in w.deposited && Json(u) in w.spool.main && forall why :: Remove(Main, Json(u), why) !in w.todo
    case Begin(_, i) => w.todo == [] && Listed(w.spool, i)
    case Crash => true
    case Execute(stores) =>
      w.todo != [] && match w.todo[0]
        case Send(u, x) =>
          && (OnTheWire(x) ==> Cms(u) in w.spool.main)
          && (stores ==> OnTheWire(x))
          && (SaysHeld(x) ==> u in Held(w.api) || stores)
        case _ => !stores
  }

  function Perform(w: World, op: Op, stores: bool): World {
    var w1 := w.(spool := Apply(w.spool, op));
    match op
    case Send(u, x) =>
      w1.(api := if stores then Store(w, u) else w.api, gone := if SaysGone(x) then w.gone + {u} else w.gone)
    case Remove(_, n, why) => if n.Cms? && why in {Aged, OverCap, Leftover} then w1.(dropped := w.dropped + {n.uuid}) else w1
    case Reject(n) => if n.Json? then w1.(rejecting := w.rejecting + {n.uuid}) else w1
    case _ => w1
  }

  function Next(decode: Bytes -> Doc, cfg: Config, w: World, e: Happening): World {
    match e
    case DepositJson(u, f) => w.(spool := w.spool.(main := w.spool.main[Json(u) := f]))
    case DepositCms(u, f) =>
      w.(spool := w.spool.(main := w.spool.main[Cms(u) := f]), deposited := w.deposited[u := f.bytes])
    case Begin(c, i) => w.(todo := PassOps(decode, cfg, w.spool, c, i))
    case Execute(stores) => if w.todo == [] then w else Perform(w, w.todo[0], stores).(todo := w.todo[1..])
    case Crash => w.(todo := [])
  }

  function After(decode: Bytes -> Doc, cfg: Config, w: World, es: seq<Happening>): World {
    if es == [] then w else Next(decode, cfg, After(decode, cfg, w, es[..|es| - 1]), es[|es| - 1])
  }

  ghost predicate PossibleRun(decode: Bytes -> Doc, cfg: Config, w: World, es: seq<Happening>) {
    forall i | 0 <= i < |es| :: Possible(After(decode, cfg, w, es[..i]), es[i])
  }

  /** A run starts from an empty spool; the API may hold live deposits. */
  function Initial(live: seq<Copy>): World {
    World(Dirs(map[], map[]), live, {}, [], map[], {}, {})
  }

  // ----- operations in an order a crash cannot hurt -----

  /** What is known when an operation is about to run: what the API holds, what it
      refused for good, and which blobs are pending. */
  datatype Facts = Facts(held: set<Uuid>, gone: set<Uuid>, blobs: set<Uuid>)

  /** A pending blob is removed for a delivery only once the API holds it, for a 410
      only once that was answered, and never as a leftover; pending metadata is removed
      only once its blob is not pending. */
  predicate Fine(f: Facts, op: Op) {
    match op
    case Remove(Main, Cms(u), why) =>
      (why == Delivered ==> u in f.held) && (why == GoneAtApi ==> u in f.gone) && why != Leftover
    case Remove(Main, Json(u), _) => u !in f.blobs
    case Remove(Rejected, Cms(_), why) => why != Delivered && why != GoneAtApi
    case _ => true
  }

  function Learn(f: Facts, op: Op): Facts {
    match op
    case Remove(Main, Cms(u), _) => f.(blobs := f.blobs - {u})
    case Reject(Cms(u)) => f.(blobs := f.blobs - {u})
    case Send(u, x) =>
      f.(held := if SaysHeld(x) then f.held + {u} else f.held, gone := if SaysGone(x) then f.gone + {u} else f.gone)
    case _ => f
  }

  predicate Ready(f: Facts, ops: seq<Op>)
    decreases |ops|
  {
    ops == [] || (Fine(f, ops[0]) && Ready(Learn(f, ops[0]), ops[1..]))
  }

  predicate Weaker(f: Facts, g: Facts) {
    f.held <= g.held && f.gone <= g.gone && g.blobs <= f.blobs
  }

  /** Knowing more, and having fewer blobs pending, only helps. */
  lemma {:induction false} ReadyWithMore(f: Facts, g: Facts, ops: seq<Op>)
    requires Weaker(f, g) && Ready(f, ops)
    ensures Ready(g, ops)
    decreases |ops|
  {
    if ops != [] {
      assert Weaker(Learn(f, ops[0]), Learn(g, ops[0]));
      ReadyWithMore(Learn(f, ops[0]), Learn(g, ops[0]), ops[1..]);
    }
  }

  /** Ready whatever is known, as long as these blobs are not pending. */
  ghost predicate AlwaysReady(ops: seq<Op>, absent: set<Uuid>) {
    forall f: Facts | f.blobs !! absent :: Ready(f, ops)
  }

  lemma {:induction false} ReadyConcat(f: Facts, a: seq<Op>, b: seq<Op>, absent: set<Uuid>)
    requires Ready(f, a) && f.blobs !! absent && AlwaysReady(b, absent)
    ensures Ready(f, a + b)
    decreases |a|
  {
    if a == [] {
      assert a + b == b;
    } else {
      assert (a + b)[1..] == a[1..] + b;
      assert Learn(f, a[0]).blobs !! absent;
      ReadyConcat(Learn(f, a[0]), a[1..], b, absent);
    }
  }

  lemma BothAlwaysReady(a: seq<Op>, b: seq<Op>, absent: set<Uuid>)
    requires AlwaysReady(a, absent) && AlwaysReady(b, absent)
    ensures AlwaysReady(a + b, absent)
  {
    forall f: Facts | f.blobs !! absent
      ensures Ready(f, a + b)
    {
      ReadyConcat(f, a, b, absent);
    }
  }

  lemma NothingIsReady(absent: set<Uuid>)
    ensures AlwaysReady([], absent)
  {
  }

  lemma DropIsReady(dir: Dir, u: Uuid, why: Why, e: Entry, absent: set<Uuid>)
    requires why == Aged || why == OverCap
    ensures AlwaysReady(RemovePair(dir, u, why) + [Write(e)], absent)
  {
    var ops := RemovePair(dir, u, why) + [Write(e)];
    forall f: Facts | f.blobs !! absent
      ensures Ready(f, ops)
    {
      ThreeReady(f, ops);
    }
  }

  lemma ThreeReady(f: Facts, ops: seq<Op>)
    requires |ops| == 3
    requires Fine(f, ops[0]) && Fine(Learn(f, ops[0]), ops[1]) && Fine(Learn(Learn(f, ops[0]), ops[1]), ops[2])
    ensures Ready(f, ops)
  {
    assert ops[1..][1..] == ops[2..] && ops[2..][1..] == [];
    assert Ready(Learn(Learn(f, ops[0]), ops[1]), ops[2..]);
  }

  lemma {:induction false} AgeReady(cfg: Config, ms: seq<Msg>, dir: Dir, now: real, absent: set<Uuid>)
    ensures AlwaysReady(AgeOps(cfg, ms, dir, now), absent)
  {
    if ms == [] {
      NothingIsReady(absent);
    } else {
      var init, m := ms[..|ms| - 1], ms[|ms| - 1];
      AgeReady(cfg, init, dir, now, absent);
      if TooOld(cfg, m, now) {
        DropIsReady(dir, m.uuid, Aged, Entry(DroppedAge(dir), m.uuid), absent);
        BothAlwaysReady(AgeOps(cfg, init, dir, now), RemovePair(dir, m.uuid, Aged) + [Write(Entry(DroppedAge(dir), m.uuid))], absent);
      } else {
        assert AgeOps(cfg, init, dir, now) + [] == AgeOps(cfg, init, dir, now);
      }
    }
  }

  lemma VictimReady(ops: seq<Op>, m: Msg, dir: Dir, left: int, rest: seq<Op>, absent: set<Uuid>)
    requires AlwaysReady(rest, absent) && ops == DropForSize(m, dir, left) + rest
    ensures AlwaysReady(ops, absent)
  {
    DropIsReady(dir, m.uuid, OverCap, Entry(DroppedSize(dir, left), m.uuid), absent);
    BothAlwaysReady(DropForSize(m, dir, left), rest, absent);
  }

  lemma {:induction false} EvictReady(cap: nat, pending: seq<Msg>, rejected: seq<Msg>, absent: set<Uuid>)
    ensures AlwaysReady(Evict(cap, pending, rejected).ops, absent)
    decreases |pending| + |rejected|
  {
    if Sum(pending) + Sum(rejected) <= cap || (rejected == [] && pending == []) {
      NothingIsReady(absent);
    } else if rejected != [] {
      EvictReady(cap, pending, rejected[1..], absent);
      EvictRejectedOps(cap, pending, rejected);
      VictimReady(Evict(cap, pending, rejected).ops, rejected[0], Rejected, Sum(pending) + Sum(rejected) - rejected[0].size,
                  Evict(cap, pending, rejected[1..]).ops, absent);
    } else {
      EvictReady(cap, pending[1..], [], absent);
      EvictPendingOps(cap, pending);
      VictimReady(Evict(cap, pending, []).ops, pending[0], Main, Sum(pending) - pending[0].size, Evict(cap, pending[1..], []).ops, absent);
    }
  }

  lemma SweepOneReady(cfg: Config, s: Dirs, o: Orphan, now: real, absent: set<Uuid>)
    requires o.dir == Main && o.name.Json? ==> o.name.uuid in absent
    ensures AlwaysReady(SweepOne(cfg, s, o, now), absent)
  {
    var ops := SweepOne(cfg, s, o, now);
    forall f: Facts | f.blobs !! absent
      ensures Ready(f, ops)
    {
      if |ops| == 2 {
        assert ops[1..][1..] == [];
        assert Ready(Learn(f, ops[0]), ops[1..]);
      } else if |ops| == 1 {
        assert ops[1..] == [];
      }
    }
  }

  lemma {:induction false} SweepReady(cfg: Config, s: Dirs, os: seq<Orphan>, now: real, absent: set<Uuid>)
    requires forall o | o in os :: o.dir == Main && o.name.Json? ==> o.name.uuid in absent
    ensures AlwaysReady(SweepOps(cfg, s, os, now), absent)
  {
    if os == [] {
      NothingIsReady(absent);
    } else {
      var init, o := os[..|os| - 1], os[|os| - 1];
      assert os == init + [o];
      SweepReady(cfg, s, init, now, absent);
      var before := SweepOps(cfg, s, init, now);
      SweepOneReady(cfg, ApplyAll(s, before), o, now, absent);
      BothAlwaysReady(before, SweepOne(cfg, ApplyAll(s, before), o, now), absent);
    }
  }

  lemma SettleReady(f: Facts, u: Uuid, o: Outcome)
    requires o in {Stored, Duplicate} ==> u in f.held
    requires o == Gone ==> u in f.gone
    ensures Ready(f, Settle(u, o))
  {
    var ops := Settle(u, o);
    if |ops| == 2 {
      assert ops[1..][1..] == [];
      assert Ready(Learn(f, ops[0]), ops[1..]);
    } else if |ops| == 3 {
      ThreeReady(f, ops);
    }
  }

  lemma ReplayOneReady(m: Msg, answers: Uuid -> Exchange, absent: set<Uuid>)
    ensures AlwaysReady(ReplayOne(m, answers), absent)
  {
    var ops := ReplayOne(m, answers);
    forall f: Facts | f.blobs !! absent
      ensures Ready(f, ops)
    {
      if m.error.Some? {
        ThreeReady(f, ops);
      } else {
        SettleReady(Learn(f, ops[0]), m.uuid, Classify(answers(m.uuid)));
        assert ops[1..] == Settle(m.uuid, Classify(answers(m.uuid)));
      }
    }
  }

  lemma {:induction false} ReplayReady(ms: seq<Msg>, answers: Uuid -> Exchange, absent: set<Uuid>)
    ensures AlwaysReady(ReplayEach(ms, answers), absent)
  {
    if ms == [] {
      NothingIsReady(absent);
    } else {
      var init, m := ms[..|ms| - 1], ms[|ms| - 1];
      ReplayReady(init, answers, absent);
      ReplayOneReady(m, answers, absent);
      BothAlwaysReady(ReplayEach(init, answers), ReplayOne(m, answers), absent);
    }
  }

  lemma PartsReady(p: Parts, absent: set<Uuid>)
    requires AlwaysReady(p.agedRejected, absent) && AlwaysReady(p.agedPending, absent) && AlwaysReady(p.evicted, absent)
    requires AlwaysReady(p.swept, absent) && AlwaysReady(p.replayed, absent)
    ensures AlwaysReady(Joined(p), absent)
  {
    BothAlwaysReady(p.agedRejected, p.agedPending, absent);
    BothAlwaysReady(p.agedRejected + p.agedPending, p.evicted, absent);
    BothAlwaysReady(p.agedRejected + p.agedPending + p.evicted, p.swept, absent);
    BothAlwaysReady(p.agedRejected + p.agedPending + p.evicted + p.swept, p.replayed, absent);
  }

  /** The metadata files in the spool that have no blob. */
  function LoneMetadata(d: Disk): set<Uuid> {
    set n | n in d && n.Json? && Cms(n.uuid) !in d :: n.uuid
  }

  lemma SweptReady(decode: Bytes -> Doc, cfg: Config, s: Dirs, c: Control, i: Inputs)
    requires Listed(s, i)
    ensures AlwaysReady(PartsOf(decode, cfg, s, c, i).swept, LoneMetadata(s.main))
  {
    var a, b := Orphans(i.mainNames, Main, s.main), Orphans(i.rejectedNames, Rejected, s.rejected);
    forall o: Orphan | o in a + b
      ensures o.dir == Main && o.name.Json? ==> o.name.uuid in LoneMetadata(s.main)
    {
      if o in a {
        OrphansAreHalves(i.mainNames, Main, s.main, o);
      } else {
        OrphansAreHalves(i.rejectedNames, Rejected, s.rejected, o);
      }
    }
    var p := PartsOf(decode, cfg, s, c, i);
    SweepReady(cfg, ApplyAll(s, p.agedRejected + p.agedPending + p.evicted), a + b, i.now, LoneMetadata(s.main));
  }

  lemma FittingPartsReady(cfg: Config, c: Control, ms: seq<Msg>, rs: seq<Msg>, p: Parts, pass: Pass, absent: set<Uuid>)
    requires Fits(cfg, c, ms, rs, p, pass) && AlwaysReady(p.swept, absent)
    ensures AlwaysReady(Joined(p), absent)
  {
    AgeReady(cfg, rs, Rejected, pass.now, absent);
    AgeReady(cfg, ms, Main, pass.now, absent);
    EvictReady(cfg.maxBytes, Young(cfg, ms, pass.now), Young(cfg, rs, pass.now), absent);
    ReplayReady(pass.queue[..Reached(pass.queue, pass.answers)], pass.answers, absent);
    NothingIsReady(absent);
    PartsReady(p, absent);
  }

  /** Every prefix of a pass is an order a crash cannot hurt. */
  lemma {:induction false} PassIsReady(decode: Bytes -> Doc, cfg: Config, s: Dirs, c: Control, i: Inputs, f: Facts)
    requires Listed(s, i) && f.blobs <= Blobs(s.main)
    ensures Ready(f, PassOps(decode, cfg, s, c, i))
  {
    SweptReady(decode, cfg, s, c, i);
    PartsFit(decode, cfg, s, c, i);
    FittingPartsReady(cfg, c, Messages(decode, s.main, i.mainNames), Messages(decode, s.rejected, i.rejectedNames),
                      PartsOf(decode, cfg, s, c, i), PassOf(decode, cfg, s, i), LoneMetadata(s.main));
    assert f.blobs !! LoneMetadata(s.main);
  }

  // ----- what every run keeps -----

  function FactsOf(w: World): Facts {
    Facts(Held(w.api), w.gone, Blobs(w.spool.main))
  }

  ghost predicate OneCopyEach(api: seq<Copy>) {
    forall i, j | 0 <= i < j < |api| :: api[i].uuid != api[j].uuid
  }

  /** A deposited message is pending, set aside, at the API, refused for good by the
      API, or was deleted by a cap or the sweep. */
  predicate Accounted(w: World, u: Uuid) {
    Cms(u) in w.spool.main || Cms(u) in w.spool.rejected || u in Held(w.api) || u in w.gone || u in w.dropped
  }

  ghost predicate BytesKept(d: Disk, deposited: map<Uuid, Bytes>) {
    forall u | Cms(u) in d :: u in deposited && d[Cms(u)].bytes == deposited[u]
  }

  /** The API's copies beyond the first `live` are of deposited blobs, byte for byte. */
  ghost predicate CopiesFaithful(api: seq<Copy>, live: nat, deposited: map<Uuid, Bytes>) {
    forall i | live <= i < |api| :: api[i].uuid in deposited && api[i].blob == deposited[api[i].uuid]
  }

  /** A pending blob without metadata is one whose rejection a crash cut short. */
  ghost predicate MetadataKept(w: World) {
    forall u | Cms(u) in w.spool.main && Json(u) !in w.spool.main :: u in w.rejecting
  }

  ghost predicate Kept(w: World, live: nat) {
    && OneCopyEach(w.api)
    && (forall u | u in w.deposited :: Accounted(w, u))
    && BytesKept(w.spool.main, w.deposited) && BytesKept(w.spool.rejected, w.deposited)
    && CopiesFaithful(w.api, live, w.deposited)
    && Ready(FactsOf(w), w.todo)
    && MetadataKept(w)
  }

  lemma JsonDepositKeeps(w: World, u: Uuid, f: File, live: nat)
    requires Kept(w, live)
    ensures Kept(w.(spool := w.spool.(main := w.spool.main[Json(u) := f])), live)
  {
    var d := w.spool.main[Json(u) := f];
    assert forall v :: Cms(v) in d <==> Cms(v) in w.spool.main;
    assert Blobs(d) == Blobs(w.spool.main);
  }

  lemma {:induction false} ReadyWithOneMoreBlob(f: Facts, u: Uuid, ops: seq<Op>)
    requires Ready(f, ops) && forall why :: Remove(Main, Json(u), why) !in ops
    ensures Ready(f.(blobs := f.blobs + {u}), ops)
    decreases |ops|
  {
    if ops != [] {
      var g := f.(blobs := f.blobs + {u});
      assert ops[0] in ops;
      assert Fine(g, ops[0]);
      var f1 := Learn(f, ops[0]);
      ReadyWithOneMoreBlob(f1, u, ops[1..]);
      ReadyWithMore(f1.(blobs := f1.blobs + {u}), Learn(g, ops[0]), ops[1..]);
    }
  }

  lemma CmsDepositKeeps(w: World, u: Uuid, f: File, live: nat)
    requires Kept(w, live) && Possible(w, DepositCms(u, f))
    ensures Kept(w.(spool := w.spool.(main := w.spool.main[Cms(u) := f]), deposited := w.deposited[u := f.bytes]), live)
  {
    var w' := w.(spool := w.spool.(main := w.spool.main[Cms(u) := f]), deposited := w.deposited[u := f.bytes]);
    ReadyWithOneMoreBlob(FactsOf(w), u, w.todo);
    assert Cms(u) in w'.spool.main;
    assert forall v :: Cms(v) in w'.spool.main <==> v == u || Cms(v) in w.spool.main;
    assert Blobs(w'.spool.main) == Blobs(w.spool.main) + {u};
    assert FactsOf(w') == FactsOf(w).(blobs := FactsOf(w).blobs + {u});
    assert forall v | v in w'.deposited :: v != u ==> Accounted(w, v);
  }

  lemma BeginKeeps(decode: Bytes -> Doc, cfg: Config, w: World, c: Control, i: Inputs, live: nat)
    requires Kept(w, live) && Listed(w.spool, i)
    ensures Kept(w.(todo := PassOps(decode, cfg, w.spool, c, i)), live)
  {
    PassIsReady(decode, cfg, w.spool, c, i, FactsOf(w));
  }

  lemma StoreKeeps(w: World, u: Uuid, live: nat)
    requires OneCopyEach(w.api) && CopiesFaithful(w.api, live, w.deposited) && BytesKept(w.spool.main, w.deposited)
    ensures OneCopyEach(Store(w, u)) && CopiesFaithful(Store(w, u), live, w.deposited)
    ensures Held(w.api) <= Held(Store(w, u))
    ensures Cms(u) in w.spool.main ==> u in Held(Store(w, u))
  {
    var api := Store(w, u);
    assert forall c | c in w.api :: c in api;
    if u !in Held(w.api) && Cms(u) in w.spool.main {
      assert api[|w.api|] in api;
      assert forall i | 0 <= i < |w.api| :: w.api[i] in w.api;
    }
  }

  lemma SendKeeps(w: World, u: Uuid, x: Exchange, stores: bool, live: nat)
    requires Kept(w, live) && Possible(w, Execute(stores)) && w.todo[0] == Send(u, x)
    ensures Kept(Perform(w, w.todo[0], stores).(todo := w.todo[1..]), live)
  {
    var w' := Perform(w, w.todo[0], stores).(todo := w.todo[1..]);
    StoreKeeps(w, u, live);
    assert Held(w.api) <= Held(w'.api);
    assert SaysHeld(x) ==> u in Held(w'.api);
    ReadyWithMore(Learn(FactsOf(w), w.todo[0]), FactsOf(w'), w'.todo);
    assert forall v | v in w'.deposited :: Accounted(w, v);
  }

  lemma BlobGone(d: Disk, n: Name)
    ensures Blobs(d - {n}) == if n.Cms? then Blobs(d) - {n.uuid} else Blobs(d)
  {
    forall u
      ensures u in Blobs(d) <==> Cms(u) in d
      ensures u in Blobs(d - {n}) <==> Cms(u) in d - {n}
    {
    }
  }

  lemma RemoveKeeps(w: World, dir: Dir, n: Name, why: Why, live: nat)
    requires Kept(w, live) && w.todo != [] && w.todo[0] == Remove(dir, n, why)
    ensures Kept(Perform(w, w.todo[0], false).(todo := w.todo[1..]), live)
  {
    var w' := Perform(w, w.todo[0], false).(todo := w.todo[1..]);
    var f := FactsOf(w);
    assert Fine(f, w.todo[0]);
    BlobGone(w.spool.main, n);
    if dir == Rejected {
      ReadyWithMore(Learn(f, w.todo[0]), FactsOf(w'), w'.todo);
    } else {
      assert FactsOf(w') == Learn(f, w.todo[0]);
    }
    forall u | u in w'.deposited
      ensures Accounted(w', u)
    {
      assert Accounted(w, u);
      if n == Cms(u) {
        assert why in {Aged, OverCap, Leftover} ==> u in w'.dropped;
      }
    }
    forall u | Cms(u) in w'.spool.main && Json(u) !in w'.spool.main
      ensures u in w'.rejecting
    {
      assert u in Blobs(w.spool.main);
    }
  }

  lemma RejectKeeps(w: World, n: Name, live: nat)
    requires Kept(w, live) && w.todo != [] && w.todo[0] == Reject(n)
    ensures Kept(Perform(w, w.todo[0], false).(todo := w.todo[1..]), live)
  {
    var w' := Perform(w, w.todo[0], false).(todo := w.todo[1..]);
    BlobGone(w.spool.main, n);
    assert n !in w.spool.main ==> w.spool.main - {n} == w.spool.main;
    assert w'.spool.main == w.spool.main - {n};
    assert FactsOf(w') == Learn(FactsOf(w), w.todo[0]);
    forall u | u in w'.deposited
      ensures Accounted(w', u)
    {
      assert Accounted(w, u);
    }
  }

  lemma WriteKeeps(w: World, e: Entry, live: nat)
    requires Kept(w, live) && w.todo != [] && w.todo[0] == Write(e)
    ensures Kept(Perform(w, w.todo[0], false).(todo := w.todo[1..]), live)
  {
    assert forall u | u in w.deposited :: Accounted(w, u);
    var w' := Perform(w, w.todo[0], false).(todo := w.todo[1..]);
    assert w'.spool == w.spool && w'.api == w.api;
    assert forall u | u in w.deposited :: Accounted(w', u);
  }

  lemma StepKeeps(decode: Bytes -> Doc, cfg: Config, w: World, e: Happening, live: nat)
    requires Kept(w, live) && Possible(w, e)
    ensures Kept(Next(decode, cfg, w, e), live)
  {
    match e
    case DepositJson(u, f) => JsonDepositKeeps(w, u, f, live);
    case DepositCms(u, f) => CmsDepositKeeps(w, u, f, live);
    case Begin(c, i) => BeginKeeps(decode, cfg, w, c, i, live);
    case Crash =>
    case Execute(stores) =>
      match w.todo[0]
      case Send(u, x) => SendKeeps(w, u, x, stores, live);
      case Remove(dir, n, why) => RemoveKeeps(w, dir, n, why, live);
      case Reject(n) => RejectKeeps(w, n, live);
      case Write(entry) => WriteKeeps(w, entry, live);
  }

  lemma {:induction false} RunsKeep(decode: Bytes -> Doc, cfg: Config, live: seq<Copy>, es: seq<Happening>)
    requires OneCopyEach(live) && PossibleRun(decode, cfg, Initial(live), es)
    ensures Kept(After(decode, cfg, Initial(live), es), |live|)
  {
    if es != [] {
      var init := es[..|es| - 1];
      forall i | 0 <= i < |init|
        ensures Possible(After(decode, cfg, Initial(live), init[..i]), init[i])
      {
        assert init[..i] == es[..i];
      }
      RunsKeep(decode, cfg, live, init);
      StepKeeps(decode, cfg, After(decode, cfg, Initial(live), init), es[|es| - 1], |live|);
    }
  }

  /** Over every run, with crashes, lost replies and deposits at any moment: every
      deposited message is accounted for with its bytes unchanged, the API never has
      two copies, and a pending blob lacks its metadata only if a rejection of it
      was begun. */
  lemma {:induction false} NothingIsLost(decode: Bytes -> Doc, cfg: Config, live: seq<Copy>, es: seq<Happening>)
    requires OneCopyEach(live) && PossibleRun(decode, cfg, Initial(live), es)
    ensures var w := After(decode, cfg, Initial(live), es);
            && (forall u | u in w.deposited :: Accounted(w, u))
            && OneCopyEach(w.api)
            && BytesKept(w.spool.main, w.deposited) && BytesKept(w.spool.rejected, w.deposited)
            && CopiesFaithful(w.api, |live|, w.deposited)
            && MetadataKept(w)
  {
    RunsKeep(decode, cfg, live, es);
  }

  /** Why the blob of `u` left the spool in this step. */
  predicate ForCause(w: World, w': World, e: Happening, u: Uuid) {
    && e.Execute? && w.todo != []
    && match w.todo[0]
       case Remove(_, _, Delivered) => u in Held(w.api)
       case Remove(_, _, GoneAtApi) => u in w.gone
       case Remove(_, _, why) => why == Aged || why == OverCap
       case Reject(_) => At(w'.spool.rejected, Cms(u)) == At(w.spool.main, Cms(u))
       case _ => false
  }

  lemma StepForCause(decode: Bytes -> Doc, cfg: Config, w: World, e: Happening, u: Uuid)
    requires Ready(FactsOf(w), w.todo) && Cms(u) in w.spool.main && Cms(u) !in Next(decode, cfg, w, e).spool.main
    ensures ForCause(w, Next(decode, cfg, w, e), e, u)
  {
    assert w.todo != [] ==> Fine(FactsOf(w), w.todo[0]);
  }

  lemma RunSplits(decode: Bytes -> Doc, cfg: Config, w: World, es: seq<Happening>, e: Happening)
    requires PossibleRun(decode, cfg, w, es + [e])
    ensures PossibleRun(decode, cfg, w, es) && Possible(After(decode, cfg, w, es), e)
    ensures After(decode, cfg, w, es + [e]) == Next(decode, cfg, After(decode, cfg, w, es), e)
  {
    var all := es + [e];
    assert all[..|es|] == es;
    forall i | 0 <= i < |es|
      ensures Possible(After(decode, cfg, w, es[..i]), es[i])
    {
      assert all[..i] == es[..i] && all[i] == es[i];
    }
    assert Possible(After(decode, cfg, w, all[..|es|]), all[|es|]);
  }

  /** How a pending blob can leave the spool, at any step of any run: for a delivery
      only when the API holds the message, for a 410 only when the API answered it,
      into the rejected directory unchanged, or by a cap; the sweep never deletes
      one. */
  lemma {:induction false} ABlobLeavesOnlyForCause(decode: Bytes -> Doc, cfg: Config, live: seq<Copy>, es: seq<Happening>, e: Happening)
    requires OneCopyEach(live) && PossibleRun(decode, cfg, Initial(live), es + [e])
    ensures var w, w' := After(decode, cfg, Initial(live), es), After(decode, cfg, Initial(live), es + [e]);
            forall u | Cms(u) in w.spool.main && Cms(u) !in w'.spool.main :: ForCause(w, w', e, u)
  {
    RunSplits(decode, cfg, Initial(live), es, e);
    RunsKeep(decode, cfg, live, es);
    var w := After(decode, cfg, Initial(live), es);
    forall u | Cms(u) in w.spool.main && Cms(u) !in Next(decode, cfg, w, e).spool.main
      ensures ForCause(w, Next(decode, cfg, w, e), e, u)
    {
      StepForCause(decode, cfg, w, e, u);
    }
  }
}
