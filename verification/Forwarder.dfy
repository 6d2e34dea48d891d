/** The forwarder itself: an object that scans, enforces the caps, sends and backs
    off, moving and removing files one by one. Each method is tied to the
    operations and the control state of the spool modules. */
module Forwarder {
  import opened Wrappers
  import opened Ordering
  import opened Spool
  import opened SpoolBackoff
  import opened SpoolPass

  datatype Forwarded = Forwarded(stored: nat, duplicate: nat, dropped: nat, rejected: nat)
  datatype Drops = Drops(age: nat, size: nat, orphan: nat, badSidecar: nat)

  /** What a pass changes outside the control state. */
  datatype Books = Books(spool: Dirs, journal: seq<Entry>, forwarded: Forwarded, dropped: Drops, failures: nat)

  function Counted(d: Drops, e: Event): Drops {
    match e
    case DroppedAge(_) => d.(age := d.age + 1)
    case DroppedSize(_, _) => d.(size := d.size + 1)
    case OrphanNoMetadata => d.(orphan := d.orphan + 1)
    case RejectedBadSidecar(_) => d.(badSidecar := d.badSidecar + 1)
    case _ => d
  }

  function Answer(b: Books, o: Outcome): Books {
    match o
    case Stored => b.(forwarded := b.forwarded.(stored := b.forwarded.stored + 1))
    case Duplicate => b.(forwarded := b.forwarded.(duplicate := b.forwarded.duplicate + 1))
    case Gone => b.(forwarded := b.forwarded.(dropped := b.forwarded.dropped + 1))
    case Refused => b.(forwarded := b.forwarded.(rejected := b.forwarded.rejected + 1))
    case Retry => b.(failures := b.failures + 1)
  }

  /** One step: files, then the journal, then the counters that go with it. */
  function Do(b: Books, op: Op): Books {
    match op
    case Write(e) => b.(journal := b.journal + [e], dropped := Counted(b.dropped, e.event))
    case Send(_, x) => Answer(b, Classify(x))
    case _ => b.(spool := Apply(b.spool, op))
  }

  function DoAll(b: Books, ops: seq<Op>): Books {
    if ops == [] then b else Do(DoAll(b, ops[..|ops| - 1]), ops[|ops| - 1])
  }

  lemma {:induction false} DoConcat(b: Books, x: seq<Op>, y: seq<Op>)
    ensures DoAll(b, x + y) == DoAll(DoAll(b, x), y)
  {
    if y == [] {
      assert x + y == x;
    } else {
      assert (x + y)[..|x + y| - 1] == x + y[..|y| - 1];
      DoConcat(b, x, y[..|y| - 1]);
    }
  }

  lemma {:induction false} AnswerCommutes(b: Books, o: Outcome, ops: seq<Op>)
    requires forall op | op in ops :: !op.Send?
    ensures DoAll(Answer(b, o), ops) == Answer(DoAll(b, ops), o)
  {
    if ops != [] {
      AnswerCommutes(b, o, ops[..|ops| - 1]);
      assert !ops[|ops| - 1].Send?;
    }
  }

  /** The files and the journal are what the operations alone make of them. */
  lemma {:induction false} BooksFollowTheOps(b: Books, ops: seq<Op>)
    ensures DoAll(b, ops).spool == ApplyAll(b.spool, ops)
    ensures DoAll(b, ops).journal == b.journal + Written(ops)
  {
    if ops != [] {
      BooksFollowTheOps(b, ops[..|ops| - 1]);
    }
  }

  /** An answer of this outcome, by code and status. */
  predicate Says(x: Exchange, o: Outcome) {
    match o
    case Stored => SaysHeld(x) && x.code == 201
    case Duplicate => SaysHeld(x) && x.code == 200
    case Gone => SaysGone(x)
    case Refused => SaysRefused(x)
    case Retry => IsFailure(x)
  }

  function CountSends(ops: seq<Op>, o: Outcome): nat {
    if ops == [] then 0
    else
      var op := ops[|ops| - 1];
      CountSends(ops[..|ops| - 1], o) + if op.Send? && Says(op.exchange, o) then 1 else 0
  }

  /** Each answer counter counts the sends answered so: 201 and 200 with a status of
      "stored" or "duplicate", 410, 422, and all others. */
  lemma {:induction false} CountersFollowTheSends(b: Books, ops: seq<Op>)
    ensures var f := DoAll(b, ops).forwarded;
            && f.stored == b.forwarded.stored + CountSends(ops, Stored)
            && f.duplicate == b.forwarded.duplicate + CountSends(ops, Duplicate)
            && f.dropped == b.forwarded.dropped + CountSends(ops, Gone)
            && f.rejected == b.forwarded.rejected + CountSends(ops, Refused)
    ensures DoAll(b, ops).failures == b.failures + CountSends(ops, Retry)
  {
    if ops != [] {
      CountersFollowTheSends(b, ops[..|ops| - 1]);
    }
  }

  datatype Kind = ForAge | ForSize | ForNoMetadata | ForBadSidecar | ByTheApi

  function KindOf(e: Event): Kind {
    if e.DroppedAge? then ForAge
    else if e.DroppedSize? then ForSize
    else if e.OrphanNoMetadata? then ForNoMetadata
    else if e.RejectedBadSidecar? then ForBadSidecar
    else ByTheApi
  }

  function CountLines(es: seq<Entry>, k: Kind): nat {
    if es == [] then 0 else CountLines(es[..|es| - 1], k) + if KindOf(es[|es| - 1].event) == k then 1 else 0
  }

  lemma OneMoreLine(es: seq<Entry>, e: Entry, k: Kind)
    ensures CountLines(es + [e], k) == CountLines(es, k) + if KindOf(e.event) == k then 1 else 0
  {
    assert (es + [e])[..|es|] == es;
  }

  /** The drop counters, one by one, are those counts of the journal's lines. */
  ghost predicate CountsLines(d: Drops, d': Drops, es: seq<Entry>) {
    && d'.age == d.age + CountLines(es, ForAge)
    && d'.size == d.size + CountLines(es, ForSize)
    && d'.orphan == d.orphan + CountLines(es, ForNoMetadata)
    && d'.badSidecar == d.badSidecar + CountLines(es, ForBadSidecar)
  }

  lemma LineCounts(d: Drops, d': Drops, es: seq<Entry>, e: Entry)
    requires CountsLines(d, d', es)
    ensures CountsLines(d, Counted(d', e.event), es + [e])
  {
    OneMoreLine(es, e, ForAge);
    OneMoreLine(es, e, ForSize);
    OneMoreLine(es, e, ForNoMetadata);
    OneMoreLine(es, e, ForBadSidecar);
  }

  /** Each drop counter counts the journal's lines of its kind. */
  lemma {:induction false} DropsFollowTheJournal(b: Books, ops: seq<Op>)
    ensures CountsLines(b.dropped, DoAll(b, ops).dropped, Written(ops))
  {
    if ops != [] {
      var init, op := ops[..|ops| - 1], ops[|ops| - 1];
      DropsFollowTheJournal(b, init);
      if op.Write? {
        LineCounts(b.dropped, DoAll(b, init).dropped, Written(init), op.entry);
      } else {
        assert Written(init) + [] == Written(init);
      }
    }
  }

  datatype Gauges = Gauges(pending: (nat, nat), rejected: (nat, nat), oldestAge: real)

  function GaugesOf(pending: seq<Msg>, rejected: seq<Msg>, now: real): Gauges {
    Gauges((|pending|, Sum(pending)), (|rejected|, Sum(rejected)), if pending == [] then 0.0 else Max(0.0, now - pending[0].received))
  }

  /** The gauges give number and bytes of what is pending and of what is set aside, and
      the age of the oldest pending message: no pending message is older, and unless the
      clock is behind all of them some message is that old. */
  lemma GaugesSay(pending: seq<Msg>, rejected: seq<Msg>, now: real)
    requires OldestFirst(pending)
    ensures var g := GaugesOf(pending, rejected, now);
            && g.pending == (|pending|, Sum(pending)) && g.rejected == (|rejected|, Sum(rejected))
            && g.oldestAge >= 0.0
            && (forall m | m in pending :: now - m.received <= g.oldestAge)
            && (g.oldestAge > 0.0 ==> exists m :: m in pending && g.oldestAge == now - m.received)
  {
    forall m | m in pending
      ensures now - m.received <= GaugesOf(pending, rejected, now).oldestAge
    {
      var i :| 0 <= i < |pending| && pending[i] == m;
      assert i > 0 ==> Precedes(pending[0], pending[i]);
    }
    if GaugesOf(pending, rejected, now).oldestAge > 0.0 {
      assert pending[0] in pending;
    }
  }

  lemma StemsMore(names: seq<Name>, n: Name)
    ensures CmsStems(names + [n]) == CmsStems(names) + match n case Cms(u) => [u] case _ => []
    ensures JsonStems(names + [n]) == JsonStems(names) + match n case Json(u) => [u] case _ => []
    ensures Tmps(names + [n]) == Tmps(names) + if n.Tmp? then [n] else []
  {
    assert (names + [n])[..|names|] == names;
  }

  lemma HalvesMore(us: seq<Uuid>, u: Uuid, other: seq<Uuid>, dir: Dir, d: Disk)
    ensures In(us + [u], other) == In(us, other) + if u in other then [u] else []
    ensures LoneCms(us + [u], other, dir, d) == LoneCms(us, other, dir, d) + if u in other then [] else [Orphan(dir, Cms(u), Mtime(d, Cms(u)))]
    ensures LoneJson(us + [u], other, dir, d) == LoneJson(us, other, dir, d) + if u in other then [] else [Orphan(dir, Json(u), Mtime(d, Json(u)))]
  {
    assert (us + [u])[..|us|] == us;
  }

  lemma LeftoversMore(ns: seq<Name>, n: Name, dir: Dir, d: Disk)
    ensures Leftovers(ns + [n], dir, d) == Leftovers(ns, dir, d) + [Orphan(dir, n, Mtime(d, n))]
  {
    assert (ns + [n])[..|ns|] == ns;
  }

  /** The names of one directory by their kind, in listing order. */
  method ByKind(names: seq<Name>) returns (cms: seq<Uuid>, js: seq<Uuid>, leftovers: seq<Name>)
    ensures cms == CmsStems(names) && js == JsonStems(names) && leftovers == Tmps(names)
  {
    cms, js, leftovers := [], [], [];
    for i := 0 to |names|
      invariant cms == CmsStems(names[..i]) && js == JsonStems(names[..i]) && leftovers == Tmps(names[..i])
    {
      StemsMore(names[..i], names[i]);
      assert names[..i] + [names[i]] == names[..i + 1];
      match names[i]
      case Tmp(_) => leftovers := leftovers + [names[i]];
      case Cms(u) => cms := cms + [u];
      case Json(u) => js := js + [u];
      case Other(_) =>
    }
    assert names[..|names|] == names;
  }

  method Match(cms: seq<Uuid>, js: seq<Uuid>, dir: Dir, d: Disk) returns (pairs: seq<Uuid>, orphans: seq<Orphan>)
    ensures pairs == In(cms, js) && orphans == LoneCms(cms, js, dir, d)
  {
    pairs, orphans := [], [];
    for i := 0 to |cms|
      invariant pairs == In(cms[..i], js) && orphans == LoneCms(cms[..i], js, dir, d)
    {
      HalvesMore(cms[..i], cms[i], js, dir, d);
      assert cms[..i] + [cms[i]] == cms[..i + 1];
      if cms[i] in js {
        pairs := pairs + [cms[i]];
      } else {
        orphans := orphans + [Orphan(dir, Cms(cms[i]), Mtime(d, Cms(cms[i])))];
      }
    }
    assert cms[..|cms|] == cms;
  }

  method LoneSidecars(js: seq<Uuid>, cms: seq<Uuid>, dir: Dir, d: Disk) returns (orphans: seq<Orphan>)
    ensures orphans == LoneJson(js, cms, dir, d)
  {
    orphans := [];
    for i := 0 to |js|
      invariant orphans == LoneJson(js[..i], cms, dir, d)
    {
      HalvesMore(js[..i], js[i], cms, dir, d);
      assert js[..i] + [js[i]] == js[..i + 1];
      if js[i] !in cms {
        orphans := orphans + [Orphan(dir, Json(js[i]), Mtime(d, Json(js[i])))];
      }
    }
    assert js[..|js|] == js;
  }

  method Temporaries(ns: seq<Name>, dir: Dir, d: Disk) returns (orphans: seq<Orphan>)
    ensures orphans == Leftovers(ns, dir, d)
  {
    orphans := [];
    for i := 0 to |ns|
      invariant orphans == Leftovers(ns[..i], dir, d)
    {
      LeftoversMore(ns[..i], ns[i], dir, d);
      assert ns[..i] + [ns[i]] == ns[..i + 1];
      orphans := orphans + [Orphan(dir, ns[i], Mtime(d, ns[i]))];
    }
    assert ns[..|ns|] == ns;
  }

  /** Complete pairs and leftovers of one directory. */
  method ScanDir(d: Disk, names: seq<Name>, dir: Dir) returns (pairs: seq<Uuid>, orphans: seq<Orphan>)
    ensures pairs == Pairs(names) && orphans == Orphans(names, dir, d)
  {
    var cms, js, leftovers := ByKind(names);
    pairs, orphans := Match(cms, js, dir, d);
    var lone := LoneSidecars(js, cms, dir, d);
    var tmp := Temporaries(leftovers, dir, d);
    orphans := orphans + lone + tmp;
  }

  lemma AgeMore(cfg: Config, ms: seq<Msg>, m: Msg, dir: Dir, now: real)
    ensures AgeOps(cfg, ms + [m], dir, now)
            == AgeOps(cfg, ms, dir, now) + if TooOld(cfg, m, now) then RemovePair(dir, m.uuid, Aged) + [Write(Entry(DroppedAge(dir), m.uuid))] else []
    ensures Young(cfg, ms + [m], now) == Young(cfg, ms, now) + if TooOld(cfg, m, now) then [] else [m]
  {
    assert (ms + [m])[..|ms|] == ms;
  }

  lemma SweepMore(cfg: Config, s: Dirs, os: seq<Orphan>, o: Orphan, now: real)
    ensures SweepOps(cfg, s, os + [o], now)
            == SweepOps(cfg, s, os, now) + SweepOne(cfg, ApplyAll(s, SweepOps(cfg, s, os, now)), o, now)
  {
    assert (os + [o])[..|os|] == os;
  }

  lemma EvictRejected(cap: nat, pending: seq<Msg>, rejected: seq<Msg>, total: int)
    requires total == Sum(pending) + Sum(rejected) > cap && rejected != []
    ensures var left := total - rejected[0].size;
            && left == Sum(pending) + Sum(rejected[1..])
            && Evict(cap, pending, rejected)
               == Evict(cap, pending, rejected[1..]).(ops := DropForSize(rejected[0], Rejected, left) + Evict(cap, pending, rejected[1..]).ops)
  {
  }

  lemma EvictPending(cap: nat, pending: seq<Msg>, total: int)
    requires total == Sum(pending) > cap && pending != []
    ensures var left := total - pending[0].size;
            && left == Sum(pending[1..])
            && Evict(cap, pending, []) == Evict(cap, pending[1..], []).(ops := DropForSize(pending[0], Main, left) + Evict(cap, pending[1..], []).ops)
  {
  }

  function DoEach(b: Books, ms: seq<Msg>, answers: Uuid -> Exchange): Books {
    if ms == [] then b else DoAll(DoEach(b, ms[..|ms| - 1], answers), ReplayOne(ms[|ms| - 1], answers))
  }

  lemma {:induction false} DoEachIsReplay(b: Books, ms: seq<Msg>, answers: Uuid -> Exchange)
    ensures DoEach(b, ms, answers) == DoAll(b, ReplayEach(ms, answers))
  {
    if ms != [] {
      DoEachIsReplay(b, ms[..|ms| - 1], answers);
      DoConcat(b, ReplayEach(ms[..|ms| - 1], answers), ReplayOne(ms[|ms| - 1], answers));
    }
  }

  lemma ReplayMore(cfg: Config, c: Control, b: Books, i: nat, p: Pass)
    requires i < |p.queue|
    ensures AfterEach(cfg, c, p.queue[..i + 1], p) == AfterOne(cfg, AfterEach(cfg, c, p.queue[..i], p), p.queue[i], p)
    ensures DoEach(b, p.queue[..i + 1], p.answers) == DoAll(DoEach(b, p.queue[..i], p.answers), ReplayOne(p.queue[i], p.answers))
  {
    assert p.queue[..i + 1][..i] == p.queue[..i];
  }

  class Forwarder {
    const cfg: Config
    const decode: Bytes -> Doc

    var backoffS: real
    var nextAttempt: real
    var lastScan: real
    var lastProbe: real
    var lastFailureNetwork: bool
    var apiReachable: bool

    var forwarded: Forwarded
    var dropped: Drops
    var sendFailures: nat
    var gauges: Gauges

    var spoolDir: Disk
    var rejectedDir: Disk
    var journal: seq<Entry>

    constructor (cfg: Config, decode: Bytes -> Doc, spool: Dirs, journal: seq<Entry>)
      ensures this.cfg == cfg && this.decode == decode
      ensures State() == START && Record().spool == spool && Record().journal == journal
    {
      this.cfg, this.decode := cfg, decode;
      backoffS, nextAttempt, lastScan, lastProbe := 0.0, 0.0, 0.0, 0.0;
      lastFailureNetwork, apiReachable := false, false;
      forwarded, dropped, sendFailures := Forwarded(0, 0, 0, 0), Drops(0, 0, 0, 0), 0;
      gauges := Gauges((0, 0), (0, 0), 0.0);
      spoolDir, rejectedDir, this.journal := spool.main, spool.rejected, journal;
    }

    ghost function State(): Control
      reads this
    {
      Control(backoffS, nextAttempt, lastScan, lastProbe, lastFailureNetwork, apiReachable)
    }

    ghost function Record(): Books
      reads this
    {
      Books(Dirs(spoolDir, rejectedDir), journal, forwarded, dropped, sendFailures)
    }

    // ----- one file operation each -----

    method OsRemove(dir: Dir, name: Name, ghost why: Why)
      modifies this`spoolDir, this`rejectedDir
      ensures Record() == Do(old(Record()), Remove(dir, name, why))
    {
      if dir == Main {
        spoolDir := spoolDir - {name};
      } else {
        rejectedDir := rejectedDir - {name};
      }
    }

    method OsReplace(name: Name) returns (found: bool)
      modifies this`spoolDir, this`rejectedDir
      ensures found == (name in old(spoolDir))
      ensures Record() == Do(old(Record()), Reject(name))
    {
      found := name in spoolDir;
      if found {
        rejectedDir := rejectedDir[name := spoolDir[name]];
        spoolDir := spoolDir - {name};
      }
    }

    method Audit(event: Event, uuid: Uuid)
      modifies this`journal, this`dropped
      ensures Record() == Do(old(Record()), Write(Entry(event, uuid)))
    {
      journal := journal + [Entry(event, uuid)];
      match event
      case DroppedAge(_) => dropped := dropped.(age := dropped.age + 1);
      case DroppedSize(_, _) => dropped := dropped.(size := dropped.size + 1);
      case OrphanNoMetadata => dropped := dropped.(orphan := dropped.orphan + 1);
      case RejectedBadSidecar(_) => dropped := dropped.(badSidecar := dropped.badSidecar + 1);
      case _ =>
    }

    method RemoveBoth(dir: Dir, u: Uuid, ghost why: Why)
      modifies this`spoolDir, this`rejectedDir
      ensures Record() == DoAll(old(Record()), RemovePair(dir, u, why))
    {
      OsRemove(dir, Cms(u), why);
      OsRemove(dir, Json(u), why);
      ghost var ops := RemovePair(dir, u, why);
      assert ops[..1] == [ops[0]] && ops[..1][..0] == [];
      assert DoAll(old(Record()), ops[..1]) == Do(old(Record()), ops[0]);
    }

    method RejectBoth(u: Uuid)
      modifies this`spoolDir, this`rejectedDir
      ensures Record() == DoAll(old(Record()), RejectPair(u))
    {
      var _ := OsReplace(Json(u));
      var _ := OsReplace(Cms(u));
      ghost var ops := RejectPair(u);
      assert ops[..1] == [ops[0]] && ops[..1][..0] == [];
      assert DoAll(old(Record()), ops[..1]) == Do(old(Record()), ops[0]);
    }

    /** A pair removed and journaled. */
    method Drop(dir: Dir, u: Uuid, event: Event, ghost why: Why)
      modifies this`spoolDir, this`rejectedDir, this`journal, this`dropped
      ensures Record() == DoAll(old(Record()), RemovePair(dir, u, why) + [Write(Entry(event, u))])
    {
      RemoveBoth(dir, u, why);
      Audit(event, u);
      ghost var ops := RemovePair(dir, u, why);
      assert (ops + [Write(Entry(event, u))])[..2] == ops;
    }

    // ----- the caps -----

    method DropOld(ms: seq<Msg>, dir: Dir, now: real) returns (keep: seq<Msg>)
      modifies this`spoolDir, this`rejectedDir, this`journal, this`dropped
      ensures keep == Young(cfg, ms, now)
      ensures Record() == DoAll(old(Record()), AgeOps(cfg, ms, dir, now))
    {
      keep := [];
      for i := 0 to |ms|
        invariant keep == Young(cfg, ms[..i], now)
        invariant Record() == DoAll(old(Record()), AgeOps(cfg, ms[..i], dir, now))
      {
        var m := ms[i];
        AgeMore(cfg, ms[..i], m, dir, now);
        assert ms[..i] + [m] == ms[..i + 1];
        if now - m.received > cfg.maxAge {
          DoConcat(old(Record()), AgeOps(cfg, ms[..i], dir, now), RemovePair(dir, m.uuid, Aged) + [Write(Entry(DroppedAge(dir), m.uuid))]);
          Drop(dir, m.uuid, DroppedAge(dir), Aged);
        } else {
          assert AgeOps(cfg, ms[..i], dir, now) + [] == AgeOps(cfg, ms[..i], dir, now);
          keep := keep + [m];
        }
      }
      assert ms[..|ms|] == ms;
    }

    /** Evicting from here on leaves `goal` and keeps what `k` keeps. */
    ghost predicate Evicting(pending: seq<Msg>, rejected: seq<Msg>, k: Kept, goal: Books)
      reads this
    {
      forall e | e == Evict(cfg.maxBytes, pending, rejected) ::
        e.pending == k.pending && e.rejected == k.rejected && DoAll(Record(), e.ops) == goal
    }

    method DropOverCap(pending: seq<Msg>, rejected: seq<Msg>) returns (keepP: seq<Msg>, keepR: seq<Msg>)
      modifies this`spoolDir, this`rejectedDir, this`journal, this`dropped
      ensures var k := Evict(cfg.maxBytes, pending, rejected);
              keepP == k.pending && keepR == k.rejected && Record() == DoAll(old(Record()), k.ops)
    {
      ghost var k := Evict(cfg.maxBytes, pending, rejected);
      ghost var goal := DoAll(Record(), k.ops);
      keepP, keepR := DropVictims(pending, rejected, k, goal);
      assert Evict(cfg.maxBytes, keepP, keepR) == Kept([], keepP, keepR);
    }

    method DropVictims(pending: seq<Msg>, rejected: seq<Msg>, ghost k: Kept, ghost goal: Books)
      returns (keepP: seq<Msg>, keepR: seq<Msg>)
      requires Evicting(pending, rejected, k, goal)
      modifies this`spoolDir, this`rejectedDir, this`journal, this`dropped
      ensures Evicting(keepP, keepR, k, goal)
      ensures Sum(keepP) + Sum(keepR) <= cfg.maxBytes || (keepR == [] && keepP == [])
    {
      keepP, keepR := pending, rejected;
      var total := Sum(keepP) + Sum(keepR);
      while total > cfg.maxBytes && (keepR != [] || keepP != [])
        invariant total == Sum(keepP) + Sum(keepR)
        invariant Evicting(keepP, keepR, k, goal)
        decreases |keepR| + |keepP|
      {
        if keepR != [] {
          DropOldestRejected(keepP, keepR, total, k, goal);
          total, keepR := total - keepR[0].size, keepR[1..];
        } else {
          DropOldestPending(keepP, total, k, goal);
          total, keepP := total - keepP[0].size, keepP[1..];
        }
      }
    }

    method DropOldestRejected(pending: seq<Msg>, rejected: seq<Msg>, total: int, ghost k: Kept, ghost goal: Books)
      requires total == Sum(pending) + Sum(rejected) > cfg.maxBytes && rejected != [] && Evicting(pending, rejected, k, goal)
      modifies this`spoolDir, this`rejectedDir, this`journal, this`dropped
      ensures Evicting(pending, rejected[1..], k, goal) && total - rejected[0].size == Sum(pending) + Sum(rejected[1..])
    {
      EvictRejected(cfg.maxBytes, pending, rejected, total);
      DropVictim(rejected[0], Rejected, total - rejected[0].size, Evict(cfg.maxBytes, pending, rejected[1..]).ops);
    }

    method DropOldestPending(pending: seq<Msg>, total: int, ghost k: Kept, ghost goal: Books)
      requires total == Sum(pending) > cfg.maxBytes && pending != [] && Evicting(pending, [], k, goal)
      modifies this`spoolDir, this`rejectedDir, this`journal, this`dropped
      ensures Evicting(pending[1..], [], k, goal) && total - pending[0].size == Sum(pending[1..])
    {
      EvictPending(cfg.maxBytes, pending, total);
      DropVictim(pending[0], Main, total - pending[0].size, Evict(cfg.maxBytes, pending[1..], []).ops);
    }

    method DropVictim(victim: Msg, where: Dir, total: int, ghost rest: seq<Op>)
      modifies this`spoolDir, this`rejectedDir, this`journal, this`dropped
      ensures DoAll(Record(), rest) == DoAll(old(Record()), DropForSize(victim, where, total) + rest)
    {
      DoConcat(Record(), DropForSize(victim, where, total), rest);
      Drop(where, victim.uuid, DroppedSize(where, total), OverCap);
    }

    method Sweep(os: seq<Orphan>, now: real)
      modifies this`spoolDir, this`rejectedDir, this`journal, this`dropped
      ensures Record() == DoAll(old(Record()), SweepOps(cfg, old(Record()).spool, os, now))
    {
      ghost var b := Record();
      for i := 0 to |os|
        invariant Record() == DoAll(b, SweepOps(cfg, b.spool, os[..i], now))
      {
        ghost var before := SweepOps(cfg, b.spool, os[..i], now);
        SweepMore(cfg, b.spool, os[..i], os[i], now);
        assert os[..i] + [os[i]] == os[..i + 1];
        BooksFollowTheOps(b, before);
        DoConcat(b, before, SweepOne(cfg, ApplyAll(b.spool, before), os[i], now));
        SweepOrphan(os[i], now);
      }
      assert os[..|os|] == os;
    }

    method SweepOrphan(o: Orphan, now: real)
      modifies this`spoolDir, this`rejectedDir, this`journal, this`dropped
      ensures Record() == DoAll(old(Record()), SweepOne(cfg, old(Record()).spool, o, now))
    {
      ghost var b := Record();
      ghost var ops := SweepOne(cfg, b.spool, o, now);
      if now - o.mtime <= cfg.orphanAge {
        return;
      }
      if o.name.Cms? && o.dir == Main {
        var found := OsReplace(o.name);
        if found {
          Audit(OrphanNoMetadata, o.name.uuid);
          assert ops[..1] == [ops[0]] && ops[..1][..0] == [];
          assert DoAll(b, ops[..1]) == Do(b, ops[0]);
        }
      } else {
        OsRemove(o.dir, o.name, Leftover);
        assert ops != [] ==> ops[..0] == [];
      }
    }

    method EnforceCaps(pending: seq<Msg>, rejected: seq<Msg>, os: seq<Orphan>, now: real) returns (keep: seq<Msg>)
      modifies this`spoolDir, this`rejectedDir, this`journal, this`dropped, this`gauges
      ensures var k := Enforce(cfg, old(Record()).spool, pending, rejected, os, now);
              && keep == k.pending
              && Record() == DoAll(old(Record()), k.ops)
              && gauges == GaugesOf(k.pending, k.rejected, now)
    {
      ghost var b := Record();
      ghost var a1, a2 := AgeOps(cfg, rejected, Rejected, now), AgeOps(cfg, pending, Main, now);
      var keepR := DropOld(rejected, Rejected, now);
      var keepP := DropOld(pending, Main, now);
      DoConcat(b, a1, a2);
      ghost var evicted := Evict(cfg.maxBytes, keepP, keepR).ops;
      keepP, keepR := DropOverCap(keepP, keepR);
      DoConcat(b, a1 + a2, evicted);
      BooksFollowTheOps(b, a1 + a2 + evicted);
      Sweep(os, now);
      DoConcat(b, a1 + a2 + evicted, SweepOps(cfg, ApplyAll(b.spool, a1 + a2 + evicted), os, now));
      gauges := GaugesOf(keepP, keepR, now);
      keep := keepP;
    }

    // ----- sending -----

    /** The exchange is what the network answers; only an attempt that reached the
        wire changes the flags. */
    method SendOne(x: Exchange) returns (outcome: Outcome)
      modifies this`apiReachable, this`lastFailureNetwork
      ensures outcome == Classify(x)
      ensures State() == Heard(old(State()), x)
    {
      if x.NoAnswer? {
        apiReachable, lastFailureNetwork := false, true;
        return Retry;
      }
      if !x.Answered? {
        return Retry;
      }
      apiReachable, lastFailureNetwork := true, false;
      if x.code in {200, 201} && x.status in {Some("stored"), Some("duplicate")} {
        return if x.code == 201 then Stored else Duplicate;
      }
      if x.code == 410 {
        return Gone;
      }
      if x.code == 422 {
        return Refused;
      }
      return Retry;
    }

    method Backoff(now: real, jitter: real)
      modifies this`backoffS, this`nextAttempt
      ensures State() == BackOff(cfg, old(State()), now, jitter)
    {
      backoffS := Min(cfg.backoffMax, Max(cfg.backoffMin, backoffS * 2.0));
      nextAttempt := now + backoffS * jitter;
    }

    /** What becomes of the pair after a send. */
    method SettlePair(u: Uuid, o: Outcome)
      modifies this`spoolDir, this`rejectedDir, this`journal, this`dropped
      ensures Record() == DoAll(old(Record()), Settle(u, o))
    {
      match o
      case Stored => RemoveBoth(Main, u, Delivered);
      case Duplicate => RemoveBoth(Main, u, Delivered);
      case Gone => Drop(Main, u, ApiDropped410, GoneAtApi);
      case Refused => SetAside(u, ApiRejected422);
      case Retry =>
    }

    method Tally(o: Outcome)
      modifies this`forwarded, this`sendFailures
      ensures Record() == Answer(old(Record()), o)
    {
      match o
      case Stored => forwarded := forwarded.(stored := forwarded.stored + 1);
      case Duplicate => forwarded := forwarded.(duplicate := forwarded.duplicate + 1);
      case Gone => forwarded := forwarded.(dropped := forwarded.dropped + 1);
      case Refused => forwarded := forwarded.(rejected := forwarded.rejected + 1);
      case Retry => sendFailures := sendFailures + 1;
    }

    /** Acts on the outcome of a send. */
    method Act(u: Uuid, p: Pass, o: Outcome)
      modifies this
      ensures var c := old(State());
              State() == match o
                case Refused => c
                case Retry => BackOff(cfg, c, p.failedAt, p.jitter)
                case _ => c.(backoff := 0.0)
      ensures Record() == DoAll(Answer(old(Record()), o), Settle(u, o))
      ensures gauges == old(gauges)
    {
      AnswerCommutes(Record(), o, Settle(u, o));
      SettlePair(u, o);
      Tally(o);
      if o == Retry {
        Backoff(p.failedAt, p.jitter);
      } else if o != Refused {
        backoffS := 0.0;
      }
    }

    /** A pair moved to the rejected directory and journaled. */
    method SetAside(u: Uuid, event: Event)
      modifies this`spoolDir, this`rejectedDir, this`journal, this`dropped
      ensures Record() == DoAll(old(Record()), RejectPair(u) + [Write(Entry(event, u))])
    {
      RejectBoth(u);
      Audit(event, u);
      ghost var ops := RejectPair(u);
      assert (ops + [Write(Entry(event, u))])[..2] == ops;
    }

    /** Replays one message; `more` says whether the pass goes on. */
    method ReplayMessage(m: Msg, p: Pass) returns (more: bool)
      modifies this
      ensures more == !Stops(m, p.answers)
      ensures State() == AfterOne(cfg, old(State()), m, p)
      ensures Record() == DoAll(old(Record()), ReplayOne(m, p.answers))
      ensures gauges == old(gauges)
    {
      if m.error.Some? {
        SetAside(m.uuid, RejectedBadSidecar(m.error.value));
        return true;
      }
      ghost var b := Record();
      var x := p.answers(m.uuid);
      var outcome := SendOne(x);
      ghost var first := [Send(m.uuid, x)];
      DoConcat(b, first, Settle(m.uuid, outcome));
      assert first[..0] == [] && DoAll(b, first[..0]) == b;
      assert DoAll(b, first) == Answer(b, outcome);
      Act(m.uuid, p, outcome);
      more := outcome != Retry;
    }

    method ReplayAt(p: Pass, i: nat, ghost c: Control, ghost b: Books) returns (more: bool)
      requires i < |p.queue| && ReplayedTo(p, i, c, b)
      modifies this
      ensures more == !Stops(p.queue[i], p.answers)
      ensures ReplayedTo(p, i + 1, c, b)
      ensures gauges == old(gauges)
    {
      ReplayMore(cfg, c, b, i, p);
      more := ReplayMessage(p.queue[i], p);
    }

    /** The state after the first `i` messages of a replay that began with `c` and
        `b`. */
    ghost predicate ReplayedTo(p: Pass, i: nat, c: Control, b: Books)
      requires i <= |p.queue|
      reads this
    {
      forall ms | ms == p.queue[..i] :: State() == AfterEach(cfg, c, ms, p) && Record() == DoEach(b, ms, p.answers)
    }

    method ReplayUntilFailure(p: Pass, ghost c: Control, ghost b: Books) returns (n: nat)
      requires ReplayedTo(p, 0, c, b)
      modifies this
      ensures n == Reached(p.queue, p.answers) && ReplayedTo(p, n, c, b)
      ensures gauges == old(gauges)
    {
      var more := true;
      n := 0;
      while n < |p.queue| && more
        invariant n <= |p.queue| && ReplayedTo(p, n, c, b)
        invariant more ==> forall j | 0 <= j < n :: !Stops(p.queue[j], p.answers)
        invariant !more ==> n == Reached(p.queue, p.answers)
        invariant gauges == old(gauges)
        decreases |p.queue| - n
      {
        more := ReplayAt(p, n, c, b);
        n := n + 1;
        if !more {
          FirstStop(p.queue, p.answers, n);
        }
      }
      if more {
        NoStop(p.queue, p.answers);
      }
    }

    method ReplayQueue(p: Pass)
      modifies this
      ensures State() == AfterEach(cfg, old(State()), Tried(p), p)
      ensures Record() == DoEach(old(Record()), Tried(p), p.answers)
      ensures gauges == old(gauges)
    {
      ghost var c, b := State(), Record();
      assert AfterEach(cfg, c, p.queue[..0], p) == c && DoEach(b, p.queue[..0], p.answers) == b;
      var _ := ReplayUntilFailure(p, c, b);
    }

    /** Files, journal and counters are what these operations make of `b`; said of
        any list equal to `ops`, so that a caller need not unfold it. */
    ghost predicate Stands(b: Books, ops: seq<Op>)
      reads this
    {
      forall os | os == ops :: Record() == DoAll(b, os)
    }

    // ----- a pass -----

    method Scan(i: Inputs) returns (pending: seq<Msg>, rejected: seq<Msg>, orphans: seq<Orphan>)
      ensures var s := Record().spool;
              && pending == Messages(decode, s.main, i.mainNames)
              && rejected == Messages(decode, s.rejected, i.rejectedNames)
              && orphans == Orphans(i.mainNames, Main, s.main) + Orphans(i.rejectedNames, Rejected, s.rejected)
    {
      var p, o := ScanDir(spoolDir, i.mainNames, Main);
      var r, ro := ScanDir(rejectedDir, i.rejectedNames, Rejected);
      pending := LoadAll(decode, spoolDir, Sort(KeyLe, Keys(decode, spoolDir, p)));
      rejected := LoadAll(decode, rejectedDir, Sort(KeyLe, Keys(decode, rejectedDir, r)));
      orphans := o + ro;
    }

    /** Whether to replay now: not while backing off, unless a probe is due after a
        network failure and is answered. */
    method MayReplay(p: Pass) returns (go: bool)
      modifies this`lastScan, this`lastProbe, this`apiReachable, this`backoffS
      ensures go == Goes(cfg, old(State()), p)
      ensures State() == Gate(cfg, old(State()), p)
    {
      lastScan := p.now;
      if p.queue == [] {
        return false;
      }
      if p.now < nextAttempt {
        if !lastFailureNetwork || p.now - lastProbe < cfg.scanInterval {
          return false;
        }
        lastProbe := p.now;
        if !p.probe {
          return false;
        }
        apiReachable := true;
        backoffS := 0.0;
      }
      return true;
    }

    method ScanAndEnforce(i: Inputs) returns (keep: seq<Msg>)
      modifies this`spoolDir, this`rejectedDir, this`journal, this`dropped, this`gauges
      ensures var k := Caps(decode, cfg, old(Record()).spool, i);
              && keep == k.pending
              && Stands(old(Record()), k.ops)
              && gauges == GaugesOf(k.pending, k.rejected, i.now)
    {
      var pending, rejected, orphans := Scan(i);
      keep := EnforceCaps(pending, rejected, orphans, i.now);
    }

    /** One pass: scan, enforce the caps, and unless backing off, replay. */
    method RunOnce(i: Inputs)
      modifies this
      ensures State() == AfterPass(cfg, old(State()), PassOf(decode, cfg, old(Record()).spool, i))
      ensures Stands(old(Record()), PassOps(decode, cfg, old(Record()).spool, old(State()), i))
    {
      ghost var c, b := State(), Record();
      var keep := ScanAndEnforce(i);
      var p := Pass(i.now, keep, i.probe, i.answers, i.failedAt, i.jitter);
      PassIsCapsThenReplay(decode, cfg, b.spool, c, i, p);
      RunKept(b, Caps(decode, cfg, b.spool, i).ops, p);
    }

    method RunKept(ghost b: Books, ghost done: seq<Op>, p: Pass)
      requires Stands(b, done)
      modifies this
      ensures State() == AfterPass(cfg, old(State()), p)
      ensures Stands(b, done + if Goes(cfg, old(State()), p) then Replay(p.queue, p.answers) else [])
    {
      var go := MayReplay(p);
      assert done + [] == done;
      if go {
        DoEachIsReplay(Record(), Tried(p), p.answers);
        DoConcat(b, done, Replay(p.queue, p.answers));
        ReplayQueue(p);
      }
    }
  }

  lemma PassIsCapsThenReplay(decode: Bytes -> Doc, cfg: Config, s: Dirs, c: Control, i: Inputs, p: Pass)
    requires p == Pass(i.now, Caps(decode, cfg, s, i).pending, i.probe, i.answers, i.failedAt, i.jitter)
    ensures PassOf(decode, cfg, s, i) == p
    ensures PassOps(decode, cfg, s, c, i)
            == Caps(decode, cfg, s, i).ops + if Goes(cfg, c, p) then Replay(p.queue, p.answers) else []
  {
  }

  lemma FirstStop(ms: seq<Msg>, answers: Uuid -> Exchange, n: nat)
    requires 0 < n <= |ms| && Stops(ms[n - 1], answers)
    requires forall j | 0 <= j < n - 1 :: !Stops(ms[j], answers)
    ensures Reached(ms, answers) == n
  {
  }

  lemma NoStop(ms: seq<Msg>, answers: Uuid -> Exchange)
    requires forall j | 0 <= j < |ms| :: !Stops(ms[j], answers)
    ensures Reached(ms, answers) == |ms| && ms[..Reached(ms, answers)] == ms
  {
  }
}
