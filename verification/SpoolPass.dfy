/** One forwarder pass over the spool: what the scan sees, which messages the caps
    take, which are sent, and where every message ends up. */
module SpoolPass {
  import opened Wrappers
  import opened Ordering
  import opened Spool
  import opened SpoolBackoff

  /** What the surroundings decide about one pass. */
  datatype Inputs = Inputs(
    now: real, mainNames: seq<Name>, rejectedNames: seq<Name>,
    probe: bool, answers: Uuid -> Exchange, failedAt: real, jitter: real)

  ghost predicate Listed(s: Dirs, i: Inputs) {
    Listing(i.mainNames, s.main) && Listing(i.rejectedNames, s.rejected)
  }

  function Caps(decode: Bytes -> Doc, cfg: Config, s: Dirs, i: Inputs): Kept {
    Enforce(cfg, s, Messages(decode, s.main, i.mainNames), Messages(decode, s.rejected, i.rejectedNames),
            Orphans(i.mainNames, Main, s.main) + Orphans(i.rejectedNames, Rejected, s.rejected), i.now)
  }

  function PassOf(decode: Bytes -> Doc, cfg: Config, s: Dirs, i: Inputs): Pass {
    Pass(i.now, Caps(decode, cfg, s, i).pending, i.probe, i.answers, i.failedAt, i.jitter)
  }

  /** Everything a pass does, in order. A crash or an exception leaves a prefix. */
  function PassOps(decode: Bytes -> Doc, cfg: Config, s: Dirs, c: Control, i: Inputs): seq<Op> {
    Caps(decode, cfg, s, i).ops
    + if Goes(cfg, c, PassOf(decode, cfg, s, i)) then Replay(Caps(decode, cfg, s, i).pending, i.answers) else []
  }

  // ----- the scan -----

  lemma {:induction false} StemsAreTheNames(names: seq<Name>, u: Uuid)
    ensures u in CmsStems(names) <==> Cms(u) in names
    ensures u in JsonStems(names) <==> Json(u) in names
  {
    if names != [] {
      StemsAreTheNames(names[..|names| - 1], u);
      assert names == names[..|names| - 1] + [names[|names| - 1]];
    }
  }

  lemma {:induction false} StemsOnce(names: seq<Name>)
    requires NoDup(names)
    ensures NoDup(CmsStems(names))
  {
    if names != [] {
      var init, n := names[..|names| - 1], names[|names| - 1];
      StemsOnce(init);
      assert n !in init;
      if n.Cms? {
        StemsAreTheNames(init, n.uuid);
      }
    }
  }

  lemma {:induction false} InMembers(us: seq<Uuid>, other: seq<Uuid>, u: Uuid)
    ensures u in In(us, other) <==> u in us && u in other
  {
    if us != [] {
      InMembers(us[..|us| - 1], other, u);
      assert us == us[..|us| - 1] + [us[|us| - 1]];
    }
  }

  lemma {:induction false} InOnce(us: seq<Uuid>, other: seq<Uuid>)
    requires NoDup(us)
    ensures NoDup(In(us, other))
  {
    if us != [] {
      var init, u := us[..|us| - 1], us[|us| - 1];
      InOnce(init, other);
      assert u !in init;
      InMembers(init, other, u);
    }
  }

  lemma PairsAreThePairs(d: Disk, names: seq<Name>)
    requires Listing(names, d)
    ensures NoDup(Pairs(names))
    ensures forall u :: u in Pairs(names) <==> Paired(d, u)
  {
    StemsOnce(names);
    InOnce(CmsStems(names), JsonStems(names));
    forall u
      ensures u in Pairs(names) <==> Paired(d, u)
    {
      InMembers(CmsStems(names), JsonStems(names), u);
      StemsAreTheNames(names, u);
    }
  }

  function KeyIn(decode: Bytes -> Doc, d: Disk, u: Uuid): (k: Key)
    ensures k.uuid == u
  {
    KeyOf(Load(decode, d, u))
  }

  lemma {:induction false} KeysAt(decode: Bytes -> Doc, d: Disk, us: seq<Uuid>)
    ensures |Keys(decode, d, us)| == |us|
    ensures forall i | 0 <= i < |us| :: Keys(decode, d, us)[i] == KeyIn(decode, d, us[i])
  {
    if us != [] {
      KeysAt(decode, d, us[..|us| - 1]);
    }
  }

  lemma KeyOrder()
    ensures TotalOrder(KeyLe)
  {
    StringOrder();
    forall x: Key, y: Key
      ensures (KeyLe(x, y) || KeyLe(y, x)) && (KeyLe(x, y) && KeyLe(y, x) ==> x == y)
    {
      assert (StringLe(x.uuid, y.uuid) || StringLe(y.uuid, x.uuid));
      assert StringLe(x.uuid, y.uuid) && StringLe(y.uuid, x.uuid) ==> x.uuid == y.uuid;
    }
    forall x: Key, y: Key, z: Key | KeyLe(x, y) && KeyLe(y, z)
      ensures KeyLe(x, z)
    {
      assert StringLe(x.uuid, y.uuid) && StringLe(y.uuid, z.uuid) ==> StringLe(x.uuid, z.uuid);
    }
  }

  ghost predicate OneEach(ms: seq<Msg>) {
    forall i, j | 0 <= i < j < |ms| :: ms[i].uuid != ms[j].uuid
  }

  /** By the time received, and by uuid where that agrees. */
  predicate Precedes(a: Msg, b: Msg) {
    a.received < b.received || (a.received == b.received && StringLe(a.uuid, b.uuid))
  }

  ghost predicate OldestFirst(ms: seq<Msg>) {
    forall i, j | 0 <= i < j < |ms| :: Precedes(ms[i], ms[j])
  }

  ghost predicate Holds(ms: seq<Msg>, u: Uuid) {
    exists i :: 0 <= i < |ms| && ms[i].uuid == u
  }

  /** The scan finds every complete pair once, oldest first, whatever the order of
      the directory listing. */
  lemma ScanFindsThePairs(decode: Bytes -> Doc, d: Disk, names: seq<Name>)
    requires Listing(names, d)
    ensures var ms := Messages(decode, d, names);
            && OneEach(ms)
            && OldestFirst(ms)
            && (forall u :: Holds(ms, u) <==> Paired(d, u))
            && (forall i | 0 <= i < |ms| :: ms[i] == Load(decode, d, ms[i].uuid))
  {
    var us := Pairs(names);
    PairsAreThePairs(d, names);
    QueueOfPairs(decode, d, us);
    forall u
      ensures Holds(Messages(decode, d, names), u) <==> u in us
    {
      QueueHolds(decode, d, us, u);
    }
  }

  /** The keys in order, and that each is its message's. */
  lemma KeysInOrder(decode: Bytes -> Doc, d: Disk, us: seq<Uuid>)
    requires NoDup(us)
    ensures var sorted := Sort(KeyLe, Keys(decode, d, us));
            && SortedBy(KeyLe, sorted) && NoDup(sorted)
            && (forall k :: k in sorted <==> k.uuid in us && k == KeyIn(decode, d, k.uuid))
  {
    var keys := Keys(decode, d, us);
    KeysOnce(decode, d, us);
    KeyOrder();
    SortSorts(KeyLe, keys);
    SortMembers(KeyLe, keys);
  }

  lemma QueueOfPairs(decode: Bytes -> Doc, d: Disk, us: seq<Uuid>)
    requires NoDup(us)
    ensures var ms := LoadAll(decode, d, Sort(KeyLe, Keys(decode, d, us)));
            OneEach(ms) && OldestFirst(ms) && forall i | 0 <= i < |ms| :: ms[i] == Load(decode, d, ms[i].uuid)
  {
    var sorted := Sort(KeyLe, Keys(decode, d, us));
    var ms := LoadAll(decode, d, sorted);
    KeysInOrder(decode, d, us);
    forall i | 0 <= i < |sorted|
      ensures KeyOf(ms[i]) == sorted[i]
    {
      assert sorted[i] in sorted;
    }
    forall i, j | 0 <= i < j < |ms|
      ensures ms[i].uuid != ms[j].uuid && Precedes(ms[i], ms[j])
    {
      assert KeyLe(sorted[i], sorted[j]) && sorted[i] != sorted[j];
      assert sorted[i] in sorted && sorted[j] in sorted;
    }
  }

  lemma QueueHolds(decode: Bytes -> Doc, d: Disk, us: seq<Uuid>, u: Uuid)
    requires NoDup(us)
    ensures Holds(LoadAll(decode, d, Sort(KeyLe, Keys(decode, d, us))), u) <==> u in us
  {
    var sorted := Sort(KeyLe, Keys(decode, d, us));
    var ms := LoadAll(decode, d, sorted);
    KeysInOrder(decode, d, us);
    if u in us {
      assert KeyIn(decode, d, u) in sorted;
      var i :| 0 <= i < |sorted| && sorted[i] == KeyIn(decode, d, u);
      assert ms[i].uuid == u;
    }
    if Holds(ms, u) {
      var i :| 0 <= i < |ms| && ms[i].uuid == u;
      assert sorted[i] in sorted;
    }
  }

  lemma KeysOnce(decode: Bytes -> Doc, d: Disk, us: seq<Uuid>)
    requires NoDup(us)
    ensures NoDup(Keys(decode, d, us))
    ensures forall k :: k in Keys(decode, d, us) <==> k.uuid in us && k == KeyIn(decode, d, k.uuid)
  {
    var ks := Keys(decode, d, us);
    KeysAt(decode, d, us);
    forall k
      ensures k in ks <==> k.uuid in us && k == KeyIn(decode, d, k.uuid)
    {
      if k.uuid in us {
        var i :| 0 <= i < |us| && us[i] == k.uuid;
        assert ks[i] == KeyIn(decode, d, k.uuid);
      }
    }
  }

  lemma SameBag(a: seq<Key>, b: seq<Key>)
    requires NoDup(a) && NoDup(b) && forall k :: k in a <==> k in b
    ensures multiset(a) == multiset(b)
  {
    NoDupCounts(a);
    NoDupCounts(b);
    forall k: Key
      ensures multiset(a)[k] == multiset(b)[k]
    {
      assert k in a <==> k in multiset(a);
      assert k in b <==> k in multiset(b);
    }
  }

  lemma SameQueue(a: seq<Key>, b: seq<Key>)
    requires NoDup(a) && NoDup(b) && forall k :: k in a <==> k in b
    ensures Sort(KeyLe, a) == Sort(KeyLe, b)
  {
    KeyOrder();
    SortSorts(KeyLe, a);
    SortSorts(KeyLe, b);
    SameBag(a, b);
    SortedUnique(KeyLe, Sort(KeyLe, a), Sort(KeyLe, b));
  }

  /** Two listings of one directory give the same queue. */
  lemma ListingOrderIsInvisible(decode: Bytes -> Doc, d: Disk, a: seq<Name>, b: seq<Name>)
    requires Listing(a, d) && Listing(b, d)
    ensures Messages(decode, d, a) == Messages(decode, d, b)
  {
    PairsAreThePairs(d, a);
    PairsAreThePairs(d, b);
    KeysOnce(decode, d, Pairs(a));
    KeysOnce(decode, d, Pairs(b));
    SameQueue(Keys(decode, d, Pairs(a)), Keys(decode, d, Pairs(b)));
  }

  /** A message can be sent exactly when its sidecar is small enough, names the
      message and gives a time; what is sent is then the sidecar's own bytes, and
      otherwise the blob's age stands in for the time. */
  lemma UsableIffTheSidecarIsItsOwn(decode: Bytes -> Doc, d: Disk, u: Uuid)
    requires Paired(d, u)
    ensures var m, raw := Load(decode, d, u), d[Json(u)].bytes;
            && (m.error.None? <==> |raw| <= 4096 && exists at, mailbox :: decode(raw) == Fields(Some(u), Some(at), mailbox))
            && (m.error.None? ==> m.sidecar == raw && decode(raw) == Fields(Some(u), Some(m.received), m.mailboxId))
            && (m.error.Some? ==> m.sidecar == [] && m.mailboxId == None && m.received == d[Cms(u)].mtime)
            && m.size == |raw| + |d[Cms(u)].bytes|
  {
    var m, raw := Load(decode, d, u), d[Json(u)].bytes;
    if m.error.None? {
      assert decode(raw) == Fields(Some(u), Some(m.received), m.mailboxId);
    }
  }

  // ----- the leftovers -----

  /** The sweep leaves a leftover that is young or no longer there; it moves an old blob
      of the spool, which has no metadata, to the rejected directory, unchanged and with a
      journal line; and it deletes any other. It touches nothing else. */
  lemma SweepOneSays(cfg: Config, s: Dirs, o: Orphan, now: real)
    ensures var ops, due := SweepOne(cfg, s, o, now), now - o.mtime > cfg.orphanAge && o.name in Contents(s, o.dir);
            var s' := ApplyAll(s, ops);
            && (!due ==> s' == s && Written(ops) == [])
            && (due && o.dir == Main && o.name.Cms? ==>
                  && s' == Dirs(s.main - {o.name}, s.rejected[o.name := s.main[o.name]])
                  && Written(ops) == [Entry(OrphanNoMetadata, o.name.uuid)])
            && (due && o.dir == Main && !o.name.Cms? ==> s' == s.(main := s.main - {o.name}) && Written(ops) == [])
            && (due && o.dir == Rejected ==> s' == s.(rejected := s.rejected - {o.name}) && Written(ops) == [])
  {
    var ops := SweepOne(cfg, s, o, now);
    if |ops| == 2 {
      assert ops[..1] == [ops[0]] && ops[..1][..0] == [];
      assert ApplyAll(s, ops[..1]) == Apply(s, ops[0]) && Written(ops[..1]) == [];
    } else if |ops| == 1 {
      assert ops[..0] == [];
    }
  }

  // ----- the caps -----

  lemma {:induction false} YoungAreKept(cfg: Config, ms: seq<Msg>, now: real)
    ensures forall m :: m in Young(cfg, ms, now) <==> m in ms && !TooOld(cfg, m, now)
  {
    if ms != [] {
      YoungAreKept(cfg, ms[..|ms| - 1], now);
      assert ms == ms[..|ms| - 1] + [ms[|ms| - 1]];
    }
  }

  lemma {:induction false} YoungKeepsOrder(cfg: Config, ms: seq<Msg>, now: real)
    ensures OneEach(ms) ==> OneEach(Young(cfg, ms, now))
    ensures OldestFirst(ms) ==> OldestFirst(Young(cfg, ms, now))
  {
    if ms != [] {
      var init, m := ms[..|ms| - 1], ms[|ms| - 1];
      YoungKeepsOrder(cfg, init, now);
      YoungAreKept(cfg, init, now);
      assert forall x | x in init :: exists i :: 0 <= i < |init| && init[i] == x && ms[i] == x;
      forall x | x in Young(cfg, init, now)
        ensures OneEach(ms) ==> x.uuid != m.uuid
        ensures OldestFirst(ms) ==> Precedes(x, m)
      {
        assert x in init;
      }
      forall i | 0 <= i < |Young(cfg, init, now)|
        ensures OneEach(ms) ==> Young(cfg, init, now)[i].uuid != m.uuid
        ensures OldestFirst(ms) ==> Precedes(Young(cfg, init, now)[i], m)
      {
        assert Young(cfg, init, now)[i] in Young(cfg, init, now);
      }
    }
  }

  lemma {:induction false} SumConcat(a: seq<Msg>, b: seq<Msg>)
    ensures Sum(a + b) == Sum(a) + Sum(b)
  {
    if a == [] {
      assert a + b == b;
    } else {
      assert (a + b)[1..] == a[1..] + b;
      SumConcat(a[1..], b);
    }
  }

  /** How many messages the size cap takes. */
  function Victims(cap: nat, pending: seq<Msg>, rejected: seq<Msg>): (n: nat)
    ensures n <= |pending| + |rejected|
    decreases |pending| + |rejected|
  {
    if Sum(pending) + Sum(rejected) <= cap || (rejected == [] && pending == []) then 0
    else if rejected != [] then 1 + Victims(cap, pending, rejected[1..])
    else 1 + Victims(cap, pending[1..], [])
  }

  lemma TailsOfTail(cap: nat, all: seq<Msg>, n: nat)
    requires 1 <= n <= |all| && Sum(all) > cap
    requires forall j: nat | j < n - 1 :: Sum(all[1..][j..]) > cap
    ensures all[n..] == all[1..][n - 1..]
    ensures forall j: nat | j < n :: Sum(all[j..]) > cap
  {
    assert all[0..] == all;
    forall j: nat | j < n
      ensures Sum(all[j..]) > cap
    {
      assert j > 0 ==> all[j..] == all[1..][j - 1..];
    }
  }

  /** What is left are tails of both lists, the pending one whole unless every
      rejected message is gone. */
  ghost predicate Tails(pending: seq<Msg>, rejected: seq<Msg>, n: nat, leftPending: seq<Msg>, leftRejected: seq<Msg>)
    requires n <= |pending| + |rejected|
  {
    && leftPending == (if n <= |rejected| then pending else pending[n - |rejected|..])
    && leftRejected == (if n <= |rejected| then rejected[n..] else [])
  }

  lemma RejectedTails(pending: seq<Msg>, rejected: seq<Msg>, n: nat, leftPending: seq<Msg>, leftRejected: seq<Msg>)
    requires rejected != [] && n <= |pending| + |rejected| - 1
    requires Tails(pending, rejected[1..], n, leftPending, leftRejected)
    ensures Tails(pending, rejected, 1 + n, leftPending, leftRejected)
  {
  }

  lemma PendingTails(pending: seq<Msg>, n: nat, leftPending: seq<Msg>, leftRejected: seq<Msg>)
    requires pending != [] && n <= |pending| - 1 && Tails(pending[1..], [], n, leftPending, leftRejected)
    ensures Tails(pending, [], 1 + n, leftPending, leftRejected)
  {
    assert pending[1..][n..] == pending[1 + n..];
  }

  lemma {:induction false} PendingIsATail(cap: nat, pending: seq<Msg>, rejected: seq<Msg>)
    ensures var k := Evict(cap, pending, rejected); Tails(pending, rejected, Victims(cap, pending, rejected), k.pending, k.rejected)
    decreases |pending| + |rejected|
  {
    if Sum(pending) + Sum(rejected) <= cap || (rejected == [] && pending == []) {
    } else if rejected != [] {
      var k := Evict(cap, pending, rejected[1..]);
      PendingIsATail(cap, pending, rejected[1..]);
      RejectedTails(pending, rejected, Victims(cap, pending, rejected[1..]), k.pending, k.rejected);
    } else {
      var k := Evict(cap, pending[1..], []);
      PendingIsATail(cap, pending[1..], []);
      PendingTails(pending, Victims(cap, pending[1..], []), k.pending, k.rejected);
    }
  }

  lemma {:induction false} WhatIsKeptFits(cap: nat, pending: seq<Msg>, rejected: seq<Msg>)
    ensures var k := Evict(cap, pending, rejected); Sum(k.rejected) + Sum(k.pending) <= cap
    decreases |pending| + |rejected|
  {
    if Sum(pending) + Sum(rejected) > cap {
      if rejected != [] {
        WhatIsKeptFits(cap, pending, rejected[1..]);
      } else {
        WhatIsKeptFits(cap, pending[1..], []);
      }
    }
  }

  lemma {:induction false} FewerWouldNotFit(cap: nat, pending: seq<Msg>, rejected: seq<Msg>)
    ensures forall j: nat | j < Victims(cap, pending, rejected) :: Sum((rejected + pending)[j..]) > cap
    decreases |pending| + |rejected|
  {
    var all, n := rejected + pending, Victims(cap, pending, rejected);
    SumConcat(rejected, pending);
    if n > 0 {
      var rest := if rejected != [] then rejected[1..] else [];
      var more := if rejected != [] then pending else pending[1..];
      FewerWouldNotFit(cap, more, rest);
      assert rest + more == all[1..];
      assert n == 1 + Victims(cap, more, rest);
      TailsOfTail(cap, all, n);
    }
  }

  /** The size cap takes the shortest run of "oldest rejected, then oldest pending"
      that brings the spool under the cap, and no more. */
  lemma VictimsAreTheShortestRun(cap: nat, pending: seq<Msg>, rejected: seq<Msg>)
    ensures var all, n, k := rejected + pending, Victims(cap, pending, rejected), Evict(cap, pending, rejected);
            && k.rejected + k.pending == all[n..]
            && Sum(k.rejected) + Sum(k.pending) <= cap
            && (forall j: nat | j < n :: Sum(all[j..]) > cap)
  {
    PendingIsATail(cap, pending, rejected);
    WhatIsKeptFits(cap, pending, rejected);
    FewerWouldNotFit(cap, pending, rejected);
  }

  lemma KeptIsInOrder(cap: nat, pending: seq<Msg>, rejected: seq<Msg>)
    requires OldestFirst(pending) && OneEach(pending)
    ensures var k := Evict(cap, pending, rejected);
            && OldestFirst(k.pending) && OneEach(k.pending)
            && (forall m | m in k.pending :: m in pending) && (forall m | m in k.rejected :: m in rejected)
  {
    PendingIsATail(cap, pending, rejected);
  }

  /** The age cap takes exactly what is too old, the size cap the shortest run of
      the rest; what is left fits, and keeps its order. */
  ghost predicate CapsHold(cfg: Config, ms: seq<Msg>, rs: seq<Msg>, now: real, pending: seq<Msg>, rejected: seq<Msg>) {
    var r, p := Young(cfg, rs, now), Young(cfg, ms, now);
    var n := Victims(cfg.maxBytes, p, r);
    && Sum(rejected) + Sum(pending) <= cfg.maxBytes
    && rejected + pending == (r + p)[n..]
    && (forall j: nat | j < n :: Sum((r + p)[j..]) > cfg.maxBytes)
    && OldestFirst(pending) && OneEach(pending)
    && (forall m | m in pending || m in rejected :: now - m.received <= cfg.maxAge)
  }

  lemma {:induction false} CapsHoldForLists(cfg: Config, ms: seq<Msg>, rs: seq<Msg>, now: real)
    requires OneEach(ms) && OldestFirst(ms)
    ensures var k := Evict(cfg.maxBytes, Young(cfg, ms, now), Young(cfg, rs, now));
            CapsHold(cfg, ms, rs, now, k.pending, k.rejected)
  {
    var p, r := Young(cfg, ms, now), Young(cfg, rs, now);
    YoungKeepsOrder(cfg, ms, now);
    YoungAreKept(cfg, ms, now);
    YoungAreKept(cfg, rs, now);
    VictimsAreTheShortestRun(cfg.maxBytes, p, r);
    KeptIsInOrder(cfg.maxBytes, p, r);
  }

  lemma CapsAreKept(decode: Bytes -> Doc, cfg: Config, s: Dirs, i: Inputs)
    requires Listed(s, i)
    ensures var k := Caps(decode, cfg, s, i);
            CapsHold(cfg, Messages(decode, s.main, i.mainNames), Messages(decode, s.rejected, i.rejectedNames), i.now,
                     k.pending, k.rejected)
  {
    ScanFindsThePairs(decode, s.main, i.mainNames);
    CapsHoldForLists(cfg, Messages(decode, s.main, i.mainNames), Messages(decode, s.rejected, i.rejectedNames), i.now);
  }

  // ----- what is sent -----

  function SendsIn(ops: seq<Op>): seq<Op> {
    if ops == [] then [] else SendsIn(ops[..|ops| - 1]) + if ops[|ops| - 1].Send? then [ops[|ops| - 1]] else []
  }

  function Usable(ms: seq<Msg>): seq<Uuid> {
    if ms == [] then [] else Usable(ms[..|ms| - 1]) + if ms[|ms| - 1].error.None? then [ms[|ms| - 1].uuid] else []
  }

  function SendEach(us: seq<Uuid>, answers: Uuid -> Exchange): seq<Op> {
    if us == [] then [] else SendEach(us[..|us| - 1], answers) + [Send(us[|us| - 1], answers(us[|us| - 1]))]
  }

  lemma {:induction false} SendsConcat(a: seq<Op>, b: seq<Op>)
    ensures SendsIn(a + b) == SendsIn(a) + SendsIn(b)
  {
    if b == [] {
      assert a + b == a;
    } else {
      assert (a + b)[..|a + b| - 1] == a + b[..|b| - 1];
      SendsConcat(a, b[..|b| - 1]);
    }
  }

  lemma {:induction false} NothingSent(ops: seq<Op>)
    requires forall op | op in ops :: !op.Send?
    ensures SendsIn(ops) == []
  {
    if ops != [] {
      NothingSent(ops[..|ops| - 1]);
    }
  }

  lemma OneSends(m: Msg, answers: Uuid -> Exchange)
    ensures SendsIn(ReplayOne(m, answers)) == if m.error.Some? then [] else [Send(m.uuid, answers(m.uuid))]
  {
    var ops := ReplayOne(m, answers);
    if m.error.Some? {
      NothingSent(ops);
    } else {
      var x := Send(m.uuid, answers(m.uuid));
      assert ops == [x] + ops[1..];
      assert [x][..0] == [] && SendsIn([x]) == [x];
      NothingSent(ops[1..]);
      SendsConcat([x], ops[1..]);
    }
  }

  lemma SendEachMore(us: seq<Uuid>, u: Uuid, answers: Uuid -> Exchange)
    ensures SendEach(us + [u], answers) == SendEach(us, answers) + [Send(u, answers(u))]
  {
    assert (us + [u])[..|us|] == us;
  }

  lemma {:induction false} SendStep(before: seq<Op>, one: seq<Op>, us: seq<Uuid>, m: Msg, answers: Uuid -> Exchange)
    requires SendsIn(before) == SendEach(us, answers)
    requires SendsIn(one) == if m.error.Some? then [] else [Send(m.uuid, answers(m.uuid))]
    ensures SendsIn(before + one) == SendEach(us + if m.error.None? then [m.uuid] else [], answers)
  {
    SendsConcat(before, one);
    SendEachMore(us, m.uuid, answers);
    assert us + [] == us;
  }

  lemma {:induction false} EachSends(ms: seq<Msg>, answers: Uuid -> Exchange)
    ensures SendsIn(ReplayEach(ms, answers)) == SendEach(Usable(ms), answers)
  {
    if ms != [] {
      var init, m := ms[..|ms| - 1], ms[|ms| - 1];
      EachSends(init, answers);
      OneSends(m, answers);
      SendStep(ReplayEach(init, answers), ReplayOne(m, answers), Usable(init), m, answers);
    }
  }

  lemma {:induction false} UsableConcat(a: seq<Msg>, b: seq<Msg>)
    ensures Usable(a + b) == Usable(a) + Usable(b)
  {
    if b == [] {
      assert a + b == a;
    } else {
      assert (a + b)[..|a + b| - 1] == a + b[..|b| - 1];
      UsableConcat(a, b[..|b| - 1]);
    }
  }

  lemma UsableReached(ms: seq<Msg>, answers: Uuid -> Exchange)
    ensures var us, sent := Usable(ms), Usable(ms[..Reached(ms, answers)]);
            && |sent| <= |us| && us[..|sent|] == sent
            && (forall i | 0 <= i < |sent| - 1 :: !IsFailure(answers(us[i])))
            && (|sent| < |us| ==> |sent| > 0 && IsFailure(answers(us[|sent| - 1])))
  {
    var k := Reached(ms, answers);
    var us, sent := Usable(ms), Usable(ms[..k]);
    UsableConcat(ms[..k], ms[k..]);
    assert ms == ms[..k] + ms[k..];
    if k > 0 {
      var init := Usable(ms[..k - 1]);
      assert ms[..k][..k - 1] == ms[..k - 1];
      assert sent == init + if ms[k - 1].error.None? then [ms[k - 1].uuid] else [];
      UsableAnswered(ms[..k - 1], answers);
      assert forall i | 0 <= i < |init| :: us[i] == init[i];
      assert k < |ms| ==> Stops(ms[k - 1], answers);
    }
    assert k == |ms| ==> ms[..k] == ms;
  }

  /** The messages sent are the oldest usable ones, in order, up to and with the
      first that fails; when none fails, all of them. */
  lemma SendsAreAPrefixUpToTheFirstFailure(ms: seq<Msg>, answers: Uuid -> Exchange)
    ensures var us, n := Usable(ms), |Usable(ms[..Reached(ms, answers)])|;
            && n <= |us|
            && SendsIn(Replay(ms, answers)) == SendEach(us[..n], answers)
            && (forall i | 0 <= i < n - 1 :: !IsFailure(answers(us[i])))
            && (n < |us| ==> n > 0 && IsFailure(answers(us[n - 1])))
  {
    EachSends(ms[..Reached(ms, answers)], answers);
    UsableReached(ms, answers);
  }

  lemma {:induction false} UsableAnswered(ms: seq<Msg>, answers: Uuid -> Exchange)
    requires forall i | 0 <= i < |ms| :: !Stops(ms[i], answers)
    ensures forall i | 0 <= i < |Usable(ms)| :: !IsFailure(answers(Usable(ms)[i]))
  {
    if ms != [] {
      UsableAnswered(ms[..|ms| - 1], answers);
      assert !Stops(ms[|ms| - 1], answers);
    }
  }
}
