/** No message is lost track of in a pass: every complete pair the scan saw is
    afterwards pending, rejected, delivered or dropped, and the journal says so. */
module SpoolConservation {
  import opened Wrappers
  import opened Spool
  import opened SpoolBackoff
  import opened SpoolPass

  predicate IsOf(n: Name, u: Uuid) {
    n == Cms(u) || n == Json(u)
  }

  /** The directory a journal line speaks of. */
  function Where(e: Event): Dir {
    match e
    case DroppedAge(dir) => dir
    case DroppedSize(dir, _) => dir
    case _ => Main
  }

  /** The operation concerns the message `u` of a directory. */
  predicate Touches(op: Op, dir: Dir, u: Uuid) {
    match op
    case Remove(d, n, _) => d == dir && IsOf(n, u)
    case Reject(n) => IsOf(n, u)
    case Write(e) => e.uuid == u && Where(e.event) == dir
    case Send(v, _) => v == u
  }

  ghost predicate Clear(ops: seq<Op>, dir: Dir, u: Uuid) {
    forall op | op in ops :: !Touches(op, dir, u)
  }

  /** The journal lines about the message `u` of a directory. */
  function Entries(ops: seq<Op>, dir: Dir, u: Uuid): seq<Entry> {
    if ops == [] then []
    else
      var op := ops[|ops| - 1];
      Entries(ops[..|ops| - 1], dir, u) + if op.Write? && Touches(op, dir, u) then [op.entry] else []
  }

  function At(d: Disk, n: Name): Option<File> {
    if n in d then Some(d[n]) else None
  }

  predicate SameAt(a: Disk, b: Disk, u: Uuid) {
    At(a, Cms(u)) == At(b, Cms(u)) && At(a, Json(u)) == At(b, Json(u))
  }

  predicate NoneAt(d: Disk, u: Uuid) {
    Cms(u) !in d && Json(u) !in d
  }

  ghost predicate KeepsRejected(ops: seq<Op>) {
    forall op | op in ops :: op.Remove? ==> op.dir == Main
  }

  lemma {:induction false} ClearChangesNothing(s: Dirs, ops: seq<Op>, dir: Dir, u: Uuid)
    requires Clear(ops, dir, u)
    ensures SameAt(Contents(s, dir), Contents(ApplyAll(s, ops), dir), u)
    ensures KeepsRejected(ops) ==> SameAt(s.rejected, ApplyAll(s, ops).rejected, u)
    ensures Entries(ops, dir, u) == []
  {
    if ops != [] {
      ClearChangesNothing(s, ops[..|ops| - 1], dir, u);
      assert !Touches(ops[|ops| - 1], dir, u);
    }
  }

  lemma {:induction false} EntriesConcat(a: seq<Op>, b: seq<Op>, dir: Dir, u: Uuid)
    ensures Entries(a + b, dir, u) == Entries(a, dir, u) + Entries(b, dir, u)
  {
    if b == [] {
      assert a + b == a;
    } else {
      assert (a + b)[..|a + b| - 1] == a + b[..|b| - 1];
      EntriesConcat(a, b[..|b| - 1], dir, u);
    }
  }

  /** What happens to `u` is decided by the operations that concern it. */
  lemma {:induction false} OnlyItsOwnOpsCount(s: Dirs, pre: seq<Op>, one: seq<Op>, post: seq<Op>, dir: Dir, u: Uuid)
    requires Clear(pre, dir, u) && Clear(post, dir, u)
    ensures var s1 := ApplyAll(s, pre);
            && SameAt(Contents(s, dir), Contents(s1, dir), u)
            && SameAt(Contents(ApplyAll(s1, one), dir), Contents(ApplyAll(s, pre + one + post), dir), u)
            && (KeepsRejected(post) ==> SameAt(ApplyAll(s1, one).rejected, ApplyAll(s, pre + one + post).rejected, u))
            && Entries(pre + one + post, dir, u) == Entries(one, dir, u)
  {
    ApplyConcat(s, pre, one);
    ApplyConcat(s, pre + one, post);
    EntriesConcat(pre, one, dir, u);
    EntriesConcat(pre + one, post, dir, u);
    ClearChangesNothing(s, pre, dir, u);
    ClearChangesNothing(ApplyAll(s, pre + one), post, dir, u);
  }

  // ----- where each part of a pass mentions a message -----

  lemma {:induction false} AgeClear(cfg: Config, ms: seq<Msg>, dir: Dir, now: real, on: Dir, u: Uuid)
    requires dir != on || forall m | m in ms :: m.uuid == u ==> !TooOld(cfg, m, now)
    ensures Clear(AgeOps(cfg, ms, dir, now), on, u)
  {
    if ms != [] {
      AgeClear(cfg, ms[..|ms| - 1], dir, now, on, u);
      assert ms[|ms| - 1] in ms;
    }
  }

  lemma {:induction false} AgeTakes(cfg: Config, ms: seq<Msg>, dir: Dir, now: real, j: nat) returns (pre: seq<Op>, post: seq<Op>)
    requires j < |ms| && OneEach(ms) && TooOld(cfg, ms[j], now)
    ensures var u := ms[j].uuid;
            && AgeOps(cfg, ms, dir, now) == pre + (RemovePair(dir, u, Aged) + [Write(Entry(DroppedAge(dir), u))]) + post
            && Clear(pre, dir, u) && Clear(post, dir, u)
  {
    var init, m := ms[..|ms| - 1], ms[|ms| - 1];
    if j == |ms| - 1 {
      assert forall i | 0 <= i < |init| :: init[i].uuid == ms[i].uuid != m.uuid;
      AgeClear(cfg, init, dir, now, dir, m.uuid);
      pre, post := AgeOps(cfg, init, dir, now), [];
    } else {
      var p, q := AgeTakes(cfg, init, dir, now, j);
      var last := if TooOld(cfg, m, now) then RemovePair(dir, m.uuid, Aged) + [Write(Entry(DroppedAge(dir), m.uuid))] else [];
      assert ms[j].uuid != m.uuid;
      assert Clear(last, dir, ms[j].uuid);
      pre, post := p, q + last;
    }
  }

  lemma Prepend(a: seq<Op>, b: seq<Op>, c: seq<Op>, d: seq<Op>)
    ensures a + b + c + d == a + (b + c + d)
  {
  }

  /** The operations drop this message once, and do nothing else about it. */
  ghost predicate Takes(ops: seq<Op>, m: Msg, dir: Dir, pre: seq<Op>, left: int, post: seq<Op>) {
    ops == pre + DropForSize(m, dir, left) + post && Clear(pre, dir, m.uuid) && Clear(post, dir, m.uuid)
  }

  lemma TakesLater(head: seq<Op>, ops: seq<Op>, m: Msg, dir: Dir, pre: seq<Op>, left: int, post: seq<Op>)
    requires Takes(ops, m, dir, pre, left, post) && Clear(head, dir, m.uuid)
    ensures Takes(head + ops, m, dir, head + pre, left, post)
  {
    Prepend(head, pre, DropForSize(m, dir, left), post);
  }

  lemma TakesFirst(m: Msg, dir: Dir, left: int, rest: seq<Op>)
    requires Clear(rest, dir, m.uuid)
    ensures Takes(DropForSize(m, dir, left) + rest, m, dir, [], left, rest)
  {
    assert DropForSize(m, dir, left) + rest == [] + DropForSize(m, dir, left) + rest;
  }

  /** The size cap keeps the message and leaves its files alone, or drops it. */
  ghost predicate Settles(kept: seq<Msg>, ops: seq<Op>, m: Msg, dir: Dir, pre: seq<Op>, left: int, post: seq<Op>) {
    if Holds(kept, m.uuid) then m in kept && Clear(ops, dir, m.uuid) else Takes(ops, m, dir, pre, left, post)
  }

  lemma SettlesLater(head: seq<Op>, kept: seq<Msg>, ops: seq<Op>, m: Msg, dir: Dir, pre: seq<Op>, left: int, post: seq<Op>)
    requires Settles(kept, ops, m, dir, pre, left, post) && Clear(head, dir, m.uuid)
    ensures Settles(kept, head + ops, m, dir, head + pre, left, post)
  {
    if Holds(kept, m.uuid) {
      ClearBoth(head, ops, dir, m.uuid);
    } else {
      TakesLater(head, ops, m, dir, pre, left, post);
    }
  }

  lemma OtherVictim(m: Msg, dir: Dir, left: int, on: Dir, u: Uuid)
    requires dir != on || m.uuid != u
    ensures Clear(DropForSize(m, dir, left), on, u)
  {
  }

  lemma HeldIn(ms: seq<Msg>, u: Uuid, j: nat)
    requires j < |ms| && ms[j].uuid == u
    ensures Holds(ms, u)
  {
  }

  lemma NotHeldPast(ms: seq<Msg>, u: Uuid)
    requires OneEach(ms) && ms != [] && ms[0].uuid == u
    ensures !Holds(ms[1..], u)
  {
  }

  /** A pending message that the size cap drops leaves only those after it. */
  lemma {:induction false} EvictSettles(cap: nat, pending: seq<Msg>, rejected: seq<Msg>, j: nat)
    returns (pre: seq<Op>, post: seq<Op>)
    requires j < |pending| && OneEach(pending)
    ensures var k := Evict(cap, pending, rejected);
            Settles(k.pending, k.ops, pending[j], Main, pre, Sum(pending[j + 1..]), post)
    decreases |pending| + |rejected|
  {
    var m, left := pending[j], Sum(pending[j + 1..]);
    var total := Sum(pending) + Sum(rejected);
    pre, post := [], [];
    if total <= cap {
      HeldIn(pending, m.uuid, j);
    } else if rejected != [] {
      var first, rest := total - rejected[0].size, Evict(cap, pending, rejected[1..]);
      pre, post := EvictSettles(cap, pending, rejected[1..], j);
      OtherVictim(rejected[0], Rejected, first, Main, m.uuid);
      SettlesLater(DropForSize(rejected[0], Rejected, first), rest.pending, rest.ops, m, Main, pre, left, post);
      pre := DropForSize(rejected[0], Rejected, first) + pre;
    } else if j == 0 {
      EvictClear(cap, pending[1..], [], Main, m.uuid);
      NotHeldPast(pending, m.uuid);
      post := Evict(cap, pending[1..], []).ops;
      TakesFirst(m, Main, left, post);
    } else {
      var first, rest := total - pending[0].size, Evict(cap, pending[1..], []);
      assert pending[1..][j..] == pending[j + 1..];
      pre, post := EvictSettles(cap, pending[1..], [], j - 1);
      OtherVictim(pending[0], Main, first, Main, m.uuid);
      SettlesLater(DropForSize(pending[0], Main, first), rest.pending, rest.ops, m, Main, pre, left, post);
      pre := DropForSize(pending[0], Main, first) + pre;
    }
  }

  /** One that was set aside leaves those after it and all pending ones. */
  lemma {:induction false} EvictSettlesRejected(cap: nat, pending: seq<Msg>, rejected: seq<Msg>, j: nat)
    returns (pre: seq<Op>, post: seq<Op>)
    requires j < |rejected| && OneEach(rejected)
    ensures var k := Evict(cap, pending, rejected);
            Settles(k.rejected, k.ops, rejected[j], Rejected, pre, Sum(pending) + Sum(rejected[j + 1..]), post)
    decreases |rejected|
  {
    var m, left := rejected[j], Sum(pending) + Sum(rejected[j + 1..]);
    var first, rest := Sum(pending) + Sum(rejected) - rejected[0].size, Evict(cap, pending, rejected[1..]);
    pre, post := [], [];
    if Sum(pending) + Sum(rejected) <= cap {
      HeldIn(rejected, m.uuid, j);
    } else if j == 0 {
      EvictClear(cap, pending, rejected[1..], Rejected, m.uuid);
      NotHeldPast(rejected, m.uuid);
      post := rest.ops;
      TakesFirst(m, Rejected, left, post);
    } else {
      assert rejected[1..][j..] == rejected[j + 1..];
      pre, post := EvictSettlesRejected(cap, pending, rejected[1..], j - 1);
      OtherVictim(rejected[0], Rejected, first, Rejected, m.uuid);
      SettlesLater(DropForSize(rejected[0], Rejected, first), rest.rejected, rest.ops, m, Rejected, pre, left, post);
      pre := DropForSize(rejected[0], Rejected, first) + pre;
    }
  }

  /** A pending message is kept by the size cap if and only if it fits together with
      all newer ones. */
  lemma {:induction false} KeptIffItFits(cap: nat, pending: seq<Msg>, rejected: seq<Msg>, j: nat)
    requires j < |pending| && OneEach(pending)
    ensures Holds(Evict(cap, pending, rejected).pending, pending[j].uuid) <==> Sum(pending[j..]) <= cap
    decreases |pending| + |rejected|
  {
    var total := Sum(pending) + Sum(rejected);
    assert pending == pending[..j] + pending[j..];
    SumConcat(pending[..j], pending[j..]);
    if total <= cap {
      HeldIn(pending, pending[j].uuid, j);
    } else if rejected != [] {
      KeptIffItFits(cap, pending, rejected[1..], j);
    } else if j == 0 {
      NotHeldPast(pending, pending[0].uuid);
      EvictClear(cap, pending[1..], [], Main, pending[0].uuid);
    } else {
      assert pending[1..][j - 1..] == pending[j..];
      KeptIffItFits(cap, pending[1..], [], j - 1);
    }
  }

  lemma {:induction false} EvictClear(cap: nat, pending: seq<Msg>, rejected: seq<Msg>, on: Dir, u: Uuid)
    requires if on == Main then !Holds(pending, u) else !Holds(rejected, u)
    ensures var k := Evict(cap, pending, rejected);
            && Clear(k.ops, on, u)
            && if on == Main then !Holds(k.pending, u) else !Holds(k.rejected, u)
    decreases |pending| + |rejected|
  {
    if Sum(pending) + Sum(rejected) <= cap || (rejected == [] && pending == []) {
    } else if rejected != [] {
      var head := DropForSize(rejected[0], Rejected, Sum(pending) + Sum(rejected) - rejected[0].size);
      assert on == Rejected ==> rejected[0].uuid != u;
      assert forall i | 0 <= i < |rejected| - 1 :: rejected[1..][i].uuid == rejected[i + 1].uuid;
      EvictClear(cap, pending, rejected[1..], on, u);
      assert Clear(head, on, u);
      ClearBoth(head, Evict(cap, pending, rejected[1..]).ops, on, u);
    } else {
      var head := DropForSize(pending[0], Main, Sum(pending) + Sum(rejected) - pending[0].size);
      assert on == Main ==> pending[0].uuid != u;
      assert forall i | 0 <= i < |pending| - 1 :: pending[1..][i].uuid == pending[i + 1].uuid;
      EvictClear(cap, pending[1..], [], on, u);
      assert Clear(head, on, u);
      ClearBoth(head, Evict(cap, pending[1..], []).ops, on, u);
    }
  }

  lemma EvictRejectedOps(cap: nat, pending: seq<Msg>, rejected: seq<Msg>)
    requires Sum(pending) + Sum(rejected) > cap && rejected != []
    ensures var k, rest := Evict(cap, pending, rejected), Evict(cap, pending, rejected[1..]);
            && k.ops == DropForSize(rejected[0], Rejected, Sum(pending) + Sum(rejected) - rejected[0].size) + rest.ops
            && k.rejected == rest.rejected && k.pending == rest.pending
  {
  }

  lemma EvictPendingOps(cap: nat, pending: seq<Msg>)
    requires Sum(pending) > cap && pending != []
    ensures var k, rest := Evict(cap, pending, []), Evict(cap, pending[1..], []);
            && k.ops == DropForSize(pending[0], Main, Sum(pending) - pending[0].size) + rest.ops
            && k.rejected == rest.rejected && k.pending == rest.pending
  {
  }

  /** A message set aside is kept by the size cap if and only if it fits together with
      all newer ones set aside and all pending ones. */
  lemma {:induction false} RejectedKeptIffItFits(cap: nat, pending: seq<Msg>, rejected: seq<Msg>, j: nat)
    requires j < |rejected| && OneEach(rejected)
    ensures Holds(Evict(cap, pending, rejected).rejected, rejected[j].uuid) <==> Sum(pending) + Sum(rejected[j..]) <= cap
    decreases |rejected|
  {
    assert rejected == rejected[..j] + rejected[j..];
    SumConcat(rejected[..j], rejected[j..]);
    if Sum(pending) + Sum(rejected) <= cap {
      HeldIn(rejected, rejected[j].uuid, j);
    } else if j == 0 {
      NotHeldPast(rejected, rejected[0].uuid);
      EvictClear(cap, pending, rejected[1..], Rejected, rejected[0].uuid);
    } else {
      assert rejected[1..][j - 1..] == rejected[j..];
      RejectedKeptIffItFits(cap, pending, rejected[1..], j - 1);
    }
  }

  /** The sweep leaves the orphan alone, or it has nothing to do with `u` there. */
  predicate Spares(cfg: Config, o: Orphan, now: real, on: Dir, u: Uuid) {
    IsOf(o.name, u) && (o.dir == on || (o.dir == Main && o.name.Cms?)) ==> now - o.mtime <= cfg.orphanAge
  }

  lemma {:induction false} SweepClear(cfg: Config, s: Dirs, os: seq<Orphan>, now: real, on: Dir, u: Uuid)
    requires forall o | o in os :: Spares(cfg, o, now, on, u)
    ensures Clear(SweepOps(cfg, s, os, now), on, u)
  {
    if os != [] {
      var init, o := os[..|os| - 1], os[|os| - 1];
      assert os == init + [o];
      SweepClear(cfg, s, init, now, on, u);
      assert Spares(cfg, o, now, on, u);
    }
  }

  lemma OneClear(m: Msg, answers: Uuid -> Exchange, on: Dir, u: Uuid)
    ensures m.uuid != u ==> Clear(ReplayOne(m, answers), on, u)
    ensures KeepsRejected(ReplayOne(m, answers))
  {
  }

  lemma ClearBoth(a: seq<Op>, b: seq<Op>, on: Dir, u: Uuid)
    ensures Clear(a, on, u) && Clear(b, on, u) ==> Clear(a + b, on, u)
    ensures KeepsRejected(a) && KeepsRejected(b) ==> KeepsRejected(a + b)
  {
  }

  lemma {:induction false} ReplayClear(ms: seq<Msg>, answers: Uuid -> Exchange, on: Dir, u: Uuid)
    ensures !Holds(ms, u) ==> Clear(ReplayEach(ms, answers), on, u)
    ensures KeepsRejected(ReplayEach(ms, answers))
  {
    if ms != [] {
      var init, m := ms[..|ms| - 1], ms[|ms| - 1];
      assert forall i | 0 <= i < |init| :: init[i].uuid == ms[i].uuid;
      assert !Holds(ms, u) ==> !Holds(init, u) && m.uuid != u;
      ReplayClear(init, answers, on, u);
      OneClear(m, answers, on, u);
      ClearBoth(ReplayEach(init, answers), ReplayOne(m, answers), on, u);
    }
  }

  lemma {:induction false} ReplayTakes(ms: seq<Msg>, answers: Uuid -> Exchange, on: Dir, j: nat) returns (pre: seq<Op>, post: seq<Op>)
    requires j < |ms| && OneEach(ms)
    ensures var u := ms[j].uuid;
            && ReplayEach(ms, answers) == pre + ReplayOne(ms[j], answers) + post
            && Clear(pre, on, u) && Clear(post, on, u) && KeepsRejected(post)
    ensures pre == ReplayEach(ms[..j], answers)
  {
    var init, m := ms[..|ms| - 1], ms[|ms| - 1];
    var one := ReplayOne(m, answers);
    assert ReplayEach(ms, answers) == ReplayEach(init, answers) + one;
    if j == |ms| - 1 {
      assert forall i | 0 <= i < |init| :: init[i].uuid == ms[i].uuid != m.uuid;
      ReplayClear(init, answers, on, m.uuid);
      pre, post := ReplayEach(init, answers), [];
    } else {
      var p, q := ReplayTakes(init, answers, on, j);
      assert init[..j] == ms[..j];
      OneClear(m, answers, on, ms[j].uuid);
      ClearBoth(q, one, on, ms[j].uuid);
      pre, post := p, q + one;
      Regroup(p, ReplayOne(ms[j], answers), q, one);
    }
  }

  lemma Regroup(a: seq<Op>, b: seq<Op>, c: seq<Op>, d: seq<Op>)
    ensures a + b + c + d == a + b + (c + d)
  {
  }

  lemma {:induction false} LoneAreUnpaired(us: seq<Uuid>, other: seq<Uuid>, dir: Dir, d: Disk)
    ensures forall o | o in LoneCms(us, other, dir, d) :: o.dir == dir && o.name.Cms? && o.name.uuid in us && o.name.uuid !in other
    ensures forall o | o in LoneJson(us, other, dir, d) :: o.dir == dir && o.name.Json? && o.name.uuid in us && o.name.uuid !in other
  {
    if us != [] {
      LoneAreUnpaired(us[..|us| - 1], other, dir, d);
    }
  }

  lemma {:induction false} LeftoversAreTmp(ns: seq<Name>, dir: Dir, d: Disk)
    requires forall n | n in ns :: n.Tmp?
    ensures forall o | o in Leftovers(ns, dir, d) :: o.dir == dir && o.name.Tmp?
  {
    if ns != [] {
      LeftoversAreTmp(ns[..|ns| - 1], dir, d);
    }
  }

  lemma {:induction false} TmpsAreTmp(names: seq<Name>)
    ensures forall n | n in Tmps(names) :: n.Tmp?
  {
    if names != [] {
      TmpsAreTmp(names[..|names| - 1]);
    }
  }

  /** An orphan is a temporary file, or half of an incomplete pair. */
  lemma OrphansAreHalves(names: seq<Name>, dir: Dir, d: Disk, o: Orphan)
    requires Listing(names, d) && o in Orphans(names, dir, d)
    ensures o.dir == dir
    ensures o.name.Cms? || o.name.Json? ==> o.name in d
    ensures match o.name case Tmp(_) => true case Cms(u) => Json(u) !in d case Json(u) => Cms(u) !in d case Other(_) => false
  {
    var cms, js := CmsStems(names), JsonStems(names);
    LoneAreUnpaired(cms, js, dir, d);
    LoneAreUnpaired(js, cms, dir, d);
    TmpsAreTmp(names);
    LeftoversAreTmp(Tmps(names), dir, d);
    if o.name.Cms? || o.name.Json? {
      StemsAreTheNames(names, o.name.uuid);
    }
  }

  // ----- the four ends -----

  datatype Fate = Pending | Posted | SetAside(why: Event) | Dropped(why: Event)

  /** How `u` went from `s` to `s'` by `ops`. */
  ghost predicate Ends(s: Dirs, s': Dirs, ops: seq<Op>, u: Uuid, f: Fate) {
    match f
    case Pending =>
      SameAt(s.main, s'.main, u) && Entries(ops, Main, u) == []
    case Posted =>
      NoneAt(s'.main, u) && Entries(ops, Main, u) == [] && exists x :: Send(u, x) in ops && SaysHeld(x)
    case SetAside(e) =>
      && NoneAt(s'.main, u) && SameAt(s.main, s'.rejected, u) && Entries(ops, Main, u) == [Entry(e, u)]
      && (e.RejectedBadSidecar? || (e == ApiRejected422 && exists x :: Send(u, x) in ops && SaysRefused(x)))
    case Dropped(e) =>
      && NoneAt(s'.main, u) && Entries(ops, Main, u) == [Entry(e, u)]
      && (e == DroppedAge(Main) || (e.DroppedSize? && e.where == Main)
          || (e == ApiDropped410 && exists x :: Send(u, x) in ops && SaysGone(x)))
  }

  lemma DropEnds(s: Dirs, pre: seq<Op>, post: seq<Op>, u: Uuid, why: Why, e: Event)
    requires Clear(pre, Main, u) && Clear(post, Main, u)
    requires e == DroppedAge(Main) || (e.DroppedSize? && e.where == Main)
    ensures var ops := pre + (RemovePair(Main, u, why) + [Write(Entry(e, u))]) + post;
            Ends(s, ApplyAll(s, ops), ops, u, Dropped(e))
  {
    var one := RemovePair(Main, u, why) + [Write(Entry(e, u))];
    OnlyItsOwnOpsCount(s, pre, one, post, Main, u);
    RemoveScript(ApplyAll(s, pre), Main, u, why, Entry(e, u));
  }

  lemma RemoveScript(s: Dirs, dir: Dir, u: Uuid, why: Why, e: Entry)
    requires e.uuid == u && Where(e.event) == dir
    ensures var one := RemovePair(dir, u, why);
            && NoneAt(Contents(ApplyAll(s, one), dir), u) && Entries(one, dir, u) == []
            && NoneAt(Contents(ApplyAll(s, one + [Write(e)]), dir), u) && Entries(one + [Write(e)], dir, u) == [e]
  {
    var one := RemovePair(dir, u, why);
    assert one[..1] == [one[0]] && one[..1][..0] == [];
    assert ApplyAll(s, one[..1]) == Apply(s, one[0]);
    assert Entries(one[..1], dir, u) == [];
    assert (one + [Write(e)])[..2] == one;
  }

  lemma RejectScript(s: Dirs, u: Uuid, e: Entry)
    requires e.uuid == u && Where(e.event) == Main && Paired(s.main, u)
    ensures var one := RejectPair(u) + [Write(e)];
            && NoneAt(ApplyAll(s, one).main, u) && SameAt(s.main, ApplyAll(s, one).rejected, u)
            && Entries(one, Main, u) == [e]
  {
    var pair := RejectPair(u);
    assert pair[..1] == [pair[0]] && pair[..1][..0] == [];
    assert ApplyAll(s, pair[..1]) == Apply(s, pair[0]);
    assert Entries(pair[..1], Main, u) == [];
    assert (pair + [Write(e)])[..2] == pair;
  }

  lemma SendFirst(s: Dirs, u: Uuid, x: Exchange, rest: seq<Op>)
    ensures ApplyAll(s, [Send(u, x)] + rest) == ApplyAll(s, rest)
    ensures Entries([Send(u, x)] + rest, Main, u) == Entries(rest, Main, u)
  {
    var first := [Send(u, x)];
    assert first[..0] == [];
    assert ApplyAll(s, first) == s;
    assert Entries(first, Main, u) == Entries(first[..0], Main, u) + [];
    ApplyConcat(s, first, rest);
    EntriesConcat(first, rest, Main, u);
  }

  function FateOf(m: Msg, answers: Uuid -> Exchange): Fate {
    if m.error.Some? then SetAside(RejectedBadSidecar(m.error.value))
    else
      var x := answers(m.uuid);
      if SaysHeld(x) then Posted
      else if SaysGone(x) then Dropped(ApiDropped410)
      else if SaysRefused(x) then SetAside(ApiRejected422)
      else Pending
  }

  /** The message of that name and those after it. */
  function From(ms: seq<Msg>, u: Uuid): seq<Msg> {
    if ms == [] || ms[0].uuid == u then ms else From(ms[1..], u)
  }

  /** What a pass makes of pending message `m`: the age cap, then the size cap if it
      does not fit together with the newer ones, then, if the replay gets to it, its
      answer. */
  function FateIn(cfg: Config, c: Control, ms: seq<Msg>, pass: Pass, m: Msg): Fate {
    var rest := From(Young(cfg, ms, pass.now), m.uuid);
    if pass.now - m.received > cfg.maxAge then Dropped(DroppedAge(Main))
    else if rest != [] && Sum(rest) > cfg.maxBytes then Dropped(DroppedSize(Main, Sum(rest[1..])))
    else if Goes(cfg, c, pass) && m in Tried(pass) then FateOf(m, pass.answers)
    else Pending
  }

  lemma {:induction false} FromIs(ms: seq<Msg>, j: nat)
    requires j < |ms| && OneEach(ms)
    ensures From(ms, ms[j].uuid) == ms[j..]
  {
    if j > 0 {
      assert ms[0].uuid != ms[j].uuid;
      FromIs(ms[1..], j - 1);
      assert ms[1..][j - 1..] == ms[j..];
    }
  }

  /** What one replay does to its message, starting from a complete pair. */
  lemma OneEnds(s: Dirs, m: Msg, answers: Uuid -> Exchange)
    requires Paired(s.main, m.uuid)
    ensures var one := ReplayOne(m, answers); Ends(s, ApplyAll(s, one), one, m.uuid, FateOf(m, answers))
  {
    var u, one := m.uuid, ReplayOne(m, answers);
    if m.error.Some? {
      RejectScript(s, u, Entry(RejectedBadSidecar(m.error.value), u));
    } else {
      var x := answers(u);
      assert one == [Send(u, x)] + one[1..];
      assert Send(u, x) in one;
      SendFirst(s, u, x, one[1..]);
      match Classify(x)
      case Refused => RejectScript(s, u, Entry(ApiRejected422, u));
      case Retry => assert one[1..] == [];
      case Gone => RemoveScript(s, Main, u, GoneAtApi, Entry(ApiDropped410, u));
      case _ => RemoveScript(s, Main, u, Delivered, Entry(ApiDropped410, u));
    }
  }

  lemma ReplayEnds(s: Dirs, pre: seq<Op>, post: seq<Op>, m: Msg, answers: Uuid -> Exchange)
    requires Paired(s.main, m.uuid) && Clear(pre, Main, m.uuid) && Clear(post, Main, m.uuid) && KeepsRejected(post)
    ensures var ops := pre + ReplayOne(m, answers) + post;
            Ends(s, ApplyAll(s, ops), ops, m.uuid, FateOf(m, answers))
  {
    var one := ReplayOne(m, answers);
    OnlyItsOwnOpsCount(s, pre, one, post, Main, m.uuid);
    OneEnds(ApplyAll(s, pre), m, answers);
    assert forall op | op in one :: op in pre + one + post;
  }

  // ----- a whole pass -----

  /** The leftovers a scan lists, of both directories. */
  function AllOrphans(s: Dirs, i: Inputs): seq<Orphan> {
    Orphans(i.mainNames, Main, s.main) + Orphans(i.rejectedNames, Rejected, s.rejected)
  }

  /** The parts of a pass: what the age cap, the size cap, the sweep and the replay
      do. */
  datatype Parts = Parts(agedRejected: seq<Op>, agedPending: seq<Op>, evicted: seq<Op>, swept: seq<Op>, replayed: seq<Op>)

  function PartsOf(decode: Bytes -> Doc, cfg: Config, s: Dirs, c: Control, i: Inputs): Parts {
    var ms, rs := Messages(decode, s.main, i.mainNames), Messages(decode, s.rejected, i.rejectedNames);
    var k := Evict(cfg.maxBytes, Young(cfg, ms, i.now), Young(cfg, rs, i.now));
    var a, b := AgeOps(cfg, rs, Rejected, i.now), AgeOps(cfg, ms, Main, i.now);
    Parts(a, b, k.ops,
          SweepOps(cfg, ApplyAll(s, a + b + k.ops), AllOrphans(s, i), i.now),
          if Goes(cfg, c, PassOf(decode, cfg, s, i)) then Replay(k.pending, i.answers) else [])
  }

  function Joined(p: Parts): seq<Op> {
    p.agedRejected + p.agedPending + p.evicted + p.swept + p.replayed
  }

  lemma NoOrphanOfAPair(cfg: Config, s: Dirs, i: Inputs, u: Uuid, o: Orphan)
    requires Listed(s, i) && Paired(s.main, u) && o in AllOrphans(s, i)
    ensures Spares(cfg, o, i.now, Main, u)
  {
    if o in Orphans(i.mainNames, Main, s.main) {
      OrphansAreHalves(i.mainNames, Main, s.main, o);
    } else {
      OrphansAreHalves(i.rejectedNames, Rejected, s.rejected, o);
    }
  }

  lemma SweptClear(decode: Bytes -> Doc, cfg: Config, s: Dirs, c: Control, i: Inputs, u: Uuid)
    requires Listed(s, i) && Paired(s.main, u)
    ensures Clear(PartsOf(decode, cfg, s, c, i).swept, Main, u)
  {
    forall o | o in AllOrphans(s, i)
      ensures Spares(cfg, o, i.now, Main, u)
    {
      NoOrphanOfAPair(cfg, s, i, u, o);
    }
    var p := PartsOf(decode, cfg, s, c, i);
    SweepClear(cfg, ApplyAll(s, p.agedRejected + p.agedPending + p.evicted), AllOrphans(s, i), i.now, Main, u);
  }

  /** The age cap takes the message. */
  lemma AgedEnds(s: Dirs, p: Parts, pre: seq<Op>, post: seq<Op>, u: Uuid)
    requires p.agedPending == pre + (RemovePair(Main, u, Aged) + [Write(Entry(DroppedAge(Main), u))]) + post
    requires Clear(p.agedRejected, Main, u) && Clear(pre, Main, u) && Clear(post, Main, u)
    requires Clear(p.evicted, Main, u) && Clear(p.swept, Main, u) && Clear(p.replayed, Main, u)
    ensures Ends(s, ApplyAll(s, Joined(p)), Joined(p), u, Dropped(DroppedAge(Main)))
  {
    var one := RemovePair(Main, u, Aged) + [Write(Entry(DroppedAge(Main), u))];
    assert Joined(p) == (p.agedRejected + pre) + one + (post + p.evicted + p.swept + p.replayed);
    DropEnds(s, p.agedRejected + pre, post + p.evicted + p.swept + p.replayed, u, Aged, DroppedAge(Main));
  }

  lemma EvictedEnds(s: Dirs, p: Parts, pre: seq<Op>, post: seq<Op>, m: Msg, left: int)
    requires p.evicted == pre + DropForSize(m, Main, left) + post
    requires Clear(p.agedRejected, Main, m.uuid) && Clear(p.agedPending, Main, m.uuid) && Clear(pre, Main, m.uuid) && Clear(post, Main, m.uuid)
    requires Clear(p.swept, Main, m.uuid) && Clear(p.replayed, Main, m.uuid)
    ensures Ends(s, ApplyAll(s, Joined(p)), Joined(p), m.uuid, Dropped(DroppedSize(Main, left)))
  {
    var before, after := p.agedRejected + p.agedPending + pre, post + p.swept + p.replayed;
    assert Joined(p) == before + DropForSize(m, Main, left) + after;
    DropEnds(s, before, after, m.uuid, OverCap, DroppedSize(Main, left));
  }

  lemma ReplayedEnds(s: Dirs, p: Parts, pre: seq<Op>, post: seq<Op>, m: Msg, answers: Uuid -> Exchange)
    requires p.replayed == pre + ReplayOne(m, answers) + post && KeepsRejected(post)
    requires Clear(p.agedRejected, Main, m.uuid) && Clear(p.agedPending, Main, m.uuid) && Clear(p.evicted, Main, m.uuid)
    requires Clear(p.swept, Main, m.uuid) && Clear(pre, Main, m.uuid) && Clear(post, Main, m.uuid) && Paired(s.main, m.uuid)
    ensures Ends(s, ApplyAll(s, Joined(p)), Joined(p), m.uuid, FateOf(m, answers))
  {
    var before := p.agedRejected + p.agedPending + p.evicted + p.swept + pre;
    assert Joined(p) == before + ReplayOne(m, answers) + post;
    ReplayEnds(s, before, post, m, answers);
  }

  lemma UntouchedEnds(s: Dirs, p: Parts, u: Uuid)
    requires Clear(p.agedRejected, Main, u) && Clear(p.agedPending, Main, u) && Clear(p.evicted, Main, u)
    requires Clear(p.swept, Main, u) && Clear(p.replayed, Main, u)
    ensures Ends(s, ApplyAll(s, Joined(p)), Joined(p), u, Pending)
  {
    ClearChangesNothing(s, Joined(p), Main, u);
  }

  lemma ReplayedClear(cfg: Config, c: Control, p: Pass, on: Dir, u: Uuid)
    requires !Holds(p.queue, u)
    ensures Clear(if Goes(cfg, c, p) then Replay(p.queue, p.answers) else [], on, u)
  {
    assert forall i | 0 <= i < Reached(p.queue, p.answers) :: p.queue[..Reached(p.queue, p.answers)][i].uuid == p.queue[i].uuid;
    ReplayClear(p.queue[..Reached(p.queue, p.answers)], p.answers, on, u);
  }

  /** The parts of a pass over these messages. */
  ghost predicate Fits(cfg: Config, c: Control, ms: seq<Msg>, rs: seq<Msg>, p: Parts, pass: Pass) {
    var k := Evict(cfg.maxBytes, Young(cfg, ms, pass.now), Young(cfg, rs, pass.now));
    && p.agedRejected == AgeOps(cfg, rs, Rejected, pass.now)
    && p.agedPending == AgeOps(cfg, ms, Main, pass.now)
    && p.evicted == k.ops
    && pass.queue == k.pending
    && p.replayed == if Goes(cfg, c, pass) then Replay(pass.queue, pass.answers) else []
  }

  lemma PartsFit(decode: Bytes -> Doc, cfg: Config, s: Dirs, c: Control, i: Inputs)
    ensures PassOps(decode, cfg, s, c, i) == Joined(PartsOf(decode, cfg, s, c, i))
    ensures Fits(cfg, c, Messages(decode, s.main, i.mainNames), Messages(decode, s.rejected, i.rejectedNames),
                 PartsOf(decode, cfg, s, c, i), PassOf(decode, cfg, s, i))
  {
  }

  lemma OnlyOneHas(ms: seq<Msg>, m: Msg)
    requires OneEach(ms) && m in ms
    ensures forall x | x in ms :: x.uuid == m.uuid ==> x == m
  {
    var j :| 0 <= j < |ms| && ms[j] == m;
    forall i | 0 <= i < |ms|
      ensures ms[i].uuid == m.uuid ==> i == j
    {
      assert i < j || i == j || j < i;
    }
  }

  lemma YoungHold(cfg: Config, ms: seq<Msg>, m: Msg, now: real)
    requires OneEach(ms) && m in ms
    ensures OneEach(Young(cfg, ms, now))
    ensures if TooOld(cfg, m, now) then !Holds(Young(cfg, ms, now), m.uuid) else m in Young(cfg, ms, now)
  {
    YoungAreKept(cfg, ms, now);
    YoungKeepsOrder(cfg, ms, now);
    OnlyOneHas(ms, m);
    assert forall i | 0 <= i < |Young(cfg, ms, now)| :: Young(cfg, ms, now)[i] in Young(cfg, ms, now);
  }

  lemma KeptEnds(cfg: Config, c: Control, s: Dirs, p: Parts, pass: Pass, m: Msg)
    requires m in pass.queue && OneEach(pass.queue) && Paired(s.main, m.uuid)
    requires Clear(p.agedRejected, Main, m.uuid) && Clear(p.agedPending, Main, m.uuid) && Clear(p.evicted, Main, m.uuid) && Clear(p.swept, Main, m.uuid)
    requires p.replayed == if Goes(cfg, c, pass) then Replay(pass.queue, pass.answers) else []
    ensures Ends(s, ApplyAll(s, Joined(p)), Joined(p), m.uuid,
                 if Goes(cfg, c, pass) && m in Tried(pass) then FateOf(m, pass.answers) else Pending)
  {
    if Goes(cfg, c, pass) && m in Tried(pass) {
      var tried := Tried(pass);
      var j :| 0 <= j < |tried| && tried[j] == m;
      var pre, post := ReplayTakes(tried, pass.answers, Main, j);
      ReplayedEnds(s, p, pre, post, m, pass.answers);
    } else {
      if Goes(cfg, c, pass) {
        OnlyOneHas(pass.queue, m);
        assert forall i | 0 <= i < |Tried(pass)| :: Tried(pass)[i] in Tried(pass) && Tried(pass)[i] in pass.queue;
        ReplayClear(Tried(pass), pass.answers, Main, m.uuid);
      }
      UntouchedEnds(s, p, m.uuid);
    }
  }

  /** A message the age cap spares: the size cap takes it, the replay reaches it, or
      it stays. */
  lemma SparedEnds(cfg: Config, c: Control, s: Dirs, ms: seq<Msg>, rs: seq<Msg>, p: Parts, pass: Pass, m: Msg)
    requires Fits(cfg, c, ms, rs, p, pass) && Clear(p.swept, Main, m.uuid) && Paired(s.main, m.uuid)
    requires OneEach(ms) && m in ms && !TooOld(cfg, m, pass.now)
    ensures Ends(s, ApplyAll(s, Joined(p)), Joined(p), m.uuid, FateIn(cfg, c, ms, pass, m))
  {
    var u, young, others := m.uuid, Young(cfg, ms, pass.now), Young(cfg, rs, pass.now);
    SparedByAge(cfg, ms, rs, pass.now, m);
    var j :| 0 <= j < |young| && young[j] == m;
    var pre, post := EvictSettles(cfg.maxBytes, young, others, j);
    KeptIffItFits(cfg.maxBytes, young, others, j);
    FromIs(young, j);
    assert young[j..][1..] == young[j + 1..];
    if !Holds(pass.queue, u) {
      ReplayedClear(cfg, c, pass, Main, u);
      EvictedEnds(s, p, pre, post, m, Sum(young[j + 1..]));
    } else {
      QueueIsOnce(cfg.maxBytes, young, others);
      KeptEnds(cfg, c, s, p, pass, m);
    }
  }

  lemma SparedByAge(cfg: Config, ms: seq<Msg>, rs: seq<Msg>, now: real, m: Msg)
    requires OneEach(ms) && m in ms && !TooOld(cfg, m, now)
    ensures OneEach(Young(cfg, ms, now)) && m in Young(cfg, ms, now)
    ensures Clear(AgeOps(cfg, rs, Rejected, now), Main, m.uuid) && Clear(AgeOps(cfg, ms, Main, now), Main, m.uuid)
  {
    YoungHold(cfg, ms, m, now);
    OnlyOneHas(ms, m);
    AgeClear(cfg, rs, Rejected, now, Main, m.uuid);
    AgeClear(cfg, ms, Main, now, Main, m.uuid);
  }

  lemma QueueIsOnce(cap: nat, pending: seq<Msg>, rejected: seq<Msg>)
    requires OneEach(pending)
    ensures OneEach(Evict(cap, pending, rejected).pending)
  {
    PendingIsATail(cap, pending, rejected);
  }

  lemma OldEnds(cfg: Config, c: Control, s: Dirs, ms: seq<Msg>, rs: seq<Msg>, p: Parts, pass: Pass, m: Msg)
    requires Fits(cfg, c, ms, rs, p, pass) && Clear(p.swept, Main, m.uuid)
    requires OneEach(ms) && m in ms && TooOld(cfg, m, pass.now)
    ensures Ends(s, ApplyAll(s, Joined(p)), Joined(p), m.uuid, Dropped(DroppedAge(Main)))
  {
    var u, young, others := m.uuid, Young(cfg, ms, pass.now), Young(cfg, rs, pass.now);
    YoungHold(cfg, ms, m, pass.now);
    AgeClear(cfg, rs, Rejected, pass.now, Main, u);
    EvictClear(cfg.maxBytes, young, others, Main, u);
    ReplayedClear(cfg, c, pass, Main, u);
    var j :| 0 <= j < |ms| && ms[j] == m;
    var pre, post := AgeTakes(cfg, ms, Main, pass.now, j);
    AgedEnds(s, p, pre, post, u);
  }

  lemma EndsDiffer(s: Dirs, s': Dirs, ops: seq<Op>, u: Uuid, f: Fate, g: Fate)
    requires Paired(s.main, u) && Ends(s, s', ops, u, f) && Ends(s, s', ops, u, g)
    ensures f == g
  {
  }

  /** This fate and no other. */
  ghost predicate EndsOnly(s: Dirs, s': Dirs, ops: seq<Op>, u: Uuid, f: Fate) {
    Ends(s, s', ops, u, f) && forall g :: Ends(s, s', ops, u, g) ==> g == f
  }

  lemma OneFate(s: Dirs, s': Dirs, ops: seq<Op>, u: Uuid, f: Fate)
    requires Paired(s.main, u) && Ends(s, s', ops, u, f)
    ensures EndsOnly(s, s', ops, u, f)
  {
    forall g | Ends(s, s', ops, u, g)
      ensures g == f
    {
      EndsDiffer(s, s', ops, u, g, f);
    }
  }

  lemma Scanned(decode: Bytes -> Doc, d: Disk, names: seq<Name>, u: Uuid)
    requires Listing(names, d)
    ensures OneEach(Messages(decode, d, names))
    ensures if Paired(d, u) then Load(decode, d, u) in Messages(decode, d, names) else !Holds(Messages(decode, d, names), u)
  {
    ScanFindsThePairs(decode, d, names);
  }

  /** A pass that no crash cuts short gives every complete pair it saw exactly one
      fate, and which one is decided by what was scanned and answered: dropped for its
      age, dropped because it does not fit together with all newer ones, what its answer
      says if the replay gets to it, or still pending and untouched. What is dropped or
      set aside has one journal line, the others none. */
  lemma {:induction false} EveryMessageEndsOnce(decode: Bytes -> Doc, cfg: Config, s: Dirs, c: Control, i: Inputs, u: Uuid)
    requires Listed(s, i) && Paired(s.main, u)
    ensures var ops, ms := PassOps(decode, cfg, s, c, i), Messages(decode, s.main, i.mainNames);
            EndsOnly(s, ApplyAll(s, ops), ops, u, FateIn(cfg, c, ms, PassOf(decode, cfg, s, i), Load(decode, s.main, u)))
  {
    var ms, p, pass := Messages(decode, s.main, i.mainNames), PartsOf(decode, cfg, s, c, i), PassOf(decode, cfg, s, i);
    var rs := Messages(decode, s.rejected, i.rejectedNames);
    var m := Load(decode, s.main, u);
    Scanned(decode, s.main, i.mainNames, u);
    PartsFit(decode, cfg, s, c, i);
    SweptClear(decode, cfg, s, c, i, u);
    MessageEnds(cfg, c, s, ms, rs, p, pass, m);
  }

  lemma MessageEnds(cfg: Config, c: Control, s: Dirs, ms: seq<Msg>, rs: seq<Msg>, p: Parts, pass: Pass, m: Msg)
    requires Fits(cfg, c, ms, rs, p, pass) && Clear(p.swept, Main, m.uuid) && Paired(s.main, m.uuid)
    requires OneEach(ms) && m in ms
    ensures EndsOnly(s, ApplyAll(s, Joined(p)), Joined(p), m.uuid, FateIn(cfg, c, ms, pass, m))
  {
    if TooOld(cfg, m, pass.now) {
      OldEnds(cfg, c, s, ms, rs, p, pass, m);
    } else {
      SparedEnds(cfg, c, s, ms, rs, p, pass, m);
    }
    OneFate(s, ApplyAll(s, Joined(p)), Joined(p), m.uuid, FateIn(cfg, c, ms, pass, m));
  }

  // ----- a removal by a cap is due, even in a pass that is cut short -----

  ghost predicate NoCapRemoval(ops: seq<Op>) {
    forall op | op in ops :: op.Remove? ==> op.why != Aged && op.why != OverCap
  }

  /** Every file the age cap removes belongs to one of these messages, too old. */
  ghost predicate AgedAreDue(ops: seq<Op>, cfg: Config, ms: seq<Msg>, now: real) {
    forall op | op in ops && op.Remove? && op.why == Aged :: exists m :: m in ms && IsOf(op.name, m.uuid) && TooOld(cfg, m, now)
  }

  /** Every file the size cap removes belongs to one of its victims. */
  ghost predicate EvictedAreDue(ops: seq<Op>, all: seq<Msg>, n: nat)
    requires n <= |all|
  {
    forall op | op in ops && op.Remove? :: op.why == OverCap && exists j :: 0 <= j < n && IsOf(op.name, all[j].uuid)
  }

  lemma {:induction false} AgeIsDue(cfg: Config, ms: seq<Msg>, dir: Dir, now: real)
    ensures AgedAreDue(AgeOps(cfg, ms, dir, now), cfg, ms, now)
    ensures forall op | op in AgeOps(cfg, ms, dir, now) :: op.Remove? ==> op.why == Aged && op.dir == dir
  {
    if ms != [] {
      var init, m := ms[..|ms| - 1], ms[|ms| - 1];
      AgeIsDue(cfg, init, dir, now);
      assert forall x | x in init :: x in ms;
      assert m in ms && IsOf(Cms(m.uuid), m.uuid) && IsOf(Json(m.uuid), m.uuid);
    }
  }

  lemma VictimIsDue(m: Msg, dir: Dir, left: int, rest: seq<Op>, all: seq<Msg>, n: nat)
    requires 0 < n <= |all| && all[0] == m && EvictedAreDue(rest, all[1..], n - 1)
    ensures EvictedAreDue(DropForSize(m, dir, left) + rest, all, n)
  {
    var ops := DropForSize(m, dir, left) + rest;
    forall op | op in ops && op.Remove?
      ensures op.why == OverCap && exists j :: 0 <= j < n && IsOf(op.name, all[j].uuid)
    {
      if op in DropForSize(m, dir, left) {
        assert IsOf(op.name, all[0].uuid);
      } else {
        var j :| 0 <= j < n - 1 && IsOf(op.name, all[1..][j].uuid);
        assert IsOf(op.name, all[j + 1].uuid);
      }
    }
  }

  lemma {:induction false} EvictIsDue(cap: nat, pending: seq<Msg>, rejected: seq<Msg>)
    ensures EvictedAreDue(Evict(cap, pending, rejected).ops, rejected + pending, Victims(cap, pending, rejected))
    decreases |pending| + |rejected|
  {
    var all, n, total := rejected + pending, Victims(cap, pending, rejected), Sum(pending) + Sum(rejected);
    if total <= cap || (rejected == [] && pending == []) {
    } else if rejected != [] {
      EvictIsDue(cap, pending, rejected[1..]);
      assert all[1..] == rejected[1..] + pending;
      VictimIsDue(rejected[0], Rejected, total - rejected[0].size, Evict(cap, pending, rejected[1..]).ops, all, n);
    } else {
      EvictIsDue(cap, pending[1..], []);
      assert all[1..] == [] + pending[1..];
      VictimIsDue(pending[0], Main, total - pending[0].size, Evict(cap, pending[1..], []).ops, all, n);
    }
  }

  lemma {:induction false} SweepIsNoCap(cfg: Config, s: Dirs, os: seq<Orphan>, now: real)
    ensures NoCapRemoval(SweepOps(cfg, s, os, now))
  {
    if os != [] {
      SweepIsNoCap(cfg, s, os[..|os| - 1], now);
    }
  }

  lemma OneIsNoCap(m: Msg, answers: Uuid -> Exchange)
    ensures NoCapRemoval(ReplayOne(m, answers))
  {
  }

  lemma {:induction false} ReplayIsNoCap(ms: seq<Msg>, answers: Uuid -> Exchange)
    ensures NoCapRemoval(ReplayEach(ms, answers))
  {
    if ms != [] {
      ReplayIsNoCap(ms[..|ms| - 1], answers);
      OneIsNoCap(ms[|ms| - 1], answers);
    }
  }

  /** A file marked as removed by the age cap belongs to a message that is too old,
      and one marked as removed by the size cap to one of the victims. */
  ghost predicate CapsAreDue(op: Op, cfg: Config, ms: seq<Msg>, rs: seq<Msg>, now: real) {
    var p, r := Young(cfg, ms, now), Young(cfg, rs, now);
    && (op.Remove? && op.why == Aged ==>
          exists m :: m in (if op.dir == Main then ms else rs) && IsOf(op.name, m.uuid) && TooOld(cfg, m, now))
    && (op.Remove? && op.why == OverCap ==>
          exists j :: 0 <= j < Victims(cfg.maxBytes, p, r) && IsOf(op.name, (r + p)[j].uuid))
  }

  lemma PartsAreDue(cfg: Config, c: Control, ms: seq<Msg>, rs: seq<Msg>, p: Parts, pass: Pass, op: Op)
    requires Fits(cfg, c, ms, rs, p, pass) && NoCapRemoval(p.swept) && op in Joined(p)
    ensures CapsAreDue(op, cfg, ms, rs, pass.now)
  {
    AgeIsDue(cfg, ms, Main, pass.now);
    AgeIsDue(cfg, rs, Rejected, pass.now);
    EvictIsDue(cfg.maxBytes, Young(cfg, ms, pass.now), Young(cfg, rs, pass.now));
    ReplayIsNoCap(pass.queue[..Reached(pass.queue, pass.answers)], pass.answers);
  }

  /** Whatever part of a pass is done before a crash, the caps remove only what they
      are meant to. */
  lemma CapsRemoveOnlyWhatIsDue(decode: Bytes -> Doc, cfg: Config, s: Dirs, c: Control, i: Inputs)
    ensures forall op | op in PassOps(decode, cfg, s, c, i) ::
              CapsAreDue(op, cfg, Messages(decode, s.main, i.mainNames), Messages(decode, s.rejected, i.rejectedNames), i.now)
  {
    var p := PartsOf(decode, cfg, s, c, i);
    var ms, rs := Messages(decode, s.main, i.mainNames), Messages(decode, s.rejected, i.rejectedNames);
    PartsFit(decode, cfg, s, c, i);
    SweepIsNoCap(cfg, ApplyAll(s, p.agedRejected + p.agedPending + p.evicted),
                 Orphans(i.mainNames, Main, s.main) + Orphans(i.rejectedNames, Rejected, s.rejected), i.now);
    forall op | op in Joined(p)
      ensures CapsAreDue(op, cfg, ms, rs, i.now)
    {
      PartsAreDue(cfg, c, ms, rs, p, PassOf(decode, cfg, s, i), op);
    }
  }
}
