/** The sealed-voicemail spool as data: two directories of files, what a scan
    finds in them, and the file operations, journal lines and requests that one
    forwarder pass is made of. */
module Spool {
  import opened Wrappers
  import opened Ordering

  type Uuid = string
  type Bytes = seq<bv8>

  /** A file name, told apart by its ending and by whether the rest is a UUIDv4. */
  datatype Name = Cms(uuid: Uuid) | Json(uuid: Uuid) | Tmp(stem: string) | Other(name: string)

  datatype File = File(bytes: Bytes, mtime: real)
  type Disk = map<Name, File>
  datatype Dir = Main | Rejected
  datatype Dirs = Dirs(main: Disk, rejected: Disk)

  /** What decoding a sidecar gives; a JSON value that is no object has no fields,
      and a `received_at` that is no zoned ISO-8601 string is None. */
  datatype Doc = NotJson | Fields(msgUuid: Option<string>, receivedAt: Option<real>, mailboxId: Option<int>)

  datatype Flaw = Unreadable | TooLarge | NotADocument | WrongUuid | BadReceivedAt

  datatype Msg = Msg(uuid: Uuid, size: nat, received: real, mailboxId: Option<int>, sidecar: Bytes, error: Option<Flaw>)

  datatype Config = Config(maxAge: real, maxBytes: nat, scanInterval: real, backoffMin: real, backoffMax: real, orphanAge: real)

  const SIDECAR_MAX := 4096

  function Contents(s: Dirs, dir: Dir): Disk {
    if dir == Main then s.main else s.rejected
  }

  // ----- scanning -----

  predicate Paired(d: Disk, u: Uuid) {
    Cms(u) in d && Json(u) in d
  }

  /** A directory listing: every name once, in any order. */
  ghost predicate Listing(names: seq<Name>, d: Disk) {
    NoDup(names) && forall n :: n in names <==> n in d
  }

  function Mtime(d: Disk, n: Name): real {
    if n in d then d[n].mtime else 0.0
  }

  function Load(decode: Bytes -> Doc, d: Disk, u: Uuid): (m: Msg)
    ensures m.uuid == u
  {
    var size := if Paired(d, u) then |d[Cms(u)].bytes| + |d[Json(u)].bytes| else 0;
    var bad := (e: Flaw) => Msg(u, size, Mtime(d, Cms(u)), None, [], Some(e));
    if Json(u) !in d then bad(Unreadable)
    else if |d[Json(u)].bytes| > SIDECAR_MAX then bad(TooLarge)
    else match decode(d[Json(u)].bytes)
      case NotJson => bad(NotADocument)
      case Fields(id, at, mailbox) =>
        if id != Some(u) then bad(WrongUuid)
        else if at.None? then bad(BadReceivedAt)
        else Msg(u, size, at.value, mailbox, d[Json(u)].bytes, None)
  }

  datatype Key = Key(received: real, uuid: Uuid)

  predicate KeyLe(a: Key, b: Key) {
    a.received < b.received || (a.received == b.received && StringLe(a.uuid, b.uuid))
  }

  function CmsStems(names: seq<Name>): seq<Uuid> {
    if names == [] then [] else CmsStems(names[..|names| - 1]) + match names[|names| - 1] case Cms(u) => [u] case _ => []
  }

  function JsonStems(names: seq<Name>): seq<Uuid> {
    if names == [] then [] else JsonStems(names[..|names| - 1]) + match names[|names| - 1] case Json(u) => [u] case _ => []
  }

  function Tmps(names: seq<Name>): seq<Name> {
    if names == [] then [] else Tmps(names[..|names| - 1]) + if names[|names| - 1].Tmp? then [names[|names| - 1]] else []
  }

  function In(us: seq<Uuid>, other: seq<Uuid>): seq<Uuid> {
    if us == [] then [] else In(us[..|us| - 1], other) + if us[|us| - 1] in other then [us[|us| - 1]] else []
  }

  datatype Orphan = Orphan(dir: Dir, name: Name, mtime: real)

  function LoneCms(us: seq<Uuid>, js: seq<Uuid>, dir: Dir, d: Disk): seq<Orphan> {
    if us == [] then []
    else
      var u := us[|us| - 1];
      LoneCms(us[..|us| - 1], js, dir, d) + if u in js then [] else [Orphan(dir, Cms(u), Mtime(d, Cms(u)))]
  }

  function LoneJson(us: seq<Uuid>, cms: seq<Uuid>, dir: Dir, d: Disk): seq<Orphan> {
    if us == [] then []
    else
      var u := us[|us| - 1];
      LoneJson(us[..|us| - 1], cms, dir, d) + if u in cms then [] else [Orphan(dir, Json(u), Mtime(d, Json(u)))]
  }

  function Leftovers(ns: seq<Name>, dir: Dir, d: Disk): seq<Orphan> {
    if ns == [] then []
    else Leftovers(ns[..|ns| - 1], dir, d) + [Orphan(dir, ns[|ns| - 1], Mtime(d, ns[|ns| - 1]))]
  }

  function Pairs(names: seq<Name>): seq<Uuid> {
    In(CmsStems(names), JsonStems(names))
  }

  function Orphans(names: seq<Name>, dir: Dir, d: Disk): seq<Orphan> {
    var cms, js := CmsStems(names), JsonStems(names);
    LoneCms(cms, js, dir, d) + LoneJson(js, cms, dir, d) + Leftovers(Tmps(names), dir, d)
  }

  function KeyOf(m: Msg): Key {
    Key(m.received, m.uuid)
  }

  function Keys(decode: Bytes -> Doc, d: Disk, us: seq<Uuid>): seq<Key> {
    if us == [] then [] else Keys(decode, d, us[..|us| - 1]) + [KeyOf(Load(decode, d, us[|us| - 1]))]
  }

  function LoadAll(decode: Bytes -> Doc, d: Disk, ks: seq<Key>): (ms: seq<Msg>)
    ensures |ms| == |ks| && forall i | 0 <= i < |ks| :: ms[i] == Load(decode, d, ks[i].uuid)
  {
    seq(|ks|, i requires 0 <= i < |ks| => Load(decode, d, ks[i].uuid))
  }

  /** The complete pairs of a directory, oldest first. */
  function Messages(decode: Bytes -> Doc, d: Disk, names: seq<Name>): seq<Msg> {
    LoadAll(decode, d, Sort(KeyLe, Keys(decode, d, Pairs(names))))
  }

  // ----- what a pass does -----

  /** How one attempt to POST a message ends. The first three never reach the
      wire; NoAnswer may have reached the API and lost the reply. `status` of an
      answer's JSON object is None when there is none. */
  datatype Exchange =
    | NotConfigured
    | NoSecret
    | BlobUnreadable
    | NoAnswer
    | Answered(code: int, status: Option<string>)

  datatype Outcome = Stored | Duplicate | Gone | Refused | Retry

  function Classify(x: Exchange): Outcome {
    if !x.Answered? then Retry
    else if x.code in {200, 201} && x.status in {Some("stored"), Some("duplicate")} then
      if x.code == 201 then Stored else Duplicate
    else if x.code == 410 then Gone
    else if x.code == 422 then Refused
    else Retry
  }

  // What an answer says, by its code and status alone.

  predicate SaysHeld(x: Exchange) {
    x.Answered? && (x.code == 200 || x.code == 201) && (x.status == Some("stored") || x.status == Some("duplicate"))
  }

  predicate SaysGone(x: Exchange) {
    x.Answered? && x.code == 410
  }

  predicate SaysRefused(x: Exchange) {
    x.Answered? && x.code == 422
  }

  predicate IsFailure(x: Exchange) {
    !SaysHeld(x) && !SaysGone(x) && !SaysRefused(x)
  }

  /** The outcome is the one the answer's code and status stand for: 201 with a status
      of "stored" or "duplicate" counts as stored and 200 as a duplicate, 410 as gone,
      422 as refused, and everything else is tried again. */
  lemma OutcomeIsByCode(x: Exchange)
    ensures Classify(x) == Stored <==> SaysHeld(x) && x.code == 201
    ensures Classify(x) == Duplicate <==> SaysHeld(x) && x.code == 200
    ensures Classify(x) == Gone <==> SaysGone(x)
    ensures Classify(x) == Refused <==> SaysRefused(x)
    ensures Classify(x) == Retry <==> IsFailure(x)
  {
  }

  datatype Event =
    | DroppedAge(where: Dir)
    | DroppedSize(where: Dir, spoolBytes: int)
    | OrphanNoMetadata
    | RejectedBadSidecar(flaw: Flaw)
    | ApiDropped410
    | ApiRejected422

  datatype Entry = Entry(event: Event, uuid: Uuid)

  /** Why a file is removed. */
  datatype Why = Delivered | GoneAtApi | Aged | OverCap | Leftover

  /** The steps a crash can fall between. */
  datatype Op =
    | Remove(dir: Dir, name: Name, why: Why)
    | Reject(name: Name)
    | Write(entry: Entry)
    | Send(uuid: Uuid, exchange: Exchange)

  function Apply(s: Dirs, op: Op): Dirs {
    match op
    case Remove(Main, n, _) => s.(main := s.main - {n})
    case Remove(Rejected, n, _) => s.(rejected := s.rejected - {n})
    case Reject(n) => if n in s.main then Dirs(s.main - {n}, s.rejected[n := s.main[n]]) else s
    case _ => s
  }

  function ApplyAll(s: Dirs, ops: seq<Op>): Dirs {
    if ops == [] then s else Apply(ApplyAll(s, ops[..|ops| - 1]), ops[|ops| - 1])
  }

  function Written(ops: seq<Op>): seq<Entry> {
    if ops == [] then []
    else Written(ops[..|ops| - 1]) + match ops[|ops| - 1] case Write(e) => [e] case _ => []
  }

  lemma {:induction false} ApplyConcat(s: Dirs, a: seq<Op>, b: seq<Op>)
    ensures ApplyAll(s, a + b) == ApplyAll(ApplyAll(s, a), b)
    ensures Written(a + b) == Written(a) + Written(b)
  {
    if b == [] {
      assert a + b == a;
    } else {
      assert (a + b)[..|a + b| - 1] == a + b[..|b| - 1];
      ApplyConcat(s, a, b[..|b| - 1]);
    }
  }

  /** Ciphertext first, so that metadata outlives it. */
  function RemovePair(dir: Dir, u: Uuid, why: Why): seq<Op> {
    [Remove(dir, Cms(u), why), Remove(dir, Json(u), why)]
  }

  function RejectPair(u: Uuid): seq<Op> {
    [Reject(Json(u)), Reject(Cms(u))]
  }

  predicate TooOld(cfg: Config, m: Msg, now: real) {
    now - m.received > cfg.maxAge
  }

  function AgeOps(cfg: Config, ms: seq<Msg>, dir: Dir, now: real): seq<Op> {
    if ms == [] then []
    else
      var m := ms[|ms| - 1];
      AgeOps(cfg, ms[..|ms| - 1], dir, now)
      + if TooOld(cfg, m, now) then RemovePair(dir, m.uuid, Aged) + [Write(Entry(DroppedAge(dir), m.uuid))] else []
  }

  function Young(cfg: Config, ms: seq<Msg>, now: real): seq<Msg> {
    if ms == [] then []
    else
      var m := ms[|ms| - 1];
      Young(cfg, ms[..|ms| - 1], now) + if TooOld(cfg, m, now) then [] else [m]
  }

  function Sum(ms: seq<Msg>): nat {
    if ms == [] then 0 else ms[0].size + Sum(ms[1..])
  }

  datatype Kept = Kept(ops: seq<Op>, pending: seq<Msg>, rejected: seq<Msg>)

  function DropForSize(m: Msg, dir: Dir, left: int): seq<Op> {
    RemovePair(dir, m.uuid, OverCap) + [Write(Entry(DroppedSize(dir, left), m.uuid))]
  }

  /** While over the cap, the oldest rejected goes, then the oldest pending. */
  function Evict(cap: nat, pending: seq<Msg>, rejected: seq<Msg>): Kept
    decreases |pending| + |rejected|
  {
    var total := Sum(pending) + Sum(rejected);
    if total <= cap || (rejected == [] && pending == []) then Kept([], pending, rejected)
    else if rejected != [] then
      var k := Evict(cap, pending, rejected[1..]);
      k.(ops := DropForSize(rejected[0], Rejected, total - rejected[0].size) + k.ops)
    else
      var k := Evict(cap, pending[1..], []);
      k.(ops := DropForSize(pending[0], Main, total - pending[0].size) + k.ops)
  }

  /** What the sweep does with one leftover, given the directories as they are. */
  function SweepOne(cfg: Config, s: Dirs, o: Orphan, now: real): seq<Op> {
    if now - o.mtime <= cfg.orphanAge || o.name !in Contents(s, o.dir) then []
    else if o.name.Cms? && o.dir == Main then [Reject(o.name), Write(Entry(OrphanNoMetadata, o.name.uuid))]
    else [Remove(o.dir, o.name, Leftover)]
  }

  function SweepOps(cfg: Config, s: Dirs, os: seq<Orphan>, now: real): seq<Op> {
    if os == [] then []
    else
      var before := SweepOps(cfg, s, os[..|os| - 1], now);
      before + SweepOne(cfg, ApplyAll(s, before), os[|os| - 1], now)
  }

  function Enforce(cfg: Config, s: Dirs, pending: seq<Msg>, rejected: seq<Msg>, os: seq<Orphan>, now: real): Kept {
    var aged := AgeOps(cfg, rejected, Rejected, now) + AgeOps(cfg, pending, Main, now);
    var k := Evict(cfg.maxBytes, Young(cfg, pending, now), Young(cfg, rejected, now));
    var capped := aged + k.ops;
    k.(ops := capped + SweepOps(cfg, ApplyAll(s, capped), os, now))
  }

  /** What follows the outcome of sending a message. */
  function Settle(u: Uuid, o: Outcome): seq<Op> {
    match o
    case Stored => RemovePair(Main, u, Delivered)
    case Duplicate => RemovePair(Main, u, Delivered)
    case Gone => RemovePair(Main, u, GoneAtApi) + [Write(Entry(ApiDropped410, u))]
    case Refused => RejectPair(u) + [Write(Entry(ApiRejected422, u))]
    case Retry => []
  }

  /** What replaying one message does; `answers` is what the network would say. */
  function ReplayOne(m: Msg, answers: Uuid -> Exchange): seq<Op> {
    if m.error.Some? then RejectPair(m.uuid) + [Write(Entry(RejectedBadSidecar(m.error.value), m.uuid))]
    else [Send(m.uuid, answers(m.uuid))] + Settle(m.uuid, Classify(answers(m.uuid)))
  }

  predicate Stops(m: Msg, answers: Uuid -> Exchange) {
    m.error.None? && Classify(answers(m.uuid)) == Retry
  }

  /** How many messages a replay reaches: up to and with the first failure. */
  function Reached(ms: seq<Msg>, answers: Uuid -> Exchange): (n: nat)
    ensures n <= |ms|
    ensures forall i | 0 <= i < n - 1 :: !Stops(ms[i], answers)
    ensures n < |ms| ==> n > 0 && Stops(ms[n - 1], answers)
  {
    if ms == [] then 0
    else
      var n := Reached(ms[..|ms| - 1], answers);
      if n < |ms| - 1 || (n > 0 && Stops(ms[n - 1], answers)) then n else n + 1
  }

  function ReplayEach(ms: seq<Msg>, answers: Uuid -> Exchange): seq<Op> {
    if ms == [] then [] else ReplayEach(ms[..|ms| - 1], answers) + ReplayOne(ms[|ms| - 1], answers)
  }

  function Replay(ms: seq<Msg>, answers: Uuid -> Exchange): seq<Op> {
    ReplayEach(ms[..Reached(ms, answers)], answers)
  }
}
