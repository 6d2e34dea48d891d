/** Which call legs belong together: recorded B -> A links, the loop-guarded walk
    to the originating leg, and the groups, roles and attempt numbers built on it. */
module LegGraph {
  import opened Wrappers
  import opened Ordering

  type Links = map<string, string>

  // ----- the walk -----

  function RootFrom(links: Links, cur: string, seen: set<string>): string
    decreases links.Values - seen
  {
    if cur in links && links[cur] !in seen then
      assert links[cur] in links.Values;
      RootFrom(links, links[cur], seen + {links[cur]})
    else cur
  }

  function Root(links: Links, cid: string): string {
    RootFrom(links, cid, {cid})
  }

  function Added(links: Links, b: string, a: string): Links {
    if b == "" || a == "" || b == a || b in links then links else links[b := a]
  }

  /** A link is recorded if and only if neither end is empty, they differ, and the leg
      has none yet; nothing else changes. */
  lemma AddedIff(links: Links, b: string, a: string)
    ensures var l := Added(links, b, a);
            && (l != links <==> b != "" && a != "" && b != a && b !in links)
            && (l != links ==> l == links[b := a])
  {
    assert b !in links ==> b in links[b := a];
  }

  /** No leg is linked to itself; adding links keeps it so. */
  ghost predicate NoSelfLinks(links: Links) {
    forall b | b in links :: links[b] != b
  }

  class Graph {
    var bToA: Links

    constructor ()
      ensures bToA == map[]
    {
      bToA := map[];
    }

    method Add(b: string, a: string) returns (isNew: bool)
      modifies this
      ensures bToA == Added(old(bToA), b, a)
      ensures isNew <==> bToA != old(bToA)
      ensures NoSelfLinks(old(bToA)) ==> NoSelfLinks(bToA)
    {
      if b == "" || a == "" || b == a || b in bToA {
        return false;
      }
      bToA := bToA[b := a];
      assert b in bToA && b !in old(bToA);
      return true;
    }

    method FindRoot(cid: string) returns (cur: string)
      ensures cur == Root(bToA, cid)
    {
      var seen := {cid};
      cur := cid;
      while cur in bToA
        invariant RootFrom(bToA, cur, seen) == Root(bToA, cid)
        decreases bToA.Values - seen
      {
        var next := bToA[cur];
        if next in seen {
          break;
        }
        assert next in bToA.Values;
        seen := seen + {next};
        cur := next;
      }
    }
  }

  /** The leg `n` links away from `c`, if the chain is that long. */
  function Walk(links: Links, c: string, n: nat): Option<string>
    decreases n
  {
    if n == 0 then Some(c)
    else if c in links then Walk(links, links[c], n - 1)
    else None
  }

  /** The chain of links from `c` runs out. */
  ghost predicate Ends(links: Links, c: string) {
    exists n: nat :: Walk(links, c, n).None?
  }

  lemma {:induction false} WalkFurther(links: Links, c: string, i: nat, j: nat)
    requires Walk(links, c, i).Some?
    ensures Walk(links, c, i + j) == Walk(links, Walk(links, c, i).value, j)
    decreases i
  {
    if i > 0 {
      WalkFurther(links, links[c], i - 1, j);
    }
  }

  lemma {:induction false} NoneStaysNone(links: Links, c: string, n: nat, m: nat)
    requires n <= m && Walk(links, c, n).None?
    ensures Walk(links, c, m).None?
    decreases n
  {
    if c in links {
      NoneStaysNone(links, links[c], n - 1, m - 1);
    }
  }

  /** A chain that runs out never comes back to where it began. */
  lemma {:induction false} NoReturn(links: Links, c: string, n: nat, i: nat)
    requires Walk(links, c, n).None? && i >= 1
    ensures Walk(links, c, i) != Some(c)
    decreases n
  {
    if n <= i {
      NoneStaysNone(links, c, n, i);
    } else if Walk(links, c, i) == Some(c) {
      WalkFurther(links, c, i, n - i);
      NoReturn(links, c, n - i, i);
    }
  }

  /** The last leg of a chain that runs out after fewer than `n` links. */
  function ChainEnd(links: Links, c: string, n: nat): (e: string)
    requires Walk(links, c, n).None?
    ensures e !in links
    decreases n
  {
    if c in links then ChainEnd(links, links[c], n - 1) else c
  }

  lemma {:induction false} RootIsChainEnd(links: Links, c: string, n: nat, seen: set<string>)
    requires Walk(links, c, n).None?
    requires forall i: nat | i >= 1 && Walk(links, c, i).Some? :: Walk(links, c, i).value !in seen
    ensures RootFrom(links, c, seen) == ChainEnd(links, c, n)
    decreases n
  {
    if c in links {
      var a := links[c];
      assert Walk(links, c, 1) == Walk(links, a, 0) == Some(a);
      forall i: nat | i >= 1 && Walk(links, a, i).Some? ensures Walk(links, a, i).value !in seen + {a} {
        assert Walk(links, c, i + 1) == Walk(links, a, i);
        NoReturn(links, a, n - 1, i);
      }
      RootIsChainEnd(links, a, n - 1, seen + {a});
    }
  }

  lemma RootOfEndingChain(links: Links, c: string, n: nat)
    requires Walk(links, c, n).None?
    ensures Root(links, c) == ChainEnd(links, c, n)
  {
    forall i: nat | i >= 1 ensures Walk(links, c, i) != Some(c) {
      NoReturn(links, c, n, i);
    }
    RootIsChainEnd(links, c, n, {c});
  }

  lemma {:induction false} RootIsReached(links: Links, c: string, seen: set<string>) returns (k: nat)
    ensures Walk(links, c, k) == Some(RootFrom(links, c, seen))
    decreases links.Values - seen
  {
    if c in links && links[c] !in seen {
      assert links[c] in links.Values;
      var j := RootIsReached(links, links[c], seen + {links[c]});
      k := j + 1;
    } else {
      k := 0;
    }
  }

  /** The guarded walk stops at a leg without a link exactly when the chain from
      there runs out; on a cycle it still stops, at a leg that has one. */
  lemma RootHasNoLinkIffChainEnds(links: Links, c: string)
    ensures Root(links, c) !in links <==> Ends(links, c)
  {
    if Root(links, c) !in links {
      var k := RootIsReached(links, c, {c});
      WalkFurther(links, c, k, 1);
      assert Walk(links, c, k + 1).None?;
    }
    if Ends(links, c) {
      var n: nat :| Walk(links, c, n).None?;
      RootOfEndingChain(links, c, n);
    }
  }

  /** Along a chain that runs out every leg has the same root, which is its own root. */
  lemma ChainSharesItsRoot(links: Links, b: string)
    requires Ends(links, b)
    ensures b in links ==> Root(links, b) == Root(links, links[b])
    ensures Root(links, Root(links, b)) == Root(links, b)
  {
    var n: nat :| Walk(links, b, n).None?;
    RootOfEndingChain(links, b, n);
    if b in links {
      RootOfEndingChain(links, links[b], n - 1);
    }
  }

  /** The guarded walk ends where it is or at a leg it has not seen. */
  lemma {:induction false} RootIsHereOrUnseen(links: Links, cur: string, seen: set<string>)
    ensures RootFrom(links, cur, seen) == cur || RootFrom(links, cur, seen) !in seen
    decreases links.Values - seen
  {
    if cur in links && links[cur] !in seen {
      assert links[cur] in links.Values;
      RootIsHereOrUnseen(links, links[cur], seen + {links[cur]});
    }
  }

  /** A root is its own root, so that its class can have an A leg, exactly when the
      chain runs out: no cycle of any length, and no tail into one, has an A leg. */
  lemma RootIsItsOwnIffChainEnds(links: Links, x: string)
    requires NoSelfLinks(links)
    ensures Root(links, Root(links, x)) == Root(links, x) <==> Ends(links, x)
  {
    RootHasNoLinkIffChainEnds(links, x);
    var r := Root(links, x);
    if r in links {
      RootIsHereOrUnseen(links, links[r], {r} + {links[r]});
    } else {
      ChainSharesItsRoot(links, x);
    }
  }

  /** Two legs that name each other are each other's root, so neither is an A leg. */
  lemma MutualLinksHaveNoA(links: Links, x: string, y: string)
    requires x != y && x in links && y in links && links[x] == y && links[y] == x
    ensures Root(links, x) == y && Root(links, y) == x
  {
    assert RootFrom(links, y, {x} + {y}) == y;
    assert RootFrom(links, x, {y} + {x}) == x;
  }

  // ----- which linked legs share a root -----

  /** The links lead from the leg back to it. */
  ghost predicate OnCycle(links: Links, c: string) {
    exists n: nat :: n > 0 && Walk(links, c, n) == Some(c)
  }

  /** They do so for the first time after `n` links. */
  ghost predicate IsPeriod(links: Links, c: string, n: nat) {
    n > 0 && Walk(links, c, n) == Some(c) && forall i: nat | 0 < i < n :: Walk(links, c, i) != Some(c)
  }

  lemma {:induction false} CycleHasAPeriod(links: Links, c: string, n: nat) returns (m: nat)
    requires n > 0 && Walk(links, c, n) == Some(c)
    ensures IsPeriod(links, c, m)
    decreases n
  {
    m := n;
    if i: nat :| 0 < i < n && Walk(links, c, i) == Some(c) {
      m := CycleHasAPeriod(links, c, i);
    }
  }

  /** The leg is at most `i` links away. */
  ghost predicate Visits(links: Links, c: string, i: nat, x: string) {
    exists j: nat :: j <= i && Walk(links, c, j) == Some(x)
  }

  ghost predicate AreVisited(links: Links, c: string, i: nat, seen: set<string>) {
    forall x :: x in seen <==> Visits(links, c, i, x)
  }

  /** Within a period the walk comes to no leg twice. */
  lemma NextIsNew(links: Links, c: string, n: nat, i: nat, j: nat)
    requires IsPeriod(links, c, n) && j <= i && i + 1 < n
    ensures Walk(links, c, i + 1).Some? && Walk(links, c, i + 1) != Walk(links, c, j)
  {
    if Walk(links, c, i + 1).None? {
      NoneStaysNone(links, c, i + 1, n);
    } else if Walk(links, c, i + 1) == Walk(links, c, j) {
      WalkFurther(links, c, i + 1, n - i - 1);
      WalkFurther(links, c, j, n - i - 1);
    }
  }

  lemma OneFurther(links: Links, c: string, i: nat, cur: string)
    requires Walk(links, c, i) == Some(cur)
    ensures Walk(links, c, i + 1) == if cur in links then Some(links[cur]) else None
  {
    WalkFurther(links, c, i, 1);
  }

  lemma VisitsOneMore(links: Links, c: string, i: nat, next: string, x: string)
    requires Walk(links, c, i + 1) == Some(next)
    ensures Visits(links, c, i + 1, x) <==> Visits(links, c, i, x) || x == next
  {
    if Visits(links, c, i, x) {
      var j: nat :| j <= i && Walk(links, c, j) == Some(x);
      assert j <= i + 1 && Walk(links, c, j) == Some(x);
    }
    if Visits(links, c, i + 1, x) {
      var j: nat :| j <= i + 1 && Walk(links, c, j) == Some(x);
      assert j <= i || j == i + 1;
    }
  }

  lemma VisitedFurther(links: Links, c: string, i: nat, seen: set<string>, next: string)
    requires AreVisited(links, c, i, seen) && Walk(links, c, i + 1) == Some(next)
    ensures AreVisited(links, c, i + 1, seen + {next})
  {
    forall x
      ensures x in seen + {next} <==> Visits(links, c, i + 1, x)
    {
      VisitsOneMore(links, c, i, next, x);
    }
  }

  /** On a cycle the guarded walk stops at the leg that links back to its start. */
  lemma {:induction false} RootLinksBack(links: Links, c: string, n: nat, i: nat, cur: string, seen: set<string>)
    requires IsPeriod(links, c, n) && i < n && Walk(links, c, i) == Some(cur) && AreVisited(links, c, i, seen)
    ensures var r := RootFrom(links, cur, seen); r in links && links[r] == c
    decreases n - i
  {
    OneFurther(links, c, i, cur);
    assert Walk(links, c, 0) == Some(c);
    if i + 1 < n {
      forall j: nat | j <= i
        ensures Walk(links, c, i + 1) != Walk(links, c, j)
      {
        NextIsNew(links, c, n, i, j);
      }
      NextIsNew(links, c, n, i, 0);
      VisitedFurther(links, c, i, seen, links[cur]);
      RootLinksBack(links, c, n, i + 1, links[cur], seen + {links[cur]});
    }
  }

  lemma RootOnCycleLinksBack(links: Links, c: string)
    requires OnCycle(links, c)
    ensures Root(links, c) in links && links[Root(links, c)] == c
  {
    var k: nat :| k > 0 && Walk(links, c, k) == Some(c);
    var n := CycleHasAPeriod(links, c, k);
    assert Walk(links, c, 0) == Some(c);
    RootLinksBack(links, c, n, 0, c, {c});
  }

  /** Having seen a leg that the walk does not come to changes nothing. */
  lemma {:induction false} UnreachedIsNoGuard(links: Links, cur: string, seen: set<string>, b: string)
    requires forall i: nat :: i > 0 ==> Walk(links, cur, i) != Some(b)
    ensures RootFrom(links, cur, seen + {b}) == RootFrom(links, cur, seen)
    decreases links.Values - seen
  {
    if cur in links {
      var a := links[cur];
      OneFurther(links, cur, 0, cur);
      if a !in seen {
        forall i: nat | i > 0
          ensures Walk(links, a, i) != Some(b)
        {
          assert Walk(links, cur, i + 1) == Walk(links, a, i);
        }
        assert a in links.Values;
        UnreachedIsNoGuard(links, a, seen + {a}, b);
        assert seen + {a} + {b} == seen + {b} + {a};
      }
    }
  }

  lemma OffCycleSharesItsRoot(links: Links, b: string)
    requires b in links && !OnCycle(links, b)
    ensures Root(links, b) == Root(links, links[b])
  {
    var a := links[b];
    forall i: nat | i > 0
      ensures Walk(links, a, i) != Some(b)
    {
      assert Walk(links, b, i + 1) == Walk(links, a, i);
    }
    OneFurther(links, b, 0, b);
    assert Walk(links, b, 1) != Some(b);
    UnreachedIsNoGuard(links, a, {a}, b);
    assert {b} + {a} == {a} + {b};
  }

  /** A leg and the leg it is linked to share a root, and so are grouped together,
      exactly when the leg is on no cycle. */
  lemma LinkedLegsShareARootIff(links: Links, b: string)
    requires NoSelfLinks(links) && b in links
    ensures Root(links, b) == Root(links, links[b]) <==> !OnCycle(links, b)
    ensures forall ids: set<string> | b in ids && links[b] in ids ::
              ClassOf(ids, links, b) == ClassOf(ids, links, links[b]) <==> !OnCycle(links, b)
  {
    var a := links[b];
    if OnCycle(links, b) {
      NextIsOnCycle(links, b);
      RootOnCycleLinksBack(links, b);
      RootOnCycleLinksBack(links, a);
    } else {
      OffCycleSharesItsRoot(links, b);
    }
    forall ids: set<string> | b in ids && a in ids
      ensures ClassOf(ids, links, b) == ClassOf(ids, links, a) <==> Root(links, b) == Root(links, a)
    {
      assert b in ClassOf(ids, links, b);
    }
  }

  lemma NextIsOnCycle(links: Links, b: string)
    requires OnCycle(links, b)
    ensures b in links && OnCycle(links, links[b])
  {
    var n: nat :| n > 0 && Walk(links, b, n) == Some(b);
    assert b in links;
    OneFurther(links, b, n, b);
    assert Walk(links, b, n + 1) == Walk(links, links[b], n);
  }

  function AddAll(links: Links, evidence: seq<(string, string)>): Links
    decreases |evidence|
  {
    if evidence == [] then links else AddAll(Added(links, evidence[0].0, evidence[0].1), evidence[1..])
  }

  /** A recorded link survives whatever evidence follows it. */
  lemma {:induction false} FirstLinkWins(links: Links, evidence: seq<(string, string)>, b: string)
    requires b in links
    ensures b in AddAll(links, evidence) && AddAll(links, evidence)[b] == links[b]
    decreases |evidence|
  {
    if evidence != [] {
      FirstLinkWins(Added(links, evidence[0].0, evidence[0].1), evidence[1..], b);
    }
  }

  /** The first piece of evidence that names the leg and can be recorded. */
  ghost predicate IsFirstUsable(evidence: seq<(string, string)>, b: string, i: nat) {
    && i < |evidence| && Usable(evidence[i], b) && forall j: nat | j < i :: !Usable(evidence[j], b)
  }

  predicate Usable(e: (string, string), b: string) {
    e.0 == b && b != "" && e.1 != "" && e.1 != b
  }

  /** After all the evidence a leg has its old link, or else the one of the first piece of
      evidence that can be recorded, and no link if there is none. */
  lemma {:induction false} EvidenceIsTaken(links: Links, evidence: seq<(string, string)>, b: string)
    ensures b in AddAll(links, evidence) <==> b in links || exists i :: 0 <= i < |evidence| && Usable(evidence[i], b)
    ensures b !in links ==> forall i: nat | IsFirstUsable(evidence, b, i) :: AddAll(links, evidence)[b] == evidence[i].1
    decreases |evidence|
  {
    if evidence != [] {
      var more, rest := Added(links, evidence[0].0, evidence[0].1), evidence[1..];
      assert forall i | 0 < i < |evidence| :: evidence[i] == rest[i - 1];
      assert forall i | 0 <= i < |rest| :: rest[i] == evidence[i + 1];
      EvidenceIsTaken(more, rest, b);
      if b in more {
        FirstLinkWins(more, rest, b);
      }
      forall i: nat | b !in links && IsFirstUsable(evidence, b, i)
        ensures AddAll(links, evidence)[b] == evidence[i].1
      {
        assert i > 0 ==> !Usable(evidence[0], b);
        assert i > 0 ==> IsFirstUsable(rest, b, i - 1);
      }
    }
  }

  // ----- groups -----

  datatype Leg = Leg(isA: bool, aCallId: string, attempt: Option<int>)

  /** What orders the B legs of a group that have no complete CDR numbering:
      first INVITE, else first captured row, else first seen by the scan. */
  datatype Times = Times(invite: map<string, int>, captured: map<string, int>, scanned: map<string, int>)
  {
    function Of(b: string): int {
      if b in invite then invite[b]
      else if b in captured then captured[b]
      else if b in scanned then scanned[b]
      else 0x4000_0000_0000_0000
    }
  }

  type Keyed = (int, string)

  predicate KeyLe(x: Keyed, y: Keyed) {
    x.0 < y.0 || (x.0 == y.0 && StringLe(x.1, y.1))
  }

  predicate KeyLt(x: Keyed, y: Keyed) {
    KeyLe(x, y) && x != y
  }

  lemma KeyOrder()
    ensures TotalOrder(KeyLe)
  {
    StringOrder();
  }

  ghost function ClassOf(ids: set<string>, links: Links, x: string): set<string> {
    set y | y in ids && Root(links, y) == Root(links, x)
  }

  ghost function BLegsOf(ids: set<string>, links: Links, x: string): set<string> {
    ClassOf(ids, links, x) - {Root(links, x)}
  }

  /** How many of `bs` come before `b`. */
  ghost function Before(bs: set<string>, times: Times, b: string): set<string> {
    set y | y in bs && KeyLt((times.Of(y), y), (times.Of(b), b))
  }

  ghost predicate IsSortedListing(l: seq<string>, s: set<string>) {
    SortedBy(StringLe, l) && NoDup(l) && forall x :: x in l <==> x in s
  }

  /** The sorted list of a set is determined by the set. */
  lemma SortedListingIsUnique(a: seq<string>, b: seq<string>, s: set<string>)
    requires IsSortedListing(a, s) && IsSortedListing(b, s)
    ensures a == b
  {
    StringOrder();
    NoDupCounts(a);
    NoDupCounts(b);
    forall x ensures multiset(a)[x] == multiset(b)[x] {
      assert x in a <==> x in s;
      assert x in b <==> x in s;
      assert x in a <==> x in multiset(a);
      assert x in b <==> x in multiset(b);
    }
    assert multiset(a) == multiset(b);
    SortedUnique(StringLe, a, b);
  }

  method ListSorted(s: set<string>) returns (l: seq<string>)
    ensures IsSortedListing(l, s)
  {
    var todo, all := s, [];
    while todo != {}
      invariant NoDup(all) && todo <= s
      invariant forall x :: x in all <==> x in s && x !in todo
      decreases todo
    {
      var x :| x in todo;
      all, todo := all + [x], todo - {x};
    }
    StringOrder();
    SortSorts(StringLe, all);
    SortMembers(StringLe, all);
    l := Sort(StringLe, all);
  }

  // ----- attempt numbers -----

  function Keys(bs: seq<string>, times: Times): (ks: seq<Keyed>)
    ensures |ks| == |bs| && forall i | 0 <= i < |bs| :: ks[i] == (times.Of(bs[i]), bs[i])
  {
    seq(|bs|, i requires 0 <= i < |bs| => (times.Of(bs[i]), bs[i]))
  }

  /** `ks` lists the legs `bs` with their keys, in order. */
  ghost predicate IsKeyListing(ks: seq<Keyed>, bs: set<string>, times: Times) {
    && SortedBy(KeyLe, ks) && NoDup(ks)
    && (forall i | 0 <= i < |ks| :: ks[i].1 in bs && ks[i].0 == times.Of(ks[i].1))
    && (forall b | b in bs :: (times.Of(b), b) in ks)
  }

  lemma KeyListing(l: seq<string>, bs: set<string>, times: Times)
    requires NoDup(l) && forall x :: x in l <==> x in bs
    ensures IsKeyListing(Sort(KeyLe, Keys(l, times)), bs, times)
  {
    KeyOrder();
    var ks := Keys(l, times);
    SortSorts(KeyLe, ks);
    SortMembers(KeyLe, ks);
    var sorted := Sort(KeyLe, ks);
    forall i | 0 <= i < |sorted| ensures sorted[i].1 in bs && sorted[i].0 == times.Of(sorted[i].1) {
      assert sorted[i] in ks;
    }
    forall b | b in bs ensures (times.Of(b), b) in sorted {
      var i :| 0 <= i < |l| && l[i] == b;
      assert ks[i] == (times.Of(b), b);
    }
  }

  lemma {:induction false} FirstKeys(ks: seq<Keyed>, n: nat)
    requires NoDup(ks) && n <= |ks| && forall i, j | 0 <= i < j < |ks| :: ks[i].1 != ks[j].1
    ensures |set i | 0 <= i < n :: ks[i].1| == n
  {
    if n > 0 {
      FirstKeys(ks, n - 1);
      var s, t := set i | 0 <= i < n - 1 :: ks[i].1, set i | 0 <= i < n :: ks[i].1;
      assert t == s + {ks[n - 1].1};
      assert ks[n - 1].1 !in s;
    }
  }

  /** The i-th leg of the listing has exactly i legs before it. */
  lemma RankIsPosition(ks: seq<Keyed>, bs: set<string>, times: Times, i: nat)
    requires IsKeyListing(ks, bs, times) && i < |ks|
    ensures |Before(bs, times, ks[i].1)| == i
  {
    KeyOrder();
    forall j, k | 0 <= j < k < |ks| ensures ks[j].1 != ks[k].1 {
      assert ks[j] != ks[k];
    }
    var first := set j | 0 <= j < i :: ks[j].1;
    assert forall k | i < k < |ks| :: KeyLe(ks[i], ks[k]);
    forall y ensures y in first <==> y in Before(bs, times, ks[i].1) {
      if y in first {
        var j :| 0 <= j < i && ks[j].1 == y;
        assert KeyLe(ks[j], ks[i]);
      }
      if y in Before(bs, times, ks[i].1) {
        var j :| 0 <= j < |ks| && ks[j] == (times.Of(y), y);
        assert j < i;
      }
    }
    assert first == Before(bs, times, ks[i].1);
    FirstKeys(ks, i);
  }

  ghost predicate IsRank(bs: set<string>, times: Times, n: int) {
    exists b :: b in bs && |Before(bs, times, b)| == n
  }

  lemma PositionOf(ks: seq<Keyed>, bs: set<string>, times: Times, b: string) returns (i: nat)
    requires IsKeyListing(ks, bs, times) && b in bs
    ensures i < |ks| && ks[i] == (times.Of(b), b) && |Before(bs, times, b)| == i
  {
    i :| 0 <= i < |ks| && ks[i] == (times.Of(b), b);
    RankIsPosition(ks, bs, times, i);
  }

  lemma ListedInOrder(bs: set<string>, times: Times) returns (ks: seq<Keyed>)
    ensures IsKeyListing(ks, bs, times) && |ks| == |bs|
  {
    KeyOrder();
    var l := AnyListing(bs);
    KeyListing(l, bs, times);
    ks := Sort(KeyLe, Keys(l, times));
    SortMembers(KeyLe, Keys(l, times));
    ListingSize(l, bs);
  }

  lemma RanksFollowKeys(bs: set<string>, times: Times, b: string, c: string)
    requires b in bs && c in bs
    ensures |Before(bs, times, b)| < |bs|
    ensures KeyLt((times.Of(b), b), (times.Of(c), c)) <==> |Before(bs, times, b)| < |Before(bs, times, c)|
  {
    var ks := ListedInOrder(bs, times);
    var i := PositionOf(ks, bs, times, b);
    var j := PositionOf(ks, bs, times, c);
    KeyOrder();
    assert i < j ==> KeyLe(ks[i], ks[j]) && ks[i] != ks[j];
    assert j < i ==> KeyLe(ks[j], ks[i]) && ks[i] != ks[j];
  }

  /** Numbering legs by how many come before them is a bijection onto 1..N that
      follows (time, Call-ID). */
  lemma NumbersAreABijection(bs: set<string>, times: Times)
    ensures forall b | b in bs :: |Before(bs, times, b)| < |bs|
    ensures forall b, c | b in bs && c in bs ::
              KeyLt((times.Of(b), b), (times.Of(c), c)) <==> |Before(bs, times, b)| < |Before(bs, times, c)|
    ensures forall b, c | b in bs && c in bs && b != c :: |Before(bs, times, b)| != |Before(bs, times, c)|
    ensures forall n | 0 <= n < |bs| :: IsRank(bs, times, n)
  {
    var ks := ListedInOrder(bs, times);
    forall n | 0 <= n < |bs| ensures IsRank(bs, times, n) {
      RankIsPosition(ks, bs, times, n);
      assert ks[n].1 in bs;
    }
    forall b, c | b in bs && c in bs
      ensures |Before(bs, times, b)| < |bs|
      ensures KeyLt((times.Of(b), b), (times.Of(c), c)) <==> |Before(bs, times, b)| < |Before(bs, times, c)|
      ensures b != c ==> |Before(bs, times, b)| != |Before(bs, times, c)|
    {
      RanksFollowKeys(bs, times, b, c);
      RanksFollowKeys(bs, times, c, b);
      KeyOrder();
    }
  }

  lemma {:induction false} AnyListing(s: set<string>) returns (l: seq<string>)
    ensures NoDup(l) && forall x :: x in l <==> x in s
  {
    if s == {} {
      l := [];
    } else {
      var x :| x in s;
      var rest := AnyListing(s - {x});
      l := rest + [x];
    }
  }

  lemma {:induction false} ListingSize(l: seq<string>, s: set<string>)
    requires NoDup(l) && forall x :: x in l <==> x in s
    ensures |l| == |s|
  {
    if l == [] {
      assert s == {};
    } else {
      var n := |l| - 1;
      assert forall x :: x in l <==> x in l[..n] || x == l[n];
      ListingSize(l[..n], s - {l[n]});
      assert s == (s - {l[n]}) + {l[n]};
    }
  }

  method NumberByTime(bs: set<string>, times: Times) returns (attempts: map<string, int>)
    ensures attempts.Keys == bs
    ensures forall b | b in bs :: attempts[b] == 1 + |Before(bs, times, b)|
  {
    var l := ListSorted(bs);
    KeyListing(l, bs, times);
    var ks := Sort(KeyLe, Keys(l, times));
    attempts := map[];
    for i := 0 to |ks|
      invariant forall b :: b in attempts <==> exists j :: 0 <= j < i && ks[j].1 == b
      invariant forall b | b in attempts :: b in bs && attempts[b] == 1 + |Before(bs, times, b)|
    {
      RankIsPosition(ks, bs, times, i);
      attempts := attempts[ks[i].1 := i + 1];
    }
    forall b | b in bs ensures b in attempts {
      var j :| 0 <= j < |ks| && ks[j] == (times.Of(b), b);
    }
  }

  /** CDR numbers when every B leg of the group has one, else numbers by time. */
  ghost function AttemptOf(bs: set<string>, cdr: map<string, int>, times: Times, b: string): int
    requires b in bs
  {
    if bs <= cdr.Keys then cdr[b] else 1 + |Before(bs, times, b)|
  }

  method Number(bs: set<string>, cdr: map<string, int>, times: Times) returns (attempts: map<string, int>)
    ensures attempts.Keys == bs
    ensures forall b | b in bs :: attempts[b] == AttemptOf(bs, cdr, times, b)
  {
    if bs != {} && bs <= cdr.Keys {
      attempts := map b | b in bs :: cdr[b];
    } else {
      attempts := NumberByTime(bs, times);
    }
  }

  // ----- correlations and legs -----

  ghost predicate LegIsRight(leg: Leg, ids: set<string>, links: Links, cdr: map<string, int>, times: Times, x: string)
    requires x in ids
  {
    var a := Root(links, x);
    leg == if x == a then Leg(true, a, None)
           else Leg(false, a, Some(AttemptOf(BLegsOf(ids, links, x), cdr, times, x)))
  }

  ghost predicate GroupsByRoot(groups: map<string, set<string>>, ids: set<string>, links: Links) {
    && (forall a | a in groups :: groups[a] == set y | y in ids && Root(links, y) == a)
    && (forall x | x in ids :: Root(links, x) in groups)
  }

  method GroupIds(ids: set<string>, graph: Graph) returns (groups: map<string, set<string>>)
    ensures GroupsByRoot(groups, ids, graph.bToA)
  {
    groups := map[];
    var todo := ids;
    while todo != {}
      invariant todo <= ids
      invariant GroupsByRoot(groups, ids - todo, graph.bToA)
      decreases todo
    {
      var cid :| cid in todo;
      var a := graph.FindRoot(cid);
      ghost var done := ids - todo;
      ghost var was := groups;
      groups := groups[a := (if a in groups then groups[a] else {}) + {cid}];
      todo := todo - {cid};
      assert ids - todo == done + {cid};
      forall b | b in groups ensures groups[b] == set y | y in done + {cid} && Root(graph.bToA, y) == b {
        if b == a && a !in was {
          assert (set y | y in done && Root(graph.bToA, y) == a) == {};
        }
      }
    }
    assert ids - todo == ids;
  }

  /** Complete and right for every Call-ID whose root is not in `left`. */
  ghost predicate CorrelationsFor(correlations: map<string, seq<string>>, left: set<string>, ids: set<string>, links: Links) {
    && (forall x :: x in correlations <==> x in ids && Root(links, x) !in left)
    && (forall x | x in correlations :: IsSortedListing(correlations[x], ClassOf(ids, links, x)))
  }

  ghost predicate LegsFor(legs: map<string, Leg>, left: set<string>, ids: set<string>, links: Links,
                          cdr: map<string, int>, times: Times)
  {
    && (forall x :: x in legs <==> x in ids && Root(links, x) !in left)
    && (forall x | x in legs :: x in ids && LegIsRight(legs[x], ids, links, cdr, times, x))
  }

  lemma CorrelateOne(correlations: map<string, seq<string>>, left: set<string>, ids: set<string>, links: Links,
                     a: string, members: set<string>, ordered: seq<string>)
    requires CorrelationsFor(correlations, left, ids, links) && a in left
    requires members == set y | y in ids && Root(links, y) == a
    requires IsSortedListing(ordered, members)
    ensures CorrelationsFor(correlations + map c | c in members :: ordered, left - {a}, ids, links)
  {
    forall c | c in members ensures ClassOf(ids, links, c) == members {
    }
  }

  lemma LegsForOne(legs: map<string, Leg>, left: set<string>, ids: set<string>, links: Links,
                   cdr: map<string, int>, times: Times, a: string, members: set<string>, newLegs: map<string, Leg>)
    requires LegsFor(legs, left, ids, links, cdr, times) && a in left
    requires members == set y | y in ids && Root(links, y) == a
    requires newLegs.Keys == members
    requires forall c | c in members :: c in ids && LegIsRight(newLegs[c], ids, links, cdr, times, c)
    ensures LegsFor(legs + newLegs, left - {a}, ids, links, cdr, times)
  {
  }

  method BuildGroups(ids: set<string>, graph: Graph, cdr: map<string, int>, times: Times)
    returns (correlations: map<string, seq<string>>, legs: map<string, Leg>)
    ensures correlations.Keys == ids && legs.Keys == ids
    ensures forall x | x in ids :: IsSortedListing(correlations[x], ClassOf(ids, graph.bToA, x))
    ensures forall x | x in ids :: LegIsRight(legs[x], ids, graph.bToA, cdr, times, x)
    ensures NoSelfLinks(graph.bToA) ==> forall x | x in ids ::
              HasA(legs, ClassOf(ids, graph.bToA, x)) <==> Ends(graph.bToA, x) && Root(graph.bToA, x) in ids
  {
    var groups := GroupIds(ids, graph);
    correlations, legs := map[], map[];
    var roots := groups.Keys;
    while roots != {}
      invariant roots <= groups.Keys
      invariant CorrelationsFor(correlations, roots, ids, graph.bToA)
      invariant LegsFor(legs, roots, ids, graph.bToA, cdr, times)
      decreases roots
    {
      var a :| a in roots;
      var members := groups[a];
      var ordered := ListSorted(members);
      var newLegs := LegsOf(a, members, cdr, times);
      GroupIsAClass(groups, ids, graph.bToA, a);
      CorrelateOne(correlations, roots, ids, graph.bToA, a, members, ordered);
      LegsForOne(legs, roots, ids, graph.bToA, cdr, times, a, members, newLegs);
      correlations := correlations + map c | c in members :: ordered;
      legs := legs + newLegs;
      roots := roots - {a};
    }
    if NoSelfLinks(graph.bToA) {
      forall x | x in ids
        ensures HasA(legs, ClassOf(ids, graph.bToA, x)) <==> Ends(graph.bToA, x) && Root(graph.bToA, x) in ids
      {
        GroupHasAnAIff(ids, graph.bToA, legs, cdr, times, x);
      }
    }
  }

  method LegsOf(a: string, members: set<string>, cdr: map<string, int>, times: Times) returns (legs: map<string, Leg>)
    ensures legs.Keys == members
    ensures forall c | c in members ::
      legs[c] == if c == a then Leg(true, a, None) else Leg(false, a, Some(AttemptOf(members - {a}, cdr, times, c)))
  {
    var attempts := Number(members - {a}, cdr, times);
    legs := map c | c in members :: if c == a then Leg(true, a, None) else Leg(false, a, Some(attempts[c]));
  }

  lemma GroupIsAClass(groups: map<string, set<string>>, ids: set<string>, links: Links, a: string)
    requires GroupsByRoot(groups, ids, links) && a in groups
    ensures forall c | c in groups[a] :: c in ids && Root(links, c) == a
    ensures forall c | c in groups[a] :: ClassOf(ids, links, c) == groups[a] && BLegsOf(ids, links, c) == groups[a] - {a}
    ensures forall c | c in ids && Root(links, c) == a :: c in groups[a]
  {
  }

  // ----- which groups have an A leg -----

  ghost predicate HasA(legs: map<string, Leg>, members: set<string>) {
    exists y :: y in members && y in legs && legs[y].isA
  }

  /** A group has an A leg if and only if the chain of its Call-IDs runs out, at a
      Call-ID that is there itself. */
  lemma GroupHasAnAIff(ids: set<string>, links: Links, legs: map<string, Leg>, cdr: map<string, int>, times: Times, x: string)
    requires NoSelfLinks(links) && legs.Keys == ids && x in ids
    requires forall y | y in ids :: LegIsRight(legs[y], ids, links, cdr, times, y)
    ensures HasA(legs, ClassOf(ids, links, x)) <==> Ends(links, x) && Root(links, x) in ids
  {
    var a := Root(links, x);
    RootIsItsOwnIffChainEnds(links, x);
    assert forall y | y in ids :: legs[y].isA <==> Root(links, y) == y;
    if HasA(legs, ClassOf(ids, links, x)) {
      var y :| y in ClassOf(ids, links, x) && y in legs && legs[y].isA;
      assert y == a;
    }
    if Ends(links, x) && a in ids {
      assert a in ClassOf(ids, links, x);
    }
  }
  // ----- what the attempt numbers are -----

  /** When a leg began, for the numbering. */
  function Began(times: Times, x: string): int {
    if x in times.invite then times.invite[x]
    else if x in times.captured then times.captured[x]
    else if x in times.scanned then times.scanned[x]
    else 4_611_686_018_427_387_904
  }

  lemma BeganIs(times: Times, b: string, c: string)
    ensures KeyLt((times.Of(b), b), (times.Of(c), c))
            <==> Began(times, b) < Began(times, c) || (Began(times, b) == Began(times, c) && b != c && StringLe(b, c))
  {
  }

  lemma NumbersSay(bs: set<string>, cdr: map<string, int>, times: Times, b: string, c: string)
    requires b in bs && c in bs
    ensures if forall y | y in bs :: y in cdr then AttemptOf(bs, cdr, times, b) == cdr[b]
            else AttemptOf(bs, cdr, times, b) < AttemptOf(bs, cdr, times, c)
                 <==> Began(times, b) < Began(times, c) || (Began(times, b) == Began(times, c) && b != c && StringLe(b, c))
  {
    NumbersAreABijection(bs, times);
    BeganIs(times, b, c);
    assert (forall y | y in bs :: y in cdr) <==> bs <= cdr.Keys;
  }

  /** The B legs of a group carry the CDR's numbers if all of them have one; else they
      are numbered in the order of their first INVITE (for want of that, of their first
      captured row, then of when the scan first saw them), and of their Call-IDs where
      these agree. */
  lemma AttemptsSay(ids: set<string>, links: Links, legs: map<string, Leg>, cdr: map<string, int>, times: Times, b: string, c: string)
    requires legs.Keys == ids && b in ids && c in ids && Root(links, b) == Root(links, c)
    requires b != Root(links, b) && c != Root(links, c)
    requires forall y | y in ids :: LegIsRight(legs[y], ids, links, cdr, times, y)
    ensures legs[b].attempt.Some? && legs[c].attempt.Some?
    ensures if forall y | y in BLegsOf(ids, links, b) :: y in cdr then legs[b].attempt == Some(cdr[b])
            else legs[b].attempt.value < legs[c].attempt.value
                 <==> Began(times, b) < Began(times, c) || (Began(times, b) == Began(times, c) && b != c && StringLe(b, c))
  {
    assert BLegsOf(ids, links, c) == BLegsOf(ids, links, b);
    NumbersSay(BLegsOf(ids, links, b), cdr, times, b, c);
  }
}
