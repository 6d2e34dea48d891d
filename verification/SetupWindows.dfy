/** The time ranges in which carrier legs of a call can have been launched, and
    their union. Ranges are half-open, in nanoseconds. */
module SetupWindows {
  import opened Wrappers
  import opened Ordering

  const WINDOW_PRE_NS: int := 1_000_000_000
  const WINDOW_POST_NS: int := 2_000_000_000
  const WINDOW_OPEN_MAX_NS: int := 5 * 60 * 1_000_000_000

  /** One captured message; `ts` is 0 when it has no usable time, `method` is
      the CSeq method in upper case, "" when absent. */
  datatype Record = Record(ts: int, invite: bool, status: Option<int>, method_: string)

  type Window = (int, int)

  // ----- one A leg's window -----

  function Times(rs: seq<Record>, want: Record -> bool): seq<int> {
    if rs == [] then []
    else (if rs[0].ts != 0 && want(rs[0]) then [rs[0].ts] else []) + Times(rs[1..], want)
  }

  function Min(xs: seq<int>): (m: int)
    requires xs != []
    ensures m in xs && forall x | x in xs :: m <= x
  {
    if |xs| == 1 then xs[0]
    else
      var m := Min(xs[1..]);
      assert forall x | x in xs :: x == xs[0] || x in xs[1..];
      if xs[0] <= m then xs[0] else m
  }

  lemma {:induction false} TimesHolds(rs: seq<Record>, want: Record -> bool, t: int)
    ensures t in Times(rs, want) <==> exists i :: 0 <= i < |rs| && rs[i].ts == t && t != 0 && want(rs[i])
  {
    if rs != [] {
      TimesHolds(rs[1..], want, t);
      if exists i :: 0 <= i < |rs| && rs[i].ts == t && t != 0 && want(rs[i]) {
        var i :| 0 <= i < |rs| && rs[i].ts == t && t != 0 && want(rs[i]);
        assert i > 0 ==> rs[1..][i - 1] == rs[i];
      }
    }
  }

  predicate IsFinal(r: Record) {
    r.status.Some? && r.status.value >= 200 && r.status.value !in {401, 407} && r.method_ in {"INVITE", ""}
  }

  /** The first INVITE, or the first message when the INVITE is missing. */
  function LegStart(rs: seq<Record>): Option<int> {
    var all := Times(rs, (r: Record) => true);
    var invites := Times(rs, (r: Record) => r.invite);
    if all == [] then None else Some(if invites != [] then Min(invites) else Min(all))
  }

  /** Final answers to the INVITE, from its time on. */
  function FinalTimes(rs: seq<Record>, start: int): seq<int> {
    Times(rs, (r: Record) => IsFinal(r) && r.ts >= start)
  }

  function ALegWindow(rs: seq<Record>, openEndNs: int): Option<Window> {
    var first := LegStart(rs);
    if first.None? then None
    else
      var finals := FinalTimes(rs, first.value);
      var end := if finals != [] then Min(finals) + WINDOW_POST_NS
                 else if openEndNs <= first.value + WINDOW_OPEN_MAX_NS then openEndNs else first.value + WINDOW_OPEN_MAX_NS;
      var start := first.value - WINDOW_PRE_NS;
      Some((start, if end <= start then start + WINDOW_PRE_NS + WINDOW_POST_NS else end))
  }

  // ----- what the window is -----

  ghost predicate HasTime(rs: seq<Record>, i: int) {
    0 <= i < |rs| && rs[i].ts != 0
  }

  /** The time of the first INVITE, or of the first message when no INVITE has one. */
  ghost predicate IsStart(rs: seq<Record>, t: int) {
    && (exists i :: HasTime(rs, i) && rs[i].ts == t)
    && if exists i :: HasTime(rs, i) && rs[i].invite
       then (exists i :: HasTime(rs, i) && rs[i].invite && rs[i].ts == t)
            && forall i | HasTime(rs, i) && rs[i].invite :: t <= rs[i].ts
       else forall i | HasTime(rs, i) :: t <= rs[i].ts
  }

  /** A final answer to the INVITE that is no challenge, from the start on. */
  ghost predicate EndsSetup(rs: seq<Record>, start: int, i: int) {
    && HasTime(rs, i) && rs[i].ts >= start
    && rs[i].status.Some? && rs[i].status.value > 199 && rs[i].status.value != 401 && rs[i].status.value != 407
    && (rs[i].method_ == "INVITE" || rs[i].method_ == "")
  }

  ghost predicate IsFirstFinal(rs: seq<Record>, start: int, t: int) {
    && (exists i :: EndsSetup(rs, start, i) && rs[i].ts == t)
    && forall i | EndsSetup(rs, start, i) :: t <= rs[i].ts
  }

  lemma TimesAre(rs: seq<Record>, want: Record -> bool)
    ensures forall t :: t in Times(rs, want) <==> exists i :: HasTime(rs, i) && rs[i].ts == t && want(rs[i])
  {
    forall t
      ensures t in Times(rs, want) <==> exists i :: HasTime(rs, i) && rs[i].ts == t && want(rs[i])
    {
      TimesHolds(rs, want, t);
      if i :| HasTime(rs, i) && rs[i].ts == t && want(rs[i]) {
        assert t in Times(rs, want);
      }
      if t in Times(rs, want) {
        var i :| 0 <= i < |rs| && rs[i].ts == t && t != 0 && want(rs[i]);
        assert HasTime(rs, i);
      }
    }
  }

  lemma StartIs(rs: seq<Record>)
    ensures LegStart(rs).None? <==> forall i :: !HasTime(rs, i)
    ensures LegStart(rs).Some? ==> IsStart(rs, LegStart(rs).value)
  {
    var all, invites := Times(rs, (r: Record) => true), Times(rs, (r: Record) => r.invite);
    TimesAre(rs, (r: Record) => true);
    TimesAre(rs, (r: Record) => r.invite);
    forall i | HasTime(rs, i)
      ensures rs[i].ts in all && (rs[i].invite ==> rs[i].ts in invites)
    {
    }
    if all != [] {
      assert all[0] in all;
      if invites != [] {
        assert invites[0] in invites;
      }
    }
  }

  lemma OneStart(rs: seq<Record>, a: int, b: int)
    requires IsStart(rs, a) && IsStart(rs, b)
    ensures a == b
  {
  }

  lemma FinalIs(rs: seq<Record>, start: int)
    ensures FinalTimes(rs, start) == [] <==> forall i :: !EndsSetup(rs, start, i)
    ensures FinalTimes(rs, start) != [] ==> IsFirstFinal(rs, start, Min(FinalTimes(rs, start)))
  {
    var finals := FinalTimes(rs, start);
    TimesAre(rs, (r: Record) => IsFinal(r) && r.ts >= start);
    forall i
      ensures EndsSetup(rs, start, i) <==> HasTime(rs, i) && IsFinal(rs[i]) && rs[i].ts >= start
    {
    }
    forall i | EndsSetup(rs, start, i)
      ensures rs[i].ts in finals
    {
    }
    if finals != [] {
      var t := finals[0];
      assert t in finals;
      var i :| HasTime(rs, i) && rs[i].ts == t && IsFinal(rs[i]) && rs[i].ts >= start;
      assert EndsSetup(rs, start, i);
    }
  }

  /** The window of a leg that starts at `start`: from a second before that until two
      seconds after the first final answer; without one until the given end, but five
      minutes at most, and two seconds when that end is before the window. */
  ghost predicate IsWindow(w: Window, rs: seq<Record>, openEndNs: int, start: int) {
    && w.0 == start - 1_000_000_000 && w.0 < w.1
    && (forall f | IsFirstFinal(rs, start, f) :: w.1 == f + 2_000_000_000)
    && ((forall i :: !EndsSetup(rs, start, i)) ==>
          w.1 == if openEndNs <= w.0 then start + 2_000_000_000
                 else if openEndNs <= start + 300_000_000_000 then openEndNs
                 else start + 300_000_000_000)
  }

  lemma OneFirstFinal(rs: seq<Record>, start: int, a: int, b: int)
    requires IsFirstFinal(rs, start, a) && IsFirstFinal(rs, start, b)
    ensures a == b
  {
  }

  /** Every leg with a usable time has that window, which is never empty. */
  lemma WindowSpansTheSetup(rs: seq<Record>, openEndNs: int)
    ensures ALegWindow(rs, openEndNs).None? <==> forall i :: !HasTime(rs, i)
    ensures forall start | IsStart(rs, start) ::
              ALegWindow(rs, openEndNs).Some? && IsWindow(ALegWindow(rs, openEndNs).value, rs, openEndNs, start)
    ensures ALegWindow(rs, openEndNs).Some? ==> exists start :: IsStart(rs, start)
  {
    StartIs(rs);
    forall start | IsStart(rs, start)
      ensures ALegWindow(rs, openEndNs).Some? && IsWindow(ALegWindow(rs, openEndNs).value, rs, openEndNs, start)
    {
      OneStart(rs, start, LegStart(rs).value);
      WindowFrom(rs, openEndNs, start);
    }
  }

  lemma WindowFrom(rs: seq<Record>, openEndNs: int, start: int)
    requires LegStart(rs) == Some(start)
    ensures IsWindow(ALegWindow(rs, openEndNs).value, rs, openEndNs, start)
  {
    FinalIs(rs, start);
    var finals := FinalTimes(rs, start);
    if finals != [] {
      var m := Min(finals);
      assert IsFirstFinal(rs, start, m);
      forall f | IsFirstFinal(rs, start, f)
        ensures f == m
      {
        OneFirstFinal(rs, start, f, m);
      }
      var k :| EndsSetup(rs, start, k) && rs[k].ts == m;
    }
  }

  // ----- the union -----

  predicate WindowLe(a: Window, b: Window) {
    a.0 < b.0 || (a.0 == b.0 && a.1 <= b.1)
  }

  ghost predicate Covers(ws: seq<Window>, t: int) {
    exists i :: 0 <= i < |ws| && ws[i].0 <= t < ws[i].1
  }

  ghost predicate SameInstants(a: seq<Window>, b: seq<Window>) {
    forall t :: Covers(a, t) <==> Covers(b, t)
  }

  predicate NonEmpty(ws: seq<Window>) {
    forall i | 0 <= i < |ws| :: ws[i].0 < ws[i].1
  }

  /** Sorted with a gap between neighbours: nothing overlapping or adjacent. */
  predicate Separated(ws: seq<Window>) {
    NonEmpty(ws) && forall i, j | 0 <= i < j < |ws| :: ws[i].1 < ws[j].0
  }

  /** What one sorted range does to the ranges merged so far. */
  function Absorb(out: seq<Window>, w: Window): seq<Window> {
    var k := |out| - 1;
    if out != [] && w.0 <= out[k].1 then out[..k] + [(out[k].0, if out[k].1 >= w.1 then out[k].1 else w.1)]
    else out + [w]
  }

  lemma AbsorbCovers(out: seq<Window>, w: Window)
    requires Separated(out) && w.0 < w.1 && (out != [] ==> out[|out| - 1].0 <= w.0)
    ensures var r := Absorb(out, w);
            && Separated(r) && r != [] && r[|r| - 1].0 <= w.0
            && forall t :: Covers(r, t) <==> Covers(out, t) || w.0 <= t < w.1
  {
    var k := |out| - 1;
    if out != [] && w.0 <= out[k].1 {
      var grown := Absorb(out, w)[k];
      CoverSnoc(out[..k], out[k]);
      CoverSnoc(out[..k], grown);
      assert out == out[..k] + [out[k]];
    } else {
      CoverSnoc(out, w);
    }
  }

  function Merged(sorted: seq<Window>): seq<Window> {
    if sorted == [] then [] else Absorb(Merged(sorted[..|sorted| - 1]), sorted[|sorted| - 1])
  }

  lemma {:induction false} MergedIsTheUnion(sorted: seq<Window>)
    requires NonEmpty(sorted)
    requires SortedBy(WindowLe, sorted)
    ensures Separated(Merged(sorted)) && SameInstants(Merged(sorted), sorted)
    ensures sorted != [] ==> Merged(sorted) != [] && Merged(sorted)[|Merged(sorted)| - 1].0 <= sorted[|sorted| - 1].0
  {
    if sorted != [] {
      var n := |sorted| - 1;
      var most, w := sorted[..n], sorted[n];
      MergedIsTheUnion(most);
      assert n > 0 ==> WindowLe(sorted[n - 1], w);
      assert sorted == most + [w];
      AbsorbSame(Merged(most), most, w);
    }
  }

  lemma AbsorbSame(out: seq<Window>, most: seq<Window>, w: Window)
    requires Separated(out) && w.0 < w.1 && (out != [] ==> out[|out| - 1].0 <= w.0)
    requires SameInstants(out, most)
    ensures Separated(Absorb(out, w)) && SameInstants(Absorb(out, w), most + [w])
    ensures Absorb(out, w) != [] && Absorb(out, w)[|Absorb(out, w)| - 1].0 <= w.0
  {
    AbsorbCovers(out, w);
    CoverSnoc(most, w);
  }

  lemma SortedWindows(windows: seq<Window>)
    requires NonEmpty(windows)
    ensures var sorted := Sort(WindowLe, windows);
            && NonEmpty(sorted) && SameInstants(sorted, windows)
            && SortedBy(WindowLe, sorted)
  {
    assert TotalOrder(WindowLe);
    var sorted := Sort(WindowLe, windows);
    SortSorts(WindowLe, windows);
    SameCover(windows, sorted);
    SameNonEmpty(windows, sorted);
  }

  /** For any list of ranges the merge is separated and covers their instants. */
  lemma MergeCoversTheSame(windows: seq<Window>)
    requires NonEmpty(windows)
    ensures var out := Merged(Sort(WindowLe, windows));
            Separated(out) && SameInstants(out, windows)
  {
    SortedWindows(windows);
    MergedIsTheUnion(Sort(WindowLe, windows));
  }

  lemma MergedOneMore(sorted: seq<Window>, i: nat)
    requires i < |sorted|
    ensures Merged(sorted[..i + 1]) == Absorb(Merged(sorted[..i]), sorted[i])
  {
    assert sorted[..i + 1][..i] == sorted[..i];
  }

  lemma AbsorbInPlace(out: seq<Window>, w: Window)
    ensures var k := |out| - 1;
            Absorb(out, w) == if out != [] && w.0 <= out[k].1 then out[k := (out[k].0, if out[k].1 >= w.1 then out[k].1 else w.1)]
                              else out + [w]
  {
  }

  method MergeWindows(windows: seq<Window>) returns (out: seq<Window>)
    ensures out == Merged(Sort(WindowLe, windows))
  {
    var sorted := Sort(WindowLe, windows);
    out := [];
    for i := 0 to |sorted|
      invariant out == Merged(sorted[..i])
    {
      MergedOneMore(sorted, i);
      AbsorbInPlace(out, sorted[i]);
      var (s, e) := sorted[i];
      var k := |out| - 1;
      if out != [] && s <= out[k].1 {
        out := out[k := (out[k].0, if out[k].1 >= e then out[k].1 else e)];
      } else {
        out := out + [(s, e)];
      }
    }
    assert sorted[..|sorted|] == sorted;
  }

  lemma SameNonEmpty(a: seq<Window>, b: seq<Window>)
    requires multiset(a) == multiset(b) && NonEmpty(a)
    ensures NonEmpty(b)
  {
    forall i | 0 <= i < |b| ensures b[i].0 < b[i].1 {
      assert b[i] in multiset(a);
    }
  }

  lemma CoverSnoc(ws: seq<Window>, w: Window)
    ensures forall t :: Covers(ws + [w], t) <==> Covers(ws, t) || w.0 <= t < w.1
  {
    forall t ensures Covers(ws + [w], t) <==> Covers(ws, t) || w.0 <= t < w.1 {
      var all := ws + [w];
      if Covers(ws, t) {
        var i :| 0 <= i < |ws| && ws[i].0 <= t < ws[i].1;
        assert all[i] == ws[i];
      }
      assert all[|ws|] == w;
    }
  }

  lemma SameCover(a: seq<Window>, b: seq<Window>)
    requires multiset(a) == multiset(b)
    ensures SameInstants(a, b)
  {
    forall t ensures Covers(a, t) <==> Covers(b, t) {
      if Covers(a, t) {
        var i :| 0 <= i < |a| && a[i].0 <= t < a[i].1;
        assert a[i] in multiset(b);
      }
      if Covers(b, t) {
        var i :| 0 <= i < |b| && b[i].0 <= t < b[i].1;
        assert b[i] in multiset(a);
      }
    }
  }

  lemma FirstOfBoth(a: seq<Window>, b: seq<Window>)
    requires Separated(a) && Separated(b) && a != []
    requires SameInstants(a, b)
    ensures b != [] && b[0].0 <= a[0].0
  {
    assert a[0].0 <= a[0].0 < a[0].1;
    assert Covers(b, a[0].0);
    var i :| 0 <= i < |b| && b[i].0 <= a[0].0 < b[i].1;
    assert i > 0 ==> b[0].1 < b[i].0;
  }

  lemma FirstRange(a: seq<Window>)
    requires Separated(a) && a != []
    ensures forall t | a[0].0 <= t < a[0].1 :: Covers(a, t)
    ensures !Covers(a, a[0].1)
  {
    assert forall i | 0 < i < |a| :: a[0].1 < a[i].0;
  }

  lemma RestCovers(a: seq<Window>, t: int)
    requires Separated(a) && a != []
    ensures Covers(a[1..], t) <==> Covers(a, t) && t >= a[0].1
  {
    assert a == [a[0]] + a[1..];
    if Covers(a[1..], t) {
      var i :| 0 <= i < |a[1..]| && a[1..][i].0 <= t < a[1..][i].1;
      assert a[i + 1] == a[1..][i];
    }
    if Covers(a, t) && t >= a[0].1 {
      var i :| 0 <= i < |a| && a[i].0 <= t < a[i].1;
      assert a[1..][i - 1] == a[i];
    }
  }

  /** Only one separated list covers a given set of instants, so the merge does
      not depend on how its input overlaps, repeats or is ordered. */
  lemma {:induction false} SeparatedIsUnique(a: seq<Window>, b: seq<Window>)
    requires Separated(a) && Separated(b)
    requires SameInstants(a, b)
    ensures a == b
  {
    if a == [] {
      if b != [] {
        FirstOfBoth(b, a);
      }
    } else {
      FirstOfBoth(a, b);
      FirstOfBoth(b, a);
      FirstRange(a);
      FirstRange(b);
      assert a[0].1 == b[0].1;
      forall t ensures Covers(a[1..], t) <==> Covers(b[1..], t) {
        RestCovers(a, t);
        RestCovers(b, t);
      }
      SeparatedIsUnique(a[1..], b[1..]);
      assert a == [a[0]] + a[1..] && b == [b[0]] + b[1..];
    }
  }

  /** The windows of all legs that have one. */
  function LegWindows(legs: seq<seq<Record>>, openEndNs: int): seq<Window> {
    if legs == [] then []
    else
      var w := ALegWindow(legs[0], openEndNs);
      (if w.Some? then [w.value] else []) + LegWindows(legs[1..], openEndNs)
  }

  lemma {:induction false} LegWindowsHold(legs: seq<seq<Record>>, openEndNs: int)
    ensures NonEmpty(LegWindows(legs, openEndNs))
    ensures forall k | 0 <= k < |legs| && ALegWindow(legs[k], openEndNs).Some? ::
              ALegWindow(legs[k], openEndNs).value in LegWindows(legs, openEndNs)
  {
    if legs != [] {
      WindowSpansTheSetup(legs[0], openEndNs);
      LegWindowsHold(legs[1..], openEndNs);
    }
  }

  /** Every instant of every leg's setup, from a second before its start up to
      its first final answer, is in the merged ranges. */
  lemma SetupIsInTheMerge(legs: seq<seq<Record>>, openEndNs: int, k: nat, start: int, final: int, t: int)
    requires k < |legs| && IsStart(legs[k], start) && IsFirstFinal(legs[k], start, final)
    requires start - 1_000_000_000 <= t <= final
    ensures Covers(Merged(Sort(WindowLe, LegWindows(legs, openEndNs))), t)
  {
    var windows := LegWindows(legs, openEndNs);
    LegWindowsHold(legs, openEndNs);
    WindowSpansTheSetup(legs[k], openEndNs);
    var w := ALegWindow(legs[k], openEndNs).value;
    assert w.0 <= t < w.1 && w in windows;
    assert Covers(windows, t);
    MergeCoversTheSame(windows);
  }
}
