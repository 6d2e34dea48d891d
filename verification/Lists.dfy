/** Picking the elements of a list that satisfy a test. */
module Lists {
  import opened Ordering

  function Select<T>(p: T -> bool, s: seq<T>): seq<T> {
    if s == [] then [] else (if p(s[0]) then [s[0]] else []) + Select(p, s[1..])
  }

  lemma {:induction false} SelectedIn<T>(p: T -> bool, s: seq<T>)
    ensures forall x :: x in Select(p, s) <==> x in s && p(x)
  {
    if s != [] {
      SelectedIn(p, s[1..]);
      assert s == [s[0]] + s[1..];
    }
  }

  lemma {:induction false} SelectCounts<T>(p: T -> bool, s: seq<T>, x: T)
    ensures multiset(Select(p, s))[x] == if p(x) then multiset(s)[x] else 0
  {
    if s != [] {
      SelectCounts(p, s[1..], x);
      assert s == [s[0]] + s[1..];
    }
  }

  lemma {:induction false} SelectAll<T>(p: T -> bool, s: seq<T>)
    requires forall x | x in s :: p(x)
    ensures Select(p, s) == s
  {
    if s != [] {
      assert forall x | x in s[1..] :: x in s;
      SelectAll(p, s[1..]);
      assert s == [s[0]] + s[1..];
    }
  }

  lemma {:induction false} SelectNone<T>(p: T -> bool, s: seq<T>)
    requires forall x | x in s :: !p(x)
    ensures Select(p, s) == []
  {
    if s != [] {
      assert forall x | x in s[1..] :: x in s;
      SelectNone(p, s[1..]);
    }
  }

  lemma {:induction false} SelectJoins<T>(p: T -> bool, a: seq<T>, b: seq<T>)
    ensures Select(p, a + b) == Select(p, a) + Select(p, b)
  {
    if a == [] {
      assert a + b == b;
    } else {
      SelectJoins(p, a[1..], b);
      var rest := Select(p, a[1..]) + Select(p, b);
      assert Select(p, a + b) == (if p(a[0]) then [a[0]] else []) + rest by {
        assert (a + b)[0] == a[0] && (a + b)[1..] == a[1..] + b;
      }
      assert Select(p, a) + Select(p, b) == (if p(a[0]) then [a[0]] else []) + rest;
    }
  }

  lemma {:induction false} SelectOnce<T>(p: T -> bool, s: seq<T>)
    requires NoDup(s)
    ensures NoDup(Select(p, s))
  {
    if s != [] {
      SelectOnce(p, s[1..]);
      SelectedIn(p, s[1..]);
      assert s[0] !in s[1..];
    }
  }

  lemma {:induction false} SelectSorted<T(!new)>(le: (T, T) -> bool, p: T -> bool, s: seq<T>)
    requires SortedBy(le, s)
    ensures SortedBy(le, Select(p, s))
  {
    if s != [] {
      SelectSorted(le, p, s[1..]);
      SelectedIn(p, s[1..]);
      var t := Select(p, s[1..]);
      forall j | 0 <= j < |t|
        ensures le(s[0], t[j])
      {
        assert t[j] in s[1..];
        var i :| 0 <= i < |s| - 1 && s[1..][i] == t[j];
        assert le(s[0], s[i + 1]);
      }
    }
  }

  lemma {:induction false} SelectSize<T>(p: T -> bool, s: seq<T>)
    ensures |Select(p, s)| <= |s|
    ensures |Select(p, s)| == |s| ==> Select(p, s) == s && forall x | x in s :: p(x)
  {
    if s != [] {
      SelectSize(p, s[1..]);
      assert s == [s[0]] + s[1..];
    }
  }

  /** Two tests in a row are one. */
  lemma {:induction false} SelectBoth<T(!new)>(p: T -> bool, q: T -> bool, both: T -> bool, s: seq<T>)
    requires forall x :: both(x) <==> p(x) && q(x)
    ensures Select(q, Select(p, s)) == Select(both, s)
  {
    if s != [] {
      SelectBoth(p, q, both, s[1..]);
      var rest := Select(p, s[1..]);
      assert p(s[0]) ==> Select(p, s) == [s[0]] + rest && ([s[0]] + rest)[1..] == rest;
      assert !p(s[0]) ==> Select(p, s) == rest;
    }
  }

  lemma {:induction false} SelectSame<T>(p: T -> bool, q: T -> bool, s: seq<T>)
    requires forall x | x in s :: p(x) <==> q(x)
    ensures Select(p, s) == Select(q, s)
  {
    if s != [] {
      assert s[0] in s && forall x | x in s[1..] :: x in s;
      SelectSame(p, q, s[1..]);
    }
  }

  /** What satisfies one of two tests that exclude each other. */
  lemma {:induction false} SelectEither<T(!new)>(p: T -> bool, a: T -> bool, b: T -> bool, s: seq<T>)
    requires forall x :: (p(x) <==> a(x) || b(x)) && !(a(x) && b(x))
    ensures |Select(p, s)| == |Select(a, s)| + |Select(b, s)|
  {
    if s != [] {
      SelectEither(p, a, b, s[1..]);
    }
  }

  /** A list of some of the elements has no more that satisfy the test. */
  lemma SelectFewer<T(!new)>(p: T -> bool, s: seq<T>, t: seq<T>)
    requires multiset(s) <= multiset(t)
    ensures |Select(p, s)| <= |Select(p, t)|
  {
    forall x | x in multiset(Select(p, s))
      ensures multiset(Select(p, s))[x] <= multiset(Select(p, t))[x]
    {
      SelectCounts(p, s, x);
      SelectCounts(p, t, x);
    }
    SubMultisetSize(multiset(Select(p, s)), multiset(Select(p, t)));
    assert |multiset(Select(p, s))| == |Select(p, s)| && |multiset(Select(p, t))| == |Select(p, t)|;
  }

  /** Ordered lists without repeats are equal when they have the same elements. */
  lemma SameElements<T(!new)>(le: (T, T) -> bool, a: seq<T>, b: seq<T>)
    requires TotalOrder(le) && SortedBy(le, a) && SortedBy(le, b) && NoDup(a) && NoDup(b)
    requires forall x :: x in a <==> x in b
    ensures a == b
  {
    NoDupCounts(a);
    NoDupCounts(b);
    forall x: T
      ensures multiset(a)[x] == multiset(b)[x]
    {
      assert x in a <==> x in multiset(a);
      assert x in b <==> x in multiset(b);
    }
    assert multiset(a) == multiset(b);
    SortedUnique(le, a, b);
  }

  lemma SubMultisetSize<T>(a: multiset<T>, b: multiset<T>)
    requires a <= b
    ensures |a| <= |b|
  {
    assert b == a + (b - a);
  }

  /** A list without repeats is no longer than one that has all its elements. */
  lemma NoLongerThan<T>(a: seq<T>, b: seq<T>)
    requires NoDup(a) && forall x | x in a :: x in b
    ensures |a| <= |b|
  {
    NoDupCounts(a);
    forall x | x in multiset(a)
      ensures multiset(a)[x] <= multiset(b)[x]
    {
      assert x in a && x in b;
      assert x in multiset(b);
    }
    assert multiset(a) <= multiset(b);
    SubMultisetSize(multiset(a), multiset(b));
    assert |multiset(a)| == |a| && |multiset(b)| == |b|;
  }
}
