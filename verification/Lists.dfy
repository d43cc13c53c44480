/** Lists of anything: no entry twice, selecting some entries in order, joining
    several lists. */
module Lists {

  ghost predicate NoDup<T>(xs: seq<T>) {
    forall i, j :: 0 <= i < j < |xs| ==> xs[i] != xs[j]
  }

  function Matches<T>(p: T -> bool, xs: seq<T>): (r: seq<T>)
    ensures |r| <= |xs|
  {
    if xs == [] then [] else Matches(p, xs[..|xs| - 1]) + (if p(xs[|xs| - 1]) then [xs[|xs| - 1]] else [])
  }

  lemma {:induction false} MatchesPrefix<T>(p: T -> bool, xs: seq<T>, k: nat)
    requires k <= |xs|
    ensures Matches(p, xs[..k]) <= Matches(p, xs)
    decreases |xs|
  {
    if k < |xs| {
      var n := |xs| - 1;
      MatchesPrefix(p, xs[..n], k);
      assert xs[..n][..k] == xs[..k];
    } else {
      assert xs[..k] == xs;
    }
  }

  lemma {:induction false} MatchesMembers<T>(p: T -> bool, xs: seq<T>)
    ensures forall r :: r in Matches(p, xs) <==> r in xs && p(r)
  {
    if xs != [] {
      var n := |xs| - 1;
      MatchesMembers(p, xs[..n]);
      assert xs == xs[..n] + [xs[n]];
    }
  }

  lemma {:induction false} MatchesSame<T>(p: T -> bool, q: T -> bool, xs: seq<T>)
    requires forall i :: 0 <= i < |xs| ==> p(xs[i]) == q(xs[i])
    ensures Matches(p, xs) == Matches(q, xs)
  {
    if xs != [] {
      MatchesSame(p, q, xs[..|xs| - 1]);
    }
  }

  lemma MatchesSnoc<T>(p: T -> bool, xs: seq<T>, x: T)
    ensures Matches(p, xs + [x]) == if p(x) then Matches(p, xs) + [x] else Matches(p, xs)
  {
    assert (xs + [x])[..|xs|] == xs;
  }

  lemma MatchesNext<T>(p: T -> bool, xs: seq<T>, i: nat)
    requires i < |xs|
    ensures Matches(p, xs[..i + 1]) == if p(xs[i]) then Matches(p, xs[..i]) + [xs[i]] else Matches(p, xs[..i])
  {
    MatchesSnoc(p, xs[..i], xs[i]);
    assert xs[..i + 1] == xs[..i] + [xs[i]];
  }

  lemma {:induction false} MatchesAll<T>(p: T -> bool, xs: seq<T>)
    requires forall i :: 0 <= i < |xs| ==> p(xs[i])
    ensures Matches(p, xs) == xs
  {
    if xs != [] {
      MatchesAll(p, xs[..|xs| - 1]);
    }
  }

  lemma {:induction false} MatchesNone<T>(p: T -> bool, xs: seq<T>)
    requires forall i :: 0 <= i < |xs| ==> !p(xs[i])
    ensures Matches(p, xs) == []
  {
    if xs != [] {
      MatchesNone(p, xs[..|xs| - 1]);
    }
  }

  lemma MatchesSplit<T>(p: T -> bool, left: seq<T>, x: T, right: seq<T>)
    ensures Matches(p, left + [x] + right) ==
            if p(x) then Matches(p, left) + [x] + Matches(p, right) else Matches(p, left) + Matches(p, right)
  {
    hide Matches;
    MatchesAppend(p, left + [x], right);
    MatchesSnoc(p, left, x);
  }

  lemma {:induction false} MatchesAppend<T>(p: T -> bool, a: seq<T>, b: seq<T>)
    ensures Matches(p, a + b) == Matches(p, a) + Matches(p, b)
    decreases |b|
  {
    if b == [] {
      assert a + b == a;
    } else {
      var n := |b| - 1;
      assert (a + b)[..|a| + n] == a + b[..n];
      MatchesAppend(p, a, b[..n]);
    }
  }

  lemma {:induction false} MatchesTwice<T>(p: T -> bool, q: T -> bool, both: T -> bool, xs: seq<T>)
    requires forall r :: both(r) == (p(r) && q(r))
    ensures Matches(q, Matches(p, xs)) == Matches(both, xs)
  {
    if xs != [] {
      var n := |xs| - 1;
      MatchesTwice(p, q, both, xs[..n]);
      MatchesAppend(q, Matches(p, xs[..n]), if p(xs[n]) then [xs[n]] else []);
    }
  }

  /** Lists one after the other. */
  function Concat<T>(lists: seq<seq<T>>): seq<T> {
    if lists == [] then [] else lists[0] + Concat(lists[1..])
  }

  lemma {:induction false} ConcatSnoc<T>(lists: seq<seq<T>>, last: seq<T>)
    ensures Concat(lists + [last]) == Concat(lists) + last
  {
    if lists == [] {
      assert [] + [last] == [last] && [last][1..] == [];
    } else {
      assert (lists + [last])[1..] == lists[1..] + [last];
      ConcatSnoc(lists[1..], last);
    }
  }

  lemma {:induction false} ConcatPermuted<T>(a: seq<seq<T>>, b: seq<seq<T>>)
    requires |a| == |b| && forall i :: 0 <= i < |a| ==> multiset(a[i]) == multiset(b[i])
    ensures multiset(Concat(a)) == multiset(Concat(b))
  {
    if a != [] {
      ConcatPermuted(a[1..], b[1..]);
    }
  }

  lemma {:induction false} InConcat<T>(lists: seq<seq<T>>, x: T)
    ensures x in Concat(lists) <==> exists i :: 0 <= i < |lists| && x in lists[i]
  {
    if lists != [] {
      InConcat(lists[1..], x);
      if i :| 0 <= i < |lists| && x in lists[i] && i > 0 {
        assert lists[1..][i - 1] == lists[i];
      }
      if x in Concat(lists[1..]) {
        var i :| 0 <= i < |lists[1..]| && x in lists[1..][i];
        assert lists[i + 1] == lists[1..][i];
      }
    }
  }

  lemma {:induction false} ConcatEmpty<T>(lists: seq<seq<T>>)
    requires forall i :: 0 <= i < |lists| ==> lists[i] == []
    ensures Concat(lists) == []
  {
    if lists != [] {
      ConcatEmpty(lists[1..]);
    }
  }

  lemma {:induction false} MatchesNoDup<T>(p: T -> bool, xs: seq<T>)
    requires NoDup(xs)
    ensures NoDup(Matches(p, xs))
  {
    if xs != [] {
      var n := |xs| - 1;
      MatchesNoDup(p, xs[..n]);
      MatchesMembers(p, xs[..n]);
      assert xs[n] !in xs[..n];
    }
  }

  lemma {:induction false} SameMembers<T>(a: seq<T>, b: seq<T>)
    requires NoDup(a) && NoDup(b)
    requires forall r :: r in a <==> r in b
    ensures multiset(a) == multiset(b)
  {
    forall r: T
      ensures multiset(a)[r] == multiset(b)[r]
    {
      NoDupCount(a, r);
      NoDupCount(b, r);
    }
  }

  lemma {:induction false} NoDupCount<T>(a: seq<T>, r: T)
    requires NoDup(a)
    ensures multiset(a)[r] == if r in a then 1 else 0
  {
    if a != [] {
      NoDupCount(a[1..], r);
      assert a == [a[0]] + a[1..];
      assert a[0] !in a[1..];
    }
  }
}
