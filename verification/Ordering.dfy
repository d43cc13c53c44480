/** The orders LMD sorts by: byte order on strings, numeric order on numbers,
    and the lexicographic comparison over several sort fields whose Less
    answers true when every field is equal, so it is a total preorder "at most"
    rather than a strict order. */
module Ordering {

  // ------------------------------------------------------------ string order

  predicate StrLess(a: string, b: string) {
    b != [] && (a == [] || a[0] < b[0] || (a[0] == b[0] && StrLess(a[1..], b[1..])))
  }

  lemma {:induction false} StrLessTotal(a: string, b: string)
    ensures StrLess(a, b) || a == b || StrLess(b, a)
    ensures !(StrLess(a, b) && StrLess(b, a)) && !StrLess(a, a)
  {
    if a != [] {
      StrLessTotal(a[1..], a[1..]);
    }
    if a != [] && b != [] {
      StrLessTotal(a[1..], b[1..]);
      assert a == [a[0]] + a[1..] && b == [b[0]] + b[1..];
    }
  }

  lemma {:induction false} StrLessTransitive(a: string, b: string, c: string)
    requires StrLess(a, b) && StrLess(b, c)
    ensures StrLess(a, c)
  {
    if a != [] && a[0] == b[0] == c[0] {
      StrLessTransitive(a[1..], b[1..], c[1..]);
    }
  }

  // -------------------------------------------------------- multi-field keys

  /** One sort field's value of a row. */
  datatype Cell = Num(n: real) | Str(s: string)

  datatype Direction = Asc | Desc

  type Key = seq<Cell>

  predicate CellLess(a: Cell, b: Cell) {
    match (a, b)
    case (Num(x), Num(y)) => x < y
    case (Str(x), Str(y)) => StrLess(x, y)
    case (Num(_), Str(_)) => true
    case (Str(_), Num(_)) => false
  }

  /** Field by field; the first field that differs decides, equal keys are
      "less" both ways. */
  predicate Less(dirs: seq<Direction>, a: Key, b: Key)
    requires |a| == |b| == |dirs|
  {
    if dirs == [] then true
    else if a[0] == b[0] then Less(dirs[1..], a[1..], b[1..])
    else if dirs[0] == Asc then CellLess(a[0], b[0])
    else CellLess(b[0], a[0])
  }

  lemma CellLessTotal(a: Cell, b: Cell)
    ensures CellLess(a, b) || a == b || CellLess(b, a)
    ensures !(CellLess(a, b) && CellLess(b, a)) && !CellLess(a, a)
  {
    if a.Str? {
      StrLessTotal(a.s, a.s);
      if b.Str? {
        StrLessTotal(a.s, b.s);
      }
    }
  }

  lemma CellLessTransitive(a: Cell, b: Cell, c: Cell)
    requires CellLess(a, b) && CellLess(b, c)
    ensures CellLess(a, c)
  {
    if a.Str? && b.Str? && c.Str? {
      StrLessTransitive(a.s, b.s, c.s);
    }
  }

  /** Any two keys compare, and they compare both ways only when equal. */
  lemma {:induction false} LessTotal(dirs: seq<Direction>, a: Key, b: Key)
    requires |a| == |b| == |dirs|
    ensures Less(dirs, a, b) || Less(dirs, b, a)
    ensures Less(dirs, a, b) && Less(dirs, b, a) <==> a == b
  {
    if dirs != [] {
      CellLessTotal(a[0], b[0]);
      LessTotal(dirs[1..], a[1..], b[1..]);
      assert a == [a[0]] + a[1..] && b == [b[0]] + b[1..];
    }
  }

  lemma {:induction false} LessTransitive(dirs: seq<Direction>, a: Key, b: Key, c: Key)
    requires |a| == |b| == |c| == |dirs|
    requires Less(dirs, a, b) && Less(dirs, b, c)
    ensures Less(dirs, a, c)
  {
    if dirs != [] {
      CellLessTotal(a[0], b[0]);
      CellLessTotal(b[0], c[0]);
      CellLessTotal(a[0], c[0]);
      if a[0] == b[0] == c[0] {
        LessTransitive(dirs[1..], a[1..], b[1..], c[1..]);
      } else if a[0] != b[0] && b[0] != c[0] {
        if dirs[0] == Asc {
          CellLessTransitive(a[0], b[0], c[0]);
          CellLessTotal(a[0], c[0]);
        } else {
          CellLessTransitive(c[0], b[0], a[0]);
          CellLessTotal(a[0], c[0]);
        }
      }
    }
  }

  // --------------------------------------------------- what the orders mean

  /** Up to k both texts agree; there the first ends, or its character is the smaller. */
  ghost predicate PrecedesAt(a: string, b: string, k: nat) {
    && k <= |a| && k <= |b| && a[..k] == b[..k]
    && ((k == |a| && k < |b|) || (k < |a| && k < |b| && a[k] < b[k]))
  }

  /** A proper prefix, or smaller at the first difference. */
  ghost predicate Precedes(a: string, b: string) {
    exists k: nat :: PrecedesAt(a, b, k)
  }

  lemma {:induction false} StrLessMeans(a: string, b: string)
    ensures StrLess(a, b) <==> Precedes(a, b)
  {
    if a == [] || b == [] || a[0] != b[0] {
      assert StrLess(a, b) ==> PrecedesAt(a, b, 0);
      forall k: nat | PrecedesAt(a, b, k)
        ensures StrLess(a, b)
      {
        if k > 0 {
          assert a[..k][0] == b[..k][0];
        }
      }
    } else {
      StrLessMeans(a[1..], b[1..]);
      forall k: nat | PrecedesAt(a[1..], b[1..], k)
        ensures PrecedesAt(a, b, k + 1)
      {
        assert a[..k + 1] == [a[0]] + a[1..][..k] && b[..k + 1] == [b[0]] + b[1..][..k];
      }
      forall k: nat | PrecedesAt(a, b, k)
        ensures k > 0 && PrecedesAt(a[1..], b[1..], k - 1)
      {
        assert a[1..][..k - 1] == a[..k][1..] && b[1..][..k - 1] == b[..k][1..];
      }
    }
  }

  /** Equal up to field k, where the order is decided unless all fields are equal. */
  ghost predicate DecidedAt(dirs: seq<Direction>, a: Key, b: Key, k: nat)
    requires |a| == |b| == |dirs|
  {
    && k <= |dirs| && (forall i :: 0 <= i < k ==> a[i] == b[i])
    && (k < |dirs| ==> if dirs[k] == Asc then CellLess(a[k], b[k]) else CellLess(b[k], a[k]))
  }

  lemma {:induction false} LessMeans(dirs: seq<Direction>, a: Key, b: Key) returns (k: nat)
    requires |a| == |b| == |dirs| && Less(dirs, a, b)
    ensures DecidedAt(dirs, a, b, k)
  {
    k := 0;
    if dirs != [] && a[0] == b[0] {
      var j := LessMeans(dirs[1..], a[1..], b[1..]);
      k := j + 1;
      assert forall i :: 1 <= i < k ==> a[i] == a[1..][i - 1] && b[i] == b[1..][i - 1];
    }
  }
}

/** Sorted arrangements under an arbitrary total preorder, as sort.Sort leaves
    them: the library sort is not stable, so a result is only known to be some
    sorted permutation. */
module SortedSeqs {

  ghost predicate TotalPreorder<T(!new)>(le: (T, T) -> bool) {
    && (forall x, y :: le(x, y) || le(y, x))
    && (forall x, y, z :: le(x, y) && le(y, z) ==> le(x, z))
  }

  ghost predicate Sorted<T>(le: (T, T) -> bool, s: seq<T>) {
    forall i, j :: 0 <= i < j < |s| ==> le(s[i], s[j])
  }

  /** out is a possible result of sorting s. */
  ghost predicate IsSortOf<T>(le: (T, T) -> bool, s: seq<T>, out: seq<T>) {
    Sorted(le, out) && multiset(out) == multiset(s)
  }

  function Smaller(a: nat, b: nat): nat {
    if a < b then a else b
  }

  /** How many elements are strictly before x. */
  function Below<T>(le: (T, T) -> bool, s: seq<T>, x: T): (n: nat)
    ensures n <= |s|
  {
    if s == [] then 0 else (if le(x, s[0]) then 0 else 1) + Below(le, s[1..], x)
  }

  lemma {:induction false} BelowAppend<T>(le: (T, T) -> bool, a: seq<T>, b: seq<T>, x: T)
    ensures Below(le, a + b, x) == Below(le, a, x) + Below(le, b, x)
  {
    if a == [] {
      assert a + b == b;
    } else {
      assert (a + b)[1..] == a[1..] + b;
      BelowAppend(le, a[1..], b, x);
    }
  }

  lemma {:induction false} BelowNone<T>(le: (T, T) -> bool, s: seq<T>, x: T)
    requires forall j :: 0 <= j < |s| ==> le(x, s[j])
    ensures Below(le, s, x) == 0
  {
    if s != [] {
      BelowNone(le, s[1..], x);
    }
  }

  /** In sorted order the elements before x are exactly a prefix. */
  lemma {:induction false} BelowSorted<T(!new)>(le: (T, T) -> bool, s: seq<T>, x: T, i: nat)
    requires TotalPreorder(le) && Sorted(le, s) && i < |s|
    ensures !le(x, s[i]) <==> i < Below(le, s, x)
  {
    if le(x, s[0]) {
      BelowNone(le, s, x);
    } else if i > 0 {
      BelowSorted(le, s[1..], x, i - 1);
    }
  }

  /** Splits b around one occurrence of the first element of a. */
  lemma Around<T>(a: seq<T>, b: seq<T>) returns (front: seq<T>, back: seq<T>)
    requires a != [] && multiset(a) == multiset(b)
    ensures b == front + [a[0]] + back && multiset(front + back) == multiset(a[1..])
  {
    assert a == [a[0]] + a[1..];
    assert a[0] in multiset(b);
    var i :| 0 <= i < |b| && b[i] == a[0];
    front, back := b[..i], b[i + 1..];
    assert b == front + [a[0]] + back;
    var x := multiset{a[0]};
    assert multiset(b) == multiset(front + back) + x;
    assert multiset(a) == multiset(a[1..]) + x;
    Cancel(multiset(front + back), multiset(a[1..]), x);
  }

  lemma Cancel<T>(a: multiset<T>, b: multiset<T>, x: multiset<T>)
    requires a + x == b + x
    ensures a == b
  {
    assert a == (a + x) - x;
    assert b == (b + x) - x;
  }

  lemma SameElements<T>(a: seq<T>, b: seq<T>)
    requires multiset(a) == multiset(b)
    ensures forall v :: v in a <==> v in b
  {
    forall v
      ensures v in a <==> v in b
    {
      assert v in a <==> v in multiset(a);
      assert v in b <==> v in multiset(b);
    }
  }

  /** Rank counts do not depend on the arrangement. */
  lemma {:induction false} BelowPermutation<T>(le: (T, T) -> bool, a: seq<T>, b: seq<T>, x: T)
    requires multiset(a) == multiset(b)
    ensures Below(le, a, x) == Below(le, b, x)
  {
    if a == [] {
      assert |multiset(b)| == 0;
    } else {
      var front, back := Around(a, b);
      BelowPermutation(le, a[1..], front + back, x);
      BelowAppend(le, front + [a[0]], back, x);
      BelowAppend(le, front, [a[0]], x);
      BelowAppend(le, front, back, x);
    }
  }

  lemma NotBefore<T(!new)>(le: (T, T) -> bool, a: seq<T>, b: seq<T>, n: nat, i: nat)
    requires TotalPreorder(le) && Sorted(le, a) && Sorted(le, b)
    requires i < n <= |a| && n <= |b|
    requires Smaller(n, Below(le, a, a[i])) == Smaller(n, Below(le, b, a[i]))
    ensures le(a[i], b[i])
  {
    BelowSorted(le, a, a[i], i);
    BelowSorted(le, b, a[i], i);
  }

  /** Two sorted sequences whose rank counts agree up to n carry the same keys
      at their first n positions. */
  lemma SortedPrefixDetermined<T(!new)>(le: (T, T) -> bool, a: seq<T>, b: seq<T>, n: nat)
    requires TotalPreorder(le) && Sorted(le, a) && Sorted(le, b)
    requires n <= |a| && n <= |b|
    requires forall x :: Smaller(n, Below(le, a, x)) == Smaller(n, Below(le, b, x))
    ensures forall i :: 0 <= i < n ==> le(a[i], b[i]) && le(b[i], a[i])
  {
    forall i | 0 <= i < n
      ensures le(a[i], b[i]) && le(b[i], a[i])
    {
      NotBefore(le, a, b, n, i);
      NotBefore(le, b, a, n, i);
    }
  }

  /** Any two sorts of the same elements carry the same keys position by position. */
  lemma SortDetermined<T(!new)>(le: (T, T) -> bool, a: seq<T>, b: seq<T>)
    requires TotalPreorder(le) && Sorted(le, a) && Sorted(le, b)
    requires multiset(a) == multiset(b)
    ensures |a| == |b|
    ensures forall i :: 0 <= i < |a| ==> le(a[i], b[i]) && le(b[i], a[i])
  {
    assert |a| == |multiset(a)| == |multiset(b)| == |b|;
    forall x
      ensures Below(le, a, x) == Below(le, b, x)
    {
      BelowPermutation(le, a, b, x);
    }
    SortedPrefixDetermined(le, a, b, |a|);
  }

  /** Puts x before the first element it is at most equal to. */
  function Insert<T>(le: (T, T) -> bool, x: T, s: seq<T>): seq<T> {
    if s == [] || le(x, s[0]) then [x] + s else [s[0]] + Insert(le, x, s[1..])
  }

  /** One way to sort. */
  function Sort<T>(le: (T, T) -> bool, s: seq<T>): seq<T> {
    if s == [] then [] else Insert(le, s[0], Sort(le, s[1..]))
  }

  lemma {:induction false} InsertAdds<T>(le: (T, T) -> bool, x: T, s: seq<T>)
    ensures multiset(Insert(le, x, s)) == multiset(s) + multiset{x}
  {
    if s != [] && !le(x, s[0]) {
      InsertAdds(le, x, s[1..]);
      assert s == [s[0]] + s[1..];
    }
  }

  lemma {:induction false} InsertSorted<T(!new)>(le: (T, T) -> bool, x: T, s: seq<T>)
    requires TotalPreorder(le) && Sorted(le, s)
    ensures Sorted(le, Insert(le, x, s))
  {
    if s != [] && !le(x, s[0]) {
      var r := Insert(le, x, s[1..]);
      InsertSorted(le, x, s[1..]);
      InsertAdds(le, x, s[1..]);
      forall i | 0 <= i < |r|
        ensures le(s[0], r[i])
      {
        assert r[i] in multiset(r);
        assert r[i] == x || r[i] in s[1..];
      }
    }
  }

  lemma {:induction false} SortSorts<T(!new)>(le: (T, T) -> bool, s: seq<T>)
    requires TotalPreorder(le)
    ensures IsSortOf(le, s, Sort(le, s))
  {
    if s != [] {
      SortSorts(le, s[1..]);
      InsertSorted(le, s[0], Sort(le, s[1..]));
      InsertAdds(le, s[0], Sort(le, s[1..]));
      assert s == [s[0]] + s[1..];
    }
  }
}
