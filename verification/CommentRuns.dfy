/** Whole runs of a remote site that adds and removes comments, and a cache that
    follows it, its queries interleaved with the site's changes. */
module CommentRuns {
  import opened Filters
  import opened DataStores
  import opened CommentSync
  import opened Lists

  /** Rows in the order of their ids. */
  ghost predicate Increasing(rows: seq<Row>) {
    forall i, j :: 0 <= i < j < |rows| ==> Id(rows[i]) < Id(rows[j])
  }

  ghost predicate Within(rows: seq<Row>, low: int, high: int) {
    forall i :: 0 <= i < |rows| ==> low <= Id(rows[i]) < high
  }

  /** Every row with an id below the mark is cached. */
  ghost predicate CachedBelow(remote: seq<Row>, mark: int, cache: seq<Row>) {
    forall i :: 0 <= i < |remote| && Id(remote[i]) < mark ==> remote[i] in cache
  }

  // ---------------------------------------------------- ordered lists of rows

  /** Ordered lists: a part is not longer, and of the same length only if equal. */
  lemma {:induction false} OrderedPart(a: seq<Row>, b: seq<Row>)
    requires Increasing(a) && Increasing(b)
    requires forall i :: 0 <= i < |a| ==> a[i] in b
    ensures |a| <= |b| && (|a| == |b| ==> a == b)
    decreases |b|
  {
    if a != [] {
      var m, n := |a| - 1, |b| - 1;
      var x := a[m];
      assert x in b;
      if x == b[n] {
        forall i | 0 <= i < m
          ensures a[..m][i] in b[..n]
        {
          assert a[i] in b && a[i] != b[n];
          InFront(b, a[i]);
        }
        OrderedPart(a[..m], b[..n]);
        assert a == a[..m] + [x] && b == b[..n] + [x];
      } else {
        forall i | 0 <= i < |a|
          ensures a[i] in b[..n]
        {
          assert a[i] != b[n] by { LastLargest(b, x); }
          InFront(b, a[i]);
        }
        OrderedPart(a, b[..n]);
      }
    }
  }

  lemma InFront(b: seq<Row>, x: Row)
    requires x in b && x != b[|b| - 1]
    ensures x in b[..|b| - 1]
  {
    assert b == b[..|b| - 1] + [b[|b| - 1]];
  }

  lemma LastLargest(b: seq<Row>, x: Row)
    requires Increasing(b) && x in b && x != b[|b| - 1]
    ensures Id(x) < Id(b[|b| - 1])
  {
    InFront(b, x);
  }

  lemma OrderedEqual(a: seq<Row>, b: seq<Row>)
    requires Increasing(a) && Increasing(b)
    requires forall r :: r in a <==> r in b
    ensures a == b
  {
    assert forall i :: 0 <= i < |a| ==> a[i] in b;
    assert forall i :: 0 <= i < |b| ==> b[i] in a;
    OrderedPart(a, b);
    OrderedPart(b, a);
  }

  lemma {:induction false} MatchesOrdered(p: Row -> bool, rows: seq<Row>)
    requires Increasing(rows)
    ensures Increasing(Matches(p, rows))
  {
    if rows != [] {
      var n := |rows| - 1;
      MatchesOrdered(p, rows[..n]);
      MatchesMembers(p, rows[..n]);
      MatchesSnoc(p, rows[..n], rows[n]);
      assert rows == rows[..n] + [rows[n]];
      var front := Matches(p, rows[..n]);
      hide Matches;
      forall i | 0 <= i < |front|
        ensures Id(front[i]) < Id(rows[n])
      {
        assert front[i] in rows[..n];
      }
    }
  }

  lemma OrderedJoin(a: seq<Row>, b: seq<Row>, low: int, mid: int, high: int)
    requires Increasing(a) && Increasing(b) && Within(a, low, mid) && Within(b, mid, high) && low <= mid <= high
    ensures Increasing(a + b) && Within(a + b, low, high)
  {
    assert forall i :: |a| <= i < |a + b| ==> (a + b)[i] == b[i - |a|];
  }

  lemma {:induction false} MaxIdLast(rows: seq<Row>)
    requires Increasing(rows) && rows != []
    ensures MaxId(rows) == Id(rows[|rows| - 1])
  {
    if |rows| > 1 {
      MaxIdLast(rows[1..]);
    }
  }

  // --------------------------------------------------------- change detector

  /** When ids only grow, the detector is silent exactly when nothing changed:
      equal count and equal highest id mean equal tables. */
  lemma DetectorExact(cache: seq<Row>, remote: seq<Row>, mark: int, next: int)
    requires Increasing(cache) && Increasing(remote) && Within(cache, 0, mark) && Within(remote, 0, next)
    requires CachedBelow(remote, mark, cache)
    ensures MaxIDOrSizeChanged(cache, Summary(remote)) <==> cache != remote
  {
    MatchesAll(r => Id(r) != -1, remote);
    hide Matches;
    if remote != [] {
      MaxIdLast(remote);
    }
    hide MaxId;
    if !MaxIDOrSizeChanged(cache, Summary(remote)) && cache != [] {
      forall i | 0 <= i < |remote|
        ensures remote[i] in cache
      {
        assert Id(remote[i]) <= Id(remote[|remote| - 1]) < mark;
      }
      OrderedPart(remote, cache);
    }
  }

  /** Without growth it can miss a change: the site swaps one entry below its
      highest id for another one. */
  lemma ReusedIdMissed(a: Row, b: Row, top: Row)
    requires 0 <= Id(a) < Id(top) && 0 <= Id(b) < Id(top) && Id(a) != Id(b)
    ensures !MaxIDOrSizeChanged([a, top], Summary([b, top])) && [a, top] != [b, top]
  {
    MatchesAll(r => Id(r) != -1, [b, top]);
    MaxIdLast([b, top]);
    hide MaxId, Matches;
    assert Summary([b, top]) == [(2, Id(top))];
    assert [a, top][0] != [b, top][0];
  }

  /** Rows the site may list: some of a pool, in id order. */
  ghost predicate ListedFrom(pool: seq<Row>, remote: seq<Row>) {
    Increasing(remote) && forall i :: 0 <= i < |remote| ==> remote[i] in pool
  }

  /** For a cache of two rows or more, the detector is right about everything the
      site may list if and only if each row it may list with an id below the
      highest cached one is cached. */
  lemma DetectorExactIff(cache: seq<Row>, pool: seq<Row>)
    requires Increasing(pool) && (forall i :: 0 <= i < |pool| ==> Id(pool[i]) >= 0)
    requires ListedFrom(pool, cache) && |cache| >= 2
    ensures (forall remote :: ListedFrom(pool, remote) ==> (MaxIDOrSizeChanged(cache, Summary(remote)) <==> cache != remote))
       <==> forall r :: r in pool && Id(r) < Id(cache[|cache| - 1]) ==> r in cache
  {
    hide MaxIDOrSizeChanged, Summary;
    if forall r :: r in pool && Id(r) < Id(cache[|cache| - 1]) ==> r in cache {
      forall remote | ListedFrom(pool, remote)
        ensures MaxIDOrSizeChanged(cache, Summary(remote)) <==> cache != remote
      {
        KnownBelow(cache, pool, remote);
      }
    } else {
      var r :| r in pool && Id(r) < Id(cache[|cache| - 1]) && r !in cache;
      var remote := SwappedIn(cache, pool, r);
      assert ListedFrom(pool, remote);
    }
  }

  lemma KnownBelow(cache: seq<Row>, pool: seq<Row>, remote: seq<Row>)
    requires Increasing(pool) && (forall i :: 0 <= i < |pool| ==> Id(pool[i]) >= 0)
    requires ListedFrom(pool, cache) && ListedFrom(pool, remote) && |cache| >= 2
    requires forall r :: r in pool && Id(r) < Id(cache[|cache| - 1]) ==> r in cache
    ensures MaxIDOrSizeChanged(cache, Summary(remote)) <==> cache != remote
  {
    hide MaxIDOrSizeChanged, Summary;
    var top := cache[|cache| - 1];
    var mark := Id(top) + 1;
    var next := if remote == [] then 0 else Id(remote[|remote| - 1]) + 1;
    forall i | 0 <= i < |remote| && Id(remote[i]) < mark
      ensures remote[i] in cache
    {
      if Id(remote[i]) == Id(top) {
        OrderedDistinct(pool, remote[i], top);
      }
    }
    DetectorExact(cache, remote, mark, next);
  }

  /** The first cached row is gone and an unknown one below the highest id has come. */
  lemma SwappedIn(cache: seq<Row>, pool: seq<Row>, r: Row) returns (remote: seq<Row>)
    requires Increasing(pool) && (forall i :: 0 <= i < |pool| ==> Id(pool[i]) >= 0)
    requires ListedFrom(pool, cache) && |cache| >= 2
    requires r in pool && r !in cache && Id(r) < Id(cache[|cache| - 1])
    ensures ListedFrom(pool, remote) && remote != cache && !MaxIDOrSizeChanged(cache, Summary(remote))
  {
    var rest := cache[1..];
    OtherIds(pool, rest, r);
    var j := Place(rest, r);
    remote := rest[..j] + [r] + rest[j..];
    Placed(rest, r, j);
    assert rest[|rest| - 1] == cache[|cache| - 1];
    assert r in remote;
    forall i | 0 <= i < |remote|
      ensures remote[i] in pool
    {
      assert remote[i] == r || remote[i] in rest;
    }
    hide Increasing;
    SilentSame(cache, remote);
  }

  lemma OtherIds(pool: seq<Row>, rest: seq<Row>, r: Row)
    requires Increasing(pool) && r in pool && r !in rest && forall i :: 0 <= i < |rest| ==> rest[i] in pool
    ensures forall i :: 0 <= i < |rest| ==> Id(rest[i]) != Id(r)
  {
    forall i | 0 <= i < |rest|
      ensures Id(rest[i]) != Id(r)
    {
      assert rest[i] in rest && rest[i] != r;
    }
  }

  /** Where a row belongs in an ordered list. */
  lemma Place(rest: seq<Row>, r: Row) returns (j: nat)
    requires Increasing(rest) && rest != [] && Id(r) < Id(rest[|rest| - 1])
    requires forall i :: 0 <= i < |rest| ==> Id(rest[i]) != Id(r)
    ensures j < |rest|
    ensures (forall i :: 0 <= i < j ==> Id(rest[i]) < Id(r)) && forall i :: j <= i < |rest| ==> Id(r) < Id(rest[i])
  {
    j := 0;
    while Id(rest[j]) < Id(r)
      invariant j < |rest| && forall i :: 0 <= i < j ==> Id(rest[i]) < Id(r)
      decreases |rest| - j
    {
      j := j + 1;
    }
  }

  lemma Placed(rest: seq<Row>, r: Row, j: nat)
    requires Increasing(rest) && j < |rest|
    requires (forall i :: 0 <= i < j ==> Id(rest[i]) < Id(r)) && forall i :: j <= i < |rest| ==> Id(r) < Id(rest[i])
    ensures var all := rest[..j] + [r] + rest[j..];
            Increasing(all) && |all| == |rest| + 1 && all[|all| - 1] == rest[|rest| - 1]
  {
    var all := rest[..j] + [r] + rest[j..];
    assert forall i :: j < i < |all| ==> all[i] == rest[i - 1];
    assert forall i :: 0 <= i < j ==> all[i] == rest[i];
    assert all[j] == r;
  }

  lemma SilentSame(cache: seq<Row>, remote: seq<Row>)
    requires Increasing(remote) && remote != [] && |remote| == |cache|
    requires (forall i :: 0 <= i < |remote| ==> Id(remote[i]) >= 0) && Id(remote[|remote| - 1]) == Id(cache[|cache| - 1])
    ensures !MaxIDOrSizeChanged(cache, Summary(remote))
  {
    MaxIdLast(remote);
    MatchesAll(x => Id(x) != -1, remote);
  }

  // -------------------------------------------------------------------- runs

  datatype Phase =
    | Idle
    | Changed
    /** Ids asked for; the second field is the site's next id when it listed its ids. */
    | Missing(ids: seq<int>, upto: int)

  /** The site's table and its next free id; the cache and the mark below which
      it knows every entry. */
  datatype State = State(remote: seq<Row>, next: int, cache: seq<Row>, mark: int, phase: Phase)

  datatype Step =
    | RemoteAdd(row: Row)
    | RemoteRemove(id: int)
    | AskSummary
    | AskIds
    | AskRows
    | QueryFails

  /** The cache and phase after a list of ids was compared. */
  function Compared(s: State): State {
    var ids := Ids(s.remote);
    var missing := MissingIds(s.cache, ids);
    if missing == [] then s.(cache := Kept(s.cache, ids), mark := s.next, phase := Idle)
    else s.(cache := Kept(s.cache, ids), phase := Missing(missing, s.next))
  }

  ghost predicate Next(s: State, t: State, step: Step) {
    match step
    case RemoteAdd(row) =>
      Id(row) >= s.next && HasId(row) && t == s.(remote := s.remote + [row], next := Id(row) + 1)
    case RemoteRemove(id) =>
      t == s.(remote := Matches(r => Id(r) != id, s.remote))
    case AskSummary =>
      s.phase == Idle && t == s.(phase := if MaxIDOrSizeChanged(s.cache, Summary(s.remote)) then Changed else Idle)
    case AskIds =>
      s.phase == Changed && t == Compared(s)
    case AskRows =>
      s.phase.Missing? && t == s.(cache := s.cache + Selected(s.remote, s.phase.ids), mark := s.phase.upto, phase := Idle)
    case QueryFails =>
      t == s.(phase := Idle)
  }

  /** A run starts with a cache filled from the site's table. */
  ghost predicate Init(s: State) {
    Increasing(s.remote) && Within(s.remote, 0, s.next) && s.cache == s.remote && s.mark == s.next && s.phase == Idle && s.next >= 0
  }

  ghost predicate CanStep(s: State, t: State) {
    exists step :: Next(s, t, step)
  }

  ghost predicate IsRun(run: seq<State>) {
    run != [] && Init(run[0]) && forall i :: 0 <= i < |run| - 1 ==> CanStep(run[i], run[i + 1])
  }

  /** Both tables are in id order, and the cache misses only entries added since
      its last complete update, or those it is about to ask for. */
  ghost predicate Inv(s: State) {
    && 0 <= s.mark <= s.next
    && Increasing(s.remote) && Within(s.remote, 0, s.next)
    && Increasing(s.cache) && Within(s.cache, 0, s.mark)
    && CachedBelow(s.remote, s.mark, s.cache)
    && (s.phase.Missing? ==>
        && s.mark <= s.phase.upto <= s.next
        && (forall id :: id in s.phase.ids ==> s.mark <= id < s.phase.upto)
        && forall i :: 0 <= i < |s.remote| && s.mark <= Id(s.remote[i]) < s.phase.upto ==> Id(s.remote[i]) in s.phase.ids)
  }

  lemma RemoteAddKeeps(s: State, t: State, row: Row)
    requires Inv(s) && Next(s, t, RemoteAdd(row))
    ensures Inv(t)
  {
    OrderedJoin(s.remote, [row], 0, s.next, Id(row) + 1);
    assert forall i :: 0 <= i < |t.remote| && i != |s.remote| ==> t.remote[i] == s.remote[i];
  }

  lemma RemoteRemoveKeeps(s: State, t: State, id: int)
    requires Inv(s) && Next(s, t, RemoteRemove(id))
    ensures Inv(t)
  {
    var p: Row -> bool := r => Id(r) != id;
    MatchesOrdered(p, s.remote);
    MatchesMembers(p, s.remote);
    hide Matches;
    assert forall i :: 0 <= i < |t.remote| ==> t.remote[i] in s.remote;
  }

  /** What remains in the cache after the comparison is ordered and known to the site. */
  lemma KeptPart(s: State)
    requires Inv(s)
    ensures var kept := Kept(s.cache, Ids(s.remote));
            && Increasing(kept) && Within(kept, 0, s.mark) && CachedBelow(s.remote, s.mark, kept)
            && forall r :: r in kept ==> r in s.remote
  {
    var ids := Ids(s.remote);
    var p: Row -> bool := r => Id(r) in ids;
    var kept := Kept(s.cache, ids);
    MatchesOrdered(p, s.cache);
    MatchesMembers(p, s.cache);
    hide Matches;
    assert forall i :: 0 <= i < |kept| ==> kept[i] in s.cache;
    forall i | 0 <= i < |s.remote| && Id(s.remote[i]) < s.mark
      ensures s.remote[i] in kept
    {
      assert ids[i] == Id(s.remote[i]);
    }
    forall r | r in kept
      ensures r in s.remote
    {
      var i :| 0 <= i < |ids| && ids[i] == Id(r);
      assert s.remote[i] in s.cache;
      OrderedDistinct(s.cache, s.remote[i], r);
    }
  }

  lemma OrderedDistinct(rows: seq<Row>, a: Row, b: Row)
    requires Increasing(rows) && a in rows && b in rows && Id(a) == Id(b)
    ensures a == b
  {
  }

  /** The missing ids are exactly those at or above the mark. */
  lemma MissingAbove(s: State)
    requires Inv(s)
    ensures forall i :: 0 <= i < |s.remote| ==>
              (Id(s.remote[i]) in MissingIds(s.cache, Ids(s.remote)) <==> s.mark <= Id(s.remote[i]))
    ensures forall id :: id in MissingIds(s.cache, Ids(s.remote)) ==> s.mark <= id < s.next
  {
    var ids := Ids(s.remote);
    MissingIdsMembers(s.cache, ids);
    hide MissingIds;
    forall i | 0 <= i < |s.remote|
      ensures !Cached(s.cache, Id(s.remote[i])) <==> s.mark <= Id(s.remote[i])
    {
      assert forall r :: r in s.cache ==> Id(r) < s.mark;
    }
    forall i | 0 <= i < |s.remote|
      ensures Id(s.remote[i]) in ids
    {
      assert ids[i] == Id(s.remote[i]);
    }
  }

  lemma AskIdsKeeps(s: State, t: State)
    requires Inv(s) && Next(s, t, AskIds)
    ensures Inv(t)
  {
    KeptPart(s);
    MissingAbove(s);
    hide Kept, MissingIds;
    if MissingIds(s.cache, Ids(s.remote)) == [] {
      assert forall i :: 0 <= i < |s.remote| ==> Id(s.remote[i]) < s.mark;
    }
  }

  lemma AskRowsKeeps(s: State, t: State)
    requires Inv(s) && Next(s, t, AskRows)
    ensures Inv(t)
  {
    var m, upto := s.phase.ids, s.phase.upto;
    var added := Selected(s.remote, m);
    var p: Row -> bool := r => Id(r) in m;
    MatchesOrdered(p, s.remote);
    MatchesMembers(p, s.remote);
    hide Matches;
    assert forall i :: 0 <= i < |added| ==> Id(added[i]) in m by {
      assert forall i :: 0 <= i < |added| ==> added[i] in added;
    }
    OrderedJoin(s.cache, added, 0, s.mark, upto);
    forall i | 0 <= i < |s.remote| && Id(s.remote[i]) < upto
      ensures s.remote[i] in t.cache
    {
      if Id(s.remote[i]) < s.mark {
        assert s.remote[i] in s.cache;
      } else {
        assert s.remote[i] in added;
      }
    }
  }

  lemma StepKeeps(s: State, t: State, step: Step)
    requires Inv(s) && Next(s, t, step)
    ensures Inv(t)
  {
    match step {
      case RemoteAdd(row) => RemoteAddKeeps(s, t, row);
      case RemoteRemove(id) => RemoteRemoveKeeps(s, t, id);
      case AskIds => AskIdsKeeps(s, t);
      case AskRows => AskRowsKeeps(s, t);
      case _ =>
    }
  }

  /** The invariant holds throughout every run, whatever changes on the site
      between the queries of an update and whichever queries fail. */
  lemma {:induction false} RunInvariant(run: seq<State>, i: nat)
    requires IsRun(run) && i < |run|
    ensures Inv(run[i])
  {
    hide Inv, Next;
    if i == 0 {
      InitInv(run[0]);
    } else {
      RunInvariant(run, i - 1);
      assert CanStep(run[i - 1], run[i - 1 + 1]);
      var step :| Next(run[i - 1], run[i], step);
      StepKeeps(run[i - 1], run[i], step);
    }
  }

  lemma InitInv(s: State)
    requires Init(s)
    ensures Inv(s)
  {
  }

  // -------------------------------------------------------- after an update

  /** Three undisturbed queries do what the update does with a stable site. */
  lemma UndisturbedUpdate(s: State)
    requires s.phase == Idle && MaxIDOrSizeChanged(s.cache, Summary(s.remote))
    ensures var t := Compared(s.(phase := Changed));
            Synced(s.cache, Stable(s.remote)) ==
            if t.phase.Missing? then t.cache + Selected(t.remote, t.phase.ids) else t.cache
  {
    hide MaxIDOrSizeChanged, Summary, Kept, MissingIds, Selected;
    var kept := Kept(s.cache, Ids(s.remote));
    assert kept + [] == kept;
  }

  /** In every run, an update that the site does not disturb leaves the cache
      equal to the site's table, row by row and in the same order. */
  lemma UpdateExact(run: seq<State>, i: nat)
    requires IsRun(run) && i < |run|
    ensures Synced(run[i].cache, Stable(run[i].remote)) == run[i].remote
  {
    var s := run[i];
    RunInvariant(run, i);
    DetectorExact(s.cache, s.remote, s.mark, s.next);
    if MaxIDOrSizeChanged(s.cache, Summary(s.remote)) {
      var after := Synced(s.cache, Stable(s.remote));
      ChangedUpdate(s);
    }
  }

  lemma ChangedUpdate(s: State)
    requires Inv(s) && MaxIDOrSizeChanged(s.cache, Summary(s.remote))
    ensures Synced(s.cache, Stable(s.remote)) == s.remote
  {
    hide MaxIDOrSizeChanged, Summary, MissingIds, Kept, Selected;
    var ids := Ids(s.remote);
    var missing := MissingIds(s.cache, ids);
    var kept, added := Kept(s.cache, ids), Selected(s.remote, missing);
    KeptPart(s);
    AddedPart(s);
    OrderedJoin(kept, added, 0, s.mark, s.next);
    OrderedEqual(kept + added, s.remote);
    assert missing == [] ==> added == [] && kept + [] == kept;
  }

  /** What the site answers for the missing ids: its rows from the mark up. */
  lemma AddedPart(s: State)
    requires Inv(s)
    ensures var missing := MissingIds(s.cache, Ids(s.remote));
            var added := Selected(s.remote, missing);
            && Increasing(added) && Within(added, s.mark, s.next) && (missing == [] ==> added == [])
            && forall r :: r in added <==> r in s.remote && Id(r) >= s.mark
  {
    var missing := MissingIds(s.cache, Ids(s.remote));
    MissingAbove(s);
    MissingRows(s, missing);
    hide MissingIds, Matches, Inv, Ids;
    SelectedOrdered(s.remote, missing, s.mark, s.next);
  }

  lemma MissingRows(s: State, missing: seq<int>)
    requires Inv(s)
    requires forall i :: 0 <= i < |s.remote| ==> (Id(s.remote[i]) in missing <==> s.mark <= Id(s.remote[i]))
    ensures Increasing(s.remote) && forall r :: r in s.remote ==> (Id(r) in missing <==> Id(r) >= s.mark)
  {
  }

  lemma SelectedOrdered(remote: seq<Row>, missing: seq<int>, low: int, high: int)
    requires Increasing(remote) && forall id :: id in missing ==> low <= id < high
    ensures var added := Selected(remote, missing);
            && Increasing(added) && Within(added, low, high) && (missing == [] ==> added == [])
            && forall r :: r in added <==> r in remote && Id(r) in missing
  {
    var p: Row -> bool := r => Id(r) in missing;
    MatchesOrdered(p, remote);
    MatchesMembers(p, remote);
    if missing == [] {
      MatchesNone(p, remote);
    }
    hide Matches, Increasing;
    var added := Selected(remote, missing);
    assert forall i :: 0 <= i < |added| ==> added[i] in added;
  }
}
