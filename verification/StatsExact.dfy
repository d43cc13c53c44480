/** Exactly when regrouping stats counters counts every row as before. */
module StatsExact {
  import opened Text
  import opened Filters
  import opened FilterText
  import opened StatsValues
  import opened StatsGroups
  import opened StatsPeels
  import opened StatsMeaning

  /** Counters numbered by their place in the request. */
  predicate Numbered(stats: seq<Filter>) {
    forall i :: 0 <= i < |stats| ==> stats[i].statsType != StatsGroup && stats[i].statsPos == i
  }

  /** This row has the same effects, slot by slot, before and after regrouping. */
  ghost predicate PreservedOnRow(lib: Lib, row: Row, stats: seq<Filter>) {
    multiset(Touches(OnRow(lib, row), Regroup(stats), 0)) == multiset(Touches(OnRow(lib, row), stats, 0))
  }

  ghost predicate PreservedOnRows(lib: Lib, stats: seq<Filter>) {
    forall row :: PreservedOnRow(lib, row, stats)
  }

  /** No row tells tests apart that compare equal. */
  ghost predicate Decides(lib: Lib, ts: set<Test>) {
    forall row :: KeysDecide(OnRow(lib, row), ts)
  }

  lemma {:induction false} NumberedSlots(stats: seq<Filter>, i: nat)
    requires forall k :: 0 <= k < |stats| ==> stats[k].statsType != StatsGroup && stats[k].statsPos == i + k
    ensures SlotsOk(stats, i)
  {
    if stats != [] {
      NumberedSlots(stats[1..], i + 1);
    }
  }

  // --------------------------------------------------------------- row by row

  /** For a row: its counts are preserved exactly when every counter that is taken
      apart, inside groups the row enters, passes. */
  lemma RowExact(lib: Lib, ts: set<Test>, stats: seq<Filter>, row: Row)
    requires Numbered(stats) && KeysDecide(OnRow(lib, row), ts) && Peels(Everywhere(), LeafFirsts(ts), stats)
    ensures PreservedOnRow(lib, row, stats) <==> Peels(OnRow(lib, row), Passing(OnRow(lib, row)), stats)
  {
    hide KeysDecide, Peels, SlotsOk, Touches, Bag, Regroup, OnRow;
    var holds := OnRow(lib, row);
    NumberedSlots(stats, 0);
    RegroupMeaning(ts, holds, stats);
    TouchesBag(holds, stats, 0);
    TouchesBag(holds, Regroup(stats), 0);
  }

  /** A row that a taken counter matches, but its first test does not, is counted
      wrongly. */
  lemma TakenBreaks(lib: Lib, ts: set<Test>, stats: seq<Filter>, q: nat, row: Row)
    requires Numbered(stats) && KeysDecide(OnRow(lib, row), ts) && Peels(Everywhere(), LeafFirsts(ts), stats)
    requires q < |stats| && Taken(stats, q)
    requires MatchFilter(lib, row, stats[q]) && !Holds(lib, row, stats[q].kids[0].test)
    ensures !PreservedOnRow(lib, row, stats)
  {
    hide KeysDecide, Peels, Holds, Match;
    RowExact(lib, ts, stats, row);
    if Peels(OnRow(lib, row), Passing(OnRow(lib, row)), stats) {
      PeelsTaken(OnRow(lib, row), Passing(OnRow(lib, row)), stats);
    }
  }

  // ------------------------------------------------------------- over all rows

  /** The counter, and what is left of it after each peeling, begins with a plain
      test; and where it is a disjunction of different tests, some row that the
      whole counter matches fails the first of them. */
  ghost predicate Telling(lib: Lib, ts: set<Test>, top: Filter, e: Filter)
    decreases Size(e)
  {
    if IsMulti(e) then
      RemoveFirstSize(e);
      && LeafFirst(ts, e)
      && (e.group == Or && !AllSameTest(e) ==>
          exists row :: MatchFilter(lib, row, top) && !Holds(lib, row, e.kids[0].test))
      && Telling(lib, ts, top, RemoveFirst(e))
    else true
  }

  lemma {:induction false} TellingLeafFirst(lib: Lib, ts: set<Test>, top: Filter, e: Filter)
    requires Telling(lib, ts, top, e)
    ensures Chain(LeafFirsts(ts), e)
    decreases Size(e)
  {
    hide LeafFirst, MatchFilter, Holds, AllSameTest;
    if IsMulti(e) {
      RemoveFirstSize(e);
      TellingLeafFirst(lib, ts, top, RemoveFirst(e));
    }
  }

  /** A counter met during the regrouping is told apart like the one of the request
      it comes from, and matches every row that one matches. */
  ghost predicate Good(lib: Lib, ts: set<Test>, tops: seq<Filter>, rows: Row -> bool, e: Filter) {
    IsMulti(e) ==>
      && e.statsPos < |tops|
      && Telling(lib, ts, tops[e.statsPos], e)
      && forall row :: MatchFilter(lib, row, tops[e.statsPos]) ==> rows(row) && MatchFilter(lib, row, e)
  }

  function Within(lib: Lib, rows: Row -> bool, t: Test): Row -> bool {
    row => rows(row) && Holds(lib, row, t)
  }

  ghost predicate KidsGood(lib: Lib, ts: set<Test>, tops: seq<Filter>, rows: Row -> bool, out: seq<Filter>, g: Option<nat>)
    requires GroupAt(out, g)
  {
    g.Some? ==> forall e :: e in out[g.value].kids ==> Good(lib, ts, tops, Within(lib, rows, out[g.value].test), e)
  }

  /** If all its rows pass, the guard holds, and what is left is good again. */
  lemma PeelGood(lib: Lib, ts: set<Test>, tops: seq<Filter>, rows: Row -> bool, e: Filter, t: Test)
    requires Decides(lib, ts) && Good(lib, ts, tops, rows, e) && IsMulti(e)
    requires forall row :: rows(row) ==> Passes(OnRow(lib, row), e)
    requires t in ts && SameKey(t, e.kids[0].test)
    ensures PeelOk(ts, e)
    ensures Good(lib, ts, tops, Within(lib, rows, t), RemoveFirst(e))
  {
    hide Holds, Match, SameKey;
    var top, first, r := tops[e.statsPos], e.kids[0].test, RemoveFirst(e);
    RemoveFirstSize(e);
    forall row | MatchFilter(lib, row, top)
      ensures Holds(lib, row, first) && Holds(lib, row, t) && MatchFilter(lib, row, r)
    {
      assert rows(row) && Passes(OnRow(lib, row), e);
      assert KeysDecide(OnRow(lib, row), ts);
      assert OnRow(lib, row)(t) == OnRow(lib, row)(first);
    }
    assert r.statsPos == e.statsPos;
  }

  /** If every row passes everywhere, the guard holds everywhere. */
  lemma {:induction false} PassingSound(lib: Lib, ts: set<Test>, tops: seq<Filter>, rows: Row -> bool, stats: seq<Filter>)
    requires Decides(lib, ts) && Peels(Everywhere(), LeafFirsts(ts), stats)
    requires forall row :: rows(row) ==> Peels(OnRow(lib, row), Passing(OnRow(lib, row)), stats)
    requires forall k :: 0 <= k < |stats| && Taken(stats, k) ==> Good(lib, ts, tops, rows, stats[k])
    ensures Peels(Everywhere(), PeelOks(ts), stats)
    decreases SizeAll(stats), 3, 0
  {
    hide Size, SizeAll, PeelsLoop, Decides, Good, OnRow, Taken;
    if |stats| > 1 {
      RegroupIsLoop(stats);
      LoopSound(lib, ts, tops, rows, stats, 0, [], None, SizeAll(stats));
    }
  }

  lemma {:induction false} NestedSound(lib: Lib, ts: set<Test>, tops: seq<Filter>, rows: Row -> bool,
      out: seq<Filter>, g: Option<nat>, n: nat)
    requires Decides(lib, ts) && OpenGroup(ts, out, g) && KidsGood(lib, ts, tops, rows, out, g) && SizeAll(out) <= n
    requires PeelsNested(Everywhere(), LeafFirsts(ts), out, g, n)
    requires forall row :: rows(row) ==> PeelsNested(OnRow(lib, row), Passing(OnRow(lib, row)), out, g, n)
    ensures PeelsNested(Everywhere(), PeelOks(ts), out, g, n)
    ensures OpenGroup(ts, Nested(out, g, n), g) && KidsGood(lib, ts, tops, rows, Nested(out, g, n), g)
    decreases n, 0, 0
  {
    hide Size, SizeAll, Peels, Decides, Good, Holds, Nested, Regroup, Passing;
    NestedKeeps(out, g, n);
    if g.Some? {
      var group := out[g.value];
      var inside := Within(lib, rows, group.test);
      SizeUpdate(out, g.value, group);
      forall row | inside(row)
        ensures Peels(OnRow(lib, row), Passing(OnRow(lib, row)), group.kids)
      {
        assert PeelsNested(OnRow(lib, row), Passing(OnRow(lib, row)), out, g, n);
      }
      PassingSound(lib, ts, tops, inside, group.kids);
      MultiFrom(group.kids);
      forall e | e in Regroup(group.kids)
        ensures Good(lib, ts, tops, inside, e)
      {
        if !IsMulti(e) {
          NotMultiGood(lib, ts, tops, inside, e);
        }
      }
    }
  }

  lemma NotMultiGood(lib: Lib, ts: set<Test>, tops: seq<Filter>, rows: Row -> bool, e: Filter)
    requires !IsMulti(e)
    ensures Good(lib, ts, tops, rows, e)
  {
  }

  lemma {:induction false} StepSound(lib: Lib, ts: set<Test>, tops: seq<Filter>, rows: Row -> bool,
      stats: seq<Filter>, i: nat, out: seq<Filter>, g: Option<nat>, n: nat)
    requires Decides(lib, ts) && i < |stats| && KeyAt(out, g, OpenKey(stats, i))
    requires OpenGroup(ts, out, g) && KidsGood(lib, ts, tops, rows, out, g) && SizeAll(out) <= n
    requires PeelsStep(Everywhere(), LeafFirsts(ts), stats, i, out, g, n)
    requires forall row :: rows(row) ==> PeelsStep(OnRow(lib, row), Passing(OnRow(lib, row)), stats, i, out, g, n)
    requires Taken(stats, i) ==> Good(lib, ts, tops, rows, stats[i])
    ensures PeelsStep(Everywhere(), PeelOks(ts), stats, i, out, g, n)
    ensures var (out', g') := Step(stats, i, out, g, n);
            OpenGroup(ts, out', g') && KidsGood(lib, ts, tops, rows, out', g')
    decreases n, 1, 0
  {
    hide Size, SizeAll, Decides, Good, OnRow, Within, Step, Nested, PeelsNested, SameKey, Equals, RemoveFirst, Passes, PeelOk, LeafFirst;
    StepKeeps(stats, i, out, g, n);
    var s := stats[i];
    if IsMulti(s) {
      if g.Some? && SameKey(out[g.value].test, s.kids[0].test) {
        PeelGood(lib, ts, tops, rows, s, out[g.value].test);
      } else {
        NestedSound(lib, ts, tops, rows, out, g, n);
        if Starts(stats, i) {
          FirstPlain(ts, s);
          PeelGood(lib, ts, tops, rows, s, s.kids[0].test);
        }
      }
    }
  }

  lemma FirstPlain(ts: set<Test>, s: Filter)
    requires IsMulti(s) && LeafFirst(ts, s)
    ensures s.kids[0].test in ts && SameKey(s.kids[0].test, s.kids[0].test) && PlainLeaf(ts, StartGroup(s))
  {
  }

  lemma {:induction false} LoopSound(lib: Lib, ts: set<Test>, tops: seq<Filter>, rows: Row -> bool,
      stats: seq<Filter>, i: nat, out: seq<Filter>, g: Option<nat>, n: nat)
    requires Decides(lib, ts) && i <= |stats| && KeyAt(out, g, OpenKey(stats, i))
    requires OpenGroup(ts, out, g) && KidsGood(lib, ts, tops, rows, out, g)
    requires SizeAll(out) + SizeAll(stats[i..]) <= n
    requires PeelsLoop(Everywhere(), LeafFirsts(ts), stats, i, out, g, n)
    requires forall row :: rows(row) ==> PeelsLoop(OnRow(lib, row), Passing(OnRow(lib, row)), stats, i, out, g, n)
    requires forall k :: 0 <= k < |stats| && Taken(stats, k) ==> Good(lib, ts, tops, rows, stats[k])
    ensures PeelsLoop(Everywhere(), PeelOks(ts), stats, i, out, g, n)
    decreases n, 2, |stats| - i
  {
    hide Size, SizeAll, Decides, Good, KidsGood, OnRow, Step, Nested, PeelsNested, PeelsStep, Taken, OpenKey;
    if i == |stats| {
      forall row | rows(row)
        ensures PeelsNested(OnRow(lib, row), Passing(OnRow(lib, row)), out, g, n)
      {
        assert PeelsLoop(OnRow(lib, row), Passing(OnRow(lib, row)), stats, i, out, g, n);
      }
      NestedSound(lib, ts, tops, rows, out, g, n);
    } else {
      StepSizes(stats, i, out, g);
      StepKey(stats, i, out, g, n);
      var (out', g') := Step(stats, i, out, g, n);
      forall row | rows(row)
        ensures PeelsStep(OnRow(lib, row), Passing(OnRow(lib, row)), stats, i, out, g, n)
        ensures PeelsLoop(OnRow(lib, row), Passing(OnRow(lib, row)), stats, i + 1, out', g', n)
      {
        assert PeelsLoop(OnRow(lib, row), Passing(OnRow(lib, row)), stats, i, out, g, n);
      }
      StepSound(lib, ts, tops, rows, stats, i, out, g, n);
      LoopSound(lib, ts, tops, rows, stats, i + 1, out', g', n);
    }
  }

  /** Over all rows: counters whose taken ones are told apart by rows are counted
      as before exactly when the guard holds wherever one is taken apart. */
  lemma RegroupExact(lib: Lib, ts: set<Test>, stats: seq<Filter>)
    requires Numbered(stats) && Decides(lib, ts)
    requires forall k :: 0 <= k < |stats| && Taken(stats, k) ==> Telling(lib, ts, stats[k], stats[k])
    ensures PreservedOnRows(lib, stats) <==> Sound(ts, stats)
  {
    hide Decides, KeysDecide, Telling, Taken, Peels, OnRow, MatchFilter, PreservedOnRow;
    forall k | 0 <= k < |stats| && Taken(stats, k)
      ensures Chain(LeafFirsts(ts), stats[k])
    {
      TellingLeafFirst(lib, ts, stats[k], stats[k]);
    }
    ChainPeels(Everywhere(), LeafFirsts(ts), stats);
    forall row: Row
      ensures PreservedOnRow(lib, row, stats) <==> Peels(OnRow(lib, row), Passing(OnRow(lib, row)), stats)
    {
      AtRow(lib, ts, row);
      RowExact(lib, ts, stats, row);
    }
    if PreservedOnRows(lib, stats) {
      forall row: Row
        ensures Peels(OnRow(lib, row), Passing(OnRow(lib, row)), stats)
      {
        assert PreservedOnRow(lib, row, stats);
      }
      PassingSound(lib, ts, stats, _ => true, stats);
    }
    if Sound(ts, stats) {
      forall row: Row
        ensures PreservedOnRow(lib, row, stats)
      {
        SoundPasses(ts, OnRow(lib, row), stats);
      }
    }
  }

  lemma AtRow(lib: Lib, ts: set<Test>, row: Row)
    requires Decides(lib, ts)
    ensures KeysDecide(OnRow(lib, row), ts)
  {
  }

  lemma SoundPasses(ts: set<Test>, holds: Test -> bool, stats: seq<Filter>)
    requires Sound(ts, stats)
    ensures Peels(holds, Passing(holds), stats)
  {
    hide Peels, Match;
    forall s | PeelOk(ts, s)
      ensures Passes(holds, s)
    {
      PeelOkPasses(ts, holds, s);
    }
    hide PeelOk, Passes;
    PeelsWeaken(Everywhere(), holds, PeelOks(ts), Passing(holds), stats);
  }

  // ------------------------------------------------- counters over plain tests

  /** Counters over plain tests only, combined by And or by Or. */
  ghost predicate Flat(ts: set<Test>, stats: seq<Filter>) {
    forall i :: 0 <= i < |stats| && IsMulti(stats[i]) ==>
      stats[i].group != NoGroup && forall k :: k in stats[i].kids ==> PlainLeaf(ts, k)
  }

  /** A conjunction, or a disjunction that repeats one test. */
  predicate Peelable(s: Filter)
    requires s.kids != []
  {
    s.group == And || AllSameTest(s)
  }

  lemma {:induction false} PeelableChain(ts: set<Test>, s: Filter)
    requires IsMulti(s) && s.group != NoGroup && Peelable(s) && forall k :: k in s.kids ==> PlainLeaf(ts, k)
    ensures Chain(PeelOks(ts), s)
    decreases |s.kids|
  {
    var r := RemoveFirst(s);
    assert s.kids[0] in s.kids && s.kids[1] in s.kids;
    if |s.kids| > 2 {
      assert forall k :: k in r.kids ==> k in s.kids;
      if s.group == Or {
        assert r.kids[0] in s.kids;
      }
      PeelableChain(ts, r);
    }
  }

  /** For them the guard is a condition on the taken counters alone. */
  lemma FlatSound(ts: set<Test>, stats: seq<Filter>)
    requires Flat(ts, stats)
    ensures Sound(ts, stats) <==> forall k :: 0 <= k < |stats| && Taken(stats, k) ==> Peelable(stats[k])
  {
    if Sound(ts, stats) {
      hide Peels;
      PeelsTaken(Everywhere(), PeelOks(ts), stats);
    }
    if forall k :: 0 <= k < |stats| && Taken(stats, k) ==> Peelable(stats[k]) {
      forall k | 0 <= k < |stats| && Taken(stats, k)
        ensures Chain(PeelOks(ts), stats[k])
      {
        PeelableChain(ts, stats[k]);
      }
      hide Peels;
      ChainPeels(Everywhere(), PeelOks(ts), stats);
    }
  }

  /** Counters over two plain tests each, whatever the tests: every row is counted as
      before if and only if the two tests of each taken disjunction agree on it. So
      a disjunction that spells one number in two ways does no harm. */
  lemma TwoTestsExact(lib: Lib, ts: set<Test>, stats: seq<Filter>)
    requires Numbered(stats) && Decides(lib, ts) && Flat(ts, stats)
    requires forall k :: 0 <= k < |stats| && Taken(stats, k) ==> |stats[k].kids| == 2
    ensures PreservedOnRows(lib, stats) <==>
            forall k, row :: 0 <= k < |stats| && Taken(stats, k) ==>
              stats[k].group == And || Holds(lib, row, stats[k].kids[0].test) == Holds(lib, row, stats[k].kids[1].test)
  {
    hide Decides, KeysDecide, Taken, Peels, Holds, PreservedOnRow, Match, Passes;
    forall k | 0 <= k < |stats| && Taken(stats, k)
      ensures IsMulti(stats[k]) && Chain(LeafFirsts(ts), stats[k])
      ensures forall row ::
        && (Chain(Passing(OnRow(lib, row)), stats[k]) <==> Passes(OnRow(lib, row), stats[k]))
        && (Passes(OnRow(lib, row), stats[k]) <==>
            stats[k].group == And || Holds(lib, row, stats[k].kids[0].test) == Holds(lib, row, stats[k].kids[1].test))
    {
      TakenMulti(stats, k);
      TwoTests(ts, stats[k]);
      forall row {
        TwoTestsPass(ts, OnRow(lib, row), stats[k]);
      }
    }
    ChainPeels(Everywhere(), LeafFirsts(ts), stats);
    forall row: Row
      ensures PreservedOnRow(lib, row, stats) <==> forall k :: 0 <= k < |stats| && Taken(stats, k) ==> Passes(OnRow(lib, row), stats[k])
    {
      AtRow(lib, ts, row);
      RowExact(lib, ts, stats, row);
      if Peels(OnRow(lib, row), Passing(OnRow(lib, row)), stats) {
        PeelsTaken(OnRow(lib, row), Passing(OnRow(lib, row)), stats);
      }
      if forall k :: 0 <= k < |stats| && Taken(stats, k) ==> Passes(OnRow(lib, row), stats[k]) {
        ChainPeels(OnRow(lib, row), Passing(OnRow(lib, row)), stats);
      }
    }
  }

  lemma TwoTests(ts: set<Test>, s: Filter)
    requires IsMulti(s) && |s.kids| == 2 && s.group != NoGroup && forall k :: k in s.kids ==> PlainLeaf(ts, k)
    ensures Chain(LeafFirsts(ts), s)
  {
    assert s.kids[0] in s.kids && s.kids[1] in s.kids;
    assert !IsMulti(RemoveFirst(s));
  }

  lemma TwoTestsPass(ts: set<Test>, holds: Test -> bool, s: Filter)
    requires IsMulti(s) && |s.kids| == 2 && s.group != NoGroup && forall k :: k in s.kids ==> PlainLeaf(ts, k)
    ensures Chain(Passing(holds), s) <==> Passes(holds, s)
    ensures Passes(holds, s) <==> s.group == And || holds(s.kids[0].test) == holds(s.kids[1].test)
  {
    var x, y := s.kids[0], s.kids[1];
    assert x in s.kids && y in s.kids && forall k :: k in s.kids ==> k == x || k == y;
    assert !IsMulti(RemoveFirst(s));
    assert Match(holds, x) == holds(x.test) && Match(holds, y) == holds(y.test);
    assert Match(holds, RemoveFirst(s)) == holds(y.test);
  }

  // ------------------------------------------------------- tests on texts

  /** A test for equality of a text column, or of one custom variable. */
  predicate TextTest(t: Test) {
    && t.Test? && t.op == Equal && t.floatValue == 0.0
    && ((t.column.dataType == StringCol && t.customTag == "" && t.isEmpty == (t.strValue == ""))
        || (t.column.dataType == CustomVarCol && !t.isEmpty))
  }

  /** Tests of one table that compare equal also name the same custom variable. */
  ghost predicate TagsTell(ts: set<Test>) {
    forall t, u :: t in ts && u in ts && t.Test? && u.Test? && SameKey(t, u) ==> t.customTag == u.customTag
  }

  ghost predicate TextTests(ts: set<Test>) {
    && (forall t :: t in ts ==> TextTest(t))
    && (forall t, u :: t in ts && u in ts && t.column.name == u.column.name ==> t.column == u.column)
  }

  /** A cell in which the test finds its text, or another one. */
  function CellFor(t: Test, text: string): Value
    requires t.Test?
  {
    if t.column.dataType == CustomVarCol then VarsVal(map[t.customTag := text]) else StrVal(text)
  }

  /** Some row passes the second of two different tests but not the first. */
  lemma Distinguish(lib: Lib, a: Test, b: Test) returns (row: Row)
    requires TextTest(a) && TextTest(b) && a != b && (a.column.name == b.column.name ==> a.column == b.column)
    ensures Holds(lib, row, b) && !Holds(lib, row, a)
  {
    var other := a.strValue + "x";
    assert |other| == |a.strValue| + 1;
    if a.column.name != b.column.name {
      row := Row(map[a.column.name := CellFor(a, other), b.column.name := CellFor(b, b.strValue)]);
    } else if a.customTag != b.customTag {
      row := Row(map[a.column.name := VarsVal(map[a.customTag := other, b.customTag := b.strValue])]);
    } else {
      row := Row(map[a.column.name := CellFor(b, b.strValue)]);
    }
  }

  lemma {:induction false} TextTelling(lib: Lib, ts: set<Test>, top: Filter, e: Filter)
    requires TextTests(ts) && top.group == e.group != NoGroup
    requires forall k :: k in e.kids ==> k in top.kids && PlainLeaf(ts, k)
    ensures Telling(lib, ts, top, e)
    decreases |e.kids|
  {
    hide Holds;
    if IsMulti(e) {
      var r := RemoveFirst(e);
      assert e.kids[0] in e.kids && e.kids[1] in e.kids;
      if e.group == Or && !AllSameTest(e) {
        var b :| b in e.kids && b.test != e.kids[0].test;
        var row := Distinguish(lib, e.kids[0].test, b.test);
        assert MatchFilter(lib, row, b) && b in top.kids;
        assert MatchFilter(lib, row, top);
      }
      if |e.kids| > 2 {
        assert forall k :: k in r.kids ==> k in e.kids;
        TextTelling(lib, ts, top, r);
      }
    }
  }

  /** Counters over text tests: every row is counted as before if and only if each
      counter that is taken into a group is a conjunction, or repeats one test. */
  lemma TextRegroupExact(lib: Lib, ts: set<Test>, stats: seq<Filter>)
    requires Numbered(stats) && Flat(ts, stats) && TextTests(ts) && TagsTell(ts)
    ensures PreservedOnRows(lib, stats) <==> forall k :: 0 <= k < |stats| && Taken(stats, k) ==> Peelable(stats[k])
  {
    forall k | 0 <= k < |stats| && Taken(stats, k)
      ensures Telling(lib, ts, stats[k], stats[k])
    {
      TextTelling(lib, ts, stats[k], stats[k]);
    }
    assert forall t, u :: t in ts && u in ts && SameKey(t, u) ==> t == u;
    hide Telling, Taken, Sound, Flat, Holds, TextTests, TagsTell, PreservedOnRows;
    RegroupExact(lib, ts, stats);
    FlatSound(ts, stats);
  }

  /** The same list of plain tests as the parser leaves them. */
  ghost predicate ParsedTests(lib: Lib, ts: set<Test>) {
    forall t :: t in ts ==> WellTyped(lib, t)
  }

  /** Parsed tests that compare equal and name the same variable say the same of
      every row; on other columns there is no variable to name. */
  lemma TagsDecide(lib: Lib, ts: set<Test>)
    requires ParsedTests(lib, ts) && TagsTell(ts)
    ensures Decides(lib, ts)
  {
    hide Holds;
    forall row, t, u | t in ts && u in ts && SameKey(t, u)
      ensures Holds(lib, row, t) == Holds(lib, row, u)
    {
      SameTag(lib, row, t, u);
    }
  }

  lemma SameTag(lib: Lib, row: Row, t: Test, u: Test)
    requires WellTyped(lib, t) && WellTyped(lib, u) && SameKey(t, u) && t.customTag == u.customTag
    ensures Holds(lib, row, t) == Holds(lib, row, u)
  {
    if t.column.dataType != CustomVarCol {
      assert t == u;
    }
  }

  // --------------------------------------- nested groups, a column for each test

  /** The tests of a filter tree from left to right. */
  function Leaves(f: Filter): seq<Test>
    decreases f, 0
  {
    if f.group == NoGroup then [f.test] else LeavesOf(f.kids)
  }

  function LeavesOf(fs: seq<Filter>): seq<Test>
    decreases fs, 1
  {
    if fs == [] then [] else Leaves(fs[0]) + LeavesOf(fs[1..])
  }

  /** Equality tests of text columns, no column twice. */
  ghost predicate OwnColumns(tests: seq<Test>) {
    && (forall i :: 0 <= i < |tests| ==> TextTest(tests[i]) && tests[i].column.dataType == StringCol)
    && (forall i, j :: 0 <= i < j < |tests| ==> tests[i].column.name != tests[j].column.name)
  }

  /** No empty group, no negation. */
  predicate FullTree(f: Filter)
  {
    if f.group == NoGroup then !f.negate
    else f.kids != [] && forall k :: k in f.kids ==> FullTree(k)
  }

  /** A row that passes all tests but one. */
  function CellsBut(tests: seq<Test>, a: Test): map<string, Value>
    requires forall i :: 0 <= i < |tests| ==> tests[i].Test?
  {
    if tests == [] then map[]
    else
      var t := tests[0];
      CellsBut(tests[1..], a)[t.column.name := StrVal(if t == a then t.strValue + "x" else t.strValue)]
  }

  lemma {:induction false} CellsButHold(lib: Lib, tests: seq<Test>, a: Test, i: nat)
    requires OwnColumns(tests) && i < |tests|
    ensures Holds(lib, Row(CellsBut(tests, a)), tests[i]) <==> tests[i] != a
  {
    CellsButAt(tests, a, i);
    var t := tests[i];
    assert |t.strValue + "x"| == |t.strValue| + 1;
  }

  lemma {:induction false} CellsButAt(tests: seq<Test>, a: Test, i: nat)
    requires OwnColumns(tests) && i < |tests|
    ensures var t := tests[i];
            && t.column.name in CellsBut(tests, a)
            && CellsBut(tests, a)[t.column.name] == StrVal(if t == a then t.strValue + "x" else t.strValue)
  {
    if i > 0 {
      CellsButAt(tests[1..], a, i - 1);
    }
  }

  lemma {:induction false} LeavesMatch(holds: Test -> bool, f: Filter)
    requires FullTree(f) && forall t :: t in Leaves(f) ==> holds(t)
    ensures Match(holds, f)
    decreases f, 0
  {
    if f.group != NoGroup {
      forall k | k in f.kids
        ensures Match(holds, k)
      {
        LeavesIn(f.kids, k);
        LeavesMatch(holds, k);
      }
      assert f.kids[0] in f.kids;
    }
  }

  lemma {:induction false} LeavesIn(fs: seq<Filter>, k: Filter)
    requires k in fs
    ensures forall t :: t in Leaves(k) ==> t in LeavesOf(fs)
  {
    if k != fs[0] {
      LeavesIn(fs[1..], k);
    }
  }

  /** Peeling takes one leaf off. */
  lemma LeavesPeel(ts: set<Test>, e: Filter)
    requires IsMulti(e) && LeafFirst(ts, e)
    ensures Leaves(e) == [e.kids[0].test] + LeavesOf(e.kids[1..])
    ensures Leaves(RemoveFirst(e)) == LeavesOf(e.kids[1..])
    ensures FullTree(e) ==> FullTree(RemoveFirst(e))
  {
    var r := RemoveFirst(e);
    if |e.kids| == 2 {
      var k := e.kids[1];
      Renamed(k, e.statsPos);
      assert e.kids[1..] == [k] && [k][1..] == [];
      hide FullTree, Leaves;
      assert LeavesOf([k]) == Leaves(k) + [];
      FullKid(e, k);
    } else {
      hide Leaves;
      FullRest(e);
    }
    hide LeavesOf, FullTree;
    LeavesCons(ts, e);
  }

  lemma LeavesCons(ts: set<Test>, e: Filter)
    requires IsMulti(e) && LeafFirst(ts, e)
    ensures Leaves(e) == [e.kids[0].test] + LeavesOf(e.kids[1..])
    ensures |e.kids| > 2 ==> Leaves(RemoveFirst(e)) == LeavesOf(e.kids[1..])
  {
    assert Leaves(e) == LeavesOf(e.kids);
    assert Leaves(e.kids[0]) == [e.kids[0].test];
  }

  lemma Renamed(k: Filter, pos: nat)
    ensures var r := k.(statsPos := pos, statsType := Counter); Leaves(r) == Leaves(k) && FullTree(r) == FullTree(k)
  {
  }

  lemma FullKid(e: Filter, k: Filter)
    requires k in e.kids && e.group != NoGroup
    ensures FullTree(e) ==> FullTree(k)
  {
  }

  lemma FullRest(e: Filter)
    requires |e.kids| > 2 && e.group != NoGroup
    ensures FullTree(e) ==> FullTree(e.(kids := e.kids[1..]))
  {
    assert forall k :: k in e.kids[1..] ==> k in e.kids;
  }

  /** What has been taken off, in front of what is left. */
  ghost predicate Reaches(lib: Lib, top: Filter, prior: seq<Test>, e: Filter) {
    forall row ::
      (forall t :: t in prior ==> Holds(lib, row, t)) && MatchFilter(lib, row, e) ==> MatchFilter(lib, row, top)
  }

  lemma {:induction false} OwnTelling(lib: Lib, ts: set<Test>, top: Filter, prior: seq<Test>, e: Filter)
    requires Chain(LeafFirsts(ts), e) && FullTree(e) && OwnColumns(prior + Leaves(e)) && Reaches(lib, top, prior, e)
    ensures Telling(lib, ts, top, e)
    decreases Size(e)
  {
    hide Holds, MatchFilter, LeafFirst, OwnColumns, Reaches, Leaves, LeavesOf, FullTree, AllSameTest;
    if IsMulti(e) {
      RemoveFirstSize(e);
      ChainNext(LeafFirsts(ts), e);
      LeavesPeel(ts, e);
      var a, later := e.kids[0].test, LeavesOf(e.kids[1..]);
      if e.group == Or {
        TellingRow(lib, ts, top, prior, e);
      }
      assert prior + ([a] + later) == (prior + [a]) + later;
      ReachesNext(lib, ts, top, prior, e);
      OwnTelling(lib, ts, top, prior + [a], RemoveFirst(e));
    }
  }

  lemma ReachesNext(lib: Lib, ts: set<Test>, top: Filter, prior: seq<Test>, e: Filter)
    requires IsMulti(e) && LeafFirst(ts, e) && Reaches(lib, top, prior, e)
    ensures Reaches(lib, top, prior + [e.kids[0].test], RemoveFirst(e))
  {
    hide Holds, Match;
    var a := e.kids[0].test;
    forall row | (forall t :: t in prior + [a] ==> Holds(lib, row, t)) && MatchFilter(lib, row, RemoveFirst(e))
      ensures MatchFilter(lib, row, top)
    {
      assert a in prior + [a] && forall t :: t in prior ==> t in prior + [a];
      Peel(ts, OnRow(lib, row), e);
    }
  }

  /** A disjunction is matched through its second member while its first test fails. */
  lemma TellingRow(lib: Lib, ts: set<Test>, top: Filter, prior: seq<Test>, e: Filter)
    requires IsMulti(e) && LeafFirst(ts, e) && FullTree(e) && e.group == Or
    requires OwnColumns(prior + Leaves(e)) && Reaches(lib, top, prior, e)
    ensures exists row :: MatchFilter(lib, row, top) && !Holds(lib, row, e.kids[0].test)
  {
    var tests, a, b := prior + Leaves(e), e.kids[0].test, e.kids[1];
    var row := Row(CellsBut(tests, a));
    LeavesPeel(ts, e);
    assert b in e.kids[1..] && b in e.kids;
    LeavesIn(e.kids[1..], b);
    hide Holds, Match, Leaves, LeavesOf;
    var later := LeavesOf(e.kids[1..]);
    assert tests == prior + ([a] + later);
    forall i | 0 <= i < |tests| && i != |prior|
      ensures Holds(lib, row, tests[i])
    {
      CellsButHold(lib, tests, a, i);
      assert tests[|prior|] == a;
    }
    forall t | t in prior
      ensures Holds(lib, row, t)
    {
      var i :| 0 <= i < |prior| && prior[i] == t;
      assert tests[i] == t;
    }
    forall t | t in later
      ensures Holds(lib, row, t)
    {
      var i :| 0 <= i < |later| && later[i] == t;
      assert tests[|prior| + 1 + i] == t;
    }
    CellsButHold(lib, tests, a, |prior|);
    LeavesMatch(OnRow(lib, row), b);
    OrMatches(OnRow(lib, row), e, b);
    assert MatchFilter(lib, row, e);
  }

  lemma OrMatches(holds: Test -> bool, e: Filter, b: Filter)
    requires e.group == Or && b in e.kids && Match(holds, b)
    ensures Match(holds, e)
  {
  }

  /** Counters of any nesting whose firsts are plain tests and whose tests each have
      a text column of their own: every row is counted as before if and only if the
      guard holds wherever one is taken apart. */
  lemma NestedRegroupExact(lib: Lib, ts: set<Test>, stats: seq<Filter>)
    requires Numbered(stats) && Decides(lib, ts)
    requires forall k :: 0 <= k < |stats| && Taken(stats, k) ==>
               Chain(LeafFirsts(ts), stats[k]) && FullTree(stats[k]) && OwnColumns(Leaves(stats[k]))
    ensures PreservedOnRows(lib, stats) <==> Sound(ts, stats)
  {
    forall k | 0 <= k < |stats| && Taken(stats, k)
      ensures Telling(lib, ts, stats[k], stats[k])
    {
      assert [] + Leaves(stats[k]) == Leaves(stats[k]);
      assert Reaches(lib, stats[k], [], stats[k]);
      OwnTelling(lib, ts, stats[k], [], stats[k]);
    }
    hide Telling, Taken, Sound, Chain, FullTree, OwnColumns, PreservedOnRows, Decides;
    RegroupExact(lib, ts, stats);
  }

  // --------------------------------------------------------- pairs of counters

  function LeafCounter(t: Test): Filter {
    LeafFilter(t).(statsType := Counter)
  }

  function GroupCounter(op: GroupOperator, kids: seq<Filter>, pos: nat): Filter {
    GroupFilter(op, kids).(statsType := Counter, statsPos := pos)
  }

  /** Two counters with equal first filters become one group. */
  lemma PairRegroups(s: Filter, s': Filter)
    requires IsMulti(s) && IsMulti(s')
    requires Equals(s'.kids[0], s.kids[0])
    ensures Regroup([s, s']) == [StartGroup(s).(kids := Regroup([RemoveFirst(s), RemoveFirst(s')]))]
  {
    hide Size, SizeAll, Regroup;
    var stats, n := [s, s'], SizeAll([s, s']);
    RegroupPair(stats);
    var g0 := StartGroup(s);
    var g1 := JoinGroup(g0, s');
    assert g1.kids == [RemoveFirst(s), RemoveFirst(s')];
    SizeEmpty();
    StepSizes(stats, 0, [], None);
    assert Step(stats, 0, [], None, n) == ([g0], Some(0)) by {
      assert Starts(stats, 0);
      assert [] + [g0] == [g0];
    }
    assert stats[0..] == stats;
    StepSizes(stats, 1, [g0], Some(0));
    assert Step(stats, 1, [g0], Some(0), n) == ([g1], Some(0)) by {
      SameKeySymmetric(s'.kids[0].test, s.kids[0].test);
      assert [g0][0 := g1] == [g1];
    }
    assert Loop(stats, 2, [g1], Some(0), n) == Nested([g1], Some(0), n);
    assert [g1][0 := g1.(kids := Regroup(g1.kids))] == [g1.(kids := Regroup(g1.kids))];
  }

  lemma RegroupPair(stats: seq<Filter>)
    requires |stats| == 2
    ensures SizeAll([]) + SizeAll(stats[0..]) <= SizeAll(stats)
    ensures Regroup(stats) == Loop(stats, 0, [], None, SizeAll(stats))
  {
    assert stats[0..] == stats;
  }

  lemma SameKeySymmetric(t: Test, u: Test)
    requires SameKey(t, u)
    ensures SameKey(u, t)
  {
  }

  lemma LeavesStay(f: Filter, f': Filter)
    requires !IsMulti(f) && !IsMulti(f')
    ensures Regroup([f, f']) == [f, f']
  {
    hide Size, SizeAll, Regroup;
    var stats, n := [f, f'], SizeAll([f, f']);
    RegroupPair(stats);
    SizeEmpty();
    StepSizes(stats, 0, [], None);
    assert stats[0..] == stats;
    assert [] + [f] == [f];
    assert Step(stats, 0, [], None, n) == ([f], None);
    StepSizes(stats, 1, [f], None);
    assert [f] + [f'] == [f, f'];
    assert Step(stats, 1, [f], None, n) == ([f, f'], None);
    assert Loop(stats, 2, [f, f'], None, n) == [f, f'];
  }

  lemma BagTwo(holds: Test -> bool, s: Filter, s': Filter)
    ensures Bag(holds, [s, s']) == BagOf(holds, s) + BagOf(holds, s')
  {
    BagOne(holds, s');
    assert [s, s'][1..] == [s'];
  }

  /** Two leaf counters under one first filter. */
  function PairGroup(first: Filter, x: Test, y: Test): Filter {
    first.(statsType := StatsGroup, kids := [LeafCounter(x), LeafCounter(y).(statsPos := 1)])
  }

  /** What becomes of two counters that each pair a first filter with one test. */
  lemma LeafPair(holds: Test -> bool, first: Filter, first': Filter, x: Test, y: Test)
    requires Equals(first', first) && x.Test? && y.Test?
    ensures var stats := [GroupCounter(And, [first, LeafCounter(x)], 0), GroupCounter(And, [first', LeafCounter(y)], 1)];
            && multiset(Touches(holds, Regroup(stats), 0)) == BagOf(holds, PairGroup(first, x, y))
            && multiset(Touches(holds, stats, 0)) == BagOf(holds, stats[0]) + BagOf(holds, stats[1])
  {
    hide Bag, BagOf, Touches, Size, SizeAll, Regroup, Equals, Match;
    var s, s' := GroupCounter(And, [first, LeafCounter(x)], 0), GroupCounter(And, [first', LeafCounter(y)], 1);
    PairRegroups(s, s');
    LeavesStay(RemoveFirst(s), RemoveFirst(s'));
    var g := PairGroup(first, x, y);
    assert Regroup([s, s']) == [g];
    PairSlots(first, x, y);
    TouchesBag(holds, [g], 0);
    BagOne(holds, g);
    NumberedSlots([s, s'], 0);
    TouchesBag(holds, [s, s'], 0);
    BagTwo(holds, s, s');
  }

  lemma PairSlots(first: Filter, x: Test, y: Test)
    ensures SlotsOk([PairGroup(first, x, y)], 0)
  {
    var g := PairGroup(first, x, y);
    assert g.kids[1..] == [g.kids[1]] && g.kids[1..][1..] == [] && [g][1..] == [];
    assert SlotOk(g.kids[1], 1) && SlotsOk(g.kids[1..], 1);
    assert SlotsOk(g.kids, 0) && SlotOk(g, 0);
  }

  /** Effects of such a group, and of each counter by itself. */
  lemma PairBags(holds: Test -> bool, first: Filter, x: Test, y: Test)
    requires x.Test? && y.Test?
    ensures var hits := (if holds(x) then multiset{Hit(0)} else multiset{}) + (if holds(y) then multiset{Hit(1)} else multiset{});
            BagOf(holds, PairGroup(first, x, y)) == if Match(holds, PairGroup(first, x, y)) then hits else multiset{}
    ensures BagOf(holds, GroupCounter(And, [first, LeafCounter(x)], 0)) ==
            if Match(holds, first) && holds(x) then multiset{Hit(0)} else multiset{}
    ensures BagOf(holds, GroupCounter(And, [first, LeafCounter(y)], 1)) ==
            if Match(holds, first) && holds(y) then multiset{Hit(1)} else multiset{}
  {
    var g := PairGroup(first, x, y);
    BagTwo(holds, g.kids[0], g.kids[1]);
    assert g.kids == [g.kids[0], g.kids[1]];
    assert Match(holds, LeafCounter(x)) == holds(x) && Match(holds, LeafCounter(y)) == holds(y);
    PairMatch(holds, first, LeafCounter(x), 0);
    PairMatch(holds, first, LeafCounter(y), 1);
  }

  lemma PairMatch(holds: Test -> bool, first: Filter, k: Filter, pos: nat)
    ensures Match(holds, GroupCounter(And, [first, k], pos)) <==> Match(holds, first) && Match(holds, k)
  {
    assert first in [first, k] && k in [first, k];
  }

  // ------------------------------------------------------------ custom variables

  /** Two counters on different variables that compare equal: a row that has the
      second variable's value but not the first's loses its count. */
  lemma CustomTagBreaks(lib: Lib, row: Row, t: Test, u: Test, x: Test, y: Test)
    requires WellTyped(lib, t) && WellTyped(lib, u) && t.column.dataType == CustomVarCol && x.Test? && y.Test?
    requires SameKey(t, u) && Holds(lib, row, u) && Holds(lib, row, y) && !Holds(lib, row, t)
    ensures !PreservedOnRow(lib, row, [GroupCounter(And, [LeafCounter(t), LeafCounter(x)], 0),
                                       GroupCounter(And, [LeafCounter(u), LeafCounter(y)], 1)])
  {
    hide Bag, BagOf, Touches, Regroup, Match, Holds;
    var holds := OnRow(lib, row);
    SameKeySymmetric(t, u);
    LeafPair(holds, LeafCounter(t), LeafCounter(u), x, y);
    PairBags(holds, LeafCounter(t), x, y);
    PairBags(holds, LeafCounter(u), x, y);
    LeafMatch(holds, LeafCounter(t));
    LeafMatch(holds, LeafCounter(u));
    LeafMatch(holds, PairGroup(LeafCounter(t), x, y));
    assert Hit(1) in multiset{Hit(1)};
  }

  lemma LeafMatch(holds: Test -> bool, f: Filter)
    requires f.group == NoGroup && !f.negate
    ensures Match(holds, f) == holds(f.test)
  {
  }

  /** The test can tell two texts apart. */
  ghost predicate TellsTexts(lib: Lib, t: Test)
    requires t.Test?
  {
    exists good, bad :: MatchString(lib, t, good) && !MatchString(lib, t, bad)
  }

  /** A row with both variables: the second test holds, the first does not. */
  lemma CustomRow(lib: Lib, t: Test, u: Test) returns (row: Row)
    requires WellTyped(lib, t) && WellTyped(lib, u) && t.column.dataType == CustomVarCol
    requires SameKey(t, u) && t.customTag != u.customTag && TellsTexts(lib, t)
    ensures row.Get(t.column.name).VarsVal?
    ensures Holds(lib, row, u) && !Holds(lib, row, t)
  {
    var good, bad :| MatchString(lib, t, good) && !MatchString(lib, t, bad);
    row := Row(map[t.column.name := VarsVal(map[u.customTag := good, t.customTag := bad])]);
    assert row.GetVar(t.column.name, u.customTag) == good && row.GetVar(t.column.name, t.customTag) == bad;
    SameMatch(lib, t, u, good);
    hide MatchString;
  }

  lemma SameMatch(lib: Lib, t: Test, u: Test, v: string)
    requires t.Test? && u.Test? && SameKey(t, u)
    ensures MatchString(lib, t, v) == MatchString(lib, u, v)
  {
  }

  /** Conjunctions of tests from a vocabulary. */
  ghost predicate Conjunctions(ts: set<Test>, stats: seq<Filter>) {
    Flat(ts, stats) && forall i :: 0 <= i < |stats| && IsMulti(stats[i]) ==> stats[i].group == And
  }

  /** All conjunctions over a vocabulary of parsed tests are counted as before on
      every row if and only if no two of the tests agree in column, operator and text
      but name different custom variables. */
  lemma CustomKeysExact(lib: Lib, ts: set<Test>)
    requires ParsedTests(lib, ts)
    requires forall t :: t in ts && t.column.dataType == CustomVarCol ==> TellsTexts(lib, t)
    ensures (forall stats :: Numbered(stats) && Conjunctions(ts, stats) ==> PreservedOnRows(lib, stats)) <==> TagsTell(ts)
  {
    hide Holds, Taken, Decides, PreservedOnRow, TellsTexts;
    if TagsTell(ts) {
      TagsDecide(lib, ts);
      forall stats | Numbered(stats) && Conjunctions(ts, stats)
        ensures PreservedOnRows(lib, stats)
      {
        ConjunctionsPreserved(lib, ts, stats);
      }
    } else {
      var t, u :| t in ts && u in ts && SameKey(t, u) && t.customTag != u.customTag;
      var row := CustomRow(lib, t, u);
      var stats := [GroupCounter(And, [LeafCounter(t), LeafCounter(u)], 0), GroupCounter(And, [LeafCounter(u), LeafCounter(u)], 1)];
      CustomTagBreaks(lib, row, t, u, u, u);
      assert !PreservedOnRows(lib, stats);
      assert Numbered(stats) && Conjunctions(ts, stats);
    }
  }

  lemma ConjunctionsPreserved(lib: Lib, ts: set<Test>, stats: seq<Filter>)
    requires Decides(lib, ts) && Numbered(stats) && Conjunctions(ts, stats)
    ensures PreservedOnRows(lib, stats)
  {
    hide Holds, Decides, PreservedOnRow;
    FlatSound(ts, stats);
    hide Peels, Taken;
    forall k | 0 <= k < |stats| && Taken(stats, k)
      ensures Telling(lib, ts, stats[k], stats[k])
    {
      assert IsMulti(stats[k]) by { TakenMulti(stats, k); }
      AndTelling(lib, ts, stats[k], stats[k]);
    }
    assert forall k :: 0 <= k < |stats| && Taken(stats, k) ==> Peelable(stats[k]) by {
      forall k | 0 <= k < |stats| && Taken(stats, k)
        ensures Peelable(stats[k])
      {
        TakenMulti(stats, k);
      }
    }
    RegroupExact(lib, ts, stats);
  }

  lemma TakenMulti(stats: seq<Filter>, k: nat)
    requires k < |stats| && Taken(stats, k)
    ensures IsMulti(stats[k])
  {
  }

  lemma {:induction false} AndTelling(lib: Lib, ts: set<Test>, top: Filter, e: Filter)
    requires IsMulti(e) ==> e.group == And && forall k :: k in e.kids ==> PlainLeaf(ts, k)
    ensures Telling(lib, ts, top, e)
    decreases |e.kids|
  {
    hide Holds, MatchFilter;
    if IsMulti(e) {
      var r := RemoveFirst(e);
      assert e.kids[0] in e.kids && e.kids[1] in e.kids;
      if |e.kids| > 2 {
        assert forall k :: k in r.kids ==> k in e.kids;
        AndTelling(lib, ts, top, r);
      } else {
        assert !IsMulti(r);
      }
    }
  }

  // -------------------------------------------------------------- nested groups

  /** A nested Or left over after peeling is then itself taken apart: a row that
      meets it by its second test only loses its count. */
  lemma NestedOrBreaks(lib: Lib, row: Row, a: Test, b: Test, c: Test, d: Test)
    requires a.Test? && b.Test? && c.Test? && d.Test?
    requires Holds(lib, row, a) && !Holds(lib, row, b) && Holds(lib, row, c)
    ensures !PreservedOnRow(lib, row,
      [GroupCounter(And, [LeafCounter(a), GroupCounter(Or, [LeafCounter(b), LeafCounter(c)], 0)], 0),
       GroupCounter(And, [LeafCounter(a), GroupCounter(Or, [LeafCounter(b), LeafCounter(d)], 0)], 1)])
  {
    hide Bag, BagOf, Touches, Regroup, Holds, Match, SlotsOk, Size, SizeAll, Equals;
    var holds := OnRow(lib, row);
    var o, o' := GroupCounter(Or, [LeafCounter(b), LeafCounter(c)], 0), GroupCounter(Or, [LeafCounter(b), LeafCounter(d)], 0);
    var s, s' := GroupCounter(And, [LeafCounter(a), o], 0), GroupCounter(And, [LeafCounter(a), o'], 1);
    LeafEquals(a);
    LeafEquals(b);
    PairRegroups(s, s');
    var r, r' := o, o'.(statsPos := 1);
    assert RemoveFirst(s) == r && RemoveFirst(s') == r';
    PairRegroups(r, r');
    LeavesStay(RemoveFirst(r), RemoveFirst(r'));
    var inner := PairGroup(LeafCounter(b), c, d);
    assert Regroup([r, r']) == [inner];
    var outer := LeafCounter(a).(statsType := StatsGroup, kids := [inner]);
    assert Regroup([s, s']) == [outer];
    NestedPairSlots(a, b, c, d);
    TouchesBag(holds, [outer], 0);
    BagOne(holds, outer);
    NestedPairBag(holds, a, b, c, d);
    NumberedSlots([s, s'], 0);
    TouchesBag(holds, [s, s'], 0);
    BagTwo(holds, s, s');
    OrCounted(holds, a, b, c);
    assert Hit(0) in multiset{Hit(0)};
  }

  lemma LeafEquals(t: Test)
    ensures Equals(LeafCounter(t), LeafCounter(t))
  {
  }

  lemma NestedPairSlots(a: Test, b: Test, c: Test, d: Test)
    ensures SlotsOk([LeafCounter(a).(statsType := StatsGroup, kids := [PairGroup(LeafCounter(b), c, d)])], 0)
  {
    var outer := LeafCounter(a).(statsType := StatsGroup, kids := [PairGroup(LeafCounter(b), c, d)]);
    PairSlots(LeafCounter(b), c, d);
    assert [outer][1..] == [];
    assert SlotsOk(outer.kids, 0);
  }

  lemma NestedPairBag(holds: Test -> bool, a: Test, b: Test, c: Test, d: Test)
    requires !holds(b)
    ensures BagOf(holds, LeafCounter(a).(statsType := StatsGroup, kids := [PairGroup(LeafCounter(b), c, d)])) == multiset{}
  {
    var inner := PairGroup(LeafCounter(b), c, d);
    assert BagOf(holds, inner) == multiset{};
    BagOne(holds, inner);
  }

  lemma OrCounted(holds: Test -> bool, a: Test, b: Test, c: Test)
    requires holds(a) && holds(c)
    ensures BagOf(holds, GroupCounter(And, [LeafCounter(a), GroupCounter(Or, [LeafCounter(b), LeafCounter(c)], 0)], 0)) == multiset{Hit(0)}
  {
    var o := GroupCounter(Or, [LeafCounter(b), LeafCounter(c)], 0);
    assert LeafCounter(c) in o.kids && Match(holds, LeafCounter(c)) && Match(holds, o);
    assert Match(holds, LeafCounter(a));
    PairMatch(holds, LeafCounter(a), o, 0);
  }

  /** Equality of a text column. */
  function Is(column: string, text: string): Test {
    Test(Column(column, StringCol), Equal, text, 0.0, "", text == "")
  }

  /** Such a row, for equality tests on two text columns. */
  lemma NestedOrRow(lib: Lib, m: string, n: string, x: string, y: string, z: string) returns (row: Row)
    requires m != n && y != z
    ensures Holds(lib, row, Is(m, x)) && !Holds(lib, row, Is(n, y)) && Holds(lib, row, Is(n, z))
  {
    row := Row(map[m := StrVal(x), n := StrVal(z)]);
  }

  /** Two counters that begin with the same nested group, exactly: the group loses
      its members to the counters' other tests. A first And passes a row only if it
      meets both of them, a first Or if it meets one. */
  lemma NestedFirstExact(lib: Lib, row: Row, first: Filter, x: Test, y: Test)
    requires first.group != NoGroup && x.Test? && y.Test? && Equals(first, first)
    ensures var stats := [GroupCounter(And, [first, LeafCounter(x)], 0), GroupCounter(And, [first, LeafCounter(y)], 1)];
            var (f, hx, hy) := (MatchFilter(lib, row, first), Holds(lib, row, x), Holds(lib, row, y));
            PreservedOnRow(lib, row, stats) <==>
            if first.group == And then (f && hx <==> hx && hy) && (f && hy <==> hx && hy)
            else (hx ==> f) && (hy ==> f)
  {
    hide Bag, BagOf, Touches, Regroup, Holds, Match, Equals;
    var holds := OnRow(lib, row);
    LeafPair(holds, first, first, x, y);
    PairBags(holds, first, x, y);
    GroupMatch(holds, first, x, y);
    OneHit();
  }

  lemma OneHit()
    ensures multiset{Hit(0)} + multiset{} == multiset{Hit(0)} && multiset{} + multiset{Hit(1)} == multiset{Hit(1)}
    ensures multiset{Hit(0)} + multiset{Hit(1)} != multiset{Hit(0)} && multiset{Hit(0)} + multiset{Hit(1)} != multiset{Hit(1)}
    ensures multiset{Hit(0)} + multiset{Hit(1)} != multiset{} && multiset{Hit(0)} != multiset{} && multiset{Hit(1)} != multiset{}
    ensures multiset{Hit(0)} != multiset{Hit(1)}
  {
    assert Hit(1) in multiset{Hit(1)} && Hit(0) in multiset{Hit(0)} && Hit(1) !in multiset{Hit(0)};
    assert Hit(0) in multiset{Hit(0)} + multiset{Hit(1)} && Hit(1) in multiset{Hit(0)} + multiset{Hit(1)};
  }

  lemma GroupMatch(holds: Test -> bool, first: Filter, x: Test, y: Test)
    requires first.group != NoGroup && x.Test? && y.Test?
    ensures Match(holds, PairGroup(first, x, y)) <==> if first.group == And then holds(x) && holds(y) else holds(x) || holds(y)
  {
    var g := PairGroup(first, x, y);
    assert g.kids[0] in g.kids && g.kids[1] in g.kids;
    assert Match(holds, g.kids[0]) == holds(x) && Match(holds, g.kids[1]) == holds(y);
    assert forall k :: k in g.kids ==> k == g.kids[0] || k == g.kids[1];
  }

  /** For conjunctions of equality tests on different columns there is such a row. */
  lemma NestedFirstBreaks(lib: Lib, m: string, n: string, k: string, x: string, y: string, z: string, w: string)
    requires m != n && n != k && m != k && z != w
    ensures var first := GroupCounter(And, [LeafCounter(Is(m, x)), LeafCounter(Is(n, y))], 0);
            !PreservedOnRows(lib, [GroupCounter(And, [first, LeafCounter(Is(k, z))], 0),
                                   GroupCounter(And, [first, LeafCounter(Is(k, w))], 1)])
  {
    hide PreservedOnRow, Equals;
    var first := GroupCounter(And, [LeafCounter(Is(m, x)), LeafCounter(Is(n, y))], 0);
    var row := Row(map[m := StrVal(x), n := StrVal(y), k := StrVal(z)]);
    EqualsItself(first);
    NestedFirstExact(lib, row, first, Is(k, z), Is(k, w));
    PairMatch(OnRow(lib, row), LeafCounter(Is(m, x)), LeafCounter(Is(n, y)), 0);
  }

  lemma {:induction false} EqualsItself(f: Filter)
    ensures Equals(f, f)
  {
    forall i | 0 <= i < |f.kids|
      ensures Equals(f.kids[i], f.kids[i])
    {
      EqualsItself(f.kids[i]);
    }
  }

  // --------------------------------------------- the request's own counters

  /** What a counter of the request's own list denotes after one peeling: the object
      lost its first filter, so a conjunction accepts rows it should not and a
      disjunction misses rows it should accept, unless the rest decides alone. */
  lemma StrippedDenotes(holds: Test -> bool, s: Filter)
    requires IsMulti(s) && s.group != NoGroup
    ensures var left := s.(kids := s.kids[1..]);
            Match(holds, s) <==>
            if s.group == And then Match(holds, s.kids[0]) && Match(holds, left) else Match(holds, s.kids[0]) || Match(holds, left)
  {
    assert forall k :: k in s.kids <==> k == s.kids[0] || k in s.kids[1..];
  }
}
