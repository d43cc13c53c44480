/** A whole stats query: rows found through the index, counted over regrouped
    counters, aggregated per peer and merged, against counting every counter on
    every row of every table. */
module StatsQuery {
  import opened Filters
  import opened StatsValues
  import opened StatsMerge
  import opened SortedSeqs
  import opened Lists
  import Meaning = StatsMeaning
  import Groups = StatsGroups
  import Exact = StatsExact
  import Index = IndexPrefilter
  import opened PeerScans

  function ValueOf(row: Row, t: Test): real {
    if t.Test? then row.GetFloat(t.column.name) else 0.0
  }

  function StatOf(lib: Lib, f: Filter): Stat {
    Stat(f.statsType, row => MatchFilter(lib, row, f), row => ValueOf(row, f.test))
  }

  function StatsOf(lib: Lib, stats: seq<Filter>): (r: seq<Stat>)
    ensures |r| == |stats| && forall i :: 0 <= i < |r| ==> r[i] == StatOf(lib, stats[i])
  {
    seq(|stats|, i requires 0 <= i < |stats| => StatOf(lib, stats[i]))
  }

  /** Counts one row over a list of counters that may hold groups. */
  function CountRow(lib: Lib, counters: seq<Filter>, accs: seq<Acc>, row: Row): (r: seq<Acc>)
    ensures |r| == |accs|
  {
    var ts := Meaning.Touches(OnRow(lib, row), counters, 0);
    if Meaning.InRange(ts, |accs|) then Meaning.ApplyAll(t => ValueOf(row, t), ts, accs) else accs
  }

  // ---------------------------------------------------- flat counting is a step

  function StepOn(holds: Test -> bool, value: Test -> real, f: Filter, a: Acc): Acc {
    if f.statsType == Counter then (if Match(holds, f) then CountOne(a) else a)
    else ApplyValue(a, value(f.test), 1)
  }

  lemma {:induction false} FlatApply(holds: Test -> bool, value: Test -> real, stats: seq<Filter>, i: nat, accs: seq<Acc>)
    requires Meaning.Parsed(stats) && i + |stats| <= |accs|
    ensures var ts := Meaning.Touches(holds, stats, i);
            && Meaning.InRange(ts, |accs|)
            && forall k :: 0 <= k < |accs| ==>
                 Meaning.ApplyAll(value, ts, accs)[k] ==
                 if i <= k < i + |stats| then StepOn(holds, value, stats[k - i], accs[k]) else accs[k]
  {
    hide Match, CountOne, ApplyValue;
    if stats != [] {
      var here, later := Meaning.TouchesOf(holds, stats[0], i), Meaning.Touches(holds, stats[1..], i + 1);
      FlatOne(holds, value, stats[0], i, accs);
      var mid := Meaning.ApplyAll(value, here, accs);
      FlatApply(holds, value, stats[1..], i + 1, mid);
      Meaning.ApplyAllAppend(value, here, later, accs);
      hide Meaning.ApplyAll, StepOn;
    }
  }

  lemma FlatOne(holds: Test -> bool, value: Test -> real, f: Filter, i: nat, accs: seq<Acc>)
    requires f.statsType != StatsGroup && f.statsPos == 0 && i < |accs|
    ensures var ts := Meaning.TouchesOf(holds, f, i);
            Meaning.InRange(ts, |accs|) && Meaning.ApplyAll(value, ts, accs) == accs[i := StepOn(holds, value, f, accs[i])]
  {
    hide Match, CountOne, ApplyValue;
    var ts := Meaning.TouchesOf(holds, f, i);
    if ts == [] {
      assert accs == accs[i := accs[i]];
    } else {
      Meaning.ApplySingle(value, ts[0], accs);
      assert ts == [ts[0]];
    }
  }

  /** Counting over the list as parsed is one step of every statistic. */
  lemma FlatStep(lib: Lib, stats: seq<Filter>, accs: seq<Acc>, row: Row)
    requires Meaning.Parsed(stats) && |accs| == |stats|
    ensures CountRow(lib, stats, accs, row) == StepAll(StatsOf(lib, stats), accs, row)
  {
    hide Match, CountOne, ApplyValue, Meaning.Touches, Meaning.ApplyAll, Holds, Meaning.Parsed;
    var holds: Test -> bool := OnRow(lib, row);
    var value: Test -> real := t => ValueOf(row, t);
    FlatApply(holds, value, stats, 0, accs);
    var next, sts := CountRow(lib, stats, accs, row), StatsOf(lib, stats);
    forall k | 0 <= k < |accs|
      ensures next[k] == StepAll(sts, accs, row)[k]
    {
      StepIs(lib, stats[k], accs[k], row);
      assert next[k] == StepOn(holds, value, stats[k], accs[k]);
    }
  }

  lemma StepIs(lib: Lib, f: Filter, a: Acc, row: Row)
    ensures Step(StatOf(lib, f), a, row) == StepOn(OnRow(lib, row), t => ValueOf(row, t), f, a)
  {
    hide Match, CountOne, ApplyValue, Holds;
  }

  /** The counters may be regrouped: wherever one is taken apart it begins with a
      plain test of the vocabulary and is a conjunction or repeats that test, and
      tests of the vocabulary that compare equal say the same of every row. */
  ghost predicate Regroupable(lib: Lib, ts: set<Test>, stats: seq<Filter>) {
    Meaning.Parsed(stats) && Exact.Decides(lib, ts) && Meaning.Sound(ts, Groups.Renumber(stats))
  }

  /** So is counting over the regrouped list. */
  lemma GroupedStep(lib: Lib, ts: set<Test>, stats: seq<Filter>, accs: seq<Acc>, row: Row)
    requires Regroupable(lib, ts, stats) && |accs| == |stats|
    ensures CountRow(lib, Groups.Regroup(Groups.Renumber(stats)), accs, row) == StepAll(StatsOf(lib, stats), accs, row)
  {
    hide StepAll, Meaning.Touches, Meaning.ApplyAll, Meaning.Sound, Meaning.KeysDecide, Groups.Regroup;
    Meaning.RegroupPreservesCounts(ts, OnRow(lib, row), t => ValueOf(row, t), stats, accs);
    FlatStep(lib, stats, accs, row);
  }

  // ------------------------------------------------------------- one peer

  /** Aggregation as Gather does it, with the counters the optimiser left. */
  function GatherGrouped(lib: Lib, stats: seq<Filter>, counters: seq<Filter>, key: Row -> string, rows: seq<Row>): (m: Table)
    ensures Sized(StatsOf(lib, stats), m)
  {
    if rows == [] then map[]
    else
      var n := |rows| - 1;
      var m, row := GatherGrouped(lib, stats, counters, key, rows[..n]), rows[n];
      var k := key(row);
      m[k := CountRow(lib, counters, if k in m then m[k] else FreshAll(StatsOf(lib, stats)), row)]
  }

  lemma {:induction false} GatherGroupedSame(lib: Lib, ts: set<Test>, stats: seq<Filter>, key: Row -> string, rows: seq<Row>)
    requires Regroupable(lib, ts, stats)
    ensures GatherGrouped(lib, stats, Groups.Regroup(Groups.Renumber(stats)), key, rows) == Gather(StatsOf(lib, stats), key, rows)
  {
    hide StepAll, FreshAll, CountRow, Regroupable, Groups.Regroup, StatsOf;
    if rows != [] {
      var n := |rows| - 1;
      GatherGroupedSame(lib, ts, stats, key, rows[..n]);
      var m, k := Gather(StatsOf(lib, stats), key, rows[..n]), key(rows[n]);
      GroupedStep(lib, ts, stats, if k in m then m[k] else FreshAll(StatsOf(lib, stats)), rows[n]);
    }
  }

  function Answers(lib: Lib, stats: seq<Filter>, filter: seq<Filter>, key: Row -> string, peers: seq<PeerTable>): (r: seq<Table>)
    ensures |r| == |peers|
    ensures forall i :: 0 <= i < |r| ==> Sized(StatsOf(lib, stats), r[i])
    ensures forall i :: 0 <= i < |r| ==>
      r[i] == GatherGrouped(lib, stats, Groups.Regroup(Groups.Renumber(stats)), key, Index.Select(lib, filter, peers[i].scan))
  {
    seq(|peers|, i requires 0 <= i < |peers| =>
      GatherGrouped(lib, stats, Groups.Regroup(Groups.Renumber(stats)), key, Index.Select(lib, filter, peers[i].scan)))
  }

  /** For every query and every number of peers: the keys reported are those of
      the rows that pass the filter anywhere, and every value is the
      statistic over all such rows with that key, as if every counter had been
      tested on every row. */
  lemma StatsQueryExact(lib: Lib, ts: set<Test>, table: TableName, stats: seq<Filter>, filter: seq<Filter>, key: Row -> string,
                        peers: seq<PeerTable>, k: string, i: nat)
    requires Regroupable(lib, ts, stats) && AllKnown(StatsOf(lib, stats))
    requires Index.TypedAll(table, filter) && CaseSafe(lib, table, filter, peers)
    requires forall j :: 0 <= j < |peers| ==> Scanned(lib, table, filter, peers[j])
    requires i < |stats|
    ensures var m, mine := MergeAll(StatsOf(lib, stats), Answers(lib, stats, filter, key, peers)),
                           WithKey(key, k, Concat(Meant(lib, filter, peers)));
            && (k in m <==> mine != [])
            && (k in m && Safe(StatOf(lib, stats[i]), mine) ==> Final(m[k][i]) == Reference(StatOf(lib, stats[i]), mine))
  {
    var sts, found, meant := StatsOf(lib, stats), Found(lib, filter, peers), Meant(lib, filter, peers);
    SameGathered(lib, ts, stats, filter, key, peers);
    SameRows(lib, table, filter, peers);
    hide Safe, Reference, Final, WithKey, Gather, MergeAll, StatsOf, Answers, Meant, Found;
    MergedStatsExact(sts, key, found, k, i);
    ConcatPermuted(found, meant);
    Permuted(sts[i], key, k, Concat(found), Concat(meant));
    var mine, theirs := WithKey(key, k, Concat(meant)), WithKey(key, k, Concat(found));
    Permuted(sts[i], key, k, theirs, mine);
    if theirs != [] {
      ReferencePermuted(sts[i], theirs, mine);
    }
  }

  // --------------------------------------------------------- the same on cells

  /** The cached rows of all peers. */
  function AllRows(peers: seq<PeerTable>): seq<Row> {
    Concat(seq(|peers|, i requires 0 <= i < |peers| => peers[i].data))
  }

  /** The numbers of a column, row by row. */
  ghost predicate NumbersOf(column: string, rows: seq<Row>, vals: seq<real>) {
    |vals| == |rows| && forall j :: 0 <= j < |rows| ==> HasNumber(rows[j], column, vals[j])
  }

  predicate Wanted(lib: Lib, filter: seq<Filter>, key: Row -> string, k: string, row: Row) {
    MatchRow(lib, row, filter) && key(row) == k
  }

  /** The markers -1 for minima and 0 for maxima cannot be taken for a result. */
  predicate MarkerFree(t: StatsType, vals: seq<real>) {
    match t
    case Min => -1.0 !in vals || (exists v :: v in vals && v < -1.0) || (forall v :: v in vals ==> v == -1.0)
    case Max => exists v :: v in vals && v >= 0.0
    case _ => true
  }

  /** A counter reports how many of the rows it accepts, a sum the total of their
      cells in its column, an average the total divided by their number, a minimum
      or maximum the least or greatest of these cells. */
  ghost predicate TrueValue(lib: Lib, f: Filter, mine: seq<Row>, vals: seq<real>, x: real) {
    if f.statsType == Counter then x == |Matches(r => MatchFilter(lib, r, f), mine)| as real
    else f.test.Test? && NumbersOf(f.test.column.name, mine, vals) && MarkerFree(f.statsType, vals) ==>
      match f.statsType
      case Sum => x == Total(vals)
      case Average => x * |vals| as real == Total(vals)
      case Min => x in vals && forall v :: v in vals ==> x <= v
      case Max => x in vals && forall v :: v in vals ==> v <= x
      case _ => true
  }

  /** A key is reported exactly when some cached row has it and passes the filter,
      with the true values over these rows. */
  lemma StatsQueryCells(lib: Lib, ts: set<Test>, table: TableName, stats: seq<Filter>, filter: seq<Filter>, key: Row -> string,
                        peers: seq<PeerTable>, k: string, i: nat, vals: seq<real>)
    requires Regroupable(lib, ts, stats) && AllKnown(StatsOf(lib, stats))
    requires Index.TypedAll(table, filter) && CaseSafe(lib, table, filter, peers)
    requires forall j :: 0 <= j < |peers| ==> Scanned(lib, table, filter, peers[j])
    requires i < |stats|
    ensures var m, mine := MergeAll(StatsOf(lib, stats), Answers(lib, stats, filter, key, peers)),
                           Matches(r => Wanted(lib, filter, key, k, r), AllRows(peers));
            && (k in m <==> mine != [])
            && (k in m ==> TrueValue(lib, stats[i], mine, vals, Final(m[k][i])))
  {
    hide Safe, Reference, Final, MergeAll, StatsOf, Answers, Meant, Found, AllRows, Regroupable, AllKnown, Index.TypedAll, CaseSafe, Scanned, Known, StatOf, WithKey, TrueValue;
    StatsQueryExact(lib, ts, table, stats, filter, key, peers, k, i);
    WantedRows(lib, filter, key, k, peers);
    var mine := Matches(r => Wanted(lib, filter, key, k, r), AllRows(peers));
    KnownAt(lib, stats, i);
    if mine != [] {
      ReferenceOnCells(lib, stats[i], mine, vals);
    }
  }

  lemma KnownAt(lib: Lib, stats: seq<Filter>, i: nat)
    requires i < |stats| && AllKnown(StatsOf(lib, stats))
    ensures Known(StatOf(lib, stats[i]))
  {
    assert StatsOf(lib, stats)[i] == StatOf(lib, stats[i]);
  }

  /** The rows of a key, selected at once. */
  lemma WantedRows(lib: Lib, filter: seq<Filter>, key: Row -> string, k: string, peers: seq<PeerTable>)
    ensures WithKey(key, k, Concat(Meant(lib, filter, peers))) == Matches(r => Wanted(lib, filter, key, k, r), AllRows(peers))
  {
    MeantRows(lib, filter, peers);
    MatchesTwice(r => MatchRow(lib, r, filter), r => key(r) == k, r => Wanted(lib, filter, key, k, r), AllRows(peers));
  }

  lemma {:induction false} MeantRows(lib: Lib, filter: seq<Filter>, peers: seq<PeerTable>)
    ensures Concat(Meant(lib, filter, peers)) == Matches(r => MatchRow(lib, r, filter), AllRows(peers))
  {
    hide MatchRow;
    if peers != [] {
      MeantRows(lib, filter, peers[1..]);
      var data := seq(|peers|, i requires 0 <= i < |peers| => peers[i].data);
      assert data[1..] == seq(|peers[1..]|, i requires 0 <= i < |peers[1..]| => peers[1..][i].data);
      assert Meant(lib, filter, peers)[1..] == Meant(lib, filter, peers[1..]);
      MatchesAppend(r => MatchRow(lib, r, filter), peers[0].data, AllRows(peers[1..]));
    }
  }

  /** The reference is the true value wherever no marker is in the way. */
  lemma ReferenceOnCells(lib: Lib, f: Filter, mine: seq<Row>, vals: seq<real>)
    requires Known(StatOf(lib, f)) && mine != []
    ensures forall x :: (Safe(StatOf(lib, f), mine) ==> x == Reference(StatOf(lib, f), mine)) ==> TrueValue(lib, f, mine, vals, x)
  {
    hide MatchFilter, HasNumber, MinOf, MaxOf, Total, Values, Hits, MinSafe, MarkerFree;
    var s := StatOf(lib, f);
    if f.statsType == Counter {
      HitsCount(s, r => MatchFilter(lib, r, f), mine);
    } else if f.test.Test? && NumbersOf(f.test.column.name, mine, vals) {
      CellValues(lib, f, mine, vals);
      MinOfIs(vals);
      MaxOfIs(vals);
      MarkersOut(vals);
    }
  }

  lemma CellValues(lib: Lib, f: Filter, mine: seq<Row>, vals: seq<real>)
    requires f.test.Test? && NumbersOf(f.test.column.name, mine, vals)
    ensures Values(StatOf(lib, f), mine) == vals
  {
    hide HasNumber, MatchFilter;
    forall j | 0 <= j < |mine|
      ensures ValueOf(mine[j], f.test) == vals[j]
    {
      CellValue(mine[j], f.test, vals[j]);
    }
  }

  lemma MarkersOut(vals: seq<real>)
    requires vals != []
    ensures MarkerFree(StatsType.Min, vals) <==> MinSafe(vals)
    ensures MarkerFree(Max, vals) <==> MaxSafe(vals)
  {
    hide MinOf;
    MinOfIs(vals);
  }

  lemma CellValue(row: Row, t: Test, x: real)
    requires t.Test? && HasNumber(row, t.column.name, x)
    ensures ValueOf(row, t) == x
  {
  }

  lemma {:induction false} HitsCount(s: Stat, hit: Row -> bool, rows: seq<Row>)
    requires forall r :: s.hit(r) == hit(r)
    ensures Hits(s, rows) == |Matches(hit, rows)|
  {
    if rows != [] {
      HitsCount(s, hit, rows[1..]);
      MatchesAppend(hit, [rows[0]], rows[1..]);
      assert rows == [rows[0]] + rows[1..];
      MatchesSnoc(hit, [], rows[0]);
      assert [] + [rows[0]] == [rows[0]];
    }
  }

  lemma SameGathered(lib: Lib, ts: set<Test>, stats: seq<Filter>, filter: seq<Filter>, key: Row -> string, peers: seq<PeerTable>)
    requires Regroupable(lib, ts, stats)
    ensures Answers(lib, stats, filter, key, peers) == Gathered(StatsOf(lib, stats), key, Found(lib, filter, peers))
  {
    hide Gather, GatherGrouped, Regroupable, Groups.Regroup, StatsOf, Index.Select;
    forall j | 0 <= j < |peers|
      ensures Answers(lib, stats, filter, key, peers)[j] == Gathered(StatsOf(lib, stats), key, Found(lib, filter, peers))[j]
    {
      GatherGroupedSame(lib, ts, stats, key, Index.Select(lib, filter, peers[j].scan));
    }
  }
}
