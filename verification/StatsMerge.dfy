/** Stats over several peers: each peer aggregates its own rows per key, the
    aggregates are merged in any order, and the final values are those of one
    aggregation over all rows. */
module StatsMerge {
  import opened Text
  import opened Filters
  import opened StatsValues
  import opened SortedSeqs
  import opened Lists

  /** One requested statistic: a counter with its test, or an aggregate with its column. */
  datatype Stat = Stat(statsType: StatsType, hit: Row -> bool, value: Row -> real)

  predicate Known(s: Stat) {
    s.statsType in {Counter, Sum, Average, StatsType.Min, Max}
  }

  predicate AllKnown(stats: seq<Stat>) {
    forall i :: 0 <= i < |stats| ==> Known(stats[i])
  }

  // --------------------------------------------------------------- one peer

  function Step(s: Stat, a: Acc, row: Row): Acc {
    if s.statsType == Counter then (if s.hit(row) then CountOne(a) else a)
    else ApplyValue(a, s.value(row), 1)
  }

  function StepAll(stats: seq<Stat>, accs: seq<Acc>, row: Row): (r: seq<Acc>)
    requires |accs| == |stats|
    ensures |r| == |stats|
  {
    seq(|stats|, i requires 0 <= i < |stats| => Step(stats[i], accs[i], row))
  }

  function FreshAll(stats: seq<Stat>): (r: seq<Acc>)
    ensures |r| == |stats|
  {
    seq(|stats|, i requires 0 <= i < |stats| => Fresh(stats[i].statsType))
  }

  type Table = map<string, seq<Acc>>

  predicate Sized(stats: seq<Stat>, m: Table) {
    forall k :: k in m ==> |m[k]| == |stats|
  }

  function Gather(stats: seq<Stat>, key: Row -> string, rows: seq<Row>): (m: Table)
    ensures Sized(stats, m)
  {
    if rows == [] then map[]
    else
      var n := |rows| - 1;
      var m, row := Gather(stats, key, rows[..n]), rows[n];
      var k := key(row);
      m[k := StepAll(stats, if k in m then m[k] else FreshAll(stats), row)]
  }

  lemma GatherEmpty(stats: seq<Stat>, key: Row -> string)
    ensures Gather(stats, key, []) == map[]
  {
  }

  lemma GatherSnoc(stats: seq<Stat>, key: Row -> string, rows: seq<Row>, row: Row)
    ensures var m, k := Gather(stats, key, rows), key(row);
            Gather(stats, key, rows + [row]) == m[k := StepAll(stats, if k in m then m[k] else FreshAll(stats), row)]
  {
    assert (rows + [row])[..|rows|] == rows;
  }

  method GatherStatsResult(stats: seq<Stat>, key: Row -> string, pass: Row -> bool, scan: seq<Row>)
      returns (localStats: Table, total: nat, rowsScanned: nat)
    ensures localStats == Gather(stats, key, Matches(pass, scan))
    ensures total == |Matches(pass, scan)| && rowsScanned == |scan|
  {
    hide Gather, StepAll, FreshAll;
    localStats, total, rowsScanned := map[], 0, 0;
    GatherEmpty(stats, key);
    for i := 0 to |scan|
      invariant localStats == Gather(stats, key, Matches(pass, scan[..i]))
      invariant total == |Matches(pass, scan[..i])| && rowsScanned == i
    {
      var row := scan[i];
      assert scan[..i + 1][..i] == scan[..i];
      rowsScanned := rowsScanned + 1;
      ghost var before := Matches(pass, scan[..i]);
      assert Matches(pass, scan[..i + 1]) == if pass(row) then before + [row] else before;
      if pass(row) {
        GatherSnoc(stats, key, before, row);
        total := total + 1;
        var k := key(row);
        var stat := if k in localStats then localStats[k] else FreshAll(stats);
        localStats := localStats[k := StepAll(stats, stat, row)];
      }
    }
    assert scan[..|scan|] == scan;
  }

  // ----------------------------------------------------------------- merging

  function MergeAccs(a: seq<Acc>, b: seq<Acc>): (r: seq<Acc>)
    requires |a| == |b|
    ensures |r| == |a|
  {
    seq(|a|, i requires 0 <= i < |a| => ApplyValue(a[i], b[i].stats, b[i].count))
  }

  function Merge(stats: seq<Stat>, a: Table, b: Table): (m: Table)
    requires Sized(stats, a) && Sized(stats, b)
    ensures Sized(stats, m) && m.Keys == a.Keys + b.Keys
  {
    map k | k in a.Keys + b.Keys :: if k !in a then b[k] else if k !in b then a[k] else MergeAccs(a[k], b[k])
  }

  lemma MergeIs(stats: seq<Stat>, a: Table, b: Table, m: Table)
    requires Sized(stats, a) && Sized(stats, b) && m.Keys == a.Keys + b.Keys
    requires forall k :: k in a && k !in b ==> m[k] == a[k]
    requires forall k :: k in b ==> m[k] == if k in a then MergeAccs(a[k], b[k]) else b[k]
    ensures m == Merge(stats, a, b)
  {
    hide MergeAccs;
  }

  /** The shared result the peers' goroutines merge into, one at a time. */
  class ResultSetStats {
    var stats: Table
    var total: nat
    var rowsScanned: nat

    constructor ()
      ensures stats == map[] && total == 0 && rowsScanned == 0
    {
      stats, total, rowsScanned := map[], 0, 0;
    }

    method MergeStats(request: seq<Stat>, other: Table, otherTotal: nat, otherScanned: nat)
      requires Sized(request, stats) && Sized(request, other)
      modifies this
      ensures stats == Merge(request, old(stats), other)
      ensures total == old(total) + otherTotal && rowsScanned == old(rowsScanned) + otherScanned
    {
      hide MergeAccs, Merge;
      ghost var before := stats;
      var todo := other.Keys;
      while todo != {}
        invariant todo <= other.Keys && total == old(total) && rowsScanned == old(rowsScanned)
        invariant stats.Keys == before.Keys + (other.Keys - todo)
        invariant forall k :: k in before && (k !in other || k in todo) ==> stats[k] == before[k]
        invariant forall k :: k in other && k !in todo ==> stats[k] == if k in before then MergeAccs(before[k], other[k]) else other[k]
        decreases todo
      {
        var k :| k in todo;
        if k !in stats {
          stats := stats[k := other[k]];
        } else {
          stats := stats[k := MergeAccs(stats[k], other[k])];
        }
        todo := todo - {k};
      }
      MergeIs(request, before, other, stats);
      total, rowsScanned := total + otherTotal, rowsScanned + otherScanned;
    }
  }

  function MergeAll(stats: seq<Stat>, tables: seq<Table>): (m: Table)
    requires forall i :: 0 <= i < |tables| ==> Sized(stats, tables[i])
    ensures Sized(stats, m)
  {
    if tables == [] then map[]
    else Merge(stats, MergeAll(stats, tables[..|tables| - 1]), tables[|tables| - 1])
  }

  /** The value a slot reports. */
  function Final(a: Acc): real {
    if a.count == 0 then 0.0
    else if a.statsType == Average then a.stats / a.count as real
    else a.stats
  }

  // --------------------------------------------------------------- reference

  function Values(s: Stat, rows: seq<Row>): (v: seq<real>)
    ensures |v| == |rows|
  {
    seq(|rows|, i requires 0 <= i < |rows| => s.value(rows[i]))
  }

  function Hits(s: Stat, rows: seq<Row>): (n: nat)
    ensures n <= |rows|
  {
    if rows == [] then 0 else (if s.hit(rows[0]) then 1 else 0) + Hits(s, rows[1..])
  }

  function Total(vs: seq<real>): real {
    if vs == [] then 0.0 else vs[0] + Total(vs[1..])
  }

  function MinOf(vs: seq<real>): real
    requires vs != []
  {
    if |vs| == 1 then vs[0] else var m := MinOf(vs[1..]); if vs[0] < m then vs[0] else m
  }

  function MaxOf(vs: seq<real>): real
    requires vs != []
  {
    if |vs| == 1 then vs[0] else var m := MaxOf(vs[1..]); if vs[0] > m then vs[0] else m
  }

  /** The statistic over a list of rows, computed at once. */
  function Reference(s: Stat, rows: seq<Row>): real {
    if rows == [] then 0.0 else
    match s.statsType
    case Counter => Hits(s, rows) as real
    case Average => Total(Values(s, rows)) / |rows| as real
    case Min => MinOf(Values(s, rows))
    case Max => MaxOf(Values(s, rows))
    case _ => Total(Values(s, rows))
  }

  /** The rows of one group. */
  function WithKey(key: Row -> string, k: string, rows: seq<Row>): seq<Row> {
    Matches(r => key(r) == k, rows)
  }

  // ------------------------------------------------------ extremes and markers

  lemma {:induction false} MinOfIs(vs: seq<real>)
    requires vs != []
    ensures MinOf(vs) in vs && forall v :: v in vs ==> MinOf(vs) <= v
  {
    if |vs| > 1 {
      MinOfIs(vs[1..]);
      assert forall v :: v in vs <==> v == vs[0] || v in vs[1..];
    }
  }

  lemma {:induction false} MaxOfIs(vs: seq<real>)
    requires vs != []
    ensures MaxOf(vs) in vs && forall v :: v in vs ==> v <= MaxOf(vs)
  {
    if |vs| > 1 {
      MaxOfIs(vs[1..]);
      assert forall v :: v in vs <==> v == vs[0] || v in vs[1..];
    }
  }

  /** The start marker -1 cannot be taken for a value: the smallest value is not
      -1, unless all values are. */
  predicate MinSafe(vs: seq<real>)
    requires vs != []
  {
    MinOf(vs) != -1.0 || forall v :: v in vs ==> v == -1.0
  }

  /** The start value 0 does not exceed all values. */
  predicate MaxSafe(vs: seq<real>) {
    exists v :: v in vs && v >= 0.0
  }

  /** What a slot knows about the rows behind it. */
  ghost predicate Represents(s: Stat, a: Acc, rows: seq<Row>) {
    && a.statsType == s.statsType
    && match s.statsType
       case Counter => a.count == Hits(s, rows) && a.stats == Hits(s, rows) as real
       case Min =>
         && a.count == |rows|
         && (if rows == [] then a.stats == -1.0
             else a.stats in Values(s, rows) && (MinSafe(Values(s, rows)) ==> a.stats == MinOf(Values(s, rows))))
       case Max =>
         && a.count == |rows|
         && (if rows == [] || MaxOf(Values(s, rows)) < 0.0 then a.stats == 0.0 else a.stats == MaxOf(Values(s, rows)))
       case _ => a.count == |rows| && a.stats == Total(Values(s, rows))
  }

  lemma {:induction false} HitsAppend(s: Stat, a: seq<Row>, b: seq<Row>)
    ensures Hits(s, a + b) == Hits(s, a) + Hits(s, b)
  {
    if a == [] {
      assert a + b == b;
    } else {
      assert (a + b)[1..] == a[1..] + b;
      HitsAppend(s, a[1..], b);
    }
  }

  lemma {:induction false} TotalAppend(a: seq<real>, b: seq<real>)
    ensures Total(a + b) == Total(a) + Total(b)
  {
    if a == [] {
      assert a + b == b;
    } else {
      assert (a + b)[1..] == a[1..] + b;
      TotalAppend(a[1..], b);
    }
  }

  /** A total is 0 for nothing, a single value itself, and adds up over parts. */
  lemma TotalMeans(a: seq<real>, x: real, b: seq<real>)
    ensures Total([]) == 0.0 && Total([x]) == x && Total(a + b) == Total(a) + Total(b)
  {
    TotalAppend(a, b);
  }

  lemma ValuesAppend(s: Stat, a: seq<Row>, b: seq<Row>)
    ensures Values(s, a + b) == Values(s, a) + Values(s, b)
  {
  }

  lemma MinAppend(a: seq<real>, b: seq<real>)
    requires a != [] && b != []
    ensures MinOf(a + b) == if MinOf(a) < MinOf(b) then MinOf(a) else MinOf(b)
  {
    MinOfIs(a);
    MinOfIs(b);
    MinOfIs(a + b);
    assert MinOf(a) in a + b && MinOf(b) in a + b;
  }

  lemma MaxAppend(a: seq<real>, b: seq<real>)
    requires a != [] && b != []
    ensures MaxOf(a + b) == if MaxOf(a) > MaxOf(b) then MaxOf(a) else MaxOf(b)
  {
    MaxOfIs(a);
    MaxOfIs(b);
    MaxOfIs(a + b);
    assert MaxOf(a) in a + b && MaxOf(b) in a + b;
  }

  /** The marker rule for minima, over two parts. */
  lemma MinMerge(a: seq<real>, x: real, b: seq<real>, y: real)
    requires a != [] && b != [] && x in a && y in b
    requires MinSafe(a) ==> x == MinOf(a)
    requires MinSafe(b) ==> y == MinOf(b)
    ensures var z := if x > y || x == -1.0 then y else x;
            z in a + b && (MinSafe(a + b) ==> z == MinOf(a + b))
  {
    MinOfIs(a);
    MinOfIs(b);
    MinAppend(a, b);
    assert forall v :: v in a ==> v in a + b;
    assert forall v :: v in b ==> v in a + b;
  }

  /** Merging two slots represents the rows of both. */
  lemma MergeRepresents(s: Stat, a: Acc, ra: seq<Row>, b: Acc, rb: seq<Row>)
    requires Known(s) && ra != [] && rb != []
    requires Represents(s, a, ra) && Represents(s, b, rb)
    ensures Represents(s, ApplyValue(a, b.stats, b.count), ra + rb)
  {
    hide MinOf, MaxOf, Total, Hits, MinSafe;
    var va, vb := Values(s, ra), Values(s, rb);
    ValuesAppend(s, ra, rb);
    match s.statsType {
      case Counter => HitsAppend(s, ra, rb);
      case Min => MinMerge(va, a.stats, vb, b.stats);
      case Max => MaxAppend(va, vb);
      case _ => TotalAppend(va, vb);
    }
  }

  /** One more row: like merging with a slot that represents just that row. */
  lemma StepRepresents(s: Stat, a: Acc, rows: seq<Row>, row: Row)
    requires Known(s) && Represents(s, a, rows)
    ensures Represents(s, Step(s, a, row), rows + [row])
  {
    var vs := Values(s, rows);
    ValuesAppend(s, rows, [row]);
    assert Values(s, [row]) == [s.value(row)];
    match s.statsType {
      case Counter => HitsAppend(s, rows, [row]);
      case Min =>
        if rows == [] {
          assert rows + [row] == [row];
        } else {
          MinMerge(vs, a.stats, [s.value(row)], s.value(row));
        }
      case Max =>
        if rows == [] {
          assert rows + [row] == [row];
        } else {
          MaxAppend(vs, [s.value(row)]);
        }
      case _ => TotalAppend(vs, [s.value(row)]);
    }
  }

  /** Every slot of a table represents the rows with its key. */
  ghost predicate TableOf(stats: seq<Stat>, key: Row -> string, m: Table, rows: seq<Row>)
    requires Sized(stats, m)
  {
    && (forall k :: k in m <==> WithKey(key, k, rows) != [])
    && forall k, i :: k in m && 0 <= i < |stats| ==> Represents(stats[i], m[k][i], WithKey(key, k, rows))
  }

  lemma WithKeySnoc(key: Row -> string, k: string, rows: seq<Row>, row: Row)
    ensures WithKey(key, k, rows + [row]) == WithKey(key, k, rows) + (if key(row) == k then [row] else [])
  {
    MatchesSnoc(r => key(r) == k, rows, row);
  }

  lemma StepAllRepresents(stats: seq<Stat>, accs: seq<Acc>, rows: seq<Row>, row: Row)
    requires AllKnown(stats) && |accs| == |stats|
    requires forall i :: 0 <= i < |stats| ==> Represents(stats[i], accs[i], rows)
    ensures forall i :: 0 <= i < |stats| ==> Represents(stats[i], StepAll(stats, accs, row)[i], rows + [row])
  {
    hide Represents, Step;
    forall i | 0 <= i < |stats|
      ensures Represents(stats[i], StepAll(stats, accs, row)[i], rows + [row])
    {
      StepRepresents(stats[i], accs[i], rows, row);
    }
  }

  lemma FreshAllRepresents(stats: seq<Stat>)
    requires AllKnown(stats)
    ensures forall i :: 0 <= i < |stats| ==> Represents(stats[i], FreshAll(stats)[i], [])
  {
    hide Represents;
    forall i | 0 <= i < |stats|
      ensures Represents(stats[i], FreshAll(stats)[i], [])
    {
      FreshRepresents(stats[i]);
    }
  }

  lemma GatherStep(stats: seq<Stat>, key: Row -> string, rows: seq<Row>, row: Row)
    requires AllKnown(stats) && TableOf(stats, key, Gather(stats, key, rows), rows)
    ensures TableOf(stats, key, Gather(stats, key, rows + [row]), rows + [row])
  {
    hide Represents, Gather, StepAll, FreshAll, WithKey;
    var m, n, k := Gather(stats, key, rows), Gather(stats, key, rows + [row]), key(row);
    GatherSnoc(stats, key, rows, row);
    forall j: string
      ensures WithKey(key, j, rows + [row]) == if j == k then WithKey(key, j, rows) + [row] else WithKey(key, j, rows)
    {
      WithKeySnoc(key, j, rows, row);
    }
    FreshAllRepresents(stats);
    StepAllRepresents(stats, if k in m then m[k] else FreshAll(stats), WithKey(key, k, rows), row);
  }

  lemma {:induction false} GatherTable(stats: seq<Stat>, key: Row -> string, rows: seq<Row>)
    requires AllKnown(stats)
    ensures TableOf(stats, key, Gather(stats, key, rows), rows)
  {
    hide Represents;
    if rows != [] {
      var n := |rows| - 1;
      GatherTable(stats, key, rows[..n]);
      assert rows == rows[..n] + [rows[n]];
      GatherStep(stats, key, rows[..n], rows[n]);
    }
  }

  lemma FreshRepresents(s: Stat)
    requires Known(s)
    ensures Represents(s, Fresh(s.statsType), [])
  {
  }

  lemma WithKeyAppend(key: Row -> string, k: string, a: seq<Row>, b: seq<Row>)
    ensures WithKey(key, k, a + b) == WithKey(key, k, a) + WithKey(key, k, b)
  {
    MatchesAppend(r => key(r) == k, a, b);
  }

  lemma MergeTable(stats: seq<Stat>, key: Row -> string, a: Table, ra: seq<Row>, b: Table, rb: seq<Row>)
    requires AllKnown(stats) && Sized(stats, a) && Sized(stats, b)
    requires TableOf(stats, key, a, ra) && TableOf(stats, key, b, rb)
    ensures TableOf(stats, key, Merge(stats, a, b), ra + rb)
  {
    hide Represents, WithKey;
    var m := Merge(stats, a, b);
    forall k: string
      ensures WithKey(key, k, ra + rb) == WithKey(key, k, ra) + WithKey(key, k, rb)
    {
      WithKeyAppend(key, k, ra, rb);
    }
    forall k, i | k in m && 0 <= i < |stats|
      ensures Represents(stats[i], m[k][i], WithKey(key, k, ra + rb))
    {
      var xa, xb := WithKey(key, k, ra), WithKey(key, k, rb);
      if k in a && k in b {
        MergeRepresents(stats[i], a[k][i], xa, b[k][i], xb);
      } else if k in a {
        assert xa + xb == xa;
      } else {
        assert xa + xb == xb;
      }
    }
  }

  function Gathered(stats: seq<Stat>, key: Row -> string, peers: seq<seq<Row>>): (r: seq<Table>)
    ensures |r| == |peers| && forall i :: 0 <= i < |peers| ==> r[i] == Gather(stats, key, peers[i])
  {
    seq(|peers|, i requires 0 <= i < |peers| => Gather(stats, key, peers[i]))
  }

  lemma {:induction false} MergeAllTable(stats: seq<Stat>, key: Row -> string, peers: seq<seq<Row>>)
    requires AllKnown(stats)
    ensures TableOf(stats, key, MergeAll(stats, Gathered(stats, key, peers)), Concat(peers))
  {
    hide Represents, TableOf, Concat, Gather, Merge;
    if peers == [] {
      NoPeers(stats, key);
    } else {
      var n := |peers| - 1;
      var g := Gathered(stats, key, peers);
      assert g[..n] == Gathered(stats, key, peers[..n]);
      MergeAllTable(stats, key, peers[..n]);
      GatherTable(stats, key, peers[n]);
      ConcatSnoc(peers[..n], peers[n]);
      assert peers == peers[..n] + [peers[n]];
      MergeTable(stats, key, MergeAll(stats, g[..n]), Concat(peers[..n]), g[n], peers[n]);
    }
  }

  lemma NoPeers(stats: seq<Stat>, key: Row -> string)
    ensures MergeAll(stats, Gathered(stats, key, [])) == map[] && TableOf(stats, key, map[], Concat([]))
  {
    assert Gathered(stats, key, []) == [];
  }

  // ------------------------------------------------------ order does not matter

  /** Hits, values, sums and groups depend on the rows, not on their order. */
  lemma {:induction false} Permuted(s: Stat, key: Row -> string, k: string, a: seq<Row>, b: seq<Row>)
    requires multiset(a) == multiset(b)
    ensures |a| == |b|
    ensures Hits(s, a) == Hits(s, b)
    ensures Total(Values(s, a)) == Total(Values(s, b))
    ensures multiset(Values(s, a)) == multiset(Values(s, b))
    ensures multiset(WithKey(key, k, a)) == multiset(WithKey(key, k, b))
    decreases |a|
  {
    hide Hits, Total, Values, WithKey;
    assert |multiset(a)| == |a| && |multiset(b)| == |b|;
    if a == [] {
      assert a == b;
    } else {
      var front, back := Around(a, b);
      Permuted(s, key, k, a[1..], front + back);
      assert a == [] + [a[0]] + a[1..] && [] + a[1..] == a[1..];
      Inserted(s, key, k, [], a[0], a[1..]);
      Inserted(s, key, k, front, a[0], back);
    }
  }

  /** What one more row, anywhere in the list, changes. */
  lemma Inserted(s: Stat, key: Row -> string, k: string, front: seq<Row>, row: Row, back: seq<Row>)
    ensures var all, rest := front + [row] + back, front + back;
            && |all| == |rest| + 1
            && Hits(s, all) == Hits(s, rest) + Hits(s, [row])
            && Total(Values(s, all)) == Total(Values(s, rest)) + s.value(row)
            && multiset(Values(s, all)) == multiset(Values(s, rest)) + multiset{s.value(row)}
            && multiset(WithKey(key, k, all)) == multiset(WithKey(key, k, rest)) + multiset(WithKey(key, k, [row]))
  {
    hide Hits, WithKey;
    HitsAppend(s, front + [row], back);
    HitsAppend(s, front, [row]);
    HitsAppend(s, front, back);
    WithKeyAppend(key, k, front + [row], back);
    WithKeyAppend(key, k, front, [row]);
    WithKeyAppend(key, k, front, back);
    ValuesAppend(s, front + [row], back);
    ValuesAppend(s, front, [row]);
    ValuesAppend(s, front, back);
    var f, v, w := Values(s, front), Values(s, [row]), Values(s, back);
    assert v == [s.value(row)];
    TotalAppend(f + v, w);
    TotalAppend(f, v);
    TotalAppend(f, w);
  }

  lemma ReferencePermuted(s: Stat, a: seq<Row>, b: seq<Row>)
    requires multiset(a) == multiset(b)
    ensures Reference(s, a) == Reference(s, b)
    ensures a != [] ==> b != [] && (Safe(s, a) <==> Safe(s, b))
  {
    Permuted(s, _ => "", "", a, b);
    var va, vb := Values(s, a), Values(s, b);
    hide MinOf, MaxOf, Total, Hits, Values;
    if a != [] {
      ExtremesPermuted(va, vb);
    }
  }

  lemma ExtremesPermuted(a: seq<real>, b: seq<real>)
    requires a != [] && b != [] && multiset(a) == multiset(b)
    ensures MinOf(a) == MinOf(b) && MaxOf(a) == MaxOf(b)
    ensures MinSafe(a) == MinSafe(b) && MaxSafe(a) == MaxSafe(b)
  {
    hide MinOf, MaxOf;
    SameElements(a, b);
    MinOfIs(a);
    MinOfIs(b);
    MaxOfIs(a);
    MaxOfIs(b);
  }

  // -------------------------------------------------------------- main result

  /** The markers do not get in the way of this statistic over these rows. */
  predicate Safe(s: Stat, rows: seq<Row>)
    requires rows != []
  {
    && (s.statsType == StatsType.Min ==> MinSafe(Values(s, rows)))
    && (s.statsType == Max ==> MaxSafe(Values(s, rows)))
  }

  lemma FinalReference(s: Stat, a: Acc, rows: seq<Row>)
    requires Known(s) && Represents(s, a, rows) && rows != []
    ensures Safe(s, rows) ==> Final(a) == Reference(s, rows)
    ensures s.statsType != StatsType.Min && !Safe(s, rows) ==> Final(a) != Reference(s, rows)
  {
    if s.statsType == Max {
      MaxOfIs(Values(s, rows));
    }
  }

  /** With values from 0 up no marker is ever in the way. */
  lemma NonNegativeSafe(s: Stat, rows: seq<Row>)
    requires rows != [] && forall r :: r in rows ==> s.value(r) >= 0.0
    ensures Safe(s, rows)
  {
    var vs := Values(s, rows);
    MinOfIs(vs);
    assert vs[0] in vs && rows[0] in rows;
  }

  /** Gathering per peer and merging, for any number of peers, reports for
      every key that occurs, and for no other, the statistics over all rows with
      that key, and for all types but Min it does so only if the markers
      are out of the way. */
  lemma MergedStatsExact(stats: seq<Stat>, key: Row -> string, peers: seq<seq<Row>>, k: string, i: nat)
    requires AllKnown(stats) && i < |stats|
    ensures var m, mine := MergeAll(stats, Gathered(stats, key, peers)), WithKey(key, k, Concat(peers));
            && (k in m <==> mine != [])
            && (k in m && Safe(stats[i], mine) ==> Final(m[k][i]) == Reference(stats[i], mine))
            && (k in m && !Safe(stats[i], mine) && stats[i].statsType != StatsType.Min ==>
                  Final(m[k][i]) != Reference(stats[i], mine))
  {
    hide Represents, WithKey, Reference, Safe, Final;
    MergeAllTable(stats, key, peers);
    var m, mine := MergeAll(stats, Gathered(stats, key, peers)), WithKey(key, k, Concat(peers));
    if k in m {
      assert Represents(stats[i], m[k][i], mine);
      FinalReference(stats[i], m[k][i], mine);
    }
  }

  /** The same rows, spread over other peers and merged in another order, give
      the same keys and the same results. */
  lemma MergeOrderIrrelevant(stats: seq<Stat>, key: Row -> string, peers: seq<seq<Row>>, others: seq<seq<Row>>,
                             k: string, i: nat)
    requires AllKnown(stats) && i < |stats|
    requires multiset(Concat(peers)) == multiset(Concat(others))
    ensures var m, n := MergeAll(stats, Gathered(stats, key, peers)), MergeAll(stats, Gathered(stats, key, others));
            var mine := WithKey(key, k, Concat(peers));
            && (k in m <==> k in n)
            && (k in m && (stats[i].statsType == StatsType.Min ==> mine != [] && MinSafe(Values(stats[i], mine))) ==>
                  Final(m[k][i]) == Final(n[k][i]))
  {
    hide Represents, WithKey, Reference, Final, Gather, MergeAll;
    MergedStatsExact(stats, key, peers, k, i);
    MergedStatsExact(stats, key, others, k, i);
    var mine, theirs := WithKey(key, k, Concat(peers)), WithKey(key, k, Concat(others));
    Permuted(stats[i], key, k, Concat(peers), Concat(others));
    Permuted(stats[i], key, k, mine, theirs);
    if mine != [] {
      ReferencePermuted(stats[i], mine, theirs);
      MergeAllTable(stats, key, peers);
      MergeAllTable(stats, key, others);
      MaxPermuted(stats[i], MergeAll(stats, Gathered(stats, key, peers))[k][i], mine,
                  MergeAll(stats, Gathered(stats, key, others))[k][i], theirs);
    }
  }

  lemma MaxPermuted(s: Stat, a: Acc, ra: seq<Row>, b: Acc, rb: seq<Row>)
    requires s.statsType == Max ==> Represents(s, a, ra) && Represents(s, b, rb)
    requires ra != [] && multiset(ra) == multiset(rb)
    ensures s.statsType == Max ==> Final(a) == Final(b)
  {
    ReferencePermuted(s, ra, rb);
    assert rb != [];
  }

  /** For a minimum the condition is exact over all orders: one peer holding the
      rows in some order reports another value whenever the marker is in the way. */
  lemma MinExact(s: Stat, key: Row -> string, k: string, rows: seq<Row>)
    requires s.statsType == StatsType.Min && rows != []
    requires forall i :: 0 <= i < |rows| ==> key(rows[i]) == k
    ensures MinSafe(Values(s, rows)) <==>
            forall order: seq<Row> :: multiset(order) == multiset(rows) ==>
              k in Gather([s], key, order) && Final(Gather([s], key, order)[k][0]) == Reference(s, rows)
  {
    hide Represents, Gather, Reference, Final, MinSafe;
    forall order: seq<Row> | multiset(order) == multiset(rows)
      ensures k in Gather([s], key, order)
      ensures MinSafe(Values(s, rows)) ==> Final(Gather([s], key, order)[k][0]) == Reference(s, rows)
    {
      OrderedMin(s, key, k, rows, order);
    }
    if !MinSafe(Values(s, rows)) {
      var order := MarkerFirst(s, key, k, rows);
      assert multiset(order) == multiset(rows);
    }
  }

  lemma OrderedMin(s: Stat, key: Row -> string, k: string, rows: seq<Row>, order: seq<Row>)
    requires s.statsType == StatsType.Min && rows != [] && multiset(order) == multiset(rows)
    requires forall i :: 0 <= i < |rows| ==> key(rows[i]) == k
    ensures k in Gather([s], key, order)
    ensures MinSafe(Values(s, rows)) ==> Final(Gather([s], key, order)[k][0]) == Reference(s, rows)
  {
    SameElements(order, rows);
    assert forall i :: 0 <= i < |order| ==> order[i] in rows;
    AllWithKey(key, k, order);
    ReferencePermuted(s, rows, order);
    GatherTable([s], key, order);
    hide Represents, Gather, Reference, Final, MinSafe, Values, WithKey;
    assert Represents([s][0], Gather([s], key, order)[k][0], order);
    FinalReference(s, Gather([s], key, order)[k][0], order);
  }

  lemma AllWithKey(key: Row -> string, k: string, rows: seq<Row>)
    requires forall i :: 0 <= i < |rows| ==> key(rows[i]) == k
    ensures WithKey(key, k, rows) == rows
  {
    MatchesAll(r => key(r) == k, rows);
  }

  /** Any order that ends in another value goes wrong: whatever came before, the
      slot holds -1 or a larger value, and ends above -1. */
  lemma MarkerFirst(s: Stat, key: Row -> string, k: string, rows: seq<Row>) returns (order: seq<Row>)
    requires s.statsType == StatsType.Min && rows != []
    requires forall i :: 0 <= i < |rows| ==> key(rows[i]) == k
    requires !MinSafe(Values(s, rows))
    ensures multiset(order) == multiset(rows) && k in Gather([s], key, order)
    ensures Final(Gather([s], key, order)[k][0]) != Reference(s, rows)
  {
    hide Gather, Represents, Final, MinSafe;
    var i, j := MarkerAmong(s, rows);
    var front := rows[..i] + rows[i + 1..];
    order := front + [rows[i]];
    assert rows == rows[..i] + [rows[i]] + rows[i + 1..];
    assert rows[j] in rows[..i] || rows[j] in rows[i + 1..];
    assert forall r :: r in front ==> r in rows;
    MarkerLast(s, key, k, front, rows[i], rows[j]);
  }

  lemma MarkerAmong(s: Stat, rows: seq<Row>) returns (i: nat, j: nat)
    requires s.statsType == StatsType.Min && rows != [] && !MinSafe(Values(s, rows))
    ensures i < |rows| && j < |rows| && s.value(rows[i]) > -1.0 && s.value(rows[j]) == -1.0
    ensures forall r :: r in rows ==> s.value(r) >= -1.0
    ensures Reference(s, rows) == -1.0
  {
    var vs := Values(s, rows);
    MinOfIs(vs);
    i :| 0 <= i < |vs| && vs[i] != -1.0;
    j :| 0 <= j < |vs| && vs[j] == -1.0;
    assert forall n :: 0 <= n < |rows| ==> s.value(rows[n]) == vs[n] && vs[n] in vs;
  }

  lemma MarkerLast(s: Stat, key: Row -> string, k: string, front: seq<Row>, last: Row, marker: Row)
    requires s.statsType == StatsType.Min && marker in front
    requires s.value(marker) == -1.0 && s.value(last) > -1.0
    requires key(last) == k && forall r :: r in front ==> key(r) == k && s.value(r) >= -1.0
    ensures k in Gather([s], key, front + [last]) && Final(Gather([s], key, front + [last])[k][0]) > -1.0
  {
    hide Gather, Represents, Final;
    AllWithKey(key, k, front);
    GatherTable([s], key, front);
    GatherSnoc([s], key, front, last);
    var a := Gather([s], key, front)[k][0];
    assert Represents([s][0], a, front);
    MarkerLost(s, a, front, last, marker);
  }

  /** A last value above -1, after a -1, leaves the slot above -1. */
  lemma MarkerLost(s: Stat, a: Acc, front: seq<Row>, last: Row, marker: Row)
    requires s.statsType == StatsType.Min && Represents(s, a, front) && marker in front
    requires s.value(marker) == -1.0 && s.value(last) > -1.0
    requires forall r :: r in front ==> s.value(r) >= -1.0
    ensures Final(Step(s, a, last)) > -1.0
  {
  }

  // -------------------------------------------------------------------- keys

  const LIST_SEPARATOR: char := 0 as char

  function KeyColumns(columns: seq<Row -> string>, row: Row): (r: seq<string>)
    ensures |r| == |columns|
  {
    seq(|columns|, i requires 0 <= i < |columns| => columns[i](row))
  }

  function StatsKey(columns: seq<Row -> string>, row: Row): string {
    Join(KeyColumns(columns, row), LIST_SEPARATOR)
  }

  predicate Separable(columns: seq<Row -> string>, row: Row) {
    forall i :: 0 <= i < |columns| ==> LIST_SEPARATOR !in columns[i](row)
  }

  /** The key of a row splits back into its column values exactly when no value
      holds the separator, and then keys are equal exactly for equal values. */
  lemma StatsKeyExact(columns: seq<Row -> string>, row: Row, other: Row)
    requires columns != []
    ensures Split(StatsKey(columns, row), LIST_SEPARATOR) == KeyColumns(columns, row) <==> Separable(columns, row)
    ensures Separable(columns, row) && Separable(columns, other) ==>
              (StatsKey(columns, row) == StatsKey(columns, other) <==> KeyColumns(columns, row) == KeyColumns(columns, other))
  {
    hide Split, Join;
    SplitJoin(KeyColumns(columns, row), LIST_SEPARATOR);
    SplitJoin(KeyColumns(columns, other), LIST_SEPARATOR);
    SeparableColumns(columns, row);
    SeparableColumns(columns, other);
  }

  lemma SeparableColumns(columns: seq<Row -> string>, row: Row)
    ensures Separable(columns, row) <==> forall i :: 0 <= i < |columns| ==> LIST_SEPARATOR !in KeyColumns(columns, row)[i]
  {
    assert forall i :: 0 <= i < |columns| ==> KeyColumns(columns, row)[i] == columns[i](row);
  }

  /** The text of a list column. */
  function ListText(row: Row, name: string): string {
    Join(row.GetList(name), LIST_SEPARATOR)
  }

  /** Without the condition rows with different values share one group: grouped by
      two list columns, an item can move from one list to the other unnoticed. */
  lemma SeparatorsCollide(a: string, b: string, x: string, y: string, z: string)
    requires a != b
    ensures var columns: seq<Row -> string> := [r => ListText(r, a), r => ListText(r, b)];
            var row, other := Row(map[a := ListVal([x]), b := ListVal([y, z])]), Row(map[a := ListVal([x, y]), b := ListVal([z])]);
            StatsKey(columns, row) == StatsKey(columns, other) && KeyColumns(columns, row) != KeyColumns(columns, other)
  {
    var columns: seq<Row -> string> := [r => ListText(r, a), r => ListText(r, b)];
    var row, other := Row(map[a := ListVal([x]), b := ListVal([y, z])]), Row(map[a := ListVal([x, y]), b := ListVal([z])]);
    var sep := [LIST_SEPARATOR];
    assert KeyColumns(columns, row) == [x, y + sep + z] by { TwoItems(y, z); }
    assert KeyColumns(columns, other) == [x + sep + y, z] by { TwoItems(x, y); }
    TwoItems(x, y + sep + z);
    TwoItems(x + sep + y, z);
    assert |x| != |x + sep + y|;
  }

  lemma TwoItems(x: string, y: string)
    ensures Join([x, y], LIST_SEPARATOR) == x + [LIST_SEPARATOR] + y
  {
    assert [x, y][1..] == [y];
  }

  /** The rows behind the slot of a row: exactly those with the same column values. */
  lemma GroupedByColumns(columns: seq<Row -> string>, k: string, row: Row, rows: seq<Row>)
    requires columns != [] && Separable(columns, row) && k == StatsKey(columns, row)
    requires forall r :: r in rows ==> Separable(columns, r)
    ensures WithKey(r => StatsKey(columns, r), k, rows) ==
            Matches(r => KeyColumns(columns, r) == KeyColumns(columns, row), rows)
  {
    var key: Row -> string := r => StatsKey(columns, r);
    forall i | 0 <= i < |rows|
      ensures (key(rows[i]) == k) == (KeyColumns(columns, rows[i]) == KeyColumns(columns, row))
    {
      StatsKeyExact(columns, row, rows[i]);
    }
    MatchesSame(r => key(r) == k, r => KeyColumns(columns, r) == KeyColumns(columns, row), rows);
  }

  // ----------------------------------------------------------- no rows at all

  /** With no key columns and no rows anywhere the query still answers, with
      one line of zeroes. */
  function FinalTable(stats: seq<Stat>, hasColumns: nat, m: Table): Table {
    if hasColumns == 0 && m == map[] then map["" := FreshAll(stats)] else m
  }

  lemma EmptyAnswer(stats: seq<Stat>, columns: seq<Row -> string>, peers: seq<seq<Row>>)
    requires AllKnown(stats)
    ensures var m := FinalTable(stats, |columns|, MergeAll(stats, Gathered(stats, r => StatsKey(columns, r), peers)));
            columns == [] ==>
              && m.Keys == {""} && |m[""]| == |stats|
              && (forall i :: 0 <= i < |stats| ==>
                    (Concat(peers) == [] || Safe(stats[i], Concat(peers)) ==> Final(m[""][i]) == Reference(stats[i], Concat(peers))))
              && (Concat(peers) == [] ==> forall i :: 0 <= i < |stats| ==> Final(m[""][i]) == 0.0)
  {
    if columns == [] {
      var key := (r: Row) => StatsKey(columns, r);
      var m := MergeAll(stats, Gathered(stats, key, peers));
      AllWithKey(key, "", Concat(peers));
      MergeAllTable(stats, key, peers);
      forall k | k in m
        ensures k == ""
      {
        OtherKey(key, "", k, Concat(peers));
      }
      if Concat(peers) == [] {
        assert m == map[];
      } else {
        assert "" in m;
        forall i | 0 <= i < |stats| && Safe(stats[i], Concat(peers))
          ensures Final(m[""][i]) == Reference(stats[i], Concat(peers))
        {
          MergedStatsExact(stats, key, peers, "", i);
        }
      }
    }
  }

  lemma OtherKey(key: Row -> string, k: string, other: string, rows: seq<Row>)
    requires forall i :: 0 <= i < |rows| ==> key(rows[i]) == k
    requires WithKey(key, other, rows) != []
    ensures other == k
  {
    MatchesMembers(r => key(r) == other, rows);
    var r := WithKey(key, other, rows)[0];
    assert r in WithKey(key, other, rows);
  }
}
