/** A whole table query with sorting and a limit: rows found through the index,
    cut on every peer, merged, sorted and sliced, against sorting all matching
    rows of all tables. */
module RowQuery {
  import opened Filters
  import opened Ordering
  import opened SortedSeqs
  import opened Lists
  import opened LimitPushdown
  import opened PeerScans
  import Index = IndexPrefilter
  import Stores = DataStores

  lemma {:induction false} MatchesSorted(le: (Row, Row) -> bool, pass: Row -> bool, rows: seq<Row>)
    requires Sorted(le, rows)
    ensures Sorted(le, Matches(pass, rows))
  {
    if rows != [] {
      var n := |rows| - 1;
      var front, x := Matches(pass, rows[..n]), rows[n];
      MatchesSorted(le, pass, rows[..n]);
      MatchesMembers(pass, rows[..n]);
      MatchesSnoc(pass, rows[..n], x);
      assert rows == rows[..n] + [x];
      hide Matches;
      forall i | 0 <= i < |front|
        ensures le(front[i], x)
      {
        assert front[i] in rows[..n];
      }
    }
  }

  /** For every sorted query and any number of peers: if the scans that are cut
      short run in sort order, the page has the keys of the page cut from all
      matching rows of all tables. */
  lemma RowQueryExact(lib: Lib, req: Request, filter: seq<Filter>, peers: seq<PeerTable>, sizes: seq<nat>,
                      ps: seq<PeerResponse>, sortedCut: seq<Row>, sortedFull: seq<Row>)
    requires Index.TypedAll(req.table, filter) && CaseSafe(lib, req.table, filter, peers)
    requires forall j :: 0 <= j < |peers| ==> Scanned(lib, req.table, filter, peers[j])
    requires OptimizeResultLimit(req) > 0 ==> forall j :: 0 <= j < |peers| ==> Sorted(Order(req), peers[j].scan)
    requires Answered(req, Found(lib, filter, peers), sizes, ps)
    requires IsSortOf(Order(req), Concat(RowLists(ps)), sortedCut)
    requires IsSortOf(Order(req), Concat(Meant(lib, filter, peers)), sortedFull)
    ensures var total := SumOf(Totals(ps));
            && (req.offset <= total ==> req.offset <= |sortedCut|)
            && Keys(req, Page(req, total, sortedCut)) == Keys(req, Page(req, |sortedFull|, sortedFull))
  {
    hide Order, Answered, Page, Keys, Index.Select, Concat;
    SameRows(lib, req.table, filter, peers);
    if OptimizeResultLimit(req) > 0 {
      forall j | 0 <= j < |peers|
        ensures Sorted(Order(req), Found(lib, filter, peers)[j])
      {
        SelectSorted(lib, req, filter, peers[j].scan);
      }
    }
    PageSorted(req, Found(lib, filter, peers), sizes, ps, sortedCut, sortedFull);
  }

  /** The answer the client gets, against all matching rows of all tables in order:
      empty beyond them, otherwise as many rows as the limit and the rows behind the
      offset allow, row by row with the same numbers and texts in every sort field,
      and in order. Wrapped output reports the number of all matching rows. */
  lemma RowAnswerExact(lib: Lib, req: Request, filter: seq<Filter>, peers: seq<PeerTable>, sizes: seq<nat>,
                       ps: seq<PeerResponse>, sortedCut: seq<Row>, sortedFull: seq<Row>, page: seq<Row>)
    requires Index.TypedAll(req.table, filter) && CaseSafe(lib, req.table, filter, peers)
    requires forall j :: 0 <= j < |peers| ==> Scanned(lib, req.table, filter, peers[j])
    requires OptimizeResultLimit(req) > 0 ==> forall j :: 0 <= j < |peers| ==> Sorted(Order(req), peers[j].scan)
    requires Answered(req, Found(lib, filter, peers), sizes, ps)
    requires IsSortOf(Order(req), Concat(RowLists(ps)), sortedCut)
    requires IsSortOf(Order(req), Concat(Meant(lib, filter, peers)), sortedFull)
    requires Sliced(req, SumOf(Totals(ps)), sortedCut, page)
    ensures req.offset > |sortedFull| ==> page == []
    ensures req.offset <= |sortedFull| ==>
      && |page| == (if req.limit.Some? && req.limit.value < |sortedFull| - req.offset then req.limit.value
                    else |sortedFull| - req.offset)
      && forall i, f :: 0 <= i < |page| && 0 <= f < |req.sort| ==>
           FieldSame(req, req.sort[f], page[i], sortedFull[req.offset + i])
    ensures InOrderAll(req, page)
    ensures req.wrapped ==> SumOf(Totals(ps)) == |sortedFull|
  {
    hide Order, Answered, Page, Keys, Index.Select, Concat, Sliced, FieldSame, InOrderAll, RowKey, Scanned, SumOf, Totals;
    RowQueryExact(lib, req, filter, peers, sizes, ps, sortedCut, sortedFull);
    FoundCount(lib, req, filter, peers, sizes, ps, sortedFull);
    AnswerFields(req, SumOf(Totals(ps)), sortedCut, sortedFull, page);
  }

  lemma AnswerFields(req: Request, total: nat, sortedCut: seq<Row>, sortedFull: seq<Row>, page: seq<Row>)
    requires Sorted(Order(req), sortedCut) && (req.offset <= total ==> req.offset <= |sortedCut|)
    requires Keys(req, Page(req, total, sortedCut)) == Keys(req, Page(req, |sortedFull|, sortedFull))
    requires req.offset <= total <==> req.offset <= |sortedFull|
    requires Sliced(req, total, sortedCut, page)
    ensures req.offset > |sortedFull| ==> page == []
    ensures req.offset <= |sortedFull| ==>
      && |page| == (if req.limit.Some? && req.limit.value < |sortedFull| - req.offset then req.limit.value
                    else |sortedFull| - req.offset)
      && forall i, f :: 0 <= i < |page| && 0 <= f < |req.sort| ==>
           FieldSame(req, req.sort[f], page[i], sortedFull[req.offset + i])
    ensures InOrderAll(req, page)
  {
    hide Order, RowKey, FieldSame, InOrderAll;
    SlicedIsPage(req, total, sortedCut, page);
    PageInOrder(req, total, sortedCut, page);
    var full := Page(req, |sortedFull|, sortedFull);
    PageMeans(req, |sortedFull|, sortedFull);
    assert |Keys(req, page)| == |page| && |Keys(req, full)| == |full|;
    forall i, f | 0 <= i < |page| && 0 <= f < |req.sort|
      ensures FieldSame(req, req.sort[f], page[i], full[i])
    {
      assert Keys(req, page)[i] == Keys(req, full)[i];
      FieldsSame(req, page[i], full[i], f);
    }
  }

  lemma PageInOrder(req: Request, total: nat, ordered: seq<Row>, page: seq<Row>)
    requires Sorted(Order(req), ordered) && Sliced(req, total, ordered, page)
    ensures InOrderAll(req, page)
  {
    hide Order;
    SortedInOrder(req, ordered);
    hide InOrder;
    if req.offset <= total {
      PartInOrder(req, ordered, page);
    }
  }

  /** The total and the number of all matching rows lie on the same side of the
      offset, and in wrapped output they are the same. */
  lemma FoundCount(lib: Lib, req: Request, filter: seq<Filter>, peers: seq<PeerTable>, sizes: seq<nat>,
                   ps: seq<PeerResponse>, sortedFull: seq<Row>)
    requires Index.TypedAll(req.table, filter) && CaseSafe(lib, req.table, filter, peers)
    requires forall j :: 0 <= j < |peers| ==> Scanned(lib, req.table, filter, peers[j])
    requires Answered(req, Found(lib, filter, peers), sizes, ps)
    requires multiset(sortedFull) == multiset(Concat(Meant(lib, filter, peers)))
    ensures req.offset <= SumOf(Totals(ps)) <==> req.offset <= |sortedFull|
    ensures req.wrapped ==> SumOf(Totals(ps)) == |sortedFull|
  {
    hide Answered, Index.Select, Concat, SumOf, Totals, RowLists;
    SameRows(lib, req.table, filter, peers);
    var found, meant := Concat(Found(lib, filter, peers)), Concat(Meant(lib, filter, peers));
    assert |found| == |multiset(found)| && |meant| == |multiset(meant)| && |sortedFull| == |multiset(sortedFull)|;
    OffsetInRange(req, Found(lib, filter, peers), sizes, ps);
  }

  lemma SelectSorted(lib: Lib, req: Request, filter: seq<Filter>, scan: seq<Row>)
    requires Sorted(Order(req), scan)
    ensures Sorted(Order(req), Index.Select(lib, filter, scan))
  {
    MatchesSorted(Order(req), r => MatchRow(lib, r, filter), scan);
  }

  /** The sort field of a text column shows the cell. */
  ghost predicate ShowsName(req: Request) {
    forall s :: s in req.sort ==>
      s.column.dataType == StringCol && forall row: Row :: req.text(row, s.column) == Stores.CellText(row, s.column.name)
  }

  /** Where the limit is pushed down to the hosts table for a sorted query, a scan in
      the order the index lookup gives hosts is in sort order. */
  lemma IndexScanSorted(req: Request, scan: seq<Row>)
    requires req.table == Hosts && req.sort != [] && OptimizeResultLimit(req) > 0 && ShowsName(req)
    requires forall i, j :: 0 <= i < j < |scan| ==> StrLess(Index.HostOf(Hosts, scan[i]), Index.HostOf(Hosts, scan[j]))
    ensures Sorted(Order(req), scan)
  {
    hide StrLess;
    assert req.sort[0] in req.sort;
    forall i, j | 0 <= i < j < |scan|
      ensures Order(req)(scan[i], scan[j])
    {
      var a, b := RowKey(req, scan[i]), RowKey(req, scan[j]);
      assert req.text(scan[i], req.sort[0].column) == Stores.CellText(scan[i], "name");
      assert req.text(scan[j], req.sort[0].column) == Stores.CellText(scan[j], "name");
      assert a[0] == Str(Index.HostOf(Hosts, scan[i])) && b[0] == Str(Index.HostOf(Hosts, scan[j]));
      StrLessTotal(Index.HostOf(Hosts, scan[i]), Index.HostOf(Hosts, scan[j]));
    }
  }
}
