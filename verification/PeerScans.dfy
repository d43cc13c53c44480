/** One query on the cached tables of several peers, each scanned through its index. */
module PeerScans {
  import opened Filters
  import opened Lists
  import Index = IndexPrefilter

  /** A peer's cached table, its lookups, and the rows the lookup returns for the query. */
  datatype PeerTable = PeerTable(ds: Index.DataSet, data: seq<Row>, scan: seq<Row>)

  ghost predicate Scanned(lib: Lib, table: TableName, filter: seq<Filter>, p: PeerTable) {
    && NoDup(p.data) && (forall r :: r in p.data ==> Index.Consistent(lib, p.ds, table, r))
    && Index.Prefiltered(lib, p.ds, table, p.data, filter, p.scan)
  }

  /** The condition under which the index is exact: no test reads a lower-case
      copy, or all host names are lower case already. */
  ghost predicate CaseSafe(lib: Lib, table: TableName, filter: seq<Filter>, peers: seq<PeerTable>) {
    || Index.NoLowerColumns(filter)
    || forall j, r :: 0 <= j < |peers| && r in peers[j].data ==> lib.lower(Index.HostOf(table, r)) == Index.HostOf(table, r)
  }

  /** The rows the query is about: those of every table that pass the filter. */
  function Meant(lib: Lib, filter: seq<Filter>, peers: seq<PeerTable>): (r: seq<seq<Row>>)
    ensures |r| == |peers|
    ensures forall i :: 0 <= i < |r| ==> r[i] == Index.Select(lib, filter, peers[i].data)
  {
    seq(|peers|, i requires 0 <= i < |peers| => Index.Select(lib, filter, peers[i].data))
  }

  /** The rows found: those of every scan that pass. */
  function Found(lib: Lib, filter: seq<Filter>, peers: seq<PeerTable>): (r: seq<seq<Row>>)
    ensures |r| == |peers|
    ensures forall i :: 0 <= i < |r| ==> r[i] == Index.Select(lib, filter, peers[i].scan)
  {
    seq(|peers|, i requires 0 <= i < |peers| => Index.Select(lib, filter, peers[i].scan))
  }

  /** Scanning through the index finds, on every peer, the rows that are meant. */
  lemma SameRows(lib: Lib, table: TableName, filter: seq<Filter>, peers: seq<PeerTable>)
    requires Index.TypedAll(table, filter) && CaseSafe(lib, table, filter, peers)
    requires forall j :: 0 <= j < |peers| ==> Scanned(lib, table, filter, peers[j])
    ensures forall j :: 0 <= j < |peers| ==> multiset(Found(lib, filter, peers)[j]) == multiset(Meant(lib, filter, peers)[j])
    ensures multiset(Concat(Found(lib, filter, peers))) == multiset(Concat(Meant(lib, filter, peers)))
  {
    hide Index.Consistent, Index.Prefiltered, Index.Select, Index.TypedAll, Index.NoLowerColumns, Index.HostOf;
    forall j | 0 <= j < |peers|
      ensures multiset(Found(lib, filter, peers)[j]) == multiset(Meant(lib, filter, peers)[j])
    {
      var p := peers[j];
      assert Scanned(lib, table, filter, p);
      Index.PrefilterExact(lib, table, p.ds, p.data, filter);
    }
    ConcatPermuted(Found(lib, filter, peers), Meant(lib, filter, peers));
  }
}
