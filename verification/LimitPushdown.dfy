/** Cutting each peer's rows at limit plus offset before merging, sorting and
    slicing gives the page that merging everything would give. */
module LimitPushdown {
  import opened Text
  import opened Filters
  import opened Ordering
  import opened SortedSeqs
  import opened Lists

  datatype SortField = SortField(column: Column, direction: Direction)

  /** The parts of a request that order and slice its rows; the text of a cell is
      left to the cache. */
  datatype Request = Request(
    table: TableName, sort: seq<SortField>, limit: Option<nat>, offset: nat,
    wrapped: bool, text: (Row, Column) -> string)

  // ------------------------------------------------------------------- sorting

  function SortCell(req: Request, row: Row, col: Column): Cell {
    if col.dataType in {IntCol, Int64Col, FloatCol} then Num(row.GetFloat(col.name)) else Str(req.text(row, col))
  }

  function RowKey(req: Request, row: Row): (k: Key)
    ensures |k| == |req.sort|
  {
    seq(|req.sort|, i requires 0 <= i < |req.sort| => SortCell(req, row, req.sort[i].column))
  }

  function Directions(req: Request): (d: seq<Direction>)
    ensures |d| == |req.sort|
  {
    seq(|req.sort|, i requires 0 <= i < |req.sort| => req.sort[i].direction)
  }

  predicate RowLess(req: Request, a: Row, b: Row) {
    Ordering.Less(Directions(req), RowKey(req, a), RowKey(req, b))
  }

  /** The comparison loop over the sort fields. */
  method CompareRows(req: Request, a: Row, b: Row) returns (less: bool)
    ensures less == RowLess(req, a, b)
  {
    ghost var dirs, x, y := Directions(req), RowKey(req, a), RowKey(req, b);
    for i := 0 to |req.sort|
      invariant RowLess(req, a, b) == Ordering.Less(dirs[i..], x[i..], y[i..])
    {
      var s := req.sort[i];
      var valueA, valueB := SortCell(req, a, s.column), SortCell(req, b, s.column);
      if valueA != valueB {
        return if s.direction == Asc then CellLess(valueA, valueB) else CellLess(valueB, valueA);
      }
    }
    return true;
  }

  function Order(req: Request): (Row, Row) -> bool {
    (a, b) => RowLess(req, a, b)
  }

  lemma OrderTotal(req: Request)
    ensures TotalPreorder(Order(req))
    ensures forall a, b :: Order(req)(a, b) && Order(req)(b, a) ==> RowKey(req, a) == RowKey(req, b)
  {
    hide Ordering.Less;
    var dirs := Directions(req);
    forall a, b
      ensures Order(req)(a, b) || Order(req)(b, a)
      ensures Order(req)(a, b) && Order(req)(b, a) ==> RowKey(req, a) == RowKey(req, b)
    {
      LessTotal(dirs, RowKey(req, a), RowKey(req, b));
    }
    forall a, b, c | Order(req)(a, b) && Order(req)(b, c)
      ensures Order(req)(a, c)
    {
      LessTransitive(dirs, RowKey(req, a), RowKey(req, b), RowKey(req, c));
    }
  }

  // ---------------------------------------------------- the order, cell by cell

  /** The number in a cell. */
  predicate IsNumber(col: Column) {
    col.dataType in {IntCol, Int64Col, FloatCol}
  }

  /** Two rows carry the same number, or the same text, in a sort field. */
  ghost predicate FieldSame(req: Request, s: SortField, a: Row, b: Row) {
    if IsNumber(s.column) then forall x, y :: HasNumber(a, s.column.name, x) && HasNumber(b, s.column.name, y) ==> x == y
    else req.text(a, s.column) == req.text(b, s.column)
  }

  /** The first row comes strictly before the second in a sort field. */
  ghost predicate FieldBefore(req: Request, s: SortField, a: Row, b: Row) {
    if IsNumber(s.column) then
      forall x, y :: HasNumber(a, s.column.name, x) && HasNumber(b, s.column.name, y) ==>
        if s.direction == Asc then x < y else x > y
    else if s.direction == Asc then Precedes(req.text(a, s.column), req.text(b, s.column))
    else Precedes(req.text(b, s.column), req.text(a, s.column))
  }

  ghost predicate InOrderAt(req: Request, a: Row, b: Row, k: nat) {
    && k <= |req.sort|
    && (forall i :: 0 <= i < k ==> FieldSame(req, req.sort[i], a, b))
    && (k < |req.sort| ==> FieldBefore(req, req.sort[k], a, b))
  }

  /** At the first field where two rows differ they stand in that field's direction. */
  ghost predicate InOrder(req: Request, a: Row, b: Row) {
    exists k: nat :: InOrderAt(req, a, b, k)
  }

  lemma CellNumber(req: Request, row: Row, col: Column)
    ensures IsNumber(col) ==> forall x :: HasNumber(row, col.name, x) ==> SortCell(req, row, col) == Num(x)
    ensures !IsNumber(col) ==> SortCell(req, row, col) == Str(req.text(row, col))
  {
  }

  lemma FieldMeans(req: Request, s: SortField, a: Row, b: Row)
    ensures var x, y := SortCell(req, a, s.column), SortCell(req, b, s.column);
            && (x == y ==> FieldSame(req, s, a, b))
            && ((if s.direction == Asc then CellLess(x, y) else CellLess(y, x)) ==> FieldBefore(req, s, a, b))
  {
    CellNumber(req, a, s.column);
    CellNumber(req, b, s.column);
    hide SortCell, StrLess;
    if !IsNumber(s.column) {
      StrLessMeans(req.text(a, s.column), req.text(b, s.column));
      StrLessMeans(req.text(b, s.column), req.text(a, s.column));
    }
  }

  /** What the comparison says about two rows. */
  lemma RowLessMeans(req: Request, a: Row, b: Row)
    requires RowLess(req, a, b)
    ensures InOrder(req, a, b)
  {
    hide SortCell, Ordering.Less, CellLess, FieldSame, FieldBefore;
    var k := LessMeans(Directions(req), RowKey(req, a), RowKey(req, b));
    forall i | 0 <= i < |req.sort|
      ensures RowKey(req, a)[i] == RowKey(req, b)[i] ==> FieldSame(req, req.sort[i], a, b)
      ensures (if req.sort[i].direction == Asc then CellLess(RowKey(req, a)[i], RowKey(req, b)[i])
               else CellLess(RowKey(req, b)[i], RowKey(req, a)[i])) ==> FieldBefore(req, req.sort[i], a, b)
    {
      FieldMeans(req, req.sort[i], a, b);
    }
    assert InOrderAt(req, a, b, k);
  }

  /** Rows in order, all pairs. */
  ghost predicate InOrderAll(req: Request, rows: seq<Row>) {
    forall i, j :: 0 <= i < j < |rows| ==> InOrder(req, rows[i], rows[j])
  }

  lemma SortedInOrder(req: Request, rows: seq<Row>)
    requires Sorted(Order(req), rows)
    ensures InOrderAll(req, rows)
  {
    hide RowLess, InOrder;
    forall i, j | 0 <= i < j < |rows|
      ensures InOrder(req, rows[i], rows[j])
    {
      assert Order(req)(rows[i], rows[j]);
      RowLessMeans(req, rows[i], rows[j]);
    }
  }

  lemma FieldsSame(req: Request, a: Row, b: Row, k: nat)
    requires RowKey(req, a) == RowKey(req, b) && k < |req.sort|
    ensures FieldSame(req, req.sort[k], a, b)
  {
    hide SortCell, FieldSame;
    assert RowKey(req, a)[k] == RowKey(req, b)[k];
    FieldMeans(req, req.sort[k], a, b);
  }

  /** One text field: equal texts, or one precedes the other in the field's direction. */
  lemma OneTextField(req: Request, rows: seq<Row>, i: nat, j: nat)
    requires InOrderAll(req, rows) && |req.sort| == 1 && !IsNumber(req.sort[0].column) && i < j < |rows|
    ensures var (x, y) := (req.text(rows[i], req.sort[0].column), req.text(rows[j], req.sort[0].column));
            x == y || if req.sort[0].direction == Asc then Precedes(x, y) else Precedes(y, x)
  {
    var k: nat :| InOrderAt(req, rows[i], rows[j], k);
    assert k == 1 ==> FieldSame(req, req.sort[0], rows[i], rows[j]);
  }

  /** One numeric field: the numbers do not fall, or do not rise. */
  lemma OneNumberField(req: Request, rows: seq<Row>, i: nat, j: nat, x: real, y: real)
    requires InOrderAll(req, rows) && |req.sort| == 1 && IsNumber(req.sort[0].column) && i < j < |rows|
    requires HasNumber(rows[i], req.sort[0].column.name, x) && HasNumber(rows[j], req.sort[0].column.name, y)
    ensures if req.sort[0].direction == Asc then x <= y else x >= y
  {
    var k: nat :| InOrderAt(req, rows[i], rows[j], k);
    assert k == 1 ==> FieldSame(req, req.sort[0], rows[i], rows[j]);
  }

  function Keys(req: Request, rows: seq<Row>): seq<Key> {
    seq(|rows|, i requires 0 <= i < |rows| => RowKey(req, rows[i]))
  }

  // ------------------------------------------------------------ the peer's part

  predicate IsDefaultSortOrder(req: Request) {
    || req.sort == []
    || (req.table == Services && |req.sort| == 2
        && req.sort[0].column.name == "host_name" && req.sort[0].direction == Asc
        && req.sort[1].column.name == "description" && req.sort[1].direction == Asc)
    || (req.table == Hosts && |req.sort| == 1
        && req.sort[0].column.name == "name" && req.sort[0].direction == Asc)
  }

  /** How many rows the page reaches into, or -1 for all. */
  function OptimizeResultLimit(req: Request): int {
    if req.limit.Some? && IsDefaultSortOrder(req) then req.limit.value + req.offset else -1
  }

  /** Where a limit is pushed down to the peers, the rows are wanted in the order in
      which the tables are kept: hosts by name, services by host and description. */
  lemma PushedDownByName(req: Request, a: Row, b: Row)
    requires OptimizeResultLimit(req) > 0 && req.sort != [] && RowLess(req, a, b)
    requires forall s, r :: s in req.sort && s.column.dataType == StringCol ==> r in {a, b} ==>
               s.column.name in r.cells && r.cells[s.column.name] == StrVal(req.text(r, s.column))
    requires forall s :: s in req.sort ==> s.column.dataType == StringCol
    ensures req.limit.Some?
    ensures req.table == Hosts ==>
      "name" in a.cells && "name" in b.cells && a.cells["name"].StrVal? && b.cells["name"].StrVal? &&
      (a.cells["name"] == b.cells["name"] || Precedes(a.cells["name"].s, b.cells["name"].s))
    ensures req.table == Services ==>
      "host_name" in a.cells && "host_name" in b.cells && a.cells["host_name"].StrVal? && b.cells["host_name"].StrVal? &&
      (a.cells["host_name"] == b.cells["host_name"] || Precedes(a.cells["host_name"].s, b.cells["host_name"].s))
    ensures req.table != OtherTable
  {
    RowLessMeans(req, a, b);
    var k: nat :| InOrderAt(req, a, b, k);
    assert req.sort[0] in req.sort;
    assert k > 0 ==> FieldSame(req, req.sort[0], a, b);
  }

  function PeerLimit(req: Request, dataSize: nat): nat {
    var limit := OptimizeResultLimit(req);
    if limit <= 0 then dataSize + 1 else limit
  }

  datatype PeerResponse = PeerResponse(rows: seq<Row>, total: nat, rowsScanned: nat)

  function Take<T>(s: seq<T>, n: nat): (r: seq<T>)
    ensures |r| == Smaller(n, |s|) && r <= s
  {
    if n < |s| then s[..n] else s
  }

  /** What a peer contributes: its first rows, and a count that wrapped output
      needs exactly and other output only up to one past the limit. */
  ghost predicate Contributes(req: Request, matching: seq<Row>, dataSize: nat, p: PeerResponse) {
    var limit := PeerLimit(req, dataSize);
    && p.rows == Take(matching, limit)
    && p.total == if req.wrapped then |matching| else Smaller(|matching|, limit + 1)
  }

  /** The scan of one peer, with its early exit. */
  method GatherResultRows(req: Request, pass: Row -> bool, scan: seq<Row>, dataSize: nat) returns (result: PeerResponse)
    requires |scan| <= dataSize
    ensures Contributes(req, Matches(pass, scan), dataSize, result)
    ensures result.rowsScanned <= |scan|
    ensures result.rowsScanned < |scan| ==> !req.wrapped && |Matches(pass, scan[..result.rowsScanned])| == PeerLimit(req, dataSize) + 1
  {
    var limit := OptimizeResultLimit(req);
    if limit <= 0 {
      limit := dataSize + 1;
    }
    var breakOnLimit := !req.wrapped;
    result := PeerResponse([], 0, 0);
    for i := 0 to |scan|
      invariant limit == PeerLimit(req, dataSize)
      invariant result.rowsScanned == i
      invariant result.total == |Matches(pass, scan[..i])|
      invariant result.rows == Take(Matches(pass, scan[..i]), limit)
      invariant breakOnLimit ==> result.total <= limit
    {
      var row := scan[i];
      assert scan[..i + 1][..i] == scan[..i];
      result := result.(rowsScanned := result.rowsScanned + 1);
      if pass(row) {
        result := result.(total := result.total + 1);
        if result.total > limit {
          if breakOnLimit {
            MatchesPrefix(pass, scan, i + 1);
            return;
          }
        } else {
          result := result.(rows := result.rows + [row]);
        }
      }
    }
    assert scan[..|scan|] == scan;
  }

  // ------------------------------------------------------------ merge and slice

  function SumOf(ns: seq<nat>): nat {
    if ns == [] then 0 else ns[0] + SumOf(ns[1..])
  }

  function RowLists(ps: seq<PeerResponse>): (r: seq<seq<Row>>)
    ensures |r| == |ps| && forall i :: 0 <= i < |ps| ==> r[i] == ps[i].rows
  {
    seq(|ps|, i requires 0 <= i < |ps| => ps[i].rows)
  }

  function Totals(ps: seq<PeerResponse>): (r: seq<nat>)
    ensures |r| == |ps| && forall i :: 0 <= i < |ps| ==> r[i] == ps[i].total
  {
    seq(|ps|, i requires 0 <= i < |ps| => ps[i].total)
  }

  /** Collecting the peers' answers in order of arrival. */
  method CollectResponses(ps: seq<PeerResponse>) returns (rows: seq<Row>, total: nat)
    ensures rows == Concat(RowLists(ps)) && total == SumOf(Totals(ps))
  {
    rows, total := [], 0;
    for i := 0 to |ps|
      invariant rows + Concat(RowLists(ps)[i..]) == Concat(RowLists(ps))
      invariant total + SumOf(Totals(ps)[i..]) == SumOf(Totals(ps))
    {
      rows, total := rows + ps[i].rows, total + ps[i].total;
    }
  }

  /** The page of an ordered result. */
  function Page(req: Request, total: nat, rows: seq<Row>): seq<Row>
    requires req.offset <= total ==> req.offset <= |rows|
  {
    if req.offset > total then []
    else
      var rest := rows[req.offset..];
      if req.limit.Some? then Take(rest, req.limit.value) else rest
  }

  /** The rows from the offset on, as many as the limit allows. */
  ghost predicate IsPageOf(req: Request, ordered: seq<Row>, page: seq<Row>) {
    && req.offset <= |ordered|
    && |page| == (if req.limit.Some? && req.limit.value < |ordered| - req.offset then req.limit.value else |ordered| - req.offset)
    && forall i :: 0 <= i < |page| ==> page[i] == ordered[req.offset + i]
  }

  /** What slicing leaves: nothing beyond the total, else the page. */
  ghost predicate Sliced(req: Request, total: nat, ordered: seq<Row>, page: seq<Row>) {
    if req.offset > total then page == [] else IsPageOf(req, ordered, page)
  }

  lemma SlicedIsPage(req: Request, total: nat, ordered: seq<Row>, page: seq<Row>)
    requires (req.offset <= total ==> req.offset <= |ordered|) && Sliced(req, total, ordered, page)
    ensures page == Page(req, total, ordered)
  {
  }

  lemma PageMeans(req: Request, total: nat, ordered: seq<Row>)
    requires req.offset <= total ==> req.offset <= |ordered|
    ensures req.offset > total ==> Page(req, total, ordered) == []
    ensures req.offset <= total ==> IsPageOf(req, ordered, Page(req, total, ordered))
  {
  }

  /** The first n pages of a fixed size. */
  function PagesUpto(req: Request, ordered: seq<Row>, size: nat, n: nat): seq<seq<Row>> {
    if n == 0 then []
    else PagesUpto(req, ordered, size, n - 1) +
         [Page(req.(limit := Some(size), offset := (n - 1) * size), |ordered|, ordered)]
  }

  /** Turning the pages one after the other shows every row once, in order. */
  lemma {:induction false} PagesJoin(req: Request, ordered: seq<Row>, size: nat, n: nat)
    requires size > 0
    ensures Concat(PagesUpto(req, ordered, size, n)) == ordered[..Smaller(n * size, |ordered|)]
    ensures n * size >= |ordered| ==> Concat(PagesUpto(req, ordered, size, n)) == ordered
  {
    if n > 0 {
      var m := n - 1;
      var last := req.(limit := Some(size), offset := m * size);
      PagesJoin(req, ordered, size, m);
      NextPage(m, size);
      ConcatSnoc(PagesUpto(req, ordered, size, m), Page(last, |ordered|, ordered));
      PageMeans(last, |ordered|, ordered);
      hide Page;
      var page := Page(last, |ordered|, ordered);
      if m * size <= |ordered| {
        assert ordered[..Smaller(n * size, |ordered|)] == ordered[..m * size] + page;
      } else {
        assert ordered[..|ordered|] + [] == ordered[..|ordered|];
      }
    }
  }

  lemma NextPage(m: nat, size: nat)
    ensures (m + 1) * size == m * size + size
  {
  }

  // ------------------------------------------------------------------- counting

  lemma {:induction false} BelowTake(le: (Row, Row) -> bool, s: seq<Row>, n: nat, x: Row)
    requires TotalPreorder(le) && Sorted(le, s)
    ensures Below(le, Take(s, n), x) == Smaller(n, Below(le, s, x))
  {
    if n == 0 {
      assert Take(s, n) == [];
    } else if s != [] {
      if le(x, s[0]) {
        BelowNone(le, s, x);
        BelowNone(le, Take(s, n), x);
      } else {
        BelowTake(le, s[1..], n - 1, x);
        assert Take(s, n)[1..] == Take(s[1..], n - 1);
      }
    }
  }

  /** Cut lists: the same lists, each cut at n. */
  ghost predicate CutAt(full: seq<seq<Row>>, cut: seq<seq<Row>>, n: nat) {
    |full| == |cut| && forall i :: 0 <= i < |full| ==> cut[i] == Take(full[i], n)
  }

  lemma {:induction false} CutCounts(le: (Row, Row) -> bool, full: seq<seq<Row>>, cut: seq<seq<Row>>, n: nat, x: Row)
    requires TotalPreorder(le) && CutAt(full, cut, n)
    requires forall i :: 0 <= i < |full| ==> Sorted(le, full[i])
    ensures Smaller(n, Below(le, Concat(cut), x)) == Smaller(n, Below(le, Concat(full), x))
  {
    if full != [] {
      assert CutAt(full[1..], cut[1..], n);
      CutCounts(le, full[1..], cut[1..], n, x);
      BelowTake(le, full[0], n, x);
      BelowAppend(le, full[0], Concat(full[1..]), x);
      BelowAppend(le, cut[0], Concat(cut[1..]), x);
    }
  }

  lemma {:induction false} CutLengths(full: seq<seq<Row>>, cut: seq<seq<Row>>, n: nat)
    requires CutAt(full, cut, n)
    ensures Smaller(n, |Concat(cut)|) == Smaller(n, |Concat(full)|)
  {
    if full != [] {
      assert CutAt(full[1..], cut[1..], n);
      CutLengths(full[1..], cut[1..], n);
    }
  }

  /** Without sorting, the merged prefix is untouched by the cut. */
  lemma {:induction false} CutPrefix(full: seq<seq<Row>>, cut: seq<seq<Row>>, n: nat, m: nat)
    requires CutAt(full, cut, n) && m <= n
    ensures Take(Concat(cut), m) == Take(Concat(full), m)
  {
    if full != [] {
      assert CutAt(full[1..], cut[1..], n);
      var k := |full[0]|;
      if m > k {
        CutPrefix(full[1..], cut[1..], n, m - k);
        assert cut[0] == full[0];
        TakeAppend(full[0], Concat(full[1..]), m);
        TakeAppend(full[0], Concat(cut[1..]), m);
      } else {
        TakeFirst(full[0], Concat(full[1..]), m);
        TakeFirst(cut[0], Concat(cut[1..]), m);
        assert Take(cut[0], m) == Take(full[0], m);
      }
    }
  }

  lemma TakeAppend(a: seq<Row>, b: seq<Row>, m: nat)
    requires m >= |a|
    ensures Take(a + b, m) == a + Take(b, m - |a|)
  {
  }

  lemma TakeFirst(a: seq<Row>, b: seq<Row>, m: nat)
    requires m <= |a|
    ensures Take(a + b, m) == Take(a, m)
  {
  }

  // ------------------------------------------------------------------- the pages

  /** The peers' contributions to one request: matching rows, table sizes and
      answers, peer by peer in order of arrival. */
  ghost predicate Answered(req: Request, matching: seq<seq<Row>>, sizes: seq<nat>, ps: seq<PeerResponse>) {
    && |matching| == |sizes| == |ps|
    && forall i :: 0 <= i < |ps| ==> |matching[i]| <= sizes[i] && Contributes(req, matching[i], sizes[i], ps[i])
  }

  /** The total that decides whether the offset lies outside is right about it,
      and the slice taken after it is never out of range. */
  lemma {:induction false} OffsetInRange(req: Request, matching: seq<seq<Row>>, sizes: seq<nat>, ps: seq<PeerResponse>)
    requires Answered(req, matching, sizes, ps)
    ensures req.offset <= SumOf(Totals(ps)) ==> req.offset <= |Concat(RowLists(ps))|
    ensures req.offset <= SumOf(Totals(ps)) <==> req.offset <= |Concat(matching)|
    ensures req.wrapped ==> SumOf(Totals(ps)) == |Concat(matching)|
  {
    OffsetCounts(req, req.offset, matching, sizes, ps);
  }

  lemma {:induction false} OffsetCounts(req: Request, offset: nat, matching: seq<seq<Row>>, sizes: seq<nat>, ps: seq<PeerResponse>)
    requires Answered(req, matching, sizes, ps) && offset <= req.offset
    ensures offset <= SumOf(Totals(ps)) ==> offset <= |Concat(RowLists(ps))|
    ensures offset <= SumOf(Totals(ps)) <==> offset <= |Concat(matching)|
    ensures req.wrapped ==> SumOf(Totals(ps)) == |Concat(matching)|
  {
    if ps != [] {
      var rest := if ps[0].total <= offset then offset - ps[0].total else 0;
      assert RowLists(ps)[1..] == RowLists(ps[1..]) && Totals(ps)[1..] == Totals(ps[1..]);
      OffsetCounts(req, rest, matching[1..], sizes[1..], ps[1..]);
    }
  }

  lemma AnsweredCut(req: Request, matching: seq<seq<Row>>, sizes: seq<nat>, ps: seq<PeerResponse>, n: nat)
    requires Answered(req, matching, sizes, ps) && OptimizeResultLimit(req) == n && n > 0
    ensures CutAt(matching, RowLists(ps), n)
  {
  }

  lemma {:induction false} AnsweredWhole(req: Request, matching: seq<seq<Row>>, sizes: seq<nat>, ps: seq<PeerResponse>)
    requires Answered(req, matching, sizes, ps) && OptimizeResultLimit(req) <= 0
    ensures RowLists(ps) == matching
  {
  }

  /** Unsorted: the page is the very same list of rows. */
  lemma PageUnsorted(req: Request, matching: seq<seq<Row>>, sizes: seq<nat>, ps: seq<PeerResponse>)
    requires Answered(req, matching, sizes, ps) && req.sort == []
    ensures var full, cut, total := Concat(matching), Concat(RowLists(ps)), SumOf(Totals(ps));
            && (req.offset <= total ==> req.offset <= |cut|)
            && Page(req, total, cut) == Page(req, |full|, full)
  {
    hide Concat, SumOf, Answered;
    var full, cut := Concat(matching), Concat(RowLists(ps));
    OffsetInRange(req, matching, sizes, ps);
    if OptimizeResultLimit(req) <= 0 {
      AnsweredWhole(req, matching, sizes, ps);
    } else {
      var n := req.limit.value + req.offset;
      AnsweredCut(req, matching, sizes, ps, n);
      CutPrefix(matching, RowLists(ps), n, n);
      if req.offset <= |full| {
        PageOfPrefix(req, full, cut);
      }
    }
  }

  lemma PageOfPrefix(req: Request, full: seq<Row>, cut: seq<Row>)
    requires req.limit.Some? && req.offset <= |full| && req.offset <= |cut|
    requires Take(cut, req.limit.value + req.offset) == Take(full, req.limit.value + req.offset)
    ensures Take(cut[req.offset..], req.limit.value) == Take(full[req.offset..], req.limit.value)
  {
    var n := req.limit.value + req.offset;
    assert Take(cut[req.offset..], req.limit.value) == Take(cut, n)[req.offset..];
    assert Take(full[req.offset..], req.limit.value) == Take(full, n)[req.offset..];
  }

  /** Sorted: whatever arrangement the sort leaves among equal keys, the page
      carries the same keys, row by row, as sorting and slicing everything. */
  lemma PageSorted(req: Request, matching: seq<seq<Row>>, sizes: seq<nat>, ps: seq<PeerResponse>,
      sortedCut: seq<Row>, sortedFull: seq<Row>)
    requires Answered(req, matching, sizes, ps)
    requires OptimizeResultLimit(req) > 0 ==> forall i :: 0 <= i < |matching| ==> Sorted(Order(req), matching[i])
    requires IsSortOf(Order(req), Concat(RowLists(ps)), sortedCut)
    requires IsSortOf(Order(req), Concat(matching), sortedFull)
    ensures var total := SumOf(Totals(ps));
            && (req.offset <= total ==> req.offset <= |sortedCut|)
            && Keys(req, Page(req, total, sortedCut)) == Keys(req, Page(req, |sortedFull|, sortedFull))
  {
    hide Concat, SumOf, Answered, RowLess, RowKey;
    var full, cut := Concat(matching), Concat(RowLists(ps));
    assert |sortedCut| == |multiset(sortedCut)| == |cut|;
    assert |sortedFull| == |multiset(sortedFull)| == |full|;
    OffsetInRange(req, matching, sizes, ps);
    OrderTotal(req);
    if req.offset <= |full| {
      if OptimizeResultLimit(req) <= 0 {
        AnsweredWhole(req, matching, sizes, ps);
        SortDetermined(Order(req), sortedCut, sortedFull);
        KeyRange(req, sortedCut, sortedFull, |full|);
      } else {
        var n := req.limit.value + req.offset;
        AnsweredCut(req, matching, sizes, ps, n);
        CutLengths(matching, RowLists(ps), n);
        var m := Smaller(n, |full|);
        forall x
          ensures Smaller(m, Below(Order(req), sortedCut, x)) == Smaller(m, Below(Order(req), sortedFull, x))
        {
          CutCounts(Order(req), matching, RowLists(ps), n, x);
          BelowPermutation(Order(req), sortedCut, cut, x);
          BelowPermutation(Order(req), sortedFull, full, x);
        }
        SortedPrefixDetermined(Order(req), sortedCut, sortedFull, m);
        KeyRange(req, sortedCut, sortedFull, m);
      }
    }
  }

  lemma KeyRange(req: Request, a: seq<Row>, b: seq<Row>, m: nat)
    requires m <= |a| && m <= |b| && req.offset <= m
    requires forall i :: 0 <= i < m ==> RowKey(req, a[i]) == RowKey(req, b[i])
    requires |a| == |b| == m ||
             (req.limit.Some? && m == Smaller(req.limit.value + req.offset, |a|) == Smaller(req.limit.value + req.offset, |b|))
    ensures Keys(req, Page(req, |a|, a)) == Keys(req, Page(req, |b|, b))
    ensures forall t: nat :: req.offset <= t ==> Page(req, t, a) == Page(req, |a|, a)
  {
    hide RowKey;
    var pa, pb := Page(req, |a|, a), Page(req, |b|, b);
    assert forall i :: 0 <= i < |pa| ==> pa[i] == a[req.offset + i];
    assert forall i :: 0 <= i < |pb| ==> pb[i] == b[req.offset + i];
  }

  // ------------------------------------------------- why the scan must be sorted

  /** The first n keys do not depend on cutting the scan at n first. */
  ghost predicate CutSafe(le: (Row, Row) -> bool, scan: seq<Row>, n: nat) {
    forall cut, full :: IsSortOf(le, Take(scan, n), cut) && IsSortOf(le, scan, full) ==>
      forall i :: 0 <= i < n && i < |cut| && i < |full| ==> le(cut[i], full[i]) && le(full[i], cut[i])
  }

  /** For one peer, cutting early is right for every limit exactly when the scan
      runs in sort order. */
  lemma CutSafeExact(req: Request, scan: seq<Row>)
    ensures (forall n :: CutSafe(Order(req), scan, n)) <==> Sorted(Order(req), scan)
  {
    hide RowLess;
    var le := Order(req);
    OrderTotal(req);
    if Sorted(le, scan) {
      forall n: nat
        ensures CutSafe(le, scan, n)
      {
        SortedCutSafe(le, scan, n);
      }
    } else {
      var i, j :| 0 <= i < j < |scan| && !le(scan[i], scan[j]);
      UnsortedCut(le, scan, i, j);
    }
  }

  lemma SortedCutSafe(le: (Row, Row) -> bool, scan: seq<Row>, n: nat)
    requires TotalPreorder(le) && Sorted(le, scan)
    ensures CutSafe(le, scan, n)
  {
    forall cut, full | IsSortOf(le, Take(scan, n), cut) && IsSortOf(le, scan, full)
      ensures forall i :: 0 <= i < n && i < |cut| && i < |full| ==> le(cut[i], full[i]) && le(full[i], cut[i])
    {
      SortDetermined(le, cut, Take(scan, n));
      SortDetermined(le, full, scan);
      forall i | 0 <= i < n && i < |cut| && i < |full|
        ensures le(cut[i], full[i]) && le(full[i], cut[i])
      {
        assert Take(scan, n)[i] == scan[i];
      }
    }
  }

  /** A later row that sorts before an earlier one is lost when the scan is cut
      right after the earlier one. */
  lemma UnsortedCut(le: (Row, Row) -> bool, scan: seq<Row>, i: nat, j: nat)
    requires TotalPreorder(le) && i < j < |scan| && !le(scan[i], scan[j])
    ensures !CutSafe(le, scan, i + 1)
  {
    hide Sort, Below;
    var n, x := i + 1, scan[i];
    var head, tail := scan[..n], scan[n..];
    assert scan == head + tail && Take(scan, n) == head;
    var cut, full := Sort(le, head), Sort(le, scan);
    SortSorts(le, head);
    SortSorts(le, scan);
    BelowPermutation(le, cut, head, x);
    BelowPermutation(le, full, scan, x);
    BelowAppend(le, head, tail, x);
    assert |cut| == |multiset(cut)| == |head| && |full| == |multiset(full)| == |scan|;
    BelowSome(le, tail, j - n, x);
    NotAllBelow(le, head, i, x);
    var k := Below(le, cut, x);
    BelowSorted(le, cut, x, k);
    BelowSorted(le, full, x, k);
    assert !le(cut[k], full[k]);
  }

  lemma {:induction false} BelowSome(le: (Row, Row) -> bool, s: seq<Row>, k: nat, x: Row)
    requires k < |s| && !le(x, s[k])
    ensures Below(le, s, x) > 0
  {
    if k > 0 {
      BelowSome(le, s[1..], k - 1, x);
    }
  }

  lemma {:induction false} NotAllBelow(le: (Row, Row) -> bool, s: seq<Row>, k: nat, x: Row)
    requires k < |s| && le(x, s[k])
    ensures Below(le, s, x) < |s|
  {
    if k > 0 {
      NotAllBelow(le, s[1..], k - 1, x);
    }
  }

  // ------------------------------------------------------------- post processing

  /** The merged rows of a response. */
  class RawResultSet {
    var total: nat
    var dataResult: seq<Row>

    constructor (ps: seq<PeerResponse>)
      ensures dataResult == Concat(RowLists(ps)) && total == SumOf(Totals(ps))
    {
      var rows, count := CollectResponses(ps);
      dataResult, total := rows, count;
    }

    /** Sorts the rows if asked to, then slices out the page: nothing beyond the
        total, otherwise the rows from the offset on up to the limit, of the same rows
        put in order. */
    method PostProcessing(req: Request)
      requires req.offset <= total ==> req.offset <= |dataResult|
      modifies this`dataResult
      ensures req.offset > total ==> dataResult == []
      ensures req.offset <= total ==> exists ordered: seq<Row> ::
        && multiset(ordered) == multiset(old(dataResult))
        && (if req.sort == [] then ordered == old(dataResult) else InOrderAll(req, ordered) && Sorted(Order(req), ordered))
        && IsPageOf(req, ordered, dataResult)
        && dataResult == Page(req, total, ordered)
      ensures req.sort != [] ==> InOrderAll(req, dataResult)
    {
      hide InOrderAll, Order;
      ghost var before := dataResult;
      ghost var ordered := dataResult;
      if req.offset > total {
        dataResult := [];
        SortedInOrder(req, []);
        return;
      }
      if |req.sort| > 0 {
        SortLength(req, dataResult);
        dataResult := Sort(Order(req), dataResult);
        ordered := dataResult;
        SortedInOrder(req, ordered);
      }
      if req.offset > 0 {
        dataResult := dataResult[req.offset..];
      }
      if req.limit.Some? && req.limit.value < |dataResult| {
        dataResult := dataResult[..req.limit.value];
      }
      PageMeans(req, total, ordered);
      assert dataResult == Page(req, total, ordered);
      if req.sort != [] {
        PartInOrder(req, ordered, dataResult);
      }
    }
  }

  lemma PartInOrder(req: Request, ordered: seq<Row>, page: seq<Row>)
    requires InOrderAll(req, ordered) && IsPageOf(req, ordered, page)
    ensures InOrderAll(req, page)
  {
    hide InOrder;
  }

  lemma SortLength(req: Request, rows: seq<Row>)
    ensures IsSortOf(Order(req), rows, Sort(Order(req), rows)) && |Sort(Order(req), rows)| == |rows|
  {
    OrderTotal(req);
    SortSorts(Order(req), rows);
    assert |multiset(rows)| == |rows|;
  }
}
