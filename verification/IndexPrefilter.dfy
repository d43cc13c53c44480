/** Answering a query from the host index: instead of scanning the whole table,
    collect host names that cover every possible match and look only at their
    rows. */
module IndexPrefilter {
  import opened Text
  import opened Filters
  import opened DataStores
  import opened Lists
  import Ordering

  /** The other tables the index consults: host names, and group members. */
  datatype DataSet = DataSet(
    hostNames: set<string>,
    hostgroups: map<string, seq<string>>,
    servicegroups: map<string, seq<(string, string)>>)

  // ------------------------------------------------- hosts behind a single test

  predicate PatternOp(op: Operator) {
    op in {RegexMatch, RegexNoCaseMatch, Contains, ContainsNoCase}
  }

  /** Hosts of the groups a test on a group list selects; None: not indexable. */
  function GroupHosts(lib: Lib, groups: map<string, seq<string>>, t: Test): Option<set<string>>
    requires t.Test?
  {
    if t.op == GreaterThan then Some(if t.strValue in groups then set m | m in groups[t.strValue] else {})
    else if PatternOp(t.op) then Some(set g, m | g in groups && MatchString(lib, t, g) && m in groups[g] :: m)
    else None
  }

  function ServiceGroupHosts(groups: map<string, seq<(string, string)>>): map<string, seq<string>> {
    map g | g in groups :: seq(|groups[g]|, i requires 0 <= i < |groups[g]| => groups[g][i].0)
  }

  function FromHostColumns(lib: Lib, ds: DataSet, t: Test): Option<set<string>> {
    if t.NoTest? then None else
    var colName := TrimSuffix(t.column.name, "_lc");
    if colName == "name" then (if t.op == Equal then Some({t.strValue}) else None)
    else if colName == "groups" then GroupHosts(lib, ds.hostgroups, t)
    else None
  }

  function FromServiceColumns(lib: Lib, ds: DataSet, t: Test): Option<set<string>> {
    if t.NoTest? then None else
    var colName := TrimSuffix(t.column.name, "_lc");
    if colName == "host_name" then
      if t.op == Equal then Some({t.strValue})
      else if PatternOp(t.op) || t.op == EqualNocase then Some(set h | h in ds.hostNames && MatchString(lib, t, h))
      else None
    else if colName == "host_groups" then GroupHosts(lib, ds.hostgroups, t)
    else if colName == "groups" then GroupHosts(lib, ServiceGroupHosts(ds.servicegroups), t)
    else None
  }

  function IndexHosts(lib: Lib, ds: DataSet, table: TableName, t: Test): Option<set<string>> {
    match table
    case Hosts => FromHostColumns(lib, ds, t)
    case Services => FromServiceColumns(lib, ds, t)
    case OtherTable => None
  }

  // --------------------------------------------------- hosts behind filter trees

  /** Collects hosts along a filter list. In strict mode (below an Or) every test
      must be indexable; otherwise one is enough. */
  function Collect(hosts: Test -> Option<set<string>>, fs: seq<Filter>, strict: bool, uniq: set<string>, found: nat): (bool, set<string>) {
    if fs == [] then (found > 0, uniq)
    else
      var f := fs[0];
      if f.negate then (false, uniq)
      else if f.group != NoGroup then
        var (ok, u) := Collect(hosts, f.kids, f.group == Or, uniq, 0);
        if !ok then (false, u) else Collect(hosts, fs[1..], strict, u, found + 1)
      else
        match hosts(f.test)
        case Some(h) => Collect(hosts, fs[1..], strict, uniq + h, found + 1)
        case None => if strict then (false, uniq) else Collect(hosts, fs[1..], strict, uniq, found)
  }

  method TryFilterIndex(hosts: Test -> Option<set<string>>, filter: seq<Filter>, strict: bool, uniq: set<string>)
      returns (ok: bool, uniqHosts: set<string>)
    ensures (ok, uniqHosts) == Collect(hosts, filter, strict, uniq, 0)
    decreases filter
  {
    uniqHosts := uniq;
    var filterFound := 0;
    for i := 0 to |filter|
      invariant Collect(hosts, filter[i..], strict, uniqHosts, filterFound) == Collect(hosts, filter, strict, uniq, 0)
    {
      var f := filter[i];
      assert filter[i..][1..] == filter[i + 1..];
      if f.negate {
        return false, uniqHosts;
      }
      if f.group != NoGroup {
        ok, uniqHosts := TryFilterIndex(hosts, f.kids, f.group == Or, uniqHosts);
        if !ok {
          return;
        }
        filterFound := filterFound + 1;
      } else {
        var h := hosts(f.test);
        if h.Some? {
          uniqHosts := uniqHosts + h.value;
          filterFound := filterFound + 1;
        } else if strict {
          return false, uniqHosts;
        }
      }
    }
    ok := filterFound > 0;
  }

  /** For one row with host h: every indexable test in the tree that holds names h. */
  ghost predicate Names(hosts: Test -> Option<set<string>>, holds: Test -> bool, h: string, f: Filter) {
    if f.group == NoGroup then hosts(f.test).Some? && holds(f.test) ==> h in hosts(f.test).value
    else forall k :: k in f.kids ==> Names(hosts, holds, h, k)
  }

  /** A successful collection covers every match: whoever passes the whole list
      (or, below an Or, any member of it) is among the collected hosts. */
  lemma {:induction false} CollectCovers(hosts: Test -> Option<set<string>>, holds: Test -> bool, h: string,
      fs: seq<Filter>, strict: bool, uniq: set<string>, found: nat)
    requires forall f :: f in fs ==> Names(hosts, holds, h, f)
    ensures var (ok, u) := Collect(hosts, fs, strict, uniq, found);
            ok ==>
              && uniq <= u
              && (strict && MatchAny(holds, fs) ==> h in u)
              && (!strict && MatchAll(holds, fs) && (found > 0 ==> h in uniq) ==> h in u)
  {
    if fs != [] {
      var f, rest := fs[0], fs[1..];
      assert forall x :: x in fs <==> x == f || x in rest;
      assert Names(hosts, holds, h, f);
      assert MatchAll(holds, fs) ==> Match(holds, f) && MatchAll(holds, rest);
      assert MatchAny(holds, fs) ==> Match(holds, f) || MatchAny(holds, rest);
      if f.group != NoGroup {
        CollectCovers(hosts, holds, h, f.kids, f.group == Or, uniq, 0);
        var (ok, u) := Collect(hosts, f.kids, f.group == Or, uniq, 0);
        CollectCovers(hosts, holds, h, rest, strict, u, found + 1);
      } else {
        match hosts(f.test)
        case Some(hs) => CollectCovers(hosts, holds, h, rest, strict, uniq + hs, found + 1);
        case None => CollectCovers(hosts, holds, h, rest, strict, uniq, found);
      }
    }
  }

  // -------------------------------------------------------------- cached data

  function HostColumn(table: TableName): string {
    if table == Hosts then "name" else "host_name"
  }

  function HostOf(table: TableName, row: Row): string {
    CellText(row, HostColumn(table))
  }

  /** A row as the cache holds it: string keys, a lower-case copy of the host
      name, and groups that list it among their members. */
  ghost predicate Consistent(lib: Lib, ds: DataSet, table: TableName, row: Row) {
    var h := HostOf(table, row);
    && row.Get(HostColumn(table)).StrVal?
    && row.GetString(HostColumn(table) + "_lc") == lib.lower(h)
    && match table
       case Hosts => forall g :: g in row.GetList("groups") ==> g in ds.hostgroups && h in ds.hostgroups[g]
       case Services =>
         && h in ds.hostNames
         && (forall g :: g in row.GetList("host_groups") ==> g in ds.hostgroups && h in ds.hostgroups[g])
         && (forall g :: g in row.GetList("groups") ==>
             g in ds.servicegroups && exists m :: m in ds.servicegroups[g] && m.0 == h)
       case OtherTable => true
  }

  /** Column types of the indexed columns. */
  predicate Typed(table: TableName, t: Test) {
    t.Test? ==>
      var colName := TrimSuffix(t.column.name, "_lc");
      && (colName == HostColumn(table) ==> t.column.name in {HostColumn(table), HostColumn(table) + "_lc"} && t.column.dataType == StringCol)
      && (colName in {"groups", "host_groups"} ==> t.column.name == colName && t.column.dataType == StringListCol)
  }

  predicate LowerColumn(t: Test) {
    t.Test? && HasSuffix(t.column.name, "_lc")
  }

  /** Every test of the tree satisfies p. */
  ghost predicate EachTest(p: Test -> bool, f: Filter) {
    if f.group == NoGroup then p(f.test) else forall k :: k in f.kids ==> EachTest(p, k)
  }

  ghost predicate TypedAll(table: TableName, fs: seq<Filter>) {
    forall f :: f in fs ==> EachTest(t => Typed(table, t), f)
  }

  ghost predicate NoLowerColumns(fs: seq<Filter>) {
    forall f :: f in fs ==> EachTest(t => !LowerColumn(t), f)
  }

  lemma GroupHostsName(lib: Lib, groups: map<string, seq<string>>, t: Test, h: string, list: seq<string>)
    requires t.Test? && GroupHosts(lib, groups, t).Some? && MatchStringList(lib, t, list)
    requires forall g :: g in list ==> g in groups && h in groups[g]
    ensures h in GroupHosts(lib, groups, t).value
  {
    if PatternOp(t.op) {
      var g :| g in list && MatchString(lib, t, g);
      assert g in groups && h in groups[g];
    }
  }

  /** An indexable test that holds for a row names the row's host, unless it
      reads the lower-case copy of a name that has capitals. */
  lemma TestNames(lib: Lib, ds: DataSet, table: TableName, row: Row, t: Test)
    requires Consistent(lib, ds, table, row) && Typed(table, t)
    requires LowerColumn(t) ==> lib.lower(HostOf(table, row)) == HostOf(table, row)
    requires IndexHosts(lib, ds, table, t).Some? && Holds(lib, row, t)
    ensures HostOf(table, row) in IndexHosts(lib, ds, table, t).value
  {
    hide MatchString, MatchStringList, GroupHosts;
    var h, colName := HostOf(table, row), TrimSuffix(t.column.name, "_lc");
    if colName == HostColumn(table) {
      var value := row.GetString(t.column.name);
      assert value == h;
      if t.op == Equal {
        EqualMeans(lib, t, h);
      }
    } else if colName == "groups" && table == Services {
      var groups := ServiceGroupHosts(ds.servicegroups);
      forall g | g in row.GetList("groups")
        ensures g in groups && h in groups[g]
      {
        var m :| m in ds.servicegroups[g] && m.0 == h;
        var i :| 0 <= i < |ds.servicegroups[g]| && ds.servicegroups[g][i] == m;
        assert groups[g][i] == h;
      }
      GroupHostsName(lib, groups, t, h, row.GetList("groups"));
    } else {
      GroupHostsName(lib, ds.hostgroups, t, h, row.GetList(colName));
    }
  }

  lemma EqualMeans(lib: Lib, t: Test, v: string)
    requires t.Test? && t.op == Equal
    ensures MatchString(lib, t, v) <==> v == t.strValue
  {
  }

  lemma {:induction false} TreeNames(lib: Lib, ds: DataSet, table: TableName, row: Row, f: Filter)
    requires Consistent(lib, ds, table, row) && EachTest(t => Typed(table, t), f)
    requires EachTest(t => !LowerColumn(t), f) || lib.lower(HostOf(table, row)) == HostOf(table, row)
    ensures Names(t => IndexHosts(lib, ds, table, t), OnRow(lib, row), HostOf(table, row), f)
  {
    hide Consistent, Typed, LowerColumn, IndexHosts, Holds, HostOf;
    if f.group == NoGroup {
      if IndexHosts(lib, ds, table, f.test).Some? && Holds(lib, row, f.test) {
        TestNames(lib, ds, table, row, f.test);
      }
    } else {
      forall k | k in f.kids
        ensures Names(t => IndexHosts(lib, ds, table, t), OnRow(lib, row), HostOf(table, row), k)
      {
        TreeNames(lib, ds, table, row, k);
      }
    }
  }

  // -------------------------------------------------------------- the prefilter

  /** The hosts the index settles on; None: scan the whole table. */
  function Chosen(lib: Lib, ds: DataSet, table: TableName, filter: seq<Filter>): Option<set<string>> {
    if filter == [] || table == OtherTable then None
    else
      var (ok, u) := Collect(t => IndexHosts(lib, ds, table, t), filter, false, {}, 0);
      if ok && u != {} then Some(u) else None
  }

  /** Rows as the prefilter may deliver them: the table itself, or all rows of
      the chosen hosts, each once, in some order. */
  ghost predicate Prefiltered(lib: Lib, ds: DataSet, table: TableName, data: seq<Row>, filter: seq<Filter>, rows: seq<Row>) {
    match Chosen(lib, ds, table, filter)
    case None => rows == data
    case Some(u) => NoDup(rows) && forall r :: r in rows <==> r in data && HostOf(table, r) in u
  }

  /** The rows of a list that pass the query. */
  function Select(lib: Lib, filter: seq<Filter>, rows: seq<Row>): seq<Row> {
    Matches(r => MatchRow(lib, r, filter), rows)
  }

  lemma SelectMembers(lib: Lib, filter: seq<Filter>, rows: seq<Row>)
    ensures forall r :: r in Select(lib, filter, rows) <==> r in rows && MatchRow(lib, r, filter)
    ensures NoDup(rows) ==> NoDup(Select(lib, filter, rows))
  {
    MatchesMembers(r => MatchRow(lib, r, filter), rows);
    if NoDup(rows) {
      MatchesNoDup(r => MatchRow(lib, r, filter), rows);
    }
  }

  /** Filtering the prefiltered rows selects what filtering the whole table does. */
  ghost predicate SameAnswer(lib: Lib, table: TableName, ds: DataSet, data: seq<Row>, filter: seq<Filter>) {
    forall rows :: Prefiltered(lib, ds, table, data, filter, rows) ==>
      multiset(Select(lib, filter, rows)) == multiset(Select(lib, filter, data))
  }

  /** The index refines the full scan for every And/Or tree, provided no test
      reads a lower-case copy or all host names are lower case already. */
  lemma PrefilterExact(lib: Lib, table: TableName, ds: DataSet, data: seq<Row>, filter: seq<Filter>)
    requires NoDup(data) && forall r :: r in data ==> Consistent(lib, ds, table, r)
    requires TypedAll(table, filter)
    requires NoLowerColumns(filter) || forall r :: r in data ==> lib.lower(HostOf(table, r)) == HostOf(table, r)
    ensures SameAnswer(lib, table, ds, data, filter)
  {
    hide Consistent, HostOf, EachTest, Collect, MatchRow, Select;
    forall rows | Prefiltered(lib, ds, table, data, filter, rows)
      ensures multiset(Select(lib, filter, rows)) == multiset(Select(lib, filter, data))
    {
      match Chosen(lib, ds, table, filter)
      case None =>
      case Some(u) =>
        SelectMembers(lib, filter, rows);
        SelectMembers(lib, filter, data);
        forall r | r in data && MatchRow(lib, r, filter)
          ensures HostOf(table, r) in u
        {
          MatchedHost(lib, table, ds, r, filter, u);
        }
        SameMembers(Select(lib, filter, rows), Select(lib, filter, data));
    }
  }

  lemma MatchedHost(lib: Lib, table: TableName, ds: DataSet, r: Row, filter: seq<Filter>, u: set<string>)
    requires Consistent(lib, ds, table, r) && TypedAll(table, filter)
    requires NoLowerColumns(filter) || lib.lower(HostOf(table, r)) == HostOf(table, r)
    requires Chosen(lib, ds, table, filter) == Some(u) && MatchRow(lib, r, filter)
    ensures HostOf(table, r) in u
  {
    hide Consistent, HostOf, EachTest, Collect, Match, Names;
    var hosts, holds := t => IndexHosts(lib, ds, table, t), OnRow(lib, r);
    forall f | f in filter
      ensures Names(hosts, holds, HostOf(table, r), f)
    {
      TreeNames(lib, ds, table, r, f);
    }
    CollectCovers(hosts, holds, HostOf(table, r), filter, false, {}, 0);
  }

  // ------------------------------------------------------- the exact condition

  /** The query host_name_lc = v. */
  function LowerQuery(table: TableName, v: string): seq<Filter> {
    [LeafFilter(Test(Column(HostColumn(table) + "_lc", StringCol), Equal, v, 0.0, "", v == ""))]
  }

  lemma LowerQueryChosen(lib: Lib, table: TableName, ds: DataSet, v: string)
    requires table != OtherTable
    ensures Chosen(lib, ds, table, LowerQuery(table, v)) == Some({v})
    ensures TypedAll(table, LowerQuery(table, v))
  {
    var q := LowerQuery(table, v);
    var hosts := t => IndexHosts(lib, ds, table, t);
    var t := q[0].test;
    assert TrimSuffix("name_lc", "_lc") == "name" && TrimSuffix("host_name_lc", "_lc") == "host_name";
    assert hosts(t) == Some({v});
    hide IndexHosts;
    assert q[1..] == [];
    assert Collect(hosts, q, false, {}, 0) == Collect(hosts, [], false, {} + {v}, 1);
    assert {} + {v} == {v};
  }

  /** A query for one host by name looks at the rows of that host and at no others. */
  lemma HostQueryScans(lib: Lib, table: TableName, ds: DataSet, data: seq<Row>, v: string, rows: seq<Row>)
    requires table != OtherTable
    ensures var q := [LeafFilter(Test(Column(HostColumn(table), StringCol), Equal, v, 0.0, "", v == ""))];
            Prefiltered(lib, ds, table, data, q, rows) ==>
              NoDup(rows) && forall r :: r in rows <==> r in data && HostOf(table, r) == v
  {
    var q := [LeafFilter(Test(Column(HostColumn(table), StringCol), Equal, v, 0.0, "", v == ""))];
    var hosts := t => IndexHosts(lib, ds, table, t);
    assert hosts(q[0].test) == Some({v});
    hide IndexHosts;
    assert q[1..] == [];
    assert Collect(hosts, q, false, {}, 0) == Collect(hosts, [], false, {} + {v}, 1);
    assert {} + {v} == {v};
  }

  /** A host name with capitals breaks the query for its lower-case form. */
  lemma CapitalsMissed(lib: Lib, table: TableName, ds: DataSet, data: seq<Row>, row: Row)
    requires table != OtherTable && NoDup(data) && row in data && Consistent(lib, ds, table, row)
    requires lib.lower(HostOf(table, row)) != HostOf(table, row)
    ensures !SameAnswer(lib, table, ds, data, LowerQuery(table, lib.lower(HostOf(table, row))))
  {
    var v := lib.lower(HostOf(table, row));
    var q := LowerQuery(table, v);
    LowerQueryChosen(lib, table, ds, v);
    var rows := Matches(r => HostOf(table, r) in {v}, data);
    MatchesMembers(r => HostOf(table, r) in {v}, data);
    MatchesNoDup(r => HostOf(table, r) in {v}, data);
    assert Prefiltered(lib, ds, table, data, q, rows);
    assert MatchRow(lib, row, q) by {
      assert Holds(lib, row, q[0].test);
    }
    SelectMembers(lib, q, rows);
    SelectMembers(lib, q, data);
    assert row in multiset(Select(lib, q, data));
    assert row !in multiset(Select(lib, q, rows));
  }

  /** For a cached host or service table, every well-typed filter is answered
      exactly through the index if and only if all host names are lower case. */
  lemma PrefilterExactIff(lib: Lib, table: TableName, ds: DataSet, data: seq<Row>)
    requires table != OtherTable
    requires NoDup(data) && forall r :: r in data ==> Consistent(lib, ds, table, r)
    ensures (forall filter :: TypedAll(table, filter) ==> SameAnswer(lib, table, ds, data, filter))
       <==> forall r :: r in data ==> lib.lower(HostOf(table, r)) == HostOf(table, r)
  {
    hide Consistent, HostOf, SameAnswer, TypedAll;
    if forall r :: r in data ==> lib.lower(HostOf(table, r)) == HostOf(table, r) {
      forall filter | TypedAll(table, filter)
        ensures SameAnswer(lib, table, ds, data, filter)
      {
        PrefilterExact(lib, table, ds, data, filter);
      }
    } else {
      var r :| r in data && lib.lower(HostOf(table, r)) != HostOf(table, r);
      CapitalsMissed(lib, table, ds, data, r);
      LowerQueryChosen(lib, table, ds, lib.lower(HostOf(table, r)));
    }
  }

  // ----------------------------------------------------------- the index lookup

  predicate Ascending(names: seq<string>) {
    forall i, j :: 0 <= i < j < |names| ==> Ordering.StrLess(names[i], names[j])
  }

  /** The collected names in order. */
  method SortNames(names: set<string>) returns (list: seq<string>)
    ensures Ascending(list)
    ensures forall n :: n in list <==> n in names
  {
    list := [];
    var todo := names;
    while todo != {}
      invariant todo <= names && Ascending(list)
      invariant forall n :: n in list <==> n in names && n !in todo
      decreases todo
    {
      var n :| n in todo;
      var i := 0;
      while i < |list| && Ordering.StrLess(list[i], n)
        invariant i <= |list|
        invariant forall j :: 0 <= j < i ==> Ordering.StrLess(list[j], n)
      {
        i := i + 1;
      }
      InsertAscending(list, i, n);
      list := list[..i] + [n] + list[i..];
      todo := todo - {n};
    }
  }

  lemma InsertAscending(list: seq<string>, i: nat, n: string)
    requires Ascending(list) && i <= |list| && n !in list
    requires forall j :: 0 <= j < i ==> Ordering.StrLess(list[j], n)
    requires i < |list| ==> !Ordering.StrLess(list[i], n)
    ensures Ascending(list[..i] + [n] + list[i..])
    ensures forall m :: m in list[..i] + [n] + list[i..] <==> m in list || m == n
  {
    hide Ordering.StrLess;
    assert list == list[..i] + list[i..];
    forall j | i <= j < |list|
      ensures Ordering.StrLess(n, list[j])
    {
      assert list[i] in list;
      Ordering.StrLessTotal(list[i], n);
      if j > i {
        Ordering.StrLessTransitive(n, list[i], list[j]);
      }
    }
    InsertedAscending(list, i, n);
  }

  lemma InsertedAscending(list: seq<string>, i: nat, n: string)
    requires Ascending(list) && i <= |list|
    requires forall j :: 0 <= j < i ==> Ordering.StrLess(list[j], n)
    requires forall j :: i <= j < |list| ==> Ordering.StrLess(n, list[j])
    ensures Ascending(list[..i] + [n] + list[i..])
  {
    hide Ordering.StrLess;
    var out := list[..i] + [n] + list[i..];
    forall a, b | 0 <= a < b < |out|
      ensures Ordering.StrLess(out[a], out[b])
    {
      assert out[a] == if a < i then list[a] else if a == i then n else list[a - 1];
      assert out[b] == if b < i then list[b] else if b == i then n else list[b - 1];
    }
  }

  /** The rows to scan for a query. */
  method GetPreFilteredData(lib: Lib, table: TableName, store: DataStore, ds: DataSet, filter: seq<Filter>)
      returns (rows: seq<Row>)
    requires store.Valid()
    requires table == Hosts ==> store.primaryKey == ["name"]
    requires table == Services ==> store.primaryKey == ["host_name", "description"]
    ensures Prefiltered(lib, ds, table, store.data, filter, rows)
    ensures table == Hosts && Chosen(lib, ds, table, filter).Some? ==>
      forall i, j :: 0 <= i < j < |rows| ==> Ordering.StrLess(HostOf(Hosts, rows[i]), HostOf(Hosts, rows[j]))
  {
    if |filter| == 0 || table == OtherTable {
      return store.data;
    }
    var ok, uniqHosts := TryFilterIndex(t => IndexHosts(lib, ds, table, t), filter, false, {});
    if !ok {
      return store.data;
    }
    var hostlist := SortNames(uniqHosts);
    if |hostlist| == 0 {
      assert forall n :: n in uniqHosts ==> n in hostlist;
      return store.data;
    }
    assert hostlist[0] in uniqHosts;
    if table == Hosts {
      rows := LookupHosts(store, hostlist);
    } else {
      rows := LookupServices(store, hostlist);
    }
  }

  method LookupHosts(store: DataStore, hostlist: seq<string>) returns (rows: seq<Row>)
    requires store.primaryKey == ["name"] && store.Valid() && Ascending(hostlist)
    ensures NoDup(rows) && forall r :: r in rows <==> r in store.data && HostOf(Hosts, r) in hostlist
    ensures forall i, j :: 0 <= i < j < |rows| ==> Ordering.StrLess(HostOf(Hosts, rows[i]), HostOf(Hosts, rows[j]))
  {
    hide Ordering.StrLess;
    rows := [];
    for i := 0 to |hostlist|
      invariant forall r :: r in rows <==> r in store.data && HostOf(Hosts, r) in hostlist[..i]
      invariant forall a, b :: 0 <= a < b < |rows| ==> Ordering.StrLess(HostOf(Hosts, rows[a]), HostOf(Hosts, rows[b]))
    {
      var name := hostlist[i];
      assert hostlist[..i + 1] == hostlist[..i] + [name];
      if name in store.index {
        rows := rows + [store.index[name]];
      }
    }
    assert hostlist[..|hostlist|] == hostlist;
    forall a, b | 0 <= a < b < |rows|
      ensures rows[a] != rows[b]
    {
      Ordering.StrLessTotal(HostOf(Hosts, rows[a]), HostOf(Hosts, rows[b]));
    }
  }

  method LookupServices(store: DataStore, hostlist: seq<string>) returns (rows: seq<Row>)
    requires store.primaryKey == ["host_name", "description"] && store.Valid() && Ascending(hostlist)
    ensures NoDup(rows) && forall r :: r in rows <==> r in store.data && HostOf(Services, r) in hostlist
  {
    hide Ordering.StrLess;
    rows := [];
    for i := 0 to |hostlist|
      invariant NoDup(rows)
      invariant forall r :: r in rows <==> r in store.data && HostOf(Services, r) in hostlist[..i]
    {
      var name := hostlist[i];
      assert name !in hostlist[..i] by {
        if name in hostlist[..i] {
          var j :| 0 <= j < i && hostlist[j] == name;
          Ordering.StrLessTotal(hostlist[j], hostlist[i]);
        }
      }
      assert hostlist[..i + 1] == hostlist[..i] + [name];
      if name in store.index2 {
        rows := AppendHost(store, name, rows);
      }
    }
    assert hostlist[..|hostlist|] == hostlist;
  }

  /** The services of one host, in whatever order the lookup yields them. */
  method AppendHost(store: DataStore, name: string, rows: seq<Row>) returns (out: seq<Row>)
    requires store.primaryKey == ["host_name", "description"] && store.Valid() && name in store.index2
    requires NoDup(rows) && forall r :: r in rows ==> HostOf(Services, r) != name
    ensures NoDup(out)
    ensures forall r :: r in out <==> r in rows || (r in store.data && HostOf(Services, r) == name)
  {
    var services := store.index2[name];
    out := rows;
    var todo := services.Keys;
    while todo != {}
      invariant todo <= services.Keys && NoDup(out)
      invariant forall r :: r in out <==> r in rows || (exists d :: d in services && d !in todo && services[d] == r)
      decreases todo
    {
      var d :| d in todo;
      assert forall e :: e in services ==> CellText(services[e], "description") == e && HostOf(Services, services[e]) == name;
      assert services[d] !in out;
      out := out + [services[d]];
      todo := todo - {d};
    }
  }
}
