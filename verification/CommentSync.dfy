/** Keeping the comments and downtimes tables in step with a remote site: a
    cheap change detector, then a difference by id. */
module CommentSync {
  import opened Text
  import opened Filters
  import opened DataStores
  import opened Lists

  /** The answer to a query sent to the remote site. */
  datatype Reply<T> = Failed | Got(value: T)

  predicate HasId(row: Row) {
    row.Get("id").IntVal?
  }

  predicate AllHaveId(rows: seq<Row>) {
    forall r :: r in rows ==> HasId(r)
  }

  function Id(row: Row): int {
    match row.Get("id") case IntVal(i) => i case _ => 0
  }

  function Ids(rows: seq<Row>): (r: seq<int>)
    ensures |r| == |rows| && forall i :: 0 <= i < |r| ==> r[i] == Id(rows[i])
  {
    seq(|rows|, i requires 0 <= i < |rows| => Id(rows[i]))
  }

  predicate Cached(rows: seq<Row>, id: int) {
    exists r :: r in rows && Id(r) == id
  }

  /** The index key of a row is its id in decimal, so keys are equal only for equal ids. */
  lemma KeyIsId(row: Row)
    requires HasId(row)
    ensures CellText(row, "id") == IntText(Id(row))
  {
  }

  // ---------------------------------------------------------- change detector

  /** Whether count or highest id differ from the cache; an empty answer says nothing. */
  predicate MaxIDOrSizeChanged(data: seq<Row>, res: seq<(int, int)>) {
    var entries := |data|;
    var maxID := if entries > 0 then Id(data[entries - 1]) else 0;
    !(|res| == 0 || (entries == res[0].0 && (entries == 0 || res[0].1 == maxID)))
  }

  function MaxId(rows: seq<Row>): int {
    if rows == [] then 0
    else if |rows| == 1 then Id(rows[0])
    else var m := MaxId(rows[1..]); if Id(rows[0]) > m then Id(rows[0]) else m
  }

  /** What the remote site answers: entries whose id is not -1, and the highest id. */
  function Summary(remote: seq<Row>): seq<(int, int)> {
    [(|Matches(r => Id(r) != -1, remote)|, MaxId(remote))]
  }

  // ------------------------------------------------------------- difference

  /** The cache after the difference: rows the site still has, then the
      answered rows that were asked for. */
  function Kept(cached: seq<Row>, ids: seq<int>): seq<Row> {
    Matches(r => Id(r) in ids, cached)
  }

  predicate IsMissing(cached: seq<Row>, ids: seq<int>, id: int) {
    id in ids && !Cached(cached, id)
  }

  /** What the site answers to a query for the missing ids. */
  function Selected(remote: seq<Row>, missing: seq<int>): seq<Row> {
    Matches(r => Id(r) in missing, remote)
  }

  function MissingIds(cached: seq<Row>, ids: seq<int>): seq<int> {
    if ids == [] then []
    else
      var n := |ids| - 1;
      MissingIds(cached, ids[..n]) + (if Cached(cached, ids[n]) then [] else [ids[n]])
  }

  lemma {:induction false} MissingIdsMembers(cached: seq<Row>, ids: seq<int>)
    ensures forall id :: id in MissingIds(cached, ids) <==> IsMissing(cached, ids, id)
  {
    if ids != [] {
      var n := |ids| - 1;
      MissingIdsMembers(cached, ids[..n]);
      assert ids == ids[..n] + [ids[n]];
    }
  }

  /** The answers of the remote site in one update. */
  datatype Answers = Answers(summary: Reply<seq<(int, int)>>, ids: Reply<seq<int>>, rows: seq<int> -> Reply<seq<Row>>)

  /** What one update leaves in the cache, failed queries included. */
  function Synced(cached: seq<Row>, a: Answers): seq<Row> {
    if a.summary.Failed? || !MaxIDOrSizeChanged(cached, a.summary.value) || a.ids.Failed? then cached
    else
      var missing := MissingIds(cached, a.ids.value);
      Kept(cached, a.ids.value) +
      if missing == [] || a.rows(missing).Failed? then [] else a.rows(missing).value
  }

  /** Every query the update sends is answered. */
  predicate NoQueryFails(cached: seq<Row>, a: Answers) {
    && a.summary.Got?
    && (MaxIDOrSizeChanged(cached, a.summary.value) ==>
        && a.ids.Got?
        && (MissingIds(cached, a.ids.value) != [] ==> a.rows(MissingIds(cached, a.ids.value)).Got?))
  }

  /** Nothing to do: an empty answer, or the cache's own count and last id. */
  predicate Silent(cached: seq<Row>, res: seq<(int, int)>) {
    || res == []
    || (|cached| == res[0].0 && (cached == [] || Id(cached[|cached| - 1]) == res[0].1))
  }

  /** What a cache holds after an update, and what was asked for: without a change
      or an answer everything stays; otherwise the rows whose ids are gone are
      dropped, and the rows for the ids no cached row has are added when they
      arrive. */
  lemma SyncedMeans(cached: seq<Row>, a: Answers)
    ensures a.summary.Failed? || Silent(cached, a.summary.value) || a.ids.Failed? ==> Synced(cached, a) == cached
    ensures a.summary.Got? && !Silent(cached, a.summary.value) && a.ids.Got? ==>
      var kept := Matches(r => Id(r) in a.ids.value, cached);
      var missing := Matches(id => !Cached(cached, id), a.ids.value);
      Synced(cached, a) == if missing != [] && a.rows(missing).Got? then kept + a.rows(missing).value else kept
  {
    if a.ids.Got? {
      MissingIdsAre(cached, a.ids.value);
    }
  }

  lemma {:induction false} MissingIdsAre(cached: seq<Row>, ids: seq<int>)
    ensures MissingIds(cached, ids) == Matches(id => !Cached(cached, id), ids)
  {
    if ids != [] {
      MissingIdsAre(cached, ids[..|ids| - 1]);
    }
  }

  method FindMissing(store: DataStore, ids: seq<int>) returns (missing: seq<int>, resIndex: set<string>)
    requires store.Valid() && store.primaryKey == ["id"] && AllHaveId(store.data)
    ensures missing == MissingIds(store.data, ids)
    ensures forall id :: IntText(id) in resIndex <==> id in ids
  {
    missing, resIndex := [], {};
    for i := 0 to |ids|
      invariant missing == MissingIds(store.data, ids[..i])
      invariant forall id :: IntText(id) in resIndex <==> id in ids[..i]
    {
      var id := IntText(ids[i]);
      assert ids[..i + 1] == ids[..i] + [ids[i]] && ids[..i + 1][..i] == ids[..i];
      InIndex(store.data, store.index, ids[i]);
      if id !in store.index {
        missing := missing + [ids[i]];
      }
      resIndex := resIndex + {id};
      forall x | IntText(x) == id
        ensures x == ids[i]
      {
        IntTextInjective(x, ids[i]);
      }
    }
    assert ids[..|ids|] == ids;
  }

  lemma InIndex(data: seq<Row>, index: map<string, Row>, id: int)
    requires Mirrors(data, index, "id") && AllHaveId(data)
    ensures IntText(id) in index <==> Cached(data, id)
  {
    if IntText(id) in index {
      var r := index[IntText(id)];
      KeyIsId(r);
      IntTextInjective(Id(r), id);
    }
    if Cached(data, id) {
      var r :| r in data && Id(r) == id;
      KeyIsId(r);
    }
  }

  /** Removing one row leaves the others. */
  lemma RemoveIsMatches(rows: seq<Row>, row: Row)
    requires NoDup(rows)
    ensures RemoveRow(rows, row) == Matches(r => r != row, rows)
  {
    hide Matches, RemoveRow;
    var p: Row -> bool := r => r != row;
    if row in rows {
      var i := Position(rows, row);
      MatchesSplit(p, rows[..i], row, rows[i + 1..]);
      RemoveRowAt(rows, row, i);
      MatchesAll(p, rows[..i]);
      MatchesAll(p, rows[i + 1..]);
    } else {
      MatchesAll(p, rows);
      RemoveAbsent(rows, row);
    }
  }

  lemma Position(rows: seq<Row>, row: Row) returns (i: nat)
    requires NoDup(rows) && row in rows
    ensures i < |rows| && rows[i] == row && row !in rows[..i] && row !in rows[i + 1..]
    ensures rows == rows[..i] + [row] + rows[i + 1..]
  {
    i :| 0 <= i < |rows| && rows[i] == row;
  }

  lemma {:induction false} RemoveAbsent(rows: seq<Row>, row: Row)
    requires row !in rows
    ensures RemoveRow(rows, row) == rows
  {
    if rows != [] {
      RemoveAbsent(rows[1..], row);
    }
  }

  /** Rows whose key is not among those removed so far. */
  function Remaining(rows: seq<Row>, removed: set<string>): seq<Row> {
    Matches(r => CellText(r, "id") !in removed, rows)
  }

  lemma RemoveOne(rows: seq<Row>, index: map<string, Row>, removed: set<string>, k: string)
    requires Mirrors(rows, index, "id") && k in index && k !in removed
    ensures NoDup(Remaining(rows, removed)) ==>
              RemoveRow(Remaining(rows, removed), index[k]) == Remaining(rows, removed + {k})
  {
    if NoDup(Remaining(rows, removed)) {
      var p: Row -> bool := r => CellText(r, "id") !in removed;
      var q: Row -> bool := r => r != index[k];
      RemoveIsMatches(Remaining(rows, removed), index[k]);
      MatchesTwice(p, q, r => p(r) && q(r), rows);
      MatchesSame(r => p(r) && q(r), r => CellText(r, "id") !in removed + {k}, rows);
    }
  }

  /** Drops the cached rows the site no longer has. */
  method RemoveOld(store: DataStore, ids: seq<int>, resIndex: set<string>)
    requires store.Valid() && store.primaryKey == ["id"] && AllHaveId(store.data)
    requires forall id :: IntText(id) in resIndex <==> id in ids
    modifies store
    ensures store.Valid() && store.data == Kept(old(store.data), ids)
  {
    ghost var rows, index := store.data, store.index;
    ghost var removed: set<string> := {};
    MatchesAll(r => CellText(r, "id") !in removed, rows);
    hide Mirrors, Mirrors2, NoDup, Remaining, RemoveRow, CellText, IntText;
    var todo := store.index.Keys;
    while todo != {}
      invariant store.Valid() && todo <= index.Keys
      invariant store.data == Remaining(rows, removed)
      invariant forall k :: k in removed <==> k in index && k !in todo && k !in resIndex
      decreases todo
    {
      var id :| id in todo;
      StillThere(rows, index, removed, store.index, id);
      todo := todo - {id};
      if id !in resIndex {
        RemoveOne(rows, index, removed, id);
        store.RemoveItem(store.index[id]);
        removed := removed + {id};
      }
    }
    AfterRemoval(rows, index, removed, ids, resIndex);
  }

  /** A row not removed yet is found under its key as before. */
  lemma StillThere(rows: seq<Row>, index: map<string, Row>, removed: set<string>, now: map<string, Row>, k: string)
    requires Mirrors(rows, index, "id") && Mirrors(Remaining(rows, removed), now, "id")
    requires k in index && k !in removed
    ensures k in now && now[k] == index[k] && index[k] in Remaining(rows, removed) && NoDup(Remaining(rows, removed))
  {
    MatchesMembers(r => CellText(r, "id") !in removed, rows);
  }

  lemma AfterRemoval(rows: seq<Row>, index: map<string, Row>, removed: set<string>, ids: seq<int>, resIndex: set<string>)
    requires Mirrors(rows, index, "id") && AllHaveId(rows)
    requires forall k :: k in removed <==> k in index && k !in resIndex
    requires forall id :: IntText(id) in resIndex <==> id in ids
    ensures Remaining(rows, removed) == Kept(rows, ids)
  {
    forall r | r in rows
      ensures CellText(r, "id") !in removed <==> Id(r) in ids
    {
      KeyIsId(r);
    }
    MatchesSame(r => CellText(r, "id") !in removed, r => Id(r) in ids, rows);
  }

  method AppendData(store: DataStore, rows: seq<Row>)
    requires |store.primaryKey| <= 2
    modifies store
    ensures store.data == old(store.data) + rows
    ensures old(store.Valid()) && store.primaryKey == ["id"] && DistinctKeys(store.data, "id") ==> store.Valid()
  {
    hide Mirrors, Mirrors2, CellText, DistinctKeys;
    ghost var before := store.data;
    ghost var good := store.Valid() && store.primaryKey == ["id"] && DistinctKeys(before + rows, "id");
    for i := 0 to |rows|
      invariant store.data == before + rows[..i]
      invariant good ==> store.Valid()
    {
      if good {
        FreshKey(before + rows, store.data, store.index, |before| + i);
      }
      store.AddItem(rows[i]);
      assert rows[..i + 1] == rows[..i] + [rows[i]];
    }
    assert rows[..|rows|] == rows;
  }

  /** The key of the next row is not in use yet. */
  lemma FreshKey(all: seq<Row>, data: seq<Row>, index: map<string, Row>, i: nat)
    requires DistinctKeys(all, "id") && i < |all| && data == all[..i] && Mirrors(data, index, "id")
    ensures CellText(all[i], "id") !in index
  {
    forall k | k in index
      ensures k != CellText(all[i], "id")
    {
      var j :| 0 <= j < |data| && data[j] == index[k];
      assert CellText(all[j], "id") == k;
    }
  }

  /** One update of the comments or downtimes table, whatever the site answers. */
  method UpdateDeltaCommentsOrDowntimes(store: DataStore, a: Answers) returns (ok: bool)
    requires store.Valid() && store.primaryKey == ["id"] && AllHaveId(store.data)
    modifies store
    ensures store.data == Synced(old(store.data), a)
    ensures DistinctKeys(store.data, "id") ==> store.Valid()
    ensures ok <==> NoQueryFails(old(store.data), a)
  {
    ghost var cached := store.data;
    if a.summary.Failed? {
      return false;
    }
    if !MaxIDOrSizeChanged(store.data, a.summary.value) {
      return true;
    }
    if a.ids.Failed? {
      return false;
    }
    var missing, resIndex := FindMissing(store, a.ids.value);
    RemoveOld(store, a.ids.value, resIndex);
    if |missing| > 0 {
      var answer := a.rows(missing);
      if answer.Failed? {
        return false;
      }
      AppendData(store, answer.value);
    }
    return true;
  }

  // ------------------------------------------------------ one update converges

  /** The answers of a site whose table does not change during the update. */
  function Stable(remote: seq<Row>): Answers {
    Answers(Got(Summary(remote)), Got(Ids(remote)), missing => Got(Selected(remote, missing)))
  }

  predicate DistinctIds(rows: seq<Row>) {
    forall i, j :: 0 <= i < j < |rows| ==> Id(rows[i]) != Id(rows[j])
  }

  lemma IdsMembers(rows: seq<Row>)
    ensures forall id :: id in Ids(rows) <==> Cached(rows, id)
  {
    forall id | Cached(rows, id)
      ensures id in Ids(rows)
    {
      var r :| r in rows && Id(r) == id;
      var i :| 0 <= i < |rows| && rows[i] == r;
      assert Ids(rows)[i] == id;
    }
  }

  /** A changed table: the cache holds exactly the site's ids afterwards. Rows
      whose id the site still has are the same objects in the same order, and
      the site's new rows follow in the site's order. */
  lemma SyncConverges(cached: seq<Row>, remote: seq<Row>)
    requires MaxIDOrSizeChanged(cached, Summary(remote))
    ensures var after := Synced(cached, Stable(remote));
            && after == Matches(r => Cached(remote, Id(r)), cached) + Matches(r => !Cached(cached, Id(r)), remote)
            && (forall id :: Cached(after, id) <==> Cached(remote, id))
  {
    hide Matches, MaxIDOrSizeChanged;
    var after, ids := Synced(cached, Stable(remote)), Ids(remote);
    var missing := MissingIds(cached, ids);
    IdsMembers(remote);
    MissingIdsMembers(cached, ids);
    MatchesSame(r => Id(r) in ids, r => Cached(remote, Id(r)), cached);
    MatchesSame(r => Id(r) in missing, r => !Cached(cached, Id(r)), remote);
    if missing == [] {
      MatchesNone(r => !Cached(cached, Id(r)), remote);
    }
    var kept, added := Matches(r => Cached(remote, Id(r)), cached), Matches(r => !Cached(cached, Id(r)), remote);
    assert after == kept + added;
    MatchesMembers(r => Cached(remote, Id(r)), cached);
    MatchesMembers(r => !Cached(cached, Id(r)), remote);
    SameIds(cached, remote, kept, added);
  }

  lemma SameIds(cached: seq<Row>, remote: seq<Row>, kept: seq<Row>, added: seq<Row>)
    requires forall r :: r in kept <==> r in cached && Cached(remote, Id(r))
    requires forall r :: r in added <==> r in remote && !Cached(cached, Id(r))
    ensures forall id :: Cached(kept + added, id) <==> Cached(remote, id)
  {
    forall id
      ensures Cached(kept + added, id) <==> Cached(remote, id)
    {
      if Cached(kept + added, id) {
        var r :| r in kept + added && Id(r) == id;
        assert r in kept || r in added;
      }
      if Cached(remote, id) {
        var r :| r in remote && Id(r) == id;
        if Cached(cached, id) {
          var c :| c in cached && Id(c) == id;
          assert c in kept && c in kept + added;
        } else {
          assert r in added && r in kept + added;
        }
      }
    }
  }

  lemma {:induction false} MatchesDistinct(p: Row -> bool, rows: seq<Row>)
    requires DistinctIds(rows)
    ensures DistinctIds(Matches(p, rows))
  {
    if rows != [] {
      var n := |rows| - 1;
      MatchesDistinct(p, rows[..n]);
      MatchesMembers(p, rows[..n]);
      MatchesSnoc(p, rows[..n], rows[n]);
      assert rows == rows[..n] + [rows[n]];
      var front := Matches(p, rows[..n]);
      hide Matches;
      forall i | 0 <= i < |front|
        ensures Id(front[i]) != Id(rows[n])
      {
        assert front[i] in rows[..n];
      }
    }
  }

  /** With unique ids on both sides, the rows after an update have unique keys,
      which is what keeps rows and index in agreement. */
  lemma SyncedDistinct(cached: seq<Row>, remote: seq<Row>)
    requires DistinctIds(cached) && DistinctIds(remote) && AllHaveId(cached) && AllHaveId(remote)
    ensures DistinctKeys(Synced(cached, Stable(remote)), "id")
  {
    var after := Synced(cached, Stable(remote));
    if MaxIDOrSizeChanged(cached, Summary(remote)) {
      SyncConverges(cached, remote);
      var p: Row -> bool := r => Cached(remote, Id(r));
      var q: Row -> bool := r => !Cached(cached, Id(r));
      MatchesDistinct(p, cached);
      MatchesDistinct(q, remote);
      MatchesMembers(p, cached);
      MatchesMembers(q, remote);
      hide Matches, Synced, MaxIDOrSizeChanged, Summary;
      DistinctJoin(cached, Matches(p, cached), Matches(q, remote));
    }
    DistinctIdsKeys(after);
  }

  lemma DistinctJoin(cached: seq<Row>, kept: seq<Row>, added: seq<Row>)
    requires DistinctIds(kept) && DistinctIds(added)
    requires (forall r :: r in kept ==> r in cached) && forall r :: r in added ==> !Cached(cached, Id(r))
    ensures DistinctIds(kept + added)
  {
    forall i, j | 0 <= i < |kept| && 0 <= j < |added|
      ensures Id(kept[i]) != Id(added[j])
    {
      assert kept[i] in cached && added[j] in added;
    }
  }

  lemma DistinctIdsKeys(rows: seq<Row>)
    requires DistinctIds(rows) && AllHaveId(rows)
    ensures DistinctKeys(rows, "id")
  {
    forall i, j | 0 <= i < j < |rows|
      ensures CellText(rows[i], "id") != CellText(rows[j], "id")
    {
      KeyIsId(rows[i]);
      KeyIsId(rows[j]);
      if IntText(Id(rows[i])) == IntText(Id(rows[j])) {
        IntTextInjective(Id(rows[i]), Id(rows[j]));
        assert false;
      }
    }
  }
}
