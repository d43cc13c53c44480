/** Updating a table by position: the reply is sorted by primary key and its
    row i is written onto cached row i. */
module PositionalUpdate {
  import opened Ordering
  import opened SortedSeqs

  /** A reply row: the primary key cells first, then one cell per column. */
  type ResultRow = seq<Cell>

  // -------------------------------------------------------------------- keys

  /** The first n cells. */
  function KeyOf(n: nat, row: ResultRow): (k: Key)
    ensures |k| == n
    ensures n <= |row| ==> k == row[..n]
  {
    seq(n, i requires 0 <= i < n => if i < |row| then row[i] else Num(0.0))
  }

  function Ascending(n: nat): (d: seq<Direction>)
    ensures |d| == n
  {
    seq(n, _ => Asc)
  }

  function ByKey(n: nat): (ResultRow, ResultRow) -> bool {
    (a, b) => Ordering.Less(Ascending(n), KeyOf(n, a), KeyOf(n, b))
  }

  lemma ByKeyTotal(n: nat)
    ensures TotalPreorder(ByKey(n))
    ensures forall a, b :: ByKey(n)(a, b) && ByKey(n)(b, a) <==> KeyOf(n, a) == KeyOf(n, b)
  {
    hide Ordering.Less;
    forall a, b
      ensures ByKey(n)(a, b) || ByKey(n)(b, a)
      ensures ByKey(n)(a, b) && ByKey(n)(b, a) <==> KeyOf(n, a) == KeyOf(n, b)
    {
      LessTotal(Ascending(n), KeyOf(n, a), KeyOf(n, b));
    }
    forall a, b, c | ByKey(n)(a, b) && ByKey(n)(b, c)
      ensures ByKey(n)(a, c)
    {
      LessTransitive(Ascending(n), KeyOf(n, a), KeyOf(n, b), KeyOf(n, c));
    }
  }

  /** Numbers by size, texts by their first difference. */
  ghost predicate CellBefore(a: Cell, b: Cell) {
    match (a, b)
    case (Num(x), Num(y)) => x < y
    case (Str(x), Str(y)) => Precedes(x, y)
    case (Num(_), Str(_)) => true
    case (Str(_), Num(_)) => false
  }

  /** In a sorted reply, of any two rows the earlier one has the same key or the
      smaller cell at the first key column that differs. */
  lemma KeysAscend(n: nat, sorted: seq<ResultRow>, i: nat, j: nat) returns (k: nat)
    requires Sorted(ByKey(n), sorted) && i < j < |sorted| && n <= |sorted[i]| && n <= |sorted[j]|
    ensures k <= n && sorted[i][..k] == sorted[j][..k]
    ensures k < n ==> CellBefore(sorted[i][k], sorted[j][k])
  {
    var a, b := KeyOf(n, sorted[i]), KeyOf(n, sorted[j]);
    assert ByKey(n)(sorted[i], sorted[j]);
    k := LessMeans(Ascending(n), a, b);
    if k < n && a[k].Str? && b[k].Str? {
      StrLessMeans(a[k].s, b[k].s);
    }
    assert forall x :: 0 <= x < k ==> a[x] == sorted[i][x] && b[x] == sorted[j][x];
  }

  function Keys(n: nat, rows: seq<ResultRow>): (r: seq<Key>)
    ensures |r| == |rows| && forall i :: 0 <= i < |r| ==> r[i] == KeyOf(n, rows[i])
  {
    seq(|rows|, i requires 0 <= i < |rows| => KeyOf(n, rows[i]))
  }

  lemma KeysAppend(n: nat, a: seq<ResultRow>, b: seq<ResultRow>)
    ensures Keys(n, a + b) == Keys(n, a) + Keys(n, b)
  {
  }

  lemma {:induction false} KeysPermuted(n: nat, a: seq<ResultRow>, b: seq<ResultRow>)
    requires multiset(a) == multiset(b)
    ensures multiset(Keys(n, a)) == multiset(Keys(n, b))
    decreases |a|
  {
    hide Keys;
    if a == [] {
      assert |multiset(b)| == 0;
      assert a == b;
    } else {
      var front, back := Around(a, b);
      KeysPermuted(n, a[1..], front + back);
      KeysAppend(n, [a[0]], a[1..]);
      KeysAppend(n, front + [a[0]], back);
      KeysAppend(n, front, [a[0]]);
      KeysAppend(n, front, back);
      assert a == [a[0]] + a[1..];
      assert multiset(Keys(n, a)) == multiset(Keys(n, [a[0]])) + multiset(Keys(n, a[1..]));
      assert multiset(Keys(n, b)) == multiset(Keys(n, front)) + multiset(Keys(n, [a[0]])) + multiset(Keys(n, back));
    }
  }

  /** Keys of the cached rows, as the table was loaded: full length and sorted. */
  ghost predicate SortedKeys(n: nat, keys: seq<Key>) {
    (forall i :: 0 <= i < |keys| ==> |keys[i]| == n) && Sorted(ByKey(n), keys)
  }

  lemma KeyOfKey(n: nat, k: Key)
    requires |k| == n
    ensures KeyOf(n, k) == k
  {
  }

  lemma KeysSorted(n: nat, rows: seq<ResultRow>)
    requires Sorted(ByKey(n), rows)
    ensures SortedKeys(n, Keys(n, rows))
  {
    hide Ordering.Less;
    forall i, j | 0 <= i < j < |rows|
      ensures ByKey(n)(Keys(n, rows)[i], Keys(n, rows)[j])
    {
      KeyOfKey(n, KeyOf(n, rows[i]));
      KeyOfKey(n, KeyOf(n, rows[j]));
      assert ByKey(n)(rows[i], rows[j]);
    }
  }

  /** However the sort arranges the reply, its rows line up with the cached rows
      if and only if the site reported exactly the cached keys. */
  lemma AlignedIff(n: nat, keys: seq<Key>, reply: seq<ResultRow>, ordered: seq<ResultRow>)
    requires SortedKeys(n, keys) && IsSortOf(ByKey(n), reply, ordered)
    ensures Keys(n, ordered) == keys <==> multiset(Keys(n, reply)) == multiset(keys)
  {
    hide Ordering.Less, ByKey;
    KeysPermuted(n, ordered, reply);
    if multiset(Keys(n, reply)) == multiset(keys) {
      ByKeyTotal(n);
      KeysSorted(n, ordered);
      SortDetermined(ByKey(n), Keys(n, ordered), keys);
      forall i | 0 <= i < |keys|
        ensures Keys(n, ordered)[i] == keys[i]
      {
        KeyOfKey(n, keys[i]);
        KeyOfKey(n, Keys(n, ordered)[i]);
      }
    }
  }

  ghost predicate DistinctKeys(keys: seq<Key>) {
    forall i, j :: 0 <= i < j < |keys| ==> keys[i] != keys[j]
  }

  /** Each reply row ends up at the position of the object it belongs to. */
  lemma OwnPosition(n: nat, keys: seq<Key>, reply: seq<ResultRow>, ordered: seq<ResultRow>, r: ResultRow, i: nat)
    requires SortedKeys(n, keys) && DistinctKeys(keys) && IsSortOf(ByKey(n), reply, ordered)
    requires multiset(Keys(n, reply)) == multiset(keys)
    requires r in reply && i < |keys| && keys[i] == KeyOf(n, r)
    ensures |ordered| == |keys| && ordered[i] == r
  {
    AlignedIff(n, keys, reply, ordered);
    SameElements(ordered, reply);
    var j :| 0 <= j < |ordered| && ordered[j] == r;
    assert Keys(n, ordered)[j] == keys[i];
  }

  // ----------------------------------------------------------------- one row

  /** Where a column is kept in a row, if it is kept there at all. */
  datatype Slot = Slot(index: nat, stored: bool)

  function Written(values: seq<Cell>, columns: seq<Slot>, data: seq<Cell>): (r: seq<Cell>)
    requires |columns| == |data| && forall i :: 0 <= i < |columns| ==> columns[i].index < |values|
    ensures |r| == |values|
  {
    if columns == [] then values
    else
      var n := |columns| - 1;
      var before := Written(values, columns[..n], data[..n]);
      if columns[n].stored then before[columns[n].index := data[n]] else before
  }

  predicate DistinctSlots(columns: seq<Slot>) {
    forall i, j :: 0 <= i < j < |columns| ==> columns[i].index != columns[j].index
  }

  /** Every stored column holds its own cell, everything else is as before. */
  lemma {:induction false} WrittenMeaning(values: seq<Cell>, columns: seq<Slot>, data: seq<Cell>, k: nat)
    requires |columns| == |data| && DistinctSlots(columns) && k < |values|
    requires forall i :: 0 <= i < |columns| ==> columns[i].index < |values|
    ensures forall i :: 0 <= i < |columns| && columns[i].stored ==> Written(values, columns, data)[columns[i].index] == data[i]
    ensures (forall i :: 0 <= i < |columns| ==> columns[i].index != k || !columns[i].stored) ==>
              Written(values, columns, data)[k] == values[k]
  {
    if columns != [] {
      var n := |columns| - 1;
      WrittenMeaning(values, columns[..n], data[..n], k);
      forall i | 0 <= i < n && columns[i].stored
        ensures Written(values, columns, data)[columns[i].index] == data[i]
      {
        assert columns[..n][i] == columns[i] && data[..n][i] == data[i];
      }
    }
  }

  class DataRow {
    const key: Key
    var values: seq<Cell>
    var lastUpdate: int

    constructor (key: Key, values: seq<Cell>)
      ensures this.key == key && this.values == values && lastUpdate == 0
    {
      this.key, this.values, lastUpdate := key, values, 0;
    }

    method UpdateValues(dataOffset: nat, data: ResultRow, columns: seq<Slot>, timestamp: int) returns (ok: bool)
      requires forall i :: 0 <= i < |columns| ==> columns[i].index < |values|
      modifies this
      ensures ok <==> |columns| == |data| - dataOffset
      ensures !ok ==> values == old(values) && lastUpdate == old(lastUpdate)
      ensures ok ==> values == Written(old(values), columns, data[dataOffset..]) && lastUpdate == timestamp
    {
      if |columns| != |data| - dataOffset {
        return false;
      }
      ghost var cells := data[dataOffset..];
      for i := 0 to |columns|
        invariant |values| == |old(values)|
        invariant values == Written(old(values), columns[..i], cells[..i])
        invariant lastUpdate == old(lastUpdate)
      {
        assert columns[..i + 1][..i] == columns[..i] && cells[..i + 1][..i] == cells[..i];
        if !columns[i].stored {
          continue;
        }
        values := values[columns[i].index := data[i + dataOffset]];
      }
      assert columns[..|columns|] == columns && cells[..|columns|] == cells;
      lastUpdate := timestamp;
      return true;
    }
  }

  // --------------------------------------------------------------- the table

  datatype Outcome = Updated | RestartRequired | SizeMismatch

  ghost function RowKeys(rows: seq<DataRow>): (r: seq<Key>)
    ensures |r| == |rows| && forall i :: 0 <= i < |r| ==> r[i] == rows[i].key
  {
    seq(|rows|, i requires 0 <= i < |rows| => rows[i].key)
  }

  ghost predicate Fits(rows: seq<DataRow>, columns: seq<Slot>)
    reads set r | r in rows
  {
    && (forall i, j :: 0 <= i < j < |rows| ==> rows[i] != rows[j])
    && (forall i, k :: 0 <= i < |rows| && 0 <= k < |columns| ==> columns[k].index < |rows[i].values|)
  }

  /** Writes reply row i onto cached row i, up to the first row of a wrong size. */
  method WriteRows(rows: seq<DataRow>, offset: nat, res: seq<ResultRow>, columns: seq<Slot>, now: int) returns (ok: bool)
    requires |res| == |rows| && Fits(rows, columns)
    modifies set r | r in rows
    ensures ok <==> forall i :: 0 <= i < |res| ==> |columns| == |res[i]| - offset
    ensures Fits(rows, columns)
    ensures ok ==> forall i :: 0 <= i < |rows| ==>
              rows[i].values == Written(old(rows[i].values), columns, res[i][offset..]) && rows[i].lastUpdate == now
  {
    for i := 0 to |res|
      invariant Fits(rows, columns)
      invariant forall k :: 0 <= k < i ==> |columns| == |res[k]| - offset
      invariant forall k :: 0 <= k < i ==>
                  rows[k].values == Written(old(rows[k].values), columns, res[k][offset..]) && rows[k].lastUpdate == now
      invariant forall k :: i <= k < |rows| ==> rows[k].values == old(rows[k].values)
    {
      var done := rows[i].UpdateValues(offset, res[i], columns, now);
      if !done {
        return false;
      }
    }
    return true;
  }

  /** Updates all rows of a table from a reply of the site. Icinga 2 replies come
      in any order and carry the primary keys. */
  method UpdateFullTable(rows: seq<DataRow>, primaryKeysLen: nat, icinga2: bool, reply: seq<ResultRow>,
                         columns: seq<Slot>, now: int) returns (outcome: Outcome)
    requires Fits(rows, columns)
    modifies set r | r in rows
    ensures outcome == RestartRequired <==> |reply| != |rows|
    ensures outcome == RestartRequired ==> forall i :: 0 <= i < |rows| ==> rows[i].values == old(rows[i].values)
    ensures outcome == Updated && !icinga2 ==>
              forall i :: 0 <= i < |rows| ==>
                |columns| == |reply[i]| && rows[i].values == Written(old(rows[i].values), columns, reply[i])
    ensures outcome == Updated && icinga2 && SortedKeys(primaryKeysLen, RowKeys(rows)) && DistinctKeys(RowKeys(rows)) &&
            multiset(Keys(primaryKeysLen, reply)) == multiset(RowKeys(rows)) ==>
              forall r, i :: r in reply && 0 <= i < |rows| && rows[i].key == KeyOf(primaryKeysLen, r) ==>
                |columns| == |r| - primaryKeysLen &&
                rows[i].values == Written(old(rows[i].values), columns, r[primaryKeysLen..])
  {
    var offset := if icinga2 then primaryKeysLen else 0;
    var res := reply;
    if icinga2 {
      res := SortByPrimaryKey(primaryKeysLen, reply);
    }
    if |res| != |rows| {
      return RestartRequired;
    }
    var ok := WriteRows(rows, offset, res, columns, now);
    if !ok {
      return SizeMismatch;
    }
    if icinga2 && SortedKeys(primaryKeysLen, RowKeys(rows)) && DistinctKeys(RowKeys(rows)) &&
       multiset(Keys(primaryKeysLen, reply)) == multiset(RowKeys(rows)) {
      forall r, i | r in reply && 0 <= i < |rows| && rows[i].key == KeyOf(primaryKeysLen, r)
        ensures res[i] == r
      {
        OwnPosition(primaryKeysLen, RowKeys(rows), reply, res, r, i);
      }
    } else {
      assert !icinga2 ==> forall i :: 0 <= i < |res| ==> res[i][0..] == reply[i];
    }
    return Updated;
  }

  lemma NoKeyNoOrder()
    ensures forall a, b :: ByKey(0)(a, b)
  {
    ByKeyTotal(0);
    forall a: ResultRow, b: ResultRow
      ensures ByKey(0)(a, b)
    {
      assert KeyOf(0, a) == KeyOf(0, b);
    }
  }

  method SortByPrimaryKey(n: nat, res: seq<ResultRow>) returns (sorted: seq<ResultRow>)
    ensures IsSortOf(ByKey(n), res, sorted) && |sorted| == |res|
  {
    if n == 0 {
      NoKeyNoOrder();
      return res;
    }
    sorted := Sort(ByKey(n), res);
    ByKeyTotal(n);
    SortSorts(ByKey(n), res);
    assert |multiset(sorted)| == |sorted| && |multiset(res)| == |res|;
  }
}
