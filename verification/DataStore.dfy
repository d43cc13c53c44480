/** A cached table: its rows in order and the lookups from primary keys to rows. */
module DataStores {
  import opened Text
  import opened Filters
  import opened Lists

  /** A cell as the text that keys and sorting use. */
  function CellText(row: Row, column: string): string {
    match row.Get(column)
    case StrVal(s) => s
    case IntVal(i) => IntText(i)
    case _ => ""
  }

  predicate DistinctKeys(rows: seq<Row>, key: string) {
    forall i, j :: 0 <= i < j < |rows| ==> CellText(rows[i], key) != CellText(rows[j], key)
  }

  /** A one-key lookup mirrors the rows: every row is found under its key, every
      entry is a row, and no row occurs twice. */
  ghost predicate Mirrors(data: seq<Row>, index: map<string, Row>, key: string) {
    && NoDup(data)
    && (forall r :: r in data ==> CellText(r, key) in index && index[CellText(r, key)] == r)
    && (forall k :: k in index ==> index[k] in data && CellText(index[k], key) == k)
  }

  /** The same for tables with two keys. */
  ghost predicate Mirrors2(data: seq<Row>, index2: map<string, map<string, Row>>, key1: string, key2: string) {
    && NoDup(data)
    && (forall r :: r in data ==>
        && CellText(r, key1) in index2
        && CellText(r, key2) in index2[CellText(r, key1)]
        && index2[CellText(r, key1)][CellText(r, key2)] == r)
    && (forall k, l :: k in index2 && l in index2[k] ==>
        index2[k][l] in data && CellText(index2[k][l], key1) == k && CellText(index2[k][l], key2) == l)
  }

  lemma MirrorsDistinct(data: seq<Row>, index: map<string, Row>, key: string)
    requires Mirrors(data, index, key)
    ensures DistinctKeys(data, key)
    ensures index.Keys == set r | r in data :: CellText(r, key)
  {
  }

  function RemoveRow(rows: seq<Row>, row: Row): seq<Row> {
    if rows == [] then [] else if rows[0] == row then rows[1..] else [rows[0]] + RemoveRow(rows[1..], row)
  }

  /** In a list without duplicates, removing a row keeps exactly the others, in order. */
  lemma {:induction false} RemoveRowMembers(rows: seq<Row>, row: Row)
    requires NoDup(rows)
    ensures NoDup(RemoveRow(rows, row))
    ensures forall r :: r in RemoveRow(rows, row) <==> r in rows && r != row
  {
    if rows != [] {
      RemoveRowMembers(rows[1..], row);
      assert forall r :: r in rows <==> r == rows[0] || r in rows[1..];
      assert rows[0] !in rows[1..];
    }
  }

  lemma {:induction false} RemoveRowAt(rows: seq<Row>, row: Row, i: nat)
    requires i < |rows| && rows[i] == row && row !in rows[..i]
    ensures RemoveRow(rows, row) == rows[..i] + rows[i + 1..]
  {
    if i > 0 {
      assert rows[0] == rows[..i][0];
      assert forall r :: r in rows[1..][..i - 1] ==> r in rows[..i];
      RemoveRowAt(rows[1..], row, i - 1);
      assert rows[..i] == [rows[0]] + rows[1..][..i - 1];
    }
  }

  class DataStore {
    const primaryKey: seq<string>
    var data: seq<Row>
    var index: map<string, Row>
    var index2: map<string, map<string, Row>>

    constructor (primaryKey: seq<string>)
      requires |primaryKey| <= 2
      ensures this.primaryKey == primaryKey && data == [] && index == map[] && index2 == map[]
    {
      this.primaryKey := primaryKey;
      data, index, index2 := [], map[], map[];
    }

    /** Rows and lookups agree. */
    ghost predicate Valid()
      reads this
    {
      && |primaryKey| <= 2
      && (|primaryKey| == 1 ==> Mirrors(data, index, primaryKey[0]))
      && (|primaryKey| == 2 ==> Mirrors2(data, index2, primaryKey[0], primaryKey[1]))
    }

    predicate HasKey(row: Row)
      reads this
    {
      if |primaryKey| == 1 then CellText(row, primaryKey[0]) in index
      else if |primaryKey| == 2 then
        var id1, id2 := CellText(row, primaryKey[0]), CellText(row, primaryKey[1]);
        id1 in index2 && id2 in index2[id1]
      else false
    }

    /** Appends a row and enters it into the lookup. */
    method AddItem(row: Row)
      requires |primaryKey| <= 2
      modifies this
      ensures data == old(data) + [row]
      ensures index == if |primaryKey| == 1 then old(index)[CellText(row, primaryKey[0]) := row] else old(index)
      ensures index2 == if |primaryKey| == 2
        then Insert2(old(index2), CellText(row, primaryKey[0]), CellText(row, primaryKey[1]), row) else old(index2)
      ensures old(Valid()) && !old(HasKey(row)) ==> Valid()
    {
      hide Mirrors, Mirrors2, CellText;
      if |primaryKey| == 1 && Mirrors(data, index, primaryKey[0]) && !HasKey(row) {
        MirrorsAdd(data, index, primaryKey[0], row);
      } else if |primaryKey| == 2 && Mirrors2(data, index2, primaryKey[0], primaryKey[1]) && !HasKey(row) {
        Mirrors2Add(data, index2, primaryKey[0], primaryKey[1], row);
      }
      data := data + [row];
      if |primaryKey| == 1 {
        index := index[CellText(row, primaryKey[0]) := row];
      } else if |primaryKey| == 2 {
        var id1, id2 := CellText(row, primaryKey[0]), CellText(row, primaryKey[1]);
        if id1 !in index2 {
          index2 := index2[id1 := map[]];
        }
        index2 := index2[id1 := index2[id1][id2 := row]];
      }
    }

    /** Takes a row out of the lookup and the list; only tables with at most one key. */
    method RemoveItem(row: Row)
      requires |primaryKey| <= 1 && row in data
      modifies this
      ensures data == RemoveRow(old(data), row)
      ensures index == if |primaryKey| == 1 then old(index) - {CellText(row, primaryKey[0])} else old(index)
      ensures index2 == old(index2)
      ensures old(Valid()) ==> Valid()
    {
      ghost var before := data;
      if |primaryKey| == 1 {
        index := index - {CellText(row, primaryKey[0])};
      }
      var i := 0;
      while data[i] != row
        invariant i < |data| && data == before
        invariant row !in data[..i] && row in data[i..]
        decreases |data| - i
      {
        assert data[i..] == [data[i]] + data[i + 1..];
        assert data[..i + 1] == data[..i] + [data[i]];
        i := i + 1;
      }
      RemoveRowAt(data, row, i);
      data := data[..i] + data[i + 1..];
      if old(Valid()) && |primaryKey| == 1 {
        RemoveRowMembers(before, row);
      }
    }

    /** Replaces the whole table; a table without keys has no lookup. */
    method InsertData(rows: seq<Row>)
      requires |primaryKey| <= 2
      modifies this
      ensures data == rows
      ensures index == if |primaryKey| == 1 then BuildIndex(rows, primaryKey[0]) else old(index)
      ensures index2 == if |primaryKey| == 2 then BuildIndex2(rows, primaryKey[0], primaryKey[1]) else old(index2)
      ensures Valid() <==>
        (|primaryKey| == 1 ==> DistinctKeys(rows, primaryKey[0])) && (|primaryKey| == 2 ==> DistinctKeys2(rows, primaryKey[0], primaryKey[1]))
    {
      hide Mirrors, Mirrors2, DistinctKeys, DistinctKeys2, BuildIndex, BuildIndex2, CellText;
      data := rows;
      if |primaryKey| == 1 {
        index := map[];
        BuildNext(rows, primaryKey[0], "", 0);
        for i := 0 to |rows|
          invariant data == rows && index2 == old(index2)
          invariant index == BuildIndex(rows[..i], primaryKey[0])
        {
          BuildNext(rows, primaryKey[0], "", i);
          index := index[CellText(rows[i], primaryKey[0]) := rows[i]];
        }
        BuildMirrors(rows, primaryKey[0]);
      } else if |primaryKey| == 2 {
        index2 := map[];
        BuildNext(rows, primaryKey[0], primaryKey[1], 0);
        for i := 0 to |rows|
          invariant data == rows && index == old(index)
          invariant index2 == BuildIndex2(rows[..i], primaryKey[0], primaryKey[1])
        {
          BuildNext(rows, primaryKey[0], primaryKey[1], i);
          var id1, id2 := CellText(rows[i], primaryKey[0]), CellText(rows[i], primaryKey[1]);
          if id1 !in index2 {
            index2 := index2[id1 := map[]];
          }
          index2 := index2[id1 := index2[id1][id2 := rows[i]]];
        }
        BuildMirrors2(rows, primaryKey[0], primaryKey[1]);
      }
      assert rows[..|rows|] == rows;
    }
  }

  predicate DistinctKeys2(rows: seq<Row>, key1: string, key2: string) {
    forall i, j :: 0 <= i < j < |rows| ==>
      CellText(rows[i], key1) != CellText(rows[j], key1) || CellText(rows[i], key2) != CellText(rows[j], key2)
  }

  /** The same under two keys. */
  function BuildIndex2(rows: seq<Row>, key1: string, key2: string): map<string, map<string, Row>> {
    if rows == [] then map[]
    else
      var last := rows[|rows| - 1];
      Insert2(BuildIndex2(rows[..|rows| - 1], key1, key2), CellText(last, key1), CellText(last, key2), last)
  }

  /** One more row, at the start or anywhere. */
  lemma BuildNext(rows: seq<Row>, key1: string, key2: string, i: nat)
    requires i <= |rows|
    ensures i == 0 ==> BuildIndex(rows[..i], key1) == map[] && BuildIndex2(rows[..i], key1, key2) == map[]
    ensures i < |rows| ==>
      && BuildIndex(rows[..i + 1], key1) == BuildIndex(rows[..i], key1)[CellText(rows[i], key1) := rows[i]]
      && BuildIndex2(rows[..i + 1], key1, key2) ==
         Insert2(BuildIndex2(rows[..i], key1, key2), CellText(rows[i], key1), CellText(rows[i], key2), rows[i])
  {
    hide CellText, Insert2;
    if i < |rows| {
      assert rows[..i + 1][..i] == rows[..i];
    }
  }

  lemma {:induction false} BuildIndex2Entries(rows: seq<Row>, key1: string, key2: string)
    ensures var m := BuildIndex2(rows, key1, key2);
            && (forall r :: r in rows ==> CellText(r, key1) in m && CellText(r, key2) in m[CellText(r, key1)])
            && (forall k, l :: k in m && l in m[k] ==>
                m[k][l] in rows && CellText(m[k][l], key1) == k && CellText(m[k][l], key2) == l)
  {
    hide CellText;
    if rows != [] {
      var n := |rows| - 1;
      BuildIndex2Entries(rows[..n], key1, key2);
      assert rows == rows[..n] + [rows[n]];
    }
  }

  /** With two keys, exactly when no pair of keys repeats. */
  lemma BuildMirrors2(rows: seq<Row>, key1: string, key2: string)
    ensures Mirrors2(rows, BuildIndex2(rows, key1, key2), key1, key2) <==> DistinctKeys2(rows, key1, key2)
  {
    hide BuildIndex2, CellText;
    BuildIndex2Entries(rows, key1, key2);
    var m := BuildIndex2(rows, key1, key2);
    if DistinctKeys2(rows, key1, key2) {
      forall r | r in rows
        ensures m[CellText(r, key1)][CellText(r, key2)] == r
      {
        var i :| 0 <= i < |rows| && rows[i] == r;
        var found := m[CellText(r, key1)][CellText(r, key2)];
        var j :| 0 <= j < |rows| && rows[j] == found;
        assert i == j;
      }
    }
    if Mirrors2(rows, m, key1, key2) {
      forall i, j | 0 <= i < j < |rows|
        ensures CellText(rows[i], key1) != CellText(rows[j], key1) || CellText(rows[i], key2) != CellText(rows[j], key2)
      {
        assert rows[i] in rows && rows[j] in rows && rows[i] != rows[j];
      }
    }
  }

  /** Entering rows one after the other; a later row wins. */
  function BuildIndex(rows: seq<Row>, key: string): map<string, Row> {
    if rows == [] then map[]
    else
      var last := rows[|rows| - 1];
      BuildIndex(rows[..|rows| - 1], key)[CellText(last, key) := last]
  }

  lemma {:induction false} BuildIndexEntries(rows: seq<Row>, key: string)
    ensures forall r :: r in rows ==> CellText(r, key) in BuildIndex(rows, key)
    ensures forall k :: k in BuildIndex(rows, key) ==> BuildIndex(rows, key)[k] in rows && CellText(BuildIndex(rows, key)[k], key) == k
  {
    if rows != [] {
      var n := |rows| - 1;
      BuildIndexEntries(rows[..n], key);
      assert rows == rows[..n] + [rows[n]];
    }
  }

  /** A lookup built row by row mirrors the rows exactly when no key repeats. */
  lemma BuildMirrors(rows: seq<Row>, key: string)
    ensures Mirrors(rows, BuildIndex(rows, key), key) <==> DistinctKeys(rows, key)
  {
    hide BuildIndex;
    BuildIndexEntries(rows, key);
    var index := BuildIndex(rows, key);
    if DistinctKeys(rows, key) {
      forall r | r in rows
        ensures index[CellText(r, key)] == r
      {
        var i :| 0 <= i < |rows| && rows[i] == r;
        var j :| 0 <= j < |rows| && rows[j] == index[CellText(r, key)];
        assert CellText(rows[i], key) == CellText(rows[j], key);
      }
    }
    if Mirrors(rows, index, key) {
      MirrorsDistinct(rows, index, key);
    }
  }

  /** Enters a row under two keys. */
  function Insert2(index2: map<string, map<string, Row>>, id1: string, id2: string, row: Row): map<string, map<string, Row>> {
    index2[id1 := (if id1 in index2 then index2[id1] else map[])[id2 := row]]
  }

  lemma MirrorsAdd(data: seq<Row>, index: map<string, Row>, key: string, row: Row)
    requires Mirrors(data, index, key) && CellText(row, key) !in index
    ensures Mirrors(data + [row], index[CellText(row, key) := row], key)
  {
    hide CellText;
    assert row !in data;
  }

  lemma Mirrors2Add(data: seq<Row>, index2: map<string, map<string, Row>>, key1: string, key2: string, row: Row)
    requires Mirrors2(data, index2, key1, key2)
    requires CellText(row, key1) in index2 ==> CellText(row, key2) !in index2[CellText(row, key1)]
    ensures Mirrors2(data + [row], Insert2(index2, CellText(row, key1), CellText(row, key2), row), key1, key2)
  {
    hide CellText;
    assert row !in data;
  }
}
