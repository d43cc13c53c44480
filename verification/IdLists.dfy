/** Hosts and services carry the ids of their comments and downtimes. The lists
    are rebuilt from the table of entries and are its inverse. */
module IdLists {
  import opened Lists

  /** A comment or downtime. */
  datatype Entry = Entry(id: int, hostName: string, serviceDescription: string)

  /** A cached host or service with its columns of id lists. */
  class Object {
    const isHost: bool
    var lists: seq<seq<int>>

    constructor (isHost: bool, lists: seq<seq<int>>)
      ensures this.isHost == isHost && this.lists == lists
    {
      this.isHost, this.lists := isHost, lists;
    }
  }

  datatype Lookup = Lookup(hosts: map<string, Object>, services: map<string, map<string, Object>>)

  /** The object an entry belongs to, if there is one. */
  function Owner(l: Lookup, e: Entry): Object? {
    if e.serviceDescription != "" then
      if e.hostName in l.services && e.serviceDescription in l.services[e.hostName]
      then l.services[e.hostName][e.serviceDescription] else null
    else if e.hostName in l.hosts then l.hosts[e.hostName] else null
  }

  /** The ids of an object's own entries, in table order. */
  function OwnIds(l: Lookup, entries: seq<Entry>, o: Object?): seq<int> {
    if entries == [] then []
    else
      var n := |entries| - 1;
      OwnIds(l, entries[..n], o) + (if Owner(l, entries[n]) == o then [entries[n].id] else [])
  }

  function AllIds(entries: seq<Entry>): (r: seq<int>)
    ensures |r| == |entries|
  {
    seq(|entries|, i requires 0 <= i < |entries| => entries[i].id)
  }

  /** All lists one after the other. */
  function ListsOf(l: Lookup, entries: seq<Entry>, objects: seq<Object>): seq<int> {
    if objects == [] then []
    else ListsOf(l, entries, objects[..|objects| - 1]) + OwnIds(l, entries, objects[|objects| - 1])
  }

  function TotalLength(l: Lookup, entries: seq<Entry>, objects: seq<Object>): nat {
    if objects == [] then 0
    else TotalLength(l, entries, objects[..|objects| - 1]) + |OwnIds(l, entries, objects[|objects| - 1])|
  }

  predicate AllResolve(l: Lookup, entries: seq<Entry>) {
    forall i :: 0 <= i < |entries| ==> Owner(l, entries[i]) != null
  }

  // ------------------------------------------------------ inverse of the table

  lemma OwnIdsSnoc(l: Lookup, entries: seq<Entry>, e: Entry, o: Object?)
    ensures OwnIds(l, entries + [e], o) ==
            if Owner(l, e) == o then OwnIds(l, entries, o) + [e.id] else OwnIds(l, entries, o)
  {
    assert (entries + [e])[..|entries|] == entries;
  }

  /** One more entry adds its id to the list of one object. */
  lemma {:induction false} ListsSnoc(l: Lookup, entries: seq<Entry>, e: Entry, objects: seq<Object>)
    requires NoDup(objects)
    ensures multiset(ListsOf(l, entries + [e], objects)) ==
            multiset(ListsOf(l, entries, objects)) + (if Owner(l, e) in objects then multiset{e.id} else multiset{})
    ensures |ListsOf(l, entries + [e], objects)| == |ListsOf(l, entries, objects)| + (if Owner(l, e) in objects then 1 else 0)
  {
    hide OwnIds, Owner;
    if objects != [] {
      var n := |objects| - 1;
      var front, o := objects[..n], objects[n];
      assert objects == front + [o] && o !in front;
      ListsSnoc(l, entries, e, front);
      OwnIdsSnoc(l, entries, e, o);
    }
  }

  ghost predicate OwnersAmong(l: Lookup, entries: seq<Entry>, objects: seq<Object>) {
    forall i :: 0 <= i < |entries| ==> Owner(l, entries[i]) in objects
  }

  lemma OwnersSnoc(l: Lookup, entries: seq<Entry>, e: Entry, objects: seq<Object>)
    ensures OwnersAmong(l, entries + [e], objects) <==> OwnersAmong(l, entries, objects) && Owner(l, e) in objects
  {
    hide Owner;
    var all := entries + [e];
    assert forall i :: 0 <= i < |entries| ==> all[i] == entries[i];
    assert all[|entries|] == e;
  }

  /** No list holds more than the table, and a missing object leaves ids out. */
  ghost predicate Counted(l: Lookup, entries: seq<Entry>, objects: seq<Object>) {
    && |ListsOf(l, entries, objects)| <= |entries|
    && (OwnersAmong(l, entries, objects) ==> multiset(ListsOf(l, entries, objects)) == multiset(AllIds(entries)))
    && (!OwnersAmong(l, entries, objects) ==> |ListsOf(l, entries, objects)| < |entries|)
  }

  lemma CountedSnoc(l: Lookup, entries: seq<Entry>, e: Entry, objects: seq<Object>)
    requires NoDup(objects) && Counted(l, entries, objects)
    ensures Counted(l, entries + [e], objects)
  {
    assert AllIds(entries + [e]) == AllIds(entries) + [e.id];
    ListsSnoc(l, entries, e, objects);
    OwnersSnoc(l, entries, e, objects);
    hide Owner, ListsOf, AllIds, OwnersAmong;
  }

  lemma {:induction false} ListsCount(l: Lookup, entries: seq<Entry>, objects: seq<Object>)
    requires NoDup(objects)
    ensures Counted(l, entries, objects)
  {
    if entries == [] {
      NoEntries(l, objects);
    } else {
      hide Counted;
      var n := |entries| - 1;
      ListsCount(l, entries[..n], objects);
      CountedSnoc(l, entries[..n], entries[n], objects);
      assert entries == entries[..n] + [entries[n]];
    }
  }

  /** Every entry is in the list of exactly one object: the lists together hold
      each id as often as the table does, if and only if every entry's object
      is among the objects. */
  lemma ListsInvert(l: Lookup, entries: seq<Entry>, objects: seq<Object>)
    requires NoDup(objects)
    ensures multiset(ListsOf(l, entries, objects)) == multiset(AllIds(entries)) <==> OwnersAmong(l, entries, objects)
  {
    ListsCount(l, entries, objects);
    assert |multiset(AllIds(entries))| == |entries|;
    assert |multiset(ListsOf(l, entries, objects))| == |ListsOf(l, entries, objects)|;
  }

  lemma {:induction false} NoEntries(l: Lookup, objects: seq<Object>)
    ensures ListsOf(l, [], objects) == []
  {
    if objects != [] {
      NoEntries(l, objects[..|objects| - 1]);
    }
  }

  lemma {:induction false} ListsLength(l: Lookup, entries: seq<Entry>, objects: seq<Object>)
    ensures |ListsOf(l, entries, objects)| == TotalLength(l, entries, objects)
  {
    if objects != [] {
      ListsLength(l, entries, objects[..|objects| - 1]);
    }
  }

  /** The list lengths add up to the size of the table. */
  lemma LengthsAddUp(l: Lookup, entries: seq<Entry>, objects: seq<Object>)
    requires NoDup(objects)
    requires OwnersAmong(l, entries, objects)
    ensures TotalLength(l, entries, objects) == |entries|
  {
    ListsInvert(l, entries, objects);
    ListsLength(l, entries, objects);
    assert |multiset(AllIds(entries))| == |entries|;
    assert |multiset(ListsOf(l, entries, objects))| == |ListsOf(l, entries, objects)|;
  }

  lemma {:induction false} OwnIdsMembers(l: Lookup, entries: seq<Entry>, o: Object?, id: int)
    ensures id in OwnIds(l, entries, o) <==> exists i :: 0 <= i < |entries| && entries[i].id == id && Owner(l, entries[i]) == o
  {
    hide Owner;
    if entries != [] {
      var n := |entries| - 1;
      OwnIdsMembers(l, entries[..n], o, id);
      if i :| 0 <= i < |entries| && entries[i].id == id && Owner(l, entries[i]) == o && i < n {
        assert entries[..n][i] == entries[i];
      }
    }
  }

  /** With distinct ids, an id is in the list of its own object and of no other. */
  lemma InOneList(l: Lookup, entries: seq<Entry>, i: nat, o: Object?)
    requires i < |entries| && forall j, k :: 0 <= j < k < |entries| ==> entries[j].id != entries[k].id
    ensures entries[i].id in OwnIds(l, entries, o) <==> o == Owner(l, entries[i])
  {
    OwnIdsMembers(l, entries, o, entries[i].id);
  }

  // ------------------------------------------------------------ ids by name

  /** No object is entered under two names. */
  ghost predicate Distinct(l: Lookup) {
    && (forall h, g :: h in l.hosts && g in l.hosts && l.hosts[h] == l.hosts[g] ==> h == g)
    && (forall h, g, s :: h in l.hosts && g in l.services && s in l.services[g] ==> l.hosts[h] != l.services[g][s])
    && (forall h, s, g, u :: h in l.services && s in l.services[h] && g in l.services && u in l.services[g] ==>
          l.services[h][s] == l.services[g][u] ==> h == g && s == u)
  }

  /** The ids of the entries for a host and a service, or with "" for the host
      itself, in table order. */
  function IdsFor(entries: seq<Entry>, h: string, s: string): seq<int> {
    AllIds(Matches((e: Entry) => e.hostName == h && e.serviceDescription == s, entries))
  }

  lemma {:induction false} IdsForMembers(entries: seq<Entry>, h: string, s: string, id: int)
    ensures id in IdsFor(entries, h, s) <==> Entry(id, h, s) in entries
  {
    var mine := Matches((e: Entry) => e.hostName == h && e.serviceDescription == s, entries);
    MatchesMembers((e: Entry) => e.hostName == h && e.serviceDescription == s, entries);
    if id in AllIds(mine) {
      var i :| 0 <= i < |mine| && mine[i].id == id;
      assert mine[i] in mine && mine[i] == Entry(id, h, s);
    }
    if Entry(id, h, s) in mine {
      var i :| 0 <= i < |mine| && mine[i] == Entry(id, h, s);
      assert AllIds(mine)[i] == id;
    }
  }

  lemma IdsForSnoc(entries: seq<Entry>, e: Entry, h: string, s: string)
    ensures IdsFor(entries + [e], h, s) ==
            if e.hostName == h && e.serviceDescription == s then IdsFor(entries, h, s) + [e.id] else IdsFor(entries, h, s)
  {
    MatchesSnoc((x: Entry) => x.hostName == h && x.serviceDescription == s, entries, e);
    var mine := Matches((x: Entry) => x.hostName == h && x.serviceDescription == s, entries);
    assert AllIds(mine + [e]) == AllIds(mine) + [e.id];
  }

  lemma {:induction false} OwnIdsFor(l: Lookup, entries: seq<Entry>, o: Object, h: string, s: string)
    requires forall e: Entry :: Owner(l, e) == o <==> e.hostName == h && e.serviceDescription == s
    ensures OwnIds(l, entries, o) == IdsFor(entries, h, s)
  {
    hide Owner;
    if entries != [] {
      var n := |entries| - 1;
      OwnIdsFor(l, entries[..n], o, h, s);
      IdsForSnoc(entries[..n], entries[n], h, s);
      assert entries == entries[..n] + [entries[n]];
    }
  }

  lemma HostIds(l: Lookup, entries: seq<Entry>, h: string)
    requires Distinct(l) && h in l.hosts
    ensures OwnIds(l, entries, l.hosts[h]) == IdsFor(entries, h, "")
  {
    OwnIdsFor(l, entries, l.hosts[h], h, "");
  }

  lemma ServiceIds(l: Lookup, entries: seq<Entry>, h: string, s: string)
    requires Distinct(l) && h in l.services && s in l.services[h] && s != ""
    ensures OwnIds(l, entries, l.services[h][s]) == IdsFor(entries, h, s)
  {
    OwnIdsFor(l, entries, l.services[h][s], h, s);
  }

  // ----------------------------------------------------------------- rebuild

  /** Ids by owner; entries without an owner are kept under null. */
  function Grouped(l: Lookup, entries: seq<Entry>): map<Object?, seq<int>> {
    if entries == [] then map[]
    else
      var n := |entries| - 1;
      var m, o := Grouped(l, entries[..n]), Owner(l, entries[n]);
      m[o := Listed(m, o) + [entries[n].id]]
  }

  lemma {:induction false} GroupedIs(l: Lookup, entries: seq<Entry>, o: Object?)
    ensures o in Grouped(l, entries) <==> OwnIds(l, entries, o) != []
    ensures o in Grouped(l, entries) ==> Grouped(l, entries)[o] == OwnIds(l, entries, o)
    ensures o in Grouped(l, entries) <==> exists i :: 0 <= i < |entries| && Owner(l, entries[i]) == o
  {
    hide Owner;
    if entries != [] {
      var n := |entries| - 1;
      GroupedIs(l, entries[..n], o);
      if i :| 0 <= i < |entries| && Owner(l, entries[i]) == o && i < n {
        assert entries[..n][i] == entries[i];
      }
    }
  }

  lemma NullGroup(l: Lookup, entries: seq<Entry>)
    ensures AllResolve(l, entries) <==> null !in Grouped(l, entries)
  {
    hide Owner, Grouped;
    GroupedIs(l, entries, null);
  }

  /** The two tables and the column in which each keeps its id lists. */
  datatype Tables = Tables(hosts: seq<Object>, services: seq<Object>, hostIdx: nat, serviceIdx: nat)

  function Slot(t: Tables, o: Object): nat {
    if o.isHost then t.hostIdx else t.serviceIdx
  }

  /** Lookups lead into the tables, tables hold objects of their own kind. */
  ghost predicate Agree(t: Tables, l: Lookup) {
    && (forall o :: o in t.hosts ==> o.isHost)
    && (forall o :: o in t.services ==> !o.isHost)
    && (forall k :: k in l.hosts ==> l.hosts[k] in t.hosts)
    && (forall k, s :: k in l.services && s in l.services[k] ==> l.services[k][s] in t.services)
  }

  /** Every object has the column. */
  ghost predicate Wide(t: Tables)
    reads set o | o in t.hosts + t.services
  {
    forall o :: o in t.hosts + t.services ==> Slot(t, o) < |o.lists|
  }

  lemma OwnerInTables(t: Tables, l: Lookup, e: Entry)
    requires Agree(t, l)
    ensures Owner(l, e) != null ==> Owner(l, e) in t.hosts + t.services
  {
  }

  method CollectIds(l: Lookup, entries: seq<Entry>) returns (list: map<Object?, seq<int>>)
    ensures list == Grouped(l, entries)
    ensures Distinct(l) ==> forall h :: h in l.hosts ==> Listed(list, l.hosts[h]) == IdsFor(entries, h, "")
    ensures Distinct(l) ==> forall h, s :: h in l.services && s in l.services[h] && s != "" ==>
              Listed(list, l.services[h][s]) == IdsFor(entries, h, s)
  {
    list := map[];
    for i := 0 to |entries|
      invariant list == Grouped(l, entries[..i])
    {
      var row := entries[i];
      assert entries[..i + 1][..i] == entries[..i];
      var obj: Object? := null;
      if row.serviceDescription != "" {
        if row.hostName in l.services && row.serviceDescription in l.services[row.hostName] {
          obj := l.services[row.hostName][row.serviceDescription];
        }
      } else if row.hostName in l.hosts {
        obj := l.hosts[row.hostName];
      }
      list := list[obj := Listed(list, obj) + [row.id]];
    }
    assert entries[..|entries|] == entries;
    if Distinct(l) {
      GroupedIds(l, entries);
    }
  }

  function Listed(list: map<Object?, seq<int>>, o: Object?): seq<int> {
    if o in list then list[o] else []
  }

  lemma GroupedIds(l: Lookup, entries: seq<Entry>)
    requires Distinct(l)
    ensures forall h :: h in l.hosts ==> Listed(Grouped(l, entries), l.hosts[h]) == IdsFor(entries, h, "")
    ensures forall h, s :: h in l.services && s in l.services[h] && s != "" ==>
              Listed(Grouped(l, entries), l.services[h][s]) == IdsFor(entries, h, s)
  {
    hide IdsFor, OwnIds, Grouped, Distinct;
    forall h | h in l.hosts
      ensures Listed(Grouped(l, entries), l.hosts[h]) == IdsFor(entries, h, "")
    {
      HostIds(l, entries, h);
      GroupedIs(l, entries, l.hosts[h]);
    }
    forall h, s | h in l.services && s in l.services[h] && s != ""
      ensures Listed(Grouped(l, entries), l.services[h][s]) == IdsFor(entries, h, s)
    {
      ServiceIds(l, entries, h, s);
      GroupedIs(l, entries, l.services[h][s]);
    }
  }

  /** Empties one column of a table. */
  method EmptyLists(objects: seq<Object>, idx: nat)
    requires forall o :: o in objects ==> idx < |o.lists|
    modifies set o | o in objects
    ensures forall o :: o in objects ==> idx < |old(o.lists)| && o.lists == old(o.lists)[idx := []]
  {
    for i := 0 to |objects|
      invariant forall o :: o in objects ==> |o.lists| == |old(o.lists)| && idx < |o.lists|
      invariant forall o :: o in objects && o in objects[..i] ==> o.lists == old(o.lists)[idx := []]
      invariant forall o :: o in objects && o !in objects[..i] ==> o.lists == old(o.lists)
    {
      var d := objects[i];
      assert objects[..i + 1] == objects[..i] + [d];
      d.lists := d.lists[idx := []];
    }
    assert objects[..|objects|] == objects;
  }

  method EmptyBoth(t: Tables, l: Lookup)
    requires Agree(t, l) && Wide(t)
    modifies set o | o in t.hosts + t.services
    ensures Wide(t)
    ensures forall o :: o in t.hosts + t.services ==>
              Slot(t, o) < |old(o.lists)| && o.lists == old(o.lists)[Slot(t, o) := []]
  {
    EmptyLists(t.hosts, t.hostIdx);
    EmptyLists(t.services, t.serviceIdx);
  }

  lemma OwnedInTables(t: Tables, l: Lookup, entries: seq<Entry>, o: Object)
    requires Agree(t, l) && o in Grouped(l, entries)
    ensures o in t.hosts + t.services
  {
    GroupedIs(l, entries, o);
    hide Owner, Grouped;
    var i :| 0 <= i < |entries| && Owner(l, entries[i]) == o;
    OwnerInTables(t, l, entries[i]);
  }

  /** Writes the collected lists; an entry without an object stops it with a
      nil dereference. */
  method StoreLists(t: Tables, list: map<Object?, seq<int>>) returns (ok: bool)
    requires Wide(t)
    requires forall o: Object? :: o in list && o != null ==> o in t.hosts + t.services
    modifies set o | o in t.hosts + t.services
    ensures ok <==> null !in list
    ensures ok ==> Wide(t) && forall o :: o in t.hosts + t.services ==>
              Slot(t, o) < |old(o.lists)| && o.lists == if o in list then old(o.lists)[Slot(t, o) := list[o]] else old(o.lists)
  {
    ghost var objects := t.hosts + t.services;
    var todo := list.Keys;
    while todo != {}
      invariant todo <= list.Keys && (null in list ==> null in todo)
      invariant forall o :: o in objects ==>
                  Slot(t, o) < |old(o.lists)| && o.lists == if o in list && o !in todo then old(o.lists)[Slot(t, o) := list[o]] else old(o.lists)
      decreases todo
    {
      var d :| d in todo;
      if d == null {
        return false;
      }
      assert d in objects;
      todo := todo - {d};
      d.lists := d.lists[if d.isHost then t.hostIdx else t.serviceIdx := list[d]];
    }
    return true;
  }

  lemma InTables(t: Tables, l: Lookup)
    requires Agree(t, l)
    ensures forall h :: h in l.hosts ==> l.hosts[h].isHost && l.hosts[h] in t.hosts + t.services
    ensures forall h, s :: h in l.services && s in l.services[h] ==>
              !l.services[h][s].isHost && l.services[h][s] in t.hosts + t.services
  {
  }

  /** The entry's host, or its service on that host, is in the lookup. */
  predicate Resolves(l: Lookup, e: Entry) {
    if e.serviceDescription == "" then e.hostName in l.hosts
    else e.hostName in l.services && e.serviceDescription in l.services[e.hostName]
  }

  lemma AllResolveMeans(l: Lookup, entries: seq<Entry>)
    ensures AllResolve(l, entries) <==> forall e :: e in entries ==> Resolves(l, e)
  {
    forall i | 0 <= i < |entries|
      ensures Owner(l, entries[i]) != null <==> Resolves(l, entries[i])
    {
    }
  }

  /** Rebuilds the id lists of all hosts and services. It succeeds exactly when
      every entry's object is in the lookup. Then the list of each host holds
      the ids of the entries with its name and no service, that of each service
      the ids of the entries with its two names, in table order, and
      the other columns are untouched. */
  method BuildDowntimeCommentsList(t: Tables, l: Lookup, entries: seq<Entry>) returns (ok: bool)
    requires Agree(t, l) && Wide(t)
    modifies set o | o in t.hosts + t.services
    ensures ok <==> forall e :: e in entries ==> Resolves(l, e)
    ensures ok ==> Wide(t) && forall o :: o in t.hosts + t.services ==>
              Slot(t, o) < |old(o.lists)| && o.lists == old(o.lists)[Slot(t, o) := OwnIds(l, entries, o)]
    ensures ok && Distinct(l) ==> forall h :: h in l.hosts ==>
              t.hostIdx < |l.hosts[h].lists| && l.hosts[h].lists[t.hostIdx] == IdsFor(entries, h, "")
    ensures ok && Distinct(l) ==> forall h, s :: h in l.services && s in l.services[h] && s != "" ==>
              t.serviceIdx < |l.services[h][s].lists| && l.services[h][s].lists[t.serviceIdx] == IdsFor(entries, h, s)
  {
    AllResolveMeans(l, entries);
    var list := CollectIds(l, entries);
    hide Owner, OwnIds, Grouped, AllResolve, Agree, Distinct, Resolves, IdsFor;
    assert AllResolve(l, entries) <==> null !in list by { NullGroup(l, entries); }
    EmptyBoth(t, l);
    forall o: Object? | o in list && o != null
      ensures o in t.hosts + t.services
    {
      OwnedInTables(t, l, entries, o);
    }
    ok := StoreLists(t, list);
    forall o | o in t.hosts + t.services
      ensures Listed(list, o) == OwnIds(l, entries, o)
    {
      GroupedIs(l, entries, o);
    }
    if ok && Distinct(l) {
      InTables(t, l);
    }
  }

  /** After a rebuild: each object holds exactly its own ids, the lists of all
      objects together are the table's ids. */
  lemma RebuildInverts(t: Tables, l: Lookup, entries: seq<Entry>)
    requires Agree(t, l) && NoDup(t.hosts + t.services) && AllResolve(l, entries)
    ensures multiset(ListsOf(l, entries, t.hosts + t.services)) == multiset(AllIds(entries))
    ensures TotalLength(l, entries, t.hosts + t.services) == |entries|
  {
    forall i | 0 <= i < |entries|
      ensures Owner(l, entries[i]) in t.hosts + t.services
    {
      OwnerInTables(t, l, entries[i]);
    }
    ListsInvert(l, entries, t.hosts + t.services);
    LengthsAddUp(l, entries, t.hosts + t.services);
  }
}
