/** Regrouping of stats counters: consecutive counters that begin with the same
    test are nested under that test, so that it is evaluated once. */
module StatsGroups {
  import opened Text
  import opened Filters
  import opened FilterText
  import opened StatsValues

  // ------------------------------------------------------------- the optimiser

  /** A counter over at least two filters. */
  predicate IsMulti(s: Filter) {
    s.statsType == Counter && s.test.NoTest? && |s.kids| >= 2
  }

  /** The comparison made against the open group: column, operator and text. */
  predicate SameKey(t: Test, u: Test) {
    if t.NoTest? || u.NoTest? then t.NoTest? && u.NoTest?
    else t.column == u.column && t.op == u.op && t.strValue == u.strValue
  }

  /** The comparison made against the next counter. */
  predicate Equals(f: Filter, o: Filter) {
    && SameKey(f.test, o.test)
    && (f.test.Test? ==> f.test.floatValue == o.test.floatValue)
    && f.negate == o.negate && f.statsType == o.statsType && f.group == o.group
    && |f.kids| == |o.kids|
    && forall i :: 0 <= i < |f.kids| ==> Equals(f.kids[i], o.kids[i])
  }

  /** The counter without its first filter; a single remaining filter takes the
      counter's place and slot. */
  function RemoveFirst(s: Filter): Filter
    requires |s.kids| >= 2
  {
    if |s.kids| > 2 then s.(kids := s.kids[1..])
    else s.kids[1].(statsPos := s.statsPos, statsType := Counter)
  }

  function StartGroup(s: Filter): Filter
    requires |s.kids| >= 2
  {
    s.kids[0].(statsType := StatsGroup, kids := [RemoveFirst(s)])
  }

  function JoinGroup(g: Filter, s: Filter): Filter
    requires |s.kids| >= 2
  {
    g.(kids := g.kids + [RemoveFirst(s)])
  }

  function Size(f: Filter): nat
    decreases f, 1
  {
    1 + SizeAll(f.kids)
  }

  function SizeAll(fs: seq<Filter>): nat
    decreases fs, 0
  {
    if fs == [] then 0 else Size(fs[0]) + SizeAll(fs[1..])
  }

  /** Does the counter at i open a group with the one after it? */
  predicate Starts(stats: seq<Filter>, i: nat)
    requires i < |stats| && IsMulti(stats[i])
  {
    i + 1 < |stats| && IsMulti(stats[i + 1]) && Equals(stats[i + 1].kids[0], stats[i].kids[0])
  }

  function Regroup(stats: seq<Filter>): (r: seq<Filter>)
    ensures SizeAll(r) <= SizeAll(stats)
    decreases SizeAll(stats), 3, 0
  {
    if |stats| <= 1 then stats else Loop(stats, 0, [], None, SizeAll(stats))
  }

  /** The scan: out is the list so far, g the index in it of the last group
      opened, which stays open for later counters even when others intervene. */
  function Loop(stats: seq<Filter>, i: nat, out: seq<Filter>, g: Option<nat>, n: nat): (r: seq<Filter>)
    requires i <= |stats| && (g.Some? ==> g.value < |out|)
    requires SizeAll(out) + SizeAll(stats[i..]) <= n
    ensures SizeAll(r) <= n
    decreases n, 2, |stats| - i
  {
    if i == |stats| then Nested(out, g, n)
    else
      StepSizes(stats, i, out, g);
      var (out', g') := Step(stats, i, out, g, n);
      Loop(stats, i + 1, out', g', n)
  }

  /** One counter: kept, added to the open group, or opening a new one. */
  function Step(stats: seq<Filter>, i: nat, out: seq<Filter>, g: Option<nat>, n: nat): (r: (seq<Filter>, Option<nat>))
    requires i < |stats| && (g.Some? ==> g.value < |out|)
    requires SizeAll(out) <= n
    ensures r.1.Some? ==> r.1.value < |r.0|
    ensures SizeAll(r.0) <= SizeAll(out) + Size(stats[i])
    decreases n, 1, 0
  {
    var s := stats[i];
    StepSizes(stats, i, out, g);
    if !IsMulti(s) then (out + [s], g)
    else if g.Some? && SameKey(out[g.value].test, s.kids[0].test) then
      (out[g.value := JoinGroup(out[g.value], s)], g)
    else
      var nested := Nested(out, g, n);
      SizeAppend(nested, [s]);
      SizeAppend(nested, [StartGroup(s)]);
      if Starts(stats, i) then (nested + [StartGroup(s)], Some(|nested|))
      else (nested + [s], g)
  }

  /** Regroups inside the last group opened. */
  function Nested(out: seq<Filter>, g: Option<nat>, n: nat): (r: seq<Filter>)
    requires g.Some? ==> g.value < |out|
    requires SizeAll(out) <= n
    ensures |r| == |out| && SizeAll(r) <= SizeAll(out)
    decreases n, 0, 0
  {
    if g.None? then out
    else
      var group := out[g.value];
      SizeUpdate(out, g.value, group);
      var r := out[g.value := group.(kids := Regroup(group.kids))];
      SizeUpdate(out, g.value, r[g.value]);
      r
  }

  /** Slots are numbered by position in the request. */
  function Renumber(stats: seq<Filter>): seq<Filter> {
    seq(|stats|, i requires 0 <= i < |stats| => stats[i].(statsPos := i))
  }

  // -------------------------------------------------------------------- sizes

  lemma {:induction false} SizeAppend(a: seq<Filter>, b: seq<Filter>)
    ensures SizeAll(a + b) == SizeAll(a) + SizeAll(b)
  {
    if a == [] {
      assert a + b == b;
    } else {
      assert (a + b)[1..] == a[1..] + b;
      SizeAppend(a[1..], b);
    }
  }

  lemma SizeUpdate(a: seq<Filter>, k: nat, x: Filter)
    requires k < |a|
    ensures SizeAll(a[k := x]) == SizeAll(a) - Size(a[k]) + Size(x)
    ensures SizeAll(a[k].kids) < SizeAll(a)
  {
    assert a == a[..k] + ([a[k]] + a[k + 1..]);
    assert a[k := x] == a[..k] + ([x] + a[k + 1..]);
    SizeAppend(a[..k], [a[k]] + a[k + 1..]);
    SizeAppend(a[..k], [x] + a[k + 1..]);
    SizeAppend([a[k]], a[k + 1..]);
    SizeAppend([x], a[k + 1..]);
    assert SizeAll([a[k]]) == Size(a[k]) && SizeAll([x]) == Size(x);
  }

  lemma SizeEmpty()
    ensures SizeAll([]) == 0
  {
  }

  lemma RemoveFirstSize(s: Filter)
    requires |s.kids| >= 2
    ensures Size(RemoveFirst(s)) < Size(s) && Size(StartGroup(s)) <= Size(s)
  {
    assert SizeAll(s.kids) == Size(s.kids[0]) + SizeAll(s.kids[1..]);
    assert SizeAll(s.kids[1..]) == Size(s.kids[1]) + SizeAll(s.kids[1..][1..]);
    var r := RemoveFirst(s);
    assert SizeAll([r]) == Size(r) + SizeAll([r][1..]);
  }

  lemma StepSizes(stats: seq<Filter>, i: nat, out: seq<Filter>, g: Option<nat>)
    requires i < |stats| && (g.Some? ==> g.value < |out|)
    ensures SizeAll(stats[i..]) == Size(stats[i]) + SizeAll(stats[i + 1..])
    ensures SizeAll(out + [stats[i]]) == SizeAll(out) + Size(stats[i])
    ensures SizeAll([stats[i]]) == Size(stats[i])
    ensures IsMulti(stats[i]) ==> SizeAll([StartGroup(stats[i])]) <= Size(stats[i])
    ensures IsMulti(stats[i]) && g.Some? ==>
      SizeAll(out[g.value := JoinGroup(out[g.value], stats[i])]) < SizeAll(out) + Size(stats[i])
  {
    var s := stats[i];
    assert stats[i..][1..] == stats[i + 1..];
    SizeAppend(out, [s]);
    assert [s][1..] == [];
    if IsMulti(s) {
      RemoveFirstSize(s);
      assert [StartGroup(s)][1..] == [];
      if g.Some? {
        var r := RemoveFirst(s);
        SizeAppend(out[g.value].kids, [r]);
        assert [r][1..] == [];
        SizeUpdate(out, g.value, JoinGroup(out[g.value], s));
      }
    }
  }

  // ------------------------------------------------------- unfolding the scan

  lemma RegroupIsLoop(stats: seq<Filter>)
    requires |stats| > 1
    ensures SizeAll([]) + SizeAll(stats[0..]) <= SizeAll(stats)
    ensures Regroup(stats) == Loop(stats, 0, [], None, SizeAll(stats))
  {
    SizeEmpty();
    assert stats[0..] == stats;
  }

  lemma LoopNext(stats: seq<Filter>, i: nat, out: seq<Filter>, g: Option<nat>, n: nat)
    requires i < |stats| && (g.Some? ==> g.value < |out|)
    requires SizeAll(out) + SizeAll(stats[i..]) <= n
    ensures var (out', g') := Step(stats, i, out, g, n);
            && (g'.Some? ==> g'.value < |out'|) && SizeAll(out') + SizeAll(stats[i + 1..]) <= n
            && Loop(stats, i, out, g, n) == Loop(stats, i + 1, out', g', n)
  {
    hide SizeAll, Step, Nested;
    StepSizes(stats, i, out, g);
  }

  lemma LoopEnd(stats: seq<Filter>, out: seq<Filter>, g: Option<nat>, n: nat)
    requires g.Some? ==> g.value < |out|
    requires SizeAll(out) + SizeAll(stats[|stats|..]) <= n && SizeAll(out) <= n
    ensures Loop(stats, |stats|, out, g, n) == Nested(out, g, n)
  {
    hide SizeAll, Step, Nested;
  }
}
