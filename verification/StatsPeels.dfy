/** Which counters the regrouping takes apart, at every level of nesting. */
module StatsPeels {
  import opened Text
  import opened Filters
  import opened StatsGroups

  /** Every counter the scan takes apart satisfies p; what happens inside a group
      counts only where its test passes inside. */
  ghost predicate Peels(inside: Test -> bool, p: Filter -> bool, stats: seq<Filter>)
    decreases SizeAll(stats), 3, 0
  {
    |stats| <= 1 || PeelsLoop(inside, p, stats, 0, [], None, SizeAll(stats))
  }

  ghost predicate PeelsLoop(inside: Test -> bool, p: Filter -> bool,
      stats: seq<Filter>, i: nat, out: seq<Filter>, g: Option<nat>, n: nat)
    requires i <= |stats| && (g.Some? ==> g.value < |out|)
    requires SizeAll(out) + SizeAll(stats[i..]) <= n
    decreases n, 2, |stats| - i
  {
    if i == |stats| then PeelsNested(inside, p, out, g, n)
    else
      StepSizes(stats, i, out, g);
      var (out', g') := Step(stats, i, out, g, n);
      PeelsStep(inside, p, stats, i, out, g, n) && PeelsLoop(inside, p, stats, i + 1, out', g', n)
  }

  ghost predicate PeelsStep(inside: Test -> bool, p: Filter -> bool,
      stats: seq<Filter>, i: nat, out: seq<Filter>, g: Option<nat>, n: nat)
    requires i < |stats| && (g.Some? ==> g.value < |out|)
    requires SizeAll(out) <= n
    decreases n, 1, 0
  {
    var s := stats[i];
    IsMulti(s) ==>
      if g.Some? && SameKey(out[g.value].test, s.kids[0].test) then p(s)
      else PeelsNested(inside, p, out, g, n) && (Starts(stats, i) ==> p(s))
  }

  ghost predicate PeelsNested(inside: Test -> bool, p: Filter -> bool, out: seq<Filter>, g: Option<nat>, n: nat)
    requires g.Some? ==> g.value < |out|
    requires SizeAll(out) <= n
    decreases n, 0, 0
  {
    g.Some? && inside(out[g.value].test) ==>
      (SizeUpdate(out, g.value, out[g.value]);
       Peels(inside, p, out[g.value].kids))
  }

  function Everywhere(): Test -> bool {
    _ => true
  }

  /** The scan's open group. */
  predicate GroupAt(out: seq<Filter>, g: Option<nat>) {
    g.Some? ==> g.value < |out| && out[g.value].statsType == StatsGroup
  }

  // -------------------------------------------------------- steps of the scan

  /** How the open group and the list change in one step. */
  lemma StepKeeps(stats: seq<Filter>, i: nat, out: seq<Filter>, g: Option<nat>, n: nat)
    requires i < |stats| && GroupAt(out, g) && SizeAll(out) <= n
    ensures var (out', g') := Step(stats, i, out, g, n);
            var s := stats[i];
            && GroupAt(out', g')
            && (!IsMulti(s) ==> out' == out + [s] && g' == g)
            && (IsMulti(s) && g.Some? && SameKey(out[g.value].test, s.kids[0].test) ==>
                out' == out[g.value := JoinGroup(out[g.value], s)] && g' == g)
            && (IsMulti(s) && !(g.Some? && SameKey(out[g.value].test, s.kids[0].test)) ==>
                var nested := Nested(out, g, n);
                if Starts(stats, i) then out' == nested + [StartGroup(s)] && g' == Some(|out|)
                else out' == nested + [s] && g' == g)
  {
    hide Size, SizeAll, Equals, SameKey, RemoveFirst, Regroup;
  }

  /** Regrouping inside the open group changes that group's members only. */
  lemma NestedKeeps(out: seq<Filter>, g: Option<nat>, n: nat)
    requires GroupAt(out, g) && SizeAll(out) <= n
    ensures var r := Nested(out, g, n);
            && |r| == |out| && GroupAt(r, g)
            && (forall k :: 0 <= k < |out| && g != Some(k) ==> r[k] == out[k])
            && (g.Some? ==> r[g.value] == out[g.value].(kids := Regroup(out[g.value].kids)))
  {
    hide Size, SizeAll, Regroup;
  }

  // -------------------------------------------- counters that were not touched

  /** What is still a counter over several filters was one before. */
  lemma {:induction false} MultiFrom(stats: seq<Filter>)
    ensures forall e :: e in Regroup(stats) && IsMulti(e) ==> e in stats
  {
    hide Size, SizeAll, Loop;
    if |stats| > 1 {
      RegroupIsLoop(stats);
      LoopMultiFrom(stats, 0, [], None, SizeAll(stats));
    }
  }

  lemma {:induction false} LoopMultiFrom(stats: seq<Filter>, i: nat, out: seq<Filter>, g: Option<nat>, n: nat)
    requires i <= |stats| && GroupAt(out, g)
    requires SizeAll(out) + SizeAll(stats[i..]) <= n
    requires forall e :: e in out && IsMulti(e) ==> e in stats
    ensures forall e :: e in Loop(stats, i, out, g, n) && IsMulti(e) ==> e in stats
    decreases |stats| - i
  {
    hide Size, SizeAll, Loop, Step, Nested, SameKey, Equals, RemoveFirst, Regroup;
    StepKeepsSizes(stats, i, out, g, n);
    NestedKeeps(out, g, n);
    var nested := Nested(out, g, n);
    forall e | e in nested && IsMulti(e)
      ensures e in stats
    {
      var k :| 0 <= k < |nested| && nested[k] == e;
      assert e == out[k];
    }
    if i < |stats| {
      StepKeeps(stats, i, out, g, n);
      var (out', g') := Step(stats, i, out, g, n);
      forall e | e in out' && IsMulti(e)
        ensures e in stats
      {
        var k :| 0 <= k < |out'| && out'[k] == e;
        assert k < |out| && g == Some(k) ==> e.statsType == StatsGroup;
      }
      LoopMultiFrom(stats, i + 1, out', g', n);
    }
  }

  /** Unfolding the scan, at its end or by one step. */
  lemma StepKeepsSizes(stats: seq<Filter>, i: nat, out: seq<Filter>, g: Option<nat>, n: nat)
    requires i <= |stats| && (g.Some? ==> g.value < |out|)
    requires SizeAll(out) + SizeAll(stats[i..]) <= n
    ensures SizeAll(out) <= n
    ensures i == |stats| ==> Loop(stats, i, out, g, n) == Nested(out, g, n)
    ensures i < |stats| ==>
      var (out', g') := Step(stats, i, out, g, n);
      && (g'.Some? ==> g'.value < |out'|) && SizeAll(out') + SizeAll(stats[i + 1..]) <= n
      && Loop(stats, i, out, g, n) == Loop(stats, i + 1, out', g', n)
  {
    hide SizeAll, Loop, Step, Nested;
    if i < |stats| {
      LoopNext(stats, i, out, g, n);
    } else {
      LoopEnd(stats, out, g, n);
    }
  }

  // ------------------------------------------------------ comparing conditions

  /** Fewer places to look at and a weaker condition. */
  lemma {:induction false} PeelsWeaken(inside: Test -> bool, inside': Test -> bool,
      p: Filter -> bool, q: Filter -> bool, stats: seq<Filter>)
    requires forall t :: inside'(t) ==> inside(t)
    requires forall s :: p(s) ==> q(s)
    requires Peels(inside, p, stats)
    ensures Peels(inside', q, stats)
    decreases SizeAll(stats), 3, 0
  {
    hide Size, SizeAll, PeelsLoop;
    if |stats| > 1 {
      RegroupIsLoop(stats);
      LoopWeaken(inside, inside', p, q, stats, 0, [], None, SizeAll(stats));
    }
  }

  lemma {:induction false} LoopWeaken(inside: Test -> bool, inside': Test -> bool,
      p: Filter -> bool, q: Filter -> bool, stats: seq<Filter>, i: nat, out: seq<Filter>, g: Option<nat>, n: nat)
    requires forall t :: inside'(t) ==> inside(t)
    requires forall s :: p(s) ==> q(s)
    requires i <= |stats| && (g.Some? ==> g.value < |out|)
    requires SizeAll(out) + SizeAll(stats[i..]) <= n
    requires PeelsLoop(inside, p, stats, i, out, g, n)
    ensures PeelsLoop(inside', q, stats, i, out, g, n)
    decreases n, 2, |stats| - i
  {
    hide Size, SizeAll, Step, Nested, PeelsNested, SameKey, Equals;
    if i == |stats| {
      NestedWeaken(inside, inside', p, q, out, g, n);
    } else {
      StepSizes(stats, i, out, g);
      var (out', g') := Step(stats, i, out, g, n);
      StepWeaken(inside, inside', p, q, stats, i, out, g, n);
      LoopWeaken(inside, inside', p, q, stats, i + 1, out', g', n);
    }
  }

  lemma {:induction false} StepWeaken(inside: Test -> bool, inside': Test -> bool,
      p: Filter -> bool, q: Filter -> bool, stats: seq<Filter>, i: nat, out: seq<Filter>, g: Option<nat>, n: nat)
    requires forall t :: inside'(t) ==> inside(t)
    requires forall s :: p(s) ==> q(s)
    requires i < |stats| && (g.Some? ==> g.value < |out|)
    requires SizeAll(out) <= n
    requires PeelsStep(inside, p, stats, i, out, g, n)
    ensures PeelsStep(inside', q, stats, i, out, g, n)
    decreases n, 1, 0
  {
    hide Size, SizeAll, PeelsNested, SameKey, Equals;
    if PeelsNested(inside, p, out, g, n) {
      NestedWeaken(inside, inside', p, q, out, g, n);
    }
  }

  lemma {:induction false} NestedWeaken(inside: Test -> bool, inside': Test -> bool,
      p: Filter -> bool, q: Filter -> bool, out: seq<Filter>, g: Option<nat>, n: nat)
    requires forall t :: inside'(t) ==> inside(t)
    requires forall s :: p(s) ==> q(s)
    requires g.Some? ==> g.value < |out|
    requires SizeAll(out) <= n && PeelsNested(inside, p, out, g, n)
    ensures PeelsNested(inside', q, out, g, n)
    decreases n, 0, 0
  {
    hide Size, SizeAll, Peels;
    if g.Some? && inside'(out[g.value].test) {
      SizeUpdate(out, g.value, out[g.value]);
      PeelsWeaken(inside, inside', p, q, out[g.value].kids);
    }
  }

  // --------------------------------------------- what a caller can see at once

  /** The first test of the group that is open before position i. */
  function OpenKey(stats: seq<Filter>, i: nat): Option<Test>
    requires i <= |stats|
  {
    if i == 0 then None
    else
      var s, key := stats[i - 1], OpenKey(stats, i - 1);
      if IsMulti(s) && !Joins(key, s) && Starts(stats, i - 1) then Some(s.kids[0].test) else key
  }

  predicate Joins(key: Option<Test>, s: Filter)
    requires IsMulti(s)
  {
    key.Some? && SameKey(key.value, s.kids[0].test)
  }

  /** Does the scan move the counter at i into a group? A caller can tell from
      the list alone. */
  predicate Taken(stats: seq<Filter>, i: nat)
    requires i < |stats|
  {
    IsMulti(stats[i]) && (Joins(OpenKey(stats, i), stats[i]) || Starts(stats, i))
  }

  /** The open group has the open key. */
  predicate KeyAt(out: seq<Filter>, g: Option<nat>, key: Option<Test>) {
    && GroupAt(out, g)
    && (g.Some? <==> key.Some?)
    && (g.Some? ==> out[g.value].test == key.value)
  }

  lemma StepKey(stats: seq<Filter>, i: nat, out: seq<Filter>, g: Option<nat>, n: nat)
    requires i < |stats| && KeyAt(out, g, OpenKey(stats, i)) && SizeAll(out) <= n
    ensures KeyAt(Step(stats, i, out, g, n).0, Step(stats, i, out, g, n).1, OpenKey(stats, i + 1))
  {
    hide Size, SizeAll, Step, Nested, SameKey, Equals, RemoveFirst, Regroup;
    StepKeeps(stats, i, out, g, n);
    NestedKeeps(out, g, n);
  }

  /** At the outer level the scan takes apart exactly the counters that are taken. */
  lemma {:induction false} PeelsTaken(inside: Test -> bool, p: Filter -> bool, stats: seq<Filter>)
    requires Peels(inside, p, stats)
    ensures forall k :: 0 <= k < |stats| && Taken(stats, k) ==> p(stats[k])
  {
    hide Size, SizeAll, PeelsLoop;
    if |stats| > 1 {
      RegroupIsLoop(stats);
      LoopTaken(inside, p, stats, 0, [], None, SizeAll(stats));
    }
  }

  lemma {:induction false} LoopTaken(inside: Test -> bool, p: Filter -> bool,
      stats: seq<Filter>, i: nat, out: seq<Filter>, g: Option<nat>, n: nat)
    requires i <= |stats| && KeyAt(out, g, OpenKey(stats, i))
    requires SizeAll(out) + SizeAll(stats[i..]) <= n
    requires PeelsLoop(inside, p, stats, i, out, g, n)
    ensures forall k :: i <= k < |stats| && Taken(stats, k) ==> p(stats[k])
    decreases |stats| - i
  {
    hide Size, SizeAll, Step, PeelsNested, SameKey, Equals;
    if i < |stats| {
      StepSizes(stats, i, out, g);
      StepKey(stats, i, out, g, n);
      var (out', g') := Step(stats, i, out, g, n);
      LoopTaken(inside, p, stats, i + 1, out', g', n);
    }
  }

  /** p holds of the counter and of what is left of it after each peeling. */
  ghost predicate Chain(p: Filter -> bool, s: Filter)
    decreases Size(s)
  {
    if IsMulti(s) then
      RemoveFirstSize(s);
      p(s) && Chain(p, RemoveFirst(s))
    else true
  }

  ghost predicate KidsChain(p: Filter -> bool, out: seq<Filter>, g: Option<nat>)
    requires GroupAt(out, g)
  {
    g.Some? ==> forall e :: e in out[g.value].kids ==> Chain(p, e)
  }

  /** If it holds along every counter that is taken, the whole regrouping, at
      every level, takes apart only counters that satisfy p. */
  lemma {:induction false} ChainPeels(inside: Test -> bool, p: Filter -> bool, stats: seq<Filter>)
    requires forall k :: 0 <= k < |stats| && Taken(stats, k) ==> Chain(p, stats[k])
    ensures Peels(inside, p, stats)
    decreases SizeAll(stats), 3, 0
  {
    hide Size, SizeAll, PeelsLoop, Chain;
    if |stats| > 1 {
      RegroupIsLoop(stats);
      LoopChain(inside, p, stats, 0, [], None, SizeAll(stats));
    }
  }

  lemma {:induction false} NestedChain(inside: Test -> bool, p: Filter -> bool, out: seq<Filter>, g: Option<nat>, n: nat)
    requires GroupAt(out, g) && KidsChain(p, out, g) && SizeAll(out) <= n
    ensures PeelsNested(inside, p, out, g, n)
    ensures GroupAt(Nested(out, g, n), g) && KidsChain(p, Nested(out, g, n), g)
    decreases n, 0, 0
  {
    hide Size, SizeAll, Peels, Chain, Nested, Regroup;
    NestedKeeps(out, g, n);
    if g.Some? {
      var kids := out[g.value].kids;
      SizeUpdate(out, g.value, out[g.value]);
      ChainPeels(inside, p, kids);
      MultiFrom(kids);
      forall e | e in Regroup(kids)
        ensures Chain(p, e)
      {
        if !IsMulti(e) {
          ChainTrivial(p, e);
        }
      }
    }
  }

  lemma ChainTrivial(p: Filter -> bool, s: Filter)
    requires !IsMulti(s)
    ensures Chain(p, s)
  {
  }

  lemma ChainNext(p: Filter -> bool, s: Filter)
    requires IsMulti(s) && Chain(p, s)
    ensures p(s) && Chain(p, RemoveFirst(s))
  {
  }

  lemma {:induction false} LoopChain(inside: Test -> bool, p: Filter -> bool,
      stats: seq<Filter>, i: nat, out: seq<Filter>, g: Option<nat>, n: nat)
    requires forall k :: 0 <= k < |stats| && Taken(stats, k) ==> Chain(p, stats[k])
    requires i <= |stats| && KeyAt(out, g, OpenKey(stats, i)) && KidsChain(p, out, g)
    requires SizeAll(out) + SizeAll(stats[i..]) <= n
    ensures PeelsLoop(inside, p, stats, i, out, g, n)
    decreases n, 2, |stats| - i
  {
    hide Size, SizeAll, Step, Nested, PeelsNested, SameKey, Equals, Chain, RemoveFirst;
    if i == |stats| {
      NestedChain(inside, p, out, g, n);
    } else {
      StepSizes(stats, i, out, g);
      StepKey(stats, i, out, g, n);
      var (out', g') := Step(stats, i, out, g, n);
      StepChain(inside, p, stats, i, out, g, n);
      LoopChain(inside, p, stats, i + 1, out', g', n);
    }
  }

  lemma {:induction false} StepChain(inside: Test -> bool, p: Filter -> bool,
      stats: seq<Filter>, i: nat, out: seq<Filter>, g: Option<nat>, n: nat)
    requires i < |stats| && KeyAt(out, g, OpenKey(stats, i)) && KidsChain(p, out, g)
    requires Taken(stats, i) ==> Chain(p, stats[i])
    requires SizeAll(out) <= n
    ensures PeelsStep(inside, p, stats, i, out, g, n)
    ensures var (out', g') := Step(stats, i, out, g, n); GroupAt(out', g') && KidsChain(p, out', g')
    decreases n, 1, 0
  {
    hide Size, SizeAll, Step, Nested, PeelsNested, SameKey, Equals, Chain, RemoveFirst;
    StepKeeps(stats, i, out, g, n);
    var s := stats[i];
    if IsMulti(s) {
      if Taken(stats, i) {
        ChainNext(p, s);
      }
      if !(g.Some? && SameKey(out[g.value].test, s.kids[0].test)) {
        NestedChain(inside, p, out, g, n);
      }
    }
  }
}
