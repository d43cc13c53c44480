/** What stats counters count, and that regrouping them changes no slot. */
module StatsMeaning {
  import opened Text
  import opened Filters
  import opened FilterText
  import opened StatsValues
  import opened StatsGroups
  import opened StatsPeels

  // ----------------------------------------------------------------- counting

  /** One effect of a row on the result: a counter's hit or a value to aggregate. */
  datatype Touch = Hit(pos: nat) | Value(pos: nat, test: Test)

  /** Slot 0 in a counter means: use the index in the list. */
  function SlotOf(s: Filter, i: nat): nat {
    if s.statsPos > 0 then s.statsPos else i
  }

  /** Effects of a row on the slots, in the order they happen. */
  function Touches(holds: Test -> bool, fs: seq<Filter>, i: nat): seq<Touch>
    decreases fs, 0
  {
    if fs == [] then [] else TouchesOf(holds, fs[0], i) + Touches(holds, fs[1..], i + 1)
  }

  function TouchesOf(holds: Test -> bool, s: Filter, i: nat): seq<Touch>
    decreases s, 1
  {
    match s.statsType
    case Counter => if Match(holds, s) then [Hit(SlotOf(s, i))] else []
    case StatsGroup => if Match(holds, s) then Touches(holds, s.kids, 0) else []
    case _ => [Value(SlotOf(s, i), s.test)]
  }

  function Apply(value: Test -> real, t: Touch, res: seq<Acc>): (r: seq<Acc>)
    requires t.pos < |res|
    ensures |r| == |res|
  {
    res[t.pos := match t case Hit(_) => CountOne(res[t.pos]) case Value(_, test) => ApplyValue(res[t.pos], value(test), 1)]
  }

  predicate InRange(ts: seq<Touch>, n: nat) {
    forall i :: 0 <= i < |ts| ==> ts[i].pos < n
  }

  function ApplyAll(value: Test -> real, ts: seq<Touch>, res: seq<Acc>): (r: seq<Acc>)
    requires InRange(ts, |res|)
    ensures |r| == |res|
  {
    if ts == [] then res else ApplyAll(value, ts[1..], Apply(value, ts[0], res))
  }

  lemma {:induction false} ApplyAllAppend(value: Test -> real, a: seq<Touch>, b: seq<Touch>, res: seq<Acc>)
    requires InRange(a + b, |res|)
    ensures InRange(a, |res|) && InRange(b, |res|)
    ensures ApplyAll(value, a + b, res) == ApplyAll(value, b, ApplyAll(value, a, res))
  {
    assert forall i :: 0 <= i < |a| ==> a[i] == (a + b)[i];
    assert forall i :: 0 <= i < |b| ==> b[i] == (a + b)[|a| + i];
    if a == [] {
      assert a + b == b;
    } else {
      assert (a + b)[1..] == a[1..] + b;
      ApplyAllAppend(value, a[1..], b, Apply(value, a[0], res));
    }
  }

  lemma ApplySingle(value: Test -> real, t: Touch, res: seq<Acc>)
    requires t.pos < |res|
    ensures InRange([t], |res|) && ApplyAll(value, [t], res) == Apply(value, t, res)
  {
    assert [t][1..] == [];
  }

  /** Counting one row in place: every slot ends as the touches leave it. */
  method CountStats(holds: Test -> bool, value: Test -> real, stats: seq<Filter>, result: array<Acc>)
    requires InRange(Touches(holds, stats, 0), result.Length)
    modifies result
    ensures result[..] == ApplyAll(value, Touches(holds, stats, 0), old(result[..]))
    decreases stats, 1
  {
    hide Match, CountOne, ApplyValue, ApplyAll, TouchesOf, InRange;
    ghost var all := Touches(holds, stats, 0);
    ghost var done: seq<Touch> := [];
    ghost var start := result[..];
    ApplyNone(value, start);
    for i := 0 to |stats|
      invariant done + Touches(holds, stats[i..], i) == all
      invariant InRange(done, |start|)
      invariant result[..] == ApplyAll(value, done, start)
    {
      var s := stats[i];
      assert stats[i..][1..] == stats[i + 1..];
      ghost var here := TouchesOf(holds, s, i);
      assert all == done + here + Touches(holds, stats[i + 1..], i + 1);
      RangeParts(done, here, Touches(holds, stats[i + 1..], i + 1), result.Length);
      ApplyAllAppend(value, done, here, start);
      CountOneStat(holds, value, s, i, result);
      done := done + here;
    }
    assert done == all;
  }

  method CountOneStat(holds: Test -> bool, value: Test -> real, s: Filter, i: nat, result: array<Acc>)
    requires InRange(TouchesOf(holds, s, i), result.Length)
    modifies result
    ensures result[..] == ApplyAll(value, TouchesOf(holds, s, i), old(result[..]))
    decreases s
  {
    hide Match, CountOne, ApplyValue, ApplyAll;
    ghost var start := result[..];
    ApplyNone(value, start);
    var resultPos := if s.statsPos > 0 then s.statsPos else i;
    match s.statsType {
      case Counter =>
        if Match(holds, s) {
          assert TouchesOf(holds, s, i)[0] == Hit(resultPos);
          ApplySingle(value, Hit(resultPos), start);
          result[resultPos] := CountOne(result[resultPos]);
        }
      case StatsGroup =>
        if Match(holds, s) {
          CountStats(holds, value, s.kids, result);
        }
      case _ =>
        assert TouchesOf(holds, s, i)[0] == Value(resultPos, s.test);
        ApplySingle(value, Value(resultPos, s.test), start);
        result[resultPos] := ApplyValue(result[resultPos], value(s.test), 1);
    }
  }

  lemma ApplyNone(value: Test -> real, res: seq<Acc>)
    ensures InRange([], |res|) && ApplyAll(value, [], res) == res
  {
  }

  lemma RangeParts(a: seq<Touch>, b: seq<Touch>, c: seq<Touch>, n: nat)
    requires InRange(a + b + c, n)
    ensures InRange(a + b, n) && InRange(b, n)
  {
    var all := a + b + c;
    assert forall i :: 0 <= i < |a + b| ==> (a + b)[i] == all[i];
    assert forall i :: 0 <= i < |b| ==> b[i] == all[|a| + i];
  }

  // ------------------------------------------------- order does not matter

  predicate Distinct(ts: seq<Touch>) {
    forall i, j :: 0 <= i < j < |ts| ==> ts[i].pos != ts[j].pos
  }

  lemma {:induction false} SlotUntouched(value: Test -> real, ts: seq<Touch>, res: seq<Acc>, p: nat)
    requires InRange(ts, |res|) && p < |res|
    requires forall i :: 0 <= i < |ts| ==> ts[i].pos != p
    ensures ApplyAll(value, ts, res)[p] == res[p]
  {
    if ts != [] {
      SlotUntouched(value, ts[1..], Apply(value, ts[0], res), p);
    }
  }

  lemma {:induction false} SlotTouched(value: Test -> real, ts: seq<Touch>, res: seq<Acc>, k: nat)
    requires InRange(ts, |res|) && Distinct(ts) && k < |ts|
    ensures ApplyAll(value, ts, res)[ts[k].pos] == Apply(value, ts[k], res)[ts[k].pos]
  {
    var res' := Apply(value, ts[0], res);
    if k == 0 {
      SlotUntouched(value, ts[1..], res', ts[0].pos);
    } else {
      SlotTouched(value, ts[1..], res', k - 1);
    }
  }

  /** With one touch per slot, only the set of touches counts. */
  lemma TouchOrder(value: Test -> real, a: seq<Touch>, b: seq<Touch>, res: seq<Acc>)
    requires InRange(a, |res|) && Distinct(a)
    requires multiset(a) == multiset(b)
    ensures InRange(b, |res|)
    ensures ApplyAll(value, a, res) == ApplyAll(value, b, res)
  {
    SameTouches(a, b);
    DistinctPermutation(a, b);
    var x, y := ApplyAll(value, a, res), ApplyAll(value, b, res);
    forall p: nat | p < |res|
      ensures x[p] == y[p]
    {
      if k: nat :| k < |a| && a[k].pos == p {
        SlotTouched(value, a, res, k);
        var j :| 0 <= j < |b| && b[j] == a[k];
        SlotTouched(value, b, res, j);
      } else {
        SlotUntouched(value, a, res, p);
        SlotUntouched(value, b, res, p);
      }
    }
  }

  lemma SameTouches(a: seq<Touch>, b: seq<Touch>)
    requires multiset(a) == multiset(b)
    ensures forall i :: 0 <= i < |b| ==> b[i] in a
    ensures forall i :: 0 <= i < |a| ==> a[i] in b
  {
    forall i | 0 <= i < |b|
      ensures b[i] in a
    {
      assert b[i] in multiset(b);
    }
    forall i | 0 <= i < |a|
      ensures a[i] in b
    {
      assert a[i] in multiset(a);
    }
  }

  lemma {:induction false} DistinctMultiplicity(ts: seq<Touch>, t: Touch)
    requires Distinct(ts)
    ensures multiset(ts)[t] <= 1
  {
    if ts != [] {
      assert ts == [ts[0]] + ts[1..];
      DistinctMultiplicity(ts[1..], t);
      if t == ts[0] {
        assert t !in ts[1..];
      }
    }
  }

  lemma DistinctPermutation(a: seq<Touch>, b: seq<Touch>)
    requires Distinct(a) && multiset(a) == multiset(b)
    ensures Distinct(b)
  {
    SameTouches(a, b);
    forall i, j | 0 <= i < j < |b|
      ensures b[i].pos != b[j].pos
    {
      DistinctMultiplicity(a, b[i]);
      OnceOnly(b, i, j);
      var k :| 0 <= k < |a| && a[k] == b[i];
      var l :| 0 <= l < |a| && a[l] == b[j];
    }
  }

  lemma OnceOnly(b: seq<Touch>, i: nat, j: nat)
    requires i < j < |b| && multiset(b)[b[i]] <= 1
    ensures b[i] != b[j]
  {
    assert b == b[..j] + [b[j]] + b[j + 1..];
    assert b[..j][i] in b[..j];
    assert multiset(b[..j])[b[i]] >= 1;
  }

  // ------------------------------------------------- slots without index rule

  /** The touches as a bag, reading the slot straight from the counter. */
  function Bag(holds: Test -> bool, fs: seq<Filter>): multiset<Touch>
    decreases fs, 0
  {
    if fs == [] then multiset{} else BagOf(holds, fs[0]) + Bag(holds, fs[1..])
  }

  function BagOf(holds: Test -> bool, s: Filter): multiset<Touch>
    decreases s, 1
  {
    match s.statsType
    case Counter => if Match(holds, s) then multiset{Hit(s.statsPos)} else multiset{}
    case StatsGroup => if Match(holds, s) then Bag(holds, s.kids) else multiset{}
    case _ => multiset{Value(s.statsPos, s.test)}
  }

  /** Slot 0 is only carried by the first entry of a list, where the index is 0 too. */
  predicate SlotsOk(fs: seq<Filter>, i: nat)
    decreases fs, 0
  {
    fs == [] || (SlotOk(fs[0], i) && SlotsOk(fs[1..], i + 1))
  }

  predicate SlotOk(s: Filter, i: nat)
    decreases s, 1
  {
    if s.statsType == StatsGroup then SlotsOk(s.kids, 0) else s.statsPos > 0 || i == 0
  }

  lemma {:induction false} TouchesBag(holds: Test -> bool, fs: seq<Filter>, i: nat)
    requires SlotsOk(fs, i)
    ensures multiset(Touches(holds, fs, i)) == Bag(holds, fs)
    decreases fs, 0
  {
    if fs != [] {
      TouchesOfBag(holds, fs[0], i);
      TouchesBag(holds, fs[1..], i + 1);
    }
  }

  lemma {:induction false} TouchesOfBag(holds: Test -> bool, s: Filter, i: nat)
    requires SlotOk(s, i)
    ensures multiset(TouchesOf(holds, s, i)) == BagOf(holds, s)
    decreases s, 1
  {
    hide Match, Touches, Bag, SlotsOk;
    if s.statsType == StatsGroup {
      TouchesBag(holds, s.kids, 0);
    } else {
      assert SlotOf(s, i) == s.statsPos;
      var pos := s.statsPos;
      assert multiset([Hit(pos)]) == multiset{Hit(pos)};
      assert multiset([Value(pos, s.test)]) == multiset{Value(pos, s.test)};
    }
  }

  lemma {:induction false} BagAppend(holds: Test -> bool, a: seq<Filter>, b: seq<Filter>)
    ensures Bag(holds, a + b) == Bag(holds, a) + Bag(holds, b)
  {
    if a == [] {
      assert a + b == b;
    } else {
      assert (a + b)[1..] == a[1..] + b;
      BagAppend(holds, a[1..], b);
    }
  }

  lemma BagOne(holds: Test -> bool, s: Filter)
    ensures Bag(holds, [s]) == BagOf(holds, s)
  {
    assert [s][1..] == [];
  }

  lemma BagUpdate(holds: Test -> bool, a: seq<Filter>, k: nat, x: Filter)
    requires k < |a|
    ensures Bag(holds, a) == Bag(holds, a[..k]) + Bag(holds, a[k + 1..]) + BagOf(holds, a[k])
    ensures Bag(holds, a[k := x]) == Bag(holds, a[..k]) + Bag(holds, a[k + 1..]) + BagOf(holds, x)
  {
    assert a == a[..k] + ([a[k]] + a[k + 1..]);
    assert a[k := x] == a[..k] + ([x] + a[k + 1..]);
    BagAppend(holds, a[..k], [a[k]] + a[k + 1..]);
    BagAppend(holds, a[..k], [x] + a[k + 1..]);
    BagAppend(holds, [a[k]], a[k + 1..]);
    BagAppend(holds, [x], a[k + 1..]);
    BagOne(holds, a[k]);
    BagOne(holds, x);
  }

  lemma {:induction false} SlotsAppend(a: seq<Filter>, b: seq<Filter>, i: nat)
    ensures SlotsOk(a + b, i) <==> SlotsOk(a, i) && SlotsOk(b, i + |a|)
  {
    if a == [] {
      assert a + b == b;
    } else {
      assert (a + b)[1..] == a[1..] + b;
      SlotsAppend(a[1..], b, i + 1);
    }
  }

  lemma SlotsAt(a: seq<Filter>, k: nat, x: Filter)
    requires k < |a| && SlotsOk(a, 0)
    ensures SlotOk(a[k], k)
    ensures SlotOk(x, k) ==> SlotsOk(a[k := x], 0)
  {
    assert a == a[..k] + ([a[k]] + a[k + 1..]);
    assert a[k := x] == a[..k] + ([x] + a[k + 1..]);
    SlotsAppend(a[..k], [a[k]] + a[k + 1..], 0);
    SlotsAppend(a[..k], [x] + a[k + 1..], 0);
    assert ([a[k]] + a[k + 1..])[1..] == ([x] + a[k + 1..])[1..] == a[k + 1..];
  }

  // ------------------------------------------------- taking one counter apart

  /** The tests of a vocabulary that compare equal, in column, operator and text,
      have the same outcome. */
  ghost predicate KeysDecide(holds: Test -> bool, ts: set<Test>) {
    forall t, u :: t in ts && u in ts && SameKey(t, u) ==> holds(t) == holds(u)
  }

  predicate PlainLeaf(ts: set<Test>, f: Filter) {
    f.group == NoGroup && !f.negate && f.test.Test? && f.test in ts
  }

  /** A conjunction or disjunction that begins with a plain test. */
  predicate LeafFirst(ts: set<Test>, s: Filter) {
    |s.kids| >= 2 && s.group != NoGroup && PlainLeaf(ts, s.kids[0])
  }

  function LeafFirsts(ts: set<Test>): Filter -> bool {
    s => LeafFirst(ts, s)
  }

  /** Taking off the first filter changes nothing under this outcome of the tests. */
  predicate Passes(holds: Test -> bool, s: Filter) {
    |s.kids| >= 2 && (Match(holds, s) ==> holds(s.kids[0].test) && Match(holds, RemoveFirst(s)))
  }

  function Passing(holds: Test -> bool): Filter -> bool {
    s => Passes(holds, s)
  }

  /** Taking it off can only lose rows. */
  lemma Peel(ts: set<Test>, holds: Test -> bool, s: Filter)
    requires IsMulti(s) && LeafFirst(ts, s)
    ensures holds(s.kids[0].test) && Match(holds, RemoveFirst(s)) ==> Match(holds, s)
    ensures RemoveFirst(s).statsType == Counter && RemoveFirst(s).statsPos == s.statsPos
  {
    var first, r := s.kids[0], RemoveFirst(s);
    assert forall k :: k in s.kids <==> k == first || k in s.kids[1..];
    assert s.kids[1] in s.kids[1..];
    assert Match(holds, first) == holds(first.test);
    if |s.kids| == 2 {
      assert s.kids[1..] == [s.kids[1]];
      assert Match(holds, r) == Match(holds, s.kids[1]);
    }
  }

  /** The effects of a counter, of what is left of it, and of both together. */
  lemma BagPeel(ts: set<Test>, holds: Test -> bool, s: Filter)
    requires IsMulti(s) && LeafFirst(ts, s)
    ensures var peeled := if holds(s.kids[0].test) then BagOf(holds, RemoveFirst(s)) else multiset{};
            peeled <= BagOf(holds, s) && (peeled == BagOf(holds, s) <==> Passes(holds, s))
  {
    Peel(ts, holds, s);
    assert multiset{Hit(s.statsPos)} != multiset{};
  }

  // ------------------------------------- regrouping never adds, and when it loses

  lemma BothEqual(a: multiset<Touch>, b: multiset<Touch>, c: multiset<Touch>, d: multiset<Touch>)
    requires a <= b && c <= d
    ensures a + c <= b + d && (a + c == b + d <==> a == b && c == d)
  {
    if a + c == b + d {
      forall t: Touch
        ensures a[t] == b[t] && c[t] == d[t]
      {
        assert (a + c)[t] == (b + d)[t];
      }
    }
  }

  predicate OpenGroup(ts: set<Test>, out: seq<Filter>, g: Option<nat>) {
    GroupAt(out, g) && (g.Some? ==> PlainLeaf(ts, out[g.value]))
  }

  /** Under any outcome of the tests the regrouped list has at most the effects of
      the list, and it has all of them exactly when every counter it takes apart,
      inside groups whose test holds, passes. */
  lemma {:induction false} RegroupMeaning(ts: set<Test>, holds: Test -> bool, stats: seq<Filter>)
    requires KeysDecide(holds, ts) && Peels(Everywhere(), LeafFirsts(ts), stats) && SlotsOk(stats, 0)
    ensures SlotsOk(Regroup(stats), 0)
    ensures Bag(holds, Regroup(stats)) <= Bag(holds, stats)
    ensures Bag(holds, Regroup(stats)) == Bag(holds, stats) <==> Peels(holds, Passing(holds), stats)
    decreases SizeAll(stats), 3, 0
  {
    hide Size, SizeAll, PeelsLoop, Loop, KeysDecide, SlotOk, BagOf;
    if |stats| > 1 {
      RegroupIsLoop(stats);
      assert stats[0..] == stats;
      LoopMeaning(ts, holds, stats, 0, [], None, SizeAll(stats));
      assert Bag(holds, []) + Bag(holds, stats) == Bag(holds, stats);
    }
  }

  lemma BagOfGroup(ts: set<Test>, holds: Test -> bool, g: Filter)
    requires g.statsType == StatsGroup && PlainLeaf(ts, g)
    ensures BagOf(holds, g) == if holds(g.test) then Bag(holds, g.kids) else multiset{}
  {
  }

  lemma {:induction false} NestedMeaning(ts: set<Test>, holds: Test -> bool, out: seq<Filter>, g: Option<nat>, n: nat)
    requires KeysDecide(holds, ts) && OpenGroup(ts, out, g)
    requires SizeAll(out) <= n && SlotsOk(out, 0) && PeelsNested(Everywhere(), LeafFirsts(ts), out, g, n)
    ensures SlotsOk(Nested(out, g, n), 0) && OpenGroup(ts, Nested(out, g, n), g)
    ensures Bag(holds, Nested(out, g, n)) <= Bag(holds, out)
    ensures Bag(holds, Nested(out, g, n)) == Bag(holds, out) <==> PeelsNested(holds, Passing(holds), out, g, n)
    decreases n, 0, 0
  {
    hide Size, SizeAll, Peels, KeysDecide, Regroup, Nested, SlotsOk, Bag, BagOf;
    NestedKeeps(out, g, n);
    if g.Some? {
      var k, group := g.value, out[g.value];
      var group' := Nested(out, g, n)[k];
      assert Nested(out, g, n) == out[k := group'];
      SizeUpdate(out, k, group);
      SlotsAt(out, k, group');
      RegroupMeaning(ts, holds, group.kids);
      BagOfGroup(ts, holds, group);
      BagOfGroup(ts, holds, group');
      BagUpdate(holds, out, k, group');
      var rest := Bag(holds, out[..k]) + Bag(holds, out[k + 1..]);
      BothEqual(rest, rest, BagOf(holds, group'), BagOf(holds, group));
    } else {
      assert Nested(out, g, n) == out;
    }
  }

  lemma JoinMeaning(ts: set<Test>, holds: Test -> bool, out: seq<Filter>, k: nat, s: Filter)
    requires KeysDecide(holds, ts)
    requires k < |out| && out[k].statsType == StatsGroup && PlainLeaf(ts, out[k])
    requires IsMulti(s) && LeafFirst(ts, s) && SameKey(out[k].test, s.kids[0].test)
    requires SlotsOk(out, 0) && s.statsPos > 0
    ensures var out' := out[k := JoinGroup(out[k], s)];
            && SlotsOk(out', 0)
            && Bag(holds, out') <= Bag(holds, out) + BagOf(holds, s)
            && (Bag(holds, out') == Bag(holds, out) + BagOf(holds, s) <==> Passes(holds, s))
  {
    var g, r := out[k], RemoveFirst(s);
    assert holds(g.test) == holds(s.kids[0].test);
    Peel(ts, holds, s);
    BagPeel(ts, holds, s);
    hide KeysDecide, SameKey, RemoveFirst, Bag, BagOf, SlotsOk, Passes, Match;
    SlotsAt(out, k, JoinGroup(g, s));
    PeeledSlots(g.kids, r);
    BagAppend(holds, g.kids, [r]);
    BagOne(holds, r);
    BagOfGroup(ts, holds, g);
    BagOfGroup(ts, holds, JoinGroup(g, s));
    BagUpdate(holds, out, k, JoinGroup(g, s));
    var peeled := if holds(g.test) then BagOf(holds, r) else multiset{};
    assert Bag(holds, out[k := JoinGroup(g, s)]) == Bag(holds, out) + peeled;
    BothEqual(Bag(holds, out), Bag(holds, out), peeled, BagOf(holds, s));
  }

  lemma PeeledSlots(kids: seq<Filter>, r: Filter)
    requires SlotsOk(kids, 0) && r.statsType == Counter && (r.statsPos > 0 || kids == [])
    ensures SlotsOk(kids + [r], 0)
  {
    SlotsAppend(kids, [r], 0);
    assert [r][1..] == [];
  }

  lemma StartMeaning(ts: set<Test>, holds: Test -> bool, s: Filter)
    requires IsMulti(s) && LeafFirst(ts, s)
    ensures BagOf(holds, StartGroup(s)) <= BagOf(holds, s)
    ensures BagOf(holds, StartGroup(s)) == BagOf(holds, s) <==> Passes(holds, s)
    ensures forall i: nat :: SlotOk(StartGroup(s), i)
  {
    var r := RemoveFirst(s);
    BagPeel(ts, holds, s);
    Peel(ts, holds, s);
    BagOne(holds, r);
    BagOfGroup(ts, holds, StartGroup(s));
    assert [r][1..] == [];
    assert SlotsOk([r], 0);
  }

  /** One step adds at most the counter's own effects. */
  lemma {:induction false} StepMeaning(ts: set<Test>, holds: Test -> bool,
      stats: seq<Filter>, i: nat, out: seq<Filter>, g: Option<nat>, n: nat)
    requires KeysDecide(holds, ts) && i < |stats| && OpenGroup(ts, out, g)
    requires SizeAll(out) <= n && PeelsStep(Everywhere(), LeafFirsts(ts), stats, i, out, g, n)
    requires SlotsOk(out, 0) && SlotOk(stats[i], i) && (i == 0 ==> out == [])
    ensures var (out', g') := Step(stats, i, out, g, n);
            && OpenGroup(ts, out', g') && SlotsOk(out', 0)
            && Bag(holds, out') <= Bag(holds, out) + BagOf(holds, stats[i])
            && (Bag(holds, out') == Bag(holds, out) + BagOf(holds, stats[i]) <==>
                PeelsStep(holds, Passing(holds), stats, i, out, g, n))
    decreases n, 1, 0
  {
    hide KeysDecide, Size, SizeAll, Equals, SameKey, RemoveFirst, Step, Nested, PeelsNested, Bag, BagOf, SlotOk, SlotsOk, Passes;
    var s := stats[i];
    StepKeeps(stats, i, out, g, n);
    if !IsMulti(s) {
      Appended(holds, out, s, i);
    } else if g.Some? && SameKey(out[g.value].test, s.kids[0].test) {
      SlotOfCounter(s, i);
      JoinMeaning(ts, holds, out, g.value, s);
    } else {
      NestedMeaning(ts, holds, out, g, n);
      var nested := Nested(out, g, n);
      var last := if Starts(stats, i) then StartGroup(s) else s;
      if Starts(stats, i) {
        StartMeaning(ts, holds, s);
      }
      Appended(holds, nested, last, i);
      BothEqual(Bag(holds, nested), Bag(holds, out), BagOf(holds, last), BagOf(holds, s));
    }
  }

  lemma {:induction false} LoopMeaning(ts: set<Test>, holds: Test -> bool,
      stats: seq<Filter>, i: nat, out: seq<Filter>, g: Option<nat>, n: nat)
    requires KeysDecide(holds, ts) && i <= |stats| && OpenGroup(ts, out, g)
    requires SizeAll(out) + SizeAll(stats[i..]) <= n && PeelsLoop(Everywhere(), LeafFirsts(ts), stats, i, out, g, n)
    requires SlotsOk(out, 0) && SlotsOk(stats[i..], i) && (i == 0 ==> out == [])
    ensures SlotsOk(Loop(stats, i, out, g, n), 0)
    ensures Bag(holds, Loop(stats, i, out, g, n)) <= Bag(holds, out) + Bag(holds, stats[i..])
    ensures Bag(holds, Loop(stats, i, out, g, n)) == Bag(holds, out) + Bag(holds, stats[i..]) <==>
            PeelsLoop(holds, Passing(holds), stats, i, out, g, n)
    decreases n, 2, |stats| - i
  {
    hide KeysDecide, Size, SizeAll, Nested, Step, PeelsNested, PeelsStep, BagOf, SlotOk;
    if i == |stats| {
      NestedMeaning(ts, holds, out, g, n);
      assert Bag(holds, stats[i..]) == multiset{};
    } else {
      assert stats[i..][0] == stats[i] && stats[i..][1..] == stats[i + 1..];
      StepSizes(stats, i, out, g);
      StepMeaning(ts, holds, stats, i, out, g, n);
      var (out', g') := Step(stats, i, out, g, n);
      LoopMeaning(ts, holds, stats, i + 1, out', g', n);
      var r, later := Loop(stats, i + 1, out', g', n), Bag(holds, stats[i + 1..]);
      Between(Bag(holds, r), Bag(holds, out') + later, Bag(holds, out) + BagOf(holds, stats[i]) + later);
      BothEqual(Bag(holds, out'), Bag(holds, out) + BagOf(holds, stats[i]), later, later);
    }
  }

  lemma Between(a: multiset<Touch>, b: multiset<Touch>, c: multiset<Touch>)
    ensures a <= b && b <= c ==> a <= c && (a == c <==> a == b && b == c)
  {
    if a <= b && b <= c && a == c {
      forall t: Touch
        ensures a[t] == b[t]
      {
      }
    }
  }

  lemma SlotOfCounter(s: Filter, i: nat)
    requires SlotOk(s, i) && s.statsType == Counter && i > 0
    ensures s.statsPos > 0
  {
  }

  lemma Appended(holds: Test -> bool, out: seq<Filter>, s: Filter, i: nat)
    requires SlotsOk(out, 0) && SlotOk(s, i) && (i == 0 ==> out == [])
    ensures SlotsOk(out + [s], 0)
    ensures Bag(holds, out + [s]) == Bag(holds, out) + BagOf(holds, s)
  {
    BagAppend(holds, out, [s]);
    BagOne(holds, s);
    SlotsAppend(out, [s], 0);
    assert [s][1..] == [];
  }

  // -------------------------------------------------------------- main result

  /** The stats of a request as parsed: no groups yet, no slots assigned. */
  predicate Parsed(stats: seq<Filter>) {
    forall i :: 0 <= i < |stats| ==> stats[i].statsType != StatsGroup && stats[i].statsPos == 0
  }

  /** Unoptimised, counter i touches slot i only. */
  lemma {:induction false} FlatTouches(holds: Test -> bool, stats: seq<Filter>, i: nat)
    requires Parsed(stats)
    ensures var ts := Touches(holds, stats, i);
            && (forall k :: 0 <= k < |ts| ==> i <= ts[k].pos < i + |stats|)
            && Distinct(ts)
  {
    hide Match;
    if stats != [] {
      FlatTouches(holds, stats[1..], i + 1);
    }
  }

  lemma {:induction false} RenumberTouches(holds: Test -> bool, stats: seq<Filter>, numbered: seq<Filter>, i: nat)
    requires Parsed(stats) && |numbered| == |stats|
    requires forall k :: 0 <= k < |stats| ==> numbered[k] == stats[k].(statsPos := i + k)
    ensures Touches(holds, numbered, i) == Touches(holds, stats, i)
    ensures SlotsOk(numbered, i)
  {
    if stats != [] {
      assert Match(holds, numbered[0]) == Match(holds, stats[0]);
      RenumberTouches(holds, stats[1..], numbered[1..], i + 1);
    }
  }

  /** The guard that taking a counter apart lacks: it begins with a plain test and
      is a conjunction, or repeats that one test. */
  predicate PeelOk(ts: set<Test>, s: Filter) {
    LeafFirst(ts, s) && (s.group == And || AllSameTest(s))
  }

  predicate AllSameTest(s: Filter)
    requires s.kids != []
  {
    forall k :: k in s.kids ==> k.group == NoGroup && !k.negate && k.test == s.kids[0].test
  }

  /** The guard would hold wherever the regrouping takes a counter apart. */
  ghost predicate Sound(ts: set<Test>, stats: seq<Filter>) {
    Peels(Everywhere(), PeelOks(ts), stats)
  }

  function PeelOks(ts: set<Test>): Filter -> bool {
    s => PeelOk(ts, s)
  }

  lemma PeelOkPasses(ts: set<Test>, holds: Test -> bool, s: Filter)
    requires PeelOk(ts, s)
    ensures Passes(holds, s)
  {
    var first, r := s.kids[0], RemoveFirst(s);
    assert forall k :: k in s.kids <==> k == first || k in s.kids[1..];
    assert s.kids[1] in s.kids;
    assert Match(holds, first) == holds(first.test);
    if |s.kids| == 2 {
      assert s.kids[1..] == [s.kids[1]];
      assert Match(holds, r) == Match(holds, s.kids[1]);
    } else {
      assert r.kids[0] == s.kids[1];
    }
    if s.group == Or {
      assert forall k :: k in s.kids ==> Match(holds, k) == holds(first.test);
    }
  }

  /** Under the guard the regrouped list has the same effects, whatever the tests say. */
  lemma SoundMeaning(ts: set<Test>, holds: Test -> bool, stats: seq<Filter>)
    requires KeysDecide(holds, ts) && Sound(ts, stats) && SlotsOk(stats, 0)
    ensures SlotsOk(Regroup(stats), 0)
    ensures Bag(holds, Regroup(stats)) == Bag(holds, stats)
  {
    hide Peels, SlotsOk, Bag, KeysDecide, Match;
    forall s | PeelOk(ts, s)
      ensures Passes(holds, s)
    {
      PeelOkPasses(ts, holds, s);
    }
    hide Passes, LeafFirst;
    PeelsWeaken(Everywhere(), Everywhere(), PeelOks(ts), LeafFirsts(ts), stats);
    PeelsWeaken(Everywhere(), holds, PeelOks(ts), Passing(holds), stats);
    RegroupMeaning(ts, holds, stats);
  }

  /** Counting a row over the regrouped counters leaves every result slot as
      counting over the flat list does, whenever the guard holds and the tests
      that compare equal have equal outcomes. */
  lemma RegroupPreservesCounts(ts: set<Test>, holds: Test -> bool, value: Test -> real, stats: seq<Filter>, res: seq<Acc>)
    requires Parsed(stats) && |res| == |stats|
    requires KeysDecide(holds, ts) && Sound(ts, Renumber(stats))
    ensures var flat, grouped := Touches(holds, stats, 0), Touches(holds, Regroup(Renumber(stats)), 0);
            && InRange(flat, |res|) && InRange(grouped, |res|)
            && ApplyAll(value, grouped, res) == ApplyAll(value, flat, res)
  {
    hide Match, ApplyAll, Touches, SlotsOk, Bag, Regroup, Sound, KeysDecide;
    var numbered := Renumber(stats);
    FlatTouches(holds, stats, 0);
    RenumberTouches(holds, stats, numbered, 0);
    SoundMeaning(ts, holds, numbered);
    TouchesBag(holds, numbered, 0);
    TouchesBag(holds, Regroup(numbered), 0);
    TouchOrder(value, Touches(holds, stats, 0), Touches(holds, Regroup(numbered), 0), res);
  }
}
