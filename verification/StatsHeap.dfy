/** The stats optimiser as it works: on filter objects, rewriting their member
    lists, types and slots in place. */
module StatsHeap {
  import opened Text
  import opened Filters
  import S = StatsGroups

  class Node {
    var test: Test
    var negate: bool
    var group: GroupOperator
    var kids: seq<Node>
    var statsType: StatsType
    var statsPos: nat
  }

  // ------------------------------------------------------- trees of objects

  /** The tree formed by an object and its members. */
  datatype Shape = Shape(obj: Node, kids: seq<Shape>)

  function Roots(ss: seq<Shape>): seq<Node> {
    seq(|ss|, i requires 0 <= i < |ss| => ss[i].obj)
  }

  ghost function Objs(s: Shape): set<Node>
    decreases s, 1
  {
    {s.obj} + ObjsAll(s.kids)
  }

  ghost function ObjsAll(ss: seq<Shape>): (r: set<Node>)
    ensures forall i :: 0 <= i < |ss| ==> Objs(ss[i]) <= r
    decreases ss, 0
  {
    if ss == [] then {}
    else
      var head, rest := Objs(ss[0]), ObjsAll(ss[1..]);
      assert forall i :: 1 <= i < |ss| ==> ss[i] == ss[1..][i - 1];
      head + rest
  }

  lemma {:induction false} ObjsMember(ss: seq<Shape>, o: Node)
    requires o in ObjsAll(ss)
    ensures exists i :: 0 <= i < |ss| && o in Objs(ss[i])
  {
    if o !in Objs(ss[0]) {
      ObjsMember(ss[1..], o);
      var i :| 0 <= i < |ss[1..]| && o in Objs(ss[1..][i]);
      assert ss[i + 1] == ss[1..][i];
    }
  }

  lemma ObjsSubset(ss: seq<Shape>, big: set<Node>)
    requires forall i :: 0 <= i < |ss| ==> Objs(ss[i]) <= big
    ensures ObjsAll(ss) <= big
  {
    forall o | o in ObjsAll(ss)
      ensures o in big
    {
      ObjsMember(ss, o);
    }
  }

  /** Member lists are as the shape says and no object occurs twice. */
  ghost predicate Valid(s: Shape)
    reads Objs(s)
    decreases s, 1
  {
    && s.obj !in ObjsAll(s.kids)
    && s.obj.kids == Roots(s.kids)
    && ValidAll(s.kids)
  }

  ghost predicate ValidAll(ss: seq<Shape>)
    reads ObjsAll(ss)
    decreases ss, 0
  {
    && (forall i :: 0 <= i < |ss| ==> Valid(ss[i]))
    && Apart(ss)
  }

  ghost predicate Apart(ss: seq<Shape>) {
    forall i, j :: 0 <= i < j < |ss| ==> Objs(ss[i]) !! Objs(ss[j])
  }

  /** The filter value an object stands for. */
  ghost function View(s: Shape): Filter
    reads Objs(s)
    decreases s, 1
  {
    Filter(s.obj.test, s.obj.negate, s.obj.group, ViewAll(s.kids), s.obj.statsType, s.obj.statsPos)
  }

  ghost function ViewAll(ss: seq<Shape>): (r: seq<Filter>)
    reads ObjsAll(ss)
    ensures |r| == |ss|
    ensures forall i :: 0 <= i < |ss| ==> r[i] == View(ss[i])
    decreases ss, 0
  {
    seq(|ss|, i requires 0 <= i < |ss| reads ObjsAll(ss) => View(ss[i]))
  }

  // The definitions above, one level at a time.

  lemma ObjsOf(s: Shape)
    ensures Objs(s) == {s.obj} + ObjsAll(s.kids)
    ensures forall k :: 0 <= k < |s.kids| ==> Objs(s.kids[k]) <= Objs(s) && s.kids[k].obj in Objs(s.kids[k])
  {
  }

  lemma Open(s: Shape)
    requires Valid(s)
    ensures s.obj !in ObjsAll(s.kids) && s.obj.kids == Roots(s.kids) && Apart(s.kids)
    ensures |s.obj.kids| == |s.kids|
    ensures forall k :: 0 <= k < |s.kids| ==> s.obj.kids[k] == s.kids[k].obj && Valid(s.kids[k])
  {
    assert ValidAll(s.kids);
  }

  lemma Close(s: Shape)
    requires s.obj !in ObjsAll(s.kids) && s.obj.kids == Roots(s.kids) && Apart(s.kids)
    requires forall k :: 0 <= k < |s.kids| ==> Valid(s.kids[k])
    ensures Valid(s)
  {
    assert ValidAll(s.kids);
  }

  lemma ViewOf(s: Shape)
    ensures View(s) == Filter(s.obj.test, s.obj.negate, s.obj.group, ViewAll(s.kids), s.obj.statsType, s.obj.statsPos)
    ensures |View(s).kids| == |s.kids|
    ensures forall k :: 0 <= k < |s.kids| ==> View(s).kids[k] == View(s.kids[k])
  {
  }

  /** Some trees, existing objects around them, and those of the objects that changed. */
  datatype Frame = Frame(ss: set<Shape>, foot: set<Node>, touched: set<Node>)

  /** Trees apart from the changed objects are valid and valued as before. */
  twostate lemma Same(f: Frame)
    requires forall o :: o in f.foot && o !in f.touched ==> unchanged(o)
    ensures forall s :: s in f.ss && Objs(s) <= f.foot && Objs(s) !! f.touched ==>
      Valid(s) == old(Valid(s)) && View(s) == old(View(s))
  {
  }

  /** The trees of a list, all but one. */
  ghost function Others(ss: seq<Shape>, skip: int): set<Shape> {
    set k | 0 <= k < |ss| && k != skip :: ss[k]
  }

  lemma OthersAt(ss: seq<Shape>, skip: int)
    ensures forall k :: 0 <= k < |ss| && k != skip ==> ss[k] in Others(ss, skip)
  {
  }

  lemma RootsOf(ss: seq<Shape>, rs: seq<Node>)
    requires |ss| == |rs| && forall k :: 0 <= k < |ss| ==> ss[k].obj == rs[k]
    ensures Roots(ss) == rs
  {
  }

  // ------------------------------------------------------------- small steps

  /** Two objects make the same comparison, members included. */
  method EqualNodes(f: Node, o: Node, ghost fs: Shape, ghost os: Shape, ghost foot: set<Node>) returns (b: bool)
    requires fs.obj == f && os.obj == o && Valid(fs) && Valid(os)
    requires Objs(fs) <= foot && Objs(os) <= foot
    ensures b == S.Equals(old(View(fs)), old(View(os)))
    decreases fs, 1
  {
    hide Valid, View, Objs, ObjsAll;
    ViewOf(fs);
    ViewOf(os);
    Open(fs);
    Open(os);
    if !S.SameKey(f.test, o.test) || (f.test.Test? && f.test.floatValue != o.test.floatValue) ||
       f.negate != o.negate || f.statsType != o.statsType || f.group != o.group || |f.kids| != |o.kids| {
      return false;
    }
    ghost var vf, vo := View(fs), View(os);
    var i := 0;
    while i < |f.kids|
      invariant 0 <= i <= |f.kids| == |o.kids| == |vf.kids| == |vo.kids|
      invariant Valid(fs) && Valid(os) && View(fs) == vf && View(os) == vo
      invariant forall k :: 0 <= k < i ==> S.Equals(vf.kids[k], vo.kids[k])
    {
      b := EqualMembers(f, o, i, fs, os, foot);
      if !b {
        return;
      }
      i := i + 1;
    }
    return true;
  }

  method EqualMembers(f: Node, o: Node, i: nat, ghost fs: Shape, ghost os: Shape, ghost foot: set<Node>) returns (b: bool)
    requires fs.obj == f && os.obj == o && Valid(fs) && Valid(os) && i < |f.kids| == |o.kids|
    requires |View(fs).kids| == |View(os).kids| == |f.kids|
    requires Objs(fs) <= foot && Objs(os) <= foot
    ensures Valid(fs) && Valid(os) && View(fs) == old(View(fs)) && View(os) == old(View(os))
    ensures b == S.Equals(View(fs).kids[i], View(os).kids[i])
    decreases fs, 0
  {
    hide Valid, View, Objs, ObjsAll;
    Open(fs);
    Open(os);
    ViewOf(fs);
    ViewOf(os);
    ObjsOf(fs);
    ObjsOf(os);
    b := EqualNodes(f.kids[i], o.kids[i], fs.kids[i], os.kids[i], foot);
    Same(Frame({fs, os}, foot, {}));
  }

  /** Strips the first member, which the group takes over. */
  method RemoveFirst(s: Node, ghost sh: Shape) returns (r: Node, ghost rsh: Shape)
    requires sh.obj == s && Valid(sh) && |s.kids| >= 2
    modifies s, s.kids[1]
    ensures rsh.obj == r && Valid(rsh)
    ensures View(rsh) == S.RemoveFirst(old(View(sh)))
    ensures s.kids == old(s.kids)[1..] && s.group == old(s.group) && s.test == old(s.test)
    ensures Objs(rsh) <= Objs(sh) - Objs(sh.kids[0])
  {
    hide Valid, View, Objs, ObjsAll;
    Open(sh);
    ViewOf(sh);
    ObjsOf(sh);
    ghost var v := View(sh);
    ghost var rest := sh.kids[1..];
    assert forall i :: 0 <= i < |rest| ==> rest[i] == sh.kids[i + 1];
    if |s.kids| > 2 {
      ObjsSubset(rest, ObjsAll(sh.kids) - Objs(sh.kids[0]));
      s.kids := s.kids[1..];
      r, rsh := s, Shape(s, rest);
      RootsOf(rest, s.kids);
      Close(rsh);
      ViewOf(rsh);
      ObjsOf(rsh);
      assert View(rsh).kids == v.kids[1..];
    } else {
      s.kids := s.kids[1..];
      r, rsh := s.kids[0], sh.kids[1];
      Open(rsh);
      ViewOf(rsh);
      ObjsOf(rsh);
      ghost var kids := View(rsh).kids;
      r.statsPos := s.statsPos;
      r.statsType := Counter;
      Close(rsh);
      ViewOf(rsh);
      assert View(rsh).kids == kids;
    }
  }

  /** Adds a counter, without its first member, to the open group. */
  method JoinGroup(g: Node, s: Node, ghost gsh: Shape, ghost ssh: Shape, ghost foot: set<Node>)
      returns (ghost joined: Shape)
    requires Objs(gsh) <= foot && gsh.obj == g && Valid(gsh) && ssh.obj == s && Valid(ssh) && Objs(gsh) !! Objs(ssh)
    requires |s.kids| >= 2
    modifies g, s, s.kids[1]
    ensures joined.obj == g && Valid(joined)
    ensures View(joined) == S.JoinGroup(old(View(gsh)), old(View(ssh)))
    ensures s.kids == old(s.kids)[1..] && s.group == old(s.group) && s.test == old(s.test)
    ensures Objs(joined) <= Objs(gsh) + Objs(ssh)
  {
    hide Valid, View, Objs, ObjsAll, S.RemoveFirst;
    Open(ssh);
    ObjsOf(ssh);
    ViewOf(ssh);
    ObjsOf(gsh);
    ghost var v := View(gsh);
    ghost var rsh: Shape;
    var r;
    label Before:
    r, rsh := RemoveFirst(s, ssh);
    Same@Before(Frame({gsh}, foot, Objs(ssh)));
    Open(gsh);
    ViewOf(gsh);
    ghost var kids := gsh.kids + [rsh];
    joined := Shape(g, kids);
    ObjsSubset(kids, ObjsAll(gsh.kids) + Objs(rsh));
    g.kids := g.kids + [r];
    RootsOf(kids, g.kids);
    Close(joined);
    ViewOf(joined);
    ObjsOf(joined);
    assert View(joined).kids == v.kids + [View(rsh)];
  }

  /** Turns a counter's first member into a group that holds the rest. */
  method StartGroup(s: Node, ghost ssh: Shape) returns (group: Node, ghost gsh: Shape)
    requires ssh.obj == s && Valid(ssh) && |s.kids| >= 2
    modifies s, s.kids[0], s.kids[1]
    ensures gsh.obj == group && Valid(gsh)
    ensures View(gsh) == S.StartGroup(old(View(ssh)))
    ensures s.kids == old(s.kids)[1..] && s.group == old(s.group) && s.test == old(s.test)
    ensures Objs(gsh) <= Objs(ssh)
  {
    hide Valid, View, Objs, ObjsAll, S.RemoveFirst;
    Open(ssh);
    ObjsOf(ssh);
    ViewOf(ssh);
    ViewOf(ssh.kids[0]);
    group := s.kids[0];
    ghost var rsh: Shape;
    var r;
    r, rsh := RemoveFirst(s, ssh);
    group.statsType := StatsGroup;
    group.kids := [r];
    gsh := Shape(group, [rsh]);
    ObjsSubset([rsh], Objs(rsh));
    RootsOf([rsh], [r]);
    Close(gsh);
    ViewOf(gsh);
    ObjsOf(gsh);
    assert View(gsh).kids == [View(rsh)];
  }

  // ----------------------------------------------------------------- the scan

  ghost predicate Trees(ss: seq<Shape>, foot: set<Node>)
    reads foot
  {
    && Apart(ss)
    && (forall k :: 0 <= k < |ss| ==> Objs(ss[k]) <= foot && Valid(ss[k]))
  }

  /** Output list and remaining input: separate valid trees inside foot. */
  ghost predicate Run(out: seq<Shape>, rest: seq<Shape>, foot: set<Node>)
    reads foot
  {
    && Trees(out, foot) && Trees(rest, foot)
    && forall j, k :: 0 <= j < |out| && 0 <= k < |rest| ==> Objs(out[j]) !! Objs(rest[k])
  }

  /** The value list of the output. */
  ghost predicate Shows(out: seq<Shape>, fs: seq<Filter>)
    reads ObjsAll(out)
  {
    |fs| == |out| && forall k :: 0 <= k < |out| ==> View(out[k]) == fs[k]
  }

  /** An input still to come shows its specification, except for a slot that the
      scan has yet to assign. */
  predicate Ahead(v: Filter, spec: Filter, k: nat, renumber: bool) {
    if renumber then v.(statsPos := k) == spec else v == spec
  }

  ghost predicate Linked(lastGroup: Node?, g: Option<nat>, out: seq<Shape>) {
    if g.None? then lastGroup == null else g.value < |out| && lastGroup == out[g.value].obj
  }

  /** The open group takes the next counter. */
  method JoinStep(g: Node, s: Node, ghost k: nat, ghost out: seq<Shape>, ghost rest: seq<Shape>,
      ghost fs: seq<Filter>, ghost foot: set<Node>) returns (ghost out': seq<Shape>)
    requires Run(out, rest, foot) && Shows(out, fs)
    requires k < |out| && out[k].obj == g && |rest| > 0 && rest[0].obj == s
    requires |s.kids| >= 2 && |View(rest[0]).kids| >= 2
    modifies foot
    ensures Run(out', rest[1..], foot)
    ensures Shows(out', fs[k := S.JoinGroup(fs[k], old(View(rest[0])))])
    ensures Roots(out') == Roots(out)
    ensures forall j :: 1 <= j < |rest| ==> View(rest[j]) == old(View(rest[j]))
  {
    hide Valid, View, Objs, ObjsAll, S.JoinGroup;
    ghost var gsh, ssh := out[k], rest[0];
    ObjsOf(gsh);
    ObjsOf(ssh);
    Open(ssh);
    ghost var touched := Objs(gsh) + Objs(ssh);
    label Before:
    ghost var joined := JoinGroup(g, s, gsh, ssh, foot);
    OthersAt(out, k);
    OthersAt(rest, 0);
    Same@Before(Frame(Others(out, k) + Others(rest, 0), foot, touched));
    out' := out[k := joined];
  }

  /** The next counter opens a group of its own. */
  method StartStep(s: Node, ghost out: seq<Shape>, ghost rest: seq<Shape>,
      ghost fs: seq<Filter>, ghost foot: set<Node>) returns (group: Node, ghost out': seq<Shape>)
    requires Run(out, rest, foot) && Shows(out, fs)
    requires |rest| > 0 && rest[0].obj == s
    requires |s.kids| >= 2 && |View(rest[0]).kids| >= 2
    modifies foot
    ensures Run(out', rest[1..], foot)
    ensures Shows(out', fs + [S.StartGroup(old(View(rest[0])))])
    ensures Roots(out') == Roots(out) + [group]
    ensures forall j :: 1 <= j < |rest| ==> View(rest[j]) == old(View(rest[j]))
  {
    hide Valid, View, Objs, ObjsAll, S.StartGroup;
    ghost var ssh := rest[0];
    ObjsOf(ssh);
    Open(ssh);
    ghost var gsh: Shape;
    label Before:
    group, gsh := StartGroup(s, ssh);
    OthersAt(out, -1);
    OthersAt(rest, 0);
    Same@Before(Frame(Others(out, -1) + Others(rest, 0), foot, Objs(ssh)));
    out' := out + [gsh];
  }

  /** Regroups inside the open group, if there is one. */
  method NestedStep(lastGroup: Node?, ghost g: Option<nat>, ghost out: seq<Shape>, ghost rest: seq<Shape>,
      ghost fs: seq<Filter>, ghost n: nat, ghost foot: set<Node>) returns (ghost out': seq<Shape>)
    requires Run(out, rest, foot) && Shows(out, fs) && Linked(lastGroup, g, out)
    requires S.SizeAll(fs) <= n
    modifies foot
    ensures Run(out', rest, foot)
    ensures Shows(out', S.Nested(fs, g, n))
    ensures Roots(out') == Roots(out)
    ensures forall j :: 0 <= j < |rest| ==> View(rest[j]) == old(View(rest[j]))
    decreases n, 1, 0
  {
    hide Valid, View, Objs, ObjsAll, S.Regroup, S.SizeAll;
    out' := out;
    if lastGroup != null {
      ghost var k := g.value;
      ghost var gsh := out[k];
      ObjsOf(gsh);
      ViewOf(gsh);
      S.SizeUpdate(fs, k, fs[k]);
      label Before:
      ghost var r := RegroupNested(lastGroup, gsh, n, ObjsAll(gsh.kids), foot);
      OthersAt(out, k);
      OthersAt(rest, -1);
      Same@Before(Frame(Others(out, k) + Others(rest, -1), foot, Objs(gsh)));
      out' := out[k := r];
    }
  }

  method RegroupNested(group: Node, ghost gsh: Shape, ghost n: nat, ghost kidFoot: set<Node>, ghost foot: set<Node>)
      returns (ghost r: Shape)
    requires gsh.obj == group && Valid(gsh) && kidFoot == ObjsAll(gsh.kids) && Objs(gsh) <= foot
    requires S.SizeAll(View(gsh).kids) < n
    modifies group, kidFoot
    ensures r.obj == group && Valid(r) && Objs(r) <= Objs(gsh)
    ensures View(r) == old(View(gsh)).(kids := S.Regroup(old(View(gsh)).kids))
    decreases n, 0, 0
  {
    hide Valid, View, Objs, ObjsAll, S.Regroup, S.SizeAll;
    Open(gsh);
    ViewOf(gsh);
    ObjsOf(gsh);
    ghost var v := View(gsh);
    ghost var kids := gsh.kids;
    ghost var sub: seq<Shape>;
    var subgroup: Option<seq<Node>>;
    label Before:
    subgroup, sub := OptimizeStatsGroups(group.kids, false, kids, v.kids, S.SizeAll(v.kids), kidFoot);
    assert unchanged@Before(group);
    if subgroup.Some? {
      group.kids := subgroup.value;
    }
    r := Shape(group, sub);
    ObjsSubset(sub, kidFoot);
    Close(r);
    ViewOf(r);
    ObjsOf(r);
    RegroupShort(v.kids);
    assert View(r).kids == S.Regroup(v.kids);
  }

  lemma RegroupShort(fs: seq<Filter>)
    ensures |fs| <= 1 ==> S.Regroup(fs) == fs
  {
  }

  /** Assigns the next counter its slot. */
  method SetSlot(s: Node, i: nat, ghost out: seq<Shape>, ghost rest: seq<Shape>, ghost fs: seq<Filter>, ghost foot: set<Node>)
    requires Run(out, rest, foot) && Shows(out, fs) && |rest| > 0 && rest[0].obj == s
    modifies s
    ensures Run(out, rest, foot) && Shows(out, fs)
    ensures View(rest[0]) == old(View(rest[0])).(statsPos := i)
    ensures forall j :: 1 <= j < |rest| ==> View(rest[j]) == old(View(rest[j]))
  {
    hide Valid, View, Objs, ObjsAll;
    ghost var ssh := rest[0];
    ObjsOf(ssh);
    Open(ssh);
    ViewOf(ssh);
    ghost var kids := View(ssh).kids;
    label Before:
    s.statsPos := i;
    Close(ssh);
    ViewOf(ssh);
    assert View(ssh).kids == kids;
    OthersAt(out, -1);
    OthersAt(rest, 0);
    Same@Before(Frame(Others(out, -1) + Others(rest, 0), foot, {s}));
  }

  /** One counter of the scan. */
  method StepNode(stats: seq<Node>, i: nat, grouped: seq<Node>, lastGroup: Node?,
      ghost out: seq<Shape>, ghost shapes: seq<Shape>, ghost spec: seq<Filter>,
      ghost fs: seq<Filter>, ghost g: Option<nat>, ghost n: nat, ghost renumber: bool, ghost foot: set<Node>)
      returns (grouped': seq<Node>, lastGroup': Node?, ghost out': seq<Shape>)
    requires i < |stats| && stats == Roots(shapes) && |spec| == |stats|
    requires Run(out, shapes[i..], foot) && Shows(out, fs)
    requires grouped == Roots(out) && Linked(lastGroup, g, out)
    requires S.SizeAll(fs) <= n
    requires View(shapes[i]) == spec[i]
    requires forall k :: i < k < |stats| ==> Ahead(View(shapes[k]), spec[k], k, renumber)
    modifies foot
    ensures Run(out', shapes[i + 1..], foot)
    ensures Shows(out', S.Step(spec, i, fs, g, n).0)
    ensures grouped' == Roots(out') && Linked(lastGroup', S.Step(spec, i, fs, g, n).1, out')
    ensures |out'| <= |out| + 1
    ensures forall k :: i < k < |stats| ==> View(shapes[k]) == old(View(shapes[k]))
    decreases n, 3, 0
  {
    hide Valid, View, Objs, ObjsAll, S.SizeAll, S.Nested, S.Equals, S.RemoveFirst;
    ghost var rest := shapes[i..];
    assert rest[0] == shapes[i] && rest[1..] == shapes[i + 1..];
    assert forall k :: i <= k < |stats| ==> rest[k - i] == shapes[k];
    var s := stats[i];
    ghost var v := View(rest[0]);
    Open(rest[0]);
    ViewOf(rest[0]);
    grouped', lastGroup', out' := grouped, lastGroup, out;
    if s.statsType != Counter || s.test.Test? || |s.kids| < 2 {
      grouped', out' := grouped + [s], out + [rest[0]];
      return;
    }
    if lastGroup != null {
      ViewOf(out[g.value]);
      Open(rest[0].kids[0]);
      ViewOf(rest[0].kids[0]);
      if S.SameKey(lastGroup.test, s.kids[0].test) {
        out' := JoinStep(lastGroup, s, g.value, out, rest, fs, foot);
        LinkedRoots(lastGroup, g, out, out');
        return;
      }
    }
    grouped', lastGroup', out' := PlaceStep(s, if i + 1 < |stats| then stats[i + 1] else null, grouped, lastGroup,
                                            out, rest, fs, g, n, foot);
  }

  /** A counter the open group does not take: the group is regrouped inside,
      then the counter opens a group or is kept. */
  method PlaceStep(s: Node, next: Node?, grouped: seq<Node>, lastGroup: Node?,
      ghost out: seq<Shape>, ghost rest: seq<Shape>,
      ghost fs: seq<Filter>, ghost g: Option<nat>, ghost n: nat, ghost foot: set<Node>)
      returns (grouped': seq<Node>, lastGroup': Node?, ghost out': seq<Shape>)
    requires Run(out, rest, foot) && Shows(out, fs)
    requires grouped == Roots(out) && Linked(lastGroup, g, out)
    requires S.SizeAll(fs) <= n
    requires |rest| > 0 && rest[0].obj == s && |View(rest[0]).kids| >= 2
    requires next == if |rest| > 1 then rest[1].obj else null
    modifies foot
    ensures Run(out', rest[1..], foot) && |out'| == |out| + 1
    ensures var v, nested := old(View(rest[0])), S.Nested(fs, g, n);
            if |rest| > 1 && S.IsMulti(old(View(rest[1]))) && S.Equals(old(View(rest[1])).kids[0], v.kids[0]) then
              Shows(out', nested + [S.StartGroup(v)]) && Linked(lastGroup', Some(|nested|), out')
            else
              Shows(out', nested + [v]) && lastGroup' == lastGroup && Linked(lastGroup, g, out')
    ensures grouped' == Roots(out')
    ensures forall j :: 1 <= j < |rest| ==> View(rest[j]) == old(View(rest[j]))
    decreases n, 2, 0
  {
    hide Valid, View, Objs, ObjsAll, S.SizeAll, S.Nested, S.Equals, S.RemoveFirst;
    lastGroup' := lastGroup;
    out' := NestedStep(lastGroup, g, out, rest, fs, n, foot);
    ghost var nested := S.Nested(fs, g, n);
    Open(rest[0]);
    ViewOf(rest[0]);
    LinkedRoots(lastGroup, g, out, out');
    var starts := false;
    if next != null {
      starts := StartsHere(s, next, rest, foot);
    }
    if starts {
      var group;
      group, out' := StartStep(s, out', rest, nested, foot);
      assert Roots(out')[|nested|] == out'[|nested|].obj;
      grouped', lastGroup' := grouped + [group], group;
    } else {
      grouped', out' := grouped + [s], out' + [rest[0]];
    }
  }

  lemma LinkedRoots(lastGroup: Node?, g: Option<nat>, out: seq<Shape>, out': seq<Shape>)
    requires Linked(lastGroup, g, out) && Roots(out') == Roots(out)
    ensures |out'| == |out| && Linked(lastGroup, g, out')
  {
    assert |Roots(out')| == |Roots(out)|;
    if g.Some? {
      assert Roots(out')[g.value] == Roots(out)[g.value];
    }
  }

  /** Does the next counter begin with the same filter? */
  method StartsHere(s: Node, next: Node, ghost rest: seq<Shape>, ghost foot: set<Node>) returns (b: bool)
    requires |rest| >= 2 && Trees(rest, foot) && rest[0].obj == s && rest[1].obj == next && |s.kids| >= 2
    ensures |View(rest[0]).kids| >= 2
    ensures b == (S.IsMulti(View(rest[1])) && S.Equals(View(rest[1]).kids[0], View(rest[0]).kids[0]))
  {
    hide Valid, View, Objs, ObjsAll, S.Equals;
    Open(rest[0]);
    ViewOf(rest[0]);
    ObjsOf(rest[0]);
    Open(rest[1]);
    ViewOf(rest[1]);
    ObjsOf(rest[1]);
    if next.statsType != Counter || next.test.Test? || |next.kids| < 2 {
      return false;
    }
    label Before:
    b := EqualNodes(next.kids[0], s.kids[0], rest[1].kids[0], rest[0].kids[0], foot);
    Same@Before(Frame({rest[0], rest[1]}, foot, {}));
    ViewOf(rest[0]);
    ViewOf(rest[1]);
  }

  /** Nests counters that begin with the same test; None keeps the list. */
  method OptimizeStatsGroups(stats: seq<Node>, renumber: bool,
      ghost shapes: seq<Shape>, ghost spec: seq<Filter>, ghost n: nat, ghost foot: set<Node>)
      returns (res: Option<seq<Node>>, ghost out: seq<Shape>)
    requires stats == Roots(shapes) && Trees(shapes, foot)
    requires |spec| == |stats| && n == S.SizeAll(spec)
    requires forall k :: 0 <= k < |stats| ==> Ahead(View(shapes[k]), spec[k], k, renumber)
    modifies foot
    ensures Trees(out, foot) && |out| <= |shapes|
    ensures |stats| <= 1 ==> res == None && out == shapes && forall k :: 0 <= k < |out| ==> View(out[k]) == old(View(shapes[k]))
    ensures |stats| > 1 ==> res == Some(Roots(out)) && Shows(out, S.Regroup(spec))
    decreases n, 4, 0
  {
    hide Valid, View, Objs, ObjsAll, S.SizeAll, S.Step, S.Nested, S.Loop, S.Regroup;
    out := shapes;
    if |stats| <= 1 {
      return None, shapes;
    }
    var grouped: seq<Node> := [];
    var lastGroup: Node? := null;
    ghost var g: Option<nat> := None;
    ghost var fs: seq<Filter> := [];
    out := [];
    var i := 0;
    S.SizeEmpty();
    assert shapes[0..] == shapes && spec[0..] == spec;
    S.RegroupIsLoop(spec);
    while i < |stats|
      invariant i <= |stats| && |out| <= i
      invariant Run(out, shapes[i..], foot) && Shows(out, fs)
      invariant grouped == Roots(out) && Linked(lastGroup, g, out)
      invariant S.SizeAll(fs) + S.SizeAll(spec[i..]) <= n
      invariant S.Loop(spec, i, fs, g, n) == S.Regroup(spec)
      invariant forall k :: i <= k < |stats| ==> Ahead(View(shapes[k]), spec[k], k, renumber)
    {
      ghost var rest := shapes[i..];
      assert rest[0] == shapes[i] && rest[1..] == shapes[i + 1..];
      assert forall k :: i <= k < |stats| ==> rest[k - i] == shapes[k];
      S.StepSizes(spec, i, fs, g);
      S.LoopNext(spec, i, fs, g, n);
      var s := stats[i];
      ObjsOf(rest[0]);
      if renumber {
        SetSlot(s, i, out, rest, fs, foot);
      }
      ghost var fs', g' := S.Step(spec, i, fs, g, n).0, S.Step(spec, i, fs, g, n).1;
      grouped, lastGroup, out := StepNode(stats, i, grouped, lastGroup, out, shapes, spec, fs, g, n, renumber, foot);
      fs, g := fs', g';
      i := i + 1;
    }
    S.LoopEnd(spec, fs, g, n);
    out := NestedStep(lastGroup, g, out, [], fs, n, foot);
    res := Some(grouped);
  }

  /** The optimiser's entry point: the grouped objects stand for the regrouped,
      renumbered values of the request's counters. */
  method OptimizeRequestStats(stats: seq<Node>, ghost shapes: seq<Shape>, ghost foot: set<Node>)
      returns (grouped: Option<seq<Node>>, ghost out: seq<Shape>)
    requires stats == Roots(shapes) && Trees(shapes, foot)
    modifies foot
    ensures Trees(out, foot)
    ensures |stats| <= 1 ==> grouped == None
    ensures |stats| > 1 ==> grouped == Some(Roots(out)) && Shows(out, S.Regroup(S.Renumber(old(ViewAll(shapes)))))
  {
    hide Valid, View, Objs, ObjsAll, S.SizeAll, S.Regroup;
    ghost var spec := S.Renumber(ViewAll(shapes));
    grouped, out := OptimizeStatsGroups(stats, true, shapes, spec, S.SizeAll(spec), foot);
  }
}
