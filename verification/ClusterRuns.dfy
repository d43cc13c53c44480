/** Whole runs of a cluster node: assignments change, sub peers come and go, and
    the peers that run follow the assignment. */
module ClusterRuns {
  import opened Lists
  import opened Cluster

  datatype State = State(owned: seq<string>, calls: seq<Event>, peers: Peers)

  datatype Step =
    | Update(ours: seq<string>)
    | AddSubPeer(parent: string, id: string)
    | RemoveSubPeer(id: string)

  ghost predicate Configured(backends: seq<string>, peers: Peers) {
    && (forall b :: b in backends && b != "" ==> b in peers && peers[b] == "")
    && !IsSub(peers, "")
  }

  ghost predicate Init(backends: seq<string>, s: State) {
    s.owned == [] && s.calls == [] && Configured(backends, s.peers)
  }

  /** One call of updateBackends, or one sub peer found or lost by its parent. */
  ghost predicate Next(backends: seq<string>, s: State, t: State, step: Step) {
    match step
    case Update(ours) =>
      && (forall b :: b in ours ==> b in backends && b != "")
      && t.peers == s.peers
      && WithSubPeers(s.peers, ours, t.owned)
      && t.calls == s.calls + Changes(backends, s.owned, t.owned)
    case AddSubPeer(parent, id) =>
      && id !in s.peers && id != "" && parent in s.peers && parent != ""
      && t == State(s.owned + [id], s.calls + (if Running(s.calls, parent) then [Started(id)] else []),
                    s.peers[id := parent])
    case RemoveSubPeer(id) =>
      && IsSub(s.peers, id)
      && t == State(s.owned, s.calls + [Stopped(id)], s.peers - {id})
  }

  ghost predicate CanStep(backends: seq<string>, s: State, t: State) {
    exists step :: Next(backends, s, t, step)
  }

  ghost predicate IsRun(backends: seq<string>, run: seq<State>) {
    && run != []
    && Init(backends, run[0])
    && forall i :: 0 <= i < |run| - 1 ==> CanStep(backends, run[i], run[i + 1])
  }

  /** A backend runs exactly while it is assigned, and no call came at a wrong time. */
  ghost predicate Follows(backends: seq<string>, s: State) {
    && Configured(backends, s.peers)
    && "" !in s.owned
    && (forall b :: b in backends && b != "" ==> (Running(s.calls, b) <==> b in s.owned))
    && (forall id :: Running(s.calls, id) ==> id in s.peers)
    && NoDoubleStart(s.calls)
    && NoIdleStop(backends, s.calls)
  }

  // ----------------------------------------------------------- adding calls

  lemma RunningSnoc(log: seq<Event>, e: Event, id: string)
    ensures Running(log + [e], id) <==> if e.id == id then e.Started? else Running(log, id)
  {
    assert (log + [e])[..|log|] == log;
  }

  /** A call at the right time keeps the history right. */
  lemma OneCall(backends: seq<string>, log: seq<Event>, e: Event)
    requires NoDoubleStart(log) && NoIdleStop(backends, log)
    requires e.Started? ==> !Running(log, e.id)
    requires e.Stopped? && e.id in backends ==> Running(log, e.id)
    ensures NoDoubleStart(log + [e]) && NoIdleStop(backends, log + [e])
  {
    hide Running;
    forall i | 0 <= i < |log + [e]|
      ensures (log + [e])[..i] == log[..i]
    {
    }
    assert log[..|log|] == log;
  }

  ghost predicate DistinctIds(calls: seq<Event>) {
    forall i, j :: 0 <= i < j < |calls| ==> calls[i].id != calls[j].id
  }

  ghost predicate Timely(backends: seq<string>, log: seq<Event>, calls: seq<Event>) {
    forall e :: e in calls ==>
      && (e.Started? ==> !Running(log, e.id))
      && (e.Stopped? && e.id in backends ==> Running(log, e.id))
  }

  /** Calls on different peers do not interfere. */
  lemma {:induction false} ManyCalls(backends: seq<string>, log: seq<Event>, calls: seq<Event>)
    requires NoDoubleStart(log) && NoIdleStop(backends, log)
    requires DistinctIds(calls) && Timely(backends, log, calls)
    ensures NoDoubleStart(log + calls) && NoIdleStop(backends, log + calls)
    ensures forall id :: Running(log + calls, id) <==>
              Started(id) in calls || (Running(log, id) && Stopped(id) !in calls)
  {
    hide NoDoubleStart, NoIdleStop, Running;
    if calls == [] {
      assert log + calls == log;
    } else {
      var n := |calls| - 1;
      var front, e := calls[..n], calls[n];
      assert calls == front + [e];
      assert log + calls == (log + front) + [e];
      ManyCalls(backends, log, front);
      assert forall x :: x in front ==> x.id != e.id;
      forall id
        ensures Running(log + calls, id) <==> if e.id == id then e.Started? else Running(log + front, id)
      {
        RunningSnoc(log + front, e, id);
      }
      assert e in calls;
      OneCall(backends, log + front, e);
    }
  }

  lemma {:induction false} MatchesDistinct(xs: seq<string>, p: string -> bool)
    requires DistinctNames(xs) && !p("")
    ensures NoDup(Matches(p, xs))
  {
    if xs != [] {
      var n := |xs| - 1;
      MatchesDistinct(xs[..n], p);
      MatchesMembers(p, xs[..n]);
      assert forall i :: 0 <= i < n && xs[i] == xs[n] ==> xs[n] == "";
      assert forall i :: 0 <= i < |Matches(p, xs[..n])| ==> Matches(p, xs[..n])[i] in xs[..n];
    }
  }

  /** The calls of one update: exactly one for each backend that changes hands. */
  lemma ChangesIn(backends: seq<string>, before: seq<string>, now: seq<string>)
    ensures forall id :: Started(id) in Changes(backends, before, now) <==> id in backends && id in now && id !in before
    ensures forall id :: Stopped(id) in Changes(backends, before, now) <==> id in backends && id in before && id !in now
    ensures DistinctNames(backends) && "" !in before && "" !in now ==> DistinctIds(Changes(backends, before, now))
  {
    var gained, dropped := Gained(backends, before, now), Dropped(backends, before, now);
    MatchesMembers(b => b in now && b !in before, backends);
    MatchesMembers(b => b in before && b !in now, backends);
    if DistinctNames(backends) && "" !in before && "" !in now {
      MatchesDistinct(backends, b => b in now && b !in before);
      MatchesDistinct(backends, b => b in before && b !in now);
    }
    hide Gained, Dropped, DistinctNames, NoDup;
    EventsIn(dropped, gained);
    if DistinctNames(backends) && "" !in before && "" !in now {
      EventsDistinct(dropped, gained);
    }
  }

  lemma EventsIn(dropped: seq<string>, gained: seq<string>)
    ensures forall id :: Started(id) in Stops(dropped) + Starts(gained) <==> id in gained
    ensures forall id :: Stopped(id) in Stops(dropped) + Starts(gained) <==> id in dropped
  {
    forall id | id in gained
      ensures Started(id) in Starts(gained)
    {
      var i :| 0 <= i < |gained| && gained[i] == id;
      assert Starts(gained)[i] == Started(id);
    }
    forall id | id in dropped
      ensures Stopped(id) in Stops(dropped)
    {
      var i :| 0 <= i < |dropped| && dropped[i] == id;
      assert Stops(dropped)[i] == Stopped(id);
    }
  }

  lemma EventsDistinct(dropped: seq<string>, gained: seq<string>)
    requires NoDup(dropped) && NoDup(gained)
    requires forall id :: id in dropped ==> id !in gained
    ensures DistinctIds(Stops(dropped) + Starts(gained))
  {
    var all := Stops(dropped) + Starts(gained);
    var ids := dropped + gained;
    assert |all| == |ids| && forall i :: 0 <= i < |all| ==> all[i].id == ids[i];
    forall i, j | 0 <= i < j < |ids|
      ensures ids[i] != ids[j]
    {
      if i < |dropped| <= j {
        assert ids[i] in dropped && ids[j] in gained;
      }
    }
  }

  // ------------------------------------------------------------- every step

  lemma UpdateFollows(backends: seq<string>, s: State, t: State, ours: seq<string>)
    requires DistinctNames(backends) && Follows(backends, s) && Next(backends, s, t, Update(ours))
    ensures Follows(backends, t)
  {
    OnlySubsAdded(s.peers, ours, t.owned, "");
    hide Running, NoDoubleStart, NoIdleStop, WithSubPeers;
    var calls := Changes(backends, s.owned, t.owned);
    ChangesIn(backends, s.owned, t.owned);
    hide Changes;
    forall e | e in calls
      ensures e.Started? ==> !Running(s.calls, e.id)
      ensures e.Stopped? && e.id in backends ==> Running(s.calls, e.id)
    {
      assert e == Started(e.id) || e == Stopped(e.id);
    }
    ManyCalls(backends, s.calls, calls);
  }

  lemma SubPeerFollows(backends: seq<string>, s: State, t: State, step: Step)
    requires Follows(backends, s) && !step.Update? && Next(backends, s, t, step)
    ensures Follows(backends, t)
  {
    hide Running, NoDoubleStart, NoIdleStop;
    if t.calls == s.calls {
      assert Configured(backends, t.peers);
    } else {
      var e := if step.AddSubPeer? then Started(step.id) else Stopped(step.id);
      assert t.calls == s.calls + [e];
      assert e.id !in backends;
      OneCall(backends, s.calls, e);
      forall id
        ensures Running(t.calls, id) <==> if e.id == id then e.Started? else Running(s.calls, id)
      {
        RunningSnoc(s.calls, e, id);
      }
    }
  }

  /** In every state of every run, a configured backend runs exactly while it is
      assigned to this node, no peer was started while running and no backend was
      stopped while standing still. */
  lemma {:induction false} RunFollowsAssignment(backends: seq<string>, run: seq<State>, i: nat)
    requires DistinctNames(backends) && IsRun(backends, run) && i < |run|
    ensures Follows(backends, run[i])
  {
    if i > 0 {
      RunFollowsAssignment(backends, run, i - 1);
      assert CanStep(backends, run[i - 1], run[i - 1 + 1]);
      var step :| Next(backends, run[i - 1], run[i], step);
      if step.Update? {
        UpdateFollows(backends, run[i - 1], run[i], step.ours);
      } else {
        SubPeerFollows(backends, run[i - 1], run[i], step);
      }
    }
  }

  // ------------------------------------------------------ distinct, and only then

  /** A name listed twice would be started twice in a row. */
  lemma DuplicateStartsTwice(backends: seq<string>, i: nat, j: nat) returns (run: seq<State>)
    requires i < j < |backends| && backends[i] == backends[j] != ""
    ensures IsRun(backends, run) && !NoDoubleStart(run[|run| - 1].calls)
  {
    hide Init, Next, Changes, NoDoubleStart, IsRun;
    var s, t := FirstStates(backends, backends[i]);
    run := [s, t];
    TwoStates(backends, s, t, Update([backends[i]]));
    DuplicateCalls(backends, i, j);
    TwoStarts(t.calls, backends[i]);
  }

  lemma TwoStates(backends: seq<string>, s: State, t: State, step: Step)
    requires Init(backends, s) && Next(backends, s, t, step)
    ensures IsRun(backends, [s, t])
  {
    hide Init, Next;
    assert CanStep(backends, s, t);
  }

  /** A first assignment of one backend. */
  lemma FirstStates(backends: seq<string>, b: string) returns (s: State, t: State)
    requires b in backends && b != ""
    ensures Init(backends, s) && Next(backends, s, t, Update([b])) && t.calls == Changes(backends, [], [b])
  {
    hide Changes;
    var peers := map x | x in backends :: "";
    var calls := Changes(backends, [], [b]);
    s, t := State([], [], peers), State([b], calls, peers);
    assert [] + calls == calls;
  }

  lemma DuplicateCalls(backends: seq<string>, i: nat, j: nat)
    requires i < j < |backends| && backends[i] == backends[j]
    ensures var calls := Changes(backends, [], [backends[i]]);
            |calls| >= 2 && calls[0] == calls[1] == Started(backends[i])
  {
    GainedTwice(backends, i, j);
    NoneDropped(backends, backends[i]);
    hide Gained, Dropped;
    assert Stops([]) == [];
  }

  lemma GainedTwice(backends: seq<string>, i: nat, j: nat)
    requires i < j < |backends| && backends[i] == backends[j]
    ensures var gained := Gained(backends, [], [backends[i]]);
            |gained| >= 2 && gained[0] == gained[1] == backends[i]
  {
    var b := backends[i];
    var p: string -> bool := x => x in [b] && x !in [];
    var left, right := backends[..i + 1], backends[i + 1..];
    MatchesAppend(p, left, right);
    assert backends == left + right;
    MatchesMembers(p, left);
    MatchesMembers(p, right);
    MatchesMembers(p, backends);
    hide Matches;
    assert left[i] in left && right[j - i - 1] in right;
    assert b in Matches(p, left) && b in Matches(p, right);
    var gained := Matches(p, backends);
    assert forall k :: 0 <= k < |gained| ==> gained[k] in gained;
  }

  lemma {:induction false} NoneDropped(backends: seq<string>, b: string)
    ensures Dropped(backends, [], [b]) == []
  {
    if backends != [] {
      NoneDropped(backends[..|backends| - 1], b);
    }
  }

  lemma TwoStarts(calls: seq<Event>, b: string)
    requires |calls| >= 2 && calls[0] == calls[1] == Started(b)
    ensures !NoDoubleStart(calls)
  {
    assert calls[..1] == [Started(b)];
    assert Running(calls[..1], calls[1].id);
  }

  /** Runs are free of double starts exactly when no name is listed twice, which
      the program checks before it creates any peer. */
  lemma NoDoubleStartIff(backends: seq<string>)
    ensures DistinctNames(backends) <==> forall run: seq<State> :: IsRun(backends, run) ==> NoDoubleStart(run[|run| - 1].calls)
  {
    if DistinctNames(backends) {
      forall run: seq<State> | IsRun(backends, run)
        ensures NoDoubleStart(run[|run| - 1].calls)
      {
        RunFollowsAssignment(backends, run, |run| - 1);
      }
    } else {
      var i, j :| 0 <= i < j < |backends| && backends[i] == backends[j] && backends[i] != "";
      var run := DuplicateStartsTwice(backends, i, j);
      assert IsRun(backends, run);
    }
  }

  // ---------------------------------------------------------- the whole cluster

  /** If the online nodes last redistributed on the same view, each named backend
      runs on exactly one of them. */
  lemma ExactlyOneRuns(backends: seq<string>, on: seq<bool>, states: seq<State>, b: string) returns (owner: nat)
    requires DistinctNames(backends) && CountTrue(on) > 0 && |states| == |on|
    requires forall i :: 0 <= i < |on| && on[i] ==>
               Follows(backends, states[i]) && WithSubPeers(states[i].peers, Assignment(backends, on)[i], states[i].owned)
    requires b in backends && b != ""
    ensures owner < |on| && on[owner]
    ensures forall i :: 0 <= i < |on| && on[i] ==> (Running(states[i].calls, b) <==> i == owner)
  {
    hide Running, NoDoubleStart, NoIdleStop, CountTrue, Assigned;
    owner := OneOwner(backends, on, b);
    forall i | 0 <= i < |on| && on[i]
      ensures b in states[i].owned <==> b in Assignment(backends, on)[i]
    {
      OnlySubsAdded(states[i].peers, Assignment(backends, on)[i], states[i].owned, b);
    }
  }

  lemma OnlySubsAdded(peers: Peers, ours: seq<string>, now: seq<string>, b: string)
    requires WithSubPeers(peers, ours, now) && !IsSub(peers, b)
    ensures b in now <==> b in ours
  {
    if b in now {
      var i :| 0 <= i < |now| && now[i] == b;
      assert i < |ours|;
      assert ours[i] == b;
    }
  }
}
