/** Cluster mode: backends are dealt out to the online nodes in chunks, and each
    node starts and stops its peers by comparing old and new assignment. */
module Cluster {
  import opened Lists

  datatype Node = Node(id: string, url: string, isMe: bool)

  // ------------------------------------------------------------------- names

  /** No name is listed twice; blanks in the list are skipped everywhere. */
  ghost predicate DistinctNames(xs: seq<string>) {
    forall i, j :: 0 <= i < j < |xs| && xs[i] == xs[j] ==> xs[i] == ""
  }

  function NonEmpty(xs: seq<string>): (r: seq<string>)
    ensures forall x :: x in r <==> x in xs && x != ""
    ensures |r| <= |xs|
  {
    MatchesMembers(x => x != "", xs);
    Matches(x => x != "", xs)
  }

  // -------------------------------------------------------------- assignment

  function CountTrue(on: seq<bool>): (n: nat)
    ensures n <= |on|
  {
    if on == [] then 0 else CountTrue(on[..|on| - 1]) + (if on[|on| - 1] then 1 else 0)
  }

  /** How many backends an online node takes. */
  function Share(backends: nat, nodes: nat): nat {
    if nodes >= backends then 1
    else if nodes == 0 then 0
    else backends / nodes + (if backends % nodes != 0 then 1 else 0)
  }

  function Upto(n: nat, len: nat): (r: nat)
    ensures r <= len
  {
    if n < len then n else len
  }

  /** The part of a list between two positions that may lie beyond its end. */
  function Slice(xs: seq<string>, lo: nat, hi: nat): seq<string>
    requires lo <= hi
  {
    xs[Upto(lo, |xs|)..Upto(hi, |xs|)]
  }

  lemma SliceNext(xs: seq<string>, lo: nat, j: nat)
    ensures Slice(xs, lo, lo + j + 1) ==
            if lo + j < |xs| then Slice(xs, lo, lo + j) + [xs[lo + j]] else Slice(xs, lo, lo + j)
  {
  }

  /** Position of the first backend of node i. */
  function Start(backends: seq<string>, on: seq<bool>, i: nat): nat
    requires i <= |on|
  {
    Share(|backends|, CountTrue(on)) * CountTrue(on[..i])
  }

  function Assigned(backends: seq<string>, on: seq<bool>, i: nat): seq<string>
    requires i < |on|
  {
    if !on[i] then []
    else NonEmpty(Slice(backends, Start(backends, on, i), Start(backends, on, i) + Share(|backends|, CountTrue(on))))
  }

  function Assignment(backends: seq<string>, on: seq<bool>): (r: seq<seq<string>>)
    ensures |r| == |on| && forall i :: 0 <= i < |on| ==> r[i] == Assigned(backends, on, i)
  {
    seq(|on|, i requires 0 <= i < |on| => Assigned(backends, on, i))
  }

  function IsOnline(node: Node, online: seq<Node>): bool {
    exists o :: o in online && o.url == node.url
  }

  function View(all: seq<Node>, online: seq<Node>): (r: seq<bool>)
    ensures |r| == |all| && forall i :: 0 <= i < |all| ==> r[i] == IsOnline(all[i], online)
  {
    seq(|all|, i requires 0 <= i < |all| => IsOnline(all[i], online))
  }

  /** The last node that is this one. */
  function OwnIndex(all: seq<Node>): (r: int)
    ensures -1 <= r < |all|
    ensures r >= 0 ==> all[r].isMe
    ensures r == -1 <==> forall i :: 0 <= i < |all| ==> !all[i].isMe
    ensures forall i :: r < i < |all| ==> !all[i].isMe
  {
    if all == [] then -1
    else if all[|all| - 1].isMe then |all| - 1
    else OwnIndex(all[..|all| - 1])
  }

  function BackendsById(all: seq<Node>, on: seq<bool>, lists: seq<seq<string>>): map<string, seq<string>>
    requires |all| == |on| == |lists|
  {
    if all == [] then map[]
    else
      var n := |all| - 1;
      var m := BackendsById(all[..n], on[..n], lists[..n]);
      if on[n] then m[all[n].id := lists[n]] else m
  }

  // ----------------------------------------------------- cover, bound, disjoint

  lemma ShareSuffices(b: nat, n: nat)
    requires n > 0
    ensures Share(b, n) * n >= b
    ensures b > 0 ==> (Share(b, n) - 1) * n < b
  {
    if n < b {
      var q, r := b / n, b % n;
      assert b == q * n + r;
      assert (q + 1) * n == q * n + n;
      assert (q - 1) * n == q * n - n;
    }
  }

  lemma StartNext(backends: seq<string>, on: seq<bool>, i: nat)
    requires i < |on|
    ensures Start(backends, on, i + 1) == Start(backends, on, i) + (if on[i] then Share(|backends|, CountTrue(on)) else 0)
  {
    hide Share;
    assert on[..i + 1][..i] == on[..i];
    Distribute(Share(|backends|, CountTrue(on)), CountTrue(on[..i]));
  }

  lemma Distribute(s: int, c: int)
    ensures s * (c + 1) == s * c + s
  {
  }

  /** The first i lists hold the backends up to the start of list i. */
  lemma {:induction false} CoverPrefix(backends: seq<string>, on: seq<bool>, i: nat)
    requires i <= |on|
    ensures Concat(Assignment(backends, on)[..i]) == NonEmpty(backends[..Upto(Start(backends, on, i), |backends|)])
  {
    hide NonEmpty, Start;
    if i == 0 {
      StartZero(backends, on);
    } else {
      var k := i - 1;
      var lists := Assignment(backends, on);
      CoverPrefix(backends, on, k);
      StartNext(backends, on, k);
      ConcatSnoc(lists[..k], lists[k]);
      assert lists[..i] == lists[..k] + [lists[k]];
      var lo, hi := Upto(Start(backends, on, k), |backends|), Upto(Start(backends, on, i), |backends|);
      hide Share;
      if on[k] {
        assert backends[..lo] + backends[lo..hi] == backends[..hi];
        NonEmptyAppend(backends[..lo], backends[lo..hi]);
      }
    }
  }

  lemma StartZero(backends: seq<string>, on: seq<bool>)
    ensures Start(backends, on, 0) == 0 && NonEmpty(backends[..0]) == []
  {
    assert on[..0] == [] && backends[..0] == [];
  }

  lemma NonEmptyAppend(a: seq<string>, b: seq<string>)
    ensures NonEmpty(a + b) == NonEmpty(a) + NonEmpty(b)
  {
    MatchesAppend(x => x != "", a, b);
  }

  lemma NonEmptySnoc(xs: seq<string>, x: string)
    ensures NonEmpty(xs + [x]) == if x != "" then NonEmpty(xs) + [x] else NonEmpty(xs)
  {
    MatchesSnoc(y => y != "", xs, x);
  }

  lemma {:induction false} NoneOnline(on: seq<bool>)
    requires CountTrue(on) == 0
    ensures forall i :: 0 <= i < |on| ==> !on[i]
  {
    if on != [] {
      NoneOnline(on[..|on| - 1]);
    }
  }

  /** The lists of all nodes, in node order, are exactly the named backends, if
      and only if some node is online or no backend has a name. */
  lemma AssignmentCovers(backends: seq<string>, on: seq<bool>)
    ensures Concat(Assignment(backends, on)) == NonEmpty(backends) <==> CountTrue(on) > 0 || NonEmpty(backends) == []
    ensures CountTrue(on) == 0 ==> Concat(Assignment(backends, on)) == []
  {
    hide NonEmpty;
    var lists, n := Assignment(backends, on), CountTrue(on);
    if n > 0 {
      CoverPrefix(backends, on, |on|);
      ShareSuffices(|backends|, n);
      assert lists[..|on|] == lists && on[..|on|] == on;
      assert backends[..|backends|] == backends;
    } else {
      NoneOnline(on);
      ConcatEmpty(lists);
    }
  }

  /** Offline nodes get nothing, and no node more than the average rounded up. */
  lemma AssignmentBounded(backends: seq<string>, on: seq<bool>, i: nat)
    requires i < |on|
    ensures !on[i] ==> Assignment(backends, on)[i] == []
    ensures CountTrue(on) > 0 && backends != [] ==>
              (|Assignment(backends, on)[i]| - 1) * CountTrue(on) < |backends|
    ensures backends == [] ==> Assignment(backends, on)[i] == []
  {
    hide CountTrue, Start, Slice, NonEmpty;
    var n, b, len := CountTrue(on), |backends|, |Assignment(backends, on)[i]|;
    ChunkBound(backends, on, i);
    if n > 0 && b > 0 {
      ShareSuffices(b, n);
      hide Share;
      Scaled(len - 1, Share(b, n) - 1, n);
    }
  }

  lemma ChunkBound(backends: seq<string>, on: seq<bool>, i: nat)
    requires i < |on|
    ensures |Assigned(backends, on, i)| <= Share(|backends|, CountTrue(on))
    ensures !on[i] || backends == [] ==> Assigned(backends, on, i) == []
  {
    hide Start, Share, NonEmpty;
  }

  lemma Scaled(x: int, y: int, n: nat)
    requires x <= y
    ensures x * n <= y * n
  {
  }

  /** The position a backend of node i was dealt from. */
  lemma AssignedFrom(backends: seq<string>, on: seq<bool>, i: nat, b: string) returns (p: nat)
    requires i < |on| && b in Assignment(backends, on)[i]
    ensures p < |backends| && backends[p] == b && b != ""
    ensures Start(backends, on, i) <= p < Start(backends, on, i + 1)
  {
    StartNext(backends, on, i);
    var lo, share := Start(backends, on, i), Share(|backends|, CountTrue(on));
    hide Start, Share;
    assert b in Slice(backends, lo, lo + share);
    p :| Upto(lo, |backends|) <= p < Upto(lo + share, |backends|) && backends[p] == b;
  }

  lemma {:induction false} StartGrows(backends: seq<string>, on: seq<bool>, i: nat, j: nat)
    requires i <= j <= |on|
    ensures Start(backends, on, i) <= Start(backends, on, j)
    decreases j - i
  {
    if i < j {
      StartNext(backends, on, i);
      StartGrows(backends, on, i + 1, j);
    }
  }

  /** With distinct backends no two nodes share one. */
  lemma AssignmentDisjoint(backends: seq<string>, on: seq<bool>, i: nat, j: nat, b: string)
    requires DistinctNames(backends) && i < |on| && j < |on|
    requires b in Assignment(backends, on)[i] && b in Assignment(backends, on)[j]
    ensures i == j
  {
    var p := AssignedFrom(backends, on, i, b);
    var q := AssignedFrom(backends, on, j, b);
    hide Start;
    assert p == q;
    if i < j {
      StartGrows(backends, on, i + 1, j);
    } else if j < i {
      StartGrows(backends, on, j + 1, i);
    }
  }

  /** Every named backend has exactly one owner, and it is online. */
  lemma OneOwner(backends: seq<string>, on: seq<bool>, b: string) returns (owner: nat)
    requires DistinctNames(backends) && CountTrue(on) > 0 && b in backends && b != ""
    ensures owner < |on| && on[owner]
    ensures forall i :: 0 <= i < |on| ==> (b in Assignment(backends, on)[i] <==> i == owner)
  {
    hide Assigned, CountTrue, Concat;
    var lists := Assignment(backends, on);
    AssignmentCovers(backends, on);
    InConcat(lists, b);
    assert exists i :: 0 <= i < |lists| && b in lists[i];
    owner :| 0 <= owner < |lists| && b in lists[owner];
    AssignmentBounded(backends, on, owner);
    forall i | 0 <= i < |on| && b in lists[i]
      ensures i == owner
    {
      AssignmentDisjoint(backends, on, i, owner, b);
    }
  }

  lemma {:induction false} CountIs(on: seq<bool>)
    ensures CountTrue(on) == |set i | 0 <= i < |on| && on[i]|
  {
    if on != [] {
      var n := |on| - 1;
      CountIs(on[..n]);
      var front := set i | 0 <= i < n && on[..n][i];
      assert (set i | 0 <= i < |on| && on[i]) == if on[n] then front + {n} else front;
    }
  }

  /** The backends are dealt in turn: with s the average rounded up, the first s
      names belong to the first online node, the next s to the second, and so on. */
  lemma DealtInTurn(backends: seq<string>, on: seq<bool>, s: nat, p: nat, i: nat)
    requires DistinctNames(backends) && p < |backends| && backends[p] != "" && i < |on| && on[i]
    requires var n := |set k | 0 <= k < |on| && on[k]|; (s - 1) * n < |backends| <= s * n
    ensures backends[p] in Assignment(backends, on)[i] <==> p / s == |set k | 0 <= k < i && on[k]|
  {
    hide CountTrue, Share, NonEmpty, Start, Slice;
    var n, rank, b := CountTrue(on), CountTrue(on[..i]), backends[p];
    CountIs(on);
    CountIs(on[..i]);
    assert (set k | 0 <= k < i && on[k]) == set k | 0 <= k < |on[..i]| && on[..i][k];
    SomeOnline(on, i);
    ShareSuffices(|backends|, n);
    OneShare(s, Share(|backends|, n), n, |backends|);
    TurnOf(p, s, rank);
    StartIs(backends, on, i);
    if b in Assignment(backends, on)[i] {
      var q := AssignedFrom(backends, on, i, b);
      StartNext(backends, on, i);
      assert q == p;
    }
    if s * rank <= p < s * rank + s {
      InSlice(backends, s * rank, s, p);
    }
  }

  lemma StartIs(backends: seq<string>, on: seq<bool>, i: nat)
    requires i <= |on|
    ensures Start(backends, on, i) == Share(|backends|, CountTrue(on)) * CountTrue(on[..i])
  {
  }

  lemma InSlice(xs: seq<string>, lo: nat, s: nat, p: nat)
    requires lo <= p < lo + s && p < |xs| && xs[p] != ""
    ensures xs[p] in NonEmpty(Slice(xs, lo, lo + s))
  {
    assert Slice(xs, lo, lo + s)[p - lo] == xs[p];
  }

  lemma OneShare(s: nat, t: nat, n: nat, b: nat)
    requires n > 0 && b > 0 && (s - 1) * n < b <= s * n && (t - 1) * n < b <= t * n
    ensures s == t
  {
    if s < t {
      Scaled(s, t - 1, n);
    } else if t < s {
      Scaled(t, s - 1, n);
    }
  }

  lemma TurnOf(p: nat, s: nat, rank: nat)
    requires s > 0
    ensures p / s == rank <==> s * rank <= p < s * rank + s
  {
    var q, r := p / s, p % s;
    assert p == s * q + r;
    if q < rank {
      Scaled(q + 1, rank, s);
    } else if rank < q {
      Scaled(rank + 1, q, s);
    }
  }

  /** With distinct node ids, exactly the online nodes are entered, each with its
      own list. */
  lemma {:induction false} ByIdExact(all: seq<Node>, on: seq<bool>, lists: seq<seq<string>>, i: nat)
    requires |all| == |on| == |lists| && i < |all|
    requires forall j, k :: 0 <= j < k < |all| ==> all[j].id != all[k].id
    ensures all[i].id in BackendsById(all, on, lists) <==> on[i]
    ensures on[i] ==> BackendsById(all, on, lists)[all[i].id] == lists[i]
    ensures forall id :: id in BackendsById(all, on, lists) ==> exists k :: 0 <= k < |all| && all[k].id == id
  {
    var n := |all| - 1;
    ByIdKnown(all, on, lists);
    if i < n {
      ByIdExact(all[..n], on[..n], lists[..n], i);
    } else {
      ByIdKnown(all[..n], on[..n], lists[..n]);
    }
  }

  lemma {:induction false} ByIdKnown(all: seq<Node>, on: seq<bool>, lists: seq<seq<string>>)
    requires |all| == |on| == |lists|
    ensures forall id :: id in BackendsById(all, on, lists) ==> exists k :: 0 <= k < |all| && all[k].id == id
  {
    if all != [] {
      var n := |all| - 1;
      ByIdKnown(all[..n], on[..n], lists[..n]);
      forall id | id in BackendsById(all[..n], on[..n], lists[..n])
        ensures exists k :: 0 <= k < |all| && all[k].id == id
      {
        var k :| 0 <= k < n && all[..n][k].id == id;
        assert all[k].id == id;
      }
      assert all[n].id == all[n].id;
    }
  }

  // ------------------------------------------------------- requests by backend

  predicate Requested(backends: seq<string>, b: string) {
    b != "" && (backends == [] || b in backends)
  }

  method GetSubBackends(requested: seq<string>, nodeBackends: seq<string>) returns (subBackends: seq<string>)
    ensures subBackends == Matches(b => Requested(requested, b), nodeBackends)
    ensures forall b :: b in subBackends <==> b in nodeBackends && b != "" && (requested == [] || b in requested)
  {
    hide Matches;
    MatchesMembers(b => Requested(requested, b), nodeBackends);
    var allBackendsRequested := |requested| == 0;
    subBackends := [];
    ghost var p: string -> bool := b => Requested(requested, b);
    NoneMatch(p, nodeBackends);
    for i := 0 to |nodeBackends|
      invariant subBackends == Matches(p, nodeBackends[..i])
    {
      var nodeBackend := nodeBackends[i];
      MatchesNext(p, nodeBackends, i);
      if nodeBackend == "" {
        continue;
      }
      var isRequested := allBackendsRequested;
      for j := 0 to |requested|
        invariant isRequested == (allBackendsRequested || nodeBackend in requested[..j])
      {
        if requested[j] == nodeBackend {
          isRequested := true;
        }
      }
      assert requested[..|requested|] == requested;
      if isRequested {
        subBackends := subBackends + [nodeBackend];
      }
    }
    assert nodeBackends[..|nodeBackends|] == nodeBackends;
  }

  lemma NoneMatch(p: string -> bool, xs: seq<string>)
    ensures Matches(p, xs[..0]) == []
  {
  }

  function SubBackends(requested: seq<string>, lists: seq<seq<string>>): (r: seq<seq<string>>)
    ensures |r| == |lists|
    ensures forall i :: 0 <= i < |r| ==> r[i] == Matches(b => Requested(requested, b), lists[i])
  {
    seq(|lists|, i requires 0 <= i < |lists| => Matches(b => Requested(requested, b), lists[i]))
  }

  lemma {:induction false} RequestedConcat(requested: seq<string>, lists: seq<seq<string>>)
    ensures Concat(SubBackends(requested, lists)) == Matches(b => Requested(requested, b), Concat(lists))
  {
    if lists != [] {
      var n := |lists| - 1;
      var subs := SubBackends(requested, lists);
      assert subs[..n] == SubBackends(requested, lists[..n]);
      RequestedConcat(requested, lists[..n]);
      MatchesAppend(b => Requested(requested, b), Concat(lists[..n]), lists[n]);
      ConcatSnoc(lists[..n], lists[n]);
      ConcatSnoc(subs[..n], subs[n]);
      assert lists == lists[..n] + [lists[n]] && subs == subs[..n] + [subs[n]];
    }
  }

  /** The sub-requests sent to the nodes ask together for exactly the requested
      backends, each once. */
  lemma RequestCovered(requested: seq<string>, backends: seq<string>, on: seq<bool>)
    requires CountTrue(on) > 0
    ensures Concat(SubBackends(requested, Assignment(backends, on))) == Matches(b => Requested(requested, b), backends)
    ensures forall b :: b in Concat(SubBackends(requested, Assignment(backends, on))) <==>
              b in backends && b != "" && (requested == [] || b in requested)
  {
    MatchesMembers(b => Requested(requested, b), backends);
    var p: string -> bool := b => Requested(requested, b);
    AssignmentCovers(backends, on);
    RequestedConcat(requested, Assignment(backends, on));
    MatchesTwice(x => x != "", p, p, backends);
  }

  // ------------------------------------------------------- starting and stopping

  /** A call of Start or Stop on a peer. */
  datatype Event = Started(id: string) | Stopped(id: string)

  /** Whether a peer runs after a history of calls. */
  predicate Running(log: seq<Event>, id: string) {
    log != [] && (if log[|log| - 1].id == id then log[|log| - 1].Started? else Running(log[..|log| - 1], id))
  }

  /** No peer is started while it runs; the code panics on that. */
  ghost predicate NoDoubleStart(log: seq<Event>) {
    forall i :: 0 <= i < |log| && log[i].Started? ==> !Running(log[..i], log[i].id)
  }

  /** No backend is stopped while it stands still. */
  ghost predicate NoIdleStop(backends: seq<string>, log: seq<Event>) {
    forall i :: 0 <= i < |log| && log[i].Stopped? && log[i].id in backends ==> Running(log[..i], log[i].id)
  }

  /** Which peers are known, with the parent of a sub peer, or "". */
  type Peers = map<string, string>

  ghost predicate IsSub(peers: Peers, id: string) {
    id in peers && peers[id] != ""
  }

  /** An assignment extended by sub peers: one for each sub peer of what was
      assigned, and only sub peers of what is in the list. */
  ghost predicate WithSubPeers(peers: Peers, ours: seq<string>, now: seq<string>) {
    && ours <= now
    && (forall id :: IsSub(peers, id) && peers[id] in ours ==> id in now)
    && (forall i :: |ours| <= i < |now| ==> IsSub(peers, now[i]) && peers[now[i]] in now[..i])
  }

  function Stops(ids: seq<string>): seq<Event> {
    seq(|ids|, i requires 0 <= i < |ids| => Stopped(ids[i]))
  }

  function Starts(ids: seq<string>): seq<Event> {
    seq(|ids|, i requires 0 <= i < |ids| => Started(ids[i]))
  }

  function Dropped(backends: seq<string>, before: seq<string>, now: seq<string>): seq<string> {
    Matches(b => b in before && b !in now, backends)
  }

  function Gained(backends: seq<string>, before: seq<string>, now: seq<string>): seq<string> {
    Matches(b => b in now && b !in before, backends)
  }

  function Changes(backends: seq<string>, before: seq<string>, now: seq<string>): seq<Event> {
    Stops(Dropped(backends, before, now)) + Starts(Gained(backends, before, now))
  }

  class Nodes {
    var backends: seq<string>
    var nodeAddresses: seq<Node>
    var onlineNodes: seq<Node>
    var assignedBackends: seq<string>
    var nodeBackends: map<string, seq<string>>
    /** The calls made on peers so far, oldest first. */
    var calls: seq<Event>

    constructor (backends: seq<string>, nodeAddresses: seq<Node>)
      ensures this.backends == backends && this.nodeAddresses == nodeAddresses && onlineNodes == []
      ensures assignedBackends == [] && nodeBackends == map[] && calls == []
    {
      this.backends, this.nodeAddresses, onlineNodes := backends, nodeAddresses, [];
      assignedBackends, nodeBackends, calls := [], map[], [];
    }

    method GetOnlineNodes() returns (ownIndex: int, nodeOnline: seq<bool>, numberAllNodes: nat, numberAvailableNodes: nat)
      ensures ownIndex == OwnIndex(nodeAddresses) && nodeOnline == View(nodeAddresses, onlineNodes)
      ensures numberAllNodes == |nodeAddresses| && numberAvailableNodes == CountTrue(nodeOnline)
      ensures forall i :: 0 <= i < |nodeAddresses| ==>
                (nodeOnline[i] <==> exists o :: o in onlineNodes && o.url == nodeAddresses[i].url)
      ensures numberAvailableNodes == |set i | 0 <= i < |nodeOnline| && nodeOnline[i]|
    {
      hide IsOnline;
      ownIndex, nodeOnline, numberAvailableNodes := -1, [], 0;
      numberAllNodes := |nodeAddresses|;
      for i := 0 to |nodeAddresses|
        invariant ownIndex == OwnIndex(nodeAddresses[..i])
        invariant nodeOnline == View(nodeAddresses[..i], onlineNodes)
        invariant numberAvailableNodes == CountTrue(nodeOnline)
      {
        var node := nodeAddresses[i];
        assert nodeAddresses[..i + 1][..i] == nodeAddresses[..i];
        var isOnline := CheckOnline(node);
        if node.isMe {
          ownIndex := i;
        }
        ghost var before := nodeOnline;
        nodeOnline := nodeOnline + [isOnline];
        assert nodeOnline[..|before|] == before;
        if isOnline {
          numberAvailableNodes := numberAvailableNodes + 1;
        }
      }
      assert nodeAddresses[..|nodeAddresses|] == nodeAddresses;
      CountIs(nodeOnline);
      OnlineByUrl();
    }

    lemma OnlineByUrl()
      ensures forall i :: 0 <= i < |nodeAddresses| ==>
                (View(nodeAddresses, onlineNodes)[i] <==> exists o :: o in onlineNodes && o.url == nodeAddresses[i].url)
    {
    }

    method CheckOnline(node: Node) returns (isOnline: bool)
      ensures isOnline == IsOnline(node, onlineNodes)
    {
      isOnline := false;
      for j := 0 to |onlineNodes|
        invariant isOnline == exists o :: o in onlineNodes[..j] && o.url == node.url
      {
        assert onlineNodes[..j + 1] == onlineNodes[..j] + [onlineNodes[j]];
        if onlineNodes[j].url == node.url {
          isOnline := true;
        }
      }
      assert onlineNodes[..|onlineNodes|] == onlineNodes;
    }

    method NumberPerNode(nodeOnline: seq<bool>, numberAvailableNodes: nat) returns (numbers: array<int>)
      requires |nodeOnline| == |nodeAddresses| && numberAvailableNodes == CountTrue(nodeOnline)
      ensures fresh(numbers) && numbers.Length == |nodeAddresses|
      ensures forall i :: 0 <= i < numbers.Length ==>
                numbers[i] == if nodeOnline[i] then Share(|backends|, numberAvailableNodes) else 0
    {
      var numberBackends := |backends|;
      numbers := new int[|nodeAddresses|](_ => 0);
      for i := 0 to |nodeAddresses|
        invariant forall k :: 0 <= k < i ==> numbers[k] == if nodeOnline[k] then Share(|backends|, numberAvailableNodes) else 0
        invariant forall k :: i <= k < numbers.Length ==> numbers[k] == 0
      {
        if !nodeOnline[i] {
          continue;
        }
        if numberAvailableNodes >= numberBackends {
          numbers[i] := 1;
        } else {
          SomeOnline(nodeOnline, i);
          var numberPerNode := numberBackends / numberAvailableNodes;
          if numberBackends % numberAvailableNodes != 0 {
            numberPerNode := numberPerNode + 1;
          }
          numbers[i] := numberPerNode;
        }
      }
    }

    /** One node's chunk of the backend list. */
    method Chunk(distributedCount: nat, number: nat) returns (list: seq<string>)
      ensures list == NonEmpty(Slice(backends, distributedCount, distributedCount + number))
    {
      list := [];
      assert list == NonEmpty([]);
      assert Slice(backends, distributedCount, distributedCount) == [];
      hide NonEmpty, Slice;
      for j := 0 to number
        invariant list == NonEmpty(Slice(backends, distributedCount, distributedCount + j))
      {
        SliceNext(backends, distributedCount, j);
        if |backends| > distributedCount + j {
          var backend := backends[distributedCount + j];
          NonEmptySnoc(Slice(backends, distributedCount, distributedCount + j), backend);
          if backend != "" {
            list := list + [backend];
          }
        }
      }
    }

    /** Assigns the backends to the online nodes and updates this node's own. */
    method Redistribute(peers: Peers)
      requires OwnIndex(nodeAddresses) >= 0
      requires forall b :: b in backends && b != "" ==> b in peers
      modifies this
      ensures backends == old(backends) && nodeAddresses == old(nodeAddresses) && onlineNodes == old(onlineNodes)
      ensures var on := View(nodeAddresses, onlineNodes);
              var lists := Assignment(backends, on);
              && nodeBackends == BackendsById(nodeAddresses, on, lists)
              && WithSubPeers(peers, lists[OwnIndex(nodeAddresses)], assignedBackends)
      ensures calls == old(calls) + Changes(backends, old(assignedBackends), assignedBackends)
    {
      hide CountTrue, View, OwnIndex, Changes, BackendsById, Assignment, Share;
      var ownIndex, nodeOnline, _, numberAvailableNodes := GetOnlineNodes();
      var numbers := NumberPerNode(nodeOnline, numberAvailableNodes);
      var perNode, byId := AssignLists(nodeOnline, numbers);
      nodeBackends := byId;
      UpdateBackends(perNode[ownIndex], peers);
    }

    /** Cuts the backends into one list per node. */
    method AssignLists(nodeOnline: seq<bool>, numbers: array<int>)
        returns (perNode: seq<seq<string>>, byId: map<string, seq<string>>)
      requires |nodeOnline| == |nodeAddresses| == numbers.Length
      requires forall k :: 0 <= k < numbers.Length ==>
                 numbers[k] == if nodeOnline[k] then Share(|backends|, CountTrue(nodeOnline)) else 0
      ensures perNode == Assignment(backends, nodeOnline)
      ensures byId == BackendsById(nodeAddresses, nodeOnline, perNode)
    {
      hide Share, NonEmpty, CountTrue, Slice;
      ghost var all := Assignment(backends, nodeOnline);
      perNode, byId := [], map[];
      var distributedCount := 0;
      for i := 0 to |nodeAddresses|
        invariant distributedCount == Start(backends, nodeOnline, i)
        invariant perNode == all[..i]
        invariant byId == BackendsById(nodeAddresses[..i], nodeOnline[..i], all[..i])
      {
        hide BackendsById, Start;
        var number := numbers[i];
        StartNext(backends, nodeOnline, i);
        ByIdNext(nodeAddresses, nodeOnline, all, i);
        if nodeOnline[i] {
          SharePositive(nodeOnline, i, |backends|);
        }
        if number <= 0 {
          perNode := perNode + [[]];
          continue;
        }
        var list := Chunk(distributedCount, number);
        distributedCount := distributedCount + number;
        perNode := perNode + [list];
        byId := byId[nodeAddresses[i].id := list];
      }
      assert nodeAddresses[..|nodeAddresses|] == nodeAddresses && nodeOnline[..|nodeAddresses|] == nodeOnline;
      assert all[..|nodeAddresses|] == all;
    }

    method AppendSubPeers(ourBackends: seq<string>, peers: Peers) returns (now: seq<string>)
      ensures WithSubPeers(peers, ourBackends, now)
      ensures ourBackends <= now
      ensures forall id :: id in peers && peers[id] != "" && peers[id] in ourBackends ==> id in now
      ensures forall id :: id in now && id !in ourBackends ==> id in peers && peers[id] != "" && peers[id] in now
    {
      now := ourBackends;
      var todo := peers.Keys;
      while todo != {}
        invariant todo <= peers.Keys
        invariant ourBackends <= now
        invariant forall id :: IsSub(peers, id) && id !in todo && peers[id] in ourBackends ==> id in now
        invariant forall i :: |ourBackends| <= i < |now| ==> IsSub(peers, now[i]) && peers[now[i]] in now[..i]
        decreases todo
      {
        var id :| id in todo;
        todo := todo - {id};
        if peers[id] == "" {
          continue;
        }
        var k := 0;
        while k < |now| && now[k] != peers[id]
          invariant 0 <= k <= |now| && peers[id] !in now[..k]
        {
          k := k + 1;
        }
        if k < |now| {
          ghost var before := now;
          now := now + [id];
          assert now[..|before|] == before && before[k] in now[..|before|];
          assert forall i :: |ourBackends| <= i < |before| ==> now[..i] == before[..i];
        } else {
          assert now[..k] == now;
        }
      }
    }

    method UpdateBackends(ourBackends: seq<string>, peers: Peers)
      requires forall b :: b in backends && b != "" ==> b in peers
      modifies this
      ensures backends == old(backends) && nodeAddresses == old(nodeAddresses)
      ensures onlineNodes == old(onlineNodes) && nodeBackends == old(nodeBackends)
      ensures WithSubPeers(peers, ourBackends, assignedBackends)
      ensures ourBackends <= assignedBackends
      ensures forall id :: id in peers && peers[id] != "" && peers[id] in ourBackends ==> id in assignedBackends
      ensures forall id :: id in assignedBackends && id !in ourBackends ==>
                id in peers && peers[id] != "" && peers[id] in assignedBackends
      ensures calls == old(calls) + Changes(backends, old(assignedBackends), assignedBackends)
      ensures forall i, j :: |old(calls)| <= i < j < |calls| && calls[i].Started? ==> calls[j].Started?
    {
      hide WithSubPeers, Gained, Dropped;
      var now := AppendSubPeers(ourBackends, peers);
      var addBackends, rmvBackends := Compare(now);
      assignedBackends := now;
      StopPeers(rmvBackends);
      StartPeers(addBackends);
    }

    method StopPeers(list: seq<string>)
      modifies this`calls
      ensures calls == old(calls) + Stops(list)
    {
      for i := 0 to |list|
        invariant calls == old(calls) + Stops(list[..i])
      {
        calls := calls + [Stopped(list[i])];
        assert Stops(list[..i + 1]) == Stops(list[..i]) + [Stopped(list[i])];
      }
      assert list[..|list|] == list;
    }

    method StartPeers(list: seq<string>)
      modifies this`calls
      ensures calls == old(calls) + Starts(list)
    {
      for i := 0 to |list|
        invariant calls == old(calls) + Starts(list[..i])
      {
        calls := calls + [Started(list[i])];
        assert Starts(list[..i + 1]) == Starts(list[..i]) + [Started(list[i])];
      }
      assert list[..|list|] == list;
    }

    /** Which backends this node is newly, and no longer, responsible for. */
    method Compare(now: seq<string>) returns (addBackends: seq<string>, rmvBackends: seq<string>)
      ensures addBackends == Gained(backends, assignedBackends, now)
      ensures rmvBackends == Dropped(backends, assignedBackends, now)
    {
      addBackends, rmvBackends := [], [];
      assert Gained([], assignedBackends, now) == [] && Dropped([], assignedBackends, now) == [];
      hide Gained, Dropped;
      for i := 0 to |backends|
        invariant addBackends == Gained(backends[..i], assignedBackends, now)
        invariant rmvBackends == Dropped(backends[..i], assignedBackends, now)
      {
        var backend := backends[i];
        CompareNext(backends, i, assignedBackends, now);
        var assignedNow := Contains(now, backend);
        var assignedBefore := Contains(assignedBackends, backend);
        if assignedNow && !assignedBefore {
          addBackends := addBackends + [backend];
        } else if assignedBefore && !assignedNow {
          rmvBackends := rmvBackends + [backend];
        }
      }
      assert backends[..|backends|] == backends;
    }
  }

  lemma CompareNext(backends: seq<string>, i: nat, before: seq<string>, now: seq<string>)
    requires i < |backends|
    ensures var b, gained := backends[i], Gained(backends[..i], before, now);
            Gained(backends[..i + 1], before, now) == if b in now && b !in before then gained + [b] else gained
    ensures var b, dropped := backends[i], Dropped(backends[..i], before, now);
            Dropped(backends[..i + 1], before, now) == if b in before && b !in now then dropped + [b] else dropped
  {
    MatchesNext(x => x in now && x !in before, backends, i);
    MatchesNext(x => x in before && x !in now, backends, i);
  }

  method Contains(xs: seq<string>, x: string) returns (found: bool)
    ensures found <==> x in xs
  {
    found := false;
    for i := 0 to |xs|
      invariant found <==> x in xs[..i]
    {
      if xs[i] == x {
        found := true;
      }
    }
    assert xs[..|xs|] == xs;
  }

  lemma {:induction false} SomeOnline(on: seq<bool>, i: nat)
    requires i < |on| && on[i]
    ensures CountTrue(on) > 0
  {
    if i < |on| - 1 {
      SomeOnline(on[..|on| - 1], i);
    }
  }

  lemma SharePositive(on: seq<bool>, i: nat, backends: nat)
    requires i < |on| && on[i]
    ensures Share(backends, CountTrue(on)) > 0
  {
    SomeOnline(on, i);
    ShareSuffices(backends, CountTrue(on));
  }

  lemma ByIdNext(all: seq<Node>, on: seq<bool>, lists: seq<seq<string>>, i: nat)
    requires |all| == |on| == |lists| && i < |all|
    ensures BackendsById(all[..i + 1], on[..i + 1], lists[..i + 1]) ==
            var m := BackendsById(all[..i], on[..i], lists[..i]);
            if on[i] then m[all[i].id := lists[i]] else m
  {
    assert all[..i + 1][..i] == all[..i] && on[..i + 1][..i] == on[..i] && lists[..i + 1][..i] == lists[..i];
  }
}
