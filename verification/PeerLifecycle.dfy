/** The states of a remote site, changed in steps that each hold the peer's
    lock, and the rotation over its sources. */
module PeerLifecycle {
  import opened Text

  datatype PeerState = Up | Warning | Down | Broken | Pending

  /** The sources of a site and the grace period in seconds. */
  datatype Config = Config(source: seq<string>, staleBackendTimeout: int)

  predicate ValidConfig(c: Config) {
    c.source != []
  }

  /** What the lock protects. The cached data is known by a number. */
  datatype Status = Status(state: PeerState, data: Option<nat>, lastOnline: int, errorCount: nat, curPeerAddrNum: nat, peerAddr: string)

  function Initial(c: Config): Status
    requires ValidConfig(c)
  {
    Status(Pending, None, 0, 0, 0, c.source[0])
  }

  /** One lock-protected step. */
  datatype Step =
    | ClientError
    | ConnectionError(now: int)
    | Commit(now: int, data: nat)
    | Recovered(now: int)
    | SetBroken
    | NotReady
    | ClearData

  function NextNum(c: Config, n: nat): nat {
    if n + 1 >= |c.source| then 0 else n + 1
  }

  /** A connection error that ends the grace period. */
  predicate Fatal(c: Config, lastOnline: int, errorCount: nat, now: int) {
    lastOnline < now - c.staleBackendTimeout || (errorCount > |c.source| && lastOnline <= 0)
  }

  function ResetErrors(s: Status, now: int): Status {
    s.(lastOnline := now, errorCount := 0, state := Up)
  }

  function AfterError(c: Config, s: Status, now: int): Status
    requires ValidConfig(c)
  {
    var next := NextNum(c, s.curPeerAddrNum);
    var t := s.(errorCount := s.errorCount + 1, curPeerAddrNum := next, peerAddr := c.source[next],
                state := if s.state == Up || s.state == Pending then Warning else s.state);
    if Fatal(c, s.lastOnline, t.errorCount, now) then t.(state := Down, data := None) else t
  }

  function Apply(c: Config, s: Status, step: Step): Status
    requires ValidConfig(c)
  {
    match step
    case ClientError => s
    case ConnectionError(now) => AfterError(c, s, now)
    case Commit(now, data) => var t := s.(data := Some(data)); if s.state != Up then ResetErrors(t, now) else t
    case Recovered(now) => ResetErrors(s, now)
    case SetBroken => s.(state := Broken, data := None)
    case NotReady => s.(state := Down, data := None)
    case ClearData => s.(data := None)
  }

  function Run(c: Config, s: Status, steps: seq<Step>): Status
    requires ValidConfig(c)
  {
    if steps == [] then s else Apply(c, Run(c, s, steps[..|steps| - 1]), steps[|steps| - 1])
  }

  // ------------------------------------------------------- safety in all runs

  /** Without a usable site there is no cached data, and the address in use is
      the source at the current index. */
  ghost predicate Safe(c: Config, s: Status) {
    && (s.state in {Pending, Down, Broken} ==> s.data == None)
    && s.curPeerAddrNum < |c.source| && s.peerAddr == c.source[s.curPeerAddrNum]
  }

  /** Holds after any steps in any order. */
  lemma {:induction false} RunSafe(c: Config, steps: seq<Step>)
    requires ValidConfig(c)
    ensures Safe(c, Run(c, Initial(c), steps))
  {
    if steps != [] {
      RunSafe(c, steps[..|steps| - 1]);
    }
  }

  /** Data appears or changes only in the step that commits freshly loaded
      tables, and that step leaves the peer up. */
  lemma {:induction false} DataOnlyByCommit(c: Config, steps: seq<Step>, i: nat)
    requires ValidConfig(c) && i < |steps|
    ensures var before, after := Run(c, Initial(c), steps[..i]), Run(c, Initial(c), steps[..i + 1]);
            after.data.Some? && after.data != before.data ==> steps[i].Commit? && after.state == Up && after.data == Some(steps[i].data)
  {
    RunSnoc(c, Initial(c), steps[..i], steps[i]);
    assert steps[..i + 1] == steps[..i] + [steps[i]];
  }

  lemma RunSnoc(c: Config, s: Status, steps: seq<Step>, step: Step)
    requires ValidConfig(c)
    ensures Run(c, s, steps + [step]) == Apply(c, Run(c, s, steps), step)
  {
    assert (steps + [step])[..|steps|] == steps;
  }

  /** A site can be up without data: in one update the first source fails after
      the grace period, which drops the data, and the next source answers. */
  lemma UpWithoutData(c: Config, t: int, u: int, data: nat)
    requires ValidConfig(c) && u - c.staleBackendTimeout > t
    ensures var s := Run(c, Initial(c), [Commit(t, data), ConnectionError(u), Recovered(u)]);
            s.state == Up && s.data == None
  {
    var steps := [Commit(t, data), ConnectionError(u), Recovered(u)];
    RunSnoc(c, Initial(c), [], steps[0]);
    RunSnoc(c, Initial(c), [steps[0]], steps[1]);
    RunSnoc(c, Initial(c), [steps[0], steps[1]], steps[2]);
    assert [] + [steps[0]] == [steps[0]];
    assert [steps[0]] + [steps[1]] == [steps[0], steps[1]];
    assert [steps[0], steps[1]] + [steps[2]] == steps;
  }

  /** Whether a step may come now: an update ends only while its data is there,
      and data is cleared from outside only while the site is not up. */
  predicate InTime(s: Status, step: Step) {
    (step.Recovered? ==> s.data.Some?) && (step.ClearData? ==> s.state != Up)
  }

  ghost predicate AllInTime(c: Config, steps: seq<Step>)
    requires ValidConfig(c)
  {
    forall i :: 0 <= i < |steps| ==> InTime(Run(c, Initial(c), steps[..i]), steps[i])
  }

  ghost predicate UpMeansData(c: Config, steps: seq<Step>)
    requires ValidConfig(c)
  {
    forall k :: 0 <= k <= |steps| ==>
      var s := Run(c, Initial(c), steps[..k]);
      s.state == Up ==> s.data.Some?
  }

  /** In a whole run, being up always means having data if and only if every step
      comes in time. */
  lemma UpMeansDataIff(c: Config, steps: seq<Step>)
    requires ValidConfig(c)
    ensures UpMeansData(c, steps) <==> AllInTime(c, steps)
  {
    forall i | 0 <= i < |steps|
      ensures Run(c, Initial(c), steps[..i + 1]) == Apply(c, Run(c, Initial(c), steps[..i]), steps[i])
    {
      RunSnoc(c, Initial(c), steps[..i], steps[i]);
      assert steps[..i + 1] == steps[..i] + [steps[i]];
    }
    if UpMeansData(c, steps) {
      forall i | 0 <= i < |steps|
        ensures InTime(Run(c, Initial(c), steps[..i]), steps[i])
      {
        var s, t := Run(c, Initial(c), steps[..i]), Run(c, Initial(c), steps[..i + 1]);
        assert t.state == Up ==> t.data.Some?;
      }
    }
    if AllInTime(c, steps) {
      forall k | 0 <= k <= |steps|
        ensures Run(c, Initial(c), steps[..k]).state == Up ==> Run(c, Initial(c), steps[..k]).data.Some?
      {
        InTimeUpTo(c, steps, k);
      }
    }
  }

  lemma {:induction false} InTimeUpTo(c: Config, steps: seq<Step>, k: nat)
    requires ValidConfig(c) && AllInTime(c, steps) && k <= |steps|
    ensures Run(c, Initial(c), steps[..k]).state == Up ==> Run(c, Initial(c), steps[..k]).data.Some?
  {
    if k > 0 {
      InTimeUpTo(c, steps, k - 1);
      RunSnoc(c, Initial(c), steps[..k - 1], steps[k - 1]);
      assert steps[..k] == steps[..k - 1] + [steps[k - 1]];
      assert InTime(Run(c, Initial(c), steps[..k - 1]), steps[k - 1]);
    }
  }

  // ------------------------------------------------------------ grace period

  function Errors(nows: seq<int>): (r: seq<Step>)
    ensures |r| == |nows|
  {
    seq(|nows|, i requires 0 <= i < |nows| => ConnectionError(nows[i]))
  }

  ghost predicate SomeFatal(c: Config, s: Status, nows: seq<int>) {
    exists k :: 0 <= k < |nows| && Fatal(c, s.lastOnline, s.errorCount + k + 1, nows[k])
  }

  lemma SomeFatalSnoc(c: Config, s: Status, nows: seq<int>, now: int)
    ensures SomeFatal(c, s, nows + [now]) <==> SomeFatal(c, s, nows) || Fatal(c, s.lastOnline, s.errorCount + |nows| + 1, now)
  {
    hide Fatal;
    var all := nows + [now];
    assert all[|nows|] == now;
    assert forall k :: 0 <= k < |nows| ==> all[k] == nows[k];
    if SomeFatal(c, s, nows) {
      var k :| 0 <= k < |nows| && Fatal(c, s.lastOnline, s.errorCount + k + 1, nows[k]);
      assert Fatal(c, s.lastOnline, s.errorCount + k + 1, all[k]);
    }
    if Fatal(c, s.lastOnline, s.errorCount + |nows| + 1, now) {
      assert Fatal(c, s.lastOnline, s.errorCount + |nows| + 1, all[|nows|]);
    }
  }

  /** Any number of connection errors in a row: the peer goes down and loses its
      data exactly when one of them ends the grace period. Otherwise it keeps its
      data, and the first error takes it from up or pending to warning. */
  lemma {:induction false} OutageExact(c: Config, s: Status, nows: seq<int>)
    requires ValidConfig(c) && s.state != Down
    ensures var t := Run(c, s, Errors(nows));
            && t.lastOnline == s.lastOnline && t.errorCount == s.errorCount + |nows|
            && (SomeFatal(c, s, nows) <==> t.state == Down)
            && (SomeFatal(c, s, nows) ==> t.data == None)
            && (!SomeFatal(c, s, nows) ==> t.data == s.data)
            && (!SomeFatal(c, s, nows) ==> t.state == if nows != [] && s.state in {Up, Pending} then Warning else s.state)
  {
    hide Fatal;
    if nows != [] {
      var n := |nows| - 1;
      OutageExact(c, s, nows[..n]);
      SomeFatalSnoc(c, s, nows[..n], nows[n]);
      assert nows == nows[..n] + [nows[n]];
      RunSnoc(c, s, Errors(nows[..n]), ConnectionError(nows[n]));
      assert Errors(nows) == Errors(nows[..n]) + [ConnectionError(nows[n])];
    }
  }

  /** For a site that was online before, only time counts: it stays out of Down
      and keeps its data if and only if all errors come within the grace period. */
  lemma GracePeriodExact(c: Config, s: Status, nows: seq<int>)
    requires ValidConfig(c) && s.state in {Up, Warning} && s.lastOnline > 0
    ensures Run(c, s, Errors(nows)).state != Down <==>
            forall k :: 0 <= k < |nows| ==> nows[k] <= s.lastOnline + c.staleBackendTimeout
    ensures Run(c, s, Errors(nows)).state != Down ==> Run(c, s, Errors(nows)).data == s.data
    ensures Run(c, s, Errors(nows)).state != Down && nows != [] ==> Run(c, s, Errors(nows)).state == Warning
  {
    OutageExact(c, s, nows);
    assert forall k :: 0 <= k < |nows| ==>
      (Fatal(c, s.lastOnline, s.errorCount + k + 1, nows[k]) <==> nows[k] > s.lastOnline + c.staleBackendTimeout);
  }

  /** A site that was never online goes down when the errors outnumber its
      sources, and before that at the first error whose clock is past the grace
      period, which counts from time 0. */
  lemma NeverOnlineExact(c: Config, nows: seq<int>)
    requires ValidConfig(c)
    ensures var t := Run(c, Initial(c), Errors(nows));
            && (t.state == Down <==> |nows| > |c.source| || exists k :: 0 <= k < |nows| && nows[k] > c.staleBackendTimeout)
            && (t.state != Down ==> t.state == if nows == [] then Pending else Warning)
  {
    var s := Initial(c);
    OutageExact(c, s, nows);
    if |nows| > |c.source| {
      assert Fatal(c, s.lastOnline, s.errorCount + (|nows| - 1) + 1, nows[|nows| - 1]);
    }
    forall k | 0 <= k < |nows|
      ensures Fatal(c, s.lastOnline, s.errorCount + k + 1, nows[k]) <==> nows[k] > c.staleBackendTimeout || k >= |c.source|
    {
    }
  }

  /** Steps of the update loop that neither clear nor break the site. */
  predicate Ordinary(step: Step) {
    step.ClientError? || step.ConnectionError? || step.Commit? || step.Recovered?
  }

  /** Every error comes within the grace period after the last recovery, and
      clocks show positive times. */
  ghost predicate WithinGrace(c: Config, s: Status, steps: seq<Step>)
    requires ValidConfig(c)
  {
    forall i :: 0 <= i < |steps| ==>
      && (steps[i].ConnectionError? ==> steps[i].now <= Run(c, s, steps[..i]).lastOnline + c.staleBackendTimeout)
      && (steps[i].Commit? || steps[i].Recovered? ==> steps[i].now > 0)
  }

  /** Errors and recoveries mixed in any order: a site with data stays usable and
      keeps data as long as no error comes later than the grace period. */
  lemma {:induction false} DataSurvives(c: Config, s: Status, steps: seq<Step>)
    requires ValidConfig(c) && s.state in {Up, Warning} && s.lastOnline > 0 && s.data.Some?
    requires (forall i :: 0 <= i < |steps| ==> Ordinary(steps[i])) && WithinGrace(c, s, steps)
    ensures var t := Run(c, s, steps); t.state in {Up, Warning} && t.lastOnline > 0 && t.data.Some?
  {
    if steps != [] {
      var n := |steps| - 1;
      assert forall i :: 0 <= i < n ==> steps[..n][..i] == steps[..i];
      DataSurvives(c, s, steps[..n]);
      assert Ordinary(steps[n]);
    }
  }

  // --------------------------------------------------------------- rotation

  /** What an attempt to connect meets. */
  datatype Attempt = Connected | DialFails | BadAddress

  datatype Connection = Connection(ok: bool, tried: seq<string>)

  /** k positions further in the cycle of sources. */
  function Cycled(c: Config, start: nat, k: nat): nat
    requires ValidConfig(c)
  {
    (start + k) % |c.source|
  }

  /** The sources in the order in which they are tried. */
  function Rotation(c: Config, start: nat, k: nat): (r: seq<string>)
    requires ValidConfig(c)
    ensures |r| == k
  {
    seq(k, i requires 0 <= i < k => c.source[Cycled(c, start, i)])
  }

  lemma CycleNext(c: Config, start: nat, k: nat)
    requires ValidConfig(c) && start < |c.source| && k < |c.source|
    ensures NextNum(c, Cycled(c, start, k)) == Cycled(c, start, k + 1)
    ensures Cycled(c, start, 0) == start && Cycled(c, start, |c.source|) == start
  {
    CycleIs(|c.source|, start, k);
    CycleIs(|c.source|, start, k + 1);
    CycleIs(|c.source|, start, 0);
    CycleIs(|c.source|, start, |c.source|);
  }

  lemma CycleIs(n: nat, start: nat, k: nat)
    requires start < n && k <= n
    ensures (start + k) % n == if start + k < n then start + k else start + k - n
  {
    if start + k >= n {
      assert (start + k) % n == (start + k - n) % n;
    }
  }

  /** A whole cycle tries every source exactly once. */
  lemma RotationComplete(c: Config, start: nat)
    requires ValidConfig(c) && start < |c.source|
    ensures multiset(Rotation(c, start, |c.source|)) == multiset(c.source)
  {
    var n := |c.source|;
    var tail, head := c.source[start..], c.source[..start];
    forall k | 0 <= k < n
      ensures Rotation(c, start, n)[k] == (tail + head)[k]
    {
      CycleIs(n, start, k);
    }
    assert Rotation(c, start, n) == tail + head;
    assert c.source == head + tail;
  }

  class Peer {
    const config: Config
    var state: PeerState
    var data: Option<nat>
    var lastOnline: int
    var errorCount: nat
    var curPeerAddrNum: nat
    var peerAddr: string

    function View(): Status
      reads this
    {
      Status(state, data, lastOnline, errorCount, curPeerAddrNum, peerAddr)
    }

    ghost predicate Valid()
      reads this
    {
      ValidConfig(config) && Safe(config, View())
    }

    constructor (config: Config)
      requires ValidConfig(config)
      ensures this.config == config && View() == Initial(config) && Valid()
    {
      this.config := config;
      state, data, lastOnline, errorCount, curPeerAddrNum, peerAddr := Pending, None, 0, 0, 0, config.source[0];
    }

    method ClearDataOnly()
      modifies this
      ensures View() == old(View()).(data := None)
    {
      data := None;
    }

    method ResetErrorsNow(now: int)
      modifies this
      ensures View() == ResetErrors(old(View()), now)
    {
      lastOnline, errorCount, state := now, 0, Up;
    }

    method SetNextAddrFromErr(clientError: bool, now: int)
      requires Valid()
      modifies this
      ensures Valid()
      ensures View() == Apply(config, old(View()), if clientError then ClientError else ConnectionError(now))
      ensures clientError ==> View() == old(View())
      ensures !clientError ==> lastOnline == old(lastOnline) && errorCount == old(errorCount) + 1
      ensures !clientError ==> curPeerAddrNum == if old(curPeerAddrNum) + 1 < |config.source| then old(curPeerAddrNum) + 1 else 0
      ensures !clientError ==>
        if now - old(lastOnline) > config.staleBackendTimeout || (old(lastOnline) <= 0 && old(errorCount) >= |config.source|)
        then state == Down && data == None
        else data == old(data) && state == if old(state) in {Up, Pending} then Warning else old(state)
    {
      if clientError {
        return;
      }
      errorCount := errorCount + 1;
      var nextNum := curPeerAddrNum + 1;
      if nextNum >= |config.source| {
        nextNum := 0;
      }
      curPeerAddrNum, peerAddr := nextNum, config.source[nextNum];
      if state == Up || state == Pending {
        state := Warning;
      }
      if lastOnline < now - config.staleBackendTimeout || (errorCount > |config.source| && lastOnline <= 0) {
        state := Down;
        ClearDataOnly();
      }
    }

    /** The end of a complete reload. */
    method CommitTables(fetched: nat, now: int)
      requires Valid()
      modifies this
      ensures Valid() && View() == Apply(config, old(View()), Commit(now, fetched))
      ensures state == Up && data == Some(fetched)
      ensures if old(state) == Up then lastOnline == old(lastOnline) && errorCount == old(errorCount)
              else lastOnline == now && errorCount == 0
      ensures curPeerAddrNum == old(curPeerAddrNum)
    {
      data := Some(fetched);
      if state != Up {
        ResetErrorsNow(now);
      }
    }

    /** The end of a full or delta update. */
    method UpdateDone(now: int)
      requires Valid()
      modifies this
      ensures Valid() && View() == Apply(config, old(View()), Recovered(now))
      ensures state == Up && lastOnline == now && errorCount == 0
      ensures data == old(data) && curPeerAddrNum == old(curPeerAddrNum)
    {
      ResetErrorsNow(now);
    }

    method SetBrokenState()
      requires Valid()
      modifies this
      ensures Valid() && View() == Apply(config, old(View()), SetBroken)
      ensures state == Broken && data == None
      ensures lastOnline == old(lastOnline) && errorCount == old(errorCount) && curPeerAddrNum == old(curPeerAddrNum)
    {
      state := Broken;
      ClearDataOnly();
    }

    /** The first look at the status table of a freshly contacted site. */
    method UpdateInitialStatus(hasStatus: bool) returns (ok: bool)
      requires Valid()
      modifies this
      ensures ok == hasStatus && Valid()
      ensures View() == if hasStatus then old(View()) else Apply(config, old(View()), NotReady)
      ensures !ok ==> state == Down && data == None
      ensures lastOnline == old(lastOnline) && errorCount == old(errorCount) && curPeerAddrNum == old(curPeerAddrNum)
    {
      if !hasStatus {
        state := Down;
        ClearDataOnly();
        return false;
      }
      return true;
    }

    /** Tries the sources in turn, until one answers or its address is unusable. */
    method GetConnection(dial: (string, nat) -> Attempt, now: nat -> int) returns (conn: Connection)
      requires Valid()
      modifies this
      ensures Valid()
      ensures var n := |config.source|;
              var start := old(curPeerAddrNum);
              && 0 < |conn.tried| <= n && conn.tried == Rotation(config, start, |conn.tried|)
              && (forall k :: 0 <= k < |conn.tried| - 1 ==> dial(conn.tried[k], k) == DialFails)
              && conn.ok == (dial(conn.tried[|conn.tried| - 1], |conn.tried| - 1) == Connected)
              && (if dial(conn.tried[|conn.tried| - 1], |conn.tried| - 1) == DialFails
                  then |conn.tried| == n && curPeerAddrNum == start && peerAddr == old(peerAddr) && errorCount == old(errorCount) + n
                  else curPeerAddrNum == Cycled(config, start, |conn.tried| - 1) && errorCount == old(errorCount) + |conn.tried| - 1)
    {
      hide Safe, Apply, Cycled;
      ghost var start := curPeerAddrNum;
      var tried: seq<string> := [];
      AtSource();
      CycleNext(config, start, 0);
      for x := 0 to |config.source|
        invariant Valid() && tried == Rotation(config, start, x)
        invariant forall k :: 0 <= k < x ==> dial(tried[k], k) == DialFails
        invariant curPeerAddrNum == Cycled(config, start, x) && errorCount == old(errorCount) + x
      {
        AtSource();
        var addr := peerAddr;
        assert Rotation(config, start, x + 1) == Rotation(config, start, x) + [addr];
        tried := tried + [addr];
        match dial(addr, x) {
          case Connected => return Connection(true, tried);
          case BadAddress => return Connection(false, tried);
          case DialFails =>
            CycleNext(config, start, x);
            ErrorMoves(config, View(), now(x));
            SetNextAddrFromErr(false, now(x));
        }
      }
      AtSource();
      conn := Connection(false, tried);
    }

    lemma AtSource()
      requires Valid()
      ensures curPeerAddrNum < |config.source| && peerAddr == config.source[curPeerAddrNum]
    {
    }
  }

  lemma ErrorMoves(c: Config, s: Status, now: int)
    requires ValidConfig(c)
    ensures var t := Apply(c, s, ConnectionError(now));
            t.curPeerAddrNum == NextNum(c, s.curPeerAddrNum) && t.errorCount == s.errorCount + 1
  {
  }
}
