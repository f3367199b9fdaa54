/** The NAT's abstract session log: registration, lookup, and what every run of registrations keeps. */
module NatLog {
  import opened Bytes

  datatype OutKey = OutKey(proto: Byte, client: Addr, sport: U16, server: Addr, dport: U16)

  datatype RetKey = RetKey(proto: Byte, server: Addr, sport: U16, egressIp: Addr, clientPort: U16)

  datatype Session = Session(
    clientIp: Addr, clientPort: U16, serverIp: Addr, serverPort: U16, proto: Byte,
    egressIface: string, egressIp: Addr, txPackets: U64, rxPackets: U64)
  {
    function Out(): OutKey { OutKey(proto, clientIp, clientPort, serverIp, serverPort) }

    function Ret(): RetKey { RetKey(proto, serverIp, serverPort, egressIp, clientPort) }
  }

  function SessionFor(k: OutKey, iface: string, egressIp: Addr): (s: Session)
    ensures s.Out() == k
  {
    Session(k.client, k.sport, k.server, k.dport, k.proto, iface, egressIp, 0, 0)
  }

  // ----- The log -----

  /** The first session of the log with outbound key `k`. */
  function Find(log: seq<Session>, k: OutKey): (r: Option<Session>)
    ensures r.Some? ==> r.value in log && r.value.Out() == k
    ensures r.None? ==> forall s :: s in log ==> s.Out() != k
  {
    if |log| == 0 then None
    else if log[0].Out() == k then Some(log[0])
    else Find(log[1..], k)
  }

  /** Registration on the log: reuse, append, or refuse a flow without an outbound key. */
  function Registered(log: seq<Session>, key: Option<OutKey>, iface: string, egressIp: Addr)
    : (seq<Session>, Option<Session>)
  {
    match key
    case None => (log, None)
    case Some(k) =>
      match Find(log, k)
      case Some(s) => (log, Some(s))
      case None => var s := SessionFor(k, iface, egressIp); (log + [s], Some(s))
  }

  ghost predicate DistinctOut(log: seq<Session>) {
    forall i, j :: 0 <= i < j < |log| ==> log[i].Out() != log[j].Out()
  }

  /** What a lookup may answer: some session with the return key, or none when there is none. */
  ghost predicate MayAnswer(log: seq<Session>, rk: RetKey, r: Option<Session>) {
    match r
    case Some(s) => s in log && s.Ret() == rk
    case None => forall s :: s in log ==> s.Ret() != rk
  }

  /** `i` is the position of the latest session with return key `rk`. */
  ghost predicate LatestAt(log: seq<Session>, rk: RetKey, i: int) {
    && 0 <= i < |log| && log[i].Ret() == rk
    && forall j :: i < j < |log| ==> log[j].Ret() != rk
  }

  lemma {:induction false} FindIs(log: seq<Session>, s: Session)
    requires DistinctOut(log) && s in log
    ensures Find(log, s.Out()) == Some(s)
  {
    if log[0] != s {
      var i :| 0 <= i < |log| && log[i] == s;
      assert log[0].Out() != log[i].Out();
      FindIs(log[1..], s);
    }
  }

  // ----- One registration -----

  lemma FindAfterAppend(log: seq<Session>, s: Session, k: OutKey)
    requires DistinctOut(log + [s])
    ensures Find(log + [s], k) == if Find(log, k).Some? then Find(log, k) else if s.Out() == k then Some(s) else None
  {
    if Find(log, k).Some? {
      FindIs(log + [s], Find(log, k).value);
    } else if s.Out() == k {
      FindIs(log + [s], s);
    }
  }

  /** Registering keeps every session and leaves one for the flow: the old one if there was one. */
  lemma RegisterOnce(log: seq<Session>, key: Option<OutKey>, iface: string, egressIp: Addr)
    requires DistinctOut(log)
    ensures var (after, r) := Registered(log, key, iface, egressIp);
            && log <= after && DistinctOut(after)
            && r.Some? == key.Some?
            && (key.Some? ==> r == Find(after, key.value))
            && (forall k :: Find(log, k).Some? ==> Find(after, k) == Find(log, k))
            && (forall s :: s in after && s !in log ==> r == Some(s) && s == SessionFor(key.value, iface, egressIp))
  {
    var (after, r) := Registered(log, key, iface, egressIp);
    if after != log {
      assert DistinctOut(after);
      forall k ensures Find(log, k).Some? ==> Find(after, k) == Find(log, k) {
        FindAfterAppend(log, r.value, k);
      }
      FindAfterAppend(log, r.value, key.value);
    }
  }

  // ----- Runs of registrations -----

  datatype Call = Call(key: Option<OutKey>, iface: string, egressIp: Addr)

  function RegisteredAll(log: seq<Session>, calls: seq<Call>): seq<Session> {
    if |calls| == 0 then log
    else
      var before := RegisteredAll(log, calls[..|calls| - 1]);
      var c := calls[|calls| - 1];
      Registered(before, c.key, c.iface, c.egressIp).0
  }

  /** `i` is the first call for outbound key `k`. */
  ghost predicate FirstCall(calls: seq<Call>, k: OutKey, i: int) {
    && 0 <= i < |calls| && calls[i].key == Some(k)
    && forall j :: 0 <= j < i ==> calls[j].key != Some(k)
  }

  lemma LastCall(calls: seq<Call>)
    requires |calls| > 0
    ensures var c := calls[|calls| - 1];
            RegisteredAll([], calls) ==
            Registered(RegisteredAll([], calls[..|calls| - 1]), c.key, c.iface, c.egressIp).0
  {}

  /** Over any sequence of registrations no session changes or disappears. */
  lemma {:induction false} RunKeepsSessions(calls: seq<Call>, n: nat)
    requires n <= |calls|
    ensures DistinctOut(RegisteredAll([], calls))
    ensures RegisteredAll([], calls[..n]) <= RegisteredAll([], calls)
  {
    assert calls[..|calls|] == calls;
    if |calls| > 0 {
      var m := |calls| - 1;
      RunKeepsSessions(calls[..m], if n < m then n else m);
      LastCall(calls);
      RegisterOnce(RegisteredAll([], calls[..m]), calls[m].key, calls[m].iface, calls[m].egressIp);
      if n <= m {
        assert calls[..n] == calls[..m][..n];
      }
    }
  }

  lemma {:induction false} FoundWasCalled(calls: seq<Call>, k: OutKey) returns (i: int)
    requires Find(RegisteredAll([], calls), k).Some?
    ensures FirstCall(calls, k, i)
  {
    var m := |calls| - 1;
    var before, c := RegisteredAll([], calls[..m]), calls[m];
    LastCall(calls);
    if Find(before, k).Some? {
      i := FoundWasCalled(calls[..m], k);
    } else {
      var s := Find(RegisteredAll([], calls), k).value;
      assert s in before + [s];
      i := FirstBefore(calls, k, m);
    }
  }

  lemma FirstBefore(calls: seq<Call>, k: OutKey, j: nat) returns (i: int)
    requires j < |calls| && calls[j].key == Some(k)
    ensures FirstCall(calls, k, i)
  {
    i := 0;
    while calls[i].key != Some(k)
      invariant 0 <= i <= j
      invariant forall l :: 0 <= l < i ==> calls[l].key != Some(k)
      decreases j - i
    {
      i := i + 1;
    }
  }

  /** The session of a flow is for ever the one made from the first call with its key. */
  lemma {:induction false} SessionIsFirstCall(calls: seq<Call>, k: OutKey, i: int)
    requires FirstCall(calls, k, i)
    ensures Find(RegisteredAll([], calls), k) == Some(SessionFor(k, calls[i].iface, calls[i].egressIp))
  {
    var m := |calls| - 1;
    var before := RegisteredAll([], calls[..m]);
    LastCall(calls);
    RunKeepsSessions(calls[..m], m);
    RegisterOnce(before, calls[m].key, calls[m].iface, calls[m].egressIp);
    if i < m {
      SessionIsFirstCall(calls[..m], k, i);
    } else {
      assert forall j :: 0 <= j < m ==> calls[..m][j].key != Some(k);
      if Find(before, k).Some? {
        var j := FoundWasCalled(calls[..m], k);
      }
    }
  }

  /** Every session comes from such a call. */
  lemma SessionWasCalled(calls: seq<Call>, s: Session) returns (i: int)
    requires s in RegisteredAll([], calls)
    ensures FirstCall(calls, s.Out(), i)
    ensures s == SessionFor(s.Out(), calls[i].iface, calls[i].egressIp)
  {
    RunKeepsSessions(calls, 0);
    FindIs(RegisteredAll([], calls), s);
    i := FoundWasCalled(calls, s.Out());
    SessionIsFirstCall(calls, s.Out(), i);
  }

  // ----- When a lookup is deterministic -----

  ghost predicate DistinctRet(log: seq<Session>) {
    forall i, j :: 0 <= i < j < |log| ==> log[i].Ret() != log[j].Ret()
  }

  ghost predicate OneAnswer(log: seq<Session>) {
    forall rk, a, b :: MayAnswer(log, rk, a) && MayAnswer(log, rk, b) ==> a == b
  }

  /** Lookups have one answer each exactly when no two sessions share a return key. */
  lemma LookupDeterministicExactly(log: seq<Session>)
    requires DistinctOut(log)
    ensures OneAnswer(log) <==> DistinctRet(log)
  {
    if OneAnswer(log) {
      forall i, j | 0 <= i < j < |log| ensures log[i].Ret() != log[j].Ret() {
        assert log[i].Out() != log[j].Out();
        assert MayAnswer(log, log[i].Ret(), Some(log[i]));
        assert MayAnswer(log, log[j].Ret(), Some(log[j]));
      }
    }
  }

  ghost predicate SingleClient(log: seq<Session>, client: Addr) {
    forall s :: s in log ==> s.clientIp == client
  }

  /**
   * With one client address the answer is unique: it is the log entry at the stored index, or
   * nothing when no session has the key.
   */
  lemma SingleClientFollowsIndex(log: seq<Session>, client: Addr, rk: RetKey, r: Option<Session>)
    requires DistinctOut(log) && SingleClient(log, client) && MayAnswer(log, rk, r)
    ensures DistinctRet(log)
    ensures r.Some? ==> exists i :: LatestAt(log, rk, i) && r == Some(log[i])
    ensures forall i :: LatestAt(log, rk, i) ==> r == Some(log[i])
    ensures r.Some? ==> r == Find(log, OutKey(rk.proto, client, rk.clientPort, rk.server, rk.sport))
  {
    forall i, j | 0 <= i < j < |log| ensures log[i].Ret() != log[j].Ret() {
      assert log[i].clientIp == log[j].clientIp;
      assert log[i].Out() != log[j].Out();
    }
    if r.Some? {
      var i :| 0 <= i < |log| && log[i] == r.value;
      assert LatestAt(log, rk, i);
      FindIs(log, r.value);
    }
    forall i | LatestAt(log, rk, i) ensures r == Some(log[i]) {
      assert log[i] in log;
    }
  }

  /** Two sessions that share a return key belong to different clients behind one egress address. */
  lemma SharedReturnKey(log: seq<Session>, i: nat, j: nat)
    requires DistinctOut(log) && i < j < |log|
    ensures log[i].Ret() == log[j].Ret() <==>
              && log[i].clientIp != log[j].clientIp && log[i].egressIp == log[j].egressIp
              && log[i].Out() == log[j].Out().(client := log[i].clientIp)
  {}

  /** Two clients with equal ports and server behind one egress: a reply may be handed to either of them. */
  lemma ReplyMayGoToWrongClient(k: OutKey, other: Addr, iface: string, egressIp: Addr)
    requires other != k.client
    ensures var calls := [Call(Some(k), iface, egressIp), Call(Some(k.(client := other)), iface, egressIp)];
            var log := RegisteredAll([], calls);
            var a, b := SessionFor(k, iface, egressIp), SessionFor(k.(client := other), iface, egressIp);
            a != b && log == [a, b] && MayAnswer(log, a.Ret(), Some(a)) && MayAnswer(log, a.Ret(), Some(b))
  {
    var first, second := Call(Some(k), iface, egressIp), Call(Some(k.(client := other)), iface, egressIp);
    var calls := [first, second];
    assert calls[..1] == [first] && [first][..0] == [];
    assert RegisteredAll([], [first]) == [SessionFor(k, iface, egressIp)];
  }
}
