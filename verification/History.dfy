/** The session log in terms of the trace: every session is the one its flow was first registered with. */
module History {
  import opened Bytes
  import opened NatLog
  import opened Nat
  import opened Aggregator
  import opened DataPlane

  /** The registration calls of a trace, in order. */
  function CallsOf(trace: seq<Event>): seq<Call> {
    if |trace| == 0 then []
    else
      var init, last := CallsOf(trace[..|trace| - 1]), trace[|trace| - 1];
      if last.Registration? then init + [Call(OutKeyOf(last.flow), last.iface, last.egressIp)] else init
  }

  /** The table holds exactly what the registrations in the trace made of it. */
  ghost predicate LogOfTrace(s: Sys) {
    s.log == RegisteredAll([], CallsOf(s.trace))
  }

  lemma CallsSnoc(trace: seq<Event>, e: Event)
    ensures CallsOf(trace + [e]) ==
            CallsOf(trace) + if e.Registration? then [Call(OutKeyOf(e.flow), e.iface, e.egressIp)] else []
  {
    assert (trace + [e])[..|trace|] == trace;
  }

  lemma CallMade(calls: seq<Call>, c: Call)
    ensures RegisteredAll([], calls + [c]) == Registered(RegisteredAll([], calls), c.key, c.iface, c.egressIp).0
  {
    assert (calls + [c])[..|calls|] == calls;
  }

  lemma StepKeepsLogOfTrace(net: Net, s: Sys, step: Step, t: Sys)
    requires LogOfTrace(s) && Apply(net, s, step) == Some(t)
    ensures LogOfTrace(t)
  {
    if t.trace != s.trace {
      var e := t.trace[|s.trace|];
      assert t.trace == s.trace + [e];
      CallsSnoc(s.trace, e);
      if step.Register? {
        CallMade(CallsOf(s.trace), Call(OutKeyOf(e.flow), e.iface, e.egressIp));
      }
    }
  }

  lemma {:induction false} RunKeepsLogOfTrace(net: Net, s: Sys, steps: seq<Step>, t: Sys)
    requires LogOfTrace(s) && Exec(net, s, steps) == Some(t)
    ensures LogOfTrace(t)
    decreases |steps|
  {
    if |steps| > 0 {
      var u := Apply(net, s, steps[0]).value;
      StepKeepsLogOfTrace(net, s, steps[0], u);
      RunKeepsLogOfTrace(net, u, steps[1..], t);
    }
  }

  // ----- First registrations -----

  predicate Registers(e: Event, k: OutKey) {
    e.Registration? && OutKeyOf(e.flow) == Some(k)
  }

  /** `j` is where flow `k` is registered for the first time. */
  ghost predicate FirstRegistration(trace: seq<Event>, k: OutKey, j: int) {
    && 0 <= j < |trace| && Registers(trace[j], k)
    && forall l :: 0 <= l < j ==> !Registers(trace[l], k)
  }

  lemma FirstOf(trace: seq<Event>, k: OutKey, j: nat) returns (first: int)
    requires j < |trace| && Registers(trace[j], k)
    ensures FirstRegistration(trace, k, first) && first <= j
  {
    first := 0;
    while !Registers(trace[first], k)
      invariant 0 <= first <= j
      invariant forall l :: 0 <= l < first ==> !Registers(trace[l], k)
      decreases j - first
    {
      first := first + 1;
    }
  }

  lemma {:induction false} CallFromTrace(trace: seq<Event>, c: Call, k: OutKey) returns (j: nat)
    requires c in CallsOf(trace) && c.key == Some(k)
    ensures j < |trace| && Registers(trace[j], k)
  {
    var m := |trace| - 1;
    if Registers(trace[m], k) {
      j := m;
    } else {
      j := CallFromTrace(trace[..m], c, k);
    }
  }

  /** The first registration of a flow is the first call with its key. */
  lemma {:induction false} FirstIsFirstCall(trace: seq<Event>, k: OutKey, j: int) returns (i: int)
    requires FirstRegistration(trace, k, j)
    ensures FirstCall(CallsOf(trace), k, i)
    ensures CallsOf(trace)[i] == Call(Some(k), trace[j].iface, trace[j].egressIp)
  {
    var m := |trace| - 1;
    var init := trace[..m];
    if j < m {
      i := FirstIsFirstCall(init, k, j);
    } else {
      i := |CallsOf(init)|;
      forall l | 0 <= l < i ensures CallsOf(trace)[l].key != Some(k) {
        if CallsOf(init)[l].key == Some(k) {
          var at := CallFromTrace(init, CallsOf(init)[l], k);
        }
      }
    }
  }

  /** The session of a flow, for ever: made by its first registration. */
  function FirstSession(trace: seq<Event>, k: OutKey, j: nat): Session
    requires j < |trace| && Registers(trace[j], k)
  {
    SessionFor(k, trace[j].iface, trace[j].egressIp)
  }

  lemma FindsFirstSession(s: Sys, k: OutKey, j: int)
    requires LogOfTrace(s) && FirstRegistration(s.trace, k, j)
    ensures Find(s.log, k) == Some(FirstSession(s.trace, k, j))
  {
    var i := FirstIsFirstCall(s.trace, k, j);
    SessionIsFirstCall(CallsOf(s.trace), k, i);
  }

  lemma SessionHasFirst(s: Sys, sess: Session) returns (j: int)
    requires LogOfTrace(s) && sess in s.log
    ensures FirstRegistration(s.trace, sess.Out(), j) && sess == FirstSession(s.trace, sess.Out(), j)
  {
    var calls := CallsOf(s.trace);
    var i := SessionWasCalled(calls, sess);
    var at := CallFromTrace(s.trace, calls[i], sess.Out());
    j := FirstOf(s.trace, sess.Out(), at);
    FindsFirstSession(s, sess.Out(), j);
    RunKeepsSessions(calls, 0);
    FindIs(s.log, sess);
  }

  /**
   * In every interleaving the table holds, for each flow, the session of its first registration, and
   * no other session.
   */
  lemma SessionsAreFirstRegistrations(
      net: Net, agg: AggState, ifnames: set<string>, steps: seq<Step>, s: Sys, sess: Session)
    requires Exec(net, Init(agg, ifnames), steps) == Some(s)
    ensures sess in s.log <==>
            exists j :: FirstRegistration(s.trace, sess.Out(), j) && sess == FirstSession(s.trace, sess.Out(), j)
  {
    RunKeepsLogOfTrace(net, Init(agg, ifnames), steps, s);
    if sess in s.log {
      var j := SessionHasFirst(s, sess);
    }
    if j :| FirstRegistration(s.trace, sess.Out(), j) && sess == FirstSession(s.trace, sess.Out(), j) {
      FindsFirstSession(s, sess.Out(), j);
    }
  }
}
