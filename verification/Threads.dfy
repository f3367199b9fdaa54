/** What one thread may rely on while the others run, and how runs are taken apart by thread. */
module Threads {
  import opened Bytes
  import opened NatLog
  import opened DataPlane

  lemma {:induction false} ExecAppend(net: Net, s: Sys, a: seq<Step>, b: seq<Step>)
    requires Exec(net, s, a).Some?
    ensures Exec(net, s, a + b) == Exec(net, Exec(net, s, a).value, b)
    decreases |a|
  {
    if |a| == 0 {
      assert a + b == b;
    } else {
      assert (a + b)[1..] == a[1..] + b;
      ExecAppend(net, Apply(net, s, a[0]).value, a[1..], b);
    }
  }

  lemma ExecCons(net: Net, s: Sys, x: Step, mid: Sys, steps: seq<Step>, t: Sys)
    requires Apply(net, s, x) == Some(mid) && Exec(net, mid, steps) == Some(t)
    ensures Exec(net, s, [x] + steps) == Some(t)
  {
    assert ([x] + steps)[1..] == steps;
  }

  /** The steps of the capture thread of `ifname`. */
  predicate IsOwn(ifname: string, step: Step) {
    match step
    case Receive(n, _) => n == ifname
    case Lookup(n, _) => n == ifname
    case Write(n, _) => n == ifname
    case _ => false
  }

  function OwnSteps(ifname: string, steps: seq<Step>): seq<Step> {
    if |steps| == 0 then []
    else if IsOwn(ifname, steps[0]) then [steps[0]] + OwnSteps(ifname, steps[1..])
    else OwnSteps(ifname, steps[1..])
  }

  /** What the thread does with a packet it looks up: at most one write, which succeeds. */
  function LookupSteps(ifname: string, answer: Option<Session>): seq<Step> {
    [Lookup(ifname, answer)] + if answer.Some? then [Write(ifname, true)] else []
  }

  /** One iteration of the capture loop over such a packet. */
  function Iteration(ifname: string, pkt: seq<Byte>, answer: Option<Session>): seq<Step> {
    [Receive(ifname, pkt)] + LookupSteps(ifname, answer)
  }

  /** No step takes a session out of the table or an event out of the trace. */
  lemma StepGrows(net: Net, s: Sys, step: Step, t: Sys)
    requires Apply(net, s, step) == Some(t)
    ensures s.log <= t.log && s.trace <= t.trace
  {}

  lemma {:induction false} RunGrows(net: Net, s: Sys, steps: seq<Step>, t: Sys)
    requires Exec(net, s, steps) == Some(t)
    ensures s.log <= t.log && s.trace <= t.trace
    decreases |steps|
  {
    if |steps| > 0 {
      var u := Apply(net, s, steps[0]).value;
      StepGrows(net, s, steps[0], u);
      RunGrows(net, u, steps[1..], t);
    }
  }

  /** The program counter of a capture thread, as far as it has one. */
  function PcOf(s: Sys, ifname: string): Option<CapturePc> {
    if ifname in s.captures then Some(s.captures[ifname]) else None
  }

  /** The steps of the other threads leave it alone. */
  lemma OthersKeepPc(net: Net, s: Sys, step: Step, t: Sys, ifname: string)
    requires Apply(net, s, step) == Some(t) && !IsOwn(ifname, step)
    ensures PcOf(t, ifname) == PcOf(s, ifname)
  {}

  /**
   * A run in which the thread of `ifname` moves reaches, after steps of other threads only, a state
   * where its next step is taken with its program counter unchanged.
   */
  lemma {:induction false} NextOwnStep(net: Net, s: Sys, steps: seq<Step>, t: Sys, ifname: string)
    returns (before: seq<Step>, u: Sys, v: Sys, after: seq<Step>)
    requires Exec(net, s, steps) == Some(t) && |OwnSteps(ifname, steps)| > 0
    ensures steps == before + [OwnSteps(ifname, steps)[0]] + after
    ensures OwnSteps(ifname, after) == OwnSteps(ifname, steps)[1..]
    ensures Exec(net, s, before) == Some(u) && PcOf(u, ifname) == PcOf(s, ifname)
    ensures Apply(net, u, OwnSteps(ifname, steps)[0]) == Some(v)
    ensures Exec(net, v, after) == Some(t)
    decreases |steps|
  {
    var next := Apply(net, s, steps[0]).value;
    if IsOwn(ifname, steps[0]) {
      before, u, v, after := [], s, next, steps[1..];
    } else {
      OthersKeepPc(net, s, steps[0], next, ifname);
      var rest;
      rest, u, v, after := NextOwnStep(net, next, steps[1..], t, ifname);
      before := [steps[0]] + rest;
      ExecCons(net, s, steps[0], next, rest, u);
    }
  }
}
