/** Whole runs: a reply that arrives, one whose flow has moved, and one that goes to the wrong client. */
module Scenarios {
  import opened Bytes
  import opened Text
  import opened Packet
  import opened Rewrite
  import opened NatLog
  import opened Nat
  import opened Aggregator
  import opened DataPlane
  import opened Threads
  import opened History
  import opened Delivery
  import opened Loops
  import opened Policy

  // ----- Forwarding a packet -----

  /** The four steps that forward one packet. */
  function Forwarding(pkt: seq<Byte>): seq<Step> { [Read(pkt), Route, Register, Send(true)] }

  /** The only interface is `c`, and the data plane can use it. */
  predicate OnlyInterface(net: Net, agg: AggState, c: Candidate) {
    && agg.config.enabled && agg.config.strategy.Failover? && agg.candidates == [c] && c.Usable()
    && c.name in net.ips && c.name in net.socks
  }

  lemma OnlyInterfaceIsPicked(net: Net, agg: AggState, c: Candidate, key: string)
    requires OnlyInterface(net, agg, c)
    ensures Selected(agg, key).1 == Some(c.name)
    ensures Selected(agg, key).0.config == agg.config
  {
    assert Usable(agg.candidates[1..]) == [];
    assert Usable(agg.candidates) == [c];
    assert SortByPriority([c][1..]) == [];
  }

  /** What forwarding `pkt` over `iface` with address `ip` adds to the trace. */
  function ForwardEvents(pkt: seq<Byte>, iface: string, ip: Addr): seq<Event>
    requires WellFormed(pkt)
  {
    [Registration(pkt, Parsed(pkt).value, iface, ip), Sent(pkt, Rewritten(pkt, Source, ip), iface)]
  }

  lemma RoutesTo(net: Net, s: Sys, pkt: seq<Byte>, c: Candidate)
    requires WellFormed(pkt) && s.egress == Routing(pkt, Parsed(pkt).value) && OnlyInterface(net, s.agg, c)
    ensures var agg := Routed(s.agg, pkt).0;
            && agg.config == s.agg.config && agg.candidates == s.agg.candidates
            && Apply(net, s, Route) ==
               Some(s.(agg := agg, egress := Registering(pkt, Parsed(pkt).value, c.name, net.ips[c.name])))
  {
    OnlyInterfaceIsPicked(net, s.agg, c, Parsed(pkt).value.Key());
    V4AddressesReadBack(pkt);
  }

  lemma RegistersAndSends(net: Net, s: Sys, pkt: seq<Byte>, iface: string, ip: Addr)
    requires WellFormed(pkt) && s.egress == Registering(pkt, Parsed(pkt).value, iface, ip)
    ensures Exec(net, s, [Register, Send(true)]) ==
            Some(s.(log := Registered(s.log, OutKeyOf(Parsed(pkt).value), iface, ip).0, egress := Reading,
                    trace := s.trace + ForwardEvents(pkt, iface, ip)))
  {
    OutKeyIsBytes(pkt);
    var s1 := Apply(net, s, Register).value;
    var s2 := Apply(net, s1, Send(true)).value;
    ExecCons(net, s1, Send(true), s2, [], s2);
    ExecCons(net, s, Register, s1, [Send(true)], s2);
    assert [Register] + [Send(true)] == [Register, Send(true)];
    assert s2.trace == s.trace + ForwardEvents(pkt, iface, ip);
  }

  lemma ForwardOnce(net: Net, s: Sys, pkt: seq<Byte>, c: Candidate) returns (t: Sys)
    requires s.egress == Reading && WellFormed(pkt) && |pkt| <= 65536
    requires OnlyInterface(net, s.agg, c)
    ensures Exec(net, s, Forwarding(pkt)) == Some(t)
    ensures t.egress == Reading && t.captures == s.captures
    ensures t.agg.config == s.agg.config && t.agg.candidates == s.agg.candidates
    ensures t.log == Registered(s.log, OutKeyOf(Parsed(pkt).value), c.name, net.ips[c.name]).0
    ensures t.trace == s.trace + ForwardEvents(pkt, c.name, net.ips[c.name])
  {
    var ip := net.ips[c.name];
    var s1 := s.(egress := Routing(pkt, Parsed(pkt).value));
    RoutesTo(net, s1, pkt, c);
    var s2 := Apply(net, s1, Route).value;
    RegistersAndSends(net, s2, pkt, c.name, ip);
    t := Exec(net, s2, [Register, Send(true)]).value;
    ExecCons(net, s1, Route, s2, [Register, Send(true)], t);
    ExecCons(net, s, Read(pkt), s1, [Route] + [Register, Send(true)], t);
    assert [Read(pkt)] + ([Route] + [Register, Send(true)]) == Forwarding(pkt);
  }

  // ----- A reply that arrives -----

  /**
   * For every IPv4 packet and every reply to it there is a run in which the reply arrives, and no
   * client contests it. So what ReplyDeliveredExactly asks of a run can be met.
   */
  lemma RoundTripRun(
      net: Net, agg: AggState, c: Candidate, p: seq<Byte>, ifnames: set<string>, ifname: string, r: seq<Byte>,
      k: OutKey)
    returns (s: Sys, answer: Option<Session>, t: Sys)
    requires WellFormed(p) && |p| <= 65536 && |r| <= 65536 && OutKeyOf(Parsed(p).value) == Some(k)
    requires OnlyInterface(net, agg, c) && ifname in ifnames
    requires ReplyTo(Rewritten(p, Source, net.ips[c.name]), r)
    ensures Exec(net, Init(agg, ifnames), Forwarding(p)) == Some(s)
    ensures |s.trace| == 2 && SentAs(net, s.trace[1], k, net.ips[c.name]) && ReplyTo(s.trace[1].out, r)
    ensures Exec(net, s, Iteration(ifname, r, answer)) == Some(t)
    ensures OwnSteps(ifname, Iteration(ifname, r, answer)) == Iteration(ifname, r, answer)
    ensures !Contested(t.trace, k, net.ips[c.name]) && Delivered(s.trace, t.trace, r, k)
  {
    var sess := SessionFor(k, c.name, net.ips[c.name]);
    answer := Some(sess);
    s := ForwardOnce(net, Init(agg, ifnames), p, c);
    t := s.(trace := s.trace + Written(r, answer));
    OwnSession(p, c.name, net.ips[c.name], k, r);
    assert s.log == [sess];
    ForwardedIsSent(net, c, p, k, s.trace);
    RoundTripTrace(c.name, net.ips[c.name], p, r, k, s.trace, sess, Written(r, answer));
    CapturedIsRun(net, s, ifname, r, answer);
    OwnIteration(ifname, r, answer);
  }

  /** The trace of such a run: the reply is delivered uncontested. */
  lemma RoundTripTrace(
      iface: string, ip: Addr, p: seq<Byte>, r: seq<Byte>, k: OutKey, trace: seq<Event>, sess: Session,
      more: seq<Event>)
    requires WellFormed(p) && OutKeyOf(Parsed(p).value) == Some(k)
    requires sess == SessionFor(k, iface, ip) && HasRetKey(r, sess.Ret()) && more == Written(r, Some(sess))
    requires trace == [] + ForwardEvents(p, iface, ip)
    ensures !Contested(trace + more, k, ip) && Delivered(trace, trace + more, r, k)
  {
    WrittenIsDelivered(trace, r, sess);
    OneFlowUncontested(p, iface, ip, k, trace, more);
  }

  lemma ForwardedIsSent(net: Net, c: Candidate, p: seq<Byte>, k: OutKey, trace: seq<Event>)
    requires WellFormed(p) && OutKeyOf(Parsed(p).value) == Some(k) && c.name in net.ips
    requires trace == [] + ForwardEvents(p, c.name, net.ips[c.name])
    ensures |trace| == 2 && trace[1].Sent? && trace[1].out == Rewritten(p, Source, net.ips[c.name])
    ensures SentAs(net, trace[1], k, net.ips[c.name])
  {}

  lemma OwnStep(ifname: string, x: Step, rest: seq<Step>)
    requires IsOwn(ifname, x)
    ensures OwnSteps(ifname, [x] + rest) == [x] + OwnSteps(ifname, rest)
  {
    assert ([x] + rest)[1..] == rest;
  }

  lemma OwnIteration(ifname: string, r: seq<Byte>, answer: Option<Session>)
    ensures OwnSteps(ifname, Iteration(ifname, r, answer)) == Iteration(ifname, r, answer)
  {
    var write := if answer.Some? then [Write(ifname, true)] else [];
    if answer.Some? {
      OwnStep(ifname, Write(ifname, true), []);
      assert [Write(ifname, true)] + [] == write;
    }
    OwnStep(ifname, Lookup(ifname, answer), write);
    OwnStep(ifname, Receive(ifname, r), LookupSteps(ifname, answer));
  }

  /** The reply to a packet forwarded into an empty table finds its session. */
  lemma OwnSession(p: seq<Byte>, iface: string, ip: Addr, k: OutKey, r: seq<Byte>)
    requires WellFormed(p) && OutKeyOf(Parsed(p).value) == Some(k) && ReplyTo(Rewritten(p, Source, ip), r)
    ensures Captured([SessionFor(k, iface, ip)], r, Some(SessionFor(k, iface, ip)))
    ensures AfterReceive(r).LookingUp? && HasRetKey(r, ReplyKey(k, ip))
  {
    OutKeyText(Parsed(p).value, k);
    ParseAfterRewrite(p, Source, ip);
    ReplyIsLookedUp(k, ip, Rewritten(p, Source, ip), r);
  }

  lemma WrittenIsDelivered(trace: seq<Event>, r: seq<Byte>, sess: Session)
    requires HasRetKey(r, sess.Ret())
    ensures Delivered(trace, trace + Written(r, Some(sess)), r, sess.Out())
  {
    WrittenFlow(r, sess);
    assert (trace + Written(r, Some(sess)))[|trace|] == Injected(r, Rewritten(r, Destination, sess.clientIp));
  }

  lemma OneFlowUncontested(p: seq<Byte>, iface: string, ip: Addr, k: OutKey, trace: seq<Event>, more: seq<Event>)
    requires WellFormed(p) && OutKeyOf(Parsed(p).value) == Some(k)
    requires trace == [] + ForwardEvents(p, iface, ip)
    requires forall j :: 0 <= j < |more| ==> !more[j].Registration?
    ensures !Contested(trace + more, k, ip)
  {
    var after := trace + more;
    forall j | 0 <= j < |after| ensures after[j].Registration? ==> Registers(after[j], k) {
      if j >= 2 {
        assert after[j] == more[j - 2];
      }
    }
  }

  /** A packet with equal ports has a reply: itself with the addresses exchanged. */
  lemma SwappedIsReply(out: seq<Byte>) returns (r: seq<Byte>)
    requires WellFormed(out) && Parsed(out).value.sport == Parsed(out).value.dport
    ensures ReplyTo(out, r) && |r| == |out|
  {
    var src, dst := GetAddr(out, Source), GetAddr(out, Destination);
    ParseAfterRewrite(out, Source, dst);
    var mid := Rewritten(out, Source, dst);
    ParseAfterRewrite(mid, Destination, src);
    r := Rewritten(mid, Destination, src);
  }

  // ----- A flow that moves loses its replies -----

  /**
   * A flow that moves loses its replies, for every IPv4 packet and any two interfaces with different
   * addresses: forward the packet over `a`, let failover move to `b`, forward it again. The second
   * packet is on the wire, and its reply can only be dropped.
   */
  lemma MovedFlowLosesReply(
      net: Net, config: Config, a: Candidate, b: Candidate, pkt: seq<Byte>, ifnames: set<string>, r: seq<Byte>)
    returns (steps: seq<Step>, s: Sys)
    requires IsV4(pkt) && |pkt| <= 65536
    requires OnlyInterface(net, AggState(config, [a], 0, map[]), a)
    requires OnlyInterface(net, AggState(config, [b], 0, map[]), b)
    requires net.ips[a.name] != net.ips[b.name]
    ensures Exec(net, Init(AggState(config, [a], 0, map[]), ifnames), steps) == Some(s)
    ensures |s.trace| == 4 && s.trace[3].Sent? && s.trace[3].iface == b.name && s.trace[3].pkt == pkt
    ensures ReplyTo(s.trace[3].out, r) ==>
              && AfterReceive(r).LookingUp?
              && forall answer :: MayAnswer(s.log, AfterReceive(r).rk, answer) ==> answer == None
  {
    ParsesExactlyWellFormed(pkt);
    steps, s := ForwardTwice(net, Init(AggState(config, [a], 0, map[]), ifnames), pkt, a, pkt, b);
    MovedReplyUnanswered(net, a, b, pkt, s.log, s.trace, r);
  }

  /** The reply to the packet that moved is looked up under an address that no session has. */
  lemma MovedReplyUnanswered(
      net: Net, a: Candidate, b: Candidate, pkt: seq<Byte>, log: seq<Session>, trace: seq<Event>, r: seq<Byte>)
    requires WellFormed(pkt) && a.name in net.ips && b.name in net.ips && net.ips[a.name] != net.ips[b.name]
    requires trace == [] + ForwardEvents(pkt, a.name, net.ips[a.name]) + ForwardEvents(pkt, b.name, net.ips[b.name])
    requires log == Registered(Registered([], OutKeyOf(Parsed(pkt).value), a.name, net.ips[a.name]).0,
                               OutKeyOf(Parsed(pkt).value), b.name, net.ips[b.name]).0
    ensures |trace| == 4 && trace[3].Sent? && trace[3].iface == b.name && trace[3].pkt == pkt
    ensures ReplyTo(trace[3].out, r) ==>
              && AfterReceive(r).LookingUp?
              && forall answer :: MayAnswer(log, AfterReceive(r).rk, answer) ==> answer == None
  {
    OutKeyIsBytes(pkt);
    var k := OutKeyOf(Parsed(pkt).value).value;
    RegisterTwo(k, a.name, net.ips[a.name], k, b.name, net.ips[b.name]);
    assert trace[3] == Sent(pkt, Rewritten(pkt, Source, net.ips[b.name]), b.name);
    if ReplyTo(trace[3].out, r) {
      OtherAddressUnanswered(pkt, k, SessionFor(k, a.name, net.ips[a.name]), net.ips[b.name], trace[3].out, r);
    }
  }

  lemma OtherAddressUnanswered(pkt: seq<Byte>, k: OutKey, sess: Session, ip: Addr, out: seq<Byte>, r: seq<Byte>)
    requires WellFormed(pkt) && OutKeyOf(Parsed(pkt).value) == Some(k) && sess.egressIp != ip
    requires out == Rewritten(pkt, Source, ip) && ReplyTo(out, r)
    ensures AfterReceive(r).LookingUp?
    ensures forall answer :: MayAnswer([sess], AfterReceive(r).rk, answer) ==> answer == None
  {
    OutKeyText(Parsed(pkt).value, k);
    ParseAfterRewrite(pkt, Source, ip);
    ReplyIsLookedUp(k, ip, out, r);
  }

  /** Forward `p` over `a`, refresh to `b` alone, forward `q` over `b`. */
  lemma ForwardTwice(net: Net, s: Sys, p: seq<Byte>, a: Candidate, q: seq<Byte>, b: Candidate)
    returns (steps: seq<Step>, t: Sys)
    requires s.egress == Reading && WellFormed(p) && |p| <= 65536 && WellFormed(q) && |q| <= 65536
    requires OnlyInterface(net, s.agg, a) && OnlyInterface(net, s.agg.(candidates := [b]), b)
    ensures Exec(net, s, steps) == Some(t)
    ensures t.captures == s.captures
    ensures t.log == Registered(Registered(s.log, OutKeyOf(Parsed(p).value), a.name, net.ips[a.name]).0,
                                OutKeyOf(Parsed(q).value), b.name, net.ips[b.name]).0
    ensures t.trace == s.trace + ForwardEvents(p, a.name, net.ips[a.name]) + ForwardEvents(q, b.name, net.ips[b.name])
  {
    var s1 := ForwardOnce(net, s, p, a);
    t := ForwardOnce(net, s1.(agg := s1.agg.(candidates := [b])), q, b);
    steps := RefreshBetween(net, s, Forwarding(p), s1, [b], Forwarding(q), t);
  }

  lemma RefreshBetween(
      net: Net, s: Sys, first: seq<Step>, mid: Sys, candidates: seq<Candidate>, second: seq<Step>, t: Sys)
    returns (steps: seq<Step>)
    requires Exec(net, s, first) == Some(mid)
    requires Exec(net, mid.(agg := mid.agg.(candidates := candidates)), second) == Some(t)
    ensures Exec(net, s, steps) == Some(t)
  {
    var refresh := Step.Refresh(candidates);
    ExecCons(net, mid, refresh, mid.(agg := mid.agg.(candidates := candidates)), second, t);
    ExecAppend(net, s, first, [refresh] + second);
    steps := first + ([refresh] + second);
  }

  /** Two registrations in an empty table: the second reuses the session of the first, or adds its own. */
  lemma RegisterTwo(k: OutKey, a: string, x: Addr, l: OutKey, b: string, y: Addr)
    ensures Registered(Registered([], Some(k), a, x).0, Some(l), b, y).0 ==
            if k == l then [SessionFor(k, a, x)] else [SessionFor(k, a, x), SessionFor(l, b, y)]
  {
    var log := [SessionFor(k, a, x)];
    assert Registered([], Some(k), a, x).0 == log;
    assert log[1..] == [];
    assert log[0].Out() == k;
    assert log + [SessionFor(l, b, y)] == [SessionFor(k, a, x), SessionFor(l, b, y)];
  }

  // ----- Two clients with the same ports -----

  /** Same protocol, server and ports, from different clients. */
  ghost predicate SameButClient(p: seq<Byte>, q: seq<Byte>) {
    && WellFormed(p) && WellFormed(q)
    && p[9] == q[9] && p[16..20] == q[16..20] && p[12..16] != q[12..16]
    && Parsed(p).value.sport == Parsed(q).value.sport && Parsed(p).value.dport == Parsed(q).value.dport
  }

  /**
   * A reply that reaches the wrong client, for every two IPv4 packets that differ in client only: both
   * are forwarded over one interface, and the reply to the first is written to the TUN for the second.
   */
  lemma ReplyReachesWrongClient(
      net: Net, agg: AggState, c: Candidate, p: seq<Byte>, q: seq<Byte>, ifnames: set<string>, ifname: string,
      r: seq<Byte>)
    returns (steps: seq<Step>, s: Sys)
    requires SameButClient(p, q) && |p| <= 65536 && |q| <= 65536 && |r| <= 65536
    requires OnlyInterface(net, agg, c) && ifname in ifnames
    requires ReplyTo(Rewritten(p, Source, net.ips[c.name]), r)
    ensures Exec(net, Init(agg, ifnames), steps) == Some(s)
    ensures |s.trace| == 5 && s.trace[1] == Sent(p, Rewritten(p, Source, net.ips[c.name]), c.name)
    ensures Rewritable(r) && s.trace[4] == Injected(r, Rewritten(r, Destination, q[12..16]))
    ensures Parsed(s.trace[4].out) == Some(Parsed(r).value.(dst := Render(q[12..16])))
    ensures Parsed(r).value.dst == Render(net.ips[c.name]) && q[12..16] != p[12..16]
  {
    var forward, mid := ForwardTwice(net, Init(agg, ifnames), p, c, q, c);
    var other := SecondSession(net.ips[c.name], c.name, p, q, mid.log, r);
    steps, s := CaptureAfter(net, Init(agg, ifnames), forward, mid, ifname, r, other);
    WrittenForWrongClient(net, c, p, q, s.trace, r);
  }

  lemma WrittenForWrongClient(net: Net, c: Candidate, p: seq<Byte>, q: seq<Byte>, trace: seq<Event>, r: seq<Byte>)
    requires c.name in net.ips && WellFormed(p) && WellFormed(q) && WellFormed(r)
    requires trace == [] + ForwardEvents(p, c.name, net.ips[c.name]) + ForwardEvents(q, c.name, net.ips[c.name]) +
                      [Injected(r, Rewritten(r, Destination, q[12..16]))]
    ensures |trace| == 5 && trace[1] == Sent(p, Rewritten(p, Source, net.ips[c.name]), c.name)
    ensures Rewritable(r) && trace[4] == Injected(r, Rewritten(r, Destination, q[12..16]))
    ensures Parsed(trace[4].out) == Some(Parsed(r).value.(dst := Render(q[12..16])))
  {
    ParseAfterRewrite(r, Destination, q[12..16]);
  }

  lemma CaptureAfter(net: Net, s: Sys, forward: seq<Step>, mid: Sys, ifname: string, r: seq<Byte>, sess: Session)
    returns (steps: seq<Step>, t: Sys)
    requires Exec(net, s, forward) == Some(mid) && PcOf(mid, ifname) == Some(Receiving)
    requires |r| <= 65536 && Captured(mid.log, r, Some(sess)) && Rewritable(r)
    ensures Exec(net, s, steps) == Some(t)
    ensures t.trace == mid.trace + [Injected(r, Rewritten(r, Destination, sess.clientIp))]
  {
    var capture := CaptureSteps(ifname, r, Some(sess));
    CapturedIsRun(net, mid, ifname, r, Some(sess));
    t := mid.(trace := mid.trace + Written(r, Some(sess)));
    ExecAppend(net, s, forward, capture);
    steps := forward + capture;
  }

  /** The reply to `p` may be matched to the session of `q`. */
  lemma SecondSession(ip: Addr, iface: string, p: seq<Byte>, q: seq<Byte>, log: seq<Session>, r: seq<Byte>)
    returns (other: Session)
    requires SameButClient(p, q) && ReplyTo(Rewritten(p, Source, ip), r)
    requires log == Registered(Registered([], OutKeyOf(Parsed(p).value), iface, ip).0,
                               OutKeyOf(Parsed(q).value), iface, ip).0
    ensures other.clientIp == q[12..16] && Captured(log, r, Some(other)) && WellFormed(r)
    ensures Parsed(r).value.dst == Render(ip)
  {
    ParsesExactlyWellFormed(r);
    OutKeyIsBytes(p);
    OutKeyIsBytes(q);
    var k, l := OutKeyOf(Parsed(p).value).value, OutKeyOf(Parsed(q).value).value;
    RegisterTwo(k, iface, ip, l, iface, ip);
    OutKeyText(Parsed(p).value, k);
    ParseAfterRewrite(p, Source, ip);
    ReplyIsLookedUp(k, ip, Rewritten(p, Source, ip), r);
    other := SessionFor(l, iface, ip);
    assert other in log && other.Ret() == ReplyKey(k, ip);
  }
}
