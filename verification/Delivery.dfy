/** When the reply to a forwarded packet reaches the client, over every interleaving of the threads. */
module Delivery {
  import opened Bytes
  import opened Text
  import opened Packet
  import opened Rewrite
  import opened NatLog
  import opened Nat
  import opened Aggregator
  import opened DataPlane
  import opened Threads
  import opened History
  import opened Policy
  import opened Scheduling

  // ----- Sent packets and their replies -----

  /** The packet of `e` belongs to flow `k` and left from address `egressIp`. */
  ghost predicate SentAs(net: Net, e: Event, k: OutKey, egressIp: Addr) {
    && e.Sent? && Parsed(e.pkt).Some? && OutKeyOf(Parsed(e.pkt).value) == Some(k)
    && e.iface in net.ips && net.ips[e.iface] == egressIp
  }

  /** Every packet sent in any run is one of some flow, from its interface's address. */
  lemma SentHasFlow(net: Net, agg: AggState, ifnames: set<string>, steps: seq<Step>, s: Sys, i: int)
    returns (k: OutKey, egressIp: Addr)
    requires Exec(net, Init(agg, ifnames), steps) == Some(s)
    requires 0 <= i < |s.trace| && s.trace[i].Sent?
    ensures SentAs(net, s.trace[i], k, egressIp)
  {
    var j := SentPacketsAreSound(net, agg, ifnames, steps, s, i);
    k, egressIp := OutKeyOf(s.trace[j].flow).value, s.trace[j].egressIp;
  }

  /** Its flow was registered before, and on the wire it is that flow from the egress address. */
  lemma SentIsRegistered(
      net: Net, agg: AggState, ifnames: set<string>, steps: seq<Step>, s: Sys, i: int, k: OutKey, egressIp: Addr)
    returns (first: int)
    requires Exec(net, Init(agg, ifnames), steps) == Some(s)
    requires 0 <= i < |s.trace| && SentAs(net, s.trace[i], k, egressIp)
    ensures FirstRegistration(s.trace, k, first) && first < i
    ensures Parsed(s.trace[i].out) == Some(Flow(Render(egressIp), Render(k.server), k.proto, k.sport, k.dport))
  {
    var j := SentPacketsAreSound(net, agg, ifnames, steps, s, i);
    OutKeyText(s.trace[j].flow, k);
    first := FirstOf(s.trace, k, j);
  }

  /** `r` is an IPv4 packet whose flow is the reply direction of `out`'s. */
  predicate ReplyTo(out: seq<Byte>, r: seq<Byte>) {
    IsV4(r) && Parsed(out).Some? && Mirrors(Parsed(out).value, Parsed(r).value)
  }

  /** The return key a reply to a packet of flow `k` sent from `egressIp` is looked up under. */
  function ReplyKey(k: OutKey, egressIp: Addr): RetKey {
    RetKey(k.proto, k.server, k.dport, egressIp, k.sport)
  }

  /** The capture loop looks a reply up under its reply key. */
  lemma ReplyIsLookedUp(k: OutKey, egressIp: Addr, out: seq<Byte>, r: seq<Byte>)
    requires Parsed(out) == Some(Flow(Render(egressIp), Render(k.server), k.proto, k.sport, k.dport))
    requires ReplyTo(out, r)
    ensures AfterReceive(r) == LookingUp(r, ReplyKey(k, egressIp))
    ensures HasRetKey(r, ReplyKey(k, egressIp))
  {
    ParseAddrExactly(Parsed(r).value.src, k.server);
    ParseAddrExactly(Parsed(r).value.dst, egressIp);
  }

  // ----- What a lookup may find -----

  /** Another client was first registered from `egressIp` with the ports, server and protocol of `k`. */
  ghost predicate Contested(trace: seq<Event>, k: OutKey, egressIp: Addr) {
    exists c: Addr, j :: ContestedBy(trace, k, egressIp, c, j)
  }

  ghost predicate ContestedBy(trace: seq<Event>, k: OutKey, egressIp: Addr, c: Addr, j: int) {
    c != k.client && FirstRegistration(trace, k.(client := c), j) && trace[j].egressIp == egressIp
  }

  lemma ContestedStays(trace: seq<Event>, more: seq<Event>, k: OutKey, egressIp: Addr)
    requires trace <= more && Contested(trace, k, egressIp)
    ensures Contested(more, k, egressIp)
  {
    var c: Addr, j :| ContestedBy(trace, k, egressIp, c, j);
    assert ContestedBy(more, k, egressIp, c, j);
  }

  /** The sessions a reply may be matched to: the flow's own, and those of other clients that contest it. */
  lemma MatchIsOwnOrContested(s: Sys, k: OutKey, first: int, egressIp: Addr, sess: Session)
    requires LogOfTrace(s) && FirstRegistration(s.trace, k, first)
    requires sess in s.log && sess.Ret() == ReplyKey(k, egressIp)
    ensures sess.clientIp != k.client ==> Contested(s.trace, k, egressIp)
    ensures sess.clientIp == k.client ==>
              sess == FirstSession(s.trace, k, first) && s.trace[first].egressIp == egressIp
  {
    var j := SessionHasFirst(s, sess);
    assert sess.Out() == k.(client := sess.clientIp);
    if sess.clientIp != k.client {
      assert ContestedBy(s.trace, k, egressIp, sess.clientIp, j);
    } else {
      FindsFirstSession(s, k, first);
      FindsFirstSession(s, k, j);
    }
  }

  lemma ContestedMayAnswer(s: Sys, k: OutKey, egressIp: Addr) returns (sess: Session)
    requires LogOfTrace(s) && Contested(s.trace, k, egressIp)
    ensures MayAnswer(s.log, ReplyKey(k, egressIp), Some(sess)) && sess.clientIp != k.client
  {
    var c: Addr, j :| ContestedBy(s.trace, k, egressIp, c, j);
    FindsFirstSession(s, k.(client := c), j);
    sess := FirstSession(s.trace, k.(client := c), j);
  }

  /** The lookup under `rk` has the one answer `expected`. */
  ghost predicate Answers(log: seq<Session>, rk: RetKey, expected: Option<Session>) {
    forall answer :: MayAnswer(log, rk, answer) <==> answer == expected
  }

  /** The answer a reply to flow `k` gets when nobody contests it. */
  ghost function Expected(trace: seq<Event>, k: OutKey, first: nat, egressIp: Addr): Option<Session>
    requires first < |trace| && Registers(trace[first], k)
  {
    if trace[first].egressIp == egressIp then Some(FirstSession(trace, k, first)) else None
  }

  /** A reply has that one answer exactly when nobody contests it; otherwise another client may get it. */
  lemma AnswersExactly(s: Sys, k: OutKey, first: int, egressIp: Addr)
    requires LogOfTrace(s) && FirstRegistration(s.trace, k, first)
    ensures Answers(s.log, ReplyKey(k, egressIp), Expected(s.trace, k, first, egressIp)) <==>
            !Contested(s.trace, k, egressIp)
  {
    var own, rk := FirstSession(s.trace, k, first), ReplyKey(k, egressIp);
    FindsFirstSession(s, k, first);
    assert own in s.log && (own.Ret() == rk <==> s.trace[first].egressIp == egressIp);
    if Contested(s.trace, k, egressIp) {
      var other := ContestedMayAnswer(s, k, egressIp);
      assert Some(other) != Expected(s.trace, k, first, egressIp);
    } else {
      forall sess | sess in s.log && sess.Ret() == rk ensures Some(sess) == Expected(s.trace, k, first, egressIp) {
        MatchIsOwnOrContested(s, k, first, egressIp, sess);
      }
    }
  }

  /** The lookup of captured packet `r` has the one outcome `expected`: a match, or a drop. */
  ghost predicate LookupYields(net: Net, s: Sys, ifname: string, r: seq<Byte>, expected: Option<Session>) {
    forall answer ::
      Apply(net, s, Lookup(ifname, answer)) ==
      if answer != expected then None
      else Some(s.(captures := s.captures[ifname := if expected.None? then Receiving else Writing(r, expected.value)]))
  }

  lemma LookupYieldsExactly(net: Net, s: Sys, ifname: string, r: seq<Byte>, rk: RetKey, expected: Option<Session>)
    requires PcOf(s, ifname) == Some(LookingUp(r, rk))
    ensures LookupYields(net, s, ifname, r, expected) <==> Answers(s.log, rk, expected)
  {
    if LookupYields(net, s, ifname, r, expected) {
      forall answer ensures MayAnswer(s.log, rk, answer) <==> answer == expected {
        assert MayAnswer(s.log, rk, answer) <==> Apply(net, s, Lookup(ifname, answer)).Some?;
      }
    }
  }

  /**
   * Matching, exactly: in every reachable state, a thread that has captured the reply to a sent packet
   * is certain to find the client's own session precisely when the packet left from the address the
   * flow was first registered with and no other client contests it, and is certain to drop the reply
   * precisely when the address is another one and nobody contests it.
   */
  lemma ReplyMatchedExactly(
      net: Net, agg: AggState, ifnames: set<string>, steps: seq<Step>, s: Sys, i: int, k: OutKey, egressIp: Addr,
      ifname: string, r: seq<Byte>)
    returns (first: int)
    requires Exec(net, Init(agg, ifnames), steps) == Some(s)
    requires 0 <= i < |s.trace| && SentAs(net, s.trace[i], k, egressIp) && ReplyTo(s.trace[i].out, r)
    requires PcOf(s, ifname) == Some(AfterReceive(r))
    ensures FirstRegistration(s.trace, k, first)
    ensures LookupYields(net, s, ifname, r, Some(FirstSession(s.trace, k, first))) <==>
            s.trace[first].egressIp == egressIp && !Contested(s.trace, k, egressIp)
    ensures LookupYields(net, s, ifname, r, None) <==>
            s.trace[first].egressIp != egressIp && !Contested(s.trace, k, egressIp)
  {
    first := SentIsRegistered(net, agg, ifnames, steps, s, i, k, egressIp);
    RunKeepsLogOfTrace(net, Init(agg, ifnames), steps, s);
    ReplyIsLookedUp(k, egressIp, s.trace[i].out, r);
    var own, rk := FirstSession(s.trace, k, first), ReplyKey(k, egressIp);
    LookupYieldsExactly(net, s, ifname, r, rk, Some(own));
    LookupYieldsExactly(net, s, ifname, r, rk, None);
    AnswersExactly(s, k, first, egressIp);
    OnlyTwoOutcomes(s, k, first, egressIp);
  }

  lemma OnlyTwoOutcomes(s: Sys, k: OutKey, first: int, egressIp: Addr)
    requires LogOfTrace(s) && FirstRegistration(s.trace, k, first)
    ensures Answers(s.log, ReplyKey(k, egressIp), Some(FirstSession(s.trace, k, first))) ==>
              s.trace[first].egressIp == egressIp && !Contested(s.trace, k, egressIp)
    ensures Answers(s.log, ReplyKey(k, egressIp), None) ==>
              s.trace[first].egressIp != egressIp && !Contested(s.trace, k, egressIp)
  {
    var own, rk := FirstSession(s.trace, k, first), ReplyKey(k, egressIp);
    FindsFirstSession(s, k, first);
    assert MayAnswer(s.log, rk, Some(own)) <==> s.trace[first].egressIp == egressIp;
    if Contested(s.trace, k, egressIp) {
      var other := ContestedMayAnswer(s, k, egressIp);
      assert other != own;
    }
  }

  /** In every reachable state the write that follows a match puts the client's address and port on the reply. */
  lemma MatchedReplyIsWritten(net: Net, agg: AggState, ifnames: set<string>, steps: seq<Step>, s: Sys, ifname: string)
    requires Exec(net, Init(agg, ifnames), steps) == Some(s)
    requires ifname in s.captures && s.captures[ifname].Writing?
    ensures Delivers(net, s, ifname, s.captures[ifname].pkt, s.captures[ifname].session)
  {
    RunKeepsInv(net, Init(agg, ifnames), steps, s);
    WriteDelivers(net, s, ifname, s.captures[ifname].pkt, s.captures[ifname].session);
  }

  /** The successful write emits the captured packet with only its destination replaced: the client's. */
  ghost predicate Delivers(net: Net, s: Sys, ifname: string, pkt: seq<Byte>, sess: Session) {
    && Rewritable(pkt) && Parsed(pkt).Some? && sess in s.log
    && var out := Rewritten(pkt, Destination, sess.clientIp);
    && Apply(net, s, Write(ifname, true)) ==
       Some(s.(captures := s.captures[ifname := Receiving], trace := s.trace + [Injected(pkt, out)]))
    && Parsed(out) == Some(Parsed(pkt).value.(dst := Render(sess.clientIp)))
    && Parsed(out).value.dport == sess.clientPort
  }

  lemma WriteDelivers(net: Net, s: Sys, ifname: string, pkt: seq<Byte>, sess: Session)
    requires ifname in s.captures && s.captures[ifname] == Writing(pkt, sess)
    requires GoodCapture(s.log, Writing(pkt, sess))
    ensures Delivers(net, s, ifname, pkt, sess)
  {
    WrittenFlow(pkt, sess);
  }

  // ----- From the wire to the client -----

  /** Between the two traces, reply `r` was written to the TUN with the client's address and port. */
  ghost predicate Delivered(before: seq<Event>, after: seq<Event>, r: seq<Byte>, k: OutKey) {
    && Rewritable(r)
    && Parsed(Rewritten(r, Destination, k.client)) ==
       Some(Flow(Render(k.server), Render(k.client), k.proto, k.dport, k.sport))
    && exists j :: |before| <= j < |after| && after[j] == Injected(r, Rewritten(r, Destination, k.client))
  }

  /** The write of an iteration, and whatever else happens before and after it. */
  lemma WriteReachesTun(net: Net, s: Sys, more: seq<Step>, t: Sys, ifname: string, r: seq<Byte>, sess: Session)
    requires Exec(net, s, more) == Some(t) && OwnSteps(ifname, more) == [Write(ifname, true)]
    requires PcOf(s, ifname) == Some(Writing(r, sess)) && HasRetKey(r, sess.Ret())
    ensures Delivered(s.trace, t.trace, r, sess.Out())
  {
    WrittenFlow(r, sess);
    var before, u, v, after := NextOwnStep(net, s, more, t, ifname);
    RunGrows(net, s, before, u);
    RunGrows(net, v, after, t);
    assert v.trace == u.trace + [Injected(r, Rewritten(r, Destination, sess.clientIp))];
    assert t.trace[|u.trace|] == v.trace[|u.trace|];
  }

  /** The states of an iteration over a captured packet: where the lookup is made, and the run from there. */
  lemma IterationLookup(
      net: Net, s: Sys, more: seq<Step>, t: Sys, ifname: string, r: seq<Byte>, answer: Option<Session>)
    returns (before: seq<Step>, u: Sys, v: Sys, after: seq<Step>)
    requires Exec(net, s, more) == Some(t) && OwnSteps(ifname, more) == Iteration(ifname, r, answer)
    ensures Exec(net, s, before) == Some(u) && PcOf(u, ifname) == Some(AfterReceive(r))
    ensures Apply(net, u, Lookup(ifname, answer)) == Some(v) && Exec(net, v, after) == Some(t)
    ensures OwnSteps(ifname, after) == if answer.Some? then [Write(ifname, true)] else []
    ensures s.trace <= u.trace && u.trace == v.trace
  {
    var own := Iteration(ifname, r, answer);
    var a, s1, s2, b := NextOwnStep(net, s, more, t, ifname);
    assert own[1..][0] == own[1];
    var c;
    c, u, v, after := NextOwnStep(net, s2, b, t, ifname);
    before := a + ([own[0]] + c);
    ExecCons(net, s1, own[0], s2, c, u);
    ExecAppend(net, s, a, [own[0]] + c);
    RunGrows(net, s, before, u);
    assert own[1..][1..] == if answer.Some? then [Write(ifname, true)] else [];
  }

  /** The packet of `e` was captured under the return key of `sess` and written for its client. */
  ghost predicate WrittenFor(e: Event, sess: Session) {
    && e.Injected? && HasRetKey(e.pkt, sess.Ret()) && Rewritable(e.pkt)
    && e.out == Rewritten(e.pkt, Destination, sess.clientIp)
  }

  /** Every packet on the TUN was written for a session of the table. */
  ghost predicate WritesMatched(log: seq<Session>, trace: seq<Event>) {
    forall i :: 0 <= i < |trace| && trace[i].Injected? ==> exists sess :: sess in log && WrittenFor(trace[i], sess)
  }

  lemma WritesStayMatched(log: seq<Session>, more: seq<Session>, trace: seq<Event>, e: Event)
    requires WritesMatched(log, trace) && log <= more
    requires e.Injected? ==> exists sess :: sess in more && WrittenFor(e, sess)
    ensures WritesMatched(more, trace) && WritesMatched(more, trace + [e])
  {
    forall i | 0 <= i < |trace| && trace[i].Injected?
      ensures exists sess :: sess in more && WrittenFor(trace[i], sess)
    {
      var sess :| sess in log && WrittenFor(trace[i], sess);
      assert sess in more;
    }
  }

  lemma StepKeepsWritesMatched(net: Net, s: Sys, step: Step, t: Sys)
    requires Inv(net, s) && WritesMatched(s.log, s.trace) && Apply(net, s, step) == Some(t)
    ensures WritesMatched(t.log, t.trace)
  {
    StepGrows(net, s, step, t);
    if t.trace == s.trace {
      WritesStayMatched(s.log, t.log, s.trace, Sent([], [], ""));
    } else {
      var e := t.trace[|s.trace|];
      assert t.trace == s.trace + [e];
      if e.Injected? {
        assert GoodCapture(s.log, s.captures[step.ifname]);
        assert s.captures[step.ifname].session in t.log;
      }
      WritesStayMatched(s.log, t.log, s.trace, e);
    }
  }

  lemma {:induction false} RunKeepsWritesMatched(net: Net, s: Sys, steps: seq<Step>, t: Sys)
    requires Inv(net, s) && WritesMatched(s.log, s.trace) && Exec(net, s, steps) == Some(t)
    ensures WritesMatched(t.log, t.trace)
    decreases |steps|
  {
    if |steps| > 0 {
      var u := Apply(net, s, steps[0]).value;
      StepKeepsInv(net, s, steps[0], u);
      StepKeepsWritesMatched(net, s, steps[0], u);
      RunKeepsWritesMatched(net, u, steps[1..], t);
    }
  }

  lemma RetKeyUnique(pkt: seq<Byte>, a: RetKey, b: RetKey)
    requires HasRetKey(pkt, a) && HasRetKey(pkt, b)
    ensures a == b
  {
    RenderInjective(a.server, b.server);
    RenderInjective(a.egressIp, b.egressIp);
  }

  /** An uncontested reply is on the TUN only if the flow's first registration used its address. */
  lemma OnTunOnlyFromFirst(
      t: Sys, k: OutKey, first: int, egressIp: Addr, r: seq<Byte>, out: seq<Byte>, j: int)
    requires LogOfTrace(t) && WritesMatched(t.log, t.trace)
    requires FirstRegistration(t.trace, k, first) && !Contested(t.trace, k, egressIp)
    requires HasRetKey(r, ReplyKey(k, egressIp))
    requires 0 <= j < |t.trace| && t.trace[j] == Injected(r, out)
    ensures t.trace[first].egressIp == egressIp
  {
    var sess :| sess in t.log && WrittenFor(t.trace[j], sess);
    RetKeyUnique(r, sess.Ret(), ReplyKey(k, egressIp));
    MatchIsOwnOrContested(t, k, first, egressIp, sess);
  }

  /**
   * Delivery, exactly: take any run that has sent a packet, and any continuation in which some thread
   * completes one iteration over the packet's reply, with any steps of all the others in between, and
   * in which no other client contests the reply. The thread matches the flow's first session, and the
   * reply is written to the TUN with the client's address and port, precisely when the packet left from
   * the address its flow was first registered with; otherwise no thread writes it at all.
   */
  lemma ReplyDeliveredExactly(
      net: Net, agg: AggState, ifnames: set<string>, steps: seq<Step>, s: Sys, i: int, k: OutKey, egressIp: Addr,
      ifname: string, r: seq<Byte>, answer: Option<Session>, more: seq<Step>, t: Sys)
    returns (first: int)
    requires Exec(net, Init(agg, ifnames), steps) == Some(s)
    requires 0 <= i < |s.trace| && SentAs(net, s.trace[i], k, egressIp) && ReplyTo(s.trace[i].out, r)
    requires Exec(net, s, more) == Some(t) && OwnSteps(ifname, more) == Iteration(ifname, r, answer)
    requires !Contested(t.trace, k, egressIp)
    ensures FirstRegistration(s.trace, k, first)
    ensures answer == Expected(s.trace, k, first, egressIp)
    ensures Delivered(s.trace, t.trace, r, k) <==> s.trace[first].egressIp == egressIp
    ensures s.trace[first].egressIp != egressIp ==>
              forall j :: 0 <= j < |t.trace| && t.trace[j].Injected? ==> t.trace[j].pkt != r
  {
    first := SentIsRegistered(net, agg, ifnames, steps, s, i, k, egressIp);
    ReplyIsLookedUp(k, egressIp, s.trace[i].out, r);
    RunKeepsLogOfTrace(net, Init(agg, ifnames), steps, s);
    var before, u, v, after := IterationLookup(net, s, more, t, ifname, r, answer);
    RunKeepsLogOfTrace(net, s, before, u);
    RunGrows(net, v, after, t);
    FirstStays(s.trace, u.trace, k, first);
    if Contested(u.trace, k, egressIp) {
      ContestedStays(u.trace, t.trace, k, egressIp);
    }
    UncontestedLookup(net, u, k, first, egressIp, ifname, r, answer, v);
    if answer.Some? {
      WriteReachesTun(net, v, after, t, ifname, r, answer.value);
      DeliveredWithin(s.trace, v.trace, t.trace, r, k);
    } else {
      NeverOnTun(net, agg, ifnames, steps, s, more, t, k, first, egressIp, r);
    }
  }

  lemma NeverOnTun(
      net: Net, agg: AggState, ifnames: set<string>, steps: seq<Step>, s: Sys, more: seq<Step>, t: Sys,
      k: OutKey, first: int, egressIp: Addr, r: seq<Byte>)
    requires Exec(net, Init(agg, ifnames), steps) == Some(s) && Exec(net, s, more) == Some(t)
    requires FirstRegistration(s.trace, k, first) && s.trace[first].egressIp != egressIp
    requires !Contested(t.trace, k, egressIp) && HasRetKey(r, ReplyKey(k, egressIp))
    ensures forall j :: 0 <= j < |t.trace| && t.trace[j].Injected? ==> t.trace[j].pkt != r
  {
    var init, all := Init(agg, ifnames), steps + more;
    ExecAppend(net, init, steps, more);
    RunKeepsLogOfTrace(net, init, all, t);
    RunKeepsWritesMatched(net, init, all, t);
    RunGrows(net, s, more, t);
    FirstStays(s.trace, t.trace, k, first);
    forall j | 0 <= j < |t.trace| && t.trace[j].Injected? ensures t.trace[j].pkt != r {
      if t.trace[j].pkt == r {
        OnTunOnlyFromFirst(t, k, first, egressIp, r, t.trace[j].out, j);
      }
    }
  }

  lemma FirstStays(trace: seq<Event>, more: seq<Event>, k: OutKey, first: int)
    requires trace <= more && FirstRegistration(trace, k, first)
    ensures FirstRegistration(more, k, first) && more[first] == trace[first]
  {}

  lemma DeliveredWithin(before: seq<Event>, mid: seq<Event>, after: seq<Event>, r: seq<Byte>, k: OutKey)
    requires |before| <= |mid| && Delivered(mid, after, r, k)
    ensures Delivered(before, after, r, k)
  {}

  /** An uncontested lookup answers as expected, and a match is on its way to be written. */
  lemma UncontestedLookup(
      net: Net, u: Sys, k: OutKey, first: int, egressIp: Addr, ifname: string, r: seq<Byte>,
      answer: Option<Session>, v: Sys)
    requires LogOfTrace(u) && FirstRegistration(u.trace, k, first) && !Contested(u.trace, k, egressIp)
    requires PcOf(u, ifname) == Some(LookingUp(r, ReplyKey(k, egressIp)))
    requires Apply(net, u, Lookup(ifname, answer)) == Some(v)
    ensures answer == Expected(u.trace, k, first, egressIp)
    ensures answer.Some? ==> PcOf(v, ifname) == Some(Writing(r, answer.value))
    ensures answer.Some? ==> answer.value.Out() == k && answer.value.Ret() == ReplyKey(k, egressIp)
  {
    AnswersExactly(u, k, first, egressIp);
    assert MayAnswer(u.log, ReplyKey(k, egressIp), answer);
  }

  // ----- One client address -----

  /** An IPv4 packet from this client, or a packet the NAT ignores. */
  predicate FromClient(client: Addr, pkt: seq<Byte>) {
    IsV4(pkt) ==> |pkt| >= 20 && GetAddr(pkt, Source) == client
  }

  predicate ClientSteps(client: Addr, steps: seq<Step>) {
    forall i :: 0 <= i < |steps| && steps[i].Read? ==> FromClient(client, steps[i].pkt)
  }

  ghost predicate ClientInv(client: Addr, s: Sys) {
    && SingleClient(s.log, client)
    && (s.egress.Routing? || s.egress.Registering? ==> FromClient(client, s.egress.pkt))
  }

  lemma StepKeepsClient(net: Net, client: Addr, s: Sys, step: Step, t: Sys)
    requires Inv(net, s) && ClientInv(client, s) && Apply(net, s, step) == Some(t)
    requires step.Read? ==> FromClient(client, step.pkt)
    ensures ClientInv(client, t)
  {
    if step.Register? && t.log != s.log {
      var e := s.egress;
      KeyedIsV4(e.pkt, e.flow);
      OutKeyIsBytes(e.pkt);
    }
  }

  lemma {:induction false} RunKeepsClient(net: Net, client: Addr, s: Sys, steps: seq<Step>, t: Sys)
    requires Inv(net, s) && ClientInv(client, s) && ClientSteps(client, steps)
    requires Exec(net, s, steps) == Some(t)
    ensures Inv(net, t) && ClientInv(client, t)
    decreases |steps|
  {
    if |steps| > 0 {
      var u := Apply(net, s, steps[0]).value;
      StepKeepsInv(net, s, steps[0], u);
      StepKeepsClient(net, client, s, steps[0], u);
      RunKeepsClient(net, client, u, steps[1..], t);
    }
  }

  /** A run fed by one client has no contested replies. */
  lemma OneClientUncontested(
      net: Net, agg: AggState, ifnames: set<string>, steps: seq<Step>, s: Sys, client: Addr, k: OutKey, egressIp: Addr)
    requires Exec(net, Init(agg, ifnames), steps) == Some(s) && ClientSteps(client, steps)
    requires exists j :: FirstRegistration(s.trace, k, j)
    ensures !Contested(s.trace, k, egressIp)
  {
    RunKeepsClient(net, client, Init(agg, ifnames), steps, s);
    RunKeepsLogOfTrace(net, Init(agg, ifnames), steps, s);
    var j :| FirstRegistration(s.trace, k, j);
    FindsFirstSession(s, k, j);
    if Contested(s.trace, k, egressIp) {
      var c: Addr, l :| ContestedBy(s.trace, k, egressIp, c, l);
      FindsFirstSession(s, k.(client := c), l);
    }
  }

  // ----- Flows that keep their interface -----

  predicate SameFlow(e: Event, f: Event) {
    e.Registration? && f.Registration? && OutKeyOf(e.flow) == OutKeyOf(f.flow)
  }

  /** Registrations of one flow all used the same egress address. */
  ghost predicate FlowsFixed(trace: seq<Event>) {
    forall e, f :: e in trace && f in trace && SameFlow(e, f) ==> e.egressIp == f.egressIp
  }

  /** A packet of a fixed flow left from the address of the flow's first registration. */
  lemma FixedFlowLeavesFromFirst(
      net: Net, agg: AggState, ifnames: set<string>, steps: seq<Step>, s: Sys, i: int, k: OutKey, egressIp: Addr,
      first: int)
    requires Exec(net, Init(agg, ifnames), steps) == Some(s) && FlowsFixed(s.trace)
    requires 0 <= i < |s.trace| && SentAs(net, s.trace[i], k, egressIp) && FirstRegistration(s.trace, k, first)
    ensures s.trace[first].egressIp == egressIp
  {
    var j := SentPacketsAreSound(net, agg, ifnames, steps, s, i);
    assert s.trace[j] in s.trace && s.trace[first] in s.trace && SameFlow(s.trace[first], s.trace[j]);
  }

  /**
   * Reply delivery: with one client and flows that keep their interface, in every interleaving, a
   * thread that completes an iteration over the reply to a sent packet matches it and writes it to the
   * TUN with the client's address and port.
   */
  lemma ReplyDelivered(
      net: Net, agg: AggState, ifnames: set<string>, steps: seq<Step>, s: Sys, client: Addr, i: int, k: OutKey,
      egressIp: Addr, ifname: string, r: seq<Byte>, answer: Option<Session>, more: seq<Step>, t: Sys)
    requires Exec(net, Init(agg, ifnames), steps) == Some(s) && FlowsFixed(s.trace)
    requires 0 <= i < |s.trace| && SentAs(net, s.trace[i], k, egressIp) && ReplyTo(s.trace[i].out, r)
    requires Exec(net, s, more) == Some(t) && OwnSteps(ifname, more) == Iteration(ifname, r, answer)
    requires ClientSteps(client, steps + more)
    ensures answer.Some? && answer.value in s.log && answer.value.clientIp == client == k.client
    ensures Delivered(s.trace, t.trace, r, k)
  {
    var first := SentIsRegistered(net, agg, ifnames, steps, s, i, k, egressIp);
    ExecAppend(net, Init(agg, ifnames), steps, more);
    RunGrows(net, s, more, t);
    FirstStays(s.trace, t.trace, k, first);
    OneClientUncontested(net, agg, ifnames, steps + more, t, client, k, egressIp);
    FixedFlowLeavesFromFirst(net, agg, ifnames, steps, s, i, k, egressIp, first);
    var first' := ReplyDeliveredExactly(net, agg, ifnames, steps, s, i, k, egressIp, ifname, r, answer, more, t);
    RunKeepsLogOfTrace(net, Init(agg, ifnames), steps, s);
    FindsFirstSession(s, k, first');
    FindsFirstSession(s, k, first);
    ClientOfFirst(net, agg, ifnames, steps, s, client, more, k, first);
  }

  lemma ClientOfFirst(
      net: Net, agg: AggState, ifnames: set<string>, steps: seq<Step>, s: Sys, client: Addr, more: seq<Step>, k: OutKey,
      first: int)
    requires Exec(net, Init(agg, ifnames), steps) == Some(s) && ClientSteps(client, steps + more)
    requires FirstRegistration(s.trace, k, first)
    ensures k.client == client
  {
    assert forall i :: 0 <= i < |steps| ==> (steps + more)[i] == steps[i];
    RunKeepsClient(net, client, Init(agg, ifnames), steps, s);
    RunKeepsLogOfTrace(net, Init(agg, ifnames), steps, s);
    FindsFirstSession(s, k, first);
  }

  // ----- Hash balancing keeps flows fixed -----

  /** Steps that keep hash balancing and what the usable interfaces offer; `enabled` may be toggled. */
  ghost predicate KeepsPins(shares: seq<Share>, step: Step) {
    match step
    case Refresh(candidates) => Offer(candidates) == multiset(shares)
    case Configure(config) => config.strategy.LoadBalance? && config.algorithm.Hash?
    case _ => true
  }

  ghost predicate PinInv(shares: seq<Share>, s: Sys)
    requires |shares| > 0
  {
    && Pins(s.agg, shares)
    && (s.egress.Registering? ==> PinnedTo(shares, s.egress.flow, s.egress.iface))
    && TracePinned(shares, s.trace)
  }

  /** Every registration so far was on the interface its flow is pinned to. */
  ghost predicate TracePinned(shares: seq<Share>, trace: seq<Event>)
    requires |shares| > 0
  {
    forall i :: 0 <= i < |trace| && trace[i].Registration? ==> PinnedTo(shares, trace[i].flow, trace[i].iface)
  }

  predicate PinnedTo(shares: seq<Share>, flow: Flow, iface: string)
    requires |shares| > 0
  {
    iface == PinOf(shares, flow.Key())
  }

  lemma PinsExtend(shares: seq<Share>, trace: seq<Event>, e: Event)
    requires |shares| > 0 && TracePinned(shares, trace)
    requires e.Registration? ==> PinnedTo(shares, e.flow, e.iface)
    ensures TracePinned(shares, trace + [e])
  {}

  lemma StepKeepsPins(net: Net, shares: seq<Share>, s: Sys, step: Step, t: Sys)
    requires |shares| > 0
    requires Inv(net, s) && PinInv(shares, s) && KeepsPins(shares, step)
    requires Apply(net, s, step) == Some(t)
    ensures PinInv(shares, t)
  {
    if step.Route? {
      RouteKeepsPins(net, shares, s, t);
    } else if t.trace != s.trace {
      PinsExtend(shares, s.trace, t.trace[|s.trace|]);
      assert t.trace == s.trace + [t.trace[|s.trace|]];
    }
  }

  lemma RouteKeepsPins(net: Net, shares: seq<Share>, s: Sys, t: Sys)
    requires |shares| > 0
    requires Inv(net, s) && PinInv(shares, s) && Apply(net, s, Route) == Some(t)
    ensures PinInv(shares, t)
  {
    PinnedSelection(s.agg, shares, s.egress.flow.Key());
    assert t.trace == s.trace;
  }

  lemma {:induction false} RunKeepsPins(net: Net, shares: seq<Share>, s: Sys, steps: seq<Step>, t: Sys)
    requires |shares| > 0
    requires Inv(net, s) && PinInv(shares, s)
    requires forall i :: 0 <= i < |steps| ==> KeepsPins(shares, steps[i])
    requires Exec(net, s, steps) == Some(t)
    ensures Inv(net, t) && PinInv(shares, t)
    decreases |steps|
  {
    if |steps| > 0 {
      var u := Apply(net, s, steps[0]).value;
      StepKeepsInv(net, s, steps[0], u);
      StepKeepsPins(net, shares, s, steps[0], u);
      RunKeepsPins(net, shares, u, steps[1..], t);
    }
  }

  /**
   * Hash balancing over an unchanged offer keeps every flow on one interface in every interleaving,
   * so ReplyDelivered applies to all its packets.
   */
  lemma HashKeepsFlowsFixed(net: Net, agg: AggState, ifnames: set<string>, steps: seq<Step>, s: Sys, shares: seq<Share>)
    requires |shares| > 0 && Pins(agg, shares)
    requires forall i :: 0 <= i < |steps| ==> KeepsPins(shares, steps[i])
    requires Exec(net, Init(agg, ifnames), steps) == Some(s)
    ensures FlowsFixed(s.trace)
  {
    RunKeepsPins(net, shares, Init(agg, ifnames), steps, s);
    forall e, f | e in s.trace && f in s.trace && SameFlow(e, f) ensures e.egressIp == f.egressIp {
      var i :| 0 <= i < |s.trace| && s.trace[i] == e;
      var j :| 0 <= j < |s.trace| && s.trace[j] == f;
      assert GoodEvent(net, s.log, s.trace, i) && GoodEvent(net, s.log, s.trace, j);
      OutKeyText(e.flow, OutKeyOf(e.flow).value);
      OutKeyText(f.flow, OutKeyOf(f.flow).value);
    }
  }

  /**
   * The scheduler and the data plane together: with one client, hash balancing and an unchanged offer,
   * the reply to every packet sent in any interleaving reaches the client.
   */
  lemma HashRepliesDelivered(
      net: Net, agg: AggState, ifnames: set<string>, steps: seq<Step>, s: Sys, client: Addr, i: int, k: OutKey,
      egressIp: Addr, ifname: string, r: seq<Byte>, answer: Option<Session>, more: seq<Step>, t: Sys,
      shares: seq<Share>)
    requires |shares| > 0 && Pins(agg, shares)
    requires forall j :: 0 <= j < |steps| ==> KeepsPins(shares, steps[j])
    requires Exec(net, Init(agg, ifnames), steps) == Some(s)
    requires 0 <= i < |s.trace| && SentAs(net, s.trace[i], k, egressIp) && ReplyTo(s.trace[i].out, r)
    requires Exec(net, s, more) == Some(t) && OwnSteps(ifname, more) == Iteration(ifname, r, answer)
    requires ClientSteps(client, steps + more)
    ensures Delivered(s.trace, t.trace, r, k) && k.client == client
  {
    HashKeepsFlowsFixed(net, agg, ifnames, steps, s, shares);
    ReplyDelivered(net, agg, ifnames, steps, s, client, i, k, egressIp, ifname, r, answer, more, t);
  }
}
