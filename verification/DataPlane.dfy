/**
 * The threads of the data plane as a step machine: one egress loop, one capture loop per interface
 * and the user interface. Each step is one lock-guarded section or one I/O call with the local work
 * around it, so a run of the system is any interleaving of these steps.
 */
module DataPlane {
  import opened Bytes
  import opened Text
  import opened Packet
  import opened Rewrite
  import opened NatLog
  import opened Nat
  import opened Aggregator
  import RewriteLaws
  import Wire
  import Policy

  /** The largest packet the buffers hold. */
  const MAX_PACKET := 65536

  /** Built once before the threads start: interface addresses and open egress sockets. */
  datatype Net = Net(ips: map<string, Addr>, socks: set<string>)

  datatype EgressPc =
    | Reading
    | Routing(pkt: seq<Byte>, flow: Flow)
    | Registering(pkt: seq<Byte>, flow: Flow, iface: string, egressIp: Addr)
    | Sending(pkt: seq<Byte>, flow: Flow, iface: string, egressIp: Addr)

  datatype CapturePc =
    | Receiving
    | LookingUp(pkt: seq<Byte>, rk: RetKey)
    | Writing(pkt: seq<Byte>, session: Session)

  datatype Event =
    | Registration(pkt: seq<Byte>, flow: Flow, iface: string, egressIp: Addr)
    | Sent(pkt: seq<Byte>, out: seq<Byte>, iface: string)
    | Injected(pkt: seq<Byte>, out: seq<Byte>)

  datatype Sys = Sys(
    agg: AggState, log: seq<Session>, egress: EgressPc, captures: map<string, CapturePc>, trace: seq<Event>)

  datatype Step =
    | Read(pkt: seq<Byte>)
    | Route
    | Register
    | Send(ok: bool)
    | Receive(ifname: string, pkt: seq<Byte>)
    | Lookup(ifname: string, answer: Option<Session>)
    | Write(ifname: string, ok: bool)
    | Refresh(candidates: seq<Policy.Candidate>)
    | Configure(config: Policy.Config)

  // ----- The egress loop -----

  function AfterRead(pkt: seq<Byte>): EgressPc {
    match Parsed(pkt)
    case None => Reading
    case Some(flow) => Routing(pkt, flow)
  }

  /** What the loop does with the engine's decision before it takes the table's lock. */
  function AfterRoute(net: Net, pkt: seq<Byte>, flow: Flow, d: Option<ForwardDecision>): EgressPc {
    match d
    case None => Reading
    case Some(d) =>
      if d.interface !in net.ips || d.interface !in net.socks || ParseAddr(flow.dst).None? then Reading
      else Registering(pkt, flow, d.interface, net.ips[d.interface])
  }

  // ----- The capture loop -----

  function AfterReceive(pkt: seq<Byte>): CapturePc {
    if |pkt| < 20 || pkt[0] / 16 != 4 then Receiving
    else
      match Parsed(pkt)
      case None => Receiving
      case Some(flow) =>
        match (ParseAddr(flow.src), ParseAddr(flow.dst))
        case (Some(src), Some(dst)) => LookingUp(pkt, RetKey(flow.proto, src, flow.sport, dst, flow.dport))
        case _ => Receiving
  }

  // ----- Steps -----

  /** One step; None when it is not enabled. */
  ghost function Apply(net: Net, s: Sys, step: Step): Option<Sys> {
    match step
    case Read(pkt) =>
      if s.egress.Reading? && |pkt| <= MAX_PACKET then Some(s.(egress := AfterRead(pkt))) else None
    case Route =>
      if s.egress.Routing? then
        var (agg, d) := Routed(s.agg, s.egress.pkt);
        Some(s.(agg := agg, egress := AfterRoute(net, s.egress.pkt, s.egress.flow, d)))
      else None
    case Register =>
      if s.egress.Registering? then
        var e := s.egress;
        var (log, r) := Registered(s.log, OutKeyOf(e.flow), e.iface, e.egressIp);
        if r.None? then Some(s.(log := log, egress := Reading))
        else Some(s.(log := log, egress := Sending(e.pkt, e.flow, e.iface, e.egressIp),
                     trace := s.trace + [Registration(e.pkt, e.flow, e.iface, e.egressIp)]))
      else None
    case Send(ok) =>
      if s.egress.Sending? then
        var e := s.egress;
        if ok && Rewritable(e.pkt) then
          Some(s.(egress := Reading, trace := s.trace + [Sent(e.pkt, Rewritten(e.pkt, Source, e.egressIp), e.iface)]))
        else Some(s.(egress := Reading))
      else None
    case Receive(ifname, pkt) =>
      if ifname in s.captures && s.captures[ifname].Receiving? && |pkt| <= MAX_PACKET then
        Some(s.(captures := s.captures[ifname := AfterReceive(pkt)]))
      else None
    case Lookup(ifname, answer) =>
      if ifname in s.captures && s.captures[ifname].LookingUp? && MayAnswer(s.log, s.captures[ifname].rk, answer) then
        var pc := if answer.None? then Receiving else Writing(s.captures[ifname].pkt, answer.value);
        Some(s.(captures := s.captures[ifname := pc]))
      else None
    case Write(ifname, ok) =>
      if ifname in s.captures && s.captures[ifname].Writing? then
        var c := s.captures[ifname];
        var after := s.(captures := s.captures[ifname := Receiving]);
        if ok && Rewritable(c.pkt) then
          Some(after.(trace := s.trace + [Injected(c.pkt, Rewritten(c.pkt, Destination, c.session.clientIp))]))
        else Some(after)
      else None
    case Refresh(candidates) => Some(s.(agg := s.agg.(candidates := candidates)))
    case Configure(config) => Some(s.(agg := s.agg.(config := config)))
  }

  /** A run: None when some step is not enabled where it stands. */
  ghost function Exec(net: Net, s: Sys, steps: seq<Step>): Option<Sys>
    decreases |steps|
  {
    if |steps| == 0 then Some(s)
    else
      match Apply(net, s, steps[0])
      case None => None
      case Some(t) => Exec(net, t, steps[1..])
  }

  function Init(agg: AggState, ifnames: set<string>): Sys {
    Sys(agg, [], Reading, map i | i in ifnames :: Receiving, [])
  }

  // ----- What every step keeps -----

  /** `g` is the reply direction of `f`. */
  predicate Mirrors(f: Flow, g: Flow) {
    g == Flow(f.dst, f.src, f.proto, f.dport, f.sport)
  }

  /** A registered IPv4 packet, on an interface with an open socket and its own address. */
  predicate GoodRegistration(net: Net, pkt: seq<Byte>, flow: Flow, iface: string, egressIp: Addr) {
    && IsV4(pkt) && Parsed(pkt) == Some(flow) && OutKeyOf(flow).Some?
    && iface in net.socks && iface in net.ips && net.ips[iface] == egressIp
  }

  /** Position `j` of the trace registers outbound key `k` on `iface` with address `egressIp`. */
  ghost predicate RegisteredAt(trace: seq<Event>, j: int, k: OutKey, iface: string, egressIp: Addr) {
    && 0 <= j < |trace| && trace[j].Registration?
    && OutKeyOf(trace[j].flow) == Some(k) && trace[j].iface == iface && trace[j].egressIp == egressIp
  }

  ghost predicate GoodSession(net: Net, trace: seq<Event>, sess: Session) {
    && sess.egressIface in net.ips && net.ips[sess.egressIface] == sess.egressIp
    && exists j :: RegisteredAt(trace, j, sess.Out(), sess.egressIface, sess.egressIp)
  }

  ghost predicate GoodEvent(net: Net, log: seq<Session>, trace: seq<Event>, i: int)
    requires 0 <= i < |trace|
  {
    match trace[i]
    case Registration(pkt, flow, iface, egressIp) =>
      GoodRegistration(net, pkt, flow, iface, egressIp) && Find(log, OutKeyOf(flow).value).Some?
    case Sent(pkt, out, iface) => exists j :: SentFrom(trace, j, i)
    case Injected(pkt, out) => exists j :: InjectedFrom(trace, j, i)
  }

  /** The packet sent at `i` is the one registered at `j`, rewritten to the interface's address. */
  ghost predicate SentFrom(trace: seq<Event>, j: int, i: int)
    requires 0 <= i < |trace| && trace[i].Sent?
  {
    && 0 <= j < i && trace[j].Registration? && Rewritable(trace[j].pkt)
    && trace[j].pkt == trace[i].pkt && trace[j].iface == trace[i].iface
    && trace[i].out == Rewritten(trace[i].pkt, Source, trace[j].egressIp)
  }

  /** The packet injected at `i` mirrors the one registered at `j`. */
  ghost predicate InjectedFrom(trace: seq<Event>, j: int, i: int)
    requires 0 <= i < |trace| && trace[i].Injected?
  {
    && 0 <= j < i && trace[j].Registration?
    && Parsed(trace[i].out).Some? && Mirrors(trace[j].flow, Parsed(trace[i].out).value)
  }

  ghost predicate GoodEgress(net: Net, log: seq<Session>, trace: seq<Event>, e: EgressPc) {
    match e
    case Reading => true
    case Routing(pkt, flow) => Parsed(pkt) == Some(flow)
    case Registering(pkt, flow, iface, egressIp) =>
      Parsed(pkt) == Some(flow) && iface in net.socks && iface in net.ips && net.ips[iface] == egressIp
    case Sending(pkt, flow, iface, egressIp) =>
      Registration(pkt, flow, iface, egressIp) in trace
  }

  /** The return key a captured packet is looked up under. */
  ghost predicate HasRetKey(pkt: seq<Byte>, rk: RetKey) {
    && IsV4(pkt)
    && Parsed(pkt) == Some(Flow(Render(rk.server), Render(rk.egressIp), rk.proto, rk.sport, rk.clientPort))
  }

  ghost predicate GoodCapture(log: seq<Session>, c: CapturePc) {
    match c
    case Receiving => true
    case LookingUp(pkt, rk) => HasRetKey(pkt, rk)
    case Writing(pkt, sess) => sess in log && HasRetKey(pkt, sess.Ret())
  }

  ghost predicate InvLog(net: Net, log: seq<Session>, trace: seq<Event>) {
    && DistinctOut(log)
    && (forall sess :: sess in log ==> GoodSession(net, trace, sess))
    && (forall i :: 0 <= i < |trace| ==> GoodEvent(net, log, trace, i))
  }

  ghost predicate Inv(net: Net, s: Sys) {
    && InvLog(net, s.log, s.trace)
    && GoodEgress(net, s.log, s.trace, s.egress)
    && (forall n :: n in s.captures ==> GoodCapture(s.log, s.captures[n]))
  }

  // ----- Growth of the log and the trace keeps what was good -----

  lemma TraceGrows(net: Net, log: seq<Session>, more: seq<Session>, trace: seq<Event>, e: Event)
    requires forall k :: Find(log, k).Some? ==> Find(more, k).Some?
    requires forall i :: 0 <= i < |trace| ==> GoodEvent(net, log, trace, i)
    ensures forall i :: 0 <= i < |trace| ==> GoodEvent(net, more, trace + [e], i)
  {
    var t := trace + [e];
    forall i | 0 <= i < |trace| ensures GoodEvent(net, more, t, i) {
      assert GoodEvent(net, log, trace, i);
      assert t[i] == trace[i];
      match trace[i] {
        case Registration(_, _, _, _) =>
        case Sent(_, _, _) =>
          var j :| SentFrom(trace, j, i);
          assert SentFrom(t, j, i);
        case Injected(_, _) =>
          var j :| InjectedFrom(trace, j, i);
          assert InjectedFrom(t, j, i);
      }
    }
  }

  lemma SessionsStayGood(net: Net, log: seq<Session>, trace: seq<Event>, e: Event)
    requires forall sess :: sess in log ==> GoodSession(net, trace, sess)
    ensures forall sess :: sess in log ==> GoodSession(net, trace + [e], sess)
  {
    forall sess | sess in log ensures GoodSession(net, trace + [e], sess) {
      var j :| RegisteredAt(trace, j, sess.Out(), sess.egressIface, sess.egressIp);
      assert RegisteredAt(trace + [e], j, sess.Out(), sess.egressIface, sess.egressIp);
    }
  }

  lemma CapturesStayGood(log: seq<Session>, more: seq<Session>, captures: map<string, CapturePc>)
    requires log <= more
    requires forall n :: n in captures ==> GoodCapture(log, captures[n])
    ensures forall n :: n in captures ==> GoodCapture(more, captures[n])
  {
    forall n | n in captures ensures GoodCapture(more, captures[n]) {
      assert GoodCapture(log, captures[n]);
    }
  }

  lemma OutKeyText(flow: Flow, k: OutKey)
    requires OutKeyOf(flow) == Some(k)
    ensures flow == Flow(Render(k.client), Render(k.server), k.proto, k.sport, k.dport)
  {
    ParseAddrExactly(flow.src, k.client);
    ParseAddrExactly(flow.dst, k.server);
  }

  lemma KeyedIsV4(pkt: seq<Byte>, flow: Flow)
    requires Parsed(pkt) == Some(flow) && OutKeyOf(flow).Some?
    ensures IsV4(pkt) && Rewritable(pkt)
  {
    if !IsV4(pkt) {
      V6NeverRegisters(pkt);
    }
    ParsesExactlyWellFormed(pkt);
  }

  /** A registration event and its session are good after the step that makes them. */
  lemma RegistrationIsGood(
      net: Net, log: seq<Session>, trace: seq<Event>, pkt: seq<Byte>, flow: Flow, iface: string, egressIp: Addr)
    requires GoodRegistration(net, pkt, flow, iface, egressIp) && InvLog(net, log, trace)
    ensures InvLog(net, Registered(log, OutKeyOf(flow), iface, egressIp).0,
                   trace + [Registration(pkt, flow, iface, egressIp)])
  {
    var key := OutKeyOf(flow).value;
    var ev := Registration(pkt, flow, iface, egressIp);
    var more := Registered(log, Some(key), iface, egressIp).0;
    RegisterOnce(log, Some(key), iface, egressIp);
    SessionsStayGood(net, log, trace, ev);
    TraceGrows(net, log, more, trace, ev);
    assert RegisteredAt(trace + [ev], |trace|, key, iface, egressIp);
    forall sess | sess in more ensures GoodSession(net, trace + [ev], sess) {
      if sess !in log {
        assert sess == SessionFor(key, iface, egressIp);
      }
    }
  }

  lemma RegisterKeepsInv(net: Net, s: Sys, t: Sys)
    requires Inv(net, s) && Apply(net, s, Register) == Some(t)
    ensures Inv(net, t)
  {
    var e := s.egress;
    if OutKeyOf(e.flow).Some? {
      KeyedIsV4(e.pkt, e.flow);
      RegisterKeyedKeepsInv(net, s, e.pkt, e.flow, e.iface, e.egressIp);
    }
  }

  lemma RegisterKeyedKeepsInv(net: Net, s: Sys, pkt: seq<Byte>, flow: Flow, iface: string, egressIp: Addr)
    requires Inv(net, s) && GoodRegistration(net, pkt, flow, iface, egressIp)
    ensures Inv(net, Sys(s.agg, Registered(s.log, OutKeyOf(flow), iface, egressIp).0,
                         Sending(pkt, flow, iface, egressIp),
                         s.captures, s.trace + [Registration(pkt, flow, iface, egressIp)]))
  {
    var more := Registered(s.log, OutKeyOf(flow), iface, egressIp).0;
    RegisterOnce(s.log, OutKeyOf(flow), iface, egressIp);
    CapturesStayGood(s.log, more, s.captures);
    RegistrationIsGood(net, s.log, s.trace, pkt, flow, iface, egressIp);
    var ev := Registration(pkt, flow, iface, egressIp);
    assert (s.trace + [ev])[|s.trace|] == ev;
  }

  lemma SendKeepsInv(net: Net, s: Sys, ok: bool, t: Sys)
    requires Inv(net, s) && Apply(net, s, Send(ok)) == Some(t)
    ensures Inv(net, t)
  {
    var e := s.egress;
    if ok && Rewritable(e.pkt) {
      var ev := Sent(e.pkt, Rewritten(e.pkt, Source, e.egressIp), e.iface);
      var j :| 0 <= j < |s.trace| && s.trace[j] == Registration(e.pkt, e.flow, e.iface, e.egressIp);
      assert SentFrom(s.trace + [ev], j, |s.trace|);
      EventAppended(net, s, ev);
    }
  }

  lemma LookupKeepsInv(net: Net, s: Sys, ifname: string, answer: Option<Session>, t: Sys)
    requires Inv(net, s) && Apply(net, s, Lookup(ifname, answer)) == Some(t)
    ensures Inv(net, t)
  {
    assert GoodCapture(s.log, s.captures[ifname]);
  }

  /** The packet written for session `sess` has the client's address and port as destination. */
  lemma WrittenFlow(pkt: seq<Byte>, sess: Session)
    requires HasRetKey(pkt, sess.Ret())
    ensures WellFormed(pkt)
    ensures Parsed(Rewritten(pkt, Destination, sess.clientIp)) ==
            Some(Flow(Render(sess.serverIp), Render(sess.clientIp), sess.proto, sess.serverPort, sess.clientPort))
  {
    ParsesExactlyWellFormed(pkt);
    ParseAfterRewrite(pkt, Destination, sess.clientIp);
  }

  lemma InjectionIsGood(net: Net, log: seq<Session>, trace: seq<Event>, pkt: seq<Byte>, sess: Session)
    requires HasRetKey(pkt, sess.Ret()) && GoodSession(net, trace, sess)
    ensures WellFormed(pkt)
    ensures GoodEvent(net, log, trace + [Injected(pkt, Rewritten(pkt, Destination, sess.clientIp))], |trace|)
  {
    WrittenFlow(pkt, sess);
    var j :| RegisteredAt(trace, j, sess.Out(), sess.egressIface, sess.egressIp);
    OutKeyText(trace[j].flow, sess.Out());
    var after := trace + [Injected(pkt, Rewritten(pkt, Destination, sess.clientIp))];
    assert after[j] == trace[j];
    assert InjectedFrom(after, j, |trace|);
  }

  lemma EventAppended(net: Net, s: Sys, ev: Event)
    requires Inv(net, s) && GoodEvent(net, s.log, s.trace + [ev], |s.trace|)
    ensures forall sess :: sess in s.log ==> GoodSession(net, s.trace + [ev], sess)
    ensures forall i :: 0 <= i < |s.trace + [ev]| ==> GoodEvent(net, s.log, s.trace + [ev], i)
    ensures GoodEgress(net, s.log, s.trace + [ev], s.egress)
  {
    SessionsStayGood(net, s.log, s.trace, ev);
    TraceGrows(net, s.log, s.log, s.trace, ev);
    if s.egress.Sending? {
      assert Registration(s.egress.pkt, s.egress.flow, s.egress.iface, s.egress.egressIp) in s.trace;
    }
  }

  lemma WriteKeepsInv(net: Net, s: Sys, ifname: string, ok: bool, t: Sys)
    requires Inv(net, s) && Apply(net, s, Write(ifname, ok)) == Some(t)
    ensures Inv(net, t)
  {
    var c := s.captures[ifname];
    assert GoodCapture(s.log, c);
    if ok && Rewritable(c.pkt) {
      InjectionIsGood(net, s.log, s.trace, c.pkt, c.session);
      EventAppended(net, s, Injected(c.pkt, Rewritten(c.pkt, Destination, c.session.clientIp)));
    }
  }

  lemma ReceivedKey(pkt: seq<Byte>)
    ensures GoodCapture([], AfterReceive(pkt))
  {
    var pc := AfterReceive(pkt);
    if pc.LookingUp? {
      ParseAddrExactly(Parsed(pkt).value.src, pc.rk.server);
      ParseAddrExactly(Parsed(pkt).value.dst, pc.rk.egressIp);
    }
  }

  lemma StepKeepsInv(net: Net, s: Sys, step: Step, t: Sys)
    requires Inv(net, s) && Apply(net, s, step) == Some(t)
    ensures Inv(net, t)
  {
    match step {
      case Read(_) =>
      case Route =>
      case Register => RegisterKeepsInv(net, s, t);
      case Send(ok) => SendKeepsInv(net, s, ok, t);
      case Receive(ifname, pkt) => ReceivedKey(pkt);
      case Lookup(ifname, answer) => LookupKeepsInv(net, s, ifname, answer, t);
      case Write(ifname, ok) => WriteKeepsInv(net, s, ifname, ok, t);
      case Refresh(_) =>
      case Configure(_) =>
    }
  }

  lemma {:induction false} RunKeepsInv(net: Net, s: Sys, steps: seq<Step>, t: Sys)
    requires Inv(net, s) && Exec(net, s, steps) == Some(t)
    ensures Inv(net, t)
    decreases |steps|
  {
    if |steps| > 0 {
      var u := Apply(net, s, steps[0]).value;
      StepKeepsInv(net, s, steps[0], u);
      RunKeepsInv(net, u, steps[1..], t);
    }
  }

  // ----- Safety over every interleaving -----

  /**
   * No unsolicited injection: in every run, under any policy changes, each packet written to the
   * TUN mirrors the flow of a packet that an earlier egress step registered, and every session
   * carries the address of its own egress interface.
   */
  lemma NoUnsolicitedInjection(net: Net, agg: AggState, ifnames: set<string>, steps: seq<Step>, s: Sys)
    requires Exec(net, Init(agg, ifnames), steps) == Some(s)
    ensures forall i | 0 <= i < |s.trace| && s.trace[i].Injected? :: exists j :: InjectedFrom(s.trace, j, i)
    ensures forall sess :: sess in s.log ==> sess.egressIface in net.ips && net.ips[sess.egressIface] == sess.egressIp
  {
    RunKeepsInv(net, Init(agg, ifnames), steps, s);
    forall i | 0 <= i < |s.trace| && s.trace[i].Injected? ensures exists j :: InjectedFrom(s.trace, j, i) {
      assert GoodEvent(net, s.log, s.trace, i);
    }
    forall sess | sess in s.log ensures sess.egressIface in net.ips && net.ips[sess.egressIface] == sess.egressIp {
      assert GoodSession(net, s.trace, sess);
    }
  }

  /**
   * Every packet put on a wire was registered earlier, its session is in the table, it carries the
   * interface's own address as source and otherwise the client's flow, and its checksums verify.
   */
  lemma SentPacketsAreSound(net: Net, agg: AggState, ifnames: set<string>, steps: seq<Step>, s: Sys, i: int)
    returns (j: int)
    requires Exec(net, Init(agg, ifnames), steps) == Some(s)
    requires 0 <= i < |s.trace| && s.trace[i].Sent?
    ensures SentFrom(s.trace, j, i)
    ensures var r, out := s.trace[j], s.trace[i].out;
            && GoodRegistration(net, r.pkt, r.flow, r.iface, r.egressIp)
            && Find(s.log, OutKeyOf(r.flow).value).Some?
            && |out| == |r.pkt| && Parsed(out) == Some(r.flow.(src := Render(r.egressIp)))
            && WellFormed(out) && Wire.HeaderAccepted(out)
            && ((r.pkt[9] == 6 || r.pkt[9] == 17) && |r.pkt| >= 4 * (r.pkt[0] % 16) + 18 ==> Wire.SegmentAccepted(out))
  {
    RunKeepsInv(net, Init(agg, ifnames), steps, s);
    assert GoodEvent(net, s.log, s.trace, i);
    j :| SentFrom(s.trace, j, i);
    var r := s.trace[j];
    assert GoodEvent(net, s.log, s.trace, j);
    ParsesExactlyWellFormed(r.pkt);
    ParseAfterRewrite(r.pkt, Source, r.egressIp);
    Wire.RewrittenAccepted(r.pkt, Source, r.egressIp);
    RewriteLaws.RewrittenShape(r.pkt, Source, r.egressIp);
  }
}
