/** One iteration of each data-plane loop over the real tables and buffers, and the maps they start with. */
module Loops {
  import opened Bytes
  import opened Text
  import opened Packet
  import opened Rewrite
  import opened NatLog
  import opened Nat
  import opened Aggregator
  import opened DataPlane
  import opened Threads
  import Policy

  // ----- The maps built before the threads start -----

  /** The last address listed for a name. */
  function LastAddr(addrs: seq<(string, Addr)>, name: string): Option<Addr> {
    if |addrs| == 0 then None
    else if addrs[|addrs| - 1].0 == name then Some(addrs[|addrs| - 1].1)
    else LastAddr(addrs[..|addrs| - 1], name)
  }

  /** Entry `k` lists address `a` for the name, and no later entry lists it again. */
  ghost predicate LastListed(addrs: seq<(string, Addr)>, name: string, a: Addr, k: int) {
    0 <= k < |addrs| && addrs[k] == (name, a) && forall j :: k < j < |addrs| ==> addrs[j].0 != name
  }

  lemma {:induction false} LastAddrExactly(addrs: seq<(string, Addr)>, name: string, a: Addr)
    ensures LastAddr(addrs, name) == Some(a) <==> exists k :: LastListed(addrs, name, a, k)
  {
    if |addrs| > 0 {
      var m := |addrs| - 1;
      LastAddrExactly(addrs[..m], name, a);
      if addrs[m].0 == name {
        assert addrs[m].1 == a ==> LastListed(addrs, name, a, m);
      } else {
        forall k ensures LastListed(addrs[..m], name, a, k) <==> LastListed(addrs, name, a, k) {}
      }
    }
  }

  /** A candidate gets an egress socket: usable, with an address, and its socket opens. */
  predicate Served(addrs: seq<(string, Addr)>, opens: set<string>, c: Policy.Candidate) {
    c.Usable() && LastAddr(addrs, c.name).Some? && c.name in opens
  }

  /** `opens` and `captures` are the names whose egress and capture sockets open. */
  method BuildNet(
      addrs: seq<(string, Addr)>, candidates: seq<Policy.Candidate>, opens: set<string>, captures: set<string>)
    returns (net: Net, threads: set<string>)
    ensures net.ips.Keys == net.socks
    ensures forall n :: n in net.socks <==> exists c :: c in candidates && c.name == n && Served(addrs, opens, c)
    ensures forall n :: n in net.ips ==> LastAddr(addrs, n) == Some(net.ips[n])
    ensures threads == net.socks * captures
  {
    var ipv4: map<string, Addr> := map[];
    for i := 0 to |addrs|
      invariant forall n :: LastAddr(addrs[..i], n) == if n in ipv4 then Some(ipv4[n]) else None
    {
      assert addrs[..i + 1][..i] == addrs[..i];
      ipv4 := ipv4[addrs[i].0 := addrs[i].1];
    }
    assert addrs[..|addrs|] == addrs;

    var egress: set<string> := {};
    var ifaceIps: map<string, Addr> := map[];
    threads := {};
    for i := 0 to |candidates|
      invariant ifaceIps.Keys == egress
      invariant threads == egress * captures
      invariant forall n :: n in egress <==>
                  exists k :: 0 <= k < i && candidates[k].name == n && Served(addrs, opens, candidates[k])
      invariant forall n :: n in ifaceIps ==> LastAddr(addrs, n) == Some(ifaceIps[n])
    {
      var c := candidates[i];
      if !c.policy.enabled || !c.healthy || c.name !in ipv4 || c.name !in opens {
        continue;
      }
      ifaceIps := ifaceIps[c.name := ipv4[c.name]];
      egress := egress + {c.name};
      if c.name in captures {
        threads := threads + {c.name};
      }
    }
    net := Net(ifaceIps, egress);
    forall n ensures n in net.socks <==> exists c :: c in candidates && c.name == n && Served(addrs, opens, c) {
      if n in net.socks {
        var k :| 0 <= k < |candidates| && candidates[k].name == n && Served(addrs, opens, candidates[k]);
        assert candidates[k] in candidates;
      }
    }
  }

  // ----- The egress loop -----

  /** What the iteration does once the engine has decided: the new log and what is handed to a socket. */
  function Dispatched(net: Net, log: seq<Session>, pkt: seq<Byte>, flow: Flow, d: Option<ForwardDecision>)
    : (seq<Session>, Option<(seq<Byte>, string)>)
  {
    match AfterRoute(net, pkt, flow, d)
    case Registering(_, _, iface, egressIp) =>
      var (log', r) := Registered(log, OutKeyOf(flow), iface, egressIp);
      if r.None? || !Rewritable(pkt) then (log', None) else (log', Some((Rewritten(pkt, Source, egressIp), iface)))
    case _ => (log, None)
  }

  /** One whole iteration: the engine, the log, and what is handed to a socket. */
  function Forwarded(net: Net, agg: AggState, log: seq<Session>, pkt: seq<Byte>)
    : (AggState, seq<Session>, Option<(seq<Byte>, string)>)
  {
    match AfterRead(pkt)
    case Routing(_, flow) =>
      var (agg', d) := Routed(agg, pkt);
      var (log', out) := Dispatched(net, log, pkt, flow, d);
      (agg', log', out)
    case _ => (agg, log, None)
  }

  /** One iteration on an undisturbed system; `n` bytes of the reused buffer were read. */
  method EgressOnce(net: Net, buf: array<Byte>, n: nat, agg: Aggregator, table: NatTable)
    returns (out: Option<(seq<Byte>, string)>)
    requires buf.Length == MAX_PACKET && n <= buf.Length
    requires agg.Valid() && table.Valid()
    modifies agg, table
    ensures agg.Valid() && table.Valid()
    ensures (agg.State(), table.log, out) == Forwarded(net, old(agg.State()), old(table.log), buf[..n])
  {
    if n == 0 {
      return None;
    }
    var flow := Parse(buf[..n]);
    if flow.None? {
      return None;
    }
    var d := agg.Route(buf[..n]);
    out := Dispatch(net, buf, n, flow.value, d, table);
  }

  method Dispatch(net: Net, buf: array<Byte>, n: nat, flow: Flow, d: Option<ForwardDecision>, table: NatTable)
    returns (out: Option<(seq<Byte>, string)>)
    requires buf.Length == MAX_PACKET && n <= buf.Length && table.Valid()
    modifies table
    ensures table.Valid()
    ensures (table.log, out) == Dispatched(net, old(table.log), buf[..n], flow, d)
  {
    if d.None? {
      return None;
    }
    var iface := d.value.interface;
    if iface !in net.ips || iface !in net.socks || ParseAddr(flow.dst).None? {
      return None;
    }
    var session := table.Register(flow, iface, net.ips[iface]);
    if session.None? {
      return None;
    }
    out := SendCopy(buf, n, iface, net.ips[iface]);
  }

  /** Rewrites a copy of the packet and hands it to the interface's socket. */
  method SendCopy(buf: array<Byte>, n: nat, iface: string, egressIp: Addr) returns (out: Option<(seq<Byte>, string)>)
    requires buf.Length == MAX_PACKET && n <= buf.Length
    ensures out == if Rewritable(buf[..n]) then Some((Rewritten(buf[..n], Source, egressIp), iface)) else None
  {
    var copy := new Byte[n](i requires 0 <= i < n <= buf.Length reads buf => buf[i]);
    assert copy[..] == buf[..n];
    assert copy[..n] == copy[..];
    var ok := RewriteIpv4Source(copy, n, egressIp);
    out := if ok then Some((copy[..n], iface)) else None;
  }

  // ----- The capture loop -----

  /** What an iteration over packet `pkt` may find: an allowed answer, or nothing when it is not looked up. */
  ghost predicate Captured(log: seq<Session>, pkt: seq<Byte>, session: Option<Session>) {
    match AfterReceive(pkt)
    case LookingUp(_, rk) => MayAnswer(log, rk, session)
    case _ => session == None
  }

  /** One iteration: the reply in the buffer is rewritten in place for the session that was found, if any. */
  method CaptureOnce(buf: array<Byte>, n: nat, table: NatTable) returns (session: Option<Session>, written: bool)
    requires buf.Length == MAX_PACKET && n <= buf.Length && table.Valid()
    modifies buf
    ensures Captured(table.log, old(buf[..n]), session)
    ensures written <==> session.Some? && Rewritable(old(buf[..n]))
    ensures buf[..n] == if written then Rewritten(old(buf[..n]), Destination, session.value.clientIp) else old(buf[..n])
    ensures buf[n..] == old(buf[n..])
  {
    session, written := None, false;
    if n < 20 || buf[0] / 16 != 4 {
      return;
    }
    var flow := Parse(buf[..n]);
    if flow.None? {
      return;
    }
    var src, dst := ParseAddr(flow.value.src), ParseAddr(flow.value.dst);
    if src.None? || dst.None? {
      return;
    }
    session := table.LookupReturn(flow.value.proto, src.value, flow.value.sport, dst.value, flow.value.dport);
    if session.None? {
      return;
    }
    written := RewriteIpv4Dest(buf, n, session.value.clientIp);
  }

  // ----- The iterations are runs of the step machine -----

  /** What the run from `s` to `t` has put on a wire. */
  ghost predicate Emitted(s: Sys, t: Sys, pkt: seq<Byte>, out: Option<(seq<Byte>, string)>) {
    match out
    case None => t.trace == s.trace || (exists e :: t.trace == s.trace + [e] && e.Registration?)
    case Some((bytes, iface)) => exists e :: t.trace == s.trace + [e, Sent(pkt, bytes, iface)] && e.Registration?
  }

  lemma RunFromRegistering(net: Net, s: Sys) returns (steps: seq<Step>, t: Sys)
    requires s.egress.Registering?
    ensures Exec(net, s, steps) == Some(t) && t.egress == Reading && t.captures == s.captures && t.agg == s.agg
    ensures var (log, r) := Registered(s.log, OutKeyOf(s.egress.flow), s.egress.iface, s.egress.egressIp);
            var pkt := s.egress.pkt;
            && t.log == log
            && Emitted(s, t, pkt, if r.None? || !Rewritable(pkt) then None
                                  else Some((Rewritten(pkt, Source, s.egress.egressIp), s.egress.iface)))
  {
    var e := s.egress;
    var s1 := Apply(net, s, Register).value;
    if s1.egress.Reading? {
      steps, t := [Register] + [], s1;
      ExecCons(net, s, Register, s1, [], s1);
    } else {
      var ev := Registration(e.pkt, e.flow, e.iface, e.egressIp);
      t := Apply(net, s1, Send(true)).value;
      assert Exec(net, t, []) == Some(t);
      ExecCons(net, s1, Send(true), t, [], t);
      ExecCons(net, s, Register, s1, [Send(true)] + [], t);
      steps := [Register] + ([Send(true)] + []);
      assert s1.trace == s.trace + [ev];
      if Rewritable(e.pkt) {
        assert t.trace == s.trace + [ev, Sent(e.pkt, Rewritten(e.pkt, Source, e.egressIp), e.iface)];
      }
    }
  }

  /** An undisturbed egress iteration is a run of egress steps that ends where it started, reading. */
  lemma ForwardedIsRun(net: Net, s: Sys, pkt: seq<Byte>) returns (steps: seq<Step>, t: Sys)
    requires s.egress == Reading && |pkt| <= MAX_PACKET
    ensures Exec(net, s, steps) == Some(t) && t.egress == Reading && t.captures == s.captures
    ensures t.agg == Forwarded(net, s.agg, s.log, pkt).0 && t.log == Forwarded(net, s.agg, s.log, pkt).1
    ensures Emitted(s, t, pkt, Forwarded(net, s.agg, s.log, pkt).2)
  {
    var s1 := s.(egress := AfterRead(pkt));
    if s1.egress.Reading? {
      steps, t := [Read(pkt)] + [], s1;
      ExecCons(net, s, Read(pkt), s1, [], s1);
    } else {
      var s2 := Apply(net, s1, Route).value;
      if s2.egress.Reading? {
        steps, t := [], s2;
      } else {
        steps, t := RunFromRegistering(net, s2);
      }
      ExecCons(net, s1, Route, s2, steps, t);
      ExecCons(net, s, Read(pkt), s1, [Route] + steps, t);
      steps := [Read(pkt)] + ([Route] + steps);
    }
  }

  /** What the TUN gets from an iteration over `pkt` that found `session`. */
  function Written(pkt: seq<Byte>, session: Option<Session>): seq<Event> {
    if session.None? || !Rewritable(pkt) then []
    else [Injected(pkt, Rewritten(pkt, Destination, session.value.clientIp))]
  }

  /** The thread's steps in such an iteration. */
  function CaptureSteps(ifname: string, pkt: seq<Byte>, session: Option<Session>): seq<Step> {
    if AfterReceive(pkt).Receiving? then [Receive(ifname, pkt)] else Iteration(ifname, pkt, session)
  }

  /** An undisturbed capture iteration, whose write succeeds, is a run of its thread's steps. */
  lemma CapturedIsRun(net: Net, s: Sys, ifname: string, pkt: seq<Byte>, session: Option<Session>)
    requires PcOf(s, ifname) == Some(Receiving) && |pkt| <= MAX_PACKET && Captured(s.log, pkt, session)
    ensures Exec(net, s, CaptureSteps(ifname, pkt, session)) == Some(s.(trace := s.trace + Written(pkt, session)))
  {
    var t := s.(trace := s.trace + Written(pkt, session));
    PcRestored(s.captures, ifname, AfterReceive(pkt));
    if AfterReceive(pkt).Receiving? {
      assert t == s;
      DroppedIsRun(net, s, ifname, pkt);
    } else {
      var s1 := s.(captures := s.captures[ifname := AfterReceive(pkt)]);
      RunFromLookup(net, s1, ifname, session);
      ExecCons(net, s, Receive(ifname, pkt), s1, LookupSteps(ifname, session), t);
    }
  }

  lemma DroppedIsRun(net: Net, s: Sys, ifname: string, pkt: seq<Byte>)
    requires PcOf(s, ifname) == Some(Receiving) && |pkt| <= MAX_PACKET && AfterReceive(pkt).Receiving?
    ensures Exec(net, s, [Receive(ifname, pkt)]) == Some(s)
  {
    assert s.captures[ifname := Receiving] == s.captures;
    ExecCons(net, s, Receive(ifname, pkt), s, [], s);
    assert [Receive(ifname, pkt)] + [] == [Receive(ifname, pkt)];
  }

  lemma PcRestored(captures: map<string, CapturePc>, ifname: string, pc: CapturePc)
    requires ifname in captures && captures[ifname] == Receiving
    ensures captures[ifname := pc][ifname := Receiving] == captures == captures[ifname := Receiving]
  {}

  lemma RunFromLookup(net: Net, s: Sys, ifname: string, session: Option<Session>)
    requires ifname in s.captures && s.captures[ifname].LookingUp?
    requires MayAnswer(s.log, s.captures[ifname].rk, session)
    ensures Exec(net, s, LookupSteps(ifname, session)) ==
            Some(s.(captures := s.captures[ifname := Receiving],
                    trace := s.trace + Written(s.captures[ifname].pkt, session)))
  {
    var pkt := s.captures[ifname].pkt;
    var s1 := Apply(net, s, Lookup(ifname, session)).value;
    var t := s.(captures := s.captures[ifname := Receiving], trace := s.trace + Written(pkt, session));
    if session.None? {
      assert s1 == t;
      ExecCons(net, s, Lookup(ifname, session), s1, [], t);
    } else {
      var write := Write(ifname, true);
      RunOfWrite(net, s1, ifname);
      assert s1.captures[ifname := Receiving] == t.captures;
      ExecCons(net, s, Lookup(ifname, session), s1, [write], t);
    }
  }

  lemma RunOfWrite(net: Net, s: Sys, ifname: string)
    requires ifname in s.captures && s.captures[ifname].Writing?
    ensures var c := s.captures[ifname];
            Exec(net, s, [Write(ifname, true)]) ==
            Some(s.(captures := s.captures[ifname := Receiving], trace := s.trace + Written(c.pkt, Some(c.session))))
  {
    var t := Apply(net, s, Write(ifname, true)).value;
    assert t.trace == s.trace + Written(s.captures[ifname].pkt, Some(s.captures[ifname].session));
    ExecCons(net, s, Write(ifname, true), t, [], t);
    assert [Write(ifname, true)] + [] == [Write(ifname, true)];
  }
}
