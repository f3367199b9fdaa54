/** The NAT session table: two maps and a counter that represent one log of sessions. */
module Nat {
  import opened Bytes
  import opened Text
  import opened Packet
  import opened NatLog
  import Rewrite
  import Wire

  /** The outbound key of a flow, when both its addresses are IPv4 text. */
  function OutKeyOf(flow: Flow): Option<OutKey> {
    match (ParseAddr(flow.src), ParseAddr(flow.dst))
    case (Some(client), Some(server)) => Some(OutKey(flow.proto, client, flow.sport, server, flow.dport))
    case _ => None
  }

  const U64_RANGE := 0x1_0000_0000_0000_0000

  /** `wrapping_add(1)` on u64. */
  function NextIndexOf(n: U64): U64 {
    if n == U64_RANGE - 1 then 0 else n + 1
  }

  ghost predicate OutAgrees(byOutbound: map<OutKey, Session>, log: seq<Session>) {
    && (forall s :: s in log ==> s.Out() in byOutbound && byOutbound[s.Out()] == s)
    && (forall k :: k in byOutbound ==> byOutbound[k] in log && byOutbound[k].Out() == k)
  }

  ghost predicate RetAgrees(byReturn: map<RetKey, U64>, log: seq<Session>) {
    && (forall s :: s in log ==> s.Ret() in byReturn)
    && (forall rk :: rk in byReturn ==> StoredIndex(byReturn[rk], log, rk))
  }

  /** `n` is the wrapped position of the latest session with return key `rk`. */
  ghost predicate StoredIndex(n: U64, log: seq<Session>, rk: RetKey) {
    exists i :: LatestAt(log, rk, i) && n == i % U64_RANGE
  }

  class NatTable {
    var byOutbound: map<OutKey, Session>
    var byReturn: map<RetKey, U64>
    var index: U64
    ghost var log: seq<Session>

    ghost predicate Valid()
      reads this
    {
      && DistinctOut(log)
      && OutAgrees(byOutbound, log)
      && RetAgrees(byReturn, log)
      && index == |log| % U64_RANGE
    }

    constructor ()
      ensures Valid() && log == []
    {
      byOutbound, byReturn, index := map[], map[], 0;
      log := [];
    }

    method Sessions() returns (n: nat)
      requires Valid()
      ensures n == |log|
    {
      n := |byOutbound|;
      OutKeysCounted(log);
      assert byOutbound.Keys == set s | s in log :: s.Out();
    }

    method Register(flow: Flow, iface: string, egressIp: Addr) returns (r: Option<Session>)
      requires Valid()
      modifies this
      ensures Valid()
      ensures (log, r) == Registered(old(log), OutKeyOf(flow), iface, egressIp)
    {
      var client, server := ParseAddr(flow.src), ParseAddr(flow.dst);
      if client.None? || server.None? {
        return None;
      }
      var key := OutKey(flow.proto, client.value, flow.sport, server.value, flow.dport);
      var session := RegisterKey(key, iface, egressIp);
      r := Some(session);
    }

    method RegisterKey(key: OutKey, iface: string, egressIp: Addr) returns (session: Session)
      requires Valid()
      modifies this
      ensures Valid()
      ensures (log, Some(session)) == Registered(old(log), Some(key), iface, egressIp)
    {
      if key in byOutbound {
        FindIs(log, byOutbound[key]);
        return byOutbound[key];
      }
      var retKey := RetKey(key.proto, key.server, key.dport, egressIp, key.sport);
      session := Session(key.client, key.sport, key.server, key.dport, key.proto, iface, egressIp, 0, 0);
      Insert(key, retKey, session);
    }

    method Insert(key: OutKey, retKey: RetKey, session: Session)
      requires Valid()
      requires key == session.Out() && retKey == session.Ret() && key !in byOutbound
      modifies this
      ensures Valid()
      ensures Find(old(log), key).None? && log == old(log) + [session]
    {
      AppendOut(byOutbound, log, session);
      AppendRet(byReturn, log, session, index);
      NextIndex(|log|);
      byOutbound := byOutbound[key := session];
      byReturn := byReturn[retKey := index];
      index := NextIndexOf(index);
      log := log + [session];
    }

    /** Some session whose five fields match; the map's iteration order is not fixed. */
    method LookupReturn(proto: Byte, srcIp: Addr, sport: U16, dstIp: Addr, dport: U16)
      returns (r: Option<Session>)
      requires Valid()
      ensures MayAnswer(log, RetKey(proto, srcIp, sport, dstIp, dport), r)
    {
      var retKey := RetKey(proto, srcIp, sport, dstIp, dport);
      if retKey !in byReturn {
        return None;
      }
      var todo := byOutbound.Keys;
      while todo != {}
        invariant todo <= byOutbound.Keys
        invariant forall k :: k in byOutbound && k !in todo ==> byOutbound[k].Ret() != retKey
        decreases |todo|
      {
        var k :| k in todo;
        var s := byOutbound[k];
        if s.proto == proto && s.serverIp == srcIp && s.serverPort == sport &&
           s.egressIp == dstIp && s.clientPort == dport {
          return Some(s);
        }
        todo := todo - {k};
      }
      r := None;
    }
  }

  // ----- Lemmas behind the class -----

  lemma NextIndex(n: nat)
    ensures NextIndexOf(n % U64_RANGE) == (n + 1) % U64_RANGE
  {
    assert n == U64_RANGE * (n / U64_RANGE) + n % U64_RANGE;
    if n % U64_RANGE == U64_RANGE - 1 {
      assert n + 1 == U64_RANGE * (n / U64_RANGE + 1);
    }
  }

  lemma AppendOut(byOutbound: map<OutKey, Session>, log: seq<Session>, s: Session)
    requires DistinctOut(log) && OutAgrees(byOutbound, log) && s.Out() !in byOutbound
    ensures Find(log, s.Out()).None?
    ensures DistinctOut(log + [s]) && OutAgrees(byOutbound[s.Out() := s], log + [s])
  {}

  lemma AppendRet(byReturn: map<RetKey, U64>, log: seq<Session>, s: Session, index: U64)
    requires RetAgrees(byReturn, log) && index == |log| % U64_RANGE
    ensures RetAgrees(byReturn[s.Ret() := index], log + [s])
  {
    var ret := byReturn[s.Ret() := index];
    forall rk | rk in ret ensures StoredIndex(ret[rk], log + [s], rk) {
      if rk == s.Ret() {
        assert LatestAt(log + [s], rk, |log|);
      } else {
        var i :| LatestAt(log, rk, i) && byReturn[rk] == i % U64_RANGE;
        assert LatestAt(log + [s], rk, i);
      }
    }
  }

  /** While the log has at most 2^64 sessions, a stored index is the position itself. */
  lemma IndexIsPosition(n: U64, log: seq<Session>, rk: RetKey)
    requires StoredIndex(n, log, rk) && |log| <= 0x1_0000_0000_0000_0000
    ensures LatestAt(log, rk, n)
  {}

  lemma {:induction false} OutKeysCounted(log: seq<Session>)
    requires DistinctOut(log)
    ensures |set s | s in log :: s.Out()| == |log|
  {
    var keys := set s | s in log :: s.Out();
    if |log| == 0 {
      assert keys == {};
    } else {
      var init, last := log[..|log| - 1], log[|log| - 1];
      OutKeysCounted(init);
      assert log == init + [last];
      assert keys == (set s | s in init :: s.Out()) + {last.Out()};
    }
  }

  // ----- The key in terms of the packet -----

  /** The outbound key of an IPv4 packet is its protocol, its eight address bytes and its port bytes. */
  lemma OutKeyIsBytes(p: seq<Byte>)
    requires IsV4(p)
    ensures Rewrite.WellFormed(p)
    ensures var f := Parsed(p).value;
            && OutKeyOf(f) == Some(OutKey(p[9], p[12..16], f.sport, p[16..20], f.dport))
            && Wire.PortsOf(p, f.sport, f.dport)
  {
    Wire.V4FlowIsBytes(p);
  }

  /** IPv6 flows are never registered. */
  lemma V6NeverRegisters(p: seq<Byte>)
    requires Parsed(p).Some? && !IsV4(p)
    ensures OutKeyOf(Parsed(p).value) == None
  {
    V6AddressesAreNotV4(p);
  }
}
