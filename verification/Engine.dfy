/** The engine over whole runs, in terms of the host's interfaces, the settings and the picks. */
module Engine {
  import opened Bytes
  import opened Order
  import opened Packet
  import opened Policy
  import opened Scheduling
  import opened Aggregator
  import DataPlane

  // ----- One packet -----

  /** Something to route to: a candidate that is enabled and healthy. */
  ghost predicate Available(candidates: seq<Candidate>) {
    exists c :: c in candidates && c.policy.enabled && c.healthy
  }

  /**
   * A packet is routed exactly when the engine is enabled, the packet parses and an interface is
   * available. Only then does anything change: the flow's entry, and the round-robin counter by one.
   */
  lemma RoutedExactly(st: AggState, pkt: seq<Byte>)
    ensures var (after, d) := Routed(st, pkt);
            && (d.Some? <==> st.config.enabled && Parsed(pkt).Some? && Available(st.candidates))
            && (d.None? ==> after == st)
            && (d.Some? ==>
                  && d.value.flow == Parsed(pkt).value
                  && (exists c ::
                        c in st.candidates && c.policy.enabled && c.healthy && c.name == d.value.interface)
                  && after.config == st.config && after.candidates == st.candidates
                  && after.flowTable == st.flowTable[d.value.flow.Key() := d.value.interface]
                  && after.rr == (if st.config.strategy == LoadBalance && st.config.algorithm == RoundRobin
                                  then (st.rr + 1) % 0x1_0000_0000_0000_0000 else st.rr))
  {
    if st.config.enabled && Parsed(pkt).Some? {
      var key := Parsed(pkt).value.Key();
      SelectTotal(st.config, st.candidates, key, st.rr);
      if Available(st.candidates) {
        CounterAfterPick(st.config, st.candidates, key, st.rr);
      }
    }
  }

  lemma CounterAfterPick(cfg: Config, candidates: seq<Candidate>, key: string, rr: U64)
    requires Select(cfg, candidates, key, rr).0.Some?
    ensures Select(cfg, candidates, key, rr).1 ==
            if cfg.strategy == LoadBalance && cfg.algorithm == RoundRobin then (rr + 1) % 0x1_0000_0000_0000_0000
            else rr
  {}

  // ----- Round-robin over runs of the engine -----

  /** Round-robin over exactly these shares, whatever their order, loads and priorities. */
  ghost predicate Rotates(st: AggState, shares: seq<Share>) {
    && st.config.strategy == LoadBalance && st.config.algorithm == RoundRobin
    && Offer(st.candidates) == multiset(shares)
  }

  /** The engine keeps rotating over these shares at every moment of the run. */
  ghost predicate KeepsRotating(st: AggState, events: seq<EngineEvent>, shares: seq<Share>) {
    && |shares| > 0
    && forall n :: 0 <= n <= |events| ==> Rotates(AfterAll(st, events[..n]), shares)
  }

  /** The u64 counter after `t` steps from 0. */
  function Wrap(t: nat): U64 { t % 0x1_0000_0000_0000_0000 }

  lemma WrapAdd(s: nat, n: nat)
    ensures Wrap(Wrap(s) + n) == Wrap(s + n)
  {}

  /** The pool slot that a counter value selects. */
  function SlotAt(shares: seq<Share>, t: U64): string
    requires |shares| > 0
  {
    PoolNonEmpty(shares);
    Pool(shares)[t % |Pool(shares)|]
  }

  lemma RotatingPick(st: AggState, shares: seq<Share>, key: string)
    requires Rotates(st, shares) && |shares| > 0
    ensures Select(st.config, st.candidates, key, st.rr).0 == Some(SlotAt(shares, st.rr))
  {
    var usable := Usable(st.candidates);
    assert |usable| == |Offer(st.candidates)| == |shares|;
    PoolIgnoresOrder(Shares(usable), shares);
  }

  /** One packet: a pick takes the slot of the counter and advances it. */
  lemma RotatingStep(st: AggState, shares: seq<Share>, pkt: seq<Byte>)
    requires Rotates(st, shares) && |shares| > 0
    ensures var (after, d) := Routed(st, pkt);
            && (d.Some? ==> d.value.interface == SlotAt(shares, st.rr) && after.rr == Wrap(st.rr + 1))
            && (d.None? ==> after == st)
  {
    RoutedExactly(st, pkt);
    if Routed(st, pkt).1.Some? {
      RotatingPick(st, shares, Parsed(pkt).value.Key());
    }
  }

  /** An event adds nothing, or one pick from the slot of the counter, which moves on. */
  ghost predicate AddsSlot(
      before: seq<(string, string)>, after: seq<(string, string)>, shares: seq<Share>, rr: U64, rr': U64)
    requires |shares| > 0
  {
    || (after == before && rr' == rr)
    || (|after| == |before| + 1 && before <= after && after[|before|].1 == SlotAt(shares, rr) && rr' == Wrap(rr + 1))
  }

  lemma LastEvent(st: AggState, events: seq<EngineEvent>, init: seq<EngineEvent>, shares: seq<Share>)
    requires |events| > 0 && init == events[..|events| - 1] && |shares| > 0 && Rotates(AfterAll(st, init), shares)
    ensures AddsSlot(Picks(st, init), Picks(st, events), shares, AfterAll(st, init).rr, AfterAll(st, events).rr)
  {
    var last := events[|events| - 1];
    if last.Packet? {
      RotatingStep(AfterAll(st, init), shares, last.pkt);
    }
  }

  /** The picks of a run that started at counter value `rr`: each takes the slot after the one before. */
  ghost predicate TakeSlots(picks: seq<(string, string)>, shares: seq<Share>, rr: nat)
    requires |shares| > 0
  {
    forall n :: 0 <= n < |picks| ==> picks[n].1 == SlotAt(shares, Wrap(rr + n))
  }

  lemma OneMoreSlot(picks: seq<(string, string)>, more: seq<(string, string)>, shares: seq<Share>, rr: nat, m: nat)
    requires |shares| > 0 && TakeSlots(picks, shares, rr)
    requires m == |picks| && |more| == m + 1 && picks <= more && more[m].1 == SlotAt(shares, Wrap(rr + m))
    ensures TakeSlots(more, shares, rr)
  {
    assert forall n :: 0 <= n < m ==> more[n] == picks[n];
  }

  /** The picks of a run from counter value `start` on, and the counter after them. */
  ghost predicate Rotated(picks: seq<(string, string)>, rr: U64, shares: seq<Share>, start: nat)
    requires |shares| > 0
  {
    TakeSlots(picks, shares, start) && rr == Wrap(start + |picks|)
  }

  /**
   * Over any run that keeps round-robin and the offer, with any packets, refreshes and settings in
   * between, the counter advances by one per pick, and pick number n is the slot n places on.
   */
  lemma {:induction false} EngineRotates(st: AggState, events: seq<EngineEvent>, shares: seq<Share>)
    requires KeepsRotating(st, events, shares)
    ensures Rotated(Picks(st, events), AfterAll(st, events).rr, shares, st.rr)
  {
    if |events| > 0 {
      var init := events[..|events| - 1];
      InitKeepsRotating(st, events, shares);
      EngineRotates(st, init, shares);
      LastEvent(st, events, init, shares);
      EventRotates(Picks(st, init), Picks(st, events), shares, st.rr, AfterAll(st, init).rr, AfterAll(st, events).rr);
    }
  }

  lemma EngineTakesSlots(
      st: AggState, events: seq<EngineEvent>, shares: seq<Share>, picks: seq<(string, string)>, rr: U64)
    requires KeepsRotating(st, events, shares) && picks == Picks(st, events) && rr == st.rr
    ensures TakeSlots(picks, shares, rr)
  {
    EngineRotates(st, events, shares);
  }

  lemma InitKeepsRotating(st: AggState, events: seq<EngineEvent>, shares: seq<Share>)
    requires KeepsRotating(st, events, shares) && |events| > 0
    ensures KeepsRotating(st, events[..|events| - 1], shares)
    ensures Rotates(AfterAll(st, events[..|events| - 1]), shares)
  {
    var init := events[..|events| - 1];
    assert forall n :: 0 <= n <= |init| ==> init[..n] == events[..n];
  }

  lemma EventRotates(
      before: seq<(string, string)>, after: seq<(string, string)>, shares: seq<Share>, start: nat, rr: U64, rr': U64)
    requires |shares| > 0 && Rotated(before, rr, shares, start) && AddsSlot(before, after, shares, rr, rr')
    ensures Rotated(after, rr', shares, start)
  {
    if after != before {
      WrapAdd(start + |before|, 1);
      OneMoreSlot(before, after, shares, start, |before|);
    }
  }

  /** How many of these picks are `x`. */
  function CountOf(picks: seq<(string, string)>, x: string): nat {
    if |picks| == 0 then 0
    else CountOf(picks[..|picks| - 1], x) + if picks[|picks| - 1].1 == x then 1 else 0
  }

  /** Pick after pick takes the next slot, from counter value `t` on. */
  ghost predicate FollowSlots(picks: seq<(string, string)>, shares: seq<Share>, t: nat)
    requires |shares| > 0 && t + |picks| <= 0x1_0000_0000_0000_0000
  {
    forall n :: 0 <= n < |picks| ==> picks[n].1 == SlotAt(shares, t + n)
  }

  /** Picks that follow the slots from counter value `t` on, without a wrap, are the hits of the name's block. */
  lemma {:induction false} SlotsAreHits(picks: seq<(string, string)>, shares: seq<Share>, t: nat, x: string)
    requires Positive(shares) && Exact(shares) && t + |picks| <= 0x1_0000_0000_0000_0000
    requires FollowSlots(picks, shares, t)
    ensures |Pool(shares)| > 0
    ensures CountOf(picks, x) == Hits(t, |picks|, |Pool(shares)|, Below(Pool(shares), x), multiset(Pool(shares))[x])
  {
    PoolProportions(shares, x);
    if |picks| > 0 {
      var m := |picks| - 1;
      SlotsAreHits(picks[..m], shares, t, x);
      SlotHits(shares, t + m, x);
    }
  }

  lemma SlotHits(shares: seq<Share>, t: nat, x: string)
    requires Positive(shares) && Exact(shares) && t < 0x1_0000_0000_0000_0000
    ensures |Pool(shares)| > 0
    ensures SlotAt(shares, t) == x <==>
              Below(Pool(shares), x) <= t % |Pool(shares)| < Below(Pool(shares), x) + multiset(Pool(shares))[x]
  {
    PoolProportions(shares, x);
    SortedBlock(Pool(shares), x, t % |Pool(shares)|);
  }

  /** A full round of slots gives the name all of its own. */
  lemma FullRound(picks: seq<(string, string)>, shares: seq<Share>, t: nat, x: string, size: nat, offset: nat, n: nat)
    requires Positive(shares) && Exact(shares) && t + |picks| <= 0x1_0000_0000_0000_0000
    requires FollowSlots(picks, shares, t)
    requires 0 < size == |Pool(shares)| && offset == Below(Pool(shares), x) && n == multiset(Pool(shares))[x]
    requires |picks| == size
    ensures CountOf(picks, x) == n
  {
    SlotsAreHits(picks, shares, t, x);
    HitsOfRound(t, size, offset, n);
  }

  /**
   * The engine is exactly fair: any total * total consecutive picks of a run, wherever they start and
   * as long as the counter does not wrap among them, choose each interface exactly total * weight times.
   */
  lemma EngineRoundRobinFair(
      st: AggState, events: seq<EngineEvent>, shares: seq<Share>, picks: seq<(string, string)>, from: nat, size: nat,
      t: nat, i: nat)
    requires KeepsRotating(st, events, shares) && picks == Picks(st, events)
    requires FairShares(shares, size) && i < |shares|
    requires InWindow(picks, st.rr, from, size, t)
    ensures CountOf(picks[from..from + size], shares[i].name) == TotalWeight(shares) * shares[i].weight
  {
    EngineTakesSlots(st, events, shares, picks, st.rr);
    Window(picks, shares, st.rr, from, size, t, i);
  }

  /** `size` picks from number `from` on, taken at the counter values from `t` on without a wrap. */
  ghost predicate InWindow(picks: seq<(string, string)>, rr: U64, from: nat, size: nat, t: nat) {
    from + size <= |picks| && t == Wrap(rr + from) && t + size <= 0x1_0000_0000_0000_0000
  }

  /** Distinct names with weights in the exact range, and the size of their pool. */
  ghost predicate FairShares(shares: seq<Share>, size: nat) {
    Positive(shares) && Exact(shares) && DistinctShares(shares) && size == TotalWeight(shares) * TotalWeight(shares)
  }

  lemma Window(picks: seq<(string, string)>, shares: seq<Share>, rr: U64, from: nat, size: nat, t: nat, i: nat)
    requires FairShares(shares, size) && i < |shares|
    requires InWindow(picks, rr, from, size, t) && TakeSlots(picks, shares, rr)
    ensures CountOf(picks[from..from + size], shares[i].name) == TotalWeight(shares) * shares[i].weight
  {
    WindowFollows(picks, shares, rr, from, size, t);
    WindowCount(picks[from..from + size], shares, t, i, size);
  }

  lemma WindowCount(picks: seq<(string, string)>, shares: seq<Share>, t: nat, i: nat, size: nat)
    requires Positive(shares) && Exact(shares) && DistinctShares(shares) && i < |shares|
    requires size == |picks| == PoolSize(shares) && t + size <= 0x1_0000_0000_0000_0000
    requires FollowSlots(picks, shares, t)
    ensures CountOf(picks, shares[i].name) == TotalWeight(shares) * shares[i].weight
  {
    var x := shares[i].name;
    PoolProportions(shares, x);
    WeightOfDistinct(shares, i);
    FullRound(picks, shares, t, x, size, OffsetOf(shares, x), SlotsOf(shares, x));
  }

  /** A window of a run's picks follows the slots from where the counter stood. */
  lemma WindowFollows(picks: seq<(string, string)>, shares: seq<Share>, rr: U64, from: nat, size: nat, t: nat)
    requires |shares| > 0 && from + size <= |picks| && TakeSlots(picks, shares, rr)
    requires t == Wrap(rr + from) && t + size <= 0x1_0000_0000_0000_0000
    ensures FollowSlots(picks[from..from + size], shares, t)
  {
    var window := picks[from..from + size];
    forall n | 0 <= n < size ensures window[n].1 == SlotAt(shares, t + n) {
      NoWrap(rr + from, n, t, rr + (from + n));
      assert window[n] == picks[from + n];
    }
  }

  lemma NoWrap(s: nat, n: nat, t: nat, u: nat)
    requires t == Wrap(s) && t + n < 0x1_0000_0000_0000_0000 && u == s + n
    ensures Wrap(u) == t + n
  {}

  // ----- The engine inside the data plane -----

  lemma {:induction false} AfterAllAppend(st: AggState, a: seq<EngineEvent>, b: seq<EngineEvent>)
    ensures AfterAll(st, a + b) == AfterAll(AfterAll(st, a), b)
    decreases |b|
  {
    if |b| == 0 {
      assert a + b == a;
    } else {
      assert (a + b)[..|a + b| - 1] == a + b[..|b| - 1];
      AfterAllAppend(st, a, b[..|b| - 1]);
    }
  }

  /** What a step of the data plane means for the engine. */
  function EventsOf(s: DataPlane.Sys, step: DataPlane.Step): seq<EngineEvent> {
    match step
    case Route => if s.egress.Routing? then [Packet(s.egress.pkt)] else []
    case Refresh(candidates) => [EngineEvent.Refresh(candidates)]
    case Configure(config) => [EngineEvent.Configure(config)]
    case _ => []
  }

  ghost function EngineEvents(net: DataPlane.Net, s: DataPlane.Sys, steps: seq<DataPlane.Step>): seq<EngineEvent>
    decreases |steps|
  {
    if |steps| == 0 then []
    else
      match DataPlane.Apply(net, s, steps[0])
      case None => []
      case Some(t) => EventsOf(s, steps[0]) + EngineEvents(net, t, steps[1..])
  }

  lemma StepIsEngineEvent(net: DataPlane.Net, s: DataPlane.Sys, step: DataPlane.Step, t: DataPlane.Sys)
    requires DataPlane.Apply(net, s, step) == Some(t)
    ensures t.agg == AfterAll(s.agg, EventsOf(s, step))
  {
    var events := EventsOf(s, step);
    if |events| > 0 {
      assert events[..0] == [] && AfterAll(s.agg, []) == s.agg;
    }
  }

  /** In every interleaving the engine inside the data plane goes through a run of the engine. */
  lemma {:induction false} EngineFollowsRun(
      net: DataPlane.Net, s: DataPlane.Sys, steps: seq<DataPlane.Step>, t: DataPlane.Sys)
    requires DataPlane.Exec(net, s, steps) == Some(t)
    ensures t.agg == AfterAll(s.agg, EngineEvents(net, s, steps))
    decreases |steps|
  {
    if |steps| > 0 {
      var u := DataPlane.Apply(net, s, steps[0]).value;
      StepIsEngineEvent(net, s, steps[0], u);
      EngineFollowsRun(net, u, steps[1..], t);
      AfterAllAppend(s.agg, EventsOf(s, steps[0]), EngineEvents(net, u, steps[1..]));
    }
  }
}
