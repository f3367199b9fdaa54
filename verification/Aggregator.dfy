/** The aggregation engine: candidate refresh, per-packet routing and the flow table. */
module Aggregator {
  import opened Bytes
  import opened Packet
  import opened Policy
  import opened Scheduling
  import Fnv

  // ----- Routing on values -----

  datatype AggState = AggState(
    config: Config, candidates: seq<Candidate>, rr: U64, flowTable: map<string, string>)

  datatype ForwardDecision = ForwardDecision(flow: Flow, interface: string)

  /** Selection for one key, with the flow table updated on a pick. */
  function Selected(st: AggState, key: string): (AggState, Option<string>) {
    var (pick, rr) := Select(st.config, st.candidates, key, st.rr);
    match pick
    case None => (st, None)
    case Some(name) => (st.(rr := rr, flowTable := st.flowTable[key := name]), pick)
  }

  function Routed(st: AggState, pkt: seq<Byte>): (AggState, Option<ForwardDecision>) {
    if !st.config.enabled then (st, None)
    else
      match Parsed(pkt)
      case None => (st, None)
      case Some(flow) =>
        var (after, pick) := Selected(st, flow.Key());
        match pick
        case None => (after, None)
        case Some(name) => (after, Some(ForwardDecision(flow, name)))
  }

  // ----- Candidates from the host's interfaces -----

  datatype Interface = Interface(name: string, kind: InterfaceKind, isUp: bool, carrier: bool)

  datatype Sample = Sample(txBps: real, rxBps: real)

  function BasePriority(kind: InterfaceKind): U32 {
    match kind
    case Ethernet => 30
    case Cellular => 20
    case Wifi => 10
    case _ => 5
  }

  function ToCandidate(cfg: Config, i: Interface, samples: map<string, Sample>): Candidate {
    var configured := if i.name in cfg.interfaces then cfg.interfaces[i.name] else DEFAULT_POLICY;
    var sample := if i.name in samples then samples[i.name] else Sample(0.0, 0.0);
    Candidate(i.name, i.kind, configured.(priority := BasePriority(i.kind)),
              sample.txBps, sample.rxBps, i.carrier && i.isUp)
  }

  function Candidates(cfg: Config, ifaces: seq<Interface>, samples: map<string, Sample>): seq<Candidate> {
    if |ifaces| == 0 then []
    else
      var init, last := Candidates(cfg, ifaces[..|ifaces| - 1], samples), ifaces[|ifaces| - 1];
      if last.kind.Loopback? || last.kind.Virtual? then init else init + [ToCandidate(cfg, last, samples)]
  }

  // ----- Settings changed from the interface -----

  datatype IfaceAction =
    | Enable(name: string, enable: bool)
    | Priority(name: string, delta: int)
    | Weight(name: string, delta: int)

  function AsI32(n: U32): int { if n < 0x8000_0000 then n else n - 0x1_0000_0000 }

  function Clamp(n: int, lo: U32, hi: U32): U32
    requires lo <= hi
  {
    if n < lo then lo else if n > hi then hi else n
  }

  function ActionApplied(cfg: Config, action: IfaceAction): Config {
    var p := if action.name in cfg.interfaces then cfg.interfaces[action.name] else DEFAULT_POLICY;
    var q :=
      match action
      case Enable(_, enable) => p.(enabled := enable)
      case Priority(_, delta) => p.(priority := Clamp(AsI32(p.priority) + delta, 1, 99))
      case Weight(_, delta) => p.(weight := Clamp(AsI32(p.weight) + delta, 1, 100));
    cfg.(interfaces := cfg.interfaces[action.name := q])
  }

  /** The flow table that a history of picks leaves: each key's last pick. */
  function LastPicks(history: seq<(string, string)>): map<string, string> {
    if |history| == 0 then map[]
    else
      var last := history[|history| - 1];
      LastPicks(history[..|history| - 1])[last.0 := last.1]
  }

  lemma LastPicksSnoc(history: seq<(string, string)>, key: string, pick: string)
    ensures LastPicks(history + [(key, pick)]) == LastPicks(history)[key := pick]
  {
    assert (history + [(key, pick)])[..|history|] == history;
  }

  class Aggregator {
    var config: Config
    var candidates: seq<Candidate>
    var rrCounter: U64
    var flowTable: map<string, string>
    ghost var history: seq<(string, string)>

    function State(): AggState
      reads this
    {
      AggState(config, candidates, rrCounter, flowTable)
    }

    /** The flow table is the last-pick map of everything routed so far. */
    ghost predicate Valid()
      reads this
    {
      flowTable == LastPicks(history)
    }

    /** `new`: the configuration is validated first. */
    static method Create(cfg: Config) returns (r: Option<Aggregator>)
      ensures r.Some? <==> cfg.IsValid()
      ensures r.None? <==>
                || cfg.healthCheckIntervalSecs == 0
                || exists n :: n in cfg.interfaces && cfg.interfaces[n].weight == 0
      ensures r.Some? ==> fresh(r.value) && r.value.Valid() && r.value.State() == AggState(cfg, [], 0, map[])
    {
      if !cfg.IsValid() {
        return None;
      }
      var agg := new Aggregator(cfg);
      r := Some(agg);
    }

    constructor (cfg: Config)
      ensures Valid() && State() == AggState(cfg, [], 0, map[]) && history == []
    {
      config, candidates, rrCounter, flowTable := cfg, [], 0, map[];
      history := [];
    }

    method Select(key: string) returns (pick: Option<string>)
      requires Valid()
      modifies this
      ensures Valid()
      ensures (State(), pick) == Selected(old(State()), key)
      ensures history == old(history) + if pick.Some? then [(key, pick.value)] else []
    {
      var rr;
      pick, rr := SelectInterface(config, candidates, key, rrCounter);
      if pick.None? {
        return;
      }
      rrCounter := rr;
      LastPicksSnoc(history, key, pick.value);
      flowTable := flowTable[key := pick.value];
      history := history + [(key, pick.value)];
    }

    method Route(pkt: seq<Byte>) returns (r: Option<ForwardDecision>)
      requires Valid()
      modifies this
      ensures Valid()
      ensures (State(), r) == Routed(old(State()), pkt)
      ensures history == old(history) + if r.Some? then [(r.value.flow.Key(), r.value.interface)] else []
    {
      if !config.enabled {
        return None;
      }
      var flow := Parse(pkt);
      if flow.None? {
        return None;
      }
      var pick := Select(flow.value.Key());
      if pick.None? {
        return None;
      }
      r := Some(ForwardDecision(flow.value, pick.value));
    }

    method RefreshCandidates(ifaces: seq<Interface>, samples: map<string, Sample>)
      requires Valid()
      modifies this`candidates
      ensures Valid()
      ensures State() == old(State()).(candidates := Candidates(config, ifaces, samples))
    {
      var next: seq<Candidate> := [];
      for i := 0 to |ifaces|
        invariant next == Candidates(config, ifaces[..i], samples)
      {
        assert ifaces[..i + 1][..i] == ifaces[..i];
        if !(ifaces[i].kind.Loopback? || ifaces[i].kind.Virtual?) {
          next := next + [ToCandidate(config, ifaces[i], samples)];
        }
      }
      assert ifaces[..|ifaces|] == ifaces;
      candidates := next;
    }

    /** The loads written in the loop are replaced at once by the fresh enumeration. */
    method Tick(ifaces: seq<Interface>, samples: map<string, Sample>)
      requires Valid()
      modifies this`candidates
      ensures Valid()
      ensures State() == old(State()).(candidates := Candidates(config, ifaces, samples))
    {
      for i := 0 to |candidates|
        invariant |candidates| == |old(candidates)|
      {
        var c := candidates[i];
        if c.name in samples {
          candidates := candidates[i := c.(txBps := samples[c.name].txBps, rxBps := samples[c.name].rxBps)];
        }
      }
      RefreshCandidates(ifaces, samples);
    }

    method Apply(action: IfaceAction)
      requires Valid()
      modifies this`config
      ensures Valid()
      ensures State() == old(State()).(config := ActionApplied(old(config), action))
    {
      var interfaces := config.interfaces;
      if action.name !in interfaces {
        interfaces := interfaces[action.name := DEFAULT_POLICY];
      }
      var p := interfaces[action.name];
      match action {
        case Enable(_, enable) => p := p.(enabled := enable);
        case Priority(_, delta) => p := p.(priority := Clamp(AsI32(p.priority) + delta, 1, 99));
        case Weight(_, delta) => p := p.(weight := Clamp(AsI32(p.weight) + delta, 1, 100));
      }
      config := config.(interfaces := interfaces[action.name := p]);
    }
  }

  // ----- Settings -----

  predicate WeightsInRange(cfg: Config) {
    forall n :: n in cfg.interfaces ==> 1 <= cfg.interfaces[n].weight <= 100
  }

  /** Whatever is clicked, weights stay in 1..=100 and a valid configuration stays valid. */
  lemma ActionKeepsWeights(cfg: Config, action: IfaceAction)
    requires WeightsInRange(cfg)
    ensures WeightsInRange(ActionApplied(cfg, action))
    ensures cfg.IsValid() ==> ActionApplied(cfg, action).IsValid()
  {}

  lemma {:induction false} CandidateWeights(cfg: Config, ifaces: seq<Interface>, samples: map<string, Sample>)
    requires WeightsInRange(cfg)
    ensures forall c :: c in Candidates(cfg, ifaces, samples) ==> 1 <= c.policy.weight <= 100
  {
    if |ifaces| > 0 {
      CandidateWeights(cfg, ifaces[..|ifaces| - 1], samples);
    }
  }

  /** So the pools built from refreshed candidates stay within the exact range of the slot product. */
  lemma RefreshedPoolIsExact(cfg: Config, ifaces: seq<Interface>, samples: map<string, Sample>)
    requires WeightsInRange(cfg)
    requires |Usable(Candidates(cfg, ifaces, samples))| <= 0x1_0000_0000
    ensures Exact(Shares(Usable(Candidates(cfg, ifaces, samples))))
  {
    var usable := Usable(Candidates(cfg, ifaces, samples));
    CandidateWeights(cfg, ifaces, samples);
    var shares := Shares(usable);
    forall s | s in shares ensures s.weight <= 100 {
      var i :| 0 <= i < |shares| && shares[i] == s;
      assert usable[i] in usable;
    }
    SlotsStayExact(shares);
  }

  /** A refreshed candidate ranks by its kind alone. */
  lemma {:induction false} RankedByKind(
      cfg: Config, ifaces: seq<Interface>, samples: map<string, Sample>, c: Candidate)
    requires c in Candidates(cfg, ifaces, samples)
    ensures c.policy.priority == BasePriority(c.kind)
  {
    var init := Candidates(cfg, ifaces[..|ifaces| - 1], samples);
    if c in init {
      RankedByKind(cfg, ifaces[..|ifaces| - 1], samples, c);
    }
  }

  /** What a configuration says of an interface besides its priority. */
  function WithoutPriority(cfg: Config, name: string): (U32, bool) {
    var p := if name in cfg.interfaces then cfg.interfaces[name] else DEFAULT_POLICY;
    (p.weight, p.enabled)
  }

  /** The two configurations differ at most in configured priorities. */
  ghost predicate DifferInPriorities(a: Config, b: Config) {
    && a.strategy == b.strategy && a.algorithm == b.algorithm
    && forall n :: WithoutPriority(a, n) == WithoutPriority(b, n)
  }

  /** Configured priorities reach neither the refreshed candidates nor any pick among them. */
  lemma {:induction false} ConfiguredPriorityIgnored(
      a: Config, b: Config, ifaces: seq<Interface>, samples: map<string, Sample>, key: string, rr: U64)
    requires DifferInPriorities(a, b)
    ensures Candidates(a, ifaces, samples) == Candidates(b, ifaces, samples)
    ensures Select(a, Candidates(a, ifaces, samples), key, rr) == Select(b, Candidates(b, ifaces, samples), key, rr)
  {
    if |ifaces| > 0 {
      ConfiguredPriorityIgnored(a, b, ifaces[..|ifaces| - 1], samples, key, rr);
      assert WithoutPriority(a, ifaces[|ifaces| - 1].name) == WithoutPriority(b, ifaces[|ifaces| - 1].name);
    }
  }

  // ----- Runs of the engine -----

  /** What happens to the engine: a packet, a refresh with any loads and health, a new configuration. */
  datatype EngineEvent =
    | Packet(pkt: seq<Byte>)
    | Refresh(candidates: seq<Candidate>)
    | Configure(config: Config)

  function After(st: AggState, e: EngineEvent): AggState {
    match e
    case Packet(pkt) => Routed(st, pkt).0
    case Refresh(candidates) => st.(candidates := candidates)
    case Configure(config) => st.(config := config)
  }

  function AfterAll(st: AggState, events: seq<EngineEvent>): AggState {
    if |events| == 0 then st else After(AfterAll(st, events[..|events| - 1]), events[|events| - 1])
  }

  /** Key and interface of every packet that was given one, in order. */
  function Picks(st: AggState, events: seq<EngineEvent>): seq<(string, string)> {
    if |events| == 0 then []
    else
      var init, last := events[..|events| - 1], events[|events| - 1];
      var before := Picks(st, init);
      if last.Packet? then
        match Routed(AfterAll(st, init), last.pkt).1
        case None => before
        case Some(d) => before + [(d.flow.Key(), d.interface)]
      else before
  }

  /** The flow table holds the last pick of every key ever routed, and nothing else. */
  lemma {:induction false} FlowTableIsLastPicks(st: AggState, events: seq<EngineEvent>)
    requires st.flowTable == map[]
    ensures AfterAll(st, events).flowTable == LastPicks(Picks(st, events))
  {
    if |events| > 0 {
      var init, last := events[..|events| - 1], events[|events| - 1];
      FlowTableIsLastPicks(st, init);
      if last.Packet? {
        var before := AfterAll(st, init);
        match Routed(before, last.pkt).1 {
          case None =>
          case Some(d) => LastPicksSnoc(Picks(st, init), d.flow.Key(), d.interface);
        }
      }
    }
  }

  /** Load balancing by hash over exactly these shares, whatever their order, loads and priorities. */
  ghost predicate Pins(st: AggState, shares: seq<Share>) {
    && st.config.strategy.LoadBalance? && st.config.algorithm.Hash?
    && Offer(st.candidates) == multiset(shares)
  }

  /** The interface a key is pinned to. */
  function PinOf(shares: seq<Share>, key: string): string
    requires |shares| > 0
  {
    PoolNonEmpty(shares);
    Pool(shares)[Fnv.Hash(KeyBytes(key)) % |Pool(shares)|]
  }

  lemma PinnedSelection(st: AggState, shares: seq<Share>, key: string)
    requires Pins(st, shares) && |shares| > 0
    ensures Selected(st, key).1 == Some(PinOf(shares, key))
  {
    var usable := Usable(st.candidates);
    assert |usable| == |Offer(st.candidates)| == |shares|;
    PoolIgnoresOrder(Shares(usable), shares);
  }

  /**
   * Over any run that keeps hash balancing and the offer, every packet goes to the interface its
   * key is pinned to; so packets with equal keys share an interface.
   */
  lemma {:induction false} HashPinsRuns(st: AggState, events: seq<EngineEvent>, shares: seq<Share>)
    requires |shares| > 0
    requires forall n :: 0 <= n <= |events| ==> Pins(AfterAll(st, events[..n]), shares)
    ensures forall p :: p in Picks(st, events) ==> p.1 == PinOf(shares, p.0)
    ensures forall p, q :: p in Picks(st, events) && q in Picks(st, events) && p.0 == q.0 ==> p == q
  {
    if |events| > 0 {
      var init, last := events[..|events| - 1], events[|events| - 1];
      assert forall n :: 0 <= n <= |init| ==> init[..n] == events[..n];
      HashPinsRuns(st, init, shares);
      var before := AfterAll(st, init);
      assert init == events[..|init|];
      if last.Packet? && Routed(before, last.pkt).1.Some? {
        PinnedSelection(before, shares, Routed(before, last.pkt).1.value.flow.Key());
      }
    }
  }

  // ----- Keys as hashed bytes -----

  lemma KeyBytesFaithful(key: string)
    requires IsAscii(key)
    ensures forall i :: 0 <= i < |key| ==> KeyBytes(key)[i] == key[i] as int
  {}

  lemma SlicesOfBytes(key: string, i: nat)
    requires i < |key|
    ensures KeyBytes(key)[..i] == KeyBytes(key[..i]) && KeyBytes(key)[i + 1..] == KeyBytes(key[i + 1..])
  {}

  /** Two flows whose keys differ in exactly one character never have the same hash. */
  lemma KeysOneCharApart(p: seq<Byte>, q: seq<Byte>, i: nat)
    requires Parsed(p).Some? && Parsed(q).Some?
    requires var k, l := Parsed(p).value.Key(), Parsed(q).value.Key();
             |k| == |l| && i < |k| && k[i] != l[i] && k[..i] == l[..i] && k[i + 1..] == l[i + 1..]
    ensures Fnv.Hash(KeyBytes(Parsed(p).value.Key())) != Fnv.Hash(KeyBytes(Parsed(q).value.Key()))
  {
    var k, l := Parsed(p).value.Key(), Parsed(q).value.Key();
    KeyIsAscii(p);
    KeyIsAscii(q);
    BytesOneApart(k, l, i);
  }

  lemma BytesOneApart(k: string, l: string, i: nat)
    requires IsAscii(k) && IsAscii(l)
    requires |k| == |l| && i < |k| && k[i] != l[i] && k[..i] == l[..i] && k[i + 1..] == l[i + 1..]
    ensures Fnv.Hash(KeyBytes(k)) != Fnv.Hash(KeyBytes(l))
  {
    var a, b := KeyBytes(k), KeyBytes(l);
    KeyBytesFaithful(k);
    KeyBytesFaithful(l);
    SlicesOfBytes(k, i);
    SlicesOfBytes(l, i);
    assert a == a[..i] + [a[i]] + a[i + 1..];
    assert b == a[..i] + [b[i]] + a[i + 1..];
    Fnv.OneByteNeverCollides(a[..i], a[i], b[i], a[i + 1..]);
  }
}
