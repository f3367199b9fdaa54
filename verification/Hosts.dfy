/** What the host's interfaces and the user's settings come to: candidates, ranking, and changes of settings. */
module Hosts {
  import opened Bytes
  import opened Policy
  import opened Scheduling
  import opened Aggregator

  /** The interfaces a refresh keeps. */
  predicate IsPhysical(i: Interface) { i.kind != Loopback && i.kind != Virtual }

  /** A refresh keeps the interface, it is up with carrier, and the settings do not disable it. */
  predicate CanServe(cfg: Config, i: Interface) {
    && i.kind != Loopback && i.kind != Virtual && i.isUp && i.carrier
    && (i.name in cfg.interfaces ==> cfg.interfaces[i.name].enabled)
  }

  // ----- The candidate of an interface -----

  /** The candidate `c` carries what is known of interface `i`; an unconfigured one is enabled with weight 1. */
  predicate Describes(cfg: Config, samples: map<string, Sample>, i: Interface, c: Candidate) {
    && c.name == i.name && c.kind == i.kind && c.healthy == (i.isUp && i.carrier)
    && (if i.name in cfg.interfaces
        then c.policy.weight == cfg.interfaces[i.name].weight && c.policy.enabled == cfg.interfaces[i.name].enabled
        else c.policy.weight == 1 && c.policy.enabled)
    && (if i.name in samples
        then c.txBps == samples[i.name].txBps && c.rxBps == samples[i.name].rxBps
        else c.txBps == 0.0 && c.rxBps == 0.0)
  }

  /** How many of the first `n` interfaces are physical: where the next one goes in the list. */
  function Place(ifaces: seq<Interface>, n: nat): nat
    requires n <= |ifaces|
  {
    if n == 0 then 0 else Place(ifaces, n - 1) + if IsPhysical(ifaces[n - 1]) then 1 else 0
  }

  lemma {:induction false} PlaceGrows(ifaces: seq<Interface>, m: nat, n: nat)
    requires m <= n <= |ifaces|
    ensures Place(ifaces, m) <= Place(ifaces, n)
    ensures m < n && IsPhysical(ifaces[m]) ==> Place(ifaces, m) < Place(ifaces, n)
    decreases n
  {
    if m < n {
      PlaceGrows(ifaces, m, n - 1);
    }
  }

  lemma {:induction false} PlaceOfPrefix(ifaces: seq<Interface>, m: nat, n: nat)
    requires m <= n <= |ifaces|
    ensures Place(ifaces[..n], m) == Place(ifaces, m)
  {
    if m > 0 {
      PlaceOfPrefix(ifaces, m - 1, n);
    }
  }

  /** Every physical interface has its candidate at its place, and the list has no others. */
  lemma {:induction false} CandidatesExactly(cfg: Config, ifaces: seq<Interface>, samples: map<string, Sample>)
    ensures var list := Candidates(cfg, ifaces, samples);
            && |list| == Place(ifaces, |ifaces|)
            && (forall i :: 0 <= i < |ifaces| && IsPhysical(ifaces[i]) ==>
                  Place(ifaces, i) < |list| && Describes(cfg, samples, ifaces[i], list[Place(ifaces, i)]))
  {
    if |ifaces| > 0 {
      var m := |ifaces| - 1;
      CandidatesExactly(cfg, ifaces[..m], samples);
      forall i | 0 <= i <= m ensures Place(ifaces[..m], i) == Place(ifaces, i) {
        PlaceOfPrefix(ifaces, i, m);
      }
    }
  }

  /** The interface behind a place of the list. */
  lemma {:induction false} InterfaceAt(ifaces: seq<Interface>, n: nat, k: nat) returns (i: nat)
    requires n <= |ifaces| && k < Place(ifaces, n)
    ensures i < n && IsPhysical(ifaces[i]) && Place(ifaces, i) == k
  {
    if k < Place(ifaces, n - 1) {
      i := InterfaceAt(ifaces, n - 1, k);
    } else {
      i := n - 1;
    }
  }

  // ----- Ranking -----

  /** Ethernet over cellular over Wi-Fi over every other kind. */
  predicate Preferred(k: InterfaceKind, l: InterfaceKind) {
    || (k == Ethernet && l != Ethernet)
    || (k == Cellular && l != Ethernet && l != Cellular)
    || (k == Wifi && l != Ethernet && l != Cellular && l != Wifi)
  }

  lemma PriorityByKind(cfg: Config, ifaces: seq<Interface>, samples: map<string, Sample>, c: Candidate, d: Candidate)
    requires c in Candidates(cfg, ifaces, samples) && d in Candidates(cfg, ifaces, samples)
    requires c.kind != Loopback && c.kind != Virtual && d.kind != Loopback && d.kind != Virtual
    ensures Preferred(c.kind, d.kind) <==> c.policy.priority > d.policy.priority
  {
    RankedByKind(cfg, ifaces, samples, c);
    RankedByKind(cfg, ifaces, samples, d);
  }

  /** Interface `i` can serve, and every other one that can is of a lower kind, or of the same and listed later. */
  ghost predicate ServesBest(cfg: Config, ifaces: seq<Interface>, i: int) {
    && 0 <= i < |ifaces| && CanServe(cfg, ifaces[i])
    && forall j :: 0 <= j < |ifaces| && j != i && CanServe(cfg, ifaces[j]) ==>
                     Preferred(ifaces[i].kind, ifaces[j].kind) || (!Preferred(ifaces[j].kind, ifaces[i].kind) && i < j)
  }

  /**
   * Failover over refreshed candidates picks by kind alone: an Ethernet when one can serve, else a
   * cellular, else a Wi-Fi, else another physical one; the first listed among equals. It picks none
   * exactly when none can serve.
   */
  lemma FailoverPrefersKinds(cfg: Config, ifaces: seq<Interface>, samples: map<string, Sample>, key: string, rr: U64)
    returns (i: int)
    requires cfg.strategy == Failover
    ensures var pick := Select(cfg, Candidates(cfg, ifaces, samples), key, rr).0;
            && (pick == None <==> forall j :: 0 <= j < |ifaces| ==> !CanServe(cfg, ifaces[j]))
            && (pick.Some? ==> ServesBest(cfg, ifaces, i) && pick.value == ifaces[i].name)
  {
    var list := Candidates(cfg, ifaces, samples);
    CandidatesExactly(cfg, ifaces, samples);
    SelectTotal(cfg, list, key, rr);
    i := 0;
    if |Usable(list)| > 0 {
      var m := FailoverPicksChosen(cfg, list, key, rr);
      i := InterfaceAt(ifaces, |ifaces|, m);
      assert Describes(cfg, samples, ifaces[i], list[m]);
      ChosenServesBest(cfg, ifaces, samples, m, i);
    } else {
      forall j | 0 <= j < |ifaces| ensures !CanServe(cfg, ifaces[j]) {
        if CanServe(cfg, ifaces[j]) {
          ServingIsUsable(cfg, ifaces, samples, j);
        }
      }
    }
  }

  lemma ServingIsUsable(cfg: Config, ifaces: seq<Interface>, samples: map<string, Sample>, j: nat)
    requires j < |ifaces| && CanServe(cfg, ifaces[j])
    ensures |Usable(Candidates(cfg, ifaces, samples))| > 0
  {
    var list := Candidates(cfg, ifaces, samples);
    CandidatesExactly(cfg, ifaces, samples);
    assert Describes(cfg, samples, ifaces[j], list[Place(ifaces, j)]);
    assert list[Place(ifaces, j)] in Usable(list);
  }

  lemma ChosenServesBest(cfg: Config, ifaces: seq<Interface>, samples: map<string, Sample>, m: int, i: int)
    requires Chosen(Candidates(cfg, ifaces, samples), m)
    requires 0 <= i < |ifaces| && IsPhysical(ifaces[i]) && Place(ifaces, i) == m
    requires Describes(cfg, samples, ifaces[i], Candidates(cfg, ifaces, samples)[m])
    ensures ServesBest(cfg, ifaces, i)
  {
    var list := Candidates(cfg, ifaces, samples);
    CandidatesExactly(cfg, ifaces, samples);
    forall j | 0 <= j < |ifaces| && j != i && CanServe(cfg, ifaces[j])
      ensures Preferred(ifaces[i].kind, ifaces[j].kind) || (!Preferred(ifaces[j].kind, ifaces[i].kind) && i < j)
    {
      var n := Place(ifaces, j);
      assert Describes(cfg, samples, ifaces[j], list[n]);
      if i < j {
        PlaceGrows(ifaces, i, j);
      } else {
        PlaceGrows(ifaces, j, i);
      }
      assert Outranks(list, m, n);
      PriorityByKind(cfg, ifaces, samples, list[m], list[n]);
      PriorityByKind(cfg, ifaces, samples, list[n], list[m]);
    }
  }

  // ----- Settings -----

  /** The settings of a name; 10, 1 and enabled when it has none. */
  function PolicyOf(cfg: Config, name: string): InterfacePolicy {
    if name in cfg.interfaces then cfg.interfaces[name] else InterfacePolicy(10, 1, true)
  }

  /** A step of a setting inside its bounds is taken in full; past a bound it stops there. */
  predicate StepTo(value: int, delta: int, bound: int, next: int) {
    && (1 <= value + delta <= bound ==> next == value + delta)
    && (value + delta < 1 ==> next == 1)
    && (value + delta > bound ==> next == bound)
  }

  /** Every action changes one setting of one interface, as far as its bounds allow, and nothing else. */
  lemma ActionExactly(cfg: Config, action: IfaceAction)
    requires PolicyOf(cfg, action.name).priority < 0x8000_0000 && PolicyOf(cfg, action.name).weight < 0x8000_0000
    ensures var before, next := PolicyOf(cfg, action.name), ActionApplied(cfg, action);
            var after := PolicyOf(next, action.name);
            && next == cfg.(interfaces := next.interfaces)
            && next.interfaces.Keys == cfg.interfaces.Keys + {action.name}
            && (forall n :: n in cfg.interfaces && n != action.name ==> next.interfaces[n] == cfg.interfaces[n])
            && match action {
                 case Enable(_, enable) => after == before.(enabled := enable)
                 case Priority(_, delta) =>
                   after == before.(priority := after.priority) && StepTo(before.priority, delta, 99, after.priority)
                 case Weight(_, delta) =>
                   after == before.(weight := after.weight) && StepTo(before.weight, delta, 100, after.weight)
               }
  {}

  /** A value that does not fit i32 reads as negative, and a small step takes it to the lower bound. */
  lemma HugeValuesDrop(cfg: Config, name: string, delta: int)
    requires -0x8000_0000 <= delta <= 1
    ensures PolicyOf(cfg, name).weight >= 0x8000_0000 ==>
              PolicyOf(ActionApplied(cfg, Weight(name, delta)), name).weight == 1
    ensures PolicyOf(cfg, name).priority >= 0x8000_0000 ==>
              PolicyOf(ActionApplied(cfg, Priority(name, delta)), name).priority == 1
  {}

  /** Entry `i` is the last one with this key, and has this pick. */
  ghost predicate LastWithKey(history: seq<(string, string)>, key: string, pick: string, i: int) {
    0 <= i < |history| && history[i] == (key, pick) && forall j :: i < j < |history| ==> history[j].0 != key
  }

  /** The flow table of a history: the pick of the last entry with that key. */
  lemma {:induction false} LastPicksExactly(history: seq<(string, string)>, key: string, pick: string)
    ensures key in LastPicks(history) && LastPicks(history)[key] == pick <==>
            exists i :: LastWithKey(history, key, pick, i)
  {
    if |history| > 0 {
      var m := |history| - 1;
      LastPicksExactly(history[..m], key, pick);
      if history[m].0 == key {
        assert history[m].1 == pick ==> LastWithKey(history, key, pick, m);
      } else {
        forall i ensures LastWithKey(history[..m], key, pick, i) <==> LastWithKey(history, key, pick, i) {}
      }
    }
  }
}
