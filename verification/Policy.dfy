/** Interface selection: failover, weighted round-robin, hash pinning and least load. */
module Policy {
  import opened Bytes
  import opened Order
  import Float
  import Fnv

  datatype InterfaceKind = Ethernet | Wifi | Cellular | Loopback | Virtual | Other

  datatype Strategy = LoadBalance | Failover

  datatype Algorithm = RoundRobin | Hash | LeastLoaded

  datatype InterfacePolicy = InterfacePolicy(priority: U32, weight: U32, enabled: bool)

  const DEFAULT_POLICY := InterfacePolicy(10, 1, true)

  datatype Config = Config(
    strategy: Strategy, algorithm: Algorithm, interfaces: map<string, InterfacePolicy>,
    healthCheckIntervalSecs: U64, enabled: bool)
  {
    /** `validate`: a positive interval and no configured weight of 0. */
    predicate IsValid() {
      healthCheckIntervalSecs != 0 && forall n :: n in interfaces ==> interfaces[n].weight != 0
    }
  }

  datatype Candidate = Candidate(
    name: string, kind: InterfaceKind, policy: InterfacePolicy, txBps: real, rxBps: real, healthy: bool)
  {
    predicate Usable() { policy.enabled && healthy }

    function Weight(): nat { if policy.weight < 1 then 1 else policy.weight }

    function Load(): real { txBps + rxBps }

    function ToShare(): Share { Share(name, Weight()) }
  }

  function Usable(candidates: seq<Candidate>): (u: seq<Candidate>)
    ensures forall c :: c in u <==> c in candidates && c.Usable()
  {
    if |candidates| == 0 then []
    else if candidates[0].Usable() then [candidates[0]] + Usable(candidates[1..])
    else Usable(candidates[1..])
  }

  // ----- The weighted pool -----

  /** All the pool looks at: a name and a weight of at least 1. */
  datatype Share = Share(name: string, weight: nat)

  function Shares(list: seq<Candidate>): (s: seq<Share>)
    ensures |s| == |list| && forall i :: 0 <= i < |s| ==> s[i] == list[i].ToShare()
  {
    seq(|list|, i requires 0 <= i < |list| => list[i].ToShare())
  }

  function TotalWeight(shares: seq<Share>): nat {
    if |shares| == 0 then 0 else shares[0].weight + TotalWeight(shares[1..])
  }

  function Repeat(name: string, n: nat): (s: seq<string>)
    ensures |s| == n && forall i :: 0 <= i < n ==> s[i] == name
  {
    seq(n, _ => name)
  }

  /** `(total as f64 * w as f64 + 0.5) as u64`, at least 1; the sum with 0.5 is counted in halves. */
  function Slots(total: nat, weight: nat): (n: nat)
    ensures n >= 1
  {
    var product := Float.Round(Float.Round(total) * weight);
    var cast := Float.Round(2 * product + 1) / 2;
    var n := if cast < 0x1_0000_0000_0000_0000 then cast else 0xffff_ffff_ffff_ffff;
    if n < 1 then 1 else n
  }

  function Expand(shares: seq<Share>, total: nat): seq<string> {
    if |shares| == 0 then []
    else Repeat(shares[0].name, Slots(total, shares[0].weight)) + Expand(shares[1..], total)
  }

  /** The names of the pool's slots, in order. */
  function Pool(shares: seq<Share>): seq<string> {
    Sort(Expand(shares, TotalWeight(shares)))
  }

  lemma {:induction false} TotalWeightSnoc(shares: seq<Share>, s: Share)
    ensures TotalWeight(shares + [s]) == TotalWeight(shares) + s.weight
  {
    if |shares| == 0 {
      assert shares + [s] == [s];
      assert TotalWeight([s][1..]) == 0;
    } else {
      TotalWeightSnoc(shares[1..], s);
      assert (shares + [s])[1..] == shares[1..] + [s];
    }
  }

  lemma {:induction false} ExpandSnoc(shares: seq<Share>, s: Share, total: nat)
    ensures Expand(shares + [s], total) == Expand(shares, total) + Repeat(s.name, Slots(total, s.weight))
  {
    if |shares| == 0 {
      assert shares + [s] == [s];
      assert Expand([s][1..], total) == [];
    } else {
      ExpandSnoc(shares[1..], s, total);
      assert (shares + [s])[1..] == shares[1..] + [s];
    }
  }

  method WeightedPool(list: seq<Candidate>) returns (pool: seq<string>)
    ensures pool == Pool(Shares(list))
  {
    ghost var shares := Shares(list);
    var total: nat := 0;
    for i := 0 to |list|
      invariant total == TotalWeight(shares[..i])
    {
      TotalWeightSnoc(shares[..i], shares[i]);
      assert shares[..i + 1] == shares[..i] + [shares[i]];
      total := total + list[i].Weight();
    }
    assert shares[..|list|] == shares;

    pool := [];
    for i := 0 to |list|
      invariant pool == Expand(shares[..i], total)
    {
      var n := Slots(total, list[i].Weight());
      for k := 0 to n
        invariant pool == Expand(shares[..i], total) + Repeat(list[i].name, k)
      {
        assert Repeat(list[i].name, k + 1) == Repeat(list[i].name, k) + [list[i].name];
        pool := pool + [list[i].name];
      }
      ExpandSnoc(shares[..i], shares[i], total);
      assert shares[..i + 1] == shares[..i] + [shares[i]];
    }
    pool := Sort(pool);
  }

  // ----- Failover and least load -----

  /** One step of a stable sort by descending priority: `c` comes before its equals in `s`. */
  function InsertByPriority(c: Candidate, s: seq<Candidate>): (t: seq<Candidate>)
    ensures |t| == |s| + 1
  {
    if |s| == 0 || s[0].policy.priority <= c.policy.priority then [c] + s
    else [s[0]] + InsertByPriority(c, s[1..])
  }

  function SortByPriority(list: seq<Candidate>): (t: seq<Candidate>)
    ensures |t| == |list|
  {
    if |list| == 0 then [] else InsertByPriority(list[0], SortByPriority(list[1..]))
  }

  /** `i` is the leftmost candidate of maximal priority. */
  ghost predicate LeftmostBest(list: seq<Candidate>, i: int) {
    && 0 <= i < |list|
    && forall j :: 0 <= j < |list| && j != i ==> Outranks(list, i, j)
  }

  /** Higher priority first, earlier in the list first among equals. */
  predicate Outranks(list: seq<Candidate>, i: int, j: int)
    requires 0 <= i < |list| && 0 <= j < |list|
  {
    || list[i].policy.priority > list[j].policy.priority
    || (list[i].policy.priority == list[j].policy.priority && i < j)
  }

  /** The head of the stable sort is the leftmost candidate of maximal priority. */
  lemma {:induction false} SortedHeadIsBest(list: seq<Candidate>) returns (i: int)
    requires |list| > 0
    ensures LeftmostBest(list, i) && SortByPriority(list)[0] == list[i]
  {
    i := 0;
    if |list| > 1 {
      var k := SortedHeadIsBest(list[1..]);
      if list[k + 1].policy.priority > list[0].policy.priority {
        i := k + 1;
      }
      forall j | 0 <= j < |list| && j != i ensures Outranks(list, i, j) {
        if j > 0 && j != k + 1 {
          assert Outranks(list[1..], k, j - 1);
        }
      }
    }
  }

  /** `i` is the leftmost candidate of minimal load. */
  ghost predicate LeastLoadedAt(list: seq<Candidate>, i: int) {
    && 0 <= i < |list|
    && (forall j :: 0 <= j < i ==> list[i].Load() < list[j].Load())
    && (forall j :: i < j < |list| ==> list[i].Load() <= list[j].Load())
  }

  function LeastIndex(list: seq<Candidate>): (i: int)
    requires |list| > 0
    ensures LeastLoadedAt(list, i)
  {
    var init := list[..|list| - 1];
    if |init| == 0 then 0
    else
      var k := LeastIndex(init);
      assert forall j :: 0 <= j < |init| ==> init[j] == list[j];
      if list[|list| - 1].Load() < list[k].Load() then |list| - 1 else k
  }

  // ----- Selection -----

  /** The bytes of a key; keys are ASCII, one byte to a character. */
  function KeyBytes(key: string): (b: seq<Byte>)
    ensures |b| == |key|
  {
    seq(|key|, i requires 0 <= i < |key| => key[i] as int % 256)
  }

  function WrappingInc(n: U64): U64 {
    if n == 0xffff_ffff_ffff_ffff then 0 else n + 1
  }

  function Select(cfg: Config, candidates: seq<Candidate>, key: string, rr: U64): (Option<string>, U64) {
    var usable := Usable(candidates);
    if |usable| == 0 then (None, rr)
    else
      match cfg.strategy
      case Failover => (Some(SortByPriority(usable)[0].name), rr)
      case LoadBalance =>
        var pool := Pool(Shares(usable));
        match cfg.algorithm
        case RoundRobin => if |pool| == 0 then (None, rr) else (Some(pool[rr % |pool|]), WrappingInc(rr))
        case Hash => if |pool| == 0 then (None, rr) else (Some(pool[Fnv.Hash(KeyBytes(key)) % |pool|]), rr)
        case LeastLoaded => (Some(usable[LeastIndex(usable)].name), rr)
  }

  method SelectInterface(cfg: Config, candidates: seq<Candidate>, key: string, rr: U64)
    returns (pick: Option<string>, rr': U64)
    ensures (pick, rr') == Select(cfg, candidates, key, rr)
  {
    var usable := Usable(candidates);
    rr' := rr;
    if |usable| == 0 {
      return None, rr';
    }
    match cfg.strategy {
      case Failover =>
        var sorted := SortByPriority(usable);
        pick := Some(sorted[0].name);
      case LoadBalance =>
        match cfg.algorithm {
          case RoundRobin =>
            var pool := WeightedPool(usable);
            if |pool| == 0 {
              return None, rr';
            }
            var idx := rr % |pool|;
            rr' := WrappingInc(rr);
            pick := Some(pool[idx]);
          case Hash =>
            var pool := WeightedPool(usable);
            if |pool| == 0 {
              return None, rr';
            }
            var h := Fnv.Fnv1a(KeyBytes(key));
            pick := Some(pool[h % |pool|]);
          case LeastLoaded =>
            var best := LeastLoadedScan(usable);
            pick := Some(usable[best].name);
        }
    }
  }

  /** The scan keeps the first candidate whose load is strictly below all before it. */
  method LeastLoadedScan(usable: seq<Candidate>) returns (best: nat)
    requires |usable| > 0
    ensures best == LeastIndex(usable)
  {
    best := 0;
    var found := false;
    for i := 0 to |usable|
      invariant found <==> i > 0
      invariant found ==> best < i && best == LeastIndex(usable[..i])
    {
      assert usable[..i + 1][..i] == usable[..i];
      if !found || usable[i].Load() < usable[best].Load() {
        found := true;
        best := i;
      }
    }
    assert usable[..|usable|] == usable;
  }
}
