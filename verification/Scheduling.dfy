/** What selection guarantees: totality, minimal failover, exact fairness, order independence. */
module Scheduling {
  import opened Bytes
  import opened Order
  import opened Policy
  import opened Numbers
  import opened Sequences
  import Float
  import Fnv

  // ----- Pool proportions -----

  const EXACT := 0x10_0000_0000_0000 // 2^52

  const U64_MAX := 0xffff_ffff_ffff_ffff

  /**
   * When the float expression is the product: below 2^52 always; from there on when the product is an
   * even number with an odd part below 2^53, in the range of u64; and at the top of u64 when the
   * rounded product is past it, because the cast saturates.
   */
  predicate ExactSlots(total: nat, weight: nat) {
    var n := total * weight;
    || n < EXACT
    || (n <= U64_MAX && n % 2 == 0 && Float.OddPart(n) < Float.MANTISSA)
    || (n == U64_MAX && Float.Round(Float.Round(total) * weight) > U64_MAX)
  }

  /** Every slot count of the pool is the product it stands for. */
  ghost predicate Exact(shares: seq<Share>) {
    forall s :: s in shares ==> ExactSlots(TotalWeight(shares), s.weight)
  }

  ghost predicate Positive(shares: seq<Share>) {
    |shares| > 0 && forall s :: s in shares ==> s.weight >= 1
  }

  /** Total weight carried under one name. */
  function WeightOf(shares: seq<Share>, x: string): nat {
    if |shares| == 0 then 0
    else (if shares[0].name == x then shares[0].weight else 0) + WeightOf(shares[1..], x)
  }

  /** Total weight of the names that sort before `x`. */
  function WeightBelow(shares: seq<Share>, x: string): nat {
    if |shares| == 0 then 0
    else (if Less(shares[0].name, x) then shares[0].weight else 0) + WeightBelow(shares[1..], x)
  }

  lemma {:induction false} CountRepeat(name: string, n: nat, x: string)
    ensures multiset(Repeat(name, n))[x] == if name == x then n else 0
    ensures Below(Repeat(name, n), x) == if Less(name, x) then n else 0
  {
    if n > 0 {
      CountRepeat(name, n - 1, x);
      var s := Repeat(name, n);
      assert s[1..] == Repeat(name, n - 1);
      assert s == [name] + s[1..];
    }
  }

  /** The float expression computes the product exactly under that condition. */
  lemma SlotsIsProductExactly(total: nat, weight: nat)
    requires total >= 1 && weight >= 1
    ensures Slots(total, weight) == total * weight <==> ExactSlots(total, weight)
  {
    var n := total * weight;
    MulPositive(total, weight);
    var m := Float.Round(Float.Round(total) * weight);
    if Float.OddPart(n) < Float.MANTISSA {
      Float.OddPartOfFactor(total, weight);
      Float.RoundExactly(total);
      Float.RoundExactly(n);
      SlotsOfRounded(total, weight, n);
      if n >= Float.MANTISSA {
        assert n % 2 == 0;
      }
    } else {
      assert n > Float.MANTISSA;
      if m == n {
        Float.RoundedFits(Float.Round(total) * weight);
      }
      SlotsOfRounded(total, weight, m);
    }
  }

  /** The slot count in terms of the rounded product. */
  lemma SlotsOfRounded(total: nat, weight: nat, m: nat)
    requires m == Float.Round(Float.Round(total) * weight)
    ensures m == 0 ==> Slots(total, weight) == 1
    ensures 0 < m < Float.MANTISSA ==> Slots(total, weight) == if m < EXACT || m % 2 == 0 then m else m + 1
    ensures m >= Float.MANTISSA ==> Slots(total, weight) == if m <= U64_MAX then m else U64_MAX
  {
    if m < Float.MANTISSA {
      Float.HalfIsTie(m);
    } else {
      Float.RoundedFits(Float.Round(total) * weight);
      Float.HalfIsLost(m);
    }
  }

  lemma CountHead(name: string, n: nat, others: seq<string>, x: string)
    ensures multiset(Repeat(name, n) + others)[x] == (if name == x then n else 0) + multiset(others)[x]
  {
    CountRepeat(name, n, x);
    assert multiset(Repeat(name, n) + others) == multiset(Repeat(name, n)) + multiset(others);
  }

  /** What the first share adds to the count of a name. */
  lemma CountFirst(shares: seq<Share>, total: nat, x: string)
    requires |shares| > 0 && Slots(total, shares[0].weight) == total * shares[0].weight
    ensures multiset(Expand(shares, total))[x] ==
            (if shares[0].name == x then total * shares[0].weight else 0) + multiset(Expand(shares[1..], total))[x]
  {
    CountHead(shares[0].name, Slots(total, shares[0].weight), Expand(shares[1..], total), x);
  }

  lemma {:induction false} ExpandCount(shares: seq<Share>, total: nat, x: string)
    requires total >= 1 && forall s :: s in shares ==> s.weight >= 1 && ExactSlots(total, s.weight)
    ensures multiset(Expand(shares, total))[x] == total * WeightOf(shares, x)
  {
    if |shares| > 0 {
      var h := shares[0];
      ExpandCount(shares[1..], total, x);
      SlotsIsProductExactly(total, h.weight);
      CountFirst(shares, total, x);
      AddHead(total, h.name == x, h.weight, WeightOf(shares[1..], x));
    }
  }

  lemma BelowHead(shares: seq<Share>, total: nat, x: string)
    requires |shares| > 0
    ensures Below(Expand(shares, total), x) ==
            (if Less(shares[0].name, x) then Slots(total, shares[0].weight) else 0) +
            Below(Expand(shares[1..], total), x)
  {
    var n := Slots(total, shares[0].weight);
    CountRepeat(shares[0].name, n, x);
    BelowAppend(Repeat(shares[0].name, n), Expand(shares[1..], total), x);
  }

  function SlotsBelow(shares: seq<Share>, total: nat, x: string): nat {
    if |shares| == 0 then 0
    else (if Less(shares[0].name, x) then Slots(total, shares[0].weight) else 0) + SlotsBelow(shares[1..], total, x)
  }

  lemma {:induction false} BelowIsSlotsBelow(shares: seq<Share>, total: nat, x: string)
    ensures Below(Expand(shares, total), x) == SlotsBelow(shares, total, x)
  {
    if |shares| > 0 {
      BelowIsSlotsBelow(shares[1..], total, x);
      BelowHead(shares, total, x);
    }
  }

  lemma {:induction false} SlotsBelowIsProduct(shares: seq<Share>, total: nat, x: string)
    requires total >= 1 && forall s :: s in shares ==> s.weight >= 1 && ExactSlots(total, s.weight)
    ensures SlotsBelow(shares, total, x) == total * WeightBelow(shares, x)
  {
    if |shares| > 0 {
      SlotsBelowIsProduct(shares[1..], total, x);
      SlotsIsProductExactly(total, shares[0].weight);
      AddHead(total, Less(shares[0].name, x), shares[0].weight, WeightBelow(shares[1..], x));
    }
  }

  lemma {:induction false} ExpandLength(shares: seq<Share>, total: nat)
    requires total >= 1 && forall s :: s in shares ==> s.weight >= 1 && ExactSlots(total, s.weight)
    ensures |Expand(shares, total)| == total * TotalWeight(shares)
  {
    if |shares| > 0 {
      ExpandLength(shares[1..], total);
      SlotsIsProductExactly(total, shares[0].weight);
      Distribute(total, shares[0].weight, TotalWeight(shares[1..]));
    }
  }

  lemma AddHead(total: nat, mine: bool, weight: nat, rest: nat)
    ensures (if mine then total * weight else 0) + total * rest == total * ((if mine then weight else 0) + rest)
  {
    Distribute(total, weight, rest);
  }

  lemma TotalPositive(shares: seq<Share>)
    requires Positive(shares)
    ensures TotalWeight(shares) >= 1
  {
    assert shares[0] in shares;
  }

  function PoolSize(shares: seq<Share>): nat { TotalWeight(shares) * TotalWeight(shares) }

  function SlotsOf(shares: seq<Share>, x: string): nat { TotalWeight(shares) * WeightOf(shares, x) }

  function OffsetOf(shares: seq<Share>, x: string): nat { TotalWeight(shares) * WeightBelow(shares, x) }

  /**
   * The pool has total * total slots; the copies of a name are exactly total * (its weight) and fill
   * one block that starts after total * (the weight of the names before it).
   */
  lemma PoolProportions(shares: seq<Share>, x: string)
    requires Positive(shares) && Exact(shares)
    ensures |Pool(shares)| == PoolSize(shares) && PoolSize(shares) >= 1
    ensures multiset(Pool(shares))[x] == SlotsOf(shares, x)
    ensures Below(Pool(shares), x) == OffsetOf(shares, x)
    ensures Sorted(Pool(shares))
  {
    var total := TotalWeight(shares);
    TotalPositive(shares);
    ExpandCount(shares, total, x);
    BelowIsSlotsBelow(shares, total, x);
    SlotsBelowIsProduct(shares, total, x);
    ExpandLength(shares, total);
    SortSorts(Expand(shares, total));
    BelowSort(Expand(shares, total), x);
  }

  lemma {:induction false} WeightOfDistinct(shares: seq<Share>, i: nat)
    requires i < |shares|
    requires DistinctShares(shares)
    ensures WeightOf(shares, shares[i].name) == shares[i].weight
  {
    var x := shares[i].name;
    if i == 0 {
      NoWeight(shares[1..], x);
    } else {
      WeightOfDistinct(shares[1..], i - 1);
    }
  }

  lemma {:induction false} NoWeight(shares: seq<Share>, x: string)
    requires forall j :: 0 <= j < |shares| ==> shares[j].name != x
    ensures WeightOf(shares, x) == 0
  {
    if |shares| > 0 {
      NoWeight(shares[1..], x);
    }
  }

  // ----- The exact proportions, and where they fail -----

  ghost predicate DistinctShares(shares: seq<Share>) {
    forall j, k :: 0 <= j < k < |shares| ==> shares[j].name != shares[k].name
  }

  /** The slots of an interface are total * weight exactly when the float expression is the product. */
  lemma PoolCountExactly(shares: seq<Share>, i: nat)
    requires Positive(shares) && DistinctShares(shares) && i < |shares|
    ensures multiset(Pool(shares))[shares[i].name] == Slots(TotalWeight(shares), shares[i].weight)
    ensures multiset(Pool(shares))[shares[i].name] == TotalWeight(shares) * shares[i].weight <==>
            ExactSlots(TotalWeight(shares), shares[i].weight)
  {
    var total, x := TotalWeight(shares), shares[i].name;
    var n, rest := Slots(total, shares[i].weight), shares[..i] + shares[i + 1..];
    TotalPositive(shares);
    SlotsIsProductExactly(total, shares[i].weight);
    RemoveShare(shares, i, total);
    CountRepeat(x, n, x);
    SortSorts(Expand(shares, total));
    NamesOfRest(shares, i);
    AbsentName(rest, total, x);
  }

  lemma NamesOfRest(shares: seq<Share>, i: nat)
    requires DistinctShares(shares) && i < |shares|
    ensures var rest := shares[..i] + shares[i + 1..];
            forall j :: 0 <= j < |rest| ==> rest[j].name != shares[i].name
  {
    var rest := shares[..i] + shares[i + 1..];
    forall j | 0 <= j < |rest| ensures rest[j].name != shares[i].name {
      if j < i {
        assert rest[j] == shares[j];
      } else {
        assert rest[j] == shares[j + 1];
      }
    }
  }

  lemma {:induction false} AbsentName(shares: seq<Share>, total: nat, x: string)
    requires forall j :: 0 <= j < |shares| ==> shares[j].name != x
    ensures x !in Expand(shares, total)
  {
    if |shares| > 0 {
      AbsentName(shares[1..], total, x);
    }
  }

  /** Two interfaces whose weights pass validation and whose pool is off by one slot. */
  lemma PoolOffByOne(a: Candidate, b: Candidate)
    requires a.Usable() && b.Usable() && a.name != b.name
    requires a.policy.weight == 0x400_0001 && b.policy.weight == 2
    ensures var shares := Shares(Usable([a, b]));
            && TotalWeight(shares) == 0x400_0003
            && multiset(Pool(shares))[a.name] == 0x400_0003 * 0x400_0001 + 1
  {
    BothUsable([a, b]);
    var shares := Shares([a, b]);
    assert shares[1..][1..] == [] && TotalWeight(shares[1..]) == shares[1].weight;
    assert TotalWeight(shares) == 0x400_0003;
    PoolCountExactly(shares, 0);
    Float.RoundExact(0x400_0003);
    Float.RoundExact(0x400_0003 * 0x400_0001);
    SlotsOfRounded(0x400_0003, 0x400_0001, 0x400_0003 * 0x400_0001);
  }

  /** With weights in 1..=100 the float product stays far below 2^52. */
  lemma SlotsStayExact(shares: seq<Share>)
    requires forall s :: s in shares ==> s.weight <= 100
    requires |shares| <= 0x1_0000_0000
    ensures Exact(shares)
  {
    TotalBounded(shares);
    forall s | s in shares ensures ExactSlots(TotalWeight(shares), s.weight) {
      MulMonotone(s.weight, 100, TotalWeight(shares));
    }
  }

  lemma {:induction false} TotalBounded(shares: seq<Share>)
    requires forall s :: s in shares ==> s.weight <= 100
    ensures TotalWeight(shares) <= 100 * |shares|
  {
    if |shares| > 0 {
      TotalBounded(shares[1..]);
      assert shares[0] in shares;
    }
  }

  // ----- The pool does not depend on the order of the list -----

  lemma {:induction false} ExpandConcat(a: seq<Share>, b: seq<Share>, total: nat)
    ensures TotalWeight(a + b) == TotalWeight(a) + TotalWeight(b)
    ensures Expand(a + b, total) == Expand(a, total) + Expand(b, total)
  {
    if |a| == 0 {
      assert a + b == b;
    } else {
      ExpandConcat(a[1..], b, total);
      assert (a + b)[1..] == a[1..] + b;
      var head := Repeat(a[0].name, Slots(total, a[0].weight));
      Associative(head, Expand(a[1..], total), Expand(b, total));
    }
  }

  lemma Associative(a: seq<string>, b: seq<string>, c: seq<string>)
    ensures a + (b + c) == (a + b) + c
  {
  }

  lemma ExpandFrom(shares: seq<Share>, i: nat, total: nat)
    requires i < |shares|
    ensures TotalWeight(shares[i..]) == shares[i].weight + TotalWeight(shares[i + 1..])
    ensures Expand(shares[i..], total) ==
            Repeat(shares[i].name, Slots(total, shares[i].weight)) + Expand(shares[i + 1..], total)
  {
    assert shares[i..][1..] == shares[i + 1..];
  }

  lemma RemoveShare(shares: seq<Share>, i: nat, total: nat)
    requires i < |shares|
    ensures var rest := shares[..i] + shares[i + 1..];
            && TotalWeight(shares) == shares[i].weight + TotalWeight(rest)
            && multiset(Expand(shares, total)) ==
               multiset(Repeat(shares[i].name, Slots(total, shares[i].weight))) + multiset(Expand(rest, total))
            && multiset(rest) == multiset(shares) - multiset{shares[i]}
  {
    assert shares == shares[..i] + shares[i..];
    assert shares[i..] == [shares[i]] + shares[i + 1..];
    ExpandConcat(shares[..i], shares[i..], total);
    ExpandConcat(shares[..i], shares[i + 1..], total);
    ExpandFrom(shares, i, total);
  }

  lemma {:induction false} SameSharesSameExpand(a: seq<Share>, b: seq<Share>, total: nat)
    requires multiset(a) == multiset(b)
    ensures TotalWeight(a) == TotalWeight(b)
    ensures multiset(Expand(a, total)) == multiset(Expand(b, total))
    decreases |a|
  {
    if |a| == 0 {
      assert |b| == |multiset(b)| == 0;
    } else {
      var i := MatchFirst(a, b);
      RemoveShare(b, i, total);
      SameSharesSameExpand(a[1..], b[..i] + b[i + 1..], total);
    }
  }

  lemma PoolIgnoresOrder(a: seq<Share>, b: seq<Share>)
    requires multiset(a) == multiset(b)
    ensures Pool(a) == Pool(b)
  {
    SameSharesSameExpand(a, b, TotalWeight(a));
    SortSorts(Expand(a, TotalWeight(a)));
    SortSorts(Expand(b, TotalWeight(a)));
    SortedUnique(Pool(a), Pool(b));
  }

  /** A candidate has the pool share of its own weight; weight 0 counts as 1. */
  lemma ShareOfCandidate(list: seq<Candidate>, i: nat)
    requires i < |list|
    ensures Shares(list)[i].name == list[i].name
    ensures list[i].policy.weight >= 1 ==> Shares(list)[i].weight == list[i].policy.weight
    ensures list[i].policy.weight == 0 ==> Shares(list)[i].weight == 1
  {}

  /** What the usable candidates offer, as a multiset of names and weights. */
  function Offer(candidates: seq<Candidate>): multiset<Share> {
    multiset(Shares(Usable(candidates)))
  }

  lemma {:induction false} UsableAppend(a: seq<Candidate>, b: seq<Candidate>)
    ensures Usable(a + b) == Usable(a) + Usable(b)
  {
    if |a| == 0 {
      assert a + b == b;
    } else {
      UsableAppend(a[1..], b);
      assert (a + b)[1..] == a[1..] + b && (a + b)[0] == a[0];
      HeadOfBoth(a[0], Usable(a[1..]), Usable(b));
    }
  }

  lemma HeadOfBoth(c: Candidate, a: seq<Candidate>, b: seq<Candidate>)
    ensures [c] + (a + b) == [c] + a + b
  {}

  lemma OfferAppend(a: seq<Candidate>, b: seq<Candidate>)
    ensures Offer(a + b) == Offer(a) + Offer(b)
  {
    UsableAppend(a, b);
    assert Shares(Usable(a + b)) == Shares(Usable(a)) + Shares(Usable(b));
  }

  lemma OfferWithout(b: seq<Candidate>, i: nat)
    requires i < |b|
    ensures Offer(b) == Offer([b[i]]) + Offer(b[..i] + b[i + 1..])
  {
    var own, before, after := [b[i]], b[..i], b[i + 1..];
    assert b == before + (own + after);
    OfferAppend(before, own + after);
    OfferAppend(own, after);
    OfferAppend(before, after);
  }

  lemma {:induction false} OfferIgnoresOrder(a: seq<Candidate>, b: seq<Candidate>)
    requires multiset(a) == multiset(b)
    ensures Offer(a) == Offer(b)
    decreases |a|
  {
    assert |a| == |multiset(a)| == |multiset(b)| == |b|;
    if |a| > 0 {
      var i := MatchFirst(a, b);
      OfferIgnoresOrder(a[1..], b[..i] + b[i + 1..]);
      OfferWithout(a, 0);
      OfferWithout(b, i);
      assert a[..0] + a[1..] == a[1..];
    }
  }

  /** Round-robin and hash picks depend on the candidates only through what they offer. */
  lemma PickDependsOnOffer(cfg: Config, a: seq<Candidate>, b: seq<Candidate>, key: string, rr: U64)
    requires cfg.strategy.LoadBalance? && !cfg.algorithm.LeastLoaded?
    requires Offer(a) == Offer(b)
    ensures Select(cfg, a, key, rr) == Select(cfg, b, key, rr)
  {
    assert |Usable(a)| == |Offer(a)| == |Offer(b)| == |Usable(b)|;
    PoolIgnoresOrder(Shares(Usable(a)), Shares(Usable(b)));
  }

  /** In particular no permutation of the list changes them. */
  lemma PickIgnoresOrder(cfg: Config, a: seq<Candidate>, b: seq<Candidate>, key: string, rr: U64)
    requires cfg.strategy.LoadBalance? && !cfg.algorithm.LeastLoaded?
    requires multiset(a) == multiset(b)
    ensures Select(cfg, a, key, rr) == Select(cfg, b, key, rr)
  {
    OfferIgnoresOrder(a, b);
    PickDependsOnOffer(cfg, a, b, key, rr);
  }

  // ----- Selection is total -----

  lemma {:induction false} ExpandedFrom(shares: seq<Share>, total: nat, x: string) returns (i: nat)
    requires x in Expand(shares, total)
    ensures i < |shares| && shares[i].name == x
  {
    if x in Repeat(shares[0].name, Slots(total, shares[0].weight)) {
      i := 0;
    } else {
      i := ExpandedFrom(shares[1..], total, x);
      i := i + 1;
    }
  }

  lemma PoolNonEmpty(shares: seq<Share>)
    requires |shares| > 0
    ensures |Pool(shares)| > 0
  {
    SortSorts(Expand(shares, TotalWeight(shares)));
  }

  lemma PoolMember(list: seq<Candidate>, n: nat) returns (i: nat)
    requires |list| > 0
    ensures |Pool(Shares(list))| > 0
    ensures i < |list| && list[i].name == Pool(Shares(list))[n % |Pool(Shares(list))|]
  {
    var shares := Shares(list);
    PoolNonEmpty(shares);
    var x := Pool(shares)[n % |Pool(shares)|];
    SortSorts(Expand(shares, TotalWeight(shares)));
    assert x in multiset(Pool(shares));
    i := ExpandedFrom(shares, TotalWeight(shares), x);
  }

  /** Whatever the strategy, the pick is the name of one of the usable candidates. */
  lemma PickIsUsable(cfg: Config, candidates: seq<Candidate>, key: string, rr: U64) returns (i: nat)
    requires |Usable(candidates)| > 0
    ensures i < |Usable(candidates)|
    ensures Select(cfg, candidates, key, rr).0 == Some(Usable(candidates)[i].name)
  {
    var usable := Usable(candidates);
    match cfg.strategy {
      case Failover => i := SortedHeadIsBest(usable);
      case LoadBalance =>
        match cfg.algorithm {
          case RoundRobin => i := PoolMember(usable, rr);
          case Hash => i := PoolMember(usable, Fnv.Hash(KeyBytes(key)));
          case LeastLoaded => i := LeastIndex(usable);
        }
    }
  }

  /** A usable interface is chosen whenever one exists, and only then. */
  lemma SelectTotal(cfg: Config, candidates: seq<Candidate>, key: string, rr: U64)
    ensures var pick := Select(cfg, candidates, key, rr).0;
            && (pick.Some? <==> exists c :: c in candidates && c.policy.enabled && c.healthy)
            && (pick.Some? ==> exists c :: c in candidates && c.policy.enabled && c.healthy && c.name == pick.value)
  {
    var usable := Usable(candidates);
    if |usable| > 0 {
      var i := PickIsUsable(cfg, candidates, key, rr);
      assert usable[i] in usable;
    }
  }

  // ----- Failover -----

  /** `i` is usable and outranks every other usable candidate. */
  ghost predicate Chosen(candidates: seq<Candidate>, i: int) {
    && 0 <= i < |candidates| && candidates[i].Usable()
    && forall j :: 0 <= j < |candidates| && j != i && candidates[j].Usable() ==> Outranks(candidates, i, j)
  }

  /** Filtering keeps the order, so the best usable candidate is the chosen one. */
  lemma {:induction false} BestUsableIsChosen(candidates: seq<Candidate>, k: int) returns (i: int)
    requires LeftmostBest(Usable(candidates), k)
    ensures Chosen(candidates, i) && candidates[i] == Usable(candidates)[k]
  {
    var rest := candidates[1..];
    if !candidates[0].Usable() {
      i := BestUsableIsChosen(rest, k);
      i := i + 1;
      ChosenShift(candidates, i);
    } else if k > 0 {
      assert Usable(candidates)[1..] == Usable(rest);
      DropFirst(Usable(candidates), k);
      i := BestUsableIsChosen(rest, k - 1);
      i := i + 1;
      assert Outranks(Usable(candidates), k, 0);
      ChosenShift(candidates, i);
    } else {
      i := 0;
      FirstIsBest(candidates);
    }
  }

  lemma ChosenShift(candidates: seq<Candidate>, i: int)
    requires |candidates| > 0 && Chosen(candidates[1..], i - 1)
    requires candidates[0].Usable() ==> Outranks(candidates, i, 0)
    ensures Chosen(candidates, i)
  {
    var rest, m := candidates[1..], i - 1;
    forall j | 0 < j < |candidates| && j != i && candidates[j].Usable() ensures Outranks(candidates, i, j) {
      assert Outranks(rest, m, j - 1);
    }
  }

  lemma {:induction false} FirstIsBest(candidates: seq<Candidate>)
    requires |candidates| > 0 && candidates[0].Usable() && LeftmostBest(Usable(candidates), 0)
    ensures Chosen(candidates, 0)
  {
    var top := candidates[0].policy.priority;
    assert Usable(candidates)[0] == candidates[0];
    TopPriority(Usable(candidates));
    UsableBounded(candidates, top);
    forall j | 0 < j < |candidates| && candidates[j].Usable() ensures Outranks(candidates, 0, j) {
      assert candidates[j].policy.priority <= top;
    }
  }

  lemma TopPriority(list: seq<Candidate>)
    requires LeftmostBest(list, 0)
    ensures forall m :: 0 <= m < |list| ==> list[m].policy.priority <= list[0].policy.priority
  {
    forall m | 0 < m < |list| ensures list[m].policy.priority <= list[0].policy.priority {
      assert Outranks(list, 0, m);
    }
  }

  lemma {:induction false} UsableBounded(list: seq<Candidate>, top: U32)
    requires forall m :: 0 <= m < |Usable(list)| ==> Usable(list)[m].policy.priority <= top
    ensures forall j :: 0 <= j < |list| && list[j].Usable() ==> list[j].policy.priority <= top
  {
    if |list| > 0 {
      var u, rest := Usable(list), list[1..];
      if list[0].Usable() {
        assert u[0] == list[0] && u[1..] == Usable(rest);
        assert forall m :: 0 <= m < |u| - 1 ==> u[1..][m] == u[m + 1];
      }
      UsableBounded(rest, top);
      assert forall j :: 1 <= j < |list| ==> list[j] == rest[j - 1];
    }
  }

  lemma DropFirst(list: seq<Candidate>, k: int)
    requires LeftmostBest(list, k) && k > 0
    ensures LeftmostBest(list[1..], k - 1)
  {
    var rest, m := list[1..], k - 1;
    forall j | 0 <= j < |rest| && j != m ensures Outranks(rest, m, j) {
      assert Outranks(list, k, j + 1);
    }
  }

  /** Failover picks the leftmost usable candidate of maximal priority. */
  lemma FailoverPicksChosen(cfg: Config, candidates: seq<Candidate>, key: string, rr: U64) returns (i: int)
    requires cfg.strategy.Failover? && |Usable(candidates)| > 0
    ensures Chosen(candidates, i)
    ensures Select(cfg, candidates, key, rr) == (Some(candidates[i].name), rr)
  {
    var k := SortedHeadIsBest(Usable(candidates));
    i := BestUsableIsChosen(candidates, k);
  }

  /** The same interfaces with the same priorities, in the same order; health may differ. */
  ghost predicate SameRanking(a: seq<Candidate>, b: seq<Candidate>) {
    && |a| == |b|
    && forall i :: 0 <= i < |a| ==> a[i].name == b[i].name && a[i].policy.priority == b[i].policy.priority
  }

  ghost predicate DistinctNames(candidates: seq<Candidate>) {
    forall i, j :: 0 <= i < j < |candidates| ==> candidates[i].name != candidates[j].name
  }

  lemma ChosenUnique(candidates: seq<Candidate>, i: int, j: int)
    requires Chosen(candidates, i) && Chosen(candidates, j)
    ensures i == j
  {
    assert i != j ==> Outranks(candidates, i, j);
  }

  /** Failover picks a name exactly when its candidate is the chosen one. */
  lemma PicksExactlyChosen(cfg: Config, candidates: seq<Candidate>, key: string, rr: U64, i: nat)
    requires cfg.strategy.Failover? && DistinctNames(candidates) && i < |candidates|
    ensures Select(cfg, candidates, key, rr).0 == Some(candidates[i].name) <==> Chosen(candidates, i)
  {
    if Chosen(candidates, i) {
      assert candidates[i] in Usable(candidates);
    }
    if |Usable(candidates)| > 0 {
      var j := FailoverPicksChosen(cfg, candidates, key, rr);
      if Chosen(candidates, i) {
        ChosenUnique(candidates, i, j);
      }
    }
  }

  /** No interface that ranks above `i` is usable. */
  ghost predicate NoneAbove(candidates: seq<Candidate>, i: nat)
    requires i < |candidates|
  {
    forall j :: 0 <= j < |candidates| && j != i && Outranks(candidates, j, i) ==> !candidates[j].Usable()
  }

  lemma ChosenExactly(candidates: seq<Candidate>, i: nat)
    requires i < |candidates|
    ensures Chosen(candidates, i) <==> candidates[i].Usable() && NoneAbove(candidates, i)
  {
    assert forall j :: 0 <= j < |candidates| && j != i ==>
                         Outranks(candidates, i, j) == !Outranks(candidates, j, i);
  }

  /**
   * The pick changes with the health of the interfaces exactly when the picked one becomes unusable or
   * a better-ranked one becomes usable. Keys and counters play no part.
   */
  lemma FailoverSwitchesMinimally(
      cfg: Config, before: seq<Candidate>, after: seq<Candidate>, i: nat, key: string, rr: U64, key': string, rr': U64)
    requires cfg.strategy.Failover? && SameRanking(before, after) && DistinctNames(before)
    requires i < |before| && Select(cfg, before, key, rr).0 == Some(before[i].name)
    ensures Select(cfg, after, key', rr').0 == Select(cfg, before, key, rr).0 <==>
              && after[i].Usable()
              && forall j :: 0 <= j < |after| && j != i && Outranks(after, j, i) && !before[j].Usable() ==>
                               !after[j].Usable()
  {
    PicksExactlyChosen(cfg, before, key, rr, i);
    PicksExactlyChosen(cfg, after, key', rr', i);
    ChosenExactly(before, i);
    ChosenExactly(after, i);
    assert forall j :: 0 <= j < |before| ==> Outranks(before, j, i) == Outranks(after, j, i);
  }

  /**
   * The picked interface goes down and comes back: the pick in between is another one or none, and the
   * earlier pick returns exactly when no better-ranked interface has become usable in the meantime.
   */
  lemma FailoverRecovers(
      cfg: Config, before: seq<Candidate>, down: seq<Candidate>, up: seq<Candidate>, i: nat, key: string, rr: U64)
    requires cfg.strategy.Failover? && DistinctNames(before)
    requires SameRanking(before, down) && SameRanking(before, up)
    requires i < |before| && Select(cfg, before, key, rr).0 == Some(before[i].name)
    requires !down[i].Usable() && up[i].Usable()
    ensures Select(cfg, down, key, rr).0 != Select(cfg, before, key, rr).0
    ensures Select(cfg, down, key, rr).0.Some? <==> exists c :: c in down && c.Usable()
    ensures Select(cfg, up, key, rr).0 == Select(cfg, before, key, rr).0 <==>
              forall j :: 0 <= j < |up| && j != i && Outranks(up, j, i) && !before[j].Usable() ==> !up[j].Usable()
  {
    FailoverSwitchesMinimally(cfg, before, down, i, key, rr, key, rr);
    FailoverSwitchesMinimally(cfg, before, up, i, key, rr, key, rr);
    SelectTotal(cfg, down, key, rr);
  }

  // ----- Least load -----

  /** `c` carries no more than `d`, and when `strictly` less. */
  predicate Lighter(c: Candidate, d: Candidate, strictly: bool) {
    if strictly then c.txBps + c.rxBps < d.txBps + d.rxBps else c.txBps + c.rxBps <= d.txBps + d.rxBps
  }

  /** Candidate `i` is usable, none that is usable carries less, and none listed before it as little. */
  ghost predicate CarriesLeast(candidates: seq<Candidate>, i: int) {
    && 0 <= i < |candidates| && candidates[i].policy.enabled && candidates[i].healthy
    && forall j :: 0 <= j < |candidates| && candidates[j].policy.enabled && candidates[j].healthy ==>
                     Lighter(candidates[i], candidates[j], j < i)
  }

  lemma CarriesLeastShift(candidates: seq<Candidate>, i: int)
    requires |candidates| > 0 && CarriesLeast(candidates[1..], i - 1)
    requires candidates[0].Usable() ==> candidates[i].Load() < candidates[0].Load()
    ensures CarriesLeast(candidates, i)
  {
    var rest := candidates[1..];
    assert forall j :: 1 <= j < |candidates| ==> candidates[j] == rest[j - 1];
  }

  lemma FirstCarriesLeast(candidates: seq<Candidate>, usable: seq<Candidate>)
    requires |candidates| > 0 && candidates[0].Usable() && LeastLoadedAt(usable, 0) && usable[0] == candidates[0]
    requires forall c :: c in candidates && c.Usable() ==> c in usable
    ensures CarriesLeast(candidates, 0)
  {
    forall j | 0 <= j < |candidates| && candidates[j].policy.enabled && candidates[j].healthy
      ensures Lighter(candidates[0], candidates[j], j < 0)
    {
      LighterThanUsable(usable, candidates[0], candidates[j]);
    }
  }

  lemma LighterThanUsable(list: seq<Candidate>, least: Candidate, c: Candidate)
    requires LeastLoadedAt(list, 0) && list[0] == least && c in list
    ensures Lighter(least, c, false)
  {
    var k :| 0 <= k < |list| && list[k] == c;
  }

  lemma LeastLoadedRest(list: seq<Candidate>, k: int)
    requires LeastLoadedAt(list, k) && k > 0
    ensures LeastLoadedAt(list[1..], k - 1) && list[k].Load() < list[0].Load()
  {}

  /** Filtering keeps the order, so the first usable candidate of least load is that one. */
  lemma {:induction false} LeastUsableCarriesLeast(candidates: seq<Candidate>, k: int) returns (i: int)
    requires LeastLoadedAt(Usable(candidates), k)
    ensures CarriesLeast(candidates, i) && candidates[i] == Usable(candidates)[k]
  {
    var rest := candidates[1..];
    if !candidates[0].Usable() {
      i := LeastUsableCarriesLeast(rest, k);
      i := i + 1;
      CarriesLeastShift(candidates, i);
    } else if k > 0 {
      assert Usable(candidates)[1..] == Usable(rest);
      LeastLoadedRest(Usable(candidates), k);
      i := LeastUsableCarriesLeast(rest, k - 1);
      i := i + 1;
      CarriesLeastShift(candidates, i);
    } else {
      i := 0;
      FirstCarriesLeast(candidates, Usable(candidates));
    }
  }

  /** Least load picks the first usable candidate with the smallest sum of transmitted and received bytes. */
  lemma LeastLoadedPicks(cfg: Config, candidates: seq<Candidate>, key: string, rr: U64) returns (i: int)
    requires cfg.strategy.LoadBalance? && cfg.algorithm.LeastLoaded? && |Usable(candidates)| > 0
    ensures CarriesLeast(candidates, i)
    ensures Select(cfg, candidates, key, rr) == (Some(candidates[i].name), rr)
  {
    i := LeastUsableCarriesLeast(candidates, LeastIndex(Usable(candidates)));
  }

  /** `i` is a candidate of least load, maybe one of several. */
  ghost predicate LeastLoad(list: seq<Candidate>, i: int) {
    0 <= i < |list| && forall j :: 0 <= j < |list| ==> list[i].Load() <= list[j].Load()
  }

  ghost predicate LeastLoadName(list: seq<Candidate>, x: string) {
    exists i :: LeastLoad(list, i) && list[i].name == x
  }

  /** The tie-break of the comment: the first name in the pool that belongs to a candidate of least load. */
  ghost function FirstInPoolOrder(pool: seq<string>, list: seq<Candidate>): Option<string> {
    if |pool| == 0 then None
    else if LeastLoadName(list, pool[0]) then Some(pool[0])
    else FirstInPoolOrder(pool[1..], list)
  }

  /** In a sorted pool that is the smallest such name. */
  lemma {:induction false} FirstIsSmallest(pool: seq<string>, list: seq<Candidate>, x: string)
    requires Sorted(pool) && x in pool && LeastLoadName(list, x)
    ensures var first := FirstInPoolOrder(pool, list);
            first.Some? && LeastLoadName(list, first.value) && Leq(first.value, x)
  {
    if LeastLoadName(list, pool[0]) {
      LeqTotal(x, x);
    } else {
      FirstIsSmallest(pool[1..], list, x);
    }
  }

  lemma {:induction false} ExpandHolds(shares: seq<Share>, total: nat, i: nat)
    requires i < |shares|
    ensures shares[i].name in Expand(shares, total)
  {
    if i == 0 {
      assert Repeat(shares[0].name, Slots(total, shares[0].weight))[0] == shares[0].name;
    } else {
      ExpandHolds(shares[1..], total, i - 1);
    }
  }

  lemma PoolHolds(list: seq<Candidate>, i: nat)
    requires i < |list|
    ensures list[i].name in Pool(Shares(list)) && Sorted(Pool(Shares(list)))
  {
    var shares := Shares(list);
    ExpandHolds(shares, TotalWeight(shares), i);
    SortSorts(Expand(shares, TotalWeight(shares)));
    assert list[i].name in multiset(Pool(shares));
  }

  /** A candidate of least load comes first in pool order exactly when none of them has a smaller name. */
  lemma FirstExactlySmallest(list: seq<Candidate>, i: int)
    requires LeastLoad(list, i)
    ensures FirstInPoolOrder(Pool(Shares(list)), list) == Some(list[i].name) <==>
            forall j :: LeastLoad(list, j) ==> Leq(list[i].name, list[j].name)
  {
    var pool, pick := Pool(Shares(list)), list[i].name;
    PoolHolds(list, i);
    FirstIsSmallest(pool, list, pick);
    var first := FirstInPoolOrder(pool, list).value;
    if first == pick {
      forall j | LeastLoad(list, j) ensures Leq(pick, list[j].name) {
        PoolHolds(list, j);
        FirstIsSmallest(pool, list, list[j].name);
      }
    } else if Leq(pick, first) {
      LeqAntisymmetric(pick, first);
    }
  }

  /**
   * Ties go to list order. That is the weighted pool order of the comment exactly when, among the
   * candidates of least load, the leftmost one also has the smallest name.
   */
  lemma LeastLoadedTieExactly(cfg: Config, candidates: seq<Candidate>, key: string, rr: U64)
    requires cfg.strategy.LoadBalance? && cfg.algorithm.LeastLoaded?
    requires |Usable(candidates)| > 0
    ensures var usable := Usable(candidates);
            Select(cfg, candidates, key, rr).0 == FirstInPoolOrder(Pool(Shares(usable)), usable) <==>
            forall j :: LeastLoad(usable, j) ==> Leq(usable[LeastIndex(usable)].name, usable[j].name)
  {
    var usable := Usable(candidates);
    FirstExactlySmallest(usable, LeastIndex(usable));
  }

  /** So two candidates with equal loads, listed against their names, get the pick the comment denies. */
  lemma LeastLoadedTie(cfg: Config, a: Candidate, b: Candidate, key: string, rr: U64)
    requires cfg.strategy.LoadBalance? && cfg.algorithm.LeastLoaded?
    requires a.Usable() && b.Usable() && a.Load() == b.Load() && Less(b.name, a.name)
    ensures Select(cfg, [a, b], key, rr).0 == Some(a.name)
    ensures FirstInPoolOrder(Pool(Shares(Usable([a, b]))), Usable([a, b])) == Some(b.name)
    ensures |Pool(Shares(Usable([a, b])))| > 0 && Pool(Shares(Usable([a, b])))[0] == b.name
  {
    BothUsable([a, b]);
    LeftOfTwo([a, b]);
    LeqTotal(b.name, b.name);
    FirstExactlySmallest([a, b], 1);
    AllLeastLoaded([a, b]);
  }

  lemma LeftOfTwo(list: seq<Candidate>)
    requires |list| == 2 && list[0].Load() == list[1].Load()
    ensures LeastIndex(list) == 0
    ensures forall j :: LeastLoad(list, j) <==> j == 0 || j == 1
  {
    assert LeastLoadedAt(list, LeastIndex(list));
  }

  /** When all loads are equal, the pool order starts with the head of the pool. */
  lemma AllLeastLoaded(list: seq<Candidate>)
    requires |list| > 0 && forall j :: 0 <= j < |list| ==> LeastLoad(list, j)
    ensures |Pool(Shares(list))| > 0
    ensures FirstInPoolOrder(Pool(Shares(list)), list) == Some(Pool(Shares(list))[0])
  {
    var k := PoolMember(list, 0);
    ZeroMod(|Pool(Shares(list))|);
    HeadIsFirst(Pool(Shares(list)), list, k);
  }

  lemma HeadIsFirst(pool: seq<string>, list: seq<Candidate>, k: int)
    requires |pool| > 0 && LeastLoad(list, k) && list[k].name == pool[0]
    ensures FirstInPoolOrder(pool, list) == Some(pool[0])
  {
    assert LeastLoadName(list, pool[0]);
  }

  lemma BothUsable(list: seq<Candidate>)
    requires |list| == 2 && list[0].Usable() && list[1].Usable()
    ensures Usable(list) == list
  {
    assert Usable(list[1..][1..]) == [];
    assert Usable(list[1..]) == [list[1]];
  }

  // ----- Weighted round-robin over runs -----

  /** One request to the scheduler: the candidates at that moment and the flow's key. */
  datatype Ask = Ask(candidates: seq<Candidate>, key: string)

  function Run(cfg: Config, asks: seq<Ask>, rr: U64): (seq<Option<string>>, U64) {
    if |asks| == 0 then ([], rr)
    else
      var (picks, mid) := Run(cfg, asks[..|asks| - 1], rr);
      var last := asks[|asks| - 1];
      var (pick, after) := Select(cfg, last.candidates, last.key, mid);
      (picks + [pick], after)
  }

  function CountPicks(picks: seq<Option<string>>, x: string): nat {
    if |picks| == 0 then 0
    else CountPicks(picks[..|picks| - 1], x) + if picks[|picks| - 1] == Some(x) then 1 else 0
  }

  /** How much of a block of `n` slots at `offset` lies before slot `r`. */
  function Before(r: nat, offset: nat, n: nat): nat {
    if r <= offset then 0 else if r >= offset + n then n else r - offset
  }

  /** How often that block is hit by the counter values below `t`, in a pool of `size`. */
  function Tally(t: nat, size: nat, offset: nat, n: nat): nat
    requires size > 0
  {
    t / size * n + Before(t % size, offset, n)
  }

  lemma TallyAt(t: nat, size: nat, offset: nat, n: nat, q: nat, r: nat)
    requires 0 <= r < size && t == q * size + r
    ensures Tally(t, size, offset, n) == q * n + Before(r, offset, n) && t % size == r
  {
    DivModUnique(t, size, q, r);
  }

  lemma TallyStep(t: nat, size: nat, offset: nat, n: nat)
    requires size > 0 && offset + n <= size
    ensures Tally(t + 1, size, offset, n) ==
            Tally(t, size, offset, n) + if InBlock(t, size, offset, n) then 1 else 0
  {
    var q, r := t / size, t % size;
    OneMore(q, size);
    OneMore(q, n);
    if r + 1 < size {
      TallyAt(t + 1, size, offset, n, q, r + 1);
    } else {
      TallyAt(t + 1, size, offset, n, q + 1, 0);
    }
  }

  lemma TallyOfOneRound(t: nat, size: nat, offset: nat, n: nat)
    requires size > 0
    ensures Tally(t + size, size, offset, n) == Tally(t, size, offset, n) + n
  {
    var q, r := t / size, t % size;
    OneMore(q, size);
    OneMore(q, n);
    TallyAt(t + size, size, offset, n, q + 1, r);
  }

  ghost predicate RoundRobinOver(cfg: Config, asks: seq<Ask>, shares: seq<Share>) {
    && cfg.strategy.LoadBalance? && cfg.algorithm.RoundRobin?
    && Positive(shares) && Exact(shares)
    && forall a :: a in asks ==> Offer(a.candidates) == multiset(shares)
  }

  lemma RoundRobinPick(cfg: Config, a: Ask, shares: seq<Share>, rr: U64, x: string)
    requires cfg.strategy.LoadBalance? && cfg.algorithm.RoundRobin?
    requires Positive(shares) && Exact(shares) && Offer(a.candidates) == multiset(shares)
    ensures |Pool(shares)| > 0
    ensures Select(cfg, a.candidates, a.key, rr).1 == WrappingInc(rr)
    ensures Select(cfg, a.candidates, a.key, rr).0 == Some(x) <==>
              Below(Pool(shares), x) <= rr % |Pool(shares)| < Below(Pool(shares), x) + multiset(Pool(shares))[x]
  {
    var usable := Usable(a.candidates);
    assert |usable| == |Offer(a.candidates)| == |shares|;
    PoolIgnoresOrder(Shares(usable), shares);
    PoolProportions(shares, x);
    SortedBlock(Pool(shares), x, rr % |Pool(shares)|);
  }

  /** The last pick of a run, and what it adds to the count of `x`. */
  lemma RunSnoc(cfg: Config, asks: seq<Ask>, rr: U64, x: string)
    requires |asks| > 0
    ensures var init, last := Run(cfg, asks[..|asks| - 1], rr), asks[|asks| - 1];
            var pick := Select(cfg, last.candidates, last.key, init.1).0;
            CountPicks(Run(cfg, asks, rr).0, x) == CountPicks(init.0, x) + if pick == Some(x) then 1 else 0
  {
    var (picks, mid) := Run(cfg, asks[..|asks| - 1], rr);
    var last := asks[|asks| - 1];
    var pick := Select(cfg, last.candidates, last.key, mid).0;
    assert (picks + [pick])[..|picks|] == picks;
  }

  /** The counter after any number of picks without a wrap in between. */
  lemma {:induction false} RunCounter(cfg: Config, asks: seq<Ask>, shares: seq<Share>, rr: U64)
    requires RoundRobinOver(cfg, asks, shares)
    requires rr + |asks| <= 0x1_0000_0000_0000_0000
    ensures Run(cfg, asks, rr).1 == (if rr + |asks| == 0x1_0000_0000_0000_0000 then 0 else rr + |asks|)
    ensures |Run(cfg, asks, rr).0| == |asks|
  {
    if |asks| > 0 {
      var init, last := asks[..|asks| - 1], asks[|asks| - 1];
      RunCounter(cfg, init, shares, rr);
      RoundRobinPick(cfg, last, shares, Run(cfg, init, rr).1, "");
    }
  }

  /** Counter value `t` falls into a block of `n` slots at `offset`, in a pool of `size`. */
  predicate InBlock(t: nat, size: nat, offset: nat, n: nat)
    requires size > 0
  {
    offset <= t % size < offset + n
  }

  /** The last pick of a run, at counter value `t`, hits the block of `x` or not. */
  lemma CountStep(
      cfg: Config, asks: seq<Ask>, shares: seq<Share>, rr: U64, t: U64, x: string, size: nat, offset: nat, n: nat)
    requires RoundRobinOver(cfg, asks, shares) && |asks| > 0 && t == rr + |asks| - 1
    requires 0 < size == |Pool(shares)| && offset == Below(Pool(shares), x) && n == multiset(Pool(shares))[x]
    ensures CountPicks(Run(cfg, asks, rr).0, x) ==
            CountPicks(Run(cfg, asks[..|asks| - 1], rr).0, x) + if InBlock(t, size, offset, n) then 1 else 0
  {
    var init, last := asks[..|asks| - 1], asks[|asks| - 1];
    RunCounter(cfg, init, shares, rr);
    RunSnoc(cfg, asks, rr, x);
    assert Run(cfg, init, rr).1 == t;
    RoundRobinPick(cfg, last, shares, t, x);
  }

  /** How many of the `m` counter values from `t` on hit a block of `n` slots at `offset`. */
  function Hits(t: nat, m: nat, size: nat, offset: nat, n: nat): nat
    requires size > 0
  {
    if m == 0 then 0
    else Hits(t, m - 1, size, offset, n) + if InBlock(t + m - 1, size, offset, n) then 1 else 0
  }

  lemma {:induction false} HitsAreTally(t: nat, m: nat, size: nat, offset: nat, n: nat)
    requires size > 0 && offset + n <= size
    ensures Hits(t, m, size, offset, n) == Tally(t + m, size, offset, n) - Tally(t, size, offset, n)
  {
    if m > 0 {
      HitsAreTally(t, m - 1, size, offset, n);
      TallyStep(t + m - 1, size, offset, n);
    }
  }

  lemma HitsStep(t: nat, m: nat, size: nat, offset: nat, n: nat, last: nat, before: nat, after: nat)
    requires size > 0 && m > 0 && last == t + m - 1
    requires before == Hits(t, m - 1, size, offset, n)
    requires after == before + if InBlock(last, size, offset, n) then 1 else 0
    ensures after == Hits(t, m, size, offset, n)
  {}

  /** The picks of a name are the hits of the block that the name fills in the pool. */
  lemma {:induction false} PicksAreHits(
      cfg: Config, asks: seq<Ask>, shares: seq<Share>, rr: U64, x: string, m: nat, size: nat, offset: nat, n: nat)
    requires RoundRobinOver(cfg, asks, shares)
    requires m == |asks| && rr + m <= 0x1_0000_0000_0000_0000
    requires 0 < size == |Pool(shares)| && offset == Below(Pool(shares), x) && n == multiset(Pool(shares))[x]
    ensures CountPicks(Run(cfg, asks, rr).0, x) == Hits(rr, m, size, offset, n)
    decreases m
  {
    if m > 0 {
      var init, last := asks[..|asks| - 1], rr + m - 1;
      var before, after := CountPicks(Run(cfg, init, rr).0, x), CountPicks(Run(cfg, asks, rr).0, x);
      PicksAreHits(cfg, init, shares, rr, x, m - 1, size, offset, n);
      CountStep(cfg, asks, shares, rr, last, x, size, offset, n);
      HitsStep(rr, m, size, offset, n, last, before, after);
    }
  }

  lemma CountInBlock(
      cfg: Config, asks: seq<Ask>, shares: seq<Share>, rr: U64, x: string, size: nat, offset: nat, n: nat, end: nat)
    requires RoundRobinOver(cfg, asks, shares)
    requires end == rr + |asks| <= 0x1_0000_0000_0000_0000
    requires 0 < size == |Pool(shares)| && offset == Below(Pool(shares), x) && n == multiset(Pool(shares))[x]
    ensures CountPicks(Run(cfg, asks, rr).0, x) == Tally(end, size, offset, n) - Tally(rr, size, offset, n)
  {
    PicksAreHits(cfg, asks, shares, rr, x, |asks|, size, offset, n);
    HitsBetween(rr, |asks|, size, offset, n, end);
  }

  lemma HitsBetween(t: nat, m: nat, size: nat, offset: nat, n: nat, end: nat)
    requires size > 0 && offset + n <= size && end == t + m
    ensures Hits(t, m, size, offset, n) == Tally(end, size, offset, n) - Tally(t, size, offset, n)
  {
    HitsAreTally(t, m, size, offset, n);
  }

  /** After any number of picks without a counter wrap, the count of each name has this closed form. */
  lemma RoundRobinCount(cfg: Config, asks: seq<Ask>, shares: seq<Share>, rr: U64, x: string, end: nat)
    requires RoundRobinOver(cfg, asks, shares)
    requires end == rr + |asks| <= 0x1_0000_0000_0000_0000
    ensures PoolSize(shares) >= 1
    ensures CountPicks(Run(cfg, asks, rr).0, x) ==
            Tally(end, PoolSize(shares), OffsetOf(shares, x), SlotsOf(shares, x)) -
            Tally(rr, PoolSize(shares), OffsetOf(shares, x), SlotsOf(shares, x))
  {
    PoolProportions(shares, x);
    CountInBlock(cfg, asks, shares, rr, x, PoolSize(shares), OffsetOf(shares, x), SlotsOf(shares, x), end);
  }

  /** One full round gives each name all its slots, wherever the counter stands. */
  lemma RoundRobinRound(cfg: Config, asks: seq<Ask>, shares: seq<Share>, rr: U64, x: string, size: nat)
    requires RoundRobinOver(cfg, asks, shares)
    requires rr + |asks| <= 0x1_0000_0000_0000_0000
    requires |asks| == size == PoolSize(shares)
    ensures CountPicks(Run(cfg, asks, rr).0, x) == SlotsOf(shares, x)
  {
    PoolProportions(shares, x);
    RoundInBlock(cfg, asks, shares, rr, x, size, OffsetOf(shares, x), SlotsOf(shares, x));
  }

  lemma RoundInBlock(
      cfg: Config, asks: seq<Ask>, shares: seq<Share>, rr: U64, x: string, size: nat, offset: nat, n: nat)
    requires RoundRobinOver(cfg, asks, shares)
    requires rr + |asks| <= 0x1_0000_0000_0000_0000 && |asks| == size
    requires 0 < size == |Pool(shares)| && offset == Below(Pool(shares), x) && n == multiset(Pool(shares))[x]
    ensures CountPicks(Run(cfg, asks, rr).0, x) == n
  {
    PicksAreHits(cfg, asks, shares, rr, x, size, size, offset, n);
    HitsOfRound(rr, size, offset, n);
  }

  /** A full round hits a block as often as it has slots. */
  lemma HitsOfRound(t: nat, size: nat, offset: nat, n: nat)
    requires size > 0 && offset + n <= size
    ensures Hits(t, size, size, offset, n) == n
  {
    HitsAreTally(t, size, size, offset, n);
    TallyOfOneRound(t, size, offset, n);
  }

  /** Any total * total consecutive picks choose each interface exactly total * weight times. */
  lemma RoundRobinFair(cfg: Config, asks: seq<Ask>, shares: seq<Share>, rr: U64, i: nat)
    requires RoundRobinOver(cfg, asks, shares)
    requires DistinctShares(shares)
    requires rr + |asks| <= 0x1_0000_0000_0000_0000
    requires |asks| == PoolSize(shares)
    requires i < |shares|
    ensures CountPicks(Run(cfg, asks, rr).0, shares[i].name) == TotalWeight(shares) * shares[i].weight
  {
    RoundRobinRound(cfg, asks, shares, rr, shares[i].name, |asks|);
    WeightOfDistinct(shares, i);
  }
}
