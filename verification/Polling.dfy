/** The order in which the discovery loop polls its relays, round after round. */
module Polling {
  import opened Modular
  import opened Order
  import opened Wrappers

  datatype Weighted = Weighted(url: string, compensated: real)

  function CmpWeights(a: Weighted, b: Weighted): int
  {
    if a.compensated < b.compensated then -1 else if a.compensated > b.compensated then 1 else Strcmp(a.url, b.url)
  }

  lemma CmpWeightsIsTotalOrder()
    ensures TotalPreorder(CmpWeights) && Antisymmetric(CmpWeights)
  {
    forall a: Weighted, b: Weighted
      ensures CmpWeights(a, b) <= 0 || CmpWeights(b, a) <= 0
      ensures CmpWeights(a, b) <= 0 && CmpWeights(b, a) <= 0 ==> a == b
    {
      StrcmpTotal(a.url, b.url);
    }
    forall a: Weighted, b: Weighted, c: Weighted | Chain(a, b, c, CmpWeights)
      ensures CmpWeights(a, c) <= 0
    {
      if Strcmp(a.url, b.url) <= 0 && Strcmp(b.url, c.url) <= 0 {
        StrcmpTransitive(a.url, b.url, c.url);
      }
    }
  }

  function Weigh(weight: string -> real): string -> Weighted { u => Weighted(u, weight(u)) }

  /** `ranked` holds the relays in order of their compensated load, then of their URL. */
  ghost predicate ByWeight(urls: seq<string>, weight: string -> real, ranked: seq<Weighted>)
  {
    |ranked| == |urls| && multiset(ranked) == multiset(Map(urls, Weigh(weight))) && Sorted(ranked, CmpWeights)
  }

  lemma ByWeightIsUnique(urls: seq<string>, weight: string -> real, r: seq<Weighted>, s: seq<Weighted>)
    requires ByWeight(urls, weight, r) && ByWeight(urls, weight, s)
    ensures r == s
  {
    CmpWeightsIsTotalOrder();
    SortedIsUnique(r, s, CmpWeights);
  }

  /** The ranking lists the lighter relay first, and of two equally heavy ones the one with the smaller URL. */
  lemma LighterFirst(urls: seq<string>, weight: string -> real, ranked: seq<Weighted>)
    requires ByWeight(urls, weight, ranked)
    ensures forall i :: 0 <= i < |ranked| ==> ranked[i].compensated == weight(ranked[i].url)
    ensures forall i, j :: 0 <= i < j < |ranked| ==>
              || ranked[i].compensated < ranked[j].compensated
              || (ranked[i].compensated == ranked[j].compensated
                  && (ranked[i].url == ranked[j].url || Smaller(ranked[i].url, ranked[j].url)))
  {
    var all := Map(urls, Weigh(weight));
    forall i | 0 <= i < |ranked|
      ensures ranked[i].compensated == weight(ranked[i].url)
    {
      assert ranked[i] in multiset(ranked);
      assert ranked[i] in multiset(all);
    }
    forall i, j | 0 <= i < j < |ranked|
      ensures ranked[i].compensated < ranked[j].compensated || (ranked[i].compensated == ranked[j].compensated
              && (ranked[i].url == ranked[j].url || Smaller(ranked[i].url, ranked[j].url)))
    {
      assert CmpWeights(ranked[i], ranked[j]) <= 0;
      StrcmpTotal(ranked[i].url, ranked[j].url);
      StrcmpMeaning(ranked[i].url, ranked[j].url);
    }
  }

  /** Position `i` of the plan polls slot `a * i + b` of the ranking. */
  ghost predicate Permutes(plan: seq<string>, ranked: seq<Weighted>, a: int, b: int)
  {
    |plan| == |ranked| && forall i :: 0 <= i < |plan| ==>
      0 <= Affine(a, b, |plan|, i) < |ranked| && plan[i] == ranked[Affine(a, b, |plan|, i)].url
  }

  /** A plan for `round`: the ranked relays under an affine permutation that starts at slot `round`. */
  ghost predicate IsPlan(urls: seq<string>, weight: string -> real, round: nat, plan: seq<string>)
  {
    if |urls| <= 1 then plan == urls else
    exists ranked, a: int :: ByWeight(urls, weight, ranked) && Gcd(Abs(a), |urls|) == 1
      && Permutes(plan, ranked, a, round % |urls|)
  }

  /** Sorts the relays by URL, weighs them, and sorts them by weight. */
  method RankRelays(relays: seq<string>, weight: string -> real) returns (ranked: seq<Weighted>)
    ensures ByWeight(relays, weight, ranked)
  {
    StrcmpIsPreorder();
    var urls := Sort(relays, Strcmp);
    var weights: seq<Weighted> := [];
    for i := 0 to |urls|
      invariant weights == Map(urls[..i], Weigh(weight))
    {
      weights := weights + [Weighted(urls[i], weight(urls[i]))];
    }
    assert urls[..|urls|] == urls;
    CmpWeightsIsTotalOrder();
    ranked := Sort(weights, CmpWeights);
    MapIgnoresOrder(urls, relays, Weigh(weight));
    assert |ranked| == |multiset(ranked)| == |multiset(Map(relays, Weigh(weight)))| == |relays|;
  }

  /** What the cast to a 32-bit int makes of the round counter. */
  function ToInt(round: nat): (r: int)
    ensures round < 0x8000_0000 ==> r == round
  {
    var r: int := round % 0x1_0000_0000;
    if r < 0x8000_0000 then r else r - 0x1_0000_0000
  }

  /** The values of a 32-bit int. */
  predicate Fits(x: int) { -0x8000_0000 <= x < 0x8000_0000 }

  /** The slot arithmetic of position `i` does not overflow, and the slot exists. */
  predicate SlotOk(n: nat, a: int, b: int, i: int)
    requires n > 0
  {
    Fits(a * i) && Fits(a * i + b) && CRem(a * i + b, n) >= 0
  }

  /** All slots that the step `a` and the start `b` lead to can be computed and exist. */
  predicate SlotsExist(n: nat, a: int, b: int)
    requires n > 0
  {
    forall i :: 0 <= i < n ==> SlotOk(n, a, b, i)
  }

  /** The permutation loop; none stands for an overflow or an access outside the ranking. */
  method Permute(ranked: seq<Weighted>, a: int, b: int) returns (plan: Option<seq<string>>)
    requires ranked != []
    ensures plan.Some? <==> SlotsExist(|ranked|, a, b)
    ensures plan.Some? ==> Permutes(plan.value, ranked, a, b)
  {
    var n := |ranked|;
    var permuted: seq<string> := [];
    for i := 0 to n
      invariant |permuted| == i
      invariant forall j :: 0 <= j < i ==> SlotOk(n, a, b, j)
      invariant forall j :: 0 <= j < i ==>
        0 <= Affine(a, b, n, j) < n && permuted[j] == ranked[Affine(a, b, n, j)].url
    {
      if !SlotOk(n, a, b, i) {
        return None;
      }
      var slot := CRem(a * i + b, n);
      SlotIsAffine(a * i + b, n);
      permuted := permuted + [ranked[slot].url];
    }
    return Some(permuted);
  }

  /** A remainder of C that is not negative is the mathematical one. */
  lemma SlotIsAffine(x: int, n: nat)
    requires n > 0 && CRem(x, n) >= 0
    ensures CRem(x, n) == x % n && 0 <= x % n < n
  {
    DivMod(x, n);
    if x < 0 {
      DivMod(-x, n);
      assert Rem(-x, n) == 0;
      NegatedMultiple(-x / n, n);
      ModUnique(x, n, -(-x / n), 0);
    }
  }

  lemma NegatedMultiple(q: int, n: int)
    ensures -(q * n) == -q * n
  {
  }

  /** The number of relays fits an int, and the step and start of a round lead to slots that exist: the
      step is positive and does not overflow at the last position, or it goes back by one from the last slot. */
  predicate RoundOk(n: nat, round: nat)
    requires n >= 2
  {
    var a := StepFor(n, ToInt(round));
    && n < 0x8000_0000
    && ((a >= 1 && a * (n - 1) + round % n < 0x8000_0000) || (a == -1 && round % n == n - 1))
  }

  /** With up to 46340 relays the first 2^31 rounds are in order. */
  lemma EarlyRoundsOk(n: nat, round: nat)
    requires 2 <= n <= 46340 && round < 0x8000_0000
    ensures RoundOk(n, round)
  {
    var a := StepFor(n, ToInt(round));
    StepIsPositive(n, ToInt(round));
    DivMod(round, n);
    SlotArithmeticFits(n, a, n - 1, round % n);
  }

  /** The round after them, with four relays, steps back by one from slot 0 and leaves the list. */
  lemma LateRoundFails()
    ensures StepFor(4, ToInt(0x8000_0000)) == -1 && !RoundOk(4, 0x8000_0000)
  {
    assert ToInt(0x8000_0000) == -0x8000_0000;
    assert Rem(0x8000_0000, 3) == 2;
    assert CRem(-0x8000_0000, 3) == -2;
    OneIsCoprime(4);
    assert Gcd(Abs(-1), 4) == 1;
  }

  /** With 65537 relays some early round overflows: the step is 65536. */
  lemma ManyRelaysFail()
    ensures !RoundOk(65537, 65535)
  {
    var n, round := 65537, 65535;
    assert Rem(65535, 65536) == 65535;
    assert CRem(round, n - 1) + 1 == 65536;
    NeighbourIsCoprime(n);
    assert StepFor(n, round) == 65536;
  }

  lemma SlotsOfRound(n: nat, round: nat)
    requires 2 <= n < 0x8000_0000
    ensures SlotsExist(n, StepFor(n, ToInt(round)), round % n) <==> RoundOk(n, round)
  {
    var a, b := StepFor(n, ToInt(round)), round % n;
    DivMod(round, n);
    if a >= 1 {
      ForwardSlots(n, a, b);
    } else if a == -1 {
      BackwardSlots(n, b);
    } else {
      ZeroIsNotCoprime(n);
      SteepSlots(n, a, b);
    }
  }

  /** Stepping forward overflows nowhere exactly if it does not at the last position. */
  lemma ForwardSlots(n: nat, a: nat, b: nat)
    requires n > 0
    ensures SlotsExist(n, a, b) <==> a * (n - 1) + b < 0x8000_0000
  {
    if a * (n - 1) + b < 0x8000_0000 {
      forall i | 0 <= i < n
        ensures SlotOk(n, a, b, i)
      {
        MonotoneProduct(0, i, a);
        MonotoneProduct(i, a, n - 1);
      }
    } else {
      assert !SlotOk(n, a, b, n - 1);
    }
  }

  /** Stepping back by one stays in range only from the last slot. */
  lemma BackwardSlots(n: nat, b: nat)
    requires 2 <= n < 0x8000_0000 && b < n
    ensures SlotsExist(n, -1, b) <==> b == n - 1
  {
    if b == n - 1 {
      assert forall i :: 0 <= i < n ==> SlotOk(n, -1, b, i);
    } else {
      var i := b + 1;
      assert -1 * i + b == -1;
      SmallRem(n);
      assert !SlotOk(n, -1, b, i);
    }
  }

  lemma SmallRem(n: nat)
    requires n >= 2
    ensures CRem(-1, n) == -1
  {
    assert Rem(1, n) == 1;
  }

  /** Stepping back by more leaves the range at one of the last two positions. */
  lemma SteepSlots(n: nat, a: int, b: nat)
    requires 2 - n < a <= -2 && b < n && Gcd(Abs(a), n) == 1
    ensures !SlotsExist(n, a, b)
  {
    var i, j := n - 2, n - 1;
    Distribute(a, j, i);
    Steep(n, a, i);
    Steep(n, a, j);
    NotBothMultiples(n, a, a * i + b, a * j + b);
    assert !SlotOk(n, a, b, i) || !SlotOk(n, a, b, j);
  }

  lemma Steep(n: nat, a: int, i: int)
    requires n >= 5 && a <= -2 && i >= n - 2
    ensures a * i + n - 1 < 0
  {
    assert (a + 2) * i <= 0;
    assert a * i == (a + 2) * i - 2 * i;
  }

  lemma NotBothMultiples(n: nat, a: int, x: int, y: int)
    requires n >= 2 && Gcd(Abs(a), n) == 1 && y - x == a && x < 0 && y < 0
    ensures CRem(x, n) < 0 || CRem(y, n) < 0
  {
    if CRem(x, n) == 0 && CRem(y, n) == 0 {
      SlotIsAffine(x, n);
      SlotIsAffine(y, n);
      var k := Difference(y, x, n);
      var m := CoprimeCancels(a, n, 1, k);
      MultipleBounds(m, n);
    }
  }

  /** The scheduling part of `discovery_loop_thread`; loads enter as an arbitrary fixed weight. */
  method PlanRound(relays: seq<string>, weight: string -> real, round: nat) returns (plan: Option<seq<string>>)
    ensures plan.Some? <==> |relays| <= 1 || RoundOk(|relays|, round)
    ensures plan.Some? ==> IsPlan(relays, weight, round, plan.value)
  {
    if |relays| <= 1 {
      return Some(relays);
    }
    if |relays| >= 0x8000_0000 {
      return None;
    }
    var n := |relays|;
    var ranked := RankRelays(relays, weight);
    var a := PickCoprimeStep(n, ToInt(round));
    SlotsOfRound(n, round);
    plan := Permute(ranked, a, round % n);
  }

  lemma StrcmpIsPreorder()
    ensures TotalPreorder(Strcmp)
  {
    forall a: string, b: string
      ensures Strcmp(a, b) <= 0 || Strcmp(b, a) <= 0
    {
      StrcmpTotal(a, b);
    }
    forall a: string, b: string, c: string | Chain(a, b, c, Strcmp)
      ensures Strcmp(a, c) <= 0
    {
      StrcmpTransitive(a, b, c);
    }
  }

  /** Within one round every slot of the ranking has exactly one position in the plan. */
  lemma EverySlotOnce(n: nat, a: int, b: int, slot: nat) returns (i: nat)
    requires n > 0 && Gcd(Abs(a), n) == 1 && slot < n
    ensures i < n && Affine(a, b, n, i) == slot
    ensures forall j: nat :: j < n && Affine(a, b, n, j) == slot ==> j == i
  {
    i := AffineSurjective(a, b, n, slot);
    forall j: nat | j < n && Affine(a, b, n, j) == slot
      ensures j == i
    {
      AffineInjective(a, b, n, i, j);
    }
  }

  function SlotUrl(ranked: seq<Weighted>): int -> string
  {
    k => if 0 <= k < |ranked| then ranked[k].url else ""
  }

  function UrlOf(w: Weighted): string { w.url }

  /** The slots of a plan, in order, are a rearrangement of all slots. */
  lemma SlotsRearranged(n: nat, a: int, b: int, slots: seq<int>)
    requires n > 0 && Gcd(Abs(a), n) == 1
    requires |slots| == n && forall i :: 0 <= i < n ==> slots[i] == Affine(a, b, n, i)
    ensures multiset(slots) == multiset(seq(n, i => i))
  {
    var all: seq<int> := seq(n, i => i);
    forall k
      ensures k in slots <==> k in all
    {
      assert k in all <==> 0 <= k < n by { if 0 <= k < n { assert all[k] == k; } }
      if 0 <= k < n {
        var i := AffineSurjective(a, b, n, k);
        assert slots[i] == k;
      }
    }
    forall i, j | 0 <= i < j < n
      ensures slots[i] != slots[j]
    {
      if slots[i] == slots[j] { AffineInjective(a, b, n, i, j); }
    }
    EnumerationsAgree(slots, all);
  }

  /** Every plan polls exactly the given relays, each as often as it is listed. */
  lemma PlanIsPermutation(urls: seq<string>, weight: string -> real, round: nat, plan: seq<string>)
    requires IsPlan(urls, weight, round, plan)
    ensures multiset(plan) == multiset(urls)
  {
    if |urls| >= 2 {
      var n := |urls|;
      var ranked, a: int :| ByWeight(urls, weight, ranked) && Gcd(Abs(a), n) == 1
        && Permutes(plan, ranked, a, round % n);
      var slots: seq<int>, all: seq<int> := seq(n, i => Affine(a, round % n, n, i)), seq(n, i => i);
      SlotsRearranged(n, a, round % n, slots);
      MapIgnoresOrder(slots, all, SlotUrl(ranked));
      assert Map(slots, SlotUrl(ranked)) == plan;
      assert Map(all, SlotUrl(ranked)) == Map(ranked, UrlOf);
      MapIgnoresOrder(ranked, Map(urls, Weigh(weight)), UrlOf);
      assert Map(Map(urls, Weigh(weight)), UrlOf) == urls;
    }
  }

  /** Up to 46340 relays the slot arithmetic stays within a 32-bit int, whatever the sign of the step. */
  lemma SlotArithmeticFits(n: nat, a: int, i: nat, b: nat)
    requires n <= 46340 && Abs(a) < n && i < n && b < n
    ensures -0x8000_0000 <= a * i + b < 0x8000_0000
  {
    MonotoneProduct(Abs(a), i, 46339);
    MonotoneProduct(i, 46339, 46339);
    assert a * i == Abs(a) * i || a * i == -(Abs(a) * i);
  }

  lemma MonotoneProduct(a: nat, i: nat, m: nat)
    requires a <= m
    ensures a * i <= m * i
  {
    assert (m - a) * i >= 0;
  }

  /** The relays polled in a round: the first `maxRouting` of the plan, and at least one. */
  function Polled(plan: seq<string>, maxRouting: int): seq<string>
  {
    var limit := if maxRouting > 0 then maxRouting else 1;
    if limit < |plan| then plan[..limit] else plan
  }

  /** Each round polls the front of its plan: as many relays as the routing limit says, at least one, at most all. */
  lemma PolledMeaning(plan: seq<string>, maxRouting: int)
    ensures var limit := if maxRouting < 1 then 1 else maxRouting;
            Polled(plan, maxRouting) == plan[..if limit < |plan| then limit else |plan|]
  {
    assert plan[..|plan|] == plan;
  }

  lemma FirstIsPolled(plan: seq<string>, maxRouting: int)
    requires plan != []
    ensures plan[0] in Polled(plan, maxRouting)
  {
    assert Polled(plan, maxRouting)[0] == plan[0];
  }

  lemma FirstOfPlan(urls: seq<string>, weight: string -> real, round: nat, plan: seq<string>, ranked: seq<Weighted>)
    requires |urls| >= 2 && IsPlan(urls, weight, round, plan) && ByWeight(urls, weight, ranked)
    ensures plan != [] && 0 <= round % |urls| < |ranked| && plan[0] == ranked[round % |urls|].url
  {
    var n := |urls|;
    var other, a: int :| ByWeight(urls, weight, other) && Gcd(Abs(a), n) == 1 && Permutes(plan, other, a, round % n);
    ByWeightIsUnique(urls, weight, ranked, other);
    DivMod(round, n);
    ModUnique(round % n, n, 0, round % n);
    assert Affine(a, round % n, n, 0) == round % n;
  }

  /** Fairness: over any |urls| consecutive rounds with unchanged relays and loads, every relay is
      polled at least once, even if each round polls a single relay. */
  lemma EveryRelayPolled(urls: seq<string>, weight: string -> real, start: nat, plans: seq<seq<string>>,
                         maxRouting: int, u: string) returns (k: nat)
    requires |plans| == |urls| && u in urls
    requires forall i :: 0 <= i < |plans| ==> IsPlan(urls, weight, start + i, plans[i])
    ensures k < |plans| && u in Polled(plans[k], maxRouting)
  {
    if |urls| == 1 {
      k := 0;
      FirstIsPolled(plans[0], maxRouting);
    } else {
      var n := |urls|;
      assert IsPlan(urls, weight, start + 0, plans[0]);
      var ranked, a: int :| ByWeight(urls, weight, ranked) && Gcd(Abs(a), n) == 1
        && Permutes(plans[0], ranked, a, (start + 0) % n);
      var slot := SlotOf(urls, weight, ranked, u);
      k := EveryRemainder(start, n, slot);
      FirstOfPlan(urls, weight, start + k, plans[k], ranked);
      FirstIsPolled(plans[k], maxRouting);
    }
  }

  lemma SlotOf(urls: seq<string>, weight: string -> real, ranked: seq<Weighted>, u: string) returns (slot: nat)
    requires ByWeight(urls, weight, ranked) && u in urls
    ensures slot < |ranked| && ranked[slot].url == u
  {
    var i :| 0 <= i < |urls| && urls[i] == u;
    assert Map(urls, Weigh(weight))[i] in multiset(Map(urls, Weigh(weight)));
    assert Map(urls, Weigh(weight))[i] in multiset(ranked);
    slot :| 0 <= slot < |ranked| && ranked[slot] == Map(urls, Weigh(weight))[i];
  }
}
