/** The multi-hop ranking: pool statistics, Latin-square scores and the comparison of entries. */
module Ranking {
  import opened Mols
  import opened Order

  const CONGESTION_RTT_MS := 500.0
  const FALLBACK_RTT_MS := 2000.0

  /** A relay in the sorting pool, with the parts of its state that the comparison reads. */
  datatype PoolEntry = PoolEntry(url: string, confirmed: bool, rttMs: real, score: int, fallback: bool)

  // ---------- Comparison ----------

  function CmpMols(a: PoolEntry, b: PoolEntry): int
  {
    if !a.fallback && b.fallback then -1
    else if a.fallback && !b.fallback then 1
    else if a.score > b.score then -1
    else if a.score < b.score then 1
    else if a.confirmed && !b.confirmed then -1
    else if !a.confirmed && b.confirmed then 1
    else if a.rttMs < b.rttMs then -1
    else if a.rttMs > b.rttMs then 1
    else Strcmp(a.url, b.url)
  }

  function CmpRtt(a: PoolEntry, b: PoolEntry): int
  {
    if a.rttMs < b.rttMs then -1 else if a.rttMs > b.rttMs then 1 else 0
  }

  /** The ranking comparison is a strict total order: no two different entries compare equal. */
  lemma CmpMolsIsTotalOrder()
    ensures TotalPreorder(CmpMols) && Antisymmetric(CmpMols)
  {
    forall a: PoolEntry, b: PoolEntry
      ensures CmpMols(a, b) <= 0 || CmpMols(b, a) <= 0
      ensures CmpMols(a, b) <= 0 && CmpMols(b, a) <= 0 ==> a == b
    {
      StrcmpTotal(a.url, b.url);
    }
    forall a: PoolEntry, b: PoolEntry, c: PoolEntry | Chain(a, b, c, CmpMols)
      ensures CmpMols(a, c) <= 0
    {
      if Strcmp(a.url, b.url) <= 0 && Strcmp(b.url, c.url) <= 0 {
        StrcmpTransitive(a.url, b.url, c.url);
      }
    }
  }

  // ---------- Order-independent functions of a pool ----------

  function Total(s: seq<real>): real { if s == [] then 0.0 else s[0] + Total(s[1..]) }

  lemma {:induction false} TotalOfConcat(a: seq<real>, b: seq<real>)
    ensures Total(a + b) == Total(a) + Total(b)
  {
    if a == [] {
      assert a + b == b;
    } else {
      TotalOfConcat(a[1..], b);
      assert (a + b)[1..] == a[1..] + b;
    }
  }

  lemma {:induction false} TotalIgnoresOrder(a: seq<real>, b: seq<real>)
    requires multiset(a) == multiset(b)
    ensures Total(a) == Total(b)
  {
    if a == [] {
      assert |b| == |multiset(b)|;
    } else {
      var l, r := SplitAtHead(a, b);
      TotalIgnoresOrder(a[1..], l + r);
      TotalOfConcat(l + [a[0]], r);
      TotalOfConcat(l, [a[0]]);
      TotalOfConcat(l, r);
    }
  }

  // ---------- Statistics ----------

  function Rtt(e: PoolEntry): real { if e.rttMs > 0.0 then e.rttMs else 0.0 }

  function Counted(e: PoolEntry): real { if e.rttMs > 0.0 then 1.0 else 0.0 }

  function Deviation(mean: real): PoolEntry -> real
  {
    (e: PoolEntry) => if e.rttMs > 0.0 then (e.rttMs - mean) * (e.rttMs - mean) else 0.0
  }

  function Measured(pool: seq<PoolEntry>): real { Total(Map(pool, Counted)) }

  function MeanRtt(pool: seq<PoolEntry>): real
  {
    if Measured(pool) > 0.0 then Total(Map(pool, Rtt)) / Measured(pool) else 0.0
  }

  function Variance(pool: seq<PoolEntry>): real
  {
    if Measured(pool) > 0.0 then Total(Map(pool, Deviation(MeanRtt(pool)))) / Measured(pool) else 0.0
  }

  /** The coefficient of variation exceeds one half, written without the square root. */
  predicate Uneven(pool: seq<PoolEntry>)
  {
    MeanRtt(pool) > 0.0 && 4.0 * Variance(pool) > MeanRtt(pool) * MeanRtt(pool) && |pool| >= 2
  }

  lemma UnevenIgnoresOrder(a: seq<PoolEntry>, b: seq<PoolEntry>)
    requires multiset(a) == multiset(b)
    ensures Uneven(a) == Uneven(b)
  {
    SumIgnoresOrder(a, b, Counted);
    SumIgnoresOrder(a, b, Rtt);
    var mean := MeanRtt(a);
    assert MeanRtt(b) == mean;
    SumIgnoresOrder(a, b, Deviation(mean));
    assert Variance(a) == Variance(b);
    assert |a| == |multiset(a)| == |multiset(b)| == |b|;
  }

  lemma SumIgnoresOrder(a: seq<PoolEntry>, b: seq<PoolEntry>, f: PoolEntry -> real)
    requires multiset(a) == multiset(b)
    ensures Total(Map(a, f)) == Total(Map(b, f))
  {
    MapIgnoresOrder(a, b, f);
    TotalIgnoresOrder(Map(a, f), Map(b, f));
  }

  // ---------- Ranking ----------

  /** The entry with its score in the plain square of the row, congested or not. */
  function Scoring(row: Elem, bucket: string -> Elem, uneven: bool): PoolEntry -> PoolEntry
  {
    (e: PoolEntry) => e.(score := if uneven then Score(row, bucket(e.url), VARIANT_M1, VARIANT_M2)
                                  else Score(row, bucket(e.url), BASE_M1, BASE_M2),
                         fallback := e.rttMs > FALLBACK_RTT_MS)
  }

  ghost predicate Ranks(pool: seq<PoolEntry>, row: Elem, bucket: string -> Elem, ranked: seq<PoolEntry>)
  {
    && multiset(ranked) == multiset(Map(pool, Scoring(row, bucket, Uneven(pool))))
    && Sorted(ranked, CmpMols)
  }

  /** The ranking does not depend on the order in which the pool was collected. */
  lemma RankingIsCanonical(p: seq<PoolEntry>, q: seq<PoolEntry>, row: Elem, bucket: string -> Elem,
                           r: seq<PoolEntry>, s: seq<PoolEntry>)
    requires multiset(p) == multiset(q)
    requires Ranks(p, row, bucket, r) && Ranks(q, row, bucket, s)
    ensures r == s
  {
    UnevenIgnoresOrder(p, q);
    MapIgnoresOrder(p, q, Scoring(row, bucket, Uneven(p)));
    CmpMolsIsTotalOrder();
    SortedIsUnique(r, s, CmpMols);
  }

  method SumPool(pool: seq<PoolEntry>) returns (sum: real, measured: real)
    ensures sum == Total(Map(pool, Rtt)) && measured == Measured(pool)
  {
    sum, measured := 0.0, 0.0;
    for k := 0 to |pool|
      invariant sum == Total(Map(pool[..k], Rtt)) && measured == Total(Map(pool[..k], Counted))
    {
      Extend(pool, k, Rtt);
      Extend(pool, k, Counted);
      if pool[k].rttMs > 0.0 {
        sum, measured := sum + pool[k].rttMs, measured + 1.0;
      }
    }
    assert pool[..|pool|] == pool;
  }

  method SumSquares(pool: seq<PoolEntry>, mean: real) returns (squares: real)
    ensures squares == Total(Map(pool, Deviation(mean)))
  {
    squares := 0.0;
    for k := 0 to |pool|
      invariant squares == Total(Map(pool[..k], Deviation(mean)))
    {
      Extend(pool, k, Deviation(mean));
      if pool[k].rttMs > 0.0 {
        var diff := pool[k].rttMs - mean;
        squares := squares + diff * diff;
      }
    }
    assert pool[..|pool|] == pool;
  }

  method MeasurePool(pool: seq<PoolEntry>) returns (mean: real, uneven: bool)
    ensures mean == MeanRtt(pool) && uneven == Uneven(pool)
  {
    var sum, measured := SumPool(pool);
    mean := if measured > 0.0 then sum / measured else 0.0;
    var squares := SumSquares(pool, mean);
    var variance := if measured > 0.0 then squares / measured else 0.0;
    uneven := mean > 0.0 && 4.0 * variance > mean * mean && |pool| >= 2;
  }

  method ScoreEntry(e: PoolEntry, row: Elem, bucket: string -> Elem, congested: bool, uneven: bool)
    returns (scored: PoolEntry)
    ensures scored == Scoring(row, bucket, uneven)(e)
  {
    var j := bucket(e.url);
    var m1 := if uneven then VARIANT_M1 else BASE_M1;
    var m2 := if uneven then VARIANT_M2 else BASE_M2;
    CongestionCancels(row, j, m1, m2);
    var score := if congested then CongestionScore(row, j, m1, m2) else Score(row, j, m1, m2);
    scored := e.(score := score, fallback := e.rttMs > FALLBACK_RTT_MS);
  }

  /** `rank_relay_pool_mols`.  The ranking is that of the plain square even for a congested pool. */
  method RankPool(pool: seq<PoolEntry>, row: Elem, bucket: string -> Elem) returns (ranked: seq<PoolEntry>)
    ensures Ranks(pool, row, bucket, ranked)
  {
    var mean, uneven := MeasurePool(pool);
    var scored := ScorePool(pool, row, bucket, mean > CONGESTION_RTT_MS, uneven);
    CmpMolsIsTotalOrder();
    ranked := Sort(scored, CmpMols);
  }

  method ScorePool(pool: seq<PoolEntry>, row: Elem, bucket: string -> Elem, congested: bool, uneven: bool)
    returns (scored: seq<PoolEntry>)
    ensures scored == Map(pool, Scoring(row, bucket, uneven))
  {
    scored := [];
    ghost var f := Scoring(row, bucket, uneven);
    for k := 0 to |pool|
      invariant |scored| == k && forall i :: 0 <= i < k ==> scored[i] == f(pool[i])
    {
      var entry := ScoreEntry(pool[k], row, bucket, congested, uneven);
      scored := scored + [entry];
    }
  }

  lemma Extend(pool: seq<PoolEntry>, k: nat, f: PoolEntry -> real)
    requires k < |pool|
    ensures Total(Map(pool[..k + 1], f)) == Total(Map(pool[..k], f)) + f(pool[k])
  {
    assert Map(pool[..k + 1], f) == Map(pool[..k], f) + [f(pool[k])];
    TotalOfConcat(Map(pool[..k], f), [f(pool[k])]);
  }
}
