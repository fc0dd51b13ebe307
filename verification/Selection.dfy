/** Which relays a client may use, and what a priority list and a multi-hop route are. */
module Selection {
  import opened RelayModel
  import opened Ranking
  import opened Order
  import Mols
  import RelayRuns

  datatype ClientState = ClientState(
    explicitUrls: seq<string>, suppressedUrls: seq<string>, maxActive: int, multiHopDepth: int,
    requireUdp: bool, requireTcp: bool, localAddress: string)

  predicate Live(s: RelayState, now: int) { Observed(s) && s.descriptor.expiresAt > now }

  predicate Capable(c: ClientState, d: Descriptor)
  {
    (c.requireUdp ==> d.supportsUdp) && (c.requireTcp ==> d.supportsTcp)
  }

  predicate HasOverlayPeer(d: Descriptor) { d.supportsOverlay && d.wireguardKey != "" }

  // ---------- Multi-hop routes ----------

  predicate HopEligible(s: RelayState, u: string, c: ClientState, now: int)
  {
    && !s.banned
    && u !in c.suppressedUrls
    && Capable(c, s.descriptor)
    && Live(s, now) && HasOverlayPeer(s.descriptor)
    && !(s.suppressUntil > 0 && s.suppressUntil > now)
  }

  function HopPool(t: Tables, c: ClientState, now: int): set<string>
  {
    set u | u in t.relays && HopEligible(t.relays[u], u, c, now)
  }

  function EntryOf(t: Tables): string -> PoolEntry
  {
    u => var s := StateOf(t, u); PoolEntry(u, s.confirmed, s.rttMs, 0, false)
  }

  ghost predicate Enumerates(order: seq<string>, s: set<string>)
  {
    && (set u | u in order) == s
    && (forall i, j :: 0 <= i < j < |order| ==> order[i] != order[j])
  }

  function Row(c: ClientState, bucket: string -> Mols.Elem): Mols.Elem
  {
    bucket(if c.localAddress == "" then "127.0.0.1" else c.localAddress)
  }

  function UrlOf(e: PoolEntry): string { e.url }

  function Take(depth: int, n: nat): nat { if depth <= 1 then 0 else if depth < n then depth else n }

  /** `ranked` orders the eligible relays, met in table order `order`. */
  ghost predicate RanksHops(t: Tables, c: ClientState, now: int, bucket: string -> Mols.Elem,
                            order: seq<string>, ranked: seq<PoolEntry>)
  {
    Enumerates(order, HopPool(t, c, now)) && Ranks(Map(order, EntryOf(t)), Row(c, bucket), bucket, ranked)
  }

  /** `route` is what the selection may return for some iteration order of the table. */
  ghost predicate IsRoute(t: Tables, c: ClientState, now: int, bucket: string -> Mols.Elem, route: seq<string>)
  {
    exists order, ranked :: RanksHops(t, c, now, bucket, order, ranked)
      && route == Map(ranked[..Take(c.multiHopDepth, |ranked|)], UrlOf)
  }

  /** The route is canonical: every iteration order of the relay table yields the same one. */
  lemma RouteIsCanonical(t: Tables, c: ClientState, now: int, bucket: string -> Mols.Elem,
                         r: seq<string>, s: seq<string>)
    requires IsRoute(t, c, now, bucket, r) && IsRoute(t, c, now, bucket, s)
    ensures r == s
  {
    var p, rankedP :| RanksHops(t, c, now, bucket, p, rankedP)
      && r == Map(rankedP[..Take(c.multiHopDepth, |rankedP|)], UrlOf);
    var q, rankedQ :| RanksHops(t, c, now, bucket, q, rankedQ)
      && s == Map(rankedQ[..Take(c.multiHopDepth, |rankedQ|)], UrlOf);
    EnumerationsAgree(p, q);
    MapIgnoresOrder(p, q, EntryOf(t));
    RankingIsCanonical(Map(p, EntryOf(t)), Map(q, EntryOf(t)), Row(c, bucket), bucket, rankedP, rankedQ);
  }

  /** The round-trip times of the eligible relays are uneven, so the variant squares rank them. */
  ghost predicate HopsUneven(t: Tables, c: ClientState, now: int)
  {
    exists order :: Enumerates(order, HopPool(t, c, now)) && Uneven(Map(order, EntryOf(t)))
  }

  lemma HopsUnevenInAnyOrder(t: Tables, c: ClientState, now: int, order: seq<string>)
    requires Enumerates(order, HopPool(t, c, now))
    ensures HopsUneven(t, c, now) == Uneven(Map(order, EntryOf(t)))
  {
    if HopsUneven(t, c, now) {
      var other :| Enumerates(other, HopPool(t, c, now)) && Uneven(Map(other, EntryOf(t)));
      EnumerationsAgree(order, other);
      MapIgnoresOrder(order, other, EntryOf(t));
      UnevenIgnoresOrder(Map(order, EntryOf(t)), Map(other, EntryOf(t)));
    }
  }

  /** The entry with which relay `u` competes for a place in the route. */
  ghost function Competitor(t: Tables, c: ClientState, now: int, bucket: string -> Mols.Elem, u: string): PoolEntry
  {
    Scoring(Row(c, bucket), bucket, HopsUneven(t, c, now))(EntryOf(t)(u))
  }

  /** The eligible relays, each once, the better one always before the other. */
  ghost predicate Standings(t: Tables, c: ClientState, now: int, bucket: string -> Mols.Elem, urls: seq<string>)
  {
    && Enumerates(urls, HopPool(t, c, now))
    && forall i, j :: 0 <= i < j < |urls| ==>
         CmpMols(Competitor(t, c, now, bucket, urls[i]), Competitor(t, c, now, bucket, urls[j])) < 0
  }

  lemma ScoredIsCompetitor(t: Tables, c: ClientState, now: int, bucket: string -> Mols.Elem,
                           order: seq<string>, scored: seq<PoolEntry>, e: PoolEntry)
    requires Enumerates(order, HopPool(t, c, now)) && e in multiset(scored)
    requires var entries := Map(order, EntryOf(t));
             scored == Map(entries, Scoring(Row(c, bucket), bucket, Uneven(entries)))
    ensures e == Competitor(t, c, now, bucket, e.url)
  {
    HopsUnevenInAnyOrder(t, c, now, order);
    var k :| 0 <= k < |scored| && scored[k] == e;
    assert order[k] == e.url;
  }

  lemma DifferentUrlsDiffer(a: PoolEntry, b: PoolEntry)
    requires a.url != b.url && CmpMols(a, b) <= 0
    ensures CmpMols(a, b) < 0
  {
    StrcmpTotal(a.url, b.url);
  }

  lemma RankedUrls(order: seq<string>, pool: set<string>, entry: string -> PoolEntry, score: PoolEntry -> PoolEntry,
                   ranked: seq<PoolEntry>)
    requires Enumerates(order, pool)
    requires forall u :: score(entry(u)).url == u
    requires multiset(ranked) == multiset(Map(Map(order, entry), score))
    ensures Enumerates(Map(ranked, UrlOf), pool)
  {
    var scored := Map(Map(order, entry), score);
    MapIgnoresOrder(ranked, scored, UrlOf);
    assert Map(scored, UrlOf) == order;
    RearrangedEnumeration(Map(ranked, UrlOf), order);
  }

  lemma RankedIsStandings(t: Tables, c: ClientState, now: int, bucket: string -> Mols.Elem,
                          order: seq<string>, ranked: seq<PoolEntry>)
    requires RanksHops(t, c, now, bucket, order, ranked)
    ensures Standings(t, c, now, bucket, Map(ranked, UrlOf))
  {
    var entries := Map(order, EntryOf(t));
    var score := Scoring(Row(c, bucket), bucket, Uneven(entries));
    RankedUrls(order, HopPool(t, c, now), EntryOf(t), score, ranked);
    var urls := Map(ranked, UrlOf);
    forall i, j | 0 <= i < j < |urls|
      ensures CmpMols(Competitor(t, c, now, bucket, urls[i]), Competitor(t, c, now, bucket, urls[j])) < 0
    {
      assert ranked[i] in multiset(ranked) && ranked[j] in multiset(ranked);
      ScoredIsCompetitor(t, c, now, bucket, order, Map(entries, score), ranked[i]);
      ScoredIsCompetitor(t, c, now, bucket, order, Map(entries, score), ranked[j]);
      assert urls[i] != urls[j];
      DifferentUrlsDiffer(ranked[i], ranked[j]);
    }
  }

  /** A route lists the best eligible relays, best first and each once, and as many of them as the
      depth allows; in particular it never holds a banned relay. */
  lemma RouteIsTop(t: Tables, c: ClientState, now: int, bucket: string -> Mols.Elem, route: seq<string>)
    requires IsRoute(t, c, now, bucket, route)
    ensures |route| == Take(c.multiHopDepth, |HopPool(t, c, now)|)
    ensures forall u :: u in route ==> u in HopPool(t, c, now) && !RelayRuns.Banned(t, u)
    ensures forall i, j :: 0 <= i < j < |route| ==> route[i] != route[j]
    ensures forall i, j :: 0 <= i < j < |route| ==>
              CmpMols(Competitor(t, c, now, bucket, route[i]), Competitor(t, c, now, bucket, route[j])) < 0
    ensures forall u, v :: u in route && v in HopPool(t, c, now) && v !in route ==>
              CmpMols(Competitor(t, c, now, bucket, u), Competitor(t, c, now, bucket, v)) < 0
  {
    var urls := RouteStandings(t, c, now, bucket, route);
    TopOfStandings(t, c, now, bucket, urls, |route|);
    forall i, j | 0 <= i < j < |route|
      ensures route[i] != route[j]
      ensures CmpMols(Competitor(t, c, now, bucket, route[i]), Competitor(t, c, now, bucket, route[j])) < 0
    {
      assert route[i] == urls[i] && route[j] == urls[j];
    }
  }

  lemma RouteStandings(t: Tables, c: ClientState, now: int, bucket: string -> Mols.Elem, route: seq<string>)
    returns (urls: seq<string>)
    requires IsRoute(t, c, now, bucket, route)
    ensures Standings(t, c, now, bucket, urls)
    ensures |route| == Take(c.multiHopDepth, |urls|) && route == urls[..|route|]
  {
    var order: seq<string>, ranked: seq<PoolEntry> :| RanksHops(t, c, now, bucket, order, ranked)
      && route == Map(ranked[..Take(c.multiHopDepth, |ranked|)], UrlOf);
    RankedIsStandings(t, c, now, bucket, order, ranked);
    urls := Map(ranked, UrlOf);
  }

  lemma TopOfStandings(t: Tables, c: ClientState, now: int, bucket: string -> Mols.Elem, urls: seq<string>, n: nat)
    requires Standings(t, c, now, bucket, urls) && n <= |urls|
    ensures |urls| == |HopPool(t, c, now)|
    ensures forall u :: u in urls[..n] ==> u in HopPool(t, c, now)
    ensures forall u, v :: u in urls[..n] && v in HopPool(t, c, now) && v !in urls[..n] ==>
              CmpMols(Competitor(t, c, now, bucket, u), Competitor(t, c, now, bucket, v)) < 0
  {
    EnumerationSize(urls);
    var pool, all := HopPool(t, c, now), set u | u in urls;
    forall u | u in urls[..n]
      ensures u in pool
    {
      assert u in all;
    }
    forall u, v | u in urls[..n] && v in pool && v !in urls[..n]
      ensures CmpMols(Competitor(t, c, now, bucket, u), Competitor(t, c, now, bucket, v)) < 0
    {
      assert v in all;
      OrderOfTwo(urls, n, u, v);
    }
  }

  /** A member of the front part stands before one that is only in the back part. */
  lemma OrderOfTwo(urls: seq<string>, n: nat, u: string, v: string)
    requires n <= |urls| && u in urls[..n] && v in urls && v !in urls[..n]
    ensures exists i, j :: 0 <= i < j < |urls| && urls[i] == u && urls[j] == v
  {
    var i :| 0 <= i < n && urls[i] == u;
    var j :| 0 <= j < |urls| && urls[j] == v;
    assert n <= j;
  }

  /** A slow relay is chosen over another only if that one is slow too, and within either class
      the higher Latin-square score wins. */
  lemma SlowRelaysLast(t: Tables, c: ClientState, now: int, bucket: string -> Mols.Elem,
                       route: seq<string>, u: string, v: string)
    requires IsRoute(t, c, now, bucket, route)
    requires u in route && v in HopPool(t, c, now) && v !in route
    ensures StateOf(t, u).rttMs > FALLBACK_RTT_MS ==> StateOf(t, v).rttMs > FALLBACK_RTT_MS
    ensures (StateOf(t, u).rttMs > FALLBACK_RTT_MS <==> StateOf(t, v).rttMs > FALLBACK_RTT_MS) ==>
            Competitor(t, c, now, bucket, u).score >= Competitor(t, c, now, bucket, v).score
  {
    RouteIsTop(t, c, now, bucket, route);
    FasterThenHigher(Competitor(t, c, now, bucket, u), Competitor(t, c, now, bucket, v));
    CompetitorIsSlow(t, c, now, bucket, u);
    CompetitorIsSlow(t, c, now, bucket, v);
  }

  lemma FasterThenHigher(a: PoolEntry, b: PoolEntry)
    requires CmpMols(a, b) < 0
    ensures (a.fallback ==> b.fallback) && (a.fallback == b.fallback ==> a.score >= b.score)
  {
  }

  lemma CompetitorIsSlow(t: Tables, c: ClientState, now: int, bucket: string -> Mols.Elem, u: string)
    ensures Competitor(t, c, now, bucket, u).fallback == (StateOf(t, u).rttMs > FALLBACK_RTT_MS)
  {
  }

  // ---------- Priority lists ----------

  predicate ExplicitEligible(s: RelayState, u: string, c: ClientState, now: int)
  {
    !s.banned && u in c.explicitUrls && (Live(s, now) ==> Capable(c, s.descriptor))
  }

  predicate AutoEligible(s: RelayState, u: string, c: ClientState, now: int)
  {
    && !s.banned && u !in c.explicitUrls && u !in c.suppressedUrls && s.confirmed
    && (Observed(s) ==> s.descriptor.expiresAt > now && Capable(c, s.descriptor))
    && !(s.suppressUntil > 0 && s.suppressUntil > now)
  }

  function ExplicitPool(t: Tables, c: ClientState, now: int): set<string>
  {
    set u | u in t.relays && ExplicitEligible(t.relays[u], u, c, now)
  }

  function AutoPool(t: Tables, c: ClientState, now: int): set<string>
  {
    set u | u in t.relays && AutoEligible(t.relays[u], u, c, now)
  }

  /** How many automatic relays fit beside the explicit ones. */
  function AutoTake(maxActive: int, explicits: nat, autos: nat): nat
  {
    var limit := if maxActive > 0 then maxActive else 4;
    if explicits + autos <= limit then autos else if limit > explicits then limit - explicits else 0
  }

  /** The relays `autos`, in order of distance, are nearer than the rest of the pool. */
  ghost predicate NearestOf(t: Tables, autos: seq<string>, pool: set<string>)
  {
    && (forall u :: u in autos ==> u in pool)
    && (forall i, j :: 0 <= i < j < |autos| ==>
          autos[i] != autos[j] && StateOf(t, autos[i]).rttMs <= StateOf(t, autos[j]).rttMs)
    && (forall u, v :: u in autos && v in pool && v !in autos ==> StateOf(t, u).rttMs <= StateOf(t, v).rttMs)
  }

  /** A priority list: all eligible explicit relays, then the nearest automatic ones. */
  ghost predicate IsPriority(t: Tables, c: ClientState, now: int, explicits: seq<string>, autos: seq<string>)
  {
    && Enumerates(explicits, ExplicitPool(t, c, now))
    && NearestOf(t, autos, AutoPool(t, c, now))
    && |autos| == AutoTake(c.maxActive, |ExplicitPool(t, c, now)|, |AutoPool(t, c, now)|)
  }
}
