/** Which relays a route and a priority list hold, and in which order, in terms of the fields of their records. */
module SelectionFields {
  import opened RelayModel
  import opened Selection
  import opened Ranking
  import opened Order
  import Mols

  // ---------- Routes ----------

  /** A relay a route may use: not banned or set aside, seen, unexpired, an overlay peer, with the ports asked for. */
  predicate UsableHop(t: Tables, c: ClientState, now: int, u: string)
  {
    && u in t.relays
    && var s := t.relays[u];
       && !s.banned && u !in c.suppressedUrls && s.lastSeenAt != 0 && now < s.descriptor.expiresAt
       && s.descriptor.supportsOverlay && s.descriptor.wireguardKey != ""
       && (c.requireUdp ==> s.descriptor.supportsUdp) && (c.requireTcp ==> s.descriptor.supportsTcp)
       && (s.suppressUntil <= 0 || s.suppressUntil <= now)
  }

  lemma UsableHops(t: Tables, c: ClientState, now: int)
    ensures HopPool(t, c, now) == set u | u in t.relays && UsableHop(t, c, now, u)
  {
  }

  /** A route is made of usable relays, and of as many of them as the depth allows; depth one means no route. */
  lemma RouteOnFields(t: Tables, c: ClientState, now: int, bucket: string -> Mols.Elem, route: seq<string>)
    requires IsRoute(t, c, now, bucket, route)
    ensures forall u :: u in route ==> UsableHop(t, c, now, u)
    ensures var usable := |set u | u in t.relays && UsableHop(t, c, now, u)|;
            |route| == if c.multiHopDepth <= 1 then 0 else if c.multiHopDepth < usable then c.multiHopDepth else usable
  {
    RouteIsTop(t, c, now, bucket, route);
    UsableHops(t, c, now);
    forall u | u in route
      ensures UsableHop(t, c, now, u)
    {
      assert u in HopPool(t, c, now);
    }
  }

  /** One relay goes before another: the fast before the slow, then by score, confirmation, distance and URL. */
  ghost predicate Before(a: PoolEntry, b: PoolEntry)
  {
    || (!a.fallback && b.fallback)
    || (a.fallback == b.fallback &&
        (|| a.score > b.score
         || (a.score == b.score &&
             (|| (a.confirmed && !b.confirmed)
              || (a.confirmed == b.confirmed &&
                  (a.rttMs < b.rttMs || (a.rttMs == b.rttMs && Smaller(a.url, b.url))))))))
  }

  lemma ComparisonMeaning(a: PoolEntry, b: PoolEntry)
    ensures CmpMols(a, b) < 0 <==> Before(a, b)
  {
    StrcmpMeaning(a.url, b.url);
  }

  /** What a relay competes with: its own record, slow above two seconds, and its score in the row of the client. */
  lemma CompetitorMeaning(t: Tables, c: ClientState, now: int, bucket: string -> Mols.Elem, u: string)
    ensures var e := Competitor(t, c, now, bucket, u);
            var row := bucket(if c.localAddress == "" then "127.0.0.1" else c.localAddress);
            && e.url == u
            && (u in t.relays ==> e.confirmed == t.relays[u].confirmed && e.rttMs == t.relays[u].rttMs)
            && e.fallback == (e.rttMs > 2000.0)
            && e.score == if HopsUneven(t, c, now) then Mols.Score(row, bucket(u), Mols.VARIANT_M1, Mols.VARIANT_M2)
                          else Mols.Score(row, bucket(u), Mols.BASE_M1, Mols.BASE_M2)
  {
  }

  /** A route is in order, and every usable relay that it leaves out comes after all of it. */
  lemma RouteInOrder(t: Tables, c: ClientState, now: int, bucket: string -> Mols.Elem, route: seq<string>)
    requires IsRoute(t, c, now, bucket, route)
    ensures forall i, j :: 0 <= i < j < |route| ==>
              Before(Competitor(t, c, now, bucket, route[i]), Competitor(t, c, now, bucket, route[j]))
    ensures forall u, v :: u in route && UsableHop(t, c, now, v) && v !in route ==>
              Before(Competitor(t, c, now, bucket, u), Competitor(t, c, now, bucket, v))
  {
    RouteIsTop(t, c, now, bucket, route);
    UsableHops(t, c, now);
    forall a, b
      ensures CmpMols(a, b) < 0 <==> Before(a, b)
    {
      ComparisonMeaning(a, b);
    }
  }

  // ---------- Scores ----------

  /** In the row of the unit element a column scores by the multipliers themselves, 3 and 5 or 7 and 11. */
  lemma UnitRow()
    ensures var one: Mols.Elem := [true, false, false, false, false, false];
            && Mols.Score(one, Mols.ZERO, Mols.BASE_M1, Mols.BASE_M2) == 3 * 64 + 5 + 1
            && Mols.Score(one, Mols.ZERO, Mols.VARIANT_M1, Mols.VARIANT_M2) == 7 * 64 + 11 + 1
  {
    UnitProduct(Mols.BASE_M1);
    UnitProduct(Mols.BASE_M2);
    UnitProduct(Mols.VARIANT_M1);
    UnitProduct(Mols.VARIANT_M2);
    SixBits(true, true, false, false);
    SixBits(true, false, true, false);
    SixBits(true, true, true, false);
    SixBits(true, true, false, true);
  }

  lemma UnitProduct(m: Mols.Elem)
    ensures Mols.Product(m, [true, false, false, false, false, false]) == m && Mols.Xor(m, Mols.ZERO) == m
  {
    var b: Mols.Bits := [true, false, false, false, false, false];
    assert b[1..] == [false, false, false, false, false];
    Mols.ProductOfZero(Mols.Double(m), b[1..]);
  }

  lemma SixBits(b0: bool, b1: bool, b2: bool, b3: bool)
    ensures Mols.Value([b0, b1, b2, b3, false, false]) ==
            (if b0 then 1 else 0) + (if b1 then 2 else 0) + (if b2 then 4 else 0) + (if b3 then 8 else 0)
  {
    var x: Mols.Bits := [b0, b1, b2, b3, false, false];
    BitByBit(x);
    BitByBit(x[1..]);
    BitByBit(x[2..]);
    BitByBit(x[3..]);
    BitByBit(x[4..]);
    BitByBit(x[5..]);
    assert x[1..][1..] == x[2..] && x[2..][1..] == x[3..] && x[3..][1..] == x[4..] && x[4..][1..] == x[5..];
    assert x[5..][1..] == [];
  }

  lemma BitByBit(x: Mols.Bits)
    requires x != []
    ensures Mols.Value(x) == (if x[0] then 1 else 0) + 2 * Mols.Value(x[1..])
  {
  }

  /** The field is that of x^6 = x + 1. */
  lemma Reduction()
    ensures Mols.Product([false, false, false, false, false, true], [false, true, false, false, false, false]) ==
            [true, true, false, false, false, false]
  {
    var a: Mols.Elem, b: Mols.Bits :=
      [false, false, false, false, false, true], [false, true, false, false, false, false];
    var tail: Mols.Bits := [false, false, false, false];
    assert b[1..] == [true] + tail && b[1..][1..] == tail;
    Mols.ProductOfZero(Mols.Double(Mols.Double(a)), tail);
    assert Mols.ShiftLeft(a) == Mols.ZERO;
  }

  /** Two measured relays are uneven exactly if one is more than three times as far as the other. */
  lemma UnevenPair(a: PoolEntry, b: PoolEntry)
    requires a.rttMs > 0.0 && b.rttMs > 0.0
    ensures Uneven([a, b]) <==> a.rttMs > 3.0 * b.rttMs || b.rttMs > 3.0 * a.rttMs
  {
    var x, y := a.rttMs, b.rttMs;
    var mean := (x + y) / 2.0;
    PairTotal(a, b, Counted);
    PairTotal(a, b, Rtt);
    assert MeanRtt([a, b]) == mean;
    PairTotal(a, b, Deviation(mean));
    PairSpread(x, y, mean);
  }

  /** A relay that was never measured does not change whether a pool of two or more is uneven. */
  lemma UnmeasuredIgnored(pool: seq<PoolEntry>, e: PoolEntry)
    requires |pool| >= 2 && e.rttMs <= 0.0
    ensures Uneven(pool + [e]) <==> Uneven(pool)
  {
    OneMoreTotal(pool, e, Counted);
    OneMoreTotal(pool, e, Rtt);
    assert MeanRtt(pool + [e]) == MeanRtt(pool);
    OneMoreTotal(pool, e, Deviation(MeanRtt(pool)));
    assert Variance(pool + [e]) == Variance(pool);
  }

  lemma OneMoreTotal(pool: seq<PoolEntry>, e: PoolEntry, f: PoolEntry -> real)
    ensures Total(Map(pool + [e], f)) == Total(Map(pool, f)) + f(e)
  {
    assert Map(pool + [e], f) == Map(pool, f) + [f(e)];
    TotalOfConcat(Map(pool, f), [f(e)]);
  }

  lemma PairTotal(a: PoolEntry, b: PoolEntry, f: PoolEntry -> real)
    ensures Total(Map([a, b], f)) == f(a) + f(b)
  {
    var m := Map([a, b], f);
    assert m[1..][1..] == [];
    assert Total(m[1..]) == m[1] + Total(m[1..][1..]);
  }

  lemma PairSpread(x: real, y: real, mean: real)
    requires x > 0.0 && y > 0.0 && mean == (x + y) / 2.0
    ensures 4.0 * (((x - mean) * (x - mean) + (y - mean) * (y - mean)) / 2.0) > mean * mean <==>
            x > 3.0 * y || y > 3.0 * x
  {
    var d := (x - y) / 2.0;
    assert x - mean == d && y - mean == -d;
    assert (x - mean) * (x - mean) == d * d && (y - mean) * (y - mean) == d * d;
    assert 4.0 * ((d * d + d * d) / 2.0) == (2.0 * d) * (2.0 * d);
    SquareOrder(if 2.0 * d < 0.0 then -(2.0 * d) else 2.0 * d, mean);
  }

  lemma SquareOrder(p: real, q: real)
    requires p >= 0.0 && q >= 0.0
    ensures p * p > q * q <==> p > q
  {
    assert p * p - q * q == (p - q) * (p + q);
    if p > q {
      Positive(p - q, p + q);
    } else {
      assert (p - q) * (p + q) <= 0.0;
    }
  }

  lemma Positive(x: real, y: real)
    requires x > 0.0 && y > 0.0
    ensures x * y > 0.0
  {
  }

  // ---------- Priority lists ----------

  /** An explicit relay that may be used: unbanned and, if its descriptor is alive, with the ports asked for. */
  predicate UsableExplicit(t: Tables, c: ClientState, now: int, u: string)
  {
    && u in t.relays && u in c.explicitUrls
    && var s := t.relays[u];
       && !s.banned
       && (s.lastSeenAt != 0 && now < s.descriptor.expiresAt ==>
             (c.requireUdp ==> s.descriptor.supportsUdp) && (c.requireTcp ==> s.descriptor.supportsTcp))
  }

  /** An automatic relay that may be used: confirmed, not set aside and, once seen, alive with the ports asked for. */
  predicate UsableAuto(t: Tables, c: ClientState, now: int, u: string)
  {
    && u in t.relays && u !in c.explicitUrls && u !in c.suppressedUrls
    && var s := t.relays[u];
       && !s.banned && s.confirmed && (s.suppressUntil <= 0 || s.suppressUntil <= now)
       && (s.lastSeenAt != 0 ==>
             && now < s.descriptor.expiresAt
             && (c.requireUdp ==> s.descriptor.supportsUdp) && (c.requireTcp ==> s.descriptor.supportsTcp))
  }

  /** A priority list holds each usable explicit relay once, then usable automatic ones, nearest first and nearer than
      those left out, as many as fit up to the limit, which is 4 unless the client sets one. */
  lemma PriorityOnFields(t: Tables, c: ClientState, now: int, explicits: seq<string>, autos: seq<string>)
    requires IsPriority(t, c, now, explicits, autos)
    ensures forall u :: u in explicits <==> UsableExplicit(t, c, now, u)
    ensures forall i, j :: 0 <= i < j < |explicits| ==> explicits[i] != explicits[j]
    ensures forall u :: u in autos ==> UsableAuto(t, c, now, u)
    ensures forall i, j :: 0 <= i < j < |autos| ==> autos[i] != autos[j] && autos[i] in t.relays && autos[j] in t.relays
                                                    && t.relays[autos[i]].rttMs <= t.relays[autos[j]].rttMs
    ensures forall u, v :: u in autos && UsableAuto(t, c, now, v) && v !in autos ==>
              u in t.relays && t.relays[u].rttMs <= t.relays[v].rttMs
    ensures var limit := if c.maxActive > 0 then c.maxActive else 4;
            var usable := |set u | u in t.relays && UsableAuto(t, c, now, u)|;
            |autos| == if |explicits| + usable <= limit then usable
                       else if |explicits| < limit then limit - |explicits| else 0
  {
    UsableExplicits(t, c, now, explicits);
    UsableAutos(t, c, now);
    EnumerationSize(explicits);
    forall u | u in autos
      ensures UsableAuto(t, c, now, u)
    {
      assert u in AutoPool(t, c, now);
    }
    forall i, j | 0 <= i < j < |autos|
      ensures autos[i] != autos[j] && autos[i] in t.relays && autos[j] in t.relays
      ensures t.relays[autos[i]].rttMs <= t.relays[autos[j]].rttMs
    {
      assert autos[i] in autos && autos[j] in autos;
      assert StateOf(t, autos[i]).rttMs <= StateOf(t, autos[j]).rttMs;
    }
    forall u, v | u in autos && UsableAuto(t, c, now, v) && v !in autos
      ensures u in t.relays && t.relays[u].rttMs <= t.relays[v].rttMs
    {
      assert v in AutoPool(t, c, now);
      assert StateOf(t, u).rttMs <= StateOf(t, v).rttMs;
    }
  }

  lemma UsableAutos(t: Tables, c: ClientState, now: int)
    ensures AutoPool(t, c, now) == set u | u in t.relays && UsableAuto(t, c, now, u)
  {
  }

  lemma UsableExplicits(t: Tables, c: ClientState, now: int, explicits: seq<string>)
    requires Enumerates(explicits, ExplicitPool(t, c, now))
    ensures forall u :: u in explicits <==> UsableExplicit(t, c, now, u)
  {
    var pool, listed := ExplicitPool(t, c, now), set v | v in explicits;
    forall u
      ensures u in explicits <==> UsableExplicit(t, c, now, u)
    {
      assert u in explicits <==> u in listed;
      assert u in pool <==> UsableExplicit(t, c, now, u);
    }
  }
}
