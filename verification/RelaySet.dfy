/** The relay discovery set as the program keeps it: two tables updated in place. */
module RelaySets {
  import opened RelayModel
  import opened Selection
  import opened Ranking
  import opened Wrappers
  import opened Order
  import Mols
  import RelayRuns

  /** What an announcing relay is told. */
  datatype Announcement = Stored | NotAuthentic | BadMessage

  /** An offer that passed every check but was turned away. */
  ghost predicate TurnedAway(t: Tables, e: Event)
  {
    && e.step.Offer? && Admissible(e.step.descriptor, e.now)
    && Judge(t, Candidate(t, e.step.descriptor, e.step.authoritative, e.now), e.now, e.step.authoritative) == Rejected
  }

  /** Some event of the run was an offer that its state turned away. */
  ghost predicate SomeTurnedAway(t: Tables, es: seq<Event>)
  {
    es != [] && var front, last := es[..|es| - 1], es[|es| - 1];
                SomeTurnedAway(t, front) || TurnedAway(Run(t, front), last)
  }

  class RelaySet {
    var relays: map<string, RelayState>
    var keyIndex: map<string, Entry>

    function View(): Tables
      reads this
    {
      Tables(relays, keyIndex)
    }

    constructor ()
      ensures View() == EMPTY
    {
      relays, keyIndex := map[], map[];
    }

    /** `upsert_descriptor_locked`. */
    method Upsert(record: RelayState, now: int, takeover: bool) returns (v: Verdict)
      modifies this
      ensures v == Judge(old(View()), record, now, takeover)
      ensures View() == Upserted(old(View()), record, now, takeover)
    {
      var url := record.descriptor.apiUrl;
      if url == "" {
        return Rejected;
      }
      var address := Identity(record.descriptor);
      if address != "" && address in keyIndex {
        var prev := keyIndex[address];
        if prev.tombstoneUntil != 0 && now > prev.tombstoneUntil {
          keyIndex := keyIndex - {address};
        } else if record.descriptor.issuedAt < prev.issuedAt {
          if url in relays {
            var existing := relays[url].descriptor;
            if Identity(existing) == address && existing.expiresAt > now
               && existing.issuedAt >= record.descriptor.issuedAt {
              return Ignored;
            }
          }
          return Rejected;
        }
      }
      if !takeover && url in relays {
        var existing := relays[url].descriptor;
        if Identity(existing) != "" && address != "" && Identity(existing) != address {
          if existing.expiresAt != 0 && existing.expiresAt > now {
            return Rejected;
          }
        }
      }
      relays := relays[url := record];
      if address != "" {
        var issuedAt := record.descriptor.issuedAt;
        var tombstoneUntil := issuedAt + MAX_VALIDITY;
        if address in keyIndex {
          issuedAt := Max(issuedAt, keyIndex[address].issuedAt);
          tombstoneUntil := Max(tombstoneUntil, keyIndex[address].tombstoneUntil);
        }
        keyIndex := keyIndex[address := Entry(issuedAt, tombstoneUntil)];
      }
      return Accepted;
    }

    /** `enforce_cap_locked`: drops exactly the index entries whose tombstone has passed. */
    method EnforceCap(now: int)
      modifies this`keyIndex
      ensures View() == Exec(old(View()), Event(now, Purge))
    {
      ghost var start := keyIndex;
      var pending := keyIndex.Keys;
      while pending != {}
        invariant pending <= start.Keys && keyIndex.Keys <= start.Keys
        invariant forall a :: a in keyIndex ==> keyIndex[a] == start[a]
        invariant forall a :: a in start ==> (a in keyIndex <==> a in pending || !Purgeable(start[a], now))
        decreases |pending|
      {
        var a :| a in pending;
        if Purgeable(keyIndex[a], now) {
          keyIndex := keyIndex - {a};
        }
        pending := pending - {a};
      }
      assert keyIndex == Purged(start, now);
    }

    /** The record built for a received descriptor, with the telemetry of its URL merged in. */
    method MakeRecord(d: Descriptor, authoritative: bool, now: int) returns (record: RelayState)
      ensures record == Candidate(View(), d, authoritative, now)
    {
      record := BlankState(d.apiUrl).(descriptor := d, lastSeenAt := now);
      if d.apiUrl in relays {
        var existing := relays[d.apiUrl];
        record := record.(bootstrap := record.bootstrap || existing.bootstrap,
                          confirmed := record.confirmed || existing.confirmed,
                          banned := record.banned || existing.banned);
        if record.discoveryFailures < existing.discoveryFailures {
          record := record.(discoveryFailures := existing.discoveryFailures);
        }
        if record.activeFailures < existing.activeFailures {
          record := record.(activeFailures := existing.activeFailures);
        }
        record := record.(nextRefreshAt := existing.nextRefreshAt, suppressUntil := existing.suppressUntil);
        if record.rttAt == 0 || (existing.rttAt != 0 && existing.rttAt > record.rttAt) {
          record := record.(rttMs := existing.rttMs, rttAt := existing.rttAt);
        }
      }
      if authoritative {
        record := record.(discoveryFailures := 0, nextRefreshAt := 0);
      }
    }

    /** Handles one descriptor of a response; `own` says that the answering relay describes itself. */
    method OfferDescriptor(d: Descriptor, own: bool, now: int) returns (rejected: bool)
      modifies this
      ensures View() == Exec(old(View()), Event(now, Offer(d, own)))
      ensures rejected == TurnedAway(old(View()), Event(now, Offer(d, own)))
    {
      if !Admissible(d, now) {
        return false;
      }
      var record := MakeRecord(d, own, now);
      var verdict := Upsert(record, now, own);
      rejected := verdict == Rejected;
    }

    /** `apply_discovery_response`: the offers of the response, in order.  The `changed` flag is
        raised exactly when some admissible descriptor was rejected. */
    method ApplyDiscoveryResponse(target: string, version: Option<string>, expected: string,
                                  descriptors: seq<Descriptor>, now: int)
      returns (changed: bool)
      modifies this
      ensures var es := ResponseEvents(target, version.Some? && version.value != expected, descriptors, now);
              && View() == Run(old(View()), es)
              && changed == SomeTurnedAway(old(View()), es)
    {
      var mismatch := version.Some? && version.value != expected;
      var authoritative := target != "";
      changed := false;
      ghost var t, es := View(), ResponseEvents(target, mismatch, descriptors, now);
      for i := 0 to |descriptors|
        invariant View() == Run(t, es[..i])
        invariant changed == SomeTurnedAway(t, es[..i])
      {
        RunPrefix(t, es, i);
        assert es[..i + 1][..i] == es[..i];
        var own := !mismatch && authoritative && descriptors[i].apiUrl == target;
        var rejected := OfferDescriptor(descriptors[i], own, now);
        if rejected { changed := true; }
      }
      assert es[..|es|] == es;
    }

    /** `insert_announced`: an offer without takeover rights; on acceptance the index is then
        purged at the later clock reading `purgeNow`. */
    method InsertAnnounced(d: Descriptor, now: int, purgeNow: int) returns (answer: Announcement)
      modifies this
      ensures var e := Event(now, Offer(d, false));
              var t := Exec(old(View()), e);
              View() == if Accepts(old(View()), e, d) then Exec(t, Event(purgeNow, Purge)) else t
      ensures answer == NotAuthentic <==> !Verified(d)
      ensures var r := Candidate(old(View()), d, false, now);
              answer == Stored <==> Verified(d) && Fresh(d, now) && Judge(old(View()), r, now, false) != Rejected
      ensures answer == Stored ==> Covered(Exec(old(View()), Event(now, Offer(d, false))), d, now)
    {
      if !Verified(d) {
        return NotAuthentic;
      }
      if !Fresh(d, now) {
        return BadMessage;
      }
      var record := MakeRecord(d, false, now);
      var verdict := Upsert(record, now, false);
      if verdict == Accepted {
        EnforceCap(purgeNow);
        return Stored;
      }
      return if verdict == Ignored then Stored else BadMessage;
    }

    // ---------- Bootstrap, ban and telemetry operations ----------

    method ClearBootstrap(now: int)
      modifies this`relays
      ensures View() == Exec(old(View()), Event(now, Step.ClearBootstrap))
    {
      ghost var start := relays;
      var pending := relays.Keys;
      while pending != {}
        invariant relays.Keys == start.Keys && pending <= start.Keys
        invariant forall u :: u in start ==>
          relays[u] == if u in pending then start[u] else start[u].(bootstrap := false)
        decreases |pending|
      {
        var u :| u in pending;
        relays := relays[u := relays[u].(bootstrap := false)];
        pending := pending - {u};
      }
      assert relays == map u | u in start :: start[u].(bootstrap := false);
    }

    method AddBootstrapUrl(url: string, now: int)
      modifies this`relays
      ensures View() == Exec(old(View()), Event(now, AddBootstrap(url)))
    {
      if url !in relays {
        relays := relays[url := BlankState(url).(bootstrap := true)];
      } else {
        relays := relays[url := relays[url].(bootstrap := true)];
      }
    }

    method RemoveBootstrapUrl(url: string, now: int)
      modifies this`relays
      ensures View() == Exec(old(View()), Event(now, RemoveBootstrap(url)))
    {
      if url in relays {
        relays := relays[url := relays[url].(bootstrap := false)];
        if Disposable(relays[url]) {
          relays := relays - {url};
        }
      }
    }

    method BanUrl(url: string, now: int)
      modifies this`relays
      ensures View() == Exec(old(View()), Event(now, Ban(url)))
    {
      if url !in relays {
        relays := relays[url := BlankState(url).(banned := true)];
      } else {
        relays := relays[url := relays[url].(banned := true)];
      }
    }

    method AllowUrl(url: string, now: int)
      modifies this`relays
      ensures View() == Exec(old(View()), Event(now, Allow(url)))
    {
      if url !in relays {
        relays := relays[url := BlankState(url)];
      } else {
        relays := relays[url := relays[url].(banned := false)];
      }
    }

    // ---------- Selection ----------

    /** `priority_multi_hop`: whatever order the table is walked in, the answer is a route. */
    method PriorityMultiHop(c: ClientState, now: int, bucket: string -> Mols.Elem) returns (route: seq<string>)
      ensures c.multiHopDepth > 1 ==> IsRoute(View(), c, now, bucket, route)
      ensures c.multiHopDepth <= 1 ==> route == []
    {
      if c.multiHopDepth <= 1 {
        return [];
      }
      var order := CollectHops(c, now);
      var ranked := RankPool(Map(order, EntryOf(View())), Row(c, bucket), bucket);
      var take := c.multiHopDepth;
      if take > |ranked| { take := |ranked|; }
      assert RanksHops(View(), c, now, bucket, order, ranked);
      assert take == Take(c.multiHopDepth, |ranked|);
      route := Map(ranked[..take], UrlOf);
    }

    method CollectHops(c: ClientState, now: int) returns (order: seq<string>)
      ensures Enumerates(order, HopPool(View(), c, now))
    {
      order := [];
      ghost var pool := HopPool(View(), c, now);
      var pending := relays.Keys;
      while pending != {}
        invariant pending <= relays.Keys
        invariant Enumerates(order, pool - pending)
        decreases |pending|
      {
        var u :| u in pending;
        EnumerateOneMore(order, pool, pending, u);
        if HopEligible(relays[u], u, c, now) {
          order := order + [u];
        }
        pending := pending - {u};
      }
    }

    /** `priority_relays`: the eligible explicit relays, then the nearest automatic ones up to the cap. */
    method PriorityRelays(c: ClientState, now: int) returns (explicits: seq<string>, autos: seq<string>)
      ensures IsPriority(View(), c, now, explicits, autos)
      ensures forall u :: u in explicits + autos ==> u in relays && !RelayRuns.Banned(View(), u)
    {
      var candidates: seq<string>;
      explicits, candidates := CollectRelays(c, now);
      EnumerationSize(explicits);
      EnumerationSize(candidates);
      var limit := if c.maxActive > 0 then c.maxActive else 4;
      var take := |candidates|;
      if |explicits| + take > limit {
        take := if limit > |explicits| then limit - |explicits| else 0;
      }
      autos := Nearest(candidates, take, AutoPool(View(), c, now));
      PriorityNotBanned(View(), c, now, explicits, autos);
    }

    /** Sorts the candidates by round-trip time and keeps the first `take`. */
    method Nearest(candidates: seq<string>, take: nat, ghost pool: set<string>) returns (autos: seq<string>)
      requires Enumerates(candidates, pool) && take <= |candidates|
      ensures |autos| == take && NearestOf(View(), autos, pool)
    {
      var ranked := Sort(Map(candidates, EntryOf(View())), CmpRtt);
      NearestFirst(View(), candidates, ranked, pool);
      EnumerationSize(candidates);
      autos := Map(ranked[..take], UrlOf);
      TakeNearest(View(), ranked, take, autos, pool);
    }

    method CollectRelays(c: ClientState, now: int) returns (explicits: seq<string>, candidates: seq<string>)
      ensures Enumerates(explicits, ExplicitPool(View(), c, now))
      ensures Enumerates(candidates, AutoPool(View(), c, now))
    {
      explicits, candidates := [], [];
      ghost var explicitPool, autoPool := ExplicitPool(View(), c, now), AutoPool(View(), c, now);
      var pending := relays.Keys;
      while pending != {}
        invariant pending <= relays.Keys
        invariant Enumerates(explicits, explicitPool - pending)
        invariant Enumerates(candidates, autoPool - pending)
        decreases |pending|
      {
        var u :| u in pending;
        EnumerateOneMore(explicits, explicitPool, pending, u);
        EnumerateOneMore(candidates, autoPool, pending, u);
        if ExplicitEligible(relays[u], u, c, now) {
          explicits := explicits + [u];
        } else if AutoEligible(relays[u], u, c, now) {
          candidates := candidates + [u];
        }
        pending := pending - {u};
      }
    }
  }

  lemma PriorityNotBanned(t: Tables, c: ClientState, now: int, explicits: seq<string>, autos: seq<string>)
    requires IsPriority(t, c, now, explicits, autos)
    ensures forall u :: u in explicits + autos ==> u in t.relays && !RelayRuns.Banned(t, u)
  {
    forall u | u in explicits + autos
      ensures u in t.relays && !RelayRuns.Banned(t, u)
    {
      if u in explicits {
        assert u in (set v | v in explicits);
        assert u in ExplicitPool(t, c, now);
      } else {
        assert u in AutoPool(t, c, now);
      }
    }
  }

  lemma EnumerateOneMore(order: seq<string>, pool: set<string>, pending: set<string>, u: string)
    requires Enumerates(order, pool - pending) && u in pending
    ensures Enumerates(if u in pool then order + [u] else order, pool - (pending - {u}))
  {
    if u in pool {
      var more := order + [u];
      assert forall v :: v in more <==> v in order || v == u;
      assert forall v :: v in order <==> v in pool - pending;
      assert (set v | v in more) == pool - (pending - {u});
    } else {
      assert pool - (pending - {u}) == pool - pending;
    }
  }

  /** Sorting the candidates' entries by round-trip time lists each candidate once, nearest first. */
  lemma NearestFirst(t: Tables, candidates: seq<string>, ranked: seq<PoolEntry>, pool: set<string>)
    requires Enumerates(candidates, pool)
    requires multiset(ranked) == multiset(Map(candidates, EntryOf(t))) && Sorted(ranked, CmpRtt)
    ensures |ranked| == |pool|
    ensures forall u :: u in pool <==> exists j :: 0 <= j < |ranked| && ranked[j].url == u
    ensures forall i, j :: 0 <= i < j < |ranked| ==>
      ranked[i].url != ranked[j].url && StateOf(t, ranked[i].url).rttMs <= StateOf(t, ranked[j].url).rttMs
  {
    var entries := Map(candidates, EntryOf(t));
    MapIgnoresOrder(ranked, entries, UrlOf);
    assert Map(entries, UrlOf) == candidates;
    var urls := Map(ranked, UrlOf);
    RearrangedEnumeration(urls, candidates);
    EnumerationSize(urls);
    forall u
      ensures u in pool <==> exists j :: 0 <= j < |ranked| && ranked[j].url == u
    {
      assert u in pool <==> u in (set v | v in urls);
      if u in urls {
        var j :| 0 <= j < |urls| && urls[j] == u;
        assert ranked[j].url == u;
      }
    }
    forall i, j | 0 <= i < j < |ranked|
      ensures ranked[i].url != ranked[j].url
      ensures StateOf(t, ranked[i].url).rttMs <= StateOf(t, ranked[j].url).rttMs
    {
      assert urls[i] != urls[j];
      assert ranked[i] in multiset(ranked) && ranked[j] in multiset(ranked);
      assert ranked[i] in entries && ranked[j] in entries;
      assert CmpRtt(ranked[i], ranked[j]) <= 0;
    }
  }

  lemma TakeNearest(t: Tables, ranked: seq<PoolEntry>, take: nat, autos: seq<string>, pool: set<string>)
    requires take <= |ranked| && autos == Map(ranked[..take], UrlOf)
    requires forall u :: u in pool <==> exists j :: 0 <= j < |ranked| && ranked[j].url == u
    requires forall i, j :: 0 <= i < j < |ranked| ==>
      ranked[i].url != ranked[j].url && StateOf(t, ranked[i].url).rttMs <= StateOf(t, ranked[j].url).rttMs
    ensures NearestOf(t, autos, pool)
  {
    assert forall k :: 0 <= k < take ==> autos[k] == ranked[k].url && autos[k] in autos;
    forall u, v | u in autos && v in pool && v !in autos
      ensures StateOf(t, u).rttMs <= StateOf(t, v).rttMs
    {
      var i :| 0 <= i < take && autos[i] == u;
      var j :| 0 <= j < |ranked| && ranked[j].url == v;
      assert take <= j;
    }
  }
}
