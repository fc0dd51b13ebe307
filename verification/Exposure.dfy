/** A running exposure: its relay lists, relay set and listeners. */
module Exposures {
  import opened ExposureModel
  import opened Listeners
  import opened RelaySets
  import opened Selection
  import RelayModel
  import Mols

  // ---------- In-place compaction ----------

  /** The compaction loop: the entries that stay are copied forward, then the list is cut. */
  method CompactAll(list: seq<string>, us: seq<string>) returns (r: seq<string>)
    ensures r == WithoutAll(list, us)
  {
    var s, n := list, 0;
    for i := 0 to |list|
      invariant 0 <= n <= i && |s| == |list| && forall k :: i <= k < |list| ==> s[k] == list[k]
      invariant s[..n] == WithoutAll(list[..i], us)
    {
      assert list[..i + 1] == list[..i] + [list[i]];
      WithoutAllSnoc(list[..i], list[i], us);
      if s[i] !in us {
        s := s[n := s[i]];
        n := n + 1;
      }
    }
    assert list[..|list|] == list;
    r := s[..n];
  }

  method Compact(list: seq<string>, u: string) returns (r: seq<string>)
    ensures r == Without(list, u)
  {
    WithoutIsWithoutAll(list, u);
    r := CompactAll(list, [u]);
  }

  // ---------- Exposure ----------

  /** The fixed part of an exposure's configuration. */
  datatype Config = Config(udp: bool, tcp: bool, maxActive: int, targetAddr: string)

  function ClientOf(c: Config, depth: int): ClientState
  {
    ClientState([], [], if c.maxActive > 0 then c.maxActive else 4, depth, c.udp, c.tcp, c.targetAddr)
  }

  /** The relays that should have a listener: the exit of the path, the automatic route, or the explicit relays. */
  ghost predicate Wanted(s: State, c: Config, now: int, bucket: string -> Mols.Elem, wanted: seq<string>)
  {
    if s.lists.multiHop != [] then wanted == [s.lists.multiHop[|s.lists.multiHop| - 1]]
    else if s.lists.depth > 1 then IsRoute(s.tables, ClientOf(c, s.lists.depth), now, bucket, wanted)
    else wanted == s.lists.explicits
  }

  class Exposure {
    const relaySet: RelaySet
    const table: ListenerTable
    const config: Config
    var explicits: seq<string>
    var seeds: seq<string>
    var multiHop: seq<string>
    var depth: int
    var cancelled: bool

    ghost predicate Valid()
      reads this, table
    {
      table.Valid() && Below(table.Contents(), table.nextListener)
    }

    function View(): State
      reads this, relaySet
    {
      State(Lists(explicits, seeds, multiHop, depth), relaySet.View())
    }

    /** `portillia_expose` up to the first reconciliation. */
    constructor (relayUrls: seq<string>, path: seq<string>, depth: int, config: Config, now: int)
      ensures Valid() && fresh(relaySet) && fresh(table)
      ensures Inv(View())
      ensures View().lists == Lists(relayUrls, [], path, depth) && table.Contents() == []
      ensures forall u :: u in relaySet.relays <==> u in relayUrls
      ensures forall u :: u in relayUrls ==> relaySet.relays[u].bootstrap
    {
      relaySet := new RelaySet();
      table := new ListenerTable();
      this.config := config;
      this.depth := depth;
      explicits, seeds, multiHop, cancelled := relayUrls, [], path, false;
      new;
      for i := 0 to |relayUrls|
        invariant View().lists == Lists(relayUrls, [], path, depth)
        invariant forall u :: u in relaySet.relays <==> u in relayUrls[..i]
        invariant forall u :: u in relaySet.relays ==> !relaySet.relays[u].banned && relaySet.relays[u].bootstrap
        modifies relaySet
      {
        relaySet.AddBootstrapUrl(relayUrls[i], now);
      }
    }

    /** `reconcile_relay_listeners`. */
    method Reconcile(now: int, bucket: string -> Mols.Elem, creates: string -> bool) returns (wanted: seq<string>)
      requires Valid()
      modifies table
      ensures Valid() && Wanted(View(), config, now, bucket, wanted)
      ensures Reconciled(old(table.Contents()), table.Contents(), wanted, creates, old(table.nextListener))
    {
      if |multiHop| > 0 {
        wanted := [multiHop[|multiHop| - 1]];
      } else if depth > 1 {
        wanted := relaySet.PriorityMultiHop(ClientOf(config, depth), now, bucket);
      } else {
        wanted := explicits;
      }
      table.Reconcile(wanted, creates);
    }

    function ListsNow(): Lists
      reads this
    {
      Lists(explicits, seeds, multiHop, depth)
    }

    // ---------- The list regions, each under the listener lock ----------

    method AddToLists(url: string)
      modifies this`explicits, this`seeds
      ensures ListsNow() == Changed(old(ListsNow()), Add(url))
    {
      if url !in explicits {
        explicits := explicits + [url];
      }
      seeds := Compact(seeds, url);
    }

    method RemoveFromLists(url: string)
      modifies this`explicits, this`seeds, this`multiHop, this`depth
      ensures ListsNow() == Changed(old(ListsNow()), Remove(url))
    {
      explicits := Compact(explicits, url);
      seeds := Compact(seeds, url);
      ShortenPath(url);
    }

    method SeedInLists(url: string)
      modifies this`explicits, this`seeds, this`multiHop, this`depth
      ensures ListsNow() == Changed(old(ListsNow()), Seed(url))
    {
      explicits := Compact(explicits, url);
      ShortenPath(url);
      if url !in seeds {
        seeds := seeds + [url];
      }
    }

    method ShortenPath(url: string)
      modifies this`multiHop, this`depth
      ensures ListsNow() == Shortened(old(ListsNow()), url)
    {
      if url in multiHop {
        multiHop := Compact(multiHop, url);
        if |multiHop| < 2 {
          multiHop, depth := [], 0;
        }
      }
    }

    method PathInLists(urls: seq<string>)
      requires !PathRefused(ListsNow(), urls, config.udp || config.tcp)
      modifies this`seeds, this`multiHop, this`depth
      ensures ListsNow() == Changed(old(ListsNow()), Change.SetMultiHop(urls, config.udp || config.tcp))
    {
      multiHop, depth := urls, 0;
      seeds := CompactAll(seeds, urls);
    }

    // ---------- The relay-set regions ----------

    method Enroll(url: string, now: int, ghost t: RelayModel.Tables, ghost es: seq<RelayModel.Event>)
      requires relaySet.View() == RelayModel.Run(t, es)
      modifies relaySet
      ensures relaySet.View() == RelayModel.Run(t, es + Enlist(url, now))
    {
      relaySet.AllowUrl(url, now);
      relaySet.AddBootstrapUrl(url, now);
      RelayModel.RunTwoMore(t, es, Enlist(url, now)[0], Enlist(url, now)[1]);
    }

    method EnrollOne(url: string, now: int)
      modifies relaySet
      ensures relaySet.View() == RelayModel.Run(old(relaySet.View()), Enlist(url, now))
    {
      Enroll(url, now, relaySet.View(), []);
      assert [] + Enlist(url, now) == Enlist(url, now);
    }

    method EnrollAll(urls: seq<string>, now: int)
      modifies relaySet
      ensures relaySet.View() == RelayModel.Run(old(relaySet.View()), EnlistAll(urls, now))
    {
      ghost var t := relaySet.View();
      for i := 0 to |urls|
        invariant relaySet.View() == RelayModel.Run(t, EnlistAll(urls[..i], now))
      {
        assert urls[..i + 1][..i] == urls[..i];
        Enroll(urls[i], now, t, EnlistAll(urls[..i], now));
      }
      assert urls[..|urls|] == urls;
    }

    method ExpelOne(url: string, now: int)
      modifies relaySet
      ensures relaySet.View() == RelayModel.Run(old(relaySet.View()), Expel(url, now))
    {
      ghost var t := relaySet.View();
      relaySet.BanUrl(url, now);
      relaySet.RemoveBootstrapUrl(url, now);
      RelayModel.RunTwo(t, Expel(url, now)[0], Expel(url, now)[1]);
    }

    // ---------- Whole calls, when no other change comes in between ----------

    /** `portillia_exposure_add_relay`, before it reconciles. */
    method AddRelay(url: string, now: int) returns (ok: bool)
      modifies this`explicits, this`seeds, relaySet
      ensures ok == !cancelled
      ensures View() == if ok then Exec(old(View()), Add(url), now) else old(View())
    {
      if cancelled {
        return false;
      }
      AddToLists(url);
      EnrollOne(url, now);
      return true;
    }

    /** `portillia_exposure_remove_relay`, before it reconciles. */
    method RemoveRelay(url: string, now: int) returns (ok: bool)
      modifies this`explicits, this`seeds, this`multiHop, this`depth, relaySet
      ensures ok == !cancelled
      ensures View() == if ok then Exec(old(View()), Remove(url), now) else old(View())
    {
      if cancelled {
        return false;
      }
      RemoveFromLists(url);
      ExpelOne(url, now);
      return true;
    }

    /** `portillia_exposure_seed_relay`, before it reconciles. */
    method SeedRelay(url: string, now: int) returns (ok: bool)
      modifies this`explicits, this`seeds, this`multiHop, this`depth, relaySet
      ensures ok == !cancelled
      ensures View() == if ok then Exec(old(View()), Seed(url), now) else old(View())
    {
      if cancelled {
        return false;
      }
      SeedInLists(url);
      EnrollOne(url, now);
      return true;
    }

    /** `portillia_exposure_set_multi_hop`, before it reconciles. */
    method SetMultiHop(urls: seq<string>, now: int) returns (ok: bool)
      modifies this`seeds, this`multiHop, this`depth, relaySet
      ensures ok == (!cancelled && !PathRefused(old(ListsNow()), urls, config.udp || config.tcp))
      ensures View() ==
        if ok then Exec(old(View()), Change.SetMultiHop(urls, config.udp || config.tcp), now) else old(View())
    {
      if cancelled || |urls| == 1 {
        return false;
      }
      if (|urls| > 0 || depth > 1) && (config.udp || config.tcp) {
        return false;
      }
      PathInLists(urls);
      EnrollAll(urls, now);
      return true;
    }
  }
}
