/** How long a registered hop chain leads to its exit: the token chain followed through the hop
    registries of the relays, whose routes expire. */
module HopLifetime {
  import opened Wrappers
  import opened HopChain
  import LeaseModel
  import LeaseRuns
  import LeaseRegistries

  /** What has happened at the registry of each relay, by relay URL. */
  type Network = string -> seq<LeaseModel.Event>

  /** The relay behind an overlay address. */
  type Overlay = string -> string

  /** Where `relay` forwards a connection with `token`, looking the token up at its own clock. */
  function NextHop(net: Network, overlay: Overlay, clock: string -> int, relay: string, token: string)
    : Option<(string, string)>
  {
    match LeaseRegistries.LookupHop(LeaseModel.Run(net(relay)), token, clock(relay))
    case None => None
    case Some(r) =>
      if r.hopNextIpv4.Some? && r.hopNextToken.Some?
      then Some((overlay(r.hopNextIpv4.value), r.hopNextToken.value))
      else None
  }

  /** Where a connection with `token` at `relay` is after `hops` more forwards. */
  function Walk(net: Network, overlay: Overlay, clock: string -> int, relay: string, token: string, hops: nat)
    : Option<(string, string)>
    decreases hops
  {
    if hops == 0 then Some((relay, token)) else
    match NextHop(net, overlay, clock, relay, token)
    case None => None
    case Some((nextRelay, nextToken)) => Walk(net, overlay, clock, nextRelay, nextToken, hops - 1)
  }

  // ---------- Where a hop record leads ----------

  /** Every registration of `token` forwards to the same place. */
  ghost predicate Consistent(es: seq<LeaseModel.Event>, token: string, ip: string, next: string)
  {
    forall k :: 0 <= k < |es| && es[k].op.RegisterHop? && es[k].op.token == token ==>
      es[k].op.nextIpv4 == ip && es[k].op.nextToken == next
  }

  predicate LeadsTo(r: LeaseModel.LeaseRecord, token: string, ip: string, next: string)
  {
    r.hopToken == Some(token) ==> r.hopNextIpv4 == Some(ip) && r.hopNextToken == Some(next)
  }

  ghost predicate AllLeadTo(rs: seq<LeaseModel.LeaseRecord>, token: string, ip: string, next: string)
  {
    forall r :: r in rs ==> LeadsTo(r, token, ip, next)
  }

  lemma UpsertKeepsLead(rs: seq<LeaseModel.LeaseRecord>, op: LeaseModel.Op, now: int,
                        token: string, ip: string, next: string)
    requires AllLeadTo(rs, token, ip, next) && (op.Register? || op.RegisterHop?)
    requires op.RegisterHop? && op.token == token ==> op.nextIpv4 == ip && op.nextToken == next
    ensures AllLeadTo(LeaseModel.Upserted(rs, op, now), token, ip, next)
  {
    var i := LeaseModel.First(rs, LeaseModel.WithKey(LeaseModel.KeyOf(op)));
    if i < |rs| {
      assert rs[i] in rs;
      assert LeadsTo(LeaseModel.Refreshed(rs[i], op, now), token, ip, next);
    } else {
      assert LeadsTo(LeaseModel.NewRecord(op, now), token, ip, next);
    }
  }

  lemma ExecKeepsLead(rs: seq<LeaseModel.LeaseRecord>, e: LeaseModel.Event, token: string, ip: string, next: string)
    requires AllLeadTo(rs, token, ip, next)
    requires e.op.RegisterHop? && e.op.token == token ==> e.op.nextIpv4 == ip && e.op.nextToken == next
    ensures AllLeadTo(LeaseModel.Exec(rs, e), token, ip, next)
  {
    match e.op {
      case Register(_, _, _, _, _, _, _) => UpsertKeepsLead(rs, e.op, e.now, token, ip, next);
      case RegisterHop(_, _, _, _) => UpsertKeepsLead(rs, e.op, e.now, token, ip, next);
      case UpdateBps(key, bps) =>
        var i := LeaseModel.First(rs, (r: LeaseModel.LeaseRecord) => r.identityKey == key);
        if i < |rs| {
          assert rs[i] in rs;
          assert LeadsTo(rs[i].(bpsLimit := bps), token, ip, next);
        }
      case Sweep =>
        forall r | r in LeaseModel.Exec(rs, e)
          ensures r in rs
        {
          LeaseModel.SweptMembers(rs, e.now, r);
        }
    }
  }

  /** In every run, a record for `token` forwards to where its registrations say. */
  lemma {:induction false} RunLeads(es: seq<LeaseModel.Event>, token: string, ip: string, next: string)
    requires Consistent(es, token, ip, next)
    ensures AllLeadTo(LeaseModel.Run(es), token, ip, next)
  {
    if es != [] {
      RunLeads(es[..|es| - 1], token, ip, next);
      ExecKeepsLead(LeaseModel.Run(es[..|es| - 1]), es[|es| - 1], token, ip, next);
    }
  }

  // ---------- Chains over time ----------

  /** A path through the relays, with the token of each hop. */
  datatype Path = Path(urls: seq<string>, mac: TokenMac, norm: string -> string, address: string -> string)

  predicate PathOk(p: Path, overlay: Overlay)
  {
    |p.urls| >= 2 && forall j :: 0 <= j < |p.urls| ==> overlay(p.address(p.urls[j])) == p.norm(p.urls[j])
  }

  function RelayOf(p: Path, j: nat): string
    requires j < |p.urls|
  {
    p.norm(p.urls[j])
  }

  /** The token under which hop `j - 1` forwards to relay `j`. */
  function TokenTo(p: Path, j: nat): string
    requires 0 < j < |p.urls|
  {
    Token(p.mac, p.urls, j - 1)
  }

  /** At relay `j` the token is registered for the next hop only, and the history lies in the past. */
  ghost predicate SiteOk(p: Path, net: Network, clock: string -> int, j: nat)
    requires 0 < j && j + 1 < |p.urls|
  {
    var es := net(RelayOf(p, j));
    && LeaseModel.WellClocked(es) && LeaseModel.LastNow(es) <= clock(RelayOf(p, j))
    && Consistent(es, TokenTo(p, j), p.address(p.urls[j + 1]), TokenTo(p, j + 1))
  }

  ghost predicate SitesOk(p: Path, net: Network, clock: string -> int)
  {
    forall j :: 0 < j && j + 1 < |p.urls| ==> SiteOk(p, net, clock, j)
  }

  /** The route of relay `j` was registered less than 300 seconds ago. */
  predicate RouteAlive(p: Path, net: Network, clock: string -> int, j: nat)
    requires 0 < j < |p.urls|
  {
    var granted := LeaseRuns.LastGrant(net(RelayOf(p, j)), LeaseModel.Hop(TokenTo(p, j)));
    granted.Some? && clock(RelayOf(p, j)) < granted.value + 300
  }

  ghost predicate AllAlive(p: Path, net: Network, clock: string -> int, i: nat)
  {
    forall j :: 0 < i <= j && j + 1 < |p.urls| ==> RouteAlive(p, net, clock, j)
  }

  /** One forward succeeds exactly while the route of that relay is alive. */
  lemma OneForward(p: Path, net: Network, overlay: Overlay, clock: string -> int, j: nat)
    requires PathOk(p, overlay) && 0 < j && j + 1 < |p.urls| && SiteOk(p, net, clock, j)
    ensures NextHop(net, overlay, clock, RelayOf(p, j), TokenTo(p, j)) ==
            if RouteAlive(p, net, clock, j) then Some((RelayOf(p, j + 1), TokenTo(p, j + 1))) else None
  {
    var relay, token := RelayOf(p, j), TokenTo(p, j);
    var es := net(relay);
    LeaseRegistries.HopLookupInRuns(es, token, clock(relay));
    RunLeads(es, token, p.address(p.urls[j + 1]), TokenTo(p, j + 1));
    LeaseRegistries.FirstLiveMeaning(LeaseModel.Run(es), clock(relay), LeaseModel.WithKey(LeaseModel.Hop(token)));
  }

  /** From relay `i` on, a connection reaches the exit relay with the exit token exactly while every
      route it meets was registered less than 300 seconds ago; otherwise it is dropped. */
  lemma {:induction false} ChainWhileAlive(p: Path, net: Network, overlay: Overlay, clock: string -> int, i: nat)
    requires PathOk(p, overlay) && SitesOk(p, net, clock) && 0 < i < |p.urls|
    ensures Walk(net, overlay, clock, RelayOf(p, i), TokenTo(p, i), |p.urls| - 1 - i) ==
            if AllAlive(p, net, clock, i) then Some((RelayOf(p, |p.urls| - 1), TokenTo(p, |p.urls| - 1))) else None
    decreases |p.urls| - i
  {
    if i + 1 < |p.urls| {
      OneForward(p, net, overlay, clock, i);
      ChainWhileAlive(p, net, overlay, clock, i + 1);
      AliveFrom(p, net, clock, i);
    }
  }

  lemma AliveFrom(p: Path, net: Network, clock: string -> int, i: nat)
    requires 0 < i && i + 1 < |p.urls|
    ensures AllAlive(p, net, clock, i) <==> RouteAlive(p, net, clock, i) && AllAlive(p, net, clock, i + 1)
  {
  }

  /** The routes were last registered from the exit side to the entry side, as POST sends them; `at[j]`
      is when relay `j` took its route. */
  ghost predicate PostedExitFirst(p: Path, net: Network, at: seq<int>)
  {
    && |at| + 1 == |p.urls|
    && (forall j :: 0 < j < |at| ==>
          LeaseRuns.LastGrant(net(RelayOf(p, j)), LeaseModel.Hop(TokenTo(p, j))) == Some(at[j]))
    && (forall j, k :: 0 <= j <= k < |at| ==> at[k] <= at[j])
  }

  /** After a POST the chain leads to the exit until 300 seconds after the exit-side route was taken,
      however recently the entry side was. */
  lemma ChainLifetime(p: Path, net: Network, overlay: Overlay, clock: string -> int, now: int, at: seq<int>, i: nat)
    requires PathOk(p, overlay) && SitesOk(p, net, clock) && (forall u :: clock(u) == now)
    requires PostedExitFirst(p, net, at) && 0 < i < |at|
    ensures Walk(net, overlay, clock, RelayOf(p, i), TokenTo(p, i), |p.urls| - 1 - i) ==
            if now < at[|at| - 1] + 300 then Some((RelayOf(p, |at|), TokenTo(p, |at|))) else None
  {
    ChainWhileAlive(p, net, overlay, clock, i);
    var last := |at| - 1;
    assert RouteAlive(p, net, clock, last) <==> now < at[last] + 300;
    if now < at[last] + 300 {
      forall j | i <= j && j + 1 < |p.urls|
        ensures RouteAlive(p, net, clock, j)
      {
        assert at[last] <= at[j];
      }
    }
  }

  // ---------- What a relay stores ----------

  /** The registry has a record for the key already, or a free slot. */
  predicate HasRoom(rs: seq<LeaseModel.LeaseRecord>, key: string)
  {
    (exists r :: r in rs && LeaseModel.HasKey(r, LeaseModel.Hop(key))) || |rs| < 1024
  }

  /** A registry with room stores or renews the route; one without stays as it is, though the relay
      answers alike. */
  lemma StoredWithRoom(rs: seq<LeaseModel.LeaseRecord>, now: int,
                       key: string, ip: string, next: string, identity: string)
    requires LeaseRuns.Inv(rs)
    ensures var e := LeaseModel.Event(now, LeaseModel.RegisterHop(key, ip, next, identity));
            var after := LeaseModel.Exec(rs, e);
            && (LeaseRuns.Grants(rs, e, LeaseModel.Hop(key)) <==> HasRoom(rs, key))
            && (HasRoom(rs, key) ==> exists r :: r in after && LeaseModel.HasKey(r, LeaseModel.Hop(key))
                                       && r.expiresAt == now + 300)
            && (!HasRoom(rs, key) ==>
                  after == rs && !exists r :: r in after && LeaseModel.HasKey(r, LeaseModel.Hop(key)))
  {
    var k, e := LeaseModel.Hop(key), LeaseModel.Event(now, LeaseModel.RegisterHop(key, ip, next, identity));
    RoomIsGrant(rs, e, key);
    if HasRoom(rs, key) {
      LeaseRuns.GrantSetsExpiry(rs, e, k);
      var r :| r in LeaseModel.Exec(rs, e) && LeaseModel.HasKey(r, k);
      assert r.expiresAt == now + 300;
    }
  }

  lemma RoomIsGrant(rs: seq<LeaseModel.LeaseRecord>, e: LeaseModel.Event, key: string)
    requires e.op.RegisterHop? && e.op.token == key
    ensures LeaseRuns.Grants(rs, e, LeaseModel.Hop(key)) <==> HasRoom(rs, key)
  {
    var p := LeaseModel.WithKey(LeaseModel.Hop(key));
    var i := LeaseModel.First(rs, p);
    if i < |rs| {
      assert rs[i] in rs && p(rs[i]);
    } else {
      forall r | r in rs
        ensures !LeaseModel.HasKey(r, LeaseModel.Hop(key))
      {
        var j :| 0 <= j < |rs| && rs[j] == r;
        assert !p(rs[j]);
      }
    }
  }

  /** A request for one route: whether it could be signed, reaches the registry of its relay, and is answered. */
  datatype Request = Request(signed: bool, reaches: bool, answered: bool)

  /** The registry that a request meets, and the key it registers. */
  datatype Site = Site(records: seq<LeaseModel.LeaseRecord>, key: string)

  predicate Roomy(s: Site) { HasRoom(s.records, s.key) }

  /** What becomes of a request: it is taken if it reaches a registry with room. */
  function AttemptAt(q: Request, s: Site): Attempt { Attempt(q.signed, q.answered, q.reaches && Roomy(s)) }

  function Attempts(qs: seq<Request>, sites: seq<Site>): (attempts: seq<Attempt>)
    requires |qs| == |sites|
    ensures |attempts| == |qs| && forall i :: 0 <= i < |qs| ==> attempts[i] == AttemptAt(qs[i], sites[i])
  {
    seq(|qs|, i requires 0 <= i < |qs| => AttemptAt(qs[i], sites[i]))
  }

  /** If no relay of the path is full, registering leaves a suffix whatever is lost on the way, and a
      success means that every route is registered. */
  lemma RoomSuffices(qs: seq<Request>, sites: seq<Site>, registered: set<nat>)
    requires |qs| == |sites| && SuffixClosed(registered, |qs|)
    requires forall i :: 0 <= i < |qs| ==> Roomy(sites[i]) && (qs[i].answered ==> qs[i].reaches)
    ensures SuffixClosed(Posted(registered, Attempts(qs, sites)), |qs|)
    ensures (forall i :: 0 <= i < |qs| ==> qs[i].signed && qs[i].answered) ==>
            forall i :: 0 <= i < |qs| ==> i in Posted(registered, Attempts(qs, sites))
  {
    HonestRelaysSuffice(registered, Attempts(qs, sites));
  }

  /** If every request is answered by the registry it reaches, registering leaves a suffix exactly when no
      full relay without the route stands behind one with room. */
  lemma FullRelaysBreak(qs: seq<Request>, sites: seq<Site>, registered: set<nat>)
    requires |qs| == |sites| && SuffixClosed(registered, |qs|)
    requires forall i :: 0 <= i < |qs| ==> qs[i] == Request(true, true, true)
    ensures SuffixClosed(Posted(registered, Attempts(qs, sites)), |qs|) <==>
            !exists i, j :: 0 <= i < j < |qs| && Roomy(sites[i]) && j !in registered && !Roomy(sites[j])
  {
    var attempts := Attempts(qs, sites);
    PostLeavesSuffix(registered, attempts);
    forall i, j | 0 <= i < j < |qs|
      ensures (Sent(attempts, i) && attempts[i].taken && j !in registered && !attempts[j].taken) <==>
              (Roomy(sites[i]) && j !in registered && !Roomy(sites[j]))
    {
      assert Sent(attempts, i);
    }
  }
}
