/** Multi-hop routes: building the token chain, registering it hop by hop, and following it. */
module HopChain {
  import opened Wrappers

  datatype HopRoute = HopRoute(relayUrl: string, publicHostname: Option<string>, matchToken: Option<string>,
                               forwardRelay: string, forwardToken: string)

  /** The keyed hash over hop index and both relay URLs, encoded as text. */
  type TokenMac = (nat, string, string) -> string

  function Token(mac: TokenMac, path: seq<string>, i: nat): string
    requires i + 1 < |path|
  {
    "hpt_" + mac(i, path[i], path[i + 1])
  }

  /** Route i of the chain: it sits on relay i, forwards to relay i + 1, and matches the token of hop i - 1. */
  function RouteOf(path: seq<string>, host: string, mac: TokenMac, norm: string -> string, i: nat): HopRoute
    requires i + 1 < |path|
  {
    HopRoute(norm(path[i]), if i == 0 then Some(host) else None, if i == 0 then None else Some(Token(mac, path, i - 1)),
             path[i + 1], Token(mac, path, i))
  }

  ghost predicate IsChain(routes: seq<HopRoute>, path: seq<string>, host: string, mac: TokenMac, norm: string -> string)
  {
    |routes| + 1 == |path| && |path| >= 2
    && forall i :: 0 <= i < |routes| ==> routes[i] == RouteOf(path, host, mac, norm, i)
  }

  /** Each route matches the token under which the previous one forwards, on the relay it forwards to. */
  ghost predicate Linked(routes: seq<HopRoute>, norm: string -> string)
  {
    forall i :: 0 < i < |routes| ==>
      routes[i].matchToken == Some(routes[i - 1].forwardToken) && routes[i].relayUrl == norm(routes[i - 1].forwardRelay)
  }

  /** The routes field by field: route i sits on relay i and forwards to relay i + 1 under the token of that hop; the
      first one serves the public hostname, every other one the token of the hop before it. */
  ghost predicate Spelled(routes: seq<HopRoute>, path: seq<string>, host: string, mac: TokenMac, norm: string -> string)
  {
    && |routes| + 1 == |path|
    && forall i :: 0 <= i < |routes| ==>
         && routes[i].relayUrl == norm(path[i]) && routes[i].forwardRelay == path[i + 1]
         && routes[i].forwardToken == "hpt_" + mac(i, path[i], path[i + 1])
         && routes[i].publicHostname == (if i == 0 then Some(host) else None)
         && routes[i].matchToken == if i == 0 then None else Some("hpt_" + mac(i - 1, path[i - 1], path[i]))
  }

  /** The path as the relay set describes it: the URL in the descriptor of each relay, if all are known. */
  function Resolved(hops: seq<string>, resolve: string -> Option<string>): (r: Option<seq<string>>)
    ensures r.Some? ==> |r.value| == |hops|
  {
    if hops == [] then Some([]) else
    match (Resolved(hops[..|hops| - 1], resolve), resolve(hops[|hops| - 1]))
    case (Some(front), Some(u)) => Some(front + [u])
    case _ => None
  }

  lemma {:induction false} ResolvedMeaning(hops: seq<string>, resolve: string -> Option<string>)
    ensures Resolved(hops, resolve).Some? <==> forall i :: 0 <= i < |hops| ==> resolve(hops[i]).Some?
    ensures Resolved(hops, resolve).Some? ==>
              var path := Resolved(hops, resolve).value;
              forall i :: 0 <= i < |hops| ==> resolve(hops[i]) == Some(path[i])
  {
    if hops != [] {
      ResolvedMeaning(hops[..|hops| - 1], resolve);
    }
  }

  method ResolvePath(hops: seq<string>, resolve: string -> Option<string>) returns (path: Option<seq<string>>)
    ensures path == Resolved(hops, resolve)
  {
    var known: seq<string> := [];
    for i := 0 to |hops|
      invariant Resolved(hops[..i], resolve) == Some(known)
    {
      assert hops[..i + 1][..i] == hops[..i];
      var u := resolve(hops[i]);
      if u.None? {
        ResolvedMeaning(hops, resolve);
        return None;
      }
      known := known + [u.value];
    }
    assert hops[..|hops|] == hops;
    return Some(known);
  }

  /** The hop-chain part of `portillia_api_register_lease`: the path needs two relays or more, a
      descriptor for each, an entry URL that can be normalised and a public hostname.  An empty
      normal form stands for a URL that has none. */
  method BuildChain(hops: seq<string>, resolve: string -> Option<string>, host: Option<string>, mac: TokenMac,
                    norm: string -> string)
    returns (chain: Option<(seq<HopRoute>, string)>)
    ensures chain.None? <==>
      |hops| < 2 || Resolved(hops, resolve).None? || norm(Resolved(hops, resolve).value[0]) == "" || host.None?
    ensures chain.Some? ==>
              && IsChain(chain.value.0, Resolved(hops, resolve).value, host.value, mac, norm)
              && Linked(chain.value.0, norm)
              && Spelled(chain.value.0, Resolved(hops, resolve).value, host.value, mac, norm)
              && chain.value.1 == chain.value.0[|hops| - 2].forwardToken
  {
    if |hops| < 2 {
      return None;
    }
    var resolved := ResolvePath(hops, resolve);
    ResolvedMeaning(hops, resolve);
    if resolved.None? || norm(resolved.value[0]) == "" || host.None? {
      return None;
    }
    var routes, exitToken := FillRoutes(resolved.value, host.value, mac, norm);
    ChainIsLinked(routes, resolved.value, host.value, mac, norm);
    ChainIsSpelled(routes, resolved.value, host.value, mac, norm);
    return Some((routes, exitToken));
  }

  method FillRoutes(path: seq<string>, host: string, mac: TokenMac, norm: string -> string)
    returns (routes: seq<HopRoute>, exitToken: string)
    requires |path| >= 2
    ensures IsChain(routes, path, host, mac, norm)
    ensures exitToken == routes[|path| - 2].forwardToken
  {
    routes := [];
    var previous: Option<string> := None;
    for i := 0 to |path| - 1
      invariant |routes| == i
      invariant forall j :: 0 <= j < i ==> routes[j] == RouteOf(path, host, mac, norm, j)
      invariant previous == if i == 0 then None else Some(Token(mac, path, i - 1))
    {
      var forward := "hpt_" + mac(i, path[i], path[i + 1]);
      routes := routes + [HopRoute(norm(path[i]), if i == 0 then Some(host) else None, previous, path[i + 1], forward)];
      previous := Some(forward);
    }
    exitToken := previous.value;
  }

  lemma ChainIsSpelled(routes: seq<HopRoute>, path: seq<string>, host: string, mac: TokenMac, norm: string -> string)
    requires IsChain(routes, path, host, mac, norm)
    ensures Spelled(routes, path, host, mac, norm)
  {
  }

  lemma ChainIsLinked(routes: seq<HopRoute>, path: seq<string>, host: string, mac: TokenMac, norm: string -> string)
    requires IsChain(routes, path, host, mac, norm)
    ensures Linked(routes, norm)
  {
    forall i | 0 < i < |routes|
      ensures routes[i].matchToken == Some(routes[i - 1].forwardToken)
      ensures routes[i].relayUrl == norm(routes[i - 1].forwardRelay)
    {
      assert routes[i] == RouteOf(path, host, mac, norm, i) && routes[i - 1] == RouteOf(path, host, mac, norm, i - 1);
    }
  }

  // ---------- Registration ----------

  /** Every registered route's successors are registered too, so nothing dangles. */
  ghost predicate SuffixClosed(registered: set<nat>, n: nat)
  {
    forall i, j :: i in registered && i <= j < n ==> j in registered
  }

  /** What happens to the request for one route.  A relay may take it though the answer is lost, and
      may answer it without taking it. */
  datatype Attempt = Attempt(signed: bool, answered: bool, taken: bool)

  /** The request for route `i` goes out: it is signed, and so is everything nearer the exit, and answered. */
  predicate Sent(attempts: seq<Attempt>, i: nat)
  {
    && i < |attempts| && attempts[i].signed
    && forall j :: i < j < |attempts| ==> attempts[j].signed && attempts[j].answered
  }

  /** What registering makes of the registered routes: those whose requests went out and were taken are added. */
  function Posted(registered: set<nat>, attempts: seq<Attempt>): set<nat>
  {
    registered + set i | 0 <= i < |attempts| && Sent(attempts, i) && attempts[i].taken
  }

  /** `portillia_api_sync_hop_routes` with POST: exit side first, stopping at the first failure.
      `known` says which forward relays still have a descriptor. */
  method PostRoutes(n: nat, known: seq<bool>, attempts: seq<Attempt>, registered: set<nat>)
    returns (rc: int, after: set<nat>, sent: seq<nat>)
    requires |known| == |attempts| == n
    ensures |sent| <= n && forall k :: 0 <= k < |sent| ==> sent[k] == n - 1 - k
    ensures if forall i :: 0 <= i < n ==> known[i]
            then after == Posted(registered, attempts) && forall i :: i in sent <==> Sent(attempts, i)
            else rc == -1 && after == registered && sent == []
    ensures forall i :: 0 <= i < n && (forall j :: 0 <= j < n ==> known[j]) ==>
              (i in after <==>
                 i in registered || (attempts[i].taken && attempts[i].signed
                                     && forall j :: i < j < n ==> attempts[j].signed && attempts[j].answered))
    ensures rc == 0 <==> forall i :: 0 <= i < n ==> known[i] && attempts[i].signed && attempts[i].answered
  {
    after, sent := registered, [];
    for i := 0 to n
      invariant forall j :: n - i <= j < n ==> known[j]
    {
      if !known[n - 1 - i] {
        return -1, after, sent;
      }
    }
    rc, after, sent := SendRoutes(n, attempts, registered);
  }

  /** The sending loop. */
  method SendRoutes(n: nat, attempts: seq<Attempt>, registered: set<nat>)
    returns (rc: int, after: set<nat>, sent: seq<nat>)
    requires |attempts| == n
    ensures |sent| <= n && forall k :: 0 <= k < |sent| ==> sent[k] == n - 1 - k
    ensures after == Posted(registered, attempts) && forall i :: i in sent <==> Sent(attempts, i)
    ensures rc == 0 || rc == -1
    ensures rc == 0 <==> forall i :: 0 <= i < n ==> attempts[i].signed && attempts[i].answered
  {
    after, sent := registered, [];
    for i := 0 to n
      invariant |sent| == i && forall k :: 0 <= k < i ==> sent[k] == n - 1 - k
      invariant forall j :: j in after <==> j in registered || (n - i <= j < n && attempts[j].taken)
      invariant forall j :: n - i <= j < n ==> attempts[j].signed && attempts[j].answered
    {
      var j := n - 1 - i;
      if !attempts[j].signed {
        SentFrom(attempts, sent, n - i);
        return -1, after, sent;
      }
      sent := sent + [j];
      if attempts[j].taken {
        after := after + {j};
      }
      if !attempts[j].answered {
        SentFrom(attempts, sent, j);
        return -1, after, sent;
      }
    }
    SentFrom(attempts, sent, 0);
    return 0, after, sent;
  }

  /** What went out when the loop stopped with the routes from `m` on sent. */
  lemma SentFrom(attempts: seq<Attempt>, sent: seq<nat>, m: nat)
    requires m <= |attempts| && |sent| == |attempts| - m
    requires forall k :: 0 <= k < |sent| ==> sent[k] == |attempts| - 1 - k
    requires forall j :: m <= j < |attempts| ==> attempts[j].signed && (j > m ==> attempts[j].answered)
    requires m > 0 && m < |attempts| && attempts[m].answered ==> !attempts[m - 1].signed
    requires m > 0 && m == |attempts| ==> !attempts[m - 1].signed
    ensures forall i :: i in sent <==> Sent(attempts, i)
    ensures forall i: nat :: Sent(attempts, i) <==> m <= i < |attempts|
  {
    forall i: nat
      ensures i in sent <==> m <= i < |attempts|
    {
      if m <= i < |attempts| {
        assert sent[|attempts| - 1 - i] == i;
      }
    }
    forall i: nat
      ensures Sent(attempts, i) <==> m <= i < |attempts|
    {
      if i + 1 == m {
        assert m == |attempts| || !attempts[m].answered || !attempts[i].signed;
      } else if i + 1 < m {
        assert !attempts[m - 1].signed || !attempts[m].answered;
      }
    }
  }

  /** A route is taken while one nearer the exit is neither registered nor taken. */
  ghost predicate TakenBeforeMissing(registered: set<nat>, attempts: seq<Attempt>)
  {
    exists i, j :: 0 <= i < j < |attempts|
      && Sent(attempts, i) && attempts[i].taken && j !in registered && !attempts[j].taken
  }

  /** Whatever suffix of a chain is registered, registering the chain leaves a registered suffix again
      exactly unless a route is taken while one nearer the exit is answered but not stored. */
  lemma PostLeavesSuffix(registered: set<nat>, attempts: seq<Attempt>)
    requires SuffixClosed(registered, |attempts|)
    ensures SuffixClosed(Posted(registered, attempts), |attempts|) <==> !TakenBeforeMissing(registered, attempts)
  {
    var after, n := Posted(registered, attempts), |attempts|;
    if TakenBeforeMissing(registered, attempts) {
      var i, j :| 0 <= i < j < n && Sent(attempts, i) && attempts[i].taken && j !in registered && !attempts[j].taken;
      assert i in after && j !in after;
    } else {
      forall i, j | i in after && i <= j < n
        ensures j in after
      {
        if i !in registered && i < j {
          assert Sent(attempts, j);
        }
      }
    }
  }

  /** With relays that store what they answer, registering always leaves a suffix, and a success means
      that the whole chain is registered. */
  lemma HonestRelaysSuffice(registered: set<nat>, attempts: seq<Attempt>)
    requires SuffixClosed(registered, |attempts|)
    requires forall i :: 0 <= i < |attempts| && attempts[i].answered ==> attempts[i].taken || i in registered
    ensures SuffixClosed(Posted(registered, attempts), |attempts|)
    ensures (forall i :: 0 <= i < |attempts| ==> attempts[i].signed && attempts[i].answered) ==>
            forall i :: 0 <= i < |attempts| ==> i in Posted(registered, attempts)
  {
    PostLeavesSuffix(registered, attempts);
    forall i, j | 0 <= i < j < |attempts| && Sent(attempts, i)
      ensures attempts[j].taken || j in registered
    {
      assert attempts[j].answered;
    }
  }

  /** Without that a success can leave a dangling route: the middle one of three is answered but not stored. */
  lemma PostCanDangle()
    ensures var attempts := [Attempt(true, true, true), Attempt(true, true, false), Attempt(true, true, true)];
            Posted({}, attempts) == {0, 2} && !SuffixClosed(Posted({}, attempts), 3)
  {
    var attempts := [Attempt(true, true, true), Attempt(true, true, false), Attempt(true, true, true)];
    assert Sent(attempts, 0) && Sent(attempts, 2);
    assert attempts[0].taken && !attempts[1].taken && attempts[2].taken;
    var after := Posted({}, attempts);
    assert 0 in after && 1 !in after && 2 in after;
  }

  /** What withdrawing leaves of the registered routes: all but those whose requests got through. */
  function Deleted(registered: set<nat>, attempts: seq<Attempt>): set<nat>
  {
    set i | i in registered && !(i < |attempts| && attempts[i].taken)
  }

  /** The same with DELETE: entry side first, going on past failures. */
  method DeleteRoutes(n: nat, attempts: seq<Attempt>, registered: set<nat>) returns (rc: int, after: set<nat>)
    requires |attempts| == n
    ensures after == Deleted(registered, attempts)
    ensures forall i :: i in after <==> i in registered && (i < n ==> !attempts[i].taken)
    ensures rc == 0 <==> forall i :: 0 <= i < n ==> attempts[i].answered
  {
    after, rc := registered, 0;
    for i := 0 to n
      invariant forall j :: j in after <==> j in registered && !(j < i && attempts[j].taken)
      invariant rc == 0 <==> forall j :: 0 <= j < i ==> attempts[j].answered
    {
      if attempts[i].taken {
        after := after - {i};
      }
      if !attempts[i].answered {
        rc := -1;
      }
    }
  }

  /** The request for a registered route is lost while one for a route nearer the exit gets through. */
  ghost predicate LostBeforeTaken(registered: set<nat>, attempts: seq<Attempt>)
  {
    exists i, j :: 0 <= i < j < |attempts| && i in registered && !attempts[i].taken && attempts[j].taken
  }

  /** Whatever suffix of a chain is registered, withdrawing it leaves a dangling route exactly when the
      request for a registered route is lost and one for a later route gets through. */
  lemma DeleteLeavesSuffix(registered: set<nat>, attempts: seq<Attempt>)
    requires SuffixClosed(registered, |attempts|)
    ensures SuffixClosed(Deleted(registered, attempts), |attempts|) <==> !LostBeforeTaken(registered, attempts)
  {
    var after, n := Deleted(registered, attempts), |attempts|;
    if LostBeforeTaken(registered, attempts) {
      var i, j :| 0 <= i < j < n && i in registered && !attempts[i].taken && attempts[j].taken;
      assert i in after && j !in after;
    } else {
      forall i, j | i in after && i <= j < n
        ensures j in after
      {
        assert i in registered && j in registered;
        assert i < n && !attempts[i].taken;
      }
    }
  }

  /** One lost request at the entry is enough: of two registered routes the first stays alone. */
  lemma DeleteCanDangle()
    ensures var attempts := [Attempt(true, false, false), Attempt(true, true, true)];
            SuffixClosed({0, 1}, 2) && !SuffixClosed(Deleted({0, 1}, attempts), 2)
  {
    var attempts := [Attempt(true, false, false), Attempt(true, true, true)];
    assert !attempts[0].taken && attempts[1].taken;
    var both: set<nat> := {0, 1};
    assert 0 in both && SuffixClosed(both, 2);
    assert LostBeforeTaken(both, attempts);
    DeleteLeavesSuffix(both, attempts);
  }

  // ---------- Following the chain ----------

  /** The registered route that relay `relay` has for `token`. */
  ghost function RouteAt(routes: seq<HopRoute>, registered: set<nat>, relay: string, token: string): Option<nat>
  {
    if exists i :: Serves(routes, registered, relay, token, i)
    then var i :| Serves(routes, registered, relay, token, i); Some(i) else None
  }

  predicate Serves(routes: seq<HopRoute>, registered: set<nat>, relay: string, token: string, i: nat)
  {
    i in registered && i < |routes| && routes[i].relayUrl == relay && routes[i].matchToken == Some(token)
  }

  /** Where a connection with `token` at `relay` is after `hops` more forwards. */
  ghost function Follow(routes: seq<HopRoute>, registered: set<nat>, norm: string -> string,
                        relay: string, token: string, hops: nat): Option<(string, string)>
    decreases hops
  {
    if hops == 0 then Some((relay, token)) else
    match RouteAt(routes, registered, relay, token)
    case None => None
    case Some(i) =>
      if i < |routes|
      then Follow(routes, registered, norm, norm(routes[i].forwardRelay), routes[i].forwardToken, hops - 1)
      else None
  }

  /** No two hops of the path share a token. */
  ghost predicate DistinctTokens(mac: TokenMac, path: seq<string>)
  {
    forall i, j :: 0 <= i < j < |path| - 1 ==> Token(mac, path, i) != Token(mac, path, j)
  }

  ghost predicate InjectiveMac(mac: TokenMac)
  {
    forall i, a, b, j, c, d :: mac(i, a, b) == mac(j, c, d) ==> i == j && a == c && b == d
  }

  /** A keyed hash without collisions gives every hop its own token, even on a path that visits a relay twice. */
  lemma InjectiveMacSuffices(mac: TokenMac, path: seq<string>)
    requires InjectiveMac(mac)
    ensures DistinctTokens(mac, path)
  {
    forall i, j | 0 <= i < j < |path| - 1
      ensures Token(mac, path, i) != Token(mac, path, j)
    {
      assert Token(mac, path, i)[4..] == mac(i, path[i], path[i + 1]);
      assert Token(mac, path, j)[4..] == mac(j, path[j], path[j + 1]);
    }
  }

  lemma OnlyRoute(routes: seq<HopRoute>, path: seq<string>, host: string, mac: TokenMac, norm: string -> string,
                  registered: set<nat>, i: nat)
    requires IsChain(routes, path, host, mac, norm) && DistinctTokens(mac, path)
    requires 0 < i < |routes| && i in registered
    ensures RouteAt(routes, registered, norm(path[i]), Token(mac, path, i - 1)) == Some(i)
  {
    var relay, token := norm(path[i]), Token(mac, path, i - 1);
    assert Serves(routes, registered, relay, token, i);
    forall j: nat | Serves(routes, registered, relay, token, j)
      ensures j == i
    {
      assert Token(mac, path, j - 1) == Token(mac, path, i - 1);
    }
  }

  /** With tokens that do not collide, a registered route leads all the way: the connection
      arrives at the exit relay, carrying the exit token. */
  lemma {:induction false} ChainLeadsToExit(routes: seq<HopRoute>, path: seq<string>, host: string, mac: TokenMac,
                                            norm: string -> string, registered: set<nat>, i: nat)
    requires IsChain(routes, path, host, mac, norm) && DistinctTokens(mac, path)
    requires SuffixClosed(registered, |routes|) && 0 < i <= |routes| && (i < |routes| ==> i in registered)
    ensures Follow(routes, registered, norm, norm(path[i]), Token(mac, path, i - 1), |routes| - i) ==
            Some((norm(path[|path| - 1]), Token(mac, path, |path| - 2)))
    decreases |routes| - i
  {
    if i < |routes| {
      OnlyRoute(routes, path, host, mac, norm, registered, i);
      ChainLeadsToExit(routes, path, host, mac, norm, registered, i + 1);
    }
  }
}
