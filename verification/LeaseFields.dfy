/** What registrations store, who may register, and what lookups answer, in terms of the fields of the records. */
module LeaseFields {
  import opened Wrappers
  import opened LeaseModel
  import opened LeaseRuns
  import opened LeaseRegistries

  /** An identity is refused if it is banned, or not approved where approval is manual. */
  predicate TurnedDown(s: Option<Settings>, key: string)
  {
    s.Some? && (key in s.value.banned || (s.value.manualApproval && key !in s.value.approved))
  }

  /** The position of the record with a hostname or a hop token, if there is one. */
  lemma FirstWithKey(rs: seq<LeaseRecord>, k: Key)
    ensures var i := First(rs, WithKey(k));
            && (i < |rs| ==> HasKey(rs[i], k))
            && (i == |rs| ==> forall r :: r in rs ==> !HasKey(r, k))
  {
    var i := First(rs, WithKey(k));
    if i == |rs| {
      forall r | r in rs
        ensures !HasKey(r, k)
      {
        var j :| 0 <= j < |rs| && rs[j] == r;
        assert !WithKey(k)(rs[j]);
      }
    } else {
      assert WithKey(k)(rs[i]);
    }
  }

  /** `given` if it is there, else what was stored. */
  predicate Updated(now: Option<string>, before: Option<string>, given: Option<string>)
  {
    now == if given.Some? then given else before
  }

  /** The renewed record of a lease: 300 more seconds, seen now, with the new limit and the addresses and hash given. */
  predicate Renewed(r: LeaseRecord, was: LeaseRecord, bps: int, ip: Option<string>, reported: Option<string>,
                    hash: Option<string>, now: int)
  {
    && r.hostname == was.hostname && r.identityKey == was.identityKey && r.firstSeenAt == was.firstSeenAt
    && r.lastSeenAt == now && r.expiresAt == now + 300 && r.bpsLimit == bps && r.hasStream == was.hasStream
    && Updated(r.clientIp, was.clientIp, ip) && Updated(r.reportedIp, was.reportedIp, reported)
    && Updated(r.hostnameHash, was.hostnameHash, hash)
    && r.hopToken == was.hopToken && r.hopNextIpv4 == was.hopNextIpv4 && r.hopNextToken == was.hopNextToken
  }

  /** Registering a lease: nothing for a refused identity; the record of the hostname is renewed; else a record with a
      stream and what was given is appended, unless 1024 are there. */
  lemma RegisterOnFields(rs: seq<LeaseRecord>, settings: Option<Settings>, host: string, key: string, bps: int,
                         ip: Option<string>, reported: Option<string>, hash: Option<string>, now: int) returns (i: nat)
    ensures var after := Exec(rs, Event(now, Register(host, key, bps, ip, reported, hash, IsAllowed(settings, key))));
            if TurnedDown(settings, key) then after == rs
            else if exists r :: r in rs && r.hostname == Some(host)
            then i < |rs| == |after| && rs[i].hostname == Some(host) && after == rs[i := after[i]]
                 && Renewed(after[i], rs[i], bps, ip, reported, hash, now)
            else if |rs| < 1024
            then after == rs + [LeaseRecord(Some(host), key, now, now, now + 300, bps, true, ip, reported, hash,
                                            None, None, None)]
            else after == rs
  {
    i := First(rs, WithKey(Host(host)));
    FirstWithKey(rs, Host(host));
    if i < |rs| {
      assert rs[i] in rs;
    }
  }

  /** Registering a hop: the record of the token gets 300 more seconds and keeps its next hop; else one is appended,
      unless 1024 are there. */
  lemma RegisterHopOnFields(rs: seq<LeaseRecord>, token: string, ip: string, next: string, key: string, now: int)
    returns (i: nat)
    ensures var after := Exec(rs, Event(now, RegisterHop(token, ip, next, key)));
            if exists r :: r in rs && r.hopToken == Some(token)
            then i < |rs| && rs[i].hopToken == Some(token) && after == rs[i := rs[i].(expiresAt := now + 300)]
            else if |rs| < 1024
            then after == rs + [LeaseRecord(None, key, 0, 0, now + 300, 0, false, None, None, None,
                                            Some(token), Some(ip), Some(next))]
            else after == rs
  {
    i := First(rs, WithKey(Hop(token)));
    FirstWithKey(rs, Hop(token));
    if i < |rs| {
      assert rs[i] in rs;
    }
  }

  /** The sweep keeps a record exactly as long as its expiry lies in the future. */
  lemma SweepOnFields(rs: seq<LeaseRecord>, now: int, r: LeaseRecord)
    ensures multiset(Exec(rs, Event(now, Sweep)))[r] == if r.expiresAt > now then multiset(rs)[r] else 0
  {
    SweptKeepsLive(rs, 0, now, r);
  }

  /** A pattern that starts with a star stands for every name that continues it in front; any other for itself. */
  lemma PatternMeaning(pattern: string, host: string)
    ensures HostnameMatches(pattern, host) <==>
            if pattern != "" && pattern[0] == '*' then exists x: string :: x != "" && host == x + pattern[1..]
            else pattern == host
  {
    if pattern != "" && pattern[0] == '*' {
      assert pattern == "*" + pattern[1..];
      WildcardMeaning(pattern[1..], host);
    }
  }

  ghost predicate Exact(rs: seq<LeaseRecord>, now: int, host: string)
  {
    exists r :: r in rs && r.expiresAt > now && r.hostname == Some(host)
  }

  ghost predicate Hashed(rs: seq<LeaseRecord>, now: int, hash: Option<string>)
  {
    exists r :: r in rs && r.expiresAt > now && hash.Some? && r.hostnameHash == hash
  }

  /** A lookup answers with an unexpired record of the hostname; if there is none, with one of its hash; if there is
      none either, with one whose pattern matches; and with nothing only if there is none at all. */
  lemma LookupOnFields(rs: seq<LeaseRecord>, host: string, hash: Option<string>, now: int)
    ensures match Lookup(rs, host, hash, now)
            case None =>
              forall r :: r in rs && r.expiresAt > now ==>
                && r.hostname != Some(host) && (hash.None? || r.hostnameHash != hash)
                && (r.hostname.Some? ==> !HostnameMatches(r.hostname.value, host))
            case Some(r) =>
              && r in rs && r.expiresAt > now
              && if Exact(rs, now, host) then r.hostname == Some(host)
                 else if Hashed(rs, now, hash) then hash.Some? && r.hostnameHash == hash
                 else r.hostname.Some? && HostnameMatches(r.hostname.value, host)
  {
    FirstLiveMeaning(rs, now, WithKey(Host(host)));
    FirstLiveMeaning(rs, now, HashIs(hash));
    FirstLiveMeaning(rs, now, PatternFor(host));
    assert Exact(rs, now, host) <==> FirstLive(rs, now, WithKey(Host(host))).Some?;
    assert Hashed(rs, now, hash) <==> FirstLive(rs, now, HashIs(hash)).Some?;
    if Lookup(rs, host, hash, now).None? {
      forall r | r in rs && r.expiresAt > now
        ensures !WithKey(Host(host))(r) && !HashIs(hash)(r) && !PatternFor(host)(r)
      {
        assert Live(r, now);
      }
    }
  }

  /** A hop lookup answers with the unexpired record of the token, if there is one. */
  lemma HopLookupOnFields(rs: seq<LeaseRecord>, token: string, now: int)
    ensures match LookupHop(rs, token, now)
            case None => forall r :: r in rs && r.expiresAt > now ==> r.hopToken != Some(token)
            case Some(r) => r in rs && r.expiresAt > now && r.hopToken == Some(token)
  {
    FirstLiveMeaning(rs, now, WithKey(Hop(token)));
    if LookupHop(rs, token, now).None? {
      forall r | r in rs && r.expiresAt > now
        ensures !WithKey(Hop(token))(r)
      {
        assert Live(r, now);
      }
    }
  }
}
