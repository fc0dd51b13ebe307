/** The lease registry as the relay keeps it: a fixed array of records and a count. */
module LeaseRegistries {
  import opened Wrappers
  import opened LeaseModel
  import opened LeaseRuns

  /** The parts of the relay's settings that decide who may register. */
  datatype Settings = Settings(banned: seq<string>, manualApproval: bool, approved: seq<string>)

  predicate IsAllowed(s: Option<Settings>, key: string)
  {
    s.None? || (key !in s.value.banned && (s.value.manualApproval ==> key in s.value.approved))
  }

  // ---------- Lookup ----------

  /** `hostname_matches`: an exact name, or a pattern with a leading wildcard. */
  predicate HostnameMatches(pattern: string, host: string)
  {
    if pattern != "" && pattern[0] == '*' then |host| >= |pattern| && host[|host| - (|pattern| - 1)..] == pattern[1..]
    else pattern == host
  }

  /** A wildcard stands for any non-empty beginning. */
  lemma WildcardMeaning(suffix: string, host: string)
    ensures HostnameMatches("*" + suffix, host) <==> exists x: string :: x != "" && host == x + suffix
  {
    if HostnameMatches("*" + suffix, host) {
      var x := host[..|host| - |suffix|];
      assert host == x + suffix && x != "";
    }
  }

  function LiveAnd(now: int, p: LeaseRecord -> bool): LeaseRecord -> bool { r => Live(r, now) && p(r) }

  function HashIs(hash: Option<string>): LeaseRecord -> bool
  {
    (r: LeaseRecord) => hash.Some? && r.hostnameHash == hash
  }

  function PatternFor(host: string): LeaseRecord -> bool
  {
    (r: LeaseRecord) => r.hostname.Some? && HostnameMatches(r.hostname.value, host)
  }

  function At(rs: seq<LeaseRecord>, i: nat): Option<LeaseRecord> { if i < |rs| then Some(rs[i]) else None }

  function FirstLive(rs: seq<LeaseRecord>, now: int, p: LeaseRecord -> bool): Option<LeaseRecord>
  {
    At(rs, First(rs, LiveAnd(now, p)))
  }

  /** The three tiers: exact hostname, hostname hash, wildcard pattern. */
  function Lookup(rs: seq<LeaseRecord>, host: string, hash: Option<string>, now: int): Option<LeaseRecord>
  {
    OrElse(FirstLive(rs, now, WithKey(Host(host))),
           OrElse(FirstLive(rs, now, HashIs(hash)), FirstLive(rs, now, PatternFor(host))))
  }

  function LookupHop(rs: seq<LeaseRecord>, token: string, now: int): Option<LeaseRecord>
  {
    FirstLive(rs, now, WithKey(Hop(token)))
  }

  lemma FirstLiveMeaning(rs: seq<LeaseRecord>, now: int, p: LeaseRecord -> bool)
    ensures FirstLive(rs, now, p).Some? <==> exists r :: r in rs && Live(r, now) && p(r)
    ensures FirstLive(rs, now, p).Some? ==>
              var r := FirstLive(rs, now, p).value; r in rs && Live(r, now) && p(r)
  {
    var i := First(rs, LiveAnd(now, p));
    if i < |rs| {
      assert rs[i] in rs && LiveAnd(now, p)(rs[i]);
    } else {
      forall r | r in rs
        ensures !(Live(r, now) && p(r))
      {
        var j :| 0 <= j < |rs| && rs[j] == r;
        assert !LiveAnd(now, p)(rs[j]);
      }
    }
  }

  /** In every run, a hostname lookup is answered by the hostname's own lease for exactly 300
      seconds after its last registration; whatever it answers has not expired, has a stream to
      claim from and no next hop. */
  lemma LookupInRuns(es: seq<Event>, host: string, hash: Option<string>, now: int)
    requires WellClocked(es) && LastNow(es) <= now
    ensures var found := Lookup(Run(es), host, hash, now);
            && (found.Some? ==> found.value in Run(es) && Live(found.value, now) && IsLease(found.value))
            && (found.Some? && found.value.hostname == Some(host) <==>
                LastGrant(es, Host(host)).Some? && now < LastGrant(es, Host(host)).value + 300)
  {
    var rs := Run(es);
    ReachableInv(es);
    LeaseLifetime(es, Host(host), now);
    FirstLiveMeaning(rs, now, WithKey(Host(host)));
    FirstLiveMeaning(rs, now, HashIs(hash));
    FirstLiveMeaning(rs, now, PatternFor(host));
  }

  /** The same for hop tokens: a live answer for exactly 300 seconds, always with a next hop. */
  lemma HopLookupInRuns(es: seq<Event>, token: string, now: int)
    requires WellClocked(es) && LastNow(es) <= now
    ensures var found := LookupHop(Run(es), token, now);
            && (found.Some? ==> IsHop(found.value) && found.value.hopToken == Some(token) && Live(found.value, now))
            && (found.Some? <==>
                LastGrant(es, Hop(token)).Some? && now < LastGrant(es, Hop(token)).value + 300)
  {
    ReachableInv(es);
    LeaseLifetime(es, Hop(token), now);
    FirstLiveMeaning(Run(es), now, WithKey(Hop(token)));
  }

  // ---------- The registry ----------

  class LeaseRegistry {
    const records: array<LeaseRecord>
    var count: int

    ghost predicate Valid()
      reads this
    {
      records.Length == MAX_RECORDS && 0 <= count <= MAX_RECORDS
    }

    ghost function Contents(): seq<LeaseRecord>
      requires Valid()
      reads this, records
    {
      records[..count]
    }

    constructor ()
      ensures Valid() && fresh(records) && Contents() == Run([])
    {
      records := new LeaseRecord[MAX_RECORDS];
      count := 0;
    }

    /** The scan shared by every operation: the first record that satisfies `p`. */
    method Find(p: LeaseRecord -> bool) returns (i: nat)
      requires Valid()
      ensures i == First(Contents(), p)
    {
      i := 0;
      while i < count
        invariant i <= count && forall j :: 0 <= j < i ==> !p(records[j])
      {
        if p(records[i]) {
          FirstIsUnique(Contents(), p, i);
          return;
        }
        i := i + 1;
      }
      FirstIsUnique(Contents(), p, i);
    }

    /** `lease_registry_register`. */
    method RegisterLease(settings: Option<Settings>, host: string, key: string, bps: int, clientIp: Option<string>,
                         reportedIp: Option<string>, hash: Option<string>, now: int)
      requires Valid()
      modifies this, records
      ensures Valid()
      ensures Contents() ==
              Exec(old(Contents()),
                   Event(now, Register(host, key, bps, clientIp, reportedIp, hash, IsAllowed(settings, key))))
    {
      if !IsAllowed(settings, key) {
        return;
      }
      Upsert(Register(host, key, bps, clientIp, reportedIp, hash, true), now);
    }

    /** `portillia_registry_register_hop`. */
    method RegisterHopRoute(token: string, nextIpv4: string, nextToken: string, key: string, now: int)
      requires Valid()
      modifies this, records
      ensures Valid()
      ensures Contents() == Exec(old(Contents()), Event(now, RegisterHop(token, nextIpv4, nextToken, key)))
    {
      Upsert(RegisterHop(token, nextIpv4, nextToken, key), now);
    }

    method Upsert(op: Op, now: int)
      requires Valid() && (op.Register? || op.RegisterHop?)
      modifies this, records
      ensures Valid() && Contents() == Upserted(old(Contents()), op, now)
    {
      var i := Find(WithKey(KeyOf(op)));
      if i < count {
        records[i] := Refreshed(records[i], op, now);
      } else if count < MAX_RECORDS {
        records[count] := NewRecord(op, now);
        count := count + 1;
      }
    }

    method SwapRemove(i: nat)
      requires Valid() && i < count
      modifies this, records
      ensures Valid() && count == old(count) - 1 && Contents() == SwapRemoved(old(Contents()), i)
    {
      count := count - 1;
      records[i] := records[count];
    }

    /** One pass of `lease_janitor_thread`. */
    method Janitor(now: int)
      requires Valid()
      modifies this, records
      ensures Valid() && Contents() == Exec(old(Contents()), Event(now, Sweep))
    {
      var i := 0;
      while i < count
        invariant Valid() && 0 <= i <= count
        invariant Swept(Contents(), i, now) == Swept(old(Contents()), 0, now)
        decreases count - i
      {
        if records[i].expiresAt <= now {
          SwapRemove(i);
        } else {
          i := i + 1;
        }
      }
    }

    /** `lease_registry_lookup`; `hash` is the hash of the hostname, if one could be computed. */
    method FindLease(host: string, hash: Option<string>, now: int) returns (found: Option<LeaseRecord>)
      requires Valid()
      ensures found == Lookup(Contents(), host, hash, now)
    {
      var i := Find(LiveAnd(now, WithKey(Host(host))));
      if i < count {
        return Some(records[i]);
      }
      i := Find(LiveAnd(now, HashIs(hash)));
      if i < count {
        return Some(records[i]);
      }
      i := Find(LiveAnd(now, PatternFor(host)));
      return if i < count then Some(records[i]) else None;
    }

    /** `lease_registry_lookup_hop`. */
    method FindHop(token: string, now: int) returns (found: Option<LeaseRecord>)
      requires Valid()
      ensures found == LookupHop(Contents(), token, now)
    {
      var i := Find(LiveAnd(now, WithKey(Hop(token))));
      return if i < count then Some(records[i]) else None;
    }
  }

  lemma FirstIsUnique(rs: seq<LeaseRecord>, p: LeaseRecord -> bool, i: nat)
    requires i <= |rs| && (i < |rs| ==> p(rs[i])) && forall j :: 0 <= j < i ==> !p(rs[j])
    ensures First(rs, p) == i
  {
  }
}
