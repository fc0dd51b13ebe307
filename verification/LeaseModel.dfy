/** Lease records, what the registry operations do to the record list, and runs of them. */
module LeaseModel {
  import opened Wrappers

  const MAX_RECORDS := 1024
  const LEASE_SECONDS := 300

  datatype LeaseRecord = LeaseRecord(
    hostname: Option<string>, identityKey: string, firstSeenAt: int, lastSeenAt: int, expiresAt: int, bpsLimit: int,
    hasStream: bool, clientIp: Option<string>, reportedIp: Option<string>, hostnameHash: Option<string>,
    hopToken: Option<string>, hopNextIpv4: Option<string>, hopNextToken: Option<string>)

  /** What a registration is looked up by: the hostname of a lease or the token of a hop. */
  datatype Key = Host(name: string) | Hop(token: string)

  predicate HasKey(r: LeaseRecord, k: Key)
  {
    match k case Host(h) => r.hostname == Some(h) case Hop(t) => r.hopToken == Some(t)
  }

  datatype Op =
    | Register(hostname: string, identityKey: string, bps: int, clientIp: Option<string>, reportedIp: Option<string>,
               hash: Option<string>, allowed: bool)
    | RegisterHop(token: string, nextIpv4: string, nextToken: string, identityKey: string)
    | UpdateBps(identityKey: string, bps: int)
    | Sweep

  datatype Event = Event(now: int, op: Op)

  /** The index of the first record that satisfies `p`, or the length of the list. */
  function First(rs: seq<LeaseRecord>, p: LeaseRecord -> bool): (i: nat)
    ensures i <= |rs| && (i < |rs| ==> p(rs[i])) && forall j :: 0 <= j < i ==> !p(rs[j])
  {
    if rs == [] || p(rs[0]) then 0 else
    var i := First(rs[1..], p);
    assert forall j :: 1 <= j < 1 + i ==> rs[j] == rs[1..][j - 1];
    1 + i
  }

  function WithKey(k: Key): LeaseRecord -> bool { r => HasKey(r, k) }

  function Refreshed(r: LeaseRecord, op: Op, now: int): LeaseRecord
    requires op.Register? || op.RegisterHop?
  {
    match op
    case Register(_, _, bps, clientIp, reportedIp, hash, _) =>
      r.(expiresAt := now + LEASE_SECONDS, lastSeenAt := now, bpsLimit := bps, clientIp := OrElse(clientIp, r.clientIp),
         reportedIp := OrElse(reportedIp, r.reportedIp), hostnameHash := OrElse(hash, r.hostnameHash))
    case RegisterHop(_, _, _, _) => r.(expiresAt := now + LEASE_SECONDS)
  }

  function NewRecord(op: Op, now: int): LeaseRecord
    requires op.Register? || op.RegisterHop?
  {
    match op
    case Register(h, key, bps, clientIp, reportedIp, hash, _) =>
      LeaseRecord(Some(h), key, now, now, now + LEASE_SECONDS, bps, true, clientIp, reportedIp, hash, None, None, None)
    case RegisterHop(t, ip, next, key) =>
      LeaseRecord(None, key, 0, 0, now + LEASE_SECONDS, 0, false, None, None, None, Some(t), Some(ip), Some(next))
  }

  function KeyOf(op: Op): Key
    requires op.Register? || op.RegisterHop?
  {
    if op.Register? then Host(op.hostname) else Hop(op.token)
  }

  /** Refreshes the record with the operation's key, else appends one if there is room. */
  function Upserted(rs: seq<LeaseRecord>, op: Op, now: int): seq<LeaseRecord>
    requires op.Register? || op.RegisterHop?
  {
    var i := First(rs, WithKey(KeyOf(op)));
    if i < |rs| then rs[i := Refreshed(rs[i], op, now)]
    else if |rs| < MAX_RECORDS then rs + [NewRecord(op, now)]
    else rs
  }

  predicate Live(r: LeaseRecord, now: int) { r.expiresAt > now }

  /** Slot `i` overwritten by the last record, and the list one shorter. */
  function SwapRemoved(rs: seq<LeaseRecord>, i: nat): (r: seq<LeaseRecord>)
    requires i < |rs|
    ensures |r| == |rs| - 1
  {
    rs[i := rs[|rs| - 1]][..|rs| - 1]
  }

  /** The janitor from index `i` on: an expired record is overwritten by the last one, and the
      slot is looked at again. */
  function Swept(rs: seq<LeaseRecord>, i: nat, now: int): seq<LeaseRecord>
    requires i <= |rs|
    decreases |rs| - i
  {
    if i == |rs| then rs
    else if Live(rs[i], now) then Swept(rs, i + 1, now)
    else Swept(SwapRemoved(rs, i), i, now)
  }

  function Exec(rs: seq<LeaseRecord>, e: Event): seq<LeaseRecord>
  {
    match e.op
    case Register(_, _, _, _, _, _, allowed) => if allowed then Upserted(rs, e.op, e.now) else rs
    case RegisterHop(_, _, _, _) => Upserted(rs, e.op, e.now)
    case UpdateBps(key, bps) =>
      var i := First(rs, (r: LeaseRecord) => r.identityKey == key);
      if i < |rs| then rs[i := rs[i].(bpsLimit := bps)] else rs
    case Sweep => Swept(rs, 0, e.now)
  }

  function Run(es: seq<Event>): seq<LeaseRecord>
  {
    if es == [] then [] else Exec(Run(es[..|es| - 1]), es[|es| - 1])
  }

  ghost predicate WellClocked(es: seq<Event>) { forall i, j :: 0 <= i < j < |es| ==> es[i].now <= es[j].now }

  function LastNow(es: seq<Event>): int { if es == [] then 0 else es[|es| - 1].now }

  // ---------- The janitor ----------

  lemma SwapRemoveBag(rs: seq<LeaseRecord>, i: nat)
    requires i < |rs|
    ensures multiset(SwapRemoved(rs, i)) == multiset(rs) - multiset{rs[i]}
  {
    var n := |rs| - 1;
    var front, last := rs[..n], rs[n];
    assert rs == front + [last];
    if i == n {
      assert rs[i := last][..n] == front;
    } else {
      assert rs[i := last][..n] == front[i := last];
    }
  }

  /** How often a record occurs among those that have not expired. */
  function LiveCount(rs: seq<LeaseRecord>, now: int, r: LeaseRecord): nat
  {
    if Live(r, now) then multiset(rs)[r] else 0
  }

  /** The swap-remove janitor drops exactly the expired records and keeps the others as a multiset. */
  lemma {:induction false} SweptKeepsLive(rs: seq<LeaseRecord>, i: nat, now: int, r: LeaseRecord)
    requires i <= |rs| && forall j :: 0 <= j < i ==> Live(rs[j], now)
    ensures multiset(Swept(rs, i, now))[r] == LiveCount(rs, now, r)
    decreases |rs| - i
  {
    if i == |rs| {
      assert r in multiset(rs) ==> r in rs;
    } else if Live(rs[i], now) {
      SweptKeepsLive(rs, i + 1, now, r);
    } else {
      SwapRemoveBag(rs, i);
      SweptKeepsLive(SwapRemoved(rs, i), i, now, r);
    }
  }

  lemma SweptMembers(rs: seq<LeaseRecord>, now: int, r: LeaseRecord)
    ensures r in Swept(rs, 0, now) <==> r in rs && Live(r, now)
  {
    SweptKeepsLive(rs, 0, now, r);
    assert r in Swept(rs, 0, now) <==> r in multiset(Swept(rs, 0, now));
    assert r in rs <==> r in multiset(rs);
  }
}
