/** Values of the relay discovery set and what one lock-held step does to its two tables. */
module RelayModel {

  const CLOCK_SKEW_TOLERANCE := 300
  const MAX_VALIDITY := 86400

  /** A signed relay descriptor.  `signer` is the wallet address that public key recovery
      yields for the signature, or anything that is not a wallet when recovery fails. */
  datatype Descriptor = Descriptor(
    address: string, apiUrl: string, issuedAt: int, expiresAt: int,
    supportsUdp: bool, supportsTcp: bool, supportsOverlay: bool, wireguardKey: string,
    signer: string)

  datatype RelayState = RelayState(
    descriptor: Descriptor, bootstrap: bool, confirmed: bool, banned: bool, lastSeenAt: int,
    rttMs: real, rttAt: int, discoveryFailures: int, activeFailures: int,
    nextRefreshAt: int, suppressUntil: int)

  /** What the rollback index remembers of an identity. */
  datatype Entry = Entry(issuedAt: int, tombstoneUntil: int)

  datatype Tables = Tables(relays: map<string, RelayState>, keyIndex: map<string, Entry>)

  const EMPTY := Tables(map[], map[])

  function BlankState(url: string): RelayState
  {
    RelayState(Descriptor("", url, 0, 0, false, false, false, "", ""), false, false, false, 0, 0.0, 0, 0, 0, 0, 0)
  }

  predicate Observed(s: RelayState) { s.lastSeenAt != 0 }

  predicate Disposable(s: RelayState)
  {
    && !s.bootstrap && !Observed(s) && !s.banned
    && s.discoveryFailures == 0 && s.activeFailures == 0
    && s.nextRefreshAt == 0 && s.suppressUntil == 0
  }

  // ---------- Identities ----------

  predicate IsSpace(c: char) { c == ' ' || '\t' <= c <= '\r' }

  function Lower(c: char): char { if 'A' <= c <= 'Z' then c + 32 as char else c }

  function LowerAll(s: string): string { seq(|s|, i requires 0 <= i < |s| => Lower(s[i])) }

  function TrimRight(s: string): string
  {
    if s != [] && IsSpace(s[|s| - 1]) then TrimRight(s[..|s| - 1]) else s
  }

  function TrimLeft(s: string): string
  {
    if s != [] && IsSpace(s[0]) then TrimLeft(s[1..]) else s
  }

  function LowerTrim(s: string): string { LowerAll(TrimLeft(TrimRight(s))) }

  /** The normalised address under which the rollback index files a descriptor. */
  function Identity(d: Descriptor): string { LowerTrim(d.address) }

  predicate Alphanumeric(c: char) { '0' <= c <= '9' || 'a' <= c <= 'z' || 'A' <= c <= 'Z' }

  /** The shape of every address derived from a public key: "0x" and forty hex digits. */
  predicate IsWallet(s: string) { |s| == 42 && forall i :: 0 <= i < |s| ==> Alphanumeric(s[i]) }

  predicate Verified(d: Descriptor) { IsWallet(d.signer) && LowerAll(d.signer) == LowerAll(d.address) }

  /** A verified descriptor is filed under the address its signature recovers to, and never under "". */
  lemma VerifiedIdentity(d: Descriptor)
    requires Verified(d)
    ensures Identity(d) == LowerAll(d.signer) && Identity(d) != ""
  {
    var a := d.address;
    assert |a| == |LowerAll(a)| == 42;
    forall i | 0 <= i < |a|
      ensures !IsSpace(a[i])
    {
      assert LowerAll(a)[i] == LowerAll(d.signer)[i];
    }
    assert TrimLeft(TrimRight(a)) == a;
    assert LowerAll(a)[0] == Lower(a[0]);
  }

  // ---------- Freshness, merging and the upsert verdict ----------

  predicate Fresh(d: Descriptor, now: int)
  {
    && d.issuedAt != 0
    && d.expiresAt > now
    && d.issuedAt <= now + CLOCK_SKEW_TOLERANCE
    && d.expiresAt - d.issuedAt <= MAX_VALIDITY
  }

  function Max(a: int, b: int): int { if a < b then b else a }

  /** The record offered to the tables for descriptor `d`: local telemetry of the URL carries over. */
  function Candidate(t: Tables, d: Descriptor, authoritative: bool, now: int): RelayState
  {
    var blank := BlankState(d.apiUrl).(descriptor := d, lastSeenAt := now);
    var merged := if d.apiUrl !in t.relays then blank else
      var held := t.relays[d.apiUrl];
      blank.(bootstrap := held.bootstrap, confirmed := held.confirmed, banned := held.banned,
             discoveryFailures := Max(0, held.discoveryFailures), activeFailures := Max(0, held.activeFailures),
             nextRefreshAt := held.nextRefreshAt, suppressUntil := held.suppressUntil,
             rttMs := held.rttMs, rttAt := held.rttAt);
    if authoritative then merged.(discoveryFailures := 0, nextRefreshAt := 0) else merged
  }

  datatype Verdict = Rejected | Accepted | Ignored

  predicate Stale(e: Entry, now: int) { e.tombstoneUntil != 0 && now > e.tombstoneUntil }

  /** The index remembers a newer descriptor of the same identity. */
  predicate Outdated(t: Tables, r: RelayState, now: int)
  {
    var a := Identity(r.descriptor);
    a != "" && a in t.keyIndex && !Stale(t.keyIndex[a], now) && r.descriptor.issuedAt < t.keyIndex[a].issuedAt
  }

  /** The URL already holds an unexpired descriptor of the identity, at least as new. */
  predicate Covered(t: Tables, d: Descriptor, now: int)
  {
    && d.apiUrl in t.relays
    && var held := t.relays[d.apiUrl].descriptor;
       Identity(held) == Identity(d) && held.expiresAt > now && held.issuedAt >= d.issuedAt
  }

  /** The URL is held by another identity whose descriptor has not expired. */
  predicate Usurps(t: Tables, r: RelayState, now: int)
  {
    && r.descriptor.apiUrl in t.relays
    && var held := t.relays[r.descriptor.apiUrl].descriptor;
       && Identity(held) != "" && Identity(r.descriptor) != "" && Identity(held) != Identity(r.descriptor)
       && held.expiresAt != 0 && held.expiresAt > now
  }

  function Judge(t: Tables, r: RelayState, now: int, takeover: bool): Verdict
  {
    if r.descriptor.apiUrl == "" then Rejected
    else if Outdated(t, r, now) then (if Covered(t, r.descriptor, now) then Ignored else Rejected)
    else if !takeover && Usurps(t, r, now) then Rejected
    else Accepted
  }

  /** The index once a stale entry of identity `a` is dropped; this happens before the takeover check. */
  function Swept(index: map<string, Entry>, a: string, now: int): map<string, Entry>
  {
    if a != "" && a in index && Stale(index[a], now) then index - {a} else index
  }

  function Upserted(t: Tables, r: RelayState, now: int, takeover: bool): Tables
  {
    var d := r.descriptor;
    var a := Identity(d);
    var index := if d.apiUrl == "" then t.keyIndex else Swept(t.keyIndex, a, now);
    if Judge(t, r, now, takeover) != Accepted then t.(keyIndex := index)
    else if a == "" then t.(relays := t.relays[d.apiUrl := r])
    else
      var latest := Entry(d.issuedAt, d.issuedAt + MAX_VALIDITY);
      var entry := if a !in index then latest else
        Entry(Max(latest.issuedAt, index[a].issuedAt), Max(latest.tombstoneUntil, index[a].tombstoneUntil));
      Tables(t.relays[d.apiUrl := r], index[a := entry])
  }

  // ---------- Steps and runs ----------

  datatype Step =
    | Offer(descriptor: Descriptor, authoritative: bool)
    | Purge
    | ClearBootstrap
    | AddBootstrap(url: string)
    | RemoveBootstrap(url: string)
    | Ban(url: string)
    | Allow(url: string)
    | Confirm(url: string)
    | Unconfirm(url: string)
    | RecordRtt(url: string, ms: real, at: int)
    | DiscoveryFailure(url: string)
    | ActiveFailure(url: string)

  /** One lock-held region (or one descriptor of a response) executed at clock reading `now`. */
  datatype Event = Event(now: int, step: Step)

  function StateOf(t: Tables, url: string): RelayState
  {
    if url in t.relays then t.relays[url] else BlankState(url)
  }

  function Put(t: Tables, url: string, s: RelayState): Tables { t.(relays := t.relays[url := s]) }

  predicate Admissible(d: Descriptor, now: int) { Verified(d) && Fresh(d, now) && d.apiUrl != "" }

  predicate Purgeable(e: Entry, now: int) { e.tombstoneUntil > 0 && e.tombstoneUntil < now }

  function Purged(index: map<string, Entry>, now: int): map<string, Entry>
  {
    map a | a in index && !Purgeable(index[a], now) :: index[a]
  }

  function Exec(t: Tables, e: Event): Tables
  {
    match e.step
    case Offer(d, authoritative) =>
      if Admissible(d, e.now) then Upserted(t, Candidate(t, d, authoritative, e.now), e.now, authoritative) else t
    case Purge => t.(keyIndex := Purged(t.keyIndex, e.now))
    case ClearBootstrap => t.(relays := map u | u in t.relays :: t.relays[u].(bootstrap := false))
    case AddBootstrap(u) => Put(t, u, StateOf(t, u).(bootstrap := true))
    case RemoveBootstrap(u) =>
      if u !in t.relays then t
      else if Disposable(t.relays[u].(bootstrap := false)) then t.(relays := t.relays - {u})
      else Put(t, u, t.relays[u].(bootstrap := false))
    case Ban(u) => Put(t, u, StateOf(t, u).(banned := true))
    case Allow(u) => Put(t, u, StateOf(t, u).(banned := false))
    case Confirm(u) => Put(t, u, StateOf(t, u).(confirmed := true))
    case Unconfirm(u) => if u in t.relays then Put(t, u, t.relays[u].(confirmed := false)) else t
    case RecordRtt(u, ms, at) => if u in t.relays then Put(t, u, t.relays[u].(rttMs := ms, rttAt := at)) else t
    case DiscoveryFailure(u) =>
      if u in t.relays then Put(t, u, t.relays[u].(discoveryFailures := t.relays[u].discoveryFailures + 1)) else t
    case ActiveFailure(u) =>
      if u in t.relays then Put(t, u, t.relays[u].(activeFailures := t.relays[u].activeFailures + 1)) else t
  }

  function Run(t: Tables, es: seq<Event>): Tables
  {
    if es == [] then t else Exec(Run(t, es[..|es| - 1]), es[|es| - 1])
  }

  lemma RunPrefix(t: Tables, es: seq<Event>, k: nat)
    requires k < |es|
    ensures Run(t, es[..k + 1]) == Exec(Run(t, es[..k]), es[k])
  {
    assert es[..k + 1][..k] == es[..k];
  }

  lemma RunTwoMore(t: Tables, es: seq<Event>, e: Event, f: Event)
    ensures Run(t, es + [e, f]) == Exec(Exec(Run(t, es), e), f)
  {
    var all, n := es + [e, f], |es|;
    assert all[..n] == es && all[..n + 2] == all;
    RunPrefix(t, all, n);
    RunPrefix(t, all, n + 1);
  }

  lemma RunTwo(t: Tables, e: Event, f: Event)
    ensures Run(t, [e, f]) == Exec(Exec(t, e), f)
  {
    RunTwoMore(t, [], e, f);
    assert [] + [e, f] == [e, f];
  }

  /** The clock is positive and never runs backwards. */
  ghost predicate WellClocked(es: seq<Event>)
  {
    && (forall i :: 0 <= i < |es| ==> es[i].now > 0)
    && (forall i, j :: 0 <= i < j < |es| ==> es[i].now <= es[j].now)
  }

  /** Event `e`, met in tables `t`, stores descriptor `d`. */
  predicate Accepts(t: Tables, e: Event, d: Descriptor)
  {
    && e.step.Offer? && e.step.descriptor == d && Admissible(d, e.now)
    && Judge(t, Candidate(t, d, e.step.authoritative, e.now), e.now, e.step.authoritative) == Accepted
  }

  /** A discovery response is one offer for each relay it lists; an offer carries takeover rights
      only when the answering relay describes itself and speaks the expected protocol version. */
  function ResponseEvents(target: string, mismatch: bool, relays: seq<Descriptor>, now: int): (es: seq<Event>)
    ensures |es| == |relays|
  {
    seq(|relays|, i requires 0 <= i < |relays| =>
      Event(now, Offer(relays[i], !mismatch && target != "" && relays[i].apiUrl == target)))
  }
}
