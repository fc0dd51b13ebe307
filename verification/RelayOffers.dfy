/** When an offered descriptor is accepted and what it changes, in terms of the fields of the records. */
module RelayOffers {
  import opened RelayModel
  import opened RelayRuns

  // ---------- Identities ----------

  predicate SameLetter(x: char, y: char)
  {
    || x == y
    || ('A' <= x <= 'Z' && y as int == x as int + 32)
    || ('A' <= y <= 'Z' && x as int == y as int + 32)
  }

  /** A descriptor verifies if the recovered address is a wallet and is the claimed one up to case. */
  lemma VerifiedMeaning(d: Descriptor)
    ensures Verified(d) <==>
            && |d.signer| == 42 == |d.address|
            && forall i :: 0 <= i < 42 ==> Alphanumeric(d.signer[i]) && SameLetter(d.signer[i], d.address[i])
  {
    assert |LowerAll(d.signer)| == |d.signer| && |LowerAll(d.address)| == |d.address|;
    if Verified(d) {
      forall i | 0 <= i < 42
        ensures SameLetter(d.signer[i], d.address[i])
      {
        assert LowerAll(d.signer)[i] == LowerAll(d.address)[i];
      }
    }
  }

  /** Two verified descriptors have one identity exactly if their addresses agree up to case. */
  lemma SameIdentity(d: Descriptor, e: Descriptor)
    requires Verified(d) && Verified(e)
    ensures Identity(d) == Identity(e) <==> forall i :: 0 <= i < 42 ==> SameLetter(d.address[i], e.address[i])
  {
    VerifiedIdentity(d);
    VerifiedIdentity(e);
    VerifiedMeaning(d);
    VerifiedMeaning(e);
    var p, q := LowerAll(d.address), LowerAll(e.address);
    if p == q {
      forall i | 0 <= i < 42
        ensures SameLetter(d.address[i], e.address[i])
      {
        assert p[i] == q[i];
      }
    } else {
      var i :| 0 <= i < 42 && p[i] != q[i];
    }
  }

  // ---------- Acceptance ----------

  /** The descriptor on its own: signed, filed under a URL, unexpired, not from the future, not too long-lived. */
  predicate Sound(d: Descriptor, now: int)
  {
    && Verified(d) && d.apiUrl != ""
    && d.issuedAt != 0 && now < d.expiresAt && d.issuedAt <= now + 300 && d.expiresAt <= d.issuedAt + 86400
  }

  /** The URL can go to the identity: it is free, its own, expired, or the relay there answered itself. */
  predicate UrlOpen(t: Tables, d: Descriptor, now: int, authoritative: bool)
  {
    || authoritative
    || d.apiUrl !in t.relays
    || OwnerOf(t, d.apiUrl) == ""
    || OwnerOf(t, d.apiUrl) == Identity(d)
    || t.relays[d.apiUrl].descriptor.expiresAt <= now
  }

  /** An offer is accepted exactly if the descriptor is sound, nothing newer of its identity is remembered
      that could still be valid, and the URL is open to it. */
  lemma OfferAcceptance(t: Tables, e: Event)
    requires IndexOk(t) && e.now > 0 && e.step.Offer?
    ensures var d := e.step.descriptor;
            Accepts(t, e, d) <==>
              && Sound(d, e.now)
              && (Identity(d) in t.keyIndex ==>
                    t.keyIndex[Identity(d)].issuedAt <= d.issuedAt || t.keyIndex[Identity(d)].issuedAt + 86400 < e.now)
              && UrlOpen(t, d, e.now, e.step.authoritative)
  {
    if Verified(e.step.descriptor) {
      VerifiedIdentity(e.step.descriptor);
    }
  }

  /** A sound offer is ignored, and so answered like an accepted one, exactly if something newer of its identity is
      remembered while its URL holds an unexpired descriptor of that identity at least as new; else it is rejected. */
  lemma OfferIgnored(t: Tables, e: Event)
    requires IndexOk(t) && e.now > 0 && e.step.Offer? && Sound(e.step.descriptor, e.now)
    ensures var d := e.step.descriptor;
            var r := Candidate(t, d, e.step.authoritative, e.now);
            && (Judge(t, r, e.now, e.step.authoritative) == Accepted <==> Accepts(t, e, d))
            && (Judge(t, r, e.now, e.step.authoritative) == Ignored <==>
                  && Identity(d) in t.keyIndex && d.issuedAt < t.keyIndex[Identity(d)].issuedAt
                  && e.now <= t.keyIndex[Identity(d)].issuedAt + 86400
                  && d.apiUrl in t.relays && OwnerOf(t, d.apiUrl) == Identity(d)
                  && e.now < t.relays[d.apiUrl].descriptor.expiresAt
                  && d.issuedAt <= t.relays[d.apiUrl].descriptor.issuedAt)
  {
    VerifiedIdentity(e.step.descriptor);
  }

  /** The offer at position `k` of a run is accepted. */
  predicate AcceptedAt(es: seq<Event>, k: nat, d: Descriptor)
    requires k < |es|
  {
    Accepts(Run(EMPTY, es[..k]), es[k], d)
  }

  lemma EntryAfter(t: Tables, e: Event, a: string)
    requires a in Exec(t, e).keyIndex
    ensures (a in t.keyIndex && Exec(t, e).keyIndex[a].issuedAt == t.keyIndex[a].issuedAt) ||
            (e.step.Offer? && Accepts(t, e, e.step.descriptor) && Identity(e.step.descriptor) == a
             && Exec(t, e).keyIndex[a].issuedAt == e.step.descriptor.issuedAt)
  {
  }

  /** Every issue time in the index is that of a descriptor accepted earlier in the run. */
  lemma {:induction false} IndexOrigin(es: seq<Event>, a: string) returns (k: nat)
    requires a in Run(EMPTY, es).keyIndex
    ensures k < |es| && es[k].step.Offer? && AcceptedAt(es, k, es[k].step.descriptor)
    ensures Identity(es[k].step.descriptor) == a
    ensures es[k].step.descriptor.issuedAt == Run(EMPTY, es).keyIndex[a].issuedAt
  {
    assert es != [];
    var front, last := es[..|es| - 1], es[|es| - 1];
    var t := Run(EMPTY, front);
    EntryAfter(t, last, a);
    if a in t.keyIndex && Exec(t, last).keyIndex[a].issuedAt == t.keyIndex[a].issuedAt {
      k := IndexOrigin(front, a);
      assert front[..k] == es[..k];
    } else {
      k := |es| - 1;
    }
  }

  /** The dual of no rollback: in every run an offer is accepted exactly if the descriptor is sound, at least as
      new as everything accepted for its identity, and its URL is open to it. */
  lemma AcceptedExactly(es: seq<Event>, k: nat)
    requires WellClocked(es) && k < |es| && es[k].step.Offer?
    ensures var d := es[k].step.descriptor;
            AcceptedAt(es, k, d) <==>
              && Sound(d, es[k].now)
              && UrlOpen(Run(EMPTY, es[..k]), d, es[k].now, es[k].step.authoritative)
              && (forall i, first :: 0 <= i < k && AcceptedAt(es, i, first) && Identity(first) == Identity(d) ==>
                    first.issuedAt <= d.issuedAt)
  {
    var d, t := es[k].step.descriptor, Run(EMPTY, es[..k]);
    RunKeepsIndexOk(es[..k]);
    OfferAcceptance(t, es[k]);
    if AcceptedAt(es, k, d) {
      forall i, first | 0 <= i < k && AcceptedAt(es, i, first) && Identity(first) == Identity(d)
        ensures first.issuedAt <= d.issuedAt
      {
        NoRollback(es, i, k, first, d);
      }
    } else if Identity(d) in t.keyIndex {
      var i := IndexOrigin(es[..k], Identity(d));
      assert es[..k][..i] == es[..i];
      assert AcceptedAt(es, i, es[i].step.descriptor);
    }
  }

  /** In a response, the descriptor of the relay that answers for its own URL without a version mismatch needs no
      open URL, and every other one does. */
  lemma ResponseAcceptance(t: Tables, target: string, mismatch: bool, relays: seq<Descriptor>, now: int, k: nat)
    requires k < |relays| && now > 0
    requires var es := ResponseEvents(target, mismatch, relays, now); IndexOk(Run(t, es[..k]))
    ensures var es := ResponseEvents(target, mismatch, relays, now);
            var before, d := Run(t, es[..k]), relays[k];
            Accepts(before, es[k], d) <==>
              && Sound(d, now)
              && (Identity(d) in before.keyIndex ==>
                    || before.keyIndex[Identity(d)].issuedAt <= d.issuedAt
                    || before.keyIndex[Identity(d)].issuedAt + 86400 < now)
              && UrlOpen(before, d, now, !mismatch && target != "" && d.apiUrl == target)
  {
    var es := ResponseEvents(target, mismatch, relays, now);
    OfferAcceptance(Run(t, es[..k]), es[k]);
  }

  // ---------- Effects ----------

  /** The telemetry an accepted descriptor takes over from the record of its URL. */
  predicate CarriesOver(s: RelayState, held: RelayState, authoritative: bool)
  {
    && s.bootstrap == held.bootstrap && s.confirmed == held.confirmed && s.banned == held.banned
    && s.rttMs == held.rttMs && s.rttAt == held.rttAt && s.suppressUntil == held.suppressUntil
    && s.nextRefreshAt == (if authoritative then 0 else held.nextRefreshAt)
    && s.discoveryFailures == (if authoritative || held.discoveryFailures < 0 then 0 else held.discoveryFailures)
    && s.activeFailures == (if held.activeFailures < 0 then 0 else held.activeFailures)
  }

  /** A record of which nothing is known but its descriptor. */
  predicate NoTelemetry(s: RelayState)
  {
    && !s.bootstrap && !s.confirmed && !s.banned && s.rttMs == 0.0 && s.rttAt == 0
    && s.discoveryFailures == 0 && s.activeFailures == 0 && s.nextRefreshAt == 0 && s.suppressUntil == 0
  }

  /** What an offer does to the relay table: an accepted one stores the descriptor, seen now, under its URL with
      the telemetry of that URL; any other leaves the table alone. */
  lemma OfferOnRelays(t: Tables, e: Event)
    requires e.step.Offer?
    ensures var d, t' := e.step.descriptor, Exec(t, e);
            if !Accepts(t, e, d) then t'.relays == t.relays else
              && t'.relays.Keys == t.relays.Keys + {d.apiUrl}
              && (forall u :: u in t.relays && u != d.apiUrl ==> t'.relays[u] == t.relays[u])
              && t'.relays[d.apiUrl].descriptor == d && t'.relays[d.apiUrl].lastSeenAt == e.now
              && if d.apiUrl in t.relays
                 then CarriesOver(t'.relays[d.apiUrl], t.relays[d.apiUrl], e.step.authoritative)
                 else NoTelemetry(t'.relays[d.apiUrl])
  {
  }

  /** All index entries but that of identity `a` stay as they are. */
  ghost predicate OnlyEntry(t: Tables, t': Tables, a: string)
  {
    forall b :: b != a ==>
      && (b in t'.keyIndex <==> b in t.keyIndex)
      && (b in t.keyIndex ==> b in t'.keyIndex && t'.keyIndex[b] == t.keyIndex[b])
  }

  /** An accepted offer raises the entry of its identity, which expires 24 hours after the newest issue time. */
  lemma AcceptedOnIndex(t: Tables, e: Event)
    requires IndexOk(t) && e.step.Offer? && Accepts(t, e, e.step.descriptor)
    ensures var d, t' := e.step.descriptor, Exec(t, e);
            var a := Identity(d);
            && OnlyEntry(t, t', a)
            && a in t'.keyIndex && t'.keyIndex[a].issuedAt >= d.issuedAt
            && t'.keyIndex[a].tombstoneUntil == t'.keyIndex[a].issuedAt + 86400
            && (t'.keyIndex[a].issuedAt == d.issuedAt || (a in t.keyIndex && t'.keyIndex[a] == t.keyIndex[a]))
  {
    VerifiedIdentity(e.step.descriptor);
  }

  /** Any other offer at most forgets an entry whose 24 hours have passed. */
  lemma RejectedOnIndex(t: Tables, e: Event)
    requires IndexOk(t) && e.step.Offer? && !Accepts(t, e, e.step.descriptor)
    ensures var t', a := Exec(t, e), Identity(e.step.descriptor);
            && OnlyEntry(t, t', a)
            && (a in t'.keyIndex ==> a in t.keyIndex && t'.keyIndex[a] == t.keyIndex[a])
            && (a in t.keyIndex && a !in t'.keyIndex ==> t.keyIndex[a].issuedAt + 86400 < e.now)
  {
  }

  /** A purge removes exactly the index entries whose tombstone is set and has passed. */
  lemma PurgeEffect(t: Tables, now: int)
    ensures var t' := Exec(t, Event(now, Purge));
            && t'.relays == t.relays
            && (forall a :: a in t'.keyIndex <==>
                  a in t.keyIndex && (t.keyIndex[a].tombstoneUntil <= 0 || now <= t.keyIndex[a].tombstoneUntil))
            && (forall a :: a in t'.keyIndex ==> t'.keyIndex[a] == t.keyIndex[a])
  {
  }

  /** The records of all other URLs, and the index, stay as they are. */
  ghost predicate OnlyAt(t: Tables, t': Tables, u: string)
  {
    && t'.keyIndex == t.keyIndex
    && forall v :: v != u ==>
         (v in t'.relays <==> v in t.relays) && (v in t.relays ==> v in t'.relays && t'.relays[v] == t.relays[v])
  }

  /** Ban, allow and bootstrap set their one flag, on a record without telemetry if there is none yet. */
  lemma FlagEffects(t: Tables, e: Event, u: string)
    requires e.step == Ban(u) || e.step == Allow(u) || e.step == AddBootstrap(u)
    ensures var t' := Exec(t, e);
            && OnlyAt(t, t', u) && u in t'.relays
            && (u in t.relays ==>
                  t'.relays[u] == if e.step.Ban? then t.relays[u].(banned := true)
                                  else if e.step.Allow? then t.relays[u].(banned := false)
                                  else t.relays[u].(bootstrap := true))
            && (u !in t.relays ==>
                  var s := t'.relays[u];
                  && s.banned == e.step.Ban? && s.bootstrap == e.step.AddBootstrap?
                  && NoTelemetry(s.(banned := false, bootstrap := false))
                  && s.lastSeenAt == 0 && s.descriptor.apiUrl == u && s.descriptor.address == "")
  {
  }

  /** Clearing the bootstrap URLs drops that flag everywhere and nothing else. */
  lemma ClearBootstrapEffect(t: Tables, now: int)
    ensures var t' := Exec(t, Event(now, ClearBootstrap));
            && t'.keyIndex == t.keyIndex && t'.relays.Keys == t.relays.Keys
            && forall u :: u in t.relays ==> t'.relays[u] == t.relays[u].(bootstrap := false)
  {
  }

  /** Giving up a bootstrap URL keeps its record unless nothing at all is known of the relay. */
  lemma RemoveBootstrapEffect(t: Tables, u: string, now: int)
    ensures var t' := Exec(t, Event(now, RemoveBootstrap(u)));
            && OnlyAt(t, t', u)
            && (u in t'.relays <==>
                  u in t.relays && var s := t.relays[u];
                    s.lastSeenAt != 0 || s.banned || s.discoveryFailures != 0 || s.activeFailures != 0
                    || s.nextRefreshAt != 0 || s.suppressUntil != 0)
            && (u in t'.relays ==> t'.relays[u] == t.relays[u].(bootstrap := false))
  {
  }
}
