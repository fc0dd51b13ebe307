/** What holds in every run of the relay discovery set: no rollback, index dominance, URL
    ownership and sticky bans. */
module RelayRuns {
  import opened RelayModel

  // ---------- Rollback defence ----------

  /** A descriptor of identity `a` issued at `m` can no longer be undercut: either the index
      remembers something at least as new, or anything older than `m` has expired by `clock`. */
  predicate Guards(t: Tables, a: string, m: int, clock: int)
  {
    (a in t.keyIndex && t.keyIndex[a].issuedAt >= m) || m + MAX_VALIDITY < clock
  }

  /** Every tombstone lies exactly one maximum validity after its issue time. */
  ghost predicate IndexOk(t: Tables)
  {
    forall a :: a in t.keyIndex ==>
      t.keyIndex[a].tombstoneUntil == t.keyIndex[a].issuedAt + MAX_VALIDITY && t.keyIndex[a].tombstoneUntil > 0
  }

  lemma ExecKeepsIndexOk(t: Tables, e: Event)
    requires IndexOk(t) && e.now > 0
    ensures IndexOk(Exec(t, e))
  {
    match e.step {
      case Offer(d, authoritative) =>
        if Admissible(d, e.now) {
          UpsertKeepsIndexOk(t, Candidate(t, d, authoritative, e.now), e.now, authoritative);
        }
      case _ =>
    }
  }

  lemma UpsertKeepsIndexOk(t: Tables, r: RelayState, now: int, takeover: bool)
    requires IndexOk(t) && r.descriptor.issuedAt + MAX_VALIDITY > 0
    ensures IndexOk(Upserted(t, r, now, takeover))
  {
  }

  lemma ExecKeepsGuards(t: Tables, e: Event, a: string, m: int, clock: int)
    requires IndexOk(t) && Guards(t, a, m, clock) && clock <= e.now
    ensures Guards(Exec(t, e), a, m, e.now)
  {
  }

  lemma AcceptanceGuards(t: Tables, e: Event, d: Descriptor)
    requires Accepts(t, e, d)
    ensures Guards(Exec(t, e), Identity(d), d.issuedAt, e.now)
  {
    VerifiedIdentity(d);
  }

  lemma GuardsBlockOlder(t: Tables, e: Event, d: Descriptor, m: int, clock: int)
    requires IndexOk(t) && Guards(t, Identity(d), m, clock) && clock <= e.now
    requires Accepts(t, e, d)
    ensures d.issuedAt >= m
  {
    VerifiedIdentity(d);
  }

  lemma {:induction false} RunKeepsIndexOk(es: seq<Event>)
    requires WellClocked(es)
    ensures IndexOk(Run(EMPTY, es))
  {
    if es != [] {
      var front := es[..|es| - 1];
      RunKeepsIndexOk(front);
      ExecKeepsIndexOk(Run(EMPTY, front), es[|es| - 1]);
    }
  }

  /** Once an identity is guarded it stays guarded, at every later point of every run. */
  lemma {:induction false} GuardsPersist(es: seq<Event>, i: nat, j: nat, a: string, m: int)
    requires WellClocked(es) && i < j <= |es|
    requires Guards(Run(EMPTY, es[..i + 1]), a, m, es[i].now)
    ensures Guards(Run(EMPTY, es[..j]), a, m, es[j - 1].now)
    decreases j
  {
    if j > i + 1 {
      GuardsPersist(es, i, j - 1, a, m);
      GuardsOneMore(es, j - 1, a, m);
    }
  }

  lemma GuardsOneMore(es: seq<Event>, k: nat, a: string, m: int)
    requires WellClocked(es) && 0 < k < |es|
    requires Guards(Run(EMPTY, es[..k]), a, m, es[k - 1].now)
    ensures Guards(Run(EMPTY, es[..k + 1]), a, m, es[k].now)
  {
    RunPrefix(EMPTY, es, k);
    RunKeepsIndexOk(es[..k]);
    ExecKeepsGuards(Run(EMPTY, es[..k]), es[k], a, m, es[k - 1].now);
  }

  /** No rollback: in every run, whatever is purged in between, the descriptors accepted for one
      identity have non-decreasing issue times. */
  lemma NoRollback(es: seq<Event>, i: nat, j: nat, first: Descriptor, later: Descriptor)
    requires WellClocked(es) && i < j < |es|
    requires Accepts(Run(EMPTY, es[..i]), es[i], first)
    requires Accepts(Run(EMPTY, es[..j]), es[j], later)
    requires Identity(first) == Identity(later)
    ensures first.issuedAt <= later.issuedAt
  {
    AcceptanceGuards(Run(EMPTY, es[..i]), es[i], first);
    RunPrefix(EMPTY, es, i);
    GuardsPersist(es, i, j, Identity(first), first.issuedAt);
    RunKeepsIndexOk(es[..j]);
    GuardsBlockOlder(Run(EMPTY, es[..j]), es[j], later, first.issuedAt, es[j - 1].now);
  }

  // ---------- The index dominates the table ----------

  predicate StateOk(t: Tables, u: string, clock: int)
    requires u in t.relays
  {
    var s := t.relays[u];
    var a := Identity(s.descriptor);
    && s.descriptor.apiUrl == u
    && (a != "" ==> Observed(s) && Guards(t, a, s.descriptor.issuedAt, clock))
  }

  ghost predicate Inv(t: Tables, clock: int)
  {
    IndexOk(t) && forall u :: u in t.relays ==> StateOk(t, u, clock)
  }

  lemma BlankHasNoIdentity(u: string)
    ensures Identity(BlankState(u).descriptor) == ""
  {
  }

  /** What one step can do to the record of URL `u`. */
  predicate KeepsRecord(t: Tables, t': Tables, u: string)
  {
    && u in t.relays && u in t'.relays
    && t'.relays[u].descriptor == t.relays[u].descriptor && t'.relays[u].lastSeenAt == t.relays[u].lastSeenAt
  }

  /** The step stores the offered descriptor at `u`. */
  predicate StoresOffer(t: Tables, e: Event, u: string)
  {
    && e.step.Offer? && Accepts(t, e, e.step.descriptor) && e.step.descriptor.apiUrl == u && u in Exec(t, e).relays
    && Exec(t, e).relays[u].descriptor == e.step.descriptor && Exec(t, e).relays[u].lastSeenAt == e.now
  }

  lemma OfferAtUrl(t: Tables, e: Event, u: string)
    requires e.step.Offer?
    ensures KeepsRecord(t, Exec(t, e), u) || (u !in t.relays && u !in Exec(t, e).relays) || StoresOffer(t, e, u)
  {
  }

  lemma ExecAtUrl(t: Tables, e: Event, u: string)
    ensures var t' := Exec(t, e);
            || KeepsRecord(t, t', u)
            || (u !in t'.relays && (u in t.relays ==> !Observed(t.relays[u])))
            || (u !in t.relays && u in t'.relays && t'.relays[u].descriptor == BlankState(u).descriptor)
            || StoresOffer(t, e, u)
  {
    if e.step.Offer? {
      OfferAtUrl(t, e, u);
    }
  }

  lemma ExecKeepsInv(t: Tables, e: Event, clock: int)
    requires Inv(t, clock) && e.now > 0 && clock <= e.now
    ensures Inv(Exec(t, e), e.now)
  {
    ExecKeepsIndexOk(t, e);
    forall u | u in Exec(t, e).relays
      ensures StateOk(Exec(t, e), u, e.now)
    {
      ExecKeepsStateOk(t, e, clock, u);
    }
  }

  lemma ExecKeepsStateOk(t: Tables, e: Event, clock: int, u: string)
    requires IndexOk(t) && e.now > 0 && clock <= e.now
    requires u in t.relays ==> StateOk(t, u, clock)
    requires u in Exec(t, e).relays
    ensures StateOk(Exec(t, e), u, e.now)
  {
    ExecAtUrl(t, e, u);
    BlankHasNoIdentity(u);
    var d := Exec(t, e).relays[u].descriptor;
    if KeepsRecord(t, Exec(t, e), u) {
      if Identity(d) != "" {
        ExecKeepsGuards(t, e, Identity(d), d.issuedAt, clock);
      }
    } else if u in t.relays || e.step.Offer? {
      if Accepts(t, e, d) {
        AcceptanceGuards(t, e, d);
      }
    }
  }

  function LastNow(es: seq<Event>): int { if es == [] then 0 else es[|es| - 1].now }

  /** In every reachable state the rollback index is at least as new as each stored descriptor,
      unless that descriptor is more than a maximum validity old. */
  lemma {:induction false} ReachableInv(es: seq<Event>)
    requires WellClocked(es)
    ensures Inv(Run(EMPTY, es), LastNow(es))
  {
    if es != [] {
      var front := es[..|es| - 1];
      ReachableInv(front);
      ExecKeepsInv(Run(EMPTY, front), es[|es| - 1], LastNow(front));
    }
  }

  /** An admissible offer that is not rejected leaves, at its URL, an unexpired descriptor of the
      same identity that is at least as new. */
  lemma OfferCovers(t: Tables, e: Event)
    requires e.step.Offer? && Admissible(e.step.descriptor, e.now)
    requires var r := Candidate(t, e.step.descriptor, e.step.authoritative, e.now);
             Judge(t, r, e.now, e.step.authoritative) != Rejected
    ensures Covered(Exec(t, e), e.step.descriptor, e.now)
  {
    VerifiedIdentity(e.step.descriptor);
  }

  // ---------- Ownership ----------

  function OwnerOf(t: Tables, u: string): string { if u in t.relays then Identity(t.relays[u].descriptor) else "" }

  lemma AcceptanceNeedsRight(t: Tables, e: Event, u: string)
    requires e.now > 0 && e.step.Offer? && e.step.descriptor.apiUrl == u
    requires Accepts(t, e, e.step.descriptor)
    requires OwnerOf(t, u) != "" && OwnerOf(t, u) != Identity(e.step.descriptor)
    ensures e.step.authoritative || t.relays[u].descriptor.expiresAt <= e.now
  {
    VerifiedIdentity(e.step.descriptor);
  }

  /** In every run, the identity stored for a URL changes only when its descriptor has expired,
      or through an authoritative offer for that very URL. */
  lemma OwnershipChange(es: seq<Event>, k: nat, u: string)
    requires WellClocked(es) && k < |es|
    requires var before, after := OwnerOf(Run(EMPTY, es[..k]), u), OwnerOf(Run(EMPTY, es[..k + 1]), u);
             before != "" && before != after
    ensures es[k].step.Offer? && es[k].step.descriptor.apiUrl == u
    ensures es[k].step.authoritative || Run(EMPTY, es[..k]).relays[u].descriptor.expiresAt <= es[k].now
  {
    var t := Run(EMPTY, es[..k]);
    RunPrefix(EMPTY, es, k);
    ReachableInv(es[..k]);
    assert StateOk(t, u, LastNow(es[..k]));
    ExecAtUrl(t, es[k], u);
    AcceptanceNeedsRight(t, es[k], u);
  }

  lemma OfferKeepsOwner(t: Tables, e: Event, u: string)
    requires e.step.Offer? && !(e.step.authoritative && e.step.descriptor.apiUrl == u)
    requires u in t.relays && OwnerOf(t, u) != "" && t.relays[u].descriptor.expiresAt > e.now > 0
    ensures var t' := Exec(t, e);
            u in t'.relays && OwnerOf(t', u) == OwnerOf(t, u) && t'.relays[u].descriptor.expiresAt > e.now
  {
    var d := e.step.descriptor;
    if d.apiUrl == u && Accepts(t, e, d) && OwnerOf(t, u) != Identity(d) {
      AcceptanceNeedsRight(t, e, u);
    }
  }

  /** A whole response at one clock reading cannot move an unexpired URL to another identity,
      unless that URL itself answered without a version mismatch. */
  lemma {:induction false} ResponseKeepsOwner(t: Tables, target: string, mismatch: bool, relays: seq<Descriptor>,
                                              now: int, u: string, k: nat)
    requires k <= |relays|
    requires u in t.relays && OwnerOf(t, u) != "" && t.relays[u].descriptor.expiresAt > now > 0
    requires mismatch || u != target
    ensures var t' := Run(t, ResponseEvents(target, mismatch, relays, now)[..k]);
            u in t'.relays && OwnerOf(t', u) == OwnerOf(t, u) && t'.relays[u].descriptor.expiresAt > now
  {
    if k > 0 {
      var es := ResponseEvents(target, mismatch, relays, now);
      ResponseKeepsOwner(t, target, mismatch, relays, now, u, k - 1);
      RunPrefix(t, es, k - 1);
      OfferKeepsOwner(Run(t, es[..k - 1]), es[k - 1], u);
    }
  }

  // ---------- Bans ----------

  predicate Banned(t: Tables, u: string) { u in t.relays && t.relays[u].banned }

  /** A banned URL stays banned through every run that does not allow it again, and a run can
      only ban a URL by banning it. */
  lemma {:induction false} BansAreSticky(t: Tables, es: seq<Event>, u: string)
    ensures Banned(t, u) && (forall k :: 0 <= k < |es| ==> es[k].step != Allow(u)) ==> Banned(Run(t, es), u)
    ensures !Banned(t, u) && (forall k :: 0 <= k < |es| ==> es[k].step != Ban(u)) ==> !Banned(Run(t, es), u)
  {
    if es != [] {
      var front := es[..|es| - 1];
      BansAreSticky(t, front, u);
      ExecOnBans(Run(t, front), es[|es| - 1], u);
      assert es[|es| - 1] in es;
    }
  }

  lemma ExecOnBans(t: Tables, e: Event, u: string)
    ensures Banned(t, u) && e.step != Allow(u) ==> Banned(Exec(t, e), u)
    ensures !Banned(t, u) && e.step != Ban(u) ==> !Banned(Exec(t, e), u)
  {
  }
}
