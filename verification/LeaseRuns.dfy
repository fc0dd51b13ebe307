/** What holds of the lease registry in every run: unique keys, record shapes and lease lifetimes. */
module LeaseRuns {
  import opened Wrappers
  import opened LeaseModel

  predicate IsLease(r: LeaseRecord)
  {
    r.hostname.Some? && r.hasStream && r.hopToken.None? && r.hopNextIpv4.None? && r.hopNextToken.None?
  }

  predicate IsHop(r: LeaseRecord)
  {
    && r.hostname.None? && !r.hasStream && r.hostnameHash.None?
    && r.hopToken.Some? && r.hopNextIpv4.Some? && r.hopNextToken.Some?
  }

  ghost predicate UniqueKeys(rs: seq<LeaseRecord>)
  {
    forall i, j, k :: 0 <= i < j < |rs| ==> !(HasKey(rs[i], k) && HasKey(rs[j], k))
  }

  predicate Shaped(rs: seq<LeaseRecord>) { forall i :: 0 <= i < |rs| ==> IsLease(rs[i]) || IsHop(rs[i]) }

  ghost predicate Inv(rs: seq<LeaseRecord>) { |rs| <= 1024 && UniqueKeys(rs) && Shaped(rs) }

  lemma {:induction false} SweptKeepsInv(rs: seq<LeaseRecord>, i: nat, now: int)
    requires Inv(rs) && i <= |rs|
    ensures Inv(Swept(rs, i, now))
    decreases |rs| - i
  {
    if i < |rs| {
      if Live(rs[i], now) {
        SweptKeepsInv(rs, i + 1, now);
      } else {
        SwapRemoveKeepsInv(rs, i);
        SweptKeepsInv(SwapRemoved(rs, i), i, now);
      }
    }
  }

  lemma SwapRemoveKeepsInv(rs: seq<LeaseRecord>, i: nat)
    requires Inv(rs) && i < |rs|
    ensures Inv(SwapRemoved(rs, i))
  {
    var n := |rs| - 1;
    var rs' := SwapRemoved(rs, i);
    forall a, b, k | 0 <= a < b < |rs'|
      ensures !(HasKey(rs'[a], k) && HasKey(rs'[b], k))
    {
      assert rs'[a] == rs[if a == i then n else a] && rs'[b] == rs[if b == i then n else b];
    }
  }

  lemma UpsertKeepsInv(rs: seq<LeaseRecord>, op: Op, now: int)
    requires Inv(rs) && (op.Register? || op.RegisterHop?)
    ensures Inv(Upserted(rs, op, now))
  {
    var i := First(rs, WithKey(KeyOf(op)));
    var rs' := Upserted(rs, op, now);
    forall a, b, k | 0 <= a < b < |rs'|
      ensures !(HasKey(rs'[a], k) && HasKey(rs'[b], k))
    {
      if i < |rs| {
        assert HasKey(rs'[a], k) <==> HasKey(rs[a], k);
        assert HasKey(rs'[b], k) <==> HasKey(rs[b], k);
      } else if b == |rs| {
        assert HasKey(rs'[b], k) <==> k == KeyOf(op);
        assert !WithKey(KeyOf(op))(rs[a]);
      }
    }
  }

  lemma ExecKeepsInv(rs: seq<LeaseRecord>, e: Event)
    requires Inv(rs)
    ensures Inv(Exec(rs, e))
  {
    match e.op {
      case Register(_, _, _, _, _, _, _) => UpsertKeepsInv(rs, e.op, e.now);
      case RegisterHop(_, _, _, _) => UpsertKeepsInv(rs, e.op, e.now);
      case UpdateBps(key, bps) => BpsKeepsInv(rs, First(rs, (r: LeaseRecord) => r.identityKey == key), bps);
      case Sweep => SweptKeepsInv(rs, 0, e.now);
    }
  }

  lemma BpsKeepsInv(rs: seq<LeaseRecord>, i: nat, bps: int)
    requires Inv(rs)
    ensures i < |rs| ==> Inv(rs[i := rs[i].(bpsLimit := bps)])
  {
    if i < |rs| {
      var rs' := rs[i := rs[i].(bpsLimit := bps)];
      forall a, b, k | 0 <= a < b < |rs'|
        ensures !(HasKey(rs'[a], k) && HasKey(rs'[b], k))
      {
        assert HasKey(rs'[a], k) <==> HasKey(rs[a], k);
        assert HasKey(rs'[b], k) <==> HasKey(rs[b], k);
      }
    }
  }

  /** In every run the keys stay unique, the capacity is kept, and every record is either a lease
      with a stream and no next hop, or a hop with a next hop and no hostname. */
  lemma {:induction false} ReachableInv(es: seq<Event>)
    ensures Inv(Run(es))
  {
    if es != [] {
      ReachableInv(es[..|es| - 1]);
      ExecKeepsInv(Run(es[..|es| - 1]), es[|es| - 1]);
    }
  }

  // ---------- Lifetimes ----------

  /** Event `e` registers key `k` or renews it. */
  predicate Grants(rs: seq<LeaseRecord>, e: Event, k: Key)
  {
    && (e.op.RegisterHop? || (e.op.Register? && e.op.allowed))
    && KeyOf(e.op) == k
    && (First(rs, WithKey(k)) < |rs| || |rs| < 1024)
  }

  /** When key `k` was last registered. */
  function LastGrant(es: seq<Event>, k: Key): Option<int>
  {
    if es == [] then None else
    var front, e := es[..|es| - 1], es[|es| - 1];
    if Grants(Run(front), e, k) then Some(e.now) else LastGrant(front, k)
  }

  lemma GrantSetsExpiry(rs: seq<LeaseRecord>, e: Event, k: Key)
    requires Inv(rs) && Grants(rs, e, k)
    ensures exists r :: r in Exec(rs, e) && HasKey(r, k)
    ensures forall r :: r in Exec(rs, e) && HasKey(r, k) ==> r.expiresAt == e.now + 300
  {
    var i, rs' := First(rs, WithKey(k)), Exec(rs, e);
    assert rs' == Upserted(rs, e.op, e.now);
    assert rs'[i] in rs' && HasKey(rs'[i], k);
    forall r | r in rs' && HasKey(r, k)
      ensures r.expiresAt == e.now + 300
    {
      var j :| 0 <= j < |rs'| && rs'[j] == r;
      UpsertKeepsInv(rs, e.op, e.now);
      assert i == j;
    }
  }

  lemma OtherKeysUntouched(rs: seq<LeaseRecord>, op: Op, now: int, k: Key, r: LeaseRecord)
    requires Inv(rs) && (op.Register? || op.RegisterHop?) && KeyOf(op) != k && HasKey(r, k)
    ensures r in Upserted(rs, op, now) <==> r in rs
  {
    var i, rs' := First(rs, WithKey(KeyOf(op))), Upserted(rs, op, now);
    if i < |rs| {
      assert !HasKey(rs[i], k) && !HasKey(rs'[i], k);
      if r in rs {
        var j :| 0 <= j < |rs| && rs[j] == r;
        assert rs'[j] == r;
      }
      if r in rs' {
        var j :| 0 <= j < |rs'| && rs'[j] == r;
        assert rs[j] == r;
      }
    }
  }

  /** Away from grants, a record with key `k` leaves only when it has expired, and its expiry never moves. */
  lemma NoGrantNoChange(rs: seq<LeaseRecord>, e: Event, k: Key)
    requires Inv(rs) && !Grants(rs, e, k)
    ensures forall r :: r in Exec(rs, e) && HasKey(r, k) ==>
              exists q :: q in rs && HasKey(q, k) && q.expiresAt == r.expiresAt
    ensures forall q :: q in rs && HasKey(q, k) && q.expiresAt > e.now ==> exists r :: r in Exec(rs, e) && HasKey(r, k)
  {
    match e.op {
      case Register(_, _, _, _, _, _, _) => UpsertElsewhere(rs, e, k);
      case RegisterHop(_, _, _, _) => UpsertElsewhere(rs, e, k);
      case UpdateBps(key, bps) =>
        var i, rs' := First(rs, (r: LeaseRecord) => r.identityKey == key), Exec(rs, e);
        forall r | r in rs' && HasKey(r, k)
          ensures exists q :: q in rs && HasKey(q, k) && q.expiresAt == r.expiresAt
        {
          var j :| 0 <= j < |rs'| && rs'[j] == r;
          assert rs[j] in rs && HasKey(rs[j], k);
        }
        forall q | q in rs && HasKey(q, k)
          ensures exists r :: r in rs' && HasKey(r, k)
        {
          var j :| 0 <= j < |rs| && rs[j] == q;
          assert rs'[j] in rs' && HasKey(rs'[j], k);
        }
      case Sweep =>
        forall r
          ensures r in Exec(rs, e) <==> r in rs && Live(r, e.now)
        {
          SweptMembers(rs, e.now, r);
        }
    }
  }

  lemma UpsertElsewhere(rs: seq<LeaseRecord>, e: Event, k: Key)
    requires Inv(rs) && !Grants(rs, e, k) && (e.op.Register? || e.op.RegisterHop?)
    ensures forall r :: HasKey(r, k) ==> (r in Exec(rs, e) <==> r in rs)
  {
    forall r | HasKey(r, k)
      ensures r in Exec(rs, e) <==> r in rs
    {
      if KeyOf(e.op) != k {
        OtherKeysUntouched(rs, e.op, e.now, k, r);
      }
    }
  }

  lemma {:induction false} ExpiryFollowsGrant(es: seq<Event>, k: Key)
    requires WellClocked(es)
    ensures forall r :: r in Run(es) && HasKey(r, k) ==> LastGrant(es, k) == Some(r.expiresAt - 300)
    ensures LastGrant(es, k).Some? && LastNow(es) < LastGrant(es, k).value + 300 ==>
              exists r :: r in Run(es) && HasKey(r, k)
  {
    if es != [] {
      var front, e := es[..|es| - 1], es[|es| - 1];
      ExpiryFollowsGrant(front, k);
      ReachableInv(front);
      if Grants(Run(front), e, k) {
        GrantSetsExpiry(Run(front), e, k);
      } else {
        NoGrantNoChange(Run(front), e, k);
        assert front == [] || LastNow(front) <= e.now;
      }
    }
  }

  /** A granted lease or hop is there for exactly 300 seconds after its last registration. */
  lemma LeaseLifetime(es: seq<Event>, k: Key, now: int)
    requires WellClocked(es) && LastNow(es) <= now
    ensures (exists r :: r in Run(es) && HasKey(r, k) && r.expiresAt > now) <==>
            (LastGrant(es, k).Some? && now < LastGrant(es, k).value + 300)
  {
    ExpiryFollowsGrant(es, k);
  }
}
