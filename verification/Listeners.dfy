/** The listeners of an exposure: two parallel lists, reconciled with the relays that are wanted. */
module Listeners {
  import opened Sequences

  /** A listener object, by identity. */
  type Listener = nat

  type Pairs = seq<(string, Listener)>

  function Zip(urls: seq<string>, ids: seq<Listener>): (r: Pairs)
    requires |urls| == |ids|
    ensures |r| == |urls| && forall i :: 0 <= i < |r| ==> r[i] == (urls[i], ids[i])
  {
    seq(|urls|, i requires 0 <= i < |urls| => (urls[i], ids[i]))
  }

  /** The pairs whose URL is wanted, in order. */
  function Kept(ps: Pairs, wanted: seq<string>): Pairs
  {
    if ps == [] then [] else (if ps[0].0 in wanted then [ps[0]] else []) + Kept(ps[1..], wanted)
  }

  lemma {:induction false} KeptConcat(p: Pairs, q: Pairs, wanted: seq<string>)
    ensures Kept(p + q, wanted) == Kept(p, wanted) + Kept(q, wanted)
  {
    if p == [] {
      assert p + q == q;
    } else {
      assert (p + q)[0] == p[0] && (p + q)[1..] == p[1..] + q;
      KeptConcat(p[1..], q, wanted);
      var head := if p[0].0 in wanted then [p[0]] else [];
      Regroup(head, Kept(p[1..], wanted), Kept(q, wanted));
    }
  }

  lemma {:induction false} AllKept(p: Pairs, wanted: seq<string>)
    requires forall i :: 0 <= i < |p| ==> p[i].0 in wanted
    ensures Kept(p, wanted) == p
  {
    if p != [] {
      AllKept(p[1..], wanted);
    }
  }

  lemma {:induction false} KeptMembers(p: Pairs, wanted: seq<string>, x: (string, Listener))
    ensures x in Kept(p, wanted) <==> x in p && x.0 in wanted
  {
    if p != [] {
      KeptMembers(p[1..], wanted, x);
    }
  }

  predicate Distinct(ps: Pairs) { forall i, j :: 0 <= i < j < |ps| ==> ps[i].0 != ps[j].0 }

  lemma {:induction false} KeptDistinct(p: Pairs, wanted: seq<string>)
    requires Distinct(p)
    ensures Distinct(Kept(p, wanted))
  {
    if p != [] {
      var rest := Kept(p[1..], wanted);
      KeptDistinct(p[1..], wanted);
      forall j | 0 <= j < |rest|
        ensures rest[j].0 != p[0].0
      {
        KeptMembers(p[1..], wanted, rest[j]);
        var k :| 0 <= k < |p[1..]| && p[1..][k] == rest[j];
        assert p[k + 1] == rest[j];
      }
    }
  }

  /** What reconciling makes of `before`: the wanted listeners survive as the objects they are, the
      others go, and each missing relay whose listener can be created gets a new object. */
  ghost predicate Reconciled(before: Pairs, after: Pairs, wanted: seq<string>, creates: string -> bool, next: Listener)
  {
    && Distinct(after)
    && (forall u, l :: (u, l) in before && u in wanted ==> (u, l) in after)
    && (forall u, l :: (u, l) in after ==> u in wanted && ((u, l) in before || (l >= next && creates(u))))
    && (forall u :: u in wanted && creates(u) ==> exists l :: (u, l) in after)
  }

  /** When every listener can be created, exactly the wanted relays have one. */
  lemma ReconciledIsExact(before: Pairs, after: Pairs, wanted: seq<string>, creates: string -> bool, next: Listener)
    requires Reconciled(before, after, wanted, creates, next)
    requires forall u :: u in wanted ==> creates(u)
    ensures forall u :: u in wanted <==> exists l :: (u, l) in after
  {
  }

  /** Listeners created so far are numbered below `next`. */
  predicate Below(ps: Pairs, next: Listener) { forall p :: p in ps ==> p.1 < next }

  /** `after` extends `kept` by new listeners for wanted relays only. */
  ghost predicate Grown(kept: Pairs, after: Pairs, wanted: seq<string>, creates: string -> bool, next: Listener)
  {
    && (forall x :: x in kept ==> x in after)
    && (forall x :: x in after ==> x in kept || (x.0 in wanted && x.1 >= next && creates(x.0)))
  }

  lemma GrowsByOne(kept: Pairs, after: Pairs, wanted: seq<string>, creates: string -> bool, next: Listener,
                   u: string, l: Listener)
    requires Grown(kept, after, wanted, creates, next) && u in wanted && creates(u) && l >= next
    ensures Grown(kept, after + [(u, l)], wanted, creates, next)
  {
  }

  lemma UrlHasListener(urls: seq<string>, ids: seq<Listener>, u: string)
    requires |urls| == |ids| && u in urls
    ensures exists l :: (u, l) in Zip(urls, ids)
  {
    var i :| 0 <= i < |urls| && urls[i] == u;
    assert Zip(urls, ids)[i] == (u, ids[i]);
  }

  lemma KeptExactly(p: Pairs, wanted: seq<string>)
    ensures forall x :: x in Kept(p, wanted) <==> x in p && x.0 in wanted
  {
    forall x
      ensures x in Kept(p, wanted) <==> x in p && x.0 in wanted
    {
      KeptMembers(p, wanted, x);
    }
  }

  /** The shifting loop over both lists, which then lose their last element. */
  method ShiftDown(us: seq<string>, ls: seq<Listener>, idx: nat) returns (urls: seq<string>, ids: seq<Listener>)
    requires idx < |us| == |ls|
    ensures urls == DropAt(us, idx) && ids == DropAt(ls, idx)
  {
    urls, ids := us, ls;
    var i := idx;
    while i + 1 < |us|
      invariant idx <= i < |us| == |urls| == |ids|
      invariant forall j :: 0 <= j < idx || i <= j < |us| ==> urls[j] == us[j] && ids[j] == ls[j]
      invariant forall j :: idx <= j < i ==> urls[j] == us[j + 1] && ids[j] == ls[j + 1]
    {
      urls := urls[i := urls[i + 1]];
      ids := ids[i := ids[i + 1]];
      i := i + 1;
    }
    DropAtIs(us, urls[..i], idx);
    DropAtIs(ls, ids[..i], idx);
    urls, ids := urls[..i], ids[..i];
  }

  function DropAt<T>(s: seq<T>, idx: nat): (r: seq<T>)
    requires idx < |s|
    ensures |r| == |s| - 1
  {
    s[..idx] + s[idx + 1..]
  }

  lemma DropAtIs<T>(s: seq<T>, r: seq<T>, idx: nat)
    requires idx < |s| == |r| + 1
    requires forall j :: 0 <= j < idx ==> r[j] == s[j]
    requires forall j :: idx <= j < |r| ==> r[j] == s[j + 1]
    ensures r == DropAt(s, idx)
  {
  }

  lemma ZipDropAt(us: seq<string>, ls: seq<Listener>, idx: nat)
    requires idx < |us| == |ls|
    ensures Zip(DropAt(us, idx), DropAt(ls, idx)) == DropAt(Zip(us, ls), idx)
  {
  }

  class ListenerTable {
    var urls: seq<string>
    var listeners: seq<Listener>
    var nextListener: Listener

    ghost predicate Valid()
      reads this
    {
      |urls| == |listeners| && Distinct(Contents())
    }

    ghost function Contents(): Pairs
      reads this
    {
      if |urls| == |listeners| then Zip(urls, listeners) else []
    }

    constructor ()
      ensures Valid() && Contents() == []
    {
      urls, listeners, nextListener := [], [], 0;
    }

    /** `exposure_remove_listener_at`: both lists are shifted down by one. */
    method RemoveAt(idx: nat)
      requires idx < |urls| == |listeners|
      modifies this`urls, this`listeners
      ensures |urls| == |listeners| && Contents() == old(Contents())[..idx] + old(Contents())[idx + 1..]
    {
      ghost var us, ls := urls, listeners;
      urls, listeners := ShiftDown(urls, listeners, idx);
      ZipDropAt(us, ls, idx);
    }

    /** The indices of the listeners that are not wanted, in ascending order. */
    method StaleIndices(wanted: seq<string>) returns (stale: seq<nat>)
      requires |urls| == |listeners|
      ensures StaleIn(Contents(), wanted, stale)
    {
      stale := [];
      for i := 0 to |urls|
        invariant forall k :: 0 <= k < |stale| ==> stale[k] < i
        invariant forall k, l :: 0 <= k < l < |stale| ==> stale[k] < stale[l]
        invariant forall j :: 0 <= j < i ==> (j in stale <==> urls[j] !in wanted)
      {
        if urls[i] !in wanted {
          stale := stale + [i];
        }
      }
    }

    /** Removes the stale listeners from the back, so that the remaining indices stay right. */
    method RemoveStale(wanted: seq<string>)
      requires |urls| == |listeners|
      modifies this`urls, this`listeners
      ensures |urls| == |listeners| && Contents() == Kept(old(Contents()), wanted)
    {
      ghost var ps := Contents();
      var stale := StaleIndices(wanted);
      var i := |stale|;
      SweptAtEnds(ps, wanted, stale);
      while i > 0
        invariant 0 <= i <= |stale|
        invariant |urls| == |listeners| && Contents() == Swept(ps, wanted, Frontier(ps, stale, i))
      {
        StaleStep(ps, wanted, stale, i, Contents());
        i := i - 1;
        RemoveAt(stale[i]);
      }
    }

    /** `reconcile_relay_listeners`, once the wanted relays are known.  `creates` says which
        listeners can be created; a created listener is an object not seen before. */
    method Reconcile(wanted: seq<string>, creates: string -> bool)
      requires Valid() && Below(Contents(), nextListener)
      modifies this
      ensures Valid() && Below(Contents(), nextListener)
      ensures Reconciled(old(Contents()), Contents(), wanted, creates, old(nextListener))
      ensures forall u, l :: (u, l) in old(Contents()) && u in wanted ==> (u, l) in Contents()
      ensures forall u, l :: (u, l) in Contents() ==> u in wanted && ((u, l) in old(Contents()) || creates(u))
    {
      ghost var before := Contents();
      RemoveStale(wanted);
      KeptDistinct(before, wanted);
      KeptExactly(before, wanted);
      AddMissing(wanted, creates);
    }

    /** Creates a listener for each wanted relay that has none yet. */
    method AddMissing(wanted: seq<string>, creates: string -> bool)
      requires Valid() && Below(Contents(), nextListener)
      modifies this
      ensures Valid() && Below(Contents(), nextListener)
      ensures Grown(old(Contents()), Contents(), wanted, creates, old(nextListener))
      ensures forall u :: u in wanted && creates(u) ==> exists l :: (u, l) in Contents()
    {
      ghost var kept, next := Contents(), nextListener;
      for j := 0 to |wanted|
        invariant Valid() && next <= nextListener && Below(Contents(), nextListener)
        invariant Grown(kept, Contents(), wanted, creates, next)
        invariant forall i :: 0 <= i < j && creates(wanted[i]) ==> wanted[i] in urls
      {
        if wanted[j] !in urls && creates(wanted[j]) {
          ghost var was, l := Contents(), nextListener;
          AddListener(wanted[j]);
          GrowsByOne(kept, was, wanted, creates, next, wanted[j], l);
        }
      }
      forall u | u in wanted && creates(u)
        ensures exists l :: (u, l) in Contents()
      {
        UrlHasListener(urls, listeners, u);
      }
    }

    /** `exposure_add_listener` with a newly created listener. */
    method AddListener(url: string)
      requires Valid() && url !in urls
      modifies this
      ensures Valid() && urls == old(urls) + [url] && nextListener == old(nextListener) + 1
      ensures Contents() == old(Contents()) + [(url, old(nextListener))]
    {
      urls, listeners := urls + [url], listeners + [nextListener];
      nextListener := nextListener + 1;
      assert Contents() == old(Contents()) + [(url, old(nextListener))];
      assert forall i :: 0 <= i < |old(urls)| ==> old(urls)[i] in old(urls);
    }
  }

  /** `stale` lists the indices of the unwanted pairs, ascending. */
  predicate StaleIn(ps: Pairs, wanted: seq<string>, stale: seq<nat>)
  {
    && (forall k :: 0 <= k < |stale| ==> stale[k] < |ps|)
    && (forall k, l :: 0 <= k < l < |stale| ==> stale[k] < stale[l])
    && (forall i :: 0 <= i < |ps| ==> (i in stale <==> ps[i].0 !in wanted))
  }

  /** Where the sweep has got to when the first `i` stale indices are still to be removed. */
  function Frontier(ps: Pairs, stale: seq<nat>, i: nat): nat { if i < |stale| then stale[i] else |ps| }

  /** The pairs before the frontier untouched, the others swept. */
  function Swept(ps: Pairs, wanted: seq<string>, m: nat): Pairs
  {
    if m <= |ps| then ps[..m] + Kept(ps[m..], wanted) else ps
  }

  /** Between two neighbouring stale indices everything is wanted. */
  lemma BetweenStale(ps: Pairs, wanted: seq<string>, stale: seq<nat>, i: nat)
    requires StaleIn(ps, wanted, stale) && 0 < i <= |stale|
    ensures stale[i - 1] < Frontier(ps, stale, i) <= |ps| && ps[stale[i - 1]].0 !in wanted
    ensures forall k :: stale[i - 1] < k < Frontier(ps, stale, i) ==> ps[k].0 in wanted
  {
    assert stale[i - 1] in stale;
    forall k | stale[i - 1] < k < Frontier(ps, stale, i)
      ensures ps[k].0 in wanted
    {
      assert k !in stale;
    }
  }

  /** Removing one stale pair moves the frontier down to it. */
  lemma StaleStep(ps: Pairs, wanted: seq<string>, stale: seq<nat>, i: nat, c: Pairs)
    requires StaleIn(ps, wanted, stale) && 0 < i <= |stale|
    requires c == Swept(ps, wanted, Frontier(ps, stale, i))
    ensures var idx := stale[i - 1];
            idx < |c| && Swept(ps, wanted, Frontier(ps, stale, i - 1)) == c[..idx] + c[idx + 1..]
  {
    var idx, m := stale[i - 1], Frontier(ps, stale, i);
    BetweenStale(ps, wanted, stale, i);
    KeptFrom(ps, wanted, idx, m);
    WithoutAt(ps, idx, m, Kept(ps[m..], wanted));
  }

  lemma KeptFrom(ps: Pairs, wanted: seq<string>, idx: nat, m: nat)
    requires idx < m <= |ps| && ps[idx].0 !in wanted
    requires forall k :: idx < k < m ==> ps[k].0 in wanted
    ensures Kept(ps[idx..], wanted) == ps[idx + 1..m] + Kept(ps[m..], wanted)
  {
    var middle := ps[idx + 1..m];
    AllKept(middle, wanted);
    assert ps[idx..][1..] == middle + ps[m..];
    KeptConcat(middle, ps[m..], wanted);
  }

  lemma WithoutAt(ps: Pairs, idx: nat, m: nat, tail: Pairs)
    requires idx < m <= |ps|
    ensures var c := ps[..m] + tail;
            c[..idx] + c[idx + 1..] == ps[..idx] + (ps[idx + 1..m] + tail)
  {
    var c := ps[..m] + tail;
    assert c[..idx] == ps[..idx];
    assert c[idx + 1..] == ps[idx + 1..m] + tail;
  }

  lemma SweptAtEnds(ps: Pairs, wanted: seq<string>, stale: seq<nat>)
    requires StaleIn(ps, wanted, stale)
    ensures Swept(ps, wanted, Frontier(ps, stale, |stale|)) == ps
    ensures Swept(ps, wanted, Frontier(ps, stale, 0)) == Kept(ps, wanted)
  {
    var m := Frontier(ps, stale, 0);
    forall k | 0 <= k < m
      ensures ps[k].0 in wanted
    {
      assert k !in stale;
    }
    AllKept(ps[..m], wanted);
    assert ps == ps[..m] + ps[m..];
    KeptConcat(ps[..m], ps[m..], wanted);
  }
}
