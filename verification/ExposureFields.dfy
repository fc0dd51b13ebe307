/** What a change to an exposure leaves in its lists, its relay set and its wanted relays, entry by entry. */
module ExposureFields {
  import opened ExposureModel
  import RelayModel
  import RelayRuns
  import RelayOffers
  import Selection
  import SelectionFields
  import Exposures
  import Mols

  // ---------- Lists ----------

  /** `r` holds the entries of `s` that are not in `us`, in order: `idx` lists where they stand. */
  predicate FilteredAt(s: seq<string>, r: seq<string>, us: seq<string>, idx: seq<nat>)
  {
    && |idx| == |r| && (forall i :: 0 <= i < |idx| ==> idx[i] < |s| && r[i] == s[idx[i]])
    && (forall i, j :: 0 <= i < j < |idx| ==> idx[i] < idx[j])
    && (forall k :: 0 <= k < |s| ==> (k in idx <==> s[k] !in us))
  }

  ghost predicate Filtered(s: seq<string>, r: seq<string>, us: seq<string>) { exists idx :: FilteredAt(s, r, us, idx) }

  lemma {:induction false} WithoutAllFiltered(s: seq<string>, us: seq<string>) returns (idx: seq<nat>)
    ensures FilteredAt(s, WithoutAll(s, us), us, idx)
  {
    if s == [] {
      idx := [];
    } else {
      var front, last := s[..|s| - 1], s[|s| - 1];
      idx := WithoutAllFiltered(front, us);
      assert s == front + [last];
      WithoutAllSnoc(front, last, us);
      OneMore(front, last, WithoutAll(front, us), us, idx);
      idx := if last in us then idx else idx + [|front|];
    }
  }

  lemma OneMore(s: seq<string>, x: string, r: seq<string>, us: seq<string>, idx: seq<nat>)
    requires FilteredAt(s, r, us, idx)
    ensures FilteredAt(s + [x], r + if x in us then [] else [x], us, if x in us then idx else idx + [|s|])
  {
    if x in us {
      assert r + [] == r;
      OneDropped(s, x, r, us, idx);
    } else {
      OneKept(s, x, r, us, idx);
    }
  }

  lemma OneDropped(s: seq<string>, x: string, r: seq<string>, us: seq<string>, idx: seq<nat>)
    requires FilteredAt(s, r, us, idx) && x in us
    ensures FilteredAt(s + [x], r, us, idx)
  {
    var t := s + [x];
    forall k | 0 <= k < |t|
      ensures k in idx <==> t[k] !in us
    {
      if k < |s| {
        assert t[k] == s[k];
      } else {
        assert forall i :: 0 <= i < |idx| ==> idx[i] != k;
      }
    }
  }

  lemma OneKept(s: seq<string>, x: string, r: seq<string>, us: seq<string>, idx: seq<nat>)
    requires FilteredAt(s, r, us, idx) && x !in us
    ensures FilteredAt(s + [x], r + [x], us, idx + [|s|])
  {
    var t, more := s + [x], idx + [|s|];
    forall k | 0 <= k < |t|
      ensures k in more <==> t[k] !in us
    {
      assert k in more <==> k in idx || k == |s|;
      if k < |s| {
        assert t[k] == s[k];
      }
    }
  }

  lemma WithoutFiltered(s: seq<string>, u: string)
    ensures Filtered(s, Without(s, u), [u])
  {
    WithoutIsWithoutAll(s, u);
    var idx := WithoutAllFiltered(s, [u]);
  }

  lemma {:induction false} WithoutBag(s: seq<string>, u: string)
    ensures multiset(Without(s, u)) == multiset(s)[u := 0]
  {
    if s != [] {
      WithoutBag(s[1..], u);
      assert s == [s[0]] + s[1..];
    }
  }

  /** The path after it has lost relay `v`: the others in order if there are two or more, else no path at all. */
  ghost predicate PathLoses(l: Lists, l': Lists, v: string)
  {
    if v !in l.multiHop then l'.multiHop == l.multiHop && l'.depth == l.depth
    else if |multiset(l.multiHop)[v := 0]| >= 2 then Filtered(l.multiHop, l'.multiHop, [v]) && l'.depth == l.depth
    else l'.multiHop == [] && l'.depth == 0
  }

  lemma ShortenedLoses(l: Lists, v: string)
    ensures PathLoses(l, Shortened(l, v), v)
    ensures Shortened(l, v).explicits == l.explicits && Shortened(l, v).seeds == l.seeds
  {
    WithoutFiltered(l.multiHop, v);
    WithoutBag(l.multiHop, v);
    assert |Without(l.multiHop, v)| == |multiset(Without(l.multiHop, v))|;
  }

  /** `v` is appended unless it is there already. */
  predicate Included(s: seq<string>, r: seq<string>, v: string) { r == if v in s then s else s + [v] }

  /** A path is taken if it does not have length one and, beside raw ports, only to give up a path without depth. */
  predicate PathTaken(l: Lists, us: seq<string>, ports: bool)
  {
    |us| != 1 && (ports ==> us == [] && l.depth <= 1)
  }

  /** The lists after each change, entry by entry and in order. */
  lemma ChangeOnLists(l: Lists, c: Change)
    ensures var l' := Changed(l, c);
            match c
            case Add(v) =>
              && Included(l.explicits, l'.explicits, v) && Filtered(l.seeds, l'.seeds, [v])
              && l'.multiHop == l.multiHop && l'.depth == l.depth
            case Remove(v) =>
              && Filtered(l.explicits, l'.explicits, [v]) && Filtered(l.seeds, l'.seeds, [v]) && PathLoses(l, l', v)
            case Seed(v) =>
              && Filtered(l.explicits, l'.explicits, [v]) && Included(l.seeds, l'.seeds, v) && PathLoses(l, l', v)
            case SetMultiHop(us, ports) =>
              if PathTaken(l, us, ports)
              then l'.multiHop == us && l'.depth == 0 && l'.explicits == l.explicits && Filtered(l.seeds, l'.seeds, us)
              else l' == l
            case Discover(_) => l' == l
  {
    match c {
      case Add(v) => WithoutFiltered(l.seeds, v);
      case Remove(v) =>
        WithoutFiltered(l.explicits, v);
        WithoutFiltered(l.seeds, v);
        ShortenedLoses(l.(explicits := Without(l.explicits, v), seeds := Without(l.seeds, v)), v);
      case Seed(v) =>
        WithoutFiltered(l.explicits, v);
        ShortenedLoses(l.(explicits := Without(l.explicits, v)), v);
      case SetMultiHop(us, _) =>
        var idx := WithoutAllFiltered(l.seeds, us);
      case Discover(_) =>
    }
  }

  // ---------- The relay set ----------

  /** Adding or seeding a relay leaves it in the relay set, allowed and as a bootstrap relay, and touches no other. */
  lemma EnlistOnRelays(t: RelayModel.Tables, v: string, now: int)
    ensures var t' := RelayModel.Run(t, Enlist(v, now));
            && v in t'.relays && !t'.relays[v].banned && t'.relays[v].bootstrap && RelayOffers.OnlyAt(t, t', v)
            && (v in t.relays ==> t'.relays[v] == t.relays[v].(banned := false, bootstrap := true))
  {
    var e, f := Enlist(v, now)[0], Enlist(v, now)[1];
    RelayModel.RunTwo(t, e, f);
    RelayOffers.FlagEffects(t, e, v);
    RelayOffers.FlagEffects(RelayModel.Exec(t, e), f, v);
  }

  /** Removing a relay leaves it in the relay set, banned and no bootstrap relay, and touches no other. */
  lemma ExpelOnRelays(t: RelayModel.Tables, v: string, now: int)
    ensures var t' := RelayModel.Run(t, Expel(v, now));
            && v in t'.relays && t'.relays[v].banned && !t'.relays[v].bootstrap && RelayOffers.OnlyAt(t, t', v)
            && (v in t.relays ==> t'.relays[v] == t.relays[v].(banned := true, bootstrap := false))
  {
    var e, f := Expel(v, now)[0], Expel(v, now)[1];
    RelayModel.RunTwo(t, e, f);
    RelayOffers.FlagEffects(t, e, v);
    RelayOffers.RemoveBootstrapEffect(RelayModel.Exec(t, e), v, now);
  }

  /** What each change does to the relay set. */
  lemma ChangeOnRelays(s: State, c: Change, now: int)
    ensures var t' := Exec(s, c, now).tables;
            match c
            case Add(v) => v in t'.relays && !t'.relays[v].banned && t'.relays[v].bootstrap
            case Seed(v) => v in t'.relays && !t'.relays[v].banned && t'.relays[v].bootstrap
            case Remove(v) => v in t'.relays && t'.relays[v].banned && !t'.relays[v].bootstrap
            case SetMultiHop(us, ports) =>
              if PathTaken(s.lists, us, ports)
              then forall v :: v in us ==> v in t'.relays && !t'.relays[v].banned && t'.relays[v].bootstrap
              else t' == s.tables
            case Discover(_) => true
  {
    match c {
      case Add(v) => EnlistOnRelays(s.tables, v, now);
      case Seed(v) => EnlistOnRelays(s.tables, v, now);
      case Remove(v) => ExpelOnRelays(s.tables, v, now);
      case SetMultiHop(us, ports) =>
        forall v | v in us
          ensures var t' := RelayModel.Run(s.tables, EnlistAll(us, now));
                  v in t'.relays && !t'.relays[v].banned && t'.relays[v].bootstrap
        {
          EnlistAllOnRelays(s.tables, us, v, now);
        }
      case Discover(_) =>
    }
  }

  lemma {:induction false} EnlistAllOnRelays(t: RelayModel.Tables, us: seq<string>, v: string, now: int)
    requires v in us
    ensures var t' := RelayModel.Run(t, EnlistAll(us, now));
            v in t'.relays && !t'.relays[v].banned && t'.relays[v].bootstrap
  {
    var front, last := us[..|us| - 1], us[|us| - 1];
    assert us == front + [last];
    var es := EnlistAll(front, now);
    var mid := RelayModel.Run(t, es);
    RelayModel.RunTwoMore(t, es, Enlist(last, now)[0], Enlist(last, now)[1]);
    RelayModel.RunTwo(mid, Enlist(last, now)[0], Enlist(last, now)[1]);
    EnlistOnRelays(mid, last, now);
    if v != last {
      EnlistAllOnRelays(t, front, v, now);
    }
  }

  // ---------- Wanted relays ----------

  /** The relays that should have a listener: the exit of the path; else, for depth two or more, usable relays with the
      ports of the exposure, as many as the depth allows; else the explicit relays. */
  lemma WantedOnFields(s: State, c: Exposures.Config, now: int, bucket: string -> Mols.Elem, wanted: seq<string>)
    requires Exposures.Wanted(s, c, now, bucket, wanted)
    ensures var client := Selection.ClientState([], [], c.maxActive, s.lists.depth, c.udp, c.tcp, c.targetAddr);
            if s.lists.multiHop != [] then wanted == [s.lists.multiHop[|s.lists.multiHop| - 1]]
            else if s.lists.depth <= 1 then wanted == s.lists.explicits
            else
              var usable := |set u | u in s.tables.relays && SelectionFields.UsableHop(s.tables, client, now, u)|;
              && (forall u :: u in wanted ==> SelectionFields.UsableHop(s.tables, client, now, u))
              && |wanted| == if s.lists.depth < usable then s.lists.depth else usable
  {
    if s.lists.multiHop == [] && s.lists.depth > 1 {
      var asked := Exposures.ClientOf(c, s.lists.depth);
      var client := Selection.ClientState([], [], c.maxActive, s.lists.depth, c.udp, c.tcp, c.targetAddr);
      SelectionFields.RouteOnFields(s.tables, asked, now, bucket, wanted);
      assert forall u :: SelectionFields.UsableHop(s.tables, asked, now, u) ==
                         SelectionFields.UsableHop(s.tables, client, now, u);
      assert (set u | u in s.tables.relays && SelectionFields.UsableHop(s.tables, asked, now, u)) ==
             (set u | u in s.tables.relays && SelectionFields.UsableHop(s.tables, client, now, u));
    }
  }
}
