/** The relay lists of an exposure, kept in step with the bans of its relay set. */
module ExposureModel {
  import opened RelayModel
  import RelayRuns

  datatype Lists = Lists(explicits: seq<string>, seeds: seq<string>, multiHop: seq<string>, depth: int)

  datatype State = State(lists: Lists, tables: Tables)

  /** Changes to a running exposure; discovery interleaves with them but neither bans nor allows. */
  datatype Change =
    | Add(url: string)
    | Remove(url: string)
    | Seed(url: string)
    | SetMultiHop(urls: seq<string>, ports: bool)
    | Discover(event: Event)

  // ---------- Lists ----------

  function Without(s: seq<string>, u: string): seq<string>
  {
    if s == [] then [] else (if s[0] == u then [] else [s[0]]) + Without(s[1..], u)
  }

  function WithoutAll(s: seq<string>, us: seq<string>): seq<string>
  {
    if s == [] then [] else (if s[0] in us then [] else [s[0]]) + WithoutAll(s[1..], us)
  }

  function Including(s: seq<string>, u: string): seq<string> { if u in s then s else s + [u] }

  lemma {:induction false} WithoutMembers(s: seq<string>, u: string, v: string)
    ensures v in Without(s, u) <==> v in s && v != u
  {
    if s != [] {
      WithoutMembers(s[1..], u, v);
    }
  }

  lemma {:induction false} WithoutAllMembers(s: seq<string>, us: seq<string>, v: string)
    ensures v in WithoutAll(s, us) <==> v in s && v !in us
  {
    if s != [] {
      WithoutAllMembers(s[1..], us, v);
    }
  }

  lemma {:induction false} WithoutAllSnoc(s: seq<string>, x: string, us: seq<string>)
    ensures WithoutAll(s + [x], us) == WithoutAll(s, us) + if x in us then [] else [x]
  {
    if s != [] {
      assert (s + [x])[1..] == s[1..] + [x];
      WithoutAllSnoc(s[1..], x, us);
    }
  }

  lemma {:induction false} WithoutIsWithoutAll(s: seq<string>, u: string)
    ensures Without(s, u) == WithoutAll(s, [u])
  {
    if s != [] {
      WithoutIsWithoutAll(s[1..], u);
    }
  }

  /** A multi-hop path that loses a relay is dropped altogether once fewer than two are left. */
  function Shortened(l: Lists, u: string): Lists
  {
    if u !in l.multiHop then l
    else if |Without(l.multiHop, u)| < 2 then l.(multiHop := [], depth := 0)
    else l.(multiHop := Without(l.multiHop, u))
  }

  /** A multi-hop path has two relays or more, and excludes raw UDP and TCP ports. */
  predicate PathRefused(l: Lists, urls: seq<string>, ports: bool)
  {
    |urls| == 1 || ((|urls| > 0 || l.depth > 1) && ports)
  }

  function Changed(l: Lists, c: Change): Lists
  {
    match c
    case Add(u) => l.(explicits := Including(l.explicits, u), seeds := Without(l.seeds, u))
    case Remove(u) => Shortened(l.(explicits := Without(l.explicits, u), seeds := Without(l.seeds, u)), u)
    case Seed(u) =>
      var s := Shortened(l.(explicits := Without(l.explicits, u)), u);
      s.(seeds := Including(s.seeds, u))
    case SetMultiHop(us, ports) =>
      if PathRefused(l, us, ports) then l
      else l.(multiHop := us, depth := 0, seeds := WithoutAll(l.seeds, us))
    case Discover(_) => l
  }

  // ---------- Relay set ----------

  function Enlist(u: string, now: int): seq<Event> { [Event(now, Allow(u)), Event(now, AddBootstrap(u))] }

  function Expel(u: string, now: int): seq<Event> { [Event(now, Ban(u)), Event(now, RemoveBootstrap(u))] }

  function EnlistAll(us: seq<string>, now: int): seq<Event>
  {
    if us == [] then [] else EnlistAll(us[..|us| - 1], now) + Enlist(us[|us| - 1], now)
  }

  /** What the change does to the relay set. */
  function Effects(l: Lists, c: Change, now: int): seq<Event>
  {
    match c
    case Add(u) => Enlist(u, now)
    case Remove(u) => Expel(u, now)
    case Seed(u) => Enlist(u, now)
    case SetMultiHop(us, ports) => if PathRefused(l, us, ports) then [] else EnlistAll(us, now)
    case Discover(e) => if e.step.Ban? || e.step.Allow? then [] else [e]
  }

  function Exec(s: State, c: Change, now: int): State
  {
    State(Changed(s.lists, c), Run(s.tables, Effects(s.lists, c, now)))
  }

  // ---------- Invariants ----------

  predicate Listed(l: Lists, u: string) { u in l.explicits || u in l.seeds || u in l.multiHop }

  ghost predicate Disjoint(l: Lists) { forall u :: u in l.seeds ==> u !in l.explicits && u !in l.multiHop }

  ghost predicate Inv(s: State)
  {
    && Disjoint(s.lists)
    && forall u :: Listed(s.lists, u) ==> !RelayRuns.Banned(s.tables, u)
  }

  lemma ChangeKeepsDisjoint(l: Lists, c: Change)
    requires Disjoint(l)
    ensures Disjoint(Changed(l, c))
  {
    var l' := Changed(l, c);
    forall u | u in l'.seeds
      ensures u !in l'.explicits && u !in l'.multiHop
    {
      ListedAfter(l, c, u);
    }
  }

  /** Membership after a change, list by list. */
  lemma ListedAfter(l: Lists, c: Change, u: string)
    ensures var l' := Changed(l, c);
            match c
            case Add(v) =>
              (u in l'.explicits <==> u in l.explicits || u == v) && (u in l'.seeds <==> u in l.seeds && u != v)
              && l'.multiHop == l.multiHop
            case Remove(v) =>
              (u in l'.explicits <==> u in l.explicits && u != v) && (u in l'.seeds <==> u in l.seeds && u != v)
              && (u in l'.multiHop ==> u in l.multiHop && u != v)
            case Seed(v) =>
              (u in l'.explicits <==> u in l.explicits && u != v) && (u in l'.seeds <==> u in l.seeds || u == v)
              && (u in l'.multiHop ==> u in l.multiHop && u != v)
            case SetMultiHop(us, ports) =>
              || l' == l
              || (l'.explicits == l.explicits && l'.multiHop == us && (u in l'.seeds <==> u in l.seeds && u !in us))
            case Discover(_) => l' == l
  {
    match c {
      case Add(v) => WithoutMembers(l.seeds, v, u);
      case Remove(v) =>
        WithoutMembers(l.explicits, v, u);
        WithoutMembers(l.seeds, v, u);
        WithoutMembers(l.multiHop, v, u);
      case Seed(v) =>
        WithoutMembers(l.explicits, v, u);
        WithoutMembers(l.multiHop, v, u);
      case SetMultiHop(us, _) => WithoutAllMembers(l.seeds, us, u);
      case Discover(_) =>
    }
  }

  lemma {:induction false} EnlistAllUnbans(t: Tables, us: seq<string>, now: int, u: string)
    requires u in us || !RelayRuns.Banned(t, u)
    ensures !RelayRuns.Banned(Run(t, EnlistAll(us, now)), u)
  {
    if us != [] {
      var front, last := us[..|us| - 1], us[|us| - 1];
      assert us == front + [last];
      var es := EnlistAll(front, now);
      if u in front || !RelayRuns.Banned(t, u) {
        EnlistAllUnbans(t, front, now, u);
      }
      EnlistOne(t, es, last, now, u);
    }
  }

  lemma EnlistOne(t: Tables, es: seq<Event>, v: string, now: int, u: string)
    requires u == v || !RelayRuns.Banned(Run(t, es), u)
    ensures !RelayRuns.Banned(Run(t, es + Enlist(v, now)), u)
  {
    var e, f := Enlist(v, now)[0], Enlist(v, now)[1];
    RunTwoMore(t, es, e, f);
    RelayRuns.ExecOnBans(Run(t, es), e, u);
    RelayRuns.ExecOnBans(RelayModel.Exec(Run(t, es), e), f, u);
  }

  lemma EffectsOnBans(s: State, c: Change, now: int, u: string)
    requires !RelayRuns.Banned(s.tables, u) || (c.Add? && c.url == u) || (c.Seed? && c.url == u)
             || (c.SetMultiHop? && !PathRefused(s.lists, c.urls, c.ports) && u in c.urls)
    requires !(c.Remove? && c.url == u)
    ensures !RelayRuns.Banned(Exec(s, c, now).tables, u)
  {
    match c {
      case Add(v) => EnlistFirst(s.tables, v, now, u);
      case Seed(v) => EnlistFirst(s.tables, v, now, u);
      case Remove(v) => RelayRuns.BansAreSticky(s.tables, Effects(s.lists, c, now), u);
      case SetMultiHop(us, _) => EnlistAllUnbans(s.tables, us, now, u);
      case Discover(_) => RelayRuns.BansAreSticky(s.tables, Effects(s.lists, c, now), u);
    }
  }

  lemma EnlistFirst(t: Tables, v: string, now: int, u: string)
    requires u == v || !RelayRuns.Banned(t, u)
    ensures !RelayRuns.Banned(Run(t, Enlist(v, now)), u)
  {
    EnlistOne(t, [], v, now, u);
    assert [] + Enlist(v, now) == Enlist(v, now);
  }

  lemma ExecKeepsInv(s: State, c: Change, now: int)
    requires Inv(s)
    ensures Inv(Exec(s, c, now))
    ensures |s.lists.multiHop| != 1 ==> |Exec(s, c, now).lists.multiHop| != 1
  {
    ChangeKeepsDisjoint(s.lists, c);
    forall u | Listed(Changed(s.lists, c), u)
      ensures !RelayRuns.Banned(Exec(s, c, now).tables, u)
    {
      ListedAfter(s.lists, c, u);
      EffectsOnBans(s, c, now, u);
    }
  }

  /** A change and the clock reading at which it happens. */
  datatype Timed = Timed(now: int, change: Change)

  function RunChanges(s: State, cs: seq<Timed>): State
  {
    if cs == [] then s else
    var last := cs[|cs| - 1];
    Exec(RunChanges(s, cs[..|cs| - 1]), last.change, last.now)
  }

  /** After any sequence of changes and discovery steps: seeds are neither explicit nor on the
      path, no listed relay is banned, and the path never has length one unless it started so. */
  lemma {:induction false} InvAlways(s: State, cs: seq<Timed>)
    requires Inv(s)
    ensures Inv(RunChanges(s, cs))
    ensures |s.lists.multiHop| != 1 ==> |RunChanges(s, cs).lists.multiHop| != 1
  {
    if cs != [] {
      var last := cs[|cs| - 1];
      InvAlways(s, cs[..|cs| - 1]);
      ExecKeepsInv(RunChanges(s, cs[..|cs| - 1]), last.change, last.now);
    }
  }
}
