/** Changes to an exposure as the program takes them: the lists are updated in one lock-held region,
    the relay set in later ones, and the regions of concurrent changes interleave. */
module ExposurePhases {
  import opened Wrappers
  import opened ExposureModel
  import RelayModel
  import RelayRuns

  /** `pending` holds, for every change that has begun, the relay-set events it has still to take; the
      clock is read when one is taken. */
  datatype Concurrent = Concurrent(lists: Lists, tables: RelayModel.Tables, pending: map<nat, seq<RelayModel.Event>>)

  /** The list region of a change, one relay-set region of it, or a discovery step.  Whether a path is
      refused is decided on a depth that was read before the list region: a path accepted on a depth
      that no longer holds is the change without ports. */
  datatype Phase =
    | Begin(id: nat, change: Change)
    | Perform(id: nat, now: int)
    | Other(event: RelayModel.Event)

  /** The relay-set step that a phase takes, if any. */
  function Taken(s: Concurrent, p: Phase): Option<RelayModel.Step>
  {
    match p
    case Begin(_, _) => None
    case Perform(id, _) => if id in s.pending && s.pending[id] != [] then Some(s.pending[id][0].step) else None
    case Other(e) => if e.step.Ban? || e.step.Allow? then None else Some(e.step)
  }

  function ClockOf(p: Phase): int
  {
    match p case Begin(_, _) => 0 case Perform(_, now) => now case Other(e) => e.now
  }

  function TablesAfter(s: Concurrent, p: Phase): RelayModel.Tables
  {
    match Taken(s, p)
    case None => s.tables
    case Some(step) => RelayModel.Exec(s.tables, RelayModel.Event(ClockOf(p), step))
  }

  /** A change begins under an id of its own; a phase that cannot be taken is skipped. */
  function Next(s: Concurrent, p: Phase): Concurrent
  {
    match p
    case Begin(id, c) =>
      if id in s.pending then s
      else s.(lists := Changed(s.lists, c), pending := s.pending[id := Effects(s.lists, c, 0)])
    case Perform(id, _) =>
      if Taken(s, p).None? then s else s.(tables := TablesAfter(s, p), pending := s.pending[id := s.pending[id][1..]])
    case Other(_) => s.(tables := TablesAfter(s, p))
  }

  function Run(s: Concurrent, ps: seq<Phase>): Concurrent
  {
    if ps == [] then s else Next(Run(s, ps[..|ps| - 1]), ps[|ps| - 1])
  }

  predicate AtRest(s: Concurrent) { forall id :: id in s.pending ==> s.pending[id] == [] }

  predicate Starts(s: Concurrent, p: Phase) { p.Begin? && p.id !in s.pending }

  // ---------- What a run says about one URL ----------

  /** What a relay-set step decides about the ban of `u`. */
  function Verdict(step: RelayModel.Step, u: string): Option<bool>
  {
    if step == RelayModel.Ban(u) then Some(true) else if step == RelayModel.Allow(u) then Some(false) else None
  }

  /** What a change is going to decide about the ban of `u`. */
  function Intent(l: Lists, c: Change, u: string): Option<bool>
  {
    match c
    case Add(v) => if u == v then Some(false) else None
    case Remove(v) => if u == v then Some(true) else None
    case Seed(v) => if u == v then Some(false) else None
    case SetMultiHop(us, ports) => if !PathRefused(l, us, ports) && u in us then Some(false) else None
    case Discover(_) => None
  }

  /** The decision about `u` that was carried out last. */
  function LastVerdict(s: Concurrent, ps: seq<Phase>, u: string): Option<bool>
  {
    if ps == [] then None else
    var front, last := ps[..|ps| - 1], ps[|ps| - 1];
    var step := Taken(Run(s, front), last);
    if step.Some? && Verdict(step.value, u).Some? then Verdict(step.value, u) else LastVerdict(s, front, u)
  }

  /** The decision about `u` that was begun last. */
  function LastIntent(s: Concurrent, ps: seq<Phase>, u: string): Option<bool>
  {
    if ps == [] then None else
    var front, last := ps[..|ps| - 1], ps[|ps| - 1];
    var t := Run(s, front);
    if Starts(t, last) && Intent(t.lists, last.change, u).Some? then Intent(t.lists, last.change, u)
    else LastIntent(s, front, u)
  }

  // ---------- Bans follow the last decision carried out ----------

  lemma NextOnBans(s: Concurrent, p: Phase, u: string)
    ensures var step := Taken(s, p);
            RelayRuns.Banned(Next(s, p).tables, u) ==
              if step.Some? && Verdict(step.value, u).Some? then Verdict(step.value, u).value
              else RelayRuns.Banned(s.tables, u)
  {
    match Taken(s, p)
    case None =>
    case Some(step) => RelayRuns.ExecOnBans(s.tables, RelayModel.Event(ClockOf(p), step), u);
  }

  lemma {:induction false} BanFollowsVerdict(s: Concurrent, ps: seq<Phase>, u: string)
    ensures RelayRuns.Banned(Run(s, ps).tables, u) ==
            match LastVerdict(s, ps, u) case None => RelayRuns.Banned(s.tables, u) case Some(b) => b
  {
    if ps != [] {
      var front := ps[..|ps| - 1];
      BanFollowsVerdict(s, front, u);
      NextOnBans(Run(s, front), ps[|ps| - 1], u);
    }
  }

  // ---------- Lists follow the last decision begun ----------

  lemma ChangeFollowsIntent(l: Lists, c: Change, u: string)
    ensures Intent(l, c, u) == Some(true) ==> !Listed(Changed(l, c), u)
    ensures Intent(l, c, u).None? && Listed(Changed(l, c), u) ==> Listed(l, u)
  {
    ListedAfter(l, c, u);
  }

  lemma {:induction false} ListedFollowsIntent(s: Concurrent, ps: seq<Phase>, u: string)
    ensures Listed(Run(s, ps).lists, u) ==>
            LastIntent(s, ps, u) != Some(true) && (LastIntent(s, ps, u).None? ==> Listed(s.lists, u))
  {
    if ps != [] {
      var front, last := ps[..|ps| - 1], ps[|ps| - 1];
      ListedFollowsIntent(s, front, u);
      if Starts(Run(s, front), last) {
        ChangeFollowsIntent(Run(s, front).lists, last.change, u);
      }
    }
  }

  /** Lists are updated in one region each, so in every interleaving the seeds stay disjoint from the
      explicit and the path relays, and the path never has length one unless it started so. */
  lemma {:induction false} ListsAlwaysOk(s: Concurrent, ps: seq<Phase>)
    requires Disjoint(s.lists)
    ensures Disjoint(Run(s, ps).lists)
    ensures |s.lists.multiHop| != 1 ==> |Run(s, ps).lists.multiHop| != 1
  {
    if ps != [] {
      var front, last := ps[..|ps| - 1], ps[|ps| - 1];
      ListsAlwaysOk(s, front);
      if Starts(Run(s, front), last) {
        ChangeKeepsDisjoint(Run(s, front).lists, last.change);
      }
    }
  }

  // ---------- Decisions begun and not carried out ----------

  predicate Decides(es: seq<RelayModel.Event>, u: string) { exists k :: 0 <= k < |es| && Verdict(es[k].step, u).Some? }

  predicate Undecided(s: Concurrent, u: string) { exists id :: id in s.pending && Decides(s.pending[id], u) }

  lemma {:induction false} EnlistDecides(us: seq<string>, u: string)
    ensures Decides(EnlistAll(us, 0), u) <==> u in us
    ensures forall k :: 0 <= k < |EnlistAll(us, 0)| ==> Verdict(EnlistAll(us, 0)[k].step, u) != Some(true)
  {
    if us != [] {
      var front, last := us[..|us| - 1], us[|us| - 1];
      assert us == front + [last];
      EnlistDecides(front, u);
      EnlistOneDecides(last, u);
      DecidesConcat(EnlistAll(front, 0), Enlist(last, 0), u);
    }
  }

  lemma EnlistOneDecides(v: string, u: string)
    ensures Decides(Enlist(v, 0), u) <==> u == v
    ensures forall k :: 0 <= k < |Enlist(v, 0)| ==> Verdict(Enlist(v, 0)[k].step, u) != Some(true)
  {
    assert Verdict(Enlist(v, 0)[0].step, u).Some? <==> u == v;
  }

  lemma DecidesConcat(a: seq<RelayModel.Event>, b: seq<RelayModel.Event>, u: string)
    ensures Decides(a + b, u) <==> Decides(a, u) || Decides(b, u)
  {
    if Decides(a, u) {
      var k :| 0 <= k < |a| && Verdict(a[k].step, u).Some?;
      assert Verdict((a + b)[k].step, u).Some?;
    }
    if Decides(b, u) {
      var k :| 0 <= k < |b| && Verdict(b[k].step, u).Some?;
      assert Verdict((a + b)[|a| + k].step, u).Some?;
    }
  }

  /** The effects of a change decide about `u` exactly if the change means to, and as it means to. */
  lemma EffectsFollowIntent(l: Lists, c: Change, u: string)
    ensures Decides(Effects(l, c, 0), u) <==> Intent(l, c, u).Some?
    ensures forall k :: 0 <= k < |Effects(l, c, 0)| ==>
              Verdict(Effects(l, c, 0)[k].step, u).None? || Verdict(Effects(l, c, 0)[k].step, u) == Intent(l, c, u)
  {
    match c {
      case Add(v) => EnlistOneDecides(v, u);
      case Remove(v) =>
        assert Verdict(Effects(l, c, 0)[0].step, u) == if u == v then Some(true) else None;
      case Seed(v) => EnlistOneDecides(v, u);
      case SetMultiHop(us, ports) => EnlistDecides(us, u);
      case Discover(_) =>
    }
  }

  /** Once a decision about `u` is begun, it is either still to be carried out or some decision about
      `u` was carried out; before that there is neither. */
  ghost predicate Accounted(s: Concurrent, ps: seq<Phase>, u: string)
  {
    LastIntent(s, ps, u).Some? <==> LastVerdict(s, ps, u).Some? || Undecided(Run(s, ps), u)
  }

  lemma BeginOnUndecided(s: Concurrent, p: Phase, u: string)
    requires Starts(s, p)
    ensures Undecided(Next(s, p), u) <==> Undecided(s, u) || Intent(s.lists, p.change, u).Some?
  {
    var s' := Next(s, p);
    EffectsFollowIntent(s.lists, p.change, u);
    if Undecided(s, u) {
      var id :| id in s.pending && Decides(s.pending[id], u);
      assert id in s'.pending && s'.pending[id] == s.pending[id];
    }
    if Intent(s.lists, p.change, u).Some? {
      assert Decides(s'.pending[p.id], u);
    }
    if Undecided(s', u) {
      var id :| id in s'.pending && Decides(s'.pending[id], u);
      if id != p.id {
        assert id in s.pending && Decides(s.pending[id], u);
      }
    }
  }

  lemma PerformOnUndecided(s: Concurrent, p: Phase, u: string)
    requires p.Perform? && Taken(s, p).Some?
    ensures Undecided(s, u) <==> Undecided(Next(s, p), u) || Verdict(Taken(s, p).value, u).Some?
  {
    var s', steps := Next(s, p), s.pending[p.id];
    assert steps == [steps[0]] + steps[1..];
    DecidesConcat([steps[0]], steps[1..], u);
    assert Decides([steps[0]], u) <==> Verdict([steps[0]][0].step, u).Some?;
    if Undecided(s, u) {
      var id :| id in s.pending && Decides(s.pending[id], u);
      if id != p.id {
        assert id in s'.pending && Decides(s'.pending[id], u);
      } else if Decides(steps[1..], u) {
        assert id in s'.pending && Decides(s'.pending[id], u);
      }
    }
    if Undecided(s', u) {
      var id :| id in s'.pending && Decides(s'.pending[id], u);
      assert id in s.pending && Decides(s.pending[id], u);
    }
    if Verdict(steps[0].step, u).Some? {
      assert Decides(s.pending[p.id], u);
    }
  }

  lemma {:induction false} AllAccounted(s: Concurrent, ps: seq<Phase>, u: string)
    requires s.pending == map[]
    ensures Accounted(s, ps, u)
  {
    if ps != [] {
      var front, last := ps[..|ps| - 1], ps[|ps| - 1];
      var t := Run(s, front);
      AllAccounted(s, front, u);
      if Starts(t, last) {
        BeginOnUndecided(t, last, u);
      } else if last.Perform? && Taken(t, last).Some? {
        PerformOnUndecided(t, last, u);
      }
    }
  }

  lemma RestDecidesNothing(s: Concurrent, u: string)
    requires AtRest(s)
    ensures !Undecided(s, u)
  {
    forall id | id in s.pending
      ensures !Decides(s.pending[id], u)
    {
      assert s.pending[id] == [];
    }
  }

  // ---------- Bans at rest ----------

  /** Every interleaving of changes and discovery that has come to rest leaves a listed relay banned
      exactly when the last decision carried out about it is not the last one begun. */
  lemma BannedAtRest(s: Concurrent, ps: seq<Phase>, u: string)
    requires s.pending == map[] && Inv(State(s.lists, s.tables)) && AtRest(Run(s, ps))
    ensures Listed(Run(s, ps).lists, u) ==>
            (RelayRuns.Banned(Run(s, ps).tables, u) <==> LastVerdict(s, ps, u) != LastIntent(s, ps, u))
  {
    BanFollowsVerdict(s, ps, u);
    ListedFollowsIntent(s, ps, u);
    AllAccounted(s, ps, u);
    RestDecidesNothing(Run(s, ps), u);
    var start, t := State(s.lists, s.tables), Run(s, ps);
    assert Listed(start.lists, u) ==> !RelayRuns.Banned(start.tables, u);
    var verdict, intent := LastVerdict(s, ps, u), LastIntent(s, ps, u);
    if Listed(t.lists, u) && intent.Some? {
      assert intent.value == false;
      assert verdict == Some(RelayRuns.Banned(t.tables, u));
    }
  }

  // ---------- Changes that do not overlap ----------

  /** No change that decides about `u` begins while another one is under way. */
  predicate SerialOn(s: Concurrent, ps: seq<Phase>, u: string)
  {
    ps == [] ||
    var front, last := ps[..|ps| - 1], ps[|ps| - 1];
    var t := Run(s, front);
    SerialOn(s, front, u) && (Starts(t, last) && Intent(t.lists, last.change, u).Some? ==> !Undecided(t, u))
  }

  /** Every decision about `u` that is under way is `b`. */
  ghost predicate UnderWay(s: Concurrent, u: string, b: Option<bool>)
  {
    forall id, k :: id in s.pending && 0 <= k < |s.pending[id]| ==>
      Verdict(s.pending[id][k].step, u).None? || Verdict(s.pending[id][k].step, u) == b
  }

  lemma BeginUnderWay(s: Concurrent, p: Phase, u: string, b: Option<bool>)
    requires Starts(s, p) && UnderWay(s, u, b)
    requires Intent(s.lists, p.change, u).Some? ==> !Undecided(s, u)
    ensures var i := Intent(s.lists, p.change, u); UnderWay(Next(s, p), u, if i.Some? then i else b)
  {
    EffectsFollowIntent(s.lists, p.change, u);
    var s', i := Next(s, p), Intent(s.lists, p.change, u);
    forall id, k | id in s'.pending && 0 <= k < |s'.pending[id]|
      ensures Verdict(s'.pending[id][k].step, u).None? || Verdict(s'.pending[id][k].step, u) == if i.Some? then i else b
    {
      if id == p.id {
        NothingDecided(Effects(s.lists, p.change, 0), u);
      } else {
        assert !Undecided(s, u) ==> !Decides(s.pending[id], u);
        NothingDecided(s.pending[id], u);
      }
    }
  }

  lemma NothingDecided(es: seq<RelayModel.Event>, u: string)
    ensures !Decides(es, u) ==> forall k :: 0 <= k < |es| ==> Verdict(es[k].step, u).None?
  {
  }

  lemma PerformUnderWay(s: Concurrent, p: Phase, u: string, b: Option<bool>)
    requires p.Perform? && Taken(s, p).Some? && UnderWay(s, u, b)
    ensures UnderWay(Next(s, p), u, b)
    ensures Verdict(Taken(s, p).value, u).Some? ==> Verdict(Taken(s, p).value, u) == b
  {
    var s' := Next(s, p);
    forall id, k | id in s'.pending && 0 <= k < |s'.pending[id]|
      ensures Verdict(s'.pending[id][k].step, u).None? || Verdict(s'.pending[id][k].step, u) == b
    {
      assert s'.pending[id][k] == s.pending[id][if id == p.id then k + 1 else k];
    }
    assert s.pending[p.id][0].step == Taken(s, p).value;
  }

  lemma {:induction false} SerialInStep(s: Concurrent, ps: seq<Phase>, u: string)
    requires s.pending == map[] && SerialOn(s, ps, u)
    ensures UnderWay(Run(s, ps), u, LastIntent(s, ps, u))
    ensures !Undecided(Run(s, ps), u) ==> LastVerdict(s, ps, u) == LastIntent(s, ps, u)
  {
    if ps != [] {
      var front, last := ps[..|ps| - 1], ps[|ps| - 1];
      var t := Run(s, front);
      SerialInStep(s, front, u);
      if Starts(t, last) {
        BeginOnUndecided(t, last, u);
        BeginUnderWay(t, last, u, LastIntent(s, front, u));
      } else if last.Perform? && Taken(t, last).Some? {
        PerformOnUndecided(t, last, u);
        PerformUnderWay(t, last, u, LastIntent(s, front, u));
      }
    }
  }

  /** If the changes that concern a relay do not overlap, it is never both listed and banned at rest. */
  lemma SerialIsSound(s: Concurrent, ps: seq<Phase>, u: string)
    requires s.pending == map[] && Inv(State(s.lists, s.tables)) && AtRest(Run(s, ps)) && SerialOn(s, ps, u)
    ensures Listed(Run(s, ps).lists, u) ==> !RelayRuns.Banned(Run(s, ps).tables, u)
  {
    BannedAtRest(s, ps, u);
    SerialInStep(s, ps, u);
    RestDecidesNothing(Run(s, ps), u);
  }

  /** Two concurrent changes to one relay that come to rest with it listed and banned: a removal updates
      the lists before an addition does, and the relay set after. */
  lemma AddAndRemoveCross(u: string) returns (s: Concurrent, ps: seq<Phase>)
    ensures s.pending == map[] && Inv(State(s.lists, s.tables)) && AtRest(Run(s, ps))
    ensures Listed(Run(s, ps).lists, u) && RelayRuns.Banned(Run(s, ps).tables, u)
  {
    s := Concurrent(Lists([], [], [], 0), RelayModel.EMPTY, map[]);
    ps := CrossingPhases(u);
    assert Inv(State(s.lists, s.tables));
    var s2 := BothBegun(s, u);
    CrossingRun(s, s2, u);
    BothPerformed(s2, u);
  }

  function CrossingPhases(u: string): seq<Phase>
  {
    [Begin(0, Remove(u)), Begin(1, Add(u)), Perform(1, 1), Perform(1, 1), Perform(0, 1), Perform(0, 1)]
  }

  lemma CrossingRun(s: Concurrent, s2: Concurrent, u: string)
    requires s2 == Run(s, [Begin(0, Remove(u)), Begin(1, Add(u))])
    ensures Run(s, CrossingPhases(u)) ==
            Next(Next(Next(Next(s2, Perform(1, 1)), Perform(1, 1)), Perform(0, 1)), Perform(0, 1))
  {
    var ps := CrossingPhases(u);
    assert ps[..2] == [Begin(0, Remove(u)), Begin(1, Add(u))] && ps[..6] == ps;
    RunPrefix(s, ps, 2);
    RunPrefix(s, ps, 3);
    RunPrefix(s, ps, 4);
    RunPrefix(s, ps, 5);
  }

  lemma RunPrefix(s: Concurrent, ps: seq<Phase>, k: nat)
    requires k < |ps|
    ensures Run(s, ps[..k + 1]) == Next(Run(s, ps[..k]), ps[k])
  {
    assert ps[..k + 1][..k] == ps[..k];
  }

  lemma BothBegun(s: Concurrent, u: string) returns (s2: Concurrent)
    requires s == Concurrent(Lists([], [], [], 0), RelayModel.EMPTY, map[])
    ensures s2 == Run(s, [Begin(0, Remove(u)), Begin(1, Add(u))])
    ensures s2.tables == RelayModel.EMPTY && s2.lists.explicits == [u]
    ensures s2.pending == map[0 := Expel(u, 0), 1 := Enlist(u, 0)]
  {
    var ps := [Begin(0, Remove(u)), Begin(1, Add(u))];
    RunPrefix(s, ps, 0);
    RunPrefix(s, ps, 1);
    assert ps[..0] == [] && ps[..2] == ps;
    s2 := Run(s, ps);
    var s1 := Next(s, ps[0]);
    assert s1.lists.explicits == [] && s1.pending.Keys == {0};
    assert s2 == Next(s1, ps[1]) && s2.pending.Keys == {0, 1};
  }

  lemma BothPerformed(s: Concurrent, u: string)
    requires s.pending == map[0 := Expel(u, 0), 1 := Enlist(u, 0)]
    ensures var t := Next(Next(Next(Next(s, Perform(1, 1)), Perform(1, 1)), Perform(0, 1)), Perform(0, 1));
            AtRest(t) && t.lists == s.lists && RelayRuns.Banned(t.tables, u)
  {
    var a := Next(s, Perform(1, 1));
    assert a.pending[1] == Enlist(u, 0)[1..] && a.pending[0] == s.pending[0];
    var b := Next(a, Perform(1, 1));
    assert b.pending[1] == [] && b.pending[0] == s.pending[0];
    var c := Next(b, Perform(0, 1));
    assert c.pending[0] == Expel(u, 0)[1..] && c.pending[1] == [];
    NextOnBans(b, Perform(0, 1), u);
    NextOnBans(c, Perform(0, 1), u);
  }
}
