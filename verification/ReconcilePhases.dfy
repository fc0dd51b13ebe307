/** Concurrent changes to an exposure with the reconciliation that ends each of them. */
module ReconcilePhases {
  import opened Wrappers
  import opened ExposureModel
  import opened Listeners
  import ExposurePhases
  import Exposures
  import RelayModel
  import Mols

  /** The concurrent state with its listeners; `due` holds the changes that have still to reconcile, and
      listeners created so far are numbered below `next`. */
  datatype Whole = Whole(core: ExposurePhases.Concurrent, listeners: Pairs, due: set<nat>, next: Listener)

  /** A phase of a change, or a reconciliation: that of change `id` or the one of the discovery loop, which
      finds the relays `wanted` and leaves the listeners `after`. */
  datatype Move =
    | Phase(phase: ExposurePhases.Phase)
    | Reconcile(id: Option<nat>, now: int, wanted: seq<string>, after: Pairs, next: Listener)

  /** A refused path returns before it changes or reconciles anything. */
  predicate Refused(l: Lists, c: Change) { c.SetMultiHop? && PathRefused(l, c.urls, c.ports) }

  /** The phase changes the lists and so owes a reconciliation. */
  predicate Owes(s: ExposurePhases.Concurrent, p: ExposurePhases.Phase)
  {
    ExposurePhases.Starts(s, p) && !Refused(s.lists, p.change)
  }

  function Next(s: Whole, m: Move): Whole
  {
    match m
    case Phase(p) =>
      s.(core := ExposurePhases.Next(s.core, p), due := if Owes(s.core, p) then s.due + {p.id} else s.due)
    case Reconcile(id, _, _, after, next) =>
      s.(listeners := after, next := next, due := if id.Some? then s.due - {id.value} else s.due)
  }

  function Run(s: Whole, ms: seq<Move>): Whole
  {
    if ms == [] then s else Next(Run(s, ms[..|ms| - 1]), ms[|ms| - 1])
  }

  function AllSucceed(): string -> bool { _ => true }

  /** A reconciliation works on the lists and the relay set as they are, under the listener lock, and every
      listener it creates succeeds. */
  ghost predicate MoveOk(s: Whole, m: Move, c: Exposures.Config, bucket: string -> Mols.Elem)
  {
    m.Reconcile? ==>
      && Exposures.Wanted(State(s.core.lists, s.core.tables), c, m.now, bucket, m.wanted)
      && Reconciled(s.listeners, m.after, m.wanted, AllSucceed(), s.next)
  }

  ghost predicate RunOk(s: Whole, ms: seq<Move>, c: Exposures.Config, bucket: string -> Mols.Elem)
  {
    ms == [] || (RunOk(s, ms[..|ms| - 1], c, bucket) && MoveOk(Run(s, ms[..|ms| - 1]), ms[|ms| - 1], c, bucket))
  }

  ghost predicate HasListener(ps: Pairs, u: string) { exists l :: (u, l) in ps }

  /** No relay has two listeners, and those that have one are exactly the wanted ones. */
  ghost predicate Matches(ps: Pairs, wanted: seq<string>)
  {
    Distinct(ps) && forall u :: u in wanted <==> HasListener(ps, u)
  }

  lemma ReconciledMatches(before: Pairs, after: Pairs, wanted: seq<string>, next: Listener)
    requires Reconciled(before, after, wanted, AllSucceed(), next)
    ensures Matches(after, wanted)
  {
    ReconciledIsExact(before, after, wanted, AllSucceed(), next);
  }

  lemma QuietPhaseKeepsLists(s: ExposurePhases.Concurrent, p: ExposurePhases.Phase)
    requires !Owes(s, p)
    ensures ExposurePhases.Next(s, p).lists == s.lists
  {
  }

  /** At rest, the last reconciliation came after the last change of the lists; or there was neither. */
  lemma {:induction false} LastReconciliation(s: Whole, ms: seq<Move>) returns (k: Option<nat>)
    requires Run(s, ms).due == {}
    ensures k.None? ==> Run(s, ms).core.lists == s.core.lists && Run(s, ms).listeners == s.listeners
    ensures k.Some? ==>
              && k.value < |ms| && ms[k.value].Reconcile?
              && Run(s, ms).core.lists == Run(s, ms[..k.value]).core.lists && Run(s, ms).listeners == ms[k.value].after
  {
    if ms == [] {
      return None;
    }
    var front, last := ms[..|ms| - 1], ms[|ms| - 1];
    match last
    case Phase(p) =>
      QuietPhaseKeepsLists(Run(s, front).core, p);
      k := LastReconciliation(s, front);
      assert k.Some? ==> front[..k.value] == ms[..k.value];
    case Reconcile(_, _, _, _, _) =>
      k := Some(|ms| - 1);
  }

  lemma {:induction false} MoveOkAt(s: Whole, ms: seq<Move>, c: Exposures.Config, bucket: string -> Mols.Elem, k: nat)
    requires RunOk(s, ms, c, bucket) && k < |ms|
    ensures MoveOk(Run(s, ms[..k]), ms[k], c, bucket)
  {
    if k < |ms| - 1 {
      var front := ms[..|ms| - 1];
      MoveOkAt(s, front, c, bucket, k);
      assert front[..k] == ms[..k];
    }
  }

  /** In every interleaving that has come to rest, with every creation successful, the listeners are exactly
      the relays wanted for the final lists and the relay set as it was after some `k` moves. */
  lemma ListenersAtRest(s: Whole, ms: seq<Move>, c: Exposures.Config, bucket: string -> Mols.Elem,
                        now0: int, wanted0: seq<string>)
    returns (k: nat, now: int, wanted: seq<string>)
    requires RunOk(s, ms, c, bucket) && Run(s, ms).due == {}
    requires Exposures.Wanted(State(s.core.lists, s.core.tables), c, now0, bucket, wanted0)
    requires Matches(s.listeners, wanted0)
    ensures k <= |ms| && Matches(Run(s, ms).listeners, wanted)
    ensures Exposures.Wanted(State(Run(s, ms).core.lists, Run(s, ms[..k]).core.tables), c, now, bucket, wanted)
  {
    var last := LastReconciliation(s, ms);
    if last.None? {
      assert ms[..0] == [];
      return 0, now0, wanted0;
    }
    k := last.value;
    MoveOkAt(s, ms, c, bucket, k);
    var t := Run(s, ms[..k]);
    now, wanted := ms[k].now, ms[k].wanted;
    ReconciledMatches(t.listeners, ms[k].after, wanted, t.next);
  }

  /** With a path, or without automatic routes, that settles it by the final lists alone: at rest the exit of
      the path, or each explicit relay, has the one listener, and no other relay has any. */
  lemma ListenersFollowLists(s: Whole, ms: seq<Move>, c: Exposures.Config, bucket: string -> Mols.Elem,
                             now0: int, wanted0: seq<string>, u: string)
    requires RunOk(s, ms, c, bucket) && Run(s, ms).due == {}
    requires Exposures.Wanted(State(s.core.lists, s.core.tables), c, now0, bucket, wanted0)
    requires Matches(s.listeners, wanted0)
    ensures var l, ps := Run(s, ms).core.lists, Run(s, ms).listeners;
            && (l.multiHop != [] ==> (HasListener(ps, u) <==> u == l.multiHop[|l.multiHop| - 1]))
            && (l.multiHop == [] && l.depth <= 1 ==> (HasListener(ps, u) <==> u in l.explicits))
  {
    var k, now, wanted := ListenersAtRest(s, ms, c, bucket, now0, wanted0);
    assert u in wanted <==> HasListener(Run(s, ms).listeners, u);
  }
}
