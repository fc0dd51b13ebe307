/** The reverse-session protocol of one lease: offers, keepalives, claims and activation. */
module SessionModel {
  import opened Sequences

  type Id = nat

  const READY_LIMIT := 8
  const KEEPALIVE: byte := 0
  const RAW_START: byte := 1
  const TLS_START: byte := 2
  const BINDING_SIZE := 16

  type Binding = b: Bytes | |b| == BINDING_SIZE witness seq(BINDING_SIZE, _ => 0)

  /** `wire` holds every byte the relay has written to a session; `handed` and `closed` count how
      often a session was handed to a tenant and how often its descriptor was closed. */
  datatype Stream = Stream(queue: seq<Id>, claiming: set<Id>, handed: multiset<Id>, closed: multiset<Id>,
                           wire: map<Id, Bytes>, stopped: bool)

  const INITIAL := Stream([], {}, multiset{}, multiset{}, map[], false)

  /** The lock-held regions, and the activation write that follows a claim outside the lock.
      A keepalive tick reaches the sessions in `ok`; an activation gets `written` bytes through. */
  datatype Step =
    | Offer(id: Id)
    | Tick(ok: set<Id>)
    | Pop
    | Activate(id: Id, binding: Binding, written: nat)
    | Free

  function Frame(binding: Binding): Bytes { [TLS_START] + binding }

  function Ticked(wire: map<Id, Bytes>, queue: seq<Id>, ok: set<Id>): map<Id, Bytes>
  {
    map id | id in wire :: if id in queue && id in ok then wire[id] + [KEEPALIVE] else wire[id]
  }

  /** An offered session is a new connection; a claim waits for a ready session. */
  predicate Enabled(s: Stream, step: Step)
  {
    match step
    case Offer(id) => !s.stopped && id !in s.wire
    case Tick(ok) => !s.stopped
    case Pop => !s.stopped && s.queue != []
    case Activate(id, binding, written) => id in s.claiming && id in s.wire && written <= 1 + BINDING_SIZE
    case Free => !s.stopped
  }

  function Exec(s: Stream, step: Step): Stream
    requires Enabled(s, step)
  {
    match step
    case Offer(id) =>
      if |s.queue| >= READY_LIMIT then s.(closed := s.closed + multiset{id}, wire := s.wire[id := []])
      else s.(queue := s.queue + [id], wire := s.wire[id := []])
    case Tick(ok) => s.(wire := Ticked(s.wire, s.queue, ok))
    case Pop => s.(queue := s.queue[1..], claiming := s.claiming + {s.queue[0]})
    case Activate(id, binding, written) =>
      var s' := s.(claiming := s.claiming - {id}, wire := s.wire[id := s.wire[id] + Frame(binding)[..written]]);
      if written == 1 + BINDING_SIZE
      then s'.(handed := s.handed + multiset{id})
      else s'.(closed := s.closed + multiset{id})
    case Free => s.(queue := [], closed := s.closed + multiset(s.queue), stopped := true)
  }

  /** A step that is not enabled waits, so every sequence of steps is an interleaving. */
  function Next(s: Stream, step: Step): Stream { if Enabled(s, step) then Exec(s, step) else s }

  function Run(steps: seq<Step>): Stream
  {
    if steps == [] then INITIAL else Next(Run(steps[..|steps| - 1]), steps[|steps| - 1])
  }

  /** What each step does, field by field: eight sessions wait at most, first come first served; a tick adds one zero
      byte to the queued sessions it reaches; an activation writes the byte 2 and the binding, as far as it gets. */
  lemma StepOnFields(s: Stream, step: Step)
    requires Enabled(s, step)
    ensures var t := Exec(s, step);
            match step
            case Offer(id) =>
              && t.wire == s.wire[id := []]
              && t.claiming == s.claiming && t.handed == s.handed && t.stopped == s.stopped
              && (if |s.queue| < 8 then t.queue == s.queue + [id] && t.closed == s.closed
                  else t.queue == s.queue && t.closed == s.closed + multiset{id})
            case Tick(ok) =>
              && t.wire.Keys == s.wire.Keys && t == s.(wire := t.wire)
              && (forall id :: id in s.wire ==>
                    t.wire[id] == if id in s.queue && id in ok then s.wire[id] + [0] else s.wire[id])
            case Pop => t == s.(queue := s.queue[1..], claiming := s.claiming + {s.queue[0]})
            case Activate(id, binding, written) =>
              && t.queue == s.queue && t.claiming == s.claiming - {id} && t.stopped == s.stopped
              && t.wire == s.wire[id := s.wire[id] + ([2] + binding)[..written]]
              && (if written == 17 then t.handed == s.handed + multiset{id} && t.closed == s.closed
                  else t.handed == s.handed && t.closed == s.closed + multiset{id})
            case Free => t == s.(queue := [], closed := s.closed + multiset(s.queue), stopped := true)
  {
  }

  // ---------- Conservation ----------

  /** In how many places session `id` is. */
  function Places(s: Stream, id: Id): nat
  {
    multiset(s.queue)[id] + (if id in s.claiming then 1 else 0) + s.handed[id] + s.closed[id]
  }

  /** Every offered session is in exactly one place, and no other session is anywhere. */
  ghost predicate Conserved(s: Stream)
  {
    forall id :: Places(s, id) == if id in s.wire then 1 else 0
  }

  predicate Keepalives(w: Bytes) { forall i :: 0 <= i < |w| ==> w[i] == KEEPALIVE }

  /** Keepalives, then the first `n` bytes of some activation frame. */
  predicate Framed(w: Bytes, n: nat)
  {
    n <= |w| && Keepalives(w[..|w| - n]) && (n > 0 ==> w[|w| - n] == TLS_START)
  }

  /** What the relay has written to `id`, by the place it is in. */
  ghost predicate WireOk(s: Stream, id: Id)
    requires id in s.wire
  {
    && (id in s.queue || id in s.claiming ==> Keepalives(s.wire[id]))
    && (id in s.handed ==> Framed(s.wire[id], 1 + BINDING_SIZE))
    && (id in s.closed ==> CutShort(s.wire[id]))
  }

  /** The activation frame never got through in full. */
  ghost predicate CutShort(w: Bytes) { exists n :: 0 <= n <= BINDING_SIZE && Framed(w, n) }

  ghost predicate Inv(s: Stream)
  {
    && |s.queue| <= READY_LIMIT
    && (s.stopped ==> s.queue == [])
    && Conserved(s)
    && forall id :: id in s.wire ==> WireOk(s, id)
  }

  lemma ExecConserves(s: Stream, step: Step)
    requires Enabled(s, step) && Conserved(s)
    ensures Conserved(Exec(s, step))
  {
    forall id
      ensures Places(Exec(s, step), id) == if id in Exec(s, step).wire then 1 else 0
    {
      assert Places(s, id) == if id in s.wire then 1 else 0;
      match step {
        case Pop => PopPlaces(s, id);
        case Activate(a, _, _) => assert Places(s, a) == 1;
        case Free => assert multiset([])[id] == 0;
        case _ =>
      }
    }
  }

  lemma PopPlaces(s: Stream, id: Id)
    requires Enabled(s, Pop) && Conserved(s)
    ensures Places(Exec(s, Pop), id) == Places(s, id)
  {
    var head := s.queue[0];
    assert s.queue == [head] + s.queue[1..];
    assert multiset(s.queue)[id] == (if id == head then 1 else 0) + multiset(s.queue[1..])[id];
    assert Places(s, head) <= 1;
  }

  lemma InOnePlace(s: Stream, id: Id)
    requires Conserved(s)
    ensures id in s.queue ==> id !in s.claiming && id !in s.handed && id !in s.closed && id in s.wire
    ensures id in s.claiming ==> id !in s.handed && id !in s.closed && id in s.wire
    ensures id in s.handed ==> id !in s.closed && id in s.wire && s.handed[id] == 1
    ensures id in s.closed ==> id in s.wire && s.closed[id] == 1
  {
    assert Places(s, id) == if id in s.wire then 1 else 0;
    assert id in s.queue <==> id in multiset(s.queue);
  }

  lemma UnframedIsCutShort(w: Bytes)
    requires Keepalives(w)
    ensures CutShort(w)
  {
    assert w[..|w|] == w;
    assert Framed(w, 0);
  }

  lemma FrameAppended(w: Bytes, binding: Binding, n: nat)
    requires Keepalives(w) && n <= 1 + BINDING_SIZE
    ensures Framed(w + Frame(binding)[..n], n)
  {
    var w' := w + Frame(binding)[..n];
    assert w'[..|w'| - n] == w;
  }

  lemma ExecKeepsWire(s: Stream, step: Step, id: Id)
    requires Enabled(s, step) && Inv(s) && id in Exec(s, step).wire
    ensures WireOk(Exec(s, step), id)
  {
    InOnePlace(s, id);
    assert id in s.wire ==> WireOk(s, id);
    match step {
      case Offer(a) =>
        UnframedIsCutShort([]);
      case Tick(_) =>
      case Pop =>
      case Activate(a, binding, n) =>
        if a == id {
          FrameAppended(s.wire[id], binding, n);
        }
      case Free =>
        if id in s.queue {
          UnframedIsCutShort(s.wire[id]);
        }
    }
  }

  lemma ExecKeepsInv(s: Stream, step: Step)
    requires Enabled(s, step) && Inv(s)
    ensures Inv(Exec(s, step))
  {
    ExecConserves(s, step);
    forall id | id in Exec(s, step).wire
      ensures WireOk(Exec(s, step), id)
    {
      ExecKeepsWire(s, step, id);
    }
  }

  /** Session conservation and wire discipline in every reachable state. */
  lemma {:induction false} ReachableInv(steps: seq<Step>)
    ensures Inv(Run(steps))
  {
    if steps != [] {
      var t, last := Run(steps[..|steps| - 1]), steps[|steps| - 1];
      ReachableInv(steps[..|steps| - 1]);
      if Enabled(t, last) {
        ExecKeepsInv(t, last);
      }
    }
  }

  /** Nothing is ever written to a session after it was handed out, in particular no keepalive. */
  lemma {:induction false} HandedWireIsFrozen(steps: seq<Step>, i: nat, j: nat, id: Id)
    requires i <= j <= |steps| && id in Run(steps[..i]).handed
    ensures id in Run(steps[..i]).wire && id in Run(steps[..j]).handed && id in Run(steps[..j]).wire
    ensures Run(steps[..j]).wire[id] == Run(steps[..i]).wire[id]
    decreases j
  {
    ReachableInv(steps[..i]);
    InOnePlace(Run(steps[..i]), id);
    if i < j {
      HandedWireIsFrozen(steps, i, j - 1, id);
      ReachableInv(steps[..j - 1]);
      assert steps[..j][..j - 1] == steps[..j - 1];
      HandedStaysHanded(Run(steps[..j - 1]), steps[j - 1], id);
    }
  }

  /** From activation on, a session's wire is its keepalives, the TLS marker and the binding minted for it. */
  lemma ActivationIsFinal(steps: seq<Step>, k: nat, j: nat, id: Id, binding: Binding)
    requires k < j <= |steps| && steps[k] == Activate(id, binding, 1 + BINDING_SIZE)
    requires Enabled(Run(steps[..k]), steps[k])
    ensures Keepalives(Run(steps[..k]).wire[id]) && id in Run(steps[..j]).wire
    ensures Run(steps[..j]).wire[id] == Run(steps[..k]).wire[id] + [TLS_START] + binding
  {
    var s := Run(steps[..k]);
    ReachableInv(steps[..k]);
    assert WireOk(s, id);
    assert steps[..k + 1][..k] == steps[..k];
    var frame := Frame(binding);
    assert frame[..1 + BINDING_SIZE] == frame;
    assert s.wire[id] + frame == s.wire[id] + [TLS_START] + binding;
    assert Run(steps[..k + 1]) == Exec(s, steps[k]);
    HandedWireIsFrozen(steps, k + 1, j, id);
  }

  lemma HandedStaysHanded(s: Stream, step: Step, id: Id)
    requires Inv(s) && id in s.handed
    ensures var s' := Next(s, step); id in s'.handed && id in s'.wire && s'.wire[id] == s.wire[id]
  {
    InOnePlace(s, id);
  }
}
