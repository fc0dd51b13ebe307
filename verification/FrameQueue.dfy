/** The bounded queue of received datagrams: a ring of 256 slots that can drop its oldest frame. */
module FrameQueues {
  import opened Datagram

  const CAPACITY := 256

  /** Append, keeping the newest 256. */
  function Pushed(q: seq<Frame>, f: Frame): seq<Frame> { (if |q| >= CAPACITY then q[1..] else q) + [f] }

  /** The slot `i` places after `head`, around the ring. */
  function Slot(head: int, i: int): int { (head + i) % 256 }

  lemma SlotsDiffer(head: int, i: int, j: int)
    requires 0 <= i < j < 256
    ensures Slot(head, i) != Slot(head, j)
  {
  }

  lemma SlotAdvances(head: int, i: int)
    ensures Slot((head + 1) % 256, i) == Slot(head, i + 1)
  {
  }

  class FrameQueue {
    const items: array<Frame>
    var head: int
    var count: int
    ghost var contents: seq<Frame>

    ghost predicate Valid()
      reads this, items
    {
      && items.Length == CAPACITY && 0 <= head < CAPACITY
      && 0 <= count == |contents| <= CAPACITY
      && (forall i :: 0 <= i < count ==> items[Slot(head, i)] == contents[i])
    }

    constructor ()
      ensures Valid() && contents == [] && fresh(items)
    {
      items := new Frame[CAPACITY](_ => Frame(0, []));
      head, count, contents := 0, 0, [];
    }

    method Push(f: Frame, dropIfFull: bool) returns (ok: bool)
      requires Valid()
      modifies this, items
      ensures Valid()
      ensures ok == (dropIfFull || |old(contents)| < 256)
      ensures contents == if !ok then old(contents)
                          else if |old(contents)| < 256 then old(contents) + [f] else old(contents)[1..] + [f]
    {
      if count >= CAPACITY {
        if !dropIfFull {
          return false;
        }
        DropOldest();
      }
      Append(f);
      return true;
    }

    method Append(f: Frame)
      requires Valid() && count < CAPACITY
      modifies this, items
      ensures Valid() && contents == old(contents) + [f]
    {
      forall i | 0 <= i < count
        ensures Slot(head, i) != Slot(head, count)
      {
        SlotsDiffer(head, i, count);
      }
      items[Slot(head, count)] := f;
      contents := contents + [f];
      count := count + 1;
    }

    /** Advances the head past the oldest frame. */
    method DropOldest()
      requires Valid() && count > 0
      modifies this
      ensures Valid() && contents == old(contents)[1..]
    {
      var next := (head + 1) % 256;
      forall i | 0 <= i < count - 1
        ensures items[Slot(next, i)] == contents[1..][i]
      {
        SlotAdvances(head, i);
      }
      head := next;
      count := count - 1;
      contents := contents[1..];
    }

    method Pop() returns (f: Frame)
      requires Valid() && count > 0
      modifies this
      ensures Valid() && f == old(contents)[0] && contents == old(contents)[1..]
    {
      f := items[head];
      assert Slot(head, 0) == head;
      DropOldest();
    }

    /** `frame_queue_close` forgets what is queued. */
    method Close()
      requires Valid()
      modifies this
      ensures Valid() && contents == []
    {
      count, contents := 0, [];
    }
  }

  // ---------- Runs ----------

  datatype Op = Push(f: Frame) | Pop | Close

  /** The queue, everything pushed so far, and which pushes were delivered, in order of delivery. */
  datatype History = History(queue: seq<Frame>, pushed: seq<Frame>, delivered: seq<nat>)

  function Next(h: History, op: Op): History
  {
    match op
    case Push(f) => h.(queue := Pushed(h.queue, f), pushed := h.pushed + [f])
    case Pop =>
      if h.queue == [] || |h.queue| > |h.pushed| then h
      else h.(queue := h.queue[1..], delivered := h.delivered + [|h.pushed| - |h.queue|])
    case Close => h.(queue := [])
  }

  function Run(ops: seq<Op>): History
  {
    if ops == [] then History([], [], []) else Next(Run(ops[..|ops| - 1]), ops[|ops| - 1])
  }

  /** The queue holds the latest pushes, and deliveries were earlier pushes, each at most once and
      in the order they were pushed. */
  ghost predicate InOrder(h: History)
  {
    && |h.queue| <= 256 && |h.queue| <= |h.pushed|
    && h.queue == h.pushed[|h.pushed| - |h.queue|..]
    && (forall i :: 0 <= i < |h.delivered| ==> h.delivered[i] < |h.pushed| - |h.queue|)
    && (forall i, j :: 0 <= i < j < |h.delivered| ==> h.delivered[i] < h.delivered[j])
  }

  lemma {:induction false} DeliveryInOrder(ops: seq<Op>)
    ensures InOrder(Run(ops))
  {
    if ops != [] {
      DeliveryInOrder(ops[..|ops| - 1]);
      NextKeepsOrder(Run(ops[..|ops| - 1]), ops[|ops| - 1]);
    }
  }

  lemma NextKeepsOrder(h: History, op: Op)
    requires InOrder(h)
    ensures InOrder(Next(h, op))
    ensures op.Pop? && h.queue != [] ==>
            var d := Next(h, op).delivered; |d| > 0 && h.pushed[d[|d| - 1]] == h.queue[0]
  {
    match op {
      case Push(f) =>
        var h' := Next(h, op);
        assert h'.queue == h'.pushed[|h'.pushed| - |h'.queue|..];
      case Pop =>
        if h.queue != [] {
          var h' := Next(h, op);
          assert h'.queue == h'.pushed[|h'.pushed| - |h'.queue|..];
        }
      case Close =>
        assert h.pushed[|h.pushed|..] == [];
    }
  }

  function PushAll(q: seq<Frame>, fs: seq<Frame>): seq<Frame>
  {
    if fs == [] then q else Pushed(PushAll(q, fs[..|fs| - 1]), fs[|fs| - 1])
  }

  /** However many frames arrive unread, exactly the newest 256 remain. */
  lemma {:induction false} NewestRemain(q: seq<Frame>, fs: seq<Frame>)
    requires |q| <= 256
    ensures PushAll(q, fs) == if |q + fs| <= 256 then q + fs else (q + fs)[|q + fs| - 256..]
  {
    if fs != [] {
      var front := fs[..|fs| - 1];
      NewestRemain(q, front);
      assert q + fs == (q + front) + [fs[|fs| - 1]];
    }
  }
}
