/** The relay's ready list: a singly linked list of sessions that serves as a bounded queue.

    The methods return the descriptors they close or write to; the ghost argument is the protocol
    state in which the step happens, so that each contract is one step of the protocol model. */
module ReadyList {
  import opened SessionModel

  class Session {
    const fd: Id
    var next: Session?

    constructor (fd: Id)
      ensures this.fd == fd && next == null
    {
      this.fd, next := fd, null;
    }
  }

  class RelayStream {
    var readyHead: Session?
    var readyTail: Session?
    var count: int
    ghost var spine: seq<Session>
    ghost var queue: seq<Id>

    /** The list links exactly the nodes of the spine, which hold the queue in order, and `count`
        is its length. */
    ghost predicate Valid()
      reads this, spine
    {
      && count == |spine| == |queue|
      && (forall i :: 0 <= i < |spine| ==> spine[i].fd == queue[i])
      && readyHead == (if spine == [] then null else spine[0])
      && readyTail == (if spine == [] then null else spine[|spine| - 1])
      && (forall i :: 0 <= i < |spine| - 1 ==> spine[i].next == spine[i + 1])
      && (spine != [] ==> spine[|spine| - 1].next == null)
      && (forall i, j :: 0 <= i < j < |spine| ==> spine[i] != spine[j])
    }

    constructor ()
      ensures Valid() && queue == []
    {
      readyHead, readyTail, count, spine, queue := null, null, 0, [], [];
    }

    /** `relay_stream_offer`: queue the session, or close it when eight are waiting. */
    method Offer(fd: Id, ghost s: Stream) returns (ready: int, closes: seq<Id>)
      requires Valid() && queue == s.queue && Enabled(s, Step.Offer(fd))
      modifies this, spine
      ensures Valid() && queue == Exec(s, Step.Offer(fd)).queue
      ensures s.closed + multiset(closes) == Exec(s, Step.Offer(fd)).closed
      ensures ready == if |old(queue)| >= READY_LIMIT then -1 else |queue|
      ensures forall n :: n in spine && n !in old(spine) ==> fresh(n)
    {
      if count >= READY_LIMIT {
        return -1, [fd];
      }
      var sess := new Session(fd);
      if readyTail != null {
        readyTail.next := sess;
        readyTail := sess;
      } else {
        readyHead, readyTail := sess, sess;
      }
      count := count + 1;
      spine, queue := spine + [sess], queue + [fd];
      return count, [];
    }

    /** The keepalive pass writes one marker to every queued session, in order, and to nothing else. */
    method KeepaliveTick() returns (writes: seq<Id>)
      requires Valid()
      ensures writes == queue
    {
      writes := [];
      var curr := readyHead;
      while curr != null
        invariant |writes| <= |spine| && curr == (if |writes| < |spine| then spine[|writes|] else null)
        invariant writes == queue[..|writes|]
        decreases |spine| - |writes|
      {
        writes := writes + [curr.fd];
        curr := curr.next;
      }
    }

    /** The lock-held part of `relay_stream_claim`: unlink the session that has waited longest. */
    method Pop(ghost s: Stream) returns (fd: Id)
      requires Valid() && queue == s.queue && Enabled(s, Step.Pop)
      modifies this
      ensures Valid() && queue == Exec(s, Step.Pop).queue
      ensures s.claiming + {fd} == Exec(s, Step.Pop).claiming
      ensures spine == old(spine)[1..]
    {
      var sess := readyHead;
      readyHead := sess.next;
      if readyHead == null { readyTail := null; }
      count := count - 1;
      fd := sess.fd;
      spine, queue := spine[1..], queue[1..];
    }

    /** `relay_stream_free` closes every session still queued, once. */
    method FreeAll(ghost s: Stream) returns (closes: seq<Id>)
      requires Valid() && queue == s.queue && Enabled(s, Free)
      modifies this
      ensures Valid() && queue == Exec(s, Free).queue
      ensures s.closed + multiset(closes) == Exec(s, Free).closed
    {
      closes := [];
      var curr := readyHead;
      while curr != null
        invariant |closes| <= |spine| && curr == (if |closes| < |spine| then spine[|closes|] else null)
        invariant closes == queue[..|closes|]
        decreases |spine| - |closes|
        modifies {}
      {
        var next := curr.next;
        closes := closes + [curr.fd];
        curr := next;
      }
      assert closes == queue;
      readyHead, readyTail, count, spine, queue := null, null, 0, [], [];
    }
  }
}
