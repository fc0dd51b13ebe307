/** The SDK side of a reverse session: decoding the relay's marker stream. */
module Markers {
  import opened Sequences
  import opened SessionModel

  /** How a session read ends: activated for TLS or raw traffic with so many bytes consumed,
      connection closed before that, or an unknown marker. */
  datatype Decoded = Tls(consumed: nat) | Raw(consumed: nat) | Broken | Unexpected

  /** What the bytes from position `k` on amount to. */
  function Decode(s: Bytes, k: nat): Decoded
    requires k <= |s|
    decreases |s| - k
  {
    if k == |s| then Broken
    else if s[k] == KEEPALIVE then Decode(s, k + 1)
    else if s[k] == TLS_START then (if k + 1 + BINDING_SIZE <= |s| then Tls(k + 1 + BINDING_SIZE) else Broken)
    else if s[k] == RAW_START then Raw(k + 1)
    else Unexpected
  }

  /** How a byte stream decodes: after `k` zero bytes a 2 and sixteen more bytes activate TLS, a 1 activates raw
      traffic, any other byte is an error, and a stream that ends before that is broken. */
  lemma DecodeMeaning(s: Bytes) returns (k: nat)
    ensures k <= |s| && (forall i :: 0 <= i < k ==> s[i] == 0) && (k < |s| ==> s[k] != 0)
    ensures Decode(s, 0) ==
            if k == |s| then Broken
            else if s[k] == 2 then (if k + 17 <= |s| then Tls(k + 17) else Broken)
            else if s[k] == 1 then Raw(k + 1)
            else Unexpected
  {
    k := LeadingZeros(s, 0);
    assert s[..k] + s[k..] == s;
    DecodeKeepalives(s[..k], s[k..], 0);
  }

  lemma {:induction false} LeadingZeros(s: Bytes, from: nat) returns (k: nat)
    requires from <= |s| && forall i :: 0 <= i < from ==> s[i] == 0
    ensures from <= k <= |s| && (forall i :: 0 <= i < k ==> s[i] == 0) && (k < |s| ==> s[k] != 0)
    decreases |s| - from
  {
    k := from;
    if from < |s| && s[from] == 0 {
      k := LeadingZeros(s, from + 1);
    }
  }

  /** The decoding loop of `portillia_stream_client_run_session`.  A read returns any positive
      number of the bytes that are asked for and have arrived. */
  method RunSession(s: Bytes) returns (r: Decoded)
    ensures r == Decode(s, 0)
  {
    var pos := 0;
    while true
      invariant 0 <= pos <= |s| && Decode(s, 0) == Decode(s, pos)
      decreases |s| - pos
    {
      if pos == |s| {
        return Broken;
      }
      var marker := s[pos];
      pos := pos + 1;
      if marker == KEEPALIVE {
        continue;
      } else if marker == TLS_START {
        var got := 0;
        ghost var start := pos;
        while got < BINDING_SIZE
          invariant 0 <= got <= BINDING_SIZE && pos == start + got <= |s|
        {
          if pos == |s| {
            return Broken;
          }
          var nb :| 1 <= nb <= BINDING_SIZE - got && nb <= |s| - pos;
          pos, got := pos + nb, got + nb;
        }
        return Tls(pos);
      } else if marker == RAW_START {
        return Raw(pos);
      } else {
        return Unexpected;
      }
    }
  }

  lemma {:induction false} DecodeKeepalives(w: Bytes, rest: Bytes, k: nat)
    requires Keepalives(w) && k <= |w|
    ensures Decode(w + rest, k) == Decode(w + rest, |w|)
    decreases |w| - k
  {
    if k < |w| {
      DecodeKeepalives(w, rest, k + 1);
    }
  }

  /** In every run, and whatever the tenant sends next, the SDK consumes exactly the bytes the
      relay wrote to a handed-out session, so the tenant's payload stays aligned. */
  lemma PayloadAligned(steps: seq<Step>, id: Id, payload: Bytes)
    requires id in Run(steps).handed
    ensures id in Run(steps).wire && Decode(Run(steps).wire[id] + payload, 0) == Tls(|Run(steps).wire[id]|)
  {
    var s := Run(steps);
    ReachableInv(steps);
    InOnePlace(s, id);
    assert WireOk(s, id);
    DecodeFramed(s.wire[id], payload);
  }

  lemma DecodeFramed(w: Bytes, payload: Bytes)
    requires Framed(w, 1 + BINDING_SIZE)
    ensures Decode(w + payload, 0) == Tls(|w|)
  {
    var n := |w| - (1 + BINDING_SIZE);
    var rest := w[n..] + payload;
    assert w == w[..n] + w[n..];
    Regroup(w[..n], w[n..], payload);
    DecodeKeepalives(w[..n], rest, 0);
  }

  /** A session that is not handed out is never taken for an active one, even when the relay gave
      up in the middle of the activation frame. */
  lemma NeverActivatedEarly(steps: seq<Step>, id: Id)
    requires id in Run(steps).wire && id !in Run(steps).handed
    ensures Decode(Run(steps).wire[id], 0) == Broken
  {
    var s := Run(steps);
    ReachableInv(steps);
    assert WireOk(s, id);
    assert Places(s, id) == 1;
    var w := s.wire[id];
    if id !in s.closed {
      assert id in s.queue || id in s.claiming by { assert id in s.queue <==> id in multiset(s.queue); }
      UnframedIsCutShort(w);
    }
    var n :| 0 <= n <= BINDING_SIZE && Framed(w, n);
    assert w == w[..|w| - n] + w[|w| - n..];
    DecodeKeepalives(w[..|w| - n], w[|w| - n..], 0);
  }
}
