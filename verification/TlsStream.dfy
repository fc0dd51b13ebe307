/** Reassembling a ClientHello from peeked TLS records (section 5.1 of RFC 8446). */
module TlsStream {
  import opened Wrappers
  import opened Sequences
  import opened ClientHello

  const HANDSHAKE := 22
  const CHANGE_CIPHER_SPEC := 20

  /** The handshake message collected so far: nothing, or `have` out of `total` bytes. */
  datatype Progress = Idle | Started(total: nat, have: Bytes)

  /** What the records amount to: a whole message, or too little, with or without hope for more. */
  datatype Finding = Whole(hello: Bytes) | Short(needMore: bool)

  datatype Outcome = Outcome(host: Option<Bytes>, needMore: bool)

  function Concluded(f: Finding): Outcome
  {
    match f case Whole(hello) => Outcome(HelloHost(hello), false) case Short(needMore) => Outcome(None, needMore)
  }

  /** The parser gave up on the bytes it has; `streamLen` is the length of the whole stream. */
  function GiveUp(acc: Progress, streamLen: nat): Finding { Short(acc.Started? || streamLen < 5) }

  function Min(a: nat, b: nat): nat { if a < b then a else b }

  /** What is collected once a handshake record with this body arrives. */
  function Collect(acc: Progress, body: Bytes): Progress
    requires acc.Idle? ==> |body| >= 4
    requires acc.Started? ==> |acc.have| <= acc.total
  {
    match acc
    case Idle => var total := U24(body, 1) + 4; Started(total, body[..Min(|body|, total)])
    case Started(total, have) => Started(total, have + body[..Min(|body|, total - |have|)])
  }

  predicate Complete(acc: Progress) { acc.Started? && |acc.have| >= acc.total }

  predicate ProgressOk(acc: Progress) { acc.Started? ==> |acc.have| < acc.total }

  /** What one whole record leads to: a conclusion, or the progress to go on with. */
  datatype Verdict = Stop(finding: Finding) | Continue(acc: Progress)

  function OneRecord(contentType: byte, body: Bytes, acc: Progress, streamLen: nat): (v: Verdict)
    requires ProgressOk(acc)
    ensures v.Continue? ==> ProgressOk(v.acc)
  {
    if contentType != HANDSHAKE then
      (if acc.Idle? && contentType != CHANGE_CIPHER_SPEC then Stop(GiveUp(acc, streamLen)) else Continue(acc))
    else if acc.Idle? && |body| < 4 then Stop(Short(true))
    else if acc.Idle? && (body[0] != CLIENT_HELLO || U24(body, 1) == 0 || U24(body, 1) > MAX_CLIENT_HELLO) then
      Stop(GiveUp(acc, streamLen))
    else
      var acc' := Collect(acc, body);
      if Complete(acc') then Stop(Whole(acc'.have)) else Continue(acc')
  }

  /** What the stream parser concludes from the unread bytes `rest`. */
  function Scan(rest: Bytes, acc: Progress, streamLen: nat): Finding
    requires ProgressOk(acc)
    decreases |rest|, 0
  {
    if |rest| < 5 then GiveUp(acc, streamLen) else
    var n := U16(rest, 3);
    if n == 0 then GiveUp(acc, streamLen)
    else if 5 + n > |rest| then Short(true)
    else Resume(OneRecord(rest[0], rest[5..5 + n], acc, streamLen), rest[5 + n..], streamLen)
  }

  function Resume(v: Verdict, next: Bytes, streamLen: nat): Finding
    requires v.Continue? ==> ProgressOk(v.acc)
    decreases |next|, 1
  {
    match v case Stop(f) => f case Continue(acc) => Scan(next, acc, streamLen)
  }

  function ScanStream(stream: Bytes): Outcome { Concluded(Scan(stream, Idle, |stream|)) }

  /** `memcpy` into the message buffer. */
  method CopyInto(dst: array<byte>, at: nat, src: Bytes)
    requires at + |src| <= dst.Length
    modifies dst
    ensures dst[..at + |src|] == old(dst[..at]) + src
  {
    for i := 0 to |src|
      invariant dst[..at] == old(dst[..at])
      invariant forall k :: 0 <= k < i ==> dst[at + k] == src[k]
    {
      dst[at + i] := src[i];
    }
  }

  /** Copies what the message still lacks out of a handshake record, allocating the buffer first if need be. */
  method Absorb(buffer: array<byte>, have: nat, started: bool, payload: Bytes) returns (hello: array<byte>, have': nat)
    requires started ==> have < buffer.Length
    requires !started ==> |payload| >= 4
    modifies buffer
    ensures hello == buffer || fresh(hello)
    ensures started ==> hello == buffer
    ensures have' <= hello.Length
    ensures Started(hello.Length, hello[..have']) ==
            Collect(if started then Started(buffer.Length, old(buffer[..have])) else Idle, payload)
  {
    if !started {
      var total := U24(payload, 1) + 4;
      hello := new byte[total];
      var first := if |payload| < total then |payload| else total;
      CopyInto(hello, 0, payload[..first]);
      have' := first;
    } else {
      hello := buffer;
      var remaining := hello.Length - have;
      var toCopy := if |payload| < remaining then |payload| else remaining;
      CopyInto(hello, have, payload[..toCopy]);
      have' := have + toCopy;
    }
  }

  predicate StartsWithRecord(s: Bytes) { 5 <= |s| && 0 < U16(s, 3) && 5 + U16(s, 3) <= |s| }

  function FirstBody(s: Bytes): Bytes
    requires StartsWithRecord(s)
  {
    s[5..5 + U16(s, 3)]
  }

  function AfterFirst(s: Bytes): (r: Bytes)
    requires StartsWithRecord(s)
    ensures |r| < |s|
  {
    s[5 + U16(s, 3)..]
  }

  lemma ScanFirst(s: Bytes, acc: Progress, m: nat)
    requires ProgressOk(acc) && StartsWithRecord(s)
    ensures Scan(s, acc, m) == Resume(OneRecord(s[0], FirstBody(s), acc, m), AfterFirst(s), m)
  {
  }

  lemma FirstAt(stream: Bytes, pos: nat)
    requires pos + 5 <= |stream| && 0 < U16(stream, pos + 3) && pos + 5 + U16(stream, pos + 3) <= |stream|
    ensures var rest, next := stream[pos..], pos + 5 + U16(stream, pos + 3);
            && StartsWithRecord(rest) && rest[0] == stream[pos]
            && FirstBody(rest) == stream[pos + 5..next] && AfterFirst(rest) == stream[next..]
  {
    var rest, n := stream[pos..], U16(stream, pos + 3);
    assert U16(rest, 3) == n;
    SliceOfSlice(stream, pos, |stream|, 5, 5 + n);
    assert stream[pos..|stream|] == rest;
    Suffix(stream, pos, 5 + n);
  }

  /** One record of the stream, unfolded. */
  lemma ScanRecord(stream: Bytes, pos: nat, acc: Progress, streamLen: nat)
    requires ProgressOk(acc)
    requires pos + 5 <= |stream| && 0 < U16(stream, pos + 3) && pos + 5 + U16(stream, pos + 3) <= |stream|
    ensures var next := pos + 5 + U16(stream, pos + 3);
            Scan(stream[pos..], acc, streamLen) ==
              Resume(OneRecord(stream[pos], stream[pos + 5..next], acc, streamLen), stream[next..], streamLen)
  {
    FirstAt(stream, pos);
    ScanFirst(stream[pos..], acc, streamLen);
  }

  /** The same scan, reading the stream in place from a position. */
  function ScanAt(stream: Bytes, pos: nat, acc: Progress): Finding
    requires pos <= |stream| && ProgressOk(acc)
    decreases |stream| - pos, 0
  {
    if |stream| - pos < 5 then GiveUp(acc, |stream|)
    else
      var next := pos + 5 + U16(stream, pos + 3);
      if next == pos + 5 then GiveUp(acc, |stream|)
      else if next > |stream| then Short(true)
      else ResumeAt(OneRecord(stream[pos], stream[pos + 5..next], acc, |stream|), stream, next)
  }

  function ResumeAt(v: Verdict, stream: Bytes, next: nat): Finding
    requires next <= |stream| && (v.Continue? ==> ProgressOk(v.acc))
    decreases |stream| - next, 1
  {
    match v case Stop(f) => f case Continue(acc) => ScanAt(stream, next, acc)
  }

  lemma {:induction false} ScanInPlace(stream: Bytes, pos: nat, acc: Progress)
    requires pos <= |stream| && ProgressOk(acc)
    ensures ScanAt(stream, pos, acc) == Scan(stream[pos..], acc, |stream|)
    decreases |stream| - pos, 0
  {
    if |stream| - pos >= 5 {
      var next := pos + 5 + U16(stream, pos + 3);
      if pos + 5 < next <= |stream| {
        ScanRecord(stream, pos, acc, |stream|);
        ResumeInPlace(stream, next, OneRecord(stream[pos], stream[pos + 5..next], acc, |stream|));
      }
    }
  }

  lemma {:induction false} ResumeInPlace(stream: Bytes, next: nat, v: Verdict)
    requires next <= |stream| && (v.Continue? ==> ProgressOk(v.acc))
    ensures ResumeAt(v, stream, next) == Resume(v, stream[next..], |stream|)
    decreases |stream| - next, 1
  {
    if v.Continue? {
      ScanInPlace(stream, next, v.acc);
    }
  }

  /** What the buffer holds of the message. */
  ghost function Collected(started: bool, buffer: array<byte>, have: nat): Progress
    requires have <= buffer.Length
    reads buffer
  {
    if started then Started(buffer.Length, buffer[..have]) else Idle
  }

  /** A handshake record: start or extend the message. */
  method TakeHandshake(buffer: array<byte>, have: nat, started: bool, payload: Bytes, streamLen: nat)
    returns (hello: array<byte>, have': nat, finding: Option<Finding>)
    requires have <= buffer.Length && (started ==> have < buffer.Length)
    modifies buffer
    ensures hello == buffer || fresh(hello)
    ensures have' <= hello.Length && (finding.None? ==> have' < hello.Length)
    ensures OneRecord(HANDSHAKE, payload, old(Collected(started, buffer, have)), streamLen) ==
            if finding.Some? then Stop(finding.value) else Continue(Started(hello.Length, hello[..have']))
  {
    hello, have' := buffer, have;
    if !started {
      if |payload| < 4 {
        return buffer, have, Some(Short(true));
      }
      if payload[0] != CLIENT_HELLO || U24(payload, 1) <= 0 || U24(payload, 1) > MAX_CLIENT_HELLO {
        return buffer, have, Some(GiveUp(Idle, streamLen));
      }
    }
    hello, have' := Absorb(buffer, have, started, payload);
    if have' >= hello.Length {
      assert hello[..] == hello[..have'];
      finding := Some(Whole(hello[..]));
    } else {
      finding := None;
    }
  }

  /** One whole record of any type. */
  method TakeRecord(buffer: array<byte>, have: nat, started: bool, contentType: byte, payload: Bytes, streamLen: nat)
    returns (hello: array<byte>, have': nat, started': bool, finding: Option<Finding>)
    requires have <= buffer.Length && (started ==> have < buffer.Length)
    modifies buffer
    ensures hello == buffer || fresh(hello)
    ensures have' <= hello.Length && (finding.None? && started' ==> have' < hello.Length)
    ensures OneRecord(contentType, payload, old(Collected(started, buffer, have)), streamLen) ==
            if finding.Some? then Stop(finding.value) else Continue(Collected(started', hello, have'))
  {
    hello, have', started', finding := buffer, have, started, None;
    if contentType == HANDSHAKE {
      hello, have', finding := TakeHandshake(buffer, have, started, payload, streamLen);
      started' := true;
    } else if !started && contentType != CHANGE_CIPHER_SPEC {
      finding := Some(GiveUp(Idle, streamLen));
    }
  }

  /** The record loop of `parse_client_hello_stream`, filling the message buffer. */
  method Assemble(stream: Bytes) returns (finding: Finding)
    ensures finding == ScanAt(stream, 0, Idle)
  {
    var pos, hello, have, started := 0, new byte[0], 0, false;
    while pos + 5 <= |stream|
      invariant pos <= |stream|
      invariant fresh(hello)
      invariant 0 <= have <= hello.Length && (started ==> have < hello.Length)
      invariant ScanAt(stream, 0, Idle) == ScanAt(stream, pos, Collected(started, hello, have))
    {
      var recordLen := U16(stream, pos + 3);
      var recordEnd := pos + 5 + recordLen;
      if recordLen <= 0 {
        break;
      }
      if recordEnd > |stream| {
        return Short(true);
      }
      var found;
      hello, have, started, found :=
        TakeRecord(hello, have, started, stream[pos], stream[pos + 5..recordEnd], |stream|);
      if found.Some? {
        return found.value;
      }
      pos := recordEnd;
    }
    return Short(started || |stream| < 5);
  }

  /** `parse_client_hello_stream`: the message parser runs once the message is whole. */
  method ParseClientHelloStream(stream: Bytes) returns (host: Option<Bytes>, needMore: bool)
    ensures Outcome(host, needMore) == ScanStream(stream)
  {
    var finding := Assemble(stream);
    assert stream[0..] == stream;
    ScanInPlace(stream, 0, Idle);
    match finding
    case Whole(hello) =>
      host := ParseClientHelloRecord(hello);
      needMore := false;
    case Short(more) =>
      host, needMore := None, more;
  }
}
