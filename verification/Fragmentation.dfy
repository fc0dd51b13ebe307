/** The stream parser does not see how a ClientHello is cut into records, nor how much is peeked. */
module Fragmentation {
  import opened Wrappers
  import opened Sequences
  import opened ClientHello
  import opened HelloEncoding
  import opened TlsStream

  datatype Record = Record(contentType: byte, version: Bytes, body: Bytes)

  predicate RecordOk(r: Record) { |r.version| == 2 && 0 < |r.body| < 0x1_0000 }

  predicate RecordsOk(rs: seq<Record>) { forall i :: 0 <= i < |rs| ==> RecordOk(rs[i]) }

  function EncodeRecord(r: Record): (s: Bytes)
    requires RecordOk(r)
    ensures |s| == 5 + |r.body|
  {
    [r.contentType] + r.version + Enc16(|r.body|) + r.body
  }

  function EncodeRecords(rs: seq<Record>): Bytes
    requires RecordsOk(rs)
  {
    if rs == [] then [] else EncodeRecord(rs[0]) + EncodeRecords(rs[1..])
  }

  /** The handshake stream: the bodies of the handshake records, in order. */
  function HandshakeBytes(rs: seq<Record>): Bytes
  {
    if rs == [] then [] else (if rs[0].contentType == 22 then rs[0].body else []) + HandshakeBytes(rs[1..])
  }

  /** A complete ClientHello message, as far as its header tells. */
  predicate IsHello(hello: Bytes)
  {
    4 < |hello| <= 0x10_0004 && hello[0] == 1 && U24(hello, 1) == |hello| - 4
  }

  /** The records carry `hello`, starting with a handshake record that holds its header. */
  predicate Carries(rs: seq<Record>, hello: Bytes)
  {
    && RecordsOk(rs) && rs != [] && rs[0].contentType == 22 && |rs[0].body| >= 4
    && IsHello(hello) && hello <= HandshakeBytes(rs)
  }

  // ---------- One record ----------

  lemma ScanEncoded(r: Record, more: Bytes, acc: Progress, streamLen: nat)
    requires RecordOk(r) && ProgressOk(acc)
    ensures Scan(EncodeRecord(r) + more, acc, streamLen) ==
            Resume(OneRecord(r.contentType, r.body, acc, streamLen), more, streamLen)
  {
    var s := EncodeRecord(r) + more;
    assert U16(s, 3) == U16(Enc16(|r.body|), 0);
    assert s[5..5 + |r.body|] == r.body && s[5 + |r.body|..] == more;
    assert s[0..] == s;
    ScanRecord(s, 0, acc, streamLen);
  }

  /** A proper prefix of one record asks for more, unless nothing was started and its header is cut. */
  lemma ScanCut(r: Record, p: Bytes, acc: Progress, streamLen: nat)
    requires RecordOk(r) && p <= EncodeRecord(r) && |p| < 5 + |r.body|
    requires ProgressOk(acc)
    ensures Scan(p, acc, streamLen) == Short(acc.Started? || streamLen < 5 || 5 <= |p|)
  {
    if 5 <= |p| {
      var s := EncodeRecord(r);
      assert p[3] == s[3] && p[4] == s[4];
      assert U16(s, 3) == U16(Enc16(|r.body|), 0);
      assert U16(p, 3) == |r.body|;
    }
  }

  // ---------- Independence of fragmentation ----------

  /** Moving a record body from the bytes to come to the bytes collected. */
  lemma BodyMoves(hello: Bytes, have: Bytes, body: Bytes, rest: Bytes)
    requires |have| < |hello| && hello <= have + (body + rest)
    ensures |have| + |body| < |hello| ==> hello <= (have + body) + rest
    ensures |hello| <= |have| + |body| ==> have + body[..|hello| - |have|] == hello
  {
    assert have + (body + rest) == (have + body) + rest;
    if |hello| <= |have| + |body| {
      assert have + body[..|hello| - |have|] == (have + (body + rest))[..|hello|];
    }
  }

  /** A further handshake record either completes the message or brings it closer. */
  lemma CollectMore(hello: Bytes, have: Bytes, r: Record, rest: Bytes, streamLen: nat)
    requires r.contentType == HANDSHAKE && |have| < |hello| && hello <= have + (r.body + rest)
    ensures OneRecord(r.contentType, r.body, Started(|hello|, have), streamLen) ==
            if |have| + |r.body| < |hello| then Continue(Started(|hello|, have + r.body))
            else Stop(Whole(hello))
  {
    BodyMoves(hello, have, r.body, rest);
    assert r.body[..|r.body|] == r.body;
  }

  lemma {:induction false} ScanRemaining(rs: seq<Record>, have: Bytes, hello: Bytes, trailing: Bytes, streamLen: nat)
    requires RecordsOk(rs) && |have| < |hello| && hello <= have + HandshakeBytes(rs)
    ensures Scan(EncodeRecords(rs) + trailing, Started(|hello|, have), streamLen) == Whole(hello)
  {
    var r, more := rs[0], EncodeRecords(rs[1..]) + trailing;
    assert EncodeRecords(rs) + trailing == EncodeRecord(r) + more;
    ScanEncoded(r, more, Started(|hello|, have), streamLen);
    if r.contentType != HANDSHAKE {
      assert HandshakeBytes(rs) == HandshakeBytes(rs[1..]);
      ScanRemaining(rs[1..], have, hello, trailing, streamLen);
    } else {
      CollectMore(hello, have, r, HandshakeBytes(rs[1..]), streamLen);
      if |have| + |r.body| < |hello| {
        BodyMoves(hello, have, r.body, HandshakeBytes(rs[1..]));
        ScanRemaining(rs[1..], have + r.body, hello, trailing, streamLen);
      }
    }
  }

  /** The first record starts the message that the rest completes. */
  lemma FirstFragment(rs: seq<Record>, hello: Bytes)
    requires Carries(rs, hello)
    ensures var body := rs[0].body;
            && body[0] == CLIENT_HELLO && U24(body, 1) == |hello| - 4
            && Collect(Idle, body) == Started(|hello|, if |body| < |hello| then body else hello)
  {
    var body, all := rs[0].body, HandshakeBytes(rs);
    assert forall i :: 0 <= i < |body| ==> all[i] == body[i];
    assert forall i :: 0 <= i < |hello| ==> all[i] == hello[i];
    assert body[0] == hello[0] && body[1] == hello[1] && body[2] == hello[2] && body[3] == hello[3];
    if |body| < |hello| {
      assert body[..|body|] == body;
    } else {
      assert body[..|hello|] == hello;
    }
  }

  lemma ScanCarrying(rs: seq<Record>, hello: Bytes, trailing: Bytes, streamLen: nat)
    requires Carries(rs, hello)
    ensures Scan(EncodeRecords(rs) + trailing, Idle, streamLen) == Whole(hello)
  {
    var r, more := rs[0], EncodeRecords(rs[1..]) + trailing;
    assert EncodeRecords(rs) + trailing == EncodeRecord(r) + more;
    FirstFragment(rs, hello);
    ScanEncoded(r, more, Idle, streamLen);
    if |r.body| < |hello| {
      ScanRemaining(rs[1..], r.body, hello, trailing, streamLen);
    }
  }

  predicate AllChangeCipherSpec(rs: seq<Record>)
  {
    RecordsOk(rs) && forall i :: 0 <= i < |rs| ==> rs[i].contentType == 20
  }

  lemma {:induction false} SkipChangeCipherSpecs(ccs: seq<Record>, more: Bytes, streamLen: nat)
    requires AllChangeCipherSpec(ccs)
    ensures Scan(EncodeRecords(ccs) + more, Idle, streamLen) == Scan(more, Idle, streamLen)
  {
    if ccs == [] {
      assert EncodeRecords(ccs) + more == more;
    } else {
      var rest := EncodeRecords(ccs[1..]) + more;
      assert EncodeRecords(ccs) + more == EncodeRecord(ccs[0]) + rest;
      ScanEncoded(ccs[0], rest, Idle, streamLen);
      SkipChangeCipherSpecs(ccs[1..], more, streamLen);
    }
  }

  /** However a ClientHello is cut into records, with other record types in between, leading
      ChangeCipherSpec records and any bytes after it, the stream parser returns what the
      message parser returns on the whole message. */
  lemma FragmentationIndependence(ccs: seq<Record>, rs: seq<Record>, hello: Bytes, trailing: Bytes)
    requires AllChangeCipherSpec(ccs) && Carries(rs, hello)
    ensures ScanStream(EncodeRecords(ccs) + EncodeRecords(rs) + trailing) == Outcome(HelloHost(hello), false)
  {
    var stream := EncodeRecords(ccs) + EncodeRecords(rs) + trailing;
    Regroup(EncodeRecords(ccs), EncodeRecords(rs), trailing);
    SkipChangeCipherSpecs(ccs, EncodeRecords(rs) + trailing, |stream|);
    ScanCarrying(rs, hello, trailing, |stream|);
  }

  // ---------- Peek stability ----------

  /** The last record is the one that completes the message. */
  predicate LastCompletes(rs: seq<Record>, hello: Bytes)
  {
    Carries(rs, hello) && |HandshakeBytes(rs[..|rs| - 1])| < |hello|
  }

  lemma {:induction false} AsksUntilComplete(rs: seq<Record>, p: Bytes, acc: Progress, streamLen: nat)
    requires RecordsOk(rs) && p <= EncodeRecords(rs) && |p| < |EncodeRecords(rs)|
    requires acc.Started? && |acc.have| + |HandshakeBytes(rs[..|rs| - 1])| < acc.total
    ensures Scan(p, acc, streamLen) == Short(true)
  {
    var r, s := rs[0], EncodeRecord(rs[0]);
    if |p| < |s| {
      assert p <= s;
      ScanCut(r, p, acc, streamLen);
    } else {
      var p' := p[|s|..];
      assert p == s + p';
      assert p' <= EncodeRecords(rs[1..]);
      ScanEncoded(r, p', acc, streamLen);
      assert rs[1..] != [];
      assert rs[..|rs| - 1][0] == r && rs[..|rs| - 1][1..] == rs[1..][..|rs[1..]| - 1];
      var acc' := if r.contentType == HANDSHAKE then Collect(acc, r.body) else acc;
      AsksUntilComplete(rs[1..], p', acc', streamLen);
    }
  }

  /** `left` bytes beyond `consumed` end inside or right before a record header that follows a
      leading ChangeCipherSpec record. */
  predicate HeaderGap(ccs: seq<Record>, consumed: nat, left: nat)
  {
    (consumed >= 5 && left < 5) ||
    (ccs != [] && left >= 5 + |ccs[0].body| &&
     HeaderGap(ccs[1..], consumed + 5 + |ccs[0].body|, left - 5 - |ccs[0].body|))
  }

  lemma HelloPrefixOutcome(rs: seq<Record>, hello: Bytes, p: Bytes, streamLen: nat)
    requires LastCompletes(rs, hello)
    requires p <= EncodeRecords(rs) && |p| < |EncodeRecords(rs)|
    ensures Scan(p, Idle, streamLen) == Short(streamLen < 5 || 5 <= |p|)
  {
    var r, s := rs[0], EncodeRecord(rs[0]);
    if |p| < |s| {
      assert p <= s;
      ScanCut(r, p, Idle, streamLen);
    } else {
      var p' := p[|s|..];
      assert p == s + p' && p' <= EncodeRecords(rs[1..]);
      ScanEncoded(r, p', Idle, streamLen);
      FirstFragment(rs, hello);
      assert rs[1..] != [];
      assert rs[..|rs| - 1][0] == r && rs[..|rs| - 1][1..] == rs[1..][..|rs[1..]| - 1];
      AsksUntilComplete(rs[1..], p', Started(|hello|, r.body), streamLen);
    }
  }

  /** The stream ends among the leading records. */
  lemma {:induction false} CutAmongLeading(ccs: seq<Record>, p: Bytes, consumed: nat)
    requires AllChangeCipherSpec(ccs) && p <= EncodeRecords(ccs) && |p| < |EncodeRecords(ccs)|
    requires consumed == 0 || consumed >= 5
    ensures Scan(p, Idle, consumed + |p|) == Short(!HeaderGap(ccs, consumed, |p|))
  {
    var s, more := EncodeRecord(ccs[0]), EncodeRecords(ccs[1..]);
    SplitPrefix(p, s, more);
    if |p| < |s| {
      ScanCut(ccs[0], p, Idle, consumed + |p|);
    } else {
      var p' := p[|s|..];
      ScanEncoded(ccs[0], p', Idle, consumed + |p|);
      CutAmongLeading(ccs[1..], p', consumed + |s|);
      assert consumed + |p| == (consumed + |s|) + |p'|;
    }
  }

  /** The stream reaches past the leading records. */
  lemma {:induction false} GapPastLeading(ccs: seq<Record>, consumed: nat, left: nat)
    requires AllChangeCipherSpec(ccs) && left >= |EncodeRecords(ccs)|
    ensures HeaderGap(ccs, consumed, left) <==>
            consumed + |EncodeRecords(ccs)| >= 5 && left - |EncodeRecords(ccs)| < 5
  {
    if ccs != [] {
      GapPastLeading(ccs[1..], consumed + 5 + |ccs[0].body|, left - 5 - |ccs[0].body|);
    }
  }

  lemma SplitPrefix(p: Bytes, s: Bytes, more: Bytes)
    requires p <= s + more
    ensures |p| < |s| ==> p <= s
    ensures |s| <= |p| ==> p == s + p[|s|..] && p[|s|..] <= more
  {
  }

  /** Peek stability: before the completing record has arrived, every prefix asks for more, except
      exactly those that stop within the header following a leading ChangeCipherSpec record. */
  lemma PrefixAsksForMore(ccs: seq<Record>, rs: seq<Record>, hello: Bytes, p: Bytes)
    requires AllChangeCipherSpec(ccs) && LastCompletes(rs, hello)
    requires p <= EncodeRecords(ccs) + EncodeRecords(rs) && |p| < |EncodeRecords(ccs) + EncodeRecords(rs)|
    ensures ScanStream(p) == Outcome(None, !HeaderGap(ccs, 0, |p|))
    ensures ccs == [] ==> ScanStream(p).needMore
  {
    PrefixFinding(ccs, rs, hello, p);
  }

  lemma PrefixFinding(ccs: seq<Record>, rs: seq<Record>, hello: Bytes, p: Bytes)
    requires AllChangeCipherSpec(ccs) && LastCompletes(rs, hello)
    requires p <= EncodeRecords(ccs) + EncodeRecords(rs) && |p| < |EncodeRecords(ccs) + EncodeRecords(rs)|
    ensures Scan(p, Idle, |p|) == Short(!HeaderGap(ccs, 0, |p|))
  {
    var lead := EncodeRecords(ccs);
    SplitPrefix(p, lead, EncodeRecords(rs));
    if |p| < |lead| {
      CutAmongLeading(ccs, p, 0);
    } else {
      SkipChangeCipherSpecs(ccs, p[|lead|..], |p|);
      HelloPrefixOutcome(rs, hello, p[|lead|..], |p|);
      GapPastLeading(ccs, 0, |p|);
    }
  }

  /** A peek that ends right after a lone ChangeCipherSpec record makes the parser give up. */
  lemma ChangeCipherSpecGap()
    ensures ScanStream([20, 3, 3, 0, 1, 1]) == Outcome(None, false)
  {
    var s: Bytes := [20, 3, 3, 0, 1, 1];
    assert s[6..] == [];
    assert U16(s, 3) == 1;
  }

  /** Once a message is whole, no further byte changes it. */
  lemma {:induction false} MessageIsStable(s: Bytes, t: Bytes, acc: Progress, n: nat, m: nat)
    requires ProgressOk(acc)
    requires Scan(s, acc, n).Whole?
    ensures Scan(s + t, acc, m) == Scan(s, acc, n)
    decreases |s|
  {
    WholeRecord(s, acc, n);
    var body, rest := FirstBody(s), AfterFirst(s);
    ScanExtended(s, [], acc, n);
    assert s + [] == s && rest + [] == rest;
    ScanExtended(s, t, acc, m);
    SameVerdict(s[0], body, acc, n, m);
    match OneRecord(s[0], body, acc, n)
    case Stop(_) =>
    case Continue(acc') => MessageIsStable(rest, t, acc', n, m);
  }

  /** Once a host name is found, every longer stream gives the same one. */
  lemma HostIsStable(s: Bytes, t: Bytes)
    requires ScanStream(s).host.Some?
    ensures ScanStream(s + t) == ScanStream(s)
  {
    MessageIsStable(s, t, Idle, |s|, |s + t|);
  }

  lemma SameVerdict(contentType: byte, body: Bytes, acc: Progress, n: nat, m: nat)
    requires ProgressOk(acc)
    ensures var v := OneRecord(contentType, body, acc, n);
            v.Continue? || v.finding.Whole? ==> OneRecord(contentType, body, acc, m) == v
  {
  }

  lemma WholeRecord(s: Bytes, acc: Progress, n: nat)
    requires ProgressOk(acc)
    requires Scan(s, acc, n).Whole?
    ensures StartsWithRecord(s)
  {
  }

  lemma ScanExtended(s: Bytes, t: Bytes, acc: Progress, m: nat)
    requires ProgressOk(acc)
    requires StartsWithRecord(s)
    ensures Scan(s + t, acc, m) == Resume(OneRecord(s[0], FirstBody(s), acc, m), AfterFirst(s) + t, m)
  {
    FirstExtended(s, t);
    ScanFirst(s + t, acc, m);
  }

  lemma FirstExtended(s: Bytes, t: Bytes)
    requires StartsWithRecord(s)
    ensures StartsWithRecord(s + t) && (s + t)[0] == s[0]
    ensures FirstBody(s + t) == FirstBody(s) && AfterFirst(s + t) == AfterFirst(s) + t
  {
    var k := U16(s, 3);
    assert U16(s + t, 3) == k;
    assert (s + t)[5..5 + k] == s[5..5 + k];
    assert (s + t)[5 + k..] == s[5 + k..] + t;
  }

  /** The peek loop of `get_sni_hostname`: look at ever longer prefixes until the parser decides. */
  function PeekLoop(stream: Bytes, peeks: seq<nat>): Option<Bytes>
    requires forall i :: 0 <= i < |peeks| ==> peeks[i] <= |stream|
  {
    if peeks == [] then None else
    var o := ScanStream(stream[..peeks[0]]);
    if o.host.Some? || !o.needMore then o.host else PeekLoop(stream, peeks[1..])
  }

  /** Before any peek reaches `whole` bytes, one of them ends in the gap. */
  ghost predicate MeetsGap(ccs: seq<Record>, whole: nat, peeks: seq<nat>)
  {
    exists i :: 0 <= i < |peeks| && HeaderGap(ccs, 0, peeks[i]) && forall j :: 0 <= j <= i ==> peeks[j] < whole
  }

  lemma GapNowOrLater(ccs: seq<Record>, whole: nat, peeks: seq<nat>)
    requires peeks != []
    ensures MeetsGap(ccs, whole, peeks) <==>
            peeks[0] < whole && (HeaderGap(ccs, 0, peeks[0]) || MeetsGap(ccs, whole, peeks[1..]))
  {
    var later := peeks[1..];
    assert forall j :: 0 < j < |peeks| ==> peeks[j] == later[j - 1];
    if peeks[0] < whole && HeaderGap(ccs, 0, peeks[0]) {
      assert forall j :: 0 <= j <= 0 ==> peeks[j] < whole;
    } else if peeks[0] < whole && MeetsGap(ccs, whole, later) {
      var i :| 0 <= i < |later| && HeaderGap(ccs, 0, later[i]) && forall j :: 0 <= j <= i ==> later[j] < whole;
      assert HeaderGap(ccs, 0, peeks[i + 1]);
    }
    if MeetsGap(ccs, whole, peeks) && !HeaderGap(ccs, 0, peeks[0]) {
      var i :| 0 <= i < |peeks| && HeaderGap(ccs, 0, peeks[i]) && forall j :: 0 <= j <= i ==> peeks[j] < whole;
      assert HeaderGap(ccs, 0, later[i - 1]);
    }
  }

  /** Whatever the sizes of the peeks, once one of them reaches the end of the message the peek loop
      answers with its host, unless an earlier peek ended in the gap after a leading ChangeCipherSpec. */
  lemma {:induction false} PeekingFindsHost(ccs: seq<Record>, rs: seq<Record>, hello: Bytes, trailing: Bytes,
                                            peeks: seq<nat>)
    requires AllChangeCipherSpec(ccs) && LastCompletes(rs, hello)
    requires forall i :: 0 <= i < |peeks| ==> peeks[i] <= |EncodeRecords(ccs) + EncodeRecords(rs) + trailing|
    requires exists i :: 0 <= i < |peeks| && peeks[i] >= |EncodeRecords(ccs) + EncodeRecords(rs)|
    ensures PeekLoop(EncodeRecords(ccs) + EncodeRecords(rs) + trailing, peeks) ==
            if MeetsGap(ccs, |EncodeRecords(ccs) + EncodeRecords(rs)|, peeks) then None else HelloHost(hello)
  {
    var whole, n := EncodeRecords(ccs) + EncodeRecords(rs), peeks[0];
    var p := (whole + trailing)[..n];
    GapNowOrLater(ccs, |whole|, peeks);
    if n < |whole| {
      assert p == whole[..n];
      PrefixAsksForMore(ccs, rs, hello, p);
      if !HeaderGap(ccs, 0, n) {
        PeekingFindsHost(ccs, rs, hello, trailing, peeks[1..]);
      }
    } else {
      assert p == whole + trailing[..n - |whole|];
      FragmentationIndependence(ccs, rs, hello, trailing[..n - |whole|]);
    }
  }

  /** End to end: however its ClientHello is cut into records and peeked at, a client is routed by
      the host name it encoded, unless a peek ended in the gap; without a leading ChangeCipherSpec
      record there is no gap. */
  lemma ClientRoutedByName(ccs: seq<Record>, h: Hello, rs: seq<Record>, trailing: Bytes, peeks: seq<nat>)
    requires AllChangeCipherSpec(ccs) && HelloOk(h) && LastCompletes(rs, EncodeHello(h))
    requires forall i :: 0 <= i < |peeks| ==> peeks[i] <= |EncodeRecords(ccs) + EncodeRecords(rs) + trailing|
    requires exists i :: 0 <= i < |peeks| && peeks[i] >= |EncodeRecords(ccs) + EncodeRecords(rs)|
    ensures PeekLoop(EncodeRecords(ccs) + EncodeRecords(rs) + trailing, peeks) ==
            if MeetsGap(ccs, |EncodeRecords(ccs) + EncodeRecords(rs)|, peeks) then None else HostOf(h)
    ensures ccs == [] ==> PeekLoop(EncodeRecords(ccs) + EncodeRecords(rs) + trailing, peeks) == HostOf(h)
  {
    PeekingFindsHost(ccs, rs, EncodeHello(h), trailing, peeks);
    ParserInvertsEncoder(h, []);
    assert EncodeHello(h) + [] == EncodeHello(h);
  }
}
