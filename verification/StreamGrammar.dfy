/** Which streams carry a whole ClientHello, and what every other stream makes the parser answer. */
module StreamGrammar {
  import opened Wrappers
  import opened Sequences
  import opened ClientHello
  import opened HelloEncoding
  import opened TlsStream
  import opened Fragmentation

  /** The length of the record at the front of the stream. */
  function BodyLength(s: Bytes): nat
    requires |s| >= 5
  {
    256 * (s[3] as int) + s[4] as int
  }

  /** The length that the handshake header at the front of a record announces. */
  function MessageLength(body: Bytes): nat
    requires |body| >= 4
  {
    65536 * (body[1] as int) + 256 * (body[2] as int) + body[3] as int
  }

  /** A first record by its type and body, with no message under way; `n` is the length of the whole stream. */
  lemma FirstVerdict(contentType: byte, body: Bytes, n: nat)
    ensures OneRecord(contentType, body, Idle, n) ==
            if contentType == 20 then Continue(Idle)
            else if contentType != 22 then Stop(Short(n < 5))
            else if |body| < 4 then Stop(Short(true))
            else if body[0] != 1 || MessageLength(body) == 0 || MessageLength(body) > 1048576 then Stop(Short(n < 5))
            else if |body| < MessageLength(body) + 4 then Continue(Started(MessageLength(body) + 4, body))
            else Stop(Whole(body[..MessageLength(body) + 4]))
  {
    if |body| >= 4 && |body| < MessageLength(body) + 4 {
      assert body[..|body|] == body;
    }
  }

  /** A further record, with `have` out of `total` bytes of the message collected. */
  lemma NextVerdict(contentType: byte, body: Bytes, total: nat, have: Bytes, n: nat)
    requires |have| < total
    ensures OneRecord(contentType, body, Started(total, have), n) ==
            if contentType != 22 then Continue(Started(total, have))
            else if |have| + |body| < total then Continue(Started(total, have + body))
            else Stop(Whole(have + body[..total - |have|]))
  {
    assert body[..|body|] == body;
  }

  lemma NoWholeRecord(s: Bytes, acc: Progress, n: nat)
    requires ProgressOk(acc) && (|s| < 5 || BodyLength(s) == 0 || |s| < 5 + BodyLength(s))
    ensures Scan(s, acc, n) == Short(if |s| < 5 || BodyLength(s) == 0 then acc != Idle || n < 5 else true)
  {
    if |s| >= 5 {
      assert U16(s, 3) == BodyLength(s);
    }
  }

  /** The answer for any stream: without a whole record at its front the parser stops, asking for more exactly if a
      record is cut, a message is under way or the stream is shorter than a header; else the record decides. */
  lemma AnswerByRecord(s: Bytes, acc: Progress, n: nat)
    requires ProgressOk(acc)
    ensures if |s| < 5 || BodyLength(s) == 0 then Scan(s, acc, n) == Short(acc != Idle || n < 5)
            else if |s| < 5 + BodyLength(s) then Scan(s, acc, n) == Short(true)
            else Scan(s, acc, n) ==
                   Resume(OneRecord(s[0], s[5..5 + BodyLength(s)], acc, n), s[5 + BodyLength(s)..], n)
  {
    if |s| < 5 || BodyLength(s) == 0 || |s| < 5 + BodyLength(s) {
      NoWholeRecord(s, acc, n);
    } else {
      assert U16(s, 3) == BodyLength(s);
      ScanFirst(s, acc, n);
    }
  }

  /** A record that decides ends the scan; after any other it goes on with the bytes that follow. */
  lemma ResumeMeaning(v: Verdict, next: Bytes, n: nat)
    requires v.Continue? ==> ProgressOk(v.acc)
    ensures v.Stop? ==> Resume(v, next, n) == v.finding
    ensures v.Continue? ==> Resume(v, next, n) == Scan(next, v.acc, n)
  {
  }

  // ---------- Streams with a whole message ----------

  /** Leading ChangeCipherSpec records, then records that carry `hello` up to the one that completes it. */
  predicate Delivers(stream: Bytes, ccs: seq<Record>, rs: seq<Record>, trailing: Bytes, hello: Bytes)
  {
    && AllChangeCipherSpec(ccs) && LastCompletes(rs, hello)
    && stream == EncodeRecords(ccs) + EncodeRecords(rs) + trailing
  }

  function FirstRecord(s: Bytes): (r: Record)
    requires StartsWithRecord(s)
    ensures RecordOk(r)
  {
    Record(s[0], s[1..3], FirstBody(s))
  }

  lemma RecordAt(s: Bytes)
    requires StartsWithRecord(s)
    ensures s == EncodeRecord(FirstRecord(s)) + AfterFirst(s)
  {
    var n := U16(s, 3);
    assert n / 256 == s[3] && n % 256 == s[4];
    assert s == [s[0]] + s[1..3] + s[3..5] + s[5..5 + n] + s[5 + n..];
  }

  lemma RecordsCons(r: Record, rs: seq<Record>, tail: Bytes)
    requires RecordOk(r) && RecordsOk(rs)
    ensures RecordsOk([r] + rs) && EncodeRecords([r] + rs) + tail == EncodeRecord(r) + (EncodeRecords(rs) + tail)
  {
    assert ([r] + rs)[0] == r && ([r] + rs)[1..] == rs;
    Regroup(EncodeRecord(r), EncodeRecords(rs), tail);
  }

  /** What a record adds to the handshake stream. */
  function Contribution(r: Record): Bytes { if r.contentType == 22 then r.body else [] }

  lemma HandshakeCons(r: Record, rs: seq<Record>)
    ensures HandshakeBytes([r] + rs) == Contribution(r) + HandshakeBytes(rs)
  {
    assert ([r] + rs)[0] == r && ([r] + rs)[1..] == rs;
  }

  lemma FrontCons(r: Record, rs: seq<Record>)
    requires rs != []
    ensures HandshakeBytes(([r] + rs)[..|rs|]) == Contribution(r) + HandshakeBytes(rs[..|rs| - 1])
  {
    assert ([r] + rs)[..|rs|] == [r] + rs[..|rs| - 1];
    HandshakeCons(r, rs[..|rs| - 1]);
  }

  /** The records that complete a message of which `have` is collected. */
  predicate Completes(s: Bytes, rs: seq<Record>, trailing: Bytes, have: Bytes, hello: Bytes)
  {
    && RecordsOk(rs) && rs != [] && s == EncodeRecords(rs) + trailing
    && hello <= have + HandshakeBytes(rs) && |have| + |HandshakeBytes(rs[..|rs| - 1])| < |hello|
  }

  /** A record in front of records that complete the message. */
  lemma CompletesCons(s: Bytes, r: Record, rest: Bytes, rs: seq<Record>, trailing: Bytes, have: Bytes, hello: Bytes)
    requires RecordOk(r) && s == EncodeRecord(r) + rest && Completes(rest, rs, trailing, have + Contribution(r), hello)
    ensures Completes(s, [r] + rs, trailing, have, hello)
  {
    RecordsCons(r, rs, trailing);
    HandshakeCons(r, rs);
    FrontCons(r, rs);
    Regroup(have, Contribution(r), HandshakeBytes(rs));
  }

  lemma {:induction false} StartedSound(s: Bytes, total: nat, have: Bytes, n: nat, hello: Bytes)
    returns (rs: seq<Record>, trailing: Bytes)
    requires |have| < total && Scan(s, Started(total, have), n) == Whole(hello)
    ensures |hello| == total && Completes(s, rs, trailing, have, hello)
    decreases |s|
  {
    WholeRecord(s, Started(total, have), n);
    RecordAt(s);
    ScanFirst(s, Started(total, have), n);
    var r, rest := FirstRecord(s), AfterFirst(s);
    NextVerdict(r.contentType, r.body, total, have, n);
    if r.contentType == 22 && |have| + |r.body| >= total {
      rs, trailing := [r], rest;
      LastOne(r, rest, have, hello);
    } else {
      assert r.contentType != 22 ==> have + Contribution(r) == have;
      rs, trailing := StartedSound(rest, total, have + Contribution(r), n, hello);
      CompletesCons(s, r, rest, rs, trailing, have, hello);
      rs := [r] + rs;
    }
  }

  lemma LastOne(r: Record, rest: Bytes, have: Bytes, hello: Bytes)
    requires RecordOk(r) && r.contentType == 22 && |have| < |hello| <= |have| + |r.body|
    requires hello == have + r.body[..|hello| - |have|]
    ensures Completes(EncodeRecord(r) + rest, [r], rest, have, hello)
  {
    assert [r][1..] == [] && [r][..0] == [];
    assert EncodeRecords([r]) == EncodeRecord(r) + [] == EncodeRecord(r);
    assert HandshakeBytes([r]) == r.body + [] == r.body;
    assert hello <= have + r.body;
  }

  lemma DeliversCons(s: Bytes, r: Record, rest: Bytes, ccs: seq<Record>, rs: seq<Record>, trailing: Bytes, hello: Bytes)
    requires RecordOk(r) && r.contentType == 20 && s == EncodeRecord(r) + rest
    requires Delivers(rest, ccs, rs, trailing, hello)
    ensures Delivers(s, [r] + ccs, rs, trailing, hello)
  {
    Regroup(EncodeRecords(ccs), EncodeRecords(rs), trailing);
    RecordsCons(r, ccs, EncodeRecords(rs) + trailing);
    Regroup(EncodeRecords([r] + ccs), EncodeRecords(rs), trailing);
  }

  lemma {:induction false} IdleSound(s: Bytes, n: nat, hello: Bytes)
    returns (ccs: seq<Record>, rs: seq<Record>, trailing: Bytes)
    requires Scan(s, Idle, n) == Whole(hello)
    ensures Delivers(s, ccs, rs, trailing, hello)
    decreases |s|
  {
    WholeRecord(s, Idle, n);
    RecordAt(s);
    ScanFirst(s, Idle, n);
    var r, rest := FirstRecord(s), AfterFirst(s);
    FirstVerdict(r.contentType, r.body, n);
    if r.contentType == 20 {
      ccs, rs, trailing := IdleSound(rest, n, hello);
      DeliversCons(s, r, rest, ccs, rs, trailing, hello);
      ccs := [r] + ccs;
    } else {
      rs, trailing := FirstSound(r, rest, n, hello);
      ccs := [];
      NothingLeading(s, rs, trailing);
    }
  }

  lemma NothingLeading(s: Bytes, rs: seq<Record>, trailing: Bytes)
    requires RecordsOk(rs) && s == EncodeRecords(rs) + trailing
    ensures s == EncodeRecords([]) + EncodeRecords(rs) + trailing
  {
    assert EncodeRecords([]) + EncodeRecords(rs) == EncodeRecords(rs);
  }

  /** The record that starts the message, and the records that complete it. */
  lemma FirstSound(r: Record, rest: Bytes, n: nat, hello: Bytes) returns (rs: seq<Record>, trailing: Bytes)
    requires RecordOk(r) && r.contentType != 20
    requires Resume(OneRecord(r.contentType, r.body, Idle, n), rest, n) == Whole(hello)
    ensures LastCompletes(rs, hello) && EncodeRecord(r) + rest == EncodeRecords(rs) + trailing
  {
    FirstVerdict(r.contentType, r.body, n);
    var total := MessageLength(r.body) + 4;
    if |r.body| >= total {
      rs, trailing := [r], rest;
      assert hello == [] + r.body[..total];
      LastOne(r, rest, [], hello);
    } else {
      rs, trailing := StartedSound(rest, total, r.body, n, hello);
      assert [] + Contribution(r) == r.body;
      CompletesCons(EncodeRecord(r) + rest, r, rest, rs, trailing, [], hello);
      rs := [r] + rs;
    }
    assert [] + HandshakeBytes(rs) == HandshakeBytes(rs);
    HeaderInside(r, rs, hello, total);
  }

  lemma HeaderInside(r: Record, rs: seq<Record>, hello: Bytes, total: nat)
    requires RecordsOk(rs) && rs != [] && rs[0] == r && r.contentType == 22 && |r.body| >= 4
    requires r.body[0] == 1 && U24(r.body, 1) + 4 == total == |hello| && 4 < total <= 0x10_0004
    requires hello <= HandshakeBytes(rs)
    ensures IsHello(hello)
  {
    var all := HandshakeBytes(rs);
    assert all == r.body + HandshakeBytes(rs[1..]);
    assert forall i :: 0 <= i < 4 ==> hello[i] == all[i] == r.body[i];
  }

  /** On arbitrary bytes the stream parser assembles `hello` exactly if the stream is a run of ChangeCipherSpec
      records, then records whose handshake bytes start with `hello`, the first holding its header, then anything. */
  lemma StreamExactly(stream: Bytes, hello: Bytes)
    ensures Scan(stream, Idle, |stream|) == Whole(hello) <==>
            exists ccs, rs, trailing :: Delivers(stream, ccs, rs, trailing, hello)
  {
    if Scan(stream, Idle, |stream|) == Whole(hello) {
      var ccs, rs, trailing := IdleSound(stream, |stream|, hello);
    }
    if exists ccs, rs, trailing :: Delivers(stream, ccs, rs, trailing, hello) {
      var ccs, rs, trailing :| Delivers(stream, ccs, rs, trailing, hello);
      Regroup(EncodeRecords(ccs), EncodeRecords(rs), trailing);
      SkipChangeCipherSpecs(ccs, EncodeRecords(rs) + trailing, |stream|);
      ScanCarrying(rs, hello, trailing, |stream|);
    }
  }
}
