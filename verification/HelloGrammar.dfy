/** Which byte strings name a host: the parser finds one in exactly those that have the shape of a ClientHello
    up to the name, whatever follows. */
module HelloGrammar {
  import opened Wrappers
  import opened Sequences
  import opened ClientHello
  import opened HelloEncoding

  lemma Enc16OfU16(s: Bytes, k: nat)
    requires k + 2 <= |s|
    ensures U16(s, k) < 0x1_0000 && s[k..k + 2] == Enc16(U16(s, k))
  {
    var n := U16(s, k);
    assert n / 256 == s[k] && n % 256 == s[k + 1];
  }

  // ---------- Server name lists ----------

  /** One entry of a server name list on the wire. */
  function EntryBytes(kind: byte, text: Bytes): Bytes
    requires |text| < 0x1_0000
  {
    [kind] + Enc16(|text|) + text
  }

  /** The list is well-formed up to its first entry of type 0, whose text normalises to `host`. */
  predicate NamesGive(list: Bytes, ns: seq<Name>, text: Bytes, rest: Bytes, host: Bytes)
  {
    && NamesSize(ns) < 0x1_0000 && |text| < 0x1_0000 && (forall i :: 0 <= i < |ns| ==> ns[i].kind != 0)
    && list == EncodeNames(ns) + (EntryBytes(0, text) + rest) && Normalize(text) == Some(host)
  }

  lemma EntryAt(list: Bytes)
    requires |list| >= 3 && 3 + U16(list, 1) <= |list|
    ensures U16(list, 1) < 0x1_0000
    ensures list == EntryBytes(list[0], list[3..3 + U16(list, 1)]) + list[3 + U16(list, 1)..]
  {
    var n := U16(list, 1);
    Enc16OfU16(list, 1);
    assert list == [list[0]] + list[1..3] + list[3..3 + n] + list[3 + n..];
  }

  lemma NamesCons(n: Name, ns: seq<Name>, tail: Bytes)
    requires NamesSize([n] + ns) < 0x1_0000
    ensures NamesSize(ns) < 0x1_0000 && |n.text| < 0x1_0000 && NamesSize([n] + ns) == 3 + |n.text| + NamesSize(ns)
    ensures EncodeNames([n] + ns) + tail == EntryBytes(n.kind, n.text) + (EncodeNames(ns) + tail)
  {
    assert ([n] + ns)[0] == n && ([n] + ns)[1..] == ns;
    Regroup(EntryBytes(n.kind, n.text), EncodeNames(ns), tail);
  }

  lemma {:induction false} NamesSound(list: Bytes, host: Bytes) returns (ns: seq<Name>, text: Bytes, rest: Bytes)
    requires |list| < 0x1_0000 && NamesHost(list) == Some(host)
    ensures NamesGive(list, ns, text, rest, host)
  {
    var n := U16(list, 1);
    EntryAt(list);
    if list[0] == 0 {
      ns, text, rest := [], list[3..3 + n], list[3 + n..];
      assert EncodeNames([]) + (EntryBytes(0, text) + rest) == EntryBytes(0, text) + rest;
    } else {
      var name, more := Name(list[0], list[3..3 + n]), list[3 + n..];
      ns, text, rest := NamesSound(more, host);
      assert |EncodeNames(ns)| <= |more|;
      assert ([name] + ns)[0] == name && ([name] + ns)[1..] == ns;
      NamesCons(name, ns, EntryBytes(0, text) + rest);
      ns := [name] + ns;
    }
  }

  lemma EntryRead(kind: byte, text: Bytes, more: Bytes)
    requires |text| < 0x1_0000
    ensures var list := EntryBytes(kind, text) + more;
            && |list| >= 3 && list[0] == kind && U16(list, 1) == |text| && 3 + |text| <= |list|
            && list[3..3 + |text|] == text && list[3 + |text|..] == more
  {
    var list := EntryBytes(kind, text) + more;
    assert list[1] == Enc16(|text|)[0] && list[2] == Enc16(|text|)[1];
  }

  lemma {:induction false} NamesComplete(list: Bytes, ns: seq<Name>, text: Bytes, rest: Bytes, host: Bytes)
    requires NamesGive(list, ns, text, rest, host)
    ensures NamesHost(list) == Some(host)
    decreases |ns|
  {
    var tail := EntryBytes(0, text) + rest;
    if ns == [] {
      assert EncodeNames(ns) + tail == tail;
      EntryRead(0, text, rest);
      NamesUnfold(list, |text|, text, rest);
    } else {
      var n, more := ns[0], EncodeNames(ns[1..]) + tail;
      assert ns == [n] + ns[1..];
      NamesCons(n, ns[1..], tail);
      EntryRead(n.kind, n.text, more);
      NamesUnfold(list, |n.text|, n.text, more);
      NamesComplete(more, ns[1..], text, rest, host);
    }
  }

  lemma NamesExactly(list: Bytes, host: Bytes)
    requires |list| < 0x1_0000
    ensures NamesHost(list) == Some(host) <==> exists ns, text, rest :: NamesGive(list, ns, text, rest, host)
  {
    if NamesHost(list) == Some(host) {
      var ns, text, rest := NamesSound(list, host);
    }
    if exists ns, text, rest :: NamesGive(list, ns, text, rest, host) {
      var ns, text, rest :| NamesGive(list, ns, text, rest, host);
      NamesComplete(list, ns, text, rest, host);
    }
  }

  // ---------- The server_name extension ----------

  /** The content holds a list that gives the host, behind the length of the list. */
  predicate ContentGives(content: Bytes, list: Bytes, rest: Bytes, ns: seq<Name>, text: Bytes, more: Bytes, host: Bytes)
  {
    |list| < 0x1_0000 && content == Enc16(|list|) + list + rest && NamesGive(list, ns, text, more, host)
  }

  lemma ListAt(content: Bytes, list: Bytes, rest: Bytes)
    requires |list| < 0x1_0000
    ensures content == Enc16(|list|) + list + rest <==>
            |content| >= 2 && U16(content, 0) == |list| && 2 + |list| <= |content|
            && content[2..2 + |list|] == list && content[2 + |list|..] == rest
  {
    if content == Enc16(|list|) + list + rest {
      assert content[0] == Enc16(|list|)[0] && content[1] == Enc16(|list|)[1];
    }
    if |content| >= 2 && U16(content, 0) == |list| && 2 + |list| <= |content|
       && content[2..2 + |list|] == list && content[2 + |list|..] == rest {
      Enc16OfU16(content, 0);
      assert content == content[0..2] + content[2..2 + |list|] + content[2 + |list|..];
    }
  }

  lemma ContentExactly(content: Bytes, host: Bytes)
    ensures ServerNameHost(content) == Some(host) <==>
            exists list, rest, ns, text, more :: ContentGives(content, list, rest, ns, text, more, host)
  {
    if ServerNameHost(content) == Some(host) {
      var list, rest, ns, text, more := ContentSound(content, host);
    }
    if exists list, rest, ns, text, more :: ContentGives(content, list, rest, ns, text, more, host) {
      var list, rest, ns, text, more :| ContentGives(content, list, rest, ns, text, more, host);
      ListAt(content, list, rest);
      NamesComplete(list, ns, text, more, host);
    }
  }

  lemma ContentSound(content: Bytes, host: Bytes)
    returns (list: Bytes, rest: Bytes, ns: seq<Name>, text: Bytes, more: Bytes)
    requires ServerNameHost(content) == Some(host)
    ensures ContentGives(content, list, rest, ns, text, more, host)
  {
    var n := U16(content, 0);
    Enc16OfU16(content, 0);
    list, rest := content[2..2 + n], content[2 + n..];
    ListAt(content, list, rest);
    ns, text, more := NamesSound(list, host);
  }

  // ---------- Extension blocks ----------

  /** An extension of any type, with its content as it is on the wire. */
  datatype Raw = Raw(kind: nat, content: Bytes)

  predicate RawOk(x: Raw) { x.kind < 0x1_0000 && |x.content| < 0x1_0000 }

  function RawBytes(x: Raw): Bytes
    requires RawOk(x)
  {
    Enc16(x.kind) + Enc16(|x.content|) + x.content
  }

  function RawsBytes(xs: seq<Raw>): Bytes
    requires forall i :: 0 <= i < |xs| ==> RawOk(xs[i])
  {
    if xs == [] then [] else RawBytes(xs[0]) + RawsBytes(xs[1..])
  }

  /** The extension is no server_name extension that names a host. */
  predicate Nameless(x: Raw) { x.kind == 0 ==> ServerNameHost(x.content).None? }

  /** The block is well-formed up to its first server_name extension that names a host. */
  predicate BlockGives(block: Bytes, xs: seq<Raw>, content: Bytes, rest: Bytes, host: Bytes)
  {
    && (forall i :: 0 <= i < |xs| ==> RawOk(xs[i]) && Nameless(xs[i])) && |content| < 0x1_0000
    && block == RawsBytes(xs) + (RawBytes(Raw(0, content)) + rest) && ServerNameHost(content) == Some(host)
  }

  lemma RawAt(block: Bytes)
    requires |block| >= 4 && 4 + U16(block, 2) <= |block|
    ensures var n := U16(block, 2);
            && RawOk(Raw(U16(block, 0), block[4..4 + n]))
            && block == RawBytes(Raw(U16(block, 0), block[4..4 + n])) + block[4 + n..]
  {
    var n := U16(block, 2);
    Enc16OfU16(block, 0);
    Enc16OfU16(block, 2);
    assert block == block[0..2] + block[2..4] + block[4..4 + n] + block[4 + n..];
  }

  lemma RawRead(x: Raw, more: Bytes)
    requires RawOk(x)
    ensures var block, n := RawBytes(x) + more, |x.content|;
            && |block| >= 4 + n && U16(block, 0) == x.kind && U16(block, 2) == n
            && block[4..4 + n] == x.content && block[4 + n..] == more
  {
    var block, n := RawBytes(x) + more, |x.content|;
    assert block[0] == Enc16(x.kind)[0] && block[1] == Enc16(x.kind)[1];
    assert block[2] == Enc16(n)[0] && block[3] == Enc16(n)[1];
  }

  lemma RawsCons(x: Raw, xs: seq<Raw>, tail: Bytes)
    requires RawOk(x) && forall i :: 0 <= i < |xs| ==> RawOk(xs[i])
    ensures (forall i :: 0 <= i < |[x] + xs| ==> RawOk(([x] + xs)[i]))
    ensures RawsBytes([x] + xs) + tail == RawBytes(x) + (RawsBytes(xs) + tail)
  {
    assert ([x] + xs)[0] == x && ([x] + xs)[1..] == xs;
    Regroup(RawBytes(x), RawsBytes(xs), tail);
  }

  lemma {:induction false} BlockSound(block: Bytes, host: Bytes) returns (xs: seq<Raw>, content: Bytes, rest: Bytes)
    requires ExtensionsHost(block) == Some(host)
    ensures BlockGives(block, xs, content, rest, host)
  {
    var n := U16(block, 2);
    var x, more := Raw(U16(block, 0), block[4..4 + n]), block[4 + n..];
    RawAt(block);
    ExtensionUnfold(block, n, x.content, more);
    if !Nameless(x) {
      xs, content, rest := [], x.content, more;
      assert RawsBytes([]) + (RawBytes(x) + rest) == RawBytes(x) + rest;
    } else {
      xs, content, rest := BlockSound(more, host);
      RawsCons(x, xs, RawBytes(Raw(0, content)) + rest);
      xs := [x] + xs;
    }
  }

  lemma {:induction false} BlockComplete(block: Bytes, xs: seq<Raw>, content: Bytes, rest: Bytes, host: Bytes)
    requires BlockGives(block, xs, content, rest, host)
    ensures ExtensionsHost(block) == Some(host)
    decreases |xs|
  {
    var tail := RawBytes(Raw(0, content)) + rest;
    if xs == [] {
      assert RawsBytes(xs) + tail == tail;
      RawRead(Raw(0, content), rest);
      ExtensionUnfold(block, |content|, content, rest);
    } else {
      var x, more := xs[0], RawsBytes(xs[1..]) + tail;
      assert xs == [x] + xs[1..];
      RawsCons(x, xs[1..], tail);
      RawRead(x, more);
      ExtensionUnfold(block, |x.content|, x.content, more);
      BlockComplete(more, xs[1..], content, rest, host);
    }
  }

  lemma BlockExactly(block: Bytes, host: Bytes)
    ensures ExtensionsHost(block) == Some(host) <==>
            exists xs, content, rest :: BlockGives(block, xs, content, rest, host)
  {
    if ExtensionsHost(block) == Some(host) {
      var xs, content, rest := BlockSound(block, host);
    }
    if exists xs, content, rest :: BlockGives(block, xs, content, rest, host) {
      var xs, content, rest :| BlockGives(block, xs, content, rest, host);
      BlockComplete(block, xs, content, rest, host);
    }
  }

  // ---------- Whole messages ----------

  /** The fields of a ClientHello up to its extension block. */
  datatype Fields = Fields(head: Bytes, session: Bytes, ciphers: Bytes, compression: Bytes, block: Bytes)

  predicate FieldsOk(f: Fields)
  {
    && |f.head| == 34 && |f.session| < 256 && 2 <= |f.ciphers| < 0x1_0000
    && |f.compression| < 256 && |f.block| < 0x1_0000
  }

  function FieldsBytes(f: Fields): Bytes
    requires FieldsOk(f)
  {
    f.head + ([|f.session|] + f.session + (Enc16(|f.ciphers|) + f.ciphers +
      ([|f.compression|] + f.compression + (Enc16(|f.block|) + f.block))))
  }

  /** The message is of type 1 and its body holds the fields, with anything behind them and behind it. */
  predicate MessageGives(s: Bytes, f: Fields, rest: Bytes, trailing: Bytes, host: Bytes)
  {
    && FieldsOk(f) && |FieldsBytes(f) + rest| < 0x100_0000
    && s == [1] + Enc24(|FieldsBytes(f) + rest|) + (FieldsBytes(f) + rest) + trailing
    && ExtensionsHost(f.block) == Some(host)
  }

  lemma MessageComplete(s: Bytes, f: Fields, rest: Bytes, trailing: Bytes, host: Bytes)
    requires MessageGives(s, f, rest, trailing, host)
    ensures HelloHost(s) == Some(host)
  {
    var body := FieldsBytes(f) + rest;
    var n := |body|;
    assert s[1] == Enc24(n)[0] && s[2] == Enc24(n)[1] && s[3] == Enc24(n)[2];
    assert U24(s, 1) == n && s[4..4 + n] == body;
    BodyComplete(f, rest);
  }

  lemma BodyComplete(f: Fields, rest: Bytes)
    requires FieldsOk(f)
    ensures BodyHost(FieldsBytes(f) + rest) == ExtensionsHost(f.block)
  {
    var tail := Enc16(|f.block|) + f.block + rest;
    var fromCompression := [|f.compression| as byte] + f.compression + tail;
    var fromCiphers := Enc16(|f.ciphers|) + f.ciphers + fromCompression;
    assert FieldsBytes(f) + rest == f.head + ([|f.session| as byte] + f.session + fromCiphers);
    SessionSkipped(f.head, f.session, fromCiphers);
    CiphersSkipped(f.ciphers, fromCompression);
    CompressionSkipped(f.compression, tail);
    ListAt(tail, f.block, rest);
  }

  lemma CompressionSound(r: Bytes) returns (block: Bytes, rest: Bytes)
    requires AfterCompression(r).Some?
    ensures |block| < 0x1_0000 && r == Enc16(|block|) + block + rest && AfterCompression(r) == ExtensionsHost(block)
  {
    Enc16OfU16(r, 0);
    block, rest := r[2..2 + U16(r, 0)], r[2 + U16(r, 0)..];
    ListAt(r, block, rest);
  }

  lemma CiphersSound(r: Bytes) returns (compression: Bytes, rest: Bytes)
    requires AfterCiphers(r).Some?
    ensures |compression| < 256 && r == [|compression| as byte] + compression + rest
    ensures AfterCiphers(r) == AfterCompression(rest)
  {
    compression, rest := r[1..1 + r[0]], r[1 + r[0]..];
    assert r == [r[0]] + r[1..1 + r[0]] + r[1 + r[0]..];
  }

  lemma SessionSound(r: Bytes) returns (ciphers: Bytes, rest: Bytes)
    requires AfterSession(r).Some?
    ensures 2 <= |ciphers| < 0x1_0000 && r == Enc16(|ciphers|) + ciphers + rest && AfterSession(r) == AfterCiphers(rest)
  {
    Enc16OfU16(r, 0);
    ciphers, rest := r[2..2 + U16(r, 0)], r[2 + U16(r, 0)..];
    ListAt(r, ciphers, rest);
  }

  lemma BodySound(m: Bytes) returns (head: Bytes, session: Bytes, rest: Bytes)
    requires BodyHost(m).Some?
    ensures |head| == 34 && |session| < 256 && m == head + ([|session| as byte] + session + rest)
    ensures BodyHost(m) == AfterSession(rest)
  {
    head, session, rest := m[..34], m[35..35 + m[34]], m[35 + m[34]..];
    assert m == m[..34] + ([m[34]] + m[35..35 + m[34]] + m[35 + m[34]..]);
  }

  lemma FieldsFound(m: Bytes) returns (f: Fields, rest: Bytes)
    requires BodyHost(m).Some?
    ensures FieldsOk(f) && m == FieldsBytes(f) + rest && BodyHost(m) == ExtensionsHost(f.block)
  {
    var head, session, a := BodySound(m);
    var ciphers, b := SessionSound(a);
    var compression, c := CiphersSound(b);
    var block, d := CompressionSound(c);
    f, rest := Fields(head, session, ciphers, compression, block), d;
    Assembled(f, rest, a, b, c);
  }

  lemma Assembled(f: Fields, rest: Bytes, a: Bytes, b: Bytes, c: Bytes)
    requires FieldsOk(f)
    requires a == Enc16(|f.ciphers|) + f.ciphers + b && b == [|f.compression| as byte] + f.compression + c
    requires c == Enc16(|f.block|) + f.block + rest
    ensures f.head + ([|f.session| as byte] + f.session + a) == FieldsBytes(f) + rest
  {
  }

  /** The message parser finds `host` in exactly the byte strings that are a ClientHello up to the name: on
      arbitrary bytes, with anything behind the deciding extension, the block, the body and the message. */
  lemma MessageExactly(s: Bytes, host: Bytes)
    ensures HelloHost(s) == Some(host) <==> exists f, rest, trailing :: MessageGives(s, f, rest, trailing, host)
  {
    if HelloHost(s) == Some(host) {
      var f, rest, trailing := MessageSound(s, host);
    }
    if exists f, rest, trailing :: MessageGives(s, f, rest, trailing, host) {
      var f, rest, trailing :| MessageGives(s, f, rest, trailing, host);
      MessageComplete(s, f, rest, trailing, host);
    }
  }

  lemma MessageSound(s: Bytes, host: Bytes) returns (f: Fields, rest: Bytes, trailing: Bytes)
    requires HelloHost(s) == Some(host)
    ensures MessageGives(s, f, rest, trailing, host)
  {
    var n := U24(s, 1);
    f, rest := FieldsFound(s[4..4 + n]);
    trailing := s[4 + n..];
    HeadOf(s, n);
    assert FieldsBytes(f) + rest == s[4..4 + n];
  }

  lemma HeadOf(s: Bytes, n: nat)
    requires |s| >= 4 + n && s[0] == 1 && U24(s, 1) == n
    ensures n < 0x100_0000 && s == [1] + Enc24(n) + s[4..4 + n] + s[4 + n..]
  {
    ThreeBytes(s[1], s[2], s[3]);
    assert s[1..4] == Enc24(n);
    assert s == [s[0]] + s[1..4] + s[4..4 + n] + s[4 + n..];
  }

  lemma ThreeBytes(a: byte, b: byte, c: byte)
    ensures var n := (a as int) * 65536 + (b as int) * 256 + c as int;
            n / 65536 == a && n / 256 % 256 == b && n % 256 == c
  {
  }
}
