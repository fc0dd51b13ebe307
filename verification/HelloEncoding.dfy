/** Well-formed ClientHello messages, their encoding, and the proof that the parser inverts it. */
module HelloEncoding {
  import opened Wrappers
  import opened Sequences
  import opened ClientHello

  /** One entry of a server name list. */
  datatype Name = Name(kind: byte, text: Bytes)

  datatype Extension = ServerName(names: seq<Name>) | Other(kind: nat, content: Bytes)

  datatype Hello = Hello(versionAndRandom: Bytes, sessionId: Bytes, ciphers: Bytes, compression: Bytes,
                         extensions: Option<seq<Extension>>)

  function Enc16(n: nat): (s: Bytes)
    requires n < 0x1_0000
    ensures |s| == 2 && U16(s, 0) == n
  {
    [n / 256, n % 256]
  }

  function Enc24(n: nat): (s: Bytes)
    requires n < 0x100_0000
    ensures |s| == 3 && U24(s, 0) == n
  {
    [n / 65536, n / 256 % 256, n % 256]
  }

  /** The size of a name list on the wire. */
  function NamesSize(ns: seq<Name>): nat
  {
    if ns == [] then 0 else 3 + |ns[0].text| + NamesSize(ns[1..])
  }

  function EncodeNames(ns: seq<Name>): (s: Bytes)
    requires NamesSize(ns) < 0x1_0000
    ensures |s| == NamesSize(ns)
  {
    if ns == [] then [] else [ns[0].kind] + Enc16(|ns[0].text|) + ns[0].text + EncodeNames(ns[1..])
  }

  function ContentSize(x: Extension): nat { if x.ServerName? then 2 + NamesSize(x.names) else |x.content| }

  predicate ExtensionOk(x: Extension) { ContentSize(x) < 0x1_0000 && (x.Other? ==> 0 < x.kind < 0x1_0000) }

  function EncodeContent(x: Extension): (s: Bytes)
    requires ExtensionOk(x)
    ensures |s| == ContentSize(x)
  {
    if x.ServerName? then Enc16(NamesSize(x.names)) + EncodeNames(x.names) else x.content
  }

  function ExtensionsSize(xs: seq<Extension>): nat
  {
    if xs == [] then 0 else 4 + ContentSize(xs[0]) + ExtensionsSize(xs[1..])
  }

  predicate ExtensionsOk(xs: seq<Extension>)
  {
    ExtensionsSize(xs) < 0x1_0000 && forall i :: 0 <= i < |xs| ==> ExtensionOk(xs[i])
  }

  function EncodeExtensions(xs: seq<Extension>): (s: Bytes)
    requires ExtensionsOk(xs)
    ensures |s| == ExtensionsSize(xs)
  {
    if xs == [] then [] else
    var x := xs[0];
    Enc16(if x.ServerName? then 0 else x.kind) + Enc16(ContentSize(x)) + EncodeContent(x) + EncodeExtensions(xs[1..])
  }

  predicate HelloOk(h: Hello)
  {
    && |h.versionAndRandom| == 34 && |h.sessionId| < 256
    && 2 <= |h.ciphers| < 0x1_0000 && |h.compression| < 256
    && (h.extensions.Some? ==> ExtensionsOk(h.extensions.value))
  }

  function EncodeTail(h: Hello): (s: Bytes)
    requires HelloOk(h)
    ensures |s| < 0x1_0002
  {
    match h.extensions
    case None => []
    case Some(xs) => Enc16(ExtensionsSize(xs)) + EncodeExtensions(xs)
  }

  function EncodeBody(h: Hello): (s: Bytes)
    requires HelloOk(h)
    ensures 0 < |s| <= 0x10_0000
  {
    h.versionAndRandom + ([|h.sessionId|] + h.sessionId + (Enc16(|h.ciphers|) + h.ciphers +
      ([|h.compression|] + h.compression + EncodeTail(h))))
  }

  function EncodeHello(h: Hello): (s: Bytes)
    requires HelloOk(h)
    ensures 4 < |s| <= 0x10_0004 && s[0] == 1 && U24(s, 1) == |s| - 4
  {
    var body := EncodeBody(h);
    var head := Enc24(|body|);
    assert U24([1 as byte] + head + body, 1) == U24(head, 0);
    [1] + head + body
  }

  // ---------- The host a message names ----------

  /** The first entry of type host_name decides. */
  function HostOfNames(ns: seq<Name>): Option<Bytes>
  {
    if ns == [] then None else if ns[0].kind == 0 then Normalize(ns[0].text) else HostOfNames(ns[1..])
  }

  function HostOfExtension(x: Extension): Option<Bytes> { if x.ServerName? then HostOfNames(x.names) else None }

  /** The first server_name extension that yields a non-empty name decides. */
  function HostOfExtensions(xs: seq<Extension>): Option<Bytes>
  {
    if xs == [] then None
    else if HostOfExtension(xs[0]).Some? then HostOfExtension(xs[0]) else HostOfExtensions(xs[1..])
  }

  function HostOf(h: Hello): Option<Bytes>
  {
    match h.extensions case None => None case Some(xs) => HostOfExtensions(xs)
  }

  // ---------- Inversion ----------

  lemma {:induction false} NamesInverted(ns: seq<Name>)
    requires NamesSize(ns) < 0x1_0000
    ensures NamesHost(EncodeNames(ns)) == HostOfNames(ns)
  {
    if ns != [] {
      var s, n, rest := EncodeNames(ns), |ns[0].text|, EncodeNames(ns[1..]);
      assert s == ([ns[0].kind] + Enc16(n)) + ns[0].text + rest;
      assert U16(s, 1) == U16(Enc16(n), 0);
      assert s[3..3 + n] == ns[0].text && s[3 + n..] == rest;
      NamesInverted(ns[1..]);
    }
  }

  lemma ContentInverted(x: Extension)
    requires ExtensionOk(x) && x.ServerName?
    ensures ServerNameHost(EncodeContent(x)) == HostOfNames(x.names)
  {
    var s, n := EncodeContent(x), NamesSize(x.names);
    assert U16(s, 0) == U16(Enc16(n), 0);
    assert s[2..2 + n] == EncodeNames(x.names);
    NamesInverted(x.names);
  }

  lemma {:induction false} ExtensionsInverted(xs: seq<Extension>)
    requires ExtensionsOk(xs)
    ensures ExtensionsHost(EncodeExtensions(xs)) == HostOfExtensions(xs)
  {
    if xs != [] {
      var x, s, n := xs[0], EncodeExtensions(xs), ContentSize(xs[0]);
      var kind := if x.ServerName? then 0 else x.kind;
      assert s == Enc16(kind) + Enc16(n) + EncodeContent(x) + EncodeExtensions(xs[1..]);
      assert U16(s, 0) == U16(Enc16(kind), 0) && U16(s, 2) == U16(Enc16(n), 0);
      assert s[4..4 + n] == EncodeContent(x) && s[4 + n..] == EncodeExtensions(xs[1..]);
      if x.ServerName? {
        ContentInverted(x);
      }
      ExtensionsInverted(xs[1..]);
    }
  }

  lemma TailInverted(h: Hello)
    requires HelloOk(h)
    ensures AfterCompression(EncodeTail(h)) == HostOf(h)
  {
    if h.extensions.Some? {
      var xs, s := h.extensions.value, EncodeTail(h);
      var n := ExtensionsSize(xs);
      assert U16(s, 0) == U16(Enc16(n), 0);
      assert s[2..2 + n] == EncodeExtensions(xs);
      ExtensionsInverted(xs);
    }
  }

  lemma CompressionSkipped(c: Bytes, rest: Bytes)
    requires |c| < 256
    ensures AfterCiphers([|c| as byte] + c + rest) == AfterCompression(rest)
  {
    assert ([|c| as byte] + c + rest)[1 + |c|..] == rest;
  }

  lemma CiphersSkipped(c: Bytes, rest: Bytes)
    requires 2 <= |c| < 0x1_0000
    ensures AfterSession(Enc16(|c|) + c + rest) == AfterCiphers(rest)
  {
    var s := Enc16(|c|) + c + rest;
    assert U16(s, 0) == U16(Enc16(|c|), 0);
    assert s[2 + |c|..] == rest;
  }

  lemma SessionSkipped(head: Bytes, c: Bytes, rest: Bytes)
    requires |head| == 34 && |c| < 256
    ensures BodyHost(head + ([|c| as byte] + c + rest)) == AfterSession(rest)
  {
    var s := head + ([|c| as byte] + c + rest);
    assert s[34] == |c|;
    assert s[35 + |c|..] == rest;
  }

  /** The parser inverts the encoder: for every well-formed message, followed by any bytes, it
      returns the normalised host name of the first server_name extension that has one. */
  lemma ParserInvertsEncoder(h: Hello, trailing: Bytes)
    requires HelloOk(h)
    ensures HelloHost(EncodeHello(h) + trailing) == HostOf(h)
  {
    var s := EncodeHello(h);
    var n := |s| - 4;
    assert U24(s + trailing, 1) == n;
    assert (s + trailing)[4..4 + n] == EncodeBody(h);
    var tail := EncodeTail(h);
    var fromCompression := [|h.compression| as byte] + h.compression + tail;
    var fromCiphers := Enc16(|h.ciphers|) + h.ciphers + fromCompression;
    SessionSkipped(h.versionAndRandom, h.sessionId, fromCiphers);
    CiphersSkipped(h.ciphers, fromCompression);
    CompressionSkipped(h.compression, tail);
    TailInverted(h);
  }
}
