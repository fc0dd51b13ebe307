/** A reader of flat JSON objects, which knows nothing of descriptors, and what it reads in a canonical text. */
module FlatJson {
  import opened Wrappers
  import opened Sequences
  import opened JsonText
  import opened FloatText
  import opened CanonicalText

  // ---------- The reader ----------

  /** The value of a member; a number by its text. */
  datatype Value = Str(text: string) | Bool(flag: bool) | Num(digits: string)

  type Member = (string, Value)

  /** The leading characters that a number can be made of, and the rest. */
  function ReadNumber(s: string): (r: (string, string))
    ensures |r.1| <= |s|
  {
    if s == [] || !NumberChar()(s[0]) then ("", s)
    else var more := ReadNumber(s[1..]); ([s[0]] + more.0, more.1)
  }

  function ReadValue(s: string): (r: Option<(Value, string)>)
    ensures r.Some? ==> |r.value.1| < |s|
  {
    if s == [] then None
    else if s[0] == '"' then
      match ReadString(s[1..]) {
        case None => None
        case Some((text, rest)) => if |rest| < |s| then Some((Str(text), rest)) else None
      }
    else if "true" <= s then Some((Bool(true), s[4..]))
    else if "false" <= s then Some((Bool(false), s[5..]))
    else
      var (digits, rest) := ReadNumber(s);
      if digits == "" || |rest| >= |s| then None else Some((Num(digits), rest))
  }

  /** A label in quotes, a colon and a value. */
  function ReadMember(s: string): (r: Option<(Member, string)>)
    ensures r.Some? ==> |r.value.1| < |s|
  {
    if s == [] || s[0] != '"' then None else
    match ReadString(s[1..])
    case None => None
    case Some((key, rest)) =>
      if rest == [] || rest[0] != ':' || |rest| > |s| then None else
      match ReadValue(rest[1..])
      case None => None
      case Some((value, more)) => Some(((key, value), more))
  }

  /** Members separated by commas, up to the brace that ends the text. */
  function ReadMembers(s: string): Option<seq<Member>>
    decreases |s|
  {
    match ReadMember(s)
    case None => None
    case Some((m, rest)) =>
      if rest == "}" then Some([m])
      else if rest == [] || rest[0] != ',' then None
      else match ReadMembers(rest[1..])
        case None => None
        case Some(ms) => Some([m] + ms)
  }

  function ReadObject(s: string): Option<seq<Member>>
  {
    if s == [] || s[0] != '{' then None else ReadMembers(s[1..])
  }

  // ---------- One member ----------

  predicate PlainLabel(key: string)
  {
    forall i :: 0 <= i < |key| ==> 'a' <= key[i] <= 'z' || key[i] == '_'
  }

  lemma {:induction false} LabelRead(key: string, rest: string)
    requires PlainLabel(key)
    ensures ReadString(key + ("\"" + rest)) == Some((key, rest))
  {
    if key == [] {
      assert key + ("\"" + rest) == ['"'] + rest;
    } else {
      var tail := key[1..] + ("\"" + rest);
      assert key + ("\"" + rest) == [key[0]] + tail;
      LabelRead(key[1..], rest);
      assert ReadChar([key[0]] + tail) == Some((key[0], tail)) by { assert ([key[0]] + tail)[1..] == tail; }
      assert key == [key[0]] + key[1..];
    }
  }

  /** The text of a member in front of its value. */
  function Head(key: string): string { "\"" + (key + "\":") }

  lemma MemberRead(key: string, s: string, value: Value, rest: string)
    requires PlainLabel(key) && ReadValue(s) == Some((value, rest))
    ensures ReadMember(Head(key) + s) == Some(((key, value), rest))
  {
    var text := Head(key) + s;
    assert text[1..] == key + ("\"" + ([':'] + s));
    LabelRead(key, [':'] + s);
    assert ([':'] + s)[1..] == s;
  }

  lemma StringRead(text: string, x: string)
    requires x != [] && x[0] == '"'
    ensures ReadValue("\"" + (Escape(text) + x)) == Some((Str(text), x[1..]))
  {
    var s := "\"" + (Escape(text) + x);
    assert s[1..] == Escape(text) + x;
    ReadQuoted(text, x);
  }

  lemma BoolRead(b: bool, x: string)
    ensures ReadValue(BoolText(b) + x) == Some((Bool(b), x))
  {
    var s := BoolText(b) + x;
    assert s[|BoolText(b)|..] == x;
    assert s[0] == BoolText(b)[0];
    if b {
      assert s[..4] == "true";
    } else {
      assert s[..5] == "false";
    }
  }

  lemma {:induction false} DigitsRead(d: string, x: string)
    requires NumberText(d) && x != [] && !NumberChar()(x[0])
    ensures ReadNumber(d + x) == (d, x)
  {
    if d == [] {
      assert d + x == x;
    } else {
      assert (d + x)[0] == d[0] && (d + x)[1..] == d[1..] + x;
      DigitsRead(d[1..], x);
      assert d == [d[0]] + d[1..];
    }
  }

  lemma NumberRead(d: string, x: string)
    requires NumberText(d) && d != [] && x != [] && !NumberChar()(x[0])
    ensures ReadValue(d + x) == Some((Num(d), x))
  {
    DigitsRead(d, x);
    assert (d + x)[0] == d[0] && NumberChar()(d[0]);
  }

  // ---------- A member and what follows it ----------

  /** A member in front of further members. */
  lemma MembersCons(s: string, m: Member, rest: string, ms: seq<Member>)
    requires ReadMember(s) == Some((m, [','] + rest)) && ReadMembers(rest) == Some(ms)
    ensures ReadMembers(s) == Some([m] + ms)
  {
    assert ([','] + rest)[1..] == rest;
  }

  lemma NumberMember(key: string, d: string, rest: string, ms: seq<Member>)
    requires PlainLabel(key) && NumberText(d) && d != [] && ReadMembers(rest) == Some(ms)
    ensures ReadMembers(Head(key) + (d + ([','] + rest))) == Some([(key, Num(d))] + ms)
  {
    NumberRead(d, [','] + rest);
    MemberRead(key, d + ([','] + rest), Num(d), [','] + rest);
    MembersCons(Head(key) + (d + ([','] + rest)), (key, Num(d)), rest, ms);
  }

  lemma BoolMember(key: string, b: bool, rest: string, ms: seq<Member>)
    requires PlainLabel(key) && ReadMembers(rest) == Some(ms)
    ensures ReadMembers(Head(key) + (BoolText(b) + ([','] + rest))) == Some([(key, Bool(b))] + ms)
  {
    BoolRead(b, [','] + rest);
    MemberRead(key, BoolText(b) + ([','] + rest), Bool(b), [','] + rest);
    MembersCons(Head(key) + (BoolText(b) + ([','] + rest)), (key, Bool(b)), rest, ms);
  }

  lemma StringMember(key: string, v: string, from: string, rest: string, ms: seq<Member>)
    requires PlainLabel(key) && from == "\"," + rest && ReadMembers(rest) == Some(ms)
    ensures ReadMembers(Head(key) + ("\"" + (Escape(v) + from))) == Some([(key, Str(v))] + ms)
  {
    assert from[1..] == [','] + rest;
    StringRead(v, from);
    MemberRead(key, "\"" + (Escape(v) + from), Str(v), [','] + rest);
    MembersCons(Head(key) + ("\"" + (Escape(v) + from)), (key, Str(v)), rest, ms);
  }

  // ---------- Pieces of a text ----------

  /** `from` starts with `lead`, behind which the members `ms` can be read up to the end of the text. */
  ghost predicate ReadsAs(from: string, lead: string, ms: seq<Member>)
  {
    exists on :: from == lead + on && ReadMembers(on) == Some(ms)
  }

  lemma Behind(piece: string, front: string, back: string, x: string)
    requires piece == front + back
    ensures piece + x == front + (back + x)
  {
  }

  /** A piece that ends in a label, a number, and members to follow. */
  lemma NumberPiece(piece: string, lead: string, key: string, d: string, from: string, ms: seq<Member>)
    requires piece == lead + Head(key) && PlainLabel(key) && NumberText(d) && d != [] && ReadsAs(from, ",", ms)
    ensures ReadsAs(piece + (d + from), lead, [(key, Num(d))] + ms)
  {
    var on :| from == "," + on && ReadMembers(on) == Some(ms);
    NumberMember(key, d, on, ms);
    Behind(piece, lead, Head(key), d + from);
  }

  lemma BoolPiece(piece: string, lead: string, key: string, b: bool, from: string, ms: seq<Member>)
    requires piece == lead + Head(key) && PlainLabel(key) && ReadsAs(from, ",", ms)
    ensures ReadsAs(piece + (BoolText(b) + from), lead, [(key, Bool(b))] + ms)
  {
    var on :| from == "," + on && ReadMembers(on) == Some(ms);
    BoolMember(key, b, on, ms);
    Behind(piece, lead, Head(key), BoolText(b) + from);
  }

  /** A piece that ends in a label and a quote, a string, and a quote with members to follow. */
  lemma StringPiece(piece: string, lead: string, key: string, v: string, from: string, ms: seq<Member>)
    requires piece == lead + (Head(key) + "\"") && PlainLabel(key) && ReadsAs(from, "\",", ms)
    ensures ReadsAs(piece + (Escape(v) + from), lead, [(key, Str(v))] + ms)
  {
    var on :| from == "\"," + on && ReadMembers(on) == Some(ms);
    StringMember(key, v, from, on, ms);
    StringShape(piece, lead, Head(key), Escape(v), from);
    ReadsThus(piece + (Escape(v) + from), lead, Head(key) + ("\"" + (Escape(v) + from)), [(key, Str(v))] + ms);
  }

  lemma ReadsThus(from: string, lead: string, on: string, ms: seq<Member>)
    requires from == lead + on && ReadMembers(on) == Some(ms)
    ensures ReadsAs(from, lead, ms)
  {
  }

  lemma StringShape(piece: string, lead: string, head: string, text: string, from: string)
    requires piece == lead + (head + "\"")
    ensures piece + (text + from) == lead + (head + ("\"" + (text + from)))
  {
    Behind(piece, lead, head + "\"", text + from);
    Regroup(head, "\"", text + from);
  }

  lemma LastString(piece: string, key: string, v: string)
    requires piece == "," + (Head(key) + "\"") && PlainLabel(key)
    ensures ReadsAs(piece + (Escape(v) + "\"}"), ",", [(key, Str(v))])
  {
    var x := Escape(v) + "\"}";
    StringRead(v, "\"}");
    assert "\"}"[1..] == "}";
    MemberRead(key, "\"" + x, Str(v), "}");
    StringShape(piece, ",", Head(key), Escape(v), "\"}");
    assert ReadMembers(Head(key) + ("\"" + x)) == Some([(key, Str(v))]);
  }

  lemma LastNumber(piece: string, key: string, d: string)
    requires piece == "," + Head(key) && PlainLabel(key) && NumberText(d) && d != []
    ensures ReadsAs(piece + (d + "}"), ",", [(key, Num(d))])
  {
    NumberRead(d, "}");
    MemberRead(key, d + "}", Num(d), "}");
    Behind(piece, ",", Head(key), d + "}");
    assert ReadMembers(Head(key) + (d + "}")) == Some([(key, Num(d))]);
  }

  // ---------- The labels ----------

  lemma AddressLabel()
    ensures PlainLabel("address") && "{\"address\":\"" == "{" + (Head("address") + "\"")
  {
    AddressPlain();
    AddressHead();
  }

  lemma AddressHead()
    ensures Head("address") == "\"address\":"
  {
  }

  lemma AddressPlain()
    ensures PlainLabel("address")
  {
  }

  lemma VersionLabel()
    ensures PlainLabel("version") && "\",\"version\":\"" == "\"," + (Head("version") + "\"")
  {
    VersionPlain();
    VersionHead();
  }

  lemma VersionHead()
    ensures Head("version") == "\"version\":"
  {
  }

  lemma VersionPlain()
    ensures PlainLabel("version")
  {
  }

  lemma IssuedLabel()
    ensures PlainLabel("issued_at_unix_nano") && "\",\"issued_at_unix_nano\":" == "\"," + Head("issued_at_unix_nano")
  {
    IssuedPlain();
    IssuedHead();
  }

  lemma IssuedHead()
    ensures Head("issued_at_unix_nano") == "\"issued_at_unix_nano\":"
  {
  }

  lemma IssuedPlain()
    ensures PlainLabel("issued_at_unix_nano")
  {
  }

  lemma ExpiresLabel()
    ensures PlainLabel("expires_at_unix_nano") && ",\"expires_at_unix_nano\":" == "," + Head("expires_at_unix_nano")
  {
    ExpiresPlain();
    ExpiresHead();
  }

  lemma ExpiresHead()
    ensures Head("expires_at_unix_nano") == "\"expires_at_unix_nano\":"
  {
  }

  lemma ExpiresPlain()
    ensures PlainLabel("expires_at_unix_nano")
  {
  }

  lemma ApiUrlLabel()
    ensures PlainLabel("api_https_addr") && ",\"api_https_addr\":\"" == "," + (Head("api_https_addr") + "\"")
  {
    ApiUrlPlain();
    ApiUrlHead();
  }

  lemma ApiUrlHead()
    ensures Head("api_https_addr") == "\"api_https_addr\":"
  {
  }

  lemma ApiUrlPlain()
    ensures PlainLabel("api_https_addr")
  {
  }

  lemma UdpLabel()
    ensures PlainLabel("supports_udp") && "\",\"supports_udp\":" == "\"," + Head("supports_udp")
  {
    UdpPlain();
    UdpHead();
  }

  lemma UdpHead()
    ensures Head("supports_udp") == "\"supports_udp\":"
  {
  }

  lemma UdpPlain()
    ensures PlainLabel("supports_udp")
  {
  }

  lemma TcpLabel()
    ensures PlainLabel("supports_tcp") && ",\"supports_tcp\":" == "," + Head("supports_tcp")
  {
    TcpPlain();
    TcpHead();
  }

  lemma TcpHead()
    ensures Head("supports_tcp") == "\"supports_tcp\":"
  {
  }

  lemma TcpPlain()
    ensures PlainLabel("supports_tcp")
  {
  }

  lemma ActiveLabel()
    ensures PlainLabel("active_connections") && ",\"active_connections\":" == "," + Head("active_connections")
  {
    ActivePlain();
    ActiveHead();
  }

  lemma ActiveHead()
    ensures Head("active_connections") == "\"active_connections\":"
  {
  }

  lemma ActivePlain()
    ensures PlainLabel("active_connections")
  {
  }

  lemma BpsLabel()
    ensures PlainLabel("tcp_bps") && ",\"tcp_bps\":" == "," + Head("tcp_bps")
  {
    BpsPlain();
    BpsHead();
  }

  lemma BpsHead()
    ensures Head("tcp_bps") == "\"tcp_bps\":"
  {
  }

  lemma BpsPlain()
    ensures PlainLabel("tcp_bps")
  {
  }

  lemma IvnpLabel()
    ensures PlainLabel("ivnp_destination") && ",\"ivnp_destination\":\"" == "," + (Head("ivnp_destination") + "\"")
  {
    IvnpPlain();
    IvnpHead();
  }

  lemma IvnpHead()
    ensures Head("ivnp_destination") == "\"ivnp_destination\":"
  {
  }

  lemma IvnpPlain()
    ensures PlainLabel("ivnp_destination")
  {
  }

  // ---------- The canonical text, from each field on ----------

  lemma PrintNotEmpty(f: Float)
    requires FloatOk(f)
    ensures Print(f) != []
  {
    if f.Finite? {
      NoSignInside(f.digits, f.exp + 1);
    }
  }

  lemma DecimalText(n: int)
    ensures Decimal(n) != [] && NumberText(Decimal(n))
  {
  }

  function BpsMembers(d: Signed): seq<Member>
    requires FloatOk(d.tcpBps)
  {
    [("tcp_bps", Num(Print(d.tcpBps)))] + if d.ivnp.Some? then [("ivnp_destination", Str(d.ivnp.value))] else []
  }

  lemma ReadBps(d: Signed)
    requires FloatOk(d.tcpBps)
    ensures ReadsAs(FromTcpBps(d), ",", BpsMembers(d))
  {
    BpsLabel();
    IvnpLabel();
    var text := Print(d.tcpBps);
    PrintAlphabet(d.tcpBps);
    PrintNotEmpty(d.tcpBps);
    match d.ivnp
    case None =>
      LastNumber(",\"tcp_bps\":", "tcp_bps", text);
      assert BpsMembers(d) == [("tcp_bps", Num(text))];
    case Some(v) =>
      LastString(",\"ivnp_destination\":\"", "ivnp_destination", v);
      NumberPiece(",\"tcp_bps\":", ",", "tcp_bps", text, FromIvnp(d), [("ivnp_destination", Str(v))]);
  }

  function ActiveMembers(d: Signed): seq<Member>
    requires FloatOk(d.tcpBps)
  {
    [("active_connections", Num(Decimal(d.activeConnections)))] + BpsMembers(d)
  }

  lemma ReadActive(d: Signed)
    requires FloatOk(d.tcpBps)
    ensures ReadsAs(FromActive(d), ",", ActiveMembers(d))
  {
    ActiveLabel();
    ReadBps(d);
    DecimalText(d.activeConnections);
    NumberPiece(",\"active_connections\":", ",", "active_connections", Decimal(d.activeConnections), FromTcpBps(d),
                BpsMembers(d));
  }

  function TcpMembers(d: Signed): seq<Member>
    requires FloatOk(d.tcpBps)
  {
    [("supports_tcp", Bool(d.tcp))] + ActiveMembers(d)
  }

  lemma ReadTcp(d: Signed)
    requires FloatOk(d.tcpBps)
    ensures ReadsAs(FromTcp(d), ",", TcpMembers(d))
  {
    TcpLabel();
    ReadActive(d);
    BoolPiece(",\"supports_tcp\":", ",", "supports_tcp", d.tcp, FromActive(d), ActiveMembers(d));
  }

  function UdpMembers(d: Signed): seq<Member>
    requires FloatOk(d.tcpBps)
  {
    [("supports_udp", Bool(d.udp))] + TcpMembers(d)
  }

  lemma ReadUdp(d: Signed)
    requires FloatOk(d.tcpBps)
    ensures ReadsAs(FromUdp(d), "\",", UdpMembers(d))
  {
    UdpLabel();
    ReadTcp(d);
    BoolPiece("\",\"supports_udp\":", "\",", "supports_udp", d.udp, FromTcp(d), TcpMembers(d));
  }

  function ApiUrlMembers(d: Signed): seq<Member>
    requires FloatOk(d.tcpBps)
  {
    [("api_https_addr", Str(d.apiUrl))] + UdpMembers(d)
  }

  lemma ReadApiUrl(d: Signed)
    requires FloatOk(d.tcpBps)
    ensures ReadsAs(FromApiUrl(d), ",", ApiUrlMembers(d))
  {
    ApiUrlLabel();
    ReadUdp(d);
    StringPiece(",\"api_https_addr\":\"", ",", "api_https_addr", d.apiUrl, FromUdp(d), UdpMembers(d));
  }

  function ExpiresMembers(d: Signed): seq<Member>
    requires FloatOk(d.tcpBps)
  {
    [("expires_at_unix_nano", Num(Decimal(d.expiresAtNano)))] + ApiUrlMembers(d)
  }

  lemma ReadExpires(d: Signed)
    requires FloatOk(d.tcpBps)
    ensures ReadsAs(FromExpires(d), ",", ExpiresMembers(d))
  {
    ExpiresLabel();
    ReadApiUrl(d);
    DecimalText(d.expiresAtNano);
    NumberPiece(",\"expires_at_unix_nano\":", ",", "expires_at_unix_nano", Decimal(d.expiresAtNano), FromApiUrl(d),
                ApiUrlMembers(d));
  }

  function IssuedMembers(d: Signed): seq<Member>
    requires FloatOk(d.tcpBps)
  {
    [("issued_at_unix_nano", Num(Decimal(d.issuedAtNano)))] + ExpiresMembers(d)
  }

  lemma ReadIssued(d: Signed)
    requires FloatOk(d.tcpBps)
    ensures ReadsAs(FromIssued(d), "\",", IssuedMembers(d))
  {
    IssuedLabel();
    ReadExpires(d);
    DecimalText(d.issuedAtNano);
    NumberPiece("\",\"issued_at_unix_nano\":", "\",", "issued_at_unix_nano", Decimal(d.issuedAtNano), FromExpires(d),
                ExpiresMembers(d));
  }

  function VersionMembers(d: Signed): seq<Member>
    requires FloatOk(d.tcpBps)
  {
    [("version", Str(d.version))] + IssuedMembers(d)
  }

  lemma ReadVersion(d: Signed)
    requires FloatOk(d.tcpBps)
    ensures ReadsAs(FromVersion(d), "\",", VersionMembers(d))
  {
    VersionLabel();
    ReadIssued(d);
    StringPiece("\",\"version\":\"", "\",", "version", d.version, FromIssued(d), IssuedMembers(d));
  }

  function AddressMembers(d: Signed): seq<Member>
    requires FloatOk(d.tcpBps)
  {
    [("address", Str(d.address))] + VersionMembers(d)
  }

  lemma ReadAddress(d: Signed)
    requires FloatOk(d.tcpBps)
    ensures ReadsAs(Text(d), "{", AddressMembers(d))
  {
    AddressLabel();
    ReadVersion(d);
    StringPiece("{\"address\":\"", "{", "address", d.address, FromVersion(d), VersionMembers(d));
  }

  lemma ObjectRead(s: string, ms: seq<Member>)
    requires ReadsAs(s, "{", ms)
    ensures ReadObject(s) == Some(ms)
  {
    var on :| s == "{" + on && ReadMembers(on) == Some(ms);
    assert s[1..] == on;
  }

  /** The canonical text is a flat JSON object whose members are the signed fields, in this order and under these
      labels: strings and flags as they are, integers and the bandwidth by value, the destination if there is one. */
  lemma TextReadsBack(d: Signed) returns (issued: string, expires: string, active: string, bps: string)
    requires FloatOk(d.tcpBps)
    ensures ReadObject(Text(d)) ==
            Some([("address", Str(d.address)), ("version", Str(d.version)), ("issued_at_unix_nano", Num(issued)),
                  ("expires_at_unix_nano", Num(expires)), ("api_https_addr", Str(d.apiUrl)),
                  ("supports_udp", Bool(d.udp)), ("supports_tcp", Bool(d.tcp)), ("active_connections", Num(active)),
                  ("tcp_bps", Num(bps))]
                 + if d.ivnp.Some? then [("ivnp_destination", Str(d.ivnp.value))] else [])
    ensures IntValue(issued) == d.issuedAtNano && IntValue(expires) == d.expiresAtNano
    ensures IntValue(active) == d.activeConnections && NumberValue(bps) == FloatText.Value(d.tcpBps)
  {
    issued, expires, active := Decimal(d.issuedAtNano), Decimal(d.expiresAtNano), Decimal(d.activeConnections);
    bps := Print(d.tcpBps);
    ReadAddress(d);
    ObjectRead(Text(d), AddressMembers(d));
    MembersInOrder(d);
    ValueOfDecimal(d.issuedAtNano);
    ValueOfDecimal(d.expiresAtNano);
    ValueOfDecimal(d.activeConnections);
    PrintKeepsValue(d.tcpBps);
  }

  lemma MembersInOrder(d: Signed)
    requires FloatOk(d.tcpBps)
    ensures AddressMembers(d) ==
            [("address", Str(d.address)), ("version", Str(d.version)),
             ("issued_at_unix_nano", Num(Decimal(d.issuedAtNano))),
             ("expires_at_unix_nano", Num(Decimal(d.expiresAtNano))),
             ("api_https_addr", Str(d.apiUrl)), ("supports_udp", Bool(d.udp)), ("supports_tcp", Bool(d.tcp)),
             ("active_connections", Num(Decimal(d.activeConnections))), ("tcp_bps", Num(Print(d.tcpBps)))]
            + if d.ivnp.Some? then [("ivnp_destination", Str(d.ivnp.value))] else []
  {
  }
}
