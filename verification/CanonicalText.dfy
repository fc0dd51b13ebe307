/** The canonical text of a relay descriptor, over which its signature is made. */
module CanonicalText {
  import opened Wrappers
  import opened JsonText
  import opened FloatText

  /** The descriptor fields that the signature covers. */
  datatype Signed = Signed(address: string, version: string, issuedAtNano: int, expiresAtNano: int, apiUrl: string,
                           udp: bool, tcp: bool, activeConnections: int, tcpBps: Float, ivnp: Option<string>)

  // The text from each field on, down to the closing brace.

  function FromIvnp(d: Signed): string
  {
    match d.ivnp case None => "}" case Some(v) => ",\"ivnp_destination\":\"" + (Escape(v) + "\"}")
  }

  function FromTcpBps(d: Signed): string
    requires FloatOk(d.tcpBps)
  {
    ",\"tcp_bps\":" + (Print(d.tcpBps) + FromIvnp(d))
  }

  function FromActive(d: Signed): string
    requires FloatOk(d.tcpBps)
  {
    ",\"active_connections\":" + (Decimal(d.activeConnections) + FromTcpBps(d))
  }

  function FromTcp(d: Signed): string
    requires FloatOk(d.tcpBps)
  {
    ",\"supports_tcp\":" + (BoolText(d.tcp) + FromActive(d))
  }

  function FromUdp(d: Signed): string
    requires FloatOk(d.tcpBps)
  {
    "\",\"supports_udp\":" + (BoolText(d.udp) + FromTcp(d))
  }

  function FromApiUrl(d: Signed): string
    requires FloatOk(d.tcpBps)
  {
    ",\"api_https_addr\":\"" + (Escape(d.apiUrl) + FromUdp(d))
  }

  function FromExpires(d: Signed): string
    requires FloatOk(d.tcpBps)
  {
    ",\"expires_at_unix_nano\":" + (Decimal(d.expiresAtNano) + FromApiUrl(d))
  }

  function FromIssued(d: Signed): string
    requires FloatOk(d.tcpBps)
  {
    "\",\"issued_at_unix_nano\":" + (Decimal(d.issuedAtNano) + FromExpires(d))
  }

  function FromVersion(d: Signed): string
    requires FloatOk(d.tcpBps)
  {
    "\",\"version\":\"" + (Escape(d.version) + FromIssued(d))
  }

  function Text(d: Signed): string
    requires FloatOk(d.tcpBps)
  {
    "{\"address\":\"" + (Escape(d.address) + FromVersion(d))
  }

  // ---------- Building ----------

  /** Appends a piece; `rest` is what is still to come of the whole text. */
  method Push(out: string, piece: string, ghost rest: string) returns (r: string)
    ensures r + rest == out + (piece + rest)
  {
    r := out + piece;
  }

  method PushFields(head: string, label1: string, piece1: string, label2: string, piece2: string, ghost rest: string)
    returns (r: string)
    ensures r + rest == head + (label1 + (piece1 + (label2 + (piece2 + rest))))
  {
    r := Push(head, label1, piece1 + (label2 + (piece2 + rest)));
    r := Push(r, piece1, label2 + (piece2 + rest));
    r := Push(r, label2, piece2 + rest);
    r := Push(r, piece2, rest);
  }

  /** `build_canonical_descriptor_json_go`. */
  method BuildCanonical(d: Signed) returns (out: string)
    requires FloatOk(d.tcpBps)
    ensures out == Text(d)
  {
    out := PushIdentity(d);
    out := PushTransport(out, d);
    out := PushBpsAndIvnp(out, d);
  }

  method PushIdentity(d: Signed) returns (out: string)
    requires FloatOk(d.tcpBps)
    ensures out + FromApiUrl(d) == Text(d)
  {
    var address := GoJsonEscape(d.address);
    var version := GoJsonEscape(d.version);
    out := PushFields("", "{\"address\":\"", address, "\",\"version\":\"", version, FromIssued(d));
    out := PushFields(out, "\",\"issued_at_unix_nano\":", Decimal(d.issuedAtNano),
                      ",\"expires_at_unix_nano\":", Decimal(d.expiresAtNano), FromApiUrl(d));
  }

  method PushTransport(head: string, d: Signed) returns (out: string)
    requires FloatOk(d.tcpBps)
    ensures out + FromTcpBps(d) == head + FromApiUrl(d)
  {
    var apiUrl := GoJsonEscape(d.apiUrl);
    out := PushFields(head, ",\"api_https_addr\":\"", apiUrl, "\",\"supports_udp\":", BoolText(d.udp), FromTcp(d));
    out := PushFields(out, ",\"supports_tcp\":", BoolText(d.tcp),
                      ",\"active_connections\":", Decimal(d.activeConnections), FromTcpBps(d));
  }

  method PushBpsAndIvnp(head: string, d: Signed) returns (out: string)
    requires FloatOk(d.tcpBps)
    ensures out == head + FromTcpBps(d)
  {
    var tcpBps := GoJsonF64(d.tcpBps);
    out := Push(head, ",\"tcp_bps\":", tcpBps + FromIvnp(d));
    out := Push(out, tcpBps, FromIvnp(d));
    if d.ivnp.Some? {
      var ivnp := GoJsonEscape(d.ivnp.value);
      out := Push(out, ",\"ivnp_destination\":\"", ivnp + "\"}");
      out := Push(out, ivnp, "\"}");
      out := out + "\"}";
    } else {
      out := out + "}";
    }
  }

  // ---------- Injectivity ----------

  lemma IvnpDetermined(d: Signed, e: Signed)
    requires FromIvnp(d) == FromIvnp(e)
    ensures d.ivnp == e.ivnp
  {
    assert FromIvnp(d)[0] == FromIvnp(e)[0];
    if d.ivnp.Some? {
      CancelPrefix(",\"ivnp_destination\":\"", Escape(d.ivnp.value) + "\"}", Escape(e.ivnp.value) + "\"}");
      QuotedSplits(d.ivnp.value, "\"}", e.ivnp.value, "\"}");
    }
  }

  lemma TcpBpsDetermined(d: Signed, e: Signed)
    requires FloatOk(d.tcpBps) && FloatOk(e.tcpBps) && FromTcpBps(d) == FromTcpBps(e)
    ensures Print(d.tcpBps) == Print(e.tcpBps) && d.ivnp == e.ivnp
  {
    CancelPrefix(",\"tcp_bps\":", Print(d.tcpBps) + FromIvnp(d), Print(e.tcpBps) + FromIvnp(e));
    PrintAlphabet(d.tcpBps);
    PrintAlphabet(e.tcpBps);
    DelimitedSplits(Print(d.tcpBps), FromIvnp(d), Print(e.tcpBps), FromIvnp(e), NumberChar());
    IvnpDetermined(d, e);
  }

  lemma TcpDetermined(d: Signed, e: Signed)
    requires FloatOk(d.tcpBps) && FloatOk(e.tcpBps) && FromTcp(d) == FromTcp(e)
    ensures d.tcp == e.tcp && d.activeConnections == e.activeConnections
    ensures Print(d.tcpBps) == Print(e.tcpBps) && d.ivnp == e.ivnp
  {
    CancelPrefix(",\"supports_tcp\":", BoolText(d.tcp) + FromActive(d), BoolText(e.tcp) + FromActive(e));
    BoolSplits(d.tcp, FromActive(d), e.tcp, FromActive(e));
    CancelPrefix(",\"active_connections\":", Decimal(d.activeConnections) + FromTcpBps(d),
                 Decimal(e.activeConnections) + FromTcpBps(e));
    IntegerSplits(d.activeConnections, FromTcpBps(d), e.activeConnections, FromTcpBps(e));
    TcpBpsDetermined(d, e);
  }

  lemma ApiUrlDetermined(d: Signed, e: Signed)
    requires FloatOk(d.tcpBps) && FloatOk(e.tcpBps) && FromApiUrl(d) == FromApiUrl(e)
    ensures d.apiUrl == e.apiUrl && d.udp == e.udp && FromTcp(d) == FromTcp(e)
  {
    CancelPrefix(",\"api_https_addr\":\"", Escape(d.apiUrl) + FromUdp(d), Escape(e.apiUrl) + FromUdp(e));
    QuotedSplits(d.apiUrl, FromUdp(d), e.apiUrl, FromUdp(e));
    CancelPrefix("\",\"supports_udp\":", BoolText(d.udp) + FromTcp(d), BoolText(e.udp) + FromTcp(e));
    BoolSplits(d.udp, FromTcp(d), e.udp, FromTcp(e));
  }

  lemma TimesDetermined(d: Signed, e: Signed)
    requires FloatOk(d.tcpBps) && FloatOk(e.tcpBps) && FromIssued(d) == FromIssued(e)
    ensures d.issuedAtNano == e.issuedAtNano && d.expiresAtNano == e.expiresAtNano && FromApiUrl(d) == FromApiUrl(e)
  {
    CancelPrefix("\",\"issued_at_unix_nano\":", Decimal(d.issuedAtNano) + FromExpires(d),
                 Decimal(e.issuedAtNano) + FromExpires(e));
    IntegerSplits(d.issuedAtNano, FromExpires(d), e.issuedAtNano, FromExpires(e));
    CancelPrefix(",\"expires_at_unix_nano\":", Decimal(d.expiresAtNano) + FromApiUrl(d),
                 Decimal(e.expiresAtNano) + FromApiUrl(e));
    IntegerSplits(d.expiresAtNano, FromApiUrl(d), e.expiresAtNano, FromApiUrl(e));
  }

  lemma NamesDetermined(d: Signed, e: Signed)
    requires FloatOk(d.tcpBps) && FloatOk(e.tcpBps) && Text(d) == Text(e)
    ensures d.address == e.address && d.version == e.version && FromIssued(d) == FromIssued(e)
  {
    CancelPrefix("{\"address\":\"", Escape(d.address) + FromVersion(d), Escape(e.address) + FromVersion(e));
    QuotedSplits(d.address, FromVersion(d), e.address, FromVersion(e));
    CancelPrefix("\",\"version\":\"", Escape(d.version) + FromIssued(d), Escape(e.version) + FromIssued(e));
    QuotedSplits(d.version, FromIssued(d), e.version, FromIssued(e));
  }

  /** The signed text determines every signed field, and the bandwidth as the number it prints. */
  lemma TextDeterminesFields(d: Signed, e: Signed)
    requires FloatOk(d.tcpBps) && FloatOk(e.tcpBps) && Text(d) == Text(e)
    ensures d == e.(tcpBps := d.tcpBps) && Value(d.tcpBps) == Value(e.tcpBps)
  {
    NamesDetermined(d, e);
    TimesDetermined(d, e);
    ApiUrlDetermined(d, e);
    TcpDetermined(d, e);
    PrintKeepsValue(d.tcpBps);
    PrintKeepsValue(e.tcpBps);
  }
}
