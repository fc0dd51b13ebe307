/** Parsing the server name out of a ClientHello message (sections 4.1.2 of RFC 8446 and 3 of RFC 6066). */
module ClientHello {
  import opened Wrappers
  import opened Sequences

  const CLIENT_HELLO := 1
  const MAX_CLIENT_HELLO := 0x10_0000

  function U16(s: Bytes, k: nat): nat
    requires k + 2 <= |s|
  {
    s[k] as int * 256 + s[k + 1] as int
  }

  function U24(s: Bytes, k: nat): nat
    requires k + 3 <= |s|
  {
    s[k] as int * 65536 + s[k + 1] as int * 256 + s[k + 2] as int
  }

  // ---------- Name normalisation ----------

  predicate IsSpace(b: byte) { b == 32 || 9 <= b <= 13 }

  const DOT: byte := 46

  function LowerByte(b: byte): byte { if 65 <= b <= 90 then b + 32 else b }

  function LowerBytes(s: Bytes): Bytes { seq(|s|, i requires 0 <= i < |s| => LowerByte(s[i])) }

  function DropLeadingSpace(s: Bytes): Bytes
  {
    if s != [] && IsSpace(s[0]) then DropLeadingSpace(s[1..]) else s
  }

  function DropTrailingSpace(s: Bytes): Bytes
  {
    if s != [] && IsSpace(s[|s| - 1]) then DropTrailingSpace(s[..|s| - 1]) else s
  }

  function DropTrailingDots(s: Bytes): Bytes
  {
    if s != [] && s[|s| - 1] == DOT then DropTrailingDots(s[..|s| - 1]) else s
  }

  function Normalize(name: Bytes): Option<Bytes>
  {
    var core := DropTrailingDots(DropTrailingSpace(DropLeadingSpace(name)));
    if core == [] then None else Some(LowerBytes(core))
  }

  method SkipSpaces(name: Bytes) returns (start: nat)
    ensures start <= |name| && name[start..] == DropLeadingSpace(name)
  {
    start := 0;
    while start < |name| && IsSpace(name[start])
      invariant start <= |name|
      invariant DropLeadingSpace(name) == DropLeadingSpace(name[start..])
    {
      assert name[start..][1..] == name[start + 1..];
      start := start + 1;
    }
  }

  method TrimSpaces(s: Bytes) returns (end: nat)
    ensures end <= |s| && s[..end] == DropTrailingSpace(s)
  {
    end := |s|;
    assert s[..end] == s;
    while end > 0 && IsSpace(s[end - 1])
      invariant end <= |s|
      invariant DropTrailingSpace(s) == DropTrailingSpace(s[..end])
    {
      assert s[..end][..end - 1] == s[..end - 1];
      end := end - 1;
    }
  }

  method TrimDots(s: Bytes) returns (end: nat)
    ensures end <= |s| && s[..end] == DropTrailingDots(s)
  {
    end := |s|;
    assert s[..end] == s;
    while end > 0 && s[end - 1] == DOT
      invariant end <= |s|
      invariant DropTrailingDots(s) == DropTrailingDots(s[..end])
    {
      assert s[..end][..end - 1] == s[..end - 1];
      end := end - 1;
    }
  }

  /** `normalize_server_name`: the two ends move inwards, then the core is lower-cased. */
  method NormalizeServerName(name: Bytes) returns (r: Option<Bytes>)
    ensures r == Normalize(name)
  {
    var start := SkipSpaces(name);
    var trimmed := name[start..];
    var end := TrimSpaces(trimmed);
    trimmed := trimmed[..end];
    end := TrimDots(trimmed);
    if end == 0 {
      return None;
    }
    var out: Bytes := [];
    for i := 0 to end
      invariant out == LowerBytes(trimmed[..i])
    {
      out := out + [LowerByte(trimmed[i])];
    }
    return Some(out);
  }

  predicate AllSpace(s: Bytes) { forall i :: 0 <= i < |s| ==> IsSpace(s[i]) }

  predicate AllDots(s: Bytes) { forall i :: 0 <= i < |s| ==> s[i] == DOT }

  /** How a name splits around the part that is kept. */
  lemma NormalizeSplit(name: Bytes) returns (lead: Bytes, core: Bytes, dots: Bytes, trail: Bytes)
    ensures name == lead + core + dots + trail
    ensures AllSpace(lead) && AllSpace(trail) && AllDots(dots)
    ensures core != [] ==> !IsSpace(core[0]) && core[|core| - 1] != DOT
    ensures core != [] && dots == [] ==> !IsSpace(core[|core| - 1])
    ensures Normalize(name) == if core == [] then None else Some(LowerBytes(core))
  {
    var a := DropLeadingSpace(name);
    lead := LeadingSpace(name);
    var b := DropTrailingSpace(a);
    trail := TrailingSpace(a);
    core := DropTrailingDots(b);
    dots := TrailingDots(b);
    Joined(name, lead, a, b, trail, core, dots);
    assert dots == [] ==> core == b;
  }

  /** A blank byte of the C locale: tab, line feed, vertical tab, form feed, carriage return or space. */
  predicate Blank(b: byte) { b == 9 || b == 10 || b == 11 || b == 12 || b == 13 || b == 32 }

  /** What normalising means, byte by byte: between all leading blanks and the dots that are left once all
      trailing blanks are gone, the letters A to Z become a to z and every other byte stays. */
  lemma NormalizeMeaning(name: Bytes) returns (lead: Bytes, core: Bytes, dots: Bytes, trail: Bytes)
    ensures name == lead + core + dots + trail
    ensures forall i :: 0 <= i < |lead| ==> Blank(lead[i])
    ensures forall i :: 0 <= i < |trail| ==> Blank(trail[i])
    ensures forall i :: 0 <= i < |dots| ==> dots[i] == 46
    ensures core != [] ==> !Blank(core[0]) && core[|core| - 1] != 46 && (dots == [] ==> !Blank(core[|core| - 1]))
    ensures Normalize(name).None? <==> core == []
    ensures Normalize(name).Some? ==>
              var host := Normalize(name).value;
              && |host| == |core|
              && (forall i :: 0 <= i < |core| ==> host[i] == if 65 <= core[i] <= 90 then core[i] + 32 else core[i])
              && (forall i :: 0 <= i < |host| ==> !(65 <= host[i] <= 90))
  {
    lead, core, dots, trail := NormalizeSplit(name);
    assert forall b: byte :: IsSpace(b) <==> Blank(b);
  }

  /** Normalising is not idempotent: "a ." becomes "a ", and that becomes "a". */
  lemma NormalizeTwice()
    ensures Normalize([97, 32, 46]) == Some([97, 32]) && Normalize([97, 32]) == Some([97])
  {
    var s: Bytes, t: Bytes := [97, 32, 46], [97, 32];
    assert s[..2] == t && t[..1] == [97];
    assert LowerBytes(t) == t && LowerBytes([97]) == [97];
  }

  /** Names that normalising leaves alone. */
  predicate Canonical(s: Bytes)
  {
    && s != [] && !Blank(s[0]) && !Blank(s[|s| - 1]) && s[|s| - 1] != 46
    && forall i :: 0 <= i < |s| ==> !(65 <= s[i] <= 90)
  }

  /** The fixed points of normalisation are the lower-case names without spaces at either end and
      without a trailing dot. */
  lemma FixedPoints(s: Bytes)
    ensures Normalize(s) == Some(s) <==> Canonical(s)
  {
    if Canonical(s) {
      CanonicalIsFixed(s);
    }
    if Normalize(s) == Some(s) {
      FixedIsCanonical(s);
    }
  }

  lemma CanonicalIsFixed(s: Bytes)
    requires Canonical(s)
    ensures Normalize(s) == Some(s)
  {
    assert DropLeadingSpace(s) == s;
    assert DropTrailingSpace(s) == s;
    assert DropTrailingDots(s) == s;
    assert LowerBytes(s) == s;
  }

  lemma FixedIsCanonical(s: Bytes)
    requires Normalize(s) == Some(s)
    ensures Canonical(s)
  {
    var lead, core, dots, trail := NormalizeMeaning(s);
    WholeIsCanonical(s, lead, core, dots, trail);
  }

  lemma WholeIsCanonical(s: Bytes, lead: Bytes, core: Bytes, dots: Bytes, trail: Bytes)
    requires s == lead + core + dots + trail && |core| == |s| && core != []
    requires !Blank(core[0]) && core[|core| - 1] != 46 && (dots == [] ==> !Blank(core[|core| - 1]))
    requires forall i :: 0 <= i < |s| ==> !(65 <= s[i] <= 90)
    ensures Canonical(s)
  {
    WholeIsMiddle(s, lead, core, dots, trail);
  }

  lemma WholeIsMiddle(s: Bytes, a: Bytes, b: Bytes, c: Bytes, d: Bytes)
    requires s == a + b + c + d && |b| == |s|
    ensures s == b && c == []
  {
    assert a == [] && c == [] && d == [];
  }

  predicate DotsThenSpaces(t: Bytes) { exists m :: 0 <= m <= |t| && AllDots(t[..m]) && AllSpace(t[m..]) }

  /** Before byte `k`, `name` ends except for dots and then spaces. */
  predicate EndsBefore(name: Bytes, k: nat)
  {
    && 0 < k <= |name| && DotsThenSpaces(name[k..]) && name[k - 1] != DOT
    && (IsSpace(name[k - 1]) ==> k < |name| && name[k] == DOT)
  }

  /** There is at most one such place. */
  lemma EndIsUnique(name: Bytes, k: nat, m: nat)
    requires EndsBefore(name, k) && EndsBefore(name, m)
    ensures k == m
  {
    if k < m {
      EndsNoLater(name, k, m);
    } else if m < k {
      EndsNoLater(name, m, k);
    }
  }

  lemma EndsNoLater(name: Bytes, k: nat, m: nat)
    requires EndsBefore(name, k) && k < m
    ensures !EndsBefore(name, m)
  {
    var t := name[k..];
    var d :| 0 <= d <= |t| && AllDots(t[..d]) && AllSpace(t[d..]);
    if m <= |name| && name[m - 1] != DOT {
      assert forall x :: 0 <= x < d ==> t[..d][x] == name[k + x];
      assert t[d..][m - 1 - k - d] == name[m - 1];
      assert m < |name| ==> t[d..][m - k - d] == name[m];
    }
  }

  /** A name that normalises has such a place, at the end of its core. */
  lemma NameEnds(name: Bytes, host: Bytes) returns (k: nat)
    requires Normalize(name) == Some(host)
    ensures EndsBefore(name, k) && (Normalize(host) == Some(host) <==> !IsSpace(name[k - 1]))
  {
    var lead, core, dots, trail := NormalizeSplit(name);
    k := |lead| + |core|;
    assert name[k..] == dots + trail;
    assert name[k..][..|dots|] == dots && name[k..][|dots|..] == trail;
    assert name[k - 1] == core[|core| - 1];
    assert host == LowerBytes(core);
    LowerKeepsShape(core);
    FixedPoints(host);
  }

  /** Normalising a name twice is normalising it once exactly when the byte before its trailing
      dots and spaces is no space. */
  lemma StableNames(name: Bytes, host: Bytes, k: nat)
    requires Normalize(name) == Some(host) && EndsBefore(name, k)
    ensures Normalize(host) == Some(host) <==> !IsSpace(name[k - 1])
  {
    var m := NameEnds(name, host);
    EndIsUnique(name, k, m);
  }

  lemma LowerKeepsShape(s: Bytes)
    requires s != []
    ensures |LowerBytes(s)| == |s| && IsSpace(LowerBytes(s)[0]) == IsSpace(s[0])
    ensures IsSpace(LowerBytes(s)[|s| - 1]) == IsSpace(s[|s| - 1])
    ensures LowerBytes(s)[|s| - 1] == DOT <==> s[|s| - 1] == DOT
    ensures forall i :: 0 <= i < |s| ==> LowerByte(LowerBytes(s)[i]) == LowerBytes(s)[i]
  {
  }

  lemma Joined(name: Bytes, lead: Bytes, a: Bytes, b: Bytes, trail: Bytes, core: Bytes, dots: Bytes)
    requires name == lead + a && a == b + trail && b == core + dots
    ensures name == lead + core + dots + trail
  {
  }

  lemma {:induction false} LeadingSpace(s: Bytes) returns (lead: Bytes)
    ensures s == lead + DropLeadingSpace(s) && AllSpace(lead)
    ensures DropLeadingSpace(s) != [] ==> !IsSpace(DropLeadingSpace(s)[0])
  {
    if s != [] && IsSpace(s[0]) {
      var rest := LeadingSpace(s[1..]);
      lead := [s[0]] + rest;
    } else {
      lead := [];
    }
  }

  lemma {:induction false} TrailingSpace(s: Bytes) returns (trail: Bytes)
    ensures s == DropTrailingSpace(s) + trail && AllSpace(trail)
    ensures DropTrailingSpace(s) != [] ==> !IsSpace(DropTrailingSpace(s)[|DropTrailingSpace(s)| - 1])
  {
    if s != [] && IsSpace(s[|s| - 1]) {
      var rest := TrailingSpace(s[..|s| - 1]);
      trail := rest + [s[|s| - 1]];
    } else {
      trail := [];
    }
  }

  lemma {:induction false} TrailingDots(s: Bytes) returns (dots: Bytes)
    ensures s == DropTrailingDots(s) + dots && AllDots(dots)
    ensures DropTrailingDots(s) != [] ==> DropTrailingDots(s)[|DropTrailingDots(s)| - 1] != DOT
  {
    if s != [] && s[|s| - 1] == DOT {
      var rest := TrailingDots(s[..|s| - 1]);
      dots := rest + [s[|s| - 1]];
    } else {
      dots := [];
    }
  }

  // ---------- What the parser reads, on the bytes that are left ----------

  /** The first host name of a server name list. */
  function NamesHost(list: Bytes): Option<Bytes>
  {
    if |list| < 3 then None else
    var n := U16(list, 1);
    if 3 + n > |list| then None
    else if list[0] == 0 then Normalize(list[3..3 + n])
    else NamesHost(list[3 + n..])
  }

  function ServerNameHost(ext: Bytes): Option<Bytes>
  {
    if |ext| < 2 then None else
    var n := U16(ext, 0);
    if n == 0 || 2 + n > |ext| then None else NamesHost(ext[2..2 + n])
  }

  function ExtensionHost(kind: nat, content: Bytes): Option<Bytes>
  {
    if kind == 0 then ServerNameHost(content) else None
  }

  function ExtensionsHost(e: Bytes): Option<Bytes>
  {
    if |e| < 4 then None else
    var n := U16(e, 2);
    if 4 + n > |e| then None else OrElse(ExtensionHost(U16(e, 0), e[4..4 + n]), ExtensionsHost(e[4 + n..]))
  }

  function AfterCompression(r: Bytes): Option<Bytes>
  {
    if |r| < 2 || 2 + U16(r, 0) > |r| then None else ExtensionsHost(r[2..2 + U16(r, 0)])
  }

  function AfterCiphers(r: Bytes): Option<Bytes>
  {
    if r == [] || 1 + r[0] > |r| then None else AfterCompression(r[1 + r[0]..])
  }

  function AfterSession(r: Bytes): Option<Bytes>
  {
    if |r| < 2 || U16(r, 0) < 2 || 2 + U16(r, 0) > |r| then None else AfterCiphers(r[2 + U16(r, 0)..])
  }

  function BodyHost(m: Bytes): Option<Bytes>
  {
    if |m| < 35 || 35 + m[34] > |m| then None else AfterSession(m[35 + m[34]..])
  }

  function HelloHost(record: Bytes): Option<Bytes>
  {
    if |record| < 4 || record[0] != CLIENT_HELLO then None else
    var n := U24(record, 1);
    if n <= 0 || 4 + n > |record| then None else BodyHost(record[4..4 + n])
  }

  /** The same list, read in place between two positions. */
  function NamesAt(s: Bytes, pos: nat, end: nat): Option<Bytes>
    requires pos <= end <= |s|
    decreases end - pos
  {
    if pos + 3 > end then None
    else if pos + 3 + U16(s, pos + 1) > end then None
    else if s[pos] == 0 then Normalize(s[pos + 3..pos + 3 + U16(s, pos + 1)])
    else NamesAt(s, pos + 3 + U16(s, pos + 1), end)
  }

  /** What one entry of the list says, if it decides. */
  function NameHost(kind: byte, name: Bytes, rest: Option<Bytes>): Option<Bytes>
  {
    if kind == 0 then Normalize(name) else rest
  }

  lemma NamesUnfold(list: Bytes, n: nat, name: Bytes, rest: Bytes)
    requires 3 + n <= |list| && U16(list, 1) == n && name == list[3..3 + n] && rest == list[3 + n..]
    ensures NamesHost(list) == NameHost(list[0], name, NamesHost(rest))
  {
  }

  /** The entry at a position of the list, and what follows it. */
  lemma NameSlices(s: Bytes, pos: nat, end: nat)
    requires pos + 3 <= end <= |s| && pos + 3 + U16(s, pos + 1) <= end
    ensures var list, n := s[pos..end], U16(s, pos + 1);
            && U16(list, 1) == n && list[0] == s[pos]
            && s[pos + 3..pos + 3 + n] == list[3..3 + n] && s[pos + 3 + n..end] == list[3 + n..]
  {
    var n := U16(s, pos + 1);
    SliceOfSlice(s, pos, end, 3, 3 + n);
    SliceOfSlice(s, pos, end, 3 + n, end - pos);
  }

  /** One entry of the list, unfolded at its position. */
  lemma NamesStep(s: Bytes, pos: nat, end: nat)
    requires pos + 3 <= end <= |s|
    ensures var next := pos + 3 + U16(s, pos + 1);
            NamesHost(s[pos..end]) ==
              if next > end then None else NameHost(s[pos], s[pos + 3..next], NamesHost(s[next..end]))
  {
    var list, n := s[pos..end], U16(s, pos + 1);
    if pos + 3 + n <= end {
      NameSlices(s, pos, end);
      NamesUnfold(list, n, s[pos + 3..pos + 3 + n], s[pos + 3 + n..end]);
    } else {
      assert U16(list, 1) == n;
    }
  }

  lemma {:induction false} NamesInPlace(s: Bytes, pos: nat, end: nat)
    requires pos <= end <= |s|
    ensures NamesAt(s, pos, end) == NamesHost(s[pos..end])
    decreases end - pos
  {
    if pos + 3 <= end {
      NamesStep(s, pos, end);
      if pos + 3 + U16(s, pos + 1) <= end {
        NamesInPlace(s, pos + 3 + U16(s, pos + 1), end);
      }
    }
  }

  method ParseServerNameExtension(ext: Bytes) returns (host: Option<Bytes>)
    ensures host == ServerNameHost(ext)
  {
    if |ext| < 2 {
      return None;
    }
    var listLen := U16(ext, 0);
    if listLen == 0 || 2 + listLen > |ext| {
      return None;
    }
    NamesInPlace(ext, 2, 2 + listLen);
    host := ParseNames(ext, 2 + listLen);
  }

  method ParseNames(ext: Bytes, end: nat) returns (host: Option<Bytes>)
    requires 2 <= end <= |ext|
    ensures host == NamesAt(ext, 2, end)
  {
    var pos := 2;
    while pos + 3 <= end
      invariant 2 <= pos <= end && NamesAt(ext, 2, end) == NamesAt(ext, pos, end)
    {
      var nameType := ext[pos];
      pos := pos + 1;
      var nameLen := U16(ext, pos);
      pos := pos + 2;
      if pos + nameLen > end {
        return None;
      }
      if nameType == 0 {
        host := NormalizeServerName(ext[pos..pos + nameLen]);
        return;
      }
      pos := pos + nameLen;
    }
    return None;
  }

  /** The extensions, read in place between two positions. */
  function ExtensionsAt(m: Bytes, pos: nat, end: nat): Option<Bytes>
    requires pos <= end <= |m|
    decreases end - pos
  {
    if pos + 4 > end then None
    else
      var next := pos + 4 + U16(m, pos + 2);
      if next > end then None
      else OrElse(ExtensionHost(U16(m, pos), m[pos + 4..next]), ExtensionsAt(m, next, end))
  }

  lemma ExtensionUnfold(e: Bytes, n: nat, content: Bytes, rest: Bytes)
    requires 4 + n <= |e| && U16(e, 2) == n && content == e[4..4 + n] && rest == e[4 + n..]
    ensures ExtensionsHost(e) == OrElse(ExtensionHost(U16(e, 0), content), ExtensionsHost(rest))
  {
  }

  /** One extension, unfolded at its position. */
  lemma ExtensionStep(m: Bytes, pos: nat, end: nat)
    requires pos + 4 <= end <= |m|
    ensures var next := pos + 4 + U16(m, pos + 2);
            ExtensionsHost(m[pos..end]) ==
              if next > end then None
              else OrElse(ExtensionHost(U16(m, pos), m[pos + 4..next]), ExtensionsHost(m[next..end]))
  {
    var e, n := m[pos..end], U16(m, pos + 2);
    assert U16(e, 0) == U16(m, pos) && U16(e, 2) == n;
    if pos + 4 + n <= end {
      SliceOfSlice(m, pos, end, 4, 4 + n);
      SliceOfSlice(m, pos, end, 4 + n, end - pos);
      ExtensionUnfold(e, n, m[pos + 4..pos + 4 + n], m[pos + 4 + n..end]);
    }
  }

  lemma {:induction false} ExtensionsInPlace(m: Bytes, pos: nat, end: nat)
    requires pos <= end <= |m|
    ensures ExtensionsAt(m, pos, end) == ExtensionsHost(m[pos..end])
    decreases end - pos
  {
    if pos + 4 <= end {
      ExtensionStep(m, pos, end);
      if pos + 4 + U16(m, pos + 2) <= end {
        ExtensionsInPlace(m, pos + 4 + U16(m, pos + 2), end);
      }
    }
  }

  method ParseExtensions(msg: Bytes, start: nat, end: nat) returns (host: Option<Bytes>)
    requires start <= end <= |msg|
    ensures host == ExtensionsAt(msg, start, end)
  {
    var pos := start;
    while pos + 4 <= end
      invariant start <= pos <= end && ExtensionsAt(msg, start, end) == ExtensionsAt(msg, pos, end)
    {
      var extType, extLen := U16(msg, pos), U16(msg, pos + 2);
      var next := pos + 4 + extLen;
      if next > end {
        return None;
      }
      host := ParseExtension(extType, msg[pos + 4..next]);
      if host.Some? {
        return;
      }
      pos := next;
    }
    return None;
  }

  method ParseExtension(extType: nat, content: Bytes) returns (host: Option<Bytes>)
    ensures host == ExtensionHost(extType, content)
  {
    if extType == 0 {
      host := ParseServerNameExtension(content);
    } else {
      host := None;
    }
  }

  /** `parse_client_hello_record`, one length-prefixed field after the other. */
  method ParseClientHelloRecord(record: Bytes) returns (host: Option<Bytes>)
    ensures host == HelloHost(record)
  {
    if |record| < 4 || record[0] != CLIENT_HELLO {
      return None;
    }
    var msgLen := U24(record, 1);
    if msgLen <= 0 || 4 + msgLen > |record| {
      return None;
    }
    var msg := record[4..4 + msgLen];
    if msgLen < 34 {
      return None;
    }
    var pos := 34;
    if pos >= msgLen {
      return None;
    }
    var sessionLen: int := msg[pos];
    pos := pos + 1;
    if pos + sessionLen > msgLen {
      return None;
    }
    host := ParseFromCiphers(msg, pos + sessionLen);
  }

  method ParseFromCiphers(msg: Bytes, start: nat) returns (host: Option<Bytes>)
    requires start <= |msg|
    ensures host == AfterSession(msg[start..])
  {
    var pos := start;
    if pos + 2 > |msg| {
      return None;
    }
    var cipherLen := U16(msg, pos);
    pos := pos + 2;
    if cipherLen < 2 || pos + cipherLen > |msg| {
      return None;
    }
    Suffix(msg, start, 2 + cipherLen);
    host := ParseFromCompression(msg, pos + cipherLen);
  }

  method ParseFromCompression(msg: Bytes, start: nat) returns (host: Option<Bytes>)
    requires start <= |msg|
    ensures host == AfterCiphers(msg[start..])
  {
    var pos := start;
    if pos >= |msg| {
      return None;
    }
    var compressionLen: int := msg[pos];
    pos := pos + 1;
    if pos + compressionLen > |msg| {
      return None;
    }
    Suffix(msg, start, 1 + compressionLen);
    host := ParseFromExtensions(msg, pos + compressionLen);
  }

  method ParseFromExtensions(msg: Bytes, pos: nat) returns (host: Option<Bytes>)
    requires pos <= |msg|
    ensures host == AfterCompression(msg[pos..])
  {
    if pos == |msg| || pos + 2 > |msg| {
      return None;
    }
    var extensionsLen := U16(msg, pos);
    if pos + 2 + extensionsLen > |msg| {
      return None;
    }
    SliceOfSlice(msg, pos, |msg|, 2, 2 + extensionsLen);
    assert msg[pos..] == msg[pos..|msg|];
    ExtensionsInPlace(msg, pos + 2, pos + 2 + extensionsLen);
    host := ParseExtensions(msg, pos + 2, pos + 2 + extensionsLen);
  }
}
