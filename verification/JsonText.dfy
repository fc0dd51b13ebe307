/** Strings and integers as the canonical descriptor text prints them. */
module JsonText {
  import opened Wrappers
  import opened Sequences

  // ---------- Strings ----------

  function HexDigit(n: nat): char
    requires n < 16
  {
    "0123456789abcdef"[n]
  }

  function EscapeChar(c: char): string
  {
    if c == '"' then "\\\""
    else if c == '\\' then "\\\\"
    else if c == '\n' then "\\n"
    else if c == '\r' then "\\r"
    else if c == '\t' then "\\t"
    else if c == '<' then "\\u003c"
    else if c == '>' then "\\u003e"
    else if c == '&' then "\\u0026"
    else if c as int < 0x20 then "\\u00" + [HexDigit(c as int / 16), HexDigit(c as int % 16)]
    else [c]
  }

  function Escape(s: string): string { if s == [] then [] else EscapeChar(s[0]) + Escape(s[1..]) }

  lemma {:induction false} EscapeSnoc(s: string, c: char)
    ensures Escape(s + [c]) == Escape(s) + EscapeChar(c)
  {
    if s == [] {
      assert s + [c] == [c];
      assert Escape([c]) == EscapeChar(c) + Escape([]);
    } else {
      assert (s + [c])[1..] == s[1..] + [c];
      EscapeSnoc(s[1..], c);
    }
  }

  /** `go_json_escape`. */
  method GoJsonEscape(s: string) returns (out: string)
    ensures out == Escape(s)
  {
    out := [];
    for i := 0 to |s|
      invariant out == Escape(s[..i])
    {
      assert s[..i + 1] == s[..i] + [s[i]];
      EscapeSnoc(s[..i], s[i]);
      out := out + EscapeChar(s[i]);
    }
    assert s[..|s|] == s;
  }

  function HexValue(c: char): Option<nat>
  {
    if '0' <= c <= '9' then Some(c as int - '0' as int)
    else if 'a' <= c <= 'f' then Some(c as int - 'a' as int + 10)
    else None
  }

  /** Reads one possibly escaped character; none if the text is malformed there. */
  function ReadChar(s: string): (r: Option<(char, string)>)
    ensures r.Some? ==> |r.value.1| < |s|
  {
    if s == [] || s[0] == '"' then None
    else if s[0] != '\\' then Some((s[0], s[1..]))
    else if |s| < 2 then None
    else if s[1] == '"' || s[1] == '\\' then Some((s[1], s[2..]))
    else if s[1] == 'n' then Some(('\n', s[2..]))
    else if s[1] == 'r' then Some(('\r', s[2..]))
    else if s[1] == 't' then Some(('\t', s[2..]))
    else if s[1] != 'u' || |s| < 6 || s[2] != '0' || s[3] != '0' then None
    else match (HexValue(s[4]), HexValue(s[5]))
      case (Some(h), Some(l)) => Some(((16 * h + l) as char, s[6..]))
      case _ => None
  }

  /** A reader for quoted strings: the characters up to the first bare quote, and what follows it. */
  function ReadString(s: string): Option<(string, string)>
    decreases |s|
  {
    if s != [] && s[0] == '"' then Some(("", s[1..]))
    else match ReadChar(s)
      case None => None
      case Some((c, rest)) =>
        match ReadString(rest)
        case None => None
        case Some((t, more)) => Some(([c] + t, more))
  }

  lemma {:induction false} EscapeConcat(s: string, t: string)
    ensures Escape(s + t) == Escape(s) + Escape(t)
  {
    if s == [] {
      assert s + t == t;
    } else {
      assert (s + t)[0] == s[0] && (s + t)[1..] == s[1..] + t;
      EscapeConcat(s[1..], t);
      Regroup(EscapeChar(s[0]), Escape(s[1..]), Escape(t));
    }
  }

  /** Which characters are escaped, and at what length: quote, backslash, line feed, carriage return and tab take two
      characters, the angle brackets, the ampersand and the other control characters six, and no other changes. */
  lemma EscapeShape(c: char)
    ensures var text := Escape([c]);
            if c == '"' || c == '\\' || c == '\n' || c == '\r' || c == '\t' then |text| == 2 && text[0] == '\\'
            else if c == '<' || c == '>' || c == '&' || c as int < 32 then |text| == 6 && text[..4] == "\\u00"
            else text == [c]
  {
    assert [c][1..] == [];
    assert Escape([c]) == EscapeChar(c) + Escape([]);
  }

  /** An escaped text holds no control character and none of the characters that HTML gives a meaning. */
  lemma {:induction false} EscapedIsPlain(s: string)
    ensures forall i :: 0 <= i < |Escape(s)| ==> Escape(s)[i] as int >= 32 && Escape(s)[i] !in "<>&"
  {
    if s != [] {
      EscapedIsPlain(s[1..]);
      CharIsPlain(s[0]);
    }
  }

  lemma CharIsPlain(c: char)
    ensures forall i :: 0 <= i < |EscapeChar(c)| ==> EscapeChar(c)[i] as int >= 32 && EscapeChar(c)[i] !in "<>&"
  {
    if IsTwo(c) {
      EscapedTwo(c);
    } else if IsUnicode(c) {
      EscapedUnicode(c);
      HexIsPlain(c as int / 16);
      HexIsPlain(c as int % 16);
    } else {
      assert EscapeChar(c) == [c];
    }
  }

  lemma HexIsPlain(n: nat)
    requires n < 16
    ensures HexDigit(n) as int >= 32 && HexDigit(n) !in "<>&"
  {
  }

  lemma ReadTwo(a: char, rest: string)
    requires a in "\"\\nrt"
    ensures ReadChar(['\\', a] + rest) ==
            Some((if a == 'n' then '\n' else if a == 'r' then '\r' else if a == 't' then '\t' else a, rest))
  {
    assert (['\\', a] + rest)[2..] == rest;
  }

  lemma ReadUnicode(h: nat, l: nat, rest: string)
    requires h < 16 && l < 16
    ensures ReadChar("\\u00" + [HexDigit(h), HexDigit(l)] + rest) == Some(((16 * h + l) as char, rest))
  {
    var s := "\\u00" + [HexDigit(h), HexDigit(l)] + rest;
    assert s[4] == HexDigit(h) && s[5] == HexDigit(l) && s[6..] == rest;
    HexInverse(h);
    HexInverse(l);
  }

  lemma HexInverse(n: nat)
    requires n < 16
    ensures HexValue(HexDigit(n)) == Some(n)
  {
  }

  predicate IsTwo(c: char) { c == '"' || c == '\\' || c == '\n' || c == '\r' || c == '\t' }

  predicate IsUnicode(c: char) { c == '<' || c == '>' || c == '&' || (c as int < 0x20 && !IsTwo(c)) }

  lemma EscapedTwo(c: char)
    requires IsTwo(c)
    ensures EscapeChar(c) == ['\\', if c == '\n' then 'n' else if c == '\r' then 'r' else if c == '\t' then 't' else c]
  {
  }

  lemma EscapedUnicode(c: char)
    requires IsUnicode(c)
    ensures EscapeChar(c) == "\\u00" + [HexDigit(c as int / 16), HexDigit(c as int % 16)]
  {
  }

  lemma ReadEscaped(c: char, rest: string)
    ensures ReadChar(EscapeChar(c) + rest) == Some((c, rest))
    ensures EscapeChar(c) != [] && EscapeChar(c)[0] != '"'
  {
    if IsTwo(c) {
      EscapedTwo(c);
      ReadTwo(EscapeChar(c)[1], rest);
    } else if IsUnicode(c) {
      EscapedUnicode(c);
      ReadUnicode(c as int / 16, c as int % 16, rest);
    } else {
      assert EscapeChar(c) == [c] && ([c] + rest)[1..] == rest;
    }
  }

  /** Escaping is invertible, and the closing quote is the first bare one. */
  lemma {:induction false} ReadInvertsEscape(s: string, rest: string)
    ensures ReadString(Escape(s) + "\"" + rest) == Some((s, rest))
  {
    if s == [] {
      assert Escape(s) + "\"" + rest == ['"'] + rest;
    } else {
      var more := Escape(s[1..]) + "\"" + rest;
      assert Escape(s) + "\"" + rest == EscapeChar(s[0]) + more;
      ReadEscaped(s[0], more);
      assert (EscapeChar(s[0]) + more)[0] == EscapeChar(s[0])[0];
      ReadInvertsEscape(s[1..], rest);
      assert s == [s[0]] + s[1..];
    }
  }

  lemma ReadQuoted(a: string, x: string)
    requires x != [] && x[0] == '"'
    ensures ReadString(Escape(a) + x) == Some((a, x[1..]))
  {
    assert x == "\"" + x[1..];
    Regroup(Escape(a), "\"", x[1..]);
    ReadInvertsEscape(a, x[1..]);
  }

  lemma QuotedSplits(a: string, x: string, b: string, y: string)
    requires x != [] && x[0] == '"' && y != [] && y[0] == '"'
    requires Escape(a) + x == Escape(b) + y
    ensures a == b && x == y
  {
    ReadQuoted(a, x);
    ReadQuoted(b, y);
    assert x == "\"" + x[1..] && y == "\"" + y[1..];
  }

  // ---------- Numbers ----------

  predicate IsDigit(c: char) { '0' <= c <= '9' }

  predicate IsDigits(s: string) { forall i :: 0 <= i < |s| ==> IsDigit(s[i]) }

  function DigitChar(n: nat): (c: char)
    requires n < 10
    ensures IsDigit(c) && c as int == '0' as int + n
  {
    '0' + n as char
  }

  function Digits(n: nat): (s: string)
    ensures s != [] && IsDigits(s)
  {
    if n < 10 then [DigitChar(n)] else Digits(n / 10) + [DigitChar(n % 10)]
  }

  function Decimal(n: int): string { if n < 0 then "-" + Digits(-n) else Digits(n) }

  function DigitsValue(s: string): nat
    requires IsDigits(s)
  {
    if s == [] then 0 else 10 * DigitsValue(s[..|s| - 1]) + (s[|s| - 1] as int - '0' as int)
  }

  lemma {:induction false} ValueOfDigits(n: nat)
    ensures DigitsValue(Digits(n)) == n
  {
    var s := Digits(n);
    if n < 10 {
      assert s[..0] == [];
    } else {
      assert s[..|s| - 1] == Digits(n / 10);
      ValueOfDigits(n / 10);
    }
  }

  /** The integer a text stands for, with an optional sign in front. */
  function IntValue(s: string): int
  {
    if s != [] && (s[0] == '-' || s[0] == '+') then
      (if IsDigits(s[1..]) then (if s[0] == '-' then -(DigitsValue(s[1..]) as int) else DigitsValue(s[1..])) else 0)
    else if IsDigits(s) then DigitsValue(s) else 0
  }

  lemma ValueOfDecimal(n: int)
    ensures IntValue(Decimal(n)) == n
  {
    if n < 0 {
      assert Decimal(n) == "-" + Digits(-n);
      SignedValue(Digits(-n));
      ValueOfDigits(-n);
    } else {
      UnsignedValue(Digits(n));
      ValueOfDigits(n);
    }
  }

  lemma SignedValue(d: string)
    requires IsDigits(d)
    ensures IntValue("-" + d) == -(DigitsValue(d) as int)
  {
    assert ("-" + d)[1..] == d;
  }

  lemma UnsignedValue(d: string)
    requires IsDigits(d) && d != []
    ensures IntValue(d) == DigitsValue(d)
  {
    assert IsDigit(d[0]);
  }

  lemma {:induction false} NoLeadingZero(n: nat)
    ensures Digits(n)[0] == '0' <==> n == 0
    ensures n == 0 ==> Digits(n) == "0"
  {
    if n >= 10 {
      NoLeadingZero(n / 10);
      assert Digits(n)[0] == Digits(n / 10)[0];
    }
  }

  /** A printed integer: a minus sign exactly for negative ones, then digits without a superfluous zero. */
  lemma DecimalShape(n: int) returns (digits: string)
    ensures Decimal(n) == (if n < 0 then "-" else "") + digits && digits != [] && IsDigits(digits)
    ensures digits[0] != '0' || digits == "0"
  {
    digits := Digits(if n < 0 then -n else n);
    NoLeadingZero(if n < 0 then -n else n);
  }

  /** Two texts over one alphabet, each followed by a character outside it, can be told apart. */
  lemma {:induction false} DelimitedSplits(a: string, x: string, b: string, y: string, part: char -> bool)
    requires (forall i :: 0 <= i < |a| ==> part(a[i])) && (forall i :: 0 <= i < |b| ==> part(b[i]))
    requires x != [] && y != [] && !part(x[0]) && !part(y[0])
    requires a + x == b + y
    ensures a == b && x == y
  {
    if a == [] || b == [] {
      assert (a + x)[0] == (b + y)[0];
      assert a == [] && b == [];
      assert a + x == x && b + y == y;
    } else {
      assert (a + x)[0] == a[0] && (b + y)[0] == b[0];
      assert (a + x)[1..] == a[1..] + x && (b + y)[1..] == b[1..] + y;
      DelimitedSplits(a[1..], x, b[1..], y, part);
      assert a == [a[0]] + a[1..] && b == [b[0]] + b[1..];
    }
  }

  /** The characters a printed number is made of. */
  function NumberChar(): char -> bool { c => IsDigit(c) || c == '-' || c == '+' || c == '.' || c == 'e' }

  predicate NumberText(s: string) { forall i :: 0 <= i < |s| ==> NumberChar()(s[i]) }

  lemma IntegerSplits(m: int, x: string, n: int, y: string)
    requires x != [] && y != [] && x[0] == ',' && y[0] == ','
    requires Decimal(m) + x == Decimal(n) + y
    ensures m == n && x == y
  {
    DelimitedSplits(Decimal(m), x, Decimal(n), y, NumberChar());
    ValueOfDecimal(m);
    ValueOfDecimal(n);
  }

  lemma CancelPrefix(p: string, x: string, y: string)
    requires p + x == p + y
    ensures x == y
  {
    assert (p + x)[|p|..] == x && (p + y)[|p|..] == y;
  }

  function BoolText(b: bool): string { if b then "true" else "false" }

  lemma BoolSplits(b: bool, x: string, c: bool, y: string)
    requires BoolText(b) + x == BoolText(c) + y
    ensures b == c && x == y
  {
    assert (BoolText(b) + x)[0] == BoolText(b)[0] && (BoolText(c) + y)[0] == BoolText(c)[0];
    CancelPrefix(BoolText(b), x, y);
  }
}
