/** Datagram frames: the 32-bit flow id as a variable-length integer, followed by the payload. */
module Datagram {
  import opened Wrappers
  import opened Sequences

  const WORD := 0x1_0000_0000

  type uint32 = x: int | 0 <= x < 0x1_0000_0000

  datatype Frame = Frame(flowId: uint32, payload: Bytes)

  // ---------- Encoding ----------

  function Varint(v: uint32): (s: Bytes)
    ensures 1 <= |s|
  {
    if v < 128 then [v] else [v % 128 + 128] + Varint(v / 128)
  }

  method EncodeUvarint(value: uint32) returns (buf: Bytes)
    ensures buf == Varint(value)
  {
    var v := value;
    buf := [];
    while v >= 128
      invariant buf + Varint(v) == Varint(value)
      decreases v
    {
      Regroup(buf, [v % 128 + 128], Varint(v / 128));
      buf := buf + [v % 128 + 128];
      v := v / 128;
    }
    buf := buf + [v];
  }

  method EncodeDatagramFrame(f: Frame) returns (buf: Bytes)
    ensures buf == Encode(f)
  {
    var flow := EncodeUvarint(f.flowId);
    buf := flow + f.payload;
  }

  function Encode(f: Frame): Bytes { Varint(f.flowId) + f.payload }

  // ---------- Decoding ----------

  /** 2 to the power 7 * i. */
  function Weight(i: nat): nat
    requires i < 5
  {
    if i == 0 then 1 else if i == 1 then 0x80 else if i == 2 then 0x4000 else if i == 3 then 0x20_0000 else 0x1000_0000
  }

  lemma ChunkFits(chunk: nat, i: nat)
    requires i < 5 && chunk < 128
    ensures chunk * Weight(i) % WORD <= WORD - Weight(i)
    ensures i < 4 ==> chunk * Weight(i) % WORD == chunk * Weight(i) <= Weight(i + 1) - Weight(i)
    ensures chunk * Weight(i) < WORD ==> chunk * Weight(i) % WORD == chunk * Weight(i)
  {
  }

  /** `v | chunk << 7 * i` on a 32-bit word; the bits below the shift are all in `v`, so the
      bitwise or is a sum. */
  function OrShifted(v: uint32, chunk: nat, i: nat): (r: uint32)
    requires i < 5 && chunk < 128 && v < Weight(i)
    ensures i < 4 ==> r < Weight(i + 1)
  {
    ChunkFits(chunk, i);
    v + chunk * Weight(i) % WORD
  }

  /** The value decoded from byte `i` on, where `v` holds the chunks before it, and where it ends. */
  function DecodeFrom(s: Bytes, i: nat, v: uint32): (r: Option<(uint32, nat)>)
    requires i < 5 && v < Weight(i)
    ensures r.Some? ==> r.value.1 <= |s|
    decreases 5 - i
  {
    if i >= |s| then None else
    var v' := OrShifted(v, s[i] % 128, i);
    if s[i] < 128 then Some((v', i + 1)) else if i == 4 then None else DecodeFrom(s, i + 1, v')
  }

  method DecodeUvarint(s: Bytes) returns (r: Option<(uint32, nat)>)
    ensures r == DecodeFrom(s, 0, 0)
  {
    var v: uint32, shift, i := 0, 0, 0;
    while i < |s|
      invariant 0 <= i <= |s| && i < 5 && shift == 7 * i && v < Weight(i)
      invariant DecodeFrom(s, 0, 0) == DecodeFrom(s, i, v)
    {
      var b := s[i];
      v := OrShifted(v, b % 128, i);
      i := i + 1;
      if b < 128 {
        return Some((v, i));
      }
      shift := shift + 7;
      if shift > 28 {
        return None;
      }
    }
    return None;
  }

  function Decode(s: Bytes): Option<Frame>
  {
    match DecodeFrom(s, 0, 0)
    case None => None
    case Some((v, n)) => Some(Frame(v, s[n..]))
  }

  method DecodeDatagram(s: Bytes) returns (f: Option<Frame>)
    ensures f == Decode(s)
  {
    var flow := DecodeUvarint(s);
    if flow.None? {
      return None;
    }
    return Some(Frame(flow.value.0, s[flow.value.1..]));
  }

  // ---------- What the bytes say ----------

  lemma ShiftedDigit(v: nat, i: nat)
    requires i < 4
    ensures v / 128 / Weight(i) == v / Weight(i + 1)
  {
  }

  lemma RoomLeft(v: uint32, room: nat)
    requires 1 <= room <= 5 && v >= 128 && (room < 5 ==> v < Weight(room))
    ensures room > 1 && v / 128 < Weight(room - 1)
  {
  }

  lemma {:induction false} VarintLength(v: uint32, room: nat)
    requires 1 <= room <= 5 && (room < 5 ==> v < Weight(room))
    ensures |Varint(v)| <= room
    decreases v
  {
    if v >= 128 {
      RoomLeft(v, room);
      VarintLength(v / 128, room - 1);
    }
  }

  lemma {:induction false} VarintDigit(v: uint32, i: nat)
    requires i < |Varint(v)| && i < 5
    ensures Varint(v)[i] % 128 == v / Weight(i) % 128
    ensures Varint(v)[i] >= 128 <==> i < |Varint(v)| - 1
    ensures i == |Varint(v)| - 1 > 0 ==> Varint(v)[i] != 0
    decreases i
  {
    if v >= 128 && i > 0 {
      assert Varint(v)[i] == Varint(v / 128)[i - 1];
      VarintDigit(v / 128, i - 1);
      ShiftedDigit(v, i - 1);
      if i == 1 && |Varint(v)| == 2 {
        assert v / 128 > 0;
      }
    }
  }

  /** The bytes of an integer: its base-128 digits from the lowest up, all but the last with 128 added, the last not
      zero unless it is the only one, and never more than five. */
  lemma VarintDigits(v: uint32)
    ensures 1 <= |Varint(v)| <= 5
    ensures forall i :: 0 <= i < |Varint(v)| ==>
              Varint(v)[i] % 128 == v / Weight(i) % 128 && (Varint(v)[i] >= 128 <==> i < |Varint(v)| - 1)
    ensures |Varint(v)| > 1 ==> Varint(v)[|Varint(v)| - 1] != 0
  {
    VarintLength(v, 5);
    forall i | 0 <= i < |Varint(v)|
      ensures Varint(v)[i] % 128 == v / Weight(i) % 128 && (Varint(v)[i] >= 128 <==> i < |Varint(v)| - 1)
    {
      VarintDigit(v, i);
    }
    VarintDigit(v, |Varint(v)| - 1);
  }

  /** The low seven bits of the first `n` bytes, each weighted by its power of 128. */
  function Sum(s: Bytes, n: nat): nat
    requires n <= 5 && n <= |s|
  {
    if n == 0 then 0 else Sum(s, n - 1) + (s[n - 1] as int) % 128 * Weight(n - 1)
  }

  /** Where decoding ends, and the bytes before that. */
  predicate EndsAt(s: Bytes, n: nat)
  {
    1 <= n <= 5 && n <= |s| && s[n - 1] < 128 && forall i :: 0 <= i < n - 1 ==> s[i] >= 128
  }

  /** What any bytes decode to: up to the first byte below 128, within five, the low seven bits of each make up
      the value modulo 2^32. */
  lemma DecodeValue(s: Bytes)
    ensures DecodeFrom(s, 0, 0).Some? ==>
              var (v, n) := DecodeFrom(s, 0, 0).value;
              EndsAt(s, n) && v == Sum(s, n) % 0x1_0000_0000
  {
    if DecodeFrom(s, 0, 0).Some? {
      ValueFrom(s, 0, 0);
    }
  }

  /** Decoding from byte `i` on, when `v` is the value of the bytes before it. */
  lemma {:induction false} ValueFrom(s: Bytes, i: nat, v: uint32)
    requires i < 5 && i <= |s| && v < Weight(i) && DecodeFrom(s, i, v).Some? && v == Sum(s, i)
    requires forall j :: 0 <= j < i ==> s[j] >= 128
    ensures var (r, n) := DecodeFrom(s, i, v).value;
            EndsAt(s, n) && r == Sum(s, n) % 0x1_0000_0000
    decreases 5 - i
  {
    DecodeStep(s, i, v);
    if s[i] >= 128 {
      ValueFrom(s, i + 1, Sum(s, i + 1));
    }
  }

  /** One byte: it ends the integer, or decoding goes on with its chunk added. */
  lemma DecodeStep(s: Bytes, i: nat, v: uint32)
    requires i < 5 && v < Weight(i) && DecodeFrom(s, i, v).Some?
    ensures i < |s|
    ensures var sum := v + (s[i] as int) % 128 * Weight(i);
            if s[i] < 128 then DecodeFrom(s, i, v) == Some((sum % 0x1_0000_0000, i + 1))
            else i < 4 && sum < Weight(i + 1) && DecodeFrom(s, i, v) == DecodeFrom(s, i + 1, sum)
  {
    var chunk := (s[i] as int) % 128;
    ChunkFits(chunk, i);
    WrappedSum(v, chunk, i);
  }

  lemma WrappedSum(v: nat, chunk: nat, i: nat)
    requires i < 5 && chunk < 128 && v < Weight(i)
    ensures (v + chunk * Weight(i)) % 0x1_0000_0000 == v + chunk * Weight(i) % 0x1_0000_0000
  {
  }

  // ---------- Round trip ----------

  lemma DecodeLast(s: Bytes, i: nat, v: uint32)
    requires i < 5 && i < |s| && v < Weight(i) && s[i] < 128 && v + s[i] * Weight(i) < WORD
    ensures DecodeFrom(s, i, v) == Some((v + s[i] * Weight(i), i + 1))
  {
    ChunkFits(s[i], i);
  }

  lemma DecodeMore(s: Bytes, i: nat, v: uint32, chunk: nat)
    requires i < 4 && i < |s| && v < Weight(i) && chunk < 128 && s[i] == chunk + 128
    ensures v + chunk * Weight(i) < Weight(i + 1)
    ensures DecodeFrom(s, i, v) == DecodeFrom(s, i + 1, v + chunk * Weight(i))
  {
    ChunkFits(chunk, i);
  }

  /** The bytes of `high` stand in `s` from position `i` on. */
  predicate StandsAt(s: Bytes, i: nat, high: uint32)
  {
    i + |Varint(high)| <= |s| && s[i..i + |Varint(high)|] == Varint(high)
  }

  lemma NextByte(s: Bytes, i: nat, high: uint32)
    requires StandsAt(s, i, high)
    ensures i < |s|
    ensures high < 128 ==> |Varint(high)| == 1 && s[i] == high
    ensures high >= 128 ==>
              s[i] == high % 128 + 128 && |Varint(high)| == 1 + |Varint(high / 128)| && StandsAt(s, i + 1, high / 128)
  {
    var n := |Varint(high)|;
    assert s[i] == s[i..i + n][0];
    if high >= 128 {
      assert s[i + 1..i + n] == s[i..i + n][1..];
    }
  }

  /** From any byte on, with `low` the value of the chunks before it, decoding yields the whole value. */
  lemma {:induction false} VarintDecodes(s: Bytes, i: nat, low: uint32, high: uint32, value: uint32)
    requires i < 5 && low < Weight(i) && StandsAt(s, i, high) && value == low + high * Weight(i)
    ensures DecodeFrom(s, i, low) == Some((value, i + |Varint(high)|))
    decreases high
  {
    NextByte(s, i, high);
    if high < 128 {
      DecodeLast(s, i, low);
    } else {
      SplitWeight(low, high, i);
      DecodeMore(s, i, low, high % 128);
      VarintDecodes(s, i + 1, low + high % 128 * Weight(i), high / 128, value);
    }
  }

  lemma SplitWeight(low: nat, high: nat, i: nat)
    requires i < 5 && high >= 128 && low + high * Weight(i) < WORD
    ensures i < 4 && low + high % 128 * Weight(i) + high / 128 * Weight(i + 1) == low + high * Weight(i)
  {
  }

  /** Decoding any encoded frame, whatever its payload, returns the frame. */
  lemma FrameRoundTrip(f: Frame)
    ensures Decode(Encode(f)) == Some(f)
  {
    var s, n := Encode(f), |Varint(f.flowId)|;
    assert s[0..n] == Varint(f.flowId) && s[n..] == f.payload;
    VarintDecodes(s, 0, 0, f.flowId, f.flowId);
  }

  /** Decoding fails exactly when none of the first five bytes ends the integer. */
  lemma {:induction false} DecodeFails(s: Bytes, i: nat, v: uint32)
    requires i < 5 && v < Weight(i)
    ensures DecodeFrom(s, i, v).None? <==> forall j :: i <= j < 5 && j < |s| ==> s[j] >= 128
    decreases 5 - i
  {
    if i < |s| && s[i] >= 128 && i < 4 {
      DecodeFails(s, i + 1, OrShifted(v, s[i] % 128, i));
    }
  }
}
