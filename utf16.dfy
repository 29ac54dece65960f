/** `bytes.decode("utf-16-le"/"utf-16-be", errors="ignore")` at code-unit
    level: a valid surrogate pair becomes one character, a lone surrogate and a
    trailing odd byte are dropped. */
module Utf16 {
  import opened Bytes

  /** The 16-bit code units of data; a final odd byte belongs to none. */
  function CodeUnits(data: seq<byte>, bigEndian: bool): (u: seq<nat>)
    ensures |u| == |data| / 2
    ensures forall k :: 0 <= k < |u| ==> u[k] < 0x1_0000
  {
    seq(|data| / 2, k requires 0 <= k < |data| / 2 =>
      if bigEndian then BE16(data, 2 * k) else LE16(data, 2 * k))
  }

  predicate IsHighSurrogate(u: nat) { 0xD800 <= u <= 0xDBFF }

  predicate IsLowSurrogate(u: nat) { 0xDC00 <= u <= 0xDFFF }

  /** Decode code units, ignoring every unit that is not part of a valid
      character. */
  function DecodeUnits(u: seq<nat>): string {
    if |u| == 0 then []
    else if IsHighSurrogate(u[0]) && |u| >= 2 && IsLowSurrogate(u[1]) then
      var hi: int, lo: int := u[0], u[1];
      [(0x1_0000 + (hi - 0xD800) * 0x400 + (lo - 0xDC00)) as char] + DecodeUnits(u[2..])
    else if u[0] < 0xD800 || 0xE000 <= u[0] < 0x11_0000 then [u[0] as char] + DecodeUnits(u[1..])
    else DecodeUnits(u[1..])
  }

  function Decode(data: seq<byte>, bigEndian: bool): string {
    DecodeUnits(CodeUnits(data, bigEndian))
  }

  /** The UTF-16 code units of one character. */
  function EncodeChar(c: char): (u: seq<nat>)
    ensures forall k :: 0 <= k < |u| ==> u[k] < 0x1_0000
  {
    if c as int < 0x1_0000 then [c as int]
    else
      var v := c as int - 0x1_0000;
      [0xD800 + v / 0x400, 0xDC00 + v % 0x400]
  }

  function EncodeUnits(s: string): (u: seq<nat>)
    ensures forall k :: 0 <= k < |u| ==> u[k] < 0x1_0000
  {
    if |s| == 0 then [] else EncodeChar(s[0]) + EncodeUnits(s[1..])
  }

  /** `s.encode("utf-16-le")`. */
  function EncodeLE(s: string): (data: seq<byte>)
    ensures |data| % 2 == 0
  {
    var u := EncodeUnits(s);
    seq(2 * |u|, i requires 0 <= i < 2 * |u| =>
      if i % 2 == 0 then u[i / 2] % 256 else u[i / 2] / 256)
  }

  lemma CharRoundTrip(c: char, rest: seq<nat>)
    ensures DecodeUnits(EncodeChar(c) + rest) == [c] + DecodeUnits(rest)
  {
    var u := EncodeChar(c) + rest;
    if c as int >= 0x1_0000 {
      var v := c as int - 0x1_0000;
      assert v == (v / 0x400) * 0x400 + v % 0x400;
      assert u[2..] == rest;
    } else {
      assert u[1..] == rest;
    }
  }

  /** Decoding the UTF-16 encoding of a string gives the string back. */
  lemma {:induction false} DecodeEncodeUnits(s: string)
    ensures DecodeUnits(EncodeUnits(s)) == s
  {
    if |s| > 0 {
      DecodeEncodeUnits(s[1..]);
      CharRoundTrip(s[0], EncodeUnits(s[1..]));
      assert s == [s[0]] + s[1..];
    }
  }

  /** `s.encode("utf-16-le").decode("utf-16-le", errors="ignore") == s`. */
  lemma DecodeEncodeLE(s: string)
    ensures Decode(EncodeLE(s), false) == s
  {
    var u := EncodeUnits(s);
    var data := EncodeLE(s);
    assert CodeUnits(data, false) == u by {
      forall k | 0 <= k < |u| ensures CodeUnits(data, false)[k] == u[k] {
        assert data[2 * k] == u[k] % 256 && data[2 * k + 1] == u[k] / 256;
      }
    }
    DecodeEncodeUnits(s);
  }

  /** Decoding never yields more characters than there are code units. */
  lemma {:induction false} DecodeUnitsLength(u: seq<nat>)
    ensures |DecodeUnits(u)| <= |u|
  {
    if |u| > 0 {
      DecodeUnitsLength(u[1..]);
      if |u| >= 2 {
        DecodeUnitsLength(u[2..]);
      }
    }
  }

  /** Only the empty string has no code units. */
  lemma EncodeUnitsEmpty(s: string)
    ensures |EncodeUnits(s)| == 0 <==> s == []
  {
  }
}
