/** The deterministic gzip path: the member header walk of section 2.3 of
    RFC 1952 (fixed ten bytes, then the optional FEXTRA, FNAME, FCOMMENT and
    FHCRC fields in that order), the trailer split into CRC32 and ISIZE, and the
    payload slice that leaves the trailer unchecked. Inflation (RFC 1951) is an
    oracle passed in by the caller. */
module Gzip {
  import opened Wrappers
  import opened Bytes

  datatype GzipError = NotGzip | BadExtraField | Truncated | InflateFailed

  /** The parsed member header. `name` and `comment` are the zero-terminated
      fields decoded as Latin-1 (None when the flag is clear). */
  datatype Header = Header(
    cm: byte, flg: byte, mtime: nat, xfl: byte, os: byte,
    extra: seq<byte>, name: Option<string>, comment: Option<string>,
    payloadOffset: nat)

  const FHCRC: nat := 2
  const FEXTRA: nat := 4
  const FNAME: nat := 8
  const FCOMMENT: nat := 16

  /** Python's `data[a:b]` for non-negative bounds (clamped to the data). */
  function Slice(data: seq<byte>, a: nat, b: nat): seq<byte> {
    if a >= b || a >= |data| then [] else data[a..if b <= |data| then b else |data|]
  }

  /** Where `while pos < len(data) and data[pos] != 0: pos += 1` stops: the
      first zero byte at or after pos, or the end of data. */
  function ZeroEnd(data: seq<byte>, pos: nat): (e: nat)
    ensures pos <= e && (e <= |data| || e == pos)
    ensures forall k :: pos <= k < e ==> data[k] != 0
    ensures e < |data| ==> data[e] == 0
    decreases |data| - pos
  {
    if pos >= |data| || data[pos] == 0 then pos else ZeroEnd(data, pos + 1)
  }

  /** Latin-1 decoding: every byte is the character with that code point. */
  function Latin1(s: seq<byte>): string {
    seq(|s|, i requires 0 <= i < |s| => s[i] as char)
  }

  /** A zero-terminated field starting at p: its text (when the flag is set)
      and the cursor just past its terminator. */
  function ZeroTerminated(data: seq<byte>, present: bool, p: nat): (Option<string>, nat) {
    (if present then Some(Latin1(Slice(data, p, ZeroEnd(data, p)))) else None, FieldEnd(data, present, p))
  }

  /** The cursor after an optional zero-terminated field starting at p. */
  function FieldEnd(data: seq<byte>, present: bool, p: nat): nat {
    if present then ZeroEnd(data, p) + 1 else p
  }

  /** The optional FEXTRA field: XLEN at offset 10, then XLEN bytes (as many
      as there are), and the cursor just past them. */
  function ExtraField(data: seq<byte>, present: bool): (seq<byte>, nat)
    requires !present || |data| >= 12
  {
    if present then (Slice(data, 12, 12 + LE16(data, 10)), 12 + LE16(data, 10)) else ([], 10)
  }

  /** The header walk, field by field. */
  function HeaderSpec(data: seq<byte>): Result<Header, GzipError> {
    if |data| < 10 || data[0] != 0x1F || data[1] != 0x8B then Err(NotGzip)
    else
      var flg := data[3];
      if HasFlag(flg, 4) && 12 > |data| then Err(BadExtraField)
      else
        var (extra, p1) := ExtraField(data, HasFlag(flg, 4));
        var (name, p2) := ZeroTerminated(data, HasFlag(flg, 8), p1);
        var (comment, p3) := ZeroTerminated(data, HasFlag(flg, 16), p2);
        var p4 := if HasFlag(flg, 2) then p3 + 2 else p3;
        Ok(Header(data[2], flg, LE32(data, 4), data[8], data[9], extra, name, comment, p4))
  }

  /** One optional zero-terminated field (FNAME or FCOMMENT): when the flag is
      set, advance the cursor to the next zero byte or the end of data, take the
      bytes passed over and step over the terminator. */
  method ReadField(data: seq<byte>, present: bool, start: nat) returns (field: Option<string>, next: nat)
    ensures (field, next) == ZeroTerminated(data, present, start)
    ensures present ==> next > start && field.Some? && |field.value| == next - 1 - start
    ensures !present ==> next == start && field.None?
  {
    if !present {
      return None, start;
    }
    var pos := start;
    while pos < |data| && data[pos] != 0
      invariant start <= pos && ZeroEnd(data, pos) == ZeroEnd(data, start)
      decreases |data| - pos
    {
      pos := pos + 1;
    }
    field := Some(Latin1(Slice(data, start, pos)));
    next := pos + 1;
  }

  /** `parse_gzip_header` of the ContentDocuments decoder: the cursor walk. */
  method ParseHeader(data: seq<byte>) returns (r: Result<Header, GzipError>)
    ensures r == HeaderSpec(data)
  {
    if |data| < 10 || data[0] != 0x1F || data[1] != 0x8B {
      return Err(NotGzip);
    }
    var flg := data[3];
    var pos: nat := 10;
    var extra: seq<byte> := [];
    if HasFlag(flg, FEXTRA) {
      if pos + 2 > |data| {
        return Err(BadExtraField);
      }
      var xlen := LE16(data, pos);
      pos := pos + 2;
      extra := Slice(data, pos, pos + xlen);
      pos := pos + xlen;
    }
    assert (extra, pos) == ExtraField(data, HasFlag(flg, FEXTRA));
    var name, p2 := ReadField(data, HasFlag(flg, FNAME), pos);
    var comment, p3 := ReadField(data, HasFlag(flg, FCOMMENT), p2);
    pos := p3;
    if HasFlag(flg, FHCRC) {
      pos := pos + 2;
    }
    r := Ok(Header(data[2], flg, LE32(data, 4), data[8], data[9], extra, name, comment, pos));
  }

  /** The header offset alone, as the Formats decoder's `parse_gzip_header`
      returns it. */
  function PayloadStart(data: seq<byte>): Result<nat, GzipError> {
    if |data| < 10 || data[0] != 0x1F || data[1] != 0x8B then Err(NotGzip)
    else
      var flags := data[3];
      if HasFlag(flags, 4) && 12 > |data| then Err(BadExtraField)
      else
        var p2 := FieldEnd(data, HasFlag(flags, 8), ExtraField(data, HasFlag(flags, 4)).1);
        var p3 := FieldEnd(data, HasFlag(flags, 16), p2);
        Ok(if HasFlag(flags, 2) then p3 + 2 else p3)
  }

  /** Both header walks agree: the Formats decoder's offset is the payload
      offset of the full header, and they fail alike. */
  lemma PayloadStartAgrees(data: seq<byte>)
    ensures PayloadStart(data).Ok? <==> HeaderSpec(data).Ok?
    ensures PayloadStart(data).Ok? ==> PayloadStart(data).value == HeaderSpec(data).value.payloadOffset
    ensures PayloadStart(data).Err? ==> PayloadStart(data).error == HeaderSpec(data).error
  {
  }

  /** `parse_gzip_header` of the Formats decoder: the same cursor walk, keeping
      only the cursor. */
  method ParsePayloadOffset(data: seq<byte>) returns (r: Result<nat, GzipError>)
    ensures r == PayloadStart(data)
  {
    if |data| < 10 || data[0] != 0x1F || data[1] != 0x8B {
      return Err(NotGzip);
    }
    var flags := data[3];
    var pos: nat := 10;
    if HasFlag(flags, FEXTRA) {
      if pos + 2 > |data| {
        return Err(BadExtraField);
      }
      var xlen := LE16(data, pos);
      pos := pos + 2 + xlen;
    }
    assert pos == ExtraField(data, HasFlag(flags, FEXTRA)).1;
    ghost var p1 := pos;
    if HasFlag(flags, FNAME) {
      while pos < |data| && data[pos] != 0
        invariant p1 <= pos && ZeroEnd(data, pos) == ZeroEnd(data, p1)
        decreases |data| - pos
      {
        pos := pos + 1;
      }
      pos := pos + 1;
    }
    assert pos == FieldEnd(data, HasFlag(flags, FNAME), p1);
    ghost var p2 := pos;
    if HasFlag(flags, FCOMMENT) {
      while pos < |data| && data[pos] != 0
        invariant p2 <= pos && ZeroEnd(data, pos) == ZeroEnd(data, p2)
        decreases |data| - pos
      {
        pos := pos + 1;
      }
      pos := pos + 1;
    }
    assert pos == FieldEnd(data, HasFlag(flags, FCOMMENT), p2);
    if HasFlag(flags, FHCRC) {
      pos := pos + 2;
    }
    r := Ok(pos);
  }

  /** The header is refused exactly when it is shorter than ten bytes, lacks
      the ID1/ID2 bytes 1F 8B, or announces FEXTRA with no room for XLEN. */
  lemma HeaderErrors(data: seq<byte>)
    ensures HeaderSpec(data) == Err(NotGzip) <==> |data| < 10 || data[..2] != [0x1F, 0x8B]
    ensures HeaderSpec(data) == Err(BadExtraField) <==>
              |data| >= 10 && data[..2] == [0x1F, 0x8B] && HasFlag(data[3], FEXTRA) && |data| < 12
    ensures HeaderSpec(data).Err? ==> HeaderSpec(data).error in {NotGzip, BadExtraField}
  {
    if |data| >= 10 {
      assert data[..2] == [0x1F, 0x8B] <==> data[0] == 0x1F && data[1] == 0x8B by {
        assert data[..2] == [data[0], data[1]];
      }
    }
  }

  lemma ZeroTerminatedField(data: seq<byte>, p: nat)
    ensures |Slice(data, p, ZeroEnd(data, p))| + p == ZeroEnd(data, p)
    ensures forall k :: 0 <= k < |Slice(data, p, ZeroEnd(data, p))| ==> Slice(data, p, ZeroEnd(data, p))[k] != 0
    ensures forall k :: 0 <= k < |Slice(data, p, ZeroEnd(data, p))| ==>
              Latin1(Slice(data, p, ZeroEnd(data, p)))[k] != 0 as char
  {
    var e := ZeroEnd(data, p);
    forall k | 0 <= k < |Slice(data, p, e)| ensures Slice(data, p, e)[k] != 0 {
      assert Slice(data, p, e)[k] == data[p + k];
    }
  }

  /** The header's layout as RFC 1952 draws it: ten fixed bytes, then
      2 + XLEN bytes of FEXTRA, the name and the comment each with their
      terminating zero, and two bytes of FHCRC, each present only when its flag
      is set; the name and the comment hold no zero byte. */
  lemma {:induction false} HeaderLayout(data: seq<byte>)
    requires HeaderSpec(data).Ok?
    ensures var h := HeaderSpec(data).value;
      h.payloadOffset ==
        10 + (if HasFlag(h.flg, FEXTRA) then 2 + LE16(data, 10) else 0)
           + (if h.name.Some? then |h.name.value| + 1 else 0)
           + (if h.comment.Some? then |h.comment.value| + 1 else 0)
           + (if HasFlag(h.flg, FHCRC) then 2 else 0)
    ensures var h := HeaderSpec(data).value;
      (h.name.Some? <==> HasFlag(h.flg, FNAME)) && (h.comment.Some? <==> HasFlag(h.flg, FCOMMENT))
    ensures var h := HeaderSpec(data).value;
      (h.name.Some? ==> forall k :: 0 <= k < |h.name.value| ==> h.name.value[k] != 0 as char)
      && (h.comment.Some? ==> forall k :: 0 <= k < |h.comment.value| ==> h.comment.value[k] != 0 as char)
  {
    var flg := data[3];
    var p1 := if HasFlag(flg, FEXTRA) then 12 + LE16(data, 10) else 10;
    ZeroTerminatedField(data, p1);
    var p2 := if HasFlag(flg, FNAME) then ZeroEnd(data, p1) + 1 else p1;
    ZeroTerminatedField(data, p2);
  }

  /** The payload starts at offset 10 or later, and exactly at 10 when none of
      FHCRC, FEXTRA, FNAME and FCOMMENT is set. */
  lemma PayloadOffsetBounds(data: seq<byte>)
    requires HeaderSpec(data).Ok?
    ensures var h := HeaderSpec(data).value;
      h.payloadOffset >= 10 &&
      (h.payloadOffset == 10 <==>
        !HasFlag(h.flg, FHCRC) && !HasFlag(h.flg, FEXTRA) && !HasFlag(h.flg, FNAME) && !HasFlag(h.flg, FCOMMENT))
  {
    HeaderLayout(data);
  }

  /** What `zlib.decompressobj(wbits=-15).decompress(payload)` yields: the
      inflated bytes and the `unused_data` after the deflate stream. */
  datatype Inflated = Inflated(out: seq<byte>, unused: seq<byte>)

  datatype RawStream = RawStream(
    out: seq<byte>, unused: seq<byte>, extraAfterTrailer: seq<byte>,
    header: Header, crc32: nat, isize: nat)

  /** `decompress_gzip_raw`: parse the header, refuse a stream too short for
      its 8-byte trailer, inflate the rest, and read CRC32 and ISIZE from the
      first eight unused bytes when there are that many, otherwise from the last
      eight bytes of the data. */
  function DecompressGzipRaw(data: seq<byte>, inflate: seq<byte> -> Option<Inflated>): (r: Result<RawStream, GzipError>)
    ensures HeaderSpec(data).Err? ==> r == Err(HeaderSpec(data).error)
    ensures HeaderSpec(data).Ok? && |data| < HeaderSpec(data).value.payloadOffset + 8 ==> r == Err(Truncated)
    ensures r.Ok? <==>
              HeaderSpec(data).Ok? && |data| >= HeaderSpec(data).value.payloadOffset + 8
              && inflate(data[HeaderSpec(data).value.payloadOffset..]).Some?
    ensures r.Ok? ==> |data| >= r.value.header.payloadOffset + 8 && r.value.header == HeaderSpec(data).value
    ensures r.Ok? ==> inflate(data[r.value.header.payloadOffset..]) == Some(Inflated(r.value.out, r.value.unused))
    ensures r.Ok? && |r.value.unused| >= 8 ==>
              r.value.crc32 == LE32(r.value.unused, 0) && r.value.isize == LE32(r.value.unused, 4)
              && r.value.extraAfterTrailer == r.value.unused[8..]
    ensures r.Ok? && |r.value.unused| < 8 ==>
              r.value.crc32 == LE32(data, |data| - 8) && r.value.isize == LE32(data, |data| - 4)
              && r.value.extraAfterTrailer == []
  {
    match HeaderSpec(data)
    case Err(e) => Err(e)
    case Ok(h) =>
      if |data| < h.payloadOffset + 8 then Err(Truncated)
      else match inflate(data[h.payloadOffset..])
        case None => Err(InflateFailed)
        case Some(z) =>
          var trailer: seq<byte> :=
            if |z.unused| >= 8 then z.unused[..8] else if |data| >= 8 then data[|data| - 8..] else [];
          var after := if |z.unused| >= 8 then z.unused[8..] else [];
          var crc := if |trailer| == 8 then LE32(trailer, 0) else 0;
          var isize := if |trailer| == 8 then LE32(trailer, 4) else 0;
          Ok(RawStream(z.out, z.unused, after, h, crc, isize))
  }

  /** `decompress_gzip_ignore_crc`: inflate exactly the bytes between the
      header and the 8-byte trailer; the trailer is never read. */
  function DecompressIgnoreCrc(data: seq<byte>, inflateRaw: seq<byte> -> Option<seq<byte>>): (r: Result<seq<byte>, GzipError>)
    ensures PayloadStart(data).Err? ==> r == Err(PayloadStart(data).error)
    ensures r.Ok? <==>
              PayloadStart(data).Ok? && |data| >= PayloadStart(data).value + 8
              && inflateRaw(data[PayloadStart(data).value..|data| - 8]).Some?
    ensures r.Ok? ==> Some(r.value) == inflateRaw(data[PayloadStart(data).value..|data| - 8])
  {
    match PayloadStart(data)
    case Err(e) => Err(e)
    case Ok(start) =>
      if |data| < start + 8 then Err(Truncated)
      else match inflateRaw(data[start..|data| - 8])
        case None => Err(InflateFailed)
        case Some(out) => Ok(out)
  }
}
