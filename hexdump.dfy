/** The three hex dumps: `hexdump` returning a list of lines with 8-digit
    offsets, `hex_dump` returning one newline-joined string with 4-digit
    offsets, and the `hexdump` generator without offsets. All three cut the
    data into rows of 16 bytes (every caller uses the default width). */
module Hexdump {
  import opened Wrappers
  import opened Bytes
  import opened Text

  /** The row width every dump uses. */
  const Width: nat := 16

  /** `0`-`9` or `A`-`F`: the digits `format(..., "X")` writes. */
  predicate IsUpperHexDigit(c: char) {
    '0' <= c <= '9' || 'A' <= c <= 'F'
  }

  /** An upper-case hexadecimal digit, which reads back as its value. */
  function HexDigit(d: nat): (c: char)
    requires d < 16
    ensures IsHexDigit(c) && IsUpperHexDigit(c)
    ensures DigitValue(c) == d
  {
    if d < 10 then ('0' as int + d) as char else ('A' as int + d - 10) as char
  }

  /** The value of a hexadecimal digit. */
  function DigitValue(c: char): nat {
    if '0' <= c <= '9' then c as int - '0' as int
    else if 'A' <= c <= 'F' then c as int - 'A' as int + 10
    else if 'a' <= c <= 'f' then c as int - 'a' as int + 10
    else 0
  }

  /** `format(n, "X")`: the digits of n, most significant first. */
  function HexDigits(n: nat): (s: string)
    ensures |s| >= 1
    decreases n
  {
    if n < 16 then [HexDigit(n)] else HexDigits(n / 16) + [HexDigit(n % 16)]
  }

  /** k copies of c: the padding of the `0` and `<` format fills. */
  function Repeat(c: char, k: nat): (s: string)
    ensures |s| == k
  {
    seq(k, _ => c)
  }

  /** `format(n, "0wX")`: at least w digits, zero-padded on the left. */
  function Hex(n: nat, w: nat): string {
    var s := HexDigits(n);
    if |s| >= w then s else Repeat('0', w - |s|) + s
  }

  lemma {:induction false} HexDigitsUpper(n: nat)
    ensures forall i :: 0 <= i < |HexDigits(n)| ==> IsUpperHexDigit(HexDigits(n)[i])
    decreases n
  {
    if n >= 16 {
      HexDigitsUpper(n / 16);
    }
  }

  /** `format(n, "0wX")` writes only `0`-`9` and `A`-`F`. */
  lemma HexUpper(n: nat, w: nat)
    ensures forall i :: 0 <= i < |Hex(n, w)| ==> IsUpperHexDigit(Hex(n, w)[i])
  {
    HexDigitsUpper(n);
    var s := HexDigits(n);
    if |s| < w {
      var z := Repeat('0', w - |s|);
      forall i | 0 <= i < |z + s| ensures IsUpperHexDigit((z + s)[i]) {
        if i >= |z| {
          assert (z + s)[i] == s[i - |z|];
        }
      }
    }
  }

  /** The number a string of hexadecimal digits denotes (`int(s, 16)`). */
  function ParseHex(s: string): nat {
    if |s| == 0 then 0 else 16 * ParseHex(s[..|s| - 1]) + DigitValue(s[|s| - 1])
  }

  function Pow16(k: nat): (p: nat)
    ensures p >= 1
  {
    if k == 0 then 1 else 16 * Pow16(k - 1)
  }

  lemma {:induction false} ParseHexDigits(n: nat)
    ensures ParseHex(HexDigits(n)) == n
    decreases n
  {
    if n >= 16 {
      ParseHexDigits(n / 16);
      var s := HexDigits(n);
      assert s[..|s| - 1] == HexDigits(n / 16);
    }
  }

  lemma {:induction false} ParseZeros(k: nat)
    ensures ParseHex(Repeat('0', k)) == 0
  {
    if k > 0 {
      assert Repeat('0', k)[..k - 1] == Repeat('0', k - 1);
      ParseZeros(k - 1);
    }
  }

  /** Leading zeros do not change the value. */
  lemma {:induction false} ParseLeadingZeros(k: nat, s: string)
    ensures ParseHex(Repeat('0', k) + s) == ParseHex(s)
  {
    if |s| == 0 {
      assert Repeat('0', k) + s == Repeat('0', k);
      ParseZeros(k);
    } else {
      var t := Repeat('0', k) + s;
      assert t[..|t| - 1] == Repeat('0', k) + s[..|s| - 1];
      ParseLeadingZeros(k, s[..|s| - 1]);
    }
  }

  /** Reading a formatted number back gives the number. */
  lemma HexRoundTrip(n: nat, w: nat)
    ensures ParseHex(Hex(n, w)) == n
  {
    ParseHexDigits(n);
    var s := HexDigits(n);
    if |s| < w {
      ParseLeadingZeros(w - |s|, s);
    }
  }

  lemma {:induction false} HexDigitsFit(n: nat, w: nat)
    requires w >= 1 && n < Pow16(w)
    ensures |HexDigits(n)| <= w
    decreases n
  {
    if n >= 16 {
      HexDigitsFit(n / 16, w - 1);
    }
  }

  /** A number below 16^w takes exactly w digits; a larger one is never cut. */
  lemma HexWidth(n: nat, w: nat)
    ensures |Hex(n, w)| >= w
    ensures w >= 1 && n < Pow16(w) ==> |Hex(n, w)| == w
  {
    if w >= 1 && n < Pow16(w) {
      HexDigitsFit(n, w);
    }
  }

  /** `f"{b:02X}"`. */
  function HexByte(b: byte): string {
    Hex(b, 2)
  }

  /** The hex cells of a chunk, one per byte. */
  function HexCells(chunk: seq<byte>): (cells: seq<string>)
    ensures |cells| == |chunk|
  {
    seq(|chunk|, i requires 0 <= i < |chunk| => HexByte(chunk[i]))
  }

  /** `" ".join(f"{b:02X}" for b in chunk)`. */
  function HexColumn(chunk: seq<byte>): string {
    JoinWith(" ", HexCells(chunk))
  }

  lemma HexByteShape(b: byte)
    ensures |HexByte(b)| == 2 && ParseHex(HexByte(b)) == b
  {
    HexWidth(b, 2);
    HexRoundTrip(b, 2);
  }

  /** The hex column is three characters per byte less the last separator:
      the two characters at 3k are upper-case hexadecimal digits that read back
      as byte k, and a space follows every cell but the last. */
  lemma HexColumnShape(chunk: seq<byte>)
    ensures |chunk| == 0 ==> HexColumn(chunk) == ""
    ensures |chunk| > 0 ==> |HexColumn(chunk)| == 3 * |chunk| - 1
    ensures forall k :: 0 <= k < |chunk| ==> ParseHex(HexColumn(chunk)[3 * k..3 * k + 2]) == chunk[k]
    ensures forall k :: 0 <= k < |chunk| ==>
              IsUpperHexDigit(HexColumn(chunk)[3 * k]) && IsUpperHexDigit(HexColumn(chunk)[3 * k + 1])
    ensures forall k :: 0 <= k < |chunk| - 1 ==> HexColumn(chunk)[3 * k + 2] == ' '
  {
    HexColumnValues(chunk);
    HexColumnCells(chunk);
  }

  /** The length of the hex column, and cell k reads back as byte k. */
  lemma {:induction false} HexColumnValues(chunk: seq<byte>)
    ensures |chunk| == 0 ==> HexColumn(chunk) == ""
    ensures |chunk| > 0 ==> |HexColumn(chunk)| == 3 * |chunk| - 1
    ensures forall k :: 0 <= k < |chunk| ==> ParseHex(HexColumn(chunk)[3 * k..3 * k + 2]) == chunk[k]
  {
    if |chunk| > 0 {
      HexByteShape(chunk[0]);
      var h := HexByte(chunk[0]);
      if |chunk| == 1 {
        assert HexColumn(chunk) == h;
        assert h[0..2] == h;
      } else {
        var rest := chunk[1..];
        HexColumnValues(rest);
        assert HexCells(chunk)[1..] == HexCells(rest);
        var col := HexColumn(chunk);
        assert col == h + " " + HexColumn(rest);
        forall k | 0 <= k < |chunk| ensures ParseHex(col[3 * k..3 * k + 2]) == chunk[k] {
          if k == 0 {
            assert col[0..2] == h;
          } else {
            assert col[3 * k..3 * k + 2] == HexColumn(rest)[3 * (k - 1)..3 * (k - 1) + 2];
          }
        }
      }
    }
  }

  /** The characters of the hex column: two upper-case digits per byte,
      separated by single spaces. */
  lemma {:induction false} HexColumnCells(chunk: seq<byte>)
    ensures |chunk| > 0 ==> |HexColumn(chunk)| == 3 * |chunk| - 1
    ensures forall k :: 0 <= k < |chunk| ==>
              IsUpperHexDigit(HexColumn(chunk)[3 * k]) && IsUpperHexDigit(HexColumn(chunk)[3 * k + 1])
    ensures forall k :: 0 <= k < |chunk| - 1 ==> HexColumn(chunk)[3 * k + 2] == ' '
  {
    if |chunk| > 0 {
      HexCellChars(chunk[0]);
      var h := HexByte(chunk[0]);
      if |chunk| == 1 {
        assert HexColumn(chunk) == h;
      } else {
        var rest := chunk[1..];
        HexColumnCells(rest);
        HexColumnCons(chunk);
        CellsCons(h, HexColumn(rest), |rest|);
      }
    }
  }

  /** col holds n cells: two upper-case digits each, separated by spaces. */
  ghost predicate CellLayout(col: string, n: nat) {
    && |col| == 3 * n - 1
    && (forall k :: 0 <= k < n ==> IsUpperHexDigit(col[3 * k]) && IsUpperHexDigit(col[3 * k + 1]))
    && (forall k :: 0 <= k < n - 1 ==> col[3 * k + 2] == ' ')
  }

  /** A cell, a space and a layout of n cells make a layout of n + 1 cells. */
  lemma CellsCons(h: string, r: string, n: nat)
    requires |h| == 2 && IsUpperHexDigit(h[0]) && IsUpperHexDigit(h[1])
    requires n > 0 && CellLayout(r, n)
    ensures CellLayout(h + " " + r, n + 1)
  {
    var col := h + " " + r;
    forall k | 1 <= k < n + 1
      ensures IsUpperHexDigit(col[3 * k]) && IsUpperHexDigit(col[3 * k + 1])
      ensures k < n ==> col[3 * k + 2] == ' '
    {
      assert col[3 * k] == r[3 * (k - 1)] && col[3 * k + 1] == r[3 * (k - 1) + 1];
      if k < n {
        assert col[3 * k + 2] == r[3 * (k - 1) + 2];
      }
    }
    assert col[0] == h[0] && col[1] == h[1] && col[2] == ' ';
  }

  /** A cell is two upper-case hexadecimal digits. */
  lemma HexCellChars(b: byte)
    ensures |HexByte(b)| == 2 && IsUpperHexDigit(HexByte(b)[0]) && IsUpperHexDigit(HexByte(b)[1])
  {
    HexWidth(b, 2);
    HexUpper(b, 2);
  }

  /** The column of several bytes is the first cell, a space, and the column
      of the rest. */
  lemma HexColumnCons(chunk: seq<byte>)
    requires |chunk| > 1
    ensures HexColumn(chunk) == HexByte(chunk[0]) + " " + HexColumn(chunk[1..])
  {
    assert HexCells(chunk)[1..] == HexCells(chunk[1..]);
  }

  /** `chr(b) if 32 <= b < 127 else "."`. */
  function AsciiChar(b: byte): char {
    if 32 <= b < 127 then b as char else '.'
  }

  /** The ASCII column: one character per byte. */
  function AsciiColumn(chunk: seq<byte>): (s: string)
    ensures |s| == |chunk|
  {
    seq(|chunk|, i requires 0 <= i < |chunk| => AsciiChar(chunk[i]))
  }

  /** Each byte shows as itself when printable and as `.` otherwise, so the
      column is always printable. */
  lemma AsciiColumnShows(chunk: seq<byte>)
    ensures forall i :: 0 <= i < |chunk| && IsPrintable(chunk[i]) ==> AsciiColumn(chunk)[i] as int == chunk[i]
    ensures forall i :: 0 <= i < |chunk| && !IsPrintable(chunk[i]) ==> AsciiColumn(chunk)[i] == '.'
    ensures forall i :: 0 <= i < |chunk| ==> IsPrintable(AsciiColumn(chunk)[i] as int)
  {
  }

  /** `f"{s:<w}"`: s left-justified in a field of at least w characters. */
  function PadRight(s: string, w: nat): string {
    if |s| >= w then s else s + Repeat(' ', w - |s|)
  }

  /** Python's `data[:m]`, a negative m counting from the end. */
  function Head(data: seq<byte>, m: int): (d: seq<byte>)
    ensures |d| <= |data| && d == data[..|d|]
  {
    if m >= 0 then (if m < |data| then data[..m] else data)
    else if |data| + m > 0 then data[..|data| + m] else []
  }

  /** The number of rows: one per started 16-byte chunk. */
  function NumRows(n: nat): nat {
    (n + Width - 1) / Width
  }

  /** Row k: `data[16k : 16k + 16]`. */
  function Row(d: seq<byte>, k: nat): seq<byte>
    requires k < NumRows(|d|)
  {
    if 16 * k + 16 <= |d| then d[16 * k..16 * k + 16] else d[16 * k..]
  }

  function Rows(d: seq<byte>): (rows: seq<seq<byte>>)
    ensures |rows| == NumRows(|d|)
  {
    seq(NumRows(|d|), k requires 0 <= k < NumRows(|d|) => Row(d, k))
  }

  /** The bytes of the rows, in order. */
  function Concat(rows: seq<seq<byte>>): seq<byte> {
    if |rows| == 0 then [] else Concat(rows[..|rows| - 1]) + rows[|rows| - 1]
  }

  lemma {:induction false} ConcatRows(d: seq<byte>, k: nat)
    requires k <= NumRows(|d|)
    ensures Concat(Rows(d)[..k]) == if 16 * k <= |d| then d[..16 * k] else d
  {
    if k > 0 {
      var rows := Rows(d);
      assert rows[..k][..k - 1] == rows[..k - 1];
      ConcatRows(d, k - 1);
    }
  }

  /** The rows cut the data exactly: they concatenate back to it, every row
      but the last holds 16 bytes, and the last one holds the remainder (a
      partial row exists only when 16 does not divide the length). */
  lemma RowsPartition(d: seq<byte>)
    ensures Concat(Rows(d)) == d
    ensures forall k :: 0 <= k < |Rows(d)| - 1 ==> |Rows(d)[k]| == 16
    ensures |Rows(d)| > 0 ==> |Rows(d)[|Rows(d)| - 1]| == (if |d| % 16 == 0 then 16 else |d| % 16)
    ensures |Rows(d)| == 0 <==> |d| == 0
  {
    ConcatRows(d, NumRows(|d|));
    assert Rows(d)[..NumRows(|d|)] == Rows(d);
  }

  /** A line of `hexdump`: `f"{i:08X}: {hex_part:<47}  {ascii_part}"`. */
  function OffsetLine8(off: nat, chunk: seq<byte>): string {
    Hex(off, 8) + ": " + PadRight(HexColumn(chunk), 47) + "  " + AsciiColumn(chunk)
  }

  /** A line of `hex_dump`: `f"{i:04X}  {hexs:<{width*3}}  {ascii_s}"`. */
  function OffsetLine4(off: nat, chunk: seq<byte>): string {
    Hex(off, 4) + "  " + PadRight(HexColumn(chunk), 3 * Width) + "  " + AsciiColumn(chunk)
  }

  /** A line of the generator: `"{:<48}  {}".format(hex, ascii)`. */
  function PlainLine(chunk: seq<byte>): string {
    PadRight(HexColumn(chunk), 48) + "  " + AsciiColumn(chunk)
  }

  function Dump8(d: seq<byte>): (lines: seq<string>)
    ensures |lines| == NumRows(|d|)
  {
    seq(NumRows(|d|), k requires 0 <= k < NumRows(|d|) => OffsetLine8(16 * k, Row(d, k)))
  }

  function Dump4(d: seq<byte>): (lines: seq<string>)
    ensures |lines| == NumRows(|d|)
  {
    seq(NumRows(|d|), k requires 0 <= k < NumRows(|d|) => OffsetLine4(16 * k, Row(d, k)))
  }

  function DumpPlain(d: seq<byte>): (lines: seq<string>)
    ensures |lines| == NumRows(|d|)
  {
    seq(NumRows(|d|), k requires 0 <= k < NumRows(|d|) => PlainLine(Row(d, k)))
  }

  /** Row k starts at byte 16k and ends at the next multiple of 16 or at the
      end of the data, whichever comes first. */
  lemma RowAt(d: seq<byte>, k: nat)
    requires 16 * k < |d|
    ensures k < NumRows(|d|)
    ensures Row(d, k) == d[16 * k..if 16 * k + 16 < |d| then 16 * k + 16 else |d|]
  {
  }

  /** Once 16k reaches the end, all rows have been seen. */
  lemma RowsDone(d: seq<byte>, k: nat)
    requires k <= NumRows(|d|) && |d| <= 16 * k
    ensures k == NumRows(|d|)
  {
  }

  /** Lines for the first k rows, with 16k past the end, are all the lines. */
  lemma Done8(d: seq<byte>, k: nat, lines: seq<string>)
    requires k <= NumRows(|d|) && |d| <= 16 * k && lines == Dump8(d)[..k]
    ensures lines == Dump8(d)
  {
    RowsDone(d, k);
    assert Dump8(d)[..k] == Dump8(d);
  }

  /** The same for the 4-digit lines. */
  lemma Done4(d: seq<byte>, k: nat, lines: seq<string>)
    requires k <= NumRows(|d|) && |d| <= 16 * k && lines == Dump4(d)[..k]
    ensures lines == Dump4(d)
  {
    RowsDone(d, k);
    assert Dump4(d)[..k] == Dump4(d);
  }

  /** The same for the generator's lines. */
  lemma DonePlain(d: seq<byte>, lines: seq<string>)
    requires |lines| <= NumRows(|d|) && |d| <= 16 * |lines| && lines == DumpPlain(d)[..|lines|]
    ensures lines == DumpPlain(d)
  {
    RowsDone(d, |lines|);
    assert DumpPlain(d)[..|lines|] == DumpPlain(d);
  }

  /** Appending the 8-digit line of row k to the first k lines gives the
      first k + 1. */
  lemma EmitRow8(d: seq<byte>, k: nat, lines: seq<string>, chunk: seq<byte>)
    requires 16 * k < |d| && lines == Dump8(d)[..k]
    requires chunk == d[16 * k..if 16 * k + 16 < |d| then 16 * k + 16 else |d|]
    ensures k < NumRows(|d|)
    ensures lines + [OffsetLine8(16 * k, chunk)] == Dump8(d)[..k + 1]
  {
    RowAt(d, k);
  }

  /** The same for the 4-digit lines. */
  lemma EmitRow4(d: seq<byte>, k: nat, lines: seq<string>, chunk: seq<byte>)
    requires 16 * k < |d| && lines == Dump4(d)[..k]
    requires chunk == d[16 * k..if 16 * k + 16 < |d| then 16 * k + 16 else |d|]
    ensures k < NumRows(|d|)
    ensures lines + [OffsetLine4(16 * k, chunk)] == Dump4(d)[..k + 1]
  {
    RowAt(d, k);
  }

  /** `hexdump(data, max_bytes)` (the list-returning one). */
  method HexdumpLines(data: seq<byte>, maxBytes: int) returns (lines: seq<string>)
    ensures lines == Dump8(Head(data, maxBytes))
  {
    var d := Head(data, maxBytes);
    lines := [];
    var i := 0;
    ghost var k := 0;
    while i < |d|
      invariant i == 16 * k && k <= NumRows(|d|)
      invariant lines == Dump8(d)[..k]
      decreases |d| - i
    {
      var end := if i + Width < |d| then i + Width else |d|;
      var chunk := d[i..end];
      EmitRow8(d, k, lines, chunk);
      lines := lines + [OffsetLine8(i, chunk)];
      i := i + Width;
      k := k + 1;
    }
    Done8(d, k, lines);
  }

  /** `hex_dump(data, limit=...)`: the lines joined by newlines. */
  method HexDumpText(data: seq<byte>, limit: Option<int>) returns (text: string)
    ensures text == JoinWith("\n", Dump4(if limit.Some? then Head(data, limit.value) else data))
  {
    var d := if limit.Some? then Head(data, limit.value) else data;
    var lines: seq<string> := [];
    var i := 0;
    ghost var k := 0;
    while i < |d|
      invariant i == 16 * k && k <= NumRows(|d|)
      invariant lines == Dump4(d)[..k]
      decreases |d| - i
    {
      var end := if i + Width < |d| then i + Width else |d|;
      var chunk := d[i..end];
      EmitRow4(d, k, lines, chunk);
      lines := lines + [OffsetLine4(i, chunk)];
      i := i + Width;
      k := k + 1;
    }
    Done4(d, k, lines);
    text := JoinWith("\n", lines);
  }

  /** Adding a byte adds its hex cell and its ASCII character. */
  lemma PartsStep(x: seq<byte>, b: byte)
    ensures HexCells(x + [b]) == HexCells(x) + [HexByte(b)]
    ensures AsciiColumn(x + [b]) == AsciiColumn(x) + [AsciiChar(b)]
  {
  }

  /** Appending the line of row k to the first k lines gives the first k + 1. */
  lemma EmitRow(d: seq<byte>, k: nat, lines: seq<string>)
    requires k < NumRows(|d|) && lines == DumpPlain(d)[..k]
    ensures lines + [PlainLine(Row(d, k))] == DumpPlain(d)[..k + 1]
  {
  }

  /** The parts of d[s..i + 1] are those of d[s..i] and those of byte i. */
  lemma PartsGrow(d: seq<byte>, s: nat, i: nat)
    requires s <= i < |d|
    ensures HexCells(d[s..i + 1]) == HexCells(d[s..i]) + [HexByte(d[i])]
    ensures AsciiColumn(d[s..i + 1]) == AsciiColumn(d[s..i]) + [AsciiChar(d[i])]
  {
    assert d[s..i + 1] == d[s..i] + [d[i]];
    PartsStep(d[s..i], d[i]);
  }

  /** A full row, or the partial row at the end, emitted after the first
      lines gives the next line of the dump. */
  lemma EmitPlain(d: seq<byte>, s: nat, e: nat, lines: seq<string>, hex: seq<string>, ascii: string)
    requires s == 16 * |lines| && s < e <= |d| && (e == s + 16 || (e == |d| && e < s + 16))
    requires lines == DumpPlain(d)[..|lines|]
    requires hex == HexCells(d[s..e]) && ascii == AsciiColumn(d[s..e])
    ensures |lines| < NumRows(|d|)
    ensures lines + [PadRight(JoinWith(" ", hex), 48) + "  " + ascii] == DumpPlain(d)[..|lines| + 1]
  {
    RowAt(d, |lines|);
    assert Row(d, |lines|) == d[s..e];
    EmitRow(d, |lines|, lines);
  }

  /** The `hexdump` generator: collects hex and ASCII parts byte by byte,
      emits a line after every 16th byte and once more for a partial row. */
  method HexdumpRows(data: seq<byte>, maxBytes: int) returns (lines: seq<string>)
    ensures lines == DumpPlain(Head(data, maxBytes))
  {
    var d := Head(data, maxBytes);
    var hexParts: seq<string> := [];
    var asciiParts: string := [];
    lines := [];
    ghost var s := 0;
    for i := 0 to |d|
      invariant s == 16 * |lines| && s <= i && i - s < 16
      invariant |lines| <= NumRows(|d|)
      invariant lines == DumpPlain(d)[..|lines|]
      invariant hexParts == HexCells(d[s..i])
      invariant asciiParts == AsciiColumn(d[s..i])
    {
      PartsGrow(d, s, i);
      hexParts := hexParts + [HexByte(d[i])];
      asciiParts := asciiParts + [AsciiChar(d[i])];
      if (i + 1) % 16 == 0 {
        EmitPlain(d, s, i + 1, lines, hexParts, asciiParts);
        lines := lines + [PadRight(JoinWith(" ", hexParts), 48) + "  " + asciiParts];
        hexParts := [];
        asciiParts := [];
        s := i + 1;
      }
    }
    if |hexParts| > 0 {
      EmitPlain(d, s, |d|, lines, hexParts, asciiParts);
      lines := lines + [PadRight(JoinWith(" ", hexParts), 48) + "  " + asciiParts];
    }
    DonePlain(d, lines);
  }

  /** A line made of five fields starts with the first and ends with the
      last. */
  lemma Fields(h: string, sep1: string, col: string, sep2: string, a: string)
    ensures (h + sep1 + col + sep2 + a)[..|h|] == h
    ensures EndsWith(h + sep1 + col + sep2 + a, a)
  {
    var line := h + sep1 + col + sep2 + a;
    assert line[|line| - |a|..] == a;
  }

  lemma Pow16Values()
    ensures Pow16(4) == 0x1_0000 && Pow16(8) == 0x1_0000_0000
  {
    assert Pow16(4) == 0x1_0000;
    assert Pow16(8) == Pow16(4) * 0x1_0000;
  }

  /** The offset field of an 8-digit line is eight upper-case hexadecimal
      digits that read back as the offset, and the line ends with the row's
      ASCII column. */
  lemma OffsetLine8Shape(off: nat, chunk: seq<byte>)
    ensures off < 0x1_0000_0000 ==> ParseHex(OffsetLine8(off, chunk)[..8]) == off
    ensures off < 0x1_0000_0000 ==> forall i :: 0 <= i < 8 ==> IsUpperHexDigit(OffsetLine8(off, chunk)[i])
    ensures EndsWith(OffsetLine8(off, chunk), AsciiColumn(chunk))
  {
    var h := Hex(off, 8);
    Fields(h, ": ", PadRight(HexColumn(chunk), 47), "  ", AsciiColumn(chunk));
    if off < 0x1_0000_0000 {
      Pow16Values();
      HexWidth(off, 8);
      HexRoundTrip(off, 8);
      HexUpper(off, 8);
      forall i | 0 <= i < 8 ensures IsUpperHexDigit(OffsetLine8(off, chunk)[i]) {
        assert OffsetLine8(off, chunk)[i] == OffsetLine8(off, chunk)[..8][i] == h[i];
      }
    }
  }

  /** The same for a 4-digit line of `hex_dump`. */
  lemma OffsetLine4Shape(off: nat, chunk: seq<byte>)
    ensures off < 0x1_0000 ==> ParseHex(OffsetLine4(off, chunk)[..4]) == off
    ensures off < 0x1_0000 ==> forall i :: 0 <= i < 4 ==> IsUpperHexDigit(OffsetLine4(off, chunk)[i])
    ensures EndsWith(OffsetLine4(off, chunk), AsciiColumn(chunk))
  {
    var h := Hex(off, 4);
    Fields(h, "  ", PadRight(HexColumn(chunk), 3 * Width), "  ", AsciiColumn(chunk));
    if off < 0x1_0000 {
      Pow16Values();
      HexWidth(off, 4);
      HexRoundTrip(off, 4);
      HexUpper(off, 4);
      forall i | 0 <= i < 4 ensures IsUpperHexDigit(OffsetLine4(off, chunk)[i]) {
        assert OffsetLine4(off, chunk)[i] == OffsetLine4(off, chunk)[..4][i] == h[i];
      }
    }
  }

  /** A generator line starts with the row's hex column, padded to 48
      characters, and ends with its ASCII column. */
  lemma PlainLineShape(chunk: seq<byte>)
    ensures |chunk| <= 16 ==> PlainLine(chunk)[..48] == PadRight(HexColumn(chunk), 48)
    ensures EndsWith(PlainLine(chunk), AsciiColumn(chunk))
  {
    HexColumnShape(chunk);
  }
}
