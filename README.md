# Revit RFA stream decoders, modelled in Dafny

The repository is a set of near-duplicate Python scripts. Each one pulls readable data out of a
single stream of a Revit family (`.rfa`) container: BasicFileInfo, Contents, Formats/Latest,
Global/ContentDocuments and Global/DocumentIncrementTable. Stripped of their console output and
file handling, the scripts share five families of byte and text logic. This project models all
five as Dafny modules, with one module per family and the per-script differences as parameters or
separate members:

- `Carver` models the carver `find_and_decompress_gzip`. It scans for the gzip magic `1F 8B 08`
  (ID1, ID2 and CM = 8 of section 2.3.1 of RFC 1952). For each occurrence it tries end offsets from
  the end of the blob downward and keeps the first slice that decompresses. Decompression is a
  parameter of the model: an arbitrary function from bytes to an optional result.
- `Gzip` models the member header walk of section 2.3 of RFC 1952, in both variants of
  `parse_gzip_header`. It also covers the trailer rule of `decompress_gzip_raw` and the payload
  slice of `decompress_gzip_ignore_crc`.
- `Scanners` models the byte-level text scanners:
  - printable ASCII runs;
  - UTF-16LE runs at alignment 0 and 1, with de-duplication;
  - length-prefixed ASCII records (a 16-bit count);
  - length-prefixed UTF-16LE records (a 32-bit count, bounded by 4096).
- `Utf16` models UTF-16 decoding, and `Lines` the text cleanup built on it:
  - the "ASCII-ish" reduction;
  - `decode_full_utf16le`;
  - `clean_line` and `extract_paths`;
  - the key/value split.
- `Tables` models the little-endian integer tables. `Hexdump` models the three hex-dump formats.
- `Guids` and `Metadata` model the metadata heuristics:
  - GUID recognition;
  - the first-match token searches for version, build, original path and platform bits;
  - `parse_kv_lines`, with its snake-case keys;
  - the `format` fallback;
  - the author and build guesses made from a Contents stream.

`Wrappers`, `Bytes`, `Seqs` and `Text` hold the shared vocabulary:
- `Option`/`Result`;
- bytes and little-endian reads;
- `Filter`, `Map`, `Segments` (what `split` cuts), `Dedup` and first-match search;
- Python's `str.strip`, `str.split`, `lower`, `in`, `join`, string order and `sorted(set(...))`.

Most loops of the scripts are methods with loop invariants, proved equal to a function that states
what they compute. A few short filtering loops, such as the `for`/`append` loop of
`extract_paths`, are modelled by that function alone (`Filter`). Lemmas about those functions
state what the scripts promise: maximal runs, first matches, bounds, round trips and shapes.

Three facts about the code that the model keeps:
- The carver does not stop at the first magic occurrence. When no end offset works for one
  occurrence, it moves on to the next.
- The carver never tries an end below `start + 11`.
- No CRC is ever computed. The trailer's CRC32 and ISIZE are only read.

## Model

| member | source | states |
|---|---|---|
| Carver.FindAndDecompressGzip | Global_DocumentIncrementTable_Decode_V1.py:118-141 | On success, `1F 8B 08` sits at the returned start and `start + 10 < end <= len`. The slice decompresses to the returned bytes. No larger end for that start decompresses, and no earlier magic offset has any end that does. The result is None exactly when no magic offset has a decompressing end. The same function appears in Contents_Decode_V2.py:104-125, Contents_Decode_V1.py:86-107 and Global_ContentDocuments_Decode_V2.py:49-72 |
| Carver.FirstCarveUnique | Global_DocumentIncrementTable_Decode_V1.py:128-139 | The "first success" contract fixes the answer: two carves that both satisfy it are equal |
| Carver.NoMagicNoCarve | Global_DocumentIncrementTable_Decode_V1.py:126-141 | A blob without `1F 8B 08` anywhere (including one under 3 bytes) yields no carve |
| Gzip.ParseHeader | Global_ContentDocuments_Decode_V3.py:38-81 | The cursor walk returns exactly the header that the field-by-field definition of RFC 1952 section 2.3 gives, including its errors |
| Gzip.ReadField | Global_ContentDocuments_Decode_V3.py:57-68 | A present FNAME/FCOMMENT field is read up to its zero byte, and the cursor moves one past that byte. An absent field leaves the cursor where it was |
| Gzip.HeaderErrors | Global_ContentDocuments_Decode_V3.py:39-52 | The header is refused as not gzip exactly when it is under 10 bytes or does not start with `1F 8B`. It is refused as a bad FEXTRA exactly when FEXTRA is set with fewer than 2 bytes left. There are no other errors |
| Gzip.HeaderLayout | Global_ContentDocuments_Decode_V3.py:41-70 | The payload offset is 10, plus 2 + XLEN for FEXTRA, plus the name and the comment with their zero bytes, plus 2 for FHCRC, each only when its flag is set. Name and comment are present exactly when their flags are, and they contain no zero byte |
| Gzip.PayloadOffsetBounds | Global_ContentDocuments_Decode_V3.py:46-80 | The payload offset is at least 10, and exactly 10 when none of FEXTRA, FNAME, FCOMMENT and FHCRC is set |
| Gzip.ZeroTerminatedField | Global_ContentDocuments_Decode_V3.py:58-61 | The text of a zero-terminated field is the bytes before the zero (or before the end), none of them zero |
| Gzip.ParsePayloadOffset | Formats_Latest_Decode_V1.py:39-59 | The Formats decoder's walk returns the offset of its own definition, with the same errors |
| Gzip.PayloadStartAgrees | Formats_Latest_Decode_V1.py:39-59 | Both header walks agree: the Formats offset succeeds exactly when the ContentDocuments header does, equals its payload offset, and fails with the same error |
| Gzip.DecompressGzipRaw | Global_ContentDocuments_Decode_V3.py:84-106 | Header errors pass through, and a stream shorter than the payload offset plus 8 is refused as truncated. The result is a stream exactly when the header parses, the trailer fits and inflating the bytes from the payload offset succeeds; the output is that inflation. With at least 8 unused bytes, the trailer is `unused[:8]` and the extra bytes are `unused[8:]`. Otherwise the trailer is the last 8 bytes of the data and there are no extra bytes. CRC32 and ISIZE are the little-endian words at trailer offsets 0 and 4 |
| Gzip.DecompressIgnoreCrc | Formats_Latest_Decode_V1.py:62-68 | Succeeds exactly when the header parses, at least 8 bytes follow it, and the slice inflates. The slice inflated runs from the payload offset up to the 8-byte trailer, and the trailer is never checked |
| Scanners.AsciiStrings | Global_DocumentIncrementTable_Decode_V1.py:50-67 | The flush-on-break loop returns exactly the maximal runs of bytes in 32..126 of at least min_len, in order, including a final run. The same scan is Contents_Decode_V2.py:46-63, Contents_Decode_V1.py:66-83, Global_ContentDocuments_Decode_V3.py:109-121, Formats_Latest_Decode_V1.py:71-83 and _Extract_RFA_V2.py:45-67 |
| Scanners.PrintableRunsSound | Global_ContentDocuments_Decode_V3.py:109-121 | Every string found is at least min_len long, consists of printable characters, and is the text of a maximal printable run |
| Scanners.PrintableRunsComplete | Global_ContentDocuments_Decode_V3.py:109-121 | Every maximal printable run of at least min_len codes is found |
| Scanners.ScanFindsPrintableRuns | Formats_Latest_Decode_V1.py:71-83 | The run accumulator with its final flush yields exactly the long maximal runs |
| Scanners.Utf16LeStrings | Global_ContentDocuments_Decode_V3.py:124-140 | The scan examines the 16-bit units at offsets start, start + 2, and so on; a final odd byte is ignored. A unit extends a run exactly when its low byte is in 32..126 and its high byte is 0. The result is the maximal runs of at least min_len, in order. The same scan is Formats_Latest_Decode_V1.py:86-102, BasicFileInfo_Decode_V1.py:19-39, BasicFileInfo_Decode_V4.py:19-39 and BasicFileInfo_Decode_V5.py:23-44 |
| Scanners.UnitAt | Global_ContentDocuments_Decode_V3.py:128-132 | Unit k from start is the little-endian pair at start + 2k. It exists exactly when that pair lies inside the data, and it is printable exactly when the low byte is printable and the high byte is 0 |
| Scanners.Utf16LeStringsAllAlignments | Global_DocumentIncrementTable_Decode_V1.py:70-104 | The runs at alignment 0, then those at alignment 1, de-duplicated in first-occurrence order. The result is duplicate-free, holds every run of both passes, and every element is a long printable run of one of them. The same function is Contents_Decode_V2.py:66-101 |
| Seqs.KeepFirstOccurrences | Global_DocumentIncrementTable_Decode_V1.py:97-104 | The `seen`-set loop computes Dedup |
| Seqs.DedupProperties | Global_DocumentIncrementTable_Decode_V1.py:97-104 | Dedup keeps exactly the input's elements, each once, ordered by first occurrence |
| Scanners.FindLengthPrefixedAscii | Formats_Latest_Decode_V1.py:105-121 | The offset loop with its `seen` set computes the scan: each record's text, at the first offset where it occurs |
| Scanners.PrefixedScanProperties | Formats_Latest_Decode_V1.py:106-121 | Offsets strictly increase, and the strings are pairwise distinct. Each entry `(i, s)` has `L = data[i] + 256*data[i+1]` with `min_len <= L <= max_len` and `i + 2 + L <= len`, and `s` is the L printable bytes after the count. Every qualifying offset's text is reported, at its first qualifying offset |
| Scanners.DecodeLengthPrefixedUtf16 | BasicFileInfo_Decode_V1.py:42-68 | The cursor loop reads a little-endian 32-bit count and advances 4; a zero count gives `""`. It stops when fewer than 4 bytes remain, when the count exceeds max_len, or when the record overruns the data. Otherwise it decodes exactly the `2*count` bytes and moves on. Exactly one string is produced per record read. The same function is BasicFileInfo_Decode_V4.py:42-67 |
| Scanners.RecordsBounded | BasicFileInfo_Decode_V1.py:51-61 | No record string is longer than max_len characters |
| Scanners.RecordsFirstTooLong | BasicFileInfo_Decode_V4.py:45-55 | When the first count is non-zero and above max_len, or its units run past the end of the data, the result is empty |
| Scanners.FrameRoundTrip | BasicFileInfo_Decode_V1.py:45-61 | Reading back a list of strings framed as count plus UTF-16LE (none longer than max_len) gives the list |
| Scanners.ChunksShift | BasicFileInfo_Decode_V4.py:45-61 | The records after a prefix do not depend on the bytes before them |
| Utf16.DecodeEncodeLE | BasicFileInfo_Decode_V1.py:71-75 | Decoding the UTF-16LE encoding of a string gives the string back |
| Utf16.DecodeUnitsLength | BasicFileInfo_Decode_V1.py:71-75 | Decoding never yields more characters than there are 16-bit units |
| Tables.ParseUintsLe | Global_DocumentIncrementTable_Decode_V1.py:35-47 | The index loop computes the table of `min(max_count, len // unit)` entries. Entry i is `(i*unit, value at i*unit)`, read as 16 bits for unit 2 and as 32 bits for unit 4, the only units the function accepts. The same function is Global_ContentDocuments_Decode_V2.py:34-46 |
| Tables.ParseHeaderUint32Le | Contents_Decode_V2.py:35-43 | The 32-bit table with at most max_count entries. The same function is Contents_Decode_V1.py:35-43 |
| Tables.UintTableProperties | Global_DocumentIncrementTable_Decode_V1.py:35-47 | The table has `min(max_count, len // unit)` entries, and none when max_count is negative. Entry i sits at offset `i*unit` and fits in the width. Writing it back gives the bytes it was read from |
| Tables.InspectUint32Pairs | Global_DocumentIncrementTable_Decode_V1.py:144-156 | The loop computes `min(max_pairs, len // 8)` entries; entry i is `(8i, LE u32 at 8i, LE u32 at 8i + 4)` |
| Tables.PairsAreTableEntries | Global_DocumentIncrementTable_Decode_V1.py:144-156 | The pair count is `min(max_pairs, len // 8)`, and pair i is entries 2i and 2i + 1 of the 32-bit table |
| Tables.FormatU16List | Global_ContentDocuments_Decode_V3.py:143-147 | The loop returns the `len // 2` little-endian 16-bit units |
| Tables.U16ListValues | Global_ContentDocuments_Decode_V3.py:143-147 | There are `len // 2` values, and value k is `data[2k] + 256*data[2k+1]` |
| Tables.FormatU32List | Global_ContentDocuments_Decode_V3.py:150-154 | The loop returns the `len // 4` little-endian 32-bit words, word k being entry k of the 32-bit table |
| Hexdump.HexdumpLines | Global_ContentDocuments_Decode_V3.py:27-35 | The loop returns the 8-digit-offset line of every 16-byte row of `data[:max_bytes]`. The same function is Formats_Latest_Decode_V1.py:28-36 |
| Hexdump.HexDumpText | Global_ContentDocuments_Decode_V2.py:21-31 | The 4-digit-offset lines of the rows of the limited data, joined by newlines. The same function is Global_DocumentIncrementTable_Decode_V1.py:22-32 |
| Hexdump.HexdumpRows | _Extract_RFA_V2.py:25-42 | The generator, which collects parts byte by byte and emits every 16 bytes and once more for a remainder, yields exactly the line of every row of `data[:max_bytes]` |
| Hexdump.RowsPartition | Formats_Latest_Decode_V1.py:28-36 | There are `ceil(n/16)` rows, and they concatenate back to the data. Every row but the last has 16 bytes; the last has the remainder, or 16 when there is none |
| Hexdump.AsciiColumnShows | _Extract_RFA_V2.py:31-33 | The ASCII column has one character per byte: the byte itself when it is in 32..126, `.` otherwise |
| Hexdump.HexColumnShape | Global_ContentDocuments_Decode_V3.py:32 | The hex column has three characters per byte, less the last separator. Cell k is two upper-case hexadecimal digits that read back as byte k, and a space follows every cell but the last |
| Hexdump.OffsetLine8Shape | Global_ContentDocuments_Decode_V3.py:32-34 | The first 8 characters of a line are upper-case hexadecimal digits that read back as its offset (below 2^32), and the line ends with its ASCII column |
| Hexdump.OffsetLine4Shape | Global_ContentDocuments_Decode_V2.py:27-30 | The first 4 characters are upper-case hexadecimal digits that read back as the offset (below 2^16), and the line ends with its ASCII column |
| Hexdump.PlainLineShape | _Extract_RFA_V2.py:37-42 | A generator line starts with the row's hex column padded to 48 and ends with its ASCII column |
| Hexdump.HexRoundTrip | Global_ContentDocuments_Decode_V3.py:32-34 | Hexadecimal formatting of a number reads back as the number |
| Hexdump.HexWidth | Global_ContentDocuments_Decode_V3.py:33 | A formatted number has at least the field width, exactly that width when it fits, and is never cut |
| Lines.AsciiishFromUtf16 | BasicFileInfo_Decode_V2.py:35-58 | The character loop and the two collapses compute the reduction of the decoded text. CR, LF (and TAB in this script) become newlines, 32..126 is kept, and every other character becomes a space. Runs of blanks collapse to one space, runs of newlines collapse to one newline, and the result is stripped. The same reduction, with TAB as a blank, is BasicFileInfo_Decode_V6.py:17-31 and Contents_Decode_V1.py:46-63 |
| Lines.AsciiishShape | BasicFileInfo_Decode_V6.py:17-31 | The output holds only 32..126 and newlines, never two spaces or two newlines in a row, and no whitespace at either end |
| Lines.AsciiishKeepsVisible | Contents_Decode_V1.py:50-63 | The visible (non-space printable) characters of the output are exactly those of the decoded text, in order |
| Lines.SqueezeNoDoubleRep | BasicFileInfo_Decode_V2.py:55-56 | After `re.sub(r"[class]+", rep, s)`, rep never occurs twice in a row |
| Lines.SqueezeFilter | BasicFileInfo_Decode_V2.py:55-56 | Collapsing runs changes no character outside the class |
| Lines.TextLinesShape | BasicFileInfo_Decode_V1.py:71-75 | Every line of `decode_full_utf16le` is non-empty, stripped, and free of NUL, CR and LF. The same function is BasicFileInfo_Decode_V4.py:71-75, BasicFileInfo_Decode_V5.py:47-52 and `parse_basic_file_info` in _Extract_RFA_V2.py:70-84 |
| Lines.TextLinesKeepInk | BasicFileInfo_Decode_V5.py:47-52 | The lines keep source order and lose nothing but whitespace and NULs: put back together, they hold the same non-whitespace characters as the text |
| Lines.CleanLine | BasicFileInfo_Decode_V1.py:78-84 | The loop keeps tab, space and 32..126, then strips |
| Lines.CleanedProperties | BasicFileInfo_Decode_V1.py:78-84 | A cleaned line holds only tab and 32..126, has no whitespace at either end, and cleaning it again changes nothing |
| Lines.ExtractPathsMembers | BasicFileInfo_Decode_V1.py:87-92 | The paths are exactly the lines containing `:\` or `:/`, as a sublist in original order: path k is line `idx[k]`, the positions strictly increase, and every line with a drive is at one of them, so repeated lines stay repeated |
| Lines.SplitKeyValueSpec | BasicFileInfo_Decode_V1.py:149-153 | A line without `:` is not split. Otherwise it is the raw key, the first `:` and the raw value, with no `:` in the raw key, and key and value are both stripped. The same split is BasicFileInfo_Decode_V4.py:120-125 and BasicFileInfo_Decode_V6.py:39-43 |
| Guids.FindGuidsSpec | Global_DocumentIncrementTable_Decode_V1.py:107-115 | `findall` reports GUID-shaped substrings at increasing, non-overlapping offsets, and every place where the pattern matches lies inside a reported match |
| Guids.ExtractGuidsSpec | Global_DocumentIncrementTable_Decode_V1.py:107-115 | `extract_guids` is strictly ascending (hence duplicate-free) and holds exactly the found matches. Each is a 36-character substring of the text with `-` at 8, 13, 18 and 23 and hex digits elsewhere, case kept. The same function is BasicFileInfo_Decode_V1.py:95-99, BasicFileInfo_Decode_V4.py:78-82 and BasicFileInfo_Decode_V5.py:55-63 |
| Guids.GuidTokenStrip | BasicFileInfo_Decode_V2.py:103-114 | A GUID token (with or without a trailing `$`) stripped of `$` is its first 36 characters, and those are GUID-shaped |
| Guids.TokenGuids | BasicFileInfo_Decode_V2.py:111-114 | The token loop collects the stripped GUID tokens in order |
| Guids.TokenGuidListSpec | BasicFileInfo_Decode_V2.py:103-114 | One GUID per GUID token, in token order, neither sorted nor de-duplicated: entry n is the first 36 characters of the n-th GUID token, and it is GUID-shaped |
| Metadata.FirstToken | BasicFileInfo_Decode_V5.py:75-85 | The first token satisfying the test, or None exactly when no token does |
| Metadata.PathEnd | BasicFileInfo_Decode_V5.py:87-99 | The path ends at the first token after the start whose lower-case form ends in `.rfa` or `.rvt`, or at the last token when there is none. The start token itself is never tested |
| Metadata.FindOriginalPath | BasicFileInfo_Decode_V5.py:87-99 | The loop from the first token with `:` and `\` appends tokens through the closing one and joins them with spaces. The key is absent exactly when no start token exists. The same loop is BasicFileInfo_Decode_V2.py:86-100 |
| Metadata.PathTokens | BasicFileInfo_Decode_V5.py:91-95 | The inner loop collects the start token and the tokens after it, through the first one ending in `.rfa` or `.rvt` (or to the last token when none does) |
| Metadata.TokenFields | BasicFileInfo_Decode_V5.py:75-117 | The version is the first 4-digit token and the build the first token with `_`, `(` and `)`. The path is as above. The platform bits are the value of the first `<digits>$` token. Each field is absent when no token qualifies |
| Metadata.RankSortedGuids | BasicFileInfo_Decode_V5.py:101-108 | Reading entries 0, 1 and 2.. of the sorted GUID set ranks them. The document GUID is the least found GUID, the session GUID the next, and the extras the rest in ascending order. Each key is absent exactly when too few GUIDs exist |
| Metadata.ParseMetadataFromLines | BasicFileInfo_Decode_V5.py:66-119 | The token fields of the space-joined lines, plus the GUIDs that `extract_guids` finds in that text, ranked as above |
| Metadata.ParseBasicFileInfoText | BasicFileInfo_Decode_V2.py:61-130 | The same token fields over the text's tokens. The document and session GUIDs are the first and second GUID tokens, in token order, each present exactly when that many exist, and there is no extra key |
| Metadata.SnakeKeyWellFormed | BasicFileInfo_Decode_V6.py:44 | A normalised key holds only `[0-9a-z_]`, with no `_` at either end and no `__` |
| Metadata.SnakeKeyIdentity | BasicFileInfo_Decode_V6.py:44 | A well-formed key normalises to itself |
| Metadata.SnakeKeyIdempotent | BasicFileInfo_Decode_V6.py:44 | Normalising a key twice is the same as normalising it once |
| Metadata.ParseKvLines | BasicFileInfo_Decode_V6.py:34-52 | The loop builds the dictionary of normalised keys from the lines with a colon, applies the `orksharing` rename, and collects the lines without a colon, in order, as leftovers |
| Metadata.AssignLastWins | BasicFileInfo_Decode_V6.py:45 | The last assignment to a key decides its value |
| Metadata.AssignKeys | BasicFileInfo_Decode_V6.py:45 | Every key in the dictionary was assigned by some entry |
| Metadata.KvMetaEntries | BasicFileInfo_Decode_V6.py:37-45 | A later line with the same normalised key overwrites an earlier one. Every key comes from some line with a colon |
| Metadata.LinesPartition | BasicFileInfo_Decode_V6.py:37-47 | A line contributes an entry exactly when it has a colon. The leftovers are exactly the lines without one, so each line lands in exactly one of the two |
| Metadata.RenameOrksharingSpec | BasicFileInfo_Decode_V6.py:49-50 | `worksharing` is present afterwards when either key was. It keeps its own value if it had one and takes the truncated key's otherwise. `orksharing` survives only beside `worksharing`, and no other key changes |
| Metadata.KvMetaKeysWellFormed | BasicFileInfo_Decode_V6.py:44-45 | Every key the lines assign is well formed |
| Metadata.ParsedKeysWellFormed | BasicFileInfo_Decode_V6.py:44-50 | Every key `parse_kv_lines` returns is well formed, including after the rename |
| Metadata.FirstYearFrom | BasicFileInfo_Decode_V6.py:91 | `re.search(r"\b(\d{4})\b")`: the leftmost position of four digits with no word character on either side, or None when there is none |
| Metadata.FormatFallbackSpec | BasicFileInfo_Decode_V6.py:90-93 | An existing `format` is kept. Otherwise `format` becomes the leftmost standalone 4-digit number of the little-endian text, and is absent when there is none. No other key changes |
| Metadata.AddFormatFallback | BasicFileInfo_Decode_V6.py:90-93 | The fallback statement computes the fallback |
| Metadata.DecodeBasicFileInfoV6 | BasicFileInfo_Decode_V6.py:78-93 | Both byte orders are reduced with TAB as a blank. The non-blank big-endian lines are parsed into keys and leftovers, and `format` falls back to the little-endian text |
| Metadata.DigitRun | Contents_Decode_V2.py:219 | The length of the longest run of ASCII digits from a position: all digits, followed by a non-digit or the end |
| Metadata.BuildFrom | Contents_Decode_V2.py:219-221 | `re.search` of `\b20[0-9]{6}_[0-9]{4}\(x[0-9]+\)`: a found stamp has that shape and is the text of a match at some position p, with the `\b` boundary before it, and no position before p matches, so it is the leftmost match. None means no position matches |
| Metadata.BuildPos | Contents_Decode_V2.py:219 | The search position is the leftmost one at which the pattern matches, or None when there is none |
| Metadata.FirstBuild | Contents_Decode_V2.py:217-222 | The build comes from the earliest string containing a stamp, and is None exactly when no string contains one |
| Metadata.ContentsCandidates | Contents_Decode_V2.py:215-222 | The author is the first UTF-16 string, or None when there is none. The build loop breaks at the first string with a stamp, and the build has the stamp's shape |
| Metadata.AuthorHintOnlyIf | Contents_Decode_V1.py:196-199 | When the hint fires, the name occurs at some offset of the joined text, and that occurrence lies inside one ASCII string, inside the reduced UTF-16 text, or covers one of the spaces the join adds. With AuthorHintFinds this characterises when the author is set |
| Metadata.SeparatorsAreSpaces | Contents_Decode_V1.py:196 | The positions counted as added spaces really are spaces of the joined text |
| Metadata.AuthorHintAcrossStrings | Contents_Decode_V1.py:196-198 | The name split over two ASCII strings (`xx David`, `Conant yy`) sets the author, though neither string nor the UTF-16 text contains it |
| Metadata.AuthorHintFinds | Contents_Decode_V1.py:196-199 | The hint fires whenever the name occurs in one of the ASCII strings or in the reduced UTF-16 text |
| Text.SortedSetProperties | Global_DocumentIncrementTable_Decode_V1.py:115 | `sorted(set(xs))` is strictly ascending and holds exactly the elements of xs |
| Text.TokensAreWords | BasicFileInfo_Decode_V5.py:73 | Every token of `str.split()` is non-empty and free of whitespace |

## Left out

- Console output, argument parsing, file reads and writes, JSON dumps and every `main()` apart from its selection logic: these are I/O. The selection logic that is modelled is the key/value split, the V6 line split and `format` fallback, and the Contents author and build guesses.
- The olefile stream enumeration of `_Extract_RFA_V2.py` and all of `RevitPreview4.0_Decode_V1.py` are not part of this model. They are I/O around a library and a single `find`.
- DEFLATE itself (`gzip.decompress`, `zlib.decompress`, `zlib.decompressobj`, RFC 1951) is a function parameter. `try_decompress_variants`, `scan_for_streams` and `heuristic_parse_block` are brute force around that function or printing only, and are not part of this model. No CRC is computed, so none is checked.
- Carver.FindAndDecompressGzip: any failure of the decompressor (an exception of any kind) is the parameter returning None.
- Utf16.Decode works at the level of 16-bit units. Valid surrogate pairs are combined; lone surrogates and a final odd byte are dropped, as `errors="ignore"` does. Python's other codec details are not modelled.
- The FNAME and FCOMMENT fields are decoded with Latin-1, one character per byte, which is what `decode("latin1")` does for every byte.
- `\d`, `\w`, `\b` and `str.isdigit()` are modelled as ASCII. That is exact on the reduced texts and printable runs these patterns are applied to. On the raw tokens of `parse_metadata_from_lines`, a non-ASCII Unicode digit would count as a digit in Python but not in the model.
- `str.lower()` is modelled as ASCII lower-casing. It is applied only to compare with `.rfa`/`.rvt` and to keys already reduced to ASCII letters and digits, where the two agree.
- Tables.ParseUintsLe: units other than 2 and 4 are not modelled. The docstring allows only these two, and every caller passes one of them.
- The hexdump width is fixed at 16, the default every caller uses. Other widths are not modelled.
- Scanners.DecodeLengthPrefixedUtf16: the printable-ratio test has the same statement in both branches, so it is modelled as one append. The strict decode with its `errors="ignore"` fallback always gives the `errors="ignore"` decode, because the strict decode succeeds only when nothing would be dropped. So it is modelled as that one decode.
- The `int()` ValueError branch of the platform-bits search is unreachable for ASCII digit strings, so it is not modelled. The Latin-1 fallback in `parse_basic_file_info` (_Extract_RFA_V2.py:77-78) is unreachable because the `errors="ignore"` decode never raises.
