/** The byte scanners: printable ASCII runs (`ascii_strings_from_bytes`,
    `extract_ascii_strings`), UTF-16LE runs of printable characters at one or
    both byte alignments (`extract_utf16le_strings`,
    `utf16le_strings_all_alignments`), and the length-prefixed record scanners
    (`find_length_prefixed_ascii`, `decode_length_prefixed_utf16le`). */
module Scanners {
  import opened Wrappers
  import opened Bytes
  import opened Seqs
  import Utf16

  /** `chr` of a code a run can hold (runs only ever hold printable codes). */
  function Chr(x: int): (c: char)
    ensures IsPrintable(x) ==> c as int == x
  {
    if IsPrintable(x) then x as char else ' '
  }

  /** The text of a run of printable codes. */
  function RunText(run: seq<int>): string {
    seq(|run|, i requires 0 <= i < |run| => Chr(run[i]))
  }

  /** The maximal runs of printable codes (32..126) that are at least minLen
      long, as text, in order. */
  function PrintableRuns(codes: seq<int>, minLen: nat): seq<string> {
    Map(RunText, LongOnly(Segments(codes, IsPrintable), minLen))
  }

  /** What PrintableRuns keeps: text of at least minLen printable characters,
      each the text of one printable run of the input. */
  lemma PrintableRunsSound(codes: seq<int>, minLen: nat)
    ensures forall t :: t in PrintableRuns(codes, minLen) ==>
              |t| >= minLen && forall j :: 0 <= j < |t| ==> IsPrintable(t[j] as int)
    ensures forall t :: t in PrintableRuns(codes, minLen) ==>
              exists run :: run in Segments(codes, IsPrintable) && |run| >= minLen && t == RunText(run)
  {
    var segs := Segments(codes, IsPrintable);
    var long := LongOnly(segs, minLen);
    LongOnlyMembers(segs, minLen);
    SegmentsDecompose(codes, IsPrintable);
    forall t | t in PrintableRuns(codes, minLen)
      ensures |t| >= minLen && forall j :: 0 <= j < |t| ==> IsPrintable(t[j] as int)
      ensures exists run :: run in segs && |run| >= minLen && t == RunText(run)
    {
      var runs := PrintableRuns(codes, minLen);
      var k :| 0 <= k < |runs| && runs[k] == t;
      var run := long[k];
      assert t == RunText(run);
      assert run in long;
      var m :| 0 <= m < |segs| && segs[m] == run;
      forall j | 0 <= j < |t| ensures IsPrintable(t[j] as int) {
        assert IsPrintable(segs[m][j]);
        assert t[j] == Chr(run[j]);
      }
      assert run in segs && |run| >= minLen;
    }
  }

  /** And what it finds: every maximal printable run of at least minLen codes. */
  lemma PrintableRunsComplete(codes: seq<int>, minLen: nat, a: nat, b: nat)
    requires a <= b <= |codes| && b - a >= minLen
    requires forall k :: a <= k < b ==> IsPrintable(codes[k])
    requires a == 0 || !IsPrintable(codes[a - 1])
    requires b == |codes| || !IsPrintable(codes[b])
    ensures RunText(codes[a..b]) in PrintableRuns(codes, minLen)
  {
    MaximalRunIsSegment(codes, IsPrintable, a, b);
    LongOnlyMembers(Segments(codes, IsPrintable), minLen);
    var long := LongOnly(Segments(codes, IsPrintable), minLen);
    var k :| 0 <= k < |long| && long[k] == codes[a..b];
    assert PrintableRuns(codes, minLen)[k] == RunText(codes[a..b]);
  }

  /** Closing a run: it is kept (as text) when it is at least minLen long. */
  function Flush(results: seq<string>, cur: seq<int>, minLen: nat): (r: seq<string>)
    ensures |cur| >= minLen ==> r == results + [RunText(cur)]
    ensures |cur| < minLen ==> r == results
  {
    if |cur| >= minLen then results + [RunText(cur)] else results
  }

  /** The state of the flush-on-break scan after reading codes: the texts
      kept so far and the run still open. */
  function RunScan(codes: seq<int>, minLen: nat): (seq<string>, seq<int>)
    decreases |codes|
  {
    if |codes| == 0 then ([], [])
    else
      var st := RunScan(codes[..|codes| - 1], minLen);
      var x := codes[|codes| - 1];
      if IsPrintable(x) then (st.0, st.1 + [x]) else (Flush(st.0, st.1, minLen), [])
  }

  /** One step of the run accumulator: a printable code extends the open run,
      any other code closes it (keeping it when long enough). */
  lemma RunStep(codes: seq<int>, i: nat, done: seq<seq<int>>, cur: seq<int>)
    requires i < |codes| && Segments(codes[..i], IsPrintable) == done + [cur]
    ensures IsPrintable(codes[i]) ==> Segments(codes[..i + 1], IsPrintable) == done + [cur + [codes[i]]]
    ensures !IsPrintable(codes[i]) ==> Segments(codes[..i + 1], IsPrintable) == (done + [cur]) + [[]]
  {
    assert codes[..i + 1][..i] == codes[..i];
  }

  lemma KeptStep(done: seq<seq<int>>, cur: seq<int>, minLen: nat)
    ensures Map(RunText, LongOnly(done + [cur], minLen)) == Flush(Map(RunText, LongOnly(done, minLen)), cur, minLen)
  {
    assert (done + [cur])[..|done|] == done;
    var l := LongOnly(done, minLen);
    if |cur| >= minLen {
      assert (l + [cur])[..|l|] == l;
    } else {
      assert LongOnly(done + [cur], minLen) == l;
    }
  }

  /** The scan state is the long closed runs so far, as text, and the last
      (still open) run of the printable-run decomposition. */
  lemma {:induction false} RunScanIsSegments(codes: seq<int>, minLen: nat)
    ensures RunScan(codes, minLen).1 == Segments(codes, IsPrintable)[|Segments(codes, IsPrintable)| - 1]
    ensures RunScan(codes, minLen).0 ==
              Map(RunText, LongOnly(Segments(codes, IsPrintable)[..|Segments(codes, IsPrintable)| - 1], minLen))
    decreases |codes|
  {
    if |codes| == 0 {
      assert Segments(codes, IsPrintable) == [[]];
    } else {
      var n := |codes| - 1;
      var p := codes[..n];
      RunScanIsSegments(p, minLen);
      var segs := Segments(p, IsPrintable);
      var done, cur := segs[..|segs| - 1], segs[|segs| - 1];
      assert segs == done + [cur];
      assert codes[..n] == p;
      RunStep(codes, n, done, cur);
      assert codes[..n + 1] == codes;
      if IsPrintable(codes[n]) {
        assert (done + [cur + [codes[n]]])[..|done|] == done;
      } else {
        KeptStep(done, cur, minLen);
        assert ((done + [cur]) + [[]])[..|done| + 1] == done + [cur];
      }
    }
  }

  /** Flushing the final state gives exactly the long printable runs. */
  lemma ScanFindsPrintableRuns(codes: seq<int>, minLen: nat)
    ensures Flush(RunScan(codes, minLen).0, RunScan(codes, minLen).1, minLen) == PrintableRuns(codes, minLen)
  {
    RunScanIsSegments(codes, minLen);
    var segs := Segments(codes, IsPrintable);
    assert segs == segs[..|segs| - 1] + [segs[|segs| - 1]];
    KeptStep(segs[..|segs| - 1], segs[|segs| - 1], minLen);
  }

  /** `ascii_strings_from_bytes` / `extract_ascii_strings`: the flush-on-break
      accumulator over the bytes. */
  method AsciiStrings(data: seq<byte>, minLen: nat) returns (results: seq<string>)
    ensures results == PrintableRuns(data, minLen)
  {
    ghost var codes: seq<int> := data;
    results := [];
    var cur: seq<int> := [];
    for i := 0 to |data|
      invariant (results, cur) == RunScan(codes[..i], minLen)
    {
      assert codes[..i + 1][..i] == codes[..i];
      var b := data[i];
      if 32 <= b <= 126 {
        cur := cur + [b];
      } else {
        if |cur| >= minLen {
          results := results + [RunText(cur)];
        }
        cur := [];
      }
    }
    if |cur| >= minLen {
      results := results + [RunText(cur)];
    }
    assert codes[..|data|] == codes;
    ScanFindsPrintableRuns(codes, minLen);
  }

  /** The bytes from offset start on (none when start is past the end). */
  function From(data: seq<byte>, start: nat): seq<byte> {
    if start <= |data| then data[start..] else []
  }

  /** The little-endian code units read from offset start on. */
  function UnitsFrom(data: seq<byte>, start: nat): seq<nat> {
    Utf16.CodeUnits(From(data, start), false)
  }

  /** The k-th unit from start is the little-endian pair at start + 2k, and
      there is one exactly when that pair lies inside data; it is a printable
      character exactly when its low byte is printable and its high byte zero. */
  lemma UnitAt(data: seq<byte>, start: nat, k: nat)
    ensures k < |UnitsFrom(data, start)| <==> start + 2 * k + 1 < |data|
    ensures k < |UnitsFrom(data, start)| ==> UnitsFrom(data, start)[k] == LE16(data, start + 2 * k)
    ensures k < |UnitsFrom(data, start)| ==>
              (IsPrintable(UnitsFrom(data, start)[k]) <==> IsPrintable(data[start + 2 * k]) && data[start + 2 * k + 1] == 0)
    ensures k < |UnitsFrom(data, start)| && IsPrintable(UnitsFrom(data, start)[k]) ==>
              UnitsFrom(data, start)[k] == data[start + 2 * k]
  {
    var f := From(data, start);
    if k < |UnitsFrom(data, start)| {
      assert f[2 * k] == data[start + 2 * k] && f[2 * k + 1] == data[start + 2 * k + 1];
    }
  }

  /** `extract_utf16le_strings` (start 0) and one pass of
      `utf16le_strings_all_alignments`: read code units from offset start on,
      collecting runs of printable characters. */
  method Utf16LeStrings(data: seq<byte>, start: nat, minLen: nat) returns (results: seq<string>)
    ensures results == PrintableRuns(UnitsFrom(data, start), minLen)
  {
    ghost var units: seq<int> := UnitsFrom(data, start);
    results := [];
    var cur: seq<int> := [];
    var i := start;
    ghost var k := 0;
    UnitAt(data, start, 0);
    while i + 1 < |data|
      invariant i == start + 2 * k && k <= |units|
      invariant k < |units| <==> i + 1 < |data|
      invariant (results, cur) == RunScan(units[..k], minLen)
      decreases |data| - i
    {
      Utf16Step(data, start, k, minLen);
      var ch := data[i];
      var nul := data[i + 1];
      if 32 <= ch <= 126 && nul == 0 {
        cur := cur + [ch];
      } else {
        if |cur| >= minLen {
          results := results + [RunText(cur)];
        }
        cur := [];
      }
      i := i + 2;
      k := k + 1;
    }
    if |cur| >= minLen {
      results := results + [RunText(cur)];
    }
    assert units[..k] == units;
    ScanFindsPrintableRuns(units, minLen);
  }

  /** One step of the UTF-16 scan: reading the pair at start + 2k extends the
      open run when it is a printable character and closes it otherwise. */
  lemma Utf16Step(data: seq<byte>, start: nat, k: nat, minLen: nat)
    requires start + 2 * k + 1 < |data|
    ensures k < |UnitsFrom(data, start)|
    ensures k + 1 < |UnitsFrom(data, start)| <==> start + 2 * k + 3 < |data|
    ensures var units: seq<int> := UnitsFrom(data, start);
            var st := RunScan(units[..k], minLen);
            var i := start + 2 * k;
            RunScan(units[..k + 1], minLen) ==
              if 32 <= data[i] <= 126 && data[i + 1] == 0 then (st.0, st.1 + [data[i] as int])
              else (Flush(st.0, st.1, minLen), [])
  {
    UnitAt(data, start, k);
    UnitAt(data, start, k + 1);
    var units: seq<int> := UnitsFrom(data, start);
    assert units[..k + 1][..k] == units[..k];
  }

  /** `utf16le_strings_all_alignments`: the runs at offset 0, then those at
      offset 1, each distinct text once, in order of first appearance. */
  method Utf16LeStringsAllAlignments(data: seq<byte>, minLen: nat) returns (uniq: seq<string>)
    ensures uniq == Dedup(PrintableRuns(UnitsFrom(data, 0), minLen) + PrintableRuns(UnitsFrom(data, 1), minLen))
    ensures Distinct(uniq)
    ensures forall t :: t in uniq ==>
              t in PrintableRuns(UnitsFrom(data, 0), minLen) || t in PrintableRuns(UnitsFrom(data, 1), minLen)
    ensures forall t :: t in PrintableRuns(UnitsFrom(data, 0), minLen) ==> t in uniq
    ensures forall t :: t in PrintableRuns(UnitsFrom(data, 1), minLen) ==> t in uniq
  {
    var aligned := Utf16LeStrings(data, 0, minLen);
    var shifted := Utf16LeStrings(data, 1, minLen);
    uniq := KeepFirstOccurrences(aligned + shifted);
    DedupProperties(aligned + shifted);
  }

  /** Every byte of chunk is printable ASCII: `all(32 <= b <= 126 for b in chunk)`. */
  predicate AllPrintable(chunk: seq<byte>) {
    forall k :: 0 <= k < |chunk| ==> IsPrintable(chunk[k])
  }

  /** Offset i starts a record for `find_length_prefixed_ascii`: i is one of
      the offsets scanned, the 16-bit little-endian length there is within
      [minLen, maxLen], and that many printable bytes follow inside the data. */
  predicate PrefixedAt(data: seq<byte>, i: nat, minLen: nat, maxLen: nat) {
    && i + 2 < |data|
    && minLen <= LE16(data, i) <= maxLen
    && i + 2 + LE16(data, i) <= |data|
    && AllPrintable(data[i + 2..i + 2 + LE16(data, i)])
  }

  /** The text of the record at i. */
  function PrefixedText(data: seq<byte>, i: nat): string
    requires i + 2 <= |data| && i + 2 + LE16(data, i) <= |data|
  {
    RunText(data[i + 2..i + 2 + LE16(data, i)])
  }

  /** What offset i contributes: the record's text, if a record starts there. */
  function PrefixedHit(data: seq<byte>, i: nat, minLen: nat, maxLen: nat): Option<string> {
    if PrefixedAt(data, i, minLen, maxLen) then Some(PrefixedText(data, i)) else None
  }

  /** The hits at the offsets `range(0, len(data) - 2)` scans. */
  function PrefixedHits(data: seq<byte>, minLen: nat, maxLen: nat): seq<Option<string>> {
    var n := if |data| >= 2 then |data| - 2 else 0;
    seq(n, i requires 0 <= i < n => PrefixedHit(data, i, minLen, maxLen))
  }

  /** `find_length_prefixed_ascii`: each record's text at its first offset. */
  method FindLengthPrefixedAscii(data: seq<byte>, minLen: nat, maxLen: nat) returns (results: seq<(nat, string)>)
    ensures results == PrefixedScan(data, minLen, maxLen)
  {
    ghost var hits := PrefixedHits(data, minLen, maxLen);
    results := [];
    var seen: set<string> := {};
    var n := if |data| >= 2 then |data| - 2 else 0;
    for i := 0 to n
      invariant |hits| == n
      invariant results == FirstHits(hits[..i])
      invariant forall t :: t in seen <==> t in Seconds(results)
    {
      FirstHitsStep(hits[..i], hits[i]);
      assert hits[..i + 1] == hits[..i] + [hits[i]];
      var length := LE16(data, i);
      if minLen <= length <= maxLen {
        var end := i + 2 + length;
        if end <= |data| {
          var chunk := data[i + 2..end];
          if AllPrintable(chunk) {
            var s := RunText(chunk);
            assert hits[i] == Some(s);
            if s !in seen {
              SecondsAppend(results, (i, s));
              results := results + [(i, s)];
              seen := seen + {s};
            }
          } else {
            assert hits[i] == None;
          }
        } else {
          assert hits[i] == None;
        }
      } else {
        assert hits[i] == None;
      }
    }
    assert hits[..|hits|] == hits;
  }

  /** The scan's result, named for the lemmas below. */
  function PrefixedScan(data: seq<byte>, minLen: nat, maxLen: nat): seq<(nat, string)> {
    FirstHits(PrefixedHits(data, minLen, maxLen))
  }

  /** What the length-prefixed scan promises: offsets strictly increase; every
      entry is a record at a scanned offset, with that record's text; no text
      repeats; every record's text is reported, at the first offset that
      carries it. */
  lemma PrefixedScanProperties(data: seq<byte>, minLen: nat, maxLen: nat)
    ensures forall a, b :: 0 <= a < b < |PrefixedScan(data, minLen, maxLen)| ==>
              PrefixedScan(data, minLen, maxLen)[a].0 < PrefixedScan(data, minLen, maxLen)[b].0
    ensures forall e :: e in PrefixedScan(data, minLen, maxLen) ==>
              PrefixedAt(data, e.0, minLen, maxLen) && e.1 == PrefixedText(data, e.0)
    ensures Distinct(Seconds(PrefixedScan(data, minLen, maxLen)))
    ensures forall i: nat :: PrefixedAt(data, i, minLen, maxLen) ==>
              PrefixedText(data, i) in Seconds(PrefixedScan(data, minLen, maxLen))
    ensures forall e, i: nat :: e in PrefixedScan(data, minLen, maxLen) && i < e.0 && PrefixedAt(data, i, minLen, maxLen) ==>
              PrefixedText(data, i) != e.1
  {
    var hits := PrefixedHits(data, minLen, maxLen);
    FirstHitsEntries(hits);
    FirstHitsComplete(hits);
    FirstHitsFirst(hits);
    var r := FirstHits(hits);
    forall e | e in r ensures PrefixedAt(data, e.0, minLen, maxLen) && e.1 == PrefixedText(data, e.0) {
      var k :| 0 <= k < |r| && r[k] == e;
      assert hits[r[k].0] == Some(r[k].1);
    }
    forall i: nat | PrefixedAt(data, i, minLen, maxLen) ensures PrefixedText(data, i) in Seconds(r) {
      assert hits[i] == Some(PrefixedText(data, i));
    }
    forall e, i: nat | e in r && i < e.0 && PrefixedAt(data, i, minLen, maxLen) ensures PrefixedText(data, i) != e.1 {
      var k :| 0 <= k < |r| && r[k] == e;
      assert hits[i] == Some(PrefixedText(data, i));
    }
  }

  /** The byte chunks `decode_length_prefixed_utf16le` reads from offset i on,
      after those already read (acc): a 32-bit little-endian count of UTF-16
      code units, then that many units; a zero count is an empty chunk; a
      count above maxLen or one that runs past the end stops the scan. */
  function ScanChunks(blob: seq<byte>, i: nat, maxLen: nat, acc: seq<seq<byte>>): seq<seq<byte>>
    decreases |blob| - i
  {
    if i + 4 > |blob| then acc
    else
      var length := LE32(blob, i);
      var j := i + 4;
      if length == 0 then ScanChunks(blob, j, maxLen, acc + [[]])
      else if length > maxLen || j + 2 * length > |blob| then acc
      else ScanChunks(blob, j + 2 * length, maxLen, acc + [blob[j..j + 2 * length]])
  }

  /** `chunk.decode("utf-16-le", errors="strict")`, falling back to
      `errors="ignore"`: the fallback yields what a strict decode yields on
      valid input, so the pair is the ignoring decoder. */
  function DecodeLE(chunk: seq<byte>): string {
    Utf16.Decode(chunk, false)
  }

  function DecodeAll(chunks: seq<seq<byte>>): (ss: seq<string>)
    ensures |ss| == |chunks|
  {
    seq(|chunks|, k requires 0 <= k < |chunks| => DecodeLE(chunks[k]))
  }

  /** The strings `decode_length_prefixed_utf16le` returns for blob. */
  function Records(blob: seq<byte>, maxLen: nat): seq<string> {
    DecodeAll(ScanChunks(blob, 0, maxLen, []))
  }

  /** A first count above maxLen, or one whose units run past the end, stops
      the scan before anything is read: the result is empty. */
  lemma RecordsFirstTooLong(blob: seq<byte>, maxLen: nat)
    requires |blob| >= 4 && LE32(blob, 0) != 0
    requires LE32(blob, 0) > maxLen || 4 + 2 * LE32(blob, 0) > |blob|
    ensures Records(blob, maxLen) == []
  {
    assert ScanChunks(blob, 0, maxLen, []) == [];
  }

  lemma DecodeAllAppend(chunks: seq<seq<byte>>, c: seq<byte>)
    ensures DecodeAll(chunks + [c]) == DecodeAll(chunks) + [DecodeLE(c)]
  {
    assert forall k :: 0 <= k < |chunks| ==> (chunks + [c])[k] == chunks[k];
  }

  /** A zero-length record is the empty string. */
  lemma DecodeEmpty()
    ensures DecodeLE([]) == ""
  {
    assert Utf16.CodeUnits([], false) == [];
  }

  /** `decode_length_prefixed_utf16le`. Its printable-ratio test appends the
      string on both branches, so it has no effect and is not spelled out. */
  method DecodeLengthPrefixedUtf16(blob: seq<byte>, maxLen: nat) returns (results: seq<string>)
    ensures results == Records(blob, maxLen)
  {
    ghost var chunks: seq<seq<byte>> := [];
    results := [];
    var i := 0;
    while i + 4 <= |blob|
      invariant ScanChunks(blob, i, maxLen, chunks) == ScanChunks(blob, 0, maxLen, [])
      invariant results == DecodeAll(chunks)
      decreases |blob| - i
    {
      var length := LE32(blob, i);
      var next := i + 4;
      if length == 0 {
        DecodeAllAppend(chunks, []);
        DecodeEmpty();
        chunks := chunks + [[]];
        results := results + [""];
        i := next;
      } else if length > maxLen || next + length * 2 > |blob| {
        return;
      } else {
        var byteLen := length * 2;
        var chunk := blob[next..next + byteLen];
        var s := Utf16.Decode(chunk, false);
        DecodeAllAppend(chunks, chunk);
        chunks := chunks + [chunk];
        i := next + byteLen;
        results := results + [s];
      }
    }
  }

  /** Every chunk holds at most maxLen code units. */
  lemma {:induction false} ChunksBounded(blob: seq<byte>, i: nat, maxLen: nat, acc: seq<seq<byte>>)
    requires forall k :: 0 <= k < |acc| ==> |acc[k]| <= 2 * maxLen
    ensures forall k :: 0 <= k < |ScanChunks(blob, i, maxLen, acc)| ==> |ScanChunks(blob, i, maxLen, acc)[k]| <= 2 * maxLen
    decreases |blob| - i
  {
    if i + 4 <= |blob| {
      var length := LE32(blob, i);
      var j := i + 4;
      if length == 0 {
        ChunksBounded(blob, j, maxLen, acc + [[]]);
      } else if length <= maxLen && j + 2 * length <= |blob| {
        ChunksBounded(blob, j + 2 * length, maxLen, acc + [blob[j..j + 2 * length]]);
      }
    }
  }

  /** Each record string has at most maxLen characters. */
  lemma RecordsBounded(blob: seq<byte>, maxLen: nat)
    ensures forall k :: 0 <= k < |Records(blob, maxLen)| ==> |Records(blob, maxLen)[k]| <= maxLen
  {
    var chunks := ScanChunks(blob, 0, maxLen, []);
    ChunksBounded(blob, 0, maxLen, []);
    forall k | 0 <= k < |chunks| ensures |DecodeLE(chunks[k])| <= maxLen {
      Utf16.DecodeUnitsLength(Utf16.CodeUnits(chunks[k], false));
    }
  }

  /** The framing the reader expects: each string as its code-unit count
      (32-bit little-endian) followed by its UTF-16LE bytes. */
  function Frame(ss: seq<string>): seq<byte>
    requires forall k :: 0 <= k < |ss| ==> |Utf16.EncodeUnits(ss[k])| < 0x1_0000_0000
  {
    if |ss| == 0 then []
    else EncodeLE32(|Utf16.EncodeUnits(ss[0])|) + Utf16.EncodeLE(ss[0]) + Frame(ss[1..])
  }

  /** The chunks after a prefix do not depend on the prefix. */
  lemma {:induction false} ChunksShift(a: seq<byte>, b: seq<byte>, j: nat, maxLen: nat, acc: seq<seq<byte>>)
    ensures ScanChunks(a + b, |a| + j, maxLen, acc) == ScanChunks(b, j, maxLen, acc)
    decreases |b| - j
  {
    var ab := a + b;
    var i := |a| + j;
    if j + 4 <= |b| {
      assert LE32(ab, i) == LE32(b, j) by {
        assert ab[i] == b[j] && ab[i + 1] == b[j + 1];
        assert ab[i + 2] == b[j + 2] && ab[i + 3] == b[j + 3];
      }
      var length := LE32(b, j);
      if length == 0 {
        ChunksShift(a, b, j + 4, maxLen, acc + [[]]);
      } else if length <= maxLen && j + 4 + 2 * length <= |b| {
        var e := j + 4 + 2 * length;
        assert ab[i + 4..i + 4 + 2 * length] == b[j + 4..e];
        ChunksShift(a, b, e, maxLen, acc + [b[j + 4..e]]);
      }
    }
  }

  /** The UTF-16LE encodings of the strings, in order. */
  function EncodeAll(ss: seq<string>): (cs: seq<seq<byte>>)
    ensures |cs| == |ss|
  {
    seq(|ss|, k requires 0 <= k < |ss| => Utf16.EncodeLE(ss[k]))
  }

  /** Reading one framed string: its encoding is the next chunk. */
  lemma FrameStep(s: string, tail: seq<byte>, maxLen: nat, acc: seq<seq<byte>>)
    requires |Utf16.EncodeUnits(s)| <= maxLen && |Utf16.EncodeUnits(s)| < 0x1_0000_0000
    ensures ScanChunks(EncodeLE32(|Utf16.EncodeUnits(s)|) + Utf16.EncodeLE(s) + tail, 0, maxLen, acc)
              == ScanChunks(tail, 0, maxLen, acc + [Utf16.EncodeLE(s)])
  {
    var n := |Utf16.EncodeUnits(s)|;
    var head := EncodeLE32(n);
    var body := Utf16.EncodeLE(s);
    var f := head + body + tail;
    Bytes.LE32OfEncode(n);
    assert LE32(f, 0) == n by {
      assert f[0] == head[0] && f[1] == head[1] && f[2] == head[2] && f[3] == head[3];
    }
    assert |body| == 2 * n;
    ChunksShift(head + body, tail, 0, maxLen, acc + [body]);
    Utf16.EncodeUnitsEmpty(s);
    assert f[4..4 + 2 * n] == body;
  }

  /** Framing cuts into exactly the encodings of the strings. */
  lemma {:induction false} FrameChunks(ss: seq<string>, maxLen: nat, acc: seq<seq<byte>>)
    requires forall k :: 0 <= k < |ss| ==> |Utf16.EncodeUnits(ss[k])| <= maxLen
    requires forall k :: 0 <= k < |ss| ==> |Utf16.EncodeUnits(ss[k])| < 0x1_0000_0000
    ensures ScanChunks(Frame(ss), 0, maxLen, acc) == acc + EncodeAll(ss)
  {
    if |ss| == 0 {
      assert acc + EncodeAll(ss) == acc;
    } else {
      var body := Utf16.EncodeLE(ss[0]);
      FrameStep(ss[0], Frame(ss[1..]), maxLen, acc);
      FrameChunks(ss[1..], maxLen, acc + [body]);
      assert (acc + [body]) + EncodeAll(ss[1..]) == acc + EncodeAll(ss);
    }
  }

  /** Reading a framed list of strings gives the list back, provided no string
      has more than maxLen code units. */
  lemma FrameRoundTrip(ss: seq<string>, maxLen: nat)
    requires forall k :: 0 <= k < |ss| ==> |Utf16.EncodeUnits(ss[k])| <= maxLen
    requires forall k :: 0 <= k < |ss| ==> |Utf16.EncodeUnits(ss[k])| < 0x1_0000_0000
    ensures Records(Frame(ss), maxLen) == ss
  {
    FrameChunks(ss, maxLen, []);
    assert [] + EncodeAll(ss) == EncodeAll(ss);
    forall k | 0 <= k < |ss| ensures DecodeLE(Utf16.EncodeLE(ss[k])) == ss[k] {
      Utf16.DecodeEncodeLE(ss[k]);
    }
  }
}
