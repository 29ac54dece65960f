/** Text cleanup on decoded strings: the "ASCII-ish" reduction of a UTF-16
    text (`decode_utf16_to_asciiish`, `asciiish_from_utf16`,
    `asciiish_from_utf16le`), the full decode into stripped lines
    (`decode_full_utf16le`, `parse_basic_file_info`), `clean_line`,
    `extract_paths` and the `key: value` split. */
module Lines {
  import opened Wrappers
  import opened Bytes
  import opened Seqs
  import opened Text
  import Utf16

  /** No two adjacent characters of s are both c. */
  ghost predicate NoDouble(s: string, c: char) {
    forall i :: 0 <= i < |s| - 1 ==> !(s[i] == c && s[i + 1] == c)
  }

  /** `re.sub(r"[class]+", rep, s)`: every maximal run of characters in the
      class becomes one rep. */
  function Squeeze(s: string, inClass: char -> bool, rep: char): string {
    if |s| == 0 then []
    else
      var p := Squeeze(s[..|s| - 1], inClass, rep);
      var c := s[|s| - 1];
      if !inClass(c) then p + [c]
      else if |s| >= 2 && inClass(s[|s| - 2]) then p
      else p + [rep]
  }

  /** The output ends where the input ends: with rep after a run, with the
      input's last character otherwise. */
  lemma {:induction false} SqueezeLast(s: string, inClass: char -> bool, rep: char)
    requires |s| > 0
    ensures |Squeeze(s, inClass, rep)| > 0
    ensures Squeeze(s, inClass, rep)[|Squeeze(s, inClass, rep)| - 1] == if inClass(s[|s| - 1]) then rep else s[|s| - 1]
  {
    if |s| >= 2 && inClass(s[|s| - 1]) && inClass(s[|s| - 2]) {
      SqueezeLast(s[..|s| - 1], inClass, rep);
    }
  }

  /** A run is replaced by a single rep, so rep never appears twice in a row
      (rep itself belonging to the class). */
  lemma {:induction false} SqueezeNoDoubleRep(s: string, inClass: char -> bool, rep: char)
    requires inClass(rep)
    ensures NoDouble(Squeeze(s, inClass, rep), rep)
  {
    if |s| > 0 {
      var s' := s[..|s| - 1];
      SqueezeNoDoubleRep(s', inClass, rep);
      if |s'| > 0 {
        SqueezeLast(s', inClass, rep);
      }
    }
  }

  /** Squeezing one class keeps a character outside it from doubling up. */
  lemma {:induction false} SqueezeKeepsNoDouble(s: string, inClass: char -> bool, rep: char, a: char)
    requires !inClass(a) && rep != a && NoDouble(s, a)
    ensures NoDouble(Squeeze(s, inClass, rep), a)
  {
    if |s| > 0 {
      var s' := s[..|s| - 1];
      assert NoDouble(s', a) by {
        forall i | 0 <= i < |s'| - 1 ensures !(s'[i] == a && s'[i + 1] == a) {
          assert s'[i] == s[i] && s'[i + 1] == s[i + 1];
        }
      }
      SqueezeKeepsNoDouble(s', inClass, rep, a);
      if |s'| > 0 {
        SqueezeLast(s', inClass, rep);
      }
    }
  }

  /** Every output character is rep or an input character. */
  lemma {:induction false} SqueezeChars(s: string, inClass: char -> bool, rep: char, ok: char -> bool)
    requires ok(rep) && forall i :: 0 <= i < |s| ==> ok(s[i])
    ensures forall i :: 0 <= i < |Squeeze(s, inClass, rep)| ==> ok(Squeeze(s, inClass, rep)[i])
  {
    if |s| > 0 {
      SqueezeChars(s[..|s| - 1], inClass, rep, ok);
    }
  }

  /** Every output character is rep or a character outside the class. */
  lemma {:induction false} SqueezeOutside(s: string, inClass: char -> bool, rep: char)
    ensures forall i :: 0 <= i < |Squeeze(s, inClass, rep)| ==>
              Squeeze(s, inClass, rep)[i] == rep || !inClass(Squeeze(s, inClass, rep)[i])
  {
    if |s| > 0 {
      SqueezeOutside(s[..|s| - 1], inClass, rep);
    }
  }

  /** A string whose only class characters are single reps is left as it is. */
  lemma {:induction false} SqueezeIdentity(s: string, inClass: char -> bool, rep: char)
    requires forall i :: 0 <= i < |s| ==> !inClass(s[i]) || s[i] == rep
    requires NoDouble(s, rep)
    ensures Squeeze(s, inClass, rep) == s
  {
    if |s| > 0 {
      var s' := s[..|s| - 1];
      assert NoDouble(s', rep) by {
        forall i | 0 <= i < |s'| - 1 ensures !(s'[i] == rep && s'[i + 1] == rep) {
          assert s'[i] == s[i] && s'[i + 1] == s[i + 1];
        }
      }
      SqueezeIdentity(s', inClass, rep);
      assert s == s' + [s[|s| - 1]];
    }
  }

  /** Squeezing touches only characters that p rejects. */
  lemma {:induction false} SqueezeFilter(s: string, inClass: char -> bool, rep: char, p: char -> bool)
    requires !p(rep) && forall i :: 0 <= i < |s| && inClass(s[i]) ==> !p(s[i])
    ensures Filter(Squeeze(s, inClass, rep), p) == Filter(s, p)
  {
    if |s| > 0 {
      var s', c := s[..|s| - 1], s[|s| - 1];
      SqueezeFilter(s', inClass, rep, p);
      var q := Squeeze(s', inClass, rep);
      if !inClass(c) {
        FilterAppend(q, [c], p);
      } else if |s| >= 2 && inClass(s[|s| - 2]) {
      } else {
        FilterAppend(q, [rep], p);
      }
    }
  }

  /** `str.strip()` returns a slice of s with only whitespace cut off. */
  lemma StripSlice(s: string) returns (a: nat, b: nat)
    ensures a <= b <= |s| && Strip(s) == s[a..b]
    ensures forall i :: 0 <= i < a ==> IsPySpace(s[i])
    ensures forall i :: b <= i < |s| ==> IsPySpace(s[i])
    ensures |Strip(s)| > 0 ==> !IsPySpace(Strip(s)[0]) && !IsPySpace(Strip(s)[|Strip(s)| - 1])
  {
    a, b := TrimIsInfix(s, IsPySpace);
  }

  /** A stripped string neither starts nor ends with whitespace. */
  lemma StripEnds(s: string)
    ensures |Strip(s)| > 0 ==> !IsPySpace(Strip(s)[0]) && !IsPySpace(Strip(s)[|Strip(s)| - 1])
  {
    var a, b := StripSlice(s);
  }

  /** Stripping keeps a property every character has. */
  lemma StripKeeps(s: string, P: char -> bool)
    requires forall j :: 0 <= j < |s| ==> P(s[j])
    ensures forall i :: 0 <= i < |Strip(s)| ==> P(Strip(s)[i])
  {
    var a, b := StripSlice(s);
    forall i | 0 <= i < |Strip(s)| ensures P(Strip(s)[i]) {
      assert Strip(s)[i] == s[a + i];
    }
  }

  /** Stripping drops whitespace only, so whatever p keeps survives. */
  lemma StripFilter(s: string, p: char -> bool)
    requires forall i :: 0 <= i < |s| && IsPySpace(s[i]) ==> !p(s[i])
    ensures Filter(Strip(s), p) == Filter(s, p)
  {
    var a, b := StripSlice(s);
    FilterSlice(s, a, b, p);
  }

  /** A stripped string is its own strip. */
  lemma StripStripped(s: string)
    ensures Strip(Strip(s)) == Strip(s)
  {
    TrimIdempotent(s, IsPySpace);
  }

  // ---------------------------------------------------------------------
  // The ASCII-ish reduction
  // ---------------------------------------------------------------------

  /** The character map of the reduction: CR and LF (and TAB when
      tabIsNewline) become a newline, 32..126 stays, anything else becomes a
      space. */
  function AsciiishChar(c: char, tabIsNewline: bool): char {
    if c == '\r' || c == '\n' || (tabIsNewline && c == '\t') then '\n'
    else if 32 <= c as int <= 126 then c
    else ' '
  }

  function MapAsciiish(text: string, tabIsNewline: bool): (m: string)
    ensures |m| == |text|
  {
    seq(|text|, i requires 0 <= i < |text| => AsciiishChar(text[i], tabIsNewline))
  }

  /** The class `[ \t]`. */
  predicate IsBlankOrTab(c: char) { c == ' ' || c == '\t' }

  predicate IsNewline(c: char) { c == '\n' }

  /** The mapped text with runs of blanks and of newlines collapsed, then
      stripped. */
  function Asciiish(text: string, tabIsNewline: bool): string {
    Strip(Squeeze(Squeeze(MapAsciiish(text, tabIsNewline), IsBlankOrTab, ' '), IsNewline, '\n'))
  }

  /** A character the reduction may produce. */
  predicate IsAsciiishChar(c: char) { 32 <= c as int <= 126 || c == '\n' }

  /** A printable, non-space ASCII character. */
  predicate IsVisible(c: char) { 33 <= c as int <= 126 }

  /** The reduction of the UTF-16 text: `decode_utf16_to_asciiish` (TAB
      becomes a newline), `asciiish_from_utf16` for either byte order and
      `asciiish_from_utf16le` (TAB becomes a space). */
  method AsciiishFromUtf16(data: seq<byte>, bigEndian: bool, tabIsNewline: bool) returns (s: string)
    ensures s == Asciiish(Utf16.Decode(data, bigEndian), tabIsNewline)
  {
    var txt := Utf16.Decode(data, bigEndian);
    var outChars: string := [];
    for k := 0 to |txt|
      invariant outChars == MapAsciiish(txt, tabIsNewline)[..k]
    {
      var ch := txt[k];
      if ch == '\r' || ch == '\n' || (tabIsNewline && ch == '\t') {
        outChars := outChars + ['\n'];
      } else if 32 <= ch as int <= 126 {
        outChars := outChars + [ch];
      } else {
        outChars := outChars + [' '];
      }
    }
    assert outChars == MapAsciiish(txt, tabIsNewline);
    s := Strip(Squeeze(Squeeze(outChars, IsBlankOrTab, ' '), IsNewline, '\n'));
  }

  /** The collapsed text before stripping holds only ASCII-ish characters and
      no doubled space or newline. */
  lemma SqueezedShape(m: string)
    requires forall i :: 0 <= i < |m| ==> IsAsciiishChar(m[i])
    ensures var t := Squeeze(Squeeze(m, IsBlankOrTab, ' '), IsNewline, '\n');
      (forall i :: 0 <= i < |t| ==> IsAsciiishChar(t[i])) && NoDouble(t, ' ') && NoDouble(t, '\n')
  {
    var u := Squeeze(m, IsBlankOrTab, ' ');
    SqueezeChars(m, IsBlankOrTab, ' ', IsAsciiishChar);
    SqueezeNoDoubleRep(m, IsBlankOrTab, ' ');
    SqueezeChars(u, IsNewline, '\n', IsAsciiishChar);
    SqueezeKeepsNoDouble(u, IsNewline, '\n', ' ');
    SqueezeNoDoubleRep(u, IsNewline, '\n');
  }

  /** The reduced text holds only 32..126 and newlines, never two spaces or
      two newlines in a row, and neither starts nor ends with whitespace. */
  lemma AsciiishShape(text: string, tabIsNewline: bool)
    ensures forall i :: 0 <= i < |Asciiish(text, tabIsNewline)| ==> IsAsciiishChar(Asciiish(text, tabIsNewline)[i])
    ensures NoDouble(Asciiish(text, tabIsNewline), ' ') && NoDouble(Asciiish(text, tabIsNewline), '\n')
    ensures |Asciiish(text, tabIsNewline)| > 0 ==>
              !IsPySpace(Asciiish(text, tabIsNewline)[0]) &&
              !IsPySpace(Asciiish(text, tabIsNewline)[|Asciiish(text, tabIsNewline)| - 1])
  {
    var m := MapAsciiish(text, tabIsNewline);
    var t := Squeeze(Squeeze(m, IsBlankOrTab, ' '), IsNewline, '\n');
    SqueezedShape(m);
    StripKeeps(t, IsAsciiishChar);
    StripNoDouble(t, ' ');
    StripNoDouble(t, '\n');
    StripEnds(t);
  }

  /** Stripping cannot create two equal characters in a row. */
  lemma StripNoDouble(s: string, c: char)
    requires NoDouble(s, c)
    ensures NoDouble(Strip(s), c)
  {
    var a, b := StripSlice(s);
    var r := Strip(s);
    forall i | 0 <= i < |r| - 1 ensures !(r[i] == c && r[i + 1] == c) {
      assert r[i] == s[a + i] && r[i + 1] == s[a + i + 1];
    }
  }

  /** Nothing visible is lost or invented: the printable non-space characters
      of the reduced text are exactly those of the decoded text, in order. */
  lemma AsciiishKeepsVisible(text: string, tabIsNewline: bool)
    ensures Filter(Asciiish(text, tabIsNewline), IsVisible) == Filter(text, IsVisible)
  {
    var m := MapAsciiish(text, tabIsNewline);
    FilterAgree(m, text, IsVisible);
    var u := Squeeze(m, IsBlankOrTab, ' ');
    SqueezeFilter(m, IsBlankOrTab, ' ', IsVisible);
    var t := Squeeze(u, IsNewline, '\n');
    SqueezeFilter(u, IsNewline, '\n', IsVisible);
    StripFilter(t, IsVisible);
  }

  // ---------------------------------------------------------------------
  // Full decode into lines
  // ---------------------------------------------------------------------

  predicate NotNul(c: char) { c != '\0' }

  predicate NotCr(c: char) { c != '\r' }

  predicate NotLf(c: char) { c != '\n' }

  predicate NonBlank(line: string) { |line| > 0 }

  /** Drop NULs, drop CRs, split at LF, strip every piece, keep the non-empty
      ones. */
  function TextLines(text: string): seq<string> {
    Filter(Map(Strip, Segments(Filter(Filter(text, NotNul), NotCr), NotLf)), NonBlank)
  }

  /** `decode_full_utf16le` and `parse_basic_file_info`. */
  function DecodeFullUtf16le(blob: seq<byte>): seq<string> {
    TextLines(Utf16.Decode(blob, false))
  }

  /** Neither whitespace nor NUL: what survives into some line. */
  predicate IsInk(c: char) { !IsPySpace(c) && c != '\0' }

  /** A line without NUL, CR or LF. */
  predicate IsPlainLine(line: string) {
    forall j :: 0 <= j < |line| ==> NotNul(line[j]) && NotCr(line[j]) && NotLf(line[j])
  }

  /** A non-empty line with no whitespace at either end. */
  predicate IsStrippedLine(line: string) {
    |line| > 0 && Strip(line) == line
  }

  /** A piece free of NUL, CR and LF stays so when stripped, and its strip,
      when non-empty, is a stripped line. */
  lemma StrippedPiece(piece: string)
    requires IsPlainLine(piece)
    ensures IsPlainLine(Strip(piece))
    ensures |Strip(piece)| > 0 ==> IsStrippedLine(Strip(piece))
  {
    StripStripped(piece);
    var a, b := StripSlice(piece);
    assert forall j :: 0 <= j < |Strip(piece)| ==> Strip(piece)[j] == piece[a + j];
  }

  /** The pieces `split("\n")` cuts from the text without NULs and CRs. */
  lemma PiecesArePlain(text: string)
    ensures forall m :: 0 <= m < |Segments(Filter(Filter(text, NotNul), NotCr), NotLf)| ==>
              IsPlainLine(Segments(Filter(Filter(text, NotNul), NotCr), NotLf)[m])
  {
    var t2 := Filter(Filter(text, NotNul), NotCr);
    NoNulNoCr(text);
    var ok := (c: char) => NotNul(c) && NotCr(c);
    assert forall i :: 0 <= i < |t2| ==> ok(t2[i]);
    SegmentsElements(t2, NotLf, ok);
    SegmentsDecompose(t2, NotLf);
  }

  /** After both filters no NUL and no CR is left. */
  lemma NoNulNoCr(text: string)
    ensures forall i :: 0 <= i < |Filter(Filter(text, NotNul), NotCr)| ==>
              NotNul(Filter(Filter(text, NotNul), NotCr)[i]) && NotCr(Filter(Filter(text, NotNul), NotCr)[i])
  {
    var t1 := Filter(text, NotNul);
    FilterMembers(text, NotNul);
    FilterKeeps(t1, NotCr, NotNul);
    FilterMembers(t1, NotCr);
  }

  /** Every line is non-empty, stripped and free of NUL, CR and LF. */
  lemma TextLinesShape(text: string)
    ensures forall k :: 0 <= k < |TextLines(text)| ==> IsStrippedLine(TextLines(text)[k])
    ensures forall k :: 0 <= k < |TextLines(text)| ==> IsPlainLine(TextLines(text)[k])
  {
    var segs := Segments(Filter(Filter(text, NotNul), NotCr), NotLf);
    PiecesArePlain(text);
    var stripped := Map(Strip, segs);
    forall m | 0 <= m < |stripped| ensures IsPlainLine(stripped[m]) && (NonBlank(stripped[m]) ==> IsStrippedLine(stripped[m])) {
      StrippedPiece(segs[m]);
    }
    FilterKeeps(stripped, NonBlank, IsPlainLine);
    FilterKeeps(stripped, NonBlank, (l: string) => NonBlank(l) ==> IsStrippedLine(l));
    FilterMembers(stripped, NonBlank);
  }

  /** Nothing but whitespace and NULs is lost: the lines, put back together,
      hold the text's other characters in their original order. */
  lemma TextLinesKeepInk(text: string)
    ensures Filter(Flatten(TextLines(text)), IsInk) == Filter(text, IsInk)
  {
    var t1 := Filter(text, NotNul);
    var t2 := Filter(t1, NotCr);
    FilterFilter(text, NotNul, IsInk);
    FilterFilter(t1, NotCr, IsInk);
    var segs := Segments(t2, NotLf);
    SegmentsDecompose(t2, NotLf);
    FilterInterleave(segs, Separators(t2, NotLf), IsInk);
    var stripped := Map(Strip, segs);
    forall k | 0 <= k < |segs| ensures Filter(stripped[k], IsInk) == Filter(segs[k], IsInk) {
      StripFilter(segs[k], IsInk);
    }
    FilterFlattenAgree(stripped, segs, IsInk);
    forall k | 0 <= k < |stripped| && !NonBlank(stripped[k]) ensures stripped[k] == [] {
    }
    FlattenFilter(stripped, NonBlank);
  }

  // ---------------------------------------------------------------------
  // clean_line, extract_paths and the key/value split
  // ---------------------------------------------------------------------

  /** The characters `clean_line` keeps: tab, space and 32..126. */
  predicate IsCleanChar(c: char) { c == '\t' || c == ' ' || 32 <= c as int <= 126 }

  /** What `clean_line` returns. */
  function Cleaned(line: string): string {
    Strip(Filter(line, IsCleanChar))
  }

  /** `clean_line`: the loop that keeps tab, space and 32..126, then strip. */
  method CleanLine(line: string) returns (r: string)
    ensures r == Cleaned(line)
  {
    var cleaned: string := [];
    for k := 0 to |line|
      invariant cleaned == Filter(line[..k], IsCleanChar)
    {
      assert line[..k + 1][..k] == line[..k];
      if line[k] == '\t' || line[k] == ' ' || 32 <= line[k] as int <= 126 {
        cleaned := cleaned + [line[k]];
      }
    }
    assert line[..|line|] == line;
    r := Strip(cleaned);
  }

  /** A cleaned line holds only tab and 32..126, is stripped, and cleaning it
      again changes nothing. */
  lemma CleanedProperties(line: string)
    ensures forall i :: 0 <= i < |Cleaned(line)| ==> IsCleanChar(Cleaned(line)[i])
    ensures |Cleaned(line)| > 0 ==> !IsPySpace(Cleaned(line)[0]) && !IsPySpace(Cleaned(line)[|Cleaned(line)| - 1])
    ensures Cleaned(Cleaned(line)) == Cleaned(line)
  {
    var f := Filter(line, IsCleanChar);
    var r := Cleaned(line);
    assert r == Strip(f);
    CleanedChars(line);
    StripEnds(f);
    FilterAll(r, IsCleanChar);
    assert Cleaned(r) == Strip(r);
    StripStripped(f);
  }

  /** The characters of a cleaned line are clean. */
  lemma CleanedChars(line: string)
    ensures forall i :: 0 <= i < |Cleaned(line)| ==> IsCleanChar(Cleaned(line)[i])
  {
    FilterMembers(line, IsCleanChar);
    StripKeeps(Filter(line, IsCleanChar), IsCleanChar);
  }

  /** Filtering by a test every element passes changes nothing. */
  lemma {:induction false} FilterAll(s: string, p: char -> bool)
    requires forall i :: 0 <= i < |s| ==> p(s[i])
    ensures Filter(s, p) == s
  {
    if |s| > 0 {
      FilterAll(s[..|s| - 1], p);
    }
  }

  /** A line that names a drive: it contains `:\` or `:/`. */
  predicate HasDrive(line: string) {
    Contains(line, ":\\") || Contains(line, ":/")
  }

  /** `extract_paths`. */
  function ExtractPaths(lines: seq<string>): seq<string> {
    Filter(lines, HasDrive)
  }

  /** The paths are exactly the lines that contain `:\` or `:/`, kept in
      their original order and with repeats: the k-th path is line idx[k],
      the positions increase, and every line with a drive is taken. */
  lemma ExtractPathsMembers(lines: seq<string>) returns (idx: seq<nat>)
    ensures forall x :: x in ExtractPaths(lines) <==> x in lines && HasDrive(x)
    ensures |ExtractPaths(lines)| <= |lines|
    ensures |idx| == |ExtractPaths(lines)|
    ensures forall k :: 0 <= k < |idx| ==> idx[k] < |lines| && ExtractPaths(lines)[k] == lines[idx[k]]
    ensures forall k, l :: 0 <= k < l < |idx| ==> idx[k] < idx[l]
    ensures forall i :: 0 <= i < |lines| && HasDrive(lines[i]) ==> i in idx
  {
    FilterMembers(lines, HasDrive);
    FilterLength(lines, HasDrive);
    idx := FilterIndices(lines, HasDrive);
  }

  lemma {:induction false} FilterLength<T>(xs: seq<T>, p: T -> bool)
    ensures |Filter(xs, p)| <= |xs|
  {
    if |xs| > 0 {
      FilterLength(xs[..|xs| - 1], p);
    }
  }

  predicate IsColon(c: char) { c == ':' }

  /** `key, value = line.split(":", 1)` with both sides stripped, for a line
      that contains a colon; None for one that does not. */
  function SplitKeyValue(line: string): Option<(string, string)> {
    match FirstWhere(line, IsColon)
    case None => None
    case Some(i) => Some((Strip(line[..i]), Strip(line[i + 1..])))
  }

  /** The split is at the first colon: the line is the raw key, a colon and the
      raw value, the raw key holds no colon, and the result is both sides
      stripped. A line without a colon has no split. */
  lemma SplitKeyValueSpec(line: string)
    ensures SplitKeyValue(line).None? <==> ':' !in line
    ensures SplitKeyValue(line).Some? ==>
              exists i :: 0 <= i < |line| && line == line[..i] + ":" + line[i + 1..] && ':' !in line[..i] &&
                SplitKeyValue(line).value == (Strip(line[..i]), Strip(line[i + 1..]))
  {
    match FirstWhere(line, IsColon)
    case None =>
    case Some(i) =>
      assert line == line[..i] + ":" + line[i + 1..];
  }
}
