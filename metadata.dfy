/** The metadata heuristics: the token searches of `parse_metadata_from_lines`
    and `parse_basic_file_info_text`, the key/value parsing of
    `parse_kv_lines` with its snake-case keys, the `format` fallback, and the
    author and build guesses made from the strings of a Contents stream. */
module Metadata {
  import opened Wrappers
  import opened Bytes
  import opened Seqs
  import opened Text
  import opened Lines
  import opened Guids
  import Utf16

  // ---------------------------------------------------------------------
  // Token searches
  // ---------------------------------------------------------------------

  /** The fields the heuristics fill in; a field that is None is a key the
      dictionary does not have. */
  datatype BasicInfo = BasicInfo(
    revitVersion: Option<string>,
    build: Option<string>,
    originalPath: Option<string>,
    documentGuid: Option<string>,
    sessionGuid: Option<string>,
    extraGuids: Option<seq<string>>,
    platformBits: Option<nat>)

  /** The first token satisfying p, if there is one. */
  function FirstToken(tokens: seq<string>, p: string -> bool): (r: Option<string>)
    ensures r.None? <==> forall k :: 0 <= k < |tokens| ==> !p(tokens[k])
    ensures r.Some? ==> exists k :: 0 <= k < |tokens| && tokens[k] == r.value && p(tokens[k]) &&
                          (forall j :: 0 <= j < k ==> !p(tokens[j]))
  {
    match FirstWhere(tokens, p)
    case None => None
    case Some(k) => Some(tokens[k])
  }

  /** `re.fullmatch(r"\d{4}", t)`. */
  predicate IsYearToken(t: string) { |t| == 4 && AllDigits(t) }

  /** `"_" in t and "(" in t and ")" in t`. */
  predicate IsBuildToken(t: string) { '_' in t && '(' in t && ')' in t }

  /** `":" in t and "\\" in t`: where a Windows path starts. */
  predicate IsPathStart(t: string) { ':' in t && '\\' in t }

  /** `t.lower().endswith((".rfa", ".rvt"))`. */
  predicate IsPathEnd(t: string) { EndsWith(Lower(t), ".rfa") || EndsWith(Lower(t), ".rvt") }

  /** `t.endswith("$") and t[:-1].isdigit()`. */
  predicate IsBitsToken(t: string) { |t| > 0 && t[|t| - 1] == '$' && AllDigits(t[..|t| - 1]) }

  /** One past the last token of the path starting at token i. The first later
      token ending in `.rfa` or `.rvt` closes the path; with none, the path
      runs to the last token. The start token itself is never tested. */
  function PathEnd(tokens: seq<string>, i: nat): (e: nat)
    requires i < |tokens|
    ensures i < e <= |tokens|
    ensures forall m :: i < m < e - 1 ==> !IsPathEnd(tokens[m])
    ensures (i < e - 1 && IsPathEnd(tokens[e - 1])) ||
            (e == |tokens| && forall m :: i < m < |tokens| ==> !IsPathEnd(tokens[m]))
  {
    match FirstWhere(tokens[i + 1..], IsPathEnd)
    case None => |tokens|
    case Some(j) =>
      assert tokens[i + 1..][j] == tokens[i + 1 + j];
      i + 2 + j
  }

  /** The original path: the tokens from the first path start to PathEnd,
      joined by single spaces. */
  function OriginalPath(tokens: seq<string>): Option<string> {
    match FirstWhere(tokens, IsPathStart)
    case None => None
    case Some(i) => Some(JoinWith(" ", tokens[i..PathEnd(tokens, i)]))
  }

  /** `int(t[:-1])` of the first token of digits followed by `$`. */
  function PlatformBits(tokens: seq<string>): Option<nat> {
    match FirstToken(tokens, IsBitsToken)
    case None => None
    case Some(t) => Some(DecimalValue(t[..|t| - 1]))
  }

  /** A join starting with a non-empty string is non-empty. */
  lemma JoinWithNonEmpty(sep: string, xs: seq<string>)
    requires |xs| > 0 && |xs[0]| > 0
    ensures |JoinWith(sep, xs)| > 0
  {
  }

  /** PathEnd is determined by its contract: the end is the token after the
      first path end past i, or the end of the tokens when there is none. */
  lemma PathEndIs(tokens: seq<string>, i: nat, j: nat)
    requires i < j <= |tokens|
    requires forall m :: i < m < j - 1 ==> !IsPathEnd(tokens[m])
    requires (i < j - 1 && IsPathEnd(tokens[j - 1])) ||
             (j == |tokens| && forall m :: i < m < |tokens| ==> !IsPathEnd(tokens[m]))
    ensures j == PathEnd(tokens, i)
  {
  }

  /** The path loop: from the first token with `:` and `\`, append the
      following tokens up to and including one ending in `.rfa`/`.rvt`. */
  method FindOriginalPath(tokens: seq<string>) returns (path: Option<string>)
    ensures path == OriginalPath(tokens)
  {
    path := None;
    var start := FirstMatch(tokens, IsPathStart);
    if start.Some? {
      var parts := PathTokens(tokens, start.value);
      JoinWithNonEmpty(" ", parts);
      path := Some(JoinWith(" ", parts));
    }
  }

  /** The inner loop of the path search: the tokens of the path starting at
      token i. */
  method PathTokens(tokens: seq<string>, i: nat) returns (parts: seq<string>)
    requires i < |tokens|
    ensures parts == tokens[i..PathEnd(tokens, i)]
  {
    parts := [tokens[i]];
    var j := i + 1;
    while j < |tokens|
      invariant i < j <= |tokens|
      invariant parts == tokens[i..j]
      invariant forall m :: i < m < j ==> !IsPathEnd(tokens[m])
    {
      assert tokens[i..j + 1] == tokens[i..j] + [tokens[j]];
      parts := parts + [tokens[j]];
      j := j + 1;
      if IsPathEnd(tokens[j - 1]) {
        break;
      }
    }
    PathEndIs(tokens, i, j);
  }

  /** The four token searches both parsers share, each a `for ...: if ...:
      break` loop. */
  method TokenFields(tokens: seq<string>) returns (version: Option<string>, build: Option<string>, path: Option<string>, bits: Option<nat>)
    ensures version == FirstToken(tokens, IsYearToken)
    ensures build == FirstToken(tokens, IsBuildToken)
    ensures path == OriginalPath(tokens)
    ensures bits == PlatformBits(tokens)
  {
    var v := FirstMatch(tokens, IsYearToken);
    version := if v.Some? then Some(tokens[v.value]) else None;
    var b := FirstMatch(tokens, IsBuildToken);
    build := if b.Some? then Some(tokens[b.value]) else None;
    path := FindOriginalPath(tokens);
    var p := FirstMatch(tokens, IsBitsToken);
    bits := None;
    if p.Some? {
      var t := tokens[p.value];
      bits := Some(DecimalValue(t[..|t| - 1]));
    }
  }

  /** x is the least element of found outside excluded. */
  ghost predicate LeastOutside(found: seq<string>, x: string, excluded: set<string>) {
    x in found && x !in excluded && forall g :: g in found && g !in excluded && g != x ==> LexLess(x, g)
  }

  /** The GUID keys: the smallest found GUID is the document GUID, the next
      one the session GUID, and the rest, ascending, the extra GUIDs; each key
      is present exactly when enough GUIDs were found. */
  ghost predicate RanksGuids(found: seq<string>, info: BasicInfo) {
    (info.documentGuid.None? <==> |found| == 0) &&
    (info.documentGuid.Some? ==> LeastOutside(found, info.documentGuid.value, {})) &&
    (info.sessionGuid.Some? ==> info.documentGuid.Some? && LeastOutside(found, info.sessionGuid.value, {info.documentGuid.value})) &&
    (info.documentGuid.Some? && info.sessionGuid.None? ==> forall g :: g in found ==> g == info.documentGuid.value) &&
    (info.extraGuids.Some? ==>
      info.sessionGuid.Some? && |info.extraGuids.value| > 0 && StrictlySorted(info.extraGuids.value) &&
      forall g :: g in info.extraGuids.value <==> g in found && g != info.documentGuid.value && g != info.sessionGuid.value) &&
    (info.sessionGuid.Some? && info.extraGuids.None? ==>
      forall g :: g in found ==> g == info.documentGuid.value || g == info.sessionGuid.value)
  }

  /** Reading the first, second and remaining entries of `sorted(set(found))`
      ranks the GUIDs. */
  lemma RankSortedGuids(found: seq<string>, info: BasicInfo)
    requires var g := SortedSet(found);
      info.documentGuid == (if |g| > 0 then Some(g[0]) else None) &&
      info.sessionGuid == (if |g| > 1 then Some(g[1]) else None) &&
      info.extraGuids == (if |g| > 2 then Some(g[2..]) else None)
    ensures RanksGuids(found, info)
  {
    var g := SortedSet(found);
    SortedSetProperties(found);
    StrictlySortedDistinct(g);
    if |g| == 0 {
      assert forall x :: x !in found;
    }
    forall x | x in found && |g| > 0 && x != g[0] ensures LexLess(g[0], x) {
      var k :| 0 <= k < |g| && g[k] == x;
    }
    forall x | x in found && |g| > 1 && x != g[0] && x != g[1] ensures LexLess(g[1], x) {
      var k :| 0 <= k < |g| && g[k] == x;
    }
    if |g| == 1 {
      forall x | x in found ensures x == g[0] {
        var k :| 0 <= k < |g| && g[k] == x;
      }
    }
    if |g| == 2 {
      forall x | x in found ensures x == g[0] || x == g[1] {
        var k :| 0 <= k < |g| && g[k] == x;
      }
    }
    if |g| > 2 {
      var e := g[2..];
      forall x ensures x in e <==> x in found && x != g[0] && x != g[1] {
        if x in found && x != g[0] && x != g[1] {
          var k :| 0 <= k < |g| && g[k] == x;
          assert e[k - 2] == x;
        }
      }
    }
  }

  /** `parse_metadata_from_lines`: the token searches over the tokens of the
      space-joined lines, and the GUIDs that `extract_guids` finds in that
      text, ranked. */
  method ParseMetadataFromLines(lines: seq<string>) returns (info: BasicInfo)
    ensures info.revitVersion == FirstToken(Tokens(JoinWith(" ", lines)), IsYearToken)
    ensures info.build == FirstToken(Tokens(JoinWith(" ", lines)), IsBuildToken)
    ensures info.originalPath == OriginalPath(Tokens(JoinWith(" ", lines)))
    ensures info.platformBits == PlatformBits(Tokens(JoinWith(" ", lines)))
    ensures RanksGuids(FindGuids(JoinWith(" ", lines)), info)
  {
    var joined := JoinWith(" ", lines);
    var tokens := Tokens(joined);
    var version, build, path, bits := TokenFields(tokens);
    var guids := ExtractGuids(joined);
    info := BasicInfo(
      version, build, path,
      if |guids| > 0 then Some(guids[0]) else None,
      if |guids| > 1 then Some(guids[1]) else None,
      if |guids| > 2 then Some(guids[2..]) else None,
      bits);
    RankSortedGuids(FindGuids(joined), info);
  }

  /** `parse_basic_file_info_text`: the same token searches over the tokens
      of the text; the GUIDs are the GUID tokens in order, the first being
      the document GUID and the second the session GUID, with no extra key. */
  method ParseBasicFileInfoText(s: string) returns (info: BasicInfo)
    ensures info.revitVersion == FirstToken(Tokens(s), IsYearToken)
    ensures info.build == FirstToken(Tokens(s), IsBuildToken)
    ensures info.originalPath == OriginalPath(Tokens(s))
    ensures info.platformBits == PlatformBits(Tokens(s))
    ensures info.documentGuid.Some? <==> |TokenGuidList(Tokens(s))| >= 1
    ensures info.documentGuid.Some? ==> info.documentGuid.value == TokenGuidList(Tokens(s))[0]
    ensures info.sessionGuid.Some? <==> |TokenGuidList(Tokens(s))| >= 2
    ensures info.sessionGuid.Some? ==> info.sessionGuid.value == TokenGuidList(Tokens(s))[1]
    ensures info.extraGuids.None?
  {
    var tokens := Tokens(s);
    var version, build, path, bits := TokenFields(tokens);
    var guids := TokenGuids(tokens);
    info := BasicInfo(
      version, build, path,
      if |guids| > 0 then Some(guids[0]) else None,
      if |guids| > 1 then Some(guids[1]) else None,
      None,
      bits);
  }

  // ---------------------------------------------------------------------
  // parse_kv_lines
  // ---------------------------------------------------------------------

  predicate NotAsciiAlnum(c: char) { !IsAsciiAlnum(c) }

  predicate IsUnderscore(c: char) { c == '_' }

  /** `re.sub(r"[^0-9a-zA-Z]+", "_", key).strip("_").lower()`. */
  function SnakeKey(key: string): string {
    Lower(Trim(Squeeze(key, NotAsciiAlnum, '_'), IsUnderscore))
  }

  predicate IsKeyChar(c: char) { IsAsciiDigit(c) || ('a' <= c <= 'z') || c == '_' }

  /** Digits, lower-case letters and underscores, with no underscore at either
      end and never two in a row. */
  ghost predicate WellFormedKey(k: string) {
    (forall i :: 0 <= i < |k| ==> IsKeyChar(k[i])) && NoDouble(k, '_') &&
    (|k| > 0 ==> k[0] != '_' && k[|k| - 1] != '_')
  }

  /** Trimming `_` from a squeezed key leaves a key whose characters are
      ASCII letters, digits or single underscores, with none at either end. */
  lemma TrimmedKeyShape(u: string) returns (t: string)
    requires forall i :: 0 <= i < |u| ==> u[i] == '_' || IsAsciiAlnum(u[i])
    requires NoDouble(u, '_')
    ensures t == Trim(u, IsUnderscore)
    ensures forall i :: 0 <= i < |t| ==> t[i] == '_' || IsAsciiAlnum(t[i])
    ensures NoDouble(t, '_')
    ensures |t| > 0 ==> t[0] != '_' && t[|t| - 1] != '_'
  {
    var a, b := TrimIsInfix(u, IsUnderscore);
    t := u[a..b];
    forall i | 0 <= i < |t| - 1 ensures !(t[i] == '_' && t[i + 1] == '_') {
      assert t[i] == u[a + i] && t[i + 1] == u[a + i + 1];
    }
  }

  /** Lower-casing a letter, digit or underscore gives a key character, and
      an underscore exactly when it was one. */
  lemma LowerKeyChar(c: char)
    requires c == '_' || IsAsciiAlnum(c)
    ensures IsKeyChar(AsciiLower(c)) && (AsciiLower(c) == '_' <==> c == '_')
  {
  }

  /** Lower-casing keeps that shape and leaves only lower-case letters. */
  lemma LoweredKeyShape(t: string)
    requires forall i :: 0 <= i < |t| ==> t[i] == '_' || IsAsciiAlnum(t[i])
    requires NoDouble(t, '_')
    requires |t| > 0 ==> t[0] != '_' && t[|t| - 1] != '_'
    ensures WellFormedKey(Lower(t))
  {
    var r := Lower(t);
    forall i | 0 <= i < |r| ensures IsKeyChar(r[i]) && (r[i] == '_' <==> t[i] == '_') {
      LowerKeyChar(t[i]);
    }
  }

  /** Every normalised key is well formed. */
  lemma SnakeKeyWellFormed(key: string)
    ensures WellFormedKey(SnakeKey(key))
  {
    var u := Squeeze(key, NotAsciiAlnum, '_');
    SqueezeOutside(key, NotAsciiAlnum, '_');
    SqueezeNoDoubleRep(key, NotAsciiAlnum, '_');
    var t := TrimmedKeyShape(u);
    LoweredKeyShape(t);
  }

  /** A well-formed key normalises to itself. */
  lemma SnakeKeyIdentity(k: string)
    requires WellFormedKey(k)
    ensures SnakeKey(k) == k
  {
    SqueezeIdentity(k, NotAsciiAlnum, '_');
    assert TrimLeft(k, IsUnderscore) == k;
    assert TrimRight(k, IsUnderscore) == k;
    assert Lower(k) == k;
  }

  /** Normalising a key twice is normalising it once. */
  lemma SnakeKeyIdempotent(key: string)
    ensures SnakeKey(SnakeKey(key)) == SnakeKey(key)
  {
    SnakeKeyWellFormed(key);
    SnakeKeyIdentity(SnakeKey(key));
  }

  /** The normalised key and the stripped value a line contributes, if it has
      a colon. */
  function LineEntry(line: string): Option<(string, string)> {
    match SplitKeyValue(line)
    case None => None
    case Some(kv) => Some((SnakeKey(kv.0), kv.1))
  }

  /** The dictionary after the assignments `meta[key] = value`, in order; a
      None entry assigns nothing. */
  function Assign(entries: seq<Option<(string, string)>>): map<string, string> {
    if |entries| == 0 then map[]
    else
      var m := Assign(entries[..|entries| - 1]);
      match entries[|entries| - 1]
      case None => m
      case Some(e) => m[e.0 := e.1]
  }

  /** The last assignment to a key decides its value. */
  lemma {:induction false} AssignLastWins(entries: seq<Option<(string, string)>>, i: nat)
    requires i < |entries| && entries[i].Some?
    requires forall j :: i < j < |entries| && entries[j].Some? ==> entries[j].value.0 != entries[i].value.0
    ensures entries[i].value.0 in Assign(entries)
    ensures Assign(entries)[entries[i].value.0] == entries[i].value.1
  {
    if i < |entries| - 1 {
      var prefix := entries[..|entries| - 1];
      assert prefix[i] == entries[i];
      forall j | i < j < |prefix| && prefix[j].Some? ensures prefix[j].value.0 != prefix[i].value.0 {
        assert prefix[j] == entries[j];
      }
      AssignLastWins(prefix, i);
    }
  }

  /** Every key was assigned by some entry. */
  lemma {:induction false} AssignKeys(entries: seq<Option<(string, string)>>)
    ensures forall key :: key in Assign(entries) ==>
              exists i :: 0 <= i < |entries| && entries[i].Some? && entries[i].value.0 == key
  {
    if |entries| > 0 {
      var prefix := entries[..|entries| - 1];
      AssignKeys(prefix);
      forall key | key in Assign(entries)
        ensures exists i :: 0 <= i < |entries| && entries[i].Some? && entries[i].value.0 == key
      {
        var e := entries[|entries| - 1];
        if !(e.Some? && e.value.0 == key) {
          assert key in Assign(prefix);
          var i :| 0 <= i < |prefix| && prefix[i].Some? && prefix[i].value.0 == key;
          assert entries[i] == prefix[i];
        }
      }
    }
  }

  /** The dictionary the key/value lines build, each entry overwriting any
      earlier one with the same key. */
  function KvMeta(lines: seq<string>): map<string, string> {
    Assign(Map(LineEntry, lines))
  }

  predicate NoColon(line: string) { ':' !in line }

  /** `meta["worksharing"] = meta.pop("orksharing")` when only the truncated
      key is present. */
  function RenameOrksharing(m: map<string, string>): map<string, string> {
    if "orksharing" in m && "worksharing" !in m then (m - {"orksharing"})["worksharing" := m["orksharing"]] else m
  }

  /** `parse_kv_lines`. */
  method ParseKvLines(lines: seq<string>) returns (meta: map<string, string>, leftovers: seq<string>)
    ensures meta == RenameOrksharing(KvMeta(lines))
    ensures leftovers == Filter(lines, NoColon)
  {
    ghost var entries := Map(LineEntry, lines);
    meta := map[];
    leftovers := [];
    for k := 0 to |lines|
      invariant meta == Assign(entries[..k])
      invariant leftovers == Filter(lines[..k], NoColon)
    {
      KvStep(lines, k);
      var line := lines[k];
      if ':' in line {
        var kv := SplitKeyValue(line).value;
        var snake := SnakeKey(kv.0);
        meta := meta[snake := kv.1];
      } else {
        leftovers := leftovers + [line];
      }
    }
    assert lines[..|lines|] == lines;
    assert entries[..|lines|] == entries;
    if "orksharing" in meta && "worksharing" !in meta {
      var v := meta["orksharing"];
      meta := meta - {"orksharing"};
      meta := meta["worksharing" := v];
    }
  }

  /** One line of the loop: a line with a colon assigns its snake_case key,
      any other line joins the leftovers. */
  lemma KvStep(lines: seq<string>, k: nat)
    requires k < |lines|
    ensures var entries := Map(LineEntry, lines);
            var line := lines[k];
            if ':' in line then
              && SplitKeyValue(line).Some?
              && Assign(entries[..k + 1]) ==
                 Assign(entries[..k])[SnakeKey(SplitKeyValue(line).value.0) := SplitKeyValue(line).value.1]
              && Filter(lines[..k + 1], NoColon) == Filter(lines[..k], NoColon)
            else
              && Assign(entries[..k + 1]) == Assign(entries[..k])
              && Filter(lines[..k + 1], NoColon) == Filter(lines[..k], NoColon) + [line]
  {
    FilterStep(lines, k, NoColon);
    AssignStep(Map(LineEntry, lines), k);
    LineEntryColon(lines[k]);
  }

  /** The assignments up to entry k are those before it and then entry k. */
  lemma AssignStep(entries: seq<Option<(string, string)>>, k: nat)
    requires k < |entries|
    ensures Assign(entries[..k + 1]) ==
              if entries[k].Some? then Assign(entries[..k])[entries[k].value.0 := entries[k].value.1]
              else Assign(entries[..k])
  {
    assert entries[..k + 1][..k] == entries[..k];
  }

  /** A line carries an entry exactly when it has a colon. */
  lemma LineEntryColon(line: string)
    ensures LineEntry(line).Some? <==> ':' in line
  {
    SplitKeyValueSpec(line);
  }

  /** A line carries an entry exactly when it has a colon, so every line lands
      either in the dictionary or among the leftovers, never both. */
  lemma LinesPartition(lines: seq<string>)
    ensures forall i :: 0 <= i < |lines| ==> (LineEntry(lines[i]).Some? <==> !NoColon(lines[i]))
    ensures forall line :: line in Filter(lines, NoColon) <==> line in lines && NoColon(line)
  {
    forall i | 0 <= i < |lines| ensures LineEntry(lines[i]).Some? <==> !NoColon(lines[i]) {
      LineEntryColon(lines[i]);
    }
    FilterMembers(lines, NoColon);
  }

  /** The last line with a given key decides its value, and every key comes
      from some line. */
  lemma KvMetaEntries(lines: seq<string>)
    ensures forall i ::
              (0 <= i < |lines| && LineEntry(lines[i]).Some? &&
               forall j :: i < j < |lines| && LineEntry(lines[j]).Some? ==> LineEntry(lines[j]).value.0 != LineEntry(lines[i]).value.0) ==>
              LineEntry(lines[i]).value.0 in KvMeta(lines) &&
              KvMeta(lines)[LineEntry(lines[i]).value.0] == LineEntry(lines[i]).value.1
    ensures forall key :: key in KvMeta(lines) ==>
              exists i :: 0 <= i < |lines| && LineEntry(lines[i]).Some? && LineEntry(lines[i]).value.0 == key
  {
    var entries := Map(LineEntry, lines);
    forall i | 0 <= i < |lines| && LineEntry(lines[i]).Some? &&
        (forall j :: i < j < |lines| && LineEntry(lines[j]).Some? ==> LineEntry(lines[j]).value.0 != LineEntry(lines[i]).value.0)
      ensures LineEntry(lines[i]).value.0 in KvMeta(lines) &&
              KvMeta(lines)[LineEntry(lines[i]).value.0] == LineEntry(lines[i]).value.1
    {
      AssignLastWins(entries, i);
    }
    AssignKeys(entries);
  }

  /** The rename: `worksharing` ends up present when either key was, holding
      its own value if it had one and the truncated key's otherwise;
      `orksharing` survives only beside `worksharing`; nothing else changes. */
  lemma RenameOrksharingSpec(m: map<string, string>)
    ensures "worksharing" in RenameOrksharing(m) <==> "worksharing" in m || "orksharing" in m
    ensures "worksharing" in m ==> RenameOrksharing(m)["worksharing"] == m["worksharing"]
    ensures "worksharing" !in m && "orksharing" in m ==> RenameOrksharing(m)["worksharing"] == m["orksharing"]
    ensures "orksharing" in RenameOrksharing(m) <==> "orksharing" in m && "worksharing" in m
    ensures forall k :: k != "worksharing" && k != "orksharing" ==>
              (k in RenameOrksharing(m) <==> k in m) && (k in m ==> RenameOrksharing(m)[k] == m[k])
  {
  }

  /** Every key the lines assign is a normalised key, hence well formed. */
  lemma KvMetaKeysWellFormed(lines: seq<string>)
    ensures forall key :: key in KvMeta(lines) ==> WellFormedKey(key)
  {
    var entries := Map(LineEntry, lines);
    AssignKeys(entries);
    forall key | key in KvMeta(lines) ensures WellFormedKey(key) {
      var i :| 0 <= i < |entries| && entries[i].Some? && entries[i].value.0 == key;
      SnakeKeyWellFormed(SplitKeyValue(lines[i]).value.0);
    }
  }

  /** Every key `parse_kv_lines` returns is well formed. */
  lemma ParsedKeysWellFormed(lines: seq<string>)
    ensures forall key :: key in RenameOrksharing(KvMeta(lines)) ==> WellFormedKey(key)
  {
    var m := KvMeta(lines);
    KvMetaKeysWellFormed(lines);
    var w := "worksharing";
    assert WellFormedKey(w) by {
      assert forall i :: 0 <= i < |w| ==> IsKeyChar(w[i]);
    }
    assert forall key :: key in RenameOrksharing(m) ==> key in m || key == w;
  }

  // ---------------------------------------------------------------------
  // The BasicFileInfo_Decode_V6 main: both byte orders, BE key/values,
  // `format` from the LE text
  // ---------------------------------------------------------------------

  /** `\b(\d{4})\b` matches s at p: four digits with no word character on
      either side. */
  predicate YearAt(s: string, p: nat) {
    p + 4 <= |s| && (p == 0 || !IsWordChar(s[p - 1])) && AllDigits(s[p..p + 4]) &&
    (p + 4 == |s| || !IsWordChar(s[p + 4]))
  }

  /** The leftmost match at or after i, as `re.search` finds it. */
  function FirstYearFrom(s: string, i: nat): (r: Option<nat>)
    ensures r.Some? ==> i <= r.value && YearAt(s, r.value) && forall q :: i <= q < r.value ==> !YearAt(s, q)
    ensures r.None? ==> forall q :: i <= q ==> !YearAt(s, q)
    decreases |s| - i
  {
    if i + 4 > |s| then None
    else if YearAt(s, i) then Some(i)
    else FirstYearFrom(s, i + 1)
  }

  /** Add `format` from the first standalone four-digit number of the text
      when the dictionary lacks it. */
  function FormatFallback(meta: map<string, string>, text: string): map<string, string> {
    if "format" in meta then meta
    else match FirstYearFrom(text, 0)
      case None => meta
      case Some(p) => meta["format" := text[p..p + 4]]
  }

  /** `format` is kept when present; otherwise it is the leftmost standalone
      four-digit number, and absent when there is none; no other key
      changes. */
  lemma FormatFallbackSpec(meta: map<string, string>, text: string)
    ensures "format" in meta ==> FormatFallback(meta, text) == meta
    ensures "format" !in meta ==>
              ("format" in FormatFallback(meta, text) <==> exists p: nat :: YearAt(text, p))
    ensures "format" !in meta && "format" in FormatFallback(meta, text) ==>
              exists p: nat :: YearAt(text, p) && FormatFallback(meta, text)["format"] == text[p..p + 4] &&
                forall q :: 0 <= q < p ==> !YearAt(text, q)
    ensures forall k :: k != "format" ==>
              (k in FormatFallback(meta, text) <==> k in meta) && (k in meta ==> FormatFallback(meta, text)[k] == meta[k])
  {
  }

  /** `ln.strip()` is non-empty. */
  predicate HasText(line: string) { |Strip(line)| > 0 }

  /** `[ln for ln in clean.split("\n") if ln.strip()]`. */
  function TextRows(clean: string): seq<string> {
    Filter(Segments(clean, NotLf), HasText)
  }

  /** The non-blank lines of the big-endian reduction. */
  function BigEndianRows(blob: seq<byte>): seq<string> {
    TextRows(Asciiish(Utf16.Decode(blob, true), false))
  }

  /** The little-endian reduction. */
  function LittleEndianText(blob: seq<byte>): string {
    Asciiish(Utf16.Decode(blob, false), false)
  }

  /** The selection logic of the V6 main: reduce both byte orders, parse the
      big-endian lines, then fill `format` from the little-endian text. */
  method DecodeBasicFileInfoV6(blob: seq<byte>) returns (meta: map<string, string>, leftovers: seq<string>)
    ensures meta == FormatFallback(RenameOrksharing(KvMeta(BigEndianRows(blob))), LittleEndianText(blob))
    ensures leftovers == Filter(BigEndianRows(blob), NoColon)
  {
    var cleanLe := AsciiishFromUtf16(blob, false, false);
    var cleanBe := AsciiishFromUtf16(blob, true, false);
    var beLines := TextRows(cleanBe);
    var parsed;
    parsed, leftovers := ParseKvLines(beLines);
    meta := AddFormatFallback(parsed, cleanLe);
  }

  /** `if "format" not in meta: m = re.search(r"\b(\d{4})\b", clean_le)`. */
  method AddFormatFallback(parsed: map<string, string>, text: string) returns (meta: map<string, string>)
    ensures meta == FormatFallback(parsed, text)
  {
    meta := parsed;
    if "format" !in meta {
      var m := FirstYearFrom(text, 0);
      if m.Some? {
        meta := meta["format" := text[m.value..m.value + 4]];
      }
    }
  }

  // ---------------------------------------------------------------------
  // Contents: author and build guesses
  // ---------------------------------------------------------------------

  /** The number of ASCII digits in a row from i. */
  function DigitRun(s: string, i: nat): (n: nat)
    ensures i + n <= |s| || n == 0
    ensures forall k :: i <= k < i + n ==> IsAsciiDigit(s[k])
    ensures i + n < |s| ==> !IsAsciiDigit(s[i + n])
    decreases |s| - i
  {
    if i >= |s| || !IsAsciiDigit(s[i]) then 0 else 1 + DigitRun(s, i + 1)
  }

  /** The fixed part of the build pattern, `\b20[0-9]{6}_[0-9]{4}\(x`, at p,
      with room for at least one more character. */
  predicate StampHead(s: string, p: nat) {
    p + 16 <= |s| && (p == 0 || !IsWordChar(s[p - 1])) && s[p] == '2' && s[p + 1] == '0' &&
    AllDigits(s[p + 2..p + 8]) && s[p + 8] == '_' && AllDigits(s[p + 9..p + 13]) &&
    s[p + 13] == '(' && s[p + 14] == 'x'
  }

  /** The length of the match of `\b20[0-9]{6}_[0-9]{4}\(x[0-9]+\)` at p, if
      it matches there. `[0-9]+` must take the whole digit run, since the
      character after a shorter one is a digit and not `)`. */
  function BuildAt(s: string, p: nat): Option<nat> {
    if StampHead(s, p) then
      var d := DigitRun(s, p + 15);
      if d >= 1 && p + 15 + d < |s| && s[p + 15 + d] == ')' then Some(16 + d) else None
    else None
  }

  /** A build stamp such as `20190207_1515(x64)`. */
  predicate IsBuildStamp(b: string) {
    |b| >= 17 && b[0] == '2' && b[1] == '0' && AllDigits(b[2..8]) && b[8] == '_' &&
    AllDigits(b[9..13]) && b[13] == '(' && b[14] == 'x' && AllDigits(b[15..|b| - 1]) && b[|b| - 1] == ')'
  }

  /** A match is a build stamp. */
  lemma BuildAtStamp(s: string, p: nat, n: nat)
    requires BuildAt(s, p) == Some(n)
    ensures p + n <= |s| && IsBuildStamp(s[p..p + n])
  {
    assert StampHead(s, p);
    var d := DigitRun(s, p + 15);
    assert d >= 1 && p + 15 + d < |s| && s[p + 15 + d] == ')' && n == 16 + d;
    var b := s[p..p + n];
    DigitsOfSlice(s, b, p, 2, 8);
    DigitsOfSlice(s, b, p, 9, 13);
    assert forall k :: p + 15 <= k < p + 15 + d ==> IsAsciiDigit(s[k]);
    DigitsOfSlice(s, b, p, 15, n - 1);
  }

  /** Digits of s between p + lo and p + hi are digits of b := s[p..]
      between lo and hi. */
  lemma DigitsOfSlice(s: string, b: string, p: nat, lo: nat, hi: nat)
    requires lo < hi <= |b| && p + |b| <= |s| && b == s[p..p + |b|]
    requires AllDigits(s[p + lo..p + hi]) || forall k :: p + lo <= k < p + hi ==> IsAsciiDigit(s[k])
    ensures AllDigits(b[lo..hi])
  {
    forall j | 0 <= j < hi - lo ensures IsAsciiDigit(b[lo..hi][j]) {
      assert b[lo..hi][j] == b[lo + j] == s[p + lo + j];
      if AllDigits(s[p + lo..p + hi]) {
        assert s[p + lo..p + hi][j] == s[p + lo + j];
      }
    }
  }

  /** Where `re.search(...)` over s from i finds its match: the leftmost
      position at which the pattern matches. */
  function BuildPos(s: string, i: nat): (r: Option<nat>)
    ensures r.Some? ==> i <= r.value && BuildAt(s, r.value).Some? && forall q :: i <= q < r.value ==> BuildAt(s, q).None?
    ensures r.None? ==> forall q :: i <= q ==> BuildAt(s, q).None?
    decreases |s| - i
  {
    if i + 16 > |s| then None
    else if BuildAt(s, i).Some? then Some(i)
    else BuildPos(s, i + 1)
  }

  /** `re.search(...)` over s from i: the text of the leftmost match. */
  function BuildFrom(s: string, i: nat): (r: Option<string>)
    ensures r.Some? ==> IsBuildStamp(r.value) && Contains(s, r.value)
    ensures r.None? <==> forall q :: i <= q ==> BuildAt(s, q).None?
    ensures r.Some? ==> exists p :: i <= p && p + |r.value| <= |s| && BuildAt(s, p) == Some(|r.value|) &&
                          r.value == s[p..p + |r.value|] && (forall q :: i <= q < p ==> BuildAt(s, q).None?)
  {
    match BuildPos(s, i)
    case None => None
    case Some(p) =>
      var n := BuildAt(s, p).value;
      BuildFoundAt(s, i, p, n);
      Some(s[p..p + n])
  }

  /** The facts BuildFrom promises about the match at the leftmost position. */
  lemma BuildFoundAt(s: string, i: nat, p: nat, n: nat)
    requires BuildPos(s, i) == Some(p) && BuildAt(s, p) == Some(n)
    ensures p + n <= |s| && IsBuildStamp(s[p..p + n]) && Contains(s, s[p..p + n])
    ensures !forall q :: i <= q ==> BuildAt(s, q).None?
    ensures exists p' :: i <= p' && p' + |s[p..p + n]| <= |s| && BuildAt(s, p') == Some(|s[p..p + n]|) &&
              s[p..p + n] == s[p'..p' + |s[p..p + n]|] && (forall q :: i <= q < p' ==> BuildAt(s, q).None?)
  {
    BuildAtStamp(s, p, n);
    assert OccursAt(s, s[p..p + n], p);
    assert |s[p..p + n]| == n;
  }

  /** The string holds a build stamp. */
  predicate HasBuild(str: string) { BuildFrom(str, 0).Some? }

  /** The first string with a build stamp decides the build. */
  function FirstBuild(strings: seq<string>): (r: Option<string>)
    ensures r.None? <==> forall k :: 0 <= k < |strings| ==> BuildFrom(strings[k], 0).None?
    ensures r.Some? ==> exists k :: 0 <= k < |strings| && BuildFrom(strings[k], 0) == r &&
                          (forall j :: 0 <= j < k ==> BuildFrom(strings[j], 0).None?)
  {
    match FirstWhere(strings, HasBuild)
    case None => None
    case Some(k) => BuildFrom(strings[k], 0)
  }

  /** The Contents_Decode_V2 guesses: the author is the first UTF-16 string,
      the build the first stamp found scanning the strings in order. */
  method ContentsCandidates(utf16Strings: seq<string>) returns (author: Option<string>, build: Option<string>)
    ensures author.Some? <==> |utf16Strings| > 0
    ensures author.Some? ==> author.value == utf16Strings[0]
    ensures build == FirstBuild(utf16Strings)
    ensures build.Some? ==> IsBuildStamp(build.value)
  {
    author := if |utf16Strings| > 0 then Some(utf16Strings[0]) else None;
    var k := FirstMatch(utf16Strings, HasBuild);
    build := if k.Some? then BuildFrom(utf16Strings[k.value], 0) else None;
  }

  const AuthorName: string := "David Conant"

  /** The Contents_Decode_V1 hint: the name, when it occurs in the ASCII
      strings joined by spaces, a space, and the reduced UTF-16 text. */
  function AuthorHint(asciiStrings: seq<string>, cleanUtf16: string): (r: Option<string>)
    ensures r.Some? <==> Contains(JoinWith(" ", asciiStrings) + " " + cleanUtf16, AuthorName)
    ensures r.Some? ==> r.value == AuthorName
  {
    if Contains(JoinWith(" ", asciiStrings) + " " + cleanUtf16, AuthorName) then Some(AuthorName) else None
  }

  /** Each string is part of its join. */
  lemma {:induction false} JoinWithHas(sep: string, xs: seq<string>, k: nat) returns (a: string, b: string)
    requires k < |xs|
    ensures JoinWith(sep, xs) == a + xs[k] + b
  {
    if |xs| == 1 {
      a, b := [], [];
    } else if k == 0 {
      a, b := [], sep + JoinWith(sep, xs[1..]);
    } else {
      var a', b' := JoinWithHas(sep, xs[1..], k - 1);
      a, b := xs[0] + sep + a', b';
    }
  }

  /** Text found inside a part is found inside the whole. */
  lemma ContainsInside(a: string, t: string, b: string, x: string)
    requires Contains(t, x)
    ensures Contains(a + t + b, x)
  {
    var i: nat :| OccursAt(t, x, i);
    assert (a + t + b)[|a| + i..|a| + i + |x|] == t[i..i + |x|];
    assert OccursAt(a + t + b, x, |a| + i);
  }

  /** The hint fires whenever the name occurs in one of the ASCII strings or
      in the reduced UTF-16 text. */
  lemma AuthorHintFinds(asciiStrings: seq<string>, cleanUtf16: string)
    requires Contains(cleanUtf16, AuthorName) || exists k :: 0 <= k < |asciiStrings| && Contains(asciiStrings[k], AuthorName)
    ensures AuthorHint(asciiStrings, cleanUtf16) == Some(AuthorName)
  {
    var joined := JoinWith(" ", asciiStrings);
    if Contains(cleanUtf16, AuthorName) {
      ContainsInside(joined + " ", cleanUtf16, [], AuthorName);
      assert joined + " " + cleanUtf16 + [] == joined + " " + cleanUtf16;
    } else {
      var k :| 0 <= k < |asciiStrings| && Contains(asciiStrings[k], AuthorName);
      var a, b := JoinWithHas(" ", asciiStrings, k);
      ContainsInside(a, asciiStrings[k], b + " " + cleanUtf16, AuthorName);
      assert a + asciiStrings[k] + (b + " " + cleanUtf16) == joined + " " + cleanUtf16;
    }
  }

  /** The parts followed by the text, each part followed by one space: the
      joined string the hint searches, when there is at least one part. */
  function SpacedParts(xs: seq<string>, u: string): string {
    if |xs| == 0 then u else xs[0] + " " + SpacedParts(xs[1..], u)
  }

  /** Where part k starts in SpacedParts(xs, u). */
  function PartStart(xs: seq<string>, k: nat): nat
    requires k <= |xs|
  {
    if k == 0 then 0 else |xs[0]| + 1 + PartStart(xs[1..], k - 1)
  }

  /** j is the position of one of the spaces the hint adds: the spaces
      between ASCII strings and the one before the UTF-16 text. */
  ghost predicate IsSeparator(xs: seq<string>, j: nat) {
    if |xs| == 0 then j == 0 else exists k :: 0 <= k < |xs| && j == PartStart(xs, k) + |xs[k]|
  }

  lemma {:induction false} SpacedPartsJoin(xs: seq<string>, u: string)
    requires |xs| > 0
    ensures JoinWith(" ", xs) + " " + u == SpacedParts(xs, u)
  {
    if |xs| > 1 {
      SpacedPartsJoin(xs[1..], u);
    }
  }

  /** Each added space sits between the parts: it is a space, and part k is
      followed by it. */
  lemma {:induction false} SpacedPartsLayout(xs: seq<string>, u: string, k: nat)
    requires k < |xs|
    ensures PartStart(xs, k) + |xs[k]| < |SpacedParts(xs, u)|
    ensures SpacedParts(xs, u)[PartStart(xs, k)..PartStart(xs, k) + |xs[k]|] == xs[k]
    ensures SpacedParts(xs, u)[PartStart(xs, k) + |xs[k]|] == ' '
  {
    if k > 0 {
      SpacedPartsLayout(xs[1..], u, k - 1);
      var a, r := xs[0], SpacedParts(xs[1..], u);
      var q := PartStart(xs[1..], k - 1);
      assert SpacedParts(xs, u) == a + " " + r;
      assert (a + " " + r)[|a| + 1 + q..|a| + 1 + q + |xs[k]|] == r[q..q + |xs[k]|];
    }
  }

  /** An occurrence in SpacedParts(xs, u) lies inside one part, inside u, or
      covers one of the added spaces. */
  lemma {:induction false} SpacedPartsOccurrence(xs: seq<string>, u: string, x: string, i: nat)
    requires OccursAt(SpacedParts(xs, u), x, i)
    ensures Contains(u, x) || (exists k :: 0 <= k < |xs| && Contains(xs[k], x)) ||
            exists k :: 0 <= k < |xs| && i <= PartStart(xs, k) + |xs[k]| < i + |x|
  {
    if |xs| > 0 {
      var a, r := xs[0], SpacedParts(xs[1..], u);
      var w := a + " " + r;
      assert SpacedParts(xs, u) == w;
      if i + |x| <= |a| {
        assert w[i..i + |x|] == a[i..i + |x|];
        assert OccursAt(a, x, i);
      } else if i <= |a| {
        assert i <= PartStart(xs, 0) + |xs[0]| < i + |x|;
      } else {
        var i' := i - |a| - 1;
        assert w[i..i + |x|] == r[i'..i' + |x|];
        SpacedPartsOccurrence(xs[1..], u, x, i');
        if exists k :: 0 <= k < |xs[1..]| && Contains(xs[1..][k], x) {
          var k :| 0 <= k < |xs[1..]| && Contains(xs[1..][k], x);
          assert Contains(xs[k + 1], x);
        } else if exists k :: 0 <= k < |xs[1..]| && i' <= PartStart(xs[1..], k) + |xs[1..][k]| < i' + |x| {
          var k :| 0 <= k < |xs[1..]| && i' <= PartStart(xs[1..], k) + |xs[1..][k]| < i' + |x|;
          assert i <= PartStart(xs, k + 1) + |xs[k + 1]| < i + |x|;
        }
      }
    } else {
      assert OccursAt(u, x, i);
    }
  }

  /** Every added space is a space of the searched text. */
  lemma SeparatorsAreSpaces(asciiStrings: seq<string>, cleanUtf16: string, j: nat)
    requires IsSeparator(asciiStrings, j)
    ensures j < |JoinWith(" ", asciiStrings) + " " + cleanUtf16|
    ensures (JoinWith(" ", asciiStrings) + " " + cleanUtf16)[j] == ' '
  {
    if |asciiStrings| > 0 {
      var k :| 0 <= k < |asciiStrings| && j == PartStart(asciiStrings, k) + |asciiStrings[k]|;
      SpacedPartsJoin(asciiStrings, cleanUtf16);
      SpacedPartsLayout(asciiStrings, cleanUtf16, k);
    }
  }

  /** The converse of AuthorHintFinds: when the hint fires, the name occurs at
      some offset i of the searched text, and that occurrence lies inside one
      ASCII string, inside the UTF-16 text, or covers one of the added spaces. */
  lemma AuthorHintOnlyIf(asciiStrings: seq<string>, cleanUtf16: string) returns (i: nat)
    requires AuthorHint(asciiStrings, cleanUtf16).Some?
    ensures OccursAt(JoinWith(" ", asciiStrings) + " " + cleanUtf16, AuthorName, i)
    ensures Contains(cleanUtf16, AuthorName) ||
            (exists k :: 0 <= k < |asciiStrings| && Contains(asciiStrings[k], AuthorName)) ||
            exists j: nat :: i <= j < i + |AuthorName| && IsSeparator(asciiStrings, j)
  {
    var w := JoinWith(" ", asciiStrings) + " " + cleanUtf16;
    i :| OccursAt(w, AuthorName, i);
    if |asciiStrings| == 0 {
      assert w == " " + cleanUtf16;
      if i == 0 {
        assert IsSeparator(asciiStrings, 0);
      } else {
        assert w[i..i + |AuthorName|] == cleanUtf16[i - 1..i - 1 + |AuthorName|];
        assert OccursAt(cleanUtf16, AuthorName, i - 1);
      }
    } else {
      SpacedPartsJoin(asciiStrings, cleanUtf16);
      SpacedPartsOccurrence(asciiStrings, cleanUtf16, AuthorName, i);
      if exists k :: 0 <= k < |asciiStrings| && i <= PartStart(asciiStrings, k) + |asciiStrings[k]| < i + |AuthorName| {
        var k :| 0 <= k < |asciiStrings| && i <= PartStart(asciiStrings, k) + |asciiStrings[k]| < i + |AuthorName|;
        assert IsSeparator(asciiStrings, PartStart(asciiStrings, k) + |asciiStrings[k]|);
      }
    }
  }

  /** The straddling case happens: the name split over two ASCII strings is
      found, though neither string nor the UTF-16 text contains it. */
  lemma AuthorHintAcrossStrings()
    ensures AuthorHint(["xx David", "Conant yy"], "") == Some(AuthorName)
    ensures !Contains("xx David", AuthorName) && !Contains("Conant yy", AuthorName) && !Contains("", AuthorName)
  {
    var xs: seq<string> := ["xx David", "Conant yy"];
    assert xs[1..] == ["Conant yy"];
    var w := JoinWith(" ", xs) + " " + "";
    assert w == "xx David Conant yy ";
    assert OccursAt(w, AuthorName, 3);
  }
}
