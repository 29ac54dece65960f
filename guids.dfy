/** GUID recognition: the 8-4-4-4-12 hexadecimal pattern, `findall` of it over
    a text (`extract_guids`, which returns `sorted(set(...))`), and the token
    test of `parse_basic_file_info_text`, which also allows a trailing `$`
    and keeps the tokens in order. */
module Guids {
  import opened Seqs
  import opened Text

  /** The positions of the four dashes. */
  predicate IsDashPos(i: int) { i == 8 || i == 13 || i == 18 || i == 23 }

  /** The pattern `[0-9a-fA-F]{8}-[0-9a-fA-F]{4}-[0-9a-fA-F]{4}-[0-9a-fA-F]{4}-[0-9a-fA-F]{12}`
      matches exactly t. */
  predicate GuidShaped(t: string) {
    |t| == 36 && forall i :: 0 <= i < 36 ==> if IsDashPos(i) then t[i] == '-' else IsHexDigit(t[i])
  }

  /** The pattern matches s at i. */
  predicate GuidAt(s: string, i: nat) {
    i + 36 <= |s| && GuidShaped(s[i..i + 36])
  }

  /** The start offsets `findall` reports from position i on: a match is taken
      where one starts and the scan resumes after it; otherwise the scan moves
      one character on. */
  function GuidMatches(s: string, i: nat): (r: seq<nat>)
    ensures forall k :: 0 <= k < |r| ==> i <= r[k] && GuidAt(s, r[k])
    decreases |s| - i
  {
    if i + 36 > |s| then []
    else if GuidShaped(s[i..i + 36]) then [i] + GuidMatches(s, i + 36)
    else GuidMatches(s, i + 1)
  }

  /** `pattern.findall(text)`: the matched substrings, left to right. */
  function FindGuids(s: string): (r: seq<string>)
    ensures |r| == |GuidMatches(s, 0)|
  {
    var m := GuidMatches(s, 0);
    seq(|m|, k requires 0 <= k < |m| => s[m[k]..m[k] + 36])
  }

  /** The matches do not overlap and come in increasing order. */
  lemma {:induction false} GuidMatchesApart(s: string, i: nat)
    ensures forall k :: 0 <= k < |GuidMatches(s, i)| - 1 ==> GuidMatches(s, i)[k] + 36 <= GuidMatches(s, i)[k + 1]
    decreases |s| - i
  {
    if i + 36 <= |s| {
      if GuidShaped(s[i..i + 36]) {
        GuidMatchesApart(s, i + 36);
      } else {
        GuidMatchesApart(s, i + 1);
      }
    }
  }

  /** No match is missed: every place where the pattern matches lies inside a
      reported match (it is that match, or it overlaps an earlier one). */
  lemma {:induction false} GuidMatchesCover(s: string, i: nat, j: nat)
    requires i <= j && GuidAt(s, j)
    ensures exists k :: 0 <= k < |GuidMatches(s, i)| && GuidMatches(s, i)[k] <= j < GuidMatches(s, i)[k] + 36
    decreases |s| - i
  {
    var r := GuidMatches(s, i);
    if GuidShaped(s[i..i + 36]) {
      assert r == [i] + GuidMatches(s, i + 36);
      if j < i + 36 {
        assert r[0] <= j < r[0] + 36;
      } else {
        GuidMatchesCover(s, i + 36, j);
        var k :| 0 <= k < |GuidMatches(s, i + 36)| && GuidMatches(s, i + 36)[k] <= j < GuidMatches(s, i + 36)[k] + 36;
        assert r[k + 1] == GuidMatches(s, i + 36)[k];
      }
    } else {
      assert r == GuidMatches(s, i + 1);
      GuidMatchesCover(s, i + 1, j);
    }
  }

  /** The found GUIDs are pattern matches at increasing, non-overlapping
      offsets of the text, and every place where the pattern matches is
      covered by one of them. */
  lemma FindGuidsSpec(s: string)
    ensures forall k :: 0 <= k < |FindGuids(s)| ==>
              GuidShaped(FindGuids(s)[k]) && OccursAt(s, FindGuids(s)[k], GuidMatches(s, 0)[k])
    ensures forall k :: 0 <= k < |FindGuids(s)| - 1 ==> GuidMatches(s, 0)[k] + 36 <= GuidMatches(s, 0)[k + 1]
    ensures forall j: nat :: GuidAt(s, j) ==>
              exists k :: 0 <= k < |GuidMatches(s, 0)| && GuidMatches(s, 0)[k] <= j < GuidMatches(s, 0)[k] + 36
  {
    GuidMatchesApart(s, 0);
    forall j: nat | GuidAt(s, j)
      ensures exists k :: 0 <= k < |GuidMatches(s, 0)| && GuidMatches(s, 0)[k] <= j < GuidMatches(s, 0)[k] + 36
    {
      GuidMatchesCover(s, 0, j);
    }
  }

  /** `extract_guids`: `sorted(set(pattern.findall(text)))`. */
  function ExtractGuids(text: string): seq<string> {
    SortedSet(FindGuids(text))
  }

  /** The result is strictly ascending, holds exactly the found GUIDs, and
      each of them is GUID-shaped text taken from the input (case kept). */
  lemma ExtractGuidsSpec(text: string)
    ensures StrictlySorted(ExtractGuids(text))
    ensures forall g :: g in ExtractGuids(text) <==> g in FindGuids(text)
    ensures forall g :: g in ExtractGuids(text) ==> GuidShaped(g) && Contains(text, g)
  {
    SortedSetProperties(FindGuids(text));
    FindGuidsSpec(text);
    forall g | g in ExtractGuids(text) ensures GuidShaped(g) && Contains(text, g) {
      var k :| 0 <= k < |FindGuids(text)| && FindGuids(text)[k] == g;
      assert OccursAt(text, g, GuidMatches(text, 0)[k]);
    }
  }

  predicate IsDollar(c: char) { c == '$' }

  /** `guid_pattern.fullmatch(t)` for the pattern with an optional trailing `$`. */
  predicate IsGuidToken(t: string) {
    GuidShaped(t) || (|t| == 37 && t[36] == '$' && GuidShaped(t[..36]))
  }

  /** Stripping `$` from a GUID token leaves its 36-character GUID. */
  lemma GuidTokenStrip(t: string)
    requires IsGuidToken(t)
    ensures Trim(t, IsDollar) == t[..36]
    ensures GuidShaped(Trim(t, IsDollar))
  {
    assert !IsDollar(t[0]);
    assert TrimLeft(t, IsDollar) == t;
    if |t| == 37 {
      assert !IsDollar(t[35]);
      assert t[..36][..35] == t[..35];
      assert TrimRight(t, IsDollar) == TrimRight(t[..36], IsDollar);
      assert TrimRight(t[..36], IsDollar) == t[..36];
    } else {
      assert !IsDollar(t[35]);
      assert t[..36] == t;
    }
  }

  /** The GUIDs of the tokens, in token order, with their `$` stripped. */
  function TokenGuidList(tokens: seq<string>): seq<string> {
    if |tokens| == 0 then []
    else
      var t := tokens[|tokens| - 1];
      TokenGuidList(tokens[..|tokens| - 1]) + (if IsGuidToken(t) then [Trim(t, IsDollar)] else [])
  }

  /** The loop `for t in tokens: if guid_pattern.fullmatch(t): guids.append(t.strip("$"))`. */
  method TokenGuids(tokens: seq<string>) returns (guids: seq<string>)
    ensures guids == TokenGuidList(tokens)
  {
    guids := [];
    for k := 0 to |tokens|
      invariant guids == TokenGuidList(tokens[..k])
    {
      assert tokens[..k + 1][..k] == tokens[..k];
      var t := tokens[k];
      if IsGuidToken(t) {
        guids := guids + [Trim(t, IsDollar)];
      }
    }
    assert tokens[..|tokens|] == tokens;
  }

  /** One GUID per GUID token, in token order and without de-duplication:
      entry n is the first 36 characters of the n-th GUID token. */
  lemma {:induction false} TokenGuidListSpec(tokens: seq<string>)
    ensures TokenGuidList(tokens) == Map((t: string) => t[..if |t| >= 36 then 36 else |t|], Filter(tokens, IsGuidToken))
    ensures forall n :: 0 <= n < |TokenGuidList(tokens)| ==> GuidShaped(TokenGuidList(tokens)[n])
  {
    if |tokens| > 0 {
      var t := tokens[|tokens| - 1];
      TokenGuidListSpec(tokens[..|tokens| - 1]);
      if IsGuidToken(t) {
        GuidTokenStrip(t);
      }
    }
  }
}
