/** The Python `str` operations the scripts rely on, written out: `isspace`,
    `strip`, `split()`, `" ".join`, substring tests, ASCII case folding,
    decimal parsing and the code-point order used by `sorted`. */
module Text {
  import opened Seqs

  /** Python's `str.isspace` for one character (the full list of Unicode
      whitespace code points, all of them in the Basic Multilingual Plane). */
  predicate IsPySpace(c: char) {
    var n := c as int;
    (0x09 <= n <= 0x0D) || (0x1C <= n <= 0x20) || n == 0x85 || n == 0xA0 || n == 0x1680
    || (0x2000 <= n <= 0x200A) || n == 0x2028 || n == 0x2029 || n == 0x202F || n == 0x205F
    || n == 0x3000
  }

  predicate IsAsciiDigit(c: char) { '0' <= c <= '9' }

  predicate IsHexDigit(c: char) { IsAsciiDigit(c) || ('a' <= c <= 'f') || ('A' <= c <= 'F') }

  predicate IsAsciiAlnum(c: char) { IsAsciiDigit(c) || ('a' <= c <= 'z') || ('A' <= c <= 'Z') }

  /** A regular-expression word character, for text that is ASCII only. */
  predicate IsWordChar(c: char) { IsAsciiAlnum(c) || c == '_' }

  function AsciiLower(c: char): char {
    if 'A' <= c <= 'Z' then (c as int + 32) as char else c
  }

  function Lower(s: string): (r: string)
    ensures |r| == |s| && forall i :: 0 <= i < |s| ==> r[i] == AsciiLower(s[i])
  {
    if |s| == 0 then [] else [AsciiLower(s[0])] + Lower(s[1..])
  }

  /** Drop leading characters satisfying p. */
  function TrimLeft(s: string, p: char -> bool): (r: string)
    ensures |r| <= |s| && r == s[|s| - |r|..]
    ensures forall i :: 0 <= i < |s| - |r| ==> p(s[i])
    ensures |r| > 0 ==> !p(r[0])
  {
    if |s| > 0 && p(s[0]) then TrimLeft(s[1..], p) else s
  }

  /** Drop trailing characters satisfying p. */
  function TrimRight(s: string, p: char -> bool): (r: string)
    ensures |r| <= |s| && r == s[..|r|]
    ensures forall i :: |r| <= i < |s| ==> p(s[i])
    ensures |r| > 0 ==> !p(r[|r| - 1])
  {
    if |s| > 0 && p(s[|s| - 1]) then TrimRight(s[..|s| - 1], p) else s
  }

  /** `s.strip(chars)`: the part of s between its leading and trailing runs of
      characters satisfying p. */
  function Trim(s: string, p: char -> bool): string {
    TrimRight(TrimLeft(s, p), p)
  }

  /** Trim cuts s into three: a run of p-characters, the result s[a..b], and
      another run of p-characters; the result neither starts nor ends with one. */
  lemma TrimIsInfix(s: string, p: char -> bool) returns (a: nat, b: nat)
    ensures a <= b <= |s| && Trim(s, p) == s[a..b]
    ensures forall i :: 0 <= i < a ==> p(s[i])
    ensures forall i :: b <= i < |s| ==> p(s[i])
    ensures var r := Trim(s, p); |r| > 0 ==> !p(r[0]) && !p(r[|r| - 1])
  {
    var l := TrimLeft(s, p);
    var r := TrimRight(l, p);
    a := |s| - |l|;
    b := a + |r|;
    assert l == s[a..];
    assert r == l[..|r|];
    assert r == s[a..b];
    forall i | b <= i < |s| ensures p(s[i]) {
      assert s[i] == l[i - a];
    }
    assert Trim(s, p) == r;
    if |r| > 0 {
      assert r[0] == l[0];
    }
  }

  lemma {:induction false} TrimIdempotent(s: string, p: char -> bool)
    ensures Trim(Trim(s, p), p) == Trim(s, p)
  {
    var r := Trim(s, p);
    var a, b := TrimIsInfix(s, p);
    assert TrimLeft(r, p) == r;
    assert TrimRight(r, p) == r;
  }

  /** Python's `str.strip()` with no argument. */
  function Strip(s: string): string {
    Trim(s, IsPySpace)
  }

  /** Python's `str.split()` with no argument: the maximal runs of
      non-whitespace characters, in order. */
  function Tokens(s: string): (r: seq<string>)
  {
    Filter(Segments(s, c => !IsPySpace(c)), (t: string) => |t| > 0)
  }

  /** Every token is non-empty and holds no whitespace. */
  lemma TokensAreWords(s: string)
    ensures forall k :: 0 <= k < |Tokens(s)| ==> |Tokens(s)[k]| > 0
    ensures forall k, j :: 0 <= k < |Tokens(s)| && 0 <= j < |Tokens(s)[k]| ==> !IsPySpace(Tokens(s)[k][j])
  {
    var segs := Segments(s, c => !IsPySpace(c));
    SegmentsDecompose(s, c => !IsPySpace(c));
    FilterMembers(segs, (t: string) => |t| > 0);
    forall k, j | 0 <= k < |Tokens(s)| && 0 <= j < |Tokens(s)[k]| ensures !IsPySpace(Tokens(s)[k][j]) {
      var t := Tokens(s)[k];
      assert t in segs;
      var m :| 0 <= m < |segs| && segs[m] == t;
      assert (c => !IsPySpace(c))(segs[m][j]);
    }
  }

  /** `sep.join(xs)`. */
  function JoinWith(sep: string, xs: seq<string>): string {
    if |xs| == 0 then [] else if |xs| == 1 then xs[0] else xs[0] + sep + JoinWith(sep, xs[1..])
  }

  /** t occurs in s starting at index i. */
  predicate OccursAt(s: string, t: string, i: nat) {
    i + |t| <= |s| && s[i..i + |t|] == t
  }

  /** `t in s` for strings: t occurs as a contiguous substring of s. */
  function Contains(s: string, t: string): (b: bool)
    ensures b <==> exists i: nat :: OccursAt(s, t, i)
  {
    if |t| > |s| then false
    else if s[..|t|] == t then assert OccursAt(s, t, 0); true
    else
      var b := Contains(s[1..], t);
      assert (exists i: nat :: OccursAt(s, t, i)) ==> b by {
        if exists i: nat :: OccursAt(s, t, i) {
          var i: nat :| OccursAt(s, t, i);
          assert i != 0;
          assert s[1..][i - 1..i - 1 + |t|] == t;
          assert OccursAt(s[1..], t, i - 1);
        }
      }
      assert b ==> exists i: nat :: OccursAt(s, t, i) by {
        if b {
          var i: nat :| OccursAt(s[1..], t, i);
          assert s[i + 1..i + 1 + |t|] == t;
          assert OccursAt(s, t, i + 1);
        }
      }
      b
  }

  predicate EndsWith(s: string, t: string) {
    |t| <= |s| && s[|s| - |t|..] == t
  }

  /** A non-empty string of ASCII digits (`str.isdigit()` on ASCII text). */
  predicate AllDigits(s: string) {
    |s| > 0 && forall i :: 0 <= i < |s| ==> IsAsciiDigit(s[i])
  }

  /** `int(s)` for a string of ASCII digits. */
  function DecimalValue(s: string): nat
    requires forall i :: 0 <= i < |s| ==> IsAsciiDigit(s[i])
  {
    if |s| == 0 then 0
    else
      assert IsAsciiDigit(s[|s| - 1]);
      10 * DecimalValue(s[..|s| - 1]) + (s[|s| - 1] as int - '0' as int)
  }

  /** The decimal digits of n, most significant first (`str(n)`). */
  function DecimalString(n: nat): (s: string)
    ensures forall i :: 0 <= i < |s| ==> IsAsciiDigit(s[i])
    ensures |s| > 0
  {
    if n < 10 then [('0' as int + n) as char] else DecimalString(n / 10) + [('0' as int + n % 10) as char]
  }

  /** `int(str(n)) == n`. */
  lemma {:induction false} DecimalRoundTrip(n: nat)
    ensures DecimalValue(DecimalString(n)) == n
  {
    var s := DecimalString(n);
    if n >= 10 {
      DecimalRoundTrip(n / 10);
      assert s[..|s| - 1] == DecimalString(n / 10);
    }
  }

  /** Python's string comparison `a < b`: code point by code point, a proper
      prefix being smaller. */
  predicate LexLess(a: string, b: string) {
    if |a| == 0 then |b| > 0
    else if |b| == 0 then false
    else if a[0] == b[0] then LexLess(a[1..], b[1..])
    else a[0] < b[0]
  }

  lemma {:induction false} LexLessIrreflexive(a: string)
    ensures !LexLess(a, a)
  {
    if |a| > 0 { LexLessIrreflexive(a[1..]); }
  }

  lemma {:induction false} LexLessTransitive(a: string, b: string, c: string)
    requires LexLess(a, b) && LexLess(b, c)
    ensures LexLess(a, c)
  {
    if |a| > 0 && |b| > 0 && |c| > 0 && a[0] == b[0] && b[0] == c[0] {
      LexLessTransitive(a[1..], b[1..], c[1..]);
    }
  }

  lemma {:induction false} LexLessTotal(a: string, b: string)
    requires a != b
    ensures LexLess(a, b) || LexLess(b, a)
  {
    if |a| > 0 && |b| > 0 && a[0] == b[0] {
      assert a == [a[0]] + a[1..] && b == [b[0]] + b[1..];
      LexLessTotal(a[1..], b[1..]);
    }
  }

  ghost predicate StrictlySorted(xs: seq<string>) {
    forall i, j :: 0 <= i < j < |xs| ==> LexLess(xs[i], xs[j])
  }

  /** Insert x into a sorted duplicate-free list, unless it is already there. */
  function Insert(x: string, xs: seq<string>): seq<string> {
    if |xs| == 0 then [x]
    else if x == xs[0] then xs
    else if LexLess(x, xs[0]) then [x] + xs
    else [xs[0]] + Insert(x, xs[1..])
  }

  lemma {:induction false} InsertSorted(x: string, xs: seq<string>)
    requires StrictlySorted(xs)
    ensures StrictlySorted(Insert(x, xs))
    ensures forall y :: y in Insert(x, xs) <==> y == x || y in xs
  {
    if |xs| > 0 && x != xs[0] {
      if LexLess(x, xs[0]) {
        var r := [x] + xs;
        forall i, j | 0 <= i < j < |r| ensures LexLess(r[i], r[j]) {
          if i == 0 && j > 1 { LexLessTransitive(x, xs[0], xs[j - 1]); }
        }
      } else {
        LexLessTotal(x, xs[0]);
        InsertSorted(x, xs[1..]);
        var r := [xs[0]] + Insert(x, xs[1..]);
        forall i, j | 0 <= i < j < |r| ensures LexLess(r[i], r[j]) {
          if i == 0 {
            var y := r[j];
            assert y in Insert(x, xs[1..]);
            if y != x {
              assert y in xs[1..];
              var m :| 0 <= m < |xs[1..]| && xs[1..][m] == y;
              assert xs[m + 1] == y;
            }
          }
        }
      }
    }
  }

  /** `sorted(set(xs))`. */
  function SortedSet(xs: seq<string>): seq<string> {
    if |xs| == 0 then [] else Insert(xs[|xs| - 1], SortedSet(xs[..|xs| - 1]))
  }

  /** `sorted(set(xs))` is strictly ascending and holds exactly the elements of xs. */
  lemma {:induction false} SortedSetProperties(xs: seq<string>)
    ensures StrictlySorted(SortedSet(xs))
    ensures forall y :: y in SortedSet(xs) ==> y in xs
    ensures forall y :: y in xs ==> y in SortedSet(xs)
  {
    if |xs| > 0 {
      SortedSetProperties(xs[..|xs| - 1]);
      InsertSorted(xs[|xs| - 1], SortedSet(xs[..|xs| - 1]));
      assert xs == xs[..|xs| - 1] + [xs[|xs| - 1]];
    }
  }

  /** A strictly ascending list holds no element twice. */
  lemma StrictlySortedDistinct(xs: seq<string>)
    requires StrictlySorted(xs)
    ensures Distinct(xs)
  {
    forall i, j | 0 <= i < j < |xs| ensures xs[i] != xs[j] {
      if xs[i] == xs[j] { LexLessIrreflexive(xs[i]); }
    }
  }
}
