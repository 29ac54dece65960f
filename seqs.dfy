/** Generic sequence machinery behind the scripts' scanners: splitting into
    maximal runs (the `flush`-on-break accumulator and `str.split(sep)`), keeping
    the long runs, first-occurrence de-duplication (the `seen` set loops),
    first-match search (`for ...: if ...: break`) and filtering (comprehensions). */
module Seqs {
  import opened Wrappers

  /** The maximal runs of kept elements of s, in order, with an empty run
      between adjacent dropped elements and at either end: Python's
      `s.split(sep)` when `keep` is "is not sep". */
  function Segments<T>(s: seq<T>, keep: T -> bool): (r: seq<seq<T>>)
    ensures |r| >= 1
  {
    if |s| == 0 then [[]]
    else
      var p := Segments(s[..|s| - 1], keep);
      var x := s[|s| - 1];
      if keep(x) then p[..|p| - 1] + [p[|p| - 1] + [x]] else p + [[]]
  }

  /** The dropped elements of s, in order: the separators between the runs. */
  function Separators<T>(s: seq<T>, keep: T -> bool): seq<T>
  {
    if |s| == 0 then []
    else
      var p := Separators(s[..|s| - 1], keep);
      if keep(s[|s| - 1]) then p else p + [s[|s| - 1]]
  }

  /** segs[0] + [seps[0]] + segs[1] + ... + [seps[n-1]] + segs[n]. */
  function Interleave<T>(segs: seq<seq<T>>, seps: seq<T>): seq<T>
    requires |segs| == |seps| + 1
  {
    if |seps| == 0 then segs[0]
    else Interleave(segs[..|segs| - 1], seps[..|seps| - 1]) + [seps[|seps| - 1]] + segs[|segs| - 1]
  }

  ghost predicate AllKept<T>(segs: seq<seq<T>>, keep: T -> bool) {
    forall k, j :: 0 <= k < |segs| && 0 <= j < |segs[k]| ==> keep(segs[k][j])
  }

  ghost predicate NoneKept<T>(seps: seq<T>, keep: T -> bool) {
    forall j :: 0 <= j < |seps| ==> !keep(seps[j])
  }

  lemma InterleaveExtendLast<T>(segs: seq<seq<T>>, seps: seq<T>, x: T)
    requires |segs| == |seps| + 1
    ensures Interleave(segs[..|segs| - 1] + [segs[|segs| - 1] + [x]], seps) == Interleave(segs, seps) + [x]
  {
    var segs' := segs[..|segs| - 1] + [segs[|segs| - 1] + [x]];
    assert segs'[..|segs'| - 1] == segs[..|segs| - 1];
  }

  /** The runs and separators of s are a decomposition of s: s is the runs
      interleaved with the separators, every run is made of kept elements and
      every separator is dropped. So each run is maximal. */
  lemma {:induction false} SegmentsDecompose<T>(s: seq<T>, keep: T -> bool)
    ensures |Segments(s, keep)| == |Separators(s, keep)| + 1
    ensures Interleave(Segments(s, keep), Separators(s, keep)) == s
    ensures AllKept(Segments(s, keep), keep)
    ensures NoneKept(Separators(s, keep), keep)
  {
    if |s| > 0 {
      var s', x := s[..|s| - 1], s[|s| - 1];
      assert s == s' + [x];
      SegmentsDecompose(s', keep);
      var p, q := Segments(s', keep), Separators(s', keep);
      if keep(x) {
        InterleaveExtendLast(p, q, x);
        var r := Segments(s, keep);
        assert r == p[..|p| - 1] + [p[|p| - 1] + [x]];
        forall k, j | 0 <= k < |r| && 0 <= j < |r[k]| ensures keep(r[k][j]) {
          if k < |p| - 1 {
            assert r[k] == p[k];
          } else if j < |p[|p| - 1]| {
            assert r[k][j] == p[|p| - 1][j];
          }
        }
      } else {
        var r := Segments(s, keep);
        assert r == p + [[]];
        assert r[..|r| - 1] == p;
        forall k, j | 0 <= k < |r| && 0 <= j < |r[k]| ensures keep(r[k][j]) {
          assert r[k] == p[k];
        }
      }
    }
  }

  lemma {:induction false} SegmentsAppendKept<T>(a: seq<T>, b: seq<T>, keep: T -> bool)
    requires forall j :: 0 <= j < |b| ==> keep(b[j])
    ensures var p := Segments(a, keep);
      Segments(a + b, keep) == p[..|p| - 1] + [p[|p| - 1] + b]
  {
    if |b| > 0 {
      var b', x := b[..|b| - 1], b[|b| - 1];
      SegmentsAppendKept(a, b', keep);
      assert a + b == (a + b') + [x];
      SegmentsSnocKept(a + b', x, keep);
      ExtendLastRun(Segments(a, keep), b', x);
      assert b == b' + [x];
    } else {
      var p := Segments(a, keep);
      assert b == [] && a + b == a;
      assert p[|p| - 1] + b == p[|p| - 1];
      assert p == p[..|p| - 1] + [p[|p| - 1]];
    }
  }

  /** A kept element extends the last run. */
  lemma SegmentsSnocKept<T>(s: seq<T>, x: T, keep: T -> bool)
    requires keep(x)
    ensures var p := Segments(s, keep);
      Segments(s + [x], keep) == p[..|p| - 1] + [p[|p| - 1] + [x]]
  {
    assert (s + [x])[..|s|] == s;
  }

  /** Extending the last run by b and then by x extends it by b + [x]. */
  lemma ExtendLastRun<T>(p: seq<seq<T>>, b: seq<T>, x: T)
    requires |p| >= 1
    ensures var q := p[..|p| - 1] + [p[|p| - 1] + b];
      q[..|q| - 1] + [q[|q| - 1] + [x]] == p[..|p| - 1] + [p[|p| - 1] + (b + [x])]
  {
    var q := p[..|p| - 1] + [p[|p| - 1] + b];
    assert q[..|q| - 1] == p[..|p| - 1];
    assert q[|q| - 1] + [x] == p[|p| - 1] + (b + [x]);
  }

  /** The converse of SegmentsDecompose: any decomposition of s into kept runs
      and dropped separators is the one Segments and Separators compute. So
      Segments is exactly "the maximal runs of kept elements". */
  lemma {:induction false} SegmentsUnique<T>(s: seq<T>, keep: T -> bool, segs: seq<seq<T>>, seps: seq<T>)
    requires |segs| == |seps| + 1
    requires AllKept(segs, keep) && NoneKept(seps, keep)
    requires Interleave(segs, seps) == s
    ensures Segments(s, keep) == segs
    decreases |seps|
  {
    var last := segs[|segs| - 1];
    if |seps| == 0 {
      SegmentsOneRun(segs, keep);
    } else {
      var segs', seps' := segs[..|segs| - 1], seps[..|seps| - 1];
      DecompositionInit(segs, seps, keep);
      forall j | 0 <= j < |last| ensures keep(last[j]) {
        assert keep(segs[|segs| - 1][j]);
      }
      var pre := Interleave(segs', seps');
      SegmentsUnique(pre, keep, segs', seps');
      SegmentsAfterSeparator(pre, seps[|seps| - 1], last, keep);
      assert segs == segs' + [last];
    }
  }

  /** A single run of kept elements is its own only run. */
  lemma SegmentsOneRun<T>(segs: seq<seq<T>>, keep: T -> bool)
    requires |segs| == 1 && AllKept(segs, keep)
    ensures Segments(segs[0], keep) == segs
  {
    var s := segs[0];
    assert forall j :: 0 <= j < |s| ==> keep(s[j]);
    SegmentsAppendKept([], s, keep);
    assert [] + s == s;
    assert Segments([], keep) == [[]];
  }

  /** Dropping the last run and separator of a decomposition leaves a
      decomposition of what precedes them. */
  lemma DecompositionInit<T>(segs: seq<seq<T>>, seps: seq<T>, keep: T -> bool)
    requires |segs| == |seps| + 1 && |seps| > 0
    requires AllKept(segs, keep) && NoneKept(seps, keep)
    ensures AllKept(segs[..|segs| - 1], keep) && NoneKept(seps[..|seps| - 1], keep)
    ensures !keep(seps[|seps| - 1])
    ensures Interleave(segs, seps) ==
      Interleave(segs[..|segs| - 1], seps[..|seps| - 1]) + [seps[|seps| - 1]] + segs[|segs| - 1]
  {
    var segs', seps' := segs[..|segs| - 1], seps[..|seps| - 1];
    forall k, j | 0 <= k < |segs'| && 0 <= j < |segs'[k]| ensures keep(segs'[k][j]) {
      assert segs'[k] == segs[k];
    }
    forall j | 0 <= j < |seps'| ensures !keep(seps'[j]) {
      assert seps'[j] == seps[j];
    }
  }

  /** A dropped element followed by kept ones opens one more run. */
  lemma SegmentsAfterSeparator<T>(pre: seq<T>, x: T, last: seq<T>, keep: T -> bool)
    requires !keep(x)
    requires forall j :: 0 <= j < |last| ==> keep(last[j])
    ensures Segments(pre + [x] + last, keep) == Segments(pre, keep) + [last]
  {
    var a := pre + [x];
    assert a[..|a| - 1] == pre;
    var P := Segments(pre, keep) + [[]];
    assert Segments(a, keep) == P;
    SegmentsAppendKept(a, last, keep);
    assert P[..|P| - 1] == Segments(pre, keep);
    assert P[|P| - 1] + last == last;
  }

  /** Growing s never disturbs the runs already closed: the runs of a prefix,
      all but the last, are the first runs of s; and when the next element is
      dropped the prefix's last run is closed too. */
  lemma {:induction false} SegmentsPrefix<T>(s: seq<T>, j: nat, keep: T -> bool)
    requires j <= |s|
    ensures var p, q := Segments(s[..j], keep), Segments(s, keep);
      |p| <= |q| && p[..|p| - 1] == q[..|p| - 1]
    ensures var p, q := Segments(s[..j], keep), Segments(s, keep);
      j < |s| && !keep(s[j]) ==> |p| < |q| && p[|p| - 1] == q[|p| - 1]
  {
    if j < |s| {
      var s', x := s[..|s| - 1], s[|s| - 1];
      assert s'[..j] == s[..j];
      var p, q', q := Segments(s[..j], keep), Segments(s', keep), Segments(s, keep);
      // q agrees with q' everywhere but at q's last one or two places
      assert |q| >= |q'| && q[..|q'| - 1] == q'[..|q'| - 1] by {
        if keep(x) {
          assert q == q'[..|q'| - 1] + [q'[|q'| - 1] + [x]];
        } else {
          assert q == q' + [[]];
        }
      }
      if j == |s'| {
        assert s[..j] == s' && p == q';
        if !keep(x) {
          assert q == q' + [[]];
        }
      } else {
        SegmentsPrefix(s', j, keep);
        assert s'[j] == s[j];
        assert q[..|p| - 1] == q[..|q'| - 1][..|p| - 1];
        assert q'[..|p| - 1] == q'[..|q'| - 1][..|p| - 1];
      }
    } else {
      assert s[..j] == s;
    }
  }

  /** After a dropped element (or at the very start) a new, empty run opens. */
  lemma RunOpens<T>(s: seq<T>, keep: T -> bool, a: nat)
    requires a <= |s| && (a == 0 || !keep(s[a - 1]))
    ensures var P := Segments(s[..a], keep); P[|P| - 1] == []
  {
    if a > 0 {
      assert s[..a][..a - 1] == s[..a - 1];
    }
  }

  /** A run of kept elements that starts after a dropped element is the last
      segment of the prefix it ends. */
  lemma RunIsLastSegment<T>(s: seq<T>, keep: T -> bool, a: nat, b: nat)
    requires a <= b <= |s|
    requires forall k :: a <= k < b ==> keep(s[k])
    requires a == 0 || !keep(s[a - 1])
    ensures var p := Segments(s[..b], keep); p[|p| - 1] == s[a..b]
  {
    var run := s[a..b];
    assert forall k :: 0 <= k < |run| ==> keep(run[k]) by {
      forall k | 0 <= k < |run| ensures keep(run[k]) {
        assert run[k] == s[a + k];
      }
    }
    RunOpens(s, keep, a);
    SegmentsAppendKept(s[..a], run, keep);
    assert s[..a] + run == s[..b];
  }

  /** Every maximal run of kept elements of s is one of its segments. */
  lemma MaximalRunIsSegment<T>(s: seq<T>, keep: T -> bool, a: nat, b: nat)
    requires a <= b <= |s|
    requires forall k :: a <= k < b ==> keep(s[k])
    requires a == 0 || !keep(s[a - 1])
    requires b == |s| || !keep(s[b])
    ensures s[a..b] in Segments(s, keep)
  {
    RunIsLastSegment(s, keep, a, b);
    SegmentsPrefix(s, b, keep);
    if b == |s| {
      assert s[..b] == s;
    }
  }

  /** f applied to every element, in order. */
  function Map<T, U>(f: T -> U, xs: seq<T>): (r: seq<U>)
    ensures |r| == |xs| && forall i :: 0 <= i < |xs| ==> r[i] == f(xs[i])
  {
    if |xs| == 0 then [] else Map(f, xs[..|xs| - 1]) + [f(xs[|xs| - 1])]
  }

  /** The runs of at least minLen elements, in order: what a `flush` that only
      appends `if len(cur) >= min_len` keeps. */
  function LongOnly<T>(segs: seq<seq<T>>, minLen: nat): seq<seq<T>>
  {
    if |segs| == 0 then []
    else
      LongOnly(segs[..|segs| - 1], minLen)
        + (if |segs[|segs| - 1]| >= minLen then [segs[|segs| - 1]] else [])
  }

  lemma {:induction false} LongOnlyMembers<T>(segs: seq<seq<T>>, minLen: nat)
    ensures forall x :: x in LongOnly(segs, minLen) <==> x in segs && |x| >= minLen
  {
    if |segs| > 0 {
      LongOnlyMembers(segs[..|segs| - 1], minLen);
      assert segs == segs[..|segs| - 1] + [segs[|segs| - 1]];
    }
  }

  /** Keep the first occurrence of every element, in order: the
      `if s not in seen: seen.add(s); out.append(s)` loop. */
  function Dedup<T(==)>(xs: seq<T>): seq<T>
  {
    if |xs| == 0 then []
    else
      var p := Dedup(xs[..|xs| - 1]);
      if xs[|xs| - 1] in p then p else p + [xs[|xs| - 1]]
  }

  ghost predicate Distinct<T>(xs: seq<T>) {
    forall i, j :: 0 <= i < j < |xs| ==> xs[i] != xs[j]
  }

  /** Index of the first occurrence of x in xs. */
  function FirstIndex<T(==)>(xs: seq<T>, x: T): (i: nat)
    requires x in xs
    ensures i < |xs| && xs[i] == x && x !in xs[..i]
  {
    if xs[0] == x then 0 else 1 + FirstIndex(xs[1..], x)
  }

  lemma {:induction false} FirstIndexAppend<T>(xs: seq<T>, y: T, x: T)
    requires x in xs
    ensures FirstIndex(xs + [y], x) == FirstIndex(xs, x)
  {
    if xs[0] != x {
      assert (xs + [y])[1..] == xs[1..] + [y];
      FirstIndexAppend(xs[1..], y, x);
    }
  }

  lemma {:induction false} FirstIndexOfNew<T>(xs: seq<T>, x: T)
    requires x !in xs
    ensures FirstIndex(xs + [x], x) == |xs|
  {
    if |xs| > 0 {
      assert (xs + [x])[1..] == xs[1..] + [x];
      FirstIndexOfNew(xs[1..], x);
    }
  }

  /** Dedup keeps exactly the elements of xs, each once, ordered by where each
      first occurs in xs. */
  lemma {:induction false} DedupProperties<T>(xs: seq<T>)
    ensures forall x :: x in Dedup(xs) ==> x in xs
    ensures forall x :: x in xs ==> x in Dedup(xs)
    ensures Distinct(Dedup(xs))
    ensures forall i, j :: 0 <= i < j < |Dedup(xs)| ==>
              FirstIndex(xs, Dedup(xs)[i]) < FirstIndex(xs, Dedup(xs)[j])
  {
    if |xs| > 0 {
      var xs', y := xs[..|xs| - 1], xs[|xs| - 1];
      assert xs == xs' + [y];
      DedupProperties(xs');
      var p := Dedup(xs');
      forall x | x in p ensures FirstIndex(xs, x) == FirstIndex(xs', x) {
        FirstIndexAppend(xs', y, x);
      }
      if y !in p {
        FirstIndexOfNew(xs', y);
        var r := p + [y];
        forall i, j | 0 <= i < j < |r| ensures FirstIndex(xs, r[i]) < FirstIndex(xs, r[j]) {
          assert r[i] in p;
          if j < |p| {
            assert r[j] in p;
          }
        }
      }
    }
  }

  /** The `seen`-set loop itself. */
  method KeepFirstOccurrences<T(==)>(xs: seq<T>) returns (uniq: seq<T>)
    ensures uniq == Dedup(xs)
  {
    uniq := [];
    var seen: set<T> := {};
    for k := 0 to |xs|
      invariant uniq == Dedup(xs[..k])
      invariant forall x :: x in seen <==> x in uniq
    {
      assert xs[..k + 1][..k] == xs[..k];
      if xs[k] !in seen {
        uniq := uniq + [xs[k]];
        seen := seen + {xs[k]};
      }
    }
    assert xs[..|xs|] == xs;
  }

  /** The second components, in order. */
  function Seconds<T>(entries: seq<(nat, T)>): seq<T> {
    seq(|entries|, i requires 0 <= i < |entries| => entries[i].1)
  }

  /** Scan positions 0, 1, ... of hits; keep (i, x) for each hit Some(x) whose
      x was not kept before: a scan with a `seen` set. */
  function FirstHits<T(==)>(hits: seq<Option<T>>): seq<(nat, T)> {
    if |hits| == 0 then []
    else
      var p := FirstHits(hits[..|hits| - 1]);
      var h := hits[|hits| - 1];
      if h.Some? && h.value !in Seconds(p) then p + [(|hits| - 1, h.value)] else p
  }

  lemma SecondsAppend<T>(entries: seq<(nat, T)>, e: (nat, T))
    ensures Seconds(entries + [e]) == Seconds(entries) + [e.1]
  {
    assert (entries + [e])[..|entries|] == entries;
  }

  lemma FirstHitsStep<T>(hits: seq<Option<T>>, h: Option<T>)
    ensures var p := FirstHits(hits);
      FirstHits(hits + [h]) == if h.Some? && h.value !in Seconds(p) then p + [(|hits|, h.value)] else p
  {
    assert (hits + [h])[..|hits|] == hits;
  }

  /** Every entry is a hit at its own position, and positions strictly
      increase. */
  lemma {:induction false} FirstHitsEntries<T>(hits: seq<Option<T>>)
    ensures forall k :: 0 <= k < |FirstHits(hits)| ==>
              FirstHits(hits)[k].0 < |hits| && hits[FirstHits(hits)[k].0] == Some(FirstHits(hits)[k].1)
    ensures forall a, b :: 0 <= a < b < |FirstHits(hits)| ==> FirstHits(hits)[a].0 < FirstHits(hits)[b].0
  {
    if |hits| > 0 {
      var hits' := hits[..|hits| - 1];
      FirstHitsEntries(hits');
      var p, r := FirstHits(hits'), FirstHits(hits);
      forall k | 0 <= k < |p| ensures p[k].0 < |hits| - 1 && hits[p[k].0] == Some(p[k].1) {
        assert hits'[p[k].0] == hits[p[k].0];
      }
      if r != p {
        assert r == p + [(|hits| - 1, hits[|hits| - 1].value)];
        forall a, b | 0 <= a < b < |r| ensures r[a].0 < r[b].0 {
          assert r[a] == p[a];
        }
      }
    }
  }

  /** Every hit value is kept, exactly once. */
  lemma {:induction false} FirstHitsComplete<T>(hits: seq<Option<T>>)
    ensures Distinct(Seconds(FirstHits(hits)))
    ensures forall i :: 0 <= i < |hits| && hits[i].Some? ==> hits[i].value in Seconds(FirstHits(hits))
  {
    if |hits| > 0 {
      var hits' := hits[..|hits| - 1];
      FirstHitsComplete(hits');
      var p, r := FirstHits(hits'), FirstHits(hits);
      if r != p {
        var x := hits[|hits| - 1].value;
        assert r == p + [(|hits| - 1, x)];
        assert Seconds(r) == Seconds(p) + [x];
      }
      forall i | 0 <= i < |hits| && hits[i].Some? ensures hits[i].value in Seconds(r) {
        if i < |hits| - 1 {
          assert hits'[i] == hits[i];
          assert hits[i].value in Seconds(p);
        }
      }
    }
  }

  /** Each value is kept at the first position where it is a hit. */
  lemma {:induction false} FirstHitsFirst<T>(hits: seq<Option<T>>)
    ensures forall k, i :: 0 <= k < |FirstHits(hits)| && 0 <= i < FirstHits(hits)[k].0 && i < |hits| && hits[i].Some? ==>
              hits[i].value != FirstHits(hits)[k].1
  {
    if |hits| > 0 {
      var hits' := hits[..|hits| - 1];
      FirstHitsFirst(hits');
      FirstHitsEntries(hits');
      FirstHitsComplete(hits');
      var p, r := FirstHits(hits'), FirstHits(hits);
      if r != p {
        var x := hits[|hits| - 1].value;
        assert r == p + [(|hits| - 1, x)];
        forall k, i | 0 <= k < |r| && 0 <= i < r[k].0 && i < |hits| && hits[i].Some? ensures hits[i].value != r[k].1 {
          if k < |p| {
            assert p[k].0 < |hits'|;
            assert hits'[i] == hits[i];
            assert r[k] == p[k];
          } else {
            assert hits'[i] == hits[i];
            assert hits[i].value in Seconds(p);
          }
        }
      } else {
        forall k, i | 0 <= k < |r| && 0 <= i < r[k].0 && i < |hits| && hits[i].Some? ensures hits[i].value != r[k].1 {
          assert p[k].0 < |hits'|;
          assert hits'[i] == hits[i];
        }
      }
    }
  }

  /** The first index whose element satisfies p, if any: a `for` loop that
      stops at the first hit with `break`. */
  function FirstWhere<T>(xs: seq<T>, p: T -> bool): (r: Option<nat>)
    ensures r.Some? ==> r.value < |xs| && p(xs[r.value])
    ensures r.Some? ==> forall k :: 0 <= k < r.value ==> !p(xs[k])
    ensures r.None? <==> forall k :: 0 <= k < |xs| ==> !p(xs[k])
  {
    if |xs| == 0 then None
    else if p(xs[0]) then Some(0)
    else match FirstWhere(xs[1..], p)
      case None => None
      case Some(i) => Some(i + 1)
  }

  /** The elements of xs that satisfy p, in order: a list comprehension with
      an `if` clause. */
  function Filter<T>(xs: seq<T>, p: T -> bool): seq<T>
  {
    if |xs| == 0 then []
    else Filter(xs[..|xs| - 1], p) + (if p(xs[|xs| - 1]) then [xs[|xs| - 1]] else [])
  }

  lemma {:induction false} FilterMembers<T>(xs: seq<T>, p: T -> bool)
    ensures forall j :: 0 <= j < |Filter(xs, p)| ==> p(Filter(xs, p)[j])
    ensures forall x :: x in Filter(xs, p) <==> x in xs && p(x)
  {
    if |xs| > 0 {
      FilterMembers(xs[..|xs| - 1], p);
      assert xs == xs[..|xs| - 1] + [xs[|xs| - 1]];
    }
  }

  /** Filtering distributes over concatenation. */
  /** The kept elements are a sublist of xs: they sit at strictly increasing
      positions, and every position whose element passes the test is one of
      them, so nothing is reordered, merged or dropped. */
  lemma {:induction false} FilterIndices<T>(xs: seq<T>, p: T -> bool) returns (idx: seq<nat>)
    ensures |idx| == |Filter(xs, p)|
    ensures forall k :: 0 <= k < |idx| ==> idx[k] < |xs| && Filter(xs, p)[k] == xs[idx[k]]
    ensures forall k, l :: 0 <= k < l < |idx| ==> idx[k] < idx[l]
    ensures forall i :: 0 <= i < |xs| && p(xs[i]) ==> i in idx
  {
    if |xs| == 0 {
      idx := [];
    } else {
      var n := |xs| - 1;
      var ys := xs[..n];
      var idx' := FilterIndices(ys, p);
      var tail := if p(xs[n]) then [n] else [];
      idx := idx' + tail;
      assert Filter(xs, p) == Filter(ys, p) + (if p(xs[n]) then [xs[n]] else []);
      forall k | 0 <= k < |idx| ensures idx[k] < |xs| && Filter(xs, p)[k] == xs[idx[k]] {
        if k < |idx'| {
          assert ys[idx'[k]] == xs[idx'[k]];
        }
      }
      forall i | 0 <= i < |xs| && p(xs[i]) ensures i in idx {
        if i < n {
          assert ys[i] == xs[i];
        } else {
          assert idx[|idx| - 1] == n;
        }
      }
    }
  }

  /** Filtering one more element keeps or drops just that element. */
  lemma FilterStep<T>(xs: seq<T>, k: nat, p: T -> bool)
    requires k < |xs|
    ensures Filter(xs[..k + 1], p) == Filter(xs[..k], p) + (if p(xs[k]) then [xs[k]] else [])
  {
    assert xs[..k + 1][..k] == xs[..k];
  }

  lemma {:induction false} FilterAppend<T>(a: seq<T>, b: seq<T>, p: T -> bool)
    ensures Filter(a + b, p) == Filter(a, p) + Filter(b, p)
  {
    if |b| > 0 {
      var b' := b[..|b| - 1];
      assert (a + b)[..|a + b| - 1] == a + b';
      assert (a + b)[|a + b| - 1] == b[|b| - 1];
      FilterAppend(a, b', p);
    } else {
      assert a + b == a;
    }
  }

  lemma {:induction false} FilterNone<T>(a: seq<T>, p: T -> bool)
    requires forall i :: 0 <= i < |a| ==> !p(a[i])
    ensures Filter(a, p) == []
  {
    if |a| > 0 {
      FilterNone(a[..|a| - 1], p);
    }
  }

  /** Two sequences that agree wherever either satisfies p filter alike. */
  lemma {:induction false} FilterAgree<T>(xs: seq<T>, ys: seq<T>, p: T -> bool)
    requires |xs| == |ys|
    requires forall i :: 0 <= i < |xs| ==> (p(xs[i]) <==> p(ys[i]))
    requires forall i :: 0 <= i < |xs| && p(xs[i]) ==> xs[i] == ys[i]
    ensures Filter(xs, p) == Filter(ys, p)
  {
    if |xs| > 0 {
      FilterAgree(xs[..|xs| - 1], ys[..|ys| - 1], p);
    }
  }

  /** Filtering first by a test that p implies changes nothing p keeps. */
  lemma {:induction false} FilterFilter<T>(xs: seq<T>, weaker: T -> bool, p: T -> bool)
    requires forall i :: 0 <= i < |xs| && p(xs[i]) ==> weaker(xs[i])
    ensures Filter(Filter(xs, weaker), p) == Filter(xs, p)
  {
    if |xs| > 0 {
      var xs', x := xs[..|xs| - 1], xs[|xs| - 1];
      FilterFilter(xs', weaker, p);
      FilterAppend(Filter(xs', weaker), if weaker(x) then [x] else [], p);
    }
  }

  /** Every element of every segment comes from s. */
  lemma {:induction false} SegmentsElements<T>(s: seq<T>, keep: T -> bool, ok: T -> bool)
    requires forall i :: 0 <= i < |s| ==> ok(s[i])
    ensures forall k, j :: 0 <= k < |Segments(s, keep)| && 0 <= j < |Segments(s, keep)[k]| ==> ok(Segments(s, keep)[k][j])
  {
    if |s| > 0 {
      var s' := s[..|s| - 1];
      SegmentsElements(s', keep, ok);
      var p, r := Segments(s', keep), Segments(s, keep);
      forall k, j | 0 <= k < |r| && 0 <= j < |r[k]| ensures ok(r[k][j]) {
        if k < |p| - 1 {
          assert r[k] == p[k];
        } else if k == |p| - 1 && j < |p[k]| {
          assert r[k][j] == p[k][j];
        }
      }
    }
  }

  /** The runs one after another: `"".join(xss)`. */
  function Flatten<T>(xss: seq<seq<T>>): seq<T> {
    if |xss| == 0 then [] else Flatten(xss[..|xss| - 1]) + xss[|xss| - 1]
  }

  lemma FlattenOne<T>(xss: seq<seq<T>>)
    requires |xss| == 1
    ensures Flatten(xss) == xss[0]
  {
    assert Flatten(xss[..0]) == [];
  }

  /** Separators that p rejects vanish when the interleaving is filtered. */
  lemma {:induction false} FilterInterleave<T>(segs: seq<seq<T>>, seps: seq<T>, p: T -> bool)
    requires |segs| == |seps| + 1
    requires forall j :: 0 <= j < |seps| ==> !p(seps[j])
    ensures Filter(Interleave(segs, seps), p) == Filter(Flatten(segs), p)
  {
    if |seps| > 0 {
      var segs', seps' := segs[..|segs| - 1], seps[..|seps| - 1];
      var sep, last := seps[|seps| - 1], segs[|segs| - 1];
      FilterInterleave(segs', seps', p);
      var w := Interleave(segs', seps');
      FilterAppend(w + [sep], last, p);
      FilterAppend(w, [sep], p);
      assert Filter([sep], p) == [] by {
        FilterNone([sep], p);
      }
      FilterAppend(Flatten(segs'), last, p);
    } else {
      FlattenOne(segs);
    }
  }

  /** Runs that filter alike flatten to sequences that filter alike. */
  lemma {:induction false} FilterFlattenAgree<T>(xss: seq<seq<T>>, yss: seq<seq<T>>, p: T -> bool)
    requires |xss| == |yss|
    requires forall k :: 0 <= k < |xss| ==> Filter(xss[k], p) == Filter(yss[k], p)
    ensures Filter(Flatten(xss), p) == Filter(Flatten(yss), p)
  {
    if |xss| > 0 {
      var n := |xss| - 1;
      FilterFlattenAgree(xss[..n], yss[..n], p);
      FilterAppend(Flatten(xss[..n]), xss[n], p);
      FilterAppend(Flatten(yss[..n]), yss[n], p);
    }
  }

  /** Dropping only empty runs does not change the flattening. */
  lemma {:induction false} FlattenFilter<T>(xss: seq<seq<T>>, keep: seq<T> -> bool)
    requires forall k :: 0 <= k < |xss| && !keep(xss[k]) ==> xss[k] == []
    ensures Flatten(Filter(xss, keep)) == Flatten(xss)
  {
    if |xss| > 0 {
      var n := |xss| - 1;
      FlattenFilter(xss[..n], keep);
      var f := Filter(xss[..n], keep);
      if keep(xss[n]) {
        assert (f + [xss[n]])[..|f|] == f;
      } else {
        assert f + [] == f;
      }
    }
  }

  /** The loop `for x in xs: if p(x): ...; break`: the index of the first
      element satisfying p, if any. */
  method FirstMatch<T>(xs: seq<T>, p: T -> bool) returns (r: Option<nat>)
    ensures r == FirstWhere(xs, p)
  {
    r := None;
    var k := 0;
    while k < |xs|
      invariant 0 <= k <= |xs|
      invariant forall j :: 0 <= j < k ==> !p(xs[j])
    {
      if p(xs[k]) {
        r := Some(k);
        break;
      }
      k := k + 1;
    }
    FirstWhereIsFirst(xs, p, r);
  }

  /** FirstWhere is determined by its contract. */
  lemma FirstWhereIsFirst<T>(xs: seq<T>, p: T -> bool, r: Option<nat>)
    requires r.Some? ==> r.value < |xs| && p(xs[r.value]) && forall j :: 0 <= j < r.value ==> !p(xs[j])
    requires r.None? ==> forall j :: 0 <= j < |xs| ==> !p(xs[j])
    ensures r == FirstWhere(xs, p)
  {
  }

  /** Filtering a slice whose surroundings p rejects gives the same result as
      filtering the whole. */
  lemma FilterSlice<T>(s: seq<T>, a: nat, b: nat, p: T -> bool)
    requires a <= b <= |s|
    requires forall i :: 0 <= i < a ==> !p(s[i])
    requires forall i :: b <= i < |s| ==> !p(s[i])
    ensures Filter(s[a..b], p) == Filter(s, p)
  {
    var x, y, z := s[..a], s[a..b], s[b..];
    assert s[..b] == x + y;
    assert s == s[..b] + z;
    FilterAppend(s[..b], z, p);
    FilterAppend(x, y, p);
    forall i | 0 <= i < |x| ensures !p(x[i]) {
      assert x[i] == s[i];
    }
    FilterNone(x, p);
    forall i | 0 <= i < |z| ensures !p(z[i]) {
      assert z[i] == s[b + i];
    }
    FilterNone(z, p);
  }

  /** A property every element has, every kept element has. */
  lemma {:induction false} FilterKeeps<T>(xs: seq<T>, p: T -> bool, P: T -> bool)
    requires forall i :: 0 <= i < |xs| ==> P(xs[i])
    ensures forall j :: 0 <= j < |Filter(xs, p)| ==> P(Filter(xs, p)[j])
  {
    if |xs| > 0 {
      FilterKeeps(xs[..|xs| - 1], p, P);
    }
  }
}
