/**
  backend/core/secret_manager.py, SecretScrubber: redacting the spans that the secret
  patterns match.  The regex engine is outside the model; its match spans are an input.
 */
module SecretScrubber {
  import opened StableSort
  import opened Text

  const REDACTED := "[REDACTED]"

  /** A match: start, end (exclusive) and the name of the pattern. */
  datatype Span = Span(start: nat, end: nat, name: string)

  datatype ScrubMatch = ScrubMatch(patternName: string, position: nat, length: nat)

  datatype ScrubResult = ScrubResult(scrubbedText: string, matches: seq<ScrubMatch>, hadSecrets: bool)

  ghost predicate InText(text: string, spans: seq<Span>) {
    forall s :: s in spans ==> s.start < s.end <= |text|
  }

  /** By start; longer matches first among equal starts. */
  function SpanRank(s: Span): Rank { (s.start, s.start - s.end) }

  function InOrder(spans: seq<Span>): seq<Span> { Sort(spans, SpanRank) }

  function MergeOne(merged: seq<Span>, s: Span): seq<Span> {
    if merged != [] && s.start < merged[|merged| - 1].end then
      var last := merged[|merged| - 1];
      if s.end > last.end then merged[|merged| - 1 := last.(end := s.end)] else merged
    else merged + [s]
  }

  function Merge(sorted: seq<Span>): seq<Span> {
    if sorted == [] then [] else MergeOne(Merge(sorted[..|sorted| - 1]), sorted[|sorted| - 1])
  }

  ghost predicate Disjoint(merged: seq<Span>) {
    && (forall m :: m in merged ==> m.start < m.end)
    && (forall i, j :: 0 <= i < j < |merged| ==> merged[i].end <= merged[j].start)
  }

  predicate Covers(s: Span, i: int) { s.start <= i < s.end }

  predicate Covered(spans: seq<Span>, i: int) {
    exists s :: s in spans && Covers(s, i)
  }

  predicate Inside(s: Span, m: Span) { m.start <= s.start && s.end <= m.end }

  /** The span reaches across the cut between positions `cut - 1` and `cut`. */
  predicate Crosses(s: Span, cut: int) { s.start < cut < s.end }

  /** `m` starts where `s` does and has its name, and no match starting there is longer. */
  ghost predicate Leads(spans: seq<Span>, s: Span, m: Span) {
    && s in spans && s.start == m.start && s.name == m.name
    && forall t :: t in spans && t.start == m.start ==> t.end <= s.end
  }

  /** The stretches of text between the spans, from position `from` on. */
  function Gaps(text: string, from: nat, merged: seq<Span>): (gaps: seq<string>)
    requires from <= |text| && Disjoint(merged) && InText(text, merged)
    requires merged != [] ==> from <= merged[0].start
    ensures |gaps| == |merged| + 1
    decreases merged
  {
    if merged == [] then [text[from..]]
    else [text[from..merged[0].start]] + Gaps(text, merged[0].end, merged[1..])
  }

  /** The characters, in order, at positions from `i` on that no span covers. */
  function Kept(text: string, spans: seq<Span>, i: nat): string
    decreases |text| - i
  {
    if i >= |text| then ""
    else (if Covered(spans, i) then "" else [text[i]]) + Kept(text, spans, i + 1)
  }

  function CoveredFrom(text: string, spans: seq<Span>, i: nat): nat
    decreases |text| - i
  {
    if i >= |text| then 0
    else (if Covered(spans, i) then 1 else 0) + CoveredFrom(text, spans, i + 1)
  }

  function Report(m: Span): ScrubMatch
    requires m.start <= m.end
  {
    ScrubMatch(m.name, m.start, m.end - m.start)
  }

  // --------------------------------------------------------------- the method

  method Scrub(text: string, found: seq<Span>) returns (result: ScrubResult)
    requires InText(text, found)
    ensures result.hadSecrets <==> found != []
    ensures found == [] ==> result.scrubbedText == text && result.matches == []
    ensures var merged := Merge(InOrder(found));
            && Disjoint(merged) && InText(text, merged)
            && |result.matches| == |merged|
            && (forall k :: 0 <= k < |merged| ==>
                  && result.matches[k].patternName == merged[k].name && result.matches[k].position == merged[k].start
                  && result.matches[k].position + result.matches[k].length == merged[k].end)
            && result.scrubbedText == Join(Gaps(text, 0, merged), REDACTED)
  {
    MergeIsDisjoint(text, found);
    assert found != [] ==> found[0] in found;
    if text == "" || found == [] {
      return ScrubResult(text, [], false);
    }
    var merged := Combine(InOrder(found));
    var matches: seq<ScrubMatch> := [];
    for i := 0 to |merged|
      invariant |matches| == i
      invariant forall k :: 0 <= k < i ==> matches[k] == Report(merged[k])
    {
      matches := matches + [Report(merged[i])];
    }
    var scrubbed := Rewrite(text, merged);
    result := ScrubResult(scrubbed, matches, true);
  }

  method Combine(allSpans: seq<Span>) returns (merged: seq<Span>)
    ensures merged == Merge(allSpans)
  {
    merged := [];
    for i := 0 to |allSpans|
      invariant merged == Merge(allSpans[..i])
    {
      var s := allSpans[i];
      assert allSpans[..i + 1][..i] == allSpans[..i];
      if merged != [] && s.start < merged[|merged| - 1].end {
        var last := merged[|merged| - 1];
        if s.end > last.end {
          merged := merged[|merged| - 1 := Span(last.start, s.end, last.name)];
        }
      } else {
        merged := merged + [s];
      }
    }
    assert allSpans[..|allSpans|] == allSpans;
  }

  ghost function PreviousEnd(merged: seq<Span>, i: nat): nat
    requires i <= |merged|
  {
    if i == 0 then 0 else merged[i - 1].end
  }

  /** The text with the spans from position `i` on replaced. */
  ghost function RewrittenFrom(text: string, merged: seq<Span>, i: nat): string
    requires Disjoint(merged) && InText(text, merged) && i <= |merged|
  {
    assert i > 0 ==> merged[i - 1] in merged;
    text[..PreviousEnd(merged, i)] + Join(Gaps(text, PreviousEnd(merged, i), merged[i..]), REDACTED)
  }

  /** Replacing from right to left, so that earlier positions stay valid. */
  method Rewrite(text: string, merged: seq<Span>) returns (scrubbed: string)
    requires Disjoint(merged) && InText(text, merged)
    ensures scrubbed == Join(Gaps(text, 0, merged), REDACTED)
  {
    scrubbed := text;
    var i := |merged|;
    NothingRewritten(text, merged);
    while i > 0
      invariant 0 <= i <= |merged|
      invariant scrubbed == RewrittenFrom(text, merged, i)
    {
      var m := merged[i - 1];
      assert m in merged;
      RewriteOne(text, merged, i);
      scrubbed := scrubbed[..m.start] + REDACTED + scrubbed[m.end..];
      i := i - 1;
    }
    AllRewritten(text, merged);
  }

  lemma NothingRewritten(text: string, merged: seq<Span>)
    requires Disjoint(merged) && InText(text, merged)
    ensures RewrittenFrom(text, merged, |merged|) == text
  {
    var end := PreviousEnd(merged, |merged|);
    assert merged != [] ==> merged[|merged| - 1] in merged;
    assert Gaps(text, end, merged[|merged|..]) == [text[end..]];
    assert text[..end] + text[end..] == text;
  }

  lemma AllRewritten(text: string, merged: seq<Span>)
    requires Disjoint(merged) && InText(text, merged)
    ensures RewrittenFrom(text, merged, 0) == Join(Gaps(text, 0, merged), REDACTED)
  {
    assert merged[0..] == merged && text[..0] == "";
    assert "" + Join(Gaps(text, 0, merged), REDACTED) == Join(Gaps(text, 0, merged), REDACTED);
  }

  lemma RewriteOne(text: string, merged: seq<Span>, i: nat)
    requires Disjoint(merged) && InText(text, merged) && 0 < i <= |merged|
    ensures var m := merged[i - 1];
            var before := RewrittenFrom(text, merged, i);
            && m.start <= m.end <= |before|
            && before[..m.start] + REDACTED + before[m.end..] == RewrittenFrom(text, merged, i - 1)
  {
    var m := merged[i - 1];
    assert m in merged;
    var from := PreviousEnd(merged, i - 1);
    assert i > 1 ==> merged[i - 2] in merged;
    var tail := Join(Gaps(text, m.end, merged[i..]), REDACTED);
    CutBefore(text, from, m.start, m.end, tail);
    JoinFromGap(text, from, merged, i);
    Regroup(text[..from], text[from..m.start], REDACTED, tail);
  }

  lemma CutBefore(text: string, from: nat, start: nat, end: nat, tail: string)
    requires from <= start <= end <= |text|
    ensures (text[..end] + tail)[..start] == text[..from] + text[from..start]
    ensures (text[..end] + tail)[end..] == tail
  {
  }

  lemma Regroup(a: string, b: string, c: string, d: string)
    ensures (a + b) + c + d == a + (b + c + d)
  {
  }

  lemma JoinFromGap(text: string, from: nat, merged: seq<Span>, i: nat)
    requires 0 < i <= |merged| && Disjoint(merged) && InText(text, merged) && from == PreviousEnd(merged, i - 1)
    requires merged[i - 1] in merged
    ensures var m := merged[i - 1];
            Join(Gaps(text, from, merged[i - 1..]), REDACTED)
            == text[from..m.start] + REDACTED + Join(Gaps(text, m.end, merged[i..]), REDACTED)
  {
    var m := merged[i - 1];
    var head, gaps := text[from..m.start], Gaps(text, m.end, merged[i..]);
    assert merged[i - 1..][1..] == merged[i..];
    assert ([head] + gaps)[1..] == gaps;
  }

  // ------------------------------------------------------------- the merging

  ghost predicate NonEmpty(spans: seq<Span>) {
    forall s :: s in spans ==> s.start < s.end
  }

  lemma {:induction false} MergeShape(sorted: seq<Span>, limit: nat)
    requires NonEmpty(sorted) && forall s :: s in sorted ==> s.end <= limit
    ensures Disjoint(Merge(sorted))
    ensures forall m :: m in Merge(sorted) ==> m.end <= limit
  {
    if sorted != [] {
      var n := |sorted| - 1;
      MergeShape(sorted[..n], limit);
      assert sorted[n] in sorted;
      AddKeepsShape(Merge(sorted[..n]), sorted[n], limit);
    }
  }

  lemma AddKeepsShape(merged: seq<Span>, s: Span, limit: nat)
    requires Disjoint(merged) && forall m :: m in merged ==> m.end <= limit
    requires s.start < s.end <= limit
    ensures Disjoint(MergeOne(merged, s))
    ensures forall m :: m in MergeOne(merged, s) ==> m.end <= limit
  {
    var after := MergeOne(merged, s);
    assert forall i :: 0 <= i < |merged| ==> merged[i] in merged;
    forall i | 0 <= i < |after| ensures after[i].start < after[i].end <= limit {}
    forall i, j | 0 <= i < j < |after| ensures after[i].end <= after[j].start {
      assert after[i] == merged[i];
      if j < |merged| {
        assert after[j].start == merged[j].start;
      } else {
        assert merged[i].end <= merged[|merged| - 1].end;
      }
    }
  }

  lemma {:induction false} LastEndsLatest(sorted: seq<Span>)
    requires NonEmpty(sorted)
    ensures forall s :: s in sorted ==> Merge(sorted) != [] && s.end <= Merge(sorted)[|Merge(sorted)| - 1].end
  {
    if sorted != [] {
      var n := |sorted| - 1;
      LastEndsLatest(sorted[..n]);
      assert sorted == sorted[..n] + [sorted[n]];
    }
  }

  /** No merged span starts after every match read so far. */
  lemma {:induction false} MergeStarts(sorted: seq<Span>, limit: nat)
    requires forall s :: s in sorted ==> s.start <= limit
    ensures forall m :: m in Merge(sorted) ==> m.start <= limit
  {
    if sorted != [] {
      var n := |sorted| - 1;
      MergeStarts(sorted[..n], limit);
      assert sorted == sorted[..n] + [sorted[n]];
      var merged := Merge(sorted[..n]);
      assert forall i :: 0 <= i < |merged| ==> merged[i] in merged;
    }
  }

  lemma LastStartsLatest(sorted: seq<Span>)
    requires Sorted(sorted, SpanRank) && sorted != []
    ensures forall s :: s in sorted ==> s.start <= sorted[|sorted| - 1].start
  {
    forall s | s in sorted ensures s.start <= sorted[|sorted| - 1].start {
      var i :| 0 <= i < |sorted| && sorted[i] == s;
      assert i < |sorted| - 1 ==> !Before(SpanRank(sorted[|sorted| - 1]), SpanRank(sorted[i]));
    }
  }

  lemma MergeOneContains(merged: seq<Span>, s: Span)
    requires merged != [] ==> merged[|merged| - 1].start <= s.start
    ensures Inside(s, MergeOne(merged, s)[|MergeOne(merged, s)| - 1])
  {
  }

  lemma MergeOneKeeps(merged: seq<Span>, s: Span, i: nat, t: Span)
    requires i < |merged| && Inside(t, merged[i])
    ensures i < |MergeOne(merged, s)| && Inside(t, MergeOne(merged, s)[i])
  {
  }

  /** Every match lies inside one merged span. */
  lemma {:induction false} HomeOf(sorted: seq<Span>, s: Span) returns (i: nat)
    requires Sorted(sorted, SpanRank) && s in sorted
    ensures i < |Merge(sorted)| && Inside(s, Merge(sorted)[i])
  {
    var n := |sorted| - 1;
    var before, last := sorted[..n], sorted[n];
    var merged := Merge(before);
    assert sorted == before + [last];
    if s in before {
      PrefixSorted(sorted, n);
      i := HomeOf(before, s);
      MergeOneKeeps(merged, last, i, s);
    } else {
      i := |Merge(sorted)| - 1;
      LastStartsLatest(sorted);
      MergeStarts(before, last.start);
      assert merged != [] ==> merged[|merged| - 1] in merged;
      MergeOneContains(merged, last);
    }
  }

  lemma PrefixSorted(sorted: seq<Span>, n: nat)
    requires Sorted(sorted, SpanRank) && n <= |sorted|
    ensures Sorted(sorted[..n], SpanRank)
  {
  }

  /** A cut inside a merged span is crossed by a match, so nothing is joined that does not overlap. */
  lemma {:induction false} CrossedBy(sorted: seq<Span>, i: nat, cut: int) returns (s: Span)
    requires i < |Merge(sorted)| && Crosses(Merge(sorted)[i], cut)
    ensures s in sorted && Crosses(s, cut)
  {
    var n := |sorted| - 1;
    var before, last := sorted[..n], sorted[n];
    assert sorted == before + [last];
    var merged := Merge(before);
    if i < |merged| && Crosses(merged[i], cut) {
      s := CrossedBy(before, i, cut);
    } else {
      s := last;
    }
  }

  lemma MergeOneStarts(merged: seq<Span>, s: Span, i: nat)
    requires i < |MergeOne(merged, s)|
    ensures i < |merged| ==>
              MergeOne(merged, s)[i].start == merged[i].start && MergeOne(merged, s)[i].name == merged[i].name
    ensures i >= |merged| ==> MergeOne(merged, s)[i] == s && (merged == [] || merged[|merged| - 1].end <= s.start)
  {
  }

  /** A merged span starts with the first match in order that starts there. */
  lemma {:induction false} LedBy(sorted: seq<Span>, i: nat) returns (k: nat)
    requires NonEmpty(sorted) && i < |Merge(sorted)|
    ensures k < |sorted| && sorted[k].start == Merge(sorted)[i].start && sorted[k].name == Merge(sorted)[i].name
    ensures forall j :: 0 <= j < k ==> sorted[j].start < sorted[k].start
  {
    var n := |sorted| - 1;
    var before, last := sorted[..n], sorted[n];
    var merged := Merge(before);
    assert sorted == before + [last];
    MergeOneStarts(merged, last, i);
    if i < |merged| {
      k := LedBy(before, i);
    } else {
      k := n;
      AllStartEarlier(before, last);
      assert forall j :: 0 <= j < n ==> sorted[j] == before[j];
    }
  }

  lemma AllStartEarlier(before: seq<Span>, last: Span)
    requires NonEmpty(before) && (Merge(before) == [] || Merge(before)[|Merge(before)| - 1].end <= last.start)
    ensures forall j :: 0 <= j < |before| ==> before[j].start < last.start
  {
    LastEndsLatest(before);
    forall j | 0 <= j < |before| ensures before[j].start < last.start {
      assert before[j] in before;
    }
  }

  lemma MergeIsDisjoint(text: string, spans: seq<Span>)
    requires InText(text, spans)
    ensures Disjoint(Merge(InOrder(spans))) && InText(text, Merge(InOrder(spans)))
  {
    Permutes(spans, SpanRank);
    MergeShape(InOrder(spans), |text|);
  }

  /** Each match is inside one merged span, whose reported name is that of the longest first match. */
  lemma MergeContainsMatches(spans: seq<Span>)
    requires NonEmpty(spans)
    ensures forall s :: s in spans ==> exists m :: m in Merge(InOrder(spans)) && Inside(s, m)
    ensures forall m :: m in Merge(InOrder(spans)) ==> exists s :: Leads(spans, s, m)
  {
    var sorted := InOrder(spans);
    Permutes(spans, SpanRank);
    Ascending(spans, SpanRank);
    forall s | s in spans ensures exists m :: m in Merge(sorted) && Inside(s, m) {
      var i := HomeOf(sorted, s);
      assert Merge(sorted)[i] in Merge(sorted);
    }
    forall m | m in Merge(sorted) ensures exists s :: Leads(spans, s, m) {
      var i :| 0 <= i < |Merge(sorted)| && Merge(sorted)[i] == m;
      var k := LedBy(sorted, i);
      FirstIsLongest(spans, k);
      assert Leads(spans, sorted[k], m);
    }
  }

  lemma FirstIsLongest(spans: seq<Span>, k: nat)
    requires k < |InOrder(spans)|
    requires forall j :: 0 <= j < k ==> InOrder(spans)[j].start < InOrder(spans)[k].start
    ensures InOrder(spans)[k] in spans
    ensures forall t :: t in spans && t.start == InOrder(spans)[k].start ==> t.end <= InOrder(spans)[k].end
  {
    var sorted := InOrder(spans);
    Permutes(spans, SpanRank);
    Ascending(spans, SpanRank);
    forall t | t in spans && t.start == sorted[k].start ensures t.end <= sorted[k].end {
      assert t in sorted;
      var j :| 0 <= j < |sorted| && sorted[j] == t;
      assert k < j ==> !Before(SpanRank(sorted[j]), SpanRank(sorted[k]));
    }
  }

  /** No merged span could be split further: some match crosses every cut inside it. */
  lemma MergeJoinsOnlyOverlaps(spans: seq<Span>, m: Span, cut: int)
    requires m in Merge(InOrder(spans)) && Crosses(m, cut)
    ensures exists s :: s in spans && Crosses(s, cut)
  {
    var sorted := InOrder(spans);
    var i :| 0 <= i < |Merge(sorted)| && Merge(sorted)[i] == m;
    var s := CrossedBy(sorted, i, cut);
    Permutes(spans, SpanRank);
  }

  /** Exactly the positions of the union of the matches are covered. */
  lemma MergeCoversUnion(spans: seq<Span>, i: int)
    requires NonEmpty(spans)
    ensures Covered(Merge(InOrder(spans)), i) <==> Covered(spans, i)
  {
    var sorted := InOrder(spans);
    var merged := Merge(sorted);
    Permutes(spans, SpanRank);
    Ascending(spans, SpanRank);
    if Covered(merged, i) {
      var m :| m in merged && Covers(m, i);
      var n :| 0 <= n < |merged| && merged[n] == m;
      if i == m.start {
        var k := LedBy(sorted, n);
        assert sorted[k] in sorted;
        assert Covers(sorted[k], i);
      } else {
        var s := CrossedBy(sorted, n, i);
        assert Covers(s, i);
      }
    }
    if Covered(spans, i) {
      var s :| s in spans && Covers(s, i);
      var n := HomeOf(sorted, s);
      assert merged[n] in merged && Covers(merged[n], i);
    }
  }

  // ------------------------------------------------------ what the text keeps

  lemma {:induction false} KeptAcrossGap(text: string, spans: seq<Span>, i: nat, j: nat)
    requires i <= j <= |text| && forall k :: i <= k < j ==> !Covered(spans, k)
    ensures Kept(text, spans, i) == text[i..j] + Kept(text, spans, j)
    decreases j - i
  {
    if i < j {
      KeptAcrossGap(text, spans, i + 1, j);
      var rest := Kept(text, spans, j);
      assert text[i..j] == [text[i]] + text[i + 1..j];
      assert Kept(text, spans, i) == [text[i]] + (text[i + 1..j] + rest);
    } else {
      assert text[i..j] == "";
    }
  }

  lemma {:induction false} KeptAcrossSpan(text: string, spans: seq<Span>, i: nat, j: nat)
    requires i <= j <= |text| && forall k :: i <= k < j ==> Covered(spans, k)
    ensures Kept(text, spans, i) == Kept(text, spans, j)
    decreases j - i
  {
    if i < j {
      KeptAcrossSpan(text, spans, i + 1, j);
    }
  }

  lemma UncoveredGap(merged: seq<Span>, n: nat, from: nat, stop: nat)
    requires Disjoint(merged) && n <= |merged|
    requires forall k :: 0 <= k < n ==> merged[k].end <= from
    requires n < |merged| ==> stop <= merged[n].start
    ensures forall k :: from <= k < stop ==> !Covered(merged, k)
  {
    forall k, m | from <= k < stop && m in merged ensures !Covers(m, k) {
      var i :| 0 <= i < |merged| && merged[i] == m;
    }
  }

  lemma {:induction false} GapsAreKept(text: string, merged: seq<Span>, n: nat, from: nat)
    requires Disjoint(merged) && InText(text, merged) && n <= |merged| && from <= |text|
    requires forall k :: 0 <= k < n ==> merged[k].end <= from
    requires n < |merged| ==> from <= merged[n].start
    ensures Concat(Gaps(text, from, merged[n..])) == Kept(text, merged, from)
    decreases |merged| - n
  {
    var stop := if n == |merged| then |text| else merged[n].start;
    UncoveredGap(merged, n, from, stop);
    KeptAcrossGap(text, merged, from, stop);
    if n < |merged| {
      var m := merged[n];
      forall k | m.start <= k < m.end ensures Covered(merged, k) {
        assert m in merged && Covers(m, k);
      }
      KeptAcrossSpan(text, merged, m.start, m.end);
      assert merged[n..][1..] == merged[n + 1..];
      GapsAreKept(text, merged, n + 1, m.end);
      ConcatFirst(text[from..m.start], Gaps(text, m.end, merged[n + 1..]));
    } else {
      assert merged[n..] == [];
      ConcatFirst(text[from..], []);
      assert text[from..stop] == text[from..];
    }
  }

  lemma ConcatFirst(first: string, rest: seq<string>)
    ensures Concat([first] + rest) == first + Concat(rest)
    ensures Concat([first]) == first + Concat([])
  {
    assert ([first] + rest)[1..] == rest && [first][1..] == [];
  }

  lemma {:induction false} SameCoverSameText(text: string, a: seq<Span>, b: seq<Span>, i: nat)
    requires forall k: int :: Covered(a, k) <==> Covered(b, k)
    ensures Kept(text, a, i) == Kept(text, b, i)
    ensures i <= |text| ==> |Kept(text, a, i)| + CoveredFrom(text, b, i) == |text| - i
    decreases |text| - i
  {
    if i < |text| {
      SameCoverSameText(text, a, b, i + 1);
    }
  }

  lemma {:induction false} LengthOfJoin(parts: seq<string>, sep: string)
    requires parts != []
    ensures |Join(parts, sep)| == |Concat(parts)| + |sep| * (|parts| - 1)
  {
    if |parts| > 1 {
      LengthOfJoin(parts[1..], sep);
      assert |sep| * (|parts| - 1) == |sep| * (|parts| - 2) + |sep|;
    } else {
      assert parts[1..] == [];
    }
  }

  lemma GapsKeepUnmatched(text: string, found: seq<Span>, merged: seq<Span>)
    requires InText(text, found) && merged == Merge(InOrder(found)) && Disjoint(merged) && InText(text, merged)
    ensures Concat(Gaps(text, 0, merged)) == Kept(text, found, 0)
    ensures |Kept(text, found, 0)| == |text| - CoveredFrom(text, found, 0)
  {
    assert merged[0..] == merged;
    GapsAreKept(text, merged, 0, 0);
    forall k: int ensures Covered(merged, k) <==> Covered(found, k) {
      MergeCoversUnion(found, k);
    }
    SameCoverSameText(text, merged, found, 0);
  }

  /**
    The scrubbed text is the unmatched characters in order, with one marker for each merged
    span and nothing else; its length follows.
   */
  lemma ScrubbedText(text: string, found: seq<Span>)
    requires InText(text, found)
    ensures var merged := Merge(InOrder(found));
            && Disjoint(merged) && InText(text, merged)
            && var gaps := Gaps(text, 0, merged);
               && |gaps| == |merged| + 1
               && Concat(gaps) == Kept(text, found, 0)
               && |Join(gaps, REDACTED)| == |text| - CoveredFrom(text, found, 0) + 10 * |merged|
  {
    var merged := Merge(InOrder(found));
    MergeIsDisjoint(text, found);
    GapsKeepUnmatched(text, found, merged);
    LengthOfJoin(Gaps(text, 0, merged), REDACTED);
  }
}
