/**
  backend/code_editor.py: search-and-replace with four layers of matching.

  The whitespace class of `str.rstrip`/`str.strip` and the similarity ratio of difflib enter as
  functions; content is the text as read, with its own line endings.
 */
module CodeEditor {
  import opened Wrappers
  import opened Text

  const FUZZY_THRESHOLD := 0.8

  datatype Library = Library(isSpace: char -> bool, ratio: (string, string) -> real)

  function RStrip(lib: Library, s: string): (t: string)
    ensures t <= s
  {
    if s != "" && lib.isSpace(s[|s| - 1]) then RStrip(lib, s[..|s| - 1]) else s
  }

  function LStrip(lib: Library, s: string): string {
    if s != "" && lib.isSpace(s[0]) then LStrip(lib, s[1..]) else s
  }

  function RStripAll(lib: Library, lines: seq<string>): (stripped: seq<string>)
    ensures |stripped| == |lines|
    ensures forall i :: 0 <= i < |lines| ==> stripped[i] == RStrip(lib, lines[i])
    ensures Lines(lines) ==> Lines(stripped)
  {
    var stripped := seq(|lines|, i requires 0 <= i < |lines| => RStrip(lib, lines[i]));
    assert Lines(lines) ==> forall i :: 0 <= i < |lines| ==> NoLf(lines[i]) && stripped[i] <= lines[i];
    stripped
  }

  function NormSearch(search: string): string { CrToLf(Unix(search)) }

  function StripLines(lib: Library, s: string): string { Join(RStripAll(lib, Split(s)), "\n") }

  /** Lines joined with the line ending of the content. */
  function Rejoin(content: string, lines: seq<string>): string {
    Join(lines, if HasCrLf(content) then "\r\n" else "\n")
  }

  function Splice(lines: seq<string>, start: nat, n: nat, replacement: string): seq<string>
    requires start + n <= |lines|
  {
    lines[..start] + Split(Unix(replacement)) + lines[start + n..]
  }

  // ----------------------------------------------------------------- layer 2

  function NormalisedEdit(content: string, search: string, replacement: string): Option<string> {
    var norm, normSearch := Unix(content), NormSearch(search);
    if Find(norm, normSearch).None? then None
    else
      var edited := ReplaceFirst(norm, normSearch, Unix(replacement));
      Some(if HasCrLf(content) then Dos(edited) else edited)
  }

  // ----------------------------------------------------------------- layer 3

  /** First line and number of lines of the window in which the stripped search text lies. */
  function StrippedWindow(lib: Library, content: string, search: string): (window: Option<(nat, nat)>)
    ensures window.Some? ==> window.value.0 + window.value.1 <= |Split(Unix(content))|
  {
    var strippedSearch := StripLines(lib, NormSearch(search));
    var stripped := StripLines(lib, Unix(content));
    var at := Find(stripped, strippedSearch);
    if at.None? then None
    else
      WindowOfMatch(stripped, strippedSearch, at.value);
      StrippedLines(lib, Unix(content));
      Some((CountLf(stripped[..at.value]), |Split(strippedSearch)|))
  }

  // ----------------------------------------------------------------- layer 4

  function Candidate(lines: seq<string>, start: nat, window: nat): string
    requires start + window <= |lines|
  {
    Join(lines[start..start + window], "\n")
  }

  /** The best ratio among the first `n` windows and the first window that has it. */
  function Best(lib: Library, target: string, lines: seq<string>, window: nat, n: nat): (best: (real, Option<nat>))
    requires n > 0 ==> n - 1 + window <= |lines|
    ensures best.1.Some? ==> best.1.value < n
  {
    if n == 0 then (0.0, None)
    else
      var before := Best(lib, target, lines, window, n - 1);
      var ratio := lib.ratio(target, Candidate(lines, n - 1, window));
      if ratio > before.0 then (ratio, Some(n - 1)) else before
  }

  function WindowCount(lines: seq<string>, window: nat): nat {
    if window > |lines| then 0 else |lines| - window + 1
  }

  function FuzzyWindow(lib: Library, content: string, search: string): (window: Option<(nat, nat)>)
    ensures window.Some? ==> window.value.0 + window.value.1 <= |Split(Unix(content))|
  {
    var searchLines := Split(RStrip(lib, LStrip(lib, NormSearch(search))));
    var lines := Split(Unix(content));
    var n := |searchLines|;
    var best := Best(lib, Join(searchLines, "\n"), lines, n, WindowCount(lines, n));
    if best.0 >= FUZZY_THRESHOLD && best.1.Some? then Some((best.1.value, n)) else None
  }

  // ------------------------------------------------------------- all layers

  function LineEdit(content: string, window: (nat, nat), replacement: string): string
    requires window.0 + window.1 <= |Split(Unix(content))|
  {
    Rejoin(content, Splice(Split(Unix(content)), window.0, window.1, replacement))
  }

  function Apply(lib: Library, content: string, search: string, replacement: string): Option<string> {
    if Find(content, search).Some? then Some(ReplaceFirst(content, search, replacement))
    else ApplyLoosely(lib, content, search, replacement)
  }

  /** Layers 2 to 4. */
  function ApplyLoosely(lib: Library, content: string, search: string, replacement: string): Option<string> {
    if NormalisedEdit(content, search, replacement).Some? then NormalisedEdit(content, search, replacement)
    else
      var stripped := StrippedWindow(lib, content, search);
      if stripped.Some? then Some(LineEdit(content, stripped.value, replacement))
      else
        var fuzzy := FuzzyWindow(lib, content, search);
        if fuzzy.Some? then Some(LineEdit(content, fuzzy.value, replacement)) else None
  }

  method ApplySearchReplace(lib: Library, content: string, search: string, replacement: string)
    returns (edited: Option<string>)
    ensures edited == Apply(lib, content, search, replacement)
  {
    if Find(content, search).Some? {
      return Some(ReplaceFirst(content, search, replacement));
    }
    var loose := NormalisedEdit(content, search, replacement);
    if loose.Some? {
      return loose;
    }
    var stripped := StrippedWindow(lib, content, search);
    if stripped.Some? {
      return Some(LineEdit(content, stripped.value, replacement));
    }
    var fuzzy := FindFuzzyWindow(lib, content, search);
    edited := if fuzzy.Some? then Some(LineEdit(content, fuzzy.value, replacement)) else None;
  }

  method FindFuzzyWindow(lib: Library, content: string, search: string) returns (found: Option<(nat, nat)>)
    ensures found == FuzzyWindow(lib, content, search)
    ensures found.Some? ==>
              var (k, n) := found.value;
              && n == |FuzzyTarget(lib, search)| && IsWindow(lib, content, search, k)
              && Similarity(lib, content, search, k) >= 0.8
              && forall i: nat :: IsWindow(lib, content, search, i) ==>
                   Similarity(lib, content, search, i) <= Similarity(lib, content, search, k)
  {
    var searchLines := Split(RStrip(lib, LStrip(lib, NormSearch(search))));
    var fileLines := Split(Unix(content));
    var window := |searchLines|;
    var target := Join(searchLines, "\n");
    var bestRatio, bestStart := 0.0, None;
    for i := 0 to WindowCount(fileLines, window)
      invariant (bestRatio, bestStart) == Best(lib, target, fileLines, window, i)
    {
      var ratio := lib.ratio(target, Join(fileLines[i..i + window], "\n"));
      if ratio > bestRatio {
        bestRatio, bestStart := ratio, Some(i);
      }
    }
    found := if bestRatio >= FUZZY_THRESHOLD && bestStart.Some? then Some((bestStart.value, window)) else None;
    if found.Some? {
      FuzzyWindowIsBest(lib, content, search);
    }
  }

  /** A verbatim match always wins: its first occurrence is replaced and nothing else changes. */
  lemma VerbatimMatchWins(lib: Library, content: string, prefix: string, search: string, suffix: string,
                          replacement: string)
    requires content == prefix + search + suffix
    requires forall j: nat :: j < |prefix| ==> !OccursAt(content, search, j)
    ensures Apply(lib, content, search, replacement) == Some(prefix + replacement + suffix)
  {
    assert content[|prefix|..] == search + suffix;
    assert OccursAt(content, search, |prefix|);
    assert Find(content, search) == Some(|prefix|);
    assert content[..|prefix|] == prefix && content[|prefix| + |search|..] == suffix;
  }

  // ------------------------------------------------------ windows and matches

  /** How the lines of `a + m + b` relate to the lines of the three parts. */
  ghost predicate Framed(lines: seq<string>, a: seq<string>, m: seq<string>, b: seq<string>)
    requires a != [] && m != [] && b != []
  {
    var k, n := |a| - 1, |m|;
    && |lines| == k + n + |b| - 1
    && lines[..k] == a[..k] && lines[k + n..] == b[1..]
    && (n == 1 ==> lines[k] == a[k] + m[0] + b[0])
    && (n > 1 ==>
          && lines[k] == a[k] + m[0]
          && (forall j :: 0 < j < n - 1 ==> lines[k + j] == m[j])
          && lines[k + n - 1] == m[n - 1] + b[0])
  }

  lemma GlueFrames(a: seq<string>, m: seq<string>, b: seq<string>)
    requires a != [] && m != [] && b != []
    ensures Framed(Glue(Glue(a, m), b), a, m, b)
  {
    var k, n := |a| - 1, |m|;
    var am := Glue(a, m);
    assert |am| == k + n;
    var lines := Glue(am, b);
    assert lines == am[..k + n - 1] + [am[k + n - 1] + b[0]] + b[1..];
    assert lines[k + n..] == b[1..];
    assert lines[..k] == a[..k];
  }

  /** Counting newlines before a match gives a window of lines that frames it. */
  lemma WindowOfMatch(s: string, pattern: string, at: nat)
    requires OccursAt(s, pattern, at)
    ensures at + |pattern| <= |s|
    ensures var head, tail := s[..at], s[at + |pattern|..];
            && CountLf(head) == |Split(head)| - 1
            && CountLf(head) + |Split(pattern)| <= |Split(s)|
            && Framed(Split(s), Split(head), Split(pattern), Split(tail))
  {
    var head, tail := s[..at], s[at + |pattern|..];
    assert s == head + pattern + tail;
    SplitConcat(head, pattern);
    SplitConcat(head + pattern, tail);
    SplitCounts(head);
    GlueFrames(Split(head), Split(pattern), Split(tail));
  }

  predicate EndsWith(s: string, suffix: string) {
    |suffix| <= |s| && s[|s| - |suffix|..] == suffix
  }

  /** Inner lines of the window are the wanted ones; its edge lines may hold more. */
  ghost predicate Matches(lines: seq<string>, wanted: seq<string>, k: nat) {
    var n := |wanted|;
    && n >= 1 && k + n <= |lines|
    && (forall j :: 0 < j < n - 1 ==> lines[k + j] == wanted[j])
    && (n > 1 ==> EndsWith(lines[k], wanted[0]) && wanted[n - 1] <= lines[k + n - 1])
    && (n == 1 ==> exists a, b :: lines[k] == a + wanted[0] + b)
  }

  lemma FramedMatches(lines: seq<string>, a: seq<string>, wanted: seq<string>, b: seq<string>)
    requires a != [] && wanted != [] && b != [] && Framed(lines, a, wanted, b)
    ensures Matches(lines, wanted, |a| - 1)
  {
  }

  /** Stripping a text strips its lines one by one. */
  lemma StrippedLines(lib: Library, s: string)
    ensures Split(StripLines(lib, s)) == RStripAll(lib, Split(s))
  {
    SplitJoin(RStripAll(lib, Split(s)));
  }

  function StrippedFile(lib: Library, content: string): string { StripLines(lib, Unix(content)) }

  function StrippedSearch(lib: Library, search: string): string { StripLines(lib, NormSearch(search)) }

  lemma MatchGivesWindow(s: string, pattern: string, at: nat)
    requires OccursAt(s, pattern, at)
    ensures Matches(Split(s), Split(pattern), CountLf(s[..at]))
  {
    WindowOfMatch(s, pattern, at);
    FramedMatches(Split(s), Split(s[..at]), Split(pattern), Split(s[at + |pattern|..]));
  }

  /**
    Layer 3 finds its window inside the file: stripped of trailing whitespace, its inner lines
    are the search lines, its first line ends and its last line starts with theirs.
   */
  lemma StrippedWindowFits(lib: Library, content: string, search: string)
    ensures StrippedWindow(lib, content, search).Some? ==>
              var (k, n) := StrippedWindow(lib, content, search).value;
              && n == |Split(StrippedSearch(lib, search))|
              && Matches(Split(StrippedFile(lib, content)), Split(StrippedSearch(lib, search)), k)
    ensures Split(StrippedFile(lib, content)) == RStripAll(lib, Split(Unix(content)))
    ensures Split(StrippedSearch(lib, search)) == RStripAll(lib, Split(NormSearch(search)))
  {
    var s, pattern := StrippedFile(lib, content), StrippedSearch(lib, search);
    var at := Find(s, pattern);
    if at.Some? {
      MatchGivesWindow(s, pattern, at.value);
    }
    StrippedLines(lib, Unix(content));
    StrippedLines(lib, NormSearch(search));
  }

  lemma {:induction false} LastLineEmpty(s: string)
    ensures Split(s)[|Split(s)| - 1] == "" <==> s == "" || s[|s| - 1] == '\n'
  {
    if s != "" {
      LastLineEmpty(s[1..]);
    }
  }

  lemma FirstLineEmpty(s: string)
    ensures Split(s)[0] == "" <==> s == "" || s[0] == '\n'
  {
  }

  predicate OnLineBounds(s: string, pattern: string, at: nat)
    requires at + |pattern| <= |s|
  {
    (at == 0 || s[at - 1] == '\n') && (at + |pattern| == |s| || s[at + |pattern|] == '\n')
  }

  lemma ExactIffOnLineBounds(s: string, pattern: string, at: nat)
    requires OccursAt(s, pattern, at)
    ensures at + |pattern| <= |s| && CountLf(s[..at]) + |Split(pattern)| <= |Split(s)|
    ensures var k, wanted := CountLf(s[..at]), Split(pattern);
            Split(s)[k..k + |wanted|] == wanted <==> OnLineBounds(s, pattern, at)
  {
    WindowOfMatch(s, pattern, at);
    var head, tail := s[..at], s[at + |pattern|..];
    LastLineEmpty(head);
    FirstLineEmpty(tail);
    ExactWindow(Split(s), Split(head), Split(pattern), Split(tail));
  }

  lemma StrippedWindowOf(lib: Library, content: string, search: string)
    ensures var s, pattern := StrippedFile(lib, content), StrippedSearch(lib, search);
            var at := Find(s, pattern);
            StrippedWindow(lib, content, search)
            == if at.None? then None else Some((CountLf(s[..at.value]), |Split(pattern)|))
  {
  }

  /**
    The window holds nothing but the search lines exactly when the match starts at a line start
    and ends at a line end; otherwise layer 3 drops what surrounds the match on its edge lines.
   */
  lemma StrippedWindowIsExactIff(lib: Library, content: string, search: string)
    ensures StrippedWindow(lib, content, search).Some? ==>
              var (k, n) := StrippedWindow(lib, content, search).value;
              var s, pattern := StrippedFile(lib, content), StrippedSearch(lib, search);
              && Find(s, pattern).Some? && Find(s, pattern).value + |pattern| <= |s| && k + n <= |Split(s)|
              && (Split(s)[k..k + n] == Split(pattern) <==> OnLineBounds(s, pattern, Find(s, pattern).value))
  {
    var s, pattern := StrippedFile(lib, content), StrippedSearch(lib, search);
    StrippedWindowOf(lib, content, search);
    var at := Find(s, pattern);
    if at.Some? {
      ExactIffOnLineBounds(s, pattern, at.value);
    }
  }

  lemma ExactWindow(lines: seq<string>, a: seq<string>, m: seq<string>, b: seq<string>)
    requires a != [] && m != [] && b != [] && Framed(lines, a, m, b)
    ensures var k, n := |a| - 1, |m|;
            lines[k..k + n] == m <==> a[k] == "" && b[0] == ""
  {
    var k, n := |a| - 1, |m|;
    var window := lines[k..k + n];
    forall j | 0 <= j < n ensures window[j] == lines[k + j] {}
    assert window[0] == lines[k] && window[n - 1] == lines[k + n - 1];
    assert |window[0]| == |a[k]| + |m[0]| + if n == 1 then |b[0]| else 0;
    assert n > 1 ==> |window[n - 1]| == |m[n - 1]| + |b[0]|;
    if a[k] == "" && b[0] == "" {
      assert forall t: string :: "" + t == t && t + "" == t;
      forall j | 0 <= j < n ensures window[j] == m[j] {}
    }
  }

  lemma SpliceLines(lines: seq<string>, start: nat, n: nat, replacement: string)
    requires Lines(lines) && start + n <= |lines|
    ensures Lines(Splice(lines, start, n, replacement))
  {
    var spliced := Splice(lines, start, n, replacement);
    forall line | line in spliced ensures NoLf(line) {
      if line in Split(Unix(replacement)) {
      } else {
        assert line in lines[..start] || line in lines[start + n..];
        assert line in lines;
      }
    }
  }

  /**
    A line edit (layers 3 and 4) keeps every line outside the window, in order, and puts the
    replacement lines in its place; with CRLF content the lines are those before conversion.
   */
  lemma LineEditKeepsOtherLines(content: string, window: (nat, nat), replacement: string)
    requires window.0 + window.1 <= |Split(Unix(content))|
    ensures var lines := Split(Unix(content));
            var edited := LineEdit(content, window, replacement);
            Split(if HasCrLf(content) then Unix(edited) else edited)
            == lines[..window.0] + Split(Unix(replacement)) + lines[window.0 + window.1..]
  {
    var lines := Split(Unix(content));
    var spliced := Splice(lines, window.0, window.1, replacement);
    SpliceLines(lines, window.0, window.1, replacement);
    SplitJoin(spliced);
    JoinWithCrLf(spliced);
    UnixUndoesDos(Join(spliced, "\n"));
  }

  /** The fuzzy layer takes the earliest window of maximal similarity. */
  lemma {:induction false} BestIsEarliestMaximum(lib: Library, target: string, lines: seq<string>, window: nat, n: nat)
    requires n > 0 ==> n - 1 + window <= |lines|
    ensures var (ratio, start) := Best(lib, target, lines, window, n);
            && ratio >= 0.0
            && (forall i :: 0 <= i < n ==> lib.ratio(target, Candidate(lines, i, window)) <= ratio)
            && (start.Some? ==>
                  && lib.ratio(target, Candidate(lines, start.value, window)) == ratio
                  && forall i :: 0 <= i < start.value ==> lib.ratio(target, Candidate(lines, i, window)) < ratio)
            && (start.None? ==> ratio == 0.0)
  {
    if n > 0 {
      BestIsEarliestMaximum(lib, target, lines, window, n - 1);
    }
  }

  /** The fuzzy layer gives up exactly when no window reaches the threshold. */
  lemma FuzzyFailsIff(lib: Library, content: string, search: string)
    ensures var searchLines := Split(RStrip(lib, LStrip(lib, NormSearch(search))));
            var lines := Split(Unix(content));
            FuzzyWindow(lib, content, search).None? <==>
            forall i :: 0 <= i < WindowCount(lines, |searchLines|) ==>
              lib.ratio(Join(searchLines, "\n"), Candidate(lines, i, |searchLines|)) < FUZZY_THRESHOLD
  {
    var searchLines := Split(RStrip(lib, LStrip(lib, NormSearch(search))));
    var target, lines, window := Join(searchLines, "\n"), Split(Unix(content)), |searchLines|;
    var n := WindowCount(lines, window);
    var best := Best(lib, target, lines, window, n);
    BestIsEarliestMaximum(lib, target, lines, window, n);
    assert FuzzyWindow(lib, content, search).Some? <==> best.0 >= FUZZY_THRESHOLD && best.1.Some?;
    if best.1.Some? {
      assert lib.ratio(target, Candidate(lines, best.1.value, window)) == best.0;
    }
  }

  // ------------------------------------------------------------ line endings

  lemma {:induction false} UnixUndoesDos(s: string)
    ensures Unix(Dos(s)) == s
  {
    if s != "" {
      UnixUndoesDos(s[1..]);
      var rest := Dos(s[1..]);
      if s[0] == '\n' {
        assert ("\r\n" + rest)[2..] == rest;
      } else {
        assert ([s[0]] + rest)[1..] == rest;
        assert s[1..] != "" && s[1] == '\n' ==> rest[0] == '\r';
        assert rest != "" ==> rest[0] != '\n';
      }
    }
  }

  /** On content with a CRLF every loose match yields text in which each LF follows a CR. */
  lemma LooseEditsKeepCrLf(lib: Library, content: string, search: string, replacement: string)
    requires HasCrLf(content) && ApplyLoosely(lib, content, search, replacement).Some?
    ensures EveryLfAfterCr(ApplyLoosely(lib, content, search, replacement).value)
  {
    if NormalisedEdit(content, search, replacement).Some? {
      DosPutsCrBeforeLf(ReplaceFirst(Unix(content), NormSearch(search), Unix(replacement)));
    } else {
      var window := if StrippedWindow(lib, content, search).Some? then StrippedWindow(lib, content, search).value
                    else FuzzyWindow(lib, content, search).value;
      var spliced := Splice(Split(Unix(content)), window.0, window.1, replacement);
      SpliceLines(Split(Unix(content)), window.0, window.1, replacement);
      JoinWithCrLf(spliced);
      DosPutsCrBeforeLf(Join(spliced, "\n"));
    }
  }

  lemma {:induction false} NoCrLfUnchanged(s: string)
    requires forall i: nat :: !OccursAt(s, "\r\n", i)
    ensures Unix(s) == s
  {
    if s != "" {
      assert s[0..] == s && !OccursAt(s, "\r\n", 0);
      forall i: nat ensures !OccursAt(s[1..], "\r\n", i) {
        if i <= |s| - 1 {
          assert s[1..][i..] == s[i + 1..];
          assert !OccursAt(s, "\r\n", i + 1);
        }
      }
      NoCrLfUnchanged(s[1..]);
      assert [s[0]] + s[1..] == s;
    }
  }

  /** The bytes of a part of the normalised text, in the line endings of the content. */
  function Restore(content: string, part: string): string {
    if HasCrLf(content) then Dos(part) else part
  }

  /** The text around the first match. */
  lemma SplitAtFind(s: string, pattern: string, replacement: string) returns (before: string, after: string)
    requires Find(s, pattern).Some?
    ensures s == before + pattern + after && ReplaceFirst(s, pattern, replacement) == before + replacement + after
    ensures Find(s, pattern) == Some(|before|)
  {
    var at := Find(s, pattern).value;
    before, after := s[..at], s[at + |pattern|..];
    AroundOccurrence(s, pattern, at);
  }

  lemma AroundOccurrence(s: string, pattern: string, at: nat)
    requires OccursAt(s, pattern, at)
    ensures at + |pattern| <= |s| && s == s[..at] + pattern + s[at + |pattern|..]
  {
    assert s[at..][..|pattern|] == s[at..at + |pattern|];
    ThreeParts(s, at, |pattern|);
  }

  lemma ThreeParts(s: string, at: nat, n: nat)
    requires at + n <= |s|
    ensures s == s[..at] + s[at..at + n] + s[at + n..]
  {
  }

  lemma RestoreOfThree(content: string, a: string, b: string, c: string)
    ensures Restore(content, a + b + c) == Restore(content, a) + Restore(content, b) + Restore(content, c)
  {
    DosOfThree(a, b, c);
  }

  /** Normalised text converts back to the content when its line endings are uniform. */
  lemma RestoreUndoesUnix(content: string)
    ensures Restore(content, Unix(content)) == content <==> !HasCrLf(content) || EveryLfAfterCr(content)
  {
    if HasCrLf(content) {
      DosUnixRoundTrip(content);
    } else {
      NoCrLfUnchanged(content);
    }
  }

  /**
    On content whose line endings are uniform, layer 2 replaces the first normalised match and
    leaves the bytes before and after it as they were.
   */
  lemma NormalisedEditIsLocal(content: string, search: string, replacement: string)
    returns (before: string, after: string)
    requires HasCrLf(content) ==> EveryLfAfterCr(content)
    requires NormalisedEdit(content, search, replacement).Some?
    ensures Find(Unix(content), NormSearch(search)) == Some(|before|)
    ensures content == Restore(content, before) + Restore(content, NormSearch(search)) + Restore(content, after)
    ensures NormalisedEdit(content, search, replacement).value
            == Restore(content, before) + Restore(content, Unix(replacement)) + Restore(content, after)
  {
    before, after := SplitAtFind(Unix(content), NormSearch(search), Unix(replacement));
    RestoreOfThree(content, before, NormSearch(search), after);
    RestoreOfThree(content, before, Unix(replacement), after);
    RestoreUndoesUnix(content);
  }

  lemma DosOfThree(a: string, b: string, c: string)
    ensures Dos(a + b + c) == Dos(a) + Dos(b) + Dos(c)
  {
    DosConcat(a + b, c);
    DosConcat(a, b);
  }

  /**
    Mixed line endings do not survive layer 2: replacing the match by itself gives back the
    content exactly when it has no CRLF or every LF follows a CR.
   */
  lemma NoOpEditIsIdentityIff(content: string, search: string, replacement: string)
    requires NormalisedEdit(content, search, replacement).Some? && Unix(replacement) == NormSearch(search)
    ensures NormalisedEdit(content, search, replacement).value == content <==>
            !HasCrLf(content) || EveryLfAfterCr(content)
  {
    var norm := Unix(content);
    var before, after := SplitAtFind(norm, NormSearch(search), NormSearch(search));
    assert NormalisedEdit(content, search, replacement).value == Restore(content, norm);
    RestoreUndoesUnix(content);
  }

  // ------------------------------------------------- what the layers return

  /** Stripping takes away exactly the white space at the end, or at the start. */
  lemma {:induction false} RStripIsTrim(lib: Library, s: string)
    ensures forall i :: |RStrip(lib, s)| <= i < |s| ==> lib.isSpace(s[i])
    ensures RStrip(lib, s) != "" ==> !lib.isSpace(RStrip(lib, s)[|RStrip(lib, s)| - 1])
  {
    if s != "" && lib.isSpace(s[|s| - 1]) {
      var front := s[..|s| - 1];
      RStripIsTrim(lib, front);
      assert forall i :: 0 <= i < |front| ==> front[i] == s[i];
    }
  }

  lemma {:induction false} LStripIsTrim(lib: Library, s: string)
    ensures |LStrip(lib, s)| <= |s| && LStrip(lib, s) == s[|s| - |LStrip(lib, s)|..]
    ensures forall i :: 0 <= i < |s| - |LStrip(lib, s)| ==> lib.isSpace(s[i])
    ensures LStrip(lib, s) != "" ==> !lib.isSpace(LStrip(lib, s)[0])
  {
    if s != "" && lib.isSpace(s[0]) {
      var rest := s[1..];
      LStripIsTrim(lib, rest);
      assert forall i :: 1 <= i < |s| ==> s[i] == rest[i - 1];
    }
  }

  /** The lines that the fuzzy layer compares with the windows of the file. */
  function FuzzyTarget(lib: Library, search: string): seq<string> {
    Split(RStrip(lib, LStrip(lib, NormSearch(search))))
  }

  /** As many lines as the search text has start at line `i` of the file. */
  predicate IsWindow(lib: Library, content: string, search: string, i: nat) {
    i + |FuzzyTarget(lib, search)| <= |Split(Unix(content))|
  }

  /** How similar the search lines and the window at line `i` are. */
  function Similarity(lib: Library, content: string, search: string, i: nat): real
    requires IsWindow(lib, content, search, i)
  {
    lib.ratio(Join(FuzzyTarget(lib, search), "\n"),
              Join(Split(Unix(content))[i..i + |FuzzyTarget(lib, search)|], "\n"))
  }

  function BestWindow(lib: Library, content: string, search: string): (best: (real, Option<nat>))
    ensures best.1.Some? ==> IsWindow(lib, content, search, best.1.value)
  {
    var target, lines := FuzzyTarget(lib, search), Split(Unix(content));
    Best(lib, Join(target, "\n"), lines, |target|, WindowCount(lines, |target|))
  }

  lemma BestAgainst(lib: Library, content: string, search: string, i: nat)
    requires IsWindow(lib, content, search, i)
    ensures var best := BestWindow(lib, content, search);
            && Similarity(lib, content, search, i) <= best.0
            && (best.1.Some? && i == best.1.value ==> Similarity(lib, content, search, i) == best.0)
            && (best.1.Some? && i < best.1.value ==> Similarity(lib, content, search, i) < best.0)
            && (best.1.None? ==> best.0 == 0.0)
  {
    var target, lines := FuzzyTarget(lib, search), Split(Unix(content));
    BestIsEarliestMaximum(lib, Join(target, "\n"), lines, |target|, WindowCount(lines, |target|));
    assert Similarity(lib, content, search, i) == lib.ratio(Join(target, "\n"), Candidate(lines, i, |target|));
  }

  lemma FuzzyWindowOf(lib: Library, content: string, search: string)
    ensures var best := BestWindow(lib, content, search);
            FuzzyWindow(lib, content, search)
            == if best.0 >= 0.8 && best.1.Some? then Some((best.1.value, |FuzzyTarget(lib, search)|)) else None
  {
  }

  /**
    The window that layer 4 returns is as long as the trimmed search text, similar enough, at least as
    similar as every other window, and more so than every earlier one.
   */
  lemma FuzzyWindowIsBest(lib: Library, content: string, search: string)
    ensures FuzzyWindow(lib, content, search).Some? ==>
              var (k, n) := FuzzyWindow(lib, content, search).value;
              && n == |FuzzyTarget(lib, search)| && IsWindow(lib, content, search, k)
              && Similarity(lib, content, search, k) >= 0.8
              && (forall i: nat :: IsWindow(lib, content, search, i) ==>
                    Similarity(lib, content, search, i) <= Similarity(lib, content, search, k))
              && (forall i: nat :: i < k && IsWindow(lib, content, search, i) ==>
                    Similarity(lib, content, search, i) < Similarity(lib, content, search, k))
  {
    FuzzyWindowOf(lib, content, search);
    var best := BestWindow(lib, content, search);
    if best.1.Some? {
      BestAgainst(lib, content, search, best.1.value);
      forall i: nat | IsWindow(lib, content, search, i)
        ensures Similarity(lib, content, search, i) <= best.0
        ensures i < best.1.value ==> Similarity(lib, content, search, i) < best.0
      {
        BestAgainst(lib, content, search, i);
      }
    }
  }

  /** Layer 2 decides when the text has no verbatim match: the first normalised match is replaced. */
  lemma SecondLayerDecides(lib: Library, content: string, search: string, replacement: string)
    returns (before: string, after: string)
    requires Find(content, search).None? && Find(Unix(content), NormSearch(search)).Some?
    requires HasCrLf(content) ==> EveryLfAfterCr(content)
    ensures Find(Unix(content), NormSearch(search)) == Some(|before|)
    ensures content == Restore(content, before) + Restore(content, NormSearch(search)) + Restore(content, after)
    ensures Apply(lib, content, search, replacement)
            == Some(Restore(content, before) + Restore(content, Unix(replacement)) + Restore(content, after))
  {
    before, after := NormalisedEditIsLocal(content, search, replacement);
  }

  /** The lines of the edited text, with the line endings of the content undone. */
  function LinesOf(content: string, edited: string): seq<string> {
    Split(if HasCrLf(content) then Unix(edited) else edited)
  }

  /** Neither the search text nor its normalised form occurs. */
  predicate OnlyLoosely(content: string, search: string) {
    Find(content, search).None? && Find(Unix(content), NormSearch(search)).None?
  }

  lemma LooseLayers(lib: Library, content: string, search: string, replacement: string)
    ensures var stripped, fuzzy := StrippedWindow(lib, content, search), FuzzyWindow(lib, content, search);
            OnlyLoosely(content, search) ==>
              Apply(lib, content, search, replacement)
              == if stripped.Some? then Some(LineEdit(content, stripped.value, replacement))
                 else if fuzzy.Some? then Some(LineEdit(content, fuzzy.value, replacement)) else None
    ensures StrippedWindow(lib, content, search).Some? <==>
              Find(StrippedFile(lib, content), StrippedSearch(lib, search)).Some?
  {
    StrippedWindowOf(lib, content, search);
  }

  lemma EditedLines(content: string, k: nat, n: nat, replacement: string)
    requires k + n <= |Split(Unix(content))|
    ensures var lines := Split(Unix(content));
            LinesOf(content, LineEdit(content, (k, n), replacement)) == Splice(lines, k, n, replacement)
  {
    LineEditKeepsOtherLines(content, (k, n), replacement);
  }

  /** Layer 3 decides next: the window of `StrippedWindowFits` gives way to the replacement. */
  lemma ThirdLayerDecides(lib: Library, content: string, search: string, replacement: string)
    ensures var stripped := StrippedWindow(lib, content, search);
            OnlyLoosely(content, search) && Find(StrippedFile(lib, content), StrippedSearch(lib, search)).Some? ==>
              && stripped.Some? && Apply(lib, content, search, replacement).Some?
              && LinesOf(content, Apply(lib, content, search, replacement).value)
                 == Splice(Split(Unix(content)), stripped.value.0, stripped.value.1, replacement)
  {
    LooseLayers(lib, content, search, replacement);
    var stripped := StrippedWindow(lib, content, search);
    if stripped.Some? {
      EditedLines(content, stripped.value.0, stripped.value.1, replacement);
    }
  }

  /** Layer 4 decides last: the window of `FuzzyWindowIsBest` gives way to the replacement. */
  lemma FourthLayerDecides(lib: Library, content: string, search: string, replacement: string)
    ensures var fuzzy := FuzzyWindow(lib, content, search);
            OnlyLoosely(content, search) && Find(StrippedFile(lib, content), StrippedSearch(lib, search)).None? ==>
              && (Apply(lib, content, search, replacement).Some? <==> fuzzy.Some?)
              && (fuzzy.Some? ==>
                    LinesOf(content, Apply(lib, content, search, replacement).value)
                    == Splice(Split(Unix(content)), fuzzy.value.0, fuzzy.value.1, replacement))
  {
    LooseLayers(lib, content, search, replacement);
    var fuzzy := FuzzyWindow(lib, content, search);
    if fuzzy.Some? {
      EditedLines(content, fuzzy.value.0, fuzzy.value.1, replacement);
    }
  }

  /** The edit fails exactly when no layer finds anything. */
  lemma ApplyFailsIff(lib: Library, content: string, search: string, replacement: string)
    ensures Apply(lib, content, search, replacement).None? <==>
              && (forall i: nat :: !OccursAt(content, search, i))
              && (forall i: nat :: !OccursAt(Unix(content), NormSearch(search), i))
              && (forall i: nat :: !OccursAt(StrippedFile(lib, content), StrippedSearch(lib, search), i))
              && (forall i: nat :: IsWindow(lib, content, search, i) ==> Similarity(lib, content, search, i) < 0.8)
  {
    NothingFoundIff(lib, content, search, replacement);
    NoWindowIsSimilarIff(lib, content, search);
    FindNoneIff(content, search);
    FindNoneIff(Unix(content), NormSearch(search));
    FindNoneIff(StrippedFile(lib, content), StrippedSearch(lib, search));
  }

  lemma NoWindowIsSimilarIff(lib: Library, content: string, search: string)
    ensures FuzzyWindow(lib, content, search).None? <==>
              forall i: nat :: IsWindow(lib, content, search, i) ==> Similarity(lib, content, search, i) < 0.8
  {
    FuzzyWindowOf(lib, content, search);
    if FuzzyWindow(lib, content, search).Some? {
      FuzzyWindowIsBest(lib, content, search);
    } else {
      forall i: nat | IsWindow(lib, content, search, i) ensures Similarity(lib, content, search, i) < 0.8 {
        BestAgainst(lib, content, search, i);
      }
    }
  }

  lemma NothingFoundIff(lib: Library, content: string, search: string, replacement: string)
    ensures Apply(lib, content, search, replacement).None? <==>
              && Find(content, search).None? && Find(Unix(content), NormSearch(search)).None?
              && Find(StrippedFile(lib, content), StrippedSearch(lib, search)).None?
              && FuzzyWindow(lib, content, search).None?
  {
    assert NormalisedEdit(content, search, replacement).Some? <==> Find(Unix(content), NormSearch(search)).Some?;
    LooseLayers(lib, content, search, replacement);
  }

  lemma FindNoneIff(s: string, pattern: string)
    ensures Find(s, pattern).None? <==> forall i: nat :: !OccursAt(s, pattern, i)
  {
  }

  // ------------------------------------------------------ the two failures

  predicate CharsAt(s: string, pattern: string, i: nat, k: nat, l: nat) {
    && i + |pattern| <= |s| && k < |pattern| && l < |pattern|
    && s[i + k] == pattern[k] && s[i + l] == pattern[l]
  }

  lemma OccursCharByChar(s: string, pattern: string, i: nat, k: nat, l: nat)
    requires k < |pattern| && l < |pattern|
    ensures OccursAt(s, pattern, i) ==> CharsAt(s, pattern, i, k, l)
  {
    if OccursAt(s, pattern, i) {
      assert s[i..][k] == s[i + k] && s[i..][l] == s[i + l];
    }
  }

  /** Two characters of the pattern never stand at their distance in the text. */
  lemma NotFound(s: string, pattern: string, k: nat, l: nat)
    requires k < |pattern| && l < |pattern|
    requires forall i: nat :: !CharsAt(s, pattern, i, k, l)
    ensures Find(s, pattern).None?
  {
    forall i: nat ensures !OccursAt(s, pattern, i) {
      OccursCharByChar(s, pattern, i, k, l);
    }
  }

  lemma FoundAt(s: string, pattern: string, at: nat)
    requires OccursAt(s, pattern, at) && forall i: nat :: i < at ==> !OccursAt(s, pattern, i)
    ensures Find(s, pattern) == Some(at)
  {
  }

  lemma MixedText()
    ensures Unix("a\r\nb\nc") == "a\nb\nc" && Dos("a\nb\nc") == "a\r\nb\r\nc"
    ensures NormSearch("a\nb") == "a\nb"
    ensures HasCrLf("a\r\nb\nc")
  {
    assert Unix("b\nc") == "b\nc";
    assert ("a\r\nb\nc")[1..][2..] == "b\nc";
    assert Unix("\r\nb\nc") == "\n" + Unix("b\nc");
    assert Dos("b\nc") == "b\r\nc";
    assert Unix("a\nb") == "a\nb";
    assert CrToLf("a\nb") == "a\nb";
    assert OccursAt("a\r\nb\nc", "\r\n", 1);
  }

  lemma MixedEdit()
    ensures NormalisedEdit("a\r\nb\nc", "a\nb", "a\nb") == Some("a\r\nb\r\nc")
  {
    var search, norm := "a\nb", "a\nb\nc";
    MixedText();
    assert OccursAt(norm, search, 0);
    FoundAt(norm, search, 0);
    assert Unix(search) == search;
    assert ReplaceFirst(norm, search, search) == norm;
  }

  /** Layer 2 gives a text with one CRLF a second one, although the replacement is the search text. */
  lemma MixedEndingsRewritten(lib: Library)
    ensures Apply(lib, "a\r\nb\nc", "a\nb", "a\nb") == Some("a\r\nb\r\nc")
  {
    NotFound("a\r\nb\nc", "a\nb", 0, 1);
    MixedEdit();
  }

  lemma StrippedTexts(lib: Library)
    requires lib.isSpace(' ') && !lib.isSpace('b') && !lib.isSpace('c')
    ensures Split("ab \nc") == ["ab ", "c"] && Split("b\nc") == ["b", "c"]
    ensures StripLines(lib, "ab \nc") == "ab\nc" && StripLines(lib, "b\nc") == "b\nc"
  {
    assert Join(["ab ", "c"], "\n") == "ab \nc" && Join(["b", "c"], "\n") == "b\nc";
    SplitJoin(["ab ", "c"]);
    SplitJoin(["b", "c"]);
    assert "ab "[..2] == "ab" && RStrip(lib, "ab") == "ab";
    assert RStrip(lib, "ab ") == "ab" && RStrip(lib, "b") == "b" && RStrip(lib, "c") == "c";
    assert RStripAll(lib, ["ab ", "c"]) == ["ab", "c"];
    assert RStripAll(lib, ["b", "c"]) == ["b", "c"];
    assert Join(["ab", "c"], "\n") == "ab\nc";
  }

  lemma PlainTexts()
    ensures Unix("ab \nc") == "ab \nc" && !HasCrLf("ab \nc") && NormSearch("b\nc") == "b\nc" && Unix("x") == "x"
  {
    NotFound("ab \nc", "\r\n", 0, 0);
    NoCrLfUnchanged("ab \nc");
    assert Unix("b\nc") == "b\nc" && CrToLf("b\nc") == "b\nc";
  }

  lemma WindowFound(lib: Library)
    requires lib.isSpace(' ') && !lib.isSpace('b') && !lib.isSpace('c')
    ensures StrippedWindow(lib, "ab \nc", "b\nc") == Some((0, 2))
  {
    PlainTexts();
    StrippedTexts(lib);
    FoundAt("ab\nc", "b\nc", 1);
    assert "ab\nc"[..1] == "a" && CountLf("a") == 0;
  }

  lemma WindowReplaced(lib: Library)
    requires lib.isSpace(' ') && !lib.isSpace('b') && !lib.isSpace('c')
    ensures Split(Unix("ab \nc")) == ["ab ", "c"] && LineEdit("ab \nc", (0, 2), "x") == "x"
  {
    PlainTexts();
    StrippedTexts(lib);
    assert Join(["x"], "\n") == "x";
    SplitJoin(["x"]);
    assert Splice(["ab ", "c"], 0, 2, "x") == ["x"];
  }

  /** Layer 3 drops the start of the line on which the match begins. */
  lemma LineStartDropped(lib: Library)
    requires lib.isSpace(' ') && !lib.isSpace('b') && !lib.isSpace('c')
    ensures Apply(lib, "ab \nc", "b\nc", "x") == Some("x")
  {
    var content, search := "ab \nc", "b\nc";
    NotFound(content, search, 0, 1);
    PlainTexts();
    assert NormalisedEdit(content, search, "x").None?;
    WindowFound(lib);
    WindowReplaced(lib);
  }

  lemma ConcatAssociative(a: string, b: string, c: string)
    ensures a + b + c == a + (b + c)
  {
  }
}
