/**
  backend/code_editor.py: the numbered preview shown to the model and the removal of line
  number prefixes from its answer.
 */
module LineNumbers {
  import opened Text

  const PREVIEW_LIMIT := 500

  /** The regular expression classes `\s` and `\d`. */
  datatype CharClasses = CharClasses(isSpace: char -> bool, isDigit: char -> bool)

  ghost predicate Lawful(cc: CharClasses) {
    && cc.isSpace(' ') && !cc.isDigit(' ')
    && !cc.isSpace('|') && !cc.isDigit('|') && !cc.isSpace('.') && !cc.isDigit('.')
    && forall i :: 0 <= i < 10 ==> cc.isDigit(DIGITS[i]) && !cc.isSpace(DIGITS[i])
  }

  const DIGITS := "0123456789"

  function Decimal(n: nat): string {
    (if n < 10 then "" else Decimal(n / 10)) + [DIGITS[n % 10]]
  }

  function PadLeft(s: string, width: nat): string
    decreases width - |s|
  {
    if |s| >= width then s else PadLeft(" " + s, width)
  }

  /** `f"{i:>4}| {line}"` */
  function Number(i: nat, line: string): string {
    PadLeft(Decimal(i), 4) + "| " + line
  }

  /** Number of leading characters of a class. */
  function Skip(inClass: char -> bool, s: string): (n: nat)
    ensures n <= |s|
  {
    if s != "" && inClass(s[0]) then 1 + Skip(inClass, s[1..]) else 0
  }

  /** Removes what `^\s*\d+\|\s?` matches; the classes are disjoint, so no backtracking arises. */
  function StripLine(cc: CharClasses, line: string): string {
    var numbered := line[Skip(cc.isSpace, line)..];
    var digits := Skip(cc.isDigit, numbered);
    var rest := numbered[digits..];
    if digits > 0 && rest != "" && rest[0] == '|' then
      if |rest| > 1 && cc.isSpace(rest[1]) then rest[2..] else rest[1..]
    else line
  }

  function StripAll(cc: CharClasses, lines: seq<string>): (stripped: seq<string>)
    ensures |stripped| == |lines|
  {
    if lines == [] then []
    else StripAll(cc, lines[..|lines| - 1]) + [StripLine(cc, lines[|lines| - 1])]
  }

  function NumberAll(lines: seq<string>): (numbered: seq<string>)
    ensures |numbered| == |lines|
  {
    if lines == [] then []
    else NumberAll(lines[..|lines| - 1]) + [Number(|lines|, lines[|lines| - 1])]
  }

  function Shown(content: string): seq<string> {
    var lines := Split(content);
    if |lines| > PREVIEW_LIMIT then lines[..PREVIEW_LIMIT] else lines
  }

  /** The closing line of a preview that leaves out `n` lines. */
  function MoreLines(n: nat): string {
    INDENT + ("... (" + Decimal(n) + " more lines)")
  }

  const INDENT := "     "

  /** How many lines a preview leaves out, when positive. */
  function Hidden(content: string): int { |Split(content)| - PREVIEW_LIMIT }

  function Closing(hidden: int): seq<string> {
    if hidden > 0 then [MoreLines(hidden)] else []
  }

  method NumberedPreview(content: string) returns (preview: string)
    ensures preview == Join(NumberAll(Shown(content)) + Closing(Hidden(content)), "\n")
  {
    var shown := Shown(content);
    var numbered: seq<string> := [];
    for i := 0 to |shown|
      invariant numbered == NumberAll(shown[..i])
    {
      assert shown[..i + 1][..i] == shown[..i];
      numbered := numbered + [Number(i + 1, shown[i])];
    }
    assert shown[..|shown|] == shown;
    preview := Join(numbered, "\n");
    var hidden := Hidden(content);
    if hidden > 0 {
      JoinAppend(numbered, MoreLines(hidden));
      preview := preview + "\n" + MoreLines(hidden);
    } else {
      assert numbered + [] == numbered;
    }
  }

  method StripLineNumbers(cc: CharClasses, text: string) returns (stripped: string)
    ensures stripped == Join(StripAll(cc, Split(text)), "\n")
  {
    var lines := Split(text);
    var kept: seq<string> := [];
    for i := 0 to |lines|
      invariant kept == StripAll(cc, lines[..i])
    {
      assert lines[..i + 1][..i] == lines[..i];
      kept := kept + [StripLine(cc, lines[i])];
    }
    assert lines[..|lines|] == lines;
    stripped := Join(kept, "\n");
  }

  // -------------------------------------------------------------- properties

  lemma {:induction false} SkipExactly(inClass: char -> bool, a: string, b: string)
    requires forall c :: c in a ==> inClass(c)
    requires b == "" || !inClass(b[0])
    ensures Skip(inClass, a + b) == |a|
  {
    if a == "" {
      assert a + b == b;
    } else {
      assert (a + b)[1..] == a[1..] + b;
      SkipExactly(inClass, a[1..], b);
    }
  }

  ghost predicate AllDigits(s: string) {
    s != "" && forall c :: c in s ==> c in DIGITS
  }

  lemma {:induction false} DecimalIsDigits(n: nat)
    ensures AllDigits(Decimal(n))
  {
    if n >= 10 {
      DecimalIsDigits(n / 10);
    }
    assert DIGITS[n % 10] in DIGITS;
  }

  lemma {:induction false} PadAddsSpaces(s: string, width: nat) returns (spaces: string)
    ensures PadLeft(s, width) == spaces + s && forall c :: c in spaces ==> c == ' '
    decreases width - |s|
  {
    if |s| >= width {
      spaces := "";
      assert "" + s == s;
    } else {
      var more := PadAddsSpaces(" " + s, width);
      spaces := more + " ";
      assert more + (" " + s) == spaces + s;
    }
  }

  lemma NumberParts(i: nat, line: string) returns (spaces: string)
    ensures Number(i, line) == spaces + (Decimal(i) + ("| " + line))
    ensures forall c :: c in spaces ==> c == ' '
    ensures NoLf(line) ==> NoLf(Number(i, line))
  {
    DecimalIsDigits(i);
    spaces := PadAddsSpaces(Decimal(i), 4);
    assert (spaces + Decimal(i)) + "| " + line == spaces + (Decimal(i) + ("| " + line));
  }

  /** Stripping undoes numbering, also for lines that look numbered themselves. */
  lemma StripUndoesNumber(cc: CharClasses, i: nat, line: string)
    requires Lawful(cc)
    ensures StripLine(cc, Number(i, line)) == line
  {
    var spaces := NumberParts(i, line);
    var digits, bar := Decimal(i), "| " + line;
    DecimalIsDigits(i);
    assert (digits + bar)[0] == digits[0] && digits[0] in digits;
    SkipExactly(cc.isSpace, spaces, digits + bar);
    assert (spaces + (digits + bar))[|spaces|..] == digits + bar;
    SkipExactly(cc.isDigit, digits, bar);
    assert (digits + bar)[|digits|..] == bar;
    assert bar[2..] == line;
  }

  lemma {:induction false} JoinAppend(lines: seq<string>, last: string)
    requires lines != []
    ensures Join(lines + [last], "\n") == Join(lines, "\n") + "\n" + last
  {
    if |lines| > 1 {
      assert (lines + [last])[1..] == lines[1..] + [last];
      JoinAppend(lines[1..], last);
      var rest := Join(lines[1..], "\n");
      assert lines[0] + "\n" + (rest + "\n" + last) == (lines[0] + "\n" + rest) + "\n" + last;
    } else {
      assert (lines + [last])[1..] == [last];
    }
  }

  lemma {:induction false} NumberedLines(lines: seq<string>)
    requires forall line :: line in lines ==> NoLf(line)
    ensures forall line :: line in NumberAll(lines) ==> NoLf(line)
  {
    if lines != [] {
      var n := |lines| - 1;
      NumberedLines(lines[..n]);
      var _ := NumberParts(n + 1, lines[n]);
    }
  }

  lemma MoreLinesKept(cc: CharClasses, n: nat)
    requires Lawful(cc)
    ensures StripLine(cc, MoreLines(n)) == MoreLines(n)
    ensures NoLf(MoreLines(n))
  {
    var digits := Decimal(n);
    DecimalIsDigits(n);
    MoreLinesShape(digits);
    NotNumbered(cc, INDENT, "... (" + digits + " more lines)");
  }

  lemma MoreLinesShape(digits: string)
    requires AllDigits(digits)
    ensures var rest := "... (" + digits + " more lines)";
            rest[0] == '.' && NoLf(rest) && NoLf(INDENT + rest)
    ensures forall c :: c in INDENT ==> c == ' '
  {
    assert NoLf("... (") && NoLf(" more lines)") && NoLf(digits);
  }

  lemma NotNumbered(cc: CharClasses, spaces: string, rest: string)
    requires forall c :: c in spaces ==> cc.isSpace(c)
    requires rest != "" && !cc.isSpace(rest[0]) && !cc.isDigit(rest[0])
    ensures StripLine(cc, spaces + rest) == spaces + rest
  {
    SkipExactly(cc.isSpace, spaces, rest);
    assert (spaces + rest)[|spaces|..] == rest;
  }

  lemma StripAllAppend(cc: CharClasses, lines: seq<string>, last: string, stripped: string)
    requires StripLine(cc, last) == stripped
    ensures StripAll(cc, lines + [last]) == StripAll(cc, lines) + [stripped]
  {
    assert (lines + [last])[..|lines|] == lines;
  }

  lemma NumberAllLast(lines: seq<string>)
    requires lines != []
    ensures var n := |lines| - 1;
            NumberAll(lines) == NumberAll(lines[..n]) + [Number(n + 1, lines[n])]
  {
  }

  lemma FrontAndLast(lines: seq<string>)
    requires lines != []
    ensures lines[..|lines| - 1] + [lines[|lines| - 1]] == lines
  {
  }

  lemma {:induction false} StripAllUndoesNumberAll(cc: CharClasses, lines: seq<string>)
    requires Lawful(cc)
    ensures StripAll(cc, NumberAll(lines)) == lines
  {
    if lines != [] {
      var n := |lines| - 1;
      var before := NumberAll(lines[..n]);
      StripAllUndoesNumberAll(cc, lines[..n]);
      StripUndoesNumber(cc, n + 1, lines[n]);
      NumberAllLast(lines);
      StripAllAppend(cc, before, Number(n + 1, lines[n]), lines[n]);
      FrontAndLast(lines);
    }
  }

  /** Stripping the whole preview gives back the lines it shows, and its closing line if any. */
  lemma PreviewRoundTrip(cc: CharClasses, content: string)
    requires Lawful(cc)
    ensures var closing := Closing(Hidden(content));
            var preview := Join(NumberAll(Shown(content)) + closing, "\n");
            Join(StripAll(cc, Split(preview)), "\n") == Join(Shown(content) + closing, "\n")
    ensures Hidden(content) <= 0 ==> Join(Shown(content) + Closing(Hidden(content)), "\n") == content
  {
    var hidden := Hidden(content);
    var shown, closing := Shown(content), Closing(hidden);
    var numbered := NumberAll(shown);
    forall line | line in shown ensures NoLf(line) {
      assert line in Split(content);
    }
    NumberedLines(shown);
    StripAllUndoesNumberAll(cc, shown);
    if hidden > 0 {
      MoreLinesKept(cc, hidden);
      StripAllAppend(cc, numbered, MoreLines(hidden), MoreLines(hidden));
    } else {
      assert shown + [] == shown && numbered + [] == numbered;
      JoinSplit(content);
    }
    SplitJoin(numbered + closing);
  }

  // ------------------------------------------------------- the numbers shown

  function DigitValue(c: char): nat {
    if c in DIGITS then IndexOf(DIGITS, c) else 0
  }

  function IndexOf(s: string, c: char): (i: nat)
    requires c in s
    ensures i < |s| && s[i] == c
    ensures forall j :: 0 <= j < i ==> s[j] != c
  {
    if s[0] == c then 0 else 1 + IndexOf(s[1..], c)
  }

  /** The number that a text of digits denotes. */
  function Value(s: string): nat {
    if s == "" then 0 else Value(s[..|s| - 1]) * 10 + DigitValue(s[|s| - 1])
  }

  lemma DigitOf(d: nat)
    requires d < 10
    ensures DIGITS[d] in DIGITS && DigitValue(DIGITS[d]) == d
  {
    var i := IndexOf(DIGITS, DIGITS[d]);
    assert DIGITS[i] == DIGITS[d];
  }

  lemma ValueOfLonger(head: string, d: nat)
    requires d < 10
    ensures Value(head + [DIGITS[d]]) == Value(head) * 10 + d
  {
    DigitOf(d);
    assert (head + [DIGITS[d]])[..|head|] == head;
  }

  /** Decimal texts denote their number. */
  lemma {:induction false} ValueOfDecimal(n: nat)
    ensures Value(Decimal(n)) == n
  {
    if n < 10 {
      ValueOfLonger("", n);
      assert Decimal(n) == "" + [DIGITS[n]];
    } else {
      ValueOfDecimal(n / 10);
      ValueOfLonger(Decimal(n / 10), n % 10);
      assert Decimal(n) == Decimal(n / 10) + [DIGITS[n % 10]];
    }
  }

  /** And they have no leading zero. */
  lemma {:induction false} NoLeadingZero(n: nat)
    requires n > 0
    ensures Decimal(n)[0] != '0'
  {
    if n >= 10 {
      DecimalIsDigits(n / 10);
      NoLeadingZero(n / 10);
    } else {
      assert Decimal(n)[0] == DIGITS[n] != DIGITS[0];
    }
  }

  lemma {:induction false} PadWidth(s: string, width: nat)
    ensures |PadLeft(s, width)| == if |s| < width then width else |s|
    decreases width - |s|
  {
    if |s| < width {
      PadWidth(" " + s, width);
    }
  }

  lemma {:induction false} NumberAllAt(lines: seq<string>, i: nat)
    requires i < |lines|
    ensures NumberAll(lines)[i] == Number(i + 1, lines[i])
    decreases lines
  {
    if i < |lines| - 1 {
      NumberAllAt(lines[..|lines| - 1], i);
    }
  }

  /** The line at position `i` of a preview carries the number `i + 1`, right-aligned in four columns. */
  lemma NumbersShown(lines: seq<string>, i: nat) returns (spaces: string, digits: string)
    requires i < |lines|
    ensures NumberAll(lines)[i] == spaces + (digits + ("| " + lines[i]))
    ensures Value(digits) == i + 1 && AllDigits(digits) && digits[0] != '0'
    ensures forall c :: c in spaces ==> c == ' '
    ensures |spaces| + |digits| == if |digits| < 4 then 4 else |digits|
  {
    digits := Decimal(i + 1);
    NumberAllAt(lines, i);
    spaces := NumberParts(i + 1, lines[i]);
    DecimalIsDigits(i + 1);
    ValueOfDecimal(i + 1);
    NoLeadingZero(i + 1);
    PadWidth(digits, 4);
    NumberLength(i + 1, lines[i]);
  }

  lemma NumberLength(i: nat, line: string)
    ensures |Number(i, line)| == |PadLeft(Decimal(i), 4)| + 2 + |line|
  {
  }

  /** A preview shows the first 500 lines and closes with the number of lines left out, if any. */
  lemma PreviewLimit(content: string) returns (digits: string)
    ensures Shown(content) <= Split(content)
    ensures |Shown(content)| == if |Split(content)| > 500 then 500 else |Split(content)|
    ensures |Split(content)| <= 500 ==> Closing(Hidden(content)) == []
    ensures |Split(content)| > 500 ==>
              && Closing(Hidden(content)) == ["     " + ("... (" + digits + " more lines)")]
              && AllDigits(digits) && Value(digits) == |Split(content)| - |Shown(content)|
  {
    digits := Decimal(if Hidden(content) > 0 then Hidden(content) else 0);
    if Hidden(content) > 0 {
      DecimalIsDigits(Hidden(content));
      ValueOfDecimal(Hidden(content));
    }
  }
}
