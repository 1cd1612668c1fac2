/** The string and list operations of Python that the modelled code uses, on `seq<char>`. */
module Text {
  import opened Wrappers

  /** `sep.join(parts)` */
  function Join(parts: seq<string>, sep: string): string {
    if parts == [] then "" else if |parts| == 1 then parts[0] else parts[0] + sep + Join(parts[1..], sep)
  }

  function Concat(parts: seq<string>): string {
    if parts == [] then "" else parts[0] + Concat(parts[1..])
  }

  predicate NoLf(s: string) { '\n' !in s }

  predicate Lines(lines: seq<string>) {
    lines != [] && forall line :: line in lines ==> NoLf(line)
  }

  /** `s.split("\n")` */
  function Split(s: string): (lines: seq<string>)
    ensures Lines(lines)
  {
    if s == "" then [""]
    else
      var rest := Split(s[1..]);
      Prepend(s[0], rest)
  }

  function Prepend(c: char, lines: seq<string>): (longer: seq<string>)
    requires lines != []
    ensures Lines(lines) ==> Lines(longer)
  {
    assert forall line :: line in lines[1..] ==> line in lines;
    assert lines[0] in lines;
    if c == '\n' then [""] + lines else [[c] + lines[0]] + lines[1..]
  }

  /** `s.count("\n")` */
  function CountLf(s: string): nat {
    if s == "" then 0 else (if s[0] == '\n' then 1 else 0) + CountLf(s[1..])
  }

  /** The lines of a concatenation: the last line of one text continues as the first of the next. */
  function Glue(a: seq<string>, b: seq<string>): seq<string>
    requires a != [] && b != []
  {
    a[..|a| - 1] + [a[|a| - 1] + b[0]] + b[1..]
  }

  predicate OccursAt(s: string, pattern: string, i: nat) {
    i <= |s| && pattern <= s[i..]
  }

  /** The first position at which the pattern occurs. */
  function Find(s: string, pattern: string): (at: Option<nat>)
    ensures at.Some? ==> OccursAt(s, pattern, at.value) && forall j: nat :: j < at.value ==> !OccursAt(s, pattern, j)
    ensures at.None? ==> forall j: nat :: !OccursAt(s, pattern, j)
  {
    if pattern <= s then
      assert s[0..] == s;
      Some(0)
    else if s == "" then
      assert s[0..] == s;
      None
    else
      assert s[0..] == s;
      assert forall j: nat :: 0 < j <= |s| ==> s[j..] == s[1..][j - 1..];
      assert forall j: nat :: 0 < j <= |s| ==> (OccursAt(s, pattern, j) <==> OccursAt(s[1..], pattern, j - 1));
      var rest := Find(s[1..], pattern);
      if rest.Some? then Some(rest.value + 1) else None
  }

  /** `s.replace(pattern, by, 1)` */
  function ReplaceFirst(s: string, pattern: string, replacement: string): string {
    var at := Find(s, pattern);
    if at.Some? then s[..at.value] + replacement + s[at.value + |pattern|..] else s
  }

  // ------------------------------------------------------------- line endings

  /** `s.replace("\r\n", "\n")` */
  function Unix(s: string): string {
    if |s| >= 2 && s[0] == '\r' && s[1] == '\n' then "\n" + Unix(s[2..])
    else if s == "" then "" else [s[0]] + Unix(s[1..])
  }

  /** `s.replace("\r", "\n")` */
  function CrToLf(s: string): string {
    if s == "" then "" else [if s[0] == '\r' then '\n' else s[0]] + CrToLf(s[1..])
  }

  /** `s.replace("\n", "\r\n")` */
  function Dos(s: string): string {
    if s == "" then "" else (if s[0] == '\n' then "\r\n" else [s[0]]) + Dos(s[1..])
  }

  predicate HasCrLf(s: string) { Find(s, "\r\n").Some? }

  ghost predicate EveryLfAfterCr(s: string) {
    forall i :: 0 <= i < |s| && s[i] == '\n' ==> i > 0 && s[i - 1] == '\r'
  }

  // ------------------------------------------------------------------- lemmas

  lemma {:induction false} SplitConcat(a: string, b: string)
    ensures Split(a + b) == Glue(Split(a), Split(b))
  {
    if a == "" {
      assert a + b == b;
      assert Split(a) == [""] && [""][..0] == [];
      assert "" + Split(b)[0] == Split(b)[0];
      assert Glue([""], Split(b)) == Split(b);
    } else {
      assert (a + b)[1..] == a[1..] + b && (a + b)[0] == a[0];
      SplitConcat(a[1..], b);
      PrependGlue(a[0], Split(a[1..]), Split(b));
    }
  }

  lemma GlueCons(head: string, x: seq<string>, y: seq<string>)
    requires x != [] && y != []
    ensures Glue([head] + x, y) == [head] + Glue(x, y)
  {
    var n := |x| - 1;
    assert ([head] + x)[..n + 1] == [head] + x[..n];
  }

  lemma GlueOne(line: string, y: seq<string>)
    requires y != []
    ensures Glue([line], y) == [line + y[0]] + y[1..]
  {
  }

  lemma PrependCons(c: char, head: string, more: seq<string>)
    requires c != '\n'
    ensures Prepend(c, [head] + more) == [[c] + head] + more
  {
    assert ([head] + more)[1..] == more;
  }

  lemma PrependGlue(c: char, x: seq<string>, y: seq<string>)
    requires x != [] && y != []
    ensures Prepend(c, Glue(x, y)) == Glue(Prepend(c, x), y)
  {
    if c == '\n' {
      GlueCons("", x, y);
    } else if |x| == 1 {
      assert x == [x[0]] + [];
      PrependCons(c, x[0], []);
      PrependCons(c, x[0] + y[0], y[1..]);
      GlueOne(x[0], y);
      GlueOne([c] + x[0], y);
      assert [c] + (x[0] + y[0]) == ([c] + x[0]) + y[0];
    } else {
      assert x == [x[0]] + x[1..];
      PrependCons(c, x[0], x[1..]);
      GlueCons(x[0], x[1..], y);
      PrependCons(c, x[0], Glue(x[1..], y));
      GlueCons([c] + x[0], x[1..], y);
    }
  }

  lemma {:induction false} SplitCounts(s: string)
    ensures |Split(s)| == CountLf(s) + 1
  {
    if s != "" {
      SplitCounts(s[1..]);
    }
  }

  lemma {:induction false} JoinSplit(s: string)
    ensures Join(Split(s), "\n") == s
  {
    if s != "" {
      JoinSplit(s[1..]);
      var rest := Split(s[1..]);
      var lines := Split(s);
      if s[0] == '\n' {
        assert lines[1..] == rest;
      } else {
        assert lines[1..] == rest[1..];
      }
    }
  }

  lemma {:induction false} SplitNoLf(line: string)
    requires NoLf(line)
    ensures Split(line) == [line]
  {
    if line != "" {
      assert NoLf(line[1..]) && line[0] != '\n';
      SplitNoLf(line[1..]);
      assert [line[1..]][1..] == [];
      assert [line[0]] + line[1..] == line;
    }
  }

  lemma {:induction false} SplitJoin(lines: seq<string>)
    requires Lines(lines)
    ensures Split(Join(lines, "\n")) == lines
  {
    SplitNoLf(lines[0]);
    if |lines| > 1 {
      SplitJoin(lines[1..]);
      var rest := "\n" + Join(lines[1..], "\n");
      assert Join(lines, "\n") == lines[0] + rest;
      SplitConcat(lines[0], rest);
      SplitAfterLf(Join(lines[1..], "\n"));
      GlueAfterLine(lines[0], lines[1..]);
    }
  }

  lemma SplitAfterLf(s: string)
    ensures Split("\n" + s) == [""] + Split(s)
  {
    assert ("\n" + s)[1..] == s;
  }

  lemma GlueAfterLine(line: string, more: seq<string>)
    ensures Glue([line], [""] + more) == [line] + more
  {
    assert ([""] + more)[1..] == more && [line][..0] == [] && line + "" == line;
  }

  lemma {:induction false} DosConcat(a: string, b: string)
    ensures Dos(a + b) == Dos(a) + Dos(b)
  {
    if a == "" {
      assert a + b == b;
    } else {
      assert (a + b)[1..] == a[1..] + b;
      DosConcat(a[1..], b);
    }
  }

  lemma {:induction false} DosPutsCrBeforeLf(s: string)
    ensures EveryLfAfterCr(Dos(s))
  {
    if s != "" {
      DosPutsCrBeforeLf(s[1..]);
      var rest := Dos(s[1..]);
      var head := if s[0] == '\n' then "\r\n" else [s[0]];
      assert Dos(s) == head + rest;
      forall i | 0 <= i < |Dos(s)| && Dos(s)[i] == '\n' ensures i > 0 && Dos(s)[i - 1] == '\r' {
        if i >= |head| {
          assert rest[i - |head|] == '\n';
        }
      }
    }
  }

  /** Converting to LF and back is the identity exactly when every LF follows a CR. */
  lemma {:induction false} DosUnixRoundTrip(s: string)
    ensures Dos(Unix(s)) == s <==> EveryLfAfterCr(s)
  {
    if EveryLfAfterCr(s) {
      DosUndoesUnix(s);
    } else {
      DosPutsCrBeforeLf(Unix(s));
    }
  }

  lemma {:induction false} DosUndoesUnix(s: string)
    requires EveryLfAfterCr(s)
    ensures Dos(Unix(s)) == s
  {
    if |s| >= 2 && s[0] == '\r' && s[1] == '\n' {
      assert forall i :: 0 <= i < |s| - 2 ==> s[2..][i] == s[i + 2];
      DosUndoesUnix(s[2..]);
      assert ("\n" + Unix(s[2..]))[1..] == Unix(s[2..]);
      assert s == "\r\n" + s[2..];
    } else if s != "" {
      assert forall i :: 0 <= i < |s| - 1 ==> s[1..][i] == s[i + 1];
      DosUndoesUnix(s[1..]);
      assert ([s[0]] + Unix(s[1..]))[1..] == Unix(s[1..]);
      assert s == [s[0]] + s[1..];
    }
  }

  lemma {:induction false} DosNoLf(line: string)
    requires NoLf(line)
    ensures Dos(line) == line
  {
    if line != "" {
      DosNoLf(line[1..]);
    }
  }

  lemma DosOfLine(line: string, rest: string)
    requires NoLf(line)
    ensures Dos(line + "\n" + rest) == line + "\r\n" + Dos(rest)
  {
    var tail := "\n" + rest;
    assert line + "\n" + rest == line + tail;
    DosConcat(line, tail);
    DosNoLf(line);
    assert tail[1..] == rest;
    assert line + ("\r\n" + Dos(rest)) == line + "\r\n" + Dos(rest);
  }

  /** Joining lines with CRLF is joining them with LF and converting. */
  lemma {:induction false} JoinWithCrLf(lines: seq<string>)
    requires Lines(lines)
    ensures Join(lines, "\r\n") == Dos(Join(lines, "\n"))
  {
    if |lines| > 1 {
      JoinWithCrLf(lines[1..]);
      DosOfLine(lines[0], Join(lines[1..], "\n"));
    } else {
      DosNoLf(lines[0]);
    }
  }
}
