/**
  The law that `ToolSchema` asks of the JSON library can be met: a writer whose texts are
  unambiguous, and the reader that inverts it.  Fractions are not written by this one.
 */
module RoundTrip {
  import opened Wrappers
  import opened Json
  import opened ToolSchema

  function EscapeChar(c: char): string {
    if c == '"' || c == '\\' then ['\\', c] else [c]
  }

  function Strokes(n: nat): string {
    if n == 0 then "." else "1" + Strokes(n - 1)
  }

  function NumberText(j: Json): string {
    if !j.Int? then "?" else if j.n >= 0 then "+" + Strokes(j.n) else "-" + Strokes(-j.n)
  }

  const WRITER := Encoder(EscapeChar, NumberText)

  predicate NoFloat(x: real) { false }

  // ---------------------------------------------- texts with what follows them

  function EscapeTo(s: string, rest: string): string {
    if s == "" then rest else EscapeChar(s[0]) + EscapeTo(s[1..], rest)
  }

  function StringTo(s: string, rest: string): string { "\"" + EscapeTo(s, "\"" + rest) }

  function DumpTo(j: Json, rest: string): string
    decreases j, 1
  {
    match j
    case Null => "null" + rest
    case Bool(b) => (if b then "true" else "false") + rest
    case Str(s) => StringTo(s, rest)
    case List(items) => "[" + ItemsTo(items, "]" + rest)
    case Obj(fields) => "{" + FieldsTo(fields, "}" + rest)
    case _ => NumberText(j) + rest
  }

  function ItemsTo(items: seq<Json>, rest: string): string
    decreases items, 0
  {
    if items == [] then rest
    else DumpTo(items[0], if |items| == 1 then rest else "," + ItemsTo(items[1..], rest))
  }

  function FieldsTo(fields: seq<Field>, rest: string): string
    decreases fields, 0
  {
    if fields == [] then rest
    else
      StringTo(fields[0].key,
               ":" + DumpTo(fields[0].value, if |fields| == 1 then rest else "," + FieldsTo(fields[1..], rest)))
  }

  lemma Associative(a: string, b: string, c: string)
    ensures a + (b + c) == a + b + c
  {
  }

  lemma {:induction false} EscapeToIsEscape(s: string, rest: string)
    ensures EscapeTo(s, rest) == Escape(WRITER, s) + rest
  {
    if s != "" {
      EscapeToIsEscape(s[1..], rest);
      Associative(EscapeChar(s[0]), Escape(WRITER, s[1..]), rest);
    }
  }

  lemma StringToIsQuote(s: string, rest: string)
    ensures StringTo(s, rest) == Quote(WRITER, s) + rest
  {
    EscapeToIsEscape(s, "\"" + rest);
    Associative(Escape(WRITER, s), "\"", rest);
    Associative("\"", Escape(WRITER, s) + "\"", rest);
    Associative("\"", Escape(WRITER, s), "\"");
  }

  lemma {:induction false} DumpToIsDump(j: Json, rest: string)
    ensures DumpTo(j, rest) == Dump(WRITER, j) + rest
    decreases j, 1
  {
    match j
    case Str(s) => StringToIsQuote(s, rest);
    case List(items) =>
      ItemsToIsDump(items, "]" + rest);
      Enclosed("[", DumpItems(WRITER, items), "]", rest);
    case Obj(fields) =>
      FieldsToIsDump(fields, "}" + rest);
      Enclosed("{", DumpFields(WRITER, fields), "}", rest);
    case _ =>
  }

  lemma Enclosed(left: string, inner: string, right: string, rest: string)
    ensures left + (inner + (right + rest)) == left + inner + right + rest
  {
    Associative(inner, right, rest);
    Associative(left, inner + right, rest);
    Associative(left, inner, right);
  }

  lemma Followed(first: string, more: string, rest: string)
    ensures first + ("," + (more + rest)) == first + "," + more + rest
  {
    Enclosed(first, ",", more, rest);
  }

  lemma {:induction false} ItemsToIsDump(items: seq<Json>, rest: string)
    ensures ItemsTo(items, rest) == DumpItems(WRITER, items) + rest
    decreases items, 0
  {
    if items != [] {
      var first := Dump(WRITER, items[0]);
      if |items| == 1 {
        DumpToIsDump(items[0], rest);
        assert first + "" + DumpItems(WRITER, items[1..]) == first;
      } else {
        ItemsToIsDump(items[1..], rest);
        DumpToIsDump(items[0], "," + ItemsTo(items[1..], rest));
        Followed(first, DumpItems(WRITER, items[1..]), rest);
      }
    }
  }

  lemma {:induction false} FieldsToIsDump(fields: seq<Field>, rest: string)
    ensures FieldsTo(fields, rest) == DumpFields(WRITER, fields) + rest
    decreases fields, 0
  {
    if fields != [] {
      var key, value := Quote(WRITER, fields[0].key), Dump(WRITER, fields[0].value);
      var more := DumpFields(WRITER, fields[1..]);
      var after := if |fields| == 1 then rest else "," + FieldsTo(fields[1..], rest);
      DumpToIsDump(fields[0].value, after);
      StringToIsQuote(fields[0].key, ":" + DumpTo(fields[0].value, after));
      Enclosed(key, ":", value, after);
      if |fields| == 1 {
        assert key + ":" + value + "" + more == key + ":" + value;
      } else {
        FieldsToIsDump(fields[1..], rest);
        Followed(key + ":" + value, more, rest);
      }
    }
  }

  // ------------------------------------------------------------- unambiguous

  lemma SameTail(c: char, a: string, b: string)
    requires [c] + a == [c] + b
    ensures a == b
  {
    assert ([c] + a)[1..] == a && ([c] + b)[1..] == b;
  }

  lemma {:induction false} StringsDiffer(s: string, r: string, t: string, q: string)
    requires EscapeTo(s, "\"" + r) == EscapeTo(t, "\"" + q)
    ensures s == t && r == q
  {
    if s == "" || t == "" {
      EscapeHead(s, r);
      EscapeHead(t, q);
      SameTail('"', r, q);
    } else {
      EscapeHead(s, r);
      EscapeHead(t, q);
      SameEscape(s[0], EscapeTo(s[1..], "\"" + r), t[0], EscapeTo(t[1..], "\"" + q));
      StringsDiffer(s[1..], r, t[1..], q);
      assert s == [s[0]] + s[1..] && t == [t[0]] + t[1..];
    }
  }

  lemma EscapeHead(s: string, r: string)
    ensures EscapeTo(s, "\"" + r) != "" && (EscapeTo(s, "\"" + r)[0] == '"' <==> s == "")
  {
  }

  lemma SameEscape(c: char, a: string, d: char, b: string)
    requires EscapeChar(c) + a == EscapeChar(d) + b
    ensures c == d && a == b
  {
    var x, y := EscapeChar(c) + a, EscapeChar(d) + b;
    assert x[0] == EscapeChar(c)[0] && y[0] == EscapeChar(d)[0];
    assert |EscapeChar(c)| == |EscapeChar(d)|;
    assert x[|EscapeChar(c)| - 1] == c && y[|EscapeChar(d)| - 1] == d;
    assert x[|EscapeChar(c)|..] == a && y[|EscapeChar(d)|..] == b;
  }

  lemma {:induction false} StrokesDiffer(m: nat, r: string, n: nat, q: string)
    requires Strokes(m) + r == Strokes(n) + q
    ensures m == n && r == q
  {
    assert (Strokes(m) + r)[0] == (if m == 0 then '.' else '1');
    assert (Strokes(n) + q)[0] == (if n == 0 then '.' else '1');
    assert (Strokes(m) + r)[1..] == (if m == 0 then r else Strokes(m - 1) + r);
    assert (Strokes(n) + q)[1..] == (if n == 0 then q else Strokes(n - 1) + q);
    if m > 0 {
      StrokesDiffer(m - 1, r, n - 1, q);
    }
  }

  /** The first character tells which kind of value follows. */
  function Tag(j: Json): char {
    match j
    case Null => 'n'
    case Bool(b) => if b then 't' else 'f'
    case Str(_) => '"'
    case List(_) => '['
    case Obj(_) => '{'
    case Int(n) => if n >= 0 then '+' else '-'
    case Float(_) => '?'
  }

  lemma TagFirst(j: Json, rest: string)
    ensures DumpTo(j, rest) != "" && DumpTo(j, rest)[0] == Tag(j)
  {
  }

  lemma IntsDiffer(j: Json, r: string, k: Json, q: string)
    requires j.Int? && k.Int? && DumpTo(j, r) == DumpTo(k, q)
    ensures j == k && r == q
  {
    TagFirst(j, r);
    TagFirst(k, q);
    var m, n := if j.n >= 0 then j.n else -j.n, if k.n >= 0 then k.n else -k.n;
    assert DumpTo(j, r)[1..] == Strokes(m) + r;
    assert DumpTo(k, q)[1..] == Strokes(n) + q;
    StrokesDiffer(m, r, n, q);
  }

  /** A text begins with at most one value, and what follows it is determined. */
  lemma {:induction false} ValuesDiffer(j: Json, r: string, k: Json, q: string)
    requires Readable(NoFloat, j) && Readable(NoFloat, k) && DumpTo(j, r) == DumpTo(k, q)
    ensures j == k && r == q
    decreases j, 1
  {
    TagFirst(j, r);
    TagFirst(k, q);
    match j
    case Null => assert DumpTo(j, r)[4..] == r && DumpTo(k, q)[4..] == q;
    case Bool(b) =>
      var n := if b then 4 else 5;
      assert DumpTo(j, r)[n..] == r && DumpTo(k, q)[n..] == q;
    case Int(_) => IntsDiffer(j, r, k, q);
    case Str(s) =>
      SameTail('"', EscapeTo(s, "\"" + r), EscapeTo(k.s, "\"" + q));
      StringsDiffer(s, r, k.s, q);
    case List(items) =>
      SameTail('[', ItemsTo(items, "]" + r), ItemsTo(k.items, "]" + q));
      ItemsDiffer(items, r, k.items, q);
    case Obj(fields) =>
      SameTail('{', FieldsTo(fields, "}" + r), FieldsTo(k.fields, "}" + q));
      FieldsDiffer(fields, r, k.fields, q);
    case Float(_) =>
  }

  lemma ItemsHead(items: seq<Json>, r: string)
    ensures ItemsTo(items, "]" + r) != ""
    ensures items != [] ==> ItemsTo(items, "]" + r)[0] == Tag(items[0]) != ']'
    ensures items == [] ==> ItemsTo(items, "]" + r)[0] == ']'
  {
    if items != [] {
      TagFirst(items[0], if |items| == 1 then "]" + r else "," + ItemsTo(items[1..], "]" + r));
    }
  }

  lemma {:induction false} ItemsDiffer(a: seq<Json>, r: string, b: seq<Json>, q: string)
    requires ItemsReadable(NoFloat, a) && ItemsReadable(NoFloat, b)
    requires ItemsTo(a, "]" + r) == ItemsTo(b, "]" + q)
    ensures a == b && r == q
    decreases a, 0
  {
    ItemsHead(a, r);
    ItemsHead(b, q);
    if a == [] || b == [] {
      SameTail(']', r, q);
    } else {
      var x := if |a| == 1 then "]" + r else "," + ItemsTo(a[1..], "]" + r);
      var y := if |b| == 1 then "]" + q else "," + ItemsTo(b[1..], "]" + q);
      ValuesDiffer(a[0], x, b[0], y);
      assert x[0] == (if |a| == 1 then ']' else ',') && y[0] == (if |b| == 1 then ']' else ',');
      if |a| == 1 {
        SameTail(']', r, q);
      } else {
        SameTail(',', ItemsTo(a[1..], "]" + r), ItemsTo(b[1..], "]" + q));
        ItemsDiffer(a[1..], r, b[1..], q);
      }
      assert a == [a[0]] + a[1..] && b == [b[0]] + b[1..];
    }
  }

  lemma {:induction false} FieldDiffers(f: Field, r: string, g: Field, q: string)
    requires Readable(NoFloat, f.value) && Readable(NoFloat, g.value)
    requires StringTo(f.key, ":" + DumpTo(f.value, r)) == StringTo(g.key, ":" + DumpTo(g.value, q))
    ensures f == g && r == q
    decreases f, 0
  {
    var v, w := DumpTo(f.value, r), DumpTo(g.value, q);
    SameTail('"', EscapeTo(f.key, "\"" + (":" + v)), EscapeTo(g.key, "\"" + (":" + w)));
    StringsDiffer(f.key, ":" + v, g.key, ":" + w);
    SameTail(':', v, w);
    ValuesDiffer(f.value, r, g.value, q);
  }

  lemma FieldsHead(fields: seq<Field>, r: string)
    ensures FieldsTo(fields, "}" + r) != ""
    ensures FieldsTo(fields, "}" + r)[0] == if fields == [] then '}' else '"'
  {
  }

  function MoreFields(fields: seq<Field>, r: string): string
    requires fields != []
  {
    if |fields| == 1 then "}" + r else "," + FieldsTo(fields[1..], "}" + r)
  }

  lemma MoreFieldsDiffer(a: seq<Field>, r: string, b: seq<Field>, q: string)
    requires a != [] && b != [] && MoreFields(a, r) == MoreFields(b, q)
    ensures |a| == 1 <==> |b| == 1
    ensures |a| == 1 ==> r == q
    ensures |a| > 1 ==> FieldsTo(a[1..], "}" + r) == FieldsTo(b[1..], "}" + q)
  {
    assert MoreFields(a, r)[0] == (if |a| == 1 then '}' else ',');
    assert MoreFields(b, q)[0] == (if |b| == 1 then '}' else ',');
    if |a| == 1 {
      SameTail('}', r, q);
    } else {
      SameTail(',', FieldsTo(a[1..], "}" + r), FieldsTo(b[1..], "}" + q));
    }
  }

  lemma SameEmptiness(a: seq<Field>, r: string, b: seq<Field>, q: string)
    requires FieldsTo(a, "}" + r) == FieldsTo(b, "}" + q)
    ensures a == [] <==> b == []
    ensures a == [] ==> r == q
  {
    FieldsHead(a, r);
    FieldsHead(b, q);
    if a == [] {
      SameTail('}', r, q);
    }
  }

  lemma FirstFields(a: seq<Field>, r: string, b: seq<Field>, q: string)
    requires a != [] && b != [] && FieldsTo(a, "}" + r) == FieldsTo(b, "}" + q)
    ensures StringTo(a[0].key, ":" + DumpTo(a[0].value, MoreFields(a, r)))
            == StringTo(b[0].key, ":" + DumpTo(b[0].value, MoreFields(b, q)))
  {
  }

  lemma ConsEqual(a: seq<Field>, b: seq<Field>)
    requires a != [] && b != [] && a[0] == b[0] && a[1..] == b[1..]
    ensures a == b
  {
    assert a == [a[0]] + a[1..] && b == [b[0]] + b[1..];
  }

  lemma {:induction false} FieldsDiffer(a: seq<Field>, r: string, b: seq<Field>, q: string)
    requires FieldsReadable(NoFloat, a) && FieldsReadable(NoFloat, b)
    requires FieldsTo(a, "}" + r) == FieldsTo(b, "}" + q)
    ensures a == b && r == q
    decreases a, 0
  {
    SameEmptiness(a, r, b, q);
    if a != [] {
      FirstFields(a, r, b, q);
      FieldDiffers(a[0], MoreFields(a, r), b[0], MoreFields(b, q));
      MoreFieldsDiffer(a, r, b, q);
      if |a| > 1 {
        FieldsDiffer(a[1..], r, b[1..], q);
      }
      ConsEqual(a, b);
    }
  }

  // --------------------------------------------------------------- the reader

  ghost predicate Writes(j: Json, text: string) { Readable(NoFloat, j) && Dump(WRITER, j) == text }

  ghost function Read(text: string): Option<Json> {
    if exists j :: Writes(j, text) then
      var j :| Writes(j, text);
      Some(j)
    else None
  }

  lemma ReadUndoesDump(j: Json)
    requires Readable(NoFloat, j)
    ensures Read(Dump(WRITER, j)) == Some(j)
  {
    var text := Dump(WRITER, j);
    assert Writes(j, text);
    var k := Read(text).value;
    DumpToIsDump(j, "");
    DumpToIsDump(k, "");
    assert text + "" == text;
    ValuesDiffer(j, "", k, "");
  }

  /** A library that satisfies the law exists. */
  lemma LawCanBeMet() returns (p: Parser, e: Encoder)
    ensures Lawful(e) && RoundTrips(p, e)
  {
    p, e := Parser(text => text, Read, NoFloat), WRITER;
    forall j | Readable(NoFloat, j) ensures p.parse(Dump(e, j)) == Some(j) {
      ReadUndoesDump(j);
    }
    forall text | LooksLikeJson(text) && p.parse(text).Some?
      ensures Readable(NoFloat, p.parse(text).value)
      ensures p.parse(text).value.Obj? || p.parse(text).value.List?
    {
      var j := p.parse(text).value;
      assert Writes(j, text);
      DumpToIsDump(j, "");
      assert text + "" == text;
      TagFirst(j, "");
    }
  }
}
