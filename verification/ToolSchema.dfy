/**
  backend/core/token_budget.py, `_compact_tools`: dropping examples and shortening long
  descriptions in JSON tool schemas.
 */
module ToolSchema {
  import opened Wrappers
  import opened Json

  const MAX_DESCRIPTION := 120

  predicate IsExampleKey(key: string) { key == "examples" || key == "example" }

  predicate IsLongDescription(key: string, value: Json) {
    key == "description" && value.Str? && |value.s| > MAX_DESCRIPTION
  }

  function Compact(j: Json): Json
    decreases j, 1
  {
    match j
    case Obj(fields) => Obj(CompactFields(fields))
    case List(items) => List(CompactItems(items))
    case _ => j
  }

  function CompactUnder(key: string, value: Json): Json
    decreases value, 2
  {
    if IsLongDescription(key, value) then Str(value.s[..117] + "...") else Compact(value)
  }

  function CompactFields(fields: seq<Field>): seq<Field>
    decreases fields, 0
  {
    if fields == [] then []
    else
      (if IsExampleKey(fields[0].key) then []
       else [Field(fields[0].key, CompactUnder(fields[0].key, fields[0].value))])
      + CompactFields(fields[1..])
  }

  function CompactItems(items: seq<Json>): (compacted: seq<Json>)
    ensures |compacted| == |items|
    ensures forall i :: 0 <= i < |items| ==> compacted[i] == Compact(items[i])
    decreases items, 0
  {
    if items == [] then [] else [Compact(items[0])] + CompactItems(items[1..])
  }

  /** Nothing to compact at any depth. */
  predicate IsCompact(j: Json)
    decreases j, 1
  {
    match j
    case Obj(fields) => FieldsCompact(fields)
    case List(items) => ItemsCompact(items)
    case _ => true
  }

  predicate FieldsCompact(fields: seq<Field>)
    decreases fields, 0
  {
    fields != [] ==>
      && !IsExampleKey(fields[0].key) && !IsLongDescription(fields[0].key, fields[0].value)
      && IsCompact(fields[0].value) && FieldsCompact(fields[1..])
  }

  predicate ItemsCompact(items: seq<Json>)
    decreases items, 0
  {
    items != [] ==> IsCompact(items[0]) && ItemsCompact(items[1..])
  }

  // ---------------------------------------------------- idempotent and clean

  lemma {:induction false} CompactIsCompact(j: Json)
    ensures IsCompact(Compact(j))
    decreases j, 1
  {
    match j
    case Obj(fields) => CompactFieldsAreCompact(fields);
    case List(items) => CompactItemsAreCompact(items);
    case _ =>
  }

  lemma {:induction false} CompactFieldsAreCompact(fields: seq<Field>)
    ensures FieldsCompact(CompactFields(fields))
    decreases fields, 0
  {
    if fields != [] {
      var key, value := fields[0].key, fields[0].value;
      var rest := CompactFields(fields[1..]);
      CompactFieldsAreCompact(fields[1..]);
      if !IsExampleKey(key) {
        CompactIsCompact(value);
        assert ([Field(key, CompactUnder(key, value))] + rest)[1..] == rest;
      } else {
        assert [] + rest == rest;
      }
    }
  }

  lemma {:induction false} CompactItemsAreCompact(items: seq<Json>)
    ensures ItemsCompact(CompactItems(items))
    decreases items, 0
  {
    if items != [] {
      CompactIsCompact(items[0]);
      CompactItemsAreCompact(items[1..]);
      assert CompactItems(items)[1..] == CompactItems(items[1..]);
    }
  }

  /** A schema is left alone exactly when nothing in it needs compacting. */
  lemma {:induction false} UnchangedIffCompact(j: Json)
    ensures Compact(j) == j <==> IsCompact(j)
    decreases j, 1
  {
    CompactIsCompact(j);
    match j
    case Obj(fields) => FieldsUnchanged(fields);
    case List(items) => ItemsUnchanged(items);
    case _ =>
  }

  lemma {:induction false} FieldsUnchanged(fields: seq<Field>)
    ensures FieldsCompact(fields) ==> CompactFields(fields) == fields
    decreases fields, 0
  {
    if fields != [] {
      UnchangedIffCompact(fields[0].value);
      FieldsUnchanged(fields[1..]);
    }
  }

  lemma {:induction false} ItemsUnchanged(items: seq<Json>)
    ensures ItemsCompact(items) ==> CompactItems(items) == items
    decreases items, 0
  {
    if items != [] {
      UnchangedIffCompact(items[0]);
      ItemsUnchanged(items[1..]);
    }
  }

  lemma CompactIdempotent(j: Json)
    ensures Compact(Compact(j)) == Compact(j)
  {
    CompactIsCompact(j);
    UnchangedIffCompact(Compact(j));
  }

  // --------------------------------------------------- what every path shows

  predicate ThroughExample(path: seq<PathStep>) {
    Key("examples") in path || Key("example") in path
  }

  /** What is left of a value that was found at the end of a path. */
  function Shown(path: seq<PathStep>, value: Json): Json {
    if path != [] && path[|path| - 1].Key? then CompactUnder(path[|path| - 1].key, value) else Compact(value)
  }

  lemma ChildOfCons(f: Field, rest: seq<Field>, key: string)
    ensures Child(Obj([f] + rest), key) == if f.key == key then Some(f.value) else Child(Obj(rest), key)
  {
    assert ([f] + rest)[1..] == rest;
  }

  lemma CompactOfCons(f: Field, rest: seq<Field>)
    ensures CompactFields([f] + rest) ==
            if IsExampleKey(f.key) then CompactFields(rest)
            else [Field(f.key, CompactUnder(f.key, f.value))] + CompactFields(rest)
  {
    assert ([f] + rest)[1..] == rest;
    assert [] + CompactFields(rest) == CompactFields(rest);
  }

  lemma {:induction false} LookupInCompact(fields: seq<Field>, key: string)
    requires !IsExampleKey(key)
    ensures var before, after := Child(Obj(fields), key), Child(Obj(CompactFields(fields)), key);
            && (after.Some? <==> before.Some?)
            && (before.Some? ==> after.value == CompactUnder(key, before.value))
  {
    if fields != [] {
      var f, rest := fields[0], fields[1..];
      assert fields == [f] + rest;
      LookupInCompact(rest, key);
      ChildOfCons(f, rest, key);
      CompactOfCons(f, rest);
      ChildOfCons(Field(f.key, CompactUnder(f.key, f.value)), CompactFields(rest), key);
    }
  }

  lemma {:induction false} NoExampleInCompact(fields: seq<Field>, key: string)
    requires IsExampleKey(key)
    ensures Child(Obj(CompactFields(fields)), key).None?
  {
    if fields != [] {
      var f, rest := fields[0], fields[1..];
      assert fields == [f] + rest;
      NoExampleInCompact(rest, key);
      CompactOfCons(f, rest);
      ChildOfCons(Field(f.key, CompactUnder(f.key, f.value)), CompactFields(rest), key);
    }
  }

  predicate IsExampleStep(step: PathStep) { step == Key("examples") || step == Key("example") }

  lemma PathTail(path: seq<PathStep>, value: Json)
    requires path != []
    ensures ThroughExample(path) <==> IsExampleStep(path[0]) || ThroughExample(path[1..])
    ensures |path| > 1 ==> Shown(path, value) == Shown(path[1..], value)
  {
    assert path == [path[0]] + path[1..];
  }

  lemma {:induction false} CompactUnderAtPath(key: string, value: Json, path: seq<PathStep>)
    requires !IsExampleKey(key)
    ensures Get(CompactUnder(key, value), path) ==
            if ThroughExample(path) || Get(value, path).None? then None
            else Some(if path == [] then CompactUnder(key, value) else Shown(path, Get(value, path).value))
    decreases path, 1
  {
    if path != [] && !IsLongDescription(key, value) {
      CompactAtPath(value, path);
    }
  }

  /**
    The compacted schema at every path: nothing under an example key; elsewhere what was there,
    compacted, with only long descriptions shortened.
   */
  lemma {:induction false} CompactAtPath(j: Json, path: seq<PathStep>)
    ensures Get(Compact(j), path) ==
            if ThroughExample(path) || Get(j, path).None? then None else Some(Shown(path, Get(j, path).value))
    decreases path, 0
  {
    if path != [] {
      var rest := path[1..];
      PathTail(path, if Get(j, path).Some? then Get(j, path).value else j);
      match path[0]
      case Index(i) =>
        if j.List? && i < |j.items| {
          CompactAtPath(j.items[i], rest);
        }
      case Key(key) =>
        if j.Obj? {
          if IsExampleKey(key) {
            NoExampleInCompact(j.fields, key);
          } else {
            LookupInCompact(j.fields, key);
            var v := Child(j, key);
            if v.Some? {
              CompactUnderAtPath(key, v.value, rest);
            }
          }
        }
    }
  }

  // -------------------------------------------------------------------- size

  /** The escapes and number formats of `json.dumps`. */
  datatype Encoder = Encoder(escape: char -> string, number: Json -> string)

  ghost predicate Lawful(e: Encoder) {
    (forall c :: |e.escape(c)| >= 1) && |e.escape('.')| == 1
  }

  function Escape(e: Encoder, s: string): string {
    if s == "" then "" else e.escape(s[0]) + Escape(e, s[1..])
  }

  function Quote(e: Encoder, s: string): string { "\"" + Escape(e, s) + "\"" }

  /** `json.dumps(j, separators=(",", ":"))` */
  function Dump(e: Encoder, j: Json): string
    decreases j, 1
  {
    match j
    case Null => "null"
    case Bool(b) => if b then "true" else "false"
    case Str(s) => Quote(e, s)
    case List(items) => "[" + DumpItems(e, items) + "]"
    case Obj(fields) => "{" + DumpFields(e, fields) + "}"
    case _ => e.number(j)
  }

  function DumpItems(e: Encoder, items: seq<Json>): string
    decreases items, 0
  {
    if items == [] then ""
    else Dump(e, items[0]) + (if |items| == 1 then "" else ",") + DumpItems(e, items[1..])
  }

  function DumpFields(e: Encoder, fields: seq<Field>): string
    decreases fields, 0
  {
    if fields == [] then ""
    else
      Quote(e, fields[0].key) + ":" + Dump(e, fields[0].value)
      + (if |fields| == 1 then "" else ",") + DumpFields(e, fields[1..])
  }

  lemma {:induction false} EscapeConcat(e: Encoder, a: string, b: string)
    ensures |Escape(e, a + b)| == |Escape(e, a)| + |Escape(e, b)|
  {
    if a == "" {
      assert a + b == b;
    } else {
      assert (a + b)[1..] == a[1..] + b;
      EscapeConcat(e, a[1..], b);
    }
  }

  lemma {:induction false} EscapeGrows(e: Encoder, s: string)
    requires Lawful(e)
    ensures |Escape(e, s)| >= |s|
  {
    if s != "" {
      EscapeGrows(e, s[1..]);
    }
  }

  lemma ShortenedIsNotLonger(e: Encoder, s: string)
    requires Lawful(e) && |s| > MAX_DESCRIPTION
    ensures |Dump(e, Str(s[..117] + "..."))| < |Dump(e, Str(s))|
  {
    assert s == s[..117] + s[117..];
    EscapeConcat(e, s[..117], s[117..]);
    EscapeGrows(e, s[117..]);
    EscapeConcat(e, s[..117], "...");
    EscapedEllipsis(e);
  }

  lemma EscapedEllipsis(e: Encoder)
    requires Lawful(e)
    ensures |Escape(e, "...")| == 3
  {
    var dot := ".";
    assert dot[0] == '.' && dot[1..] == "";
    assert Escape(e, dot) == e.escape('.') + Escape(e, "");
    EscapeConcat(e, dot, dot);
    EscapeConcat(e, dot, dot + dot);
    assert dot + (dot + dot) == "...";
  }

  /** Compaction never makes the serialised schema longer. */
  lemma {:induction false} CompactNeverGrows(e: Encoder, j: Json)
    requires Lawful(e)
    ensures |Dump(e, Compact(j))| <= |Dump(e, j)|
    decreases j, 1
  {
    match j
    case Obj(fields) => CompactFieldsNeverGrow(e, fields);
    case List(items) => CompactItemsNeverGrow(e, items);
    case _ =>
  }

  lemma {:induction false} CompactItemsNeverGrow(e: Encoder, items: seq<Json>)
    requires Lawful(e)
    ensures |DumpItems(e, CompactItems(items))| <= |DumpItems(e, items)|
    decreases items, 0
  {
    if items != [] {
      CompactNeverGrows(e, items[0]);
      CompactItemsNeverGrow(e, items[1..]);
      assert CompactItems(items)[1..] == CompactItems(items[1..]);
    }
  }

  lemma {:induction false} CompactFieldsNeverGrow(e: Encoder, fields: seq<Field>)
    requires Lawful(e)
    ensures |DumpFields(e, CompactFields(fields))| <= |DumpFields(e, fields)|
    ensures |CompactFields(fields)| <= |fields|
    decreases fields, 0
  {
    if fields != [] {
      var key, value := fields[0].key, fields[0].value;
      var after, rest := CompactFields(fields), CompactFields(fields[1..]);
      CompactFieldsNeverGrow(e, fields[1..]);
      if IsExampleKey(key) {
        assert after == rest;
      } else {
        assert after[1..] == rest;
        if IsLongDescription(key, value) {
          ShortenedIsNotLonger(e, value.s);
        } else {
          CompactNeverGrows(e, value);
        }
      }
    }
  }

  // ---------------------------------------------------------- the text level

  /** `str.strip`, `json.loads`, which fails on malformed text, and the numbers that are floats. */
  datatype Parser = Parser(strip: string -> string, parse: string -> Option<Json>, isFloat: real -> bool)

  predicate LooksLikeJson(text: string) { "{" <= text || "[" <= text }

  /** The values that parsing yields: keys are distinct at every depth and fractions are floats. */
  predicate Readable(isFloat: real -> bool, j: Json)
    decreases j, 1
  {
    match j
    case Obj(fields) => FieldsReadable(isFloat, fields)
    case List(items) => ItemsReadable(isFloat, items)
    case Float(x) => isFloat(x)
    case _ => true
  }

  predicate FieldsReadable(isFloat: real -> bool, fields: seq<Field>)
    decreases fields, 0
  {
    fields != [] ==>
      && fields[0].key !in Keys(fields[1..])
      && Readable(isFloat, fields[0].value) && FieldsReadable(isFloat, fields[1..])
  }

  predicate ItemsReadable(isFloat: real -> bool, items: seq<Json>)
    decreases items, 0
  {
    items != [] ==> Readable(isFloat, items[0]) && ItemsReadable(isFloat, items[1..])
  }

  lemma {:induction false} CompactIsReadable(isFloat: real -> bool, j: Json)
    requires Readable(isFloat, j)
    ensures Readable(isFloat, Compact(j))
    decreases j, 1
  {
    match j
    case Obj(fields) => CompactFieldsAreReadable(isFloat, fields);
    case List(items) => CompactItemsAreReadable(isFloat, items);
    case _ =>
  }

  lemma KeysOfCons(f: Field, rest: seq<Field>)
    ensures Keys([f] + rest) == {f.key} + Keys(rest)
  {
    assert f in [f] + rest && forall g :: g in rest ==> g in [f] + rest;
  }

  lemma {:induction false} CompactFieldsAreReadable(isFloat: real -> bool, fields: seq<Field>)
    requires FieldsReadable(isFloat, fields)
    ensures FieldsReadable(isFloat, CompactFields(fields)) && Keys(CompactFields(fields)) <= Keys(fields)
    decreases fields, 0
  {
    if fields != [] {
      var key, value := fields[0].key, fields[0].value;
      var after, rest := CompactFields(fields), CompactFields(fields[1..]);
      CompactFieldsAreReadable(isFloat, fields[1..]);
      assert fields == [fields[0]] + fields[1..];
      if IsExampleKey(key) {
        assert after == rest;
      } else {
        CompactIsReadable(isFloat, value);
        var kept := Field(key, CompactUnder(key, value));
        assert after == [kept] + rest && after[1..] == rest;
        KeysOfCons(kept, rest);
        KeysOfCons(fields[0], fields[1..]);
      }
    }
  }

  lemma {:induction false} CompactItemsAreReadable(isFloat: real -> bool, items: seq<Json>)
    requires ItemsReadable(isFloat, items)
    ensures ItemsReadable(isFloat, CompactItems(items))
    decreases items, 0
  {
    if items != [] {
      CompactIsReadable(isFloat, items[0]);
      CompactItemsAreReadable(isFloat, items[1..]);
      assert CompactItems(items)[1..] == CompactItems(items[1..]);
    }
  }

  /** What the library promises: readable values survive writing and reading, and reading yields only such. */
  ghost predicate RoundTrips(p: Parser, e: Encoder) {
    && (forall j :: Readable(p.isFloat, j) ==> p.parse(Dump(e, j)) == Some(j))
    && (forall j :: Readable(p.isFloat, j) ==> p.strip(Dump(e, j)) == Dump(e, j))
    && (forall text :: LooksLikeJson(text) && p.parse(text).Some? ==>
          && Readable(p.isFloat, p.parse(text).value)
          && (p.parse(text).value.Obj? || p.parse(text).value.List?))
  }

  /** The schema in a tool text that is going to be rewritten. */
  function SchemaIn(p: Parser, text: string): Option<Json> {
    var stripped := p.strip(text);
    if text == "" || !LooksLikeJson(stripped) then None else p.parse(stripped)
  }

  /** Plain lists of tool names and malformed JSON are returned as they are. */
  function CompactTools(p: Parser, e: Encoder, text: string): string {
    var schema := SchemaIn(p, text);
    if schema.None? then text else Dump(e, Compact(schema.value))
  }

  /** Compacting a tool text again changes nothing. */
  lemma CompactToolsIdempotent(p: Parser, e: Encoder, text: string)
    requires RoundTrips(p, e)
    ensures CompactTools(p, e, CompactTools(p, e, text)) == CompactTools(p, e, text)
  {
    var schema := SchemaIn(p, text);
    if schema.Some? {
      var compacted := Compact(schema.value);
      CompactIsReadable(p.isFloat, schema.value);
      CompactIdempotent(schema.value);
      assert LooksLikeJson(Dump(e, compacted));
      assert p.parse(p.strip(Dump(e, compacted))) == Some(compacted);
    }
  }

  /** A text is rewritten exactly when, apart from white space, it is a JSON object or list that can be parsed. */
  lemma RewrittenIff(p: Parser, text: string)
    ensures SchemaIn(p, text).Some? <==>
              && text != "" && p.strip(text) != "" && p.strip(text)[0] in {'{', '['}
              && p.parse(p.strip(text)).Some?
    ensures SchemaIn(p, text).Some? ==> SchemaIn(p, text) == p.parse(p.strip(text))
  {
  }

  /**
    The text does not grow if re-serialising its schema alone would not make it grow; for a schema
    with nothing to compact this is exact.
   */
  lemma ToolTextGrowth(p: Parser, e: Encoder, text: string)
    requires Lawful(e)
    ensures var schema := SchemaIn(p, text);
            && (schema.None? ==> CompactTools(p, e, text) == text)
            && (schema.Some? && |Dump(e, schema.value)| <= |text| ==> |CompactTools(p, e, text)| <= |text|)
            && (schema.Some? && IsCompact(schema.value) ==>
                  (|CompactTools(p, e, text)| <= |text| <==> |Dump(e, schema.value)| <= |text|))
  {
    var schema := SchemaIn(p, text);
    if schema.Some? {
      CompactNeverGrows(e, schema.value);
      UnchangedIffCompact(schema.value);
    }
  }

  // --------------------------------------------------------- what is shortened

  lemma ShownAtPath(j: Json, path: seq<PathStep>, value: Json)
    requires !ThroughExample(path) && Get(j, path) == Some(value)
    ensures Get(Compact(j), path) == Some(Shown(path, value))
  {
    CompactAtPath(j, path);
  }

  lemma ShownScalar(path: seq<PathStep>, value: Json)
    requires !value.Obj? && !value.List?
    ensures Shown(path, value) ==
            if path != [] && path[|path| - 1] == Key("description") && value.Str? && |value.s| > 120 then
              Str(value.s[..117] + "...")
            else value
  {
    assert Compact(value) == value;
    if path != [] && path[|path| - 1].Key? {
      assert path[|path| - 1] == Key(path[|path| - 1].key);
    }
  }

  /**
    A description over 120 characters keeps its first 117, followed by three dots; every other text,
    number and constant outside examples is kept as it is.
   */
  lemma ScalarsAtPath(j: Json, path: seq<PathStep>, value: Json)
    requires !ThroughExample(path) && Get(j, path) == Some(value) && !value.Obj? && !value.List?
    ensures Get(Compact(j), path) == Some(
              if path != [] && path[|path| - 1] == Key("description") && value.Str? && |value.s| > 120 then
                Str(value.s[..117] + "...")
              else value)
  {
    ShownAtPath(j, path, value);
    ShownScalar(path, value);
  }
}
