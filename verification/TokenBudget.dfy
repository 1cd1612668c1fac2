/**
  backend/core/token_budget.py: token estimates, the budget of a node and the compiled prompt.

  `ratio` is the characters-per-token ratio of the model family and `ctx` its context window.
  Arithmetic is exact; the tool schemas arrive compacted and the input data serialised.
 */
module TokenBudget {
  import opened Wrappers
  import opened Text

  function Ceil(x: real): int {
    if x == x.Floor as real then x.Floor else x.Floor + 1
  }

  function Max(a: int, b: int): int { if a < b then b else a }

  function Min(a: int, b: int): int { if b < a then b else a }

  function Estimate(text: string, ratio: real): (tokens: nat)
    requires ratio > 0.0
  {
    if text == "" then 0 else Max(1, Ceil(|text| as real / ratio))
  }

  datatype Node = Node(system: string, instructions: string, tools: string, expectedOutput: string)

  datatype Budget = Budget(
    system: int, tools: int, instructions: int, input: int, output: int,
    safety: int, total: int, ctx: int, remaining: int)

  /** Ten percent of the window, rounded up. */
  function Safety(ctx: int): int { Ceil(ctx as real * 0.1) }

  function Usable(ctx: int): int { ctx - Safety(ctx) }

  /** At least a quarter of the usable window, at most half of it. */
  function OutputTokens(node: Node, ctx: int, ratio: real): int
    requires ratio > 0.0
  {
    Min(Max(Estimate(node.expectedOutput, ratio), Usable(ctx) / 4), Usable(ctx) / 2)
  }

  /** The layers that are never truncated, and the reserved output. */
  function Fixed(node: Node, ctx: int, ratio: real): int
    requires ratio > 0.0
  {
    Estimate(node.system, ratio) + Estimate(node.tools, ratio) + Estimate(node.instructions, ratio)
    + OutputTokens(node, ctx, ratio)
  }

  function Allocate(node: Node, input: string, ctx: int, ratio: real): Budget
    requires ratio > 0.0
  {
    var fixed := Fixed(node, ctx, ratio);
    var forInput := Max(0, Usable(ctx) - fixed);
    var inputTokens := Min(Estimate(input, ratio), forInput);
    Budget(
      Estimate(node.system, ratio), Estimate(node.tools, ratio), Estimate(node.instructions, ratio),
      inputTokens, OutputTokens(node, ctx, ratio), Safety(ctx), fixed + inputTokens, ctx,
      Max(0, Usable(ctx) - (fixed + inputTokens)))
  }

  datatype Warning = FullyTruncated | TrimmedSlightly | Truncated(fromTokens: nat, toTokens: nat)

  /** `s.rfind(pattern)`, looking at positions up to `n`. */
  function RFind(s: string, pattern: string, n: nat): (at: int)
    ensures -1 <= at <= n
    ensures at >= 0 ==> OccursAt(s, pattern, at)
    ensures forall k: nat :: at < k <= n ==> !OccursAt(s, pattern, k)
  {
    if OccursAt(s, pattern, n) then n else if n == 0 then -1 else RFind(s, pattern, n - 1)
  }

  function MaxChars(maxTokens: int, ratio: real): int { (maxTokens as real * ratio).Floor }

  /** Cut to the allowance, then back to the last sentence or line end in its second half. */
  function Truncate(text: string, maxTokens: int, ratio: real): (string, Warning)
    requires ratio > 0.0
  {
    var maxChars := MaxChars(maxTokens, ratio);
    if maxTokens <= 0 then ("", FullyTruncated)
    else if |text| <= maxChars then (text, TrimmedSlightly)
    else
      assert maxTokens as real * ratio > 0.0;
      var cut := text[..maxChars];
      var breakAt := Max(RFind(cut, ". ", |cut|), RFind(cut, "\n", |cut|));
      assert breakAt >= 0 ==> OccursAt(cut, ". ", breakAt) || OccursAt(cut, "\n", breakAt);
      var kept := if breakAt as real > maxChars as real * 0.5 then cut[..breakAt + 1] else cut;
      (kept, Truncated(Estimate(text, ratio), Estimate(kept, ratio)))
  }

  datatype TokenCounts = TokenCounts(system: nat, tools: nat, instructions: nat, input: nat, total: nat)

  datatype CompiledPrompt = CompiledPrompt(
    promptText: string, counts: TokenCounts, budgetRemaining: int, truncated: bool, warning: Option<Warning>)

  function Count(node: Node, input: string, ratio: real): TokenCounts
    requires ratio > 0.0
  {
    var s, t, i, d := Estimate(node.system, ratio), Estimate(node.tools, ratio),
                      Estimate(node.instructions, ratio), Estimate(input, ratio);
    TokenCounts(s, t, i, d, s + t + i + d)
  }

  function Section(header: string, body: string): seq<string> {
    if body == "" then [] else [header + body]
  }

  function Prompt(node: Node, input: string): string {
    Join(Section("[SYSTEM]\n", node.system) + Section("[INSTRUCTIONS]\n", node.instructions)
         + Section("[TOOLS]\n", node.tools) + Section("[INPUT]\n", input), "\n\n")
  }

  predicate MustTruncate(node: Node, input: string, ctx: int, ratio: real)
    requires ratio > 0.0
  {
    Allocate(node, input, ctx, ratio).input < Estimate(input, ratio)
  }

  function FinalInput(node: Node, input: string, ctx: int, ratio: real): string
    requires ratio > 0.0
  {
    if MustTruncate(node, input, ctx, ratio) then Truncate(input, Allocate(node, input, ctx, ratio).input, ratio).0
    else input
  }

  method Compile(node: Node, input: string, ctx: int, ratio: real) returns (prompt: CompiledPrompt)
    requires ratio > 0.0
    ensures var final := FinalInput(node, input, ctx, ratio);
            && prompt.promptText == Prompt(node, final)
            && prompt.counts == Count(node, final, ratio)
            && prompt.counts.system == Estimate(node.system, ratio)
            && prompt.counts.tools == Estimate(node.tools, ratio)
            && prompt.counts.instructions == Estimate(node.instructions, ratio)
            && prompt.counts.input == Estimate(final, ratio)
            && prompt.budgetRemaining == Allocate(node, input, ctx, ratio).remaining
            && prompt.truncated == MustTruncate(node, input, ctx, ratio)
            && (prompt.truncated ==>
                  prompt.warning == Some(Truncate(input, Allocate(node, input, ctx, ratio).input, ratio).1))
            && (!prompt.truncated ==> prompt.warning == None)
  {
    var budget := Allocate(node, input, ctx, ratio);
    var text := input;
    var truncated, warning := false, None;
    if budget.input < Estimate(text, ratio) {
      var (cut, reason) := Truncate(text, budget.input, ratio);
      text, warning, truncated := cut, Some(reason), true;
    }
    var sections: seq<string> := [];
    if node.system != "" {
      sections := sections + ["[SYSTEM]\n" + node.system];
    }
    if node.instructions != "" {
      sections := sections + ["[INSTRUCTIONS]\n" + node.instructions];
    }
    if node.tools != "" {
      sections := sections + ["[TOOLS]\n" + node.tools];
    }
    if text != "" {
      sections := sections + ["[INPUT]\n" + text];
    }
    assert sections == Section("[SYSTEM]\n", node.system) + Section("[INSTRUCTIONS]\n", node.instructions)
                       + Section("[TOOLS]\n", node.tools) + Section("[INPUT]\n", text);
    prompt := CompiledPrompt(Join(sections, "\n\n"), Count(node, text, ratio), budget.remaining, truncated, warning);
  }

  // -------------------------------------------------------------- properties

  lemma CeilBounds(x: real, n: int)
    ensures Ceil(x) <= n <==> x <= n as real
  {
  }

  lemma DivideByRatio(len: nat, tokens: int, ratio: real)
    requires ratio > 0.0
    ensures len as real / ratio <= tokens as real <==> len as real <= tokens as real * ratio
  {
    var q := len as real / ratio;
    assert q * ratio == len as real;
    if q <= tokens as real {
      assert (tokens as real - q) * ratio >= 0.0;
    } else {
      assert (q - tokens as real) * ratio > 0.0;
    }
  }

  /** A text fits a positive number of tokens exactly when it fits that many characters. */
  lemma FitsTokensIffFitsChars(text: string, tokens: int, ratio: real)
    requires ratio > 0.0 && tokens >= 1
    ensures Estimate(text, ratio) <= tokens <==> |text| <= MaxChars(tokens, ratio)
  {
    CeilBounds(|text| as real / ratio, tokens);
    DivideByRatio(|text|, tokens, ratio);
    assert tokens as real * ratio > 0.0;
  }

  /**
    Truncation yields a prefix within the allowance, cut at the allowance or just after a
    sentence or line end beyond half of it.
   */
  lemma TruncateFits(text: string, maxTokens: int, ratio: real)
    requires ratio > 0.0
    ensures var kept := Truncate(text, maxTokens, ratio).0;
            && kept <= text
            && Estimate(kept, ratio) <= Max(0, maxTokens)
            && (maxTokens > 0 && Estimate(text, ratio) > maxTokens ==>
                  || |kept| == MaxChars(maxTokens, ratio)
                  || (2 * |kept| > MaxChars(maxTokens, ratio) && kept != "" && kept[|kept| - 1] in {'.', '\n'}))
  {
    if maxTokens > 0 {
      var kept := Truncate(text, maxTokens, ratio).0;
      FitsTokensIffFitsChars(text, maxTokens, ratio);
      FitsTokensIffFitsChars(kept, maxTokens, ratio);
      var maxChars := MaxChars(maxTokens, ratio);
      if |text| > maxChars {
        var cut := text[..maxChars];
        var breakAt := Max(RFind(cut, ". ", |cut|), RFind(cut, "\n", |cut|));
        if breakAt as real > maxChars as real * 0.5 {
          assert OccursAt(cut, ". ", breakAt) || OccursAt(cut, "\n", breakAt);
          assert cut[breakAt..][0] == cut[breakAt];
          assert kept[breakAt] == cut[breakAt];
        }
      }
    }
  }

  /** The branch that reports a slight trim is never taken when a prompt is compiled. */
  lemma NeverTrimmedSlightly(node: Node, input: string, ctx: int, ratio: real)
    requires ratio > 0.0 && MustTruncate(node, input, ctx, ratio)
    ensures Truncate(input, Allocate(node, input, ctx, ratio).input, ratio).1 != TrimmedSlightly
  {
    var allowed := Allocate(node, input, ctx, ratio).input;
    if allowed >= 1 {
      FitsTokensIffFitsChars(input, allowed, ratio);
    }
  }

  lemma FinalInputWithinBudget(node: Node, input: string, ctx: int, ratio: real)
    requires ratio > 0.0
    ensures var final := FinalInput(node, input, ctx, ratio);
            && final <= input
            && Estimate(final, ratio) <= Allocate(node, input, ctx, ratio).input
            && (final == input <==> Estimate(input, ratio) <= Allocate(node, input, ctx, ratio).input)
  {
    var allowed := Allocate(node, input, ctx, ratio).input;
    if MustTruncate(node, input, ctx, ratio) {
      TruncateFits(input, allowed, ratio);
    }
  }

  /**
    The counted prompt, the reserved output and the safety margin stay within the context
    window exactly when the layers that are never truncated do.
   */
  lemma PromptFitsWindow(node: Node, input: string, ctx: int, ratio: real)
    requires ratio > 0.0
    ensures var b := Allocate(node, input, ctx, ratio);
            var counts := Count(node, FinalInput(node, input, ctx, ratio), ratio);
            counts.total + b.output + b.safety <= ctx <==> Fixed(node, ctx, ratio) <= Usable(ctx)
  {
    FinalInputWithinBudget(node, input, ctx, ratio);
  }

  /** A budget spends the window exactly, or reports nothing left when the fixed layers overrun it. */
  lemma BudgetBalances(node: Node, input: string, ctx: int, ratio: real)
    requires ratio > 0.0
    ensures var b := Allocate(node, input, ctx, ratio);
            && b.total == b.system + b.tools + b.instructions + b.input + b.output
            && b.remaining >= 0
            && (b.total + b.remaining + b.safety == ctx <==> Fixed(node, ctx, ratio) <= Usable(ctx))
            && (Fixed(node, ctx, ratio) > Usable(ctx) ==> b.input == 0 && b.remaining == 0)
  {
  }

  /**
    The margin is the least whole number of at least a tenth of the window; the output gets a
    quarter to a half of the rest, and within that as much as the expected output needs.
   */
  lemma ReservesAreTight(node: Node, input: string, ctx: nat, ratio: real)
    requires ratio > 0.0
    ensures var b := Allocate(node, input, ctx, ratio);
            && 10 * b.safety >= ctx > 10 * (b.safety - 1)
            && Usable(ctx) <= 4 * b.output + 3 && 2 * b.output <= Usable(ctx)
            && (b.output >= Estimate(node.expectedOutput, ratio) || 2 * b.output >= Usable(ctx) - 1)
            && (4 * b.output <= Usable(ctx) || b.output <= Estimate(node.expectedOutput, ratio))
  {
    var tenth := ctx as real * 0.1;
    CeilBounds(tenth, Safety(ctx));
    CeilBounds(tenth, Safety(ctx) - 1);
    CeilBounds(tenth, ctx);
  }

  // ----------------------------------------------- what the prompt is made of

  /** `text` with a section put behind it, after an empty line. */
  function Extend(text: string, header: string, body: string): string {
    if body == "" then text else if text == "" then header + body else text + "\n\n" + header + body
  }

  lemma {:induction false} JoinAppend(parts: seq<string>, last: string, sep: string)
    requires parts != []
    ensures Join(parts + [last], sep) == Join(parts, sep) + sep + last
  {
    if |parts| == 1 {
      assert (parts + [last])[1..] == [last];
    } else {
      assert (parts + [last])[1..] == parts[1..] + [last];
      JoinAppend(parts[1..], last, sep);
      var rest := Join(parts[1..], sep);
      assert parts[0] + sep + (rest + sep + last) == (parts[0] + sep + rest) + sep + last;
    }
  }

  lemma SectionExtends(parts: seq<string>, header: string, body: string)
    requires header != "" && forall p :: p in parts ==> p != ""
    ensures Join(parts + Section(header, body), "\n\n") == Extend(Join(parts, "\n\n"), header, body)
    ensures forall p :: p in parts + Section(header, body) ==> p != ""
  {
    if body == "" {
      assert parts + [] == parts;
    } else if parts == [] {
      assert [] + [header + body] == [header + body];
    } else {
      JoinAppend(parts, header + body, "\n\n");
      assert parts[0] in parts;
      assert Join(parts, "\n\n") + "\n\n" + (header + body) == Join(parts, "\n\n") + "\n\n" + header + body;
    }
  }

  /**
    The prompt is built layer by layer in this order, each text under its own header and every
    layer that is empty left out.
   */
  lemma PromptLayers(system: string, instructions: string, tools: string, input: string, expected: string)
    ensures Prompt(Node(system, "", "", expected), "") == Extend("", "[SYSTEM]\n", system)
    ensures Prompt(Node(system, instructions, "", expected), "")
            == Extend(Prompt(Node(system, "", "", expected), ""), "[INSTRUCTIONS]\n", instructions)
    ensures Prompt(Node(system, instructions, tools, expected), "")
            == Extend(Prompt(Node(system, instructions, "", expected), ""), "[TOOLS]\n", tools)
    ensures Prompt(Node(system, instructions, tools, expected), input)
            == Extend(Prompt(Node(system, instructions, tools, expected), ""), "[INPUT]\n", input)
  {
    var s := Section("[SYSTEM]\n", system);
    var si := s + Section("[INSTRUCTIONS]\n", instructions);
    var sit := si + Section("[TOOLS]\n", tools);
    assert [] + s == s && s + [] + [] + [] == s && si + [] + [] == si && sit + [] == sit;
    SectionExtends([], "[SYSTEM]\n", system);
    SectionExtends(s, "[INSTRUCTIONS]\n", instructions);
    SectionExtends(si, "[TOOLS]\n", tools);
    SectionExtends(sit, "[INPUT]\n", input);
  }

  /** Every text is counted and budgeted as its own layer; nothing costs nothing, and a text at least one token. */
  lemma LayersAreCounted(node: Node, input: string, ctx: int, ratio: real)
    requires ratio > 0.0
    ensures var c, b := Count(node, input, ratio), Allocate(node, input, ctx, ratio);
            && (c.system == 0 <==> node.system == "") && (c.tools == 0 <==> node.tools == "")
            && (c.instructions == 0 <==> node.instructions == "") && (c.input == 0 <==> input == "")
            && b.system == c.system && b.tools == c.tools && b.instructions == c.instructions && b.input <= c.input
            && c.total == c.system + c.tools + c.instructions + c.input && b.ctx == ctx
            && (b.input < c.input ==> b.input == 0 || b.remaining == 0)
    ensures forall t: int :: t >= 1 ==>
              var c := Count(node, input, ratio);
              && (c.system <= t <==> |node.system| <= MaxChars(t, ratio))
              && (c.tools <= t <==> |node.tools| <= MaxChars(t, ratio))
              && (c.instructions <= t <==> |node.instructions| <= MaxChars(t, ratio))
              && (c.input <= t <==> |input| <= MaxChars(t, ratio))
  {
    forall t: int | t >= 1
      ensures var c := Count(node, input, ratio);
              && (c.system <= t <==> |node.system| <= MaxChars(t, ratio))
              && (c.tools <= t <==> |node.tools| <= MaxChars(t, ratio))
              && (c.instructions <= t <==> |node.instructions| <= MaxChars(t, ratio))
              && (c.input <= t <==> |input| <= MaxChars(t, ratio))
    {
      FitsTokensIffFitsChars(node.system, t, ratio);
      FitsTokensIffFitsChars(node.tools, t, ratio);
      FitsTokensIffFitsChars(node.instructions, t, ratio);
      FitsTokensIffFitsChars(input, t, ratio);
    }
  }

  /** A sentence or a line ends at position `k`. */
  predicate BreaksAt(text: string, k: nat) {
    OccursAt(text, ". ", k) || OccursAt(text, "\n", k)
  }

  function LastBreak(cut: string): int {
    Max(RFind(cut, ". ", |cut|), RFind(cut, "\n", |cut|))
  }

  lemma LastBreakIsLast(cut: string)
    ensures LastBreak(cut) >= 0 ==> BreaksAt(cut, LastBreak(cut)) && LastBreak(cut) < |cut|
    ensures forall k: nat :: k > LastBreak(cut) ==> !BreaksAt(cut, k)
  {
    var k := LastBreak(cut);
    if k >= 0 {
      assert OccursAt(cut, ". ", k) || OccursAt(cut, "\n", k);
    }
  }

  lemma TruncationOf(text: string, maxTokens: int, ratio: real)
    requires ratio > 0.0 && maxTokens > 0 && Estimate(text, ratio) > maxTokens
    ensures 0 <= MaxChars(maxTokens, ratio) < |text|
    ensures var maxChars := MaxChars(maxTokens, ratio);
            var cut := text[..maxChars];
            var (kept, report) := Truncate(text, maxTokens, ratio);
            && report == Truncated(Estimate(text, ratio), Estimate(kept, ratio))
            && -1 <= LastBreak(cut) <= |cut|
            && (2 * LastBreak(cut) > maxChars ==> LastBreak(cut) < |cut| && kept == cut[..LastBreak(cut) + 1])
            && (2 * LastBreak(cut) <= maxChars ==> kept == cut)
  {
    FitsTokensIffFitsChars(text, maxTokens, ratio);
    assert maxTokens as real * ratio > 0.0;
    LastBreakIsLast(text[..MaxChars(maxTokens, ratio)]);
  }

  /**
    Where truncation cuts: right behind the last break of the allowance if one lies beyond its half,
    otherwise at the allowance; and what it reports.
   */
  lemma TruncatesAtLastBreak(text: string, maxTokens: int, ratio: real, k: nat)
    requires ratio > 0.0 && maxTokens > 0 && Estimate(text, ratio) > maxTokens
    ensures 0 <= MaxChars(maxTokens, ratio) < |text|
    ensures var maxChars := MaxChars(maxTokens, ratio);
            var cut := text[..maxChars];
            var (kept, report) := Truncate(text, maxTokens, ratio);
            && report == Truncated(Estimate(text, ratio), Estimate(kept, ratio))
            && (2 * k > maxChars && BreaksAt(cut, k) ==>
                  k < |kept| && BreaksAt(cut, |kept| - 1) && kept == cut[..|kept|])
            && (kept != cut ==> 0 < |kept| <= maxChars && BreaksAt(cut, |kept| - 1))
            && (k >= |kept| ==> kept == cut || !BreaksAt(cut, k))
  {
    TruncationOf(text, maxTokens, ratio);
    LastBreakIsLast(text[..MaxChars(maxTokens, ratio)]);
  }

  /** Nothing is kept, and so reported, exactly when there is no allowance at all. */
  lemma NothingLeftIff(text: string, maxTokens: int, ratio: real)
    requires ratio > 0.0
    ensures Truncate(text, maxTokens, ratio).1 == FullyTruncated <==> maxTokens <= 0
    ensures maxTokens <= 0 ==> Truncate(text, maxTokens, ratio).0 == ""
    ensures maxTokens > 0 && Estimate(text, ratio) <= maxTokens ==>
              Truncate(text, maxTokens, ratio) == (text, TrimmedSlightly)
  {
    if maxTokens > 0 {
      FitsTokensIffFitsChars(text, maxTokens, ratio);
    }
  }
}
