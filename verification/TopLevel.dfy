/** The tokenizer loop over a whole file. */
module TopLevel {
  import opened Splicing
  import opened SplicedFiles
  import opened PpTokens
  import opened Lexer
  import opened Literals
  import opened Wrappers

  // ---- When a header name may follow ----

  const HEADER_CONTEXTS: seq<seq<Token>> := [
    [NewLine, OpOrPunc("#"), Identifier("include")],
    [NewLine, OpOrPunc("#"), Identifier("embed")],
    [NewLine, Identifier("import")],
    [NewLine, Identifier("export"), Identifier("import")]
  ]

  const CONDITIONAL_CONTEXTS: seq<seq<Token>> := [
    [Identifier("__has_include"), OpOrPunc("(")],
    [Identifier("__has_embed"), OpOrPunc("(")]
  ]

  datatype Conditional = StartOfLine | Hash | Correct | Failed

  /** handle_conditional */
  function NextConditional(current: Conditional, token: Token): Conditional {
    if token.NewLine? then StartOfLine
    else if Skippable(token) || current == Failed || current == Correct then current
    else if current == StartOfLine then if token == OpOrPunc("#") then Hash else Failed
    else if token in {Identifier("if"), Identifier("elif"), Identifier("embed")} then Correct
    else Failed
  }

  function ConditionalAfter(tokens: seq<Token>): Conditional {
    if tokens == [] then StartOfLine
    else NextConditional(ConditionalAfter(tokens[..|tokens| - 1]), tokens[|tokens| - 1])
  }

  /** The significant tokens of the last line. */
  function LastLine(tokens: seq<Token>): seq<Token> {
    if tokens == [] then []
    else
      var last := tokens[|tokens| - 1];
      if last.NewLine? then []
      else if Skippable(last) then LastLine(tokens[..|tokens| - 1])
      else LastLine(tokens[..|tokens| - 1]) + [last]
  }

  lemma {:induction false} ConditionalMeaning(tokens: seq<Token>)
    ensures var line := LastLine(tokens);
            match ConditionalAfter(tokens)
            case StartOfLine => line == []
            case Hash => line == [OpOrPunc("#")]
            case Correct => |line| >= 2 && line[0] == OpOrPunc("#") &&
              line[1] in {Identifier("if"), Identifier("elif"), Identifier("embed")}
            case Failed =>
              && line != []
              && (line[0] != OpOrPunc("#") ||
                (|line| >= 2 && line[1] !in {Identifier("if"), Identifier("elif"), Identifier("embed")}))
  {
    if tokens != [] {
      ConditionalMeaning(tokens[..|tokens| - 1]);
    }
  }

  ghost predicate AnyContext(tokens: seq<Token>, contexts: seq<seq<Token>>) {
    exists i :: 0 <= i < |contexts| && contexts[i] != [] && EndsIn(tokens, contexts[i])
  }

  method EndsInAny(tokens: seq<Token>, contexts: seq<seq<Token>>) returns (yes: bool)
    requires forall i :: 0 <= i < |contexts| ==> contexts[i] != []
    ensures yes <==> AnyContext(tokens, contexts)
  {
    for i := 0 to |contexts|
      invariant forall j :: 0 <= j < i ==> !EndsIn(tokens, contexts[j])
    {
      var ends := TokensEndWith(tokens, contexts[i]);
      if ends {
        return true;
      }
    }
    return false;
  }

  method ShouldTryHeaderName(tokens: seq<Token>, current: Conditional) returns (yes: bool)
    ensures yes <==>
      AnyContext(tokens, HEADER_CONTEXTS) || (current == Correct && AnyContext(tokens, CONDITIONAL_CONTEXTS))
  {
    yes := EndsInAny(tokens, HEADER_CONTEXTS);
    if !yes && current == Correct {
      yes := EndsInAny(tokens, CONDITIONAL_CONTEXTS);
    }
  }

  // ---- One token ----

  datatype Alternative =
    | Header | LineComment | BlockComment | Blank | Line | Raw | LessThan | Bracket | Number | Symbol | Character
    | Text | Word | Nothing

  ghost predicate BeforeTemplate(text: string, pos: nat) {
    Matches(text, pos, "<::") && !Matches(text, pos, "<:::") && !Matches(text, pos, "<::>")
  }

  ghost predicate BeforeSplice(text: string, pos: nat) {
    (Matches(text, pos, "[::") || Matches(text, pos, "[:>")) && !Matches(text, pos, "[:::")
  }

  /** The alternative that is taken at a position: the first whose beginning stands there. */
  ghost function Chosen(text: string, pos: nat, tryHeaderName: bool): Alternative
    requires pos < |text|
  {
    if tryHeaderName && HeaderHere(text, pos) then Header
    else if Matches(text, pos, "//") then LineComment
    else if Matches(text, pos, "/*") then BlockComment
    else if IsBlank(text[pos]) then Blank
    else if Matches(text, pos, "\n") then Line
    else ChosenFurther(text, pos)
  }

  ghost function ChosenFurther(text: string, pos: nat): Alternative
    requires pos < |text|
  {
    if Opens(text, pos, "R\"") then Raw
    else if BeforeTemplate(text, pos) then LessThan
    else if BeforeSplice(text, pos) then Bracket
    else if NumberHere(text, pos) then Number
    else if SymbolHere(text, pos) then Symbol
    else if Opens(text, pos, "'") then Character
    else if Opens(text, pos, "\"") then Text
    else if IsNondigit(text[pos]) then Word
    else Nothing
  }

  /** What the alternative makes of the text from `from` to `to`. */
  ghost predicate Made(alternative: Alternative, t: Token, file: SplicedFile, from: nat, to: nat)
    requires from < to <= |file.text|
  {
    var text := file.text;
    match alternative
    case Header => t.HeaderName? && IsHeader(t.header)
    case LineComment => t.SingleLineComment? && to == Find(text, '\n', from)
    case BlockComment => t.MultiLineComment? && from + 4 <= to && to == FindString(text, "*/", from + 2) + 2
    case Blank => t.Whitespace? && Lexer.IsRun(text, from, to, IsBlank)
    case Line => t.NewLine?
    case Raw => RawLexed(t, file, from, to)
    case LessThan => t == OpOrPunc("<")
    case Bracket => t == OpOrPunc("[")
    case Number => t.PpNumber? && LongestNumber(text, from, to)
    case Symbol => t.OpOrPunc? && t.kind in SYMBOLIC && Longest(t.kind, SYMBOLIC, text, from)
    case Character => t.CharacterLiteral? && QuotedAt(Quoted(t.prefix, t.chars, t.suffix), text, from, to, '\'', false)
    case Text => t.StringLiteral? && QuotedAt(Quoted(t.prefix, t.chars, t.suffix), text, from, to, '"', true)
    case Word => Lexer.IsRun(text, from, to, IsWordChar) &&
      t == if IsWorded(text[from..to]) then OpOrPunc(text[from..to]) else Identifier(text[from..to])
    case Nothing => false
  }

  /** The alternative throws: an unclosed comment, a literal that something spoils, or no alternative at all. */
  ghost predicate FailsAs(alternative: Alternative, file: SplicedFile, pos: nat)
    requires pos < |file.text|
  {
    match alternative
    case BlockComment => Matches(file.text, pos, "/*") && FindString(file.text, "*/", pos + 2) == |file.text|
    case Raw => RawSpoiled(file, pos)
    case Character => QuotedSpoiled(file.text, pos, '\'', false)
    case Text => QuotedSpoiled(file.text, pos, '"', true)
    case Nothing => true
    case _ => false
  }

  /** The token spells what it consumed, and it is what the alternative makes of it. */
  ghost predicate Spelled(alternative: Alternative, t: Token, file: SplicedFile, from: nat, to: nat) {
    && from < to <= |file.text|
    && (t.RawLiteral? || file.text[from..to] == Spelling(t))
    && Made(alternative, t, file, from, to)
  }

  ghost predicate Settled(r: Parse<Token>, alternative: Alternative, file: SplicedFile, from: nat, to: nat)
    requires from < |file.text|
  {
    match r
    case Parsed(t) => Spelled(alternative, t, file, from, to)
    case Thrown => FailsAs(alternative, file, from)
    case NoMatch => alternative == Nothing
  }

  ghost predicate TokenAt(t: Token, file: SplicedFile, from: nat, to: nat, tryHeaderName: bool) {
    from < |file.text| && Spelled(Chosen(file.text, from, tryHeaderName), t, file, from, to)
  }

  ghost predicate Fails(file: SplicedFile, pos: nat, tryHeaderName: bool) {
    pos < |file.text| && FailsAs(Chosen(file.text, pos, tryHeaderName), file, pos)
  }

  /** The alternatives in the order of the source; the first that matches or throws decides. */
  method ParseToken(state: ParsingState, tryHeaderName: bool) returns (r: Parse<Token>)
    requires state.Ok() && !state.Empty()
    modifies state
    ensures state.Ok()
    ensures Settled(r, Chosen(state.file.text, old(state.pos), tryHeaderName), state.file, old(state.pos), state.pos)
  {
    hide Valid, HeaderHere, Matches, ChosenFurther, Find, FindString, Spelling, RawLexed, QuotedAt, IsHeader, IsBlank,
      IsWorded, SYMBOLIC, RawSpoiled, QuotedSpoiled, Longest, LongestNumber;
    if tryHeaderName {
      r := ParseHeaderName(state);
      if !r.NoMatch? { return r; }
    }
    r := ParseSingleLineComment(state);
    if !r.NoMatch? { return r; }
    r := ParseMultiLineComment(state);
    if !r.NoMatch? { return r; }
    r := ParseWhitespace(state);
    if !r.NoMatch? { return r; }
    r := ParseNewLine(state);
    if !r.NoMatch? { return r; }
    r := ParseFurther(state);
  }

  method ParseFurther(state: ParsingState) returns (r: Parse<Token>)
    requires state.Ok() && !state.Empty()
    modifies state
    ensures state.Ok()
    ensures Settled(r, ChosenFurther(state.file.text, old(state.pos)), state.file, old(state.pos), state.pos)
  {
    hide Valid, Matches, Opens, NumberHere, SymbolHere, Spelling, RawLexed, QuotedAt, IsHeader, IsNondigit, IsWorded,
      SYMBOLIC, RawSpoiled, QuotedSpoiled, Longest, LongestNumber;
    r := ParseRawLiteral(state);
    if !r.NoMatch? {
      assert r.Parsed? ==> RawAdvances(r.token, state.file, old(state.pos), state.pos) by {
        if r.Parsed? { RawMovesOn(r.token, state.file, old(state.pos), state.pos); }
      }
      return r;
    }
    r := ParseDigraphException1(state);
    if !r.NoMatch? { return r; }
    r := ParseDigraphException2(state);
    if !r.NoMatch? { return r; }
    r := ParsePpNumber(state);
    if !r.NoMatch? { return r; }
    r := ParseSymbolic(state);
    if !r.NoMatch? { return r; }
    r := ParseCharacterLiteral(state);
    if !r.NoMatch? { return r; }
    r := ParseStringLiteral(state);
    if !r.NoMatch? { return r; }
    r := ParseIdentifierOrWorded(state);
  }

  ghost predicate RawAdvances(t: Token, file: SplicedFile, from: nat, to: nat) {
    t.RawLiteral? && from < to <= |file.text|
  }

  /** After a raw literal lexing resumes strictly further on. */
  lemma {:induction false} RawMovesOn(t: Token, file: SplicedFile, from: nat, to: nat)
    requires RawLexed(t, file, from, to)
    ensures RawAdvances(t, file, from, to)
  {
    hide Place, Dropped, RawAt, ClosesFirst, SuffixAt;
    var opening: nat, closing: nat :| RawBetween(t, file, from, to, opening, closing);
  }

  // ---- The whole file ----

  /** Whether a header name is tried after these tokens. */
  ghost predicate HeaderTried(tokens: seq<Token>) {
    AnyContext(tokens, HEADER_CONTEXTS) ||
      (ConditionalAfter(tokens) == Correct && AnyContext(tokens, CONDITIONAL_CONTEXTS))
  }

  /** Behind #include, #embed, import and export import at the beginning of a line; and behind the opening parenthesis
      of __has_include or __has_embed in a line that begins with #if, #elif or #embed. */
  lemma {:induction false} HeaderTriedMeaning(tokens: seq<Token>)
    ensures var line, hash := LastLine(tokens), OpOrPunc("#");
            HeaderTried(tokens) <==>
              || EndsIn(tokens, [NewLine, hash, Identifier("include")])
              || EndsIn(tokens, [NewLine, hash, Identifier("embed")])
              || EndsIn(tokens, [NewLine, Identifier("import")])
              || EndsIn(tokens, [NewLine, Identifier("export"), Identifier("import")])
              || (&& |line| >= 2 && line[0] == hash
                  && line[1] in {Identifier("if"), Identifier("elif"), Identifier("embed")}
                  && (EndsIn(tokens, [Identifier("__has_include"), OpOrPunc("(")]) ||
                      EndsIn(tokens, [Identifier("__has_embed"), OpOrPunc("(")])))
  {
    ConditionalMeaning(tokens);
    AnyOfFour(tokens);
    AnyOfTwo(tokens);
    hide EndsIn, AnyContext, HEADER_CONTEXTS, CONDITIONAL_CONTEXTS, ConditionalAfter, LastLine;
  }

  lemma {:induction false} AnyOfFour(tokens: seq<Token>)
    ensures AnyContext(tokens, HEADER_CONTEXTS) <==>
            || EndsIn(tokens, [NewLine, OpOrPunc("#"), Identifier("include")])
            || EndsIn(tokens, [NewLine, OpOrPunc("#"), Identifier("embed")])
            || EndsIn(tokens, [NewLine, Identifier("import")])
            || EndsIn(tokens, [NewLine, Identifier("export"), Identifier("import")])
  {
    hide EndsIn;
    var c := HEADER_CONTEXTS;
    assert |c| == 4 && c[0] != [] && c[1] != [] && c[2] != [] && c[3] != [];
  }

  lemma {:induction false} AnyOfTwo(tokens: seq<Token>)
    ensures AnyContext(tokens, CONDITIONAL_CONTEXTS) <==>
            || EndsIn(tokens, [Identifier("__has_include"), OpOrPunc("(")])
            || EndsIn(tokens, [Identifier("__has_embed"), OpOrPunc("(")])
  {
    hide EndsIn;
    var c := CONDITIONAL_CONTEXTS;
    assert |c| == 2 && c[0] != [] && c[1] != [];
  }

  /** The cuts divide the text into the tokens, in order, each chosen at its place after the tokens before it. */
  ghost predicate Divided(tokens: seq<Token>, file: SplicedFile, cuts: seq<nat>) {
    && |cuts| == |tokens| + 1 && cuts[0] == 0
    && forall i :: 0 <= i < |tokens| ==> TokenAt(tokens[i], file, cuts[i], cuts[i + 1], HeaderTried(tokens[..i]))
  }

  ghost predicate TokensUpTo(tokens: seq<Token>, file: SplicedFile, pos: nat) {
    exists cuts: seq<nat> :: Divided(tokens, file, cuts) && cuts[|tokens|] == pos
  }

  /** Some tokens can be read, and then the alternative that is chosen throws. */
  ghost predicate Stuck(file: SplicedFile) {
    exists tokens, pos: nat :: TokensUpTo(tokens, file, pos) && Fails(file, pos, HeaderTried(tokens))
  }

  lemma {:induction false} OneMore(tokens: seq<Token>, t: Token, file: SplicedFile, pos: nat, next: nat)
    requires TokensUpTo(tokens, file, pos) && TokenAt(t, file, pos, next, HeaderTried(tokens))
    ensures TokensUpTo(tokens + [t], file, next)
  {
    hide TokenAt, HeaderTried;
    var cuts: seq<nat> :| Divided(tokens, file, cuts) && cuts[|tokens|] == pos;
    var tokens', cuts' := tokens + [t], cuts + [next];
    forall i | 0 <= i < |tokens'|
      ensures TokenAt(tokens'[i], file, cuts'[i], cuts'[i + 1], HeaderTried(tokens'[..i]))
    {
      assert tokens'[..i] == tokens[..i];
      assert tokens[..|tokens|] == tokens;
    }
    assert Divided(tokens', file, cuts');
  }

  // ---- The tokens of a file are the only ones ----

  ghost predicate IsLiteral(alternative: Alternative) {
    alternative.Raw? || alternative.Character? || alternative.Text?
  }

  lemma {:induction false} PlainEndsOnce(alternative: Alternative, t: Token, u: Token, file: SplicedFile, from: nat,
          to: nat, end: nat)
    requires !IsLiteral(alternative) && Spelled(alternative, t, file, from, to)
    requires Spelled(alternative, u, file, from, end)
    ensures to == end
  {
    hide LongestNumber, Longest, SYMBOLIC, IsHeader, IsWorded, Lexer.IsRun, FindString, Find;
    match alternative
    case Header =>
      if to <= end {
        HeaderOnce(file.text, from, to, end);
      } else {
        HeaderOnce(file.text, from, end, to);
      }
    case Blank => RunOnce(file.text, from, to, end, IsBlank);
    case Number => NumberOnce(file.text, from, to, end);
    case Symbol => SymbolOnce(file.text, from, t.kind, u.kind);
    case Word => RunOnce(file.text, from, to, end, IsWordChar);
    case Line => assert |file.text[from..to]| == |file.text[from..end]| == 1;
    case LessThan => assert |file.text[from..to]| == |file.text[from..end]| == 1;
    case Bracket => assert |file.text[from..to]| == |file.text[from..end]| == 1;
    case _ =>
  }

  lemma {:induction false} PlainTokenOnce(alternative: Alternative, t: Token, u: Token, file: SplicedFile, from: nat,
          to: nat)
    requires !IsLiteral(alternative) && Spelled(alternative, t, file, from, to)
    requires Spelled(alternative, u, file, from, to)
    ensures t == u
  {
    hide LongestNumber, Longest, SYMBOLIC, IsHeader, IsWorded, Lexer.IsRun, FindString, Find;
  }

  /** An alternative makes one token at most, and where it makes one it does not throw. */
  lemma {:induction false} MadeOnce(alternative: Alternative, t: Token, u: Token, file: SplicedFile, from: nat, to: nat,
          end: nat)
    requires Valid(file) && Spelled(alternative, t, file, from, to) && Spelled(alternative, u, file, from, end)
    ensures t == u && to == end
  {
    if !IsLiteral(alternative) {
      hide *;
      PlainEndsOnce(alternative, t, u, file, from, to, end);
      PlainTokenOnce(alternative, t, u, file, from, to);
    } else {
      LiteralOnce(alternative, t, u, file, from, to, end);
    }
  }

  lemma {:induction false} LiteralOnce(alternative: Alternative, t: Token, u: Token, file: SplicedFile, from: nat,
          to: nat, end: nat)
    requires Valid(file) && Spelled(alternative, t, file, from, to) && Spelled(alternative, u, file, from, end)
    requires IsLiteral(alternative)
    ensures t == u && to == end
  {
    hide Valid, RawLexed, QuotedAt, Spelling;
    match alternative
    case Raw => RawOnce(t, u, file, from, to, end);
    case Character =>
      QuotedOnce(Quoted(t.prefix, t.chars, t.suffix), Quoted(u.prefix, u.chars, u.suffix), file.text, from, to, end,
        '\'', false);
    case Text =>
      QuotedOnce(Quoted(t.prefix, t.chars, t.suffix), Quoted(u.prefix, u.chars, u.suffix), file.text, from, to, end,
        '"', true);
  }

  lemma {:induction false} MadeOrFails(alternative: Alternative, t: Token, file: SplicedFile, from: nat, to: nat)
    requires Valid(file) && Spelled(alternative, t, file, from, to)
    ensures !FailsAs(alternative, file, from)
  {
    hide Valid, RawLexed, QuotedAt, RawSpoiled, QuotedSpoiled;
    match alternative
    case Raw => RawNotSpoiled(t, file, from, to);
    case Character => QuotedNotSpoiled(Quoted(t.prefix, t.chars, t.suffix), file.text, from, to, '\'', false);
    case Text => QuotedNotSpoiled(Quoted(t.prefix, t.chars, t.suffix), file.text, from, to, '"', true);
    case _ =>
  }

  lemma {:induction false} TokenOnce(t: Token, u: Token, file: SplicedFile, from: nat, to: nat, end: nat,
          tryHeaderName: bool)
    requires Valid(file) && TokenAt(t, file, from, to, tryHeaderName) && TokenAt(u, file, from, end, tryHeaderName)
    ensures t == u && to == end && from < to
  {
    hide Valid, Chosen, Made;
    MadeOnce(Chosen(file.text, from, tryHeaderName), t, u, file, from, to, end);
  }

  lemma {:induction false} TokenOrThrow(t: Token, file: SplicedFile, from: nat, to: nat, tryHeaderName: bool)
    requires Valid(file) && TokenAt(t, file, from, to, tryHeaderName)
    ensures from < to <= |file.text| && !Fails(file, from, tryHeaderName)
  {
    hide Valid, Chosen, Made;
    MadeOrFails(Chosen(file.text, from, tryHeaderName), t, file, from, to);
  }

  /** Two lists of tokens of one file agree as far as both go. */
  lemma {:induction false} SameTokens(a: seq<Token>, b: seq<Token>, file: SplicedFile, cuts: seq<nat>, marks: seq<nat>,
          n: nat)
    requires Valid(file) && Divided(a, file, cuts) && Divided(b, file, marks) && n <= |a| && n <= |b|
    ensures a[..n] == b[..n] && cuts[n] == marks[n]
  {
    hide Valid, TokenAt, HeaderTried;
    if n > 0 {
      SameTokens(a, b, file, cuts, marks, n - 1);
      TokenOnce(a[n - 1], b[n - 1], file, cuts[n - 1], cuts[n], marks[n], HeaderTried(a[..n - 1]));
      assert a[..n] == a[..n - 1] + [a[n - 1]] && b[..n] == b[..n - 1] + [b[n - 1]];
    }
  }

  lemma {:induction false} CutsGrow(a: seq<Token>, file: SplicedFile, cuts: seq<nat>, i: nat, j: nat)
    requires Valid(file) && Divided(a, file, cuts) && i <= j <= |a|
    ensures cuts[i] <= cuts[j] && (i < j ==> cuts[i] < cuts[j])
  {
    hide Valid, TokenAt, HeaderTried;
    if i < j {
      CutsGrow(a, file, cuts, i, j - 1);
      TokenOrThrow(a[j - 1], file, cuts[j - 1], cuts[j], HeaderTried(a[..j - 1]));
    }
  }

  /** Tokens of one file that end at the same place are the same. */
  lemma {:induction false} TokensAreUnique(a: seq<Token>, b: seq<Token>, file: SplicedFile, pos: nat)
    requires Valid(file) && TokensUpTo(a, file, pos) && TokensUpTo(b, file, pos)
    ensures a == b
  {
    hide Valid, TokenAt, HeaderTried;
    var cuts: seq<nat> :| Divided(a, file, cuts) && cuts[|a|] == pos;
    var marks: seq<nat> :| Divided(b, file, marks) && marks[|b|] == pos;
    var n := if |a| <= |b| then |a| else |b|;
    SameTokens(a, b, file, cuts, marks, n);
    CutsGrow(a, file, cuts, n, |a|);
    CutsGrow(b, file, marks, n, |b|);
    assert a[..|a|] == a && b[..|b|] == b;
  }

  /** A file that can be read to its end is stuck nowhere. */
  lemma {:induction false} ReadOrStuck(a: seq<Token>, file: SplicedFile)
    requires Valid(file) && TokensUpTo(a, file, |file.text|)
    ensures !Stuck(file)
  {
    hide Valid, Divided, Fails, HeaderTried;
    if Stuck(file) {
      var b, pos: nat :| TokensUpTo(b, file, pos) && Fails(file, pos, HeaderTried(b));
      NotStuckHere(a, file, b, pos);
      assert false;
    }
  }

  lemma {:induction false} NotStuckHere(a: seq<Token>, file: SplicedFile, b: seq<Token>, pos: nat)
    requires Valid(file) && TokensUpTo(a, file, |file.text|) && TokensUpTo(b, file, pos)
    ensures !Fails(file, pos, HeaderTried(b))
  {
    hide Valid, TokenAt, HeaderTried, Chosen, FailsAs;
    var cuts: seq<nat> :| Divided(a, file, cuts) && cuts[|a|] == |file.text|;
    var marks: seq<nat> :| Divided(b, file, marks) && marks[|b|] == pos;
    if |b| < |a| {
      SameTokens(a, b, file, cuts, marks, |b|);
      assert b[..|b|] == b;
      TokenOrThrow(a[|b|], file, cuts[|b|], cuts[|b| + 1], HeaderTried(a[..|b|]));
    } else {
      SameTokens(a, b, file, cuts, marks, |a|);
      CutsGrow(b, file, marks, |a|, |b|);
    }
  }

  /**
   * top_level_parse: nothing is returned where the source throws, and it throws if and only if some alternative that is
   * chosen on the way does; otherwise its tokens are the only ones that fit. The assertion that a token was consumed
   * never fires.
   */
  method TopLevelParse(file: SplicedFile) returns (r: Option<seq<Token>>)
    requires Valid(file)
    ensures r.None? <==> Stuck(file)
    ensures r.Some? ==> TokensUpTo(r.value, file, |file.text|)
    ensures r.Some? ==> forall tokens :: TokensUpTo(tokens, file, |file.text|) ==> tokens == r.value
  {
    r := ReadTokens(file);
    hide TokensUpTo, Stuck, Valid;
    if r.Some? {
      ReadOrStuck(r.value, file);
      forall tokens | TokensUpTo(tokens, file, |file.text|)
        ensures tokens == r.value
      {
        TokensAreUnique(tokens, r.value, file, |file.text|);
      }
    }
  }

  /** The loop over the file. */
  method ReadTokens(file: SplicedFile) returns (r: Option<seq<Token>>)
    requires Valid(file)
    ensures match r
            case Some(tokens) => TokensUpTo(tokens, file, |file.text|)
            case None => Stuck(file)
  {
    hide TokenAt, Fails, TokensUpTo, Stuck, AnyContext, HEADER_CONTEXTS, CONDITIONAL_CONTEXTS, Valid, Settled, Chosen,
      ConditionalAfter;
    var state := new ParsingState(file);
    var tokens: seq<Token> := [];
    var current := StartOfLine;
    NoTokensYet(file);
    while !state.Empty()
      invariant state.file == file && state.Ok()
      invariant TokensUpTo(tokens, file, state.pos) && current == ConditionalAfter(tokens)
      decreases |file.text| - state.pos
    {
      ghost var before := state.pos;
      var tryHeaderName := ShouldTryHeaderName(tokens, current);
      var parsed := ParseToken(state, tryHeaderName);
      TokenOrFailure(parsed, file, before, state.pos, tryHeaderName);
      if !parsed.Parsed? {
        IsStuck(tokens, file, before);
        return None;
      }
      OneMore(tokens, parsed.token, file, before, state.pos);
      NextAfter(tokens, parsed.token);
      current := NextConditional(current, parsed.token);
      tokens := tokens + [parsed.token];
    }
    return Some(tokens);
  }

  lemma {:induction false} NoTokensYet(file: SplicedFile)
    ensures TokensUpTo([], file, 0) && ConditionalAfter([]) == StartOfLine
  {
    assert Divided([], file, [0]);
  }

  lemma {:induction false} NextAfter(tokens: seq<Token>, t: Token)
    ensures ConditionalAfter(tokens + [t]) == NextConditional(ConditionalAfter(tokens), t)
  {
    assert (tokens + [t])[..|tokens|] == tokens;
  }

  lemma {:induction false} TokenOrFailure(r: Parse<Token>, file: SplicedFile, from: nat, to: nat, tryHeaderName: bool)
    requires from < |file.text| && Settled(r, Chosen(file.text, from, tryHeaderName), file, from, to)
    ensures if r.Parsed? then from < to && TokenAt(r.token, file, from, to, tryHeaderName)
      else Fails(file, from, tryHeaderName)
  {
    hide Chosen, Made, Spelling;
  }

  lemma {:induction false} IsStuck(tokens: seq<Token>, file: SplicedFile, pos: nat)
    requires TokensUpTo(tokens, file, pos) && Fails(file, pos, HeaderTried(tokens))
    ensures Stuck(file)
  {
  }

  lemma {:induction false} DividedFront(tokens: seq<Token>, file: SplicedFile, cuts: seq<nat>)
    requires Divided(tokens, file, cuts) && tokens != []
    ensures var n := |tokens| - 1;
            && Divided(tokens[..n], file, cuts[..n + 1]) && cuts[n] < cuts[n + 1] <= |file.text|
            && (tokens[n].RawLiteral? || file.text[cuts[n]..cuts[n + 1]] == Spelling(tokens[n]))
  {
    var n := |tokens| - 1;
    assert TokenAt(tokens[n], file, cuts[n], cuts[n + 1], HeaderTried(tokens[..n]));
    hide TokenAt, HeaderTried;
    assert Divided(tokens[..n], file, cuts[..n + 1]) by {
      assert forall i :: 0 <= i < n ==> tokens[..n][..i] == tokens[..i];
    }
  }

  /** Without raw literals, printing the tokens gives the spliced text back. */
  lemma {:induction false} PrintingRestores(tokens: seq<Token>, file: SplicedFile, pos: nat)
    requires TokensUpTo(tokens, file, pos) && forall t :: t in tokens ==> !t.RawLiteral?
    ensures pos <= |file.text| && Spellings(tokens) == file.text[..pos]
    decreases |tokens|
  {
    hide Spelling, TokenAt, HeaderTried;
    var cuts: seq<nat> :| Divided(tokens, file, cuts) && cuts[|tokens|] == pos;
    if tokens != [] {
      var n := |tokens| - 1;
      DividedFront(tokens, file, cuts);
      assert cuts[..n + 1][n] == cuts[n];
      hide Divided;
      PrintingRestores(tokens[..n], file, cuts[n]);
      assert tokens[n] in tokens;
      assert file.text[..pos] == file.text[..cuts[n]] + file.text[cuts[n]..pos];
    }
  }
}
