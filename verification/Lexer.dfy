/** Translation phase 3: preprocessing tokens from the spliced text, raw literals from the original. */
module Lexer {
  import opened Splicing
  import opened SplicedFiles
  import opened PpTokens

  /** A parser's outcome; Thrown is a C++ exception. */
  datatype Parse<T> = Parsed(token: T) | NoMatch | Thrown

  class ParsingState {
    const file: SplicedFile
    var pos: nat

    constructor (file: SplicedFile)
      ensures this.file == file && pos == 0
    {
      this.file := file;
      pos := 0;
    }

    ghost predicate Ok()
      reads this
    {
      Valid(file) && pos <= |file.text|
    }

    predicate Empty()
      reads this
    {
      pos >= |file.text|
    }

    predicate StartsWith(prefix: string)
      reads this
    {
      Matches(file.text, pos, prefix)
    }

    /** front(), where the caller has seen to it that there is a character. */
    function Front(): char
      reads this
      requires pos < |file.text|
    {
      file.text[pos]
    }

    /** begin()[i]: the buffer of a std::string ends in a NUL character. */
    function Ahead(i: nat): char
      reads this
    {
      if pos + i < |file.text| then file.text[pos + i] else '\0'
    }
  }

  predicate Matches(text: string, pos: nat, prefix: string) {
    pos + |prefix| <= |text| && text[pos..pos + |prefix|] == prefix
  }

  /** What every parser promises: a token is not empty and spells what was consumed; without one nothing is consumed. */
  ghost predicate Lexed(r: Parse<Token>, text: string, from: nat, to: nat) {
    && to <= |text|
    && (r.Parsed? ==> from < to && text[from..to] == Spelling(r.token))
    && (r.NoMatch? ==> to == from)
  }

  /** A spliced text that is not empty ends in a new-line, which every scan stops at. */
  lemma {:induction false} NewLineAtEnd(file: SplicedFile)
    requires Valid(file) && 0 < |file.text|
    ensures EndsInNewline(file.text)
  {
  }

  // ---- Operators and punctuators ----

  /** The symbolic ones, longest first. */
  const SIZE4: seq<string> := ["%:%:"]
  const SIZE3: seq<string> := ["...", "->*", "<=>", "<<=", ">>="]
  const SIZE2: seq<string> := [
    "##", "%:", "[:", ":]", "<%", "%>", "<:", ":>", "::", ".*", "->", "^^", "+=", "-=", "*=", "/=", "%=", "^=", "&=",
    "|=",
    "==", "!=", "<=", ">=", "&&", "||", "<<", ">>", "++", "--"
  ]
  const SIZE1: seq<string> := [
    "#", "{", "}", "[", "]", "(", ")", ";", ":", "?", ".", "~", "!", "+", "-", "*", "/", "%", "^", "&", "|", "=", "<",
    ">", ","
  ]
  const SYMBOLIC: seq<string> := SIZE4 + SIZE3 + SIZE2 + SIZE1

  lemma {:induction false} LongestFirst(i: nat, j: nat)
    requires i <= j < |SYMBOLIC|
    ensures 0 < |SYMBOLIC[j]| <= |SYMBOLIC[i]|
  {
    assert AllOfSize(SIZE4, 4);
    assert AllOfSize(SIZE3, 3);
    assert AllOfSize(SIZE2, 2) by { SizesOf2(); }
    assert AllOfSize(SIZE1, 1) by { SizesOf1(); }
    Concatenated(SIZE4, SIZE3, SIZE2, SIZE1, i, j);
  }

  ghost predicate AllOfSize(ops: seq<string>, size: nat) { forall i :: 0 <= i < |ops| ==> |ops[i]| == size }

  lemma {:induction false} SizesOf2()
    ensures AllOfSize(SIZE2, 2)
  {
  }

  lemma {:induction false} SizesOf1()
    ensures AllOfSize(SIZE1, 1)
  {
  }

  lemma {:induction false} Concatenated(a: seq<string>, b: seq<string>, c: seq<string>, d: seq<string>, i: nat, j: nat)
    requires AllOfSize(a, 4) && AllOfSize(b, 3) && AllOfSize(c, 2) && AllOfSize(d, 1)
    requires i <= j < |a + b + c + d|
    ensures 0 < |(a + b + c + d)[j]| <= |(a + b + c + d)[i]|
  {
  }

  /** No entry of the table that stands here is longer. */
  ghost predicate Longest(op: string, ops: seq<string>, text: string, pos: nat) {
    forall i :: 0 <= i < |ops| && Matches(text, pos, ops[i]) ==> |ops[i]| <= |op|
  }

  ghost predicate Descending(ops: seq<string>) {
    forall i, j :: 0 <= i <= j < |ops| ==> 0 < |ops[j]| <= |ops[i]|
  }

  lemma {:induction false} SymbolicDescends()
    ensures Descending(SYMBOLIC)
  {
    forall i: nat, j: nat | i <= j < |SYMBOLIC| ensures 0 < |SYMBOLIC[j]| <= |SYMBOLIC[i]| {
      LongestFirst(i, j);
    }
  }

  ghost predicate SymbolHere(text: string, pos: nat) { exists op :: op in SYMBOLIC && Matches(text, pos, op) }

  method ParseSymbolic(state: ParsingState) returns (r: Parse<Token>)
    requires state.Ok()
    modifies state
    ensures !r.Thrown? && Lexed(r, state.file.text, old(state.pos), state.pos)
    ensures r.Parsed? ==>
      r.token.OpOrPunc? && r.token.kind in SYMBOLIC && Longest(r.token.kind, SYMBOLIC, state.file.text, old(state.pos))
    ensures r.NoMatch? <==> !SymbolHere(state.file.text, old(state.pos))
  {
    SymbolicDescends();
    hide SYMBOLIC;
    r := FirstMatch(state, SYMBOLIC);
  }

  ghost predicate NoneHere(ops: seq<string>, n: nat, text: string, pos: nat)
    requires n <= |ops|
  {
    forall j :: 0 <= j < n ==> !Matches(text, pos, ops[j])
  }

  lemma {:induction false} FirstIsLongest(ops: seq<string>, n: nat, text: string, pos: nat)
    requires n < |ops| && Descending(ops) && NoneHere(ops, n, text, pos)
    ensures Longest(ops[n], ops, text, pos) && |ops[n]| > 0
  {
  }

  /** The loop over the table. */
  method FirstMatch(state: ParsingState, ops: seq<string>) returns (r: Parse<Token>)
    requires state.Ok() && Descending(ops)
    modifies state
    ensures !r.Thrown? && Lexed(r, state.file.text, old(state.pos), state.pos)
    ensures r.Parsed? ==>
      r.token.OpOrPunc? && r.token.kind in ops && Longest(r.token.kind, ops, state.file.text, old(state.pos))
    ensures r.NoMatch? ==> forall op :: op in ops ==> !Matches(state.file.text, state.pos, op)
    ensures r.Parsed? ==> Matches(state.file.text, old(state.pos), r.token.kind)
  {
    hide Longest, Descending;
    for i := 0 to |ops|
      invariant state.pos == old(state.pos) && NoneHere(ops, i, state.file.text, state.pos)
    {
      var op := ops[i];
      if state.StartsWith(op) {
        FirstIsLongest(ops, i, state.file.text, state.pos);
        state.pos := state.pos + |op|;
        return Parsed(OpOrPunc(op));
      }
    }
    return NoMatch;
  }

  method ParseDigraphException1(state: ParsingState) returns (r: Parse<Token>)
    requires state.Ok()
    modifies state
    ensures !r.Thrown? && Lexed(r, state.file.text, old(state.pos), state.pos)
    ensures r.Parsed? <==> var (text, p) := (state.file.text, old(state.pos));
                           Matches(text, p, "<::") && !Matches(text, p, "<:::") && !Matches(text, p, "<::>")
    ensures r.Parsed? ==> r.token == OpOrPunc("<")
  {
    if !state.StartsWith("<::") || state.StartsWith("<:::") || state.StartsWith("<::>") {
      return NoMatch;
    }
    FirstOf(state.file.text, state.pos, "<::");
    state.pos := state.pos + 1;
    return Parsed(OpOrPunc("<"));
  }

  method ParseDigraphException2(state: ParsingState) returns (r: Parse<Token>)
    requires state.Ok()
    modifies state
    ensures !r.Thrown? && Lexed(r, state.file.text, old(state.pos), state.pos)
    ensures r.Parsed? <==> var (text, p) := (state.file.text, old(state.pos));
                           (Matches(text, p, "[::") || Matches(text, p, "[:>")) && !Matches(text, p, "[:::")
    ensures r.Parsed? ==> r.token == OpOrPunc("[")
  {
    if (!state.StartsWith("[::") && !state.StartsWith("[:>")) || state.StartsWith("[:::") {
      return NoMatch;
    }
    FirstOf(state.file.text, state.pos, if state.StartsWith("[::") then "[::" else "[:>");
    state.pos := state.pos + 1;
    return Parsed(OpOrPunc("["));
  }

  lemma {:induction false} FirstOf(text: string, pos: nat, prefix: string)
    requires prefix != "" && Matches(text, pos, prefix)
    ensures text[pos..pos + 1] == [prefix[0]]
  {
    assert text[pos..pos + |prefix|][0] == prefix[0];
  }

  // ---- Comments and whitespace ----

  method ParseSingleLineComment(state: ParsingState) returns (r: Parse<Token>)
    requires state.Ok()
    modifies state
    ensures !r.Thrown? && Lexed(r, state.file.text, old(state.pos), state.pos)
    ensures r.NoMatch? <==> !Matches(state.file.text, old(state.pos), "//")
    ensures r.Parsed? ==>
      r.token.SingleLineComment? && state.pos == Find(state.file.text, '\n', old(state.pos)) < |state.file.text|
  {
    if !state.StartsWith("//") {
      return NoMatch;
    }
    var end := Find(state.file.text, '\n', state.pos);
    NewLineAtEnd(state.file);
    if end == |state.file.text| {
      return Thrown;
    }
    FirstOf(state.file.text, state.pos, "//");
    assert state.file.text[state.pos] == '/';
    var text := state.file.text[state.pos..end];
    state.pos := end;
    return Parsed(SingleLineComment(text));
  }

  /** std::string_view::find of a string: the first occurrence from lo, or the end. */
  function FindString(s: string, needle: string, lo: nat): (i: nat)
    requires lo <= |s|
    ensures lo <= i <= |s| && (i < |s| ==> Matches(s, i, needle))
    ensures forall j :: lo <= j < i ==> !Matches(s, j, needle)
    decreases |s| - lo
  {
    if lo == |s| || Matches(s, lo, needle) then lo else FindString(s, needle, lo + 1)
  }

  method ParseMultiLineComment(state: ParsingState) returns (r: Parse<Token>)
    requires state.Ok()
    modifies state
    ensures Lexed(r, state.file.text, old(state.pos), state.pos)
    ensures r.NoMatch? <==> !Matches(state.file.text, old(state.pos), "/*")
    ensures r.Parsed? ==> r.token.MultiLineComment? && old(state.pos) + 4 <= state.pos
    ensures !r.NoMatch? ==> var end := FindString(state.file.text, "*/", old(state.pos) + 2);
                            if end == |state.file.text| then r.Thrown? else r.Parsed? && state.pos == end + 2
  {
    if !state.StartsWith("/*") {
      return NoMatch;
    }
    var start := state.pos;
    state.pos := state.pos + 2;
    var end := FindString(state.file.text, "*/", state.pos);
    if end == |state.file.text| {
      return Thrown;
    }
    state.pos := end + 2;
    return Parsed(MultiLineComment(state.file.text[start..state.pos]));
  }

  method ParseNewLine(state: ParsingState) returns (r: Parse<Token>)
    requires state.Ok()
    modifies state
    ensures !r.Thrown? && Lexed(r, state.file.text, old(state.pos), state.pos)
    ensures if Matches(state.file.text, old(state.pos), "\n") then r == Parsed(NewLine) else r == NoMatch
  {
    if !state.StartsWith("\n") {
      return NoMatch;
    }
    state.pos := state.pos + 1;
    return Parsed(NewLine);
  }

  predicate IsBlank(c: char) { c != '\n' && IsSpace(c) }

  /** A maximal run: everything in it has the property and what follows has not. */
  ghost predicate IsRun(text: string, from: nat, to: nat, p: char -> bool) {
    from <= to < |text| && (forall i :: from <= i < to ==> p(text[i])) && !p(text[to])
  }

  method ParseWhitespace(state: ParsingState) returns (r: Parse<Token>)
    requires state.Ok()
    modifies state
    ensures Lexed(r, state.file.text, old(state.pos), state.pos)
    ensures r.Thrown? <==> old(state.pos) == |state.file.text|
    ensures r.Parsed? ==> r.token.Whitespace? && IsRun(state.file.text, old(state.pos), state.pos, IsBlank)
    ensures r.NoMatch? ==> !IsBlank(state.file.text[state.pos])
  {
    if state.Empty() {
      return Thrown;
    }
    NewLineAtEnd(state.file);
    hide Valid, IsSpace;
    var start := state.pos;
    while IsBlank(state.Front())
      invariant state.Ok() && start <= state.pos < |state.file.text|
      invariant forall i :: start <= i < state.pos ==> IsBlank(state.file.text[i])
      decreases |state.file.text| - state.pos
    {
      state.pos := state.pos + 1;
    }
    if state.pos == start {
      return NoMatch;
    }
    return Parsed(Whitespace(state.file.text[start..state.pos]));
  }

  // ---- Identifiers and numbers ----

  predicate IsDigit(c: char) { '0' <= c <= '9' }

  predicate IsNondigit(c: char) { 'a' <= c <= 'z' || 'A' <= c <= 'Z' || c == '_' }

  predicate IsWordChar(c: char) { IsNondigit(c) || IsDigit(c) }

  const WORDED: set<string> := {"and", "or", "xor", "not", "bitand", "bitor", "compl", "and_eq", "or_eq", "xor_eq",
    "not_eq"}

  predicate IsWorded(text: string) { text in WORDED }

  method ParseIdentifierOrWorded(state: ParsingState) returns (r: Parse<Token>)
    requires state.Ok()
    modifies state
    ensures Lexed(r, state.file.text, old(state.pos), state.pos)
    ensures r.Thrown? <==> old(state.pos) == |state.file.text|
    ensures r.NoMatch? <==> old(state.pos) < |state.file.text| && !IsNondigit(state.file.text[old(state.pos)])
    ensures r.Parsed? ==> IsRun(state.file.text, old(state.pos), state.pos, IsWordChar)
    ensures r.Parsed? ==>
      r.token == if IsWorded(state.file.text[old(state.pos)..state.pos])
                 then OpOrPunc(state.file.text[old(state.pos)..state.pos])
                                     else Identifier(state.file.text[old(state.pos)..state.pos])
  {
    if state.Empty() {
      return Thrown;
    }
    NewLineAtEnd(state.file);
    hide IsWorded, Valid;
    if !IsNondigit(state.Front()) {
      return NoMatch;
    }
    var start := state.pos;
    while IsWordChar(state.Front())
      invariant state.Ok() && start <= state.pos < |state.file.text|
      invariant state.pos == start ==> IsNondigit(state.Front())
      invariant forall i :: start <= i < state.pos ==> IsWordChar(state.file.text[i])
      decreases |state.file.text| - state.pos
    {
      state.pos := state.pos + 1;
    }
    var text := state.file.text[start..state.pos];
    if IsWorded(text) {
      return Parsed(OpOrPunc(text));
    }
    return Parsed(Identifier(text));
  }

  predicate IsSign(c: char) { c == '+' || c == '-' }

  /** An exponent with its sign, or a separator with the digit or letter behind it. */
  predicate IsPair(c: char, d: char) { (c in "eEpP" && IsSign(d)) || (c == '\'' && IsWordChar(d)) }

  /** The characters from `from` to `end` are a pp-number of the grammar, section [lex.ppnumber] of the C++ standard. */
  predicate NumberSpan(text: string, from: nat, end: nat)
    requires from <= end <= |text|
    decreases end
  {
    || (end == from + 1 && IsDigit(text[from]))
    || (end == from + 2 && text[from] == '.' && IsDigit(text[from + 1]))
    || (end >= from + 2 && NumberSpan(text, from, end - 1) && (text[end - 1] == '.' || IsWordChar(text[end - 1])))
    || (end >= from + 3 && NumberSpan(text, from, end - 2) && IsPair(text[end - 2], text[end - 1]))
  }

  lemma {:induction false} NumberStarts(text: string, from: nat, end: nat)
    requires from <= end <= |text| && NumberSpan(text, from, end)
    ensures from < end && (IsDigit(text[from]) || (text[from] == '.' && from + 1 < end && IsDigit(text[from + 1])))
    decreases end
  {
    if end >= from + 2 && NumberSpan(text, from, end - 1) {
      NumberStarts(text, from, end - 1);
    } else if end >= from + 3 && NumberSpan(text, from, end - 2) {
      NumberStarts(text, from, end - 2);
    }
  }

  ghost predicate NumberHere(text: string, pos: nat) {
    exists end: nat :: pos <= end <= |text| && NumberSpan(text, pos, end)
  }

  ghost predicate LongestNumber(text: string, from: nat, to: nat) {
    from <= to <= |text| && NumberSpan(text, from, to) &&
    forall end: nat :: to < end <= |text| ==> !NumberSpan(text, from, end)
  }

  /** A dot, a digit or letter, or a pair. */
  predicate ContinuesNumber(text: string, pos: nat) {
    pos < |text| &&
    (text[pos] == '.' || IsWordChar(text[pos]) || (pos + 1 < |text| && IsPair(text[pos], text[pos + 1])))
  }

  /** The number up to pos has cut an exponent off its sign. */
  predicate CutsPair(text: string, from: nat, pos: nat) {
    from < pos < |text| && text[pos - 1] in "eEpP" && IsSign(text[pos]) && NumberSpan(text, from, pos - 1)
  }

  /** Where nothing continues the number and no pair was cut, no longer text is a number. */
  lemma {:induction false} NumberEnds(text: string, from: nat, pos: nat, end: nat)
    requires from <= pos < end <= |text|
    requires NumberSpan(text, from, pos) && !ContinuesNumber(text, pos) && !CutsPair(text, from, pos)
    ensures !NumberSpan(text, from, end)
    decreases end
  {
    if pos < end - 1 {
      NumberEnds(text, from, pos, end - 1);
    }
    if pos < end - 2 {
      NumberEnds(text, from, pos, end - 2);
    }
  }

  /** A number ends in no separator. */
  lemma {:induction false} NumberLast(text: string, from: nat, end: nat)
    requires from <= end <= |text| && NumberSpan(text, from, end)
    ensures from < end && text[end - 1] != '\''
  {
  }

  /** The body of the loop over a number: how much the next pass consumes. */
  method NumberStep(text: string, pos: nat) returns (step: nat)
    requires pos < |text|
    ensures step == 0 <==> !ContinuesNumber(text, pos)
    ensures step == 1 ==>
      text[pos] == '.' || (IsWordChar(text[pos]) && !(pos + 1 < |text| && IsPair(text[pos], text[pos + 1])))
    ensures step > 1 ==> step == 2 && pos + 1 < |text| && IsPair(text[pos], text[pos + 1])
  {
    var next := if pos + 1 < |text| then text[pos + 1] else '\0';
    if text[pos] == '.' {
      return 1;
    }
    if text[pos] in "eEpP" && IsSign(next) {
      return 2;
    }
    if text[pos] == '\'' && (IsDigit(next) || IsNondigit(next)) {
      return 2;
    }
    if IsDigit(text[pos]) || IsNondigit(text[pos]) {
      return 1;
    }
    return 0;
  }

  /** What the loop over a number keeps. */
  ghost predicate NumberSoFar(text: string, from: nat, pos: nat) {
    from < pos < |text| && NumberSpan(text, from, pos) && !CutsPair(text, from, pos)
  }

  lemma {:induction false} NumberBegins(text: string, from: nat, dot: bool)
    requires from < |text| && EndsInNewline(text)
    requires if dot then from + 1 < |text| && text[from] == '.' && IsDigit(text[from + 1]) else IsDigit(text[from])
    ensures NumberSoFar(text, from, from + if dot then 2 else 1)
  {
  }

  lemma {:induction false} NumberGrows(text: string, from: nat, pos: nat, step: nat)
    requires NumberSoFar(text, from, pos) && EndsInNewline(text)
    requires step == 1 ==>
      text[pos] == '.' || (IsWordChar(text[pos]) && !(pos + 1 < |text| && IsPair(text[pos], text[pos + 1])))
    requires 1 <= step <= 2 && (step == 2 ==> pos + 1 < |text| && IsPair(text[pos], text[pos + 1]))
    ensures NumberSoFar(text, from, pos + step)
  {
    if step == 2 && NumberSpan(text, from, pos + 1) {
      NumberLast(text, from, pos + 1);
    }
  }

  /** The loop over the rest of a number. */
  method ConsumeNumber(state: ParsingState, ghost from: nat)
    requires state.Ok() && NumberSoFar(state.file.text, from, state.pos)
    modifies state
    ensures state.Ok() && NumberSoFar(state.file.text, from, state.pos) && !ContinuesNumber(state.file.text, state.pos)
  {
    var text := state.file.text;
    NumberInside(text, from, state.pos);
    NewLineAtEnd(state.file);
    hide NumberSoFar, ContinuesNumber, Valid, IsPair, IsWordChar, EndsInNewline;
    while true
      invariant state.Ok() && state.pos < |text| && NumberSoFar(text, from, state.pos)
      decreases |text| - state.pos
    {
      var step := NumberStep(text, state.pos);
      if step == 0 {
        break;
      }
      NumberGrows(text, from, state.pos, step);
      state.pos := state.pos + step;
      NumberInside(text, from, state.pos);
    }
  }

  /** The longest pp-number that stands here, or none does. */
  method ParsePpNumber(state: ParsingState) returns (r: Parse<Token>)
    requires state.Ok()
    modifies state
    ensures Lexed(r, state.file.text, old(state.pos), state.pos)
    ensures r.Thrown? <==> old(state.pos) == |state.file.text|
    ensures r.Parsed? ==> r.token.PpNumber? && LongestNumber(state.file.text, old(state.pos), state.pos)
    ensures r.Parsed? <==> NumberHere(state.file.text, old(state.pos))
  {
    if state.Empty() {
      NoNumberAtEnd(state.file.text, state.pos);
      return Thrown;
    }
    NewLineAtEnd(state.file);
    hide NumberSoFar, ContinuesNumber, Valid, NumberSpan, EndsInNewline, NumberHere, LongestNumber;
    var start, text := state.pos, state.file.text;
    var dot := state.StartsWith(".");
    assert text[start..start + 1] == [text[start]];
    var c := if dot then state.Ahead(1) else state.Front();
    if !IsDigit(c) {
      NoNumberHere(text, start);
      return NoMatch;
    }
    NumberBegins(text, start, dot);
    state.pos := state.pos + if dot then 2 else 1;
    ConsumeNumber(state, start);
    NumberIsLongest(text, start, state.pos);
    return Parsed(PpNumber(text[start..state.pos]));
  }

  lemma {:induction false} NumberInside(text: string, from: nat, pos: nat)
    requires NumberSoFar(text, from, pos)
    ensures from < pos < |text|
  {
  }

  lemma {:induction false} NoNumberAtEnd(text: string, pos: nat)
    requires pos >= |text|
    ensures !NumberHere(text, pos)
  {
  }

  lemma {:induction false} NoNumberHere(text: string, pos: nat)
    requires pos < |text| && !IsDigit(text[pos]) && !(text[pos] == '.' && pos + 1 < |text| && IsDigit(text[pos + 1]))
    ensures !NumberHere(text, pos)
  {
    forall end: nat | pos <= end <= |text| && NumberSpan(text, pos, end)
      ensures false
    {
      NumberStarts(text, pos, end);
    }
  }

  lemma {:induction false} NumberIsLongest(text: string, from: nat, pos: nat)
    requires NumberSoFar(text, from, pos) && !ContinuesNumber(text, pos)
    ensures from < pos < |text| && LongestNumber(text, from, pos) && NumberHere(text, from)
  {
    forall end: nat | pos < end <= |text|
      ensures !NumberSpan(text, from, end)
    {
      NumberEnds(text, from, pos, end);
    }
  }

  /** Quoted or in angle brackets, on one line, up to the first closing character. */
  predicate IsHeader(text: string) {
    && |text| >= 2 && (text[0] == '"' || text[0] == '<')
    && var end := if text[0] == '"' then '"' else '>';
       text[|text| - 1] == end && forall i :: 1 <= i < |text| - 1 ==> text[i] != end && text[i] != '\n'
  }

  ghost predicate HeaderHere(text: string, pos: nat) {
    exists to: nat :: pos <= to <= |text| && IsHeader(text[pos..to])
  }

  /** Neither the closing character nor the end of the line came after `start` yet. */
  ghost predicate Unclosed(text: string, start: nat, pos: nat, end: char) {
    start < pos <= |text| && forall i :: start < i < pos ==> text[i] != end && text[i] != '\n'
  }

  predicate OpensHeader(text: string, start: nat, end: char) {
    start < |text| && (text[start] == '"' || text[start] == '<') && end == if text[start] == '"' then '"' else '>'
  }

  lemma {:induction false} HeaderText(text: string, start: nat, last: nat, end: char)
    requires Matches(text, last, [end]) && OpensHeader(text, start, end) && Unclosed(text, start, last, end)
    ensures last < |text| && IsHeader(text[start..last + 1]) && HeaderHere(text, start)
  {
    var header := text[start..last + 1];
    assert text[last..last + 1][0] == end;
    assert header[0] == text[start] && header[|header| - 1] == text[last];
    assert forall i :: 0 <= i < |header| ==> header[i] == text[start + i];
  }

  lemma {:induction false} NoHeader(text: string, start: nat, last: nat, end: char)
    requires Matches(text, last, "\n") && OpensHeader(text, start, end) && Unclosed(text, start, last, end)
    ensures !HeaderHere(text, start)
  {
    assert text[last..last + 1][0] == '\n';
    forall to: nat | start <= to <= |text|
      ensures !IsHeader(text[start..to])
    {
      var header := text[start..to];
      assert forall i :: 0 <= i < |header| ==> header[i] == text[start + i];
      if last - start < |header| {
        assert header[last - start] == '\n';
      }
    }
  }

  lemma {:induction false} NoHeaderAtEnd(text: string, pos: nat)
    requires pos >= |text|
    ensures !HeaderHere(text, pos)
  {
  }

  lemma {:induction false} NoQuoteNoHeader(text: string, pos: nat)
    requires pos < |text| && text[pos] != '"' && text[pos] != '<'
    ensures !HeaderHere(text, pos)
  {
    forall to: nat | pos <= to <= |text|
      ensures !IsHeader(text[pos..to])
    {
      assert pos < to ==> text[pos..to][0] == text[pos];
    }
  }

  lemma {:induction false} StaysUnclosed(text: string, start: nat, pos: nat, end: char)
    requires EndsInNewline(text) && Unclosed(text, start, pos, end) && pos < |text| && !Matches(text, pos, [end])
    requires !Matches(text, pos, "\n")
    ensures Unclosed(text, start, pos + 1, end) && pos + 1 < |text|
  {
    assert text[pos..pos + 1] == [text[pos]];
  }

  /** Parsed exactly when a header name stands here. */
  method ParseHeaderName(state: ParsingState) returns (r: Parse<Token>)
    requires state.Ok()
    modifies state
    ensures Lexed(r, state.file.text, old(state.pos), state.pos)
    ensures r.Thrown? <==> old(state.pos) == |state.file.text|
    ensures r.Parsed? ==> r.token.HeaderName? && IsHeader(r.token.header)
    ensures r.Parsed? <==> HeaderHere(state.file.text, old(state.pos))
  {
    if state.Empty() {
      NoHeaderAtEnd(state.file.text, state.pos);
      return Thrown;
    }
    NewLineAtEnd(state.file);
    if state.Front() != '"' && state.Front() != '<' {
      NoQuoteNoHeader(state.file.text, state.pos);
      return NoMatch;
    }
    hide HeaderHere;
    var end := if state.Front() == '"' then '"' else '>';
    var start, text := state.pos, state.file.text;
    assert OpensHeader(text, start, end) && start + 1 < |text|;
    hide Valid, Unclosed, OpensHeader, IsHeader, EndsInNewline, Matches;
    state.pos := state.pos + 1;
    JustOpened(text, start, end);
    while !state.StartsWith([end])
      invariant state.Ok() && start < state.pos < |text| && Unclosed(text, start, state.pos, end)
      decreases |text| - state.pos
    {
      if state.StartsWith("\n") {
        NoHeader(text, start, state.pos, end);
        state.pos := start;
        return NoMatch;
      }
      StaysUnclosed(text, start, state.pos, end);
      state.pos := state.pos + 1;
    }
    HeaderText(text, start, state.pos, end);
    state.pos := state.pos + 1;
    return Parsed(HeaderName(text[start..state.pos]));
  }

  lemma {:induction false} JustOpened(text: string, start: nat, end: char)
    requires start < |text|
    ensures Unclosed(text, start, start + 1, end)
  {
  }

  // ---- What stands here stands here once ----

  lemma {:induction false} RunOnce(text: string, from: nat, to: nat, end: nat, p: char -> bool)
    requires IsRun(text, from, to, p) && IsRun(text, from, end, p)
    ensures to == end
  {
  }

  lemma {:induction false} HeaderOnce(text: string, from: nat, to: nat, end: nat)
    requires from <= to <= end <= |text| && IsHeader(text[from..to]) && IsHeader(text[from..end])
    ensures to == end
  {
    var short, long := text[from..to], text[from..end];
    assert forall i :: 0 <= i < |short| ==> short[i] == long[i];
  }

  lemma {:induction false} NumberOnce(text: string, from: nat, to: nat, end: nat)
    requires LongestNumber(text, from, to) && LongestNumber(text, from, end)
    ensures to == end
  {
    hide NumberSpan;
  }

  lemma {:induction false} SymbolOnce(text: string, from: nat, a: string, b: string)
    requires a in SYMBOLIC && Longest(a, SYMBOLIC, text, from) && Matches(text, from, a)
    requires b in SYMBOLIC && Longest(b, SYMBOLIC, text, from) && Matches(text, from, b)
    ensures a == b
  {
    hide SYMBOLIC;
    var i :| 0 <= i < |SYMBOLIC| && SYMBOLIC[i] == a;
    var j :| 0 <= j < |SYMBOLIC| && SYMBOLIC[j] == b;
  }
}
