/** Character, string and raw string literals. */
module Literals {
  import opened Splicing
  import opened SplicedFiles
  import opened PpTokens
  import opened Lexer
  import opened Wrappers

  /** An encoding prefix with `next` behind it stands here. */
  ghost predicate Opens(text: string, pos: nat, next: string) {
    exists e :: Matches(text, pos, PrefixText(e) + next)
  }

  /** The first such prefix. */
  method ParsePrefix(state: ParsingState, next: string) returns (r: Option<EncodingPrefix>)
    requires state.Ok()
    ensures r.Some? <==> Opens(state.file.text, state.pos, next)
    ensures r.Some? ==> Matches(state.file.text, state.pos, PrefixText(r.value) + next)
  {
    hide Matches, PrefixText, Opens;
    var text := state.file.text;
    for i := 0 to |PREFIXES|
      invariant forall j :: 0 <= j < i ==> !Matches(text, state.pos, PrefixText(PREFIXES[j]) + next)
    {
      var e := PREFIXES[i];
      MatchesBoth(text, state.pos, PrefixText(e), next);
      if state.StartsWith(PrefixText(e)) && Matches(text, state.pos + |PrefixText(e)|, next) {
        DoesOpen(text, state.pos, e, next);
        return Some(e);
      }
    }
    OpensNothing(text, state.pos, next);
    return None;
  }

  lemma {:induction false} DoesOpen(text: string, pos: nat, e: EncodingPrefix, next: string)
    requires Matches(text, pos, PrefixText(e) + next)
    ensures Opens(text, pos, next)
  {
  }

  lemma {:induction false} OpensNothing(text: string, pos: nat, next: string)
    requires forall j :: 0 <= j < |PREFIXES| ==> !Matches(text, pos, PrefixText(PREFIXES[j]) + next)
    ensures !Opens(text, pos, next)
  {
    hide Matches, PrefixText;
    forall e
      ensures !Matches(text, pos, PrefixText(e) + next)
    {
      assert e == PREFIXES[match e
                           case NoPrefix => 0
                           case SmallU8 => 1
                           case SmallU => 2
                           case CapitalU => 3
                           case CapitalL => 4];
    }
  }

  lemma {:induction false} MatchesBoth(text: string, pos: nat, a: string, b: string)
    ensures Matches(text, pos, a + b) <==> Matches(text, pos, a) && Matches(text, pos + |a|, b)
  {
    if pos + |a| + |b| <= |text| {
      var both := text[pos..pos + |a| + |b|];
      assert both[..|a|] == text[pos..pos + |a|] && both[|a|..] == text[pos + |a|..pos + |a| + |b|];
      assert (a + b)[..|a|] == a && (a + b)[|a|..] == b;
      assert both == both[..|a|] + both[|a|..];
    }
  }

  predicate IsHexDigit(c: char) { '0' <= c <= '9' || 'a' <= c <= 'f' || 'A' <= c <= 'F' }

  const ESCAPES: string := "'\"?\\abfnrtv"

  ghost predicate HexDigits(text: string, from: nat, to: nat) {
    from <= to <= |text| && forall i :: from <= i < to ==> IsHexDigit(text[i])
  }

  /** A hexadecimal escape from `from` to `to`: in braces, or all the digits there are. */
  ghost predicate HexAt(text: string, from: nat, to: nat) {
    && Matches(text, from, "\\x")
    && if Matches(text, from + 2, "{") then from + 4 <= to <= |text| && text[to - 1] == '}' &&
      HexDigits(text, from + 3, to - 1)
       else HexDigits(text, from + 2, to) && to < |text| && !IsHexDigit(text[to])
  }

  /** One character of a literal from `from` to `to`: only a string literal has hexadecimal escapes. */
  ghost predicate CharAt(c: LiteralChar, text: string, from: nat, to: nat, quote: char, hex: bool) {
    && from < to <= |text| && text[from..to] == CharText(c)
    && match c
       case BasicChar(c) => c != quote && c != '\\' && c != '\n'
       case SimpleEscape(e) => e in ESCAPES
       case HexEscape(_) => hex && HexAt(text, from, to)
  }

  ghost predicate NoChar(text: string, from: nat, quote: char, hex: bool) {
    forall c: LiteralChar, to: nat :: !CharAt(c, text, from, to, quote, hex)
  }

  method ParseHexEscape(state: ParsingState) returns (r: Parse<LiteralChar>)
    requires state.Ok() && state.pos < |state.file.text|
    modifies state
    ensures state.Ok() && !r.Thrown?
    ensures r.Parsed? ==>
      r.token.HexEscape? && old(state.pos) < state.pos && HexAt(state.file.text, old(state.pos), state.pos)
    ensures r.Parsed? ==> r.token.digits == state.file.text[old(state.pos)..state.pos]
    ensures r.NoMatch? ==> state.pos == old(state.pos) && forall to: nat :: !HexAt(state.file.text, state.pos, to)
  {
    var start, text := state.pos, state.file.text;
    NewLineAtEnd(state.file);
    hide Valid, HexDigits, Matches, EndsInNewline, HexAt, IsHexDigit;
    if !state.StartsWith("\\x") {
      NoHexHere(text, start);
      return NoMatch;
    }
    var curly := Matches(text, start + 2, "{");
    HexOpens(text, start);
    state.pos := start + if curly then 3 else 2;
    ConsumeHexDigits(state);
    if curly {
      if !state.StartsWith("}") {
        NoBraces(text, start, state.pos);
        state.pos := start;
        return NoMatch;
      }
      HexCloses(text, start, state.pos);
      state.pos := state.pos + 1;
    } else {
      HexEnds(text, start, state.pos);
    }
    return Parsed(HexEscape(text[start..state.pos]));
  }

  lemma {:induction false} NoHexHere(text: string, from: nat)
    requires !Matches(text, from, "\\x")
    ensures forall to: nat :: !HexAt(text, from, to)
  {
  }

  lemma {:induction false} HexOpens(text: string, from: nat)
    requires Matches(text, from, "\\x") && EndsInNewline(text)
    ensures from + (if Matches(text, from + 2, "{") then 3 else 2) < |text|
  {
    assert text[from..from + 2][1] == text[from + 1];
    assert Matches(text, from + 2, "{") ==> text[from + 2..from + 3][0] == text[from + 2];
  }

  lemma {:induction false} HexCloses(text: string, from: nat, stop: nat)
    requires Matches(text, from, "\\x") && Matches(text, from + 2, "{") && from + 3 <= stop
    requires HexDigits(text, from + 3, stop) && Matches(text, stop, "}")
    ensures stop < |text| && HexAt(text, from, stop + 1)
  {
    assert text[stop..stop + 1][0] == text[stop];
  }

  lemma {:induction false} HexEnds(text: string, from: nat, stop: nat)
    requires Matches(text, from, "\\x") && !Matches(text, from + 2, "{") && HexDigits(text, from + 2, stop)
    requires stop < |text| && !IsHexDigit(text[stop])
    ensures HexAt(text, from, stop)
  {
  }

  method ConsumeHexDigits(state: ParsingState)
    requires state.Ok() && state.pos < |state.file.text|
    modifies state
    ensures state.Ok() && old(state.pos) <= state.pos < |state.file.text|
    ensures HexDigits(state.file.text, old(state.pos), state.pos) && !IsHexDigit(state.file.text[state.pos])
  {
    var first, text := state.pos, state.file.text;
    NewLineAtEnd(state.file);
    hide Valid;
    while IsHexDigit(state.Front())
      invariant state.Ok() && first <= state.pos < |text| && HexDigits(text, first, state.pos)
      decreases |text| - state.pos
    {
      state.pos := state.pos + 1;
    }
  }

  lemma {:induction false} NoBraces(text: string, from: nat, stop: nat)
    requires Matches(text, from, "\\x") && Matches(text, from + 2, "{") && stop < |text|
    requires HexDigits(text, from + 3, stop)
    requires !IsHexDigit(text[stop]) && !Matches(text, stop, "}")
    ensures forall to: nat :: !HexAt(text, from, to)
  {
    forall to: nat
      ensures !HexAt(text, from, to)
    {
      assert text[stop..stop + 1] == [text[stop]];
    }
  }

  /** c_char and s_char. */
  method ParseLiteralChar(state: ParsingState, quote: char, hex: bool) returns (r: Parse<LiteralChar>)
    requires state.Ok() && state.pos < |state.file.text|
    modifies state
    ensures !r.Thrown? && (r.NoMatch? ==> state.pos == old(state.pos))
    ensures r.Parsed? ==> CharAt(r.token, state.file.text, old(state.pos), state.pos, quote, hex)
    ensures r.NoMatch? ==> NoChar(state.file.text, state.pos, quote, hex)
  {
    var c := state.Front();
    if c != quote && c != '\\' && c != '\n' {
      IsBasic(state.file.text, state.pos, quote, hex);
      state.pos := state.pos + 1;
      return Parsed(BasicChar(c));
    }
    OtherChars(state.file.text, state.pos, quote, hex);
    NewLineAtEnd(state.file);
    hide Valid, HexAt, CharAt, NoChar;
    if c != '\\' {
      return NoMatch;
    }
    if state.Ahead(1) in ESCAPES {
      IsSimple(state.file.text, state.pos, quote, hex);
      state.pos := state.pos + 2;
      return Parsed(SimpleEscape(state.file.text[state.pos - 1]));
    }
    if hex {
      r := ParseHexEscape(state);
      if r.Parsed? {
        IsHex(r.token.digits, state.file.text, old(state.pos), state.pos, quote);
      }
    } else {
      r := NoMatch;
    }
  }

  lemma {:induction false} IsBasic(text: string, pos: nat, quote: char, hex: bool)
    requires pos < |text| && text[pos] != quote && text[pos] != '\\' && text[pos] != '\n'
    ensures CharAt(BasicChar(text[pos]), text, pos, pos + 1, quote, hex)
  {
    assert text[pos..pos + 1] == [text[pos]];
  }

  lemma {:induction false} IsSimple(text: string, pos: nat, quote: char, hex: bool)
    requires pos + 1 < |text| && text[pos] == '\\' && text[pos + 1] in ESCAPES
    ensures CharAt(SimpleEscape(text[pos + 1]), text, pos, pos + 2, quote, hex)
  {
    assert text[pos..pos + 2] == ['\\', text[pos + 1]];
  }

  lemma {:induction false} IsHex(digits: string, text: string, from: nat, to: nat, quote: char)
    requires from < to <= |text| && HexAt(text, from, to) && digits == text[from..to]
    ensures CharAt(HexEscape(digits), text, from, to, quote, true)
  {
  }

  /** What may stand where no basic character does. */
  lemma {:induction false} OtherChars(text: string, from: nat, quote: char, hex: bool)
    requires from < |text| && (text[from] == quote || text[from] == '\\' || text[from] == '\n')
    ensures text[from] != '\\' ==> NoChar(text, from, quote, hex)
    ensures text[from] == '\\' && from + 1 < |text| && text[from + 1] !in ESCAPES &&
            (!hex || forall to: nat :: !HexAt(text, from, to)) ==>
              NoChar(text, from, quote, hex)
  {
    hide HexDigits;
    forall c: LiteralChar, to: nat | CharAt(c, text, from, to, quote, hex)
      ensures text[from] == '\\' && from + 1 < |text|
      ensures (c.SimpleEscape? && text[from + 1] in ESCAPES) || (c.HexEscape? && hex && HexAt(text, from, to))
    {
      assert text[from..to][0] == text[from];
      if c.SimpleEscape? {
        assert text[from..to][1] == text[from + 1];
      } else if c.HexEscape? {
        assert text[from..from + 2][0] == text[from];
      }
    }
  }

  /** The characters of a literal from `from` to `to`. */
  ghost predicate CharsAt(chars: seq<LiteralChar>, text: string, from: nat, to: nat, quote: char, hex: bool)
    decreases |chars|
  {
    if chars == [] then from == to <= |text|
    else
      var n := |chars| - 1;
      var width := |CharText(chars[n])|;
      from + width <= to && CharsAt(chars[..n], text, from, to - width, quote, hex) &&
        CharAt(chars[n], text, to - width, to, quote, hex)
  }

  lemma {:induction false} LastChar(chars: seq<LiteralChar>, text: string, from: nat, to: nat, quote: char, hex: bool)
    requires CharsAt(chars, text, from, to, quote, hex)
    ensures if chars == [] then from == to <= |text| && CharsText(chars) == ""
            else
              var n := |chars| - 1;
              var mid := to - |CharText(chars[n])|;
              from <= mid && CharsAt(chars[..n], text, from, mid, quote, hex) &&
                CharAt(chars[n], text, mid, to, quote, hex) &&
              CharsText(chars) == CharsText(chars[..n]) + CharText(chars[n])
  {
  }

  lemma {:induction false} CharsAreText(chars: seq<LiteralChar>, text: string, from: nat, to: nat, quote: char,
          hex: bool)
    requires CharsAt(chars, text, from, to, quote, hex)
    ensures from <= to <= |text| && text[from..to] == CharsText(chars)
    decreases |chars|
  {
    hide *;
    LastChar(chars, text, from, to, quote, hex);
    if chars != [] {
      var n := |chars| - 1;
      var mid := to - |CharText(chars[n])|;
      CharIsText(chars[n], text, mid, to, quote, hex);
      CharsAreText(chars[..n], text, from, mid, quote, hex);
      assert text[from..to] == text[from..mid] + text[mid..to];
    }
  }

  lemma {:induction false} CharIsText(c: LiteralChar, text: string, from: nat, to: nat, quote: char, hex: bool)
    requires CharAt(c, text, from, to, quote, hex)
    ensures from < to <= |text| && text[from..to] == CharText(c)
  {
  }

  lemma {:induction false} OneMoreChar(chars: seq<LiteralChar>, c: LiteralChar, text: string, from: nat, mid: nat,
          to: nat, quote: char, hex: bool)
    requires CharsAt(chars, text, from, mid, quote, hex) && CharAt(c, text, mid, to, quote, hex) && from <= mid
    ensures CharsAt(chars + [c], text, from, to, quote, hex)
  {
    assert (chars + [c])[..|chars|] == chars;
    assert |text[mid..to]| == |CharText(c)|;
  }

  /** Before a closing quote comes something that no character of a literal begins with. */
  ghost predicate Spoiled(text: string, from: nat, quote: char, hex: bool) {
    exists chars, at: nat :: CharsAt(chars, text, from, at, quote, hex) && !Matches(text, at, [quote]) &&
      NoChar(text, at, quote, hex)
  }

  /** The body of the loop over the characters of a literal. */
  method ParseNextChar(state: ParsingState, chars: seq<LiteralChar>, ghost start: nat, quote: char, hex: bool)
    returns (r: Option<seq<LiteralChar>>)
    requires state.Ok() && start <= state.pos < |state.file.text|
    requires CharsAt(chars, state.file.text, start, state.pos, quote, hex)
    requires !Matches(state.file.text, state.pos, [quote])
    modifies state
    ensures old(state.pos) <= state.pos < |state.file.text|
    ensures r.Some? ==> old(state.pos) < state.pos && CharsAt(r.value, state.file.text, start, state.pos, quote, hex)
    ensures r.None? ==> Spoiled(state.file.text, start, quote, hex)
  {
    ghost var before, text := state.pos, state.file.text;
    NewLineAtEnd(state.file);
    hide *;
    var c := ParseLiteralChar(state, quote, hex);
    if !c.Parsed? {
      SpoiledHere(chars, text, start, before, quote, hex);
      return None;
    }
    CharMovesOn(c.token, text, before, state.pos, quote, hex);
    OneMoreChar(chars, c.token, text, start, before, state.pos, quote, hex);
    return Some(chars + [c.token]);
  }

  method ParseLiteralChars(state: ParsingState, quote: char, hex: bool) returns (r: Parse<seq<LiteralChar>>)
    requires state.Ok() && state.pos < |state.file.text| && quote != '\n'
    modifies state
    ensures state.Ok() && old(state.pos) <= state.pos < |state.file.text| && !r.NoMatch?
    ensures r.Parsed? ==>
      CharsAt(r.token, state.file.text, old(state.pos), state.pos, quote, hex) && state.file.text[state.pos] == quote
    ensures r.Thrown? ==> Spoiled(state.file.text, old(state.pos), quote, hex)
  {
    hide Valid, CharsAt, Spoiled, Matches;
    var chars: seq<LiteralChar> := [];
    ghost var start, text := state.pos, state.file.text;
    NoCharsYet(text, start, quote, hex);
    while !state.StartsWith([quote])
      invariant state.Ok() && start <= state.pos < |text| && CharsAt(chars, text, start, state.pos, quote, hex)
      decreases |text| - state.pos
    {
      var more := ParseNextChar(state, chars, start, quote, hex);
      if more.None? {
        return Thrown;
      }
      chars := more.value;
    }
    QuoteHere(text, state.pos, quote);
    return Parsed(chars);
  }

  lemma {:induction false} SpoiledHere(chars: seq<LiteralChar>, text: string, from: nat, at: nat, quote: char,
          hex: bool)
    requires CharsAt(chars, text, from, at, quote, hex) && !Matches(text, at, [quote]) && NoChar(text, at, quote, hex)
    ensures Spoiled(text, from, quote, hex)
  {
  }

  lemma {:induction false} QuoteHere(text: string, pos: nat, quote: char)
    requires Matches(text, pos, [quote])
    ensures pos < |text| && text[pos] == quote
  {
    assert text[pos..pos + 1][0] == text[pos];
  }

  lemma {:induction false} NoCharsYet(text: string, from: nat, quote: char, hex: bool)
    requires from <= |text|
    ensures CharsAt([], text, from, from, quote, hex)
  {
  }

  /** No character of a literal is a new-line, so the last one of a text is never consumed. */
  lemma {:induction false} CharMovesOn(c: LiteralChar, text: string, from: nat, to: nat, quote: char, hex: bool)
    requires CharAt(c, text, from, to, quote, hex) && EndsInNewline(text)
    ensures from < to < |text|
  {
    var last := text[from..to][to - 1 - from];
    assert last == text[to - 1] && CharText(c)[to - 1 - from] == last;
  }

  /** The first position from `from` on that holds no digit or letter, or the end. */
  function WordEnd(text: string, from: nat): (end: nat)
    requires from <= |text|
    ensures from <= end <= |text| && (end < |text| ==> !IsWordChar(text[end]))
    ensures forall i :: from <= i < end ==> IsWordChar(text[i])
    decreases |text| - from
  {
    if from == |text| || !IsWordChar(text[from]) then from else WordEnd(text, from + 1)
  }

  /** The user-defined suffix is the identifier that stands here; a worded operator is none. */
  ghost predicate SuffixAt(suffix: string, text: string, from: nat, to: nat) {
    && from <= to <= |text| && text[from..to] == suffix
    && var end := WordEnd(text, from);
       to == if from < |text| && IsNondigit(text[from]) && !IsWorded(text[from..end]) then end else from
  }

  method ParseSuffix(state: ParsingState) returns (r: Parse<string>)
    requires state.Ok()
    modifies state
    ensures r.Thrown? <==> old(state.pos) == |state.file.text|
    ensures state.pos <= |state.file.text| && !r.NoMatch?
    ensures r.Parsed? ==> SuffixAt(r.token, state.file.text, old(state.pos), state.pos)
  {
    var saved := state.pos;
    hide IsWorded;
    var suffix := ParseIdentifierOrWorded(state);
    match suffix {
      case Thrown =>
        state.pos := saved;
        return Thrown;
      case NoMatch =>
        return Parsed("");
      case Parsed(token) =>
        assert state.pos == WordEnd(state.file.text, saved);
        if token.Identifier? {
          return Parsed(token.name);
        }
        state.pos := saved;
        return Parsed("");
    }
  }

  /** The common shape of both kinds of literal. */
  datatype Quoted = Quoted(prefix: EncodingPrefix, chars: seq<LiteralChar>, suffix: string)

  function QuotedText(q: Quoted, quote: char): string {
    PrefixText(q.prefix) + [quote] + CharsText(q.chars) + [quote] + q.suffix
  }

  /** Prefix, quote, characters, quote and suffix, one after another. */
  ghost predicate QuotedAt(q: Quoted, text: string, from: nat, to: nat, quote: char, hex: bool) {
    exists closing: nat :: QuotedTo(q, text, from, closing, to, quote, hex)
  }

  ghost predicate QuotedTo(q: Quoted, text: string, from: nat, closing: nat, to: nat, quote: char, hex: bool) {
    var first := from + |PrefixText(q.prefix)| + 1;
    && Matches(text, from, PrefixText(q.prefix) + [quote])
    && first <= closing < to <= |text| && CharsAt(q.chars, text, first, closing, quote, hex) && text[closing] == quote
    && SuffixAt(q.suffix, text, closing + 1, to)
  }

  lemma {:induction false} QuotedPieces(q: Quoted, text: string, from: nat, closing: nat, to: nat, quote: char,
          hex: bool)
    requires QuotedTo(q, text, from, closing, to, quote, hex)
    ensures from + |PrefixText(q.prefix)| + 1 <= closing < to <= |text|
    ensures CharsAt(q.chars, text, from + |PrefixText(q.prefix)| + 1, closing, quote, hex)
    ensures text[from..from + |PrefixText(q.prefix)| + 1] == PrefixText(q.prefix) + [quote]
    ensures text[closing..closing + 1] == [quote] && text[closing + 1..to] == q.suffix
  {
    hide CharsAt, WordEnd, IsWorded, PrefixText;
  }

  /** Four adjoining pieces of a text. */
  lemma {:induction false} Pieces(text: string, p0: nat, p1: nat, p2: nat, p3: nat, a: string, b: string, c: string,
          d: string)
    requires p0 <= p1 <= p2 < p3 <= |text|
    requires text[p0..p1] == a && text[p1..p2] == b && text[p2..p2 + 1] == c && text[p2 + 1..p3] == d
    ensures text[p0..p3] == a + b + c + d
  {
    assert text[p0..p3] == text[p0..p1] + text[p1..p2] + text[p2..p2 + 1] + text[p2 + 1..p3];
  }

  lemma {:induction false} QuotedToText(q: Quoted, text: string, from: nat, closing: nat, to: nat, quote: char,
          hex: bool)
    requires QuotedTo(q, text, from, closing, to, quote, hex)
    ensures from < to <= |text|
    ensures text[from..to] == PrefixText(q.prefix) + [quote] + CharsText(q.chars) + [quote] + q.suffix
  {
    hide *;
    var first := from + |PrefixText(q.prefix)| + 1;
    QuotedPieces(q, text, from, closing, to, quote, hex);
    CharsAreText(q.chars, text, first, closing, quote, hex);
    Pieces(text, from, first, closing, to, PrefixText(q.prefix) + [quote], CharsText(q.chars), [quote], q.suffix);
  }

  lemma {:induction false} QuotedIsText(q: Quoted, text: string, from: nat, to: nat, quote: char, hex: bool)
    requires QuotedAt(q, text, from, to, quote, hex)
    ensures from < to <= |text| && text[from..to] == QuotedText(q, quote)
  {
    hide QuotedTo, CharsText, PrefixText;
    var closing: nat :| QuotedTo(q, text, from, closing, to, quote, hex);
    QuotedToText(q, text, from, closing, to, quote, hex);
  }

  /** A literal begins here, and something spoils it before its closing quote. */
  ghost predicate QuotedSpoiled(text: string, pos: nat, quote: char, hex: bool) {
    exists e :: Matches(text, pos, PrefixText(e) + [quote]) && Spoiled(text, pos + |PrefixText(e)| + 1, quote, hex)
  }

  lemma {:induction false} SpoiledFrom(text: string, pos: nat, e: EncodingPrefix, quote: char, hex: bool)
    requires Matches(text, pos, PrefixText(e) + [quote]) && Spoiled(text, pos + |PrefixText(e)| + 1, quote, hex)
    ensures QuotedSpoiled(text, pos, quote, hex)
  {
  }

  lemma {:induction false} PrefixInside(file: SplicedFile, pos: nat, e: EncodingPrefix, quote: char)
    requires Valid(file) && Matches(file.text, pos, PrefixText(e) + [quote]) && quote != '\n'
    ensures pos + |PrefixText(e)| + 1 < |file.text|
  {
    hide Valid, PrefixText;
    NewLineAtEnd(file);
    var opening := PrefixText(e) + [quote];
    assert opening[|opening| - 1] == quote;
    assert file.text[pos..pos + |opening|][|opening| - 1] == file.text[pos + |opening| - 1];
  }

  lemma {:induction false} QuoteInside(file: SplicedFile, pos: nat, quote: char)
    requires Valid(file) && pos < |file.text| && file.text[pos] == quote != '\n'
    ensures pos + 1 < |file.text|
  {
    NewLineAtEnd(file);
  }

  /** The prefix and the opening quote. */
  method OpenQuoted(state: ParsingState, quote: char) returns (e: Option<EncodingPrefix>)
    requires state.Ok() && quote != '\n'
    modifies state
    ensures state.Ok() && (e.Some? <==> Opens(state.file.text, old(state.pos), [quote]))
    ensures e.None? ==> state.pos == old(state.pos)
    ensures e.Some? ==> Matches(state.file.text, old(state.pos), PrefixText(e.value) + [quote])
    ensures e.Some? ==> state.pos == old(state.pos) + |PrefixText(e.value)| + 1 < |state.file.text|
  {
    hide Opens, Matches, PrefixText, Valid;
    e := ParsePrefix(state, [quote]);
    if e.Some? {
      PrefixInside(state.file, state.pos, e.value, quote);
      state.pos := state.pos + |PrefixText(e.value)| + 1;
    }
  }

  /** The closing quote and the suffix. */
  method CloseQuoted(state: ParsingState, quote: char) returns (suffix: string)
    requires state.Ok() && state.pos < |state.file.text| && state.file.text[state.pos] == quote != '\n'
    modifies state
    ensures state.Ok() && old(state.pos) < state.pos <= |state.file.text|
    ensures SuffixAt(suffix, state.file.text, old(state.pos) + 1, state.pos)
  {
    hide SuffixAt, Valid;
    QuoteInside(state.file, state.pos, quote);
    state.pos := state.pos + 1;
    var parsed := ParseSuffix(state);
    suffix := parsed.token;
    SuffixInside(suffix, state.file.text, old(state.pos) + 1, state.pos);
  }

  /**
   * A literal is tried exactly where a prefix and the quote stand; then it either stands there, its characters and
   * escapes being those of its kind, or something spoils it before the closing quote.
   */
  method ParseQuoted(state: ParsingState, quote: char, hex: bool) returns (r: Parse<Quoted>)
    requires state.Ok() && quote != '\n'
    modifies state
    ensures state.Ok() && (r.NoMatch? ==> state.pos == old(state.pos))
    ensures r.NoMatch? <==> !Opens(state.file.text, old(state.pos), [quote])
    ensures r.Parsed? ==> QuotedAt(r.token, state.file.text, old(state.pos), state.pos, quote, hex)
    ensures r.Thrown? ==> QuotedSpoiled(state.file.text, old(state.pos), quote, hex)
  {
    hide *;
    ghost var text, from := state.file.text, state.pos;
    var e := OpenQuoted(state, quote);
    if e.None? {
      return NoMatch;
    }
    var chars := ParseLiteralChars(state, quote, hex);
    if chars.Thrown? {
      SpoiledFrom(text, from, e.value, quote, hex);
      return Thrown;
    }
    ghost var closing := state.pos;
    var suffix := CloseQuoted(state, quote);
    QuotedStands(Quoted(e.value, chars.token, suffix), text, from, closing, state.pos, quote, hex);
    return Parsed(Quoted(e.value, chars.token, suffix));
  }

  lemma {:induction false} QuotedStands(q: Quoted, text: string, from: nat, closing: nat, to: nat, quote: char,
          hex: bool)
    requires Matches(text, from, PrefixText(q.prefix) + [quote]) && closing < to <= |text| && text[closing] == quote
    requires var first := from + |PrefixText(q.prefix)| + 1;
             first <= closing && CharsAt(q.chars, text, first, closing, quote, hex)
    requires SuffixAt(q.suffix, text, closing + 1, to)
    ensures QuotedAt(q, text, from, to, quote, hex)
  {
    hide CharsAt, SuffixAt, Matches;
    assert QuotedTo(q, text, from, closing, to, quote, hex);
  }

  lemma {:induction false} SuffixInside(suffix: string, text: string, from: nat, to: nat)
    requires SuffixAt(suffix, text, from, to)
    ensures from <= to <= |text|
  {
  }

  method ParseCharacterLiteral(state: ParsingState) returns (r: Parse<Token>)
    requires state.Ok()
    modifies state
    ensures Lexed(r, state.file.text, old(state.pos), state.pos)
    ensures r.NoMatch? <==> !Opens(state.file.text, old(state.pos), "'")
    ensures r.Thrown? ==> QuotedSpoiled(state.file.text, old(state.pos), '\'', false)
    ensures r.Parsed? ==> r.token.CharacterLiteral? &&
                          QuotedAt(Quoted(r.token.prefix, r.token.chars, r.token.suffix), state.file.text,
                                   old(state.pos), state.pos, '\'', false)
  {
    hide QuotedAt, QuotedSpoiled, Opens, CharsText, PrefixText, Valid;
    var quoted := ParseQuoted(state, '\'', false);
    match quoted {
      case Thrown => return Thrown;
      case NoMatch => return NoMatch;
      case Parsed(q) =>
        QuotedIsText(q, state.file.text, old(state.pos), state.pos, '\'', false);
        return Parsed(CharacterLiteral(q.prefix, q.chars, q.suffix));
    }
  }

  method ParseStringLiteral(state: ParsingState) returns (r: Parse<Token>)
    requires state.Ok()
    modifies state
    ensures Lexed(r, state.file.text, old(state.pos), state.pos)
    ensures r.NoMatch? <==> !Opens(state.file.text, old(state.pos), "\"")
    ensures r.Thrown? ==> QuotedSpoiled(state.file.text, old(state.pos), '"', true)
    ensures r.Parsed? ==> r.token.StringLiteral? &&
                          QuotedAt(Quoted(r.token.prefix, r.token.chars, r.token.suffix), state.file.text,
                                   old(state.pos), state.pos, '"', true)
  {
    hide QuotedAt, QuotedSpoiled, Opens, CharsText, PrefixText, Valid;
    var quoted := ParseQuoted(state, '"', true);
    match quoted {
      case Thrown => return Thrown;
      case NoMatch => return NoMatch;
      case Parsed(q) =>
        QuotedIsText(q, state.file.text, old(state.pos), state.pos, '"', true);
        return Parsed(StringLiteral(q.prefix, q.chars, q.suffix));
    }
  }

  // ---- Raw string literals ----

  predicate BadDelimiterChar(c: char) {
    c == ' ' || c == '(' || c == ')' || c == '\\' || c == '\t' || c == '\U{0B}' || c == '\U{0C}' || c == '\n'
  }

  /** A raw literal between its quotes, both included. */
  function RawText(delimiter: string, payload: string): string {
    "\"" + delimiter + "(" + payload + ")" + delimiter + "\""
  }

  /** In the original, delimiter and payload stand between the quotes at `opening` and `closing`. */
  ghost predicate RawAt(s: string, opening: nat, delimiter: string, payload: string, closing: nat) {
    && opening < closing < |s| && s[opening..closing + 1] == RawText(delimiter, payload)
    && forall c :: c in delimiter ==> !BadDelimiterChar(c)
  }

  /** No closing parenthesis, delimiter and quote stand before the last ones. */
  ghost predicate ClosesFirst(s: string, opening: nat, delimiter: string, closing: nat) {
    forall j: nat :: opening + |delimiter| + 2 <= j && j + |delimiter| + 1 < closing ==>
      !Matches(s, j, ")" + delimiter + "\"")
  }

  /**
   * A raw literal from `from` to `to` of the spliced text: prefix and R, then quotes whose origins enclose, in the
   * original, exactly the delimiters and the payload, so splicing is undone between them, then the suffix.
   */
  ghost predicate RawLexed(t: Token, file: SplicedFile, from: nat, to: nat) {
    t.RawLiteral? && exists opening: nat, closing: nat :: RawBetween(t, file, from, to, opening, closing)
  }

  ghost predicate RawBetween(t: Token, file: SplicedFile, from: nat, to: nat, opening: nat, closing: nat)
    requires t.RawLiteral?
  {
    var s := file.original;
    && RawAt(s, opening, t.delimiter, t.payload, closing) && ClosesFirst(s, opening, t.delimiter, closing)
    && !Dropped(s, opening) && !Dropped(s, closing)
    && from <= Place(s, opening) < Place(s, closing) < to <= |file.text|
    && file.text[from..Place(s, opening)] == PrefixText(t.rawPrefix) + "R"
    && SuffixAt(t.rawSuffix, file.text, Place(s, closing) + 1, to)
  }

  /** A prefix, R and a quote stand here, but from the origin of the quote on the original holds no raw literal. */
  ghost predicate RawSpoiled(file: SplicedFile, from: nat) {
    exists e, opening: nat :: RawMissing(file, from, e, opening)
  }

  ghost predicate RawMissing(file: SplicedFile, from: nat, e: EncodingPrefix, opening: nat) {
    var s := file.original;
    && Matches(file.text, from, PrefixText(e) + "R\"")
    && opening < |s| && !Dropped(s, opening) && Place(s, opening) == from + |PrefixText(e)| + 1
    && forall delimiter, payload, closing: nat :: !RawAt(s, opening, delimiter, payload, closing)
  }

  lemma {:induction false} SliceOfSlice(s: string, lo: nat, hi: nat, a: nat, b: nat)
    requires lo + a <= lo + b <= hi <= |s|
    ensures s[lo..hi][a..b] == s[lo + a..lo + b]
  {
    var here, there := s[lo..hi][a..b], s[lo + a..lo + b];
    assert |here| == |there| && forall k :: 0 <= k < |here| ==> here[k] == there[k];
  }

  lemma {:induction false} RawParts(delimiter: string, payload: string)
    ensures var raw, last := RawText(delimiter, payload), ")" + delimiter + "\"";
            && |raw| == 2 + |delimiter| + |payload| + |last|
            && raw[1..1 + |delimiter|] == delimiter && raw[1 + |delimiter|] == '(' && raw[|raw| - |last|..] == last
  {
    assert RawText(delimiter, payload) == "\"" + delimiter + "(" + payload + (")" + delimiter + "\"");
  }

  lemma {:induction false} RawShape(s: string, opening: nat, delimiter: string, payload: string, closing: nat)
    requires RawAt(s, opening, delimiter, payload, closing)
    ensures var paren, ending := opening + 1 + |delimiter|, closing - 1 - |delimiter|;
            && paren < ending < |s| && s[opening + 1..paren] == delimiter && s[paren] == '(' &&
              closing == opening + |RawText(delimiter, payload)| - 1
            && (forall j :: opening < j < paren ==> s[j] != '(')
            && Matches(s, ending, ")" + delimiter + "\"")
  {
    var raw, paren, ending := RawText(delimiter, payload), opening + 1 + |delimiter|, closing - 1 - |delimiter|;
    var last := ")" + delimiter + "\"";
    var here := s[opening..closing + 1];
    hide RawText, BadDelimiterChar;
    RawParts(delimiter, payload);
    assert |here| == |raw| && closing - opening + 1 == |raw| && paren < |s|;
    SliceOfSlice(s, opening, closing + 1, 1, 1 + |delimiter|);
    assert s[paren] == here[1 + |delimiter|];
    SliceOfSlice(s, opening, closing + 1, |raw| - |last|, |raw|);
    ParenthesisIsBad();
    forall j | opening < j < paren
      ensures s[j] != '('
    {
      assert s[opening + 1..paren][j - opening - 1] == s[j];
      assert s[j] in delimiter;
    }
  }

  /** Delimiter, payload and closing quote in the original, from the position of the opening quote. */
  method ReadRaw(s: string, opening: nat) returns (r: Option<(string, string, nat)>)
    requires opening < |s| && s[opening] == '"'
    ensures r.Some? ==>
      RawAt(s, opening, r.value.0, r.value.1, r.value.2) && ClosesFirst(s, opening, r.value.0, r.value.2)
    ensures r.None? ==> forall delimiter, payload, closing: nat :: !RawAt(s, opening, delimiter, payload, closing)
  {
    forall delimiter, payload, closing: nat | RawAt(s, opening, delimiter, payload, closing)
      ensures RawFound(s, opening, delimiter)
    {
      RawIsFound(s, opening, delimiter, payload, closing);
    }
    hide FindString, Find;
    var start := opening + 1;
    var delimiterEnd := Find(s, '(', start);
    if delimiterEnd == |s| {
      return None;
    }
    var delimiter := s[start..delimiterEnd];
    if exists c :: c in delimiter && BadDelimiterChar(c) {
      return None;
    }
    var contentEnd := FindString(s, ")" + delimiter + "\"", delimiterEnd + 1);
    if contentEnd == |s| {
      return None;
    }
    var closing := contentEnd + 1 + |delimiter|;
    RawPieces(s, opening, start, delimiterEnd, contentEnd, closing);
    return Some((delimiter, s[delimiterEnd + 1..contentEnd], closing));
  }

  /** The searches for a raw literal with this delimiter succeed. */
  ghost predicate RawFound(s: string, opening: nat, delimiter: string)
    requires opening < |s|
  {
    var delimiterEnd := Find(s, '(', opening + 1);
    && delimiterEnd < |s| && delimiter == s[opening + 1..delimiterEnd] &&
      (forall c :: c in delimiter ==> !BadDelimiterChar(c))
    && FindString(s, ")" + delimiter + "\"", delimiterEnd + 1) < |s|
  }

  lemma {:induction false} RawIsFound(s: string, opening: nat, delimiter: string, payload: string, closing: nat)
    requires RawAt(s, opening, delimiter, payload, closing)
    ensures RawFound(s, opening, delimiter)
  {
    RawShape(s, opening, delimiter, payload, closing);
    hide RawText;
    assert Find(s, '(', opening + 1) == opening + 1 + |delimiter|;
    assert Matches(s, closing - 1 - |delimiter|, ")" + delimiter + "\"");
  }

  /** Tried exactly where a prefix, R and a quote stand; throws only where the original holds no raw literal there. */
  method ParseRawLiteral(state: ParsingState) returns (r: Parse<Token>)
    requires state.Ok()
    modifies state
    ensures state.Ok() && (r.NoMatch? ==> state.pos == old(state.pos))
    ensures r.NoMatch? <==> !Opens(state.file.text, old(state.pos), "R\"")
    ensures r.Parsed? ==> RawLexed(r.token, state.file, old(state.pos), state.pos)
    ensures r.Thrown? ==> RawSpoiled(state.file, old(state.pos))
  {
    hide Place, Dropped, RawAt, ClosesFirst, Opens, SuffixAt, RawSpoiled, RawMissing, RawLexed, RawBetween, PrefixText,
      Valid, Kept;
    var file, from := state.file, state.pos;
    var e := ParsePrefix(state, "R\"");
    if e.None? {
      return NoMatch;
    }
    RawStart(file, from, e.value);
    var opening := ToOrigin(file, from + |PrefixText(e.value)| + 1);
    SameCharacter(file, opening.value);
    var raw := ReadRaw(file.original, opening.value);
    if raw.None? {
      RawIsMissing(file, from, e.value, opening.value);
      return Thrown;
    }
    var (delimiter, payload, closing) := raw.value;
    QuoteKept(file, opening.value, delimiter, payload, closing);
    var resume := FromOrigin(file, closing);
    QuotePlaces(file, opening.value, closing);
    state.pos := resume.value + 1;
    var suffix := ParseSuffix(state);
    SuffixInside(suffix.token, file.text, resume.value + 1, state.pos);
    var token := RawLiteral(e.value, delimiter, payload, suffix.token);
    RawStands(token, file, from, state.pos, opening.value, closing);
    return Parsed(token);
  }

  lemma {:induction false} RawIsMissing(file: SplicedFile, from: nat, e: EncodingPrefix, opening: nat)
    requires Matches(file.text, from, PrefixText(e) + "R\"") && opening < |file.original|
    requires !Dropped(file.original, opening)
    requires Place(file.original, opening) == from + |PrefixText(e)| + 1
    requires forall delimiter, payload, closing: nat :: !RawAt(file.original, opening, delimiter, payload, closing)
    ensures RawSpoiled(file, from)
  {
    hide Place, Dropped, RawAt, Matches;
    assert RawMissing(file, from, e, opening);
  }

  lemma {:induction false} RawStands(t: Token, file: SplicedFile, from: nat, to: nat, opening: nat, closing: nat)
    requires t.RawLiteral? && opening < |file.original| && closing < |file.original|
    requires RawAt(file.original, opening, t.delimiter, t.payload, closing)
    requires ClosesFirst(file.original, opening, t.delimiter, closing)
    requires !Dropped(file.original, opening) && !Dropped(file.original, closing)
    requires from <= Place(file.original, opening) < Place(file.original, closing) < to <= |file.text|
    requires file.text[from..Place(file.original, opening)] == PrefixText(t.rawPrefix) + "R"
    requires SuffixAt(t.rawSuffix, file.text, Place(file.original, closing) + 1, to)
    ensures RawLexed(t, file, from, to)
  {
    hide Place, Dropped, SuffixAt, ClosesFirst;
    assert RawBetween(t, file, from, to, opening, closing);
  }

  /** The closing quote is no part of a splice, and it is not the last character of the spliced text. */
  lemma {:induction false} QuoteKept(file: SplicedFile, opening: nat, delimiter: string, payload: string, closing: nat)
    requires Valid(file) && RawAt(file.original, opening, delimiter, payload, closing)
    ensures opening < closing < |file.original| && !Dropped(file.original, closing)
    ensures Place(file.original, closing) + 1 < |file.text|
  {
    var raw := RawText(delimiter, payload);
    assert file.original[closing] == raw[|raw| - 1] == '"';
    NotDropped(file.original, closing);
    hide Dropped, Kept;
    SameCharacter(file, closing);
    NewLineAtEnd(file);
  }

  lemma {:induction false} NotDropped(s: string, i: nat)
    requires i < |s| && s[i] == '"'
    ensures !Dropped(s, i)
  {
  }

  /** The quote has an origin, for it is not the new-line that ends the text. */
  lemma {:induction false} RawStart(file: SplicedFile, pos: nat, e: EncodingPrefix)
    requires Valid(file) && Matches(file.text, pos, PrefixText(e) + "R\"")
    ensures var quote := pos + |PrefixText(e)| + 1;
            && quote < |Kept(file.original, |file.original|)| <= |file.text| && file.text[quote] == '"'
            && file.text[pos..quote] == PrefixText(e) + "R"
  {
    hide Kept;
    var text, opening := file.text, PrefixText(e) + "R\"";
    var here := text[pos..pos + |opening|];
    assert opening[..|opening| - 1] == PrefixText(e) + "R";
    assert text[pos..pos + |opening| - 1] == here[..|opening| - 1];
    assert here[|opening| - 1] == text[pos + |opening| - 1];
    NewLineAtEnd(file);
  }

  lemma {:induction false} SameCharacter(file: SplicedFile, op: nat)
    requires Valid(file) && op < |file.original| && !Dropped(file.original, op)
    ensures Place(file.original, op) < |file.text| && file.text[Place(file.original, op)] == file.original[op]
  {
    hide Dropped, Kept;
    PlaceKeepsOrder(file.original, op, |file.original|);
  }

  lemma {:induction false} QuotePlaces(file: SplicedFile, opening: nat, closing: nat)
    requires Valid(file) && opening < closing < |file.original|
    requires !Dropped(file.original, opening) && !Dropped(file.original, closing)
    ensures Place(file.original, opening) < Place(file.original, closing) < |file.text|
  {
    hide Dropped, Kept;
    PlaceKeepsOrder(file.original, opening, closing);
    SameCharacter(file, closing);
  }

  lemma {:induction false} RawPieces(s: string, opening: nat, start: nat, delimiterEnd: nat, contentEnd: nat,
          closing: nat)
    requires start == opening + 1 <= delimiterEnd < contentEnd < |s| && s[delimiterEnd] == '('
    requires var delimiter := s[start..delimiterEnd];
             closing == contentEnd + 1 + |delimiter| && Matches(s, contentEnd, ")" + delimiter + "\"")
    ensures closing < |s| && s[closing] == '"'
    ensures var delimiter := s[start..delimiterEnd];
            s[opening..closing + 1] == [s[opening]] + delimiter + "(" + s[delimiterEnd + 1..contentEnd] + ")" +
              delimiter + "\""
  {
    var delimiter := s[start..delimiterEnd];
    var ending := ")" + delimiter + "\"";
    assert s[contentEnd..closing + 1] == ending;
    assert ending[|delimiter| + 1] == '"';
    assert s[opening..closing + 1] == [s[opening]] + delimiter + [s[delimiterEnd]] + s[delimiterEnd + 1..contentEnd] +
      s[contentEnd..closing + 1];
  }

  // ---- What stands here stands here once ----

  lemma {:induction false} MatchesAt(text: string, pos: nat, a: string, b: string)
    requires Matches(text, pos, a + b) && b != ""
    ensures pos + |a| < |text| && text[pos + |a|] == b[0] && text[pos..pos + |a|] == a
  {
    var here := text[pos..pos + |a + b|];
    assert here[|a|] == (a + b)[|a|];
    assert here[..|a|] == (a + b)[..|a|] == a;
    assert text[pos..pos + |a|] == here[..|a|];
  }

  lemma {:induction false} PrefixOnce(text: string, pos: nat, next: string, e: EncodingPrefix, f: EncodingPrefix)
    requires next != "" && next[0] !in "u8UL"
    requires Matches(text, pos, PrefixText(e) + next) && Matches(text, pos, PrefixText(f) + next)
    ensures e == f
  {
    MatchesAt(text, pos, PrefixText(e), next);
    MatchesAt(text, pos, PrefixText(f), next);
    hide Matches;
    PrefixChars(text, pos, e);
    PrefixChars(text, pos, f);
  }

  lemma {:induction false} PrefixChars(text: string, pos: nat, e: EncodingPrefix)
    requires pos + |PrefixText(e)| < |text| && text[pos..pos + |PrefixText(e)|] == PrefixText(e)
    ensures e == SmallU8 ==> text[pos] == 'u' && text[pos + 1] == '8'
    ensures e == SmallU ==> text[pos] == 'u'
    ensures e == CapitalU ==> text[pos] == 'U'
    ensures e == CapitalL ==> text[pos] == 'L'
  {
    var here := text[pos..pos + |PrefixText(e)|];
    if e != NoPrefix {
      assert here[0] == text[pos];
    }
    if e == SmallU8 {
      assert here[1] == text[pos + 1];
    }
  }

  lemma {:induction false} HexOnce(text: string, from: nat, to: nat, end: nat)
    requires HexAt(text, from, to) && HexAt(text, from, end)
    ensures to == end
  {
    hide Matches;
  }

  /** How a character of a literal begins, by its kind. */
  lemma {:induction false} CharBegins(c: LiteralChar, text: string, from: nat, to: nat, quote: char, hex: bool)
    requires CharAt(c, text, from, to, quote, hex) && quote != '\\'
    ensures from < to <= |text| && text[from] != quote
    ensures match c
            case BasicChar(d) => text[from] == d != '\\' && to == from + 1
            case SimpleEscape(e) => text[from] == '\\' && to == from + 2 && text[from + 1] == e && e != 'x'
            case HexEscape(digits) =>
              text[from] == '\\' && from + 1 < |text| && text[from + 1] == 'x' && HexAt(text, from, to) &&
                digits == text[from..to]
  {
    hide HexDigits;
    assert text[from..to][0] == text[from];
    if c.SimpleEscape? {
      assert text[from..to][1] == text[from + 1];
    } else if c.HexEscape? {
      assert text[from..from + 2][0] == text[from] && text[from..from + 2][1] == text[from + 1];
    }
  }

  lemma {:induction false} CharOnce(c: LiteralChar, d: LiteralChar, text: string, from: nat, to: nat, end: nat,
          quote: char, hex: bool)
    requires CharAt(c, text, from, to, quote, hex) && CharAt(d, text, from, end, quote, hex) && quote != '\\'
    ensures c == d && to == end
  {
    hide CharAt, HexAt;
    CharBegins(c, text, from, to, quote, hex);
    CharBegins(d, text, from, end, quote, hex);
    if c.HexEscape? && d.HexEscape? {
      HexOnce(text, from, to, end);
    }
  }

  lemma {:induction false} CharsSameLength(a: seq<LiteralChar>, b: seq<LiteralChar>, text: string, from: nat, to: nat,
          end: nat, quote: char, hex: bool)
    requires CharsAt(a, text, from, to, quote, hex) && CharsAt(b, text, from, end, quote, hex) && |a| == |b|
    requires quote != '\\'
    ensures a == b && to == end
    decreases |a|
  {
    hide *;
    LastChar(a, text, from, to, quote, hex);
    LastChar(b, text, from, end, quote, hex);
    if a != [] {
      var n := |a| - 1;
      var p, q := to - |CharText(a[n])|, end - |CharText(b[n])|;
      CharsSameLength(a[..n], b[..n], text, from, p, q, quote, hex);
      CharOnce(a[n], b[n], text, p, to, end, quote, hex);
      assert a == a[..n] + [a[n]] && b == b[..n] + [b[n]];
    }
  }

  /** Where the first n characters end; another one follows unless they are all. */
  lemma {:induction false} CharsFront(a: seq<LiteralChar>, n: nat, text: string, from: nat, to: nat, quote: char,
          hex: bool)
    returns (p: nat, next: nat)
    requires CharsAt(a, text, from, to, quote, hex) && n <= |a|
    ensures CharsAt(a[..n], text, from, p, quote, hex)
    ensures if n == |a| then p == to else CharAt(a[n], text, p, next, quote, hex)
    decreases |a|
  {
    hide *;
    if n == |a| {
      p, next := to, to;
      assert a[..n] == a;
    } else {
      LastChar(a, text, from, to, quote, hex);
      var last := |a| - 1;
      var mid := to - |CharText(a[last])|;
      assert a[..last][..n] == a[..n];
      p, next := CharsFront(a[..last], n, text, from, mid, quote, hex);
      if n == last {
        next := to;
      }
    }
  }

  /** A literal's characters up to its closing quote are the only ones, and nothing spoils them. */
  lemma {:induction false} CharsOnce(a: seq<LiteralChar>, b: seq<LiteralChar>, text: string, from: nat, to: nat,
          end: nat, quote: char, hex: bool)
    requires CharsAt(a, text, from, to, quote, hex) && to < |text| && text[to] == quote != '\\'
    requires CharsAt(b, text, from, end, quote, hex)
    requires (end < |text| && text[end] == quote) || NoChar(text, end, quote, hex)
    ensures a == b && to == end
  {
    hide CharsAt, CharAt;
    var n := if |a| < |b| then |a| else |b|;
    var p, next := CharsFront(a, n, text, from, to, quote, hex);
    var q, more := CharsFront(b, n, text, from, end, quote, hex);
    CharsSameLength(a[..n], b[..n], text, from, p, q, quote, hex);
    if n < |b| {
      CharBegins(b[n], text, q, more, quote, hex);
    } else if n < |a| {
      CharBegins(a[n], text, p, next, quote, hex);
    } else {
      assert a[..n] == a && b[..n] == b;
    }
  }

  lemma {:induction false} QuotedOnce(q: Quoted, r: Quoted, text: string, from: nat, to: nat, end: nat, quote: char,
          hex: bool)
    requires QuotedAt(q, text, from, to, quote, hex) && QuotedAt(r, text, from, end, quote, hex)
    requires quote == '\'' || quote == '"'
    ensures q == r && to == end
  {
    hide CharsAt, Matches, PrefixText, WordEnd, IsWorded;
    var c: nat :| QuotedTo(q, text, from, c, to, quote, hex);
    var d: nat :| QuotedTo(r, text, from, d, end, quote, hex);
    PrefixOnce(text, from, [quote], q.prefix, r.prefix);
    CharsOnce(q.chars, r.chars, text, from + |PrefixText(q.prefix)| + 1, c, d, quote, hex);
  }

  lemma {:induction false} QuotedNotSpoiled(q: Quoted, text: string, from: nat, to: nat, quote: char, hex: bool)
    requires QuotedAt(q, text, from, to, quote, hex) && (quote == '\'' || quote == '"')
    ensures !QuotedSpoiled(text, from, quote, hex)
  {
    hide CharsAt, PrefixText, SuffixAt, NoChar;
    if QuotedSpoiled(text, from, quote, hex) {
      var c: nat :| QuotedTo(q, text, from, c, to, quote, hex);
      assert text[c..c + 1] == [quote];
      var e :| Matches(text, from, PrefixText(e) + [quote]) && Spoiled(text, from + |PrefixText(e)| + 1, quote, hex);
      PrefixOnce(text, from, [quote], q.prefix, e);
      var chars, at: nat :| CharsAt(chars, text, from + |PrefixText(e)| + 1, at, quote, hex) &&
        !Matches(text, at, [quote]) && NoChar(text, at, quote, hex);
      CharsOnce(q.chars, chars, text, from + |PrefixText(e)| + 1, c, at, quote, hex);
      assert false;
    }
  }

  /** From the quote at `opening` on, the original holds one raw literal at most. */
  lemma {:induction false} RawAtOnce(s: string, opening: nat, d: string, p: string, c: nat, e: string, q: string,
          f: nat)
    requires RawAt(s, opening, d, p, c) && ClosesFirst(s, opening, d, c)
    requires RawAt(s, opening, e, q, f) && ClosesFirst(s, opening, e, f)
    ensures d == e && p == q && c == f
  {
    RawShape(s, opening, d, p, c);
    RawShape(s, opening, e, q, f);
    hide RawText, Matches, BadDelimiterChar;
    assert d == e;
    assert c == f;
    assert |RawText(d, p)| == |RawText(d, q)|;
    RawPayload(d, p, q);
  }

  lemma {:induction false} RawPayload(d: string, p: string, q: string)
    requires RawText(d, p) == RawText(d, q)
    ensures p == q
  {
    var a, b := RawText(d, p), RawText(d, q);
    assert |a| == 2 * |d| + |p| + 4 && |b| == 2 * |d| + |q| + 4;
    assert a[|d| + 2..|d| + 2 + |p|] == p && b[|d| + 2..|d| + 2 + |q|] == q;
  }

  /** The origin of the opening quote is where the prefix and R put it. */
  lemma {:induction false} RawOpening(t: Token, file: SplicedFile, from: nat, to: nat, opening: nat, closing: nat)
    requires Valid(file) && t.RawLiteral? && RawBetween(t, file, from, to, opening, closing)
    ensures Matches(file.text, from, PrefixText(t.rawPrefix) + "R\"")
    ensures opening < |file.original| && Place(file.original, opening) == from + |PrefixText(t.rawPrefix)| + 1
  {
    hide Place, Dropped, ClosesFirst, SuffixAt, PrefixText, Matches;
    var raw := RawText(t.delimiter, t.payload);
    assert file.original[opening..closing + 1][0] == raw[0];
    SameCharacter(file, opening);
    var place, front := Place(file.original, opening), PrefixText(t.rawPrefix) + "R";
    assert |file.text[from..place]| == |front|;
    QuoteMatches(file.text, from, place, front, t.rawPrefix);
  }

  lemma {:induction false} QuoteMatches(text: string, from: nat, place: nat, front: string, e: EncodingPrefix)
    requires from <= place < |text| && text[from..place] == front == PrefixText(e) + "R" && text[place] == '"'
    ensures Matches(text, from, PrefixText(e) + "R\"")
  {
    assert text[from..place + 1] == text[from..place] + [text[place]];
    assert PrefixText(e) + "R\"" == (PrefixText(e) + "R") + "\"";
  }

  lemma {:induction false} RawOnce(t: Token, u: Token, file: SplicedFile, from: nat, to: nat, end: nat)
    requires Valid(file) && RawLexed(t, file, from, to) && RawLexed(u, file, from, end)
    ensures t == u && to == end
  {
    hide Place, Dropped, RawAt, ClosesFirst, PrefixText, Matches, WordEnd, IsWorded, Valid;
    var a: nat, c: nat :| RawBetween(t, file, from, to, a, c);
    var b: nat, d: nat :| RawBetween(u, file, from, end, b, d);
    RawOpening(t, file, from, to, a, c);
    RawOpening(u, file, from, end, b, d);
    PrefixOnce(file.text, from, "R\"", t.rawPrefix, u.rawPrefix);
    PlaceIsInjective(file.original, a, b);
    RawAtOnce(file.original, a, t.delimiter, t.payload, c, u.delimiter, u.payload, d);
  }

  lemma {:induction false} RawNotSpoiled(t: Token, file: SplicedFile, from: nat, to: nat)
    requires Valid(file) && RawLexed(t, file, from, to)
    ensures !RawSpoiled(file, from)
  {
    hide Place, Dropped, RawAt, ClosesFirst, PrefixText, Matches, SuffixAt, Valid;
    if RawSpoiled(file, from) {
      var a: nat, c: nat :| RawBetween(t, file, from, to, a, c);
      var e, b: nat :| RawMissing(file, from, e, b);
      RawOpening(t, file, from, to, a, c);
      PrefixOnce(file.text, from, "R\"", t.rawPrefix, e);
      PlaceIsInjective(file.original, a, b);
      assert false;
    }
  }

  lemma {:induction false} ParenthesisIsBad()
    ensures BadDelimiterChar('(')
  {
  }

  /** What is printed for a raw literal: prefix, R and suffix of the spliced text, and between them the original. */
  ghost predicate PrintsOriginal(t: Token, file: SplicedFile, from: nat, to: nat, opening: nat, closing: nat) {
    var s := file.original;
    && opening < closing < |s| && !Dropped(s, opening) && !Dropped(s, closing) && s[opening] == '"' && s[closing] == '"'
    && from <= Place(s, opening) < Place(s, closing) < to <= |file.text|
    && Spelling(t) ==
       file.text[from..Place(s, opening)] + s[opening..closing + 1] + file.text[Place(s, closing) + 1..to]
  }

  /** Printing a raw literal undoes the splicing between its quotes. */
  lemma {:induction false} RawPrintsOriginal(t: Token, file: SplicedFile, from: nat, to: nat)
    requires RawLexed(t, file, from, to)
    ensures exists opening: nat, closing: nat :: PrintsOriginal(t, file, from, to, opening, closing)
  {
    hide Place, Dropped, ClosesFirst;
    var opening: nat, closing: nat :| RawBetween(t, file, from, to, opening, closing);
    var raw, s := RawText(t.delimiter, t.payload), file.original;
    assert s[opening..closing + 1] == raw;
    assert s[opening] == raw[0] == '"' && s[closing] == raw[|raw| - 1] == '"' by {
      assert s[opening..closing + 1][0] == raw[0] && s[opening..closing + 1][|raw| - 1] == raw[|raw| - 1];
    }
    RawSpelling(t.rawPrefix, t.delimiter, t.payload, t.rawSuffix);
    assert PrintsOriginal(t, file, from, to, opening, closing);
  }

  lemma {:induction false} RawSpelling(e: EncodingPrefix, delimiter: string, payload: string, suffix: string)
    ensures Spelling(RawLiteral(e, delimiter, payload, suffix)) ==
            (PrefixText(e) + "R") + RawText(delimiter, payload) + suffix
  {
    hide PrefixText;
    var a, b := Spelling(RawLiteral(e, delimiter, payload, suffix)),
                (PrefixText(e) + "R") + RawText(delimiter, payload) + suffix;
    assert |a| == |b|;
    assert a == b;
  }
}
