/** Preprocessing tokens and their spelling. */
module PpTokens {

  datatype EncodingPrefix = NoPrefix | SmallU8 | SmallU | CapitalU | CapitalL

  datatype LiteralChar = BasicChar(c: char) | SimpleEscape(escaped: char) | HexEscape(digits: string)

  datatype Token =
    | RawLiteral(rawPrefix: EncodingPrefix, delimiter: string, payload: string, rawSuffix: string)
    | OpOrPunc(kind: string)
    | SingleLineComment(lineComment: string)
    | MultiLineComment(comment: string)
    | NewLine
    | Whitespace(space: string)
    | Identifier(name: string)
    | CharacterLiteral(prefix: EncodingPrefix, chars: seq<LiteralChar>, suffix: string)
    | PpNumber(number: string)
    | HeaderName(header: string)
    | StringLiteral(prefix: EncodingPrefix, chars: seq<LiteralChar>, suffix: string)

  const PREFIXES: seq<EncodingPrefix> := [NoPrefix, SmallU8, SmallU, CapitalU, CapitalL]

  function PrefixText(e: EncodingPrefix): string {
    match e
    case NoPrefix => ""
    case SmallU8 => "u8"
    case SmallU => "u"
    case CapitalU => "U"
    case CapitalL => "L"
  }

  function CharText(c: LiteralChar): string {
    match c
    case BasicChar(c) => [c]
    case SimpleEscape(e) => ['\\', e]
    case HexEscape(digits) => digits
  }

  function CharsText(chars: seq<LiteralChar>): string {
    if chars == [] then "" else CharsText(chars[..|chars| - 1]) + CharText(chars[|chars| - 1])
  }

  /** reserialize */
  function Spelling(t: Token): string {
    match t
    case RawLiteral(e, delimiter, payload, suffix) => PrefixText(e) + "R\"" + delimiter + "(" + payload + ")" +
      delimiter + "\"" + suffix
    case OpOrPunc(kind) => kind
    case SingleLineComment(text) => text
    case MultiLineComment(text) => text
    case NewLine => "\n"
    case Whitespace(text) => text
    case Identifier(text) => text
    case CharacterLiteral(e, chars, suffix) => PrefixText(e) + "'" + CharsText(chars) + "'" + suffix
    case PpNumber(text) => text
    case HeaderName(text) => text
    case StringLiteral(e, chars, suffix) => PrefixText(e) + "\"" + CharsText(chars) + "\"" + suffix
  }

  function Spellings(tokens: seq<Token>): string {
    if tokens == [] then "" else Spellings(tokens[..|tokens| - 1]) + Spelling(tokens[|tokens| - 1])
  }

  // ---- Contexts of header names ----

  predicate Skippable(t: Token) { t.Whitespace? || t.SingleLineComment? || t.MultiLineComment? }

  function Significant(tokens: seq<Token>): seq<Token> {
    if tokens == [] then []
    else
      var last := tokens[|tokens| - 1];
      Significant(tokens[..|tokens| - 1]) + if Skippable(last) then [] else [last]
  }

  /**
   * When tokens_ends_with says yes: the significant tokens end in the context; or they are all of the context but
   * a leading new-line, and the file does not begin with one of them.
   */
  predicate EndsIn(tokens: seq<Token>, context: seq<Token>)
    requires context != []
  {
    var significant := Significant(tokens);
    || (|context| <= |significant| && significant[|significant| - |context|..] == context)
    || (context[0] == NewLine && significant == context[1..] && tokens != [] && Skippable(tokens[0]))
  }

  lemma {:induction false} SignificantTo(tokens: seq<Token>, it: nat)
    requires it < |tokens|
    ensures Significant(tokens[..it + 1]) == Significant(tokens[..it]) +
      if Skippable(tokens[it]) then [] else [tokens[it]]
    ensures it == 0 ==> Significant(tokens[..it]) == []
  {
    assert tokens[..it + 1][..it] == tokens[..it];
  }

  lemma {:induction false} EndsHere(tokens: seq<Token>, before: seq<Token>, context: seq<Token>)
    requires context != [] && Significant(tokens) == before + context
    ensures EndsIn(tokens, context)
  {
    assert (before + context)[|before|..] == context;
  }

  /** From index + 1 on the context is what the tokens behind `it` amount to. */
  ghost predicate Matched(tokens: seq<Token>, it: nat, context: seq<Token>, index: nat) {
    it < |tokens| && index < |context| && Significant(tokens) == Significant(tokens[..it + 1]) + context[index + 1..]
  }

  lemma {:induction false} NothingMatched(tokens: seq<Token>, context: seq<Token>)
    requires tokens != [] && context != []
    ensures Matched(tokens, |tokens| - 1, context, |context| - 1)
  {
    assert tokens[..|tokens|] == tokens;
  }

  /** The first token is skippable, and so nothing is left. */
  lemma {:induction false} OnlySkippable(tokens: seq<Token>, context: seq<Token>, index: nat)
    requires Matched(tokens, 0, context, index) && Skippable(tokens[0])
    ensures EndsIn(tokens, context) <==> index == 0 && context[0] == NewLine
  {
    SignificantTo(tokens, 0);
    hide Significant;
  }

  lemma {:induction false} AnotherToken(tokens: seq<Token>, it: nat, context: seq<Token>, index: nat)
    requires Matched(tokens, it, context, index) && !Skippable(tokens[it]) && tokens[it] != context[index]
    ensures !EndsIn(tokens, context)
  {
    SignificantTo(tokens, it);
    hide Significant;
    assert Significant(tokens)[|Significant(tokens[..it])|] == tokens[it];
  }

  lemma {:induction false} SameToken(tokens: seq<Token>, it: nat, context: seq<Token>, index: nat)
    requires Matched(tokens, it, context, index) && !Skippable(tokens[it]) && tokens[it] == context[index]
    ensures index == 0 ==> EndsIn(tokens, context)
    ensures index > 0 && it == 0 ==> !EndsIn(tokens, context)
    ensures index > 0 && it > 0 ==> Matched(tokens, it - 1, context, index - 1)
  {
    SignificantTo(tokens, it);
    hide Significant;
    var before := Significant(tokens[..it]);
    assert [tokens[it]] + context[index + 1..] == context[index..];
    assert Significant(tokens) == before + context[index..];
    if index == 0 {
      EndsHere(tokens, before, context);
    }
  }

  method TokensEndWith(tokens: seq<Token>, context: seq<Token>) returns (yes: bool)
    requires context != []
    ensures yes <==> EndsIn(tokens, context)
  {
    if tokens == [] {
      return false;
    }
    hide *;
    var it := |tokens| - 1;
    var index: int := |context| - 1;
    NothingMatched(tokens, context);
    while index >= 0
      invariant -1 <= index < |context| && 0 <= it < |tokens|
      invariant if index >= 0 then Matched(tokens, it, context, index) else EndsIn(tokens, context)
    {
      it := SkipBack(tokens, it, context, index);
      if Skippable(tokens[it]) {
        OnlySkippable(tokens, context, index);
        return index == 0 && context[0] == NewLine;
      }
      if tokens[it] != context[index] {
        AnotherToken(tokens, it, context, index);
        return false;
      }
      SameToken(tokens, it, context, index);
      if index != 0 {
        if it == 0 {
          return false;
        }
        it := it - 1;
      }
      index := index - 1;
    }
    return true;
  }

  /** The inner loop: back over whitespace and comments, but not past the first token. */
  method SkipBack(tokens: seq<Token>, from: nat, ghost context: seq<Token>, ghost index: nat) returns (it: nat)
    requires Matched(tokens, from, context, index)
    ensures it <= from < |tokens| && Matched(tokens, it, context, index)
    ensures Skippable(tokens[it]) ==> it == 0
  {
    it := from;
    while Skippable(tokens[it]) && it > 0
      invariant it <= from && Matched(tokens, it, context, index)
    {
      SignificantTo(tokens, it);
      it := it - 1;
    }
  }

  /** A directive on the first line is recognised only if something skippable stands before it. */
  lemma {:induction false} FirstLineDirective(tokens: seq<Token>, directive: seq<Token>)
    requires tokens != [] && Significant(tokens) == directive && NewLine !in directive
    ensures EndsIn(tokens, [NewLine] + directive) <==> Skippable(tokens[0])
  {
  }

  /** Without anything before it, an include directive that begins a file is missed; after a blank it is not. */
  lemma {:induction false} FirstLineExample()
    ensures var line := [OpOrPunc("#"), Identifier("include")];
            var context := [NewLine] + line;
            !EndsIn(line, context) && EndsIn([Whitespace(" ")] + line, context)
  {
    var blank, hash, word := Whitespace(" "), OpOrPunc("#"), Identifier("include");
    SignificantOf2(hash, word);
    SignificantOf3(blank, hash, word);
    hide *;
    FirstLineDirective([hash, word], [hash, word]);
    FirstLineDirective([blank, hash, word], [hash, word]);
    assert [blank] + [hash, word] == [blank, hash, word];
    BlankIsSkippable();
  }

  lemma {:induction false} BlankIsSkippable()
    ensures Skippable(Whitespace(" ")) && !Skippable(OpOrPunc("#"))
  {
  }

  lemma {:induction false} SignificantOf2(a: Token, b: Token)
    requires !Skippable(a) && !Skippable(b)
    ensures Significant([a, b]) == [a, b]
  {
    assert [a, b][..1] == [a] && [a][..0] == [];
    assert Significant([a]) == [a];
  }

  lemma {:induction false} SignificantOf3(s: Token, a: Token, b: Token)
    requires Skippable(s) && !Skippable(a) && !Skippable(b)
    ensures Significant([s, a, b]) == [a, b]
  {
    assert [s, a, b][..2] == [s, a] && [s, a][..1] == [s] && [s][..0] == [];
    assert Significant([s]) == [];
    assert Significant([s, a]) == [a];
  }
}
