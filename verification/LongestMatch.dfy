/** The tokens are the longest ones: what else could be read at the place of a token ends before it. */
module LongestMatch {
  import opened Splicing
  import opened SplicedFiles
  import opened PpTokens
  import opened Lexer
  import opened Literals
  import opened TopLevel
  import opened Wrappers

  // ---- What could be read at a place ----

  ghost predicate WordRun(text: string, from: nat, end: nat) {
    from <= end <= |text| && forall i :: from <= i < end ==> IsWordChar(text[i])
  }

  /** From // to the end of the line. */
  ghost predicate LineCommentAt(text: string, from: nat, end: nat) {
    && Matches(text, from, "//") && from < end < |text| && text[end] == '\n'
    && forall i :: from <= i < end ==> text[i] != '\n'
  }

  /** From the opening mark to the first closing mark behind it. */
  ghost predicate BlockCommentAt(text: string, from: nat, end: nat) {
    && Matches(text, from, "/*") && from + 4 <= end <= |text| && Matches(text, end - 2, "*/")
    && forall j: nat :: from + 2 <= j < end - 2 ==> !Matches(text, j, "*/")
  }

  /**
   * The text from `from` to `end` is spelled like u and could be read as u, whatever else could be read there: a
   * comment, a new-line, a run of blanks, a pp-number of the grammar, an entry of the table of operators, a run of word
   * characters, or a literal. Header names, which only some contexts admit, are not among them.
   */
  ghost predicate Reads(u: Token, file: SplicedFile, from: nat, end: nat) {
    && from < end <= |file.text|
    && (u.RawLiteral? || file.text[from..end] == Spelling(u))
    && var text := file.text;
       match u
       case SingleLineComment(_) => LineCommentAt(text, from, end)
       case MultiLineComment(_) => BlockCommentAt(text, from, end)
       case NewLine => true
       case Whitespace(_) => forall i :: from <= i < end ==> IsBlank(text[i])
       case PpNumber(_) => NumberSpan(text, from, end)
       case OpOrPunc(k) => k in SYMBOLIC || (IsNondigit(text[from]) && WordRun(text, from, end) && IsWorded(k))
       case Identifier(x) => IsNondigit(text[from]) && WordRun(text, from, end) && !IsWorded(x)
       case RawLiteral(_, _, _, _) => RawLexed(u, file, from, end)
       case CharacterLiteral(e, chars, suffix) => QuotedAt(Quoted(e, chars, suffix), text, from, end, '\'', false)
       case StringLiteral(e, chars, suffix) => QuotedAt(Quoted(e, chars, suffix), text, from, end, '"', true)
       case HeaderName(_) => false
  }

  // ---- How the entries of the table begin ----

  /** No letter, digit, blank or quote begins an operator, and few begin with a slash or a dot. */
  predicate Begins(op: string) {
    && op != ""
    && !IsWordChar(op[0]) && !IsBlank(op[0]) && op[0] != '\n' && op[0] != '\'' && op[0] != '"'
    && (op[0] == '/' ==> op == "/" || op == "/=")
    && (op[0] == '.' && |op| > 1 ==> op[1] == '.' || op[1] == '*')
  }

  ghost predicate AllBegin(ops: seq<string>) {
    forall i :: 0 <= i < |ops| ==> Begins(ops[i])
  }

  lemma {:induction false} Begin4()
    ensures AllBegin(SIZE4) && AllBegin(SIZE3)
  {
  }

  lemma {:induction false} Begin2()
    ensures AllBegin(SIZE2)
  {
  }

  lemma {:induction false} Begin1()
    ensures AllBegin(SIZE1)
  {
  }

  lemma {:induction false} OperatorsBegin(op: string)
    requires op in SYMBOLIC
    ensures Begins(op)
  {
    Begin4();
    Begin2();
    Begin1();
    hide Begins, SIZE4, SIZE3, SIZE2, SIZE1;
    assert op in SIZE4 || op in SIZE3 || op in SIZE2 || op in SIZE1;
  }

  // ---- How a reading begins ----

  /** Behind the word characters from `from` on stands a quote. */
  ghost predicate QuoteBehind(text: string, from: nat, k: nat, quote: char) {
    WordRun(text, from, k) && k < |text| && text[k] == quote && (quote == '\'' || quote == '"')
  }

  lemma {:induction false} OneQuoteBehind(text: string, from: nat, k: nat, quote: char, m: nat, other: char)
    requires QuoteBehind(text, from, k, quote) && QuoteBehind(text, from, m, other)
    ensures k == m && quote == other
  {
    assert !IsWordChar('\'') && !IsWordChar('"');
  }

  lemma {:induction false} PrefixIsWord(text: string, from: nat, e: EncodingPrefix)
    requires from + |PrefixText(e)| <= |text| && text[from..from + |PrefixText(e)|] == PrefixText(e)
    ensures WordRun(text, from, from + |PrefixText(e)|)
  {
    forall i | from <= i < from + |PrefixText(e)|
      ensures IsWordChar(text[i])
    {
      assert text[i] == text[from..from + |PrefixText(e)|][i - from];
    }
  }

  lemma {:induction false} QuotedOpens(text: string, from: nat, e: EncodingPrefix, quote: char)
    requires Matches(text, from, PrefixText(e) + [quote]) && (quote == '\'' || quote == '"')
    ensures QuoteBehind(text, from, from + |PrefixText(e)|, quote)
    ensures text[from..from + |PrefixText(e)|] == PrefixText(e)
  {
    MatchesAt(text, from, PrefixText(e), [quote]);
    PrefixIsWord(text, from, e);
  }

  lemma {:induction false} RawOpens(text: string, from: nat, e: EncodingPrefix)
    requires Matches(text, from, PrefixText(e) + "R\"")
    ensures QuoteBehind(text, from, from + |PrefixText(e)| + 1, '"')
    ensures text[from..from + |PrefixText(e)| + 1] == PrefixText(e) + "R"
  {
    var p := PrefixText(e);
    MatchesAt(text, from, p, "R\"");
    PrefixIsWord(text, from, e);
    assert p + "R\"" == (p + "R") + "\"";
    MatchesAt(text, from, p + "R", "\"");
    assert text[from + |p|] == 'R';
  }

  /** A prefix is never a prefix and R. */
  lemma {:induction false} RawIsNoText(e: EncodingPrefix, f: EncodingPrefix)
    ensures PrefixText(e) != PrefixText(f) + "R"
  {
    var p, q := PrefixText(e), PrefixText(f) + "R";
    assert q[|q| - 1] == 'R';
    assert forall i :: 0 <= i < |p| ==> p[i] != 'R';
  }

  lemma {:induction false} QuotedReads(q: Quoted, text: string, from: nat, to: nat, quote: char, hex: bool)
    requires QuotedAt(q, text, from, to, quote, hex) && (quote == '\'' || quote == '"')
    ensures Opens(text, from, [quote])
    ensures var k := from + |PrefixText(q.prefix)|;
            QuoteBehind(text, from, k, quote) && text[from..k] == PrefixText(q.prefix) && k < to
  {
    hide CharsAt, SuffixAt, PrefixText;
    var closing: nat :| QuotedTo(q, text, from, closing, to, quote, hex);
    QuotedOpens(text, from, q.prefix, quote);
  }

  lemma {:induction false} RawReads(t: Token, file: SplicedFile, from: nat, to: nat)
    requires Valid(file) && RawLexed(t, file, from, to)
    ensures Opens(file.text, from, "R\"")
    ensures var k := from + |PrefixText(t.rawPrefix)| + 1;
            QuoteBehind(file.text, from, k, '"') && file.text[from..k] == PrefixText(t.rawPrefix) + "R" && k < to
  {
    hide Valid, Place, Dropped, RawAt, ClosesFirst, SuffixAt, PrefixText;
    var opening: nat, closing: nat :| RawBetween(t, file, from, to, opening, closing);
    RawOpening(t, file, from, to, opening, closing);
    RawOpens(file.text, from, t.rawPrefix);
  }

  /** The first character of what is read. */
  ghost predicate Fits(u: Token, text: string, from: nat, end: nat) {
    && from < end <= |text|
    && var c := text[from];
       match u
       case SingleLineComment(_) => Matches(text, from, "//")
       case MultiLineComment(_) => Matches(text, from, "/*")
       case NewLine => c == '\n'
       case Whitespace(_) => IsBlank(c)
       case PpNumber(_) => NumberHere(text, from) && (IsDigit(c) || c == '.')
       case OpOrPunc(k) => (k in SYMBOLIC && Begins(k) && Matches(text, from, k) && c == k[0]) || IsNondigit(c)
       case Identifier(_) => IsNondigit(c)
       case RawLiteral(_, _, _, _) => Opens(text, from, "R\"") && exists k: nat :: QuoteBehind(text, from, k, '"')
       case CharacterLiteral(_, _, _) => Opens(text, from, "'") && exists k: nat :: QuoteBehind(text, from, k, '\'')
       case StringLiteral(_, _, _) => Opens(text, from, "\"") && exists k: nat :: QuoteBehind(text, from, k, '"')
       case HeaderName(_) => false
  }

  lemma {:induction false} ReadingFits(u: Token, file: SplicedFile, from: nat, end: nat)
    requires Valid(file) && Reads(u, file, from, end)
    ensures Fits(u, file.text, from, end)
  {
    var text := file.text;
    hide Valid, RawLexed, QuotedAt, SYMBOLIC, IsWorded, Opens;
    match u
    case PpNumber(_) => NumberStarts(text, from, end);
    case OpOrPunc(k) =>
      if k in SYMBOLIC {
        OperatorsBegin(k);
        assert text[from..end][0] == k[0];
      }
    case RawLiteral(_, _, _, _) => RawReads(u, file, from, end);
    case CharacterLiteral(e, chars, suffix) =>
      QuotedReads(Quoted(e, chars, suffix), text, from, end, '\'', false);
      assert ['\''] == "'";
    case StringLiteral(e, chars, suffix) =>
      QuotedReads(Quoted(e, chars, suffix), text, from, end, '"', true);
      assert ['"'] == "\"";
    case NewLine => assert text[from..end][0] == '\n';
    case _ =>
  }

  // ---- Each alternative beats what else could be read ----

  /** u ends before t does, or is t. */
  ghost predicate Beats(t: Token, to: nat, u: Token, end: nat) {
    end < to || (end == to && u == t)
  }

  /** What is read behind a character that is no letter. */
  lemma {:induction false} FirstCharacter(u: Token, text: string, from: nat, end: nat)
    requires Fits(u, text, from, end) && !IsWordChar(text[from])
    ensures var c := text[from];
            match u
            case SingleLineComment(_) => c == '/'
            case MultiLineComment(_) => c == '/'
            case NewLine => c == '\n'
            case Whitespace(_) => IsBlank(c)
            case PpNumber(_) => c == '.'
            case OpOrPunc(k) => k in SYMBOLIC && Begins(k) && Matches(text, from, k) && c == k[0]
            case CharacterLiteral(_, _, _) => c == '\''
            case StringLiteral(_, _, _) => c == '"'
            case _ => false
  {
    hide SYMBOLIC, Begins, NumberHere;
    match u
    case SingleLineComment(_) => assert text[from..from + 2][0] == '/';
    case MultiLineComment(_) => assert text[from..from + 2][0] == '/';
    case RawLiteral(_, _, _, _) => RawBeginsWithLetter(text, from);
    case CharacterLiteral(_, _, _) => var k: nat :| QuoteBehind(text, from, k, '\'');
    case StringLiteral(_, _, _) => var k: nat :| QuoteBehind(text, from, k, '"');
    case _ =>
  }

  lemma {:induction false} RawBeginsWithLetter(text: string, from: nat)
    requires Opens(text, from, "R\"")
    ensures from < |text| && IsNondigit(text[from])
  {
    var e :| Matches(text, from, PrefixText(e) + "R\"");
    RawOpens(text, from, e);
    var front := PrefixText(e) + "R";
    assert text[from] == text[from..from + |front|][0] == front[0];
  }

  /** What is read behind a letter or underscore. */
  lemma {:induction false} FirstLetter(u: Token, text: string, from: nat, end: nat)
    requires Fits(u, text, from, end) && IsNondigit(text[from])
    ensures u.OpOrPunc? || u.Identifier? || u.RawLiteral? || u.CharacterLiteral? || u.StringLiteral?
  {
    hide SYMBOLIC, Begins, NumberHere, QuoteBehind, Opens;
  }

  // ---- Comments and blanks ----

  lemma {:induction false} TwoCharacters(text: string, from: nat, op: string)
    requires Matches(text, from, op) && |op| == 2
    ensures from + 2 <= |text| && text[from] == op[0] && text[from + 1] == op[1]
  {
    assert text[from..from + 2][0] == op[0] && text[from..from + 2][1] == op[1];
  }

  /** What is read at a slash. */
  lemma {:induction false} SlashReads(u: Token, file: SplicedFile, from: nat, end: nat)
    requires Valid(file) && Reads(u, file, from, end) && file.text[from] == '/'
    ensures || (u.SingleLineComment? && LineCommentAt(file.text, from, end))
            || (u.MultiLineComment? && BlockCommentAt(file.text, from, end))
            || (u == OpOrPunc("/") && end == from + 1)
            || (u == OpOrPunc("/=") && end == from + 2 && file.text[from + 1] == '=')
  {
    ReadingFits(u, file, from, end);
    FirstCharacter(u, file.text, from, end);
    hide Valid, Fits, SYMBOLIC, LineCommentAt, BlockCommentAt, RawLexed, QuotedAt, NumberSpan, WordRun;
    if u == OpOrPunc("/=") {
      assert |file.text[from..end]| == 2;
      TwoCharacters(file.text, from, "/=");
    } else if u == OpOrPunc("/") {
      assert |file.text[from..end]| == 1;
    }
  }

  lemma {:induction false} LineCommentBeats(t: Token, u: Token, file: SplicedFile, from: nat, to: nat, end: nat)
    requires Valid(file) && Spelled(LineComment, t, file, from, to) && Reads(u, file, from, end)
    requires Matches(file.text, from, "//")
    ensures Beats(t, to, u, end)
  {
    TwoCharacters(file.text, from, "//");
    SlashReads(u, file, from, end);
    hide Valid, RawLexed, QuotedAt, SYMBOLIC, BlockCommentAt;
    if u.MultiLineComment? {
      SlashStar(file.text, from, end);
    }
  }

  lemma {:induction false} SlashStar(text: string, from: nat, end: nat)
    requires BlockCommentAt(text, from, end)
    ensures from + 2 <= |text| && text[from] == '/' && text[from + 1] == '*'
  {
    TwoCharacters(text, from, "/*");
  }

  lemma {:induction false} BlockCommentBeats(t: Token, u: Token, file: SplicedFile, from: nat, to: nat, end: nat)
    requires Valid(file) && Spelled(BlockComment, t, file, from, to) && Reads(u, file, from, end)
    requires Matches(file.text, from, "/*")
    ensures Beats(t, to, u, end)
  {
    TwoCharacters(file.text, from, "/*");
    SlashReads(u, file, from, end);
    hide Valid, RawLexed, QuotedAt, SYMBOLIC, LineCommentAt, Matches;
    if u.SingleLineComment? {
      SlashSlash(file.text, from, end);
    }
  }

  lemma {:induction false} SlashSlash(text: string, from: nat, end: nat)
    requires LineCommentAt(text, from, end)
    ensures from + 2 <= |text| && text[from] == '/' && text[from + 1] == '/'
  {
    TwoCharacters(text, from, "//");
  }

  lemma {:induction false} BlankBeats(t: Token, u: Token, file: SplicedFile, from: nat, to: nat, end: nat)
    requires Valid(file) && Spelled(Blank, t, file, from, to) && Reads(u, file, from, end)
    requires from < |file.text| && IsBlank(file.text[from])
    ensures Beats(t, to, u, end)
  {
    hide *;
    BlankIsNoLetter(file.text[from]);
    ReadingFits(u, file, from, end);
    FirstCharacter(u, file.text, from, end);
    BlankCharacter(u, file.text, from, end);
    OnlyBlanks(t, u, file, from, to, end);
  }

  lemma {:induction false} BlankIsNoLetter(c: char)
    requires IsBlank(c)
    ensures !IsWordChar(c) && c != '/' && c != '\n' && c != '.' && c != '\'' && c != '"'
  {
  }

  lemma {:induction false} BlankCharacter(u: Token, text: string, from: nat, end: nat)
    requires Fits(u, text, from, end) && IsBlank(text[from])
    ensures u.OpOrPunc? ==> u.kind !in SYMBOLIC || !Begins(u.kind) || text[from] != u.kind[0]
  {
    hide SYMBOLIC, Fits;
  }

  lemma {:induction false} OnlyBlanks(t: Token, u: Token, file: SplicedFile, from: nat, to: nat, end: nat)
    requires Spelled(Blank, t, file, from, to) && Reads(u, file, from, end) && u.Whitespace?
    ensures Beats(t, to, u, end)
  {
    hide IsBlank;
  }

  lemma {:induction false} LineBeats(t: Token, u: Token, file: SplicedFile, from: nat, to: nat, end: nat)
    requires Valid(file) && Spelled(Line, t, file, from, to) && Reads(u, file, from, end)
    requires Matches(file.text, from, "\n")
    ensures Beats(t, to, u, end)
  {
    assert file.text[from..from + 1][0] == '\n';
    ReadingFits(u, file, from, end);
    FirstCharacter(u, file.text, from, end);
    hide Valid, Fits, SYMBOLIC, RawLexed, QuotedAt, NumberSpan;
    assert |file.text[from..to]| == 1;
    if u.NewLine? {
      assert |file.text[from..end]| == 1;
    }
  }

  // ---- Numbers and operators ----

  lemma {:induction false} OperatorLength(u: Token, file: SplicedFile, from: nat, end: nat)
    requires Reads(u, file, from, end) && u.OpOrPunc?
    ensures from < end <= |file.text| && |u.kind| == end - from && Matches(file.text, from, u.kind)
  {
    hide SYMBOLIC, IsWorded, WordRun;
    assert |file.text[from..end]| == |u.kind|;
  }

  /** What is read where a number begins. */
  lemma {:induction false} NumericCharacter(u: Token, text: string, from: nat, end: nat)
    requires Fits(u, text, from, end)
    requires IsDigit(text[from]) || (text[from] == '.' && from + 1 < |text| && IsDigit(text[from + 1]))
    ensures u.PpNumber? || (u.OpOrPunc? && |u.kind| == 1 && text[from] == '.')
  {
    hide SYMBOLIC, NumberHere;
    match u
    case RawLiteral(_, _, _, _) => RawBeginsWithLetter(text, from);
    case CharacterLiteral(_, _, _) => LiteralBegins(text, from, '\'');
    case StringLiteral(_, _, _) => LiteralBegins(text, from, '"');
    case _ =>
  }

  lemma {:induction false} LiteralBegins(text: string, from: nat, quote: char)
    requires Opens(text, from, [quote]) && (quote == '\'' || quote == '"')
    ensures from < |text| && (IsNondigit(text[from]) || text[from] == quote)
  {
    var e :| Matches(text, from, PrefixText(e) + [quote]);
    QuotedOpens(text, from, e, quote);
    if e != NoPrefix {
      assert text[from] == text[from..from + |PrefixText(e)|][0];
    }
  }

  lemma {:induction false} OnlyNumbers(t: Token, u: Token, file: SplicedFile, from: nat, to: nat, end: nat)
    requires Spelled(Number, t, file, from, to) && Reads(u, file, from, end) && u.PpNumber?
    ensures Beats(t, to, u, end)
  {
    hide NumberSpan;
  }

  lemma {:induction false} SpelledNumber(t: Token, file: SplicedFile, from: nat, to: nat)
    requires Spelled(Number, t, file, from, to)
    ensures var text := file.text;
            && from < to <= |text|
            && (IsDigit(text[from]) ||
                (text[from] == '.' && from + 1 < |text| && IsDigit(text[from + 1]) && from + 2 <= to))
  {
    NumberStarts(file.text, from, to);
    hide NumberSpan;
  }

  lemma {:induction false} NumberBeats(t: Token, u: Token, file: SplicedFile, from: nat, to: nat, end: nat)
    requires Valid(file) && Spelled(Number, t, file, from, to) && Reads(u, file, from, end)
    ensures Beats(t, to, u, end)
  {
    hide *;
    SpelledNumber(t, file, from, to);
    ReadingFits(u, file, from, end);
    NumericCharacter(u, file.text, from, end);
    if u.PpNumber? {
      OnlyNumbers(t, u, file, from, to, end);
    } else {
      OperatorLength(u, file, from, end);
      ShorterLoses(t, to, u, end);
      DotIsNoDigit();
    }
  }

  lemma {:induction false} DotIsNoDigit()
    ensures !IsDigit('.')
  {
  }

  lemma {:induction false} ShorterLoses(t: Token, to: nat, u: Token, end: nat)
    ensures end < to ==> Beats(t, to, u, end)
  {
  }

  lemma {:induction false} SpelledSymbol(t: Token, file: SplicedFile, from: nat, to: nat)
    requires Spelled(Symbol, t, file, from, to)
    ensures t.OpOrPunc? && t.kind in SYMBOLIC && from < to <= |file.text| && |t.kind| == to - from
    ensures Matches(file.text, from, t.kind) && file.text[from] == t.kind[0]
    ensures Longest(t.kind, SYMBOLIC, file.text, from)
  {
    hide SYMBOLIC;
    assert |file.text[from..to]| == |t.kind|;
    assert file.text[from..to][0] == t.kind[0];
  }

  lemma {:induction false} SymbolCharacter(op: string)
    requires op in SYMBOLIC
    ensures op != "" && !IsWordChar(op[0]) && !IsBlank(op[0]) && op[0] != '\n' && op[0] != '\'' && op[0] != '"'
  {
    OperatorsBegin(op);
    hide SYMBOLIC;
  }

  lemma {:induction false} OnlyOperators(t: Token, u: Token, file: SplicedFile, from: nat, to: nat, end: nat)
    requires t.OpOrPunc? && u.OpOrPunc? && u.kind in SYMBOLIC && Longest(t.kind, SYMBOLIC, file.text, from)
    requires |t.kind| == to - from && |u.kind| == end - from
    requires Matches(file.text, from, t.kind) && Matches(file.text, from, u.kind)
    ensures Beats(t, to, u, end)
  {
    hide SYMBOLIC;
    var i :| 0 <= i < |SYMBOLIC| && SYMBOLIC[i] == u.kind;
  }

  lemma {:induction false} FitsNoComment(u: Token, text: string, from: nat, end: nat)
    requires Fits(u, text, from, end)
    ensures u.SingleLineComment? ==> Matches(text, from, "//")
    ensures u.MultiLineComment? ==> Matches(text, from, "/*")
    ensures u.PpNumber? ==> NumberHere(text, from)
  {
  }

  lemma {:induction false} SymbolBeats(t: Token, u: Token, file: SplicedFile, from: nat, to: nat, end: nat)
    requires Valid(file) && Spelled(Symbol, t, file, from, to) && Reads(u, file, from, end)
    requires !NumberHere(file.text, from) && !Matches(file.text, from, "//") && !Matches(file.text, from, "/*")
    ensures Beats(t, to, u, end)
  {
    hide *;
    SpelledSymbol(t, file, from, to);
    SymbolCharacter(t.kind);
    ReadingFits(u, file, from, end);
    FirstCharacter(u, file.text, from, end);
    FitsNoComment(u, file.text, from, end);
    OperatorLength(u, file, from, end);
    OnlyOperators(t, u, file, from, to, end);
  }

  // ---- Words and literals ----

  lemma {:induction false} OnlyWords(t: Token, u: Token, file: SplicedFile, from: nat, to: nat, end: nat)
    requires Spelled(Word, t, file, from, to) && Reads(u, file, from, end)
    requires u.OpOrPunc? && u.kind in SYMBOLIC ==> !IsNondigit(file.text[from])
    requires (u.OpOrPunc? || u.Identifier?) && IsNondigit(file.text[from])
    ensures Beats(t, to, u, end)
  {
    hide SYMBOLIC, IsNondigit, IsWordChar, IsWorded;
  }

  lemma {:induction false} LetterIsNoOperator(u: Token, text: string, from: nat, end: nat)
    requires Fits(u, text, from, end) && u.OpOrPunc? && u.kind in SYMBOLIC && Matches(text, from, u.kind)
    ensures !IsNondigit(text[from])
  {
    OperatorsBegin(u.kind);
    hide SYMBOLIC;
    assert text[from..from + |u.kind|][0] == u.kind[0];
  }

  lemma {:induction false} FitsLiteral(u: Token, text: string, from: nat, end: nat)
    requires Fits(u, text, from, end)
    ensures u.RawLiteral? ==> Opens(text, from, "R\"")
    ensures u.CharacterLiteral? ==> Opens(text, from, "'")
    ensures u.StringLiteral? ==> Opens(text, from, "\"")
  {
  }

  lemma {:induction false} WordBeats(t: Token, u: Token, file: SplicedFile, from: nat, to: nat, end: nat)
    requires Valid(file) && Spelled(Word, t, file, from, to) && Reads(u, file, from, end)
    requires from < |file.text| && IsNondigit(file.text[from])
    requires !Opens(file.text, from, "R\"") && !Opens(file.text, from, "'") && !Opens(file.text, from, "\"")
    ensures Beats(t, to, u, end)
  {
    hide *;
    ReadingFits(u, file, from, end);
    FirstLetter(u, file.text, from, end);
    FitsLiteral(u, file.text, from, end);
    if u.OpOrPunc? {
      OperatorLength(u, file, from, end);
      if u.kind in SYMBOLIC {
        LetterIsNoOperator(u, file.text, from, end);
      }
    }
    OnlyWords(t, u, file, from, to, end);
  }

  lemma {:induction false} QuoteIsNoLetter(text: string, from: nat, k: nat, quote: char)
    requires QuoteBehind(text, from, k, quote)
    ensures k < |text| && !IsWordChar(text[k]) && !IsBlank(text[k]) && text[k] == quote
    ensures quote != '/' && quote != '\n' && quote != '.'
  {
  }

  lemma {:induction false} WordEndsAtQuote(u: Token, file: SplicedFile, from: nat, k: nat, quote: char, end: nat)
    requires Reads(u, file, from, end) && QuoteBehind(file.text, from, k, quote)
    requires (u.OpOrPunc? && u.kind !in SYMBOLIC) || u.Identifier?
    ensures end <= k
  {
    hide SYMBOLIC, IsWorded;
    assert !IsWordChar(file.text[k]);
  }

  /** Behind a letter, a literal that opens at k beats all words. */
  lemma {:induction false} PrefixedBeatsWords(t: Token, u: Token, file: SplicedFile, from: nat, k: nat, quote: char,
          to: nat, end: nat)
    requires Valid(file) && Reads(u, file, from, end) && QuoteBehind(file.text, from, k, quote) && k < to
    requires from < |file.text| && IsNondigit(file.text[from])
    ensures u.CharacterLiteral? || u.StringLiteral? || u.RawLiteral? || Beats(t, to, u, end)
  {
    hide *;
    ReadingFits(u, file, from, end);
    FirstLetter(u, file.text, from, end);
    if u.OpOrPunc? {
      OperatorLength(u, file, from, end);
      if u.kind in SYMBOLIC {
        LetterIsNoOperator(u, file.text, from, end);
      }
    }
    if u.OpOrPunc? || u.Identifier? {
      WordEndsAtQuote(u, file, from, k, quote, end);
      ShorterLoses(t, to, u, end);
    }
  }

  /** At a quote nothing but a literal is read. */
  lemma {:induction false} QuoteReads(u: Token, file: SplicedFile, from: nat, quote: char, end: nat)
    requires Valid(file) && Reads(u, file, from, end) && QuoteBehind(file.text, from, from, quote)
    ensures u.CharacterLiteral? || u.StringLiteral?
  {
    hide *;
    QuoteIsNoLetter(file.text, from, from, quote);
    ReadingFits(u, file, from, end);
    FirstCharacter(u, file.text, from, end);
    IsAQuote(file.text, from, from, quote);
    if u.OpOrPunc? {
      SymbolCharacter(u.kind);
    }
  }

  lemma {:induction false} IsAQuote(text: string, from: nat, k: nat, quote: char)
    requires QuoteBehind(text, from, k, quote)
    ensures quote == '\'' || quote == '"'
  {
  }

  lemma {:induction false} InsideText(text: string, from: nat, k: nat, quote: char)
    requires QuoteBehind(text, from, k, quote)
    ensures from <= k < |text|
  {
  }

  lemma {:induction false} LiteralIsRead(u: Token, file: SplicedFile, from: nat, end: nat)
    requires Reads(u, file, from, end)
    ensures u.CharacterLiteral? ==>
      QuotedAt(Quoted(u.prefix, u.chars, u.suffix), file.text, from, end, '\'', false)
    ensures u.StringLiteral? ==> QuotedAt(Quoted(u.prefix, u.chars, u.suffix), file.text, from, end, '"', true)
    ensures u.RawLiteral? ==> RawLexed(u, file, from, end)
  {
    hide QuotedAt, RawLexed;
  }

  lemma {:induction false} CharacterIsRead(t: Token, file: SplicedFile, from: nat, to: nat)
    requires Spelled(Character, t, file, from, to)
    ensures Reads(t, file, from, to) && t.CharacterLiteral?
  {
    hide QuotedAt, Spelling;
  }

  lemma {:induction false} TextIsRead(t: Token, file: SplicedFile, from: nat, to: nat)
    requires Spelled(Text, t, file, from, to)
    ensures Reads(t, file, from, to) && t.StringLiteral?
  {
    hide QuotedAt, Spelling;
  }

  /** Two literals that are read at one place open at the same quote, behind the same word characters. */
  lemma {:induction false} OtherLiteral(u: Token, file: SplicedFile, from: nat, k: nat, quote: char, end: nat)
    requires Valid(file) && Reads(u, file, from, end) && QuoteBehind(file.text, from, k, quote)
    requires u.CharacterLiteral? || u.StringLiteral? || u.RawLiteral?
    ensures from <= k < |file.text|
    ensures u.CharacterLiteral? ==> quote == '\''
    ensures u.StringLiteral? ==> quote == '"' && file.text[from..k] == PrefixText(u.prefix)
    ensures u.RawLiteral? ==> quote == '"' && file.text[from..k] == PrefixText(u.rawPrefix) + "R"
  {
    hide *;
    LiteralIsRead(u, file, from, end);
    InsideText(file.text, from, k, quote);
    match u
    case CharacterLiteral(e, chars, suffix) =>
      QuotedReads(Quoted(e, chars, suffix), file.text, from, end, '\'', false);
      OneQuoteBehind(file.text, from, k, quote, from + |PrefixText(e)|, '\'');
    case StringLiteral(e, chars, suffix) =>
      QuotedReads(Quoted(e, chars, suffix), file.text, from, end, '"', true);
      OneQuoteBehind(file.text, from, k, quote, from + |PrefixText(e)|, '"');
    case RawLiteral(e, _, _, _) =>
      RawReads(u, file, from, end);
      OneQuoteBehind(file.text, from, k, quote, from + |PrefixText(e)| + 1, '"');
  }

  lemma {:induction false} LiteralBeats(t: Token, u: Token, file: SplicedFile, from: nat, k: nat, quote: char, to: nat,
          end: nat)
    requires Valid(file) && Reads(u, file, from, end) && QuoteBehind(file.text, from, k, quote) && k < to
    requires k == from || (from < |file.text| && IsNondigit(file.text[from]))
    ensures u.CharacterLiteral? || u.StringLiteral? || u.RawLiteral? || Beats(t, to, u, end)
  {
    hide *;
    if k == from {
      QuoteReads(u, file, from, quote, end);
    } else {
      PrefixedBeatsWords(t, u, file, from, k, quote, to, end);
    }
  }

  lemma {:induction false} CharacterBeats(t: Token, u: Token, file: SplicedFile, from: nat, to: nat, end: nat)
    requires Valid(file) && Spelled(Character, t, file, from, to) && Reads(u, file, from, end)
    ensures Beats(t, to, u, end)
  {
    hide *;
    CharacterIsRead(t, file, from, to);
    var k := QuoteOf(t, file, from, to);
    LiteralBeats(t, u, file, from, k, '\'', to, end);
    if u.CharacterLiteral? || u.StringLiteral? || u.RawLiteral? {
      OtherLiteral(u, file, from, k, '\'', end);
      SameQuoted(t, u, file, from, to, end);
    }
  }

  lemma {:induction false} TextBeats(t: Token, u: Token, file: SplicedFile, from: nat, to: nat, end: nat)
    requires Valid(file) && Spelled(Text, t, file, from, to) && Reads(u, file, from, end)
    ensures Beats(t, to, u, end)
  {
    hide *;
    TextIsRead(t, file, from, to);
    var k := QuoteOf(t, file, from, to);
    LiteralBeats(t, u, file, from, k, '"', to, end);
    if u.CharacterLiteral? || u.StringLiteral? || u.RawLiteral? {
      OtherLiteral(u, file, from, k, '"', end);
      OtherLiteral(t, file, from, k, '"', to);
      if u.RawLiteral? {
        RawIsNoText(t.prefix, u.rawPrefix);
      } else {
        SameQuoted(t, u, file, from, to, end);
      }
    }
  }

  lemma {:induction false} RawBeats(t: Token, u: Token, file: SplicedFile, from: nat, to: nat, end: nat)
    requires Valid(file) && Spelled(Raw, t, file, from, to) && Reads(u, file, from, end)
    ensures Beats(t, to, u, end)
  {
    hide *;
    RawIsRead(t, file, from, to);
    var k := QuoteOf(t, file, from, to);
    LiteralBeats(t, u, file, from, k, '"', to, end);
    if u.CharacterLiteral? || u.StringLiteral? || u.RawLiteral? {
      OtherLiteral(u, file, from, k, '"', end);
      OtherLiteral(t, file, from, k, '"', to);
      if u.RawLiteral? {
        SameRaw(t, u, file, from, to, end);
      } else {
        RawIsNoText(u.prefix, t.rawPrefix);
      }
    }
  }

  lemma {:induction false} RawIsRead(t: Token, file: SplicedFile, from: nat, to: nat)
    requires Spelled(Raw, t, file, from, to)
    ensures t.RawLiteral? && RawLexed(t, file, from, to) && Reads(t, file, from, to)
  {
    hide RawBetween;
  }

  /** The quote that opens a literal. */
  lemma {:induction false} QuoteOf(t: Token, file: SplicedFile, from: nat, to: nat) returns (k: nat)
    requires Valid(file) && Reads(t, file, from, to) && (t.CharacterLiteral? || t.StringLiteral? || t.RawLiteral?)
    ensures QuoteBehind(file.text, from, k, if t.CharacterLiteral? then '\'' else '"') && k < to
    ensures k == from || (from < |file.text| && IsNondigit(file.text[from]))
  {
    hide *;
    LiteralIsRead(t, file, from, to);
    match t
    case CharacterLiteral(e, chars, suffix) =>
      QuotedReads(Quoted(e, chars, suffix), file.text, from, to, '\'', false);
      k := from + |PrefixText(e)|;
      InsideText(file.text, from, k, '\'');
      PrefixLetter(file.text, from, e);
    case StringLiteral(e, chars, suffix) =>
      QuotedReads(Quoted(e, chars, suffix), file.text, from, to, '"', true);
      k := from + |PrefixText(e)|;
      InsideText(file.text, from, k, '"');
      PrefixLetter(file.text, from, e);
    case RawLiteral(e, _, _, _) =>
      RawReads(t, file, from, to);
      k := from + |PrefixText(e)| + 1;
      RawBeginsWithLetter(file.text, from);
  }

  lemma {:induction false} PrefixLetter(text: string, from: nat, e: EncodingPrefix)
    requires from + |PrefixText(e)| < |text| && text[from..from + |PrefixText(e)|] == PrefixText(e)
    ensures PrefixText(e) == "" || IsNondigit(text[from])
  {
    if e != NoPrefix {
      assert text[from] == text[from..from + |PrefixText(e)|][0];
    }
  }

  lemma {:induction false} SameQuoted(t: Token, u: Token, file: SplicedFile, from: nat, to: nat, end: nat)
    requires Reads(t, file, from, to) && Reads(u, file, from, end)
    requires (t.CharacterLiteral? && u.CharacterLiteral?) || (t.StringLiteral? && u.StringLiteral?)
    ensures Beats(t, to, u, end)
  {
    hide QuotedAt, Spelling;
    var q, r := Quoted(t.prefix, t.chars, t.suffix), Quoted(u.prefix, u.chars, u.suffix);
    if t.CharacterLiteral? {
      QuotedOnce(q, r, file.text, from, to, end, '\'', false);
    } else {
      QuotedOnce(q, r, file.text, from, to, end, '"', true);
    }
  }

  lemma {:induction false} SameRaw(t: Token, u: Token, file: SplicedFile, from: nat, to: nat, end: nat)
    requires Valid(file) && Reads(t, file, from, to) && Reads(u, file, from, end) && t.RawLiteral? && u.RawLiteral?
    ensures Beats(t, to, u, end)
  {
    hide RawLexed, Valid;
    RawOnce(t, u, file, from, to, end);
  }

  // ---- The token that is taken ----

  /** What holds at a place for which this alternative, and none before it, is taken. */
  ghost predicate Guard(alternative: Alternative, text: string, pos: nat)
    requires pos < |text|
  {
    match alternative
    case Header => HeaderHere(text, pos)
    case LineComment => Matches(text, pos, "//")
    case BlockComment => Matches(text, pos, "/*")
    case Blank => IsBlank(text[pos])
    case Line => Matches(text, pos, "\n")
    case Raw => Opens(text, pos, "R\"")
    case LessThan => BeforeTemplate(text, pos)
    case Bracket => BeforeSplice(text, pos)
    case Number => NumberHere(text, pos)
    case Symbol => !NumberHere(text, pos) && !Matches(text, pos, "//") && !Matches(text, pos, "/*")
    case Character => true
    case Text => true
    case Word =>
      && IsNondigit(text[pos])
      && !Opens(text, pos, "R\"") && !Opens(text, pos, "'") && !Opens(text, pos, "\"")
    case Nothing => true
  }

  lemma {:induction false} ChosenGuard(text: string, pos: nat, tryHeaderName: bool)
    requires pos < |text|
    ensures Guard(Chosen(text, pos, tryHeaderName), text, pos)
  {
    hide HeaderHere, Matches, IsBlank, Opens, BeforeTemplate, BeforeSplice, NumberHere, SymbolHere, IsNondigit;
  }

  lemma {:induction false} AlternativeBeats(alternative: Alternative, t: Token, u: Token, file: SplicedFile, from: nat,
          to: nat, end: nat)
    requires Valid(file) && Spelled(alternative, t, file, from, to) && Reads(u, file, from, end)
    requires from < |file.text| && Guard(alternative, file.text, from)
    requires !alternative.Header? && !alternative.LessThan? && !alternative.Bracket? && !alternative.Nothing?
    ensures Beats(t, to, u, end)
  {
    hide Valid, Spelled, Reads, Beats, Matches, IsBlank, Opens, NumberHere, IsNondigit;
    match alternative
    case LineComment => LineCommentBeats(t, u, file, from, to, end);
    case BlockComment => BlockCommentBeats(t, u, file, from, to, end);
    case Blank => BlankBeats(t, u, file, from, to, end);
    case Line => LineBeats(t, u, file, from, to, end);
    case Raw => RawBeats(t, u, file, from, to, end);
    case Number => NumberBeats(t, u, file, from, to, end);
    case Symbol => SymbolBeats(t, u, file, from, to, end);
    case Character => CharacterBeats(t, u, file, from, to, end);
    case Text => TextBeats(t, u, file, from, to, end);
    case Word => WordBeats(t, u, file, from, to, end);
  }

  lemma {:induction false} PlainReads(alternative: Alternative, t: Token, file: SplicedFile, from: nat, to: nat)
    requires Spelled(alternative, t, file, from, to)
    requires alternative.Blank? || alternative.Line? || alternative.Number? || alternative.Symbol?
    ensures Reads(t, file, from, to)
  {
    hide NumberSpan, SYMBOLIC, IsBlank, Spelling;
  }

  lemma {:induction false} WordReads(t: Token, file: SplicedFile, from: nat, to: nat)
    requires Spelled(Word, t, file, from, to) && IsNondigit(file.text[from])
    ensures Reads(t, file, from, to)
  {
    hide IsWorded, IsWordChar, IsNondigit, SYMBOLIC, Spelling;
  }

  lemma {:induction false} ExceptionReads(alternative: Alternative, t: Token, file: SplicedFile, from: nat, to: nat)
    requires Spelled(alternative, t, file, from, to) && (alternative == LessThan || alternative == Bracket)
    ensures Reads(t, file, from, to)
  {
    AngleAndBracket();
    hide SYMBOLIC, IsWorded, Spelling;
  }

  lemma {:induction false} LineCommentReads(t: Token, file: SplicedFile, from: nat, to: nat)
    requires Valid(file) && Spelled(LineComment, t, file, from, to) && Matches(file.text, from, "//")
    ensures Reads(t, file, from, to)
  {
    NewLineAtEnd(file);
    hide Valid, Matches, Spelling;
  }

  lemma {:induction false} BlockCommentReads(t: Token, file: SplicedFile, from: nat, to: nat)
    requires Spelled(BlockComment, t, file, from, to) && Matches(file.text, from, "/*")
    ensures Reads(t, file, from, to)
  {
    hide Matches, Spelling;
  }

  /** A token is itself one of the things that could be read. */
  lemma {:induction false} AlternativeReads(alternative: Alternative, t: Token, file: SplicedFile, from: nat, to: nat)
    requires Valid(file) && Spelled(alternative, t, file, from, to) && !alternative.Header? && !alternative.Nothing?
    requires from < |file.text| && Guard(alternative, file.text, from)
    ensures Reads(t, file, from, to)
  {
    hide Valid, Spelled, Reads, Matches, IsNondigit, Opens;
    match alternative
    case LineComment => LineCommentReads(t, file, from, to);
    case BlockComment => BlockCommentReads(t, file, from, to);
    case LessThan => ExceptionReads(alternative, t, file, from, to);
    case Bracket => ExceptionReads(alternative, t, file, from, to);
    case Raw => RawIsRead(t, file, from, to);
    case Character => CharacterIsRead(t, file, from, to);
    case Text => TextIsRead(t, file, from, to);
    case Word => WordReads(t, file, from, to);
    case _ => PlainReads(alternative, t, file, from, to);
  }

  lemma {:induction false} AngleAndBracket()
    ensures "<" in SYMBOLIC && "[" in SYMBOLIC
  {
    assert SIZE1[22] == "<" && SIZE1[3] == "[";
    assert "<" in SIZE1 && "[" in SIZE1;
    hide SIZE4, SIZE3, SIZE2, SIZE1;
  }

  /** Behind < or [ no alternative comes before the two exceptions. */
  lemma {:induction false} ExceptionIsChosen(text: string, pos: nat, tryHeaderName: bool)
    requires pos < |text| && !(tryHeaderName && HeaderHere(text, pos))
    ensures BeforeTemplate(text, pos) <==> Chosen(text, pos, tryHeaderName) == LessThan
    ensures BeforeSplice(text, pos) <==> Chosen(text, pos, tryHeaderName) == Bracket
  {
    ExceptionBegins(text, pos);
    if Opens(text, pos, "R\"") {
      RawBeginsWithLetter(text, pos);
    }
    if Matches(text, pos, "//") || Matches(text, pos, "/*") {
      SlashBegins(text, pos);
    }
    hide HeaderHere, Opens, BeforeTemplate, BeforeSplice, NumberHere, SymbolHere;
  }

  lemma {:induction false} SlashBegins(text: string, pos: nat)
    requires Matches(text, pos, "//") || Matches(text, pos, "/*")
    ensures pos < |text| && text[pos] == '/'
  {
    assert text[pos] == text[pos..pos + 2][0];
  }

  lemma {:induction false} ExceptionBegins(text: string, pos: nat)
    requires pos < |text|
    ensures BeforeTemplate(text, pos) ==> text[pos] == '<'
    ensures BeforeSplice(text, pos) ==> text[pos] == '['
    ensures Matches(text, pos, "\n") ==> text[pos] == '\n'
  {
    if BeforeTemplate(text, pos) {
      assert text[pos..pos + 3][0] == '<';
    }
    if BeforeSplice(text, pos) {
      assert text[pos..pos + 3][0] == '[';
    }
    if Matches(text, pos, "\n") {
      assert text[pos..pos + 1][0] == '\n';
    }
  }

  lemma {:induction false} HeaderIsChosen(text: string, pos: nat, tryHeaderName: bool)
    requires pos < |text|
    ensures Chosen(text, pos, tryHeaderName) == Header <==> tryHeaderName && HeaderHere(text, pos)
  {
    hide HeaderHere, Matches, IsBlank, Opens, BeforeTemplate, BeforeSplice, NumberHere, SymbolHere, IsNondigit;
  }

  lemma {:induction false} SpelledAs(alternative: Alternative, t: Token, file: SplicedFile, from: nat, to: nat)
    requires Spelled(alternative, t, file, from, to)
    ensures from < to <= |file.text| && alternative != Nothing && (t.HeaderName? <==> alternative == Header)
    ensures alternative == LessThan ==> t == OpOrPunc("<")
    ensures alternative == Bracket ==> t == OpOrPunc("[")
  {
    hide RawBetween, QuotedAt, NumberSpan, SYMBOLIC, IsWorded, IsHeader, Find, FindString;
  }

  /**
   * Maximal munch: a token is a header name if and only if header names are tried and one stands here. Else it is the
   * less-than sign or the bracket of the two exceptions where their lookahead holds; and everywhere else it is the
   * longest thing that could be read here, and the only one of its length.
   */
  lemma {:induction false} MaximalMunch(t: Token, file: SplicedFile, from: nat, to: nat, tryHeaderName: bool)
    requires Valid(file) && TokenAt(t, file, from, to, tryHeaderName)
    ensures t.HeaderName? <==> tryHeaderName && HeaderHere(file.text, from)
    ensures !t.HeaderName? ==> Reads(t, file, from, to)
    ensures !t.HeaderName? && BeforeTemplate(file.text, from) ==> t == OpOrPunc("<")
    ensures !t.HeaderName? && BeforeSplice(file.text, from) ==> t == OpOrPunc("[")
    ensures !t.HeaderName? && !BeforeTemplate(file.text, from) && !BeforeSplice(file.text, from) ==>
      forall u, end: nat :: Reads(u, file, from, end) ==> end < to || (end == to && u == t)
  {
    hide Valid, Chosen, Spelled, Reads, Guard, BeforeTemplate, BeforeSplice, HeaderHere;
    var alternative := Chosen(file.text, from, tryHeaderName);
    SpelledAs(alternative, t, file, from, to);
    HeaderIsChosen(file.text, from, tryHeaderName);
    ChosenGuard(file.text, from, tryHeaderName);
    if !t.HeaderName? {
      ExceptionIsChosen(file.text, from, tryHeaderName);
      AlternativeReads(alternative, t, file, from, to);
      if alternative != LessThan && alternative != Bracket {
        forall u, end: nat | Reads(u, file, from, end)
          ensures end < to || (end == to && u == t)
        {
          AlternativeBeats(alternative, t, u, file, from, to, end);
        }
      }
    }
  }

  /** So it is with every token of a file, with header names tried as the tokens before it say. */
  lemma {:induction false} TokensAreLongest(tokens: seq<Token>, file: SplicedFile, cuts: seq<nat>, i: nat)
    requires Valid(file) && Divided(tokens, file, cuts) && i < |tokens|
    ensures var t, from, to := tokens[i], cuts[i], cuts[i + 1];
            && from < |file.text|
            && (t.HeaderName? <==> HeaderTried(tokens[..i]) && HeaderHere(file.text, from))
            && (!t.HeaderName? ==> Reads(t, file, from, to))
            && (!t.HeaderName? && BeforeTemplate(file.text, from) ==> t == OpOrPunc("<"))
            && (!t.HeaderName? && BeforeSplice(file.text, from) ==> t == OpOrPunc("["))
            && (!t.HeaderName? && !BeforeTemplate(file.text, from) && !BeforeSplice(file.text, from) ==>
                forall u, end: nat :: Reads(u, file, from, end) ==> end < to || (end == to && u == t))
  {
    hide Valid, Spelled, Chosen, HeaderTried, Reads, HeaderHere, BeforeTemplate, BeforeSplice;
    assert TokenAt(tokens[i], file, cuts[i], cuts[i + 1], HeaderTried(tokens[..i]));
    MaximalMunch(tokens[i], file, cuts[i], cuts[i + 1], HeaderTried(tokens[..i]));
  }

  // ---- Where reading fails ----

  ghost predicate UnclosedComment(text: string, pos: nat) {
    Matches(text, pos, "/*") && forall j: nat :: pos + 2 <= j ==> !Matches(text, j, "*/")
  }

  ghost predicate NothingReads(file: SplicedFile, pos: nat) {
    forall u, end: nat :: !Reads(u, file, pos, end)
  }

  ghost predicate LiteralOpens(text: string, pos: nat) {
    Opens(text, pos, "R\"") || Opens(text, pos, "'") || Opens(text, pos, "\"")
  }

  lemma {:induction false} OneLiteralOpens(text: string, pos: nat)
    ensures !(Opens(text, pos, "R\"") && Opens(text, pos, "'"))
    ensures !(Opens(text, pos, "R\"") && Opens(text, pos, "\""))
    ensures !(Opens(text, pos, "'") && Opens(text, pos, "\""))
  {
    hide Matches, PrefixText, QuoteBehind;
    assert ['\''] == "'" && ['"'] == "\"";
    forall e, f | Matches(text, pos, PrefixText(e) + "R\"") && Matches(text, pos, PrefixText(f) + "'")
      ensures false
    {
      RawOpens(text, pos, e);
      QuotedOpens(text, pos, f, '\'');
      OneQuoteBehind(text, pos, pos + |PrefixText(e)| + 1, '"', pos + |PrefixText(f)|, '\'');
    }
    forall e, f | Matches(text, pos, PrefixText(e) + "R\"") && Matches(text, pos, PrefixText(f) + "\"")
      ensures false
    {
      RawOpens(text, pos, e);
      QuotedOpens(text, pos, f, '"');
      OneQuoteBehind(text, pos, pos + |PrefixText(e)| + 1, '"', pos + |PrefixText(f)|, '"');
      RawIsNoText(f, e);
    }
    forall e, f | Matches(text, pos, PrefixText(e) + "'") && Matches(text, pos, PrefixText(f) + "\"")
      ensures false
    {
      QuotedOpens(text, pos, e, '\'');
      QuotedOpens(text, pos, f, '"');
      OneQuoteBehind(text, pos, pos + |PrefixText(e)|, '\'', pos + |PrefixText(f)|, '"');
    }
  }

  /** Where a literal opens, nothing but a letter or a quote stands. */
  lemma {:induction false} LiteralCharacter(text: string, pos: nat)
    requires LiteralOpens(text, pos)
    ensures pos < |text| && (IsNondigit(text[pos]) || text[pos] == '\'' || text[pos] == '"')
  {
    assert ['\''] == "'" && ['"'] == "\"";
    hide Opens;
    if Opens(text, pos, "R\"") {
      RawBeginsWithLetter(text, pos);
    } else if Opens(text, pos, "'") {
      LiteralBegins(text, pos, '\'');
    } else {
      LiteralBegins(text, pos, '"');
    }
  }

  lemma {:induction false} NumberCharacter(text: string, pos: nat)
    requires NumberHere(text, pos)
    ensures pos < |text| && (IsDigit(text[pos]) || text[pos] == '.')
  {
    var end: nat :| pos <= end <= |text| && NumberSpan(text, pos, end);
    NumberStarts(text, pos, end);
  }

  lemma {:induction false} SymbolHereCharacter(text: string, pos: nat)
    requires SymbolHere(text, pos)
    ensures pos < |text| && !IsWordChar(text[pos]) && text[pos] != '\'' && text[pos] != '"'
  {
    hide SYMBOLIC;
    var op :| op in SYMBOLIC && Matches(text, pos, op);
    SymbolCharacter(op);
    assert text[pos..pos + |op|][0] == op[0];
  }

  lemma {:induction false} LiteralIsChosen(text: string, pos: nat, tryHeaderName: bool)
    requires pos < |text| && !(tryHeaderName && HeaderHere(text, pos)) && LiteralOpens(text, pos)
    ensures Chosen(text, pos, tryHeaderName) ==
            if Opens(text, pos, "R\"") then Raw else if Opens(text, pos, "'") then Character else Text
  {
    OneLiteralOpens(text, pos);
    LiteralCharacter(text, pos);
    ExceptionBegins(text, pos);
    if NumberHere(text, pos) {
      NumberCharacter(text, pos);
    }
    if SymbolHere(text, pos) {
      SymbolHereCharacter(text, pos);
    }
    if Matches(text, pos, "//") || Matches(text, pos, "/*") {
      SlashBegins(text, pos);
    }
    hide HeaderHere, Opens, BeforeTemplate, BeforeSplice, NumberHere, SymbolHere, Matches;
  }

  lemma {:induction false} CommentIsChosen(text: string, pos: nat, tryHeaderName: bool)
    requires pos < |text|
    ensures Chosen(text, pos, tryHeaderName) == BlockComment <==>
            !(tryHeaderName && HeaderHere(text, pos)) && Matches(text, pos, "/*")
  {
    if Matches(text, pos, "/*") && Matches(text, pos, "//") {
      TwoCharacters(text, pos, "/*");
      TwoCharacters(text, pos, "//");
    }
    hide HeaderHere, Matches, IsBlank, Opens, BeforeTemplate, BeforeSplice, NumberHere, SymbolHere, IsNondigit;
  }

  lemma {:induction false} UnclosedMeaning(text: string, pos: nat)
    ensures UnclosedComment(text, pos) <==>
            Matches(text, pos, "/*") && FindString(text, "*/", pos + 2) == |text|
  {
  }

  lemma {:induction false} RawSpoiledOpens(file: SplicedFile, pos: nat)
    requires RawSpoiled(file, pos)
    ensures Opens(file.text, pos, "R\"")
  {
    hide Matches, PrefixText, RawAt, Place, Dropped, RawMissing;
    var e, opening: nat :| RawMissing(file, pos, e, opening);
    MissingMatches(file, pos, e, opening);
  }

  lemma {:induction false} MissingMatches(file: SplicedFile, pos: nat, e: EncodingPrefix, opening: nat)
    requires RawMissing(file, pos, e, opening)
    ensures Matches(file.text, pos, PrefixText(e) + "R\"")
  {
    hide Matches, PrefixText, RawAt, Place, Dropped;
  }

  lemma {:induction false} QuotedSpoiledOpens(text: string, pos: nat, quote: char, hex: bool)
    requires QuotedSpoiled(text, pos, quote, hex)
    ensures Opens(text, pos, [quote])
  {
    hide Matches, PrefixText, Spoiled;
    var e :| Matches(text, pos, PrefixText(e) + [quote]) && Spoiled(text, pos + |PrefixText(e)| + 1, quote, hex);
    assert Matches(text, pos, PrefixText(e) + [quote]);
  }

  lemma {:induction false} SpoiledOpens(file: SplicedFile, pos: nat)
    ensures RawSpoiled(file, pos) ==> Opens(file.text, pos, "R\"")
    ensures QuotedSpoiled(file.text, pos, '\'', false) ==> Opens(file.text, pos, "'")
    ensures QuotedSpoiled(file.text, pos, '"', true) ==> Opens(file.text, pos, "\"")
  {
    hide *;
    assert ['\''] == "'" && ['"'] == "\"";
    if RawSpoiled(file, pos) {
      RawSpoiledOpens(file, pos);
    }
    if QuotedSpoiled(file.text, pos, '\'', false) {
      QuotedSpoiledOpens(file.text, pos, '\'', false);
    }
    if QuotedSpoiled(file.text, pos, '"', true) {
      QuotedSpoiledOpens(file.text, pos, '"', true);
    }
  }

  /** Where no alternative begins, nothing can be read. */
  lemma {:induction false} NothingIsRead(file: SplicedFile, pos: nat, tryHeaderName: bool)
    requires Valid(file) && pos < |file.text| && Chosen(file.text, pos, tryHeaderName) == Nothing
    ensures NothingReads(file, pos) && file.text[pos] != '\'' && file.text[pos] != '"'
  {
    NoneBegins(file.text, pos, tryHeaderName);
    QuotesOpen(file.text, pos);
    hide Valid, Chosen, Reads, Matches, NumberHere, SymbolHere, IsNondigit, IsBlank, LiteralOpens;
    forall u, end: nat
      ensures !Reads(u, file, pos, end)
    {
      if Reads(u, file, pos, end) {
        ReadingFits(u, file, pos, end);
        FitsSomething(u, file.text, pos, end);
      }
    }
  }

  lemma {:induction false} NoneBegins(text: string, pos: nat, tryHeaderName: bool)
    requires pos < |text| && Chosen(text, pos, tryHeaderName) == Nothing
    ensures !Matches(text, pos, "//") && !Matches(text, pos, "/*") && !Matches(text, pos, "\n") && !IsBlank(text[pos])
    ensures !NumberHere(text, pos) && !SymbolHere(text, pos) && !IsNondigit(text[pos]) && !LiteralOpens(text, pos)
  {
    hide HeaderHere, Matches, IsBlank, Opens, BeforeTemplate, BeforeSplice, NumberHere, SymbolHere, IsNondigit;
  }

  lemma {:induction false} QuotesOpen(text: string, pos: nat)
    requires pos < |text| && !LiteralOpens(text, pos)
    ensures text[pos] != '\'' && text[pos] != '"'
  {
    assert Matches(text, pos, PrefixText(NoPrefix) + "'") <==> text[pos] == '\'' by {
      assert PrefixText(NoPrefix) + "'" == "'" && text[pos..pos + 1] == [text[pos]];
    }
    assert Matches(text, pos, PrefixText(NoPrefix) + "\"") <==> text[pos] == '"' by {
      assert PrefixText(NoPrefix) + "\"" == "\"" && text[pos..pos + 1] == [text[pos]];
    }
  }

  lemma {:induction false} FitsSomething(u: Token, text: string, from: nat, end: nat)
    requires Fits(u, text, from, end)
    ensures || Matches(text, from, "//") || Matches(text, from, "/*") || Matches(text, from, "\n")
            || IsBlank(text[from]) || IsNondigit(text[from]) || LiteralOpens(text, from)
            || NumberHere(text, from) || SymbolHere(text, from)
  {
    hide SYMBOLIC, Begins, NumberHere, IsBlank, IsNondigit, QuoteBehind, Opens;
    if u.NewLine? {
      assert text[from..from + 1] == "\n";
    }
  }

  lemma {:induction false} LineCommentIsRead(file: SplicedFile, pos: nat)
    requires Valid(file) && Matches(file.text, pos, "//")
    ensures !NothingReads(file, pos)
  {
    TwoCharacters(file.text, pos, "//");
    NewLineAtEnd(file);
    var end := Find(file.text, '\n', pos);
    hide Valid;
    assert Reads(SingleLineComment(file.text[pos..end]), file, pos, end);
  }

  lemma {:induction false} BlockCommentIsRead(file: SplicedFile, pos: nat)
    requires Matches(file.text, pos, "/*") && !UnclosedComment(file.text, pos)
    ensures !NothingReads(file, pos)
  {
    var end := FindString(file.text, "*/", pos + 2) + 2;
    UnclosedMeaning(file.text, pos);
    hide FindString;
    assert Reads(MultiLineComment(file.text[pos..end]), file, pos, end);
  }

  lemma {:induction false} BlankIsRead(file: SplicedFile, pos: nat)
    requires pos < |file.text| && (IsBlank(file.text[pos]) || file.text[pos] == '\n')
    ensures !NothingReads(file, pos)
  {
    var c := file.text[pos];
    hide IsBlank;
    assert file.text[pos..pos + 1] == [c];
    if IsBlank(c) {
      assert Reads(Whitespace([c]), file, pos, pos + 1);
    } else {
      assert ['\n'] == "\n";
      assert Reads(NewLine, file, pos, pos + 1);
    }
  }

  lemma {:induction false} NotWorded(c: char)
    ensures !IsWorded([c])
  {
    assert |[c]| == 1;
    assert forall w :: w in WORDED ==> |w| > 1;
  }

  lemma {:induction false} LetterIsRead(file: SplicedFile, pos: nat)
    requires pos < |file.text| && IsNondigit(file.text[pos])
    ensures !NothingReads(file, pos)
  {
    var c := file.text[pos];
    NotWorded(c);
    hide IsWorded;
    assert file.text[pos..pos + 1] == [c];
    assert Reads(Identifier([c]), file, pos, pos + 1);
  }

  lemma {:induction false} NumberIsRead(file: SplicedFile, pos: nat)
    requires NumberHere(file.text, pos)
    ensures !NothingReads(file, pos)
  {
    var end: nat :| pos <= end <= |file.text| && NumberSpan(file.text, pos, end);
    NumberStarts(file.text, pos, end);
    hide NumberSpan;
    assert Reads(PpNumber(file.text[pos..end]), file, pos, end);
  }

  lemma {:induction false} OperatorIsRead(file: SplicedFile, pos: nat, op: string)
    requires op in SYMBOLIC && Matches(file.text, pos, op)
    ensures !NothingReads(file, pos)
  {
    SymbolCharacter(op);
    hide SYMBOLIC;
    assert Reads(OpOrPunc(op), file, pos, pos + |op|);
  }

  lemma {:induction false} ExceptionIsRead(file: SplicedFile, pos: nat)
    requires pos < |file.text| && (BeforeTemplate(file.text, pos) || BeforeSplice(file.text, pos))
    ensures !NothingReads(file, pos)
  {
    ExceptionBegins(file.text, pos);
    AngleAndBracket();
    hide SYMBOLIC;
    var c := file.text[pos];
    assert file.text[pos..pos + 1] == [c];
    assert ['<'] == "<" && ['['] == "[";
    OperatorIsRead(file, pos, [c]);
  }

  /** Where an alternative begins and does not fail, and no quote stands, something can be read. */
  lemma {:induction false} SomethingIsRead(file: SplicedFile, pos: nat, tryHeaderName: bool)
    requires Valid(file) && pos < |file.text| && Chosen(file.text, pos, tryHeaderName) != Nothing
    requires Chosen(file.text, pos, tryHeaderName) != Header && !UnclosedComment(file.text, pos)
    requires file.text[pos] != '\'' && file.text[pos] != '"'
    ensures !NothingReads(file, pos)
  {
    var text := file.text;
    OneBegins(text, pos, tryHeaderName);
    hide *;
    if Matches(text, pos, "//") {
      LineCommentIsRead(file, pos);
    } else if Matches(text, pos, "/*") {
      BlockCommentIsRead(file, pos);
    } else if IsBlank(text[pos]) || text[pos] == '\n' {
      BlankIsRead(file, pos);
    } else if IsNondigit(text[pos]) {
      LetterIsRead(file, pos);
    } else if NumberHere(text, pos) {
      NumberIsRead(file, pos);
    } else if BeforeTemplate(text, pos) || BeforeSplice(text, pos) {
      ExceptionIsRead(file, pos);
    } else {
      var op := TheSymbol(text, pos);
      OperatorIsRead(file, pos, op);
    }
  }

  lemma {:induction false} TheSymbol(text: string, pos: nat) returns (op: string)
    requires SymbolHere(text, pos)
    ensures op in SYMBOLIC && Matches(text, pos, op)
  {
    hide SYMBOLIC, Matches;
    op :| op in SYMBOLIC && Matches(text, pos, op);
  }

  lemma {:induction false} OneBegins(text: string, pos: nat, tryHeaderName: bool)
    requires pos < |text| && Chosen(text, pos, tryHeaderName) != Nothing && Chosen(text, pos, tryHeaderName) != Header
    requires text[pos] != '\'' && text[pos] != '"'
    ensures || Matches(text, pos, "//") || Matches(text, pos, "/*") || IsBlank(text[pos]) || text[pos] == '\n'
            || IsNondigit(text[pos]) || NumberHere(text, pos) || BeforeTemplate(text, pos) || BeforeSplice(text, pos)
            || SymbolHere(text, pos)
  {
    ExceptionBegins(text, pos);
    if LiteralOpens(text, pos) {
      LiteralCharacter(text, pos);
    }
    hide HeaderHere, Matches, IsBlank, Opens, BeforeTemplate, BeforeSplice, NumberHere, SymbolHere, IsNondigit;
  }

  /** Reading fails at a comment that is not closed, at a literal that opens and is spoiled, and where nothing can be
      read and no quote stands. */
  lemma {:induction false} FailsMeaning(file: SplicedFile, pos: nat, tryHeaderName: bool)
    requires Valid(file) && pos < |file.text|
    ensures Fails(file, pos, tryHeaderName) <==>
            && !(tryHeaderName && HeaderHere(file.text, pos))
            && (|| UnclosedComment(file.text, pos) || RawSpoiled(file, pos)
                || QuotedSpoiled(file.text, pos, '\'', false) || QuotedSpoiled(file.text, pos, '"', true)
                || (NothingReads(file, pos) && file.text[pos] != '\'' && file.text[pos] != '"'))
  {
    var text, chosen := file.text, Chosen(file.text, pos, tryHeaderName);
    FailsAsChosen(file, pos, tryHeaderName);
    hide *;
    HeaderIsChosen(text, pos, tryHeaderName);
    CommentIsChosen(text, pos, tryHeaderName);
    UnclosedMeaning(text, pos);
    SpoiledOpens(file, pos);
    OneLiteralOpens(text, pos);
    if !(tryHeaderName && HeaderHere(text, pos)) {
      if Opens(text, pos, "R\"") || Opens(text, pos, "'") || Opens(text, pos, "\"") {
        SomeLiteralOpens(text, pos);
        LiteralIsChosen(text, pos, tryHeaderName);
      }
      if chosen == Nothing {
        NothingIsRead(file, pos, tryHeaderName);
      } else if !UnclosedComment(text, pos) && text[pos] != '\'' && text[pos] != '"' {
        SomethingIsRead(file, pos, tryHeaderName);
      }
    }
  }

  lemma {:induction false} SomeLiteralOpens(text: string, pos: nat)
    requires Opens(text, pos, "R\"") || Opens(text, pos, "'") || Opens(text, pos, "\"")
    ensures LiteralOpens(text, pos)
  {
  }

  lemma {:induction false} FailsAsChosen(file: SplicedFile, pos: nat, tryHeaderName: bool)
    requires pos < |file.text|
    ensures var chosen := Chosen(file.text, pos, tryHeaderName);
            Fails(file, pos, tryHeaderName) <==>
              || (chosen == BlockComment && Matches(file.text, pos, "/*") &&
                  FindString(file.text, "*/", pos + 2) == |file.text|)
              || (chosen == Raw && RawSpoiled(file, pos))
              || (chosen == Character && QuotedSpoiled(file.text, pos, '\'', false))
              || (chosen == Text && QuotedSpoiled(file.text, pos, '"', true))
              || chosen == Nothing
  {
    hide Chosen, RawSpoiled, QuotedSpoiled, FindString;
  }
}
