/** The combinators' greedy parser: at most one alternative may match, and what it returns is a parse tree. */
module GrammarParser {
  import opened Grammar
  import opened Wrappers

  /** A result, a failed match, or no result at all: two alternatives matched, or the recursion never ends. */
  datatype Outcome = Parsed(tree: Tree, consumed: nat) | NoMatch | Stuck

  datatype Outcomes = AllParsed(trees: seq<Tree>, total: nat) | SomeNoMatch | SomeStuck

  // ---- What `try_parse` computes; `fuel` bounds the nesting of entities ----

  function Blanks(sv: string): (n: nat)
    ensures n <= |sv| && (forall i :: 0 <= i < n ==> Blank(sv[i])) && (n < |sv| ==> !Blank(sv[n]))
  {
    if sv != [] && Blank(sv[0]) then 1 + Blanks(sv[1..]) else 0
  }

  function ParseWord(word: string, sv: string): Outcome {
    var n := Blanks(sv);
    if word <= sv[n..] then Parsed(TWord(sv[..n + |word|]), n + |word|) else NoMatch
  }

  function ParseNewLine(sv: string): Outcome {
    var n := Blanks(sv);
    if n < |sv| && sv[n] == '\n' then Parsed(TWord(sv[..n + 1]), n + 1) else NoMatch
  }

  function InEntity(x: string, o: Outcome): Outcome {
    if o.Parsed? then Parsed(TEntity(x, o.tree), o.consumed) else o
  }

  function InOpt(o: Outcome): Outcome {
    match o
    case Parsed(t, n) => Parsed(TOpt(Some(t)), n)
    case NoMatch => Parsed(TOpt(None), 0)
    case Stuck => Stuck
  }

  function InSeq(os: Outcomes, list: bool): Outcome {
    match os
    case AllParsed(ts, n) => Parsed(if list then TList(ts) else TAnd(ts), n)
    case SomeNoMatch => NoMatch
    case SomeStuck => Stuck
  }

  function Parse(E: Env, p: Parser, sv: string, fuel: nat): Outcome
    decreases fuel, p, 0, 0
  {
    match p
    case Entity(x) => if fuel == 0 || x !in E then Stuck else InEntity(x, Parse(E, E[x], sv, fuel - 1))
    case Terminal(w) => ParseWord(w, sv)
    case Keyword(w) => ParseWord(w, sv)
    case NewLine => ParseNewLine(sv)
    case Opt(args) => if |args| != 1 then Stuck else InOpt(Parse(E, args[0], sv, fuel))
    case List(q, m) => InSeq(ParseItems(E, q, sv, m, fuel), true)
    case And(ps) => InSeq(ParseParts(E, ps, sv, fuel), false)
    case Or(ps) => Choose(ps, ParseAlts(E, ps, sv, fuel))
    case Unimplemented => NoMatch
  }

  function Before(t: Tree, n: nat, rest: Outcomes): Outcomes {
    if rest.AllParsed? then AllParsed([t] + rest.trees, n + rest.total) else rest
  }

  /** Items until one fails; an item that matches nothing would match nothing again, for ever. */
  function ParseItems(E: Env, q: Parser, sv: string, need: nat, fuel: nat): Outcomes
    decreases fuel, q, 1, |sv|
  {
    match Parse(E, q, sv, fuel)
    case Stuck => SomeStuck
    case NoMatch => if need > 0 then SomeNoMatch else AllParsed([], 0)
    case Parsed(t, n) =>
      if n == 0 || n > |sv| then SomeStuck
      else Before(t, n, ParseItems(E, q, sv[n..], if need > 0 then need - 1 else 0, fuel))
  }

  function ParseParts(E: Env, ps: seq<Parser>, sv: string, fuel: nat): Outcomes
    decreases fuel, ps, 0, 0
  {
    if ps == [] then AllParsed([], 0)
    else
      match Parse(E, ps[0], sv, fuel)
      case Stuck => SomeStuck
      case NoMatch => SomeNoMatch
      case Parsed(t, n) =>
        if n > |sv| then SomeStuck else Before(t, n, ParseParts(E, ps[1..], sv[n..], fuel))
  }

  function ParseAlts(E: Env, ps: seq<Parser>, sv: string, fuel: nat): (os: seq<Outcome>)
    ensures |os| == |ps|
    decreases fuel, ps, 0, 0
  {
    if ps == [] then [] else [Parse(E, ps[0], sv, fuel)] + ParseAlts(E, ps[1..], sv, fuel)
  }

  /** Exactly one match wins; a second one is a hard error. */
  function Choose(ps: seq<Parser>, os: seq<Outcome>): Outcome
    requires |ps| == |os|
  {
    if ps == [] then NoMatch
    else
      var rest := Choose(ps[1..], os[1..]);
      match os[0]
      case Stuck => Stuck
      case NoMatch => rest
      case Parsed(t, n) => if rest == NoMatch then Parsed(TOr(ps[0], t), n) else Stuck
  }

  // ---- Soundness ----

  ghost predicate Sound(E: Env, p: Parser, sv: string, o: Outcome) {
    o.Parsed? ==> o.consumed <= |sv| && Valid(E, p, o.tree) && Yield(o.tree) == sv[..o.consumed]
  }

  lemma {:induction false} WordIsSound(E: Env, p: Parser, w: string, sv: string)
    requires p == Terminal(w) || p == Keyword(w)
    ensures Sound(E, p, sv, ParseWord(w, sv))
  {
    var n := Blanks(sv);
    if w <= sv[n..] {
      var s := sv[..n + |w|];
      assert s[|s| - |w|..] == sv[n..][..|w|] == w;
      forall i | 0 <= i < |s| - |w|
        ensures Blank(s[i])
      {
        assert s[i] == sv[i];
      }
    }
  }

  lemma {:induction false} NewLineIsSound(E: Env, sv: string)
    ensures Sound(E, NewLine, sv, ParseNewLine(sv))
  {
    var n := Blanks(sv);
    if n < |sv| && sv[n] == '\n' {
      var s := sv[..n + 1];
      assert forall i :: 0 <= i < n ==> s[i] == sv[i];
    }
  }

  /** Whatever a combinator accepts it can derive: a parse tree, whose yield is the consumed prefix. */
  lemma {:induction false} ParseIsSound(E: Env, p: Parser, sv: string, fuel: nat)
    ensures Sound(E, p, sv, Parse(E, p, sv, fuel))
    decreases fuel, p, 0, 0
  {
    match p
    case Entity(x) =>
      if fuel > 0 && x in E {
        ParseIsSound(E, E[x], sv, fuel - 1);
      }
    case Terminal(w) => WordIsSound(E, p, w, sv);
    case Keyword(w) => WordIsSound(E, p, w, sv);
    case NewLine => NewLineIsSound(E, sv);
    case Opt(args) =>
      if |args| == 1 {
        ParseIsSound(E, args[0], sv, fuel);
      }
    case List(q, m) => ItemsAreSound(E, q, sv, m, fuel);
    case And(ps) => PartsAreSound(E, ps, sv, fuel);
    case Or(ps) => AltsAreSound(E, ps, sv, fuel);
    case Unimplemented =>
  }

  lemma {:induction false} YieldBefore(t: Tree, n: nat, ts: seq<Tree>, m: nat, sv: string)
    requires n <= |sv| && Yield(t) == sv[..n] && m <= |sv| - n && Yields(ts) == sv[n..][..m]
    ensures Yields([t] + ts) == sv[..n + m]
  {
    assert ([t] + ts)[1..] == ts;
    assert sv[..n + m] == sv[..n] + sv[n..][..m];
  }

  lemma {:induction false} ItemsAreSound(E: Env, q: Parser, sv: string, need: nat, fuel: nat)
    ensures var o := ParseItems(E, q, sv, need, fuel);
            o.AllParsed? ==> o.total <= |sv| && |o.trees| >= need && Yields(o.trees) == sv[..o.total] &&
                             forall i :: 0 <= i < |o.trees| ==> Valid(E, q, o.trees[i])
    decreases fuel, q, 1, |sv|
  {
    ParseIsSound(E, q, sv, fuel);
    var o := Parse(E, q, sv, fuel);
    if o.Parsed? && 0 < o.consumed <= |sv| {
      var n := o.consumed;
      ItemsAreSound(E, q, sv[n..], if need > 0 then need - 1 else 0, fuel);
      var rest := ParseItems(E, q, sv[n..], if need > 0 then need - 1 else 0, fuel);
      if rest.AllParsed? {
        YieldBefore(o.tree, n, rest.trees, rest.total, sv);
      }
    }
  }

  lemma {:induction false} PartsAreSound(E: Env, ps: seq<Parser>, sv: string, fuel: nat)
    ensures var o := ParseParts(E, ps, sv, fuel);
            o.AllParsed? ==> o.total <= |sv| && AllValid(E, ps, o.trees) && Yields(o.trees) == sv[..o.total]
    decreases fuel, ps, 0, 0
  {
    if ps != [] {
      ParseIsSound(E, ps[0], sv, fuel);
      var o := Parse(E, ps[0], sv, fuel);
      if o.Parsed? && o.consumed <= |sv| {
        var n := o.consumed;
        PartsAreSound(E, ps[1..], sv[n..], fuel);
        var rest := ParseParts(E, ps[1..], sv[n..], fuel);
        if rest.AllParsed? {
          YieldBefore(o.tree, n, rest.trees, rest.total, sv);
          AllValidAppend(E, [ps[0]], [o.tree], ps[1..], rest.trees);
          assert [ps[0]] + ps[1..] == ps;
        }
      }
    }
  }

  lemma {:induction false} AltsAreSound(E: Env, ps: seq<Parser>, sv: string, fuel: nat)
    ensures Sound(E, Or(ps), sv, Choose(ps, ParseAlts(E, ps, sv, fuel)))
    decreases fuel, ps, 0, 0
  {
    if ps != [] {
      ParseIsSound(E, ps[0], sv, fuel);
      AltsAreSound(E, ps[1..], sv, fuel);
      assert ParseAlts(E, ps, sv, fuel)[1..] == ParseAlts(E, ps[1..], sv, fuel);
    }
  }

  // ---- One winner, whatever the order ----

  ghost predicate Wins(os: seq<Outcome>, i: nat) {
    i < |os| && os[i].Parsed? && forall j :: 0 <= j < |os| && j != i ==> os[j] == NoMatch
  }

  lemma {:induction false} ChooseMeaning(ps: seq<Parser>, os: seq<Outcome>)
    requires |ps| == |os|
    ensures Choose(ps, os).Parsed? <==> exists i: nat :: Wins(os, i)
    ensures forall i: nat :: Wins(os, i) ==> Choose(ps, os) == Parsed(TOr(ps[i], os[i].tree), os[i].consumed)
    ensures Choose(ps, os) == NoMatch <==> forall j :: 0 <= j < |os| ==> os[j] == NoMatch
  {
    if ps != [] {
      ChooseMeaning(ps[1..], os[1..]);
      var rest := Choose(ps[1..], os[1..]);
      assert forall j :: 0 <= j < |os| - 1 ==> os[1..][j] == os[j + 1];
      if os[0].Parsed? && rest == NoMatch {
        assert forall j :: 1 <= j < |os| ==> os[j] == os[1..][j - 1];
        assert Wins(os, 0);
      }
      forall i: nat | Wins(os, i)
        ensures Choose(ps, os) == Parsed(TOr(ps[i], os[i].tree), os[i].consumed)
      {
        if i > 0 {
          assert Wins(os[1..], i - 1);
        }
      }
      if os[0] == NoMatch && rest.Parsed? {
        var i: nat :| Wins(os[1..], i);
        assert Wins(os, i + 1);
      }
    }
  }

  /** perm lists every index below n once. */
  ghost predicate Permutation(perm: seq<nat>, n: nat) {
    && |perm| == n
    && (forall k :: 0 <= k < n ==> perm[k] < n)
    && (forall j, k :: 0 <= j < k < n ==> perm[j] != perm[k])
    && (forall i :: 0 <= i < n ==> i in perm)
  }

  ghost predicate Permuted(os: seq<Outcome>, rs: seq<Outcome>, perm: seq<nat>) {
    |rs| == |os| && Permutation(perm, |os|) && forall k: nat :: k < |os| ==> rs[k] == os[perm[k]]
  }

  lemma {:induction false} WinnersCorrespond(os: seq<Outcome>, rs: seq<Outcome>, perm: seq<nat>, k: nat)
    requires Permuted(os, rs, perm) && k < |os|
    ensures Wins(rs, k) <==> Wins(os, perm[k])
  {
    if Wins(rs, k) {
      forall j | 0 <= j < |os| && j != perm[k]
        ensures os[j] == NoMatch
      {
        assert j in perm;
        var m: nat :| m < |perm| && perm[m] == j;
        assert rs[m] == os[j];
      }
    }
  }

  lemma {:induction false} LosersCorrespond(os: seq<Outcome>, rs: seq<Outcome>, perm: seq<nat>)
    requires Permuted(os, rs, perm)
    ensures (forall j :: 0 <= j < |os| ==> os[j] == NoMatch) <==> (forall j :: 0 <= j < |rs| ==> rs[j] == NoMatch)
  {
    if forall j :: 0 <= j < |rs| ==> rs[j] == NoMatch {
      forall i | 0 <= i < |os|
        ensures os[i] == NoMatch
      {
        assert i in perm;
        var m: nat :| m < |perm| && perm[m] == i;
        assert rs[m] == os[i];
      }
    }
  }

  lemma {:induction false} ChooseInAnyOrder(ps: seq<Parser>, os: seq<Outcome>, qs: seq<Parser>, rs: seq<Outcome>,
          perm: seq<nat>)
    requires |ps| == |os| == |qs| && Permuted(os, rs, perm) && forall k: nat :: k < |ps| ==> qs[k] == ps[perm[k]]
    ensures Choose(qs, rs) == Choose(ps, os)
  {
    ChooseMeaning(ps, os);
    ChooseMeaning(qs, rs);
    LosersCorrespond(os, rs, perm);
    hide Wins, Choose;
    if Choose(ps, os).Parsed? {
      var i: nat :| Wins(os, i);
      WinnerInRange(os, i);
      var k: nat :| k < |perm| && perm[k] == i;
      WinnersCorrespond(os, rs, perm, k);
    } else if Choose(qs, rs).Parsed? {
      var k: nat :| Wins(rs, k);
      WinnerInRange(rs, k);
      WinnersCorrespond(os, rs, perm, k);
    }
  }

  lemma {:induction false} WinnerInRange(os: seq<Outcome>, i: nat)
    requires Wins(os, i)
    ensures i < |os|
  {
  }

  lemma {:induction false} AltAt(E: Env, ps: seq<Parser>, sv: string, fuel: nat, i: nat)
    requires i < |ps|
    ensures ParseAlts(E, ps, sv, fuel)[i] == Parse(E, ps[i], sv, fuel)
  {
    if i > 0 {
      AltAt(E, ps[1..], sv, fuel, i - 1);
    }
  }

  /** Reordering the alternatives changes nothing: at most one of them may match. */
  lemma {:induction false} AlternativesInAnyOrder(E: Env, ps: seq<Parser>, qs: seq<Parser>, perm: seq<nat>, sv: string,
          fuel: nat)
    requires |ps| == |qs| && Permutation(perm, |ps|) && forall k :: 0 <= k < |ps| ==> qs[k] == ps[perm[k]]
    ensures Parse(E, Or(qs), sv, fuel) == Parse(E, Or(ps), sv, fuel)
  {
    var os, rs := ParseAlts(E, ps, sv, fuel), ParseAlts(E, qs, sv, fuel);
    forall k: nat | k < |ps|
      ensures rs[k] == os[perm[k]]
    {
      AltAt(E, qs, sv, fuel, k);
      AltAt(E, ps, sv, fuel, perm[k]);
    }
    ChooseInAnyOrder(ps, os, qs, rs, perm);
  }

  // ---- The bound on nesting does not matter ----

  /** A result that was reached stays the same when deeper nesting is allowed. */
  lemma {:induction false} MoreFuel(E: Env, p: Parser, sv: string, fuel: nat)
    ensures Parse(E, p, sv, fuel) != Stuck ==> Parse(E, p, sv, fuel + 1) == Parse(E, p, sv, fuel)
    decreases fuel, p, 0, 0
  {
    match p
    case Entity(x) =>
      if fuel > 0 && x in E {
        MoreFuel(E, E[x], sv, fuel - 1);
      }
    case Opt(args) =>
      if |args| == 1 {
        MoreFuel(E, args[0], sv, fuel);
      }
    case List(q, m) => MoreFuelItems(E, q, sv, m, fuel);
    case And(ps) => MoreFuelParts(E, ps, sv, fuel);
    case Or(ps) =>
      if Parse(E, p, sv, fuel) != Stuck {
        MoreFuelAlts(E, ps, sv, fuel);
      }
    case _ =>
  }

  lemma {:induction false} MoreFuelItems(E: Env, q: Parser, sv: string, need: nat, fuel: nat)
    ensures ParseItems(E, q, sv, need, fuel) != SomeStuck ==>
      ParseItems(E, q, sv, need, fuel + 1) == ParseItems(E, q, sv, need, fuel)
    decreases fuel, q, 1, |sv|
  {
    MoreFuel(E, q, sv, fuel);
    var o := Parse(E, q, sv, fuel);
    if o.Parsed? && 0 < o.consumed <= |sv| {
      MoreFuelItems(E, q, sv[o.consumed..], if need > 0 then need - 1 else 0, fuel);
    }
  }

  lemma {:induction false} MoreFuelParts(E: Env, ps: seq<Parser>, sv: string, fuel: nat)
    ensures ParseParts(E, ps, sv, fuel) != SomeStuck ==> ParseParts(E, ps, sv, fuel + 1) == ParseParts(E, ps, sv, fuel)
    decreases fuel, ps, 0, 0
  {
    if ps != [] {
      MoreFuel(E, ps[0], sv, fuel);
      var o := Parse(E, ps[0], sv, fuel);
      if o.Parsed? && o.consumed <= |sv| {
        MoreFuelParts(E, ps[1..], sv[o.consumed..], fuel);
      }
    }
  }

  lemma {:induction false} MoreFuelAlts(E: Env, ps: seq<Parser>, sv: string, fuel: nat)
    requires Choose(ps, ParseAlts(E, ps, sv, fuel)) != Stuck
    ensures ParseAlts(E, ps, sv, fuel + 1) == ParseAlts(E, ps, sv, fuel)
    decreases fuel, ps, 0, 0
  {
    if ps != [] {
      MoreFuel(E, ps[0], sv, fuel);
      assert ParseAlts(E, ps, sv, fuel)[1..] == ParseAlts(E, ps[1..], sv, fuel);
      MoreFuelAlts(E, ps[1..], sv, fuel);
    }
  }

  // ---- The loops ----

  method TryWord(word: string, sv0: string) returns (o: Outcome)
    ensures o == ParseWord(word, sv0)
  {
    var sv, cnt := sv0, 0;
    while sv != [] && Blank(sv[0])
      invariant cnt <= |sv0| && sv == sv0[cnt..] && cnt + Blanks(sv) == Blanks(sv0)
      decreases |sv|
    {
      cnt, sv := cnt + 1, sv[1..];
    }
    if !(word <= sv) {
      return NoMatch;
    }
    o := Parsed(TWord(sv0[..cnt + |word|]), |word| + cnt);
  }

  method TryNewLine(sv0: string) returns (o: Outcome)
    ensures o == ParseNewLine(sv0)
  {
    var sv, cnt := sv0, 0;
    while sv != [] && Blank(sv[0])
      invariant cnt <= |sv0| && sv == sv0[cnt..] && cnt + Blanks(sv) == Blanks(sv0)
      decreases |sv|
    {
      cnt, sv := cnt + 1, sv[1..];
    }
    if sv == [] || sv[0] != '\n' {
      return NoMatch;
    }
    o := Parsed(TWord(sv0[..cnt + 1]), cnt + 1);
  }

  function Prepend(ts: seq<Tree>, n: nat, rest: Outcomes): Outcomes {
    if rest.AllParsed? then AllParsed(ts + rest.trees, n + rest.total) else rest
  }

  lemma {:induction false} PrependBefore(ts: seq<Tree>, n: nat, t: Tree, m: nat, rest: Outcomes)
    ensures Prepend(ts, n, Before(t, m, rest)) == Prepend(ts + [t], n + m, rest)
  {
    if rest.AllParsed? {
      assert ts + ([t] + rest.trees) == (ts + [t]) + rest.trees;
    }
  }

  lemma {:induction false} PrependNothing(rest: Outcomes)
    ensures Prepend([], 0, rest) == rest
  {
    if rest.AllParsed? {
      assert [] + rest.trees == rest.trees;
    }
  }

  method TryParse(E: Env, p: Parser, sv: string, fuel: nat) returns (o: Outcome)
    ensures o == Parse(E, p, sv, fuel)
    decreases fuel, p, 0, 0
  {
    match p
    case Entity(x) =>
      if fuel == 0 || x !in E {
        return Stuck;
      }
      var inner := TryParse(E, E[x], sv, fuel - 1);
      o := InEntity(x, inner);
    case Terminal(w) => o := TryWord(w, sv);
    case Keyword(w) => o := TryWord(w, sv);
    case NewLine => o := TryNewLine(sv);
    case Opt(args) =>
      if |args| != 1 {
        return Stuck;
      }
      var inner := TryParse(E, args[0], sv, fuel);
      o := InOpt(inner);
    case List(q, m) => o := TryList(E, q, m, sv, fuel);
    case And(ps) => o := TryAnd(E, ps, sv, fuel);
    case Or(ps) => o := TryOr(E, ps, sv, fuel);
    case Unimplemented => o := NoMatch;
  }

  method TryAnd(E: Env, ps: seq<Parser>, sv: string, fuel: nat) returns (o: Outcome)
    ensures o == InSeq(ParseParts(E, ps, sv, fuel), false)
    decreases fuel, ps, 0, 0
  {
    var obj: seq<Tree>, totalConsumed := [], 0;
    PrependNothing(ParseParts(E, ps, sv, fuel));
    assert ps[0..] == ps && sv[0..] == sv;
    for i := 0 to |ps|
      invariant totalConsumed <= |sv|
      invariant ParseParts(E, ps, sv, fuel) ==
        Prepend(obj, totalConsumed, ParseParts(E, ps[i..], sv[totalConsumed..], fuel))
    {
      var x := TryParse(E, ps[i], sv[totalConsumed..], fuel);
      assert ps[i..][0] == ps[i] && ps[i..][1..] == ps[i + 1..];
      match x
      case Stuck => return Stuck;
      case NoMatch => return NoMatch;
      case Parsed(t, n) =>
        ParseIsSound(E, ps[i], sv[totalConsumed..], fuel);
        PrependBefore(obj, totalConsumed, t, n, ParseParts(E, ps[i + 1..], sv[totalConsumed..][n..], fuel));
        assert sv[totalConsumed..][n..] == sv[totalConsumed + n..];
        obj := obj + [t];
        totalConsumed := totalConsumed + n;
    }
    assert obj + [] == obj;
    o := Parsed(TAnd(obj), totalConsumed);
  }

  lemma {:induction false} NextItem(E: Env, q: Parser, sv: string, fuel: nat, data: seq<Tree>, consumed: nat, need: nat,
          t: Tree, n: nat)
    requires consumed + n <= |sv| && n > 0 && Parse(E, q, sv[consumed..], fuel) == Parsed(t, n)
    ensures Prepend(data, consumed, ParseItems(E, q, sv[consumed..], need, fuel)) ==
              Prepend(data + [t], consumed + n,
                ParseItems(E, q, sv[consumed + n..], if need > 0 then need - 1 else 0, fuel))
  {
    hide Parse;
    assert sv[consumed..][n..] == sv[consumed + n..];
    PrependBefore(data, consumed, t, n, ParseItems(E, q, sv[consumed + n..], if need > 0 then need - 1 else 0, fuel));
  }

  /** What the loop of a list keeps: data and consumed so far, and the whole result as what is still to come. */
  ghost predicate ListState(E: Env, q: Parser, minCount: nat, sv: string, fuel: nat, data: seq<Tree>, consumed: nat,
          i: nat) {
    && consumed <= |sv|
    && ParseItems(E, q, sv, minCount, fuel) ==
         Prepend(data, consumed, ParseItems(E, q, sv[consumed..], if minCount > i then minCount - i else 0, fuel))
  }

  lemma {:induction false} ListStart(E: Env, q: Parser, minCount: nat, sv: string, fuel: nat)
    ensures ListState(E, q, minCount, sv, fuel, [], 0, 0)
  {
    PrependNothing(ParseItems(E, q, sv, minCount, fuel));
    assert sv[0..] == sv;
  }

  /** One turn of the loop: it goes on after a match that consumes something, and ends otherwise. */
  lemma {:induction false} ListTurn(E: Env, q: Parser, minCount: nat, sv: string, fuel: nat, data: seq<Tree>,
          consumed: nat, i: nat, x: Outcome)
    requires ListState(E, q, minCount, sv, fuel, data, consumed, i) && x == Parse(E, q, sv[consumed..], fuel)
    ensures match x
            case Stuck => InSeq(ParseItems(E, q, sv, minCount, fuel), true) == Stuck
            case NoMatch => InSeq(ParseItems(E, q, sv, minCount, fuel), true) == if i < minCount then NoMatch
              else Parsed(TList(data), consumed)
            case Parsed(t, n) =>
              if n == 0 then InSeq(ParseItems(E, q, sv, minCount, fuel), true) == Stuck
              else ListState(E, q, minCount, sv, fuel, data + [t], consumed + n, i + 1)
  {
    hide Parse;
    match x
    case Stuck =>
    case NoMatch => assert data + [] == data;
    case Parsed(t, n) =>
      ParseIsSound(E, q, sv[consumed..], fuel);
      if n > 0 {
        NextItem(E, q, sv, fuel, data, consumed, if minCount > i then minCount - i else 0, t, n);
      }
  }

  method TryList(E: Env, q: Parser, minCount: nat, sv: string, fuel: nat) returns (o: Outcome)
    ensures o == InSeq(ParseItems(E, q, sv, minCount, fuel), true)
    decreases fuel, q, 2, 0
  {
    var data: seq<Tree>, consumed, i: nat := [], 0, 0;
    ListStart(E, q, minCount, sv, fuel);
    assert ListState(E, q, minCount, sv, fuel, data, consumed, i) ==> consumed <= |sv|;
    while true
      invariant consumed <= |sv| && ListState(E, q, minCount, sv, fuel, data, consumed, i)
      decreases |sv| - consumed
    {
      hide ParseItems, Parse, Prepend;
      var x := TryParse(E, q, sv[consumed..], fuel);
      ListTurn(E, q, minCount, sv, fuel, data, consumed, i, x);
      match x
      case Stuck => return Stuck;
      case NoMatch =>
        if i < minCount {
          return NoMatch;
        }
        return Parsed(TList(data), consumed);
      case Parsed(t, n) =>
        if n == 0 {
          return Stuck;
        }
        data := data + [t];
        consumed := consumed + n;
        i := i + 1;
    }
  }


  /** All candidates are tried first. */
  method TryOr(E: Env, ps: seq<Parser>, sv: string, fuel: nat) returns (o: Outcome)
    ensures o == Choose(ps, ParseAlts(E, ps, sv, fuel))
    decreases fuel, ps, 0, 0
  {
    var candidates: seq<Outcome> := [];
    ghost var os := ParseAlts(E, ps, sv, fuel);
    for i := 0 to |ps|
      invariant candidates == os[..i]
      invariant forall j :: 0 <= j < i ==> os[j] != Stuck
    {
      var x := TryParse(E, ps[i], sv, fuel);
      AltAt(E, ps, sv, fuel, i);
      if x == Stuck {
        StuckSpreads(ps, os, i);
        return Stuck;
      }
      candidates := candidates + [x];
    }
    assert candidates == os;
    o := KeepOnly(ps, candidates);
  }

  /** The fold that keeps the only match. */
  method KeepOnly(ps: seq<Parser>, candidates: seq<Outcome>) returns (o: Outcome)
    requires |ps| == |candidates| && Stuck !in candidates
    ensures o == Choose(ps, candidates)
  {
    hide Choose;
    var found, foundIdx: nat := false, 0;
    for i := 0 to |ps|
      invariant found ==> foundIdx < i && candidates[foundIdx].Parsed?
      invariant forall j {:trigger candidates[j]} :: 0 <= j < i ==> (found && j == foundIdx) || candidates[j] == NoMatch
    {
      if candidates[i].Parsed? {
        if found {
          NoSecondWinner(ps, candidates, foundIdx, i);
          return Stuck;
        }
        found, foundIdx := true, i;
      }
    }
    if !found {
      AllFailed(ps, candidates);
      return NoMatch;
    }
    OnlyWinner(ps, candidates, foundIdx);
    o := Parsed(TOr(ps[foundIdx], candidates[foundIdx].tree), candidates[foundIdx].consumed);
  }

  lemma {:induction false} OnlyWinner(ps: seq<Parser>, os: seq<Outcome>, i: nat)
    requires |ps| == |os| && i < |os| && os[i].Parsed?
    requires forall j {:trigger os[j]} :: 0 <= j < |os| ==> j == i || os[j] == NoMatch
    ensures Choose(ps, os) == Parsed(TOr(ps[i], os[i].tree), os[i].consumed)
  {
    ChooseMeaning(ps, os);
    assert Wins(os, i);
  }

  lemma {:induction false} AllFailed(ps: seq<Parser>, os: seq<Outcome>)
    requires |ps| == |os| && forall j {:trigger os[j]} :: 0 <= j < |os| ==> os[j] == NoMatch
    ensures Choose(ps, os) == NoMatch
  {
    ChooseMeaning(ps, os);
  }

  lemma {:induction false} StuckSpreads(ps: seq<Parser>, os: seq<Outcome>, i: nat)
    requires |ps| == |os| && i < |os| && os[i] == Stuck
    ensures Choose(ps, os) == Stuck
  {
    if i > 0 {
      StuckSpreads(ps[1..], os[1..], i - 1);
    }
  }

  lemma {:induction false} NoSecondWinner(ps: seq<Parser>, os: seq<Outcome>, i: nat, j: nat)
    requires |ps| == |os| && i < j < |os| && os[i].Parsed? && os[j].Parsed?
    ensures Choose(ps, os) == Stuck
  {
    ChooseMeaning(ps, os);
    forall k: nat
      ensures !Wins(os, k)
    {
      assert k == i ==> os[j] != NoMatch;
    }
  }
}
