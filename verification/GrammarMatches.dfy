/** What the combinators match and where they fail, stated rule by rule, and that the parser does just that. */
module GrammarMatches {
  import opened Grammar
  import opened GrammarParser
  import opened Wrappers

  // ---- The rules; `fuel` bounds the nesting of entities ----

  /** The first n characters are blanks and the word; where the word is empty, all blanks. */
  ghost predicate WordFits(word: string, sv: string, n: nat) {
    && n <= |sv| && Spelled(word, sv[..n]) && !BeginsBlank(word)
    && (word == "" && n < |sv| ==> !Blank(sv[n]))
  }

  /** Such a word is never found, since its blanks are skipped before it is looked for. */
  predicate BeginsBlank(word: string) {
    word != "" && Blank(word[0])
  }

  ghost predicate NoWord(word: string, sv: string) {
    BeginsBlank(word) || forall n :: 0 <= n <= |sv| ==> !Spelled(word, sv[..n])
  }

  ghost predicate NoLineEnd(sv: string) {
    forall n :: 0 <= n <= |sv| ==> !LineEnd(sv[..n])
  }

  /** Cut points that never go back. */
  ghost predicate Ascending(cuts: seq<nat>, len: nat) {
    && cuts != [] && cuts[0] == 0
    && (forall i :: 0 <= i < |cuts| ==> cuts[i] <= len)
    && (forall i, j :: 0 <= i < j < |cuts| ==> cuts[i] <= cuts[j])
  }

  /** Cut points that go on, each time. */
  ghost predicate Climbing(cuts: seq<nat>, len: nat) {
    && cuts != [] && cuts[0] == 0
    && (forall i :: 0 <= i < |cuts| ==> cuts[i] <= len)
    && (forall i, j :: 0 <= i < j < |cuts| ==> cuts[i] < cuts[j])
  }

  /** From cut to cut, each of the first i parts accepts its tree. */
  ghost predicate PartsMatch(E: Env, ps: seq<Parser>, sv: string, fuel: nat, i: nat, ts: seq<Tree>, cuts: seq<nat>)
    decreases fuel, ps, 0
  {
    && i <= |ps| && |ts| == i && |cuts| == i + 1 && Ascending(cuts, |sv|)
    && forall j {:trigger ts[j]} ::
      0 <= j < i ==> Accepts(E, ps[j], sv[cuts[j]..], fuel, ts[j], cuts[j + 1] - cuts[j])
  }

  /** From cut to cut, the item accepts a tree, and it consumes something. */
  ghost predicate ItemsMatch(E: Env, q: Parser, sv: string, fuel: nat, ts: seq<Tree>, cuts: seq<nat>)
    decreases fuel, q, 3
  {
    && |cuts| == |ts| + 1 && Climbing(cuts, |sv|)
    && forall i {:trigger ts[i]} ::
      0 <= i < |ts| ==> Accepts(E, q, sv[cuts[i]..], fuel, ts[i], cuts[i + 1] - cuts[i])
  }

  /** p matches the first n characters with the tree t. */
  ghost predicate Accepts(E: Env, p: Parser, sv: string, fuel: nat, t: Tree, n: nat)
    decreases fuel, p, 2
  {
    && n <= |sv|
    && match p
       case Entity(x) =>
         fuel > 0 && x in E && t.TEntity? && t.name == x && Accepts(E, E[x], sv, fuel - 1, t.kid, n)
       case Terminal(w) => WordFits(w, sv, n) && t == TWord(sv[..n])
       case Keyword(w) => WordFits(w, sv, n) && t == TWord(sv[..n])
       case NewLine => LineEnd(sv[..n]) && t == TWord(sv[..n])
       case Opt(args) =>
         // taken wherever it matches
         && |args| == 1 && t.TOpt?
         && if t.some.Some? then Accepts(E, args[0], sv, fuel, t.some.value, n)
            else n == 0 && Rejects(E, args[0], sv, fuel)
       case List(q, m) =>
         // goes on as long as the item matches
         && t.TList? && |t.kids| >= m && Rejects(E, q, sv[n..], fuel)
         && exists cuts: seq<nat> :: ItemsMatch(E, q, sv, fuel, t.kids, cuts) && cuts[|t.kids|] == n
       case And(ps) =>
         && t.TAnd?
         && exists cuts: seq<nat> :: PartsMatch(E, ps, sv, fuel, |ps|, t.kids, cuts) && cuts[|ps|] == n
       case Or(ps) =>
         // no other alternative matches
         && t.TOr?
         && exists i :: 0 <= i < |ps| && ps[i] == t.alt && Accepts(E, ps[i], sv, fuel, t.kid, n) &&
              forall j :: 0 <= j < |ps| && j != i ==> Rejects(E, ps[j], sv, fuel)
       case Unimplemented => false
  }

  /** p does not match here. */
  ghost predicate Rejects(E: Env, p: Parser, sv: string, fuel: nat)
    decreases fuel, p, 2
  {
    match p
    case Entity(x) => fuel > 0 && x in E && Rejects(E, E[x], sv, fuel - 1)
    case Terminal(w) => NoWord(w, sv)
    case Keyword(w) => NoWord(w, sv)
    case NewLine => NoLineEnd(sv)
    case Opt(_) => false
    case List(q, m) =>
      // too few items
      exists ts, cuts: seq<nat> ::
        ItemsMatch(E, q, sv, fuel, ts, cuts) && |ts| < m && Rejects(E, q, sv[cuts[|ts|]..], fuel)
    case And(ps) => exists i: nat :: FailsAt(E, ps, sv, fuel, i)
    case Or(ps) => forall j :: 0 <= j < |ps| ==> Rejects(E, ps[j], sv, fuel)
    case Unimplemented => true
  }

  /** Part i does not match where the parts before it end. */
  ghost predicate FailsAt(E: Env, ps: seq<Parser>, sv: string, fuel: nat, i: nat)
    decreases fuel, ps, 1
  {
    && i < |ps|
    && exists ts, cuts: seq<nat> ::
      PartsMatch(E, ps, sv, fuel, i, ts, cuts) && Rejects(E, ps[i], sv[cuts[i]..], fuel)
  }

  // ---- Words ----

  lemma {:induction false} WordStands(w: string, sv: string)
    requires w <= sv[Blanks(sv)..]
    ensures Spelled(w, sv[..Blanks(sv) + |w|]) && !BeginsBlank(w)
  {
    hide Blanks;
    var k := Blanks(sv);
    var s := sv[..k + |w|];
    assert s[|s| - |w|..] == sv[k..][..|w|] == w;
    assert forall i :: 0 <= i < k ==> s[i] == sv[i];
    assert w != "" ==> sv[k] == w[0];
  }

  lemma {:induction false} WordMeaning(w: string, sv: string)
    ensures forall t, n: nat :: ParseWord(w, sv) == Parsed(t, n) <==> WordFits(w, sv, n) && t == TWord(sv[..n])
    ensures ParseWord(w, sv) == NoMatch <==> NoWord(w, sv)
  {
    hide Spelled, BeginsBlank;
    var k := Blanks(sv);
    forall n | 0 <= n <= |sv| && Spelled(w, sv[..n]) && !BeginsBlank(w)
      ensures w != "" ==> n == k + |w|
      ensures n <= k + |w| && w <= sv[k..]
    {
      SpelledAt(w, sv, n);
    }
    if w <= sv[k..] {
      WordStands(w, sv);
    }
    assert forall n: nat :: WordFits(w, sv, n) ==> n == k + |w|;
  }

  /** Where a word stands behind blanks. */
  lemma {:induction false} SpelledAt(w: string, sv: string, n: nat)
    requires n <= |sv| && Spelled(w, sv[..n]) && !BeginsBlank(w)
    ensures w != "" ==> n == Blanks(sv) + |w|
    ensures n <= Blanks(sv) + |w| && w <= sv[Blanks(sv)..]
  {
    var k, m := Blanks(sv), n - |w|;
    assert sv[..n][m..] == w && sv[m..n] == w;
    assert forall i :: 0 <= i < m ==> Blank(sv[..n][i]) && sv[..n][i] == sv[i];
    if w != "" {
      assert sv[m] == w[0];
      assert m == k;
    } else {
      assert n <= k;
    }
  }

  lemma {:induction false} NewLineMeaning(sv: string)
    ensures forall t, n: nat ::
      ParseNewLine(sv) == Parsed(t, n) <==> n <= |sv| && LineEnd(sv[..n]) && t == TWord(sv[..n])
    ensures ParseNewLine(sv) == NoMatch <==> NoLineEnd(sv)
  {
    var k := Blanks(sv);
    forall n: nat | n <= |sv| && LineEnd(sv[..n])
      ensures n == k + 1 && sv[k] == '\n'
    {
      assert forall i :: 0 <= i < n ==> sv[..n][i] == sv[i];
      assert sv[n - 1] == '\n' && !Blank(sv[n - 1]);
    }
    if k < |sv| && sv[k] == '\n' {
      assert forall i :: 0 <= i < k ==> sv[..k + 1][i] == sv[i];
      assert LineEnd(sv[..k + 1]);
    }
  }

  // ---- Sequences ----

  function Later(cuts: seq<nat>, n: nat): (r: seq<nat>)
    ensures |r| == |cuts| && forall i :: 0 <= i < |cuts| ==> r[i] == cuts[i] + n
  {
    seq(|cuts|, i requires 0 <= i < |cuts| => cuts[i] + n)
  }

  function Sooner(cuts: seq<nat>, n: nat): (r: seq<nat>)
    requires forall i :: 0 <= i < |cuts| ==> n <= cuts[i]
    ensures |r| == |cuts| && forall i :: 0 <= i < |cuts| ==> r[i] == cuts[i] - n
  {
    seq(|cuts|, i requires 0 <= i < |cuts| => cuts[i] - n)
  }

  lemma {:induction false} LaterCuts(cuts: seq<nat>, n: nat, len: nat)
    ensures Ascending(cuts, len) || Climbing(cuts, len) ==> cuts != [] && cuts[0] == 0
    ensures Ascending(cuts, len) ==> Ascending([0] + Later(cuts, n), n + len)
    ensures Climbing(cuts, len) && n > 0 ==> Climbing([0] + Later(cuts, n), n + len)
  {
  }

  lemma {:induction false} SoonerCuts(cuts: seq<nat>, len: nat)
    requires |cuts| > 1 && (Ascending(cuts, len) || Climbing(cuts, len))
    ensures cuts[1] <= len && forall i :: 0 <= i < |cuts| - 1 ==> cuts[1] <= cuts[1..][i]
    ensures Ascending(cuts, len) ==> Ascending(Sooner(cuts[1..], cuts[1]), len - cuts[1])
    ensures Climbing(cuts, len) ==> 0 < cuts[1] && Climbing(Sooner(cuts[1..], cuts[1]), len - cuts[1])
    ensures cuts == [0] + Later(Sooner(cuts[1..], cuts[1]), cuts[1])
  {
  }

  /** p accepts t between two cuts. */
  ghost predicate Stretch(E: Env, p: Parser, sv: string, fuel: nat, t: Tree, a: nat, b: nat) {
    a <= b <= |sv| && Accepts(E, p, sv[a..], fuel, t, b - a)
  }

  ghost predicate Stretches(E: Env, ps: seq<Parser>, sv: string, fuel: nat, ts: seq<Tree>, cuts: seq<nat>) {
    && |ts| <= |ps| && |cuts| == |ts| + 1
    && forall j {:trigger ts[j]} :: 0 <= j < |ts| ==> Stretch(E, ps[j], sv, fuel, ts[j], cuts[j], cuts[j + 1])
  }

  lemma {:induction false} PartsAreStretches(E: Env, ps: seq<Parser>, sv: string, fuel: nat, i: nat, ts: seq<Tree>,
          cuts: seq<nat>)
    ensures PartsMatch(E, ps, sv, fuel, i, ts, cuts) <==>
            i == |ts| && Ascending(cuts, |sv|) && Stretches(E, ps, sv, fuel, ts, cuts)
    ensures Stretches(E, ps, sv, fuel, ts, cuts) ==> |ts| <= |ps| && |cuts| == |ts| + 1
  {
  }

  lemma {:induction false} StretchMoves(E: Env, p: Parser, sv: string, fuel: nat, t: Tree, n: nat, a: nat, b: nat)
    requires n <= |sv|
    ensures Stretch(E, p, sv[n..], fuel, t, a, b) <==> Stretch(E, p, sv, fuel, t, a + n, b + n)
  {
    hide Accepts;
    if a <= |sv| - n {
      assert sv[n..][a..] == sv[a + n..];
    }
  }

  lemma {:induction false} StretchFirst(E: Env, p: Parser, sv: string, fuel: nat, t: Tree, n: nat)
    ensures Stretch(E, p, sv, fuel, t, 0, n) <==> n <= |sv| && Accepts(E, p, sv, fuel, t, n)
  {
    hide Accepts;
    assert sv[0..] == sv;
  }

  lemma {:induction false} StretchAt(E: Env, ps: seq<Parser>, sv: string, fuel: nat, ts: seq<Tree>, cuts: seq<nat>,
          j: nat)
    requires Stretches(E, ps, sv, fuel, ts, cuts) && j < |ts|
    ensures j < |ps| && |cuts| == |ts| + 1 && Stretch(E, ps[j], sv, fuel, ts[j], cuts[j], cuts[j + 1])
  {
    assert ts[j] == ts[j];
  }

  lemma {:induction false} StretchLater(E: Env, ps: seq<Parser>, sv: string, fuel: nat, t: Tree, n: nat,
          ts: seq<Tree>, cuts: seq<nat>)
    requires ps != [] && n <= |sv| && Accepts(E, ps[0], sv, fuel, t, n)
    requires |ts| < |ps| && cuts != [] && cuts[0] == 0 && Stretches(E, ps[1..], sv[n..], fuel, ts, cuts)
    ensures Stretches(E, ps, sv, fuel, [t] + ts, [0] + Later(cuts, n))
  {
    hide Stretch, Accepts;
    var ts', cuts' := [t] + ts, [0] + Later(cuts, n);
    forall j | 0 <= j < |ts'|
      ensures Stretch(E, ps[j], sv, fuel, ts'[j], cuts'[j], cuts'[j + 1])
    {
      if j == 0 {
        StretchFirst(E, ps[0], sv, fuel, t, n);
      } else {
        StretchAt(E, ps[1..], sv[n..], fuel, ts, cuts, j - 1);
        StretchMoves(E, ps[j], sv, fuel, ts[j - 1], n, cuts[j - 1], cuts[j]);
      }
    }
  }

  lemma {:induction false} StretchSooner(E: Env, ps: seq<Parser>, sv: string, fuel: nat, ts: seq<Tree>, cuts: seq<nat>,
          rest: seq<nat>)
    requires ts != [] && |cuts| > 1 && cuts == [0] + Later(rest, cuts[1]) && Stretches(E, ps, sv, fuel, ts, cuts)
    ensures cuts[1] <= |sv| && ps != [] && Accepts(E, ps[0], sv, fuel, ts[0], cuts[1])
    ensures Stretches(E, ps[1..], sv[cuts[1]..], fuel, ts[1..], rest)
  {
    hide Stretch, Accepts;
    var n := cuts[1];
    StretchAt(E, ps, sv, fuel, ts, cuts, 0);
    StretchFirst(E, ps[0], sv, fuel, ts[0], n);
    forall j | 0 <= j < |ts| - 1
      ensures Stretch(E, ps[1..][j], sv[n..], fuel, ts[1..][j], rest[j], rest[j + 1])
    {
      StretchAt(E, ps, sv, fuel, ts, cuts, j + 1);
      StretchMoves(E, ps[j + 1], sv, fuel, ts[j + 1], n, rest[j], rest[j + 1]);
    }
  }

  lemma {:induction false} FirstPart(E: Env, ps: seq<Parser>, sv: string, fuel: nat, t: Tree, n: nat, i: nat,
          ts: seq<Tree>, cuts: seq<nat>)
    requires ps != [] && n <= |sv| && Accepts(E, ps[0], sv, fuel, t, n)
    requires PartsMatch(E, ps[1..], sv[n..], fuel, i, ts, cuts)
    ensures PartsMatch(E, ps, sv, fuel, i + 1, [t] + ts, [0] + Later(cuts, n))
  {
    hide *;
    PartsAreStretches(E, ps[1..], sv[n..], fuel, i, ts, cuts);
    LaterCuts(cuts, n, |sv| - n);
    StretchLater(E, ps, sv, fuel, t, n, ts, cuts);
    PartsAreStretches(E, ps, sv, fuel, i + 1, [t] + ts, [0] + Later(cuts, n));
  }

  lemma {:induction false} WithoutFirst(E: Env, ps: seq<Parser>, sv: string, fuel: nat, i: nat, ts: seq<Tree>,
          cuts: seq<nat>)
    returns (rest: seq<nat>)
    requires i > 0 && PartsMatch(E, ps, sv, fuel, i, ts, cuts)
    ensures |ts| == |rest| == i <= |ps| && |cuts| == i + 1
    ensures cuts[1] <= |sv| && Accepts(E, ps[0], sv, fuel, ts[0], cuts[1])
    ensures PartsMatch(E, ps[1..], sv[cuts[1]..], fuel, i - 1, ts[1..], rest) && cuts == [0] + Later(rest, cuts[1])
  {
    hide *;
    PartsAreStretches(E, ps, sv, fuel, i, ts, cuts);
    SoonerCuts(cuts, |sv|);
    rest := Sooner(cuts[1..], cuts[1]);
    StretchSooner(E, ps, sv, fuel, ts, cuts, rest);
    PartsAreStretches(E, ps[1..], sv[cuts[1]..], fuel, i - 1, ts[1..], rest);
  }

  // ---- The parser does what the rules say ----

  /** The rules for p at this bound are what the parser computes. */
  ghost predicate Agree(E: Env, p: Parser, sv: string, fuel: nat) {
    && (forall t, n: nat :: Parse(E, p, sv, fuel) == Parsed(t, n) <==> Accepts(E, p, sv, fuel, t, n))
    && (Parse(E, p, sv, fuel) == NoMatch <==> Rejects(E, p, sv, fuel))
  }

  /** What the parser makes of a sequence of parts is what the rules say of it. */
  ghost predicate PartsAgree(E: Env, ps: seq<Parser>, sv: string, fuel: nat) {
    var o := ParseParts(E, ps, sv, fuel);
    && (forall ts, n: nat :: o == AllParsed(ts, n) <==> PartsEnd(E, ps, sv, fuel, ts, n))
    && (o == SomeNoMatch <==> SomePartFails(E, ps, sv, fuel))
  }

  ghost predicate SomePartFails(E: Env, ps: seq<Parser>, sv: string, fuel: nat) {
    exists i: nat :: FailsAt(E, ps, sv, fuel, i)
  }

  ghost predicate PartsEnd(E: Env, ps: seq<Parser>, sv: string, fuel: nat, ts: seq<Tree>, n: nat) {
    exists cuts: seq<nat> :: PartsMatch(E, ps, sv, fuel, |ps|, ts, cuts) && cuts[|ps|] == n
  }

  lemma {:induction false} NoParts(E: Env, sv: string, fuel: nat)
    ensures PartsAgree(E, [], sv, fuel)
  {
    assert PartsMatch(E, [], sv, fuel, 0, [], [0]);
  }

  lemma {:induction false} PartsEndStep(E: Env, ps: seq<Parser>, sv: string, fuel: nat, ts: seq<Tree>, n: nat)
    requires ps != []
    ensures PartsEnd(E, ps, sv, fuel, ts, n) <==>
            ts != [] && exists k: nat :: FirstPartEnds(E, ps, sv, fuel, ts, n, k)
  {
    hide Accepts;
    if PartsEnd(E, ps, sv, fuel, ts, n) {
      var cuts: seq<nat> :| PartsMatch(E, ps, sv, fuel, |ps|, ts, cuts) && cuts[|ps|] == n;
      var rest := WithoutFirst(E, ps, sv, fuel, |ps|, ts, cuts);
      assert PartsEnd(E, ps[1..], sv[cuts[1]..], fuel, ts[1..], n - cuts[1]);
      assert FirstPartEnds(E, ps, sv, fuel, ts, n, cuts[1]);
    }
    if ts != [] && exists k: nat :: FirstPartEnds(E, ps, sv, fuel, ts, n, k) {
      var k: nat :| FirstPartEnds(E, ps, sv, fuel, ts, n, k);
      var cuts: seq<nat> :| PartsMatch(E, ps[1..], sv[k..], fuel, |ps| - 1, ts[1..], cuts) && cuts[|ps| - 1] == n - k;
      FirstPart(E, ps, sv, fuel, ts[0], k, |ps| - 1, ts[1..], cuts);
      assert [ts[0]] + ts[1..] == ts;
      assert ([0] + Later(cuts, k))[|ps|] == n;
    }
  }

  ghost predicate FirstPartEnds(E: Env, ps: seq<Parser>, sv: string, fuel: nat, ts: seq<Tree>, n: nat, k: nat)
    requires ps != []
  {
    && ts != [] && k <= n && k <= |sv| && Accepts(E, ps[0], sv, fuel, ts[0], k)
    && PartsEnd(E, ps[1..], sv[k..], fuel, ts[1..], n - k)
  }

  lemma {:induction false} OpenFail(E: Env, ps: seq<Parser>, sv: string, fuel: nat, i: nat)
    returns (ts: seq<Tree>, cuts: seq<nat>)
    requires FailsAt(E, ps, sv, fuel, i)
    ensures i < |ps| && PartsMatch(E, ps, sv, fuel, i, ts, cuts) && Rejects(E, ps[i], sv[cuts[i]..], fuel)
  {
    ts, cuts :| PartsMatch(E, ps, sv, fuel, i, ts, cuts) && Rejects(E, ps[i], sv[cuts[i]..], fuel);
  }

  /** Some part fails: the first one, or one behind the place where the first one ends. */
  lemma {:induction false} FailStep(E: Env, ps: seq<Parser>, sv: string, fuel: nat)
    requires ps != []
    ensures SomePartFails(E, ps, sv, fuel) <==>
            Rejects(E, ps[0], sv, fuel) || exists t, k: nat :: LaterPartFails(E, ps, sv, fuel, t, k)
  {
    hide Accepts, Rejects;
    if i: nat :| FailsAt(E, ps, sv, fuel, i) {
      var ts, cuts := OpenFail(E, ps, sv, fuel, i);
      if i == 0 {
        assert sv[0..] == sv;
      } else {
        var rest := WithoutFirst(E, ps, sv, fuel, i, ts, cuts);
        assert sv[cuts[1]..][rest[i - 1]..] == sv[cuts[i]..] && ps[1..][i - 1] == ps[i];
        assert FailsAt(E, ps[1..], sv[cuts[1]..], fuel, i - 1);
        assert LaterPartFails(E, ps, sv, fuel, ts[0], cuts[1]);
      }
    }
    if Rejects(E, ps[0], sv, fuel) {
      assert PartsMatch(E, ps, sv, fuel, 0, [], [0]) && sv[0..] == sv;
      assert FailsAt(E, ps, sv, fuel, 0);
    }
    if t, k: nat :| LaterPartFails(E, ps, sv, fuel, t, k) {
      var i: nat :| FailsAt(E, ps[1..], sv[k..], fuel, i);
      var ts, cuts := OpenFail(E, ps[1..], sv[k..], fuel, i);
      FirstPart(E, ps, sv, fuel, t, k, i, ts, cuts);
      var cuts' := [0] + Later(cuts, k);
      assert sv[k..][cuts[i]..] == sv[cuts'[i + 1]..] && ps[1..][i] == ps[i + 1];
      assert FailsAt(E, ps, sv, fuel, i + 1);
    }
  }

  ghost predicate LaterPartFails(E: Env, ps: seq<Parser>, sv: string, fuel: nat, t: Tree, k: nat)
    requires ps != []
  {
    k <= |sv| && Accepts(E, ps[0], sv, fuel, t, k) && SomePartFails(E, ps[1..], sv[k..], fuel)
  }

  /** One part more, in front. */
  lemma {:induction false} PartsAgreeStep(E: Env, ps: seq<Parser>, sv: string, fuel: nat)
    requires ps != [] && Agree(E, ps[0], sv, fuel)
    requires var o := Parse(E, ps[0], sv, fuel);
             o.Parsed? ==> o.consumed <= |sv| && PartsAgree(E, ps[1..], sv[o.consumed..], fuel)
    ensures PartsAgree(E, ps, sv, fuel)
  {
    var o := Parse(E, ps[0], sv, fuel);
    FailStep(E, ps, sv, fuel);
    hide FailsAt, PartsMatch, Parse, PartsEnd, SomePartFails;
    forall ts, n: nat
      ensures ParseParts(E, ps, sv, fuel) == AllParsed(ts, n) <==> PartsEnd(E, ps, sv, fuel, ts, n)
    {
      PartsEndStep(E, ps, sv, fuel, ts, n);
      if o.Parsed? && ts != [] {
        assert ts == [ts[0]] + ts[1..];
        assert FirstPartEnds(E, ps, sv, fuel, ts, n, o.consumed) <==>
          ts[0] == o.tree && o.consumed <= n &&
          PartsEnd(E, ps[1..], sv[o.consumed..], fuel, ts[1..], n - o.consumed);
      }
    }
    forall t, k: nat | LaterPartFails(E, ps, sv, fuel, t, k)
      ensures o == Parsed(t, k) && ParseParts(E, ps[1..], sv[k..], fuel) == SomeNoMatch
    {
    }
    if o.Parsed? && ParseParts(E, ps[1..], sv[o.consumed..], fuel) == SomeNoMatch {
      assert LaterPartFails(E, ps, sv, fuel, o.tree, o.consumed);
    }
  }

  // ---- Lists ----

  /** The items end behind n characters, where no further one matches. */
  ghost predicate ItemsEnd(E: Env, q: Parser, sv: string, fuel: nat, ts: seq<Tree>, n: nat) {
    && n <= |sv| && Rejects(E, q, sv[n..], fuel)
    && exists cuts: seq<nat> :: ItemsMatch(E, q, sv, fuel, ts, cuts) && cuts[|ts|] == n
  }

  ghost predicate TooFew(E: Env, q: Parser, sv: string, need: nat, fuel: nat) {
    exists ts, n: nat :: ItemsEnd(E, q, sv, fuel, ts, n) && |ts| < need
  }

  /** What the parser makes of a list is what the rules say of it. */
  ghost predicate ItemsAgree(E: Env, q: Parser, sv: string, need: nat, fuel: nat) {
    var o := ParseItems(E, q, sv, need, fuel);
    && (forall ts, n: nat :: o == AllParsed(ts, n) <==> ItemsEnd(E, q, sv, fuel, ts, n) && |ts| >= need)
    && (o == SomeNoMatch <==> TooFew(E, q, sv, need, fuel))
  }

  lemma {:induction false} ItemsAreStretches(E: Env, q: Parser, sv: string, fuel: nat, ts: seq<Tree>, cuts: seq<nat>)
    ensures ItemsMatch(E, q, sv, fuel, ts, cuts) <==>
            && Climbing(cuts, |sv|)
            && Stretches(E, seq(|ts|, _ => q), sv, fuel, ts, cuts)
    ensures ItemsMatch(E, q, sv, fuel, ts, cuts) ==> |cuts| == |ts| + 1
  {
  }

  lemma {:induction false} FirstItem(E: Env, q: Parser, sv: string, fuel: nat, t: Tree, n: nat, ts: seq<Tree>,
          cuts: seq<nat>)
    requires 0 < n <= |sv| && Accepts(E, q, sv, fuel, t, n) && ItemsMatch(E, q, sv[n..], fuel, ts, cuts)
    ensures |cuts| == |ts| + 1 && ItemsMatch(E, q, sv, fuel, [t] + ts, [0] + Later(cuts, n))
  {
    hide *;
    var qs := seq(|ts| + 1, _ => q);
    assert qs[1..] == seq(|ts|, _ => q);
    ItemsAreStretches(E, q, sv[n..], fuel, ts, cuts);
    LaterCuts(cuts, n, |sv| - n);
    StretchLater(E, qs, sv, fuel, t, n, ts, cuts);
    ItemsAreStretches(E, q, sv, fuel, [t] + ts, [0] + Later(cuts, n));
  }

  lemma {:induction false} WithoutFirstItem(E: Env, q: Parser, sv: string, fuel: nat, ts: seq<Tree>, cuts: seq<nat>)
    returns (rest: seq<nat>)
    requires ts != [] && ItemsMatch(E, q, sv, fuel, ts, cuts)
    ensures |ts| == |rest| && |cuts| == |ts| + 1
    ensures 0 < cuts[1] <= |sv| && Accepts(E, q, sv, fuel, ts[0], cuts[1])
    ensures ItemsMatch(E, q, sv[cuts[1]..], fuel, ts[1..], rest) && cuts == [0] + Later(rest, cuts[1])
  {
    hide *;
    var qs := seq(|ts|, _ => q);
    assert qs[1..] == seq(|ts| - 1, _ => q);
    ItemsAreStretches(E, q, sv, fuel, ts, cuts);
    SoonerCuts(cuts, |sv|);
    rest := Sooner(cuts[1..], cuts[1]);
    StretchSooner(E, qs, sv, fuel, ts, cuts, rest);
    ItemsAreStretches(E, q, sv[cuts[1]..], fuel, ts[1..], rest);
  }

  ghost predicate FirstItemEnds(E: Env, q: Parser, sv: string, fuel: nat, ts: seq<Tree>, n: nat, k: nat) {
    && ts != [] && 0 < k <= n && k <= |sv| && Accepts(E, q, sv, fuel, ts[0], k)
    && ItemsEnd(E, q, sv[k..], fuel, ts[1..], n - k)
  }

  lemma {:induction false} OpenItems(E: Env, q: Parser, sv: string, fuel: nat, ts: seq<Tree>, n: nat)
    returns (cuts: seq<nat>)
    requires ItemsEnd(E, q, sv, fuel, ts, n)
    ensures n <= |sv| && Rejects(E, q, sv[n..], fuel)
    ensures ItemsMatch(E, q, sv, fuel, ts, cuts) && |cuts| == |ts| + 1 && cuts[|ts|] == n && (ts == [] ==> n == 0)
  {
    cuts :| ItemsMatch(E, q, sv, fuel, ts, cuts) && cuts[|ts|] == n;
  }

  lemma {:induction false} MakeItems(E: Env, q: Parser, sv: string, fuel: nat, ts: seq<Tree>, cuts: seq<nat>, n: nat)
    requires ItemsMatch(E, q, sv, fuel, ts, cuts) && |cuts| == |ts| + 1 && cuts[|ts|] == n
    requires n <= |sv| && Rejects(E, q, sv[n..], fuel)
    ensures ItemsEnd(E, q, sv, fuel, ts, n)
  {
    hide ItemsMatch, Rejects;
  }

  lemma {:induction false} NoItems(E: Env, q: Parser, sv: string, fuel: nat, n: nat)
    ensures ItemsEnd(E, q, sv, fuel, [], n) <==> n == 0 && Rejects(E, q, sv, fuel)
  {
    hide ItemsMatch, Rejects, ItemsEnd;
    if ItemsEnd(E, q, sv, fuel, [], n) {
      var cuts := OpenItems(E, q, sv, fuel, [], n);
    }
    assert sv[0..] == sv;
    NothingMatches(E, q, sv, fuel);
    if n == 0 && Rejects(E, q, sv, fuel) {
      MakeItems(E, q, sv, fuel, [], [0], 0);
    }
  }

  lemma {:induction false} NothingMatches(E: Env, q: Parser, sv: string, fuel: nat)
    ensures ItemsMatch(E, q, sv, fuel, [], [0])
  {
  }

  lemma {:induction false} SomeItems(E: Env, q: Parser, sv: string, fuel: nat, ts: seq<Tree>, n: nat) returns (k: nat)
    requires ts != [] && ItemsEnd(E, q, sv, fuel, ts, n)
    ensures FirstItemEnds(E, q, sv, fuel, ts, n, k)
  {
    hide ItemsMatch, Rejects, ItemsEnd, Accepts, Later;
    var cuts := OpenItems(E, q, sv, fuel, ts, n);
    var rest := WithoutFirstItem(E, q, sv, fuel, ts, cuts);
    k := cuts[1];
    assert cuts[|ts|] == rest[|ts| - 1] + k;
    assert sv[k..][n - k..] == sv[n..];
    MakeItems(E, q, sv[k..], fuel, ts[1..], rest, n - k);
  }

  lemma {:induction false} OneItemMore(E: Env, q: Parser, sv: string, fuel: nat, ts: seq<Tree>, n: nat, k: nat)
    requires FirstItemEnds(E, q, sv, fuel, ts, n, k)
    ensures ItemsEnd(E, q, sv, fuel, ts, n)
  {
    hide ItemsMatch, Rejects, ItemsEnd, Accepts, Later;
    var cuts := OpenItems(E, q, sv[k..], fuel, ts[1..], n - k);
    FirstItem(E, q, sv, fuel, ts[0], k, ts[1..], cuts);
    assert [ts[0]] + ts[1..] == ts;
    assert ([0] + Later(cuts, k))[|ts|] == n;
    assert sv[k..][n - k..] == sv[n..];
    MakeItems(E, q, sv, fuel, ts, [0] + Later(cuts, k), n);
  }

  /** What ItemsEnd says, in terms of what the parser makes of the first item. */
  lemma {:induction false} ItemsEndStep(E: Env, q: Parser, sv: string, fuel: nat, ts: seq<Tree>, n: nat)
    requires Agree(E, q, sv, fuel)
    requires Parse(E, q, sv, fuel).Parsed? ==> Parse(E, q, sv, fuel).consumed <= |sv|
    ensures var o := Parse(E, q, sv, fuel);
            ItemsEnd(E, q, sv, fuel, ts, n) <==>
              if ts == [] then n == 0 && o.NoMatch?
              else && o.Parsed? && ts[0] == o.tree && 0 < o.consumed <= n
                   && ItemsEnd(E, q, sv[o.consumed..], fuel, ts[1..], n - o.consumed)
  {
    hide ItemsMatch, ItemsEnd, Parse;
    var o := Parse(E, q, sv, fuel);
    if ts == [] {
      NoItems(E, q, sv, fuel, n);
    } else {
      if ItemsEnd(E, q, sv, fuel, ts, n) {
        var k := SomeItems(E, q, sv, fuel, ts, n);
        assert o == Parsed(ts[0], k);
      }
      if && o.Parsed? && ts[0] == o.tree && 0 < o.consumed <= n
         && ItemsEnd(E, q, sv[o.consumed..], fuel, ts[1..], n - o.consumed) {
        assert Accepts(E, q, sv, fuel, ts[0], o.consumed);
        OneItemMore(E, q, sv, fuel, ts, n, o.consumed);
      }
    }
  }

  lemma {:induction false} ItemsUnfold(E: Env, q: Parser, sv: string, need: nat, fuel: nat)
    ensures ParseItems(E, q, sv, need, fuel) ==
            match Parse(E, q, sv, fuel)
            case Stuck => SomeStuck
            case NoMatch => if need > 0 then SomeNoMatch else AllParsed([], 0)
            case Parsed(t, n) =>
              if n == 0 || n > |sv| then SomeStuck
              else Before(t, n, ParseItems(E, q, sv[n..], if need > 0 then need - 1 else 0, fuel))
  {
    hide Parse;
  }

  /** One item more, in front. */
  lemma {:induction false} ItemsAgreeStep(E: Env, q: Parser, sv: string, need: nat, fuel: nat)
    requires Agree(E, q, sv, fuel)
    requires var o := Parse(E, q, sv, fuel); o.Parsed? ==> o.consumed <= |sv|
    requires var o := Parse(E, q, sv, fuel);
             o.Parsed? && o.consumed > 0 ==>
               ItemsAgree(E, q, sv[o.consumed..], if need > 0 then need - 1 else 0, fuel)
    ensures ItemsAgree(E, q, sv, need, fuel)
  {
    hide ItemsMatch, Parse, ItemsEnd, Agree, ParseItems;
    var o, less := Parse(E, q, sv, fuel), if need > 0 then need - 1 else 0;
    ItemsUnfold(E, q, sv, need, fuel);
    forall ts, n: nat
      ensures ParseItems(E, q, sv, need, fuel) == AllParsed(ts, n) <==>
              ItemsEnd(E, q, sv, fuel, ts, n) && |ts| >= need
    {
      ItemsEndStep(E, q, sv, fuel, ts, n);
      if ts != [] {
        assert ts == [ts[0]] + ts[1..];
      }
    }
    if TooFew(E, q, sv, need, fuel) {
      var ts, n: nat :| ItemsEnd(E, q, sv, fuel, ts, n) && |ts| < need;
      ItemsEndStep(E, q, sv, fuel, ts, n);
      if ts != [] {
        assert |ts[1..]| < less;
        assert TooFew(E, q, sv[o.consumed..], less, fuel);
      }
    }
    if o.Parsed? && o.consumed > 0 && TooFew(E, q, sv[o.consumed..], less, fuel) {
      var ts, n: nat :| ItemsEnd(E, q, sv[o.consumed..], fuel, ts, n) && |ts| < less;
      var all := [o.tree] + ts;
      assert all[1..] == ts;
      ItemsEndStep(E, q, sv, fuel, all, n + o.consumed);
    }
    if o.NoMatch? && need > 0 {
      var none: seq<Tree> := [];
      ItemsEndStep(E, q, sv, fuel, none, 0);
      assert |none| < need;
    }
  }

  lemma {:induction false} ListAgrees(E: Env, q: Parser, sv: string, need: nat, fuel: nat)
    requires ItemsAgree(E, q, sv, need, fuel)
    ensures Agree(E, List(q, need), sv, fuel)
  {
    forall t, n: nat
      ensures Parse(E, List(q, need), sv, fuel) == Parsed(t, n) <==> Accepts(E, List(q, need), sv, fuel, t, n)
    {
      ListAccepts(E, q, sv, need, fuel, t, n);
    }
    ListRejects(E, q, sv, need, fuel);
  }

  lemma {:induction false} ListAccepts(E: Env, q: Parser, sv: string, need: nat, fuel: nat, t: Tree, n: nat)
    ensures Accepts(E, List(q, need), sv, fuel, t, n) <==>
            t.TList? && |t.kids| >= need && ItemsEnd(E, q, sv, fuel, t.kids, n)
  {
  }

  lemma {:induction false} ListRejects(E: Env, q: Parser, sv: string, need: nat, fuel: nat)
    ensures Rejects(E, List(q, need), sv, fuel) <==> TooFew(E, q, sv, need, fuel)
  {
    if Rejects(E, List(q, need), sv, fuel) {
      var ts, cuts: seq<nat> :|
        ItemsMatch(E, q, sv, fuel, ts, cuts) && |ts| < need && Rejects(E, q, sv[cuts[|ts|]..], fuel);
      assert ItemsEnd(E, q, sv, fuel, ts, cuts[|ts|]);
    }
  }

  // ---- Alternatives ----

  lemma {:induction false} OrAgrees(E: Env, ps: seq<Parser>, sv: string, fuel: nat)
    requires forall i :: 0 <= i < |ps| ==> AltAgrees(E, ps[i], sv, fuel)
    ensures Agree(E, Or(ps), sv, fuel)
  {
    hide *;
    var os := ParseAlts(E, ps, sv, fuel);
    forall i: nat | i < |ps|
      ensures AltIs(E, ps[i], sv, fuel, os[i])
    {
      AltAt(E, ps, sv, fuel, i);
      AltIsParsed(E, ps[i], sv, fuel);
    }
    ChooseMeaning(ps, os);
    forall t, n: nat
      ensures Choose(ps, os) == Parsed(t, n) <==> Accepts(E, Or(ps), sv, fuel, t, n)
    {
      OrAccepts(E, ps, os, sv, fuel, t, n);
    }
    OrRejects(E, ps, os, sv, fuel);
    OrIsChosen(E, ps, sv, fuel);
  }

  ghost predicate AltAgrees(E: Env, p: Parser, sv: string, fuel: nat) {
    Agree(E, p, sv, fuel) && Sound(E, p, sv, Parse(E, p, sv, fuel))
  }

  /** o is what the rules say of an alternative. */
  ghost predicate AltIs(E: Env, p: Parser, sv: string, fuel: nat, o: Outcome) {
    && (o.Parsed? ==> o.consumed <= |sv|)
    && (forall t, n: nat :: o == Parsed(t, n) <==> Accepts(E, p, sv, fuel, t, n))
    && (o == NoMatch <==> Rejects(E, p, sv, fuel))
  }

  lemma {:induction false} AltIsParsed(E: Env, p: Parser, sv: string, fuel: nat)
    requires AltAgrees(E, p, sv, fuel)
    ensures AltIs(E, p, sv, fuel, Parse(E, p, sv, fuel))
  {
    hide Accepts, Rejects, Parse;
  }

  lemma {:induction false} OrIsChosen(E: Env, ps: seq<Parser>, sv: string, fuel: nat)
    requires forall t, n: nat ::
      Choose(ps, ParseAlts(E, ps, sv, fuel)) == Parsed(t, n) <==> Accepts(E, Or(ps), sv, fuel, t, n)
    requires Choose(ps, ParseAlts(E, ps, sv, fuel)) == NoMatch <==> Rejects(E, Or(ps), sv, fuel)
    ensures Agree(E, Or(ps), sv, fuel)
  {
    hide Accepts, Rejects, Choose, ParseAlts;
  }

  lemma {:induction false} OrAccepts(E: Env, ps: seq<Parser>, os: seq<Outcome>, sv: string, fuel: nat, t: Tree, n: nat)
    requires |os| == |ps| && forall i: nat :: i < |ps| ==> AltIs(E, ps[i], sv, fuel, os[i])
    requires Choose(ps, os).Parsed? <==> exists i: nat :: Wins(os, i)
    requires forall i: nat :: Wins(os, i) ==> Choose(ps, os) == Parsed(TOr(ps[i], os[i].tree), os[i].consumed)
    ensures Choose(ps, os) == Parsed(t, n) <==> Accepts(E, Or(ps), sv, fuel, t, n)
  {
    hide Choose;
    if Choose(ps, os) == Parsed(t, n) {
      var i: nat :| Wins(os, i);
      assert AltIs(E, ps[i], sv, fuel, os[i]);
      assert forall j: nat :: j < |ps| && j != i ==> AltIs(E, ps[j], sv, fuel, os[j]);
    }
    if Accepts(E, Or(ps), sv, fuel, t, n) {
      var i :| 0 <= i < |ps| && ps[i] == t.alt && Accepts(E, ps[i], sv, fuel, t.kid, n) &&
        forall j :: 0 <= j < |ps| && j != i ==> Rejects(E, ps[j], sv, fuel);
      assert forall j: nat :: j < |ps| ==> AltIs(E, ps[j], sv, fuel, os[j]);
      assert Wins(os, i);
    }
  }

  lemma {:induction false} OrRejects(E: Env, ps: seq<Parser>, os: seq<Outcome>, sv: string, fuel: nat)
    requires |os| == |ps| && forall i: nat :: i < |ps| ==> AltIs(E, ps[i], sv, fuel, os[i])
    requires Choose(ps, os) == NoMatch <==> forall j :: 0 <= j < |os| ==> os[j] == NoMatch
    ensures Choose(ps, os) == NoMatch <==> Rejects(E, Or(ps), sv, fuel)
  {
    hide Choose, Accepts;
    assert forall j: nat :: j < |ps| ==> AltIs(E, ps[j], sv, fuel, os[j]);
  }

  // ---- Every combinator ----

  lemma {:induction false} ParseMeaning(E: Env, p: Parser, sv: string, fuel: nat)
    ensures Agree(E, p, sv, fuel)
    decreases fuel, p, 4, 0
  {
    hide *;
    match p
    case Entity(x) =>
      if fuel > 0 && x in E {
        ParseMeaning(E, E[x], sv, fuel - 1);
      }
      EntityAgrees(E, x, sv, fuel);
    case Terminal(w) => WordAgrees(E, p, w, sv, fuel);
    case Keyword(w) => WordAgrees(E, p, w, sv, fuel);
    case NewLine => NewLineAgrees(E, sv, fuel);
    case Opt(args) =>
      if |args| == 1 {
        ParseMeaning(E, args[0], sv, fuel);
        ParseIsSound(E, args[0], sv, fuel);
      }
      OptAgrees(E, args, sv, fuel);
    case List(q, m) =>
      ItemsMeaning(E, q, sv, m, fuel);
      ListAgrees(E, q, sv, m, fuel);
    case And(ps) =>
      PartsMeaning(E, ps, sv, fuel);
      AndAgrees(E, ps, sv, fuel);
    case Or(ps) =>
      forall i | 0 <= i < |ps|
        ensures AltAgrees(E, ps[i], sv, fuel)
      {
        ParseMeaning(E, ps[i], sv, fuel);
        ParseIsSound(E, ps[i], sv, fuel);
        BothAgree(E, ps[i], sv, fuel);
      }
      OrAgrees(E, ps, sv, fuel);
    case Unimplemented => NothingAgrees(E, sv, fuel);
  }

  lemma {:induction false} BothAgree(E: Env, p: Parser, sv: string, fuel: nat)
    requires Agree(E, p, sv, fuel) && Sound(E, p, sv, Parse(E, p, sv, fuel))
    ensures AltAgrees(E, p, sv, fuel)
  {
    hide Agree, Sound, Parse;
  }

  lemma {:induction false} WordAgrees(E: Env, p: Parser, w: string, sv: string, fuel: nat)
    requires p == Terminal(w) || p == Keyword(w)
    ensures Agree(E, p, sv, fuel)
  {
    hide ParseWord, WordFits, NoWord;
    WordMeaning(w, sv);
    forall n: nat | WordFits(w, sv, n)
      ensures n <= |sv|
    {
      FitIsInside(w, sv, n);
    }
  }

  lemma {:induction false} FitIsInside(w: string, sv: string, n: nat)
    requires WordFits(w, sv, n)
    ensures n <= |sv|
  {
  }

  lemma {:induction false} NewLineAgrees(E: Env, sv: string, fuel: nat)
    ensures Agree(E, NewLine, sv, fuel)
  {
    hide ParseNewLine, NoLineEnd, LineEnd;
    NewLineMeaning(sv);
  }

  lemma {:induction false} NothingAgrees(E: Env, sv: string, fuel: nat)
    ensures Agree(E, Unimplemented, sv, fuel)
  {
  }

  lemma {:induction false} EntityAgrees(E: Env, x: string, sv: string, fuel: nat)
    requires fuel > 0 && x in E ==> Agree(E, E[x], sv, fuel - 1)
    ensures Agree(E, Entity(x), sv, fuel)
  {
  }

  lemma {:induction false} OptAgrees(E: Env, args: seq<Parser>, sv: string, fuel: nat)
    requires |args| == 1 ==> Agree(E, args[0], sv, fuel) && Sound(E, args[0], sv, Parse(E, args[0], sv, fuel))
    ensures Agree(E, Opt(args), sv, fuel)
  {
  }

  lemma {:induction false} PartsMeaning(E: Env, ps: seq<Parser>, sv: string, fuel: nat)
    ensures PartsAgree(E, ps, sv, fuel)
    decreases fuel, ps, 0, 0
  {
    if ps == [] {
      NoParts(E, sv, fuel);
    } else {
      ParseMeaning(E, ps[0], sv, fuel);
      ParseIsSound(E, ps[0], sv, fuel);
      var o := Parse(E, ps[0], sv, fuel);
      if o.Parsed? {
        PartsMeaning(E, ps[1..], sv[o.consumed..], fuel);
      }
      PartsAgreeStep(E, ps, sv, fuel);
    }
  }

  lemma {:induction false} ItemsMeaning(E: Env, q: Parser, sv: string, need: nat, fuel: nat)
    ensures ItemsAgree(E, q, sv, need, fuel)
    decreases fuel, q, 5, |sv|
  {
    ParseMeaning(E, q, sv, fuel);
    ParseIsSound(E, q, sv, fuel);
    var o := Parse(E, q, sv, fuel);
    if o.Parsed? && o.consumed > 0 {
      ItemsMeaning(E, q, sv[o.consumed..], if need > 0 then need - 1 else 0, fuel);
    }
    ItemsAgreeStep(E, q, sv, need, fuel);
  }

  lemma {:induction false} AndAgrees(E: Env, ps: seq<Parser>, sv: string, fuel: nat)
    requires PartsAgree(E, ps, sv, fuel)
    ensures Agree(E, And(ps), sv, fuel)
  {
    PartsAreSound(E, ps, sv, fuel);
    forall t, n: nat
      ensures Parse(E, And(ps), sv, fuel) == Parsed(t, n) <==> Accepts(E, And(ps), sv, fuel, t, n)
    {
      AndAccepts(E, ps, sv, fuel, t, n);
    }
    assert SomePartFails(E, ps, sv, fuel) <==> Rejects(E, And(ps), sv, fuel);
  }

  lemma {:induction false} AndAccepts(E: Env, ps: seq<Parser>, sv: string, fuel: nat, t: Tree, n: nat)
    ensures Accepts(E, And(ps), sv, fuel, t, n) <==> n <= |sv| && t.TAnd? && PartsEnd(E, ps, sv, fuel, t.kids, n)
  {
  }

  // ---- Without the bound ----

  ghost predicate Matches(E: Env, p: Parser, sv: string, t: Tree, n: nat) {
    exists fuel: nat :: Accepts(E, p, sv, fuel, t, n)
  }

  ghost predicate MatchesNot(E: Env, p: Parser, sv: string) {
    exists fuel: nat :: Rejects(E, p, sv, fuel)
  }

  lemma {:induction false} MuchMoreFuel(E: Env, p: Parser, sv: string, fuel: nat, more: nat)
    requires fuel <= more && Parse(E, p, sv, fuel) != Stuck
    ensures Parse(E, p, sv, more) == Parse(E, p, sv, fuel)
  {
    hide Parse;
    if fuel < more {
      MuchMoreFuel(E, p, sv, fuel, more - 1);
      MoreFuel(E, p, sv, more - 1);
    }
  }

  /** Two bounds under which something comes out agree. */
  lemma {:induction false} SameOutcome(E: Env, p: Parser, sv: string, f: nat, g: nat)
    requires Parse(E, p, sv, f) != Stuck && Parse(E, p, sv, g) != Stuck
    ensures Parse(E, p, sv, f) == Parse(E, p, sv, g)
  {
    hide *;
    MuchMoreFuel(E, p, sv, f, f + g);
    MuchMoreFuel(E, p, sv, g, f + g);
  }

  lemma {:induction false} AcceptedIsParsed(E: Env, p: Parser, sv: string, fuel: nat, t: Tree, n: nat)
    ensures Accepts(E, p, sv, fuel, t, n) <==> Parse(E, p, sv, fuel) == Parsed(t, n)
    ensures Rejects(E, p, sv, fuel) <==> Parse(E, p, sv, fuel) == NoMatch
  {
    hide Accepts, Rejects, Parse;
    ParseMeaning(E, p, sv, fuel);
  }

  /** At one place a combinator matches in one way at most. */
  lemma {:induction false} OneMatch(E: Env, p: Parser, sv: string, t: Tree, n: nat, u: Tree, m: nat)
    requires Matches(E, p, sv, t, n) && Matches(E, p, sv, u, m)
    ensures t == u && n == m
  {
    hide Accepts, Parse;
    var f: nat :| Accepts(E, p, sv, f, t, n);
    var g: nat :| Accepts(E, p, sv, g, u, m);
    AcceptedIsParsed(E, p, sv, f, t, n);
    AcceptedIsParsed(E, p, sv, g, u, m);
    SameOutcome(E, p, sv, f, g);
  }

  /** Where it matches, it does not fail. */
  lemma {:induction false} MatchOrFail(E: Env, p: Parser, sv: string, t: Tree, n: nat)
    requires Matches(E, p, sv, t, n)
    ensures !MatchesNot(E, p, sv)
  {
    hide Accepts, Rejects, Parse;
    var f: nat :| Accepts(E, p, sv, f, t, n);
    AcceptedIsParsed(E, p, sv, f, t, n);
    forall g: nat
      ensures !Rejects(E, p, sv, g)
    {
      AcceptedIsParsed(E, p, sv, g, t, n);
      if Parse(E, p, sv, g) == NoMatch {
        SameOutcome(E, p, sv, f, g);
      }
    }
  }
}
