/** The parser combinators as expressions, and the strings they stand for: the yields of their parse trees. */
module Grammar {
  import opened Wrappers

  /** The combinator types. `Opt` holds its template arguments; only one argument makes a type. */
  datatype Parser =
    | Entity(name: string)
    | Terminal(text: string)
    | Keyword(text: string)
    | Opt(args: seq<Parser>)
    | List(item: Parser, minCount: nat)
    | And(parts: seq<Parser>)
    | Or(alts: seq<Parser>)
    | NewLine
    | Unimplemented

  /** The declared entities. */
  type Env = map<string, Parser>

  datatype Tree =
    | TEntity(name: string, kid: Tree)
    | TWord(s: string)
    | TOpt(some: Option<Tree>)
    | TList(kids: seq<Tree>)
    | TAnd(kids: seq<Tree>)
    | TOr(alt: Parser, kid: Tree)

  /** isspace without the newline. */
  predicate Blank(c: char) {
    c == ' ' || c == '\t' || c == '\r' || c == 11 as char || c == 12 as char
  }

  /** s is the word, possibly after blanks. */
  ghost predicate Spelled(word: string, s: string) {
    |word| <= |s| && s[|s| - |word|..] == word && forall i :: 0 <= i < |s| - |word| ==> Blank(s[i])
  }

  /** Blanks and a newline. */
  ghost predicate LineEnd(s: string) {
    0 < |s| && s[|s| - 1] == '\n' && forall i :: 0 <= i < |s| - 1 ==> Blank(s[i])
  }

  ghost predicate Valid(E: Env, p: Parser, t: Tree)
    decreases t
  {
    match p
    case Entity(x) => t.TEntity? && t.name == x && x in E && Valid(E, E[x], t.kid)
    case Terminal(w) => t.TWord? && Spelled(w, t.s)
    case Keyword(w) => t.TWord? && Spelled(w, t.s)
    case Opt(args) => t.TOpt? && |args| == 1 && (t.some.Some? ==> Valid(E, args[0], t.some.value))
    case List(q, m) => t.TList? && |t.kids| >= m && forall i :: 0 <= i < |t.kids| ==> Valid(E, q, t.kids[i])
    case And(ps) => t.TAnd? && AllValid(E, ps, t.kids)
    case Or(ps) => t.TOr? && t.alt in ps && Valid(E, t.alt, t.kid)
    case NewLine => t.TWord? && LineEnd(t.s)
    case Unimplemented => false
  }

  ghost predicate AllValid(E: Env, ps: seq<Parser>, ts: seq<Tree>)
    decreases ts
  {
    |ts| == |ps| && forall i :: 0 <= i < |ts| ==> Valid(E, ps[i], ts[i])
  }

  function Yield(t: Tree): string {
    match t
    case TEntity(_, u) => Yield(u)
    case TWord(s) => s
    case TOpt(o) => if o.Some? then Yield(o.value) else ""
    case TList(ts) => Yields(ts)
    case TAnd(ts) => Yields(ts)
    case TOr(_, u) => Yield(u)
  }

  function Yields(ts: seq<Tree>): string {
    if ts == [] then "" else Yield(ts[0]) + Yields(ts[1..])
  }

  /** p stands for s. */
  ghost predicate Derives(E: Env, p: Parser, s: string) {
    exists t :: Valid(E, p, t) && Yield(t) == s
  }

  lemma {:induction false} YieldsAppend(ts: seq<Tree>, us: seq<Tree>)
    ensures Yields(ts + us) == Yields(ts) + Yields(us)
  {
    if ts == [] {
      assert ts + us == us;
    } else {
      assert (ts + us)[1..] == ts[1..] + us;
      YieldsAppend(ts[1..], us);
    }
  }

  lemma {:induction false} YieldsOne(t: Tree)
    ensures Yields([t]) == Yield(t)
  {
    assert [t][1..] == [];
  }

  lemma {:induction false} YieldsTwo(t: Tree, u: Tree)
    ensures Yields([t, u]) == Yield(t) + Yield(u)
  {
    assert [t, u][1..] == [u];
    YieldsOne(u);
  }

  lemma {:induction false} AllValidAppend(E: Env, ps: seq<Parser>, ts: seq<Tree>, qs: seq<Parser>, us: seq<Tree>)
    requires AllValid(E, ps, ts) && AllValid(E, qs, us)
    ensures AllValid(E, ps + qs, ts + us)
  {
  }

  /** An entity's tree over one of its alternatives. */
  function RowTree(x: string, alt: Parser, kids: seq<Tree>): Tree {
    TEntity(x, TOr(alt, TAnd(kids)))
  }

  lemma {:induction false} YieldRow(x: string, alt: Parser, kids: seq<Tree>)
    ensures Yield(RowTree(x, alt, kids)) == Yields(kids)
  {
    assert Yield(TOr(alt, TAnd(kids))) == Yield(TAnd(kids));
  }

  lemma {:induction false} YieldsParts(ts: seq<Tree>)
    ensures Yields(ts) == if ts == [] then "" else Yield(ts[0]) + Yields(ts[1..])
  {
  }

  /** A tree for an entity from the trees of one of its rows. */
  lemma {:induction false} MakeRow(E: Env, x: string, row: seq<Parser>, kids: seq<Tree>) returns (u: Tree)
    requires x in E && E[x].Or? && And(row) in E[x].alts && |kids| == |row|
    requires forall i :: 0 <= i < |row| ==> Valid(E, row[i], kids[i])
    ensures u == RowTree(x, And(row), kids) && Valid(E, Entity(x), u) && Yield(u) == Yields(kids)
  {
    assert AllValid(E, row, kids);
    assert Valid(E, And(row), TAnd(kids));
    u := RowTree(x, And(row), kids);
    YieldRow(x, And(row), kids);
  }

  // ---- Entities that need no other entity ----

  /** s is what a word or the new-line stands for. */
  ghost predicate Stands(p: Parser, s: string) {
    match p
    case Terminal(w) => Spelled(w, s)
    case Keyword(w) => Spelled(w, s)
    case NewLine => LineEnd(s)
    case _ => false
  }

  predicate Flat(X: Env) {
    forall x :: x in X ==> X[x].Terminal? || X[x].Keyword? || X[x].NewLine?
  }

  // ---- When two environments say the same ----

  /** The three ways in which the compiler may declare an entity that was written as alternatives `P[x]`. */
  ghost predicate SameEntity(P: Env, T: Env, x: string) {
    x in P && x in T && T[x] == P[x]
  }

  /** A list of b instead of x = b | b x, x = b | x b or x = b opt(x). */
  ghost predicate ListEntity(P: Env, T: Env, x: string, b: string) {
    && x in P && x in T && T[x] == List(Entity(b), 1) && P[x].Or?
    && (|| IsSetOf(P[x].alts, {And([Entity(b)]), And([Entity(b), Entity(x)])})
        || IsSetOf(P[x].alts, {And([Entity(b)]), And([Entity(x), Entity(b)])})
        || IsSetOf(P[x].alts, {And([Entity(b), Opt([Entity(x)])])}))
  }

  ghost predicate IsSetOf(ps: seq<Parser>, s: set<Parser>) {
    forall p :: p in ps <==> p in s
  }

  /** A start and any number of continuations instead of left recursion. */
  ghost predicate SplitEntity(P: Env, T: Env, x: string, st: string, ct: string) {
    && x in P && x in T && st in T && ct in T && st !in P && ct !in P
    && P[x].Or? && T[st].Or? && T[ct].Or?
    && T[x] == And([Entity(st), List(Entity(ct), 0)])
    && (forall a :: a in P[x].alts ==> a in T[st].alts || (SelfStart(a, x) && And(a.parts[1..]) in T[ct].alts))
    && (forall a :: a in T[st].alts ==> a in P[x].alts)
    && (forall a :: a in T[ct].alts ==> a.And? && And([Entity(x)] + a.parts) in P[x].alts)
  }

  ghost predicate SelfStart(a: Parser, x: string) {
    a.And? && 0 < |a.parts| && a.parts[0] == Entity(x)
  }

  ghost predicate Related(P: Env, T: Env, x: string) {
    || SameEntity(P, T, x)
    || (exists b :: ListEntity(P, T, x, b))
    || (exists st, ct :: SplitEntity(P, T, x, st, ct))
  }

  /** p mentions no entity that only T declares. */
  ghost predicate Over(P: Env, T: Env, p: Parser) {
    match p
    case Entity(x) => x in T ==> x in P
    case Terminal(_) => true
    case Keyword(_) => true
    case Opt(args) => forall i :: 0 <= i < |args| ==> Over(P, T, args[i])
    case List(q, _) => Over(P, T, q)
    case And(ps) => forall i :: 0 <= i < |ps| ==> Over(P, T, ps[i])
    case Or(ps) => forall i :: 0 <= i < |ps| ==> Over(P, T, ps[i])
    case NewLine => true
    case Unimplemented => true
  }

  ghost predicate AllRelated(P: Env, T: Env) {
    forall x :: x in P ==> Related(P, T, x) && Over(P, T, P[x])
  }

  // ---- From P to T ----

  lemma {:induction false} Forward(P: Env, T: Env, p: Parser, t: Tree) returns (u: Tree)
    requires AllRelated(P, T) && Valid(P, p, t)
    ensures Valid(T, p, u) && Yield(u) == Yield(t)
    decreases t, 1
  {
    match p
    case Entity(x) =>
      var inner := Forward(P, T, P[x], t.kid);
      u := ForwardEntity(P, T, x, inner);
    case Terminal(_) => u := t;
    case Keyword(_) => u := t;
    case NewLine => u := t;
    case Opt(args) =>
      if t.some.Some? {
        var inner := Forward(P, T, args[0], t.some.value);
        u := TOpt(Some(inner));
      } else {
        u := t;
      }
    case List(q, m) =>
      var us := ForwardAll(P, T, seq(|t.kids|, _ => q), t.kids);
      u := TList(us);
    case And(ps) =>
      var us := ForwardAll(P, T, ps, t.kids);
      u := TAnd(us);
    case Or(ps) =>
      var inner := Forward(P, T, t.alt, t.kid);
      u := TOr(t.alt, inner);
  }

  lemma {:induction false} ForwardAll(P: Env, T: Env, ps: seq<Parser>, ts: seq<Tree>) returns (us: seq<Tree>)
    requires AllRelated(P, T) && AllValid(P, ps, ts)
    ensures AllValid(T, ps, us) && Yields(us) == Yields(ts)
    decreases ts, 0
  {
    if ts == [] {
      us := [];
    } else {
      var u := Forward(P, T, ps[0], ts[0]);
      var rest := ForwardAll(P, T, ps[1..], ts[1..]);
      us := [u] + rest;
    }
  }

  /** A T-tree for the alternatives that x had in P, turned into a T-tree for x. */
  lemma {:induction false} ForwardEntity(P: Env, T: Env, x: string, inner: Tree) returns (u: Tree)
    requires x in P && Related(P, T, x) && Valid(T, P[x], inner)
    ensures Valid(T, Entity(x), u) && Yield(u) == Yield(inner)
  {
    if SameEntity(P, T, x) {
      u := TEntity(x, inner);
    } else if exists b :: ListEntity(P, T, x, b) {
      var b :| ListEntity(P, T, x, b);
      u := ForwardList(P, T, x, b, inner);
    } else {
      var st, ct :| SplitEntity(P, T, x, st, ct);
      u := ForwardSplit(P, T, x, st, ct, inner);
    }
  }

  // ---- Trees of the two shapes that the compiler introduces ----

  function ListTree(x: string, items: seq<Tree>): Tree {
    TEntity(x, TList(items))
  }

  lemma {:induction false} MakeList(T: Env, x: string, q: Parser, items: seq<Tree>)
    requires x in T && T[x] == List(q, 1) && 0 < |items| && forall i :: 0 <= i < |items| ==> Valid(T, q, items[i])
    ensures Valid(T, Entity(x), ListTree(x, items)) && Yield(ListTree(x, items)) == Yields(items)
  {
    assert Valid(T, List(q, 1), TList(items));
  }

  lemma {:induction false} OpenList(T: Env, x: string, q: Parser, t: Tree) returns (items: seq<Tree>)
    requires x in T && T[x] == List(q, 1) && Valid(T, Entity(x), t)
    ensures t == ListTree(x, items) && 0 < |items| && Yield(t) == Yields(items)
    ensures forall i :: 0 <= i < |items| ==> Valid(T, q, items[i])
  {
    assert Valid(T, List(q, 1), t.kid);
    items := t.kid.kids;
  }

  function SplitTree(x: string, start: Tree, conts: seq<Tree>): Tree {
    TEntity(x, TAnd([start, TList(conts)]))
  }

  lemma {:induction false} MakeSplit(T: Env, x: string, st: string, ct: string, start: Tree, conts: seq<Tree>)
    requires x in T && T[x] == And([Entity(st), List(Entity(ct), 0)])
    requires Valid(T, Entity(st), start) && forall i :: 0 <= i < |conts| ==> Valid(T, Entity(ct), conts[i])
    ensures Valid(T, Entity(x), SplitTree(x, start, conts))
    ensures Yield(SplitTree(x, start, conts)) == Yield(start) + Yields(conts)
  {
    assert Valid(T, List(Entity(ct), 0), TList(conts));
    assert AllValid(T, [Entity(st), List(Entity(ct), 0)], [start, TList(conts)]);
    assert Valid(T, T[x], TAnd([start, TList(conts)]));
    YieldsTwo(start, TList(conts));
  }

  lemma {:induction false} OpenSplit(T: Env, x: string, st: string, ct: string, t: Tree)
    returns (start: Tree, conts: seq<Tree>)
    requires x in T && T[x] == And([Entity(st), List(Entity(ct), 0)]) && Valid(T, Entity(x), t)
    ensures t == SplitTree(x, start, conts) && Yield(t) == Yield(start) + Yields(conts)
    ensures Valid(T, Entity(st), start) && forall i :: 0 <= i < |conts| ==> Valid(T, Entity(ct), conts[i])
  {
    var ps := [Entity(st), List(Entity(ct), 0)];
    assert Valid(T, And(ps), t.kid) && AllValid(T, ps, t.kid.kids);
    assert Valid(T, ps[0], t.kid.kids[0]) && Valid(T, ps[1], t.kid.kids[1]);
    start, conts := t.kid.kids[0], t.kid.kids[1].kids;
    assert t.kid.kids == [start, TList(conts)];
    YieldsTwo(start, TList(conts));
  }

  /** An alternative's tree, opened one level. */
  lemma {:induction false} OpenRow(T: Env, ps: seq<Parser>, t: Tree)
    requires Valid(T, And(ps), t)
    ensures t.TAnd? && |t.kids| == |ps| && Yield(t) == Yields(t.kids)
    ensures forall i :: 0 <= i < |ps| ==> Valid(T, ps[i], t.kids[i])
    ensures |ps| == 1 ==> t.kids == [t.kids[0]] && Yields(t.kids) == Yield(t.kids[0])
    ensures |ps| == 2 ==> t.kids == [t.kids[0], t.kids[1]] && Yields(t.kids) == Yield(t.kids[0]) + Yield(t.kids[1])
  {
    if |ps| == 1 {
      YieldsOne(t.kids[0]);
      assert t.kids == [t.kids[0]];
    } else if |ps| == 2 {
      YieldsTwo(t.kids[0], t.kids[1]);
      assert t.kids == [t.kids[0], t.kids[1]];
    }
  }

  lemma {:induction false} ForwardList(P: Env, T: Env, x: string, b: string, inner: Tree) returns (u: Tree)
    requires ListEntity(P, T, x, b) && Valid(T, P[x], inner)
    ensures Valid(T, Entity(x), u) && Yield(u) == Yield(inner)
  {
    var ps := inner.alt.parts;
    OpenRow(T, ps, inner.kid);
    var ts := inner.kid.kids;
    var items: seq<Tree>;
    if ps == [Entity(b)] {
      items := ts;
    } else if ps == [Entity(b), Opt([Entity(x)])] {
      assert Valid(T, Opt([Entity(x)]), ts[1]);
      if ts[1].some.Some? {
        var more := OpenList(T, x, Entity(b), ts[1].some.value);
        items := [ts[0]] + more;
        assert items[1..] == more;
      } else {
        items := [ts[0]];
        YieldsOne(ts[0]);
      }
    } else if ps[0] == Entity(b) && ps[1] == Entity(x) {
      var more := OpenList(T, x, Entity(b), ts[1]);
      items := [ts[0]] + more;
      assert items[1..] == more;
    } else {
      var more := OpenList(T, x, Entity(b), ts[0]);
      items := more + [ts[1]];
      YieldsAppend(more, [ts[1]]);
      YieldsOne(ts[1]);
    }
    MakeList(T, x, Entity(b), items);
    u := ListTree(x, items);
  }

  /** A continuation from the elements behind the left recursion. */
  lemma {:induction false} MakeCont(T: Env, ct: string, ps: seq<Parser>, kids: seq<Tree>) returns (more: Tree)
    requires ct in T && T[ct].Or? && 0 < |ps| == |kids| && And(ps[1..]) in T[ct].alts
    requires forall i :: 0 <= i < |ps| ==> Valid(T, ps[i], kids[i])
    ensures Valid(T, Entity(ct), more) && Yield(more) == Yields(kids[1..])
    ensures Yields(kids) == Yield(kids[0]) + Yield(more)
  {
    assert forall i :: 0 <= i < |ps| - 1 ==> ps[1..][i] == ps[i + 1] && kids[1..][i] == kids[i + 1];
    hide Valid;
    more := MakeRow(T, ct, ps[1..], kids[1..]);
  }

  lemma {:induction false} ForwardSplit(P: Env, T: Env, x: string, st: string, ct: string, inner: Tree)
    returns (u: Tree)
    requires SplitEntity(P, T, x, st, ct) && Valid(T, P[x], inner)
    ensures Valid(T, Entity(x), u) && Yield(u) == Yield(inner)
  {
    var a := inner.alt;
    if a in T[st].alts {
      var start := TEntity(st, inner);
      assert Valid(T, Entity(st), start);
      MakeSplit(T, x, st, ct, start, []);
      u := SplitTree(x, start, []);
    } else {
      assert SelfStart(a, x) && And(a.parts[1..]) in T[ct].alts && Valid(T, And(a.parts), inner.kid);
      u := ForwardCont(T, x, st, ct, a.parts, inner.kid);
    }
  }

  lemma {:induction false} ForwardCont(T: Env, x: string, st: string, ct: string, ps: seq<Parser>, t: Tree)
    returns (u: Tree)
    requires x in T && T[x] == And([Entity(st), List(Entity(ct), 0)]) && ct in T && T[ct].Or?
    requires 0 < |ps| && ps[0] == Entity(x) && And(ps[1..]) in T[ct].alts && Valid(T, And(ps), t)
    ensures Valid(T, Entity(x), u) && Yield(u) == Yield(t)
  {
    hide Valid, Yield, Yields;
    OpenRow(T, ps, t);
    var self := t.kids[0];
    var more := MakeCont(T, ct, ps, t.kids);
    var start, conts := OpenSplit(T, x, st, ct, self);
    MakeSplit(T, x, st, ct, start, conts + [more]);
    u := SplitTree(x, start, conts + [more]);
    YieldsAppend(conts, [more]);
    YieldsOne(more);
    assert Yield(start) + (Yields(conts) + Yield(more)) == (Yield(start) + Yields(conts)) + Yield(more);
  }

  // ---- From T to P ----

  lemma {:induction false} Backward(P: Env, T: Env, p: Parser, t: Tree) returns (u: Tree)
    requires AllRelated(P, T) && Over(P, T, p) && Valid(T, p, t)
    ensures Valid(P, p, u) && Yield(u) == Yield(t)
    decreases t, 2
  {
    match p
    case Entity(x) =>
      u := BackwardEntity(P, T, x, t);
    case Terminal(_) => u := t;
    case Keyword(_) => u := t;
    case NewLine => u := t;
    case Opt(args) =>
      if t.some.Some? {
        var inner := Backward(P, T, args[0], t.some.value);
        u := TOpt(Some(inner));
      } else {
        u := t;
      }
    case List(q, m) =>
      var us := BackwardAll(P, T, seq(|t.kids|, _ => q), t.kids);
      u := TList(us);
    case And(ps) =>
      var us := BackwardAll(P, T, ps, t.kids);
      u := TAnd(us);
    case Or(ps) =>
      var i :| 0 <= i < |ps| && ps[i] == t.alt;
      var inner := Backward(P, T, ps[i], t.kid);
      u := TOr(t.alt, inner);
  }

  lemma {:induction false} BackwardAll(P: Env, T: Env, ps: seq<Parser>, ts: seq<Tree>) returns (us: seq<Tree>)
    requires AllRelated(P, T) && AllValid(T, ps, ts) && forall i :: 0 <= i < |ps| ==> Over(P, T, ps[i])
    ensures AllValid(P, ps, us) && Yields(us) == Yields(ts)
    decreases ts, 0
  {
    if ts == [] {
      us := [];
    } else {
      var u := Backward(P, T, ps[0], ts[0]);
      var rest := BackwardAll(P, T, ps[1..], ts[1..]);
      us := [u] + rest;
    }
  }

  lemma {:induction false} BackwardEntity(P: Env, T: Env, x: string, t: Tree) returns (u: Tree)
    requires AllRelated(P, T) && x in P && Valid(T, Entity(x), t)
    ensures Valid(P, Entity(x), u) && Yield(u) == Yield(t)
    decreases t, 1
  {
    assert Related(P, T, x);
    if SameEntity(P, T, x) {
      var inner := Backward(P, T, P[x], t.kid);
      u := TEntity(x, inner);
    } else if exists b :: ListEntity(P, T, x, b) {
      var b :| ListEntity(P, T, x, b);
      var items := OpenList(T, x, Entity(b), t);
      ListOver(P, T, x, b);
      var us := BackwardAll(P, T, seq(|items|, _ => Entity(b)), items);
      u := FoldList(P, T, x, b, us);
    } else {
      var st, ct :| SplitEntity(P, T, x, st, ct);
      var start, conts := OpenSplit(T, x, st, ct, t);
      assert t.kid.kids[0] == start && t.kid.kids[1].kids == conts;
      var first := BackwardStart(P, T, x, st, ct, start);
      u := BackwardConts(P, T, x, st, ct, first, conts);
    }
  }

  lemma {:induction false} ListOver(P: Env, T: Env, x: string, b: string)
    requires AllRelated(P, T) && ListEntity(P, T, x, b)
    ensures Over(P, T, Entity(b))
  {
    assert Over(P, T, P[x]);
    var a: Parser;
    if And([Entity(b)]) in P[x].alts {
      a := And([Entity(b)]);
    } else {
      a := And([Entity(b), Opt([Entity(x)])]);
    }
    assert a in P[x].alts;
    var i :| 0 <= i < |P[x].alts| && P[x].alts[i] == a;
    assert Over(P, T, P[x].alts[i]) && Over(P, T, a.parts[0]);
  }

  /** The item alone, where the list need not go on. */
  lemma {:induction false} FoldLast(P: Env, T: Env, x: string, b: string, t: Tree) returns (u: Tree)
    requires ListEntity(P, T, x, b) && Valid(P, Entity(b), t)
    ensures Valid(P, Entity(x), u) && Yield(u) == Yield(t)
  {
    YieldsOne(t);
    if And([Entity(b)]) in P[x].alts {
      u := MakeRow(P, x, [Entity(b)], [t]);
    } else {
      assert And([Entity(b), Opt([Entity(x)])]) in P[x].alts;
      assert Valid(P, Opt([Entity(x)]), TOpt(None));
      hide Valid, ListEntity;
      YieldsTwo(t, TOpt(None));
      u := MakeRow(P, x, [Entity(b), Opt([Entity(x)])], [t, TOpt(None)]);
    }
  }

  /** One more item before a list, or behind it. */
  lemma {:induction false} FoldMore(P: Env, T: Env, x: string, b: string, us: seq<Tree>, rest: Tree) returns (u: Tree)
    requires ListEntity(P, T, x, b) && 1 < |us| && Valid(P, Entity(x), rest)
    requires Valid(P, Entity(b), us[0]) && Valid(P, Entity(b), us[|us| - 1])
    requires Yield(rest) == Yields(if AppendsAtEnd(P, x, b) then us[..|us| - 1] else us[1..])
    ensures Valid(P, Entity(x), u) && Yield(u) == Yields(us)
  {
    var n := |us| - 1;
    if AppendsAtEnd(P, x, b) {
      hide Valid, ListEntity;
      assert us == us[..n] + [us[n]];
      YieldsAppend(us[..n], [us[n]]);
      YieldsOne(us[n]);
      YieldsTwo(rest, us[n]);
      u := MakeRow(P, x, [Entity(x), Entity(b)], [rest, us[n]]);
    } else if And([Entity(b), Opt([Entity(x)])]) in P[x].alts {
      assert Valid(P, Opt([Entity(x)]), TOpt(Some(rest)));
      hide Valid, ListEntity;
      YieldsTwo(us[0], TOpt(Some(rest)));
      u := MakeRow(P, x, [Entity(b), Opt([Entity(x)])], [us[0], TOpt(Some(rest))]);
    } else {
      assert And([Entity(b), Entity(x)]) in P[x].alts;
      hide Valid, ListEntity;
      YieldsTwo(us[0], rest);
      u := MakeRow(P, x, [Entity(b), Entity(x)], [us[0], rest]);
    }
  }

  ghost predicate AppendsAtEnd(P: Env, x: string, b: string)
    requires x in P && P[x].Or?
  {
    And([Entity(x), Entity(b)]) in P[x].alts
  }

  /** Folding a list back into the recursive alternatives it came from. */
  lemma {:induction false} FoldList(P: Env, T: Env, x: string, b: string, us: seq<Tree>) returns (u: Tree)
    requires ListEntity(P, T, x, b) && 0 < |us| && forall i :: 0 <= i < |us| ==> Valid(P, Entity(b), us[i])
    ensures Valid(P, Entity(x), u) && Yield(u) == Yields(us)
    decreases |us|
  {
    assert x in P && P[x].Or?;
    hide Valid, ListEntity, AppendsAtEnd, Yield, Yields;
    if |us| == 1 {
      u := FoldLast(P, T, x, b, us[0]);
      YieldsOne(us[0]);
      assert us == [us[0]];
    } else {
      var rest := FoldList(P, T, x, b, if AppendsAtEnd(P, x, b) then us[..|us| - 1] else us[1..]);
      u := FoldMore(P, T, x, b, us, rest);
    }
  }

  lemma {:induction false} BackwardStart(P: Env, T: Env, x: string, st: string, ct: string, start: Tree)
    returns (u: Tree)
    requires AllRelated(P, T) && SplitEntity(P, T, x, st, ct) && Valid(T, Entity(st), start)
    ensures Valid(P, Entity(x), u) && Yield(u) == Yield(start)
    decreases start, 3
  {
    var alt := start.kid.alt;
    AltOver(P, T, x, alt);
    var inner := Backward(P, T, alt, start.kid.kid);
    u := TEntity(x, TOr(alt, inner));
  }

  lemma {:induction false} AltOver(P: Env, T: Env, x: string, alt: Parser)
    requires AllRelated(P, T) && x in P && P[x].Or? && alt in P[x].alts
    ensures Over(P, T, alt)
  {
    assert Over(P, T, P[x]);
    var i :| 0 <= i < |P[x].alts| && P[x].alts[i] == alt;
  }

  lemma {:induction false} PartsOver(P: Env, T: Env, row: seq<Parser>)
    requires Over(P, T, And(row))
    ensures forall i :: 0 <= i < |row| ==> Over(P, T, row[i])
  {
  }

  lemma {:induction false} ContAlt(P: Env, T: Env, x: string, st: string, ct: string, row: seq<Parser>)
    requires SplitEntity(P, T, x, st, ct) && And(row) in T[ct].alts
    ensures x in P && P[x].Or? && And([Entity(x)] + row) in P[x].alts
  {
    assert And(row).parts == row;
  }

  lemma {:induction false} TailOver(P: Env, T: Env, x: string, row: seq<Parser>)
    requires Over(P, T, And([Entity(x)] + row))
    ensures forall i :: 0 <= i < |row| ==> Over(P, T, row[i])
  {
    var whole := [Entity(x)] + row;
    PartsOver(P, T, whole);
    hide Over;
    forall i | 0 <= i < |row|
      ensures Over(P, T, row[i])
    {
      assert whole[i + 1] == row[i];
    }
  }

  lemma {:induction false} ContOver(P: Env, T: Env, x: string, st: string, ct: string, row: seq<Parser>)
    requires AllRelated(P, T) && SplitEntity(P, T, x, st, ct) && And(row) in T[ct].alts
    ensures x in P && P[x].Or? && And([Entity(x)] + row) in P[x].alts
    ensures forall i :: 0 <= i < |row| ==> Over(P, T, row[i])
  {
    ContAlt(P, T, x, st, ct, row);
    hide *;
    AltOver(P, T, x, And([Entity(x)] + row));
    TailOver(P, T, x, row);
  }

  /** One continuation appended to what is already an x. */
  lemma {:induction false} AppendCont(P: Env, x: string, row: seq<Parser>, first: Tree, us: seq<Tree>) returns (u: Tree)
    requires x in P && P[x].Or? && And([Entity(x)] + row) in P[x].alts
    requires Valid(P, Entity(x), first) && AllValid(P, row, us)
    ensures Valid(P, Entity(x), u) && Yield(u) == Yield(first) + Yields(us)
  {
    AllValidAppend(P, [Entity(x)], [first], row, us);
    assert Valid(P, And([Entity(x)] + row), TAnd([first] + us));
    u := RowTree(x, And([Entity(x)] + row), [first] + us);
    YieldRow(x, And([Entity(x)] + row), [first] + us);
    YieldsOne(first);
    YieldsAppend([first], us);
  }

  lemma {:induction false} OpenCont(T: Env, ct: string, cont: Tree) returns (row: seq<Parser>)
    requires ct in T && T[ct].Or? && (forall a :: a in T[ct].alts ==> a.And?) && Valid(T, Entity(ct), cont)
    ensures cont.TEntity? && cont.kid.TOr? && cont.kid.kid.TAnd? && Yield(cont) == Yields(cont.kid.kid.kids)
    ensures And(row) in T[ct].alts && AllValid(T, row, cont.kid.kid.kids)
  {
    assert Valid(T, T[ct], cont.kid);
    row := cont.kid.alt.parts;
    assert Valid(T, And(row), cont.kid.kid);
    YieldRow(ct, cont.kid.alt, cont.kid.kid.kids);
  }

  lemma {:induction false} BackwardCont(P: Env, T: Env, x: string, st: string, ct: string, first: Tree, cont: Tree)
    returns (u: Tree)
    requires AllRelated(P, T) && SplitEntity(P, T, x, st, ct)
    requires Valid(P, Entity(x), first) && Valid(T, Entity(ct), cont)
    ensures Valid(P, Entity(x), u) && Yield(u) == Yield(first) + Yield(cont)
    decreases cont, 3
  {
    SplitShape(P, T, x, st, ct);
    hide Valid, AllValid, AllRelated, SplitEntity, Over, Yield, Yields;
    var row := OpenCont(T, ct, cont);
    ContOver(P, T, x, st, ct, row);
    var us := BackwardAll(P, T, row, cont.kid.kid.kids);
    u := AppendCont(P, x, row, first, us);
  }

  lemma {:induction false} BackwardConts(P: Env, T: Env, x: string, st: string, ct: string, first: Tree,
          conts: seq<Tree>)
    returns (u: Tree)
    requires AllRelated(P, T) && SplitEntity(P, T, x, st, ct)
    requires Valid(P, Entity(x), first) && forall i :: 0 <= i < |conts| ==> Valid(T, Entity(ct), conts[i])
    ensures Valid(P, Entity(x), u) && Yield(u) == Yield(first) + Yields(conts)
    decreases conts, 4
  {
    YieldsParts(conts);
    hide *;
    if conts == [] {
      u := first;
    } else {
      var next := BackwardCont(P, T, x, st, ct, first, conts[0]);
      u := BackwardConts(P, T, x, st, ct, next, conts[1..]);
      assert (Yield(first) + Yield(conts[0])) + Yields(conts[1..]) ==
        Yield(first) + (Yield(conts[0]) + Yields(conts[1..]));
    }
  }

  lemma {:induction false} SplitShape(P: Env, T: Env, x: string, st: string, ct: string)
    requires SplitEntity(P, T, x, st, ct)
    ensures x in P && P[x].Or? && ct in T && T[ct].Or? && forall a :: a in T[ct].alts ==> a.And?
  {
  }

  lemma {:induction false} OverMore(P: Env, T: Env, X: Env, p: Parser)
    requires Over(P, T, p)
    ensures Over(P + X, T + X, p)
  {
    match p
    case Opt(args) =>
      forall i | 0 <= i < |args|
        ensures Over(P + X, T + X, args[i])
      {
        OverMore(P, T, X, args[i]);
      }
    case List(q, _) => OverMore(P, T, X, q);
    case And(ps) =>
      forall i | 0 <= i < |ps|
        ensures Over(P + X, T + X, ps[i])
      {
        OverMore(P, T, X, ps[i]);
      }
    case Or(ps) =>
      forall i | 0 <= i < |ps|
        ensures Over(P + X, T + X, ps[i])
      {
        OverMore(P, T, X, ps[i]);
      }
    case _ =>
  }

  lemma {:induction false} RelatedMore(P: Env, T: Env, X: Env, x: string)
    requires Related(P, T, x) && P.Keys !! X.Keys && T.Keys !! X.Keys
    ensures Related(P + X, T + X, x)
  {
    if SameEntity(P, T, x) {
      assert SameEntity(P + X, T + X, x);
    } else if exists b :: ListEntity(P, T, x, b) {
      var b :| ListEntity(P, T, x, b);
      assert ListEntity(P + X, T + X, x, b);
    } else {
      var st, ct :| SplitEntity(P, T, x, st, ct);
      assert SplitEntity(P + X, T + X, x, st, ct);
    }
  }

  /** Related environments stay related when both get the same further entities. */
  lemma {:induction false} MoreEntities(P: Env, T: Env, X: Env)
    requires AllRelated(P, T) && Flat(X) && P.Keys !! X.Keys && T.Keys !! X.Keys
    ensures AllRelated(P + X, T + X)
  {
    forall x | x in P + X
      ensures Related(P + X, T + X, x) && Over(P + X, T + X, (P + X)[x])
    {
      if x in X {
        assert SameEntity(P + X, T + X, x);
      } else {
        RelatedMore(P, T, X, x);
        OverMore(P, T, X, P[x]);
      }
    }
  }

  /** Environments related entity by entity derive the same strings. */
  lemma {:induction false} SameLanguage(P: Env, T: Env, p: Parser, s: string)
    requires AllRelated(P, T) && Over(P, T, p)
    ensures Derives(P, p, s) <==> Derives(T, p, s)
  {
    if Derives(P, p, s) {
      var t :| Valid(P, p, t) && Yield(t) == s;
      var u := Forward(P, T, p, t);
    }
    if Derives(T, p, s) {
      var t :| Valid(T, p, t) && Yield(t) == s;
      var u := Backward(P, T, p, t);
    }
  }
}
