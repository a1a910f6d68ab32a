/** The compiled entities derive exactly the strings that the definitions derive. */
module GrammarTheorem {
  import opened Grammar
  import opened GrammarCompiler
  import opened GrammarParser
  import opened Wrappers

  // ---- Conditions on a grammar that can be read off its text ----

  /** Every option holds one type, so that its declaration compiles. */
  predicate ElemSimple(e: Elem) {
    match e
    case Text(_) => true
    case Command(name, cs) => name == "opt" ==> |cs| == 1 && |ElemParts(cs[0])| == 1 && ElemSimple(cs[0])
  }

  /** A referenced name is not confused with another one after renaming, nor with a helper entity. */
  predicate NameOk(defs: seq<Definition>, x: string) {
    forall i :: 0 <= i < |defs| ==>
      && (FixName(x) == FixName(defs[i].term) ==> x == defs[i].term)
      && FixName(x) != FixName(defs[i].term + "-impl-start")
      && FixName(x) != FixName(defs[i].term + "-impl-continue")
  }

  predicate NamesOk(defs: seq<Definition>, e: Elem) {
    match e
    case Text(x) => NameOk(defs, x)
    case Command(name, cs) => name == "opt" && |cs| == 1 ==> NamesOk(defs, cs[0])
  }

  predicate RowOk(defs: seq<Definition>, row: Row) {
    forall i :: 0 <= i < |row| ==> ElemSimple(row[i]) && NamesOk(defs, row[i])
  }

  predicate GrammarOk(defs: seq<Definition>) {
    && (forall i :: 0 <= i < |defs| ==> !defs[i].oneOf)
    && (forall i, j :: 0 <= i < j < |defs| ==> FixName(defs[i].term) != FixName(defs[j].term))
    && (forall i :: 0 <= i < |defs| ==> NameOk(defs, defs[i].term))
    && (forall i, row :: 0 <= i < |defs| && row in defs[i].disjunction ==> RowOk(defs, row))
  }

  /** Names written without underscores are told apart after renaming, as all names of the C++ grammar are. */
  lemma {:induction false} RenamingIsInjective(x: string, y: string)
    requires '_' !in x && '_' !in y && FixName(x) == FixName(y)
    ensures x == y
  {
    var n := |"entity_"|;
    assert FixName(x)[n..] == Underscored(x) && FixName(y)[n..] == Underscored(y);
    forall i | 0 <= i < |x|
      ensures x[i] == y[i]
    {
      assert Underscored(x)[i] == Underscored(y)[i];
      assert x[i] in x && y[i] in y;
    }
  }

  // ---- Environments from declarations ----

  ghost function Declared(entries: seq<Entry>): Env {
    if entries == [] then map[] else Declared(entries[1..])[entries[0].name := entries[0].parser]
  }

  predicate Distinct(entries: seq<Entry>) {
    forall i, j :: 0 <= i < j < |entries| ==> entries[i].name != entries[j].name
  }

  lemma {:induction false} DeclaredLookup(entries: seq<Entry>)
    requires Distinct(entries)
    ensures forall e :: e in entries ==> e.name in Declared(entries) && Declared(entries)[e.name] == e.parser
    ensures forall x :: x in Declared(entries) ==> exists e :: e in entries && e.name == x
  {
    if entries != [] {
      DeclaredLookup(entries[1..]);
      forall e | e in entries[1..]
        ensures e.name != entries[0].name
      {
        var i :| 0 <= i < |entries| - 1 && entries[1..][i] == e;
        assert entries[i + 1] == e;
      }
      forall x | x in Declared(entries)
        ensures exists e :: e in entries && e.name == x
      {
        if x == entries[0].name {
          assert entries[0] in entries;
        } else {
          assert x in Declared(entries[1..]);
          var e :| e in entries[1..] && e.name == x;
          assert e in entries;
        }
      }
    }
  }

  /** The definitions read as they stand: an alternative per row. */
  function PlainEntries(defs: seq<Definition>): (es: seq<Entry>)
    ensures |es| == |defs|
  {
    seq(|defs|, i requires 0 <= i < |defs| => Entry(FixName(defs[i].term), Or(Alts(defs[i].disjunction))))
  }

  ghost function Plain(defs: seq<Definition>): Env {
    Declared(PlainEntries(defs))
  }

  lemma {:induction false} PlainLookup(defs: seq<Definition>)
    requires GrammarOk(defs)
    ensures forall i :: 0 <= i < |defs| ==>
      FixName(defs[i].term) in Plain(defs) && Plain(defs)[FixName(defs[i].term)] == Or(Alts(defs[i].disjunction))
    ensures forall x :: x in Plain(defs) ==> exists i :: 0 <= i < |defs| && FixName(defs[i].term) == x
  {
    var es := PlainEntries(defs);
    DeclaredLookup(es);
    forall i | 0 <= i < |defs|
      ensures FixName(defs[i].term) in Plain(defs)
      ensures Plain(defs)[FixName(defs[i].term)] == Or(Alts(defs[i].disjunction))
    {
      assert es[i] in es;
    }
    forall x | x in Plain(defs)
      ensures exists i :: 0 <= i < |defs| && FixName(defs[i].term) == x
    {
      var e :| e in es && e.name == x;
      var i :| 0 <= i < |es| && es[i] == e;
      assert FixName(defs[i].term) == x;
    }
  }

  /** The definitions as they stand, together with the entities written by hand. */
  ghost function Whole(defs: seq<Definition>, X: Env): Env {
    Plain(defs) + X
  }

  ghost predicate WholeOk(defs: seq<Definition>, X: Env) {
    GrammarOk(defs) && Flat(X) && Plain(defs).Keys !! X.Keys
  }

  lemma {:induction false} WholeLookup(defs: seq<Definition>, X: Env)
    requires WholeOk(defs, X)
    ensures forall i :: 0 <= i < |defs| ==>
      && FixName(defs[i].term) in Whole(defs, X) && FixName(defs[i].term) !in X
      && Whole(defs, X)[FixName(defs[i].term)] == Or(Alts(defs[i].disjunction))
    ensures forall x :: x in Whole(defs, X) && x !in X ==> exists i :: 0 <= i < |defs| && FixName(defs[i].term) == x
  {
    PlainLookup(defs);
    forall i | 0 <= i < |defs|
      ensures FixName(defs[i].term) in Plain(defs) && FixName(defs[i].term) !in X
    {
      assert FixName(defs[i].term) in Plain(defs).Keys;
    }
  }

  lemma {:induction false} AltOfRow(rows: seq<Row>, row: Row)
    requires row in rows
    ensures And(RowParts(row)) in Alts(rows)
  {
    var i :| 0 <= i < |rows| && rows[i] == row;
    assert Alts(rows)[i] == And(RowParts(row));
  }

  lemma {:induction false} RowOfAlt(rows: seq<Row>, a: Parser) returns (row: Row)
    requires a in Alts(rows)
    ensures row in rows && a == And(RowParts(row))
  {
    var i :| 0 <= i < |rows| && Alts(rows)[i] == a;
    row := rows[i];
  }

  // ---- Derivations and parse trees of the plain reading ----

  lemma {:induction false} WordTrees(E: Env, name: string, cs: seq<Elem>, ss: seq<string>) returns (ts: seq<Tree>)
    requires |ss| == |cs| && forall i :: 0 <= i < |cs| ==> cs[i].Text? && Spelled(cs[i].text, ss[i])
    ensures AllValid(E, WordParts(name, cs), ts) && Yields(ts) == Concat(ss)
  {
    if ss == [] {
      ts := [];
    } else {
      var rest := WordTrees(E, name, cs[1..], ss[1..]);
      ts := [TWord(ss[0])] + rest;
      assert WordParts(name, cs)[1..] == WordParts(name, cs[1..]);
      forall i | 0 <= i < |ts|
        ensures Valid(E, WordParts(name, cs)[i], ts[i])
      {
        if i > 0 {
          assert WordParts(name, cs)[i] == WordParts(name, cs[1..])[i - 1];
        }
      }
    }
  }

  lemma {:induction false} HasRowOk(defs: seq<Definition>, x: string, row: Row)
    requires GrammarOk(defs) && HasRow(defs, x, row)
    ensures RowOk(defs, row)
  {
  }

  /** The tree for a name from the trees of the elements of one of its rows. */
  lemma {:induction false} MakeName(defs: seq<Definition>, X: Env, x: string, row: Row, kids: seq<Tree>)
    returns (t: Tree)
    requires WholeOk(defs, X) && HasRow(defs, x, row) && AllValid(Whole(defs, X), RowParts(row), kids)
    ensures Valid(Whole(defs, X), Entity(FixName(x)), t) && Yield(t) == Yields(kids)
  {
    var i :| 0 <= i < |defs| && defs[i].term == x && row in defs[i].disjunction;
    WholeLookup(defs, X);
    AltOfRow(defs[i].disjunction, row);
    hide GrammarOk, WholeOk, Whole, FixName, RowParts, Plain, Alts, Valid, AllValid;
    t := RowTree(FixName(x), And(RowParts(row)), kids);
    MakeRow(Whole(defs, X), FixName(x), Alts(defs[i].disjunction), RowParts(row), kids);
  }

  lemma {:induction false} MakeRow(E: Env, x: string, alts: seq<Parser>, ps: seq<Parser>, kids: seq<Tree>)
    requires x in E && E[x] == Or(alts) && And(ps) in alts && AllValid(E, ps, kids)
    ensures var t := RowTree(x, And(ps), kids); Valid(E, Entity(x), t) && Yield(t) == Yields(kids)
  {
    YieldRow(x, And(ps), kids);
  }

  lemma {:induction false} ToElemTrees(defs: seq<Definition>, X: Env, e: Elem, d: Deriv) returns (ts: seq<Tree>)
    requires WholeOk(defs, X) && ElemSimple(e) && Holds(defs, X, e, d)
    ensures AllValid(Whole(defs, X), ElemParts(e), ts) && Yields(ts) == Spell(d)
    decreases d, 1
  {
    var P := Whole(defs, X);
    match e
    case Text(x) =>
      var t: Tree;
      if d.DLeaf? {
        t := TEntity(FixName(x), TWord(d.s));
        assert Given(X, x, d.s);
      } else {
        HasRowOk(defs, x, d.row);
        var kids := ToRowTrees(defs, X, d.row, d.kids);
        t := MakeName(defs, X, x, d.row, kids);
      }
      YieldsOne(t);
      ts := [t];
    case Command(name, cs) =>
      if name == "opt" {
        if d.some.Some? {
          var inner := ToElemTrees(defs, X, cs[0], d.some.value);
          assert inner == [inner[0]];
          YieldsOne(inner[0]);
          ts := [TOpt(Some(inner[0]))];
          YieldsOne(ts[0]);
        } else {
          ts := [TOpt(None)];
          YieldsOne(ts[0]);
        }
      } else {
        ts := WordTrees(P, name, cs, d.ss);
      }
  }

  lemma {:induction false} ToRowTrees(defs: seq<Definition>, X: Env, row: Row, ds: seq<Deriv>) returns (ts: seq<Tree>)
    requires WholeOk(defs, X) && AllHold(defs, X, row, ds) && forall i :: 0 <= i < |row| ==> ElemSimple(row[i])
    ensures AllValid(Whole(defs, X), RowParts(row), ts) && Yields(ts) == Spells(ds)
    decreases ds, 0
  {
    if row == [] {
      ts := [];
    } else {
      var first := ToElemTrees(defs, X, row[0], ds[0]);
      var rest := ToRowTrees(defs, X, row[1..], ds[1..]);
      ts := first + rest;
      YieldsAppend(first, rest);
      AllValidAppend(Whole(defs, X), ElemParts(row[0]), first, RowParts(row[1..]), rest);
    }
  }

  function Size(t: Tree): nat {
    match t
    case TEntity(_, u) => 1 + Size(u)
    case TWord(_) => 1
    case TOpt(o) => 1 + (if o.Some? then Size(o.value) else 0)
    case TList(ts) => 1 + Sizes(ts)
    case TAnd(ts) => 1 + Sizes(ts)
    case TOr(_, u) => 1 + Size(u)
  }

  function Sizes(ts: seq<Tree>): nat {
    if ts == [] then 0 else Size(ts[0]) + Sizes(ts[1..])
  }

  lemma {:induction false} SizesSplit(ts: seq<Tree>, k: nat)
    requires k <= |ts|
    ensures Sizes(ts) == Sizes(ts[..k]) + Sizes(ts[k..])
  {
    if k > 0 {
      SizesSplit(ts[1..], k - 1);
      assert ts[1..][..k - 1] == ts[..k][1..] && ts[1..][k - 1..] == ts[k..];
    } else {
      assert ts[0..] == ts;
    }
  }

  lemma {:induction false} FromWords(E: Env, name: string, cs: seq<Elem>, ts: seq<Tree>) returns (ss: seq<string>)
    requires AllValid(E, WordParts(name, cs), ts)
    ensures |ss| == |cs| && Yields(ts) == Concat(ss)
    ensures forall i :: 0 <= i < |cs| ==> cs[i].Text? && Spelled(cs[i].text, ss[i])
  {
    if cs == [] {
      ss := [];
    } else {
      assert Valid(E, WordParts(name, cs)[0], ts[0]);
      forall i | 0 <= i < |cs| - 1
        ensures Valid(E, WordParts(name, cs[1..])[i], ts[1..][i])
      {
        assert WordParts(name, cs)[i + 1] == WordParts(name, cs[1..])[i];
      }
      var rest := FromWords(E, name, cs[1..], ts[1..]);
      ss := [ts[0].s] + rest;
    }
  }

  /** The definition behind a name that occurs. */
  lemma {:induction false} DefinitionOf(defs: seq<Definition>, X: Env, x: string) returns (i: nat)
    requires WholeOk(defs, X) && NameOk(defs, x) && FixName(x) in Whole(defs, X) && FixName(x) !in X
    ensures i < |defs| && Whole(defs, X)[FixName(x)] == Or(Alts(defs[i].disjunction))
    ensures forall row :: row in defs[i].disjunction ==> HasRow(defs, x, row) && RowOk(defs, row)
  {
    WholeLookup(defs, X);
    i :| 0 <= i < |defs| && FixName(defs[i].term) == FixName(x);
    assert x == defs[i].term;
  }

  /** The alternative and the trees behind a tree for an entity. */
  lemma {:induction false} OpenAlternatives(E: Env, n: string, rows: seq<Row>, t: Tree)
    returns (row: Row, kids: seq<Tree>)
    requires Valid(E, Entity(n), t) && n in E && E[n] == Or(Alts(rows))
    ensures row in rows && AllValid(E, RowParts(row), kids) && t == RowTree(n, And(RowParts(row)), kids)
  {
    row := RowOfAlt(rows, t.kid.alt);
    assert Valid(E, t.kid.alt, t.kid.kid);
    kids := t.kid.kid.kids;
  }

  /** The row behind a tree for a name, and the trees of its elements. */
  lemma {:induction false} OpenName(defs: seq<Definition>, X: Env, x: string, t: Tree)
    returns (row: Row, kids: seq<Tree>)
    requires WholeOk(defs, X) && NameOk(defs, x) && Valid(Whole(defs, X), Entity(FixName(x)), t) && FixName(x) !in X
    ensures HasRow(defs, x, row) && RowOk(defs, row) && AllValid(Whole(defs, X), RowParts(row), kids)
    ensures Sizes(kids) < Sizes([t]) && Yields(kids) == Yields([t])
  {
    assert FixName(x) in Whole(defs, X);
    hide Compilable, GrammarOk, WholeOk, Whole, NameOk, Valid, AllValid, Plain, Alts, RowParts, Sizes, Yields, HasRow,
      RowOk;
    var i := DefinitionOf(defs, X, x);
    row, kids := OpenAlternatives(Whole(defs, X), FixName(x), defs[i].disjunction, t);
    YieldRow(FixName(x), And(RowParts(row)), kids);
    YieldsOne(t);
    SizeOfRow(FixName(x), And(RowParts(row)), kids);
  }

  lemma {:induction false} OpenGiven(defs: seq<Definition>, X: Env, x: string, t: Tree) returns (d: Deriv)
    requires Flat(X) && FixName(x) in X && Valid(Whole(defs, X), Entity(FixName(x)), t)
    ensures Holds(defs, X, Text(x), d) && Spell(d) == Yield(t)
  {
    assert Valid(Whole(defs, X), X[FixName(x)], t.kid);
    assert t.kid.TWord? && Stands(X[FixName(x)], t.kid.s);
    assert Yield(t) == Yield(t.kid);
    d := DLeaf(x, Yield(t));
    assert Given(X, x, d.s);
  }

  lemma {:induction false} FromElemTrees(defs: seq<Definition>, X: Env, e: Elem, ts: seq<Tree>) returns (d: Deriv)
    requires WholeOk(defs, X) && ElemSimple(e) && NamesOk(defs, e) && AllValid(Whole(defs, X), ElemParts(e), ts)
    ensures Holds(defs, X, e, d) && Spell(d) == Yields(ts)
    decreases Sizes(ts), e
  {
    assert 0 < |ts| ==> ts[0] in ts && Valid(Whole(defs, X), ElemParts(e)[0], ts[0]);
    assert |ts| == 1 ==> ts == [ts[0]];
    match e
    case Text(x) =>
      if FixName(x) in X {
        d := OpenGiven(defs, X, x, ts[0]);
        YieldsOne(ts[0]);
      } else {
        var row, kids := OpenName(defs, X, x, ts[0]);
        var ds := FromRowTrees(defs, X, row, kids);
        d := DName(x, row, ds);
      }
    case Command(name, cs) =>
      if name == "opt" {
        YieldsOne(ts[0]);
        if ts[0].some.Some? {
          var u := ts[0].some.value;
          YieldsOne(u);
          SizeOfOpt(ts[0], u);
          var inner := FromElemTrees(defs, X, cs[0], [u]);
          d := DOpt(Some(inner));
        } else {
          d := DOpt(None);
        }
      } else if IsWords(name) {
        var ss := FromWords(Whole(defs, X), name, cs, ts);
        d := DWords(ss);
      } else {
        assert false;
      }
  }

  lemma {:induction false} SizeOfRow(n: string, alt: Parser, kids: seq<Tree>)
    ensures Sizes(kids) < Sizes([RowTree(n, alt, kids)])
  {
    var t := RowTree(n, alt, kids);
    assert Size(t.kid) == 1 + Size(TAnd(kids));
    assert [t][1..] == [];
  }

  lemma {:induction false} SizeOfOpt(t: Tree, u: Tree)
    requires t == TOpt(Some(u))
    ensures Sizes([u]) < Sizes([t])
  {
    assert [t][1..] == [] && [u][1..] == [];
  }

  lemma {:induction false} ValidHalves(E: Env, ps: seq<Parser>, qs: seq<Parser>, ts: seq<Tree>)
    requires AllValid(E, ps + qs, ts)
    ensures |ps| <= |ts| && AllValid(E, ps, ts[..|ps|]) && AllValid(E, qs, ts[|ps|..])
  {
    hide Valid;
    forall i | 0 <= i < |ps|
      ensures Valid(E, ps[i], ts[..|ps|][i])
    {
      assert Valid(E, (ps + qs)[i], ts[i]);
    }
    forall i | 0 <= i < |qs|
      ensures Valid(E, qs[i], ts[|ps|..][i])
    {
      assert Valid(E, (ps + qs)[|ps| + i], ts[|ps| + i]);
    }
  }

  /** The trees of the first element of a row, and those of the others. */
  lemma {:induction false} RowHalves(E: Env, row: Row, ts: seq<Tree>)
    requires row != [] && AllValid(E, RowParts(row), ts)
    ensures var k := |ElemParts(row[0])|;
            k <= |ts| && AllValid(E, ElemParts(row[0]), ts[..k]) && AllValid(E, RowParts(row[1..]), ts[k..])
  {
    assert RowParts(row) == ElemParts(row[0]) + RowParts(row[1..]);
    hide *;
    ValidHalves(E, ElemParts(row[0]), RowParts(row[1..]), ts);
  }

  lemma {:induction false} HalvesAddUp(ts: seq<Tree>, k: nat)
    requires k <= |ts|
    ensures Sizes(ts[..k]) + Sizes(ts[k..]) == Sizes(ts) && Yields(ts[..k]) + Yields(ts[k..]) == Yields(ts)
  {
    hide *;
    SizesSplit(ts, k);
    YieldsAppend(ts[..k], ts[k..]);
    assert ts == ts[..k] + ts[k..];
  }

  lemma {:induction false} FromRowTrees(defs: seq<Definition>, X: Env, row: Row, ts: seq<Tree>) returns (ds: seq<Deriv>)
    requires WholeOk(defs, X) && RowOk(defs, row) && AllValid(Whole(defs, X), RowParts(row), ts)
    ensures AllHold(defs, X, row, ds) && Spells(ds) == Yields(ts)
    decreases Sizes(ts), row
  {
    if row == [] {
      ds := [];
    } else {
      RowHalves(Whole(defs, X), row, ts);
      HalvesAddUp(ts, |ElemParts(row[0])|);
      hide AllValid, Valid, RowParts, ElemParts, Plain, GrammarOk, WholeOk, Whole, Sizes, Yields, Holds;
      var k := |ElemParts(row[0])|;
      var d := FromElemTrees(defs, X, row[0], ts[..k]);
      var rest := FromRowTrees(defs, X, row[1..], ts[k..]);
      ds := [d] + rest;
    }
  }

  /** The plain reading derives what the definitions derive. */
  lemma {:induction false} PlainMeansSource(defs: seq<Definition>, X: Env, x: string, s: string)
    requires WholeOk(defs, X) && NameOk(defs, x)
    ensures SourceDerives(defs, X, Text(x), s) <==> Derives(Whole(defs, X), Entity(FixName(x)), s)
  {
    if SourceDerives(defs, X, Text(x), s) {
      var d :| Holds(defs, X, Text(x), d) && Spell(d) == s;
      var ts := ToElemTrees(defs, X, Text(x), d);
      assert Valid(Whole(defs, X), ElemParts(Text(x))[0], ts[0]);
      assert ts == [ts[0]];
      YieldsOne(ts[0]);
    }
    if Derives(Whole(defs, X), Entity(FixName(x)), s) {
      var t :| Valid(Whole(defs, X), Entity(FixName(x)), t) && Yield(t) == s;
      YieldsOne(t);
      var d := FromElemTrees(defs, X, Text(x), [t]);
    }
  }

  // ---- The compiled environment ----

  function Compile(defs: seq<Definition>): Option<seq<Entry>> {
    if defs == [] then Some([])
    else
      match (Dump(defs[0]), Compile(defs[1..]))
      case (Some(a), Some(b)) => Some(a + b)
      case (_, _) => None
  }

  /** The three shapes of what is written for one definition. */
  ghost predicate PlainDump(def: Definition, es: seq<Entry>) {
    es == [Entry(FixName(def.term), Or(Alts(def.disjunction)))]
  }

  ghost predicate ListDump(def: Definition, es: seq<Entry>, b: string) {
    ListItem(def) == Some(b) && es == [Entry(FixName(def.term), List(Entity(FixName(b)), 1))]
  }

  ghost predicate SplitDump(def: Definition, es: seq<Entry>) {
    var st, ct := StartOf(def), ContinueOf(def);
    es == [Entry(FixName(def.term), And([Entity(FixName(st.term)), List(Entity(FixName(ct.term)), 0)])),
           Entry(FixName(st.term), Or(Alts(st.disjunction))),
           Entry(FixName(ct.term), Or(Alts(ct.disjunction)))]
  }

  ghost predicate Mentions(term: string, row: Row) {
    exists i :: 0 <= i < |row| &&
      (row[i] == Text(term) || (row[i].Command? && row[i].name == "opt" && row[i].contents == [Text(term)]))
  }

  lemma {:induction false} ListMentions(def: Definition)
    requires ListItem(def).Some?
    ensures exists row :: row in def.disjunction && Mentions(def.term, row)
  {
    var rows := def.disjunction;
    if |rows| == 1 {
      var second: Elem := rows[0][1];
      assert second.contents == [Text(def.term)];
      assert Mentions(def.term, rows[0]);
    } else {
      var d2 := rows[if |rows[0]| != 1 then 0 else 1];
      assert d2[0] == Text(def.term) || d2[1] == Text(def.term);
      assert Mentions(def.term, d2);
    }
  }

  /** A helper definition is written as plain alternatives: its own name occurs in none of its rows. */
  lemma {:induction false} HelperIsPlain(def: Definition)
    requires forall row :: row in def.disjunction ==> !Mentions(def.term, row)
    requires Dump(def).Some?
    ensures PlainDump(def, Dump(def).value)
  {
    if ListItem(def).Some? {
      ListMentions(def);
    }
    forall row | row in def.disjunction
      ensures !SelfRow(def.term, row)
    {
      assert SelfRow(def.term, row) ==> Mentions(def.term, row) by {
        assert row != [] ==> row[0] == row[0];
      }
    }
  }

  lemma {:induction false} NotMentioned(defs: seq<Definition>, row: Row, term: string)
    requires RowOk(defs, row) && !NameOk(defs, term)
    ensures !Mentions(term, row)
  {
    forall i | 0 <= i < |row|
      ensures row[i] != Text(term) && !(row[i].Command? && row[i].name == "opt" && row[i].contents == [Text(term)])
    {
      var e: Elem := row[i];
      assert NamesOk(defs, e);
      assert NamesOk(defs, Text(term)) == NameOk(defs, term);
      assert e.Command? && e.contents == [Text(term)] ==> e.contents[0] == Text(term) && |e.contents| == 1;
    }
  }

  lemma {:induction false} TailOk(defs: seq<Definition>, row: Row, x: string)
    requires RowOk(defs, [Text(x)] + row)
    ensures RowOk(defs, row)
  {
    forall i | 0 <= i < |row|
      ensures ElemSimple(row[i]) && NamesOk(defs, row[i])
    {
      assert ([Text(x)] + row)[i + 1] == row[i];
    }
  }

  lemma {:induction false} HelpersNotMentioned(defs: seq<Definition>, i: nat)
    requires GrammarOk(defs) && i < |defs|
    ensures forall row :: row in StartOf(defs[i]).disjunction ==> !Mentions(StartOf(defs[i]).term, row)
    ensures forall row :: row in ContinueOf(defs[i]).disjunction ==> !Mentions(ContinueOf(defs[i]).term, row)
  {
    var def := defs[i];
    assert !NameOk(defs, def.term + "-impl-start") && !NameOk(defs, def.term + "-impl-continue");
    forall row | row in StartOf(def).disjunction
      ensures !Mentions(StartOf(def).term, row)
    {
      NotMentioned(defs, row, StartOf(def).term);
    }
    forall row | row in ContinueOf(def).disjunction
      ensures !Mentions(ContinueOf(def).term, row)
    {
      TailOk(defs, row, def.term);
      NotMentioned(defs, row, ContinueOf(def).term);
    }
  }

  lemma {:induction false} DumpShape(defs: seq<Definition>, i: nat)
    requires GrammarOk(defs) && i < |defs| && Dump(defs[i]).Some?
    ensures var es := Dump(defs[i]).value;
            || PlainDump(defs[i], es)
            || (exists b :: ListDump(defs[i], es, b))
            || (SplitDump(defs[i], es) && HasSelfStart(defs[i]))
  {
    var def := defs[i];
    if ListItem(def).Some? {
      assert ListDump(def, Dump(def).value, ListItem(def).value);
    } else if HasSelfStart(def) {
      HelpersNotMentioned(defs, i);
      HelperIsPlain(StartOf(def));
      HelperIsPlain(ContinueOf(def));
    }
  }

  lemma {:induction false} CompileEntries(defs: seq<Definition>, i: nat)
    requires Compile(defs).Some? && i < |defs|
    ensures Dump(defs[i]).Some? && forall e :: e in Dump(defs[i]).value ==> e in Compile(defs).value
  {
    if i > 0 {
      CompileEntries(defs[1..], i - 1);
    }
  }

  /** Every entry comes from some definition. */
  lemma {:induction false} EntryOrigin(defs: seq<Definition>, e: Entry) returns (i: nat)
    requires Compile(defs).Some? && e in Compile(defs).value
    ensures i < |defs| && Dump(defs[i]).Some? && e in Dump(defs[i]).value
  {
    if e in Dump(defs[0]).value {
      i := 0;
    } else {
      var j := EntryOrigin(defs[1..], e);
      i := j + 1;
    }
  }

  // ---- The theorem ----

  /** What a grammar has to satisfy for its declarations to be one C++ program. */
  predicate Compilable(defs: seq<Definition>) {
    GrammarOk(defs) && Compile(defs).Some? && Distinct(Compile(defs).value)
  }

  /** The entities written by hand are words and new-lines, and no declaration bears their names. */
  predicate HandWritten(X: Env, entries: seq<Entry>) {
    Flat(X) && forall e :: e in entries ==> e.name !in X
  }

  lemma {:induction false} RelatedPlain(defs: seq<Definition>, i: nat)
    requires Compilable(defs) && i < |defs| && Dump(defs[i]).Some? && PlainDump(defs[i], Dump(defs[i]).value)
    ensures SameEntity(Plain(defs), Declared(Compile(defs).value), FixName(defs[i].term))
  {
    PlainLookup(defs);
    DeclaredLookup(Compile(defs).value);
    CompileEntries(defs, i);
    assert Dump(defs[i]).value[0] in Dump(defs[i]).value;
  }

  lemma {:induction false} RelatedList(defs: seq<Definition>, i: nat, b: string)
    requires Compilable(defs) && i < |defs| && Dump(defs[i]).Some? && ListDump(defs[i], Dump(defs[i]).value, b)
    ensures ListEntity(Plain(defs), Declared(Compile(defs).value), FixName(defs[i].term), FixName(b))
  {
    PlainLookup(defs);
    DeclaredLookup(Compile(defs).value);
    CompileEntries(defs, i);
    assert Dump(defs[i]).value[0] in Dump(defs[i]).value;
    ListRows(defs[i], b);
  }

  lemma {:induction false} OneParts(e: Elem)
    ensures RowParts([e]) == ElemParts(e)
  {
    assert [e][1..] == [];
  }

  lemma {:induction false} TwoParts(e: Elem, f: Elem)
    ensures RowParts([e, f]) == ElemParts(e) + ElemParts(f)
  {
    assert [e, f][1..] == [f];
    OneParts(f);
  }

  lemma {:induction false} ListRows(def: Definition, b: string)
    requires ListItem(def) == Some(b)
    ensures var alts, B, X := Alts(def.disjunction), Entity(FixName(b)), Entity(FixName(def.term));
            || IsSetOf(alts, {And([B]), And([B, X])})
            || IsSetOf(alts, {And([B]), And([X, B])})
            || IsSetOf(alts, {And([B, Opt([X])])})
  {
    var rows, alts := def.disjunction, Alts(def.disjunction);
    var eb, ex := Text(b), Text(def.term);
    OneParts(eb);
    TwoParts(eb, ex);
    TwoParts(ex, eb);
    TwoParts(eb, Command("opt", [ex]));
    var B, X := Entity(FixName(b)), Entity(FixName(def.term));
    if |rows| == 1 {
      var second: Elem := rows[0][1];
      assert second.contents == [ex];
      assert rows[0] == [eb, Command("opt", [ex])];
      assert ElemParts(Command("opt", [ex])) == [Opt(ElemParts(ex))] && ElemParts(ex) == [X];
      assert RowParts(rows[0]) == [B, Opt([X])];
      assert alts == [And([B, Opt([X])])];
    } else {
      var swap := |rows[0]| != 1;
      var d1, d2 := rows[if swap then 1 else 0], rows[if swap then 0 else 1];
      assert d1 == [eb] && (d2 == [eb, ex] || d2 == [ex, eb]);
      var a1, a2 := And(RowParts(d1)), And(RowParts(d2));
      assert a1 == And([B]) && (a2 == And([B, X]) || a2 == And([X, B]));
      assert alts == if swap then [a2, a1] else [a1, a2];
    }
  }

  lemma {:induction false} SplitCovers(def: Definition)
    ensures forall a :: a in Alts(def.disjunction) ==>
              a in Alts(StartOf(def).disjunction) ||
                (SelfStart(a, FixName(def.term)) && And(a.parts[1..]) in Alts(ContinueOf(def).disjunction))
  {
    var st, ct := StartOf(def), ContinueOf(def);
    forall a | a in Alts(def.disjunction)
      ensures a in Alts(st.disjunction) ||
        (SelfStart(a, FixName(def.term)) && And(a.parts[1..]) in Alts(ct.disjunction))
    {
      var row := RowOfAlt(def.disjunction, a);
      if SelfRow(def.term, row) {
        assert row == [Text(def.term)] + row[1..];
        SelfParts(def.term, row[1..]);
        AltOfRow(ct.disjunction, row[1..]);
      } else {
        AltOfRow(st.disjunction, row);
      }
    }
  }

  lemma {:induction false} StartComesFrom(def: Definition)
    ensures forall a :: a in Alts(StartOf(def).disjunction) ==> a in Alts(def.disjunction)
  {
    forall a | a in Alts(StartOf(def).disjunction)
      ensures a in Alts(def.disjunction)
    {
      var row := RowOfAlt(StartOf(def).disjunction, a);
      AltOfRow(def.disjunction, row);
    }
  }

  lemma {:induction false} ContinueComesFrom(def: Definition)
    ensures forall a :: a in Alts(ContinueOf(def).disjunction) ==>
              a.And? && And([Entity(FixName(def.term))] + a.parts) in Alts(def.disjunction)
  {
    forall a | a in Alts(ContinueOf(def).disjunction)
      ensures a.And? && And([Entity(FixName(def.term))] + a.parts) in Alts(def.disjunction)
    {
      var row := RowOfAlt(ContinueOf(def).disjunction, a);
      SelfParts(def.term, row);
      AltOfRow(def.disjunction, [Text(def.term)] + row);
    }
  }

  /** What the three declarations of a split definition are. */
  lemma {:induction false} SplitDeclared(defs: seq<Definition>, i: nat)
    requires Compilable(defs) && i < |defs| && Dump(defs[i]).Some? && SplitDump(defs[i], Dump(defs[i]).value)
    ensures var T, x := Declared(Compile(defs).value), FixName(defs[i].term);
            var st, ct := FixName(StartOf(defs[i]).term), FixName(ContinueOf(defs[i]).term);
            && x in T && st in T && ct in T && T[x] == And([Entity(st), List(Entity(ct), 0)])
            && T[st] == Or(Alts(StartOf(defs[i]).disjunction)) && T[ct] == Or(Alts(ContinueOf(defs[i]).disjunction))
  {
    var es := Dump(defs[i]).value;
    CompileEntries(defs, i);
    assert es[0] in es && es[1] in es && es[2] in es;
    hide Compile, Dump, StartOf, ContinueOf, Declared, Alts;
    DeclaredLookup(Compile(defs).value);
  }

  lemma {:induction false} RelatedSplit(defs: seq<Definition>, i: nat)
    requires Compilable(defs) && i < |defs| && Dump(defs[i]).Some? && SplitDump(defs[i], Dump(defs[i]).value)
    ensures SplitEntity(Plain(defs), Declared(Compile(defs).value), FixName(defs[i].term),
                        FixName(StartOf(defs[i]).term), FixName(ContinueOf(defs[i]).term))
  {
    PlainLookup(defs);
    HelperNotPlain(defs, i);
    SplitDeclared(defs, i);
    hide Compile, Dump, StartOf, ContinueOf, Declared, Alts, Plain, SplitDump, GrammarOk, Compilable, SelfStart;
    SplitCovers(defs[i]);
    StartComesFrom(defs[i]);
    ContinueComesFrom(defs[i]);
  }

  lemma {:induction false} SelfParts(term: string, row: Row)
    ensures RowParts([Text(term)] + row) == [Entity(FixName(term))] + RowParts(row)
  {
    assert ([Text(term)] + row)[1..] == row;
  }

  /** The helper entities are no definitions of their own. */
  lemma {:induction false} HelperNotPlain(defs: seq<Definition>, i: nat)
    requires Compilable(defs) && i < |defs| && Dump(defs[i]).Some? && SplitDump(defs[i], Dump(defs[i]).value)
    ensures FixName(StartOf(defs[i]).term) !in Plain(defs) && FixName(ContinueOf(defs[i]).term) !in Plain(defs)
  {
    PlainLookup(defs);
    forall j | 0 <= j < |defs|
      ensures FixName(StartOf(defs[i]).term) != FixName(defs[j].term)
      ensures FixName(ContinueOf(defs[i]).term) != FixName(defs[j].term)
    {
      assert NameOk(defs, defs[j].term);
    }
  }

  /** What T declares beyond the definitions are helpers, which no row mentions. */
  lemma {:induction false} ElemOver(defs: seq<Definition>, e: Elem)
    requires Compilable(defs) && NamesOk(defs, e)
    ensures forall i :: 0 <= i < |ElemParts(e)| ==> Over(Plain(defs), Declared(Compile(defs).value), ElemParts(e)[i])
  {
    match e
    case Text(x) => NameOver(defs, x);
    case Command(name, cs) =>
      if name == "opt" && |cs| == 1 {
        ElemOver(defs, cs[0]);
      }
  }

  /** The entries of a definition are named after it or after its helpers. */
  lemma {:induction false} EntryNames(defs: seq<Definition>, i: nat, e: Entry)
    requires GrammarOk(defs) && i < |defs| && Dump(defs[i]).Some? && e in Dump(defs[i]).value
    ensures || e.name == FixName(defs[i].term)
            || e.name == FixName(StartOf(defs[i]).term) || e.name == FixName(ContinueOf(defs[i]).term)
  {
    DumpShape(defs, i);
    hide GrammarOk, Dump, FixName, HasSelfStart, Alts;
  }

  lemma {:induction false} NoHelperName(defs: seq<Definition>, i: nat, x: string)
    requires NameOk(defs, x) && i < |defs|
    ensures FixName(x) != FixName(StartOf(defs[i]).term) && FixName(x) != FixName(ContinueOf(defs[i]).term)
  {
    hide FixName;
  }

  lemma {:induction false} TermIsPlain(defs: seq<Definition>, i: nat)
    requires GrammarOk(defs) && i < |defs|
    ensures FixName(defs[i].term) in Plain(defs)
  {
    PlainLookup(defs);
  }

  lemma {:induction false} NameOver(defs: seq<Definition>, x: string)
    requires Compilable(defs) && NameOk(defs, x)
    ensures FixName(x) in Declared(Compile(defs).value) ==> FixName(x) in Plain(defs)
  {
    var entries := Compile(defs).value;
    assert GrammarOk(defs) && Distinct(entries);
    hide *;
    if FixName(x) in Declared(entries) {
      var e := EntryNamed(entries, FixName(x));
      var i := EntryOrigin(defs, e);
      EntryNames(defs, i, e);
      NoHelperName(defs, i, x);
      TermIsPlain(defs, i);
    }
  }

  lemma {:induction false} EntryNamed(entries: seq<Entry>, x: string) returns (e: Entry)
    requires Distinct(entries) && x in Declared(entries)
    ensures e in entries && e.name == x
  {
    DeclaredLookup(entries);
    e :| e in entries && e.name == x;
  }

  lemma {:induction false} RowOver(defs: seq<Definition>, row: Row)
    requires Compilable(defs) && RowOk(defs, row)
    ensures forall i :: 0 <= i < |RowParts(row)| ==> Over(Plain(defs), Declared(Compile(defs).value), RowParts(row)[i])
  {
    if row != [] {
      ElemOver(defs, row[0]);
      RowOver(defs, row[1..]);
    }
  }

  lemma {:induction false} EntitiesRelated(defs: seq<Definition>)
    requires Compilable(defs)
    ensures AllRelated(Plain(defs), Declared(Compile(defs).value))
  {
    var P, T := Plain(defs), Declared(Compile(defs).value);
    PlainLookup(defs);
    forall x | x in P
      ensures Related(P, T, x) && Over(P, T, P[x])
    {
      var i :| 0 <= i < |defs| && FixName(defs[i].term) == x;
      EntityRelated(defs, i);
      var rows := defs[i].disjunction;
      forall j | 0 <= j < |rows|
        ensures Over(P, T, Alts(rows)[j])
      {
        assert rows[j] in rows;
        RowOver(defs, rows[j]);
      }
    }
  }

  lemma {:induction false} EntityRelated(defs: seq<Definition>, i: nat)
    requires Compilable(defs) && i < |defs|
    ensures Related(Plain(defs), Declared(Compile(defs).value), FixName(defs[i].term))
  {
    CompileEntries(defs, i);
    DumpShape(defs, i);
    var es := Dump(defs[i]).value;
    if PlainDump(defs[i], es) {
      RelatedPlain(defs, i);
    } else if exists b :: ListDump(defs[i], es, b) {
      var b :| ListDump(defs[i], es, b);
      RelatedList(defs, i, b);
    } else {
      RelatedSplit(defs, i);
    }
  }

  /** Both readings take the entities written by hand. */
  lemma {:induction false} WithHandWritten(defs: seq<Definition>, X: Env)
    requires Compilable(defs) && HandWritten(X, Compile(defs).value)
    ensures WholeOk(defs, X) && AllRelated(Whole(defs, X), Declared(Compile(defs).value) + X)
  {
    var T := Declared(Compile(defs).value);
    EntitiesRelated(defs);
    DeclaredLookup(Compile(defs).value);
    assert T.Keys !! X.Keys;
    forall x | x in Plain(defs)
      ensures x in T
    {
      assert Related(Plain(defs), T, x);
    }
    MoreEntities(Plain(defs), T, X);
  }

  /** Every name of the grammar derives exactly the same strings from the declarations as from the definitions,
      whatever entities are written by hand beside them. */
  lemma {:induction false} CompilePreservesMeaning(defs: seq<Definition>, X: Env, x: string, s: string)
    requires Compilable(defs) && HandWritten(X, Compile(defs).value) && NameOk(defs, x)
    ensures SourceDerives(defs, X, Text(x), s) <==> Derives(Declared(Compile(defs).value) + X, Entity(FixName(x)), s)
  {
    WithHandWritten(defs, X);
    PlainMeansSource(defs, X, x, s);
    NameOver(defs, x);
    SameLanguage(Whole(defs, X), Declared(Compile(defs).value) + X, Entity(FixName(x)), s);
  }

  /** End to end: what the parser accepts for a name is derivable from the definitions. */
  lemma {:induction false} CompiledParserIsSound(defs: seq<Definition>, X: Env, x: string, sv: string, fuel: nat)
    requires Compilable(defs) && HandWritten(X, Compile(defs).value) && NameOk(defs, x)
    ensures var o := Parse(Declared(Compile(defs).value) + X, Entity(FixName(x)), sv, fuel);
            o.Parsed? ==> o.consumed <= |sv| && SourceDerives(defs, X, Text(x), sv[..o.consumed])
  {
    var T := Declared(Compile(defs).value) + X;
    var o := Parse(T, Entity(FixName(x)), sv, fuel);
    ParseIsSound(T, Entity(FixName(x)), sv, fuel);
    if o.Parsed? {
      CompilePreservesMeaning(defs, X, x, sv[..o.consumed]);
    }
  }
}
