/** Which declarations still call themselves first, and for which definitions nothing is written. */
module LeftRecursion {
  import opened Grammar
  import opened GrammarCompiler
  import opened GrammarTheorem
  import opened Wrappers

  // ---- What is tried first ----

  /** Before it has consumed anything, p may try the entity n: as its first part, its item or an alternative. */
  ghost predicate Tries(p: Parser, n: string) {
    match p
    case Entity(x) => x == n
    case Opt(args) => args != [] && Tries(args[0], n)
    case List(q, _) => Tries(q, n)
    case And(ps) => ps != [] && Tries(ps[0], n)
    case Or(ps) => exists i :: 0 <= i < |ps| && Tries(ps[i], n)
    case _ => false
  }

  /** An element that is the name, or an option of such an element. */
  predicate ElemLeads(e: Elem, term: string) {
    match e
    case Text(x) => x == term
    case Command(name, cs) => name == "opt" && |cs| == 1 && ElemLeads(cs[0], term)
  }

  /** A list of words without any words, for which nothing is written. */
  predicate NoWords(e: Elem) {
    e.Command? && IsWords(e.name) && e.contents == []
  }

  predicate RowLeads(row: Row, term: string) {
    row != [] && (ElemLeads(row[0], term) || (NoWords(row[0]) && RowLeads(row[1..], term)))
  }

  /** x = b | b x or x = b | x b, in either order, or x = b opt(x). */
  predicate IsListOf(def: Definition, item: string) {
    var x, b := Text(def.term), Text(item);
    || def.disjunction == [[b], [b, x]] || def.disjunction == [[b, x], [b]]
    || def.disjunction == [[b], [x, b]] || def.disjunction == [[x, b], [b]]
    || def.disjunction == [[b, Command("opt", [x])]]
  }

  /** The left recursion that is left: lists of themselves, and definitions none of whose rows begins with the name
      while some row has it in an option, or behind words that are none, at its beginning. */
  predicate Stays(def: Definition) {
    || IsListOf(def, def.term)
    || ((exists row :: row in def.disjunction && RowLeads(row, def.term)) &&
        forall row :: row in def.disjunction ==> row != [] && row[0] != Text(def.term))
  }

  lemma {:induction false} ElemTries(defs: seq<Definition>, i: nat, e: Elem)
    requires i < |defs| && NamesOk(defs, e) && ElemSimple(e)
    ensures ElemParts(e) != [] && Tries(ElemParts(e)[0], FixName(defs[i].term)) <==> ElemLeads(e, defs[i].term)
    ensures ElemParts(e) == [] <==> NoWords(e)
  {
    hide FixName;
    match e
    case Text(x) => assert NameOk(defs, x);
    case Command(name, cs) =>
      if name == "opt" {
        ElemTries(defs, i, cs[0]);
      }
  }

  lemma {:induction false} AndTries(ps: seq<Parser>, n: string)
    ensures Tries(And(ps), n) <==> ps != [] && Tries(ps[0], n)
  {
  }

  lemma {:induction false} RowTries(defs: seq<Definition>, i: nat, row: Row)
    requires i < |defs| && RowOk(defs, row)
    ensures Tries(And(RowParts(row)), FixName(defs[i].term)) <==> RowLeads(row, defs[i].term)
  {
    AndTries(RowParts(row), FixName(defs[i].term));
    if row != [] {
      hide Tries, ElemParts, FixName, ElemLeads, NoWords, IsWords;
      ElemTries(defs, i, row[0]);
      RowTries(defs, i, row[1..]);
      AndTries(RowParts(row[1..]), FixName(defs[i].term));
    }
  }

  /** Alternatives of rows try the name of a definition if and only if it leads one of the rows. */
  lemma {:induction false} AltsTry(defs: seq<Definition>, i: nat, rows: seq<Row>)
    requires i < |defs| && forall row :: row in rows ==> RowOk(defs, row)
    ensures Tries(Or(Alts(rows)), FixName(defs[i].term)) <==>
            exists row :: row in rows && RowLeads(row, defs[i].term)
  {
    var n := FixName(defs[i].term);
    forall k | 0 <= k < |rows|
      ensures Tries(Alts(rows)[k], n) <==> RowLeads(rows[k], defs[i].term)
    {
      assert rows[k] in rows;
      RowTries(defs, i, rows[k]);
    }
    hide RowLeads, FixName;
    if row :| row in rows && RowLeads(row, defs[i].term) {
      var k :| 0 <= k < |rows| && rows[k] == row;
      assert Tries(Alts(rows)[k], n);
    }
  }

  /** The helpers of a definition are not mentioned, so they are not tried. */
  lemma {:induction false} ElemTriesNoHelper(defs: seq<Definition>, e: Elem, y: string)
    requires NamesOk(defs, e) && ElemSimple(e) && forall x :: NameOk(defs, x) ==> FixName(x) != y
    ensures ElemParts(e) != [] ==> !Tries(ElemParts(e)[0], y)
  {
    hide FixName, NameOk;
    match e
    case Text(x) =>
    case Command(name, cs) =>
      if name == "opt" {
        ElemTriesNoHelper(defs, cs[0], y);
      }
  }

  lemma {:induction false} RowTriesNoHelper(defs: seq<Definition>, row: Row, y: string)
    requires RowOk(defs, row) && forall x :: NameOk(defs, x) ==> FixName(x) != y
    ensures !Tries(And(RowParts(row)), y)
  {
    AndTries(RowParts(row), y);
    if row != [] {
      hide Tries, ElemParts, FixName, NameOk;
      ElemTriesNoHelper(defs, row[0], y);
      RowTriesNoHelper(defs, row[1..], y);
      AndTries(RowParts(row[1..]), y);
    }
  }

  lemma {:induction false} AltsTryNoHelper(defs: seq<Definition>, rows: seq<Row>, y: string)
    requires (forall row :: row in rows ==> RowOk(defs, row)) && forall x :: NameOk(defs, x) ==> FixName(x) != y
    ensures !Tries(Or(Alts(rows)), y)
  {
    hide FixName, NameOk;
    forall k | 0 <= k < |rows|
      ensures !Tries(Alts(rows)[k], y)
    {
      assert rows[k] in rows;
      RowTriesNoHelper(defs, rows[k], y);
    }
  }

  // ---- The declarations of one definition ----

  /** The recognition of lists finds these shapes and no others. */
  lemma {:induction false} ListItemMeaning(def: Definition, item: string)
    ensures ListItem(def) == Some(item) <==> IsListOf(def, item)
  {
    var rows, x, b := def.disjunction, Text(def.term), Text(item);
    if IsListOf(def, item) {
      assert |rows| == 1 ==> rows == [[b, Command("opt", [x])]];
    }
    if ListItem(def) == Some(item) {
      if |rows| == 1 {
        var second: Elem := rows[0][1];
        assert second.contents == [x];
        assert rows[0] == [b, Command("opt", [x])];
        assert rows == [[b, Command("opt", [x])]];
      } else {
        var swap := |rows[0]| != 1;
        var d1, d2 := rows[if swap then 1 else 0], rows[if swap then 0 else 1];
        assert d1 == [b] && (d2 == [b, x] || d2 == [x, b]);
        assert rows == if swap then [d2, d1] else [d1, d2];
      }
    }
  }

  lemma {:induction false} ItemNameOk(defs: seq<Definition>, i: nat, item: string)
    requires GrammarOk(defs) && i < |defs| && IsListOf(defs[i], item)
    ensures FixName(item) == FixName(defs[i].term) ==> item == defs[i].term
  {
    var rows := defs[i].disjunction;
    hide FixName;
    forall row | row in rows && row[0] == Text(item)
      ensures NameOk(defs, item)
    {
      assert RowOk(defs, row) && NamesOk(defs, row[0]);
    }
    assert exists k :: 0 <= k < |rows| && rows[k] in rows && rows[k] != [] && rows[k][0] == Text(item) by {
      assert rows[0] in rows && rows[|rows| - 1] in rows;
    }
  }

  lemma {:induction false} ListLeads(def: Definition, item: string)
    requires IsListOf(def, item) && item != def.term
    ensures (exists row :: row in def.disjunction && row != [] && row[0] == Text(def.term)) ||
            forall row :: row in def.disjunction ==> !RowLeads(row, def.term)
  {
    var x, b := Text(def.term), Text(item);
    if def.disjunction == [[b], [x, b]] || def.disjunction == [[x, b], [b]] {
      assert [x, b] in def.disjunction;
    }
  }

  /** Where a definition is written as a list, its declaration stays left-recursive only if it lists itself. */
  lemma {:induction false} ListTries(defs: seq<Definition>, i: nat, item: string)
    requires GrammarOk(defs) && i < |defs| && IsListOf(defs[i], item)
    ensures Tries(List(Entity(FixName(item)), 1), FixName(defs[i].term)) <==> Stays(defs[i])
  {
    ItemNameOk(defs, i, item);
    ListItemMeaning(defs[i], item);
    ListItemMeaning(defs[i], defs[i].term);
    assert Tries(Entity(FixName(item)), FixName(defs[i].term)) <==> FixName(item) == FixName(defs[i].term);
    if item != defs[i].term {
      ListLeads(defs[i], item);
      hide IsListOf, RowLeads, FixName, ListItem, GrammarOk;
    }
  }

  lemma {:induction false} NotAHelper(defs: seq<Definition>, i: nat)
    requires GrammarOk(defs) && i < |defs|
    ensures FixName(StartOf(defs[i]).term) != FixName(defs[i].term)
    ensures FixName(ContinueOf(defs[i]).term) != FixName(defs[i].term)
  {
    hide FixName;
    assert NameOk(defs, defs[i].term);
  }

  lemma {:induction false} StartRowsOk(defs: seq<Definition>, i: nat)
    requires GrammarOk(defs) && i < |defs|
    ensures forall row :: row in StartOf(defs[i]).disjunction ==> RowOk(defs, row)
    ensures forall row :: row in ContinueOf(defs[i]).disjunction ==> RowOk(defs, row)
    ensures forall x :: NameOk(defs, x) ==> FixName(x) != FixName(StartOf(defs[i]).term)
    ensures forall x :: NameOk(defs, x) ==> FixName(x) != FixName(ContinueOf(defs[i]).term)
  {
    hide FixName;
    forall row | row in ContinueOf(defs[i]).disjunction
      ensures RowOk(defs, row)
    {
      TailOk(defs, row, defs[i].term);
    }
  }

  /** The three declarations of a split definition: none of them tries itself first. */
  lemma {:induction false} SplitTries(defs: seq<Definition>, i: nat, es: seq<Entry>, e: Entry)
    requires GrammarOk(defs) && i < |defs| && SplitDump(defs[i], es) && e in es
    ensures !Tries(e.parser, e.name)
  {
    var st, ct := StartOf(defs[i]), ContinueOf(defs[i]);
    NotAHelper(defs, i);
    StartRowsOk(defs, i);
    hide FixName, StartOf, ContinueOf, GrammarOk, NameOk, Alts;
    if e == es[0] {
      AndTries([Entity(FixName(st.term)), List(Entity(FixName(ct.term)), 0)], FixName(defs[i].term));
    } else if e == es[1] {
      AltsTryNoHelper(defs, st.disjunction, FixName(st.term));
    } else {
      AltsTryNoHelper(defs, ct.disjunction, FixName(ct.term));
    }
  }

  lemma {:induction false} NoListStays(def: Definition)
    requires [] !in def.disjunction && ListItem(def).None?
    ensures Stays(def) <==>
            (exists row :: row in def.disjunction && RowLeads(row, def.term)) &&
            !exists row :: row in def.disjunction && SelfRow(def.term, row)
  {
    ListItemMeaning(def, def.term);
    hide IsListOf, ListItem, RowLeads;
  }

  lemma {:induction false} EntryTries(defs: seq<Definition>, i: nat, e: Entry)
    requires GrammarOk(defs) && i < |defs| && Dump(defs[i]).Some? && e in Dump(defs[i]).value
    ensures Tries(e.parser, e.name) <==> e.name == FixName(defs[i].term) && Stays(defs[i])
  {
    var def := defs[i];
    var es := Dump(def).value;
    if ListItem(def).Some? {
      ListItemMeaning(def, ListItem(def).value);
      ListTries(defs, i, ListItem(def).value);
    } else {
      NoListStays(def);
      hide Stays, Tries, RowLeads, GrammarOk, FixName;
      if HasSelfStart(def) {
        SplitHere(defs, i);
        SplitTries(defs, i, es, e);
      } else {
        assert es == [Entry(FixName(def.term), Or(Alts(def.disjunction)))];
        RowsOk(defs, i);
        AltsTry(defs, i, def.disjunction);
      }
    }
  }

  lemma {:induction false} RowsOk(defs: seq<Definition>, i: nat)
    requires GrammarOk(defs) && i < |defs|
    ensures forall row :: row in defs[i].disjunction ==> RowOk(defs, row)
  {
  }

  lemma {:induction false} SplitHere(defs: seq<Definition>, i: nat)
    requires GrammarOk(defs) && i < |defs| && Dump(defs[i]).Some?
    requires ListItem(defs[i]).None? && HasSelfStart(defs[i])
    ensures SplitDump(defs[i], Dump(defs[i]).value)
  {
    HelpersNotMentioned(defs, i);
    HelperIsPlain(StartOf(defs[i]));
    HelperIsPlain(ContinueOf(defs[i]));
  }

  /** The declarations that try themselves first are those of the definitions whose left recursion stays. */
  lemma {:induction false} OnlyTheseStay(defs: seq<Definition>, e: Entry)
    requires GrammarOk(defs) && Compile(defs).Some? && e in Compile(defs).value
    ensures Tries(e.parser, e.name) <==>
            exists i :: 0 <= i < |defs| && e.name == FixName(defs[i].term) && Stays(defs[i])
  {
    var i := EntryOrigin(defs, e);
    EntryTries(defs, i, e);
    EntryNames(defs, i, e);
    forall j: nat | j < |defs| && e.name == FixName(defs[j].term)
      ensures j == i
    {
      NoHelperName(defs, i, defs[j].term);
    }
  }

  // ---- The start of a split definition ----

  ghost predicate IsList(def: Definition) {
    exists item :: IsListOf(def, item)
  }

  lemma {:induction false} IsListMeaning(def: Definition)
    ensures IsList(def) <==> ListItem(def).Some?
  {
    hide IsListOf, ListItem;
    if ListItem(def).Some? {
      ListItemMeaning(def, ListItem(def).value);
    }
    if item :| IsListOf(def, item) {
      ListItemMeaning(def, item);
    }
  }

  /**
   * A definition that is no list, with a row that begins with its name, is split: its own declaration tries the start
   * and nothing else, and the start tries it again only if a row has it behind an option or behind no words.
   */
  lemma {:induction false} StartTries(defs: seq<Definition>, i: nat)
    requires GrammarOk(defs) && i < |defs| && Dump(defs[i]).Some? && !IsList(defs[i])
    requires exists row :: row in defs[i].disjunction && row != [] && row[0] == Text(defs[i].term)
    ensures var es, def := Dump(defs[i]).value, defs[i];
            && |es| == 3 && es[0].name == FixName(def.term)
            && (forall n :: Tries(es[0].parser, n) <==> n == es[1].name)
            && (Tries(es[1].parser, es[0].name) <==>
                exists row :: row in def.disjunction && RowLeads(row, def.term) && row[0] != Text(def.term))
  {
    var def, es := defs[i], Dump(defs[i]).value;
    IsListMeaning(def);
    var row :| row in def.disjunction && row != [] && row[0] == Text(def.term);
    assert SelfRow(def.term, row);
    SplitHere(defs, i);
    StartRowsOk(defs, i);
    AltsTry(defs, i, StartOf(def).disjunction);
    hide FixName, RowLeads, GrammarOk, RowOk;
    var st, ct := FixName(StartOf(def).term), FixName(ContinueOf(def).term);
    forall n
      ensures Tries(es[0].parser, n) <==> n == es[1].name
    {
      AndTries([Entity(st), List(Entity(ct), 0)], n);
    }
  }

  // ---- When nothing is written ----

  /** No rows or an empty row, or no list and a row that is the name alone, or no row to start with. */
  ghost predicate Stops(def: Definition) {
    || def.error || def.disjunction == [] || [] in def.disjunction
    || (!IsList(def) && ([Text(def.term)] in def.disjunction ||
                         forall row :: row in def.disjunction ==> row != [] && row[0] == Text(def.term)))
  }

  lemma {:induction false} SimpleIsOk(e: Elem)
    requires ElemSimple(e)
    ensures ElemOk(e)
  {
    match e
    case Text(_) =>
    case Command(name, cs) =>
      if name == "opt" {
        SimpleIsOk(cs[0]);
      }
  }

  /** A helper is written unless it has no rows or an empty one. */
  lemma {:induction false} HelperStops(defs: seq<Definition>, def: Definition)
    requires !def.error && !def.oneOf && forall row :: row in def.disjunction ==> RowOk(defs, row)
    requires forall row :: row in def.disjunction ==> !Mentions(def.term, row)
    ensures Dump(def).None? <==> def.disjunction == [] || [] in def.disjunction
  {
    if ListItem(def).Some? {
      ListMentions(def);
    }
    forall row | row in def.disjunction
      ensures !SelfRow(def.term, row)
    {
      assert SelfRow(def.term, row) ==> Mentions(def.term, row) by {
        assert row != [] ==> row[0] == row[0];
      }
    }
    AllOk(defs, def.disjunction);
    hide RowOk, Mentions, ListItem, ElemOk, Alts, FixName;
  }

  lemma {:induction false} AllOk(defs: seq<Definition>, rows: seq<Row>)
    requires forall row :: row in rows ==> RowOk(defs, row)
    ensures !exists row :: row in rows && exists e :: e in row && !ElemOk(e)
  {
    forall row, e | row in rows && e in row
      ensures ElemOk(e)
    {
      var k :| 0 <= k < |row| && row[k] == e;
      assert ElemSimple(row[k]);
      SimpleIsOk(e);
    }
  }

  /** When the program stops at a definition. */
  lemma {:induction false} DumpStops(defs: seq<Definition>, i: nat)
    requires GrammarOk(defs) && i < |defs|
    ensures Dump(defs[i]).None? <==> Stops(defs[i])
  {
    var def := defs[i];
    IsListMeaning(def);
    RowsOk(defs, i);
    AllOk(defs, def.disjunction);
    StartRowsOk(defs, i);
    HelpersNotMentioned(defs, i);
    HelperStops(defs, StartOf(def));
    HelperStops(defs, ContinueOf(def));
    HelperRows(def);
    hide GrammarOk, RowOk, Mentions, IsList, ListItem, NameOk, FixName, ElemOk, Alts;
  }

  lemma {:induction false} HelperRows(def: Definition)
    ensures StartOf(def).disjunction == [] <==> forall row :: row in def.disjunction ==> SelfRow(def.term, row)
    ensures [] in StartOf(def).disjunction <==> [] in def.disjunction
    ensures [] in ContinueOf(def).disjunction <==> [Text(def.term)] in def.disjunction
    ensures ContinueOf(def).disjunction == [] <==> !HasSelfStart(def)
  {
    var st, ct, x := StartOf(def).disjunction, ContinueOf(def).disjunction, Text(def.term);
    assert st != [] ==> st[0] in st;
    assert [x] + [] == [x];
    if ct != [] {
      assert ct[0] in ct && SelfRow(def.term, [x] + ct[0]);
    }
    if row :| row in def.disjunction && SelfRow(def.term, row) {
      assert row == [x] + row[1..];
      assert row[1..] in ct;
    }
  }

  lemma {:induction false} CompileNeedsAll(defs: seq<Definition>)
    ensures Compile(defs).None? <==> exists i :: 0 <= i < |defs| && Dump(defs[i]).None?
  {
    if defs != [] {
      CompileNeedsAll(defs[1..]);
      hide Dump;
      if i :| 0 <= i < |defs| - 1 && Dump(defs[1..][i]).None? {
        assert defs[i + 1] == defs[1..][i];
      }
      if i :| 0 < i < |defs| && Dump(defs[i]).None? {
        assert defs[1..][i - 1] == defs[i];
      }
    }
  }

  /** When the program stops before its end. */
  lemma {:induction false} CompileStops(defs: seq<Definition>)
    requires GrammarOk(defs)
    ensures Compile(defs).None? <==> exists i :: 0 <= i < |defs| && Stops(defs[i])
  {
    CompileNeedsAll(defs);
    forall i: nat | i < |defs|
      ensures Dump(defs[i]).None? <==> Stops(defs[i])
    {
      DumpStops(defs, i);
    }
  }

  // ---- What is left, by example ----

  /** x = opt(x) "a" is written as it stands, and its declaration tries itself first. */
  lemma {:induction false} OptionStays()
    ensures Stays(Definition("x", false, false, [[Command("opt", [Text("x")]), Command("terminal", [Text("a")])]]))
  {
    var row := [Command("opt", [Text("x")]), Command("terminal", [Text("a")])];
    assert ElemLeads(row[0], "x") by {
      assert ElemLeads(Text("x"), "x");
    }
    assert row in [row] && RowLeads(row, "x");
  }

  /** Left recursion through another definition is not looked for: x = y "a", y = x "b". */
  lemma {:induction false} DetourStays()
    ensures var x := Definition("x", false, false, [[Text("y"), Command("terminal", [Text("a")])]]);
            var y := Definition("y", false, false, [[Text("x"), Command("terminal", [Text("b")])]]);
            !Stays(x) && !Stays(y) && Dump(x).Some? && Dump(y).Some?
            && |Dump(x).value| == 1 && Tries(Dump(x).value[0].parser, FixName("y"))
            && |Dump(y).value| == 1 && Tries(Dump(y).value[0].parser, FixName("x"))
  {
    DetourTries("x", "y", "a");
    DetourTries("y", "x", "b");
  }

  lemma {:induction false} DetourTries(x: string, y: string, w: string)
    requires x != y
    ensures var def := Definition(x, false, false, [[Text(y), Command("terminal", [Text(w)])]]);
            !Stays(def) && Dump(def).Some? && |Dump(def).value| == 1 && Tries(Dump(def).value[0].parser, FixName(y))
  {
    var row := [Text(y), Command("terminal", [Text(w)])];
    var def := Definition(x, false, false, [row]);
    assert !HasSelfStart(def) && ListItem(def).None?;
    assert forall e :: e in row ==> ElemOk(e);
    assert Alts([row])[0] == And(RowParts(row));
    assert RowParts(row)[0] == Entity(FixName(y));
    AndTries(RowParts(row), FixName(y));
    assert Tries(And(RowParts(row)), FixName(y));
    assert !RowLeads(row, x);
  }
}
