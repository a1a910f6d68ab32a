/** From BNF definitions to combinator types: list recognition and the removal of left recursion. */
module GrammarCompiler {
  import opened Grammar
  import opened Wrappers

  datatype Elem = Text(text: string) | Command(name: string, contents: seq<Elem>)

  type Row = seq<Elem>

  datatype Definition = Definition(term: string, error: bool, oneOf: bool, disjunction: seq<Row>)

  /** One ENTITY declaration. */
  datatype Entry = Entry(name: string, parser: Parser)

  // ---- What definitions mean ----

  /** A derivation: the chosen row for a name, the spelling of a name that has no rows, the choice at an option,
      the spelling of each word. */
  datatype Deriv =
    | DName(name: string, row: Row, kids: seq<Deriv>)
    | DLeaf(name: string, s: string)
    | DOpt(some: Option<Deriv>)
    | DWords(ss: seq<string>)

  ghost predicate HasRow(defs: seq<Definition>, x: string, row: Row) {
    exists i :: 0 <= i < |defs| && defs[i].term == x && !defs[i].oneOf && row in defs[i].disjunction
  }

  /** s is spelled like a word that the "one of" definition of x lists. */
  ghost predicate OneOf(defs: seq<Definition>, x: string, s: string) {
    exists i, w ::
      0 <= i < |defs| && defs[i].term == x && defs[i].oneOf && Listed(defs[i].disjunction, w) && Spelled(w, s)
  }

  /** s is what the entity written by hand for x stands for. */
  ghost predicate Given(X: Env, x: string, s: string) {
    FixName(x) in X && Stands(X[FixName(x)], s)
  }

  predicate IsWords(name: string) {
    name == "terminal" || name == "keyword"
  }

  /** The meaning of the definitions and of the entities X written by hand. Commands other than opt, terminal and
      keyword are prose, which derives nothing. */
  ghost predicate Holds(defs: seq<Definition>, X: Env, e: Elem, d: Deriv)
    decreases d
  {
    match e
    case Text(x) =>
      || (d.DName? && d.name == x && HasRow(defs, x, d.row) && AllHold(defs, X, d.row, d.kids))
      || (d.DLeaf? && d.name == x && (Given(X, x, d.s) || OneOf(defs, x, d.s)))
    case Command(name, cs) =>
      if name == "opt" then d.DOpt? && |cs| == 1 && (d.some.Some? ==> Holds(defs, X, cs[0], d.some.value))
      else IsWords(name) && d.DWords? && |d.ss| == |cs| &&
           forall i :: 0 <= i < |cs| ==> cs[i].Text? && Spelled(cs[i].text, d.ss[i])
  }

  ghost predicate AllHold(defs: seq<Definition>, X: Env, row: Row, ds: seq<Deriv>)
    decreases ds
  {
    |ds| == |row| && forall i :: 0 <= i < |ds| ==> Holds(defs, X, row[i], ds[i])
  }

  function Concat(ss: seq<string>): string {
    if ss == [] then "" else ss[0] + Concat(ss[1..])
  }

  function Spell(d: Deriv): string {
    match d
    case DName(_, _, kids) => Spells(kids)
    case DLeaf(_, s) => s
    case DOpt(o) => if o.Some? then Spell(o.value) else ""
    case DWords(ss) => Concat(ss)
  }

  function Spells(ds: seq<Deriv>): string {
    if ds == [] then "" else Spell(ds[0]) + Spells(ds[1..])
  }

  ghost predicate SourceDerives(defs: seq<Definition>, X: Env, e: Elem, s: string) {
    exists d :: Holds(defs, X, e, d) && Spell(d) == s
  }

  // ---- The translation ----

  function Underscored(s: string): (t: string)
    ensures |t| == |s| && forall i :: 0 <= i < |s| ==> t[i] == if s[i] == '-' then '_' else s[i]
  {
    seq(|s|, i requires 0 <= i < |s| => if s[i] == '-' then '_' else s[i])
  }

  function FixName(name: string): string {
    "entity_" + Underscored(name)
  }

  /** The assertions on one element. */
  predicate ElemOk(e: Elem) {
    match e
    case Text(_) => true
    case Command(name, cs) => name == "opt" ==> |cs| == 1 && ElemOk(cs[0])
  }

  function WordParts(name: string, cs: seq<Elem>): (ps: seq<Parser>)
    ensures |ps| == |cs|
  {
    seq(|cs|, i requires 0 <= i < |cs| =>
      if !cs[i].Text? then Unimplemented else if name == "terminal" then Terminal(cs[i].text) else Keyword(cs[i].text))
  }

  /** What the dumper writes for one element: a comma-separated list of types. */
  function ElemParts(e: Elem): seq<Parser> {
    match e
    case Text(x) => [Entity(FixName(x))]
    case Command(name, cs) =>
      if name == "opt" then [Opt(if |cs| == 1 then ElemParts(cs[0]) else [])]
      else if IsWords(name) then WordParts(name, cs)
      else [Unimplemented]
  }

  function RowParts(row: Row): seq<Parser> {
    if row == [] then [] else ElemParts(row[0]) + RowParts(row[1..])
  }

  function Alts(rows: seq<Row>): (ps: seq<Parser>)
    ensures |ps| == |rows|
  {
    seq(|rows|, i requires 0 <= i < |rows| => And(RowParts(rows[i])))
  }

  /** The item of a definition that is recognised as a list: A = B opt(A), A = B | B A, A = B | A B. */
  function ListItem(def: Definition): Option<string> {
    if |def.disjunction| == 1 then
      var row := def.disjunction[0];
      if |row| == 2 && row[0].Text? && row[1].Command? && row[1].name == "opt" && |row[1].contents| == 1 &&
         row[1].contents[0] == Text(def.term)
      then Some(row[0].text) else None
    else if |def.disjunction| == 2 then
      var swap := |def.disjunction[0]| != 1;
      var d1 := def.disjunction[if swap then 1 else 0];
      var d2 := def.disjunction[if swap then 0 else 1];
      if |d1| == 1 && |d2| == 2 && d1[0].Text? && d2[0].Text? && d2[1].Text? &&
         ((d1[0].text == d2[0].text && def.term == d2[1].text) || (d1[0].text == d2[1].text && def.term == d2[0].text))
      then Some(d1[0].text) else None
    else None
  }

  predicate SelfRow(term: string, row: Row) {
    row != [] && row[0] == Text(term)
  }

  function StartRows(term: string, rows: seq<Row>): (r: seq<Row>)
    ensures forall row :: row in r <==> row in rows && !SelfRow(term, row)
    ensures |r| <= |rows| && RowsSize(r) <= RowsSize(rows)
    ensures (exists row :: row in rows && SelfRow(term, row)) ==> RowsSize(r) < RowsSize(rows)
  {
    if rows == [] then [] else
      var rest := StartRows(term, rows[1..]);
      assert forall row :: row in rows <==> row == rows[0] || row in rows[1..];
      if SelfRow(term, rows[0]) then rest else
        assert ([rows[0]] + rest)[1..] == rest;
        [rows[0]] + rest
  }

  function ContinueRows(term: string, rows: seq<Row>): (r: seq<Row>)
    ensures forall row :: row in r <==> [Text(term)] + row in rows
    ensures |r| <= |rows| && RowsSize(r) <= RowsSize(rows)
    ensures (exists row :: row in rows && SelfRow(term, row)) ==> RowsSize(r) < RowsSize(rows)
  {
    if rows == [] then [] else
      var rest := ContinueRows(term, rows[1..]);
      assert forall row :: row in rows <==> row == rows[0] || row in rows[1..];
      if SelfRow(term, rows[0]) then
        assert rows[0] == [Text(term)] + rows[0][1..];
        assert forall row :: [Text(term)] + row == rows[0] ==> row == rows[0][1..];
        assert ([rows[0][1..]] + rest)[1..] == rest;
        [rows[0][1..]] + rest
      else rest
  }

  function RowsSize(rows: seq<Row>): nat {
    if rows == [] then 0 else 1 + |rows[0]| + RowsSize(rows[1..])
  }

  predicate HasSelfStart(def: Definition) {
    exists row :: row in def.disjunction && SelfRow(def.term, row)
  }

  function StartOf(def: Definition): Definition {
    Definition(def.term + "-impl-start", false, false, StartRows(def.term, def.disjunction))
  }

  function ContinueOf(def: Definition): Definition {
    Definition(def.term + "-impl-continue", false, false, ContinueRows(def.term, def.disjunction))
  }

  /** The declarations written for a definition; None when an assertion stops the program. */
  function Dump(def: Definition): Option<seq<Entry>>
    decreases RowsSize(def.disjunction)
  {
    if def.error || def.oneOf || def.disjunction == [] || [] in def.disjunction then None
    else if ListItem(def).Some? then Some([Entry(FixName(def.term), List(Entity(FixName(ListItem(def).value)), 1))])
    else if HasSelfStart(def) then
      var st, ct := StartOf(def), ContinueOf(def);
      match (Dump(st), Dump(ct))
      case (Some(a), Some(b)) =>
        Some([Entry(FixName(def.term), And([Entity(FixName(st.term)), List(Entity(FixName(ct.term)), 0)]))] + a + b)
      case (_, _) => None
    else if exists row :: row in def.disjunction && exists e :: e in row && !ElemOk(e) then None
    else Some([Entry(FixName(def.term), Or(Alts(def.disjunction)))])
  }

  // ---- The dumper as the source runs it ----

  lemma {:induction false} StartRowsAppend(term: string, rows: seq<Row>, row: Row)
    ensures StartRows(term, rows + [row]) == StartRows(term, rows) + (if SelfRow(term, row) then [] else [row])
  {
    hide RowsSize, SelfRow;
    if rows == [] {
      assert [] + [row] == [row] && [row][1..] == [];
    } else {
      assert (rows + [row])[1..] == rows[1..] + [row];
      StartRowsAppend(term, rows[1..], row);
    }
  }

  lemma {:induction false} ContinueRowsAppend(term: string, rows: seq<Row>, row: Row)
    ensures ContinueRows(term, rows + [row]) ==
      ContinueRows(term, rows) + (if SelfRow(term, row) then [row[1..]] else [])
  {
    hide RowsSize, SelfRow;
    if rows == [] {
      assert [] + [row] == [row] && [row][1..] == [];
    } else {
      assert (rows + [row])[1..] == rows[1..] + [row];
      ContinueRowsAppend(term, rows[1..], row);
    }
  }

  /** start and continuation are the split of the first i rows. */
  ghost predicate SplitUpTo(term: string, rows: seq<Row>, i: nat, start: seq<Row>, continuation: seq<Row>) {
    i <= |rows| && start == StartRows(term, rows[..i]) && continuation == ContinueRows(term, rows[..i])
  }

  lemma {:induction false} SplitRow(term: string, rows: seq<Row>, i: nat, start: seq<Row>, continuation: seq<Row>)
    requires i < |rows| && rows[i] != [] && SplitUpTo(term, rows, i, start, continuation)
    ensures SplitUpTo(term, rows, i + 1, start + (if SelfRow(term, rows[i]) then [] else [rows[i]]),
                      continuation + (if SelfRow(term, rows[i]) then [rows[i][1..]] else []))
  {
    assert rows[..i + 1] == rows[..i] + [rows[i]];
    StartRowsAppend(term, rows[..i], rows[i]);
    ContinueRowsAppend(term, rows[..i], rows[i]);
  }

  /** The loop that sends each row to the start or, without its first element, to the continuation. */
  method SplitRows(def: Definition) returns (start: seq<Row>, continuation: seq<Row>)
    requires [] !in def.disjunction
    ensures start == StartRows(def.term, def.disjunction)
    ensures continuation == ContinueRows(def.term, def.disjunction)
  {
    start, continuation := [], [];
    assert SplitUpTo(def.term, def.disjunction, 0, [], []);
    for i := 0 to |def.disjunction|
      invariant SplitUpTo(def.term, def.disjunction, i, start, continuation)
    {
      hide SplitUpTo;
      SplitRow(def.term, def.disjunction, i, start, continuation);
      start, continuation := Distribute(def.term, def.disjunction[i], start, continuation);
    }
    assert def.disjunction[..|def.disjunction|] == def.disjunction;
  }

  /** The body of that loop: the first element of a continuation is erased in place. */
  method Distribute(term: string, dis: Row, start0: seq<Row>, continuation0: seq<Row>)
    returns (start: seq<Row>, continuation: seq<Row>)
    requires dis != []
    ensures start == start0 + (if SelfRow(term, dis) then [] else [dis])
    ensures continuation == continuation0 + (if SelfRow(term, dis) then [dis[1..]] else [])
  {
    start, continuation := start0, continuation0;
    if dis[0] == Text(term) {
      continuation := continuation + [dis];
      continuation := continuation[|continuation| - 1 := continuation[|continuation| - 1][1..]];
    } else {
      start := start + [dis];
    }
  }

  lemma {:induction false} RowPartsAppend(row: Row, e: Elem)
    ensures RowParts(row + [e]) == RowParts(row) + ElemParts(e)
  {
    if row == [] {
      assert [] + [e] == [e] && [e][1..] == [];
    } else {
      assert (row + [e])[1..] == row[1..] + [e];
      RowPartsAppend(row[1..], e);
    }
  }

  /** One alternative: the types of the row's elements, or None when an element fails its assertion. */
  method DumpRow(row: Row) returns (parts: Option<seq<Parser>>)
    ensures parts.Some? <==> forall e :: e in row ==> ElemOk(e)
    ensures parts.Some? ==> parts.value == RowParts(row)
  {
    var out: seq<Parser> := [];
    for i := 0 to |row|
      invariant out == RowParts(row[..i]) && forall e :: e in row[..i] ==> ElemOk(e)
    {
      assert row[..i + 1] == row[..i] + [row[i]];
      if !ElemOk(row[i]) {
        assert row[i] in row;
        return None;
      }
      RowPartsAppend(row[..i], row[i]);
      out := out + ElemParts(row[i]);
    }
    assert row[..|row|] == row;
    parts := Some(out);
  }

  method DumpAsCpp(def: Definition) returns (out: Option<seq<Entry>>)
    ensures out == Dump(def)
    decreases RowsSize(def.disjunction)
  {
    if def.error || def.oneOf || def.disjunction == [] {
      return None;
    }
    for i := 0 to |def.disjunction|
      invariant [] !in def.disjunction[..i]
    {
      if def.disjunction[i] == [] {
        return None;
      }
    }
    if ListItem(def).Some? {
      return Some([Entry(FixName(def.term), List(Entity(FixName(ListItem(def).value)), 1))]);
    }
    var hasSelfStart := false;
    for i := 0 to |def.disjunction|
      invariant hasSelfStart <==> exists j :: 0 <= j < i && SelfRow(def.term, def.disjunction[j])
    {
      if def.disjunction[i][0] == Text(def.term) {
        hasSelfStart := true;
      }
    }
    assert hasSelfStart == HasSelfStart(def);
    if hasSelfStart {
      var start, continuation := SplitRows(def);
      var st := Definition(def.term + "-impl-start", false, false, start);
      var ct := Definition(def.term + "-impl-continue", false, false, continuation);
      var a := DumpAsCpp(st);
      if a.None? {
        return None;
      }
      var b := DumpAsCpp(ct);
      if b.None? {
        return None;
      }
      return Some([Entry(FixName(def.term), And([Entity(FixName(st.term)), List(Entity(FixName(ct.term)), 0)]))] +
        a.value + b.value);
    }
    var alts: seq<Parser> := [];
    for i := 0 to |def.disjunction|
      invariant alts == Alts(def.disjunction[..i])
      invariant forall j :: 0 <= j < i ==> forall e :: e in def.disjunction[j] ==> ElemOk(e)
    {
      var parts := DumpRow(def.disjunction[i]);
      if parts.None? {
        assert def.disjunction[i] in def.disjunction;
        assert Dump(def).None?;
        return None;
      }
      alts := alts + [And(parts.value)];
    }
    assert def.disjunction[..|def.disjunction|] == def.disjunction;
    forall row, e | row in def.disjunction && e in row
      ensures ElemOk(e)
    {
      var j :| 0 <= j < |def.disjunction| && def.disjunction[j] == row;
    }
    out := Some([Entry(FixName(def.term), Or(alts))]);
  }

  // ---- "One of" definitions ----

  /** The single-word rows of one element of a "one of" row; None when an assertion or a variant access fails. */
  function WordRow(el: Elem): Option<Row> {
    match el
    case Text(_) => Some([Command("terminal", [el])])
    case Command(name, cs) =>
      if name == "keyword" && |cs| == 1 && cs[0].Text? then Some([Command("keyword", [cs[0]])]) else None
  }

  function WordRows(els: seq<Elem>): Option<seq<Row>> {
    if els == [] then Some([])
    else
      match (WordRow(els[0]), WordRows(els[1..]))
      case (Some(a), Some(b)) => Some([a] + b)
      case (_, _) => None
  }

  function ListedRows(row: Row): Option<seq<Row>> {
    if row == [] then Some([])
    else if !(row[0].Command? && row[0].name == "terminal") then None
    else
      match (WordRows(row[0].contents), ListedRows(row[1..]))
      case (Some(a), Some(b)) => Some(a + b)
      case (_, _) => None
  }

  function AllListedRows(rows: seq<Row>): Option<seq<Row>> {
    if rows == [] then Some([])
    else
      match (ListedRows(rows[0]), AllListedRows(rows[1..]))
      case (Some(a), Some(b)) => Some(a + b)
      case (_, _) => None
  }

  /** w is one of the words that a "one of" definition lists. */
  ghost predicate Listed(rows: seq<Row>, w: string) {
    exists row :: row in rows && ListedIn(row, w)
  }

  ghost predicate ListedIn(row: Row, w: string) {
    exists con: Elem :: con in row && con.Command? && WordIn(con.contents, w)
  }

  ghost predicate WordIn(els: seq<Elem>, w: string) {
    exists el: Elem :: el in els && (el == Text(w) || (el.Command? && el.contents == [Text(w)]))
  }

  predicate WordOnly(row: Row) {
    |row| == 1 && row[0].Command? && IsWords(row[0].name) && |row[0].contents| == 1 && row[0].contents[0].Text?
  }

  function Word(row: Row): string
    requires WordOnly(row)
  {
    row[0].contents[0].text
  }

  /** rows are single words, and exactly the words that satisfy `listed`. */
  ghost predicate AreWords(rows: seq<Row>, listed: string -> bool) {
    && (forall row :: row in rows ==> WordOnly(row) && listed(Word(row)))
    && (forall w :: listed(w) ==> exists row :: row in rows && WordOnly(row) && Word(row) == w)
  }

  lemma {:induction false} WordRowsMeaning(els: seq<Elem>)
    requires WordRows(els).Some?
    ensures AreWords(WordRows(els).value, w => WordIn(els, w))
  {
    if els != [] {
      WordRowsMeaning(els[1..]);
      var el := els[0];
      assert forall w :: WordIn(els, w) <==>
        WordIn(els[1..], w) || el == Text(w) || (el.Command? && el.contents == [Text(w)]) by {
        assert forall e :: e in els <==> e == el || e in els[1..];
      }
      assert WordOnly(WordRow(el).value);
      assert el.Command? ==> el.contents == [el.contents[0]];
      AreWordsCons(WordRow(el).value, WordRows(els[1..]).value, w => WordIn(els[1..], w), w => WordIn(els, w));
    }
  }

  lemma {:induction false} AreWordsCons(row: Row, rows: seq<Row>, listed: string -> bool, all: string -> bool)
    requires WordOnly(row) && AreWords(rows, listed) && forall w :: all(w) <==> listed(w) || w == Word(row)
    ensures AreWords([row] + rows, all)
  {
    assert row in [row] + rows;
    forall w | all(w)
      ensures exists r :: r in [row] + rows && WordOnly(r) && Word(r) == w
    {
      if listed(w) {
        var r :| r in rows && WordOnly(r) && Word(r) == w;
        assert r in [row] + rows;
      }
    }
  }

  lemma {:induction false} AreWordsAppend(a: seq<Row>, b: seq<Row>, la: string -> bool, lb: string -> bool,
          all: string -> bool)
    requires AreWords(a, la) && AreWords(b, lb) && forall w :: all(w) <==> la(w) || lb(w)
    ensures AreWords(a + b, all)
  {
    forall w | all(w)
      ensures exists r :: r in a + b && WordOnly(r) && Word(r) == w
    {
      if la(w) {
        var r :| r in a && WordOnly(r) && Word(r) == w;
        assert r in a + b;
      } else {
        var r :| r in b && WordOnly(r) && Word(r) == w;
        assert r in a + b;
      }
    }
  }

  lemma {:induction false} ListedRowsMeaning(row: Row)
    requires ListedRows(row).Some?
    ensures AreWords(ListedRows(row).value, w => ListedIn(row, w))
  {
    if row != [] {
      WordRowsMeaning(row[0].contents);
      ListedRowsMeaning(row[1..]);
      assert forall w :: ListedIn(row, w) <==> WordIn(row[0].contents, w) || ListedIn(row[1..], w) by {
        assert forall e :: e in row <==> e == row[0] || e in row[1..];
      }
      AreWordsAppend(WordRows(row[0].contents).value, ListedRows(row[1..]).value,
                     w => WordIn(row[0].contents, w), w => ListedIn(row[1..], w), w => ListedIn(row, w));
    }
  }

  lemma {:induction false} AllListedRowsMeaning(rows: seq<Row>)
    requires AllListedRows(rows).Some?
    ensures AreWords(AllListedRows(rows).value, w => Listed(rows, w))
  {
    if rows != [] {
      ListedRowsMeaning(rows[0]);
      AllListedRowsMeaning(rows[1..]);
      assert forall w :: Listed(rows, w) <==> ListedIn(rows[0], w) || Listed(rows[1..], w) by {
        assert forall r :: r in rows <==> r == rows[0] || r in rows[1..];
      }
      AreWordsAppend(ListedRows(rows[0]).value, AllListedRows(rows[1..]).value,
                     w => ListedIn(rows[0], w), w => Listed(rows[1..], w), w => Listed(rows, w));
    }
  }

  /** The elements that a "one of" definition lists, one after another. */
  function Words(rows: seq<Row>): seq<Elem> {
    if rows == [] then [] else RowWords(rows[0]) + Words(rows[1..])
  }

  function RowWords(row: Row): seq<Elem> {
    if row == [] then [] else (if row[0].Command? then row[0].contents else []) + RowWords(row[1..])
  }

  /** A text, or the keyword command on a text. */
  predicate IsWordElem(el: Elem) {
    el.Text? || (el.name == "keyword" && |el.contents| == 1 && el.contents[0].Text?)
  }

  /** Every listed element has a row of its own, in order: a text as a terminal, a keyword as it stands. */
  predicate RowPerWord(rows: seq<Row>, words: seq<Elem>) {
    && |rows| == |words|
    && forall i :: 0 <= i < |words| ==>
      IsWordElem(words[i]) && rows[i] == [if words[i].Text? then Command("terminal", [words[i]]) else words[i]]
  }

  ghost predicate OnlyTerminals(rows: seq<Row>) {
    forall row: Row, con: Elem :: row in rows && con in row ==> con.Command? && con.name == "terminal"
  }

  lemma {:induction false} RowPerWordAppend(a: seq<Row>, b: seq<Row>, v: seq<Elem>, w: seq<Elem>)
    requires RowPerWord(a, v) && RowPerWord(b, w)
    ensures RowPerWord(a + b, v + w)
  {
  }

  lemma {:induction false} WordRowsExactly(els: seq<Elem>)
    ensures WordRows(els).Some? <==> forall el :: el in els ==> IsWordElem(el)
    ensures WordRows(els).Some? ==> RowPerWord(WordRows(els).value, els)
  {
    if els != [] {
      WordRowsExactly(els[1..]);
      assert WordRow(els[0]).Some? <==> IsWordElem(els[0]);
      assert (forall el :: el in els ==> IsWordElem(el)) <==>
        IsWordElem(els[0]) && forall el :: el in els[1..] ==> IsWordElem(el) by {
        assert forall el :: el in els <==> el == els[0] || el in els[1..];
      }
      if WordRow(els[0]).Some? {
        assert els[0].Command? ==> els[0].contents == [els[0].contents[0]];
        assert RowPerWord([WordRow(els[0]).value], [els[0]]);
        if WordRows(els[1..]).Some? {
          RowPerWordAppend([WordRow(els[0]).value], WordRows(els[1..]).value, [els[0]], els[1..]);
          assert [els[0]] + els[1..] == els;
        }
      }
    }
  }

  lemma {:induction false} ListedRowsExactly(row: Row)
    ensures ListedRows(row).Some? <==> OnlyTerminals([row]) && forall el :: el in RowWords(row) ==> IsWordElem(el)
    ensures ListedRows(row).Some? ==> RowPerWord(ListedRows(row).value, RowWords(row))
  {
    if row != [] {
      var con := row[0];
      ListedRowsExactly(row[1..]);
      assert OnlyTerminals([row]) <==> con.Command? && con.name == "terminal" && OnlyTerminals([row[1..]]) by {
        assert forall e :: e in row <==> e == con || e in row[1..];
        assert row in [row] && row[1..] in [row[1..]];
      }
      if con.Command? {
        WordRowsExactly(con.contents);
        assert forall el :: el in RowWords(row) <==> el in con.contents || el in RowWords(row[1..]);
        if WordRows(con.contents).Some? && ListedRows(row[1..]).Some? {
          RowPerWordAppend(WordRows(con.contents).value, ListedRows(row[1..]).value, con.contents, RowWords(row[1..]));
        }
      }
    }
  }

  /** When the normalisation stops, and what it makes of the elements otherwise. */
  lemma {:induction false} NormalizedExactly(rows: seq<Row>)
    ensures AllListedRows(rows).Some? <==> OnlyTerminals(rows) && forall el :: el in Words(rows) ==> IsWordElem(el)
    ensures AllListedRows(rows).Some? ==> RowPerWord(AllListedRows(rows).value, Words(rows))
  {
    if rows != [] {
      ListedRowsExactly(rows[0]);
      NormalizedExactly(rows[1..]);
      assert OnlyTerminals(rows) <==> OnlyTerminals([rows[0]]) && OnlyTerminals(rows[1..]) by {
        assert forall row :: row in rows <==> row == rows[0] || row in rows[1..];
        assert rows[0] in [rows[0]];
      }
      assert forall el :: el in Words(rows) <==> el in RowWords(rows[0]) || el in Words(rows[1..]);
      hide ListedRows, AllListedRows, RowPerWord, OnlyTerminals, IsWordElem;
      if ListedRows(rows[0]).Some? && AllListedRows(rows[1..]).Some? {
        RowPerWordAppend(ListedRows(rows[0]).value, AllListedRows(rows[1..]).value,
                         RowWords(rows[0]), Words(rows[1..]));
      }
    }
  }

  function Normalized(def: Definition): Option<Definition> {
    if !def.oneOf then Some(def)
    else if def.error then None
    else
      match AllListedRows(def.disjunction)
      case Some(rows) => Some(def.(oneOf := false, disjunction := rows))
      case None => None
  }

  /** After normalisation a "one of" name derives exactly the spellings of the words that were listed. */
  lemma {:induction false} OneOfMeaning(defs: seq<Definition>, X: Env, i: nat, def: Definition, s: string)
    requires i < |defs| && def.oneOf && Normalized(def) == Some(defs[i]) && FixName(def.term) !in X
    requires forall j :: 0 <= j < |defs| && defs[j].term == def.term ==> j == i
    ensures SourceDerives(defs, X, Text(def.term), s) <==> exists w :: Listed(def.disjunction, w) && Spelled(w, s)
  {
    AllListedRowsMeaning(def.disjunction);
    WordsMeaning(defs, X, i, w => Listed(def.disjunction, w), s);
  }

  /** A definition all of whose rows are single words. */
  lemma {:induction false} WordsMeaning(defs: seq<Definition>, X: Env, i: nat, listed: string -> bool, s: string)
    requires i < |defs| && !defs[i].oneOf && AreWords(defs[i].disjunction, listed) && FixName(defs[i].term) !in X
    requires forall j :: 0 <= j < |defs| && defs[j].term == defs[i].term ==> j == i
    ensures SourceDerives(defs, X, Text(defs[i].term), s) <==> exists w :: listed(w) && Spelled(w, s)
  {
    hide Spelled, AllHold;
    var rows, term := defs[i].disjunction, defs[i].term;
    if SourceDerives(defs, X, Text(term), s) {
      var d :| Holds(defs, X, Text(term), d) && Spell(d) == s;
      assert HasRow(defs, term, d.row);
      OpenWord(defs, X, rows, d);
      assert listed(Word(d.row)) && Spelled(Word(d.row), s);
    }
    if exists w :: listed(w) && Spelled(w, s) {
      var w :| listed(w) && Spelled(w, s);
      var row :| row in rows && WordOnly(row) && Word(row) == w;
      MakeWord(defs, X, term, row, s);
    }
  }

  lemma {:induction false} OpenWord(defs: seq<Definition>, X: Env, rows: seq<Row>, d: Deriv)
    requires d.DName? && d.row in rows && WordOnly(d.row) && AllHold(defs, X, d.row, d.kids)
    ensures Spelled(Word(d.row), Spell(d))
  {
    var kid := d.kids[0];
    assert d.kids == [kid] && Holds(defs, X, d.row[0], kid) && kid.ss == [kid.ss[0]];
    ConcatOne(kid.ss[0]);
    assert Spells(d.kids) == Spell(kid) + Spells(d.kids[1..]);
  }

  lemma {:induction false} MakeWord(defs: seq<Definition>, X: Env, term: string, row: Row, s: string)
    requires HasRow(defs, term, row) && WordOnly(row) && Spelled(Word(row), s)
    ensures SourceDerives(defs, X, Text(term), s)
  {
    var kid := DWords([s]);
    var d := DName(term, row, [kid]);
    assert Holds(defs, X, row[0], kid);
    assert AllHold(defs, X, row, [kid]);
    ConcatOne(s);
    assert Spells([kid]) == Spell(kid) + Spells([]);
    assert Holds(defs, X, Text(term), d) && Spell(d) == s;
  }

  lemma {:induction false} ConcatOne(s: string)
    ensures Concat([s]) == s
  {
    assert [s][1..] == [];
  }

  /** The three nested loops of the normalisation, which rewrites its argument. */
  method NormalizeOneOf(def: Definition) returns (out: Option<Definition>)
    ensures out == Normalized(def)
  {
    if !def.oneOf {
      return Some(def);
    }
    if def.error {
      return None;
    }
    var newRows: seq<Row> := [];
    ghost var goal := AllListedRows(def.disjunction);
    assert def.disjunction[0..] == def.disjunction;
    AppendedNothing(goal);
    for i := 0 to |def.disjunction|
      invariant Appended(Some(newRows), AllListedRows(def.disjunction[i..])) == goal
    {
      var dis := def.disjunction[i];
      ghost var rest := AllListedRows(def.disjunction[i + 1..]);
      assert def.disjunction[i..][1..] == def.disjunction[i + 1..] && dis[0..] == dis;
      for j := 0 to |dis|
        invariant Appended(Some(newRows), Appended(ListedRows(dis[j..]), rest)) == goal
      {
        var con := dis[j];
        assert dis[j..][1..] == dis[j + 1..];
        if !con.Command? || con.name != "terminal" {
          return None;
        }
        var els := con.contents;
        assert els[0..] == els;
        ghost var rest' := Appended(ListedRows(dis[j + 1..]), rest);
        AppendedAssoc(WordRows(els), ListedRows(dis[j + 1..]), rest);
        for k := 0 to |els|
          invariant Appended(Some(newRows), Appended(WordRows(els[k..]), rest')) == goal
        {
          var el := els[k];
          assert els[k..][1..] == els[k + 1..];
          ghost var row := WordRow(el);
          if row.Some? {
            AppendedAssoc(Some([row.value]), WordRows(els[k + 1..]), rest');
            AppendedAssoc(Some(newRows), Some([row.value]), Appended(WordRows(els[k + 1..]), rest'));
          }
          if el.Text? {
            newRows := newRows + [[Command("terminal", [el])]];
          } else {
            if el.name != "keyword" || |el.contents| != 1 || !el.contents[0].Text? {
              return None;
            }
            newRows := newRows + [[Command("keyword", [el.contents[0]])]];
          }
        }
        AppendedNothing(rest');
      }
      AppendedNothing(rest);
    }
    assert newRows + [] == newRows;
    out := Some(def.(oneOf := false, disjunction := newRows));
  }

  lemma {:induction false} AppendedAssoc(a: Option<seq<Row>>, b: Option<seq<Row>>, c: Option<seq<Row>>)
    ensures Appended(Appended(a, b), c) == Appended(a, Appended(b, c))
  {
    if a.Some? && b.Some? && c.Some? {
      assert (a.value + b.value) + c.value == a.value + (b.value + c.value);
    }
  }

  lemma {:induction false} AppendedNothing(a: Option<seq<Row>>)
    ensures Appended(Some([]), a) == a
  {
    if a.Some? {
      assert [] + a.value == a.value;
    }
  }

  function Appended(a: Option<seq<Row>>, b: Option<seq<Row>>): Option<seq<Row>> {
    if a.Some? && b.Some? then Some(a.value + b.value) else None
  }
}
