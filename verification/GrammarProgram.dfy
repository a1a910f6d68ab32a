/** The whole translation: the definitions as read, without new-line, with the "one of" definitions normalised. */
module GrammarProgram {
  import opened Grammar
  import opened GrammarCompiler
  import opened GrammarParser
  import opened GrammarTheorem
  import opened Wrappers

  /** new-line is described in prose; its entity is written by hand. */
  function Considered(read: seq<Definition>): (defs: seq<Definition>)
    ensures forall def :: def in defs <==> def in read && def.term != "new-line"
  {
    if read == [] then []
    else if read[0].term == "new-line" then Considered(read[1..])
    else [read[0]] + Considered(read[1..])
  }

  /** The definitions that are compiled; None when an assertion stops the program before. */
  function Prepared(defs: seq<Definition>): (out: Option<seq<Definition>>)
    ensures out.Some? ==> |out.value| == |defs|
    ensures out.Some? ==> forall i :: 0 <= i < |defs| ==>
      Normalized(defs[i]) == Some(out.value[i]) && !out.value[i].oneOf
  {
    if defs == [] then Some([])
    else if defs[0].error then None
    else
      match (Normalized(defs[0]), Prepared(defs[1..]))
      case (Some(def), Some(rest)) => Some([def] + rest)
      case (_, _) => None
  }

  /** What the program writes; None when an assertion stops it. */
  function Translated(defs: seq<Definition>): Option<seq<Entry>> {
    match Prepared(defs)
    case Some(ready) => Compile(ready)
    case None => None
  }

  lemma {:induction false} TranslatedStep(defs: seq<Definition>)
    requires defs != []
    ensures Translated(defs) ==
            if defs[0].error || Normalized(defs[0]).None? then None
            else Joined(Dump(Normalized(defs[0]).value), Translated(defs[1..]))
  {
    if !defs[0].error && Normalized(defs[0]).Some? && Prepared(defs[1..]).Some? {
      var def, rest := Normalized(defs[0]).value, Prepared(defs[1..]).value;
      assert ([def] + rest)[1..] == rest;
    }
  }

  function Joined(a: Option<seq<Entry>>, b: Option<seq<Entry>>): Option<seq<Entry>> {
    if a.Some? && b.Some? then Some(a.value + b.value) else None
  }

  lemma {:induction false} JoinedAssoc(a: Option<seq<Entry>>, b: Option<seq<Entry>>, c: Option<seq<Entry>>)
    ensures Joined(Joined(a, b), c) == Joined(a, Joined(b, c))
  {
    if a.Some? && b.Some? && c.Some? {
      assert (a.value + b.value) + c.value == a.value + (b.value + c.value);
    }
  }

  /** The loop of main, from the definitions to the declarations. */
  method Translate(read: seq<Definition>) returns (out: Option<seq<Entry>>)
    ensures out == Translated(Considered(read))
  {
    var written: seq<Entry> := [];
    ghost var goal := Translated(Considered(read));
    assert read[0..] == read;
    assert goal.Some? ==> [] + goal.value == goal.value;
    for i := 0 to |read|
      invariant Joined(Some(written), Translated(Considered(read[i..]))) == goal
    {
      assert read[i..][1..] == read[i + 1..];
      if read[i].term == "new-line" {
        continue;
      }
      ghost var rest := Considered(read[i + 1..]);
      assert ([read[i]] + rest)[1..] == rest;
      TranslatedStep([read[i]] + rest);
      if read[i].error {
        return None;
      }
      var def := NormalizeOneOf(read[i]);
      if def.None? {
        return None;
      }
      var entries := DumpAsCpp(def.value);
      if entries.None? {
        return None;
      }
      JoinedAssoc(Some(written), entries, Translated(rest));
      written := written + entries.value;
    }
    assert written + [] == written;
    out := Some(written);
  }

  // ---- Normalisation keeps the meaning of every name ----

  lemma {:induction false} OneOfRow(def: Definition, ready: Definition)
    requires def.oneOf && Normalized(def) == Some(ready)
    ensures forall row :: row in ready.disjunction ==> WordOnly(row) && Listed(def.disjunction, Word(row))
    ensures forall w :: Listed(def.disjunction, w) ==>
      exists row :: row in ready.disjunction && WordOnly(row) && Word(row) == w
  {
    AllListedRowsMeaning(def.disjunction);
    var listed := w => Listed(def.disjunction, w);
    forall w | Listed(def.disjunction, w)
      ensures exists row :: row in ready.disjunction && WordOnly(row) && Word(row) == w
    {
      assert listed(w);
    }
  }

  lemma {:induction false} ToReady(defs: seq<Definition>, X: Env, e: Elem, d: Deriv) returns (r: Deriv)
    requires Prepared(defs).Some? && Holds(defs, X, e, d)
    ensures Holds(Prepared(defs).value, X, e, r) && Spell(r) == Spell(d)
    decreases d, 1
  {
    var ready := Prepared(defs).value;
    match d
    case DName(x, row, kids) =>
      var i :| 0 <= i < |defs| && defs[i].term == x && !defs[i].oneOf && row in defs[i].disjunction;
      assert ready[i] == defs[i];
      var us := AllToReady(defs, X, row, kids);
      r := DName(x, row, us);
    case DLeaf(x, s) =>
      if Given(X, x, s) {
        r := d;
      } else {
        r := WordToReady(defs, X, x, s);
      }
    case DOpt(o) =>
      if o.Some? {
        var u := ToReady(defs, X, e.contents[0], o.value);
        r := DOpt(Some(u));
      } else {
        r := d;
      }
    case DWords(_) => r := d;
  }

  lemma {:induction false} AllToReady(defs: seq<Definition>, X: Env, row: Row, ds: seq<Deriv>) returns (rs: seq<Deriv>)
    requires Prepared(defs).Some? && AllHold(defs, X, row, ds)
    ensures AllHold(Prepared(defs).value, X, row, rs) && Spells(rs) == Spells(ds)
    decreases ds, 0
  {
    if ds == [] {
      rs := [];
    } else {
      var r := ToReady(defs, X, row[0], ds[0]);
      var rest := AllToReady(defs, X, row[1..], ds[1..]);
      rs := [r] + rest;
    }
  }

  lemma {:induction false} WordToReady(defs: seq<Definition>, X: Env, x: string, s: string) returns (r: Deriv)
    requires Prepared(defs).Some? && OneOf(defs, x, s)
    ensures Holds(Prepared(defs).value, X, Text(x), r) && Spell(r) == s
  {
    var ready := Prepared(defs).value;
    var i, w :| 0 <= i < |defs| && defs[i].term == x && defs[i].oneOf && Listed(defs[i].disjunction, w) &&
      Spelled(w, s);
    OneOfRow(defs[i], ready[i]);
    var row :| row in ready[i].disjunction && WordOnly(row) && Word(row) == w;
    assert HasRow(ready, x, row);
    MakeWord(ready, X, x, row, s);
    r :| Holds(ready, X, Text(x), r) && Spell(r) == s;
  }

  lemma {:induction false} FromReady(defs: seq<Definition>, X: Env, e: Elem, d: Deriv) returns (r: Deriv)
    requires Prepared(defs).Some? && Holds(Prepared(defs).value, X, e, d)
    ensures Holds(defs, X, e, r) && Spell(r) == Spell(d)
    decreases d, 1
  {
    var ready := Prepared(defs).value;
    match d
    case DName(x, row, kids) =>
      var i :| 0 <= i < |ready| && ready[i].term == x && row in ready[i].disjunction;
      if defs[i].oneOf {
        OneOfRow(defs[i], ready[i]);
        OpenWord(ready, X, ready[i].disjunction, d);
        r := DLeaf(x, Spell(d));
        assert OneOf(defs, x, r.s);
      } else {
        assert ready[i] == defs[i];
        var us := AllFromReady(defs, X, row, kids);
        r := DName(x, row, us);
      }
    case DLeaf(x, s) => r := d;
    case DOpt(o) =>
      if o.Some? {
        var u := FromReady(defs, X, e.contents[0], o.value);
        r := DOpt(Some(u));
      } else {
        r := d;
      }
    case DWords(_) => r := d;
  }

  lemma {:induction false} AllFromReady(defs: seq<Definition>, X: Env, row: Row, ds: seq<Deriv>)
    returns (rs: seq<Deriv>)
    requires Prepared(defs).Some? && AllHold(Prepared(defs).value, X, row, ds)
    ensures AllHold(defs, X, row, rs) && Spells(rs) == Spells(ds)
    decreases ds, 0
  {
    if ds == [] {
      rs := [];
    } else {
      var r := FromReady(defs, X, row[0], ds[0]);
      var rest := AllFromReady(defs, X, row[1..], ds[1..]);
      rs := [r] + rest;
    }
  }

  /** Whatever refers to a "one of" definition derives the same strings before and after the normalisation. */
  lemma {:induction false} NormalizationPreservesMeaning(defs: seq<Definition>, X: Env, e: Elem, s: string)
    requires Prepared(defs).Some?
    ensures SourceDerives(defs, X, e, s) <==> SourceDerives(Prepared(defs).value, X, e, s)
  {
    if SourceDerives(defs, X, e, s) {
      var d :| Holds(defs, X, e, d) && Spell(d) == s;
      var r := ToReady(defs, X, e, d);
    }
    if SourceDerives(Prepared(defs).value, X, e, s) {
      var d :| Holds(Prepared(defs).value, X, e, d) && Spell(d) == s;
      var r := FromReady(defs, X, e, d);
    }
  }

  // ---- The program ----

  /** What the definitions as read have to satisfy for the program's output and the entities written by hand to be
      one C++ program. */
  predicate Translatable(defs: seq<Definition>, X: Env) {
    Prepared(defs).Some? && Compilable(Prepared(defs).value) && HandWritten(X, Compile(Prepared(defs).value).value)
  }

  /** From the definitions as read to the declarations: every name keeps its strings. */
  lemma {:induction false} ProgramPreservesMeaning(read: seq<Definition>, X: Env, x: string, s: string)
    requires var defs := Considered(read); Translatable(defs, X) && NameOk(Prepared(defs).value, x)
    ensures Translated(Considered(read)).Some?
    ensures var T := Declared(Translated(Considered(read)).value) + X;
            SourceDerives(Considered(read), X, Text(x), s) <==> Derives(T, Entity(FixName(x)), s)
  {
    var defs := Considered(read);
    NormalizationPreservesMeaning(defs, X, Text(x), s);
    CompilePreservesMeaning(Prepared(defs).value, X, x, s);
  }

  /** What the parser of the whole program accepts for a name is derivable from the definitions as read. */
  lemma {:induction false} ProgramParserIsSound(read: seq<Definition>, X: Env, x: string, sv: string, fuel: nat)
    requires var defs := Considered(read); Translatable(defs, X) && NameOk(Prepared(defs).value, x)
    ensures Translated(Considered(read)).Some?
    ensures var T := Declared(Translated(Considered(read)).value) + X; var o := Parse(T, Entity(FixName(x)), sv, fuel);
            o.Parsed? ==> o.consumed <= |sv| && SourceDerives(Considered(read), X, Text(x), sv[..o.consumed])
  {
    var defs := Considered(read);
    var o := Parse(Declared(Compile(Prepared(defs).value).value) + X, Entity(FixName(x)), sv, fuel);
    CompiledParserIsSound(Prepared(defs).value, X, x, sv, fuel);
    if o.Parsed? {
      NormalizationPreservesMeaning(defs, X, Text(x), sv[..o.consumed]);
    }
  }

  /** The four entities that the program adds by hand. */
  const ADDED: Env := map["entity_import_keyword" := Keyword("import"), "entity_module_keyword" := Keyword("module"),
                          "entity_export_keyword" := Keyword("export"), "entity_new_line" := NewLine]

  /** new-line, which is not compiled, still derives the ends of lines. */
  lemma {:induction false} NewLineIsGiven(read: seq<Definition>, s: string)
    ensures Flat(ADDED)
    ensures SourceDerives(Considered(read), ADDED, Text("new-line"), s) <==> LineEnd(s)
  {
    var defs := Considered(read);
    assert FixName("new-line") == "entity_new_line";
    if LineEnd(s) {
      var d := DLeaf("new-line", s);
      assert Given(ADDED, "new-line", s);
      assert Holds(defs, ADDED, Text("new-line"), d) && Spell(d) == s;
    }
  }
}
