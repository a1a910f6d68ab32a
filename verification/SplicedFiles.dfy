/** The spliced file object: built line by line, with its runs of kept characters as the two lookup maps. */
module SplicedFiles {
  import opened Splicing
  import opened Wrappers

  /** A non-empty run of characters and its places in the original and in the spliced text. */
  datatype Run = Run(origin: nat, splice: nat, length: nat)

  /** The runs in order: the entries of splicing_reverts, and, as both orders agree, of splicing_appliers. */
  datatype SplicedFile = SplicedFile(original: string, text: string, runs: seq<Run>)

  // ---- What the runs say ----

  predicate InOrigin(run: Run, op: nat) { run.origin <= op < run.origin + run.length }

  predicate InSplice(run: Run, sp: nat) { run.splice <= sp < run.splice + run.length }

  ghost predicate IsRun(s: string, run: Run) {
    && run.length > 0 && run.origin + run.length <= |s|
    && forall op: nat :: InOrigin(run, op) ==> !Dropped(s, op) && Place(s, op) == run.splice + (op - run.origin)
  }

  ghost predicate RunsInOrder(runs: seq<Run>) {
    forall j, k :: 0 <= j < k < |runs| ==>
      runs[j].origin + runs[j].length <= runs[k].origin && runs[j].splice + runs[j].length <= runs[k].splice
  }

  ghost predicate OriginCovered(runs: seq<Run>, op: nat) { exists j :: 0 <= j < |runs| && InOrigin(runs[j], op) }

  ghost predicate SpliceCovered(runs: seq<Run>, sp: nat) { exists j :: 0 <= j < |runs| && InSplice(runs[j], sp) }

  ghost predicate RunsWithin(s: string, runs: seq<Run>, pos: nat, place: nat) {
    forall j :: 0 <= j < |runs| ==>
      IsRun(s, runs[j]) && runs[j].origin + runs[j].length <= pos && runs[j].splice + runs[j].length <= place
  }

  /** The runs hold exactly the kept characters before position pos. */
  ghost predicate RunsUpTo(s: string, runs: seq<Run>, pos: nat) {
    && pos <= |s|
    && RunsInOrder(runs)
    && RunsWithin(s, runs, pos, Place(s, pos))
    && (forall op: nat :: op < pos && !Dropped(s, op) ==> OriginCovered(runs, op))
    && (forall sp: nat :: sp < Place(s, pos) ==> SpliceCovered(runs, sp))
  }

  ghost predicate Valid(file: SplicedFile) {
    file.text == Spliced(file.original) && RunsUpTo(file.original, file.runs, |file.original|)
  }

  /** The run for the kept part of a line; an empty one is left out of the maps. */
  function WithRun(runs: seq<Run>, origin: nat, splice: nat, length: nat): seq<Run> {
    if length == 0 then runs else runs + [Run(origin, splice, length)]
  }

  lemma {:induction false} PlaceInRun(s: string, lo: nat, op: nat)
    requires lo <= op <= |s| && forall i: nat :: lo <= i < op ==> !Dropped(s, i)
    ensures Place(s, op) == Place(s, lo) + (op - lo)
  {
    KeptRun(s, lo, op);
  }

  lemma {:induction false} NextRun(s: string, pos: nat, end: nat)
    requires pos < end <= |s| && forall i: nat :: pos <= i < end ==> !Dropped(s, i)
    ensures IsRun(s, Run(pos, Place(s, pos), end - pos))
  {
    var run := Run(pos, Place(s, pos), end - pos);
    forall op: nat | InOrigin(run, op) ensures !Dropped(s, op) && Place(s, op) == run.splice + (op - run.origin) {
      PlaceInRun(s, pos, op);
    }
  }

  lemma {:induction false} MoreCovered(runs: seq<Run>, run: Run)
    ensures forall op: nat {:trigger OriginCovered(runs + [run], op)} ::
      OriginCovered(runs, op) || InOrigin(run, op) ==> OriginCovered(runs + [run], op)
    ensures forall sp: nat {:trigger SpliceCovered(runs + [run], sp)} ::
      SpliceCovered(runs, sp) || InSplice(run, sp) ==> SpliceCovered(runs + [run], sp)
  {
    var more := runs + [run];
    assert more[|runs|] == run;
    forall op: nat | OriginCovered(runs, op) ensures OriginCovered(more, op) {
      var j :| 0 <= j < |runs| && InOrigin(runs[j], op);
      assert InOrigin(more[j], op);
    }
    forall sp: nat | SpliceCovered(runs, sp) ensures SpliceCovered(more, sp) {
      var j :| 0 <= j < |runs| && InSplice(runs[j], sp);
      assert InSplice(more[j], sp);
    }
  }

  lemma {:induction false} NextLine(s: string, runs: seq<Run>, pos: nat, end: nat, next: nat)
    requires RunsUpTo(s, runs, pos) && pos <= end <= next <= |s|
    requires forall i: nat :: pos <= i < end ==> !Dropped(s, i)
    requires forall i: nat :: end <= i < next ==> Dropped(s, i)
    ensures RunsUpTo(s, WithRun(runs, pos, Place(s, pos), end - pos), next)
    ensures Kept(s, next) == Kept(s, pos) + s[pos..end]
  {
    KeptRun(s, pos, end);
    DroppedRun(s, end, next);
    hide Kept, Dropped, OriginCovered, SpliceCovered, IsRun, RunsWithin, RunsInOrder;
    if pos < end {
      var run := Run(pos, Place(s, pos), end - pos);
      NextRun(s, pos, end);
      MoreCovered(runs, run);
      MoreRuns(s, runs, run, next, Place(s, next));
    } else {
      SameRuns(s, runs, pos, next, Place(s, pos));
    }
  }

  lemma {:induction false} MoreRuns(s: string, runs: seq<Run>, run: Run, next: nat, place: nat)
    requires RunsInOrder(runs) && RunsWithin(s, runs, run.origin, run.splice) && IsRun(s, run)
    requires run.origin + run.length <= next && run.splice + run.length <= place
    ensures RunsInOrder(runs + [run]) && RunsWithin(s, runs + [run], next, place)
  {
    hide IsRun;
  }

  lemma {:induction false} SameRuns(s: string, runs: seq<Run>, pos: nat, next: nat, place: nat)
    requires RunsWithin(s, runs, pos, place) && pos <= next
    ensures RunsWithin(s, runs, next, place)
  {
    hide IsRun;
  }

  // ---- Construction ----

  /** The constructor: nothing is returned where the source throws. */
  method Splice(contents: string) returns (file: Option<SplicedFile>)
    ensures file.None? <==> EndsInSplice(contents)
    ensures file.Some? ==> Valid(file.value) && file.value.original == contents
  {
    hide Kept;
    var text := "";
    var runs: seq<Run> := [];
    var pos := 0;
    assert Kept(contents, 0) == "" by { KeptNothing(contents); }
    while pos < |contents|
      invariant LineStart(contents, pos) && RunsUpTo(contents, runs, pos) && text == Kept(contents, pos)
      invariant pos == |contents| > 0 ==> !EndsInSplice(contents)
      decreases |contents| - pos
    {
      var newline := Find(contents, '\n', pos);
      var backslash := SpliceStart(contents, pos, newline);
      if newline == |contents| {
        EndsInSpliceMeaning(contents, pos);
        if backslash.Some? {
          return None;
        }
        forall i: nat | pos <= i < newline ensures !Dropped(contents, i) {
          LastLineDropped(contents, pos, i);
        }
        NextLine(contents, runs, pos, newline, newline);
        runs := WithRun(runs, pos, |text|, newline - pos);
        text := text + contents[pos..];
        pos := newline;
        break;
      }
      var end := if backslash.Some? then backslash.value else newline + 1;
      forall i: nat | pos <= i < newline + 1 ensures Dropped(contents, i) <==> end <= i {
        LineDropped(contents, pos, newline, i);
      }
      NextLine(contents, runs, pos, end, newline + 1);
      runs := WithRun(runs, pos, |text|, end - pos);
      text := text + contents[pos..end];
      pos := newline + 1;
    }
    if contents != "" && !EndsInNewline(text) {
      text := text + "\n";
    }
    file := Some(SplicedFile(contents, text, runs));
  }

  lemma {:induction false} KeptNothing(s: string)
    ensures Kept(s, 0) == ""
  {
  }

  // ---- Lookup ----

  /** From the spliced text to the original; only the synthesised final new-line has no origin. */
  method ToOrigin(file: SplicedFile, sp: nat) returns (op: Option<nat>)
    requires Valid(file) && sp < |file.text|
    ensures op.Some? <==> sp < |Kept(file.original, |file.original|)|
    ensures op.Some? ==>
      op.value < |file.original| && !Dropped(file.original, op.value) && Place(file.original, op.value) == sp
  {
    hide Kept, Dropped;
    var runs := file.runs;
    assert sp < Place(file.original, |file.original|) ==> SpliceCovered(runs, sp);
    var it := 0;
    while it < |runs| && runs[it].splice < sp
      invariant 0 <= it <= |runs| && forall j :: 0 <= j < it ==> runs[j].splice < sp
    {
      it := it + 1;
    }
    if it < |runs| && InSplice(runs[it], sp) {
      assert InOrigin(runs[it], runs[it].origin + (sp - runs[it].splice));
      return Some(runs[it].origin + (sp - runs[it].splice));
    }
    if it > 0 && InSplice(runs[it - 1], sp) {
      assert InOrigin(runs[it - 1], runs[it - 1].origin + (sp - runs[it - 1].splice));
      return Some(runs[it - 1].origin + (sp - runs[it - 1].splice));
    }
    return None;
  }

  /** From the original to the spliced text; the characters of a splice have no place there. */
  method FromOrigin(file: SplicedFile, op: nat) returns (sp: Option<nat>)
    requires Valid(file) && op < |file.original|
    ensures sp.Some? <==> !Dropped(file.original, op)
    ensures sp.Some? ==> sp.value == Place(file.original, op)
  {
    hide Kept, Dropped;
    var runs := file.runs;
    var it := 0;
    while it < |runs| && runs[it].origin < op
      invariant 0 <= it <= |runs| && forall j :: 0 <= j < it ==> runs[j].origin < op
    {
      it := it + 1;
    }
    if it < |runs| && InOrigin(runs[it], op) {
      return Some(runs[it].splice + (op - runs[it].origin));
    }
    if it > 0 && InOrigin(runs[it - 1], op) {
      return Some(runs[it - 1].splice + (op - runs[it - 1].origin));
    }
    return None;
  }
}
