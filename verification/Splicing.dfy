/** Translation phase 2: line splicing, with the maps between the original and the spliced text. */
module Splicing {
  import opened Wrappers

  // ---- What is spliced away ----

  predicate IsSpace(c: char) {
    c == ' ' || c == '\t' || c == '\n' || c == '\U{0B}' || c == '\U{0C}' || c == '\r'
  }

  predicate BlankInLine(s: string, lo: nat, hi: nat)
    requires hi <= |s|
  {
    forall j :: lo <= j < hi ==> IsSpace(s[j]) && s[j] != '\n'
  }

  /** A backslash at b, then whitespace other than new-line, then the new-line at n. */
  predicate SpliceAt(s: string, b: nat, n: nat) {
    b < n < |s| && s[b] == '\\' && s[n] == '\n' && BlankInLine(s, b + 1, n)
  }

  ghost predicate Dropped(s: string, i: nat) {
    exists b: nat, n: nat :: SpliceAt(s, b, n) && b <= i <= n
  }

  /** A backslash followed by nothing but whitespace up to the end of the file. */
  ghost predicate EndsInSplice(s: string) {
    exists b: nat :: b < |s| && s[b] == '\\' && BlankInLine(s, b + 1, |s|)
  }

  /** The characters before position n that are not spliced away. */
  ghost function Kept(s: string, n: nat): (text: string)
    requires n <= |s|
  {
    if n == 0 then "" else if Dropped(s, n - 1) then Kept(s, n - 1) else Kept(s, n - 1) + [s[n - 1]]
  }

  /** The text after phase 2: a missing final new-line is appended. */
  ghost function Spliced(s: string): string {
    var text := Kept(s, |s|);
    if s != "" && !EndsInNewline(text) then text + "\n" else text
  }

  predicate EndsInNewline(s: string) { s != "" && s[|s| - 1] == '\n' }

  // ---- The place of a character ----

  /** Where the character at i goes. */
  ghost function Place(s: string, i: nat): nat
    requires i <= |s|
  {
    |Kept(s, i)|
  }

  lemma {:induction false} KeptGrows(s: string, i: nat, n: nat)
    requires i <= n <= |s|
    ensures Kept(s, i) <= Kept(s, n)
  {
    if i < n {
      KeptGrows(s, i, n - 1);
    }
  }

  /** Kept characters keep their order and their value. */
  lemma {:induction false} PlaceKeepsOrder(s: string, i: nat, j: nat)
    requires i < j <= |s| && !Dropped(s, i)
    ensures Place(s, i) < Place(s, j) <= |Kept(s, |s|)|
    ensures Kept(s, |s|)[Place(s, i)] == s[i]
  {
    KeptGrows(s, i + 1, j);
    KeptGrows(s, j, |s|);
    assert Kept(s, i + 1) == Kept(s, i) + [s[i]];
    assert Kept(s, i + 1)[Place(s, i)] == s[i];
  }

  lemma {:induction false} PlaceIsInjective(s: string, i: nat, j: nat)
    requires i < |s| && j < |s| && !Dropped(s, i) && !Dropped(s, j) && Place(s, i) == Place(s, j)
    ensures i == j
  {
    if i < j {
      PlaceKeepsOrder(s, i, j);
    } else if j < i {
      PlaceKeepsOrder(s, j, i);
    }
  }

  // ---- Library searches ----

  /** std::string_view::find from lo: the first occurrence, or the end. */
  function Find(s: string, c: char, lo: nat): (i: nat)
    requires lo <= |s|
    ensures lo <= i <= |s| && (i < |s| ==> s[i] == c) && forall j :: lo <= j < i ==> s[j] != c
    decreases |s| - lo
  {
    if lo == |s| || s[lo] == c then lo else Find(s, c, lo + 1)
  }

  /** std::string_view::rfind between lo and hi: the last occurrence, or nothing. */
  function FindLast(s: string, c: char, lo: nat, hi: nat): (r: Option<nat>)
    requires lo <= hi <= |s|
    ensures r.Some? ==> lo <= r.value < hi && s[r.value] == c && forall j :: r.value < j < hi ==> s[j] != c
    ensures r.None? ==> forall j :: lo <= j < hi ==> s[j] != c
    decreases hi
  {
    if lo == hi then None else if s[hi - 1] == c then Some(hi - 1) else FindLast(s, c, lo, hi - 1)
  }

  // ---- One line ----

  ghost predicate LineStart(s: string, pos: nat) {
    pos <= |s| && (pos == 0 || s[pos - 1] == '\n')
  }

  /** The backslash that begins a splice in the line from pos to the new-line or end at n, as the source finds it. */
  function SpliceStart(s: string, pos: nat, n: nat): Option<nat>
    requires pos <= n <= |s|
  {
    var backslash := FindLast(s, '\\', pos, n);
    if backslash.Some? && BlankInLine(s, backslash.value + 1, n) then backslash else None
  }

  lemma {:induction false} LineDropped(s: string, pos: nat, n: nat, i: nat)
    requires LineStart(s, pos) && n == Find(s, '\n', pos) < |s| && pos <= i <= n
    ensures Dropped(s, i) <==> SpliceStart(s, pos, n).Some? && SpliceStart(s, pos, n).value <= i
  {
    var start := SpliceStart(s, pos, n);
    if start.Some? && start.value <= i {
      assert SpliceAt(s, start.value, n);
    }
    if Dropped(s, i) {
      var b: nat, m: nat :| SpliceAt(s, b, m) && b <= i <= m;
      assert m == n;
    }
  }

  lemma {:induction false} LastLineDropped(s: string, pos: nat, i: nat)
    requires LineStart(s, pos) && Find(s, '\n', pos) == |s| && pos <= i < |s|
    ensures !Dropped(s, i)
  {
    assert forall b: nat, m: nat :: SpliceAt(s, b, m) ==> m < pos;
  }

  lemma {:induction false} EndsInSpliceMeaning(s: string, pos: nat)
    requires LineStart(s, pos) && Find(s, '\n', pos) == |s|
    ensures EndsInSplice(s) <==> SpliceStart(s, pos, |s|).Some?
  {
    if EndsInSplice(s) {
      var b: nat :| b < |s| && s[b] == '\\' && BlankInLine(s, b + 1, |s|);
    }
  }

  lemma {:induction false} KeptRun(s: string, lo: nat, hi: nat)
    requires lo <= hi <= |s| && forall i: nat :: lo <= i < hi ==> !Dropped(s, i)
    ensures Kept(s, hi) == Kept(s, lo) + s[lo..hi]
  {
    if lo < hi {
      KeptRun(s, lo, hi - 1);
      assert s[lo..hi] == s[lo..hi - 1] + [s[hi - 1]];
    }
  }

  lemma {:induction false} DroppedRun(s: string, lo: nat, hi: nat)
    requires lo <= hi <= |s| && forall i: nat :: lo <= i < hi ==> Dropped(s, i)
    ensures Kept(s, hi) == Kept(s, lo)
  {
    if lo < hi {
      DroppedRun(s, lo, hi - 1);
    }
  }

  /** Every character of the spliced text has an origin; with PlaceIsInjective, exactly one. */
  lemma {:induction false} EveryPlaceIsTaken(s: string, n: nat, sp: nat) returns (op: nat)
    requires n <= |s| && sp < |Kept(s, n)|
    ensures op < n && !Dropped(s, op) && Place(s, op) == sp
  {
    if Dropped(s, n - 1) || sp < |Kept(s, n - 1)| {
      op := EveryPlaceIsTaken(s, n - 1, sp);
    } else {
      op := n - 1;
    }
  }
}
