/** Union-closed families over n atoms, as bit sets indexed by the bit mask of each member. */
module Families {
  import opened Arith

  /** Bit x says whether the set with mask x is a member. */
  type Family = seq<bool>

  function Or(a: nat, b: nat): nat
    decreases a + b
  {
    if a == 0 && b == 0 then 0 else 2 * Or(a / 2, b / 2) + (if a % 2 == 1 || b % 2 == 1 then 1 else 0)
  }

  lemma {:induction false} OrHalf(a: nat, b: nat)
    ensures Or(a, b) / 2 == Or(a / 2, b / 2) && Or(a, b) % 2 == if a % 2 == 1 || b % 2 == 1 then 1 else 0
  {
  }

  lemma {:induction false} OrCommutes(a: nat, b: nat)
    ensures Or(a, b) == Or(b, a)
    decreases a + b
  {
    if a + b > 0 {
      OrCommutes(a / 2, b / 2);
    }
  }

  lemma {:induction false} OrAssociates(a: nat, b: nat, c: nat)
    ensures Or(Or(a, b), c) == Or(a, Or(b, c))
    decreases a + b + c
  {
    if a + b + c > 0 {
      OrAssociates(a / 2, b / 2, c / 2);
      OrHalf(a, b);
      OrHalf(b, c);
      OrHalf(Or(a, b), c);
      OrHalf(a, Or(b, c));
      hide Or;
    }
  }

  lemma {:induction false} OrWithItself(a: nat)
    ensures Or(a, a) == a && Or(0, a) == Or(a, 0) == a
  {
    if a > 0 {
      OrWithItself(a / 2);
    }
  }

  lemma {:induction false} UnionOfUnions(u: nat, v: nat, s: nat)
    ensures Or(Or(u, s), v) == Or(u, Or(v, s)) == Or(Or(u, s), Or(v, s)) == Or(Or(u, v), s)
  {
    hide Or;
    OrAssociates(u, s, v);
    OrCommutes(s, v);
    OrAssociates(u, v, s);
    OrAssociates(u, s, Or(v, s));
    OrCommutes(v, s);
    OrAssociates(s, s, v);
    OrWithItself(s);
  }

  lemma {:induction false} OrBound(n: nat, a: nat, b: nat)
    requires a < Pow2(n) && b < Pow2(n)
    ensures Or(a, b) < Pow2(n)
  {
    if n > 0 {
      OrBound(n - 1, a / 2, b / 2);
      OrHalf(a, b);
      hide Or;
    }
  }

  lemma {:induction false} OrHighBit(n: nat, a: nat, b: nat)
    requires a < Pow2(n) && b < Pow2(n)
    ensures Or(a, b + Pow2(n)) == Or(a, b) + Pow2(n)
  {
    var p := Pow2(n);
    if n > 0 {
      OrHighBit(n - 1, a / 2, b / 2);
      OrHalf(a, b);
      OrHalf(a, b + p);
      Pow2Step(n);
      hide Or, Pow2;
      assert (b + p) / 2 == b / 2 + Pow2(n - 1) && (b + p) % 2 == b % 2;
    }
  }

  /** Sets over n atoms are closed under union, and atom n stands apart from them. */
  lemma {:induction false} OrTop(n: nat, a: nat, b: nat)
    requires a < Pow2(n) && b < Pow2(n)
    ensures Or(a, b) < Pow2(n)
    ensures Or(a, b + Pow2(n)) == Or(a + Pow2(n), b) == Or(a + Pow2(n), b + Pow2(n)) == Or(a, b) + Pow2(n)
  {
    hide Or;
    var p := Pow2(n);
    OrBound(n, a, b);
    OrHighBit(n, a, b);
    OrHighBit(n, b, a);
    OrCommutes(a, b);
    OrCommutes(a + p, b);
    OrIsSum(n, a);
    OrIsSum(n, b);
    OrIsSum(n, Or(a, b));
    UnionOfUnions(a, b, p);
  }

  lemma {:induction false} OrIsSum(n: nat, x: nat)
    requires x < Pow2(n)
    ensures Or(x, Pow2(n)) == x + Pow2(n)
  {
    OrHighBit(n, x, 0);
    OrWithItself(x);
  }

  // ---- Union-closed families ----

  predicate Member(f: Family, x: nat) { x < |f| && f[x] }

  ghost predicate UnionClosed(f: Family) {
    forall x: nat, y: nat :: Member(f, x) && Member(f, y) ==> Member(f, Or(x, y))
  }

  /** What compatible tests. */
  ghost predicate Compatible(a: Family, b: Family) {
    forall x: nat, y: nat :: Member(a, x) && Member(b, y) ==> Member(b, Or(x, y))
  }

  ghost predicate IsFamily(f: Family, n: nat) { |f| == Pow2(n) && UnionClosed(f) }

  /** A family over n + 1 atoms is closed if and only if its halves without and with the last atom are, and are
      compatible. */
  lemma {:induction false} SplitAtTop(alpha: Family, beta: Family, n: nat)
    requires |alpha| == |beta| == Pow2(n)
    ensures IsFamily(alpha + beta, n + 1) <==> IsFamily(alpha, n) && IsFamily(beta, n) && Compatible(alpha, beta)
  {
    hide Or;
    var f, h := alpha + beta, Pow2(n);
    if IsFamily(f, n + 1) {
      forall x: nat, y: nat | Member(alpha, x) && Member(alpha, y) ensures Member(alpha, Or(x, y)) {
        OrTop(n, x, y);
        assert Member(f, x) && Member(f, y);
      }
      forall x: nat, y: nat | Member(beta, x) && Member(beta, y) ensures Member(beta, Or(x, y)) {
        OrTop(n, x, y);
        assert Member(f, x + h) && Member(f, y + h);
      }
      forall x: nat, y: nat | Member(alpha, x) && Member(beta, y) ensures Member(beta, Or(x, y)) {
        OrTop(n, x, y);
        assert Member(f, x) && Member(f, y + h);
      }
    }
    if IsFamily(alpha, n) && IsFamily(beta, n) && Compatible(alpha, beta) {
      forall x: nat, y: nat | Member(f, x) && Member(f, y) ensures Member(f, Or(x, y)) {
        var u, v := if x < h then x else x - h, if y < h then y else y - h;
        OrTop(n, u, v);
        OrCommutes(u, v);
        assert if x < h then Member(alpha, u) else Member(beta, u);
        assert if y < h then Member(alpha, v) else Member(beta, v);
      }
    }
  }

  // ---- Enumeration ----

  /** Moving an iterator to the next member, or to the end. */
  method Advance(f: Family, index: int) returns (next: nat)
    requires -1 <= index < |f|
    ensures index < next <= |f| && (next < |f| ==> f[next])
    ensures forall x: nat :: index < x < next ==> !f[x]
  {
    next := index + 1;
    while next < |f| && !f[next]
      invariant index < next <= |f| && forall x: nat :: index < x < next ==> !f[x]
    {
      next := next + 1;
    }
  }

  method AreCompatible(a: Family, b: Family, ghost n: nat) returns (yes: bool)
    requires |a| == |b| == Pow2(n)
    ensures yes <==> Compatible(a, b)
  {
    hide Or;
    var ai := Advance(a, -1);
    while ai < |a|
      invariant ai <= |a| && (ai < |a| ==> a[ai])
      invariant forall x: nat, y: nat :: x < ai && Member(a, x) && Member(b, y) ==> Member(b, Or(x, y))
    {
      var bi := Advance(b, -1);
      while bi < |b|
        invariant bi <= |b| && (bi < |b| ==> b[bi])
        invariant forall y: nat :: y < bi && Member(b, y) ==> Member(b, Or(ai, y))
        decreases |b| - bi
      {
        OrTop(n, ai, bi);
        if !b[Or(ai, bi)] {
          assert Member(a, ai) && Member(b, bi);
          return false;
        }
        bi := Advance(b, bi);
      }
      ai := Advance(a, ai);
    }
    return true;
  }

  ghost predicate NoneTwice(families: seq<Family>) {
    forall i, j :: 0 <= i < j < |families| ==> families[i] != families[j]
  }

  lemma {:induction false} AppendNoneTwice(a: seq<Family>, b: seq<Family>)
    requires NoneTwice(a) && NoneTwice(b) && forall f: Family :: f in a ==> f !in b
    ensures NoneTwice(a + b)
  {
    forall i, j | 0 <= i < j < |a + b| ensures (a + b)[i] != (a + b)[j] {
      assert i < |a| ==> a[i] in a;
      assert |a| <= j ==> b[j - |a|] in b;
    }
  }

  /** Every union-closed family over n atoms, once, and nothing else. */
  method Generate(n: nat) returns (out: seq<Family>)
    ensures forall f: Family :: f in out <==> IsFamily(f, n)
    ensures NoneTwice(out)
  {
    if n == 0 {
      out := [[false], [true]];
      NoAtoms();
      return;
    }
    var smaller := Generate(n - 1);
    out := [];
    for i := 0 to |smaller|
      invariant forall f: Family :: f in out ==> IsFamily(f, n) && f[..Pow2(n - 1)] in smaller[..i]
      invariant forall f: Family :: IsFamily(f, n) && f[..Pow2(n - 1)] in smaller[..i] ==> f in out
      invariant NoneTwice(out)
    {
      var row := WithLowerHalf(smaller[i], smaller, n);
      assert smaller[i] !in smaller[..i];
      assert smaller[..i + 1] == smaller[..i] + [smaller[i]];
      AppendNoneTwice(out, row);
      out := out + row;
    }
    assert smaller[..|smaller|] == smaller;
    forall f: Family | IsFamily(f, n) ensures f in out {
      var h := Pow2(n - 1);
      assert f == f[..h] + f[h..];
      SplitAtTop(f[..h], f[h..], n - 1);
    }
  }

  lemma {:induction false} NoAtoms()
    ensures forall f: Family :: f in [[false], [true]] <==> IsFamily(f, 0)
  {
    forall f: Family ensures f in [[false], [true]] <==> IsFamily(f, 0) {
      if |f| == 1 {
        OrWithItself(0);
        assert f == [f[0]];
      }
    }
  }

  /** The inner loop: the families whose half without the last atom is alpha. */
  method WithLowerHalf(alpha: Family, smaller: seq<Family>, n: nat) returns (row: seq<Family>)
    requires n > 0 && alpha in smaller && NoneTwice(smaller)
    requires forall f: Family :: f in smaller <==> IsFamily(f, n - 1)
    ensures forall f: Family :: f in row <==> IsFamily(f, n) && f[..Pow2(n - 1)] == alpha
    ensures NoneTwice(row)
  {
    var h := Pow2(n - 1);
    row := [];
    for j := 0 to |smaller|
      invariant forall f: Family :: f in row ==> IsFamily(f, n) && f[..h] == alpha && f[h..] in smaller[..j]
      invariant forall f: Family :: IsFamily(f, n) && f[..h] == alpha && f[h..] in smaller[..j] ==> f in row
      invariant NoneTwice(row)
    {
      var beta := smaller[j];
      assert beta in smaller && beta !in smaller[..j];
      assert smaller[..j + 1] == smaller[..j] + [beta];
      SplitAtTop(alpha, beta, n - 1);
      var compatible := AreCompatible(alpha, beta, n - 1);
      if compatible {
        var curr := Combine(alpha, beta, n);
        assert curr[..h] == alpha && curr[h..] == beta;
        row := row + [curr];
      }
      forall f: Family | IsFamily(f, n) && f[..h] == alpha && f[h..] == beta ensures f in row {
        assert f == f[..h] + f[h..] == alpha + beta;
      }
    }
    assert smaller[..|smaller|] == smaller;
    forall f: Family | IsFamily(f, n) && f[..h] == alpha ensures f in row {
      assert f == f[..h] + f[h..];
      SplitAtTop(f[..h], f[h..], n - 1);
    }
  }

  /** The bits of both halves, written one by one. */
  method Combine(alpha: Family, beta: Family, n: nat) returns (curr: Family)
    requires n > 0 && |alpha| == |beta| == Pow2(n - 1)
    ensures curr == alpha + beta
  {
    var h := Pow2(n - 1);
    curr := seq(Pow2(n), _ => false);
    for index := 0 to h
      invariant |curr| == 2 * h
      invariant forall x :: 0 <= x < index ==> curr[x] == alpha[x] && curr[x + h] == beta[x]
    {
      OrTop(n - 1, index, 0);
      OrWithItself(index);
      curr := curr[index := alpha[index]];
      curr := curr[Or(index, h) := beta[index]];
    }
  }

  // ---- Adding one set and its unions ----

  /** f and every union of one of its members with s. */
  ghost predicate IsExtension(g: Family, f: Family, s: nat) {
    |g| == |f| && forall x: nat :: Member(g, x) <==> Member(f, x) || IsUnionWith(f, s, x, |f|)
  }

  /** x is the union of s with one of the members before bound. */
  ghost predicate IsUnionWith(f: Family, s: nat, x: nat, bound: nat) {
    exists y: nat :: y < bound && Member(f, y) && Or(y, s) == x
  }

  /** The loop of Generator::get: bits set while scanning are scanned again, and add nothing. */
  method AddSet(family: array<bool>, s: nat, ghost n: nat)
    requires family.Length == Pow2(n) && s < Pow2(n)
    modifies family
    ensures IsExtension(family[..], old(family[..]), s)
  {
    hide Or;
    ghost var f := family[..];
    for index := 0 to family.Length
      invariant forall x: nat :: Member(family[..], x) <==> Member(f, x) || IsUnionWith(f, s, x, index)
    {
      OrTop(n, index, s);
      ScannedAgain(f, s, index);
      ghost var before := family[..];
      assert Member(before, index) <==> family[index];
      if family[index] {
        family[Or(index, s)] := true;
      }
      forall x: nat ensures Member(family[..], x) <==> Member(f, x) || IsUnionWith(f, s, x, index + 1) {
        NextUnion(f, s, x, index);
        assert Member(before, x) <==> Member(f, x) || IsUnionWith(f, s, x, index);
      }
    }
  }

  lemma {:induction false} NextUnion(f: Family, s: nat, x: nat, index: nat)
    ensures IsUnionWith(f, s, x, index + 1) <==> IsUnionWith(f, s, x, index) || (Member(f, index) && Or(index, s) == x)
  {
    hide Or;
  }

  /** A bit set earlier in the scan stands for a union with s, which a second union with s does not change. */
  lemma {:induction false} ScannedAgain(f: Family, s: nat, index: nat)
    ensures IsUnionWith(f, s, index, index) ==> Or(index, s) == index
  {
    hide Or;
    if IsUnionWith(f, s, index, index) {
      var y: nat :| y < index && Member(f, y) && Or(y, s) == index;
      OrAssociates(y, s, s);
      OrWithItself(s);
    }
  }

  /** The result is the least union-closed family with f in it and the unions with s. */
  lemma {:induction false} ExtensionIsClosed(g: Family, f: Family, s: nat, n: nat)
    requires IsFamily(f, n) && s < Pow2(n) && IsExtension(g, f, s)
    ensures IsFamily(g, n)
    ensures Member(f, 0) ==> Member(g, s)
    ensures forall h: Family :: UnionClosed(h) && Member(h, s) && (forall x: nat :: Member(f, x) ==> Member(h, x))
              ==> forall x: nat :: Member(g, x) ==> Member(h, x)
  {
    hide Or;
    forall x: nat, y: nat | Member(g, x) && Member(g, y) ensures Member(g, Or(x, y)) {
      var u: nat, us := Origin(f, s, x);
      var v: nat, vs := Origin(f, s, y);
      UnionOfUnions(u, v, s);
      OrTop(n, u, v);
      assert Member(f, Or(u, v));
      assert us || vs ==> IsUnionWith(f, s, Or(x, y), |f|);
    }
    if Member(f, 0) {
      OrWithItself(s);
      assert IsUnionWith(f, s, s, |f|);
    }
  }

  /** A member of the extension is a member of f, or the union of one with s. */
  lemma {:induction false} Origin(f: Family, s: nat, x: nat) returns (u: nat, withS: bool)
    requires Member(f, x) || IsUnionWith(f, s, x, |f|)
    ensures Member(f, u) && x == if withS then Or(u, s) else u
  {
    if Member(f, x) {
      return x, false;
    }
    u :| u < |f| && Member(f, u) && Or(u, s) == x;
    withS := true;
  }
}
