/** The balanced search tree as a value: its operations, its invariant and its contents. */
module AvlSpec {
  import opened Arith

  datatype Side = Left | Right

  /** A tree with the depth that each node stores. */
  datatype Tree<T> = Leaf | Node(left: Tree<T>, value: T, depth: nat, right: Tree<T>) {

    function Depth(): nat { if Leaf? then 0 else depth }

    function Child(c: Side): Tree<T>
      requires Node?
    {
      if c.Left? then left else right
    }

    function WithChild(c: Side, t: Tree<T>): Tree<T>
      requires Node?
    {
      if c.Left? then this.(left := t) else this.(right := t)
    }
  }

  function UpdateDepth<T>(t: Tree<T>): Tree<T>
    requires t.Node?
  {
    t.(depth := 1 + Max(t.left.Depth(), t.right.Depth()))
  }

  /** `A` is the side of the child that moves up, `B` the other side. */
  function Rotate<T>(t: Tree<T>, A: Side, B: Side): Tree<T>
    requires A != B && t.Node? && t.Child(A).Node?
  {
    var up := t.Child(A);
    UpdateDepth(up.WithChild(B, UpdateDepth(t.WithChild(A, up.Child(B)))))
  }

  predicate CheckInvariant<T>(t: Tree<T>, depth: nat) {
    if t.Leaf? then true
    else
      var l, r := t.left.Depth(), t.right.Depth();
      if depth > 0 && t.Depth() != 1 + Max(l, r) then false
      else if l > r + 1 || r > l + 1 then false
      else if depth == 0 then true
      else CheckInvariant(t.left, depth - 1) && CheckInvariant(t.right, depth - 1)
  }

  // ---- The invariant ----

  function Height<T>(t: Tree<T>): nat {
    if t.Leaf? then 0 else 1 + Max(Height(t.left), Height(t.right))
  }

  /** Every stored depth is the height and the heights of siblings differ by at most one. */
  ghost predicate Avl<T>(t: Tree<T>) {
    t.Node? ==>
      && t.depth == Height(t)
      && Height(t.left) <= Height(t.right) + 1 && Height(t.right) <= Height(t.left) + 1
      && Avl(t.left) && Avl(t.right)
  }

  lemma {:induction false} AvlDepth<T>(t: Tree<T>)
    requires Avl(t)
    ensures t.Depth() == Height(t)
  {
  }

  /** The source's run-time check, to any depth, never fails on a balanced tree. */
  lemma {:induction false} AvlPassesCheck<T>(t: Tree<T>, depth: nat)
    requires Avl(t)
    ensures CheckInvariant(t, depth)
  {
    if t.Node? {
      AvlDepth(t);
      AvlDepth(t.left);
      AvlDepth(t.right);
      if depth > 0 {
        AvlPassesCheck(t.left, depth - 1);
        AvlPassesCheck(t.right, depth - 1);
      }
    }
  }

  /** A check as deep as the tree is high passes only on balanced trees. */
  lemma {:induction false} DeepCheckIsAvl<T>(t: Tree<T>, depth: nat)
    requires CheckInvariant(t, depth) && Height(t) < depth
    ensures Avl(t)
  {
    if t.Node? {
      DeepCheckIsAvl(t.left, depth - 1);
      DeepCheckIsAvl(t.right, depth - 1);
      AvlDepth(t.left);
      AvlDepth(t.right);
    }
  }

  /** Subtrees balanced, depth up to date, sibling heights at most two apart. */
  ghost predicate AlmostAvl<T>(t: Tree<T>) {
    && t.Node? && t.depth == Height(t)
    && Avl(t.left) && Avl(t.right)
    && Height(t.left) <= Height(t.right) + 2 && Height(t.right) <= Height(t.left) + 2
  }

  function FixInvariant<T>(t: Tree<T>): Tree<T>
    requires AlmostAvl(t)
  {
    if CheckInvariant(t, 0) then t
    else
      var l, r := t.left.Depth(), t.right.Depth();
      var A := if l > r then Left else Right;
      var B := if l > r then Right else Left;
      var t' := if t.Child(A).Child(A).Depth() < t.Child(A).Child(B).Depth()
                then t.WithChild(A, Rotate(t.Child(A), B, A)) else t;
      Rotate(t', A, B)
  }

  /** Stored depths are right three levels down: what a double rotation reads. */
  ghost predicate DepthsExact<T>(t: Tree<T>, levels: nat) {
    t.Depth() == Height(t) &&
    (levels > 0 && t.Node? ==> DepthsExact(t.left, levels - 1) && DepthsExact(t.right, levels - 1))
  }

  lemma {:induction false} AvlDepths<T>(t: Tree<T>, levels: nat)
    requires Avl(t)
    ensures DepthsExact(t, levels)
  {
    if t.Node? && levels > 0 {
      AvlDepths(t.left, levels - 1);
      AvlDepths(t.right, levels - 1);
    }
  }

  /** Rebalancing restores the invariant and costs at most one level. */
  lemma {:induction false} FixBalances<T>(t: Tree<T>)
    requires AlmostAvl(t)
    ensures Avl(FixInvariant(t))
    ensures Height(FixInvariant(t)) == Height(t) || Height(FixInvariant(t)) + 1 == Height(t)
    ensures Avl(t) ==> FixInvariant(t) == t
  {
    AvlDepths(t.left, 2);
    AvlDepths(t.right, 2);
    if !CheckInvariant(t, 0) {
      var A := if t.left.Depth() > t.right.Depth() then Left else Right;
      var B := if A.Left? then Right else Left;
      if t.Child(A).Child(A).Depth() < t.Child(A).Child(B).Depth() {
        DoubleRotation(t, A, B);
      } else {
        SingleRotation(t, A, B);
      }
    }
  }

  ghost predicate Heavy<T>(t: Tree<T>, A: Side, B: Side) {
    && A != B && AlmostAvl(t)
    && Height(t.Child(A)) == Height(t.Child(B)) + 2
  }

  /** A node over two balanced subtrees of nearly equal height. */
  lemma {:induction false} JoinBalanced<T>(l: Tree<T>, v: T, d: nat, r: Tree<T>)
    requires Avl(l) && Avl(r) && Height(l) <= Height(r) + 1 && Height(r) <= Height(l) + 1
    ensures var t := UpdateDepth(Node(l, v, d, r));
            t.depth == 1 + Max(Height(l), Height(r)) == Height(t) && Avl(t)
  {
    AvlDepth(l);
    AvlDepth(r);
  }

  lemma {:induction false} SingleRotation<T>(t: Tree<T>, A: Side, B: Side)
    requires Heavy(t, A, B) && Height(t.Child(A).Child(A)) >= Height(t.Child(A).Child(B))
    ensures Avl(Rotate(t, A, B)) && Height(t) - 1 <= Height(Rotate(t, A, B)) <= Height(t)
  {
    var up := t.Child(A);
    if A.Left? {
      JoinBalanced(up.right, t.value, t.depth, t.right);
      JoinBalanced(up.left, up.value, up.depth, UpdateDepth(Node(up.right, t.value, t.depth, t.right)));
    } else {
      JoinBalanced(t.left, t.value, t.depth, up.left);
      JoinBalanced(UpdateDepth(Node(t.left, t.value, t.depth, up.left)), up.value, up.depth, up.right);
    }
  }

  lemma {:induction false} DoubleRotation<T>(t: Tree<T>, A: Side, B: Side)
    requires Heavy(t, A, B) && Height(t.Child(A).Child(A)) < Height(t.Child(A).Child(B))
    ensures var t' := t.WithChild(A, Rotate(t.Child(A), B, A));
            t'.Child(A).Node? && Avl(Rotate(t', A, B)) && Height(Rotate(t', A, B)) == Height(t) - 1
  {
    if A.Left? {
      DoubleLeft(t, t.left, t.left.right);
    } else {
      DoubleRight(t, t.right, t.right.left);
    }
  }

  lemma {:induction false} DoubleLeft<T>(t: Tree<T>, up: Tree<T>, inner: Tree<T>)
    requires Heavy(t, Left, Right) && up == t.left && inner == up.right && Height(up.left) < Height(inner)
    ensures var t' := t.WithChild(Left, Rotate(up, Right, Left));
            t'.left.Node? && Avl(Rotate(t', Left, Right)) && Height(Rotate(t', Left, Right)) == Height(t) - 1
  {
    assert Avl(inner) && Avl(inner.left) && Avl(inner.right);
    JoinBalanced(up.left, up.value, up.depth, inner.left);
    JoinBalanced(inner.right, t.value, t.depth, t.right);
    JoinBalanced(UpdateDepth(Node(up.left, up.value, up.depth, inner.left)), inner.value,
                 UpdateDepth(inner.(left := UpdateDepth(up.(right := inner.left)))).depth,
                 UpdateDepth(Node(inner.right, t.value, t.depth, t.right)));
  }

  lemma {:induction false} DoubleRight<T>(t: Tree<T>, up: Tree<T>, inner: Tree<T>)
    requires Heavy(t, Right, Left) && up == t.right && inner == up.left && Height(up.right) < Height(inner)
    ensures var t' := t.WithChild(Right, Rotate(up, Left, Right));
            t'.right.Node? && Avl(Rotate(t', Right, Left)) && Height(Rotate(t', Right, Left)) == Height(t) - 1
  {
    assert Avl(inner) && Avl(inner.left) && Avl(inner.right);
    JoinBalanced(inner.right, up.value, up.depth, up.right);
    JoinBalanced(t.left, t.value, t.depth, inner.left);
    JoinBalanced(UpdateDepth(Node(t.left, t.value, t.depth, inner.left)), inner.value,
                 UpdateDepth(inner.(right := UpdateDepth(up.(left := inner.right)))).depth,
                 UpdateDepth(Node(inner.right, up.value, up.depth, up.right)));
  }

  // ---- Contents ----

  /** The values from left to right. */
  function Flatten<T>(t: Tree<T>): seq<T> {
    if t.Leaf? then [] else Flatten(t.left) + [t.value] + Flatten(t.right)
  }

  lemma {:induction false} RotateFlatten<T>(t: Tree<T>, A: Side, B: Side)
    requires A != B && t.Node? && t.Child(A).Node?
    ensures Flatten(Rotate(t, A, B)) == Flatten(t)
  {
    var up := t.Child(A);
    if A.Left? {
      var right := UpdateDepth(t.WithChild(A, up.right));
      assert Flatten(right) == Flatten(up.right) + [t.value] + Flatten(t.right);
    } else {
      var left := UpdateDepth(t.WithChild(A, up.left));
      assert Flatten(left) == Flatten(t.left) + [t.value] + Flatten(up.left);
    }
  }

  /** Rebalancing never moves a value past another. */
  lemma {:induction false} FixFlatten<T>(t: Tree<T>)
    requires AlmostAvl(t)
    ensures Flatten(FixInvariant(t)) == Flatten(t)
  {
    if !CheckInvariant(t, 0) {
      AvlDepths(t.left, 2);
      AvlDepths(t.right, 2);
      var A := if t.left.Depth() > t.right.Depth() then Left else Right;
      var B := if A.Left? then Right else Left;
      if t.Child(A).Child(A).Depth() < t.Child(A).Child(B).Depth() {
        RotateFlatten(t.Child(A), B, A);
        RotateFlatten(t.WithChild(A, Rotate(t.Child(A), B, A)), A, B);
      } else {
        RotateFlatten(t, A, B);
      }
    }
  }

  // ---- Insertion and removal ----

  type Order<!T> = (T, T) -> int

  /** The comparison is a weak order: negative, zero and positive as `<=>` gives them, zero for equivalent values. */
  ghost predicate WeakOrder<T(!new)>(cmp: Order<T>) {
    && (forall a, b :: cmp(a, b) < 0 <==> cmp(b, a) > 0)
    && (forall a, b, c :: cmp(a, b) < 0 && cmp(b, c) < 0 ==> cmp(a, c) < 0)
    && (forall a, b, c :: cmp(a, b) < 0 && cmp(b, c) == 0 ==> cmp(a, c) < 0)
    && (forall a, b, c :: cmp(a, b) == 0 && cmp(b, c) < 0 ==> cmp(a, c) < 0)
  }

  ghost predicate Sorted<T>(cmp: Order<T>, s: seq<T>) {
    forall i, j :: 0 <= i < j < |s| ==> cmp(s[i], s[j]) < 0
  }

  lemma {:induction false} SortedSplit<T(!new)>(cmp: Order<T>, a: seq<T>, x: T, b: seq<T>)
    requires WeakOrder(cmp)
    ensures Sorted(cmp, a + [x] + b) <==>
            Sorted(cmp, a) && Sorted(cmp, b) &&
            (forall y :: y in a ==> cmp(y, x) < 0) && (forall y :: y in b ==> cmp(x, y) < 0)
  {
    if Sorted(cmp, a + [x] + b) {
      SortedParts(cmp, a, x, b);
    }
    if Sorted(cmp, a) && Sorted(cmp, b) && (forall y :: y in a ==> cmp(y, x) < 0) &&
      (forall y :: y in b ==> cmp(x, y) < 0) {
      SortedWhole(cmp, a, x, b);
    }
  }

  lemma {:induction false} SortedParts<T(!new)>(cmp: Order<T>, a: seq<T>, x: T, b: seq<T>)
    requires Sorted(cmp, a + [x] + b)
    ensures Sorted(cmp, a) && Sorted(cmp, b) && (forall y :: y in a ==> cmp(y, x) < 0)
    ensures forall y :: y in b ==> cmp(x, y) < 0
  {
    var s := a + [x] + b;
    assert forall i :: 0 <= i < |a| ==> s[i] == a[i];
    assert s[|a|] == x;
    assert forall j :: 0 <= j < |b| ==> s[|a| + 1 + j] == b[j];
    forall i, j | 0 <= i < j < |b|
      ensures cmp(b[i], b[j]) < 0
    {
      assert cmp(s[|a| + 1 + i], s[|a| + 1 + j]) < 0;
    }
  }

  lemma {:induction false} SortedWhole<T(!new)>(cmp: Order<T>, a: seq<T>, x: T, b: seq<T>)
    requires WeakOrder(cmp) && Sorted(cmp, a) && Sorted(cmp, b)
    requires (forall y :: y in a ==> cmp(y, x) < 0) && (forall y :: y in b ==> cmp(x, y) < 0)
    ensures Sorted(cmp, a + [x] + b)
  {
    var s := a + [x] + b;
    forall i, j | 0 <= i < j < |s|
      ensures cmp(s[i], s[j]) < 0
    {
      if i < |a| {
        assert s[i] in a;
      }
      if j > |a| {
        assert s[j] in b;
      }
    }
  }

  function Insert<T>(cmp: Order<T>, t: Tree<T>, value: T): (r: Tree<T>)
    requires Avl(t)
    ensures Avl(r) && Height(t) <= Height(r) <= Height(t) + 1
  {
    if t.Leaf? then Node(Leaf, value, 1, Leaf)
    else
      var c := cmp(t.value, value);
      if c == 0 then t
      else
        var t' := UpdateDepth(if c > 0 then t.(left := Insert(cmp, t.left, value))
          else t.(right := Insert(cmp, t.right, value)));
        AvlDepth(t'.left); AvlDepth(t'.right); FixBalances(t');
        FixInvariant(t')
  }

  /** Removes the leftmost value: the value and the rest. */
  function StealFirst<T>(t: Tree<T>): (r: (T, Tree<T>))
    requires t.Node? && Avl(t)
    ensures Avl(r.1) && Height(r.1) <= Height(t) <= Height(r.1) + 1
    ensures Flatten(t) == [r.0] + Flatten(r.1)
  {
    if t.left.Leaf? then (t.value, t.right)
    else
      var first := StealFirst(t.left);
      var t' := UpdateDepth(t.(left := first.1));
      AvlDepth(t'.left); AvlDepth(t'.right); FixBalances(t'); FixFlatten(t');
      (first.0, FixInvariant(t'))
  }

  function Erase<T>(cmp: Order<T>, t: Tree<T>, value: T): (r: Tree<T>)
    requires Avl(t)
    ensures Avl(r) && Height(r) <= Height(t) <= Height(r) + 1
  {
    if t.Leaf? then Leaf
    else
      var c := cmp(t.value, value);
      if c == 0 && t.left.Leaf? then t.right
      else if c == 0 && t.right.Leaf? then t.left
      else
        var t' := UpdateDepth(
          if c == 0 then var first := StealFirst(t.right); t.(value := first.0, right := first.1)
          else if c > 0 then t.(left := Erase(cmp, t.left, value))
          else t.(right := Erase(cmp, t.right, value)));
        AvlDepth(t'.left); AvlDepth(t'.right); FixBalances(t');
        FixInvariant(t')
  }

  ghost predicate Ordered<T>(cmp: Order<T>, t: Tree<T>) {
    Sorted(cmp, Flatten(t))
  }

  ghost predicate Has<T>(t: Tree<T>, x: T) {
    x in Flatten(t)
  }

  /** An equivalent value is in the tree. */
  ghost predicate HasLike<T(!new)>(cmp: Order<T>, t: Tree<T>, x: T) {
    exists y :: Has(t, y) && cmp(y, x) == 0
  }

  lemma {:induction false} OrderedNode<T(!new)>(cmp: Order<T>, t: Tree<T>)
    requires WeakOrder(cmp) && t.Node?
    ensures Ordered(cmp, t) <==>
            Ordered(cmp, t.left) && Ordered(cmp, t.right) &&
            (forall y :: Has(t.left, y) ==> cmp(y, t.value) < 0) &&
            (forall y :: Has(t.right, y) ==> cmp(t.value, y) < 0)
    ensures forall x :: Has(t, x) <==> Has(t.left, x) || x == t.value || Has(t.right, x)
  {
    SortedSplit(cmp, Flatten(t.left), t.value, Flatten(t.right));
  }

  /** Which half an equivalent value is in. */
  lemma {:induction false} LikeInNode<T(!new)>(cmp: Order<T>, t: Tree<T>, x: T)
    requires WeakOrder(cmp) && t.Node? && Ordered(cmp, t)
    ensures cmp(t.value, x) == 0 ==> HasLike(cmp, t, x)
    ensures cmp(t.value, x) > 0 ==> (HasLike(cmp, t, x) <==> HasLike(cmp, t.left, x))
    ensures cmp(t.value, x) < 0 ==> (HasLike(cmp, t, x) <==> HasLike(cmp, t.right, x))
  {
    OrderedNode(cmp, t);
    hide Ordered, Has;
  }

  /** A value goes in unless an equivalent one is there, and nothing else changes. */
  lemma {:induction false} InsertContents<T(!new)>(cmp: Order<T>, t: Tree<T>, value: T)
    requires WeakOrder(cmp) && Avl(t) && Ordered(cmp, t)
    ensures Ordered(cmp, Insert(cmp, t, value))
    ensures forall x :: Has(Insert(cmp, t, value), x) <==> Has(t, x) || (x == value && !HasLike(cmp, t, value))
  {
    if t.Node? {
      OrderedNode(cmp, t);
      LikeInNode(cmp, t, value);
      var c := cmp(t.value, value);
      if c != 0 {
        var t' := UpdateDepth(if c > 0 then t.(left := Insert(cmp, t.left, value))
          else t.(right := Insert(cmp, t.right, value)));
        if c > 0 {
          InsertContents(cmp, t.left, value);
        } else {
          InsertContents(cmp, t.right, value);
        }
        AvlDepth(t'.left);
        AvlDepth(t'.right);
        FixFlatten(t');
        SameValues(cmp, t', FixInvariant(t'));
        hide Ordered, Has, HasLike, FixInvariant;
        OrderedNode(cmp, t');
      }
    }
  }

  /** The value taken is the least one, and exactly that one is removed. */
  lemma {:induction false} StealFirstContents<T(!new)>(cmp: Order<T>, t: Tree<T>)
    requires WeakOrder(cmp) && t.Node? && Avl(t) && Ordered(cmp, t)
    ensures var (first, rest) := StealFirst(t);
            && Ordered(cmp, rest) && Has(t, first) && !Has(rest, first)
            && (forall x :: Has(t, x) <==> Has(rest, x) || x == first)
            && (forall x :: Has(rest, x) ==> cmp(first, x) < 0)
  {
    var (first, rest) := StealFirst(t);
    assert Flatten(t) == [] + [first] + Flatten(rest);
    SortedSplit(cmp, [], first, Flatten(rest));
  }

  /** Replacing one child by a tree with fewer values, or the root by the least value of the right child. */
  lemma {:induction false} ShrinkNode<T(!new)>(cmp: Order<T>, t: Tree<T>, t': Tree<T>, gone: T)
    requires WeakOrder(cmp) && t.Node? && t'.Node? && Ordered(cmp, t)
    requires Ordered(cmp, t'.left) && Ordered(cmp, t'.right)
    requires
      || (t'.value == t.value && t'.right == t.right && cmp(t.value, gone) > 0 &&
          forall x :: Has(t'.left, x) <==> Has(t.left, x) && cmp(x, gone) != 0)
      || (t'.value == t.value && t'.left == t.left && cmp(t.value, gone) < 0 &&
          forall x :: Has(t'.right, x) <==> Has(t.right, x) && cmp(x, gone) != 0)
      || (t'.left == t.left && cmp(t.value, gone) == 0 && Has(t.right, t'.value) &&
          (forall x :: Has(t'.right, x) ==> cmp(t'.value, x) < 0) &&
          forall x :: Has(t.right, x) <==> Has(t'.right, x) || x == t'.value)
    ensures Ordered(cmp, t')
    ensures forall x :: Has(t', x) <==> Has(t, x) && cmp(x, gone) != 0
  {
    hide Ordered, Has;
    OrderedNode(cmp, t);
    OrderedNode(cmp, t');
  }

  lemma {:induction false} EraseContents<T(!new)>(cmp: Order<T>, t: Tree<T>, value: T)
    requires WeakOrder(cmp) && Avl(t) && Ordered(cmp, t)
    ensures Ordered(cmp, Erase(cmp, t, value))
    ensures forall x :: Has(Erase(cmp, t, value), x) <==> Has(t, x) && cmp(x, value) != 0
  {
    if t.Node? {
      OrderedNode(cmp, t);
      var c := cmp(t.value, value);
      if c == 0 && (t.left.Leaf? || t.right.Leaf?) {
      } else {
        var t' := UpdateDepth(
          if c == 0 then var first := StealFirst(t.right); t.(value := first.0, right := first.1)
          else if c > 0 then t.(left := Erase(cmp, t.left, value))
          else t.(right := Erase(cmp, t.right, value)));
        hide Ordered, Has;
        if c == 0 {
          StealFirstContents(cmp, t.right);
        } else if c > 0 {
          EraseContents(cmp, t.left, value);
        } else {
          EraseContents(cmp, t.right, value);
        }
        ShrinkNode(cmp, t, t', value);
        AvlDepth(t'.left);
        AvlDepth(t'.right);
        FixFlatten(t');
        SameValues(cmp, t', FixInvariant(t'));
      }
    }
  }

  lemma {:induction false} SameValues<T(!new)>(cmp: Order<T>, t: Tree<T>, t': Tree<T>)
    requires Flatten(t) == Flatten(t')
    ensures Ordered(cmp, t) <==> Ordered(cmp, t')
    ensures forall x :: Has(t, x) <==> Has(t', x)
  {
  }

  // ---- Whole runs ----

  datatype Op<T> = Put(value: T) | Drop(value: T)

  function Run<T>(cmp: Order<T>, ops: seq<Op<T>>): (t: Tree<T>)
    ensures Avl(t)
  {
    if ops == [] then Leaf
    else
      var before := Run(cmp, ops[..|ops| - 1]);
      match ops[|ops| - 1]
      case Put(v) => Insert(cmp, before, v)
      case Drop(v) => Erase(cmp, before, v)
  }

  /** The last operation on a value equivalent to x was an insertion. */
  ghost predicate Present<T>(cmp: Order<T>, ops: seq<Op<T>>, x: T) {
    ops != [] &&
    if cmp(ops[|ops| - 1].value, x) == 0 then ops[|ops| - 1].Put? else Present(cmp, ops[..|ops| - 1], x)
  }

  /** Among equivalent values the first one stays: it went in when none was present, and none was removed since. */
  ghost predicate Stored<T>(cmp: Order<T>, ops: seq<Op<T>>, x: T) {
    ops != [] &&
    var before := ops[..|ops| - 1];
    match ops[|ops| - 1]
    case Put(v) => Stored(cmp, before, x) || (x == v && !Present(cmp, before, v))
    case Drop(v) => Stored(cmp, before, x) && cmp(x, v) != 0
  }

  /**
   * Every run of insertions and removals from the empty tree: ordered, balanced, with exactly the values stored, one of
   * those equivalent to x if and only if such a value is still present.
   */
  lemma {:induction false} RunContents<T(!new)>(cmp: Order<T>, ops: seq<Op<T>>)
    requires WeakOrder(cmp)
    ensures Avl(Run(cmp, ops)) && Ordered(cmp, Run(cmp, ops))
    ensures forall x :: Has(Run(cmp, ops), x) <==> Stored(cmp, ops, x)
    ensures forall x :: HasLike(cmp, Run(cmp, ops), x) <==> Present(cmp, ops, x)
  {
    if ops != [] {
      var before, t := ops[..|ops| - 1], Run(cmp, ops[..|ops| - 1]);
      RunContents(cmp, before);
      match ops[|ops| - 1]
      case Put(v) =>
        InsertContents(cmp, t, v);
        LikeAfterInsert(cmp, t, v);
      case Drop(v) =>
        EraseContents(cmp, t, v);
        LikeAfterErase(cmp, t, v);
    }
  }

  lemma {:induction false} LikeAfterInsert<T(!new)>(cmp: Order<T>, t: Tree<T>, v: T)
    requires WeakOrder(cmp) && Avl(t) && Ordered(cmp, t)
    ensures forall x :: HasLike(cmp, Insert(cmp, t, v), x) <==> cmp(v, x) == 0 || HasLike(cmp, t, x)
  {
    InsertContents(cmp, t, v);
    hide Ordered, Has, Avl, Insert;
    var t' := Insert(cmp, t, v);
    forall x
      ensures HasLike(cmp, t', x) <==> cmp(v, x) == 0 || HasLike(cmp, t, x)
    {
      if cmp(v, x) == 0 {
        if HasLike(cmp, t, v) {
          var y :| Has(t, y) && cmp(y, v) == 0;
          assert Has(t', y) && cmp(y, x) == 0;
        } else {
          assert Has(t', v);
        }
      } else if HasLike(cmp, t, x) {
        var y :| Has(t, y) && cmp(y, x) == 0;
        assert Has(t', y);
      }
    }
  }

  lemma {:induction false} LikeAfterErase<T(!new)>(cmp: Order<T>, t: Tree<T>, v: T)
    requires WeakOrder(cmp) && Avl(t) && Ordered(cmp, t)
    ensures forall x :: HasLike(cmp, Erase(cmp, t, v), x) <==> cmp(v, x) != 0 && HasLike(cmp, t, x)
  {
    EraseContents(cmp, t, v);
    hide Ordered, Has, Avl, Erase;
    var t' := Erase(cmp, t, v);
    forall x
      ensures HasLike(cmp, t', x) <==> cmp(v, x) != 0 && HasLike(cmp, t, x)
    {
      if cmp(v, x) != 0 && HasLike(cmp, t, x) {
        var y :| Has(t, y) && cmp(y, x) == 0;
        assert Has(t', y);
      }
    }
  }

  /** When only equal values are equivalent, the values stored are those whose last operation was an insertion. */
  lemma {:induction false} StrongRunContents<T(!new)>(cmp: Order<T>, ops: seq<Op<T>>)
    requires WeakOrder(cmp) && forall a, b :: cmp(a, b) == 0 <==> a == b
    ensures forall x :: Has(Run(cmp, ops), x) <==> Present(cmp, ops, x)
  {
    RunContents(cmp, ops);
    hide Has, Stored, Present, Run;
    forall x
      ensures Has(Run(cmp, ops), x) <==> HasLike(cmp, Run(cmp, ops), x)
    {
      if Has(Run(cmp, ops), x) {
        assert cmp(x, x) == 0;
      }
    }
  }

  // ---- Height against size ----

  function Fib(n: nat): nat {
    if n < 2 then n else Fib(n - 1) + Fib(n - 2)
  }

  lemma {:induction false} FibGrows(m: nat, n: nat)
    requires m <= n
    ensures Fib(m) <= Fib(n)
  {
    if m < n {
      FibGrows(m, n - 1);
    }
  }

  lemma {:induction false} SizeStep(l: nat, r: nat, a: nat, b: nat)
    requires a + 1 >= Fib(l + 2) && b + 1 >= Fib(r + 2) && l <= r + 1 && r <= l + 1
    ensures a + 1 + b + 1 >= Fib(Max(l, r) + 3)
  {
    var m := Max(l, r);
    FibGrows(m + 1, l + 2);
    FibGrows(m + 1, r + 2);
    assert Fib(m + 3) == Fib(m + 2) + Fib(m + 1);
  }

  /** A balanced tree of height h holds at least Fib(h + 2) - 1 values. */
  lemma {:induction false} SizeBound<T>(t: Tree<T>)
    requires Avl(t)
    ensures |Flatten(t)| + 1 >= Fib(Height(t) + 2)
  {
    hide Fib;
    if t.Node? {
      SizeBound(t.left);
      SizeBound(t.right);
      SizeStep(Height(t.left), Height(t.right), |Flatten(t.left)|, |Flatten(t.right)|);
    } else {
      FibTwo();
    }
  }

  lemma {:induction false} FibTwo()
    ensures Fib(2) == 1
  {
  }

  lemma {:induction false} FibDoubles(n: nat)
    ensures Fib(n + 2) >= Pow2(n / 2)
  {
    if n >= 2 {
      FibDoubles(n - 2);
      FibGrows(n, n + 1);
    }
  }

  /** So the height of a balanced tree is at most twice the binary logarithm of its size, plus one. */
  lemma {:induction false} HeightBound<T>(t: Tree<T>)
    requires Avl(t)
    ensures Pow2(Height(t) / 2) <= Fib(Height(t) + 2) <= |Flatten(t)| + 1
  {
    SizeBound(t);
    FibDoubles(Height(t));
  }

  lemma {:induction false} HeightIsLogarithmic<T(!new)>(cmp: Order<T>, ops: seq<Op<T>>)
    ensures var t := Run(cmp, ops);
            Pow2(Height(t) / 2) <= Fib(Height(t) + 2) <= |Flatten(t)| + 1
  {
    HeightBound(Run(cmp, ops));
  }
}
