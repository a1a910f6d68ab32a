/** The search tree on the heap: owned nodes rewired in place, each operation proved equal to its value counterpart. */
module AvlHeap {
  import opened Arith
  import opened AvlSpec

  class NodeStruct<T> {
    var value: T
    var depth: nat
    var left: NodeStruct?<T>
    var right: NodeStruct?<T>
    ghost var repr: set<NodeStruct<T>>
    ghost var model: Tree<T>

    constructor (value: T)
      ensures Valid() && fresh(repr) && model == Node(Leaf, value, 1, Leaf)
    {
      this.value, depth, left, right := value, 1, null, null;
      repr := {this};
      model := Node(Leaf, value, 1, Leaf);
    }

    /** Every child is owned by exactly one parent; `model` is the tree below this node as a value. */
    ghost predicate Valid()
      reads this, repr
      ensures Valid() ==> this in repr && model.Node?
      decreases repr
    {
      && this in repr
      && (left != null ==> left in repr && left.repr <= repr && this !in left.repr && left.Valid())
      && (right != null ==> right in repr && right.repr <= repr && this !in right.repr && right.Valid())
      && Owned(left) !! Owned(right)
      && repr == {this} + Owned(left) + Owned(right)
      && model == Node(ModelOf(left), value, depth, ModelOf(right))
    }

    function Child(c: Side): NodeStruct?<T>
      reads this
    {
      if c.Left? then left else right
    }
  }

  ghost function Owned<T>(n: NodeStruct?<T>): set<NodeStruct<T>>
    reads n
  {
    if n == null then {} else n.repr
  }

  ghost predicate Sound<T>(n: NodeStruct?<T>)
    reads n, Owned(n)
  {
    n == null || n.Valid()
  }

  ghost function ModelOf<T>(n: NodeStruct?<T>): Tree<T>
    reads n
  {
    if n == null then Leaf else n.model
  }

  function DepthOf<T>(n: NodeStruct?<T>): nat
    reads n
  {
    if n == null then 0 else n.depth
  }

  lemma {:induction false} Unfold<T>(n: NodeStruct<T>)
    requires n.Valid()
    ensures Sound(n.left) && Sound(n.right) && n !in Owned(n.left) && n !in Owned(n.right)
    ensures Owned(n.left) !! Owned(n.right)
    ensures n.repr == {n} + Owned(n.left) + Owned(n.right)
    ensures n.model == Node(ModelOf(n.left), n.value, n.depth, ModelOf(n.right))
  {
  }

  method UpdateDepthOf<T>(root: NodeStruct<T>)
    requires root.Valid()
    modifies root`depth, root`model
    ensures root.Valid() && root.model == UpdateDepth(old(root.model))
  {
    root.depth := 1 + Max(DepthOf(root.left), DepthOf(root.right));
    root.model := UpdateDepth(root.model);
  }

  /** Moves `child` into the left slot of `n`. */
  method SetLeft<T>(n: NodeStruct<T>, child: NodeStruct?<T>)
    requires Sound(child) && Sound(n.right) && n !in Owned(child) && n !in Owned(n.right)
    requires Owned(child) !! Owned(n.right)
    modifies n`left, n`repr, n`model
    ensures n.Valid() && n.repr == {n} + old(Owned(child)) + old(Owned(n.right))
    ensures n.left == child && n.model == Node(old(ModelOf(child)), n.value, n.depth, old(ModelOf(n.right)))
  {
    n.left := child;
    n.repr := {n} + Owned(child) + Owned(n.right);
    n.model := Node(ModelOf(child), n.value, n.depth, ModelOf(n.right));
  }

  /** Moves `child` into the right slot of `n`. */
  method SetRight<T>(n: NodeStruct<T>, child: NodeStruct?<T>)
    requires Sound(child) && Sound(n.left) && n !in Owned(child) && n !in Owned(n.left) && Owned(child) !! Owned(n.left)
    modifies n`right, n`repr, n`model
    ensures n.Valid() && n.repr == {n} + old(Owned(n.left)) + old(Owned(child))
    ensures n.right == child && n.model == Node(old(ModelOf(n.left)), n.value, n.depth, old(ModelOf(child)))
  {
    n.right := child;
    n.repr := {n} + Owned(n.left) + Owned(child);
    n.model := Node(ModelOf(n.left), n.value, n.depth, ModelOf(child));
  }

  /** A new left child, and the depth that goes with it. */
  method PutLeft<T>(n: NodeStruct<T>, child: NodeStruct?<T>)
    requires Sound(child) && Sound(n.right) && n !in Owned(child) && n !in Owned(n.right)
    requires Owned(child) !! Owned(n.right)
    modifies n`left, n`repr, n`model, n`depth
    ensures n.Valid() && n.repr == {n} + old(Owned(child)) + old(Owned(n.right))
    ensures n.model == UpdateDepth(Node(old(ModelOf(child)), n.value, old(n.depth), old(ModelOf(n.right))))
  {
    SetLeft(n, child);
    hide NodeStruct.Valid;
    UpdateDepthOf(n);
  }

  /** A new right child, and the depth that goes with it. */
  method PutRight<T>(n: NodeStruct<T>, child: NodeStruct?<T>)
    requires Sound(child) && Sound(n.left) && n !in Owned(child) && n !in Owned(n.left) && Owned(child) !! Owned(n.left)
    modifies n`right, n`repr, n`model, n`depth
    ensures n.Valid() && n.repr == {n} + old(Owned(n.left)) + old(Owned(child))
    ensures n.model == UpdateDepth(Node(old(ModelOf(n.left)), n.value, old(n.depth), old(ModelOf(child))))
  {
    SetRight(n, child);
    hide NodeStruct.Valid;
    UpdateDepthOf(n);
  }

  /** The first half of the rotation: the inner subtree changes its parent, and the left child of p may move up. */
  method DetachLeft<T>(p: NodeStruct<T>) returns (r: NodeStruct<T>)
    requires p.Valid() && p.left != null
    modifies p
    ensures r == old(p.left) && p.Valid() && Sound(r.left) && r !in p.repr && r !in Owned(r.left)
    ensures p.repr !! Owned(r.left)
    ensures {r} + Owned(r.left) + p.repr == old(p.repr)
    ensures UpdateDepth(Node(ModelOf(r.left), r.value, r.depth, p.model)) == Rotate(old(p.model), Left, Right)
  {
    Unfold(p);
    Unfold(p.left);
    hide NodeStruct.Valid, UpdateDepth;
    r := p.left;
    PutLeft(p, r.right);
  }

  method LiftLeft<T>(p: NodeStruct<T>) returns (r: NodeStruct<T>)
    requires p.Valid() && p.left != null
    modifies p, p.left
    ensures r.Valid() && r.repr == old(p.repr) && r.model == Rotate(old(p.model), Left, Right)
  {
    hide NodeStruct.Valid, UpdateDepth, Rotate;
    r := DetachLeft(p);
    PutRight(r, p);
  }

  /** The first half of the rotation: the inner subtree changes its parent, and the right child of p may move up. */
  method DetachRight<T>(p: NodeStruct<T>) returns (r: NodeStruct<T>)
    requires p.Valid() && p.right != null
    modifies p
    ensures r == old(p.right) && p.Valid() && Sound(r.right) && r !in p.repr && r !in Owned(r.right)
    ensures p.repr !! Owned(r.right)
    ensures {r} + Owned(r.right) + p.repr == old(p.repr)
    ensures UpdateDepth(Node(p.model, r.value, r.depth, ModelOf(r.right))) == Rotate(old(p.model), Right, Left)
  {
    Unfold(p);
    Unfold(p.right);
    hide NodeStruct.Valid, UpdateDepth;
    r := p.right;
    PutRight(p, r.left);
  }

  method LiftRight<T>(p: NodeStruct<T>) returns (r: NodeStruct<T>)
    requires p.Valid() && p.right != null
    modifies p, p.right
    ensures r.Valid() && r.repr == old(p.repr) && r.model == Rotate(old(p.model), Right, Left)
  {
    hide NodeStruct.Valid, UpdateDepth, Rotate;
    r := DetachRight(p);
    PutLeft(r, p);
  }

  method RotateNode<T>(root: NodeStruct<T>, A: Side, B: Side) returns (r: NodeStruct<T>)
    requires root.Valid() && A != B && root.Child(A) != null
    modifies root, root.Child(A)
    ensures r.Valid() && r.repr == old(root.repr)
    ensures r.model == Rotate(old(root.model), A, B)
  {
    if A.Left? {
      r := LiftLeft(root);
    } else {
      r := LiftRight(root);
    }
  }

  /** The shallow form of the invariant check. */
  predicate Balanced<T>(n: NodeStruct<T>)
    reads n, n.left, n.right
  {
    var l, r := DepthOf(n.left), DepthOf(n.right);
    !(l > r + 1 || r > l + 1)
  }

  /** The inner rotation of a double rotation, on the child on side `A`. */
  method RotateChild<T>(root: NodeStruct<T>, A: Side, B: Side)
    requires root.Valid() && A != B && root.Child(A) != null && root.Child(A).Child(B) != null
    requires root.model.Child(A).Node? && root.model.Child(A).Child(B).Node?
    modifies root, root.Child(A), root.Child(A).Child(B)
    ensures root.Valid() && root.repr == old(root.repr) && root.Child(A) != null
    ensures root.model == old(root.model).WithChild(A, Rotate(old(root.model).Child(A), B, A))
  {
    Unfold(root);
    hide NodeStruct.Valid;
    var up := RotateNode(root.Child(A), B, A);
    if A.Left? {
      SetLeft(root, up);
    } else {
      SetRight(root, up);
    }
  }

  method Fix<T>(root: NodeStruct<T>) returns (r: NodeStruct<T>)
    requires root.Valid() && AlmostAvl(root.model)
    modifies root.repr
    ensures r.Valid() && r.repr == old(root.repr) && r.model == FixInvariant(old(root.model))
  {
    ghost var t := root.model;
    Unfold(root);
    FixBalances(t);
    AvlPassesCheck(FixInvariant(t), 2);
    hide NodeStruct.Valid;
    if Balanced(root) {
      return root;
    }
    var l, d := DepthOf(root.left), DepthOf(root.right);
    var A := if l > d then Left else Right;
    var B := if l > d then Right else Left;
    var up := root.Child(A);
    Unfold(up);
    if DepthOf(up.Child(A)) < DepthOf(up.Child(B)) {
      RotateChild(root, A, B);
    }
    r := RotateNode(root, A, B);
    assert CheckInvariant(r.model, 2);
  }

  /** update_depth and fix_invariant after a child was replaced. */
  method Rebalance<T>(root: NodeStruct<T>) returns (r: NodeStruct<T>)
    requires root.Valid() && AlmostAvl(UpdateDepth(root.model))
    modifies root.repr
    ensures r.Valid() && r.repr == old(root.repr) && r.model == FixInvariant(UpdateDepth(old(root.model)))
  {
    UpdateDepthOf(root);
    r := Fix(root);
  }

  method InsertInto<T>(cmp: Order<T>, root: NodeStruct?<T>, value: T) returns (r: NodeStruct<T>)
    requires Sound(root) && Avl(ModelOf(root))
    modifies Owned(root)
    ensures r.Valid() && fresh(r.repr - old(Owned(root)))
    ensures r.model == Insert(cmp, old(ModelOf(root)), value)
    decreases Owned(root), 1
  {
    if root == null {
      r := new NodeStruct(value);
      return;
    }
    Unfold(root);
    var c := cmp(root.value, value);
    if c == 0 {
      return root;
    }
    if c > 0 {
      r := InsertLeft(cmp, root, value);
    } else {
      r := InsertRight(cmp, root, value);
    }
  }

  method InsertLeft<T>(cmp: Order<T>, root: NodeStruct<T>, value: T) returns (r: NodeStruct<T>)
    requires root.Valid() && Avl(root.model) && cmp(root.value, value) > 0
    modifies root.repr
    ensures r.Valid() && fresh(r.repr - old(root.repr))
    ensures r.model == Insert(cmp, old(root.model), value)
    decreases root.repr, 0
  {
    Unfold(root);
    InsertReady(cmp, root.model, value);
    hide NodeStruct.Valid, Insert, FixInvariant, AlmostAvl, Avl;
    var child := InsertInto(cmp, root.left, value);
    SetLeft(root, child);
    r := Rebalance(root);
  }

  method InsertRight<T>(cmp: Order<T>, root: NodeStruct<T>, value: T) returns (r: NodeStruct<T>)
    requires root.Valid() && Avl(root.model) && cmp(root.value, value) < 0
    modifies root.repr
    ensures r.Valid() && fresh(r.repr - old(root.repr))
    ensures r.model == Insert(cmp, old(root.model), value)
    decreases root.repr, 0
  {
    Unfold(root);
    InsertReady(cmp, root.model, value);
    hide NodeStruct.Valid, Insert, FixInvariant, AlmostAvl, Avl;
    var child := InsertInto(cmp, root.right, value);
    SetRight(root, child);
    r := Rebalance(root);
  }

  lemma {:induction false} InsertReady<T>(cmp: Order<T>, t: Tree<T>, value: T)
    requires Avl(t) && t.Node?
    ensures Avl(t.left) && Avl(t.right)
    ensures cmp(t.value, value) > 0 ==>
      var t' := t.(left := Insert(cmp, t.left, value));
      AlmostAvl(UpdateDepth(t')) && Insert(cmp, t, value) == FixInvariant(UpdateDepth(t'))
    ensures cmp(t.value, value) < 0 ==>
      var t' := t.(right := Insert(cmp, t.right, value));
      AlmostAvl(UpdateDepth(t')) && Insert(cmp, t, value) == FixInvariant(UpdateDepth(t'))
  {
    AvlDepth(t.left);
    AvlDepth(t.right);
    AvlDepth(Insert(cmp, t.left, value));
    AvlDepth(Insert(cmp, t.right, value));
  }

  method StealFirstFrom<T>(root: NodeStruct<T>) returns (out: T, r: NodeStruct?<T>)
    requires root.Valid() && Avl(root.model)
    modifies root.repr
    ensures Sound(r) && Owned(r) <= old(root.repr)
    ensures (out, ModelOf(r)) == StealFirst(old(root.model))
    decreases root.repr
  {
    Unfold(root);
    ghost var t := root.model;
    if root.left == null {
      return root.value, root.right;
    }
    Unfold(root.left);
    StealReady(t);
    hide NodeStruct.Valid, StealFirst, FixInvariant, AlmostAvl, Avl;
    var child;
    out, child := StealFirstFrom(root.left);
    SetLeft(root, child);
    r := Rebalance(root);
  }

  lemma {:induction false} StealReady<T>(t: Tree<T>)
    requires Avl(t) && t.Node? && t.left.Node?
    ensures Avl(t.left)
    ensures var first := StealFirst(t.left);
            var t' := t.(left := first.1);
            AlmostAvl(UpdateDepth(t')) && StealFirst(t) == (first.0, FixInvariant(UpdateDepth(t')))
  {
    AvlDepth(t.right);
    AvlDepth(StealFirst(t.left).1);
  }

  method EraseFrom<T>(cmp: Order<T>, root: NodeStruct?<T>, value: T) returns (r: NodeStruct?<T>)
    requires Sound(root) && Avl(ModelOf(root))
    modifies Owned(root)
    ensures Sound(r) && Owned(r) <= old(Owned(root))
    ensures ModelOf(r) == Erase(cmp, old(ModelOf(root)), value)
    decreases Owned(root), 1
  {
    if root == null {
      return null;
    }
    Unfold(root);
    var c := cmp(root.value, value);
    if c == 0 {
      if root.left == null {
        return root.right;
      }
      if root.right == null {
        return root.left;
      }
      r := EraseHere(cmp, root, value);
    } else if c > 0 {
      r := EraseLeft(cmp, root, value);
    } else {
      r := EraseRight(cmp, root, value);
    }
  }

  method EraseHere<T>(cmp: Order<T>, root: NodeStruct<T>, value: T) returns (r: NodeStruct?<T>)
    requires root.Valid() && Avl(root.model) && cmp(root.value, value) == 0 && root.left != null && root.right != null
    modifies root.repr
    ensures Sound(r) && Owned(r) <= old(root.repr)
    ensures ModelOf(r) == Erase(cmp, old(root.model), value)
    decreases root.repr, 0
  {
    Unfold(root);
    EraseReady(cmp, root.model, value);
    hide NodeStruct.Valid, Erase, FixInvariant, AlmostAvl, Avl;
    var first, child := StealFirstFrom(root.right);
    SetValue(root, first, child);
    r := Rebalance(root);
  }

  method EraseLeft<T>(cmp: Order<T>, root: NodeStruct<T>, value: T) returns (r: NodeStruct?<T>)
    requires root.Valid() && Avl(root.model) && cmp(root.value, value) > 0
    modifies root.repr
    ensures Sound(r) && Owned(r) <= old(root.repr)
    ensures ModelOf(r) == Erase(cmp, old(root.model), value)
    decreases root.repr, 0
  {
    Unfold(root);
    EraseReady(cmp, root.model, value);
    hide NodeStruct.Valid, Erase, FixInvariant, AlmostAvl, Avl;
    var child := EraseFrom(cmp, root.left, value);
    SetLeft(root, child);
    r := Rebalance(root);
  }

  method EraseRight<T>(cmp: Order<T>, root: NodeStruct<T>, value: T) returns (r: NodeStruct?<T>)
    requires root.Valid() && Avl(root.model) && cmp(root.value, value) < 0
    modifies root.repr
    ensures Sound(r) && Owned(r) <= old(root.repr)
    ensures ModelOf(r) == Erase(cmp, old(root.model), value)
    decreases root.repr, 0
  {
    Unfold(root);
    EraseReady(cmp, root.model, value);
    hide NodeStruct.Valid, Erase, FixInvariant, AlmostAvl, Avl;
    var child := EraseFrom(cmp, root.right, value);
    SetRight(root, child);
    r := Rebalance(root);
  }

  /** The stolen value becomes the root's, the rest its right child. */
  method SetValue<T>(n: NodeStruct<T>, value: T, child: NodeStruct?<T>)
    requires Sound(child) && Sound(n.left) && n !in Owned(child) && n !in Owned(n.left) && Owned(child) !! Owned(n.left)
    modifies n`value, n`right, n`repr, n`model
    ensures n.Valid() && n.repr == {n} + old(Owned(n.left)) + old(Owned(child))
    ensures n.model == Node(old(ModelOf(n.left)), value, n.depth, old(ModelOf(child)))
  {
    n.value := value;
    SetRight(n, child);
  }

  lemma {:induction false} EraseReady<T>(cmp: Order<T>, t: Tree<T>, value: T)
    requires Avl(t) && t.Node?
    requires cmp(t.value, value) == 0 ==> t.left.Node? && t.right.Node?
    ensures Avl(t.left) && Avl(t.right)
    ensures var t' :=
              if cmp(t.value, value) == 0 then t.(value := StealFirst(t.right).0, right := StealFirst(t.right).1)
                      else if cmp(t.value, value) > 0 then t.(left := Erase(cmp, t.left, value))
                      else t.(right := Erase(cmp, t.right, value));
            AlmostAvl(UpdateDepth(t')) && Erase(cmp, t, value) == FixInvariant(UpdateDepth(t'))
  {
    AvlDepth(t.left);
    AvlDepth(t.right);
    AvlDepth(Erase(cmp, t.left, value));
    AvlDepth(Erase(cmp, t.right, value));
    if cmp(t.value, value) == 0 {
      AvlDepth(StealFirst(t.right).1);
    }
  }

  // ---- The tree object ----

  class AvlTree<T(!new)> {
    const cmp: Order<T>
    var root: NodeStruct?<T>

    ghost predicate Valid()
      reads this, root, Owned(root)
    {
      WeakOrder(cmp) && Sound(root) && Avl(ModelOf(root)) && Ordered(cmp, ModelOf(root))
    }

    constructor (cmp: Order<T>)
      requires WeakOrder(cmp)
      ensures Valid() && this.cmp == cmp && root == null
    {
      this.cmp := cmp;
      root := null;
    }

    method Insert(value: T)
      requires Valid()
      modifies this, Owned(root)
      ensures Valid() && fresh(Owned(root) - old(Owned(root)))
      ensures ModelOf(root) == AvlSpec.Insert(cmp, old(ModelOf(root)), value)
      ensures forall x :: Has(ModelOf(root), x) <==>
        old(Has(ModelOf(root), x)) || (x == value && !old(HasLike(cmp, ModelOf(root), value)))
    {
      InsertContents(cmp, ModelOf(root), value);
      root := InsertInto(cmp, root, value);
    }

    method Erase(value: T)
      requires Valid()
      modifies this, Owned(root)
      ensures Valid() && Owned(root) <= old(Owned(root))
      ensures ModelOf(root) == AvlSpec.Erase(cmp, old(ModelOf(root)), value)
      ensures forall x :: Has(ModelOf(root), x) <==> old(Has(ModelOf(root), x)) && cmp(x, value) != 0
    {
      EraseContents(cmp, ModelOf(root), value);
      root := EraseFrom(cmp, root, value);
    }
  }

  /** A whole run of operations on one tree object: what it holds is what the run on values gives. */
  method Perform<T(!new)>(cmp: Order<T>, ops: seq<Op<T>>) returns (t: AvlTree<T>)
    requires WeakOrder(cmp)
    ensures fresh(t) && t.Valid() && ModelOf(t.root) == Run(cmp, ops)
    ensures forall x :: Has(ModelOf(t.root), x) <==> Stored(cmp, ops, x)
    ensures forall x :: HasLike(cmp, ModelOf(t.root), x) <==> Present(cmp, ops, x)
  {
    t := new AvlTree(cmp);
    for i := 0 to |ops|
      invariant fresh(t) && fresh(Owned(t.root)) && t.Valid() && t.cmp == cmp && ModelOf(t.root) == Run(cmp, ops[..i])
    {
      assert ops[..i + 1][..i] == ops[..i];
      match ops[i]
      case Put(v) => t.Insert(v);
      case Drop(v) => t.Erase(v);
    }
    assert ops[..|ops|] == ops;
    RunContents(cmp, ops);
  }
}
