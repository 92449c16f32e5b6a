/** The left-leaning red-black tree over mutable nodes (pkg/llrb/llrb.go). Parent links are
    written by Floor alone and are otherwise stale, so nothing here relies on them. */
module Llrb {
  import opened Time
  import T = LlrbTree
  import opened LlrbOrder
  import opened LlrbInvariants

  /** The objects of `t` hold what `t` says, parent links aside. */
  ghost predicate Holds<V>(t: T.Tree<V>)
    reads T.Nodes(t)`key, T.Nodes(t)`value, T.Nodes(t)`left, T.Nodes(t)`right, T.Nodes(t)`isRed
  {
    t.At? ==>
      && t.n.key == t.k && t.n.value == t.v && t.n.isRed == t.red
      && t.n.left == T.Top(t.l) && t.n.right == T.Top(t.r)
      && Holds(t.l) && Holds(t.r)
  }

  /** `node` is the top of `t`. */
  ghost predicate Rooted<V>(node: T.Node?<V>, t: T.Tree<V>)
    reads T.Nodes(t)`key, T.Nodes(t)`value, T.Nodes(t)`left, T.Nodes(t)`right, T.Nodes(t)`isRed
  {
    node == T.Top(t) && T.Distinct(t) && Holds(t)
  }

  lemma {:induction false} NodesAllocated<V>(t: T.Tree<V>)
    ensures allocated(T.Nodes(t))
  {
    if t.At? {
      NodesAllocated(t.l);
      NodesAllocated(t.r);
    }
  }

  /** What being rooted means one level down. */
  lemma Opened<V>(t: T.Tree<V>, c: T.Tree<V>)
    requires t.At? && Rooted(t.n, t) && c in {t.l, t.r}
    ensures Rooted(T.Top(c), c)
    ensures c.At? ==> T.Nodes(c) == T.Nodes(c.l) + {c.n} + T.Nodes(c.r)
  {
  }

  predicate IsRed<V>(node: T.Node?<V>)
    reads node
  {
    node != null && node.isRed
  }

  /** A node whose left child is about to be replaced by the tree `l`. */
  ghost predicate TakesLeft<V>(node: T.Node<V>, t: T.Tree<V>, l: T.Tree<V>)
    reads node, T.Nodes(t), T.Nodes(l)
  {
    && t.At? && node == t.n && node.key == t.k && node.value == t.v && node.isRed == t.red && node.right == T.Top(t.r)
    && Rooted(T.Top(t.r), t.r) && node !in T.Nodes(l) && node !in T.Nodes(t.r) && T.Nodes(l) !! T.Nodes(t.r)
  }

  ghost predicate TakesRight<V>(node: T.Node<V>, t: T.Tree<V>, r: T.Tree<V>)
    reads node, T.Nodes(t), T.Nodes(r)
  {
    && t.At? && node == t.n && node.key == t.k && node.value == t.v && node.isRed == t.red && node.left == T.Top(t.l)
    && Rooted(T.Top(t.l), t.l) && node !in T.Nodes(r) && node !in T.Nodes(t.l) && T.Nodes(t.l) !! T.Nodes(r)
  }

  method SetLeft<V>(node: T.Node<V>, left: T.Node?<V>, ghost t: T.Tree<V>, ghost l: T.Tree<V>)
    requires Rooted(left, l) && TakesLeft(node, t, l)
    modifies node`left
    ensures Rooted(node, t.(l := l)) && T.Nodes(t.(l := l)) == T.Nodes(l) + {node} + T.Nodes(t.r)
  {
    node.left := left;
  }

  method SetRight<V>(node: T.Node<V>, right: T.Node?<V>, ghost t: T.Tree<V>, ghost r: T.Tree<V>)
    requires Rooted(right, r) && TakesRight(node, t, r)
    modifies node`right
    ensures Rooted(node, t.(r := r)) && T.Nodes(t.(r := r)) == T.Nodes(t.l) + {node} + T.Nodes(r)
  {
    node.right := right;
  }

  method RotateLeft<V>(node: T.Node<V>, ghost t: T.Tree<V>) returns (right: T.Node<V>, ghost t': T.Tree<V>)
    requires Rooted(node, t) && t.r.At?
    modifies node`right, node`isRed, t.r.n`left, t.r.n`isRed
    ensures t' == T.RotateLeft(t) && Rooted(right, t') && T.Nodes(t') == T.Nodes(t)
  {
    Opened(t, t.r);
    right := node.right;
    node.right := right.left;
    right.left := node;
    right.isRed := right.left.isRed;
    right.left.isRed := true;
    t' := T.RotateLeft(t);
  }

  method RotateRight<V>(node: T.Node<V>, ghost t: T.Tree<V>) returns (left: T.Node<V>, ghost t': T.Tree<V>)
    requires Rooted(node, t) && t.l.At?
    modifies node`left, node`isRed, t.l.n`right, t.l.n`isRed
    ensures t' == T.RotateRight(t) && Rooted(left, t') && T.Nodes(t') == T.Nodes(t)
  {
    Opened(t, t.l);
    left := node.left;
    node.left := left.right;
    left.right := node;
    left.isRed := left.right.isRed;
    left.right.isRed := true;
    t' := T.RotateRight(t);
  }

  method FlipColors<V>(node: T.Node<V>, ghost t: T.Tree<V>) returns (ghost t': T.Tree<V>)
    requires Rooted(node, t) && t.l.At? && t.r.At?
    modifies node`isRed, t.l.n`isRed, t.r.n`isRed
    ensures t' == T.FlipColors(t) && Rooted(node, t') && T.Nodes(t') == T.Nodes(t)
  {
    Opened(t, t.l);
    Opened(t, t.r);
    node.isRed := !node.isRed;
    node.left.isRed := !node.left.isRed;
    node.right.isRed := !node.right.isRed;
    t' := T.FlipColors(t);
    assert Rooted(node.left, t'.l) && Rooted(node.right, t'.r);
  }

  method RotateRightIfTwoReds<V>(node: T.Node<V>, ghost t: T.Tree<V>) returns (r: T.Node<V>, ghost t': T.Tree<V>)
    requires Rooted(node, t)
    modifies T.Nodes(t)`left, T.Nodes(t)`right, T.Nodes(t)`isRed
    ensures t' == T.RotateRightIfTwoReds(t) && Rooted(r, t') && T.Nodes(t') == T.Nodes(t)
  {
    r, t' := node, t;
    Opened(t, t.l);
    if t.l.At? {
      Opened(t.l, t.l.l);
    }
    if IsRed(node.left) && IsRed(node.left.left) {
      r, t' := RotateRight(node, t);
    }
  }

  method FlipIfBothRed<V>(node: T.Node<V>, ghost t: T.Tree<V>) returns (ghost t': T.Tree<V>)
    requires Rooted(node, t)
    modifies T.Nodes(t)`isRed
    ensures t' == T.FlipIfBothRed(t) && Rooted(node, t') && T.Nodes(t') == T.Nodes(t)
  {
    t' := t;
    Opened(t, t.l);
    Opened(t, t.r);
    if IsRed(node.left) && IsRed(node.right) {
      t' := FlipColors(node, t);
    }
  }

  /** The repairs at the end of put. */
  method Balance<V>(node: T.Node<V>, ghost t: T.Tree<V>) returns (r: T.Node<V>, ghost t': T.Tree<V>)
    requires Rooted(node, t)
    modifies T.Nodes(t)`left, T.Nodes(t)`right, T.Nodes(t)`isRed
    ensures t' == T.Balance(t) && Rooted(r, t') && T.Nodes(t') == T.Nodes(t)
  {
    r, t' := node, t;
    Opened(t, t.l);
    Opened(t, t.r);
    if IsRed(node.right) && !IsRed(node.left) {
      r, t' := RotateLeft(node, t);
    }
    r, t' := RotateRightIfTwoReds(r, t');
    t' := FlipIfBothRed(r, t');
  }

  method FixUp<V>(node: T.Node<V>, ghost t: T.Tree<V>) returns (r: T.Node<V>, ghost t': T.Tree<V>)
    requires Rooted(node, t)
    modifies T.Nodes(t)`left, T.Nodes(t)`right, T.Nodes(t)`isRed
    ensures t' == T.FixUp(t) && Rooted(r, t') && T.Nodes(t') == T.Nodes(t)
  {
    r, t' := node, t;
    Opened(t, t.r);
    if IsRed(node.right) {
      r, t' := RotateLeft(node, t);
    }
    r, t' := RotateRightIfTwoReds(r, t');
    t' := FlipIfBothRed(r, t');
  }

  method RotateRightChild<V>(node: T.Node<V>, ghost t: T.Tree<V>) returns (ghost t': T.Tree<V>)
    requires Rooted(node, t) && t.r.At? && t.r.l.At?
    modifies T.Nodes(t)`left, T.Nodes(t)`right, T.Nodes(t)`isRed
    ensures t' == t.(r := T.RotateRight(t.r)) && Rooted(node, t') && T.Nodes(t') == T.Nodes(t)
  {
    Opened(t, t.l);
    Opened(t, t.r);
    NodesAllocated(t.l);
    var right, r := RotateRight(node.right, t.r);
    node.right := right;
    t' := t.(r := r);
  }

  method MoveRedLeft<V>(node: T.Node<V>, ghost t: T.Tree<V>) returns (r: T.Node<V>, ghost t': T.Tree<V>)
    requires Rooted(node, t) && t.l.At? && t.r.At?
    modifies T.Nodes(t)`left, T.Nodes(t)`right, T.Nodes(t)`isRed
    ensures t' == T.MoveRedLeft(t) && Rooted(r, t') && T.Nodes(t') == T.Nodes(t)
  {
    ghost var f := FlipColors(node, t);
    r, t' := node, f;
    Opened(f, f.r);
    Opened(f.r, f.r.l);
    if IsRed(node.right.left) {
      t' := RotateRightChild(node, f);
      r, t' := RotateLeft(node, t');
      t' := FlipColors(r, t');
    }
  }

  method MoveRedRight<V>(node: T.Node<V>, ghost t: T.Tree<V>) returns (r: T.Node<V>, ghost t': T.Tree<V>)
    requires Rooted(node, t) && t.l.At? && t.r.At?
    modifies T.Nodes(t)`left, T.Nodes(t)`right, T.Nodes(t)`isRed
    ensures t' == T.MoveRedRight(t) && Rooted(r, t') && T.Nodes(t') == T.Nodes(t)
  {
    ghost var f := FlipColors(node, t);
    r, t' := node, f;
    Opened(f, f.l);
    Opened(f.l, f.l.l);
    if IsRed(node.left.left) {
      r, t' := RotateRight(node, f);
      t' := FlipColors(r, t');
    }
  }

  method Min<V>(node: T.Node<V>, ghost t: T.Tree<V>) returns (r: T.Node<V>)
    requires Rooted(node, t)
    ensures r == T.Min(t).n && r.key == T.Min(t).k && r.value == T.Min(t).v
    decreases t
  {
    if node.left == null {
      return node;
    }
    r := Min(node.left, t.l);
  }

  /** The test before a removal goes left. */
  method BorrowLeft<V>(node: T.Node<V>, ghost t: T.Tree<V>) returns (r: T.Node<V>, ghost t': T.Tree<V>)
    requires Rooted(node, t) && Ready(t) && t.l.At?
    modifies T.Nodes(t)`left, T.Nodes(t)`right, T.Nodes(t)`isRed
    ensures t' == T.BorrowLeft(t) && Rooted(r, t') && T.Nodes(t') == T.Nodes(t)
    ensures t'.At? && Ready(t'.l) && T.Count(t'.l) < T.Count(t)
  {
    Opened(t, t.l);
    Opened(t.l, t.l.l);
    BorrowLeftReady(t);
    T.BorrowsCount(t);
    r, t' := node, t;
    if !IsRed(node.left) && !IsRed(node.left.left) {
      T.Parts(t.l);
      T.Parts(t.r);
      r, t' := MoveRedLeft(node, t);
    }
  }

  /** The nodes of `t` that are gone from `t'` have no left child. */
  ghost predicate Dropped<V>(t: T.Tree<V>, t': T.Tree<V>)
    reads T.Nodes(t)
  {
    T.Nodes(t') <= T.Nodes(t) && forall n :: n in T.Nodes(t) && n !in T.Nodes(t') ==> n.left == null
  }

  method RemoveMin<V>(node: T.Node<V>, ghost t: T.Tree<V>) returns (r: T.Node?<V>, ghost t': T.Tree<V>)
    requires Rooted(node, t) && Ready(t)
    modifies T.Nodes(t)`left, T.Nodes(t)`right, T.Nodes(t)`isRed
    ensures t' == T.RemoveMin(t) && Rooted(r, t') && Dropped(t, t')
    decreases T.Count(t), 0
  {
    Opened(t, t.l);
    if node.left == null {
      T.Parts(t.r);
      return null, T.Nil;
    }
    NodesAllocated(t);
    r, t' := BorrowLeft(node, t);
    r, t' := RemoveMinLeft(r, t');
    r, t' := FixUp(r, t');
  }

  /** The recursive step of removeMin. */
  method RemoveMinLeft<V>(node: T.Node<V>, ghost t: T.Tree<V>) returns (r: T.Node<V>, ghost t': T.Tree<V>)
    requires Rooted(node, t) && Ready(t.l)
    modifies T.Nodes(t)`left, T.Nodes(t)`right, T.Nodes(t)`isRed
    ensures t' == t.(l := T.RemoveMin(t.l)) && Rooted(r, t') && Dropped(t, t')
    decreases T.Count(t.l), 1
  {
    Opened(t, t.l);
    Opened(t, t.r);
    NodesAllocated(t);
    NodesAllocated(t.r);
    var left;
    ghost var l;
    left, l := RemoveMin(node.left, t.l);
    SetLeft(node, left, t, l);
    r, t' := node, t.(l := l);
  }

  method LeanRight<V>(node: T.Node<V>, ghost t: T.Tree<V>) returns (r: T.Node<V>, ghost t': T.Tree<V>)
    requires Rooted(node, t)
    modifies T.Nodes(t)`left, T.Nodes(t)`right, T.Nodes(t)`isRed
    ensures t' == T.LeanRight(t) && Rooted(r, t') && T.Nodes(t') == T.Nodes(t)
  {
    r, t' := node, t;
    Opened(t, t.l);
    if IsRed(node.left) {
      r, t' := RotateRight(node, t);
    }
  }

  /** The test before a removal goes right. */
  method BorrowRight<V>(node: T.Node<V>, ghost t: T.Tree<V>) returns (r: T.Node<V>, ghost t': T.Tree<V>)
    requires Rooted(node, t) && t.r.At?
    requires !t.r.red && !T.HasRedLeft(t.r) ==> t.l.At?
    modifies T.Nodes(t)`left, T.Nodes(t)`right, T.Nodes(t)`isRed
    ensures t' == T.BorrowRight(t) && Rooted(r, t') && T.Nodes(t') == T.Nodes(t)
  {
    r, t' := node, t;
    Opened(t, t.r);
    Opened(t.r, t.r.l);
    if !IsRed(node.right) && !IsRed(node.right.left) {
      r, t' := MoveRedRight(node, t);
    }
  }

  method RemoveMinRight<V>(node: T.Node<V>, ghost t: T.Tree<V>) returns (ghost t': T.Tree<V>)
    requires Rooted(node, t) && Ready(t.r)
    modifies T.Nodes(t)`left, T.Nodes(t)`right, T.Nodes(t)`isRed
    ensures t' == t.(r := T.RemoveMin(t.r)) && Rooted(node, t') && Dropped(t, t')
  {
    Opened(t, t.l);
    Opened(t, t.r);
    NodesAllocated(t.l);
    var right;
    ghost var r;
    right, r := RemoveMin(node.right, t.r);
    node.right := right;
    t' := t.(r := r);
  }

  method Overwrite<V>(node: T.Node<V>, key: NodeID, value: V, ghost t: T.Tree<V>) returns (ghost t': T.Tree<V>)
    requires Rooted(node, t) && t.At?
    modifies node`key, node`value
    ensures t' == t.(k := key, v := value) && Rooted(node, t') && T.Nodes(t') == T.Nodes(t)
  {
    Opened(t, t.l);
    Opened(t, t.r);
    node.value := value;
    node.key := key;
    t' := t.(k := key, v := value);
  }

  /** The binding of `node` is replaced by the least one on its right. */
  method TakeMin<V>(node: T.Node<V>, ghost t: T.Tree<V>) returns (ghost t': T.Tree<V>)
    requires Rooted(node, t) && Ready(t.r)
    modifies T.Nodes(t)`key, T.Nodes(t)`value, T.Nodes(t)`left, T.Nodes(t)`right, T.Nodes(t)`isRed
    ensures t' == t.(k := T.Min(t.r).k, v := T.Min(t.r).v, r := T.RemoveMin(t.r)) && Rooted(node, t') && Dropped(t, t')
  {
    Opened(t, t.r);
    NodesAllocated(t);
    var smallest := Min(node.right, t.r);
    t' := Overwrite(node, smallest.key, smallest.value, t);
    t' := RemoveMinRight(node, t');
  }

  /** What a removal of `k` in `t` asks of it. */
  ghost predicate Removable<V>(t: T.Tree<V>, k: NodeID) {
    (Ready(t) || (Tilted(t) && !Less(k, t.k))) && T.Ordered(t) && k in T.Map(t)
  }

  lemma DropSize<V>(m: map<NodeID, V>, k: NodeID)
    requires k in m
    ensures |m - {k}| == |m| - 1
  {
    var rest := m - {k};
    assert m == rest[k := m[k]];
  }

  /** What Remove does to a valid tree, before the root becomes black. */
  lemma RemoveFromRoot<V>(t: T.Tree<V>, key: NodeID)
    requires T.Balanced(t) && T.Leaning(t) && T.Ordered(t) && !T.IsRed(t) && key in T.Map(t)
    ensures Removable(Reddened(t), key)
    ensures var r := T.Remove(Reddened(t), key);
            && T.Ordered(r) && T.Balanced(r) && T.LeaningBelow(r)
            && T.Map(r) == T.Map(t) - {key} && |T.Map(r)| == |T.Map(t)| - 1
  {
    RedRoot(t);
    RemoveKeeps(Reddened(t), key);
    DropSize(T.Map(t), key);
  }

  /** Parent links lead from `n` up the path. */
  ghost predicate Parents<V>(path: Path<V>, n: T.Node<V>)
    reads {n} + PathNodes(path)`parent
  {
    path.Here? || (path.p.At? && n.parent == path.p.n && Parents(path.up, path.p.n))
  }

  lemma {:induction false} LeadsRooted<V>(path: Path<V>, t: T.Tree<V>, root: T.Tree<V>, key: NodeID)
    requires Rooted(T.Top(root), root) && Leads(path, t, root, key)
    ensures Rooted(T.Top(t), t)
    ensures !path.Here? ==> path.p.At? && Rooted(path.p.n, path.p)
    decreases path
  {
    if !path.Here? {
      LeadsRooted(path.up, path.p, root, key);
    }
  }

  /** A node of a tree links downwards only, never back to the top. */
  lemma {:induction false} LinksWithin<V>(t: T.Tree<V>, n: T.Node<V>)
    requires t.At? && Rooted(t.n, t) && n in T.Nodes(t)
    ensures n.left == null || (n.left in T.Nodes(t) && n.left != t.n)
  {
    if n in T.Nodes(t.l) {
      LinksWithin(t.l, n);
    } else if n in T.Nodes(t.r) {
      LinksWithin(t.r, n);
    }
  }

  /** A node below another one is not the root. */
  lemma {:induction false} LinkedRoot<V>(path: Path<V>, t: T.Tree<V>, root: T.Tree<V>, key: NodeID, child: T.Node<V>)
    requires Leads(path, t, root, key) && T.Distinct(root) && t.At? && child in {T.Top(t.l), T.Top(t.r)}
    ensures root.At? && child != root.n && child in T.Nodes(root)
    decreases path
  {
    if !path.Here? {
      LinkedRootUp(path.up, path.p, root, key, child);
    }
  }

  lemma {:induction false} LinkedRootUp<V>(path: Path<V>, t: T.Tree<V>, root: T.Tree<V>, key: NodeID, child: T.Node<V>)
    requires Leads(path, t, root, key) && T.Distinct(root) && t.At? && child in T.Nodes(t.l) + T.Nodes(t.r)
    ensures root.At? && child != root.n && child in T.Nodes(root)
    decreases path
  {
    if !path.Here? {
      LinkedRootUp(path.up, path.p, root, key, child);
    }
  }

  lemma ChildOf<V>(path: Path<V>, t: T.Tree<V>, root: T.Tree<V>, key: NodeID, child: T.Node<V>)
    requires Leads(path, t, root, key) && T.Distinct(root) && T.Ordered(root) && t.At?
            && child in {T.Top(t.l), T.Top(t.r)}
    ensures root.At? && child != root.n && child in T.Nodes(root) && t.n in T.Nodes(root)
    ensures child != t.n && child !in PathNodes(path)
  {
    LinkedRoot(path, t, root, key, child);
    LeadsWithin(path, t, root, key);
  }

  datatype FloorResult<V> = Nothing | Found(k: NodeID, v: V) | NilPointer

  class Tree<V> {
    var root: T.Node?<V>
    var size: int

    ghost var tree: T.Tree<V>
    /** The nodes of the tree. */
    ghost var repr: set<T.Node<V>>
    /** The nodes that ever were in the tree: where stale parent links may lead. */
    ghost var ever: set<T.Node<V>>

    /** The tree is what `tree` says, in order, and keeps the three invariants. A parent
        link leads to some node that is or was in the tree, and those that were have no
        left child. */
    ghost predicate Valid()
      reads `root, `size, `tree, `repr, `ever, ever`key, ever`value, ever`left, ever`right, ever`isRed, ever`parent
    {
      && repr == T.Nodes(tree) && repr <= ever && Rooted(root, tree)
      && T.Ordered(tree) && T.Balanced(tree) && T.Leaning(tree) && !T.IsRed(tree)
      && size == |T.Map(tree)|
      && (forall n :: n in ever ==> n.parent == null || n.parent in ever)
      && (forall n :: n in ever && n !in repr ==> n.left == null)
    }

    ghost function Map(): map<NodeID, V>
      reads `tree
    {
      T.Map(tree)
    }

    constructor ()
      ensures Valid() && Map() == map[] && fresh(ever)
    {
      root, size := null, 0;
      tree, repr, ever := T.Nil, {}, {};
    }

    method put(node: T.Node?<V>, key: NodeID, value: V, ghost t: T.Tree<V>)
        returns (r: T.Node<V>, ghost t': T.Tree<V>, ghost x: T.Node<V>)
      requires Rooted(node, t) && T.Ordered(t)
      modifies this`size, T.Nodes(t)`value, T.Nodes(t)`left, T.Nodes(t)`right, T.Nodes(t)`isRed
      ensures t' == T.Put(t, key, value, x) && Rooted(r, t')
      ensures T.Nodes(t') == if key in T.Map(t) then T.Nodes(t) else T.Nodes(t) + {x}
      ensures key !in T.Map(t) ==> fresh(x) && x.parent == null
      ensures size == old(size) + if key in T.Map(t) then 0 else 1
      decreases t
    {
      if node == null {
        size := size + 1;
        r := new T.Node(key, value, true);
        return r, T.Put(t, key, value, r), r;
      }
      LessIsTotalOrder(key, t.k, key);
      PutKeys(t, key);
      Opened(t, t.l);
      Opened(t, t.r);
      NodesAllocated(t);
      r, x := node, node;
      if CompareIDs(key, node.key) < 0 {
        t', x := PutLeft(node, key, value, t);
      } else if CompareIDs(key, node.key) > 0 {
        t', x := PutRight(node, key, value, t);
      } else {
        node.value := value;
        t' := t.(v := value);
      }
      r, t' := Balance(node, t');
    }

    method PutLeft(node: T.Node<V>, key: NodeID, value: V, ghost t: T.Tree<V>)
        returns (ghost t': T.Tree<V>, ghost x: T.Node<V>)
      requires Rooted(node, t) && t.At? && T.Ordered(t)
      modifies this`size, T.Nodes(t)`value, T.Nodes(t)`left, T.Nodes(t)`right, T.Nodes(t)`isRed
      ensures t' == t.(l := T.Put(t.l, key, value, x)) && Rooted(node, t')
      ensures T.Nodes(t') == if key in T.Map(t.l) then T.Nodes(t) else T.Nodes(t) + {x}
      ensures key !in T.Map(t.l) ==> fresh(x) && x.parent == null
      ensures size == old(size) + if key in T.Map(t.l) then 0 else 1
      decreases t, 0
    {
      Opened(t, t.l);
      Opened(t, t.r);
      NodesAllocated(t);
      NodesAllocated(t.r);
      var left;
      ghost var l;
      left, l, x := put(node.left, key, value, t.l);
      SetLeft(node, left, t, l);
      t' := t.(l := l);
    }

    method PutRight(node: T.Node<V>, key: NodeID, value: V, ghost t: T.Tree<V>)
        returns (ghost t': T.Tree<V>, ghost x: T.Node<V>)
      requires Rooted(node, t) && t.At? && T.Ordered(t)
      modifies this`size, T.Nodes(t)`value, T.Nodes(t)`left, T.Nodes(t)`right, T.Nodes(t)`isRed
      ensures t' == t.(r := T.Put(t.r, key, value, x)) && Rooted(node, t')
      ensures T.Nodes(t') == if key in T.Map(t.r) then T.Nodes(t) else T.Nodes(t) + {x}
      ensures key !in T.Map(t.r) ==> fresh(x) && x.parent == null
      ensures size == old(size) + if key in T.Map(t.r) then 0 else 1
      decreases t, 0
    {
      Opened(t, t.l);
      Opened(t, t.r);
      NodesAllocated(t);
      NodesAllocated(t.l);
      var right;
      ghost var r;
      right, r, x := put(node.right, key, value, t.r);
      SetRight(node, right, t, r);
      t' := t.(r := r);
    }

    method remove(node: T.Node<V>, key: NodeID, ghost t: T.Tree<V>) returns (r: T.Node?<V>, ghost t': T.Tree<V>)
      requires Rooted(node, t) && Removable(t, key)
      modifies this`size, T.Nodes(t)`key, T.Nodes(t)`value, T.Nodes(t)`left, T.Nodes(t)`right, T.Nodes(t)`isRed
      ensures t' == T.Remove(t, key) && Rooted(r, t') && Dropped(t, t') && size == old(size) - 1
      decreases T.Count(t), 2
    {
      if CompareIDs(key, node.key) < 0 {
        r, t' := RemoveLeft(node, key, t);
      } else {
        r, t' := RemoveRight(node, key, t);
      }
    }

    method RemoveLeft(node: T.Node<V>, key: NodeID, ghost t: T.Tree<V>) returns (r: T.Node<V>, ghost t': T.Tree<V>)
      requires Rooted(node, t) && Removable(t, key) && Less(key, t.k)
      modifies this`size, T.Nodes(t)`key, T.Nodes(t)`value, T.Nodes(t)`left, T.Nodes(t)`right, T.Nodes(t)`isRed
      ensures t' == T.Remove(t, key) && Rooted(r, t') && Dropped(t, t') && size == old(size) - 1
      decreases T.Count(t), 0
    {
      NodesAllocated(t);
      LeftHasKey(t, key);
      BorrowLeftKey(t, key);
      BorrowSame(t);
      r, t' := BorrowLeft(node, t);
      r, t' := RemoveInLeft(r, key, t');
      r, t' := FixUp(r, t');
    }

    method RemoveRight(node: T.Node<V>, key: NodeID, ghost t: T.Tree<V>) returns (r: T.Node?<V>, ghost t': T.Tree<V>)
      requires Rooted(node, t) && Removable(t, key) && !Less(key, t.k)
      modifies this`size, T.Nodes(t)`key, T.Nodes(t)`value, T.Nodes(t)`left, T.Nodes(t)`right, T.Nodes(t)`isRed
      ensures t' == T.Remove(t, key) && Rooted(r, t') && Dropped(t, t') && size == old(size) - 1
      decreases T.Count(t), 1
    {
      NodesAllocated(t);
      LeanRightKey(t, key);
      r, t' := LeanRight(node, t);
      Opened(t', t'.r);
      if CompareIDs(key, r.key) == 0 && r.right == null {
        size := size - 1;
        RemoveLeaf(t, key);
        return null, T.Nil;
      }
      r, t' := RemoveFurtherRight(r, key, t, t');
    }

    method RemoveFurtherRight(node: T.Node<V>, key: NodeID, ghost t: T.Tree<V>, ghost t1: T.Tree<V>)
        returns (r: T.Node<V>, ghost t': T.Tree<V>)
      requires t1 == T.LeanRight(t) && Rooted(node, t1) && t1.r.At?
      requires Removable(t, key) && !Less(key, t.k)
      modifies this`size, T.Nodes(t1)`key, T.Nodes(t1)`value, T.Nodes(t1)`left, T.Nodes(t1)`right, T.Nodes(t1)`isRed
      ensures t' == T.Remove(t, key) && Rooted(r, t') && Dropped(t1, t') && size == old(size) - 1
      decreases T.Count(t), 0
    {
      NodesAllocated(t1);
      ghost var b := FurtherRight(t, t1, key);
      r, t' := BorrowRight(node, t1);
      r, t' := RemoveInRight(r, key, t');
      r, t' := FixUp(r, t');
    }

    method RemoveInRight(node: T.Node<V>, key: NodeID, ghost t: T.Tree<V>) returns (r: T.Node<V>, ghost t': T.Tree<V>)
      requires Rooted(node, t) && t.At? && T.Ordered(t)
      requires if key == t.k then Ready(t.r) else Removable(t.r, key)
      modifies this`size, T.Nodes(t)`key, T.Nodes(t)`value, T.Nodes(t)`left, T.Nodes(t)`right, T.Nodes(t)`isRed
      ensures Rooted(r, t') && Dropped(t, t') && size == old(size) - 1
      ensures t' == if key == t.k then t.(k := T.Min(t.r).k, v := T.Min(t.r).v, r := T.RemoveMin(t.r))
                    else t.(r := T.Remove(t.r, key))
      decreases T.Count(t.r), 3
    {
      LessIsTotalOrder(key, t.k, key);
      Opened(t, t.l);
      Opened(t, t.r);
      NodesAllocated(t);
      NodesAllocated(t.l);
      r := node;
      if CompareIDs(key, node.key) == 0 {
        size := size - 1;
        t' := TakeMin(node, t);
      } else {
        var right;
        ghost var rt;
        right, rt := remove(node.right, key, t.r);
        SetRight(node, right, t, rt);
        t' := t.(r := rt);
      }
    }

    method RemoveInLeft(node: T.Node<V>, key: NodeID, ghost t: T.Tree<V>) returns (r: T.Node<V>, ghost t': T.Tree<V>)
      requires Rooted(node, t) && Ready(t.l) && T.Ordered(t.l) && key in T.Map(t.l)
      modifies this`size, T.Nodes(t)`key, T.Nodes(t)`value, T.Nodes(t)`left, T.Nodes(t)`right, T.Nodes(t)`isRed
      ensures t' == t.(l := T.Remove(t.l, key)) && Rooted(r, t') && Dropped(t, t') && size == old(size) - 1
      decreases T.Count(t.l), 3
    {
      Opened(t, t.l);
      Opened(t, t.r);
      NodesAllocated(t);
      NodesAllocated(t.r);
      var left;
      ghost var l;
      left, l := remove(node.left, key, t.l);
      SetLeft(node, left, t, l);
      r, t' := node, t.(l := l);
    }

    /** Sets the color of the root. */
    method Paint(red: bool)
      requires root != null && Rooted(root, tree)
      modifies root`isRed, this`tree
      ensures tree == old(tree).(red := red) && Rooted(root, tree) && T.Nodes(tree) == old(T.Nodes(tree))
    {
      Opened(tree, tree.l);
      Opened(tree, tree.r);
      root.isRed := red;
      tree := tree.(red := red);
    }

    /** A tree that Put or Remove has arrived at but for the color of the root. */
    ghost predicate Repainted(t: T.Tree<V>)
      reads this
    {
      tree == t && repr == T.Nodes(t) && T.Ordered(t) && T.Balanced(t) && T.LeaningBelow(t) && size == |T.Map(t)|
    }

    /** Stale links stay harmless: what is said of them in Valid. */
    ghost predicate Stale()
      reads `repr, `ever, ever`left, ever`parent
    {
      && repr <= ever
      && (forall n :: n in ever ==> n.parent == null || n.parent in ever)
      && (forall n :: n in ever && n !in repr ==> n.left == null)
    }

    /** The last step of Put and Remove: the root becomes black. */
    method Blacken()
      requires Repainted(tree) && Rooted(root, tree) && Stale()
      modifies this`tree, repr`isRed
      ensures Valid() && Map() == old(Map()) && repr == old(repr) && ever == old(ever)
    {
      if root != null {
        BlackRoot(tree);
        Paint(false);
      }
    }

    /** Puts the value of the given key. */
    method Put(k: NodeID, v: V) returns (r: V)
      requires Valid()
      modifies this, repr
      ensures Valid() && r == v && Map() == old(Map())[k := v]
      ensures forall n :: n in ever && n !in old(ever) ==> fresh(n)
    {
      ghost var t := tree;
      ghost var x := PutRoot(k, v);
      PutMap(t, k, v, x);
      PutKeepsInvariants(t, k, v, x);
      Blacken();
      r := v;
    }

    /** The recursive part of Put; only the nodes of the tree change, and no parent link. */
    method PutNodes(k: NodeID, v: V) returns (r: T.Node<V>, ghost t: T.Tree<V>, ghost x: T.Node<V>)
      requires Rooted(root, tree) && T.Ordered(tree) && repr == T.Nodes(tree)
      modifies this`size, repr`value, repr`left, repr`right, repr`isRed
      ensures Rooted(r, t) && t == T.Put(tree, k, v, x)
      ensures T.Nodes(t) == if k in T.Map(tree) then repr else repr + {x}
      ensures k !in T.Map(tree) ==> fresh(x) && x.parent == null
      ensures size == old(size) + if k in T.Map(tree) then 0 else 1
      ensures forall n :: n in old(ever) ==> n.parent == old(n.parent) && (n in old(repr) || n.left == old(n.left))
    {
      r, t, x := put(root, k, v, tree);
    }

    method PutRoot(k: NodeID, v: V) returns (ghost x: T.Node<V>)
      requires Valid()
      modifies this, repr`key, repr`value, repr`left, repr`right, repr`isRed
      ensures Rooted(root, tree) && tree == T.Put(old(tree), k, v, x) && repr == T.Nodes(tree)
      ensures size == old(size) + if k in old(Map()) then 0 else 1
      ensures Stale() && old(repr) <= repr && forall n :: n in repr && n !in old(repr) ==> fresh(n)
      ensures forall n :: n in ever && n !in old(ever) ==> fresh(n)
    {
      var r;
      ghost var t;
      r, t, x := PutNodes(k, v);
      SetRoot(r, t);
      assert forall n :: n in ever ==> n in old(ever) || n == x;
      assert forall n :: n in old(ever) ==> n.parent == null || n.parent in old(ever);
    }

    method SetRoot(r: T.Node?<V>, ghost t: T.Tree<V>)
      requires Rooted(r, t)
      modifies this`root, this`tree, this`repr, this`ever
      ensures root == r && tree == t && Rooted(r, t) && repr == T.Nodes(t) && ever == old(ever) + repr
    {
      root, tree, repr := r, t, T.Nodes(t);
      ever := ever + repr;
    }

    /** Removes the value of the given key, which the tree must have. */
    method Remove(key: NodeID)
      requires Valid() && key in Map()
      modifies this, repr
      ensures Valid() && Map() == old(Map()) - {key} && repr <= old(repr) && ever == old(ever)
    {
      RemoveFromRoot(tree, key);
      RemoveReddened(key);
      Blacken();
    }

    /** All of Remove but its last step. */
    method RemoveReddened(key: NodeID)
      requires Rooted(root, tree) && root != null && repr == T.Nodes(tree) && Stale() && Removable(Reddened(tree), key)
      modifies this, repr
      ensures Rooted(root, tree) && tree == T.Remove(Reddened(old(tree)), key) && repr == T.Nodes(tree)
      ensures Stale() && repr <= old(repr) && ever == old(ever) && size == old(size) - 1
    {
      RootReady();
      RemoveRoot(key);
    }

    /** The root is made red unless one of its children is. */
    method RootReady()
      requires root != null && Rooted(root, tree) && repr == T.Nodes(tree) && Stale()
      modifies root`isRed, this`tree
      ensures Stale() && Rooted(root, tree) && repr == T.Nodes(tree) && tree == Reddened(old(tree))
    {
      Opened(tree, tree.l);
      Opened(tree, tree.r);
      if !IsRed(root.left) && !IsRed(root.right) {
        Paint(true);
      }
    }

    method RemoveRoot(key: NodeID)
      requires Rooted(root, tree) && Removable(tree, key) && repr == T.Nodes(tree) && Stale()
      modifies this, repr`key, repr`value, repr`left, repr`right, repr`isRed
      ensures Rooted(root, tree) && tree == T.Remove(old(tree), key) && repr == T.Nodes(tree)
      ensures Stale() && repr <= old(repr) && ever == old(ever) && size == old(size) - 1
    {
      var r;
      ghost var t';
      r, t' := remove(root, key, tree);
      SetRoot(r, t');
    }

    /** Floor has come down to `node`, the top of `t`. */
    ghost predicate Descended(key: NodeID, node: T.Node<V>, t: T.Tree<V>, path: Path<V>)
      reads this, ever, repr, {node} + PathNodes(path)
    {
      Valid() && t.At? && node == t.n && Leads(path, t, tree, key) && Parents(path, node)
    }

    /** One step of Floor: the child learns its parent. */
    method SetParent(child: T.Node<V>, node: T.Node<V>, ghost path: Path<V>)
      requires Valid() && child in repr && node in repr && Parents(path, node)
      requires child != node && child !in PathNodes(path)
      modifies child`parent
      ensures Valid() && Parents(path, node) && child.parent == node
    {
      child.parent := node;
    }

    method StepDown(key: NodeID, node: T.Node<V>, child: T.Node<V>, ghost t: T.Tree<V>, ghost path: Path<V>,
                    ghost t': T.Tree<V>, ghost path': Path<V>)
      requires root != null && Descended(key, node, t, path) && child == T.Top(t') && t' in {t.l, t.r}
      requires !path'.Here? && path'.p == t && path'.up == path && Leads(path', t', tree, key)
      modifies repr`parent
      ensures Descended(key, child, t', path') && root.parent == old(root.parent)
    {
      ChildOf(path, t, tree, key, child);
      SetParent(child, node, path);
    }

    /** What Floor owes: the greatest binding whose key is not above the given one.
        Without such a binding the answer is the stale parent link of the root. */
    ghost predicate Answers(key: NodeID, r: FloorResult<V>)
      requires root != null
      reads this, root, root.parent
    {
      && (forall k :: IsFloor(Map(), key, k) ==> r == Found(k, Map()[k]))
      && (!HasFloor(Map(), key) ==>
            r == if root.parent == null then NilPointer else Found(root.parent.key, root.parent.value))
    }

    method Floor(key: NodeID) returns (r: FloorResult<V>)
      requires Valid()
      modifies repr`parent
      ensures Valid()
      ensures root == null ==> r == Nothing
      ensures root != null ==> Answers(key, r) && root.parent == old(root.parent)
    {
      r := Nothing;
      if root == null {
        return;
      }
      var node: T.Node<V>, done := root, false;
      ghost var t, path := tree, Here;
      while !done
        invariant Valid() && root.parent == old(root.parent)
        invariant if done then Answers(key, r) else Descended(key, node, t, path)
        decreases !done, t
      {
        done, r, node, t, path := FloorStep(key, node, t, path);
      }
    }

    /** One round of the loop of Floor. */
    method FloorStep(key: NodeID, node: T.Node<V>, ghost t: T.Tree<V>, ghost path: Path<V>)
        returns (done: bool, r: FloorResult<V>, node': T.Node<V>, ghost t': T.Tree<V>, ghost path': Path<V>)
      requires root != null && Descended(key, node, t, path)
      modifies repr`parent
      ensures Valid() && root.parent == old(root.parent)
      ensures done ==> Answers(key, r) && t' == t
      ensures !done ==> Descended(key, node', t', path') && t' < t
    {
      LeadsRooted(path, t, tree, key);
      LessIsTotalOrder(key, node.key, key);
      var compare := CompareIDs(key, node.key);
      if compare > 0 {
        done, r, node', t', path' := FloorRight(key, node, t, path);
      } else if compare < 0 {
        done, r, node', t', path' := FloorLeft(key, node, t, path);
      } else {
        FloorFound(path, t, tree, key);
        done, r, node', t', path' := true, Found(node.key, node.value), node, t, path;
      }
    }

    method FloorRight(key: NodeID, node: T.Node<V>, ghost t: T.Tree<V>, ghost path: Path<V>)
        returns (done: bool, r: FloorResult<V>, node': T.Node<V>, ghost t': T.Tree<V>, ghost path': Path<V>)
      requires root != null && Descended(key, node, t, path) && Less(node.key, key)
      modifies repr`parent
      ensures Valid() && root.parent == old(root.parent)
      ensures done ==> Answers(key, r) && t' == t
      ensures !done ==> Descended(key, node', t', path') && t' < t
    {
      LeadsRooted(path, t, tree, key);
      done, r, node', t', path' := false, Nothing, node, t, path;
      if node.right != null {
        path', t', node' := Right(t, path), t.r, node.right;
        StepDown(key, node, node', t, path, t', path');
      } else {
        FloorFound(path, t, tree, key);
        done, r := true, Found(node.key, node.value);
      }
    }

    method FloorLeft(key: NodeID, node: T.Node<V>, ghost t: T.Tree<V>, ghost path: Path<V>)
        returns (done: bool, r: FloorResult<V>, node': T.Node<V>, ghost t': T.Tree<V>, ghost path': Path<V>)
      requires root != null && Descended(key, node, t, path) && Less(key, node.key)
      modifies repr`parent
      ensures Valid() && root.parent == old(root.parent)
      ensures done ==> Answers(key, r) && t' == t
      ensures !done ==> Descended(key, node', t', path') && t' < t
    {
      LeadsRooted(path, t, tree, key);
      done, r, node', t', path' := false, Nothing, node, t, path;
      if node.left != null {
        path', t', node' := Left(t, path), t.l, node.left;
        StepDown(key, node, node', t, path, t', path');
      } else {
        done := true;
        r := ClimbToAnswer(node, key, t, path);
      }
    }

    /** Without a left child the answer is where the search last went right. */
    method ClimbToAnswer(node: T.Node<V>, key: NodeID, ghost t: T.Tree<V>, ghost path: Path<V>)
        returns (r: FloorResult<V>)
      requires root != null && Descended(key, node, t, path) && Less(key, node.key) && node.left == null
      ensures Valid() == old(Valid()) && unchanged(this) && root.parent == old(root.parent)
      ensures Answers(key, r)
    {
      LeadsRooted(path, t, tree, key);
      FloorLastRight(path, t, tree, key);
      r := Climb(node, key, t, path);
    }

    /** The climb at the end of Floor, past all steps to the left. */
    method Climb(node: T.Node<V>, key: NodeID, ghost t: T.Tree<V>, ghost path: Path<V>) returns (r: FloorResult<V>)
      requires Descended(key, node, t, path) && root != null
      ensures Valid() == old(Valid()) && unchanged(this) && root.parent == old(root.parent)
      ensures LastRight(path).At? ==> r == Found(LastRight(path).k, LastRight(path).v)
      ensures LastRight(path).Nil? ==>
                r == if root.parent == null then NilPointer else Found(root.parent.key, root.parent.value)
    {
      var parent := node.parent;
      var child := node;
      ghost var s, up := t, path;
      RootHasNoParent();
      while parent != null && child == parent.left
        invariant s.At? && child == s.n && Leads(up, s, tree, key) && Parents(up, child)
        invariant parent == child.parent && LastRight(up) == LastRight(path)
        decreases up
      {
        LeadsRooted(up, s, tree, key);
        child := parent;
        parent := parent.parent;
        s, up := up.p, up.up;
      }
      LeadsRooted(up, s, tree, key);
      if parent == null {
        return NilPointer;
      }
      r := Found(parent.key, parent.value);
    }

    /** No node links to the root from above, not even a stale one. */
    lemma RootHasNoParent()
      requires Valid()
      ensures root != null && root.parent != null ==> root.parent.left != root
    {
      if root != null && root.parent != null && root.parent in repr {
        LinksWithin(tree, root.parent);
      }
    }
  }
}
