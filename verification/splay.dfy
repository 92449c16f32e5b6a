/** The weighted splay tree over mutable nodes (pkg/splay/splay.go). */
module Splay {
  import opened Sequences
  import opened SplayShape
  import opened SplayRotation

  predicate IsLeftChild(n: Node?)
    reads n, if n == null then {} else {n.parent}
  {
    n != null && n.parent != null && n.parent.left == n
  }

  predicate IsRightChild(n: Node?)
    reads n, if n == null then {} else {n.parent}
  {
    n != null && n.parent != null && n.parent.right == n
  }

  function LeftWeight(n: Node): int
    reads n, n.left
  {
    if n.left == null then 0 else n.left.weight
  }

  function RightWeight(n: Node): int
    reads n, n.right
  {
    if n.right == null then 0 else n.right.weight
  }

  ghost predicate Within(m: Fields, n: Node?) {
    n == null || n in m
  }

  /** The nodes next to an edge about to be turned are all different. */
  ghost predicate Turnable(m: Fields, x: Node) {
    && x in m && m[x].parent != null && m[x].parent in m
    && var y := m[x].parent;
    && x != y && m[x].left !in {x, y} && m[x].right !in {x, y} && m[y].left != y && m[y].right != y
    && m[y].left != m[y].right
    && Within(m, m[x].left) && Within(m, m[x].right) && Within(m, m[y].left) && Within(m, m[y].right)
    && Within(m, m[y].parent)
    && (m[y].parent != null ==> m[y].parent !in {x, y, m[x].left, m[x].right, m[y].left, m[y].right})
  }

  lemma TurnableAt(m: Fields, root: Node?, path: Ctx, s: Shape)
    requires Placed(m, root, path, s) && !path.Hole?
    ensures Turnable(m, s.n)
    ensures path.InLeft? <==> m[path.n].left == s.n
    ensures path.InRight? <==> m[path.n].right == s.n
  {
    ApartApart(path, Nodes(s));
    ApartApart(path.up, Nodes(s) + {path.n} + Nodes(Side(path)));
    assert GoodCtx(m, path.up, path.n) && Good(m, Side(path), path.n);
  }

  /** How the tests isLeftChild and isRightChild come out along a path. */
  lemma SidesAt(m: Fields, root: Node?, path: Ctx, s: Shape)
    requires Focused(m, root, path, s)
    ensures s.n in m && m[s.n].parent == CtxTop(path)
    ensures !path.Hole? ==>
      && path.n in m && m[path.n].parent == CtxTop(path.up)
      && (path.InLeft? <==> m[path.n].left == s.n)
      && (path.InRight? <==> m[path.n].right == s.n)
  {
    ApartApart(path, Nodes(s));
    if !path.Hole? {
      TurnableAt(m, root, path, s);
    }
  }

  lemma SidesAbove(m: Fields, root: Node?, path: Ctx, s: Shape)
    requires Focused(m, root, path, s) && !path.Hole? && !path.up.Hole?
    ensures path.n in m && m[path.n].parent == path.up.n && path.up.n in m
    ensures path.up.InLeft? <==> m[path.up.n].left == path.n
    ensures path.up.InRight? <==> m[path.up.n].right == path.n
  {
    if path.InLeft? {
      AscendLeft(m, root, path, s);
      TurnableAt(m, root, path.up, Bin(s, path.n, path.r));
    } else {
      AscendRight(m, root, path, s);
      TurnableAt(m, root, path.up, Bin(path.l, path.n, s));
    }
  }

  /** The fields after `node` was made the root over the old root, taking its right subtree. */
  ghost predicate Grafted(m: Fields, m': Fields, prev: Node, node: Node, len: nat) {
    && prev in m && m'.Keys == m.Keys + {node}
    && var b := m[prev].right;
    && m'[node].(weight := 0) == Cell(len, 0, prev, b, null) && Weighed(m', node)
    && m'[prev].(weight := 0) == Cell(m[prev].len, 0, m[prev].left, null, node) && Weighed(m', prev)
    && (b != null && b in m ==> m'[b] == m[b].(parent := node))
    && forall n :: n in m && n != prev && n != b ==> m'[n] == m[n]
  }

  lemma Graftable(m: Fields, s: Shape, node: Node)
    requires s.Bin? && Distinct(s) && m.Keys == Nodes(s) && GoodBelow(m, s, null) && node !in m
    ensures var x := s.n;
            && m[x].left !in {x, node} && m[x].right !in {x, node}
            && Within(m, m[x].left) && Within(m, m[x].right)
            && (m[x].left != null ==> m[x].left != m[x].right)
  {
  }

  lemma GraftOrder(s: Shape, node: Node, i: nat)
    requires Distinct(s) && s.Bin? && i < |InOrder(s)| && InOrder(s)[i] == s.n
    ensures InOrder(Bin(Bin(s.l, s.n, Leaf), node, s.r)) == InOrder(s)[..i + 1] + [node] + InOrder(s)[i + 1..]
  {
    TopPosition(s, i);
    assert InOrder(s)[..i + 1] == InOrder(s.l) + [s.n];
    assert InOrder(Bin(s.l, s.n, Leaf)) == InOrder(s.l) + [s.n];
  }

  lemma GraftGood(m: Fields, m': Fields, s: Shape, node: Node, len: nat)
    requires s.Bin? && Distinct(s) && m.Keys == Nodes(s) && GoodBelow(m, s, null) && node !in m
    requires Grafted(m, m', s.n, node, len)
    ensures var s' := Bin(Bin(s.l, s.n, Leaf), node, s.r);
            Distinct(s') && GoodBelow(m', s', null) && Weighed(m', node)
  {
    GoodAgree(m, m', s.l, s.n);
    if s.r.Bin? {
      GoodAgree(m, m', s.r.l, s.r.n);
      GoodAgree(m, m', s.r.r, s.r.n);
    }
    assert Good(m', s.l, s.n) && Good(m', s.r, node);
  }

  /** The fields of two trees after the top of the one was hung below the top of the other. */
  ghost predicate Hung(m: Fields, m2: Fields, m': Fields, top: Node, right: Node?) {
    && top in m && top in m' && m'[top] == m[top].(right := right)
    && (right != null ==> right in m2 && right in m' && m'[right] == m2[right].(parent := top))
    && (forall n :: n in m && n != top ==> n in m' && m'[n] == m[n])
    && forall n :: n in m2 && n != right ==> n in m' && m'[n] == m2[n]
  }

  lemma HungGood(m: Fields, m2: Fields, m': Fields, s: Shape, right: Shape)
    requires s.Bin? && s.r == Leaf && Distinct(s) && GoodBelow(m, s, null)
    requires Distinct(right) && Good(m2, right, null) && m2.Keys == Nodes(right) && m.Keys == Nodes(s)
            && m2.Keys !! m.Keys
    requires Hung(m, m2, m', s.n, Top(right))
    ensures var s' := Bin(s.l, s.n, right);
            Distinct(s') && GoodBelow(m', s', null) && InOrder(s') == InOrder(s) + InOrder(right)
  {
    assert InOrder(s) == InOrder(s.l) + [s.n];
    GoodAgree(m, m', s.l, s.n);
    if right.Bin? {
      GoodAgree(m2, m', right.l, right.n);
      GoodAgree(m2, m', right.r, right.n);
    }
  }

  /** If the last node of a tree is its topmost one, then it has no right subtree. */
  lemma LastOnRight(s: Shape)
    requires s.Bin? && Distinct(s) && InOrder(s)[|InOrder(s)| - 1] == s.n
    ensures s.r == Leaf
  {
    TopPosition(s, |InOrder(s)| - 1);
  }

  /** In a tree without repeated nodes a node has only one position. */
  lemma PositionUnique(s: Shape, before: seq<Node>, x: Node, after: seq<Node>, i: nat)
    requires Distinct(s) && InOrder(s) == before + [x] + after && i < |InOrder(s)| && InOrder(s)[i] == x
    ensures before == InOrder(s)[..i]
  {
    InOrderNoDup(s);
    assert InOrder(s)[|before|] == x;
    assert Differ(InOrder(s), i, |before|);
  }

  ghost predicate EndsWith(all: seq<Node>, part: seq<Node>) {
    |part| <= |all| && all[|all| - |part|..] == part
  }

  lemma EndsRight(all: seq<Node>, s: Shape)
    requires s.Bin? && EndsWith(all, InOrder(s))
    ensures EndsWith(all, InOrder(s.r))
  {
    var part, r := InOrder(s), InOrder(s.r);
    assert part[|part| - |r|..] == r;
    assert all[|all| - |r|..] == all[|all| - |part|..][|part| - |r|..];
  }

  lemma EndsLast(all: seq<Node>, s: Shape)
    requires s.Bin? && s.r.Leaf? && EndsWith(all, InOrder(s))
    ensures all != [] && all[|all| - 1] == s.n
  {
    var part := InOrder(s);
    assert part == InOrder(s.l) + [s.n] by {
      assert InOrder(s.r) == [];
    }
    assert all[|all| - |part|..][|part| - 1] == all[|all| - 1];
  }

  lemma TopLinks(m: Fields, s: Shape)
    requires s.Bin? && Distinct(s) && s.n in m && GoodBelow(m, s, m[s.n].parent)
    ensures m[s.n].left != s.n && m[s.n].right != s.n
  {
  }

  class Tree {
    var root: Node?
    /** The nodes of the tree, and its shape. */
    ghost var repr: set<Node>
    ghost var shape: Shape

    constructor (root: Node?, ghost shape: Shape)
      ensures this.root == root && this.shape == shape && repr == Nodes(shape)
    {
      this.root := root;
      this.repr := Nodes(shape);
      this.shape := shape;
    }

    /** The tree of one node. */
    constructor Single(node: Node)
      requires !node.HasLinks()
      ensures Valid() && root == node && repr == {node} && InOrder(shape) == [node]
    {
      root, repr, shape := node, {node}, Bin(Leaf, node, Leaf);
    }

    /** Links and shape agree, and every weight is right except perhaps the root's. */
    ghost predicate Valid()
      reads `root, `repr, `shape, repr`len, repr`weight, repr`left, repr`right, repr`parent
    {
      && Distinct(shape) && repr == Nodes(shape) && root == Top(shape)
      && GoodBelow(FieldsOf(repr), shape, null)
    }

    /** As Valid, except that any weight on the path from the root to `x` may be stale:
        the state after the length of the value of `x` has changed. */
    ghost predicate ValidOff(x: Node)
      reads `root, `repr, `shape, repr`len, repr`weight, repr`left, repr`right, repr`parent
    {
      && x in repr && Distinct(shape) && repr == Nodes(shape) && root == Top(shape)
      && GoodOff(FieldsOf(repr), shape, x, null)
    }

    method UpdateSubtree(node: Node)
      requires node.left != node && node.right != node
      modifies node`weight
      ensures node.weight == node.len + LeftWeight(node) + RightWeight(node)
    {
      node.weight := node.len;
      if node.left != null {
        node.weight := node.weight + LeftWeight(node);
      }
      if node.right != null {
        node.weight := node.weight + RightWeight(node);
      }
    }

    /** The links of rotateRight. */
    method RelinkRight(top: Node, pivot: Node)
      requires Turnable(FieldsOf(repr), pivot) && IsLeftChild(pivot) && top == pivot.parent
      modifies this`root, repr`left, repr`right, repr`parent
      ensures LinksTurnedRight(old(FieldsOf(repr)), FieldsOf(repr), pivot)
      ensures root == if old(pivot.parent.parent) == null then pivot else old(root)
    {
      if top.parent != null {
        if top == top.parent.left {
          top.parent.left := pivot;
        } else {
          top.parent.right := pivot;
        }
      } else {
        root := pivot;
      }
      pivot.parent := top.parent;

      top.left := pivot.right;
      if top.left != null {
        top.left.parent := top;
      }

      pivot.right := top;
      pivot.right.parent := pivot;
    }

    method RotateRight(pivot: Node)
      requires Turnable(FieldsOf(repr), pivot) && IsLeftChild(pivot)
      modifies this`root, repr`weight, repr`left, repr`right, repr`parent
      ensures TurnedRight(old(FieldsOf(repr)), FieldsOf(repr), pivot)
      ensures root == if old(pivot.parent.parent) == null then pivot else old(root)
    {
      var top := pivot.parent;
      RelinkRight(top, pivot);
      UpdateSubtree(top);
      UpdateSubtree(pivot);
    }

    /** The links of rotateLeft. */
    method RelinkLeft(top: Node, pivot: Node)
      requires Turnable(FieldsOf(repr), pivot) && IsRightChild(pivot) && top == pivot.parent
      modifies this`root, repr`left, repr`right, repr`parent
      ensures LinksTurnedLeft(old(FieldsOf(repr)), FieldsOf(repr), pivot)
      ensures root == if old(pivot.parent.parent) == null then pivot else old(root)
    {
      if top.parent != null {
        if top == top.parent.left {
          top.parent.left := pivot;
        } else {
          top.parent.right := pivot;
        }
      } else {
        root := pivot;
      }

      pivot.parent := top.parent;

      top.right := pivot.left;
      if top.right != null {
        top.right.parent := top;
      }

      pivot.left := top;
      pivot.left.parent := pivot;
    }

    method RotateLeft(pivot: Node)
      requires Turnable(FieldsOf(repr), pivot) && IsRightChild(pivot) && pivot.left in repr + {null}
      modifies this`root, repr`weight, repr`left, repr`right, repr`parent
      ensures TurnedLeft(old(FieldsOf(repr)), FieldsOf(repr), pivot)
      ensures root == if old(pivot.parent.parent) == null then pivot else old(root)
    {
      var top := pivot.parent;
      RelinkLeft(top, pivot);
      UpdateSubtree(top);
      UpdateSubtree(pivot);
    }

    /** rotateRight on shapes: `pivot` at the focus of `path` is lifted one step. */
    method LiftRight(pivot: Node, ghost path: Ctx, ghost s: Shape) returns (ghost s': Shape)
      requires Placed(FieldsOf(repr), root, path, s) && s.n == pivot
      requires path.InLeft? && Good(FieldsOf(repr), s.r, pivot)
      modifies this`root, repr`weight, repr`left, repr`right, repr`parent
      ensures s' == Bin(s.l, pivot, Bin(s.r, path.n, path.r))
      ensures Placed(FieldsOf(repr), root, path.up, s') && Good(FieldsOf(repr), s'.r, pivot)
      ensures Weighed(FieldsOf(repr), pivot)
      ensures old(Good(FieldsOf(repr), s.l, pivot)) ==> Good(FieldsOf(repr), s'.l, pivot)
      ensures InOrder(Plug(path.up, s')) == InOrder(Plug(path, s))
    {
      ghost var m, r := FieldsOf(repr), root;
      TurnableAt(m, r, path, s);
      RotateRight(pivot);
      s' := Bin(s.l, pivot, Bin(s.r, path.n, path.r));
      TurnRight(m, FieldsOf(repr), r, root, path, s, s');
    }

    /** rotateLeft on shapes: `pivot` at the focus of `path` is lifted one step. */
    method LiftLeft(pivot: Node, ghost path: Ctx, ghost s: Shape) returns (ghost s': Shape)
      requires Placed(FieldsOf(repr), root, path, s) && s.n == pivot
      requires path.InRight? && Good(FieldsOf(repr), s.l, pivot)
      modifies this`root, repr`weight, repr`left, repr`right, repr`parent
      ensures s' == Bin(Bin(path.l, path.n, s.l), pivot, s.r)
      ensures Placed(FieldsOf(repr), root, path.up, s') && Good(FieldsOf(repr), s'.l, pivot)
      ensures Weighed(FieldsOf(repr), pivot)
      ensures old(Good(FieldsOf(repr), s.r, pivot)) ==> Good(FieldsOf(repr), s'.r, pivot)
      ensures InOrder(Plug(path.up, s')) == InOrder(Plug(path, s))
    {
      ghost var m, r := FieldsOf(repr), root;
      TurnableAt(m, r, path, s);
      RotateLeft(pivot);
      s' := Bin(Bin(path.l, path.n, s.l), pivot, s.r);
      TurnLeft(m, FieldsOf(repr), r, root, path, s, s');
    }

    /** Two left edges in a row: first the parent is lifted, then the node. */
    method ZigZigRight(node: Node, ghost path: Ctx, ghost s: Shape) returns (ghost s': Shape)
      requires Focused(FieldsOf(repr), root, path, s) && s.n == node
      requires path.InLeft? && path.up.InLeft?
      modifies this`root, repr`weight, repr`left, repr`right, repr`parent
      ensures Focused(FieldsOf(repr), root, path.up.up, s') && s'.n == node
      ensures Weighed(FieldsOf(repr), node)
      ensures InOrder(Plug(path.up.up, s')) == InOrder(Plug(path, s))
    {
      AscendLeft(FieldsOf(repr), root, path, s);
      ghost var t := LiftRight(node.parent, path.up, Bin(s, path.n, path.r));
      DescendLeft(FieldsOf(repr), root, path.up.up, t);
      s' := LiftRight(node, InLeft(path.n, t.r, path.up.up), s);
    }

    /** Two right edges in a row. */
    method ZigZigLeft(node: Node, ghost path: Ctx, ghost s: Shape) returns (ghost s': Shape)
      requires Focused(FieldsOf(repr), root, path, s) && s.n == node
      requires path.InRight? && path.up.InRight?
      modifies this`root, repr`weight, repr`left, repr`right, repr`parent
      ensures Focused(FieldsOf(repr), root, path.up.up, s') && s'.n == node
      ensures Weighed(FieldsOf(repr), node)
      ensures InOrder(Plug(path.up.up, s')) == InOrder(Plug(path, s))
    {
      AscendRight(FieldsOf(repr), root, path, s);
      ghost var t := LiftLeft(node.parent, path.up, Bin(path.l, path.n, s));
      DescendRight(FieldsOf(repr), root, path.up.up, t);
      s' := LiftLeft(node, InRight(t.l, path.n, path.up.up), s);
    }

    /** A right child of a left child: the node is lifted twice. */
    method ZigZagRight(node: Node, ghost path: Ctx, ghost s: Shape) returns (ghost s': Shape)
      requires Focused(FieldsOf(repr), root, path, s) && s.n == node
      requires path.InRight? && path.up.InLeft?
      modifies this`root, repr`weight, repr`left, repr`right, repr`parent
      ensures Focused(FieldsOf(repr), root, path.up.up, s') && s'.n == node
      ensures Weighed(FieldsOf(repr), node)
      ensures InOrder(Plug(path.up.up, s')) == InOrder(Plug(path, s))
    {
      ghost var t := LiftLeft(node, path, s);
      s' := LiftRight(node, path.up, t);
    }

    /** A left child of a right child. */
    method ZigZagLeft(node: Node, ghost path: Ctx, ghost s: Shape) returns (ghost s': Shape)
      requires Focused(FieldsOf(repr), root, path, s) && s.n == node
      requires path.InLeft? && path.up.InRight?
      modifies this`root, repr`weight, repr`left, repr`right, repr`parent
      ensures Focused(FieldsOf(repr), root, path.up.up, s') && s'.n == node
      ensures Weighed(FieldsOf(repr), node)
      ensures InOrder(Plug(path.up.up, s')) == InOrder(Plug(path, s))
    {
      ghost var t := LiftRight(node, path, s);
      s' := LiftLeft(node, path.up, t);
    }

    /** One round of the loop of Splay; `done` when the node has reached the root. */
    method Round(node: Node, ghost path: Ctx, ghost s: Shape) returns (done: bool, ghost path': Ctx, ghost s': Shape)
      requires Focused(FieldsOf(repr), root, path, s) && s.n == node
      modifies this`root, repr`weight, repr`left, repr`right, repr`parent
      ensures Focused(FieldsOf(repr), root, path', s') && s'.n == node
      ensures InOrder(Plug(path', s')) == InOrder(Plug(path, s))
      ensures done ==> path' == Hole
      ensures !done ==> Depth(path') < Depth(path)
      ensures !path.Hole? ==> Weighed(FieldsOf(repr), node)
      ensures path.Hole? ==> unchanged(repr) && root == old(root)
    {
      SidesAt(FieldsOf(repr), root, path, s);
      path', s', done := path, s, false;
      if !path.Hole? && !path.up.Hole? {
        SidesAbove(FieldsOf(repr), root, path, s);
        path' := path.up.up;
      }
      if IsLeftChild(node.parent) && IsRightChild(node) {
        s' := ZigZagRight(node, path, s);
      } else if IsRightChild(node.parent) && IsLeftChild(node) {
        s' := ZigZagLeft(node, path, s);
      } else if IsLeftChild(node.parent) && IsLeftChild(node) {
        s' := ZigZigRight(node, path, s);
      } else if IsRightChild(node.parent) && IsRightChild(node) {
        s' := ZigZigLeft(node, path, s);
      } else {
        done, path' := true, Hole;
        if IsLeftChild(node) {
          s' := LiftRight(node, path, s);
        } else if IsRightChild(node) {
          s' := LiftLeft(node, path, s);
        }
      }
    }

    /** The loop of Splay. */
    method Rise(node: Node, ghost path: Ctx, ghost s: Shape) returns (ghost s': Shape)
      requires Focused(FieldsOf(repr), root, path, s) && s.n == node
      modifies this`root, repr`weight, repr`left, repr`right, repr`parent
      ensures Focused(FieldsOf(repr), root, Hole, s') && s'.n == node && InOrder(s') == InOrder(Plug(path, s))
      ensures path != Hole ==> Weighed(FieldsOf(repr), node)
    {
      ghost var p := path;
      s' := s;
      var done := false;
      while !done
        invariant Focused(FieldsOf(repr), root, p, s') && s'.n == node
        invariant InOrder(Plug(p, s')) == InOrder(Plug(path, s))
        invariant done ==> p == Hole
        invariant p.Hole? && path != Hole ==> Weighed(FieldsOf(repr), node)
        decreases if done then 0 else 1 + Depth(p)
      {
        done, p, s' := Round(node, p, s');
      }
    }

    /** Moves the given node to the root. */
    method Splay(node: Node?)
      requires node != null ==> ValidOff(node)
      modifies this, repr`weight, repr`left, repr`right, repr`parent
      ensures repr == old(repr)
      ensures node == null ==> unchanged(this) && unchanged(repr)
      ensures node != null ==> Valid() && root == node && InOrder(shape) == old(InOrder(shape))
      ensures node != null && old(root) != node ==> Weighed(FieldsOf(repr), node)
    {
      if node == null {
        return;
      }
      ghost var path, s := Focus(FieldsOf(repr), shape, node, null, Hole);
      ghost var was := shape;
      s := Rise(node, path, s);
      SameNodes(was, s);
      shape := s;
    }

    /** The second half of InsertAfter: the node becomes the root over `prev`. */
    method Graft(prev: Node, node: Node)
      requires prev in repr && prev.left !in {prev, node} && prev.right !in {prev, node}
      requires Within(FieldsOf(repr), prev.left) && Within(FieldsOf(repr), prev.right)
      requires prev.left != null ==> prev.left != prev.right
      requires node !in repr && !node.HasLinks()
      modifies this`root, repr`weight, repr`left, repr`right, repr`parent
      modifies node`weight, node`left, node`right, node`parent
      ensures Grafted(old(FieldsOf(repr)), FieldsOf(repr + {node}), prev, node, old(node.len))
      ensures root == node
    {
      root := node;
      node.right := prev.right;
      if prev.right != null {
        prev.right.parent := node;
      }
      node.left := prev;
      prev.parent := node;
      prev.right := null;

      UpdateSubtree(prev);
      UpdateSubtree(node);
    }

    /** The ghost fields after nodes were linked in. */
    method Adopt(ghost more: set<Node>, ghost s: Shape)
      requires Distinct(s) && repr + more == Nodes(s) && root == Top(s) && GoodBelow(FieldsOf(repr + more), s, null)
      modifies this`repr, this`shape
      ensures Valid() && repr == old(repr) + more && shape == s
    {
      repr, shape := repr + more, s;
    }

    /** Graft on shapes: the old root keeps its left subtree and hands over the right one. */
    method GraftRoot(node: Node, ghost i: nat)
      requires Valid() && shape.Bin? && i < |InOrder(shape)| && InOrder(shape)[i] == shape.n
      requires node !in repr && !node.HasLinks()
      modifies this, repr`weight, repr`left, repr`right, repr`parent
      modifies node`weight, node`left, node`right, node`parent
      ensures root == node && Valid() && repr == old(repr) + {node} && Weighed(FieldsOf(repr), node)
      ensures InOrder(shape) == old(InOrder(shape)[..i + 1]) + [node] + old(InOrder(shape)[i + 1..])
    {
      ghost var m, was, len := FieldsOf(repr), shape, node.len;
      GraftOrder(was, node, i);
      Graftable(m, was, node);
      Graft(root, node);
      GraftGood(m, FieldsOf(repr + {node}), was, node, len);
      Adopt({node}, Bin(Bin(was.l, was.n, Leaf), node, was.r));
    }

    /** Inserts the node, which is in no tree, right after `prev`, at position `i`. */
    method InsertAfter(prev: Node, node: Node, ghost i: nat) returns (r: Node)
      requires ValidOff(prev) && i < |InOrder(shape)| && InOrder(shape)[i] == prev
      requires node !in repr && !node.HasLinks()
      modifies this, repr`weight, repr`left, repr`right, repr`parent
      modifies node`weight, node`left, node`right, node`parent
      ensures r == node == root && Valid() && repr == old(repr) + {node} && Weighed(FieldsOf(repr), node)
      ensures InOrder(shape) == old(InOrder(shape)[..i + 1]) + [node] + old(InOrder(shape)[i + 1..])
    {
      Splay(prev);
      GraftRoot(node, i);
      r := node;
    }

    /** As Valid, with the weight of the root right as well. */
    ghost predicate Full()
      reads `root, `repr, `shape, repr`len, repr`weight, repr`left, repr`right, repr`parent
    {
      Valid() && (shape.Bin? ==> Weighed(FieldsOf(repr), shape.n))
    }

    /** UpdateSubtree on the root: the one weight that may have been stale. */
    method UpdateRoot()
      requires Valid() && root != null
      modifies root`weight
      ensures Full()
    {
      ghost var m := FieldsOf(repr);
      TopLinks(m, shape);
      UpdateSubtree(root);
      GoodAgree(m, FieldsOf(repr), shape.l, shape.n);
      GoodAgree(m, FieldsOf(repr), shape.r, shape.n);
    }

    /** A new tree for a subtree that hung below `p`; its link to `p` is cut. */
    static method Cut(top: Node?, ghost s: Shape, ghost p: Node) returns (t: Tree)
      requires top == Top(s) && Distinct(s) && Good(FieldsOf(Nodes(s)), s, p)
      modifies NodeSet(top)`parent
      ensures fresh(t) && t.Full() && t.shape == s
    {
      ghost var m := FieldsOf(Nodes(s));
      t := new Tree(top, s);
      if t.root != null {
        TopLinks(m, s);
        t.root.parent := null;
        GoodAgree(m, FieldsOf(t.repr), s.l, s.n);
        GoodAgree(m, FieldsOf(t.repr), s.r, s.n);
      }
    }

    /** The rightmost node, which is the last in order. */
    method Maximum() returns (node: Node)
      requires Valid() && root != null
      ensures node in repr && node == InOrder(shape)[|InOrder(shape)| - 1]
    {
      node := root;
      ghost var m, all, s := FieldsOf(repr), InOrder(shape), shape;
      while node.right != null
        invariant s.Bin? && s.n == node && Nodes(s) <= repr && GoodBelow(m, s, node.parent)
        invariant EndsWith(all, InOrder(s))
        decreases s
      {
        EndsRight(all, s);
        node := node.right;
        s := s.r;
      }
      EndsLast(all, s);
    }

    /** The links of that. */
    method HangLinks(top: Node, right: Node?, ghost other: set<Node>)
      requires top in repr && repr !! other && NodeSet(right) <= other
      modifies top`right, NodeSet(right)`parent
      ensures Hung(old(FieldsOf(repr)), old(FieldsOf(other)), FieldsOf(repr + other), top, right)
    {
      top.right := right;
      if right != null {
        right.parent := top;
      }
    }

    /** Hangs the other tree below the root of this one, which has no right subtree. */
    method HangRight(other: Tree)
      requires Valid() && other.Full() && repr !! other.repr && shape.Bin? && shape.r == Leaf && this != other
      modifies this`repr, this`shape, NodeSet(root)`right, NodeSet(other.root)`parent
      ensures Valid() && root == old(root) && repr == old(repr) + other.repr
      ensures InOrder(shape) == old(InOrder(shape)) + InOrder(other.shape)
    {
      ghost var m, m2, was, s := FieldsOf(repr), FieldsOf(other.repr), shape, other.shape;
      HangLinks(root, other.root, other.repr);
      HungGood(m, m2, FieldsOf(repr + other.repr), was, s);
      Adopt(other.repr, Bin(was.l, was.n, s));
    }

    /** Appends the nodes of the other tree to this one. */
    method Join(other: Tree)
      requires Full() && other.Full() && repr !! other.repr && shape.Bin? && this != other
      modifies this, repr`weight, repr`left, repr`right, repr`parent, NodeSet(other.root)`parent
      ensures Valid() && root != null && repr == old(repr) + other.repr
      ensures InOrder(shape) == old(InOrder(shape)) + InOrder(other.shape)
    {
      SplayMaximum(other);
      HangRight(other);
    }

    /** The last node comes to the root, and so has no right subtree; the other tree stays as it is. */
    method SplayMaximum(other: Tree)
      requires Full() && other.Full() && repr !! other.repr && shape.Bin? && this != other
      modifies this, repr`weight, repr`left, repr`right, repr`parent
      ensures Valid() && shape.Bin? && shape.r == Leaf && repr == old(repr)
      ensures InOrder(shape) == old(InOrder(shape))
      ensures other.Full() == old(other.Full()) && unchanged(other)
    {
      var maxNode := Maximum();
      GoodIsGoodOff(FieldsOf(repr), shape, maxNode, null);
      Splay(maxNode);
      assert unchanged(other) && unchanged(other.repr);
      LastOnRight(shape);
    }

    /** The tree that holds the nodes of both. */
    static method Joined(leftTree: Tree, rightTree: Tree) returns (t: Tree)
      requires leftTree.Full() && rightTree.Full() && leftTree.repr !! rightTree.repr && leftTree != rightTree
      modifies leftTree, leftTree.repr`weight, leftTree.repr`left, leftTree.repr`right, leftTree.repr`parent
      modifies NodeSet(rightTree.root)`parent
      ensures t.Valid() && t.repr == old(leftTree.repr + rightTree.repr) && t in {leftTree, rightTree}
      ensures InOrder(t.shape) == old(InOrder(leftTree.shape) + InOrder(rightTree.shape))
    {
      if leftTree.root != null {
        leftTree.Join(rightTree);
        t := leftTree;
      } else {
        t := rightTree;
      }
    }

    lemma SubtreesGood()
      requires Valid() && root != null
      ensures Good(FieldsOf(Nodes(shape.l)), shape.l, root) && Good(FieldsOf(Nodes(shape.r)), shape.r, root)
      ensures root.left == Top(shape.l) && root.right == Top(shape.r)
              && Nodes(shape.l) + Nodes(shape.r) == repr - {root}
    {
      GoodAgree(FieldsOf(repr), FieldsOf(Nodes(shape.l)), shape.l, root);
      GoodAgree(FieldsOf(repr), FieldsOf(Nodes(shape.r)), shape.r, root);
    }

    /** The two subtrees of the root as trees of their own. */
    method Halves() returns (leftTree: Tree, rightTree: Tree)
      requires Valid() && root != null
      modifies NodeSet(root.left)`parent, NodeSet(root.right)`parent
      ensures fresh(leftTree) && fresh(rightTree) && leftTree != rightTree
      ensures leftTree.Full() && rightTree.Full()
      ensures leftTree.shape == shape.l && rightTree.shape == shape.r
      ensures leftTree.repr !! rightTree.repr && leftTree.repr + rightTree.repr == repr - {root}
      ensures NodeSet(rightTree.root) <= rightTree.repr && root == old(root)
    {
      SubtreesGood();
      ghost var m := FieldsOf(Nodes(shape.r));
      leftTree := Cut(root.left, shape.l, root);
      assert FieldsOf(Nodes(shape.r)) == m;
      rightTree := Cut(root.right, shape.r, root);
    }

    /** All nodes but the root as a tree of their own. */
    method WithoutRoot() returns (t: Tree)
      requires Valid() && root != null
      modifies repr`weight, repr`left, repr`right, repr`parent
      ensures fresh(t) && t.Valid() && t.repr == repr - {root}
      ensures InOrder(t.shape) == old(InOrder(shape.l) + InOrder(shape.r))
    {
      var leftTree, rightTree := Halves();
      t := Joined(leftTree, rightTree);
    }

    method Become(t: Tree)
      requires t.Valid()
      modifies this
      ensures Valid() && root == t.root && repr == t.repr && shape == t.shape
    {
      root, shape, repr := t.root, t.shape, t.repr;
    }

    /** The second half of Delete: the root goes, and its two subtrees are joined. */
    method DeleteRoot(node: Node)
      requires Valid() && root == node
      modifies this, repr`weight, repr`left, repr`right, repr`parent
      ensures Valid() && repr == old(repr) - {node} && !node.HasLinks()
      ensures InOrder(shape) == old(InOrder(shape.l) + InOrder(shape.r))
    {
      var t := WithoutRoot();
      Become(t);
      node.Unlink();
    }

    /** Takes the node at position `i` out of the tree. */
    method Delete(node: Node, ghost i: nat)
      requires ValidOff(node) && i < |InOrder(shape)| && InOrder(shape)[i] == node
      modifies this, repr`weight, repr`left, repr`right, repr`parent
      ensures Full() && repr == old(repr) - {node} && !node.HasLinks()
      ensures InOrder(shape) == old(InOrder(shape)[..i]) + old(InOrder(shape)[i + 1..])
    {
      Splay(node);
      TopPosition(shape, i);
      DeleteRoot(node);
      if root != null {
        UpdateRoot();
      }
    }

    /** The loop of Find: down to the node that holds the position. */
    method Search(index: int, ghost m: Fields, ghost all: seq<Node>)
        returns (ok: bool, node: Node, offset: int, ghost i: nat)
      requires m == FieldsOf(repr) && Nodes(shape) <= repr && Searching(m, all, index, shape, [], index)
      requires shape.n == root
      ensures i < |all| && all[i] == node && node in m && offset == index - Total(m, all[..i])
      ensures ok <==> index <= Total(m, all)
      ensures ok ==> if index <= 0 then i == 0 else 0 < offset <= m[node].len
    {
      i, node, offset := 0, root, index;
      ghost var s: Shape, before: seq<Node> := shape, [];
      while true
        invariant s.Bin? && s.n == node && Nodes(s) <= repr
        invariant Searching(m, all, index, s, before, offset)
        decreases s
      {
        if node.left != null && offset <= LeftWeight(node) {
          SearchLeft(m, all, index, s, before, offset);
          s := s.l;
          node := node.left;
        } else if node.right != null && LeftWeight(node) + node.len < offset {
          SearchRight(m, all, index, s, before, offset);
          offset := offset - (LeftWeight(node) + node.len);
          before := before + (InOrder(s.l) + [node]);
          s := s.r;
          node := node.right;
        } else {
          SearchStop(m, all, index, s, before, offset);
          i := |before + InOrder(s.l)|;
          offset := offset - LeftWeight(node);
          break;
        }
      }
      ok := offset <= node.len;
    }

    /** The node and the offset in it of a position counted in lengths. Not `ok` when
        it is out of bound. */
    method Find(index: int) returns (ok: bool, node: Node?, offset: int, ghost i: nat)
      requires Valid()
      ensures root == null ==> ok && node == null && offset == 0
      ensures root != null ==> (ok <==> index <= Total(FieldsOf(repr), InOrder(shape)))
      ensures root != null ==> i < |InOrder(shape)| && InOrder(shape)[i] == node
                               && offset == index - Total(FieldsOf(repr), InOrder(shape)[..i])
      ensures root != null && ok ==> if index <= 0 then i == 0 else 0 < offset <= node.len
    {
      if root == null {
        return true, null, 0, 0;
      }
      ok, node, offset, i := Search(index, FieldsOf(repr), InOrder(shape));
    }

    /** The total length of the values before the given node; -1 for a node without links,
        which the only node of a tree is as well. */
    method IndexOf(node: Node?, ghost i: nat) returns (index: int)
      requires Valid()
      requires node != null && node.HasLinks() ==> node in repr && i < |InOrder(shape)| && InOrder(shape)[i] == node
      ensures node == null || !node.HasLinks() ==> index == -1
      ensures node != null && node.HasLinks() ==> index == Total(FieldsOf(repr), InOrder(shape)[..i])
    {
      if node == null || !node.HasLinks() {
        return -1;
      }
      ghost var m := FieldsOf(repr);
      ghost var path, s := Start(node);
      ghost var before, after := InOrder(s.l), InOrder(s.r);
      WeightIsTotal(m, s.l, node);
      index := 0;
      var current: Node? := node;
      var prev: Node? := null;
      while current != null
        invariant s.Bin? && Apart(path, Nodes(s)) && GoodCtx(m, path, s.n) && Plug(path, s) == shape
        invariant s.n in m && m[s.n].parent == CtxTop(path)
        invariant if prev == null then current == s.n == node && index == 0 else s.n == prev && current == prev.parent
        invariant prev == null ==> s.n.left == Top(s.l) && LeftWeight(node) == Total(m, before)
                                   && before == InOrder(s.l) && after == InOrder(s.r)
        invariant prev != null ==> Counting(m, s, node, before, after, index)
        decreases Depth(path), prev == null
      {
        if prev != null {
          s, before, after := CountUp(m, root, path, s, node, before, after, index);
          path := path.up;
        }
        if prev == null || prev == current.right {
          index := index + (current.len + LeftWeight(current));
        }
        prev := current;
        current := current.parent;
      }
      index := index - node.len;
      PositionUnique(shape, before, node, after, i);
    }

    /** Find and IndexOf are inverse: the node found is the only one that holds the position,
        and where it begins and the offset give the position back, unless it is the only node. */
    method FindAndIndexOf(index: int) returns (node: Node, offset: int, start: int, ghost i: nat)
      requires Valid() && root != null && 0 < index <= Total(FieldsOf(repr), InOrder(shape))
      ensures Valid() == old(Valid()) && unchanged(this) && unchanged(repr)
      ensures i < |InOrder(shape)| && InOrder(shape)[i] == node && node in repr
      ensures forall j :: Holds(FieldsOf(repr), InOrder(shape), index, j) <==> j == i
      ensures if node.HasLinks() then start + offset == index else start == -1
    {
      var ok, found;
      ok, found, offset, i := Find(index);
      node := found;
      ghost var m, ns := FieldsOf(repr), InOrder(shape);
      InOrderNodes(shape);
      forall j | 0 <= j < |ns| ensures Holds(m, ns, index, j) <==> j == i {
        assert ns[j] in Nodes(shape);
        if Holds(m, ns, index, j) {
          HolderUnique(m, ns, index, i, j);
        }
      }
      start := IndexOf(node, i);
    }

    /** Every weight but that of the root is the total length of the values in the subtree. */
    lemma WeightIsSubtreeTotal(x: Node)
      requires Valid() && x in repr && x != root
      ensures x.weight == Total(FieldsOf(repr), InOrder(SubtreeAt(shape, x)))
    {
      if x in Nodes(shape.l) {
        EveryWeightIsTotal(FieldsOf(repr), shape.l, shape.n, x);
      } else {
        EveryWeightIsTotal(FieldsOf(repr), shape.r, shape.n, x);
      }
    }

    /** Where the walk from a node to the root begins. */
    ghost method Start(node: Node) returns (path: Ctx, s: Shape)
      requires Valid() && node in repr
      ensures Focused(FieldsOf(repr), root, path, s) && s.n == node && Plug(path, s) == shape
    {
      ValidIsValidOff(node);
      path, s := Focus(FieldsOf(repr), shape, node, null, Hole);
    }

    lemma ValidIsValidOff(x: Node)
      requires Valid() && x in repr
      ensures ValidOff(x)
    {
      GoodIsGoodOff(FieldsOf(repr), shape.l, x, shape.n);
      GoodIsGoodOff(FieldsOf(repr), shape.r, x, shape.n);
    }

    /** The owner of the node's value changes its length; the tree is not told. */
    method ValueChanged(node: Node, len: nat)
      requires Valid() && node in repr
      modifies node`len
      ensures ValidOff(node) && node.len == len
    {
      ghost var m := FieldsOf(repr);
      node.len := len;
      LenChanged(m, FieldsOf(repr), shape.l, node, shape.n);
      LenChanged(m, FieldsOf(repr), shape.r, node, shape.n);
    }
  }
}
