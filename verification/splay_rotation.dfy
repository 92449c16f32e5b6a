/** What one rotation does to the fields of a tree, and what one round of the splay
    loop (a zig-zig, zig-zag or zig) therefore does to its shape. */
module SplayRotation {
  import opened SplayShape

  /** The links after a left child `x` was lifted over its parent. */
  ghost predicate LinksTurnedRight(m: Fields, m': Fields, x: Node) {
    && x in m && m[x].parent != null && m[x].parent in m && m'.Keys == m.Keys
    && var y := m[x].parent;
    && var g := m[y].parent;
    && var b := m[x].right;
    && m'[x] == m[x].(right := y, parent := g) && m'[y] == m[y].(left := b, parent := x)
    && (b != null && b in m ==> m'[b] == m[b].(parent := y))
    && (g != null && g in m ==> m'[g] == if m[g].left == y then m[g].(left := x) else m[g].(right := x))
    && forall n :: n in m && n != x && n != y && n != b && n != g ==> m'[n] == m[n]
  }

  ghost predicate LinksTurnedLeft(m: Fields, m': Fields, x: Node) {
    && x in m && m[x].parent != null && m[x].parent in m && m'.Keys == m.Keys
    && var y := m[x].parent;
    && var g := m[y].parent;
    && var b := m[x].left;
    && m'[x] == m[x].(left := y, parent := g) && m'[y] == m[y].(right := b, parent := x)
    && (b != null && b in m ==> m'[b] == m[b].(parent := y))
    && (g != null && g in m ==> m'[g] == if m[g].left == y then m[g].(left := x) else m[g].(right := x))
    && forall n :: n in m && n != x && n != y && n != b && n != g ==> m'[n] == m[n]
  }

  /** The fields after a left child `x` was lifted over its parent. */
  ghost predicate TurnedRight(m: Fields, m': Fields, x: Node) {
    && x in m && m[x].parent != null && m[x].parent in m && m'.Keys == m.Keys
    && var y := m[x].parent;
    && var g := m[y].parent;
    && var b := m[x].right;
    && m'[x].(weight := 0) == Cell(m[x].len, 0, m[x].left, y, g) && Weighed(m', x)
    && m'[y].(weight := 0) == Cell(m[y].len, 0, b, m[y].right, x) && Weighed(m', y)
    && (b != null && b in m ==> m'[b] == m[b].(parent := y))
    && (g != null && g in m ==> m'[g] == if m[g].left == y then m[g].(left := x) else m[g].(right := x))
    && forall n :: n in m && n != x && n != y && n != b && n != g ==> m'[n] == m[n]
  }

  /** The fields after a right child `x` was lifted over its parent. */
  ghost predicate TurnedLeft(m: Fields, m': Fields, x: Node) {
    && x in m && m[x].parent != null && m[x].parent in m && m'.Keys == m.Keys
    && var y := m[x].parent;
    && var g := m[y].parent;
    && var b := m[x].left;
    && m'[x].(weight := 0) == Cell(m[x].len, 0, y, m[x].right, g) && Weighed(m', x)
    && m'[y].(weight := 0) == Cell(m[y].len, 0, m[y].left, b, x) && Weighed(m', y)
    && (b != null && b in m ==> m'[b] == m[b].(parent := y))
    && (g != null && g in m ==> m'[g] == if m[g].left == y then m[g].(left := x) else m[g].(right := x))
    && forall n :: n in m && n != x && n != y && n != b && n != g ==> m'[n] == m[n]
  }

  ghost function NodeSet(n: Node?): set<Node> {
    if n == null then {} else {n}
  }

  /** A node `x` below a path: its parent and the path above stay good, whichever way
      the edge between `x` and its parent is turned. `inner` is the subtree that changes
      sides. */
  lemma AboveStays(m: Fields, m': Fields, x: Node, inner: Shape, path: Ctx, below: set<Node>)
    requires !path.Hole? && GoodCtx(m, path, x) && Apart(path, below)
    requires x in below && Nodes(inner) <= below
    requires x in m && m[x].parent == path.n
    requires (TurnedRight(m, m', x) && m[x].right == Top(inner)) || (TurnedLeft(m, m', x) && m[x].left == Top(inner))
    ensures Good(m', Side(path), path.n) && GoodCtx(m', path.up, x)
  {
    var above := below + {path.n} + Nodes(Side(path));
    var up := path.up;
    ApartApart(up, above);
    GoodAgree(m, m', Side(path), path.n);
    if !up.Hole? {
      ApartApart(up.up, above + {up.n} + Nodes(Side(up)));
      GoodAgree(m, m', Side(up), up.n);
      GoodCtxAgree(m, m', up.up, up.n);
    }
  }

  /** The subtrees of a turned node stay good. */
  lemma OuterAgrees(m: Fields, m': Fields, x: Node, outer: Shape, inner: Shape, path: Ctx)
    requires !path.Hole? && Apart(path, Nodes(outer) + {x} + Nodes(inner))
    requires Distinct(inner) && x !in Nodes(outer) && x !in Nodes(inner) && Nodes(outer) !! Nodes(inner)
    requires x in m && m[x].parent == path.n && path.n in m && m[path.n].parent == CtxTop(path.up)
    requires (TurnedRight(m, m', x) && m[x].right == Top(inner)) || (TurnedLeft(m, m', x) && m[x].left == Top(inner))
    ensures Agree(m, m', Nodes(outer))
  {
    ApartApart(path, Nodes(outer) + {x} + Nodes(inner));
  }

  lemma OuterStays(m: Fields, m': Fields, x: Node, outer: Shape, inner: Shape, path: Ctx)
    requires !path.Hole? && Apart(path, Nodes(outer) + {x} + Nodes(inner))
    requires Distinct(inner) && x !in Nodes(outer) && x !in Nodes(inner) && Nodes(outer) !! Nodes(inner)
    requires x in m && m[x].parent == path.n && path.n in m && m[path.n].parent == CtxTop(path.up)
    requires (TurnedRight(m, m', x) && m[x].right == Top(inner)) || (TurnedLeft(m, m', x) && m[x].left == Top(inner))
    requires GoodBelow(m, outer, x) && Good(m, inner, x)
    ensures GoodBelow(m', outer, x) && (Good(m, outer, x) ==> Good(m', outer, x))
  {
    OuterAgrees(m, m', x, outer, inner, path);
    if outer.Bin? {
      GoodAgree(m, m', outer.l, outer.n);
      GoodAgree(m, m', outer.r, outer.n);
    }
  }

  lemma InnerStays(m: Fields, m': Fields, x: Node, outer: Shape, inner: Shape, path: Ctx)
    requires !path.Hole? && Apart(path, Nodes(outer) + {x} + Nodes(inner))
    requires Distinct(inner) && x !in Nodes(outer) && x !in Nodes(inner) && Nodes(outer) !! Nodes(inner)
    requires x in m && m[x].parent == path.n && path.n in m && m[path.n].parent == CtxTop(path.up)
    requires (TurnedRight(m, m', x) && m[x].right == Top(inner)) || (TurnedLeft(m, m', x) && m[x].left == Top(inner))
    requires GoodBelow(m, outer, x) && Good(m, inner, x)
    ensures Good(m', inner, path.n)
  {
    ApartApart(path, Nodes(outer) + {x} + Nodes(inner));
    if inner.Bin? {
      GoodAgree(m, m', inner.l, inner.n);
      GoodAgree(m, m', inner.r, inner.n);
    }
  }

  lemma BelowStays(m: Fields, m': Fields, x: Node, outer: Shape, inner: Shape, path: Ctx)
    requires !path.Hole? && Apart(path, Nodes(outer) + {x} + Nodes(inner))
    requires Distinct(inner) && x !in Nodes(outer) && x !in Nodes(inner) && Nodes(outer) !! Nodes(inner)
    requires x in m && m[x].parent == path.n && path.n in m && m[path.n].parent == CtxTop(path.up)
    requires (TurnedRight(m, m', x) && m[x].right == Top(inner)) || (TurnedLeft(m, m', x) && m[x].left == Top(inner))
    requires GoodBelow(m, outer, x) && Good(m, inner, x)
    ensures GoodBelow(m', outer, x) && (Good(m, outer, x) ==> Good(m', outer, x)) && Good(m', inner, path.n)
  {
    OuterStays(m, m', x, outer, inner, path);
    InnerStays(m, m', x, outer, inner, path);
  }

  /** As Focused, except that the weights just below the focus may be stale as well. */
  ghost predicate Placed(m: Fields, root: Node?, path: Ctx, s: Shape) {
    && s.Bin? && Distinct(s) && Apart(path, Nodes(s))
    && Linked(m, s.n, CtxTop(path), Top(s.l), Top(s.r))
    && GoodBelow(m, s.l, s.n) && GoodBelow(m, s.r, s.n)
    && GoodCtx(m, path, s.n) && root == RootOf(path, s.n)
  }

  /** A right rotation below any path keeps the in-order sequence and the node set. */
  lemma RightRotation(path: Ctx, s: Shape, s': Shape)
    requires path.InLeft? && s.Bin? && s' == Bin(s.l, s.n, Bin(s.r, path.n, path.r))
    requires Distinct(s) && Apart(path, Nodes(s))
    ensures Distinct(s') && Apart(path.up, Nodes(s')) && Nodes(s') == Nodes(s) + {path.n} + Nodes(path.r)
    ensures InOrder(Plug(path.up, s')) == InOrder(Plug(path, s))
  {
    assert Nodes(s') == Nodes(s) + {path.n} + Nodes(path.r);
    assert InOrder(Bin(s, path.n, path.r)) == InOrder(s');
    PlugInOrder(path.up, Bin(s, path.n, path.r), s');
  }

  lemma LeftRotation(path: Ctx, s: Shape, s': Shape)
    requires path.InRight? && s.Bin? && s' == Bin(Bin(path.l, path.n, s.l), s.n, s.r)
    requires Distinct(s) && Apart(path, Nodes(s))
    ensures Distinct(s') && Apart(path.up, Nodes(s')) && Nodes(s') == Nodes(s) + {path.n} + Nodes(path.l)
    ensures InOrder(Plug(path.up, s')) == InOrder(Plug(path, s))
  {
    assert Nodes(s') == Nodes(s) + {path.n} + Nodes(path.l);
    assert InOrder(Bin(path.l, path.n, s)) == InOrder(s');
    PlugInOrder(path.up, Bin(path.l, path.n, s), s');
  }

  lemma RootMoves(path: Ctx, x: Node, root: Node?, root': Node?)
    requires !path.Hole? && root == RootOf(path, x) && root' == (if path.up.Hole? then x else root)
    ensures root' == RootOf(path.up, x)
  {
  }

  lemma TurnRight(m: Fields, m': Fields, root: Node?, root': Node?, path: Ctx, s: Shape, s': Shape)
    requires Placed(m, root, path, s) && Good(m, s.r, s.n) && path.InLeft?
    requires TurnedRight(m, m', s.n) && root' == (if path.up.Hole? then s.n else root)
    requires s' == Bin(s.l, s.n, Bin(s.r, path.n, path.r))
    ensures Placed(m', root', path.up, s') && Good(m', s'.r, s'.n) && Weighed(m', s'.n)
    ensures Good(m, s.l, s.n) ==> Good(m', s'.l, s'.n)
    ensures InOrder(Plug(path.up, s')) == InOrder(Plug(path, s))
  {
    RightRotation(path, s, s');
    AboveStays(m, m', s.n, s.r, path, Nodes(s));
    BelowStays(m, m', s.n, s.l, s.r, path);
    RootMoves(path, s.n, root, root');
  }

  lemma TurnLeft(m: Fields, m': Fields, root: Node?, root': Node?, path: Ctx, s: Shape, s': Shape)
    requires Placed(m, root, path, s) && Good(m, s.l, s.n) && path.InRight?
    requires TurnedLeft(m, m', s.n) && root' == (if path.up.Hole? then s.n else root)
    requires s' == Bin(Bin(path.l, path.n, s.l), s.n, s.r)
    ensures Placed(m', root', path.up, s') && Good(m', s'.l, s'.n) && Weighed(m', s'.n)
    ensures Good(m, s.r, s.n) ==> Good(m', s'.r, s'.n)
    ensures InOrder(Plug(path.up, s')) == InOrder(Plug(path, s))
  {
    LeftRotation(path, s, s');
    AboveStays(m, m', s.n, s.l, path, Nodes(s));
    assert Nodes(s) == Nodes(s.r) + {s.n} + Nodes(s.l);
    BelowStays(m, m', s.n, s.r, s.l, path);
    RootMoves(path, s.n, root, root');
  }

  /** A subtree that is only placed can be focused one step further down. */
  lemma DescendLeft(m: Fields, root: Node?, path: Ctx, s: Shape)
    requires Placed(m, root, path, s) && s.l.Bin? && Good(m, s.r, s.n)
    ensures Focused(m, root, InLeft(s.n, s.r, path), s.l)
  {
    assert Nodes(s) == Nodes(s.l) + {s.n} + Nodes(s.r);
  }

  lemma DescendRight(m: Fields, root: Node?, path: Ctx, s: Shape)
    requires Placed(m, root, path, s) && s.r.Bin? && Good(m, s.l, s.n)
    ensures Focused(m, root, InRight(s.l, s.n, path), s.r)
  {
    assert Nodes(s) == Nodes(s.r) + {s.n} + Nodes(s.l);
  }

  lemma AscendLeft(m: Fields, root: Node?, path: Ctx, s: Shape)
    requires Focused(m, root, path, s) && path.InLeft?
    ensures Placed(m, root, path.up, Bin(s, path.n, path.r))
  {
    var t := Bin(s, path.n, path.r);
    assert Nodes(t) == Nodes(s) + {path.n} + Nodes(path.r);
  }

  lemma AscendRight(m: Fields, root: Node?, path: Ctx, s: Shape)
    requires Focused(m, root, path, s) && path.InRight?
    ensures Placed(m, root, path.up, Bin(path.l, path.n, s))
  {
    var t := Bin(path.l, path.n, s);
    assert Nodes(t) == Nodes(s) + {path.n} + Nodes(path.l);
  }
}
