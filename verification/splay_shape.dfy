/** The ghost side of the weighted splay tree: the shape of the pointer structure as a
    value, the zipper that splaying walks up, and what the fields of the nodes must
    satisfy. Everything below the class is about values: the fields of a set of nodes
    are taken as a `Fields` map, so that one rotation is one step between two maps. */
module SplayShape {
  import opened Sequences

  /** A node of the index tree. `len` stands for `value.Len()`, which the owner of
      the value may change behind the tree's back. */
  class Node {
    var value: object?
    var len: nat
    var weight: int
    var left: Node?
    var right: Node?
    var parent: Node?

    constructor (len: nat)
      ensures value == null && this.len == len && weight == len
      ensures left == null && right == null && parent == null
    {
      value, this.len, weight := null, len, len;
      left, right, parent := null, null, null;
    }

    method Unlink()
      modifies this`parent, this`right, this`left
      ensures !HasLinks()
    {
      parent, right, left := null, null, null;
    }

    predicate HasLinks()
      reads this
    {
      parent != null || left != null || right != null
    }
  }

  datatype Cell = Cell(len: nat, weight: int, left: Node?, right: Node?, parent: Node?)

  type Fields = map<Node, Cell>

  ghost function FieldsOf(ns: set<Node>): (m: Fields)
    reads ns`len, ns`weight, ns`left, ns`right, ns`parent
    ensures m.Keys == ns
  {
    map n | n in ns :: Cell(n.len, n.weight, n.left, n.right, n.parent)
  }

  datatype Shape = Leaf | Bin(l: Shape, n: Node, r: Shape)

  /** A path from the root down to a hole, innermost step first. */
  datatype Ctx = Hole | InLeft(n: Node, r: Shape, up: Ctx) | InRight(l: Shape, n: Node, up: Ctx)

  ghost function Top(s: Shape): Node? {
    if s.Leaf? then null else s.n
  }

  ghost function Nodes(s: Shape): set<Node> {
    match s
    case Leaf => {}
    case Bin(l, n, r) => Nodes(l) + {n} + Nodes(r)
  }

  ghost function InOrder(s: Shape): seq<Node> {
    match s
    case Leaf => []
    case Bin(l, n, r) => InOrder(l) + [n] + InOrder(r)
  }

  ghost predicate Distinct(s: Shape) {
    match s
    case Leaf => true
    case Bin(l, n, r) =>
      && Distinct(l) && Distinct(r)
      && n !in Nodes(l) && n !in Nodes(r) && Nodes(l) !! Nodes(r)
  }

  /** The weight stored at the top of a subtree, as leftWeight and rightWeight read it. */
  ghost function Weight(m: Fields, n: Node?): int {
    if n == null || n !in m then 0 else m[n].weight
  }

  /** The links of `n` are to `p`, `l` and `r`. */
  ghost predicate Linked(m: Fields, n: Node, p: Node?, l: Node?, r: Node?) {
    n in m && m[n].parent == p && m[n].left == l && m[n].right == r
  }

  ghost predicate Weighed(m: Fields, n: Node)
    requires n in m
  {
    m[n].weight == m[n].len + Weight(m, m[n].left) + Weight(m, m[n].right)
  }

  /** The links of the subtree are exactly its shape, and each weight is the sum of
      the node's own length and the weights of its children. */
  ghost predicate Good(m: Fields, s: Shape, p: Node?) {
    match s
    case Leaf => true
    case Bin(l, n, r) => Linked(m, n, p, Top(l), Top(r)) && Weighed(m, n) && Good(m, l, n) && Good(m, r, n)
  }

  /** As Good, except that nothing is said of the weight of the topmost node. */
  ghost predicate GoodBelow(m: Fields, s: Shape, p: Node?) {
    match s
    case Leaf => true
    case Bin(l, n, r) => Linked(m, n, p, Top(l), Top(r)) && Good(m, l, n) && Good(m, r, n)
  }

  /** As Good, except that nothing is said of the weights on the path down to `x`. */
  ghost predicate GoodOff(m: Fields, s: Shape, x: Node, p: Node?) {
    match s
    case Leaf => true
    case Bin(l, n, r) =>
      && Linked(m, n, p, Top(l), Top(r))
      && (if x in Nodes(l) then GoodOff(m, l, x, n) else Good(m, l, n))
      && (if x in Nodes(r) then GoodOff(m, r, x, n) else Good(m, r, n))
  }

  // ----- the zipper -----

  ghost function CtxTop(c: Ctx): Node? {
    if c.Hole? then null else c.n
  }

  /** The subtree that hangs off the innermost step of a path. */
  ghost function Side(c: Ctx): Shape {
    match c
    case Hole => Leaf
    case InLeft(_, r, _) => r
    case InRight(l, _, _) => l
  }

  ghost function CtxNodes(c: Ctx): set<Node> {
    if c.Hole? then {} else {c.n} + Nodes(Side(c)) + CtxNodes(c.up)
  }

  ghost function Depth(c: Ctx): nat {
    if c.Hole? then 0 else 1 + Depth(c.up)
  }

  /** The node at the root of the tree when `child` is at the top of the hole. */
  ghost function RootOf(c: Ctx, child: Node?): Node? {
    if c.Hole? then child else RootOf(c.up, c.n)
  }

  ghost function Plug(c: Ctx, s: Shape): Shape {
    match c
    case Hole => s
    case InLeft(n, r, up) => Plug(up, Bin(s, n, r))
    case InRight(l, n, up) => Plug(up, Bin(l, n, s))
  }

  /** The links along the path lead to `child`, and the subtrees hanging off it are good. */
  ghost predicate GoodCtx(m: Fields, c: Ctx, child: Node?) {
    match c
    case Hole => true
    case InLeft(n, r, up) => Linked(m, n, CtxTop(up), child, Top(r)) && Good(m, r, n) && GoodCtx(m, up, n)
    case InRight(l, n, up) => Linked(m, n, CtxTop(up), Top(l), child) && Good(m, l, n) && GoodCtx(m, up, n)
  }

  /** No node of the path occurs twice, nor in the set `below`. */
  ghost predicate Apart(c: Ctx, below: set<Node>) {
    c.Hole? || (
      && c.n !in below && c.n !in Nodes(Side(c)) && below !! Nodes(Side(c)) && Distinct(Side(c))
      && Apart(c.up, below + {c.n} + Nodes(Side(c))))
  }

  /** The tree with root `root` is `s` plugged into the path `c`; only the weights on
      the path, including that of the topmost node of `s`, may be stale. */
  ghost predicate Focused(m: Fields, root: Node?, c: Ctx, s: Shape) {
    && s.Bin? && Distinct(s) && Apart(c, Nodes(s))
    && GoodBelow(m, s, CtxTop(c)) && GoodCtx(m, c, s.n)
    && root == RootOf(c, s.n)
  }

  // ----- lemmas about shapes -----

  lemma {:induction false} InOrderNodes(s: Shape)
    ensures Nodes(s) == set x | x in InOrder(s)
  {
    match s
    case Leaf =>
    case Bin(l, n, r) => InOrderNodes(l); InOrderNodes(r);
  }

  lemma SameNodes(s: Shape, s': Shape)
    requires InOrder(s) == InOrder(s')
    ensures Nodes(s) == Nodes(s')
  {
    InOrderNodes(s);
    InOrderNodes(s');
  }

  lemma {:induction false} InOrderNoDup(s: Shape)
    requires Distinct(s)
    ensures NoDup(InOrder(s))
  {
    match s
    case Leaf =>
    case Bin(l, n, r) =>
      InOrderNoDup(l);
      InOrderNoDup(r);
      InOrderNodes(l);
      InOrderNodes(r);
      var a, b := InOrder(l), InOrder(r);
      var s' := a + [n] + b;
      forall i, j | 0 <= i < |s'| && 0 <= j < |s'| ensures Differ(s', i, j) {
        assert i < |a| ==> a[i] in Nodes(l);
        assert j < |a| ==> a[j] in Nodes(l);
        assert i > |a| ==> b[i - |a| - 1] in Nodes(r);
        assert j > |a| ==> b[j - |a| - 1] in Nodes(r);
        assert i < |a| && j < |a| ==> Differ(a, i, j);
        assert i > |a| && j > |a| ==> Differ(b, i - |a| - 1, j - |a| - 1);
      }
  }

  /** The topmost node stands between the nodes of its two subtrees. */
  lemma TopPosition(s: Shape, i: nat)
    requires Distinct(s) && s.Bin? && i < |InOrder(s)| && InOrder(s)[i] == s.n
    ensures i == |InOrder(s.l)|
    ensures InOrder(s)[..i] == InOrder(s.l) && InOrder(s)[i + 1..] == InOrder(s.r)
  {
    InOrderNoDup(s);
    assert InOrder(s)[|InOrder(s.l)|] == s.n;
    assert Differ(InOrder(s), i, |InOrder(s.l)|);
  }

  /** Two shapes with the same in-order sequence may replace each other below any path. */
  lemma {:induction false} PlugInOrder(c: Ctx, s: Shape, s': Shape)
    requires InOrder(s) == InOrder(s')
    ensures InOrder(Plug(c, s)) == InOrder(Plug(c, s'))
    decreases c
  {
    match c
    case Hole =>
    case InLeft(n, r, up) => PlugInOrder(up, Bin(s, n, r), Bin(s', n, r));
    case InRight(l, n, up) => PlugInOrder(up, Bin(l, n, s), Bin(l, n, s'));
  }

  lemma {:induction false} ApartApart(c: Ctx, below: set<Node>)
    requires Apart(c, below)
    ensures CtxNodes(c) !! below
    decreases c
  {
    if !c.Hole? {
      ApartApart(c.up, below + {c.n} + Nodes(Side(c)));
    }
  }

  // ----- what goodness depends on -----

  ghost predicate Agree(m: Fields, m': Fields, ns: set<Node>) {
    forall n :: n in ns && n in m ==> n in m' && m'[n] == m[n]
  }

  lemma {:induction false} GoodAgree(m: Fields, m': Fields, s: Shape, p: Node?)
    requires Agree(m, m', Nodes(s)) && Good(m, s, p)
    ensures Good(m', s, p)
  {
    match s
    case Leaf =>
    case Bin(l, n, r) => GoodAgree(m, m', l, n); GoodAgree(m, m', r, n);
  }

  lemma {:induction false} GoodCtxAgree(m: Fields, m': Fields, c: Ctx, child: Node?)
    requires Agree(m, m', CtxNodes(c)) && GoodCtx(m, c, child)
    ensures GoodCtx(m', c, child)
    decreases c
  {
    if !c.Hole? {
      GoodAgree(m, m', Side(c), c.n);
      GoodCtxAgree(m, m', c.up, c.n);
    }
  }

  lemma {:induction false} GoodIsGoodOff(m: Fields, s: Shape, x: Node, p: Node?)
    requires Good(m, s, p)
    ensures GoodOff(m, s, x, p)
  {
    match s
    case Leaf =>
    case Bin(l, n, r) => GoodIsGoodOff(m, l, x, n); GoodIsGoodOff(m, r, x, n);
  }

  /** Every node of a tree is at the top of a subtree, reached along a good path. */
  lemma {:induction false} Focus(m: Fields, s: Shape, x: Node, p: Node?, c: Ctx) returns (c': Ctx, s': Shape)
    requires x in Nodes(s) && Distinct(s) && GoodOff(m, s, x, p)
    requires p == CtxTop(c) && GoodCtx(m, c, Top(s)) && Apart(c, Nodes(s))
    ensures Focused(m, RootOf(c, Top(s)), c', s') && s'.n == x
    ensures Plug(c', s') == Plug(c, s)
    decreases s
  {
    var Bin(l, n, r) := s;
    if n == x {
      c', s' := c, s;
    } else if x in Nodes(l) {
      assert Nodes(l) + {n} + Nodes(r) == Nodes(s);
      c', s' := Focus(m, l, x, n, InLeft(n, r, c));
    } else {
      assert Nodes(r) + {n} + Nodes(l) == Nodes(s);
      c', s' := Focus(m, r, x, n, InRight(l, n, c));
    }
  }

  // ----- lengths -----

  /** The total length of the values of a sequence of nodes. */
  ghost function Total(m: Fields, ns: seq<Node>): nat {
    if ns == [] then 0 else (if ns[0] in m then m[ns[0]].len else 0) + Total(m, ns[1..])
  }

  lemma {:induction false} TotalAppend(m: Fields, a: seq<Node>, b: seq<Node>)
    ensures Total(m, a + b) == Total(m, a) + Total(m, b)
  {
    if a == [] {
      assert a + b == b;
    } else {
      TotalAppend(m, a[1..], b);
      assert (a + b)[1..] == a[1..] + b;
    }
  }

  lemma TotalAround(m: Fields, a: seq<Node>, n: Node, b: seq<Node>)
    requires n in m
    ensures Total(m, a + [n] + b) == Total(m, a) + m[n].len + Total(m, b)
  {
    TotalAppend(m, a + [n], b);
    TotalAppend(m, a, [n]);
  }

  /** In a good subtree the stored weight is the total length of the values below. */
  lemma {:induction false} WeightIsTotal(m: Fields, s: Shape, p: Node?)
    requires Good(m, s, p)
    ensures Weight(m, Top(s)) == Total(m, InOrder(s))
  {
    match s
    case Leaf =>
    case Bin(l, n, r) =>
      WeightIsTotal(m, l, n);
      WeightIsTotal(m, r, n);
      TotalAround(m, InOrder(l), n, InOrder(r));
  }

  /** The subtree that has the node at its top. */
  ghost function SubtreeAt(s: Shape, x: Node): (t: Shape)
    requires x in Nodes(s)
    ensures t.Bin? && t.n == x && Nodes(t) <= Nodes(s)
  {
    if s.n == x then s else if x in Nodes(s.l) then SubtreeAt(s.l, x) else SubtreeAt(s.r, x)
  }

  /** A good tree stores at every node the total length of the values below it. */
  lemma {:induction false} EveryWeightIsTotal(m: Fields, s: Shape, p: Node?, x: Node)
    requires Good(m, s, p) && x in Nodes(s)
    ensures x in m && m[x].weight == Total(m, InOrder(SubtreeAt(s, x)))
  {
    WeightIsTotal(m, s, p);
    if s.n == x {
    } else if x in Nodes(s.l) {
      EveryWeightIsTotal(m, s.l, s.n, x);
    } else {
      EveryWeightIsTotal(m, s.r, s.n, x);
    }
  }

  // ----- finding a position -----

  /** The search for position `index` in `all` has come down to the subtree `s`, where it
      goes on for position `offset`. */
  ghost predicate Searching(m: Fields, all: seq<Node>, index: int, s: Shape, before: seq<Node>, offset: int) {
    && s.Bin? && s.n in m && GoodBelow(m, s, m[s.n].parent)
    && |before| + |InOrder(s)| <= |all| && all[..|before|] == before
    && all[|before|..|before| + |InOrder(s)|] == InOrder(s)
    && offset == index - Total(m, before)
    && (before == [] || offset > 0)
    && (offset <= Total(m, InOrder(s)) <==> index <= Total(m, all))
  }

  /** A stretch of a sequence taken apart. */
  lemma Parts<T>(all: seq<T>, before: seq<T>, a: seq<T>, b: seq<T>)
    requires |before| + |a| + |b| <= |all| && all[..|before|] == before
    requires all[|before|..|before| + |a + b|] == a + b
    ensures all[|before|..|before| + |a|] == a
    ensures all[..|before + a|] == before + a && all[|before + a|..|before + a| + |b|] == b
  {
    var part := all[|before|..|before| + |a + b|];
    assert part[..|a|] == a && part[|a|..] == b;
    assert all[..|before| + |a|] == before + part[..|a|];
    assert all[|before| + |a|..|before| + |a| + |b|] == part[|a|..];
  }

  lemma PartsAround<T>(all: seq<T>, before: seq<T>, l: seq<T>, x: T, r: seq<T>)
    requires |before| + |l| + 1 + |r| <= |all| && all[..|before|] == before
    requires all[|before|..|before| + |l + [x] + r|] == l + [x] + r
    ensures all[|before|..|before| + |l|] == l && all[..|before + l|] == before + l && all[|before + l|] == x
    ensures var b := before + (l + [x]);
            all[..|b|] == b && all[|b|..|b| + |r|] == r
  {
    Parts(all, before, l + [x], r);
    assert l + [x] + r == l + ([x] + r);
    Parts(all, before, l, [x] + r);
    assert all[|before + l|..|before + l| + |[x] + r|][0] == x;
  }

  lemma TotalParts(m: Fields, before: seq<Node>, l: seq<Node>, n: Node)
    requires n in m
    ensures Total(m, before + l) == Total(m, before) + Total(m, l)
    ensures Total(m, before + (l + [n])) == Total(m, before) + Total(m, l) + m[n].len
  {
    TotalAppend(m, before, l);
    TotalAppend(m, before, l + [n]);
    TotalAround(m, l, n, []);
    assert l + [n] + [] == l + [n];
  }

  /** The lengths left of the node, and the stretches it lies between. */
  lemma SearchParts(m: Fields, all: seq<Node>, index: int, s: Shape, before: seq<Node>, offset: int)
    requires Searching(m, all, index, s, before, offset)
    ensures var l, r := InOrder(s.l), InOrder(s.r);
            && Weight(m, m[s.n].left) == Total(m, l) && Total(m, InOrder(s)) == Total(m, l) + m[s.n].len + Total(m, r)
            && |before| + |l| + 1 + |r| <= |all|
            && all[|before|..|before| + |l|] == l && all[..|before + l|] == before + l && all[|before + l|] == s.n
            && all[..|before + (l + [s.n])|] == before + (l + [s.n])
            && all[|before + (l + [s.n])|..|before + (l + [s.n])| + |r|] == r
            && Total(m, before + l) == Total(m, before) + Total(m, l)
            && Total(m, before + (l + [s.n])) == Total(m, before) + Total(m, l) + m[s.n].len
  {
    var l, r := InOrder(s.l), InOrder(s.r);
    WeightIsTotal(m, s.l, s.n);
    TotalAround(m, l, s.n, r);
    PartsAround(all, before, l, s.n, r);
    TotalParts(m, before, l, s.n);
  }

  lemma SearchLeft(m: Fields, all: seq<Node>, index: int, s: Shape, before: seq<Node>, offset: int)
    requires Searching(m, all, index, s, before, offset) && s.l.Bin? && offset <= Weight(m, m[s.n].left)
    ensures Searching(m, all, index, s.l, before, offset)
  {
    SearchParts(m, all, index, s, before, offset);
  }

  lemma SearchRight(m: Fields, all: seq<Node>, index: int, s: Shape, before: seq<Node>, offset: int)
    requires Searching(m, all, index, s, before, offset) && s.r.Bin?
    requires Weight(m, m[s.n].left) + m[s.n].len < offset
    ensures Searching(m, all, index, s.r, before + (InOrder(s.l) + [s.n]), offset - Weight(m, m[s.n].left) - m[s.n].len)
  {
    SearchParts(m, all, index, s, before, offset);
  }

  lemma SearchStop(m: Fields, all: seq<Node>, index: int, s: Shape, before: seq<Node>, offset: int)
    requires Searching(m, all, index, s, before, offset)
    requires s.l == Leaf || offset > Weight(m, m[s.n].left)
    requires s.r == Leaf || offset <= Weight(m, m[s.n].left) + m[s.n].len
    ensures var i := |before + InOrder(s.l)|;
            && i < |all| && all[i] == s.n
            && offset - Weight(m, m[s.n].left) == index - Total(m, all[..i])
            && (index <= Total(m, all) <==> offset - Weight(m, m[s.n].left) <= m[s.n].len)
            && (if index <= 0 then i == 0 else 0 < offset - Weight(m, m[s.n].left))
  {
    SearchParts(m, all, index, s, before, offset);
  }

  lemma TotalGrows(m: Fields, ns: seq<Node>, i: nat, j: nat)
    requires i <= j <= |ns|
    ensures Total(m, ns[..i]) <= Total(m, ns[..j])
    ensures i < |ns| && ns[i] in m ==> Total(m, ns[..i + 1]) == Total(m, ns[..i]) + m[ns[i]].len
  {
    TotalAppend(m, ns[..i], ns[i..j]);
    assert ns[..i] + ns[i..j] == ns[..j];
    if i < |ns| {
      TotalAppend(m, ns[..i], [ns[i]]);
      assert ns[..i] + [ns[i]] == ns[..i + 1];
    }
  }

  /** The position lies in the node at `j`. */
  ghost predicate Holds(m: Fields, ns: seq<Node>, index: int, j: int) {
    && 0 <= j < |ns| && ns[j] in m
    && Total(m, ns[..j]) < index <= Total(m, ns[..j]) + m[ns[j]].len
  }

  /** A position lies in one node only: the lengths before it fall short of the position, and
      with its own they do not. */
  lemma HolderUnique(m: Fields, ns: seq<Node>, index: int, i: nat, j: nat)
    requires Holds(m, ns, index, i) && Holds(m, ns, index, j)
    ensures i == j
  {
    if i < j {
      TotalGrows(m, ns, i, j);
      TotalGrows(m, ns, i + 1, j);
    } else if j < i {
      TotalGrows(m, ns, j, i);
      TotalGrows(m, ns, j + 1, i);
    }
  }

  // ----- the position of a node -----

  /** `sum` is the total length from the start of `s` up to and including `x`. */
  ghost predicate Counting(m: Fields, s: Shape, x: Node, before: seq<Node>, after: seq<Node>, sum: int) {
    x in m && InOrder(s) == before + [x] + after && sum == Total(m, before) + m[x].len
  }

  /** One step up the path: coming from the right child, the parent and its left
      subtree are added; coming from the left child, nothing is. */
  lemma CountUp(m: Fields, root: Node?, path: Ctx, s: Shape, x: Node, before: seq<Node>, after: seq<Node>, sum: int)
      returns (s': Shape, before': seq<Node>, after': seq<Node>)
    requires !path.Hole? && Apart(path, Nodes(s)) && GoodCtx(m, path, Top(s)) && s.Bin?
    requires Counting(m, s, x, before, after, sum)
    ensures s'.Bin? && s'.n == path.n && Plug(path.up, s') == Plug(path, s)
    ensures Apart(path.up, Nodes(s')) && GoodCtx(m, path.up, path.n)
    ensures path.n in m && m[path.n].parent == CtxTop(path.up)
    ensures path.InRight? <==> m[path.n].right == s.n
    ensures Counting(m, s', x, before', after',
                     if path.InRight? then sum + m[path.n].len + Weight(m, m[path.n].left) else sum)
  {
    if path.InLeft? {
      s' := Bin(s, path.n, path.r);
      assert Nodes(s') == Nodes(s) + {path.n} + Nodes(path.r);
      before', after' := before, after + [path.n] + InOrder(path.r);
      assert InOrder(s') == before' + [x] + after';
    } else {
      s' := Bin(path.l, path.n, s);
      assert Nodes(s') == Nodes(s) + {path.n} + Nodes(path.l);
      before', after' := InOrder(path.l) + [path.n] + before, after;
      assert InOrder(s') == before' + [x] + after';
      WeightIsTotal(m, path.l, path.n);
      TotalAround(m, InOrder(path.l), path.n, before);
    }
  }

  // ----- a value that changes its length -----

  lemma {:induction false} LenChanged(m: Fields, m': Fields, s: Shape, x: Node, p: Node?)
    requires Good(m, s, p) && Distinct(s)
    requires x in m && x in m' && m'[x] == m[x].(len := m'[x].len) && Agree(m, m', Nodes(s) - {x})
    ensures GoodOff(m', s, x, p) && (x !in Nodes(s) ==> Good(m', s, p))
  {
    match s
    case Leaf =>
    case Bin(l, n, r) =>
      LenChanged(m, m', l, x, n);
      LenChanged(m, m', r, x, n);
  }
}
