/** The links between the nodes of a text: the list, and for each insertion the chain of
    the nodes it was split into. Everything is about the fields of the nodes as a map. */
module TextLinks {
  import opened Time
  import opened Wrappers
  import opened TextBlocks
  import opened Sequences
  import SplayShape

  class TextNode {
    const id: NodeID
    const indexNode: SplayShape.Node
    var value: seq<CodeUnit>
    var removedAt: Option<Ticket>
    var prev: TextNode?
    var next: TextNode?
    var insPrev: TextNode?
    var insNext: TextNode?

    constructor (id: NodeID, value: seq<CodeUnit>)
      ensures this.id == id && this.value == value && removedAt == None
      ensures prev == null && next == null && insPrev == null && insNext == null
      ensures fresh(indexNode) && indexNode.value == this && indexNode.len == |value| && !indexNode.HasLinks()
    {
      this.id, this.value, this.removedAt := id, value, None;
      prev, next, insPrev, insNext := null, null, null, null;
      indexNode := new SplayShape.Node(|value|);
      new;
      indexNode.value := this;
    }

    /** Cuts the value down to its first `offset` code units; the rest becomes a new node,
        whatever removal the old one carries. */
    method Split(offset: nat) returns (node: TextNode)
      requires offset <= |value|
      modifies this`value
      ensures value == old(value[..offset])
      ensures fresh(node) && node.id == id.Split(offset) && node.value == old(value[offset..]) && node.removedAt == None
      ensures node.prev == null && node.next == null && node.insPrev == null && node.insNext == null
      ensures fresh(node.indexNode) && node.indexNode.value == node && node.indexNode.len == |node.value|
      ensures !node.indexNode.HasLinks()
    {
      node := new TextNode(id.Split(offset), value[offset..]);
      value := value[..offset];
    }

    /** Marks this node as removed if the deletion may see it and is later than an earlier one. */
    method Remove(removedAt: Ticket, latestCreatedAt: Ticket) returns (removed: bool)
      modifies this`removedAt
      ensures removed <==> !After(id.createdAt, latestCreatedAt)
                           && (old(this.removedAt).None? || After(removedAt, old(this.removedAt).value))
      ensures this.removedAt == if removed then Some(removedAt) else old(this.removedAt)
      ensures if !After(id.createdAt, latestCreatedAt) then IsLater(old(this.removedAt), removedAt, this.removedAt)
              else this.removedAt == old(this.removedAt)
    {
      CompareIsTotalOrder(removedAt, if this.removedAt.Some? then this.removedAt.value else removedAt, removedAt);
      if !After(id.createdAt, latestCreatedAt) && (this.removedAt.None? || After(removedAt, this.removedAt.value)) {
        this.removedAt := Some(removedAt);
        return true;
      }
      return false;
    }

    function Len(): nat
      reads `value, `removedAt
    {
      if removedAt.Some? then 0 else |value|
    }
  }

  datatype Cell = Cell(value: seq<CodeUnit>, removedAt: Option<Ticket>,
                       prev: TextNode?, next: TextNode?, insPrev: TextNode?, insNext: TextNode?)

  type Fields = map<TextNode, Cell>

  ghost function FieldsOf(ns: set<TextNode>): (m: Fields)
    reads ns`value, ns`removedAt, ns`prev, ns`next, ns`insPrev, ns`insNext
    ensures m.Keys == ns
  {
    map n | n in ns :: Cell(n.value, n.removedAt, n.prev, n.next, n.insPrev, n.insNext)
  }

  ghost predicate Are(m: Fields, ns: set<TextNode>)
    reads ns`value, ns`removedAt, ns`prev, ns`next, ns`insPrev, ns`insNext
  {
    m == FieldsOf(ns)
  }

  ghost predicate Within(m: Fields, ns: seq<TextNode>) {
    forall i :: 0 <= i < |ns| ==> ns[i] in m
  }

  ghost function BlockOf(m: Fields, n: TextNode): Block
    requires n in m
  {
    Block(n.id, m[n].value, m[n].removedAt)
  }

  ghost function BlocksTo(m: Fields, ns: seq<TextNode>, n: nat): (bs: seq<Block>)
    requires Within(m, ns) && n <= |ns|
    ensures |bs| == n
  {
    if n == 0 then [] else BlocksTo(m, ns, n - 1) + [BlockOf(m, ns[n - 1])]
  }

  ghost function BlocksOf(m: Fields, ns: seq<TextNode>): (bs: seq<Block>)
    requires Within(m, ns)
    ensures |bs| == |ns|
  {
    BlocksTo(m, ns, |ns|)
  }

  lemma {:induction false} BlocksUpTo(m: Fields, ns: seq<TextNode>, n: nat, i: nat)
    requires Within(m, ns) && i < n <= |ns|
    ensures BlocksTo(m, ns, n)[i] == BlockOf(m, ns[i])
  {
    if i < n - 1 {
      BlocksUpTo(m, ns, n - 1, i);
    }
  }

  lemma BlocksAt(m: Fields, ns: seq<TextNode>, i: nat)
    requires Within(m, ns) && i < |ns|
    ensures BlocksOf(m, ns)[i] == BlockOf(m, ns[i])
  {
    BlocksUpTo(m, ns, |ns|, i);
  }

  lemma BlocksAll(m: Fields, ns: seq<TextNode>)
    requires Within(m, ns)
    ensures forall i :: 0 <= i < |ns| ==> BlocksOf(m, ns)[i] == BlockOf(m, ns[i])
  {
    forall i | 0 <= i < |ns| ensures BlocksOf(m, ns)[i] == BlockOf(m, ns[i]) {
      BlocksAt(m, ns, i);
    }
  }

  ghost function At(ns: seq<TextNode>, i: int): TextNode? {
    if 0 <= i < |ns| then ns[i] else null
  }

  ghost predicate LinkedAt(m: Fields, ns: seq<TextNode>, i: int)
    requires 0 <= i < |ns|
  {
    ns[i] in m && m[ns[i]].prev == At(ns, i - 1) && m[ns[i]].next == At(ns, i + 1)
  }

  /** prev and next lead along the sequence. */
  ghost predicate ListLinked(m: Fields, ns: seq<TextNode>) {
    Within(m, ns) && NoDup(ns) && forall i :: 0 <= i < |ns| ==> LinkedAt(m, ns, i)
  }

  // ----- the chain of an insertion -----

  /** The last of the first `n` nodes that comes from the insertion `c`, -1 if none does. */
  ghost function PrevOf(ns: seq<TextNode>, c: Ticket, n: nat): (p: int)
    requires n <= |ns|
    ensures -1 <= p < n && (p >= 0 ==> ns[p].id.createdAt == c)
  {
    if n == 0 then -1 else if ns[n - 1].id.createdAt == c then n - 1 else PrevOf(ns, c, n - 1)
  }

  /** The first node from `n` on that comes from the insertion `c`, the end if none does. */
  ghost function NextOf(ns: seq<TextNode>, c: Ticket, n: nat): (p: nat)
    requires n <= |ns|
    ensures n <= p <= |ns| && (p < |ns| ==> ns[p].id.createdAt == c)
    decreases |ns| - n
  {
    if n == |ns| || ns[n].id.createdAt == c then n else NextOf(ns, c, n + 1)
  }

  ghost function PrevLink(ns: seq<TextNode>, i: nat): TextNode?
    requires i < |ns|
  {
    At(ns, PrevOf(ns, ns[i].id.createdAt, i))
  }

  ghost function NextLink(ns: seq<TextNode>, i: nat): TextNode?
    requires i < |ns|
  {
    At(ns, NextOf(ns, ns[i].id.createdAt, i + 1))
  }

  ghost predicate ChainedAt(m: Fields, ns: seq<TextNode>, i: int)
    requires 0 <= i < |ns|
  {
    ns[i] in m && m[ns[i]].insPrev == PrevLink(ns, i) && m[ns[i]].insNext == NextLink(ns, i)
  }

  /** insPrev and insNext link consecutive nodes of an insertion in both directions, and
      nothing else. */
  ghost predicate ChainLinked(m: Fields, ns: seq<TextNode>) {
    forall i :: 0 <= i < |ns| ==> ChainedAt(m, ns, i)
  }

  lemma {:induction false} PrevOfIsPrevSame(m: Fields, ns: seq<TextNode>, i: nat, n: nat)
    requires Within(m, ns) && n <= i < |ns|
    ensures PrevOf(ns, ns[i].id.createdAt, n) == PrevSame(BlocksOf(m, ns), i, n)
  {
    if n > 0 {
      BlocksAt(m, ns, i);
      BlocksAt(m, ns, n - 1);
      PrevOfIsPrevSame(m, ns, i, n - 1);
    }
  }

  lemma {:induction false} PrevIsLast(ns: seq<TextNode>, c: Ticket, n: nat, j: nat)
    requires j < n <= |ns| && ns[j].id.createdAt == c
    ensures j <= PrevOf(ns, c, n)
  {
    if j < n - 1 {
      PrevIsLast(ns, c, n - 1, j);
    }
  }

  lemma {:induction false} NextIsFirst(ns: seq<TextNode>, c: Ticket, n: nat, j: nat)
    requires n <= j < |ns| && ns[j].id.createdAt == c
    ensures NextOf(ns, c, n) <= j
    decreases j - n
  {
    if n < j {
      NextIsFirst(ns, c, n + 1, j);
    }
  }

  lemma PrevNextInverse(ns: seq<TextNode>, i: nat, j: nat)
    requires i < |ns| && j < |ns|
    ensures NextOf(ns, ns[i].id.createdAt, i + 1) == j <==> PrevOf(ns, ns[j].id.createdAt, j) == i
  {
    var c := ns[i].id.createdAt;
    if i < j && ns[j].id.createdAt == c {
      PrevIsLast(ns, c, j, i);
      NextIsFirst(ns, c, i + 1, j);
      var p, n := PrevOf(ns, c, j), NextOf(ns, c, i + 1);
      if i < p {
        NextIsFirst(ns, c, i + 1, p);
      }
      if n < j {
        PrevIsLast(ns, c, j, n);
      }
    }
  }

  // ----- the same list with and without one node -----

  /** Where an index of the shorter list is in the longer one. */
  ghost function Wide(q: nat, i: nat): nat {
    if i < q then i else i + 1
  }

  ghost function Narrow(q: nat, w: nat): (i: nat)
    requires w != q
    ensures Wide(q, i) == w
  {
    if w < q then w else w - 1
  }

  lemma {:induction false} PrevWithout(r: seq<TextNode>, q: nat, c: Ticket, n: nat)
    requires q < |r| && n <= |r|
    ensures n <= q ==> PrevOf(Without(r, q), c, n) == PrevOf(r, c, n)
    ensures n > q ==> PrevOf(Without(r, q), c, n - 1)
                      == (var p := PrevOf(r, c, n); if p > q then p - 1 else if p == q then PrevOf(r, c, q) else p)
  {
    if n > 0 {
      PrevWithout(r, q, c, n - 1);
    }
  }

  lemma {:induction false} NextWithout(r: seq<TextNode>, q: nat, c: Ticket, n: nat)
    requires q < |r| && n <= |r|
    ensures n > q ==> NextOf(Without(r, q), c, n - 1) == NextOf(r, c, n) - 1
    ensures n <= q ==> NextOf(Without(r, q), c, n)
                       == (var p := NextOf(r, c, n);
                           if p > q then p - 1 else if p == q then NextOf(r, c, q + 1) - 1 else p)
    decreases |r| - n
  {
    if n < |r| {
      NextWithout(r, q, c, n + 1);
    }
  }

  lemma AtWithout(r: seq<TextNode>, q: nat, k: int)
    requires q < |r| && NoDup(r)
    ensures k != q ==> At(Without(r, q), if k > q then k - 1 else k) == At(r, k) != r[q]
  {
    assert 0 <= k < |r| ==> Differ(r, k, q);
  }

  lemma AtIs(r: seq<TextNode>, k: int, w: nat)
    requires w < |r| && NoDup(r)
    ensures At(r, k) == r[w] <==> k == w
  {
    assert 0 <= k < |r| ==> Differ(r, k, w);
  }

  /** The links of a node in the shorter list are those in the longer one, except that the
      node left out is passed over. */
  lemma PrevLinkWithout(r: seq<TextNode>, q: nat, i: nat)
    requires q < |r| && i < |r| - 1 && NoDup(r)
    ensures Without(r, q)[i] == r[Wide(q, i)] != r[q]
    ensures PrevLink(Without(r, q), i)
            == if PrevLink(r, Wide(q, i)) == r[q] then PrevLink(r, q) else PrevLink(r, Wide(q, i))
  {
    var w := Wide(q, i);
    AtWithout(r, q, w);
    var c := r[w].id.createdAt;
    PrevWithout(r, q, c, w);
    AtWithout(r, q, PrevOf(r, c, w));
    AtWithout(r, q, PrevOf(r, c, q));
  }

  lemma NextLinkWithout(r: seq<TextNode>, q: nat, i: nat)
    requires q < |r| && i < |r| - 1 && NoDup(r)
    ensures Without(r, q)[i] == r[Wide(q, i)] != r[q]
    ensures NextLink(Without(r, q), i)
            == if NextLink(r, Wide(q, i)) == r[q] then NextLink(r, q) else NextLink(r, Wide(q, i))
  {
    var w := Wide(q, i);
    AtWithout(r, q, w);
    NextNodeWithout(r, q, r[w].id.createdAt, w);
  }

  lemma NextNodeWithout(r: seq<TextNode>, q: nat, c: Ticket, w: nat)
    requires q < |r| && w < |r| && w != q && NoDup(r)
    ensures At(Without(r, q), NextOf(Without(r, q), c, Narrow(q, w) + 1))
            == if At(r, NextOf(r, c, w + 1)) == r[q] then At(r, NextOf(r, c, q + 1)) else At(r, NextOf(r, c, w + 1))
    ensures At(r, NextOf(r, c, w + 1)) == r[q] ==> r[q].id.createdAt == c
  {
    NextWithout(r, q, c, w + 1);
    AtIs(r, NextOf(r, c, w + 1), q);
    AtWithout(r, q, NextOf(r, c, w + 1));
    AtWithout(r, q, NextOf(r, c, q + 1));
  }

  lemma NeighboursWithout(r: seq<TextNode>, q: nat, i: nat)
    requires q < |r| && i < |r| - 1 && NoDup(r)
    ensures var ns, w := Without(r, q), Wide(q, i);
            && ns[i] == r[w] != r[q]
            && At(ns, i - 1) == (if At(r, w - 1) == r[q] then At(r, q - 1) else At(r, w - 1))
            && At(ns, i + 1) == (if At(r, w + 1) == r[q] then At(r, q + 1) else At(r, w + 1))
  {
    AtWithout(r, q, Wide(q, i));
    AtWithout(r, q, Wide(q, i) - 1);
    AtWithout(r, q, Wide(q, i) + 1);
    AtWithout(r, q, q - 1);
    AtWithout(r, q, q + 1);
  }

  lemma LinksInverse(r: seq<TextNode>, q: nat, w: nat)
    requires q < |r| && w < |r| && NoDup(r)
    ensures PrevLink(r, w) == r[q] <==> NextLink(r, q) == r[w]
    ensures At(r, w - 1) == r[q] <==> At(r, q + 1) == r[w]
  {
    PrevNextInverse(r, q, w);
    AtIs(r, PrevOf(r, r[w].id.createdAt, w), q);
    AtIs(r, NextOf(r, r[q].id.createdAt, q + 1), w);
    AtIs(r, w - 1, q);
    AtIs(r, q + 1, w);
  }

  // ----- inserting a node into the list -----

  ghost function Inserted(ns: seq<TextNode>, p: nat, x: TextNode): (r: seq<TextNode>)
    requires p < |ns|
    ensures |r| == |ns| + 1
  {
    ns[..p + 1] + [x] + ns[p + 1..]
  }

  lemma InsertedWithout(ns: seq<TextNode>, p: nat, x: TextNode)
    requires p < |ns|
    ensures Without(Inserted(ns, p, x), p + 1) == ns
    ensures Inserted(ns, p, x)[p + 1] == x && Inserted(ns, p, x)[p] == ns[p]
            && At(Inserted(ns, p, x), p + 2) == At(ns, p + 1)
    ensures forall i :: 0 <= i < |ns| ==> Inserted(ns, p, x)[Wide(p + 1, i)] == ns[i]
  {
  }

  lemma InsertedNoDup(ns: seq<TextNode>, p: nat, x: TextNode)
    requires p < |ns| && NoDup(ns) && x !in ns
    ensures NoDup(Inserted(ns, p, x))
  {
    var r := Inserted(ns, p, x);
    forall i, j | 0 <= i < |r| && 0 <= j < |r| ensures Differ(r, i, j) {
      var i', j' := if i <= p then i else i - 1, if j <= p then j else j - 1;
      assert (i != p + 1 ==> r[i] == ns[i']) && (j != p + 1 ==> r[j] == ns[j']);
      assert Differ(ns, i', j');
    }
  }

  /** The fields after `x` was put between `y` and its successor. */
  ghost predicate SplicedIn(m: Fields, m': Fields, y: TextNode, x: TextNode) {
    && y in m && x !in m && m'.Keys == m.Keys + {x}
    && m'[x].prev == y && m'[x].next == m[y].next
    && forall n :: n in m ==>
         m'[n] == m[n].(next := if n == y then x else m[n].next, prev := if n == m[y].next then x else m[n].prev)
  }

  /** The neighbours of a node once there is a new one at `q`. */
  lemma NeighboursWith(r: seq<TextNode>, q: nat, i: nat)
    requires 0 < q < |r| && i < |r| - 1 && NoDup(r)
    ensures var ns, w := Without(r, q), Wide(q, i);
            && ns[i] == r[w] != r[q] && ns[q - 1] == r[q - 1]
            && At(r, w - 1) == (if r[w] == At(ns, q) then r[q] else At(ns, i - 1))
            && At(r, w + 1) == (if r[w] == ns[q - 1] then r[q] else At(ns, i + 1))
  {
    NeighboursWithout(r, q, i);
    LinksInverse(r, q, Wide(q, i));
    LinksInverse(r, Wide(q, i), q);
    AtWithout(r, q, q + 1);
    AtWithout(r, q, q - 1);
  }

  lemma InsertedStep(m: Fields, m': Fields, r: seq<TextNode>, q: nat, w: nat)
    requires 0 < q < |r| && w < |r| && NoDup(r) && ListLinked(m, Without(r, q))
    requires SplicedIn(m, m', r[q - 1], r[q])
    ensures LinkedAt(m', r, w)
  {
    var ns := Without(r, q);
    AtWithout(r, q, q - 1);
    AtWithout(r, q, q + 1);
    assert LinkedAt(m, ns, q - 1);
    if w != q {
      var i: int := Narrow(q, w);
      assert Wide(q, i) == w;
      NeighboursWith(r, q, i);
      assert LinkedAt(m, ns, i);
    }
  }

  lemma InsertedList(m: Fields, m': Fields, ns: seq<TextNode>, p: nat, x: TextNode)
    requires ListLinked(m, ns) && p < |ns| && SplicedIn(m, m', ns[p], x)
    ensures ListLinked(m', Inserted(ns, p, x))
  {
    var r, q := Inserted(ns, p, x), p + 1;
    InsertedWithout(ns, p, x);
    InsertedNoDup(ns, p, x);
    forall w | 0 <= w < |r| ensures LinkedAt(m', r, w) {
      InsertedStep(m, m', r, q, w);
    }
  }

  lemma InsertedBlocks(m: Fields, m': Fields, ns: seq<TextNode>, p: nat, x: TextNode)
    requires Within(m, ns) && p < |ns| && SplicedIn(m, m', ns[p], x)
    ensures Within(m', Inserted(ns, p, x))
    ensures BlocksOf(m', Inserted(ns, p, x)) == InsertBlock(BlocksOf(m, ns), p + 1, BlockOf(m', x))
  {
    var r := Inserted(ns, p, x);
    forall i | 0 <= i < |r| ensures r[i] in m' && (i != p + 1 ==> r[i] == ns[if i <= p then i else i - 1]) {
    }
    BlocksAll(m, ns);
    BlocksAll(m', r);
    var bs := BlocksOf(m, ns);
    assert BlocksOf(m', r)[..p + 1] == bs[..p + 1];
    assert BlocksOf(m', r)[p + 2..] == bs[p + 1..];
  }

  // ----- its place in the chains -----

  /** A node of a new insertion is a chain of its own. */
  lemma LoneChain(m: Fields, r: seq<TextNode>, q: nat)
    requires q < |r| && NoDup(r) && Within(m, r) && Within(m, Without(r, q)) && ChainLinked(m, Without(r, q))
    requires m[r[q]].insPrev == null && m[r[q]].insNext == null
    requires forall i :: 0 <= i < |r| && i != q ==> r[i].id.createdAt != r[q].id.createdAt
    ensures ChainLinked(m, r)
  {
    forall w | 0 <= w < |r| ensures ChainedAt(m, r, w) {
      if w != q {
        var i: int := Narrow(q, w);
        assert Wide(q, i) == w;
        PrevLinkWithout(r, q, i);
        NextLinkWithout(r, q, i);
        assert ChainedAt(m, Without(r, q), i);
      }
    }
  }

  /** The fields after `x` was put into the chain right of `y`. */
  ghost predicate ChainedIn(m: Fields, m': Fields, y: TextNode, x: TextNode) {
    && y in m && x in m && x != y && m'.Keys == m.Keys
    && forall n :: n in m ==>
         m'[n] == m[n].(insNext := if n == y then x else if n == x then m[y].insNext else m[n].insNext,
                        insPrev := if n == x then y else if n == m[y].insNext then x else m[n].insPrev)
  }

  lemma SplitLinks(r: seq<TextNode>, q: nat)
    requires 0 < q < |r| && r[q - 1].id.createdAt == r[q].id.createdAt && NoDup(r)
    ensures PrevLink(r, q) == r[q - 1] == Without(r, q)[q - 1] && NextLink(r, q) == NextLink(Without(r, q), q - 1)
  {
    PrevNextInverse(r, q - 1, q);
    NextLinkWithout(r, q, q - 1);
    LinksInverse(r, q - 1, q);
  }

  /** The links of the other nodes of a chain once there is a new one at `q`. */
  lemma ChainWith(r: seq<TextNode>, q: nat, i: nat)
    requires 0 < q < |r| && r[q - 1].id.createdAt == r[q].id.createdAt && i < |r| - 1 && NoDup(r)
    ensures var ns, w := Without(r, q), Wide(q, i);
            && ns[i] == r[w] != r[q]
            && PrevLink(r, w) == (if r[w] == NextLink(ns, q - 1) then r[q] else PrevLink(ns, i))
            && NextLink(r, w) == (if r[w] == ns[q - 1] then r[q] else NextLink(ns, i))
  {
    SplitLinks(r, q);
    PrevLinkWithout(r, q, i);
    NextLinkWithout(r, q, i);
    LinksInverse(r, q, Wide(q, i));
    LinksInverse(r, Wide(q, i), q);
  }

  lemma ChainFields(m: Fields, m': Fields, y: TextNode, x: TextNode, n: TextNode)
    requires ChainedIn(m, m', y, x) && n in m && n != x
    ensures n in m' && m'[n].insNext == if n == y then x else m[n].insNext
    ensures m'[n].insPrev == if n == m[y].insNext then x else m[n].insPrev
  {
  }

  lemma SplitStep(m: Fields, m': Fields, r: seq<TextNode>, q: nat, w: nat)
    requires 0 < q < |r| && r[q - 1].id.createdAt == r[q].id.createdAt && w < |r| && NoDup(r)
    requires Within(m, Without(r, q)) && ChainLinked(m, Without(r, q)) && ChainedIn(m, m', r[q - 1], r[q])
    ensures ChainedAt(m', r, w)
  {
    var ns := Without(r, q);
    SplitLinks(r, q);
    assert ChainedAt(m, ns, q - 1);
    if w == q {
      assert m'[r[q]].insPrev == r[q - 1];
      assert m'[r[q]].insNext == m[ns[q - 1]].insNext;
    } else {
      var i: int := Narrow(q, w);
      assert Wide(q, i) == w;
      ChainWith(r, q, i);
      var n, y, x := r[w], r[q - 1], r[q];
      assert ns[i] == n && ns[q - 1] == y;
      assert ChainedAt(m, ns, i);
      ChainFields(m, m', y, x, n);
    }
  }

  /** The right part of a cut stands right of the left part, in the chain as in the list. */
  lemma SplitChain(m: Fields, m': Fields, r: seq<TextNode>, q: nat)
    requires 0 < q < |r| && r[q - 1].id.createdAt == r[q].id.createdAt && Within(m, r) && NoDup(r)
    requires Within(m, Without(r, q)) && ChainLinked(m, Without(r, q)) && ChainedIn(m, m', r[q - 1], r[q])
    ensures Within(m', r) && ChainLinked(m', r)
  {
    forall w | 0 <= w < |r| ensures ChainedAt(m', r, w) {
      SplitStep(m, m', r, q, w);
    }
  }

  // ----- purging a node -----

  /** The fields after `x` was taken out of the list and out of its chain. */
  ghost predicate Unlinked(m: Fields, m': Fields, x: TextNode) {
    && x in m && m'.Keys == m.Keys - {x}
    && forall n :: n in m && n != x ==>
         m'[n] == m[n].(prev := if n == m[x].next then m[x].prev else m[n].prev,
                        next := if n == m[x].prev then m[x].next else m[n].next,
                        insPrev := if n == m[x].insNext then m[x].insPrev else m[n].insPrev,
                        insNext := if n == m[x].insPrev then m[x].insNext else m[n].insNext)
  }

  lemma NoDupWithout(r: seq<TextNode>, q: nat)
    requires q < |r| && NoDup(r)
    ensures NoDup(Without(r, q)) && r[q] !in Without(r, q)
  {
    var ns := Without(r, q);
    forall i, j | 0 <= i < |ns| && 0 <= j < |ns| ensures Differ(ns, i, j) {
      assert Differ(r, Wide(q, i), Wide(q, j));
    }
    forall i | 0 <= i < |ns| ensures ns[i] != r[q] {
      assert Differ(r, Wide(q, i), q);
    }
  }

  lemma UnlinkedLists(m: Fields, m': Fields, r: seq<TextNode>, q: nat)
    requires q < |r| && ListLinked(m, r) && ChainLinked(m, r) && Unlinked(m, m', r[q])
    ensures ListLinked(m', Without(r, q)) && ChainLinked(m', Without(r, q))
  {
    var ns := Without(r, q);
    assert LinkedAt(m, r, q) && ChainedAt(m, r, q);
    forall i | 0 <= i < |ns| ensures LinkedAt(m', ns, i) && ChainedAt(m', ns, i) {
      assert LinkedAt(m, r, Wide(q, i)) && ChainedAt(m, r, Wide(q, i));
      PrevLinkWithout(r, q, i);
      NextLinkWithout(r, q, i);
      NeighboursWithout(r, q, i);
      LinksInverse(r, q, Wide(q, i));
      LinksInverse(r, Wide(q, i), q);
    }
    NoDupWithout(r, q);
  }

  lemma UnlinkedBlocks(m: Fields, m': Fields, r: seq<TextNode>, q: nat)
    requires q < |r| && ListLinked(m, r) && Unlinked(m, m', r[q])
    ensures Within(m', Without(r, q))
    ensures BlocksOf(m', Without(r, q)) == BlocksOf(m, r)[..q] + BlocksOf(m, r)[q + 1..]
  {
    var ns := Without(r, q);
    forall i | 0 <= i < |ns| ensures ns[i] in m' && ns[i] == r[Wide(q, i)] && BlockOf(m', ns[i]) == BlockOf(m, ns[i]) {
      assert Differ(r, Wide(q, i), q);
    }
    BlocksAll(m, r);
    BlocksAll(m', ns);
  }

  // ----- a whole split -----

  /** The fields after the value of `y` was cut down to its first `k` code units. */
  ghost predicate CutDown(m: Fields, m': Fields, y: TextNode, k: nat) {
    && y in m && k <= |m[y].value| && m' == m[y := m[y].(value := m[y].value[..k])]
  }

  lemma CutDownLists(m: Fields, m': Fields, ns: seq<TextNode>, p: nat, k: nat)
    requires ListLinked(m, ns) && ChainLinked(m, ns) && p < |ns| && CutDown(m, m', ns[p], k)
    ensures ListLinked(m', ns) && ChainLinked(m', ns)
    ensures BlocksOf(m', ns) == BlocksOf(m, ns)[p := BlockOf(m, ns[p]).(value := m[ns[p]].value[..k])]
  {
    forall i | 0 <= i < |ns| ensures LinkedAt(m', ns, i) && ChainedAt(m', ns, i) {
      assert LinkedAt(m, ns, i) && ChainedAt(m, ns, i);
    }
    forall i | 0 <= i < |ns| && i != p ensures BlockOf(m', ns[i]) == BlockOf(m, ns[i]) {
      assert Differ(ns, i, p);
    }
    BlocksAll(m, ns);
    BlocksAll(m', ns);
  }

  lemma SplicedChain(m: Fields, m': Fields, ns: seq<TextNode>, y: TextNode, x: TextNode)
    requires Within(m, ns) && ChainLinked(m, ns) && SplicedIn(m, m', y, x)
    ensures Within(m', ns) && ChainLinked(m', ns)
  {
    forall i | 0 <= i < |ns| ensures ChainedAt(m', ns, i) {
      assert ChainedAt(m, ns, i) && ns[i] in m;
    }
  }

  lemma ChainedInList(m: Fields, m': Fields, ns: seq<TextNode>, y: TextNode, x: TextNode)
    requires ListLinked(m, ns) && ChainedIn(m, m', y, x)
    ensures ListLinked(m', ns) && BlocksOf(m', ns) == BlocksOf(m, ns)
  {
    forall i | 0 <= i < |ns| ensures LinkedAt(m', ns, i) && BlockOf(m', ns[i]) == BlockOf(m, ns[i]) {
      assert LinkedAt(m, ns, i) && ns[i] in m;
    }
    BlocksAll(m, ns);
    BlocksAll(m', ns);
  }

  /** Cutting a block down, inserting its right part after it and chaining the two is a
      split of the block. */
  lemma SplitLists(m0: Fields, m1: Fields, m2: Fields, m3: Fields, ns: seq<TextNode>, p: nat, x: TextNode, k: nat)
    requires ListLinked(m0, ns) && ChainLinked(m0, ns) && p < |ns|
    requires CutDown(m0, m1, ns[p], k) && SplicedIn(m1, m2, ns[p], x) && ChainedIn(m2, m3, ns[p], x)
    requires BlockOf(m2, x) == Block(ns[p].id.Split(k), m0[ns[p]].value[k..], None)
    ensures ListLinked(m3, Inserted(ns, p, x)) && ChainLinked(m3, Inserted(ns, p, x))
    ensures BlocksOf(m0, ns)[p] == BlockOf(m0, ns[p])
    ensures BlocksOf(m3, Inserted(ns, p, x)) == SplitBlock(BlocksOf(m0, ns), p, k)
  {
    var r := Inserted(ns, p, x);
    InsertedWithout(ns, p, x);
    CutDownLists(m0, m1, ns, p, k);
    InsertedList(m1, m2, ns, p, x);
    InsertedBlocks(m1, m2, ns, p, x);
    SplicedChain(m1, m2, ns, ns[p], x);
    ChainedInList(m2, m3, r, ns[p], x);
    SplitChain(m2, m3, r, p + 1);
    BlocksAt(m0, ns, p);
    CutBlocks(BlocksOf(m0, ns), p, k);
  }

  lemma CutBlocks(bs: seq<Block>, p: nat, k: nat)
    requires p < |bs| && k <= |bs[p].value|
    ensures InsertBlock(bs[p := bs[p].(value := bs[p].value[..k])], p + 1,
                        Block(bs[p].id.Split(k), bs[p].value[k..], None))
            == SplitBlock(bs, p, k)
  {
  }

  // ----- removing a node -----

  /** The fields after `y` was marked as removed. */
  ghost predicate Buried(m: Fields, m': Fields, y: TextNode, t: Ticket) {
    y in m && m' == m[y := m[y].(removedAt := Some(t))]
  }

  lemma BuriedLists(m: Fields, m': Fields, ns: seq<TextNode>, p: nat, t: Ticket)
    requires ListLinked(m, ns) && ChainLinked(m, ns) && p < |ns| && Buried(m, m', ns[p], t)
    ensures ListLinked(m', ns) && ChainLinked(m', ns)
    ensures BlocksOf(m', ns) == BlocksOf(m, ns)[p := BlockOf(m, ns[p]).(removedAt := Some(t))]
  {
    forall i | 0 <= i < |ns| ensures LinkedAt(m', ns, i) && ChainedAt(m', ns, i) {
      assert LinkedAt(m, ns, i) && ChainedAt(m, ns, i);
    }
    forall i | 0 <= i < |ns| && i != p ensures BlockOf(m', ns[i]) == BlockOf(m, ns[i]) {
      assert Differ(ns, i, p);
    }
    BlocksAll(m, ns);
    BlocksAll(m', ns);
  }
}
