/** The array CRDT over its linked nodes, its index tree and its map by creation time
    (pkg/document/json/rga_tree_list.go). */
module RGATreeLists {
  import opened Time
  import opened Wrappers
  import opened Sequences
  import opened ArrayItems
  import opened ListLinks
  import SplayShape
  import Splay

  ghost predicate IndexedAt(xs: seq<SplayShape.Node>, ns: seq<ListNode>, i: int)
    requires 0 <= i < |ns| == |xs|
  {
    xs[i] == ns[i].indexNode
  }

  /** The index nodes of the list nodes, in their order. */
  ghost predicate InOrderOf(xs: seq<SplayShape.Node>, ns: seq<ListNode>) {
    |xs| == |ns| && forall i :: 0 <= i < |ns| ==> IndexedAt(xs, ns, i)
  }

  lemma InOrderInserted(xs: seq<SplayShape.Node>, ns: seq<ListNode>, p: nat, x: ListNode)
    requires InOrderOf(xs, ns) && p < |ns|
    ensures xs[p] == ns[p].indexNode
    ensures InOrderOf(xs[..p + 1] + [x.indexNode] + xs[p + 1..], InsertAt(ns, p + 1, x))
  {
    var ys, r := xs[..p + 1] + [x.indexNode] + xs[p + 1..], InsertAt(ns, p + 1, x);
    assert IndexedAt(xs, ns, p);
    forall i | 0 <= i < |r| ensures IndexedAt(ys, r, i) {
      assert i != p + 1 ==> IndexedAt(xs, ns, if i <= p then i else i - 1);
    }
  }

  lemma InOrderWithout(xs: seq<SplayShape.Node>, ns: seq<ListNode>, k: nat)
    requires InOrderOf(xs, ns) && k < |ns|
    ensures xs[k] == ns[k].indexNode && InOrderOf(xs[..k] + xs[k + 1..], Without(ns, k))
  {
    var ys, r := xs[..k] + xs[k + 1..], Without(ns, k);
    assert IndexedAt(xs, ns, k);
    forall i | 0 <= i < |r| ensures IndexedAt(ys, r, i) {
      assert IndexedAt(xs, ns, if i < k then i else i + 1);
    }
  }

  ghost predicate Bound(ids: map<Ticket, ListNode>, n: ListNode) {
    n.createdAt in ids && ids[n.createdAt] == n
  }

  ghost predicate BoundTo(ids: map<Ticket, ListNode>, ns: set<ListNode>, k: Ticket)
    requires k in ids
  {
    ids[k] in ns && ids[k].createdAt == k
  }

  /** The map binds exactly the creation times of the given nodes, to the nodes. */
  ghost predicate Binds(ids: map<Ticket, ListNode>, ns: set<ListNode>) {
    && (forall n {:trigger Bound(ids, n)} :: n in ns ==> Bound(ids, n))
    && (forall k {:trigger BoundTo(ids, ns, k)} :: k in ids ==> BoundTo(ids, ns, k))
  }

  lemma BindsInsert(ids: map<Ticket, ListNode>, ns: set<ListNode>, node: ListNode)
    requires Binds(ids, ns) && node.createdAt !in ids
    ensures node !in ns && Binds(ids[node.createdAt := node], ns + {node})
  {
    var r := ids[node.createdAt := node];
    forall n | n in ns ensures n != node && Bound(r, n) {
      assert Bound(ids, n);
    }
    forall k | k in r ensures BoundTo(r, ns + {node}, k) {
      assert k in ids ==> BoundTo(ids, ns, k);
    }
  }

  lemma BindsRemove(ids: map<Ticket, ListNode>, ns: set<ListNode>, node: ListNode)
    requires Binds(ids, ns) && node in ns
    ensures Binds(ids - {node.createdAt}, ns - {node})
  {
    assert Bound(ids, node);
    var r := ids - {node.createdAt};
    forall n | n in ns - {node} ensures Bound(r, n) {
      assert Bound(ids, n);
    }
    forall k | k in r ensures BoundTo(r, ns - {node}, k) {
      assert BoundTo(ids, ns, k);
    }
  }

  /** The map finds what Find finds in the items. */
  lemma BoundFind(ids: map<Ticket, ListNode>, m: Fields, ns: seq<ListNode>, c: Ticket) returns (i: int)
    requires Listed(m, ns) && Binds(ids, m.Keys)
    ensures i == Find(ItemsOf(m, ns), c) && (c in ids <==> i >= 0)
    ensures i >= 0 ==> i < |ns| && ns[i] == ids[c] && ItemsOf(m, ns)[i] == ItemOf(m, ns[i])
  {
    var s := ItemsOf(m, ns);
    i := Find(s, c);
    if i >= 0 {
      ItemsAt(m, ns, i);
      assert LinkedAt(m, ns, i);
      assert Bound(ids, ns[i]);
    }
    if c in ids {
      assert BoundTo(ids, m.Keys, c);
      var j :| 0 <= j < |ns| && ns[j] == ids[c];
      ItemsAt(m, ns, j);
      FindIs(s, c, j);
    }
  }

  /** The index nodes lead to their nodes and see the lengths these have. */
  ghost predicate Measured(ns: set<ListNode>)
    reads ns`removedAt, (set n | n in ns :: n.indexNode)`value, (set n | n in ns :: n.indexNode)`len
  {
    forall n :: n in ns ==> n.indexNode.value == n && n.indexNode.len == if n.removedAt.Some? then 0 else 1
  }

  ghost predicate Indexed(index: Splay.Tree, ns: seq<ListNode>)
    reads index`root, index`repr, index`shape,
          index.repr`len, index.repr`weight, index.repr`left, index.repr`right, index.repr`parent
  {
    index.Valid() && InOrderOf(SplayShape.InOrder(index.shape), ns)
  }

  lemma IndexMember(index: Splay.Tree, ns: seq<ListNode>, i: nat)
    requires Indexed(index, ns) && i < |ns|
    ensures ns[i].indexNode in index.repr && SplayShape.InOrder(index.shape)[i] == ns[i].indexNode
  {
    SplayShape.InOrderNodes(index.shape);
    assert IndexedAt(SplayShape.InOrder(index.shape), ns, i);
  }

  lemma HeadListed(m: Fields, head: ListNode)
    requires m.Keys == {head} && m[head] == Cell(None, Some(InitialTicket), null, null)
    requires head.createdAt == InitialTicket
    ensures Listed(m, [head]) && ItemsOf(m, [head]) == [Head]
  {
  }

  /** What stands next to a node, as the links say it. */
  lemma Neighbours(m: Fields, ns: seq<ListNode>, i: nat)
    requires Listed(m, ns) && i < |ns|
    ensures ns[i] in m && m[ns[i]].prev == At(ns, i - 1) && m[ns[i]].next == At(ns, i + 1)
    ensures m[ns[i]].next != null ==> m[ns[i]].next in m && m[ns[i]].next != ns[i]
    ensures m[ns[i]].prev != null ==> m[ns[i]].prev in m && m[ns[i]].prev != ns[i]
    ensures m[ns[i]].prev != null ==> m[ns[i]].prev != m[ns[i]].next
    ensures ItemsOf(m, ns)[i] == ItemOf(m, ns[i])
  {
    assert LinkedAt(m, ns, i);
    ItemsAt(m, ns, i);
    OneStand(m, ns, i + 1, i);
    OneStand(m, ns, i - 1, i);
    if 0 < i {
      OneStand(m, ns, i + 1, i - 1);
    }
  }

  /** What the array keeps besides the list and the index: its last node and the map. */
  ghost predicate Named(m: Fields, ns: seq<ListNode>, last: ListNode, ids: map<Ticket, ListNode>) {
    ns != [] && last == ns[|ns| - 1] && Binds(ids, m.Keys)
  }

  lemma NamedInserted(m: Fields, m': Fields, ns: seq<ListNode>, p: nat, x: ListNode, last: ListNode,
                      ids: map<Ticket, ListNode>)
    requires Listed(m, ns) && p < |ns| && Named(m, ns, last, ids) && x.createdAt !in ids && m'.Keys == m.Keys + {x}
    ensures Named(m', InsertAt(ns, p + 1, x), if ns[p] == last then x else last, ids[x.createdAt := x])
  {
    OneStand(m, ns, |ns| - 1, p);
    BindsInsert(ids, m.Keys, x);
  }

  lemma NamedSame(m: Fields, m': Fields, ns: seq<ListNode>, last: ListNode, ids: map<Ticket, ListNode>)
    requires Named(m, ns, last, ids) && m'.Keys == m.Keys
    ensures Named(m', ns, last, ids)
  {
  }

  lemma NamedWithout(m: Fields, m': Fields, ns: seq<ListNode>, i: nat, last: ListNode, ids: map<Ticket, ListNode>)
    requires Listed(m, ns) && 0 < i < |ns| && Named(m, ns, last, ids) && m'.Keys == m.Keys - {ns[i]}
    ensures Named(m', Without(ns, i), if last == ns[i] then ns[i - 1] else last, ids - {ns[i].createdAt})
  {
    OneStand(m, ns, |ns| - 1, i);
    assert LinkedAt(m, ns, i);
    BindsRemove(ids, m.Keys, ns[i]);
  }

  lemma PlacedLast(s: seq<Item>, x: Item, t: Ticket)
    requires s != []
    ensures Placed(s, |s| - 1, x, t) == s + [x]
  {
  }

  lemma PlacedIs(s: seq<Item>, prev: Ticket, x: Item, t: Ticket, i: nat, j: nat)
    requires i == Find(s, prev) && j == Skip(s, i, t)
    ensures j < |s| && InsertAt(s, j + 1, x) == Placed(s, Find(s, prev), x, t)
  {
  }

  /** What Get finds can be deleted. */
  lemma NthStands(s: seq<Item>, idx: int, t: Ticket)
    requires WellFormed(s) && idx < |Live(s)|
    ensures var c := if idx < 0 then InitialTicket else Live(s)[idx]; Apply(s, ArrayItems.Delete(c, t)).Some?
  {
    if idx >= 0 {
      LiveStands(s, idx);
    }
  }

  lemma CountPlaced(s: seq<Item>, p: nat, x: Item, t: Ticket)
    requires p < |s|
    ensures |Live(Placed(s, p, x, t))| == |Live(s)| + Count(x)
  {
    CountInserted(s, Skip(s, p, t) + 1, x);
  }

  lemma RunStep(s: seq<Item>, ops: seq<Operation>, i: nat, i': nat)
    requires i < |ops| && i' == i + 1 && Run(s, ops[i..]).Some?
    ensures Apply(s, ops[i]).Some? && Run(Apply(s, ops[i]).value, ops[i'..]) == Run(s, ops[i..])
    ensures Miscounts(s, ops[i..]) == Miscount(s, ops[i]) + Miscounts(Apply(s, ops[i]).value, ops[i'..])
  {
    assert ops[i..][1..] == ops[i'..];
  }

  lemma CountMoved(s: seq<Item>, i: nat, q: nat, x: Item, t: Ticket)
    requires i < |s| && q < |s| - 1 && x.Live() == s[i].Live()
    ensures |Live(Placed(Without(s, i), q, x, t))| == |Live(s)|
  {
    CountWithout(s, i);
    CountPlaced(Without(s, i), q, x, t);
  }

  ghost predicate LensAgree(f: SplayShape.Fields, xs: seq<SplayShape.Node>, s: seq<Item>) {
    |xs| == |s| && forall i :: 0 <= i < |xs| ==> xs[i] in f && f[xs[i]].len == Count(s[i])
  }

  lemma {:induction false} TotalIsCount(f: SplayShape.Fields, xs: seq<SplayShape.Node>, s: seq<Item>)
    requires LensAgree(f, xs, s)
    ensures SplayShape.Total(f, xs) == |Live(s)|
  {
    if xs != [] {
      TotalIsCount(f, xs[1..], s[1..]);
    }
  }

  class RGATreeList {
    const dummyHead: ListNode
    const nodeMapByIndex: Splay.Tree
    var last: ListNode
    var size: int
    var nodeMapByCreatedAt: map<Ticket, ListNode>

    /** The nodes in list order, and as a set; and what they hold. */
    ghost var nodes: seq<ListNode>
    ghost var repr: set<ListNode>
    ghost var items: seq<Item>

    /** The list and the index hold the nodes with the fields `m`. */
    ghost predicate Stands(m: Fields)
      reads `nodes, `repr, repr`movedAt, repr`removedAt, repr`prev, repr`next,
            (set n | n in repr :: n.indexNode)`value, (set n | n in repr :: n.indexNode)`len,
            nodeMapByIndex`root, nodeMapByIndex`repr, nodeMapByIndex`shape, nodeMapByIndex.repr`len,
            nodeMapByIndex.repr`weight, nodeMapByIndex.repr`left, nodeMapByIndex.repr`right, nodeMapByIndex.repr`parent
    {
      Are(m, repr) && Listed(m, nodes) && nodes[0] == dummyHead && Indexed(nodeMapByIndex, nodes) && Measured(repr)
    }

    /** So does the rest of the array. */
    ghost predicate Holds(m: Fields)
      reads `nodes, `repr, `items, `last, `nodeMapByCreatedAt, repr`movedAt, repr`removedAt, repr`prev, repr`next,
            (set n | n in repr :: n.indexNode)`value, (set n | n in repr :: n.indexNode)`len,
            nodeMapByIndex`root, nodeMapByIndex`repr, nodeMapByIndex`shape, nodeMapByIndex.repr`len,
            nodeMapByIndex.repr`weight, nodeMapByIndex.repr`left, nodeMapByIndex.repr`right, nodeMapByIndex.repr`parent
    {
      Stands(m) && Named(m, nodes, last, nodeMapByCreatedAt) && items == ItemsOf(m, nodes)
    }

    ghost predicate Valid()
      reads `nodes, `repr, `items, `last, `nodeMapByCreatedAt, repr`movedAt, repr`removedAt, repr`prev, repr`next,
            (set n | n in repr :: n.indexNode)`value, (set n | n in repr :: n.indexNode)`len,
            nodeMapByIndex`root, nodeMapByIndex`repr, nodeMapByIndex`shape, nodeMapByIndex.repr`len,
            nodeMapByIndex.repr`weight, nodeMapByIndex.repr`left, nodeMapByIndex.repr`right, nodeMapByIndex.repr`parent
    {
      Holds(FieldsOf(repr))
    }

    constructor ()
      ensures Valid() && items == [Head] && size == 0
      ensures fresh(repr) && fresh(nodeMapByIndex) && fresh(nodeMapByIndex.repr)
    {
      var head := new ListNode(InitialTicket, None, Some(InitialTicket));
      dummyHead, last, size := head, head, 0;
      nodeMapByIndex := new Splay.Tree.Single(head.indexNode);
      nodeMapByCreatedAt := map[InitialTicket := head];
      nodes, repr, items := [head], {head}, [Head];
      new;
      HeadListed(FieldsOf(repr), dummyHead);
      assert IndexedAt(SplayShape.InOrder(nodeMapByIndex.shape), nodes, 0);
    }

    // ----- inserting -----

    /** The links of newRGATreeListNodeAfter. */
    method SpliceLinks(prev: ListNode, node: ListNode)
      requires prev in repr && node !in repr && (prev.next != null ==> prev.next in repr && prev.next != prev)
      modifies repr`prev, repr`next, node`prev, node`next
      ensures SplicedIn(old(FieldsOf(repr)), FieldsOf(repr + {node}), prev, node)
    {
      var prevNext := prev.next;
      prev.next := node;
      node.prev := prev;
      node.next := prevNext;
      if prevNext != null {
        prevNext.prev := node;
      }
    }

    /** The fields of the array after a new node was linked right of `prev`. */
    method Enlist(prev: ListNode, node: ListNode, ghost p: nat, ghost s: seq<Item>)
      requires p < |nodes|
      modifies this
      ensures nodes == InsertAt(old(nodes), p + 1, node) && repr == old(repr) + {node} && items == s
      ensures last == (if prev == old(last) then node else old(last)) && size == old(size) + 1
      ensures nodeMapByCreatedAt == old(nodeMapByCreatedAt)[node.createdAt := node]
    {
      if prev == last {
        last := node;
      }
      nodeMapByCreatedAt := nodeMapByCreatedAt[node.createdAt := node];
      size := size + 1;
      nodes, repr, items := InsertAt(nodes, p + 1, node), repr + {node}, s;
    }

    /** The list part of insertAfter, with the new last node. */
    method Link(prev: ListNode, node: ListNode, ghost p: nat, ghost s: seq<Item>)
      requires p < |nodes| && prev in repr && node !in repr
      requires prev.next != null ==> prev.next in repr && prev.next != prev
      modifies this, repr, node
      ensures nodes == InsertAt(old(nodes), p + 1, node) && repr == old(repr) + {node} && items == s
      ensures forall n :: n in repr && n !in old(repr) ==> n == node
      ensures SplicedIn(old(FieldsOf(repr)), FieldsOf(repr), prev, node)
      ensures unchanged(node`movedAt, node`removedAt)
      ensures last == (if prev == old(last) then node else old(last)) && size == old(size) + 1
      ensures nodeMapByCreatedAt == old(nodeMapByCreatedAt)[node.createdAt := node]
    {
      SpliceLinks(prev, node);
      Enlist(prev, node, p, s);
    }

    method LinkAside(prev: ListNode, node: ListNode, ghost p: nat, ghost s: seq<Item>)
      requires p < |nodes| && prev in repr && node !in repr
      requires prev.next != null ==> prev.next in repr && prev.next != prev
      requires Measured(repr) && node.indexNode.value == node && node.indexNode.len == node.Len()
      modifies this, repr, node
      ensures Measured(repr)
      ensures nodes == InsertAt(old(nodes), p + 1, node) && repr == old(repr) + {node} && items == s
      ensures forall n :: n in repr && n !in old(repr) ==> n == node
      ensures SplicedIn(old(FieldsOf(repr)), FieldsOf(repr), prev, node)
      ensures unchanged(node`movedAt, node`removedAt)
      ensures last == (if prev == old(last) then node else old(last)) && size == old(size) + 1
      ensures nodeMapByCreatedAt == old(nodeMapByCreatedAt)[node.createdAt := node]
      ensures nodeMapByIndex.ValidOff(prev.indexNode) == old(nodeMapByIndex.ValidOff(prev.indexNode))
      ensures unchanged(nodeMapByIndex)
    {
      Link(prev, node, p, s);
    }

    method PutIndexNode(prev: ListNode, node: ListNode, ghost p: nat, ghost m: Fields)
      requires nodeMapByIndex.ValidOff(prev.indexNode)
      requires p < |SplayShape.InOrder(nodeMapByIndex.shape)|
              && SplayShape.InOrder(nodeMapByIndex.shape)[p] == prev.indexNode
      requires node.indexNode !in nodeMapByIndex.repr && !node.indexNode.HasLinks()
      modifies nodeMapByIndex, nodeMapByIndex.repr, node.indexNode
      ensures nodeMapByIndex.Valid() && nodeMapByIndex.repr == old(nodeMapByIndex.repr) + {node.indexNode}
      ensures forall n :: n in nodeMapByIndex.repr && n !in old(nodeMapByIndex.repr) ==> n == node.indexNode
      ensures var was := old(SplayShape.InOrder(nodeMapByIndex.shape));
              SplayShape.InOrder(nodeMapByIndex.shape) == was[..p + 1] + [node.indexNode] + was[p + 1..]
      ensures unchanged(this) && Are(m, repr) == old(Are(m, repr)) && Measured(repr) == old(Measured(repr))
    {
      var _ := nodeMapByIndex.InsertAfter(prev.indexNode, node.indexNode, p);
      assert unchanged(repr);
      assert Measured(repr) == old(Measured(repr)) by {
        assert forall n :: n in repr ==> unchanged(n.indexNode`value) && unchanged(n.indexNode`len);
      }
    }

    /** The node whose right neighbour the element goes before: the given one or, right of
        it, the last of the nodes positioned later. Not `ok` when there is none of that time. */
    method FindNextBeforeExecutedAt(createdAt: Ticket, executedAt: Ticket, ghost m: Fields)
        returns (ok: bool, node: ListNode, ghost j: nat)
      requires Holds(m)
      ensures Holds(m) == old(Holds(m)) && unchanged(this) && unchanged(nodeMapByIndex)
      ensures (ok <==> Find(items, createdAt) >= 0)
      ensures ok ==> j < |nodes| && nodes[j] == node
      ensures ok ==> j == Skip(items, Find(items, createdAt), executedAt)
    {
      ghost var s := items;
      ghost var i := BoundFind(nodeMapByCreatedAt, m, nodes, createdAt);
      ok, node, j := createdAt in nodeMapByCreatedAt, dummyHead, 0;
      if !ok {
        return;
      }
      node, j := nodeMapByCreatedAt[createdAt], i;
      ItemsAll(m, nodes);
      assert LinkedAt(m, nodes, j);
      while node.next != null && After(node.next.PositionedAt(), executedAt)
        invariant j < |nodes| && nodes[j] == node && node.next == At(nodes, j + 1)
        invariant Skip(s, j, executedAt) == Skip(s, i, executedAt)
        decreases |nodes| - j
      {
        node, j := node.next, j + 1;
        assert LinkedAt(m, nodes, j) && s[j] == ItemOf(m, node);
      }
    }

    /** A new node goes into the list and into the index. */
    method Place(prev: ListNode, node: ListNode, ghost p: nat, ghost s: seq<Item>)
      requires p < |nodes| && nodes[p] == prev && prev in repr && node !in repr
      requires prev.next != null ==> prev.next in repr && prev.next != prev
      requires Indexed(nodeMapByIndex, nodes) && Measured(repr)
      requires node.indexNode.value == node && node.indexNode.len == node.Len()
      requires node.indexNode !in nodeMapByIndex.repr && !node.indexNode.HasLinks()
      modifies this, repr, node
      modifies nodeMapByIndex, nodeMapByIndex.repr, node.indexNode
      ensures nodes == InsertAt(old(nodes), p + 1, node) && repr == old(repr) + {node} && items == s
      ensures last == (if prev == old(last) then node else old(last)) && size == old(size) + 1
      ensures nodeMapByCreatedAt == old(nodeMapByCreatedAt)[node.createdAt := node]
      ensures SplicedIn(old(FieldsOf(repr)), FieldsOf(repr), prev, node)
      ensures unchanged(node`movedAt, node`removedAt)
      ensures Indexed(nodeMapByIndex, nodes) && Measured(repr)
      ensures nodeMapByIndex.repr == old(nodeMapByIndex.repr) + {node.indexNode}
      ensures forall n :: n in repr && n !in old(repr) ==> n == node
      ensures forall n :: n in nodeMapByIndex.repr && n !in old(nodeMapByIndex.repr) ==> n == node.indexNode
    {
      IndexMember(nodeMapByIndex, nodes, p);
      nodeMapByIndex.ValidIsValidOff(prev.indexNode);
      InOrderInserted(SplayShape.InOrder(nodeMapByIndex.shape), nodes, p, node);
      LinkAside(prev, node, p, s);
      PutIndexNode(prev, node, p, FieldsOf(repr));
    }

    /** insertAfter once its place is found. */
    method InsertRightOf(prevNode: ListNode, newNode: ListNode, ghost p: nat, ghost m: Fields)
        returns (ghost m': Fields)
      requires Holds(m) && p < |nodes| && nodes[p] == prevNode && newNode !in repr
      requires newNode.createdAt !in nodeMapByCreatedAt && Find(items, newNode.createdAt) < 0
      requires newNode.indexNode.value == newNode && newNode.indexNode.len == newNode.Len()
      requires newNode.indexNode !in nodeMapByIndex.repr && !newNode.indexNode.HasLinks()
      modifies this, repr, newNode, nodeMapByIndex, nodeMapByIndex.repr, newNode.indexNode
      ensures Holds(m') && size == old(size) + 1
      ensures items == InsertAt(old(items), p + 1,
                                Item(newNode.createdAt, old(newNode.movedAt), old(newNode.removedAt)))
      ensures repr == old(repr) + {newNode} && nodeMapByIndex.repr == old(nodeMapByIndex.repr) + {newNode.indexNode}
      ensures forall n :: n in repr && n !in old(repr) ==> n == newNode
      ensures forall n :: n in nodeMapByIndex.repr && n !in old(nodeMapByIndex.repr) ==> n == newNode.indexNode
    {
      ghost var ns, ids, was := nodes, nodeMapByCreatedAt, last;
      Neighbours(m, ns, p);
      Place(prevNode, newNode, p,
            InsertAt(items, p + 1, Item(newNode.createdAt, newNode.movedAt, newNode.removedAt)));
      m' := FieldsOf(repr);
      SplicedList(m, m', ns, p, newNode);
      NamedInserted(m, m', ns, p, newNode, was, ids);
    }

    method MakeNode(createdAt: Ticket, movedAt: Option<Ticket>, removedAt: Option<Ticket>, ghost m: Fields)
        returns (node: ListNode)
      ensures fresh(node) && node.createdAt == createdAt && node.movedAt == movedAt && node.removedAt == removedAt
      ensures fresh(node.indexNode) && node.indexNode.value == node && node.indexNode.len == node.Len()
      ensures !node.indexNode.HasLinks()
      ensures Holds(m) == old(Holds(m)) && unchanged(this) && unchanged(nodeMapByIndex)
    {
      node := new ListNode(createdAt, movedAt, removedAt);
    }

    method CreateRightOf(prevNode: ListNode, createdAt: Ticket, movedAt: Option<Ticket>, removedAt: Option<Ticket>,
                         ghost p: nat, ghost m: Fields)
        returns (ghost m': Fields)
      requires Holds(m) && p < |nodes| && nodes[p] == prevNode
      requires Find(items, createdAt) < 0
      modifies this, repr, nodeMapByIndex, nodeMapByIndex.repr
      ensures Holds(m') && size == old(size) + 1
      ensures items == InsertAt(old(items), p + 1, Item(createdAt, movedAt, removedAt))
      ensures forall n :: n in repr && n !in old(repr) ==> fresh(n)
      ensures forall n :: n in nodeMapByIndex.repr && n !in old(nodeMapByIndex.repr) ==> fresh(n)
    {
      ghost var i := BoundFind(nodeMapByCreatedAt, m, nodes, createdAt);
      var newNode := MakeNode(createdAt, movedAt, removedAt, m);
      m' := InsertRightOf(prevNode, newNode, p, m);
    }

    /** insertAfter: a new node for an element with the given times. Not `ok` when there is
        no element of the time `prevCreatedAt`. */
    method InsertNode(prevCreatedAt: Ticket, createdAt: Ticket, movedAt: Option<Ticket>, removedAt: Option<Ticket>,
                      executedAt: Ticket, ghost m: Fields)
        returns (ok: bool, ghost m': Fields)
      requires Holds(m) && Find(items, createdAt) < 0
      modifies this, repr, nodeMapByIndex, nodeMapByIndex.repr
      ensures Holds(m') && (ok <==> Find(old(items), prevCreatedAt) >= 0)
      ensures ok ==> items == Placed(old(items), Find(old(items), prevCreatedAt),
                                     Item(createdAt, movedAt, removedAt), executedAt)
      ensures ok ==> size == old(size) + 1
      ensures !ok ==> items == old(items) && size == old(size)
      ensures forall n :: n in repr && n !in old(repr) ==> fresh(n)
      ensures forall n :: n in nodeMapByIndex.repr && n !in old(nodeMapByIndex.repr) ==> fresh(n)
    {
      ghost var k := Find(items, prevCreatedAt);
      var prevNode;
      ghost var j;
      ok, prevNode, j := FindNextBeforeExecutedAt(prevCreatedAt, executedAt, m);
      if !ok {
        return ok, m;
      }
      PlacedIs(items, prevCreatedAt, Item(createdAt, movedAt, removedAt), executedAt, k, j);
      m' := CreateRightOf(prevNode, createdAt, movedAt, removedAt, j, m);
    }

    // ----- taking a node out -----

    /** The links of release. */
    method CutLinks(node: ListNode)
      requires node in repr && node.prev != null && node.prev in repr && node.prev != node
      requires node.next != null ==> node.next in repr && node.next != node && node.next != node.prev
      modifies repr`prev, repr`next
      ensures Unlinked(old(FieldsOf(repr)), FieldsOf(repr - {node}), node)
    {
      node.prev.next := node.next;
      if node.next != null {
        node.next.prev := node.prev;
      }
      node.prev, node.next := null, null;
    }

    /** The list part of release, with the last node, the map and the size. */
    method Unlink(node: ListNode, ghost i: nat, ghost s: seq<Item>)
      requires i < |nodes| && node in repr && node.prev != null && node.prev in repr && node.prev != node
      requires node.next != null ==> node.next in repr && node.next != node && node.next != node.prev
      modifies this, repr
      ensures nodes == Without(old(nodes), i) && repr == old(repr) - {node} && items == s
      ensures Unlinked(old(FieldsOf(repr)), FieldsOf(repr), node)
      ensures last == if old(last) == node then old(node.prev) else old(last)
      ensures size == if old(node.removedAt).None? then old(size) - 1 else old(size)
      ensures nodeMapByCreatedAt == old(nodeMapByCreatedAt) - {node.createdAt}
    {
      var prev := node.prev;
      CutLinks(node);
      Delist(node, prev, i, s);
    }

    /** The fields of the array after a node was cut out right of `prev`. */
    method Delist(node: ListNode, prev: ListNode, ghost i: nat, ghost s: seq<Item>)
      requires i < |nodes|
      modifies this
      ensures nodes == Without(old(nodes), i) && repr == old(repr) - {node} && items == s
      ensures last == if old(last) == node then prev else old(last)
      ensures size == if node.removedAt.None? then old(size) - 1 else old(size)
      ensures nodeMapByCreatedAt == old(nodeMapByCreatedAt) - {node.createdAt}
    {
      if last == node {
        last := prev;
      }
      nodeMapByCreatedAt := nodeMapByCreatedAt - {node.createdAt};
      if node.removedAt.None? {
        size := size - 1;
      }
      nodes, repr, items := Without(nodes, i), repr - {node}, s;
    }

    method UnlinkAside(node: ListNode, ghost i: nat, ghost s: seq<Item>)
      requires i < |nodes| && node in repr && node.prev != null && node.prev in repr && node.prev != node
      requires node.next != null ==> node.next in repr && node.next != node && node.next != node.prev
      requires Measured(repr)
      modifies this, repr
      ensures nodes == Without(old(nodes), i) && repr == old(repr) - {node} && items == s
      ensures Unlinked(old(FieldsOf(repr)), FieldsOf(repr), node)
      ensures last == if old(last) == node then old(node.prev) else old(last)
      ensures size == if old(node.removedAt).None? then old(size) - 1 else old(size)
      ensures nodeMapByCreatedAt == old(nodeMapByCreatedAt) - {node.createdAt}
      ensures Measured(repr) && unchanged(nodeMapByIndex) && nodeMapByIndex.Valid() == old(nodeMapByIndex.Valid())
    {
      Unlink(node, i, s);
    }

    method DeleteIndexNode(node: ListNode, ghost ns: seq<ListNode>, ghost i: nat, ghost m: Fields)
      requires i < |ns| && ns[i] == node && Indexed(nodeMapByIndex, ns)
      modifies nodeMapByIndex, nodeMapByIndex.repr
      ensures Indexed(nodeMapByIndex, Without(ns, i))
              && nodeMapByIndex.repr == old(nodeMapByIndex.repr) - {node.indexNode}
      ensures unchanged(this)
      ensures Are(m, repr) == old(Are(m, repr)) && Measured(repr) == old(Measured(repr))
    {
      IndexMember(nodeMapByIndex, ns, i);
      InOrderWithout(SplayShape.InOrder(nodeMapByIndex.shape), ns, i);
      nodeMapByIndex.ValidIsValidOff(node.indexNode);
      nodeMapByIndex.Delete(node.indexNode, i);
    }

    /** The part of release that is not about the index. */
    method UnlinkListed(node: ListNode, ghost i: nat, ghost m: Fields) returns (ghost m': Fields)
      requires Holds(m) && 0 < i < |nodes| && nodes[i] == node
      modifies this, repr
      ensures Are(m', repr) && Listed(m', nodes) && nodes[0] == dummyHead && Measured(repr)
      ensures Named(m', nodes, last, nodeMapByCreatedAt) && items == ItemsOf(m', nodes) == Without(old(items), i)
      ensures nodes == Without(old(nodes), i) && repr == old(repr) - {node}
      ensures size == if old(items)[i].Live() then old(size) - 1 else old(size)
      ensures unchanged(nodeMapByIndex) && nodeMapByIndex.Valid() == old(nodeMapByIndex.Valid())
    {
      ghost var ns, ids, was := nodes, nodeMapByCreatedAt, last;
      Neighbours(m, ns, i);
      assert items[i].Live() == node.removedAt.None?;
      UnlinkAside(node, i, Without(items, i));
      m' := FieldsOf(repr);
      UnlinkedList(m, m', ns, i);
      NamedWithout(m, m', ns, i, was, ids);
    }

    /** release: takes the node out of everything. */
    method Release(node: ListNode, ghost i: nat, ghost m: Fields) returns (ghost m': Fields)
      requires Holds(m) && 0 < i < |nodes| && nodes[i] == node
      modifies this, repr, nodeMapByIndex, nodeMapByIndex.repr
      ensures Holds(m') && items == Without(old(items), i)
      ensures size == if old(items)[i].Live() then old(size) - 1 else old(size)
      ensures repr <= old(repr) && nodeMapByIndex.repr <= old(nodeMapByIndex.repr)
    {
      ghost var ns := nodes;
      m' := UnlinkListed(node, i, m);
      DeleteIndexNode(node, ns, i, m');
    }

    // ----- removing an element -----

    method Mark(node: ListNode, t: Ticket) returns (removed: bool)
      requires node in repr && Measured(repr)
      modifies node`removedAt
      ensures removed == CanRemove(Item(node.createdAt, node.movedAt, old(node.removedAt)), t)
      ensures if removed then Marked(old(FieldsOf(repr)), FieldsOf(repr), node, t)
              else FieldsOf(repr) == old(FieldsOf(repr))
      ensures Measured(repr - {node}) && (!removed ==> Measured(repr))
      ensures nodeMapByIndex.Valid() == old(nodeMapByIndex.Valid())
    {
      removed := node.Remove(t);
    }

    /** The index learns that the length of a node has changed, but not its weights. */
    method TellIndex(node: ListNode, ghost m: Fields)
      requires node in repr && nodeMapByIndex.Valid() && node.indexNode in nodeMapByIndex.repr
      requires Measured(repr - {node}) && node.indexNode.value == node
      modifies node.indexNode`len
      ensures nodeMapByIndex.ValidOff(node.indexNode) && Measured(repr) && Are(m, repr) == old(Are(m, repr))
    {
      nodeMapByIndex.ValueChanged(node.indexNode, node.Len());
      assert forall n :: n in repr && n != node ==> n in repr - {node};
    }

    method SplayAside(node: ListNode, ghost m: Fields)
      requires nodeMapByIndex.ValidOff(node.indexNode)
      modifies nodeMapByIndex, nodeMapByIndex.repr
      ensures nodeMapByIndex.Valid() && nodeMapByIndex.repr == old(nodeMapByIndex.repr)
      ensures SplayShape.InOrder(nodeMapByIndex.shape) == old(SplayShape.InOrder(nodeMapByIndex.shape))
      ensures unchanged(this) && Are(m, repr) == old(Are(m, repr)) && Measured(repr) == old(Measured(repr))
    {
      nodeMapByIndex.Splay(node.indexNode);
    }

    /** The index after an element was removed. */
    method Sink(node: ListNode, ghost i: nat, ghost m: Fields)
      requires i < |nodes| && nodes[i] == node && node in repr && Are(m, repr)
      requires Indexed(nodeMapByIndex, nodes) && Measured(repr - {node}) && node.indexNode.value == node
      modifies nodeMapByIndex, nodeMapByIndex.repr
      ensures Indexed(nodeMapByIndex, nodes) && Measured(repr) && Are(m, repr)
      ensures nodeMapByIndex.repr == old(nodeMapByIndex.repr)
    {
      IndexMember(nodeMapByIndex, nodes, i);
      TellIndex(node, m);
      SplayAside(node, m);
    }

    method MarkAndSink(node: ListNode, t: Ticket, ghost i: nat, ghost m: Fields)
        returns (removed: bool, ghost m': Fields)
      requires Stands(m) && i < |nodes| && nodes[i] == node && node in repr
      modifies node`removedAt, nodeMapByIndex, nodeMapByIndex.repr
      ensures removed == CanRemove(ItemsOf(m, nodes)[i], t)
      ensures Stands(m') && m'.Keys == m.Keys && unchanged(this)
      ensures ItemsOf(m', nodes) == ItemsOf(m, nodes)[i := Buried(ItemsOf(m, nodes)[i], t)]
      ensures nodeMapByIndex.repr == old(nodeMapByIndex.repr)
    {
      ItemsAt(m, nodes, i);
      removed := Mark(node, t);
      m' := FieldsOf(repr);
      if removed {
        MarkedList(m, m', nodes, i, t);
        Sink(node, i, m');
      }
    }

    method SetSize(size: int, ghost s: seq<Item>, ghost m: Fields, ghost m': Fields)
      requires Stands(m') && Named(m, nodes, last, nodeMapByCreatedAt) && m'.Keys == m.Keys && s == ItemsOf(m', nodes)
      modifies this`size, this`items
      ensures Holds(m') && items == s && this.size == size
    {
      NamedSame(m, m', nodes, last, nodeMapByCreatedAt);
      this.size, items := size, s;
    }

    /** DeleteByCreatedAt once the node is found. */
    method DeleteNode(node: ListNode, deletedAt: Ticket, ghost i: nat, ghost m: Fields) returns (ghost m': Fields)
      requires Holds(m) && i < |nodes| && nodes[i] == node && node in repr
      modifies this, repr, nodeMapByIndex, nodeMapByIndex.repr
      ensures Holds(m') && items == old(items)[i := Buried(old(items)[i], deletedAt)]
      ensures size == if CanRemove(old(items)[i], deletedAt) then old(size) - 1 else old(size)
      ensures repr == old(repr) && nodeMapByIndex.repr == old(nodeMapByIndex.repr)
    {
      ghost var s := items;
      assert s == ItemsOf(m, nodes);
      var removed;
      removed, m' := MarkAndSink(node, deletedAt, i, m);
      SetSize(if removed then size - 1 else size, s[i := Buried(s[i], deletedAt)], m, m');
    }

    method DeleteFound(createdAt: Ticket, deletedAt: Ticket, ghost m: Fields) returns (ok: bool, ghost m': Fields)
      requires Holds(m)
      modifies this, repr, nodeMapByIndex, nodeMapByIndex.repr
      ensures Holds(m') && (ok <==> Find(old(items), createdAt) >= 0)
      ensures ok ==> var i := Find(old(items), createdAt);
                     && items == old(items)[i := Buried(old(items)[i], deletedAt)]
                     && size == if CanRemove(old(items)[i], deletedAt) then old(size) - 1 else old(size)
      ensures !ok ==> items == old(items) && size == old(size)
      ensures repr == old(repr) && nodeMapByIndex.repr == old(nodeMapByIndex.repr)
    {
      ghost var i := BoundFind(nodeMapByCreatedAt, m, nodes, createdAt);
      ok, m' := createdAt in nodeMapByCreatedAt, m;
      if ok {
        var node := nodeMapByCreatedAt[createdAt];
        Neighbours(m, nodes, i);
        m' := DeleteNode(node, deletedAt, i, m);
      }
    }

    // ----- the operations -----

    /** What Len answers beyond the number of live elements. */
    ghost function Drift(): int
      reads `size, `items
    {
      size - |Live(items)|
    }

    /** Inserts a new element after the one created at `prevCreatedAt`. Not `ok` when there is none. */
    method InsertAfter(prevCreatedAt: Ticket, createdAt: Ticket) returns (ok: bool)
      requires Valid() && Find(items, createdAt) < 0
      modifies this, repr, nodeMapByIndex, nodeMapByIndex.repr
      ensures Valid() && (ok <==> Apply(old(items), Insert(prevCreatedAt, createdAt)).Some?)
      ensures ok ==> Apply(old(items), Insert(prevCreatedAt, createdAt)) == Some(items)
      ensures !ok ==> items == old(items)
      ensures Drift() == old(Drift())
      ensures forall n :: n in repr && n !in old(repr) ==> fresh(n)
      ensures forall n :: n in nodeMapByIndex.repr && n !in old(nodeMapByIndex.repr) ==> fresh(n)
    {
      ghost var s, p := items, Find(items, prevCreatedAt);
      ghost var m';
      ok, m' := InsertNode(prevCreatedAt, createdAt, None, None, createdAt, FieldsOf(repr));
      if ok {
        CountPlaced(s, p, Item(createdAt, None, None), createdAt);
      }
    }

    lemma LastIs(m: Fields, c: Ticket)
      requires Holds(m) && Find(items, c) < 0
      ensures Apply(items, Insert(last.createdAt, c)) == Some(items + [Item(c, None, None)])
    {
      ItemsAt(m, nodes, |nodes| - 1);
      FindIs(items, last.createdAt, |items| - 1);
      PlacedLast(items, Item(c, None, None), c);
    }

    /** Adds a new element at the end. */
    method Add(createdAt: Ticket)
      requires Valid() && Find(items, createdAt) < 0
      modifies this, repr, nodeMapByIndex, nodeMapByIndex.repr
      ensures Valid() && items == old(items) + [Item(createdAt, None, None)]
      ensures Drift() == old(Drift())
      ensures forall n :: n in repr && n !in old(repr) ==> fresh(n)
      ensures forall n :: n in nodeMapByIndex.repr && n !in old(nodeMapByIndex.repr) ==> fresh(n)
    {
      LastIs(FieldsOf(repr), createdAt);
      var ok := InsertAfter(last.createdAt, createdAt);
    }

    /** Removes the element created at the given time. Not `ok` when there is none. */
    method DeleteByCreatedAt(createdAt: Ticket, deletedAt: Ticket) returns (ok: bool)
      requires Valid()
      modifies this, repr, nodeMapByIndex, nodeMapByIndex.repr
      ensures Valid() && (ok <==> Apply(old(items), ArrayItems.Delete(createdAt, deletedAt)).Some?)
      ensures ok ==> Apply(old(items), ArrayItems.Delete(createdAt, deletedAt)) == Some(items)
      ensures !ok ==> items == old(items)
      ensures Drift() == old(Drift()) + if ok then Miscount(old(items), ArrayItems.Delete(createdAt, deletedAt)) else 0
      ensures repr == old(repr) && nodeMapByIndex.repr == old(nodeMapByIndex.repr)
    {
      ghost var s := items;
      ghost var m';
      ok, m' := DeleteFound(createdAt, deletedAt, FieldsOf(repr));
      if ok {
        CountSet(s, Find(s, createdAt), Buried(s[Find(s, createdAt)], deletedAt));
      }
    }

    method Reposition(node: ListNode, prevCreatedAt: Ticket, executedAt: Ticket, ghost i: nat, ghost m: Fields)
        returns (ok: bool, ghost m': Fields)
      requires Holds(m) && 0 < i < |nodes| && nodes[i] == node && ItemOf(m, node) == items[i]
      modifies this, repr, nodeMapByIndex, nodeMapByIndex.repr
      ensures Holds(m') && (ok <==> Find(Without(old(items), i), prevCreatedAt) >= 0)
      ensures ok ==> var rest := Without(old(items), i);
                     items == Placed(rest, Find(rest, prevCreatedAt),
                                     old(items)[i].(movedAt := Some(executedAt)), executedAt)
      ensures !ok ==> items == Without(old(items), i)
      ensures ok ==> size == old(size) + if old(items)[i].Live() then 0 else 1
      ensures forall n :: n in repr && n !in old(repr) ==> fresh(n)
      ensures forall n :: n in nodeMapByIndex.repr && n !in old(nodeMapByIndex.repr) ==> fresh(n)
    {
      WithoutWellFormed(items, i);
      var removedAt := node.removedAt;
      m' := Release(node, i, m);
      ok, m' := InsertNode(prevCreatedAt, node.createdAt, Some(executedAt), removedAt, executedAt, m');
    }

    /** Moves the element created at `createdAt` after the one created at `prevCreatedAt`, if
        that is later than an earlier move. Not `ok` when one of them is not there, for the head
        and for a place after itself, and then the element is already out of the array. */
    method MoveAfter(prevCreatedAt: Ticket, createdAt: Ticket, executedAt: Ticket) returns (ok: bool)
      requires Valid()
      modifies this, repr, nodeMapByIndex, nodeMapByIndex.repr
      ensures Valid() && (ok <==> Apply(old(items), Move(prevCreatedAt, createdAt, executedAt)).Some?)
      ensures ok ==> Apply(old(items), Move(prevCreatedAt, createdAt, executedAt)) == Some(items)
      ensures ok ==> Drift() == old(Drift()) + Miscount(old(items), Move(prevCreatedAt, createdAt, executedAt))
      ensures !ok ==> items == var i := Find(old(items), createdAt);
                      if prevCreatedAt == createdAt && i > 0 then Without(old(items), i) else old(items)
      ensures forall n :: n in repr && n !in old(repr) ==> fresh(n)
      ensures forall n :: n in nodeMapByIndex.repr && n !in old(nodeMapByIndex.repr) ==> fresh(n)
    {
      ghost var m, s := FieldsOf(repr), items;
      ghost var p := BoundFind(nodeMapByCreatedAt, m, nodes, prevCreatedAt);
      ghost var i := BoundFind(nodeMapByCreatedAt, m, nodes, createdAt);
      ok := prevCreatedAt in nodeMapByCreatedAt && createdAt in nodeMapByCreatedAt;
      if !ok {
        return;
      }
      var node := nodeMapByCreatedAt[createdAt];
      MoveIs(s, prevCreatedAt, createdAt, executedAt, i);
      OneStand(m, nodes, 0, i);
      if node.movedAt.None? || After(executedAt, node.movedAt.value) {
        if node == dummyHead {
          return false;
        }
        ghost var m';
        ok, m' := Reposition(node, prevCreatedAt, executedAt, i, m);
        if ok {
          CountMoved(s, i, Find(Without(s, i), prevCreatedAt), s[i].(movedAt := Some(executedAt)), executedAt);
        }
      }
    }

    /** Takes an element out for good. Not `ok` when there is none, or it is the head. */
    method Purge(createdAt: Ticket) returns (ok: bool)
      requires Valid()
      modifies this, repr, nodeMapByIndex, nodeMapByIndex.repr
      ensures Valid() && (ok <==> Find(old(items), createdAt) > 0)
      ensures ok ==> items == Without(old(items), Find(old(items), createdAt))
      ensures !ok ==> items == old(items)
      ensures Drift() == old(Drift())
      ensures repr <= old(repr) && nodeMapByIndex.repr <= old(nodeMapByIndex.repr)
    {
      ghost var m, s := FieldsOf(repr), items;
      ghost var i := BoundFind(nodeMapByCreatedAt, m, nodes, createdAt);
      ok := createdAt in nodeMapByCreatedAt && nodeMapByCreatedAt[createdAt] != dummyHead;
      if i >= 0 {
        OneStand(m, nodes, 0, i);
      }
      if ok {
        ghost var m' := Release(nodeMapByCreatedAt[createdAt], i, m);
        CountWithout(s, i);
      }
    }

    /** The given node or, left of it, the first live node or the head. */
    method LiveOrHead(from: ListNode, ghost i: nat, ghost m: Fields) returns (node: ListNode)
      requires Holds(m) && i < |nodes| && nodes[i] == from
      ensures Holds(m) == old(Holds(m)) && unchanged(this)
      ensures node.createdAt == items[PrevLive(items, i + 1)].createdAt
    {
      ghost var s, j := items, i;
      ItemsAll(m, nodes);
      node := from;
      OneStand(m, nodes, 0, j);
      assert LinkedAt(m, nodes, j);
      while node != dummyHead && node.removedAt.Some?
        invariant 0 <= j < |nodes| && nodes[j] == node && LinkedAt(m, nodes, j) && (node == dummyHead <==> j == 0)
        invariant PrevLive(s, i + 1) == PrevLive(s, j + 1)
        decreases j
      {
        node, j := node.prev, j - 1;
        OneStand(m, nodes, 0, j);
        assert LinkedAt(m, nodes, j);
      }
    }

    /** The creation time of the nearest live element before the given one, or of the head.
        Not `ok` when there is no such element, or it is the head. */
    method FindPrevCreatedAt(createdAt: Ticket) returns (ok: bool, prev: Ticket)
      requires Valid()
      ensures Valid() && unchanged(this)
      ensures ok <==> Find(items, createdAt) > 0
      ensures ok ==> prev == items[PrevLive(items, Find(items, createdAt))].createdAt
    {
      ghost var m, s := FieldsOf(repr), items;
      ghost var i := BoundFind(nodeMapByCreatedAt, m, nodes, createdAt);
      ok, prev := createdAt in nodeMapByCreatedAt && nodeMapByCreatedAt[createdAt] != dummyHead, createdAt;
      if i >= 0 {
        OneStand(m, nodes, 0, i);
      }
      if !ok {
        return;
      }
      ItemsAll(m, nodes);
      assert LinkedAt(m, nodes, i);
      var node := LiveOrHead(nodeMapByCreatedAt[createdAt].prev, i - 1, m);
      prev := node.createdAt;
    }

    // ----- by index -----

    /** The first live node right of the given one. Not `ok` where there is none. */
    method NextLive(from: ListNode, ghost i: nat, ghost m: Fields) returns (ok: bool, node: ListNode, ghost j: nat)
      requires Holds(m) && i < |nodes| && nodes[i] == from
      ensures Holds(m) == old(Holds(m)) && unchanged(this)
      ensures ok <==> |Live(items[..i + 1])| < |Live(items)|
      ensures ok ==> j < |nodes| && nodes[j] == node && node.createdAt == Live(items)[|Live(items[..i + 1])|]
    {
      ghost var s, n, k := items, |Live(items[..i + 1])|, i + 1;
      ItemsAll(m, nodes);
      node, j := from, i;
      assert LinkedAt(m, nodes, j);
      while true
        invariant j < |nodes| && nodes[j] == node && LinkedAt(m, nodes, j) && k == j + 1 && |Live(s[..k])| == n
        decreases |nodes| - j
      {
        if node.next == null {
          LivePrefix(s, k);
          return false, node, j;
        }
        node, j, k := node.next, k, k + 1;
        assert LinkedAt(m, nodes, j) && s[j] == ItemOf(m, node);
        LivePrefix(s, j);
        if node.removedAt.None? {
          LiveIndex(s, j, n);
          return true, node, j;
        }
      }
    }

    /** The nodes of the index have the lengths of the items. */
    lemma Lengths(m: Fields)
      requires Holds(m)
      ensures var xs, f := SplayShape.InOrder(nodeMapByIndex.shape), SplayShape.FieldsOf(nodeMapByIndex.repr);
              && |xs| == |nodes| && LensAgree(f, xs, items) && InOrderOf(xs, nodes)
              && (forall n :: 0 <= n <= |nodes| ==> SplayShape.Total(f, xs[..n]) == |Live(items[..n])|)
              && SplayShape.Total(f, xs) == |Live(items)|
    {
      var xs, f := SplayShape.InOrder(nodeMapByIndex.shape), SplayShape.FieldsOf(nodeMapByIndex.repr);
      ItemsAll(m, nodes);
      forall i | 0 <= i < |nodes| ensures xs[i] in f && f[xs[i]].len == Count(items[i]) {
        IndexMember(nodeMapByIndex, nodes, i);
        assert LinkedAt(m, nodes, i);
      }
      forall n | 0 <= n <= |nodes| ensures SplayShape.Total(f, xs[..n]) == |Live(items[..n])| {
        TotalIsCount(f, xs[..n], items[..n]);
      }
      TotalIsCount(f, xs, items);
    }

    method FindAside(idx: int, ghost m: Fields) returns (ok: bool, node: SplayShape.Node, offset: int, ghost i: nat)
      requires Holds(m)
      ensures Holds(m) == old(Holds(m)) && unchanged(this)
      ensures ok <==> idx <= |Live(items)|
      ensures i < |nodes| == |items| && nodes[i].indexNode == node && offset == idx - |Live(items[..i])|
      ensures ok ==> if idx <= 0 then i == 0 else 0 < offset <= Count(items[i])
    {
      Lengths(m);
      OwnIndexNodes(m);
      ok, node, offset, i := nodeMapByIndex.Find(idx);
      assert IndexedAt(SplayShape.InOrder(nodeMapByIndex.shape), nodes, i);
    }

    lemma OwnIndexNodes(m: Fields)
      requires Holds(m)
      ensures nodeMapByIndex.root != null
    {
    }

    /** The idx-th live element. Not `ok` when there are not that many. A negative index
        answers with the head. */
    method Get(idx: int) returns (ok: bool, node: ListNode)
      requires Valid()
      ensures Valid() && unchanged(this)
      ensures ok <==> idx < |Live(items)|
      ensures ok ==> node.createdAt == if idx < 0 then InitialTicket else Live(items)[idx]
    {
      ghost var m, s := FieldsOf(repr), items;
      ItemsAt(m, nodes, 0);
      LivePrefix(s, 0);
      var splayNode, offset;
      ghost var i;
      ok, splayNode, offset, i := FindAside(idx, m);
      node := dummyHead;
      if ok {
        IndexNodeLeads(m, i);
        node := splayNode.value as ListNode;
        LivePrefix(s, i);
        assert |Live(s[..i + 1])| == |Live(s[..i])| + Count(s[i]);
        if (idx == 0 && splayNode == dummyHead.indexNode) || offset > 0 {
          ghost var j;
          ok, node, j := NextLive(node, i, m);
        }
      }
    }

    lemma IndexNodeLeads(m: Fields, i: nat)
      requires Holds(m) && i < |nodes|
      ensures nodes[i].indexNode.value == nodes[i]
    {
      assert LinkedAt(m, nodes, i);
    }

    /** Removes the idx-th live element. Not `ok` when there are not that many. A negative
        index removes the head. */
    method Delete(idx: int, deletedAt: Ticket) returns (ok: bool)
      requires Valid()
      modifies this, repr, nodeMapByIndex, nodeMapByIndex.repr
      ensures Valid() && (ok <==> idx < |Live(old(items))|) && (!ok ==> items == old(items))
      ensures ok ==> var c := if idx < 0 then InitialTicket else Live(old(items))[idx];
                     Apply(old(items), ArrayItems.Delete(c, deletedAt)) == Some(items)
      ensures repr == old(repr) && nodeMapByIndex.repr == old(nodeMapByIndex.repr)
    {
      var target;
      ok, target := Get(idx);
      if ok {
        NthStands(items, idx, deletedAt);
        ok := DeleteByCreatedAt(target.createdAt, deletedAt);
      }
    }

    // ----- runs of operations -----

    method Execute(op: Operation) returns (ok: bool)
      requires Valid() && (op.Insert? ==> Find(items, op.createdAt) < 0)
      modifies this, repr, nodeMapByIndex, nodeMapByIndex.repr
      ensures Valid() && (ok <==> Apply(old(items), op).Some?) && (ok ==> Apply(old(items), op) == Some(items))
      ensures ok ==> Drift() == old(Drift()) + Miscount(old(items), op)
      ensures forall n :: n in repr && n !in old(repr) ==> fresh(n)
      ensures forall n :: n in nodeMapByIndex.repr && n !in old(nodeMapByIndex.repr) ==> fresh(n)
    {
      match op
      case Insert(prev, createdAt) =>
        ok := InsertAfter(prev, createdAt);
      case Delete(createdAt, deletedAt) =>
        ok := DeleteByCreatedAt(createdAt, deletedAt);
      case Move(prev, createdAt, executedAt) =>
        ok := MoveAfter(prev, createdAt, executedAt);
    }

    /** A run of operations that makes sense to the array comes to where Run comes. Two
        copies that execute the same insertions and removals thus come to the same items. If
        the size was the number of live elements, it is so again just if the miscounts of the
        run make up for each other. */
    method ExecuteAll(ops: seq<Operation>)
      requires Valid() && Run(items, ops).Some?
      modifies this, repr, nodeMapByIndex, nodeMapByIndex.repr
      ensures Valid() && Run(old(items), ops) == Some(items)
      ensures Drift() == old(Drift()) + Miscounts(old(items), ops)
      ensures old(Drift()) == 0 ==> (size == |Live(items)| <==> Miscounts(old(items), ops) == 0)
    {
      var i := 0;
      while i < |ops|
        invariant i <= |ops| && Valid() && Run(items, ops[i..]) == Run(old(items), ops)
        invariant Drift() + Miscounts(items, ops[i..]) == old(Drift()) + Miscounts(old(items), ops)
        invariant forall n :: n in repr && n !in old(repr) ==> fresh(n)
        invariant forall n :: n in nodeMapByIndex.repr && n !in old(nodeMapByIndex.repr) ==> fresh(n)
      {
        ghost var s := items;
        var ok := Execute(ops[i]);
        RunStep(s, ops, i, i + 1);
        i := i + 1;
      }
    }
  }
}
