/** The block-based text CRDT over its linked nodes and two index trees
    (pkg/document/json/rga_tree_split.go). */
module RGATreeSplits {
  import opened Time
  import opened Wrappers
  import opened Sequences
  import opened TextBlocks
  import opened TextLinks
  import TextPositions
  import TextSeen
  import TextTheorems
  import SplayShape
  import Splay
  import Llrb
  import LlrbOrder

  ghost function IndexNodesTo(ns: seq<TextNode>, n: nat): (r: seq<SplayShape.Node>)
    requires n <= |ns|
    ensures |r| == n
  {
    if n == 0 then [] else IndexNodesTo(ns, n - 1) + [ns[n - 1].indexNode]
  }

  ghost function IndexNodes(ns: seq<TextNode>): (r: seq<SplayShape.Node>)
    ensures |r| == |ns|
  {
    IndexNodesTo(ns, |ns|)
  }

  lemma {:induction false} IndexNodesAt(ns: seq<TextNode>, n: nat, i: nat)
    requires i < n <= |ns|
    ensures IndexNodesTo(ns, n)[i] == ns[i].indexNode
  {
    if i < n - 1 {
      IndexNodesAt(ns, n - 1, i);
    }
  }

  lemma IndexNodesInserted(ns: seq<TextNode>, p: nat, x: TextNode)
    requires p < |ns|
    ensures IndexNodes(Inserted(ns, p, x)) == IndexNodes(ns)[..p + 1] + [x.indexNode] + IndexNodes(ns)[p + 1..]
    ensures IndexNodes(ns)[p] == ns[p].indexNode
  {
    var r := Inserted(ns, p, x);
    var a, b := IndexNodes(r), IndexNodes(ns)[..p + 1] + [x.indexNode] + IndexNodes(ns)[p + 1..];
    IndexNodesAt(ns, |ns|, p);
    forall i | 0 <= i < |r| ensures a[i] == b[i] {
      IndexNodesAt(r, |r|, i);
      if i != p + 1 {
        IndexNodesAt(ns, |ns|, if i <= p then i else i - 1);
      }
    }
  }

  /** The list from the head: what it links, and that its blocks are well formed. */
  ghost predicate Listed(m: Fields, ns: seq<TextNode>) {
    && m.Keys == (set n | n in ns)
    && ListLinked(m, ns) && ChainLinked(m, ns) && WellFormed(BlocksOf(m, ns))
  }

  ghost predicate Bound(ids: map<NodeID, TextNode>, n: TextNode) {
    n.id in ids && ids[n.id] == n
  }

  ghost predicate BoundTo(ids: map<NodeID, TextNode>, ns: set<TextNode>, k: NodeID)
    requires k in ids
  {
    ids[k] in ns && ids[k].id == k
  }

  /** The map binds exactly the ids of the given nodes, to the nodes. */
  ghost predicate Binds(ids: map<NodeID, TextNode>, ns: set<TextNode>) {
    && (forall n {:trigger Bound(ids, n)} :: n in ns ==> Bound(ids, n))
    && (forall k {:trigger BoundTo(ids, ns, k)} :: k in ids ==> BoundTo(ids, ns, k))
  }

  lemma BindsInsert(ids: map<NodeID, TextNode>, ns: set<TextNode>, node: TextNode)
    requires Binds(ids, ns) && node.id !in ids
    ensures node !in ns && Binds(ids[node.id := node], ns + {node})
  {
    var r := ids[node.id := node];
    forall n | n in ns ensures n != node && Bound(r, n) {
      assert Bound(ids, n);
    }
    forall k | k in r ensures BoundTo(r, ns + {node}, k) {
      assert k in ids ==> BoundTo(ids, ns, k);
    }
  }

  lemma HeadListed(m: Fields, head: TextNode)
    requires m.Keys == {head} && m[head] == Cell([], None, null, null, null, null) && head.id == Head.id
    ensures Listed(m, [head]) && BlocksOf(m, [head]) == [Head]
  {
  }

  method NewTreeByID(node: TextNode) returns (t: Llrb.Tree<TextNode>)
    ensures fresh(t) && fresh(t.ever) && t.Valid() && t.Map() == map[node.id := node]
  {
    t := new Llrb.Tree();
    var _ := t.Put(node.id, node);
  }

  /** The index tree holds the index nodes in list order. */
  ghost predicate Indexed(index: Splay.Tree, ns: seq<TextNode>)
    reads index`root, index`repr, index`shape,
          index.repr`len, index.repr`weight, index.repr`left, index.repr`right, index.repr`parent
  {
    index.Valid() && SplayShape.InOrder(index.shape) == IndexNodes(ns)
  }

  lemma IndexMember(index: Splay.Tree, ns: seq<TextNode>, i: nat)
    requires Indexed(index, ns) && i < |ns|
    ensures ns[i].indexNode in index.repr
  {
    SplayShape.InOrderNodes(index.shape);
    IndexNodesAt(ns, |ns|, i);
    assert SplayShape.InOrder(index.shape)[i] == ns[i].indexNode;
  }

  /** As Indexed, when the index has not been told of a new length of `x`. */
  ghost predicate IndexedOff(index: Splay.Tree, ns: seq<TextNode>, x: TextNode)
    reads index`root, index`repr, index`shape,
          index.repr`len, index.repr`weight, index.repr`left, index.repr`right, index.repr`parent
  {
    index.ValidOff(x.indexNode) && SplayShape.InOrder(index.shape) == IndexNodes(ns)
  }

  /** The index nodes lead to their nodes and see the lengths these have. */
  ghost predicate Measured(ns: set<TextNode>)
    reads ns`value, ns`removedAt, (set n | n in ns :: n.indexNode)`value, (set n | n in ns :: n.indexNode)`len
  {
    forall n :: n in ns ==>
      n.indexNode.value == n && n.indexNode.len == if n.removedAt.Some? then 0 else |n.value|
  }

  /** The tree binds exactly the ids of the nodes, to the nodes. */
  ghost predicate Identified(ids: Llrb.Tree<TextNode>, ns: set<TextNode>)
    reads ids`root, ids`size, ids`tree, ids`repr, ids`ever,
          ids.ever`key, ids.ever`value, ids.ever`left, ids.ever`right, ids.ever`isRed, ids.ever`parent
  {
    ids.Valid() && Binds(ids.Map(), ns)
  }

  /** The map holds tombstones of the list under their ids. */
  ghost predicate Registered(removed: map<NodeID, TextNode>, m: Fields) {
    forall k :: k in removed ==> removed[k] in m && removed[k].id == k && m[removed[k]].removedAt.Some?
  }

  /** What a node must be like to be split. */
  lemma SplitReady(m: Fields, ns: seq<TextNode>, i: nat, k: nat)
    requires Listed(m, ns) && i < |ns| && 0 < k < |m[ns[i]].value|
    ensures ns[i] in m && (m[ns[i]].next != null ==> m[ns[i]].next in m && m[ns[i]].next != ns[i])
    ensures m[ns[i]].insNext != null ==> m[ns[i]].insNext in m && m[ns[i]].insNext != ns[i]
    ensures forall j :: 0 <= j < |ns| ==> ns[j].id != ns[i].id.Split(k)
  {
    assert LinkedAt(m, ns, i) && ChainedAt(m, ns, i);
    var bs := BlocksOf(m, ns);
    BlocksAll(m, ns);
    forall j | 0 <= j < |ns| ensures ns[j].id != ns[i].id.Split(k) {
      TextTheorems.NothingInside(bs, i, j);
    }
    AtIs(ns, i + 1, i);
    AtIs(ns, NextOf(ns, ns[i].id.createdAt, i + 1), i);
  }

  lemma NotBound(ids: map<NodeID, TextNode>, ns: seq<TextNode>, repr: set<TextNode>, id: NodeID)
    requires Binds(ids, repr) && repr == (set n | n in ns) && forall j :: 0 <= j < |ns| ==> ns[j].id != id
    ensures id !in ids
  {
    forall k | k in ids ensures k != id {
      assert BoundTo(ids, repr, k);
    }
  }

  ghost predicate Known(ids: set<NodeID>, m: Fields, n: TextNode)
    requires n in m
  {
    m[n].removedAt.Some? ==> n.id in ids
  }

  /** Every tombstone among the nodes has its id in the set. */
  ghost predicate Complete(ids: set<NodeID>, m: Fields) {
    forall n {:trigger Known(ids, m, n)} :: n in m ==> Known(ids, m, n)
  }

  /** The tombstones are those of the two maps, `dead` being the ones not yet registered. */
  ghost predicate Tracked(registered: map<NodeID, TextNode>, dead: map<NodeID, TextNode>, m: Fields) {
    Registered(registered, m) && Registered(dead, m) && Complete(registered.Keys + dead.Keys, m)
  }

  lemma SplitRegistered(m0: Fields, m1: Fields, m2: Fields, m3: Fields, y: TextNode, x: TextNode, k: nat,
                        removed: map<NodeID, TextNode>)
    requires CutDown(m0, m1, y, k) && SplicedIn(m1, m2, y, x) && ChainedIn(m2, m3, y, x) && Registered(removed, m0)
    requires m2[x].removedAt == None && Complete(removed.Keys, m0)
    ensures Registered(removed, m3) && Complete(removed.Keys, m3)
  {
    forall n | n in m0 ensures n in m3 && m3[n].removedAt == m0[n].removedAt {
      assert n in m1 && n in m2;
    }
    forall n | n in m3 ensures Known(removed.Keys, m3, n) {
      assert n in m0 ==> Known(removed.Keys, m0, n);
    }
  }

  lemma SplitListed(m0: Fields, m1: Fields, m2: Fields, m3: Fields, ns: seq<TextNode>, p: nat, x: TextNode, k: nat)
    requires Listed(m0, ns) && p < |ns| && 0 < k < |m0[ns[p]].value|
    requires CutDown(m0, m1, ns[p], k) && SplicedIn(m1, m2, ns[p], x) && ChainedIn(m2, m3, ns[p], x)
    requires BlockOf(m2, x) == Block(ns[p].id.Split(k), m0[ns[p]].value[k..], None)
    ensures BlocksOf(m0, ns)[p] == BlockOf(m0, ns[p])
    ensures Listed(m3, Inserted(ns, p, x)) && BlocksOf(m3, Inserted(ns, p, x)) == SplitBlock(BlocksOf(m0, ns), p, k)
  {
    SplitLists(m0, m1, m2, m3, ns, p, x, k);
    TextTheorems.SplitWellFormed(BlocksOf(m0, ns), p, k);
  }

  lemma SplitHolds(m0: Fields, m1: Fields, m2: Fields, m3: Fields, ns: seq<TextNode>, p: nat, x: TextNode, k: nat,
                   removed: map<NodeID, TextNode>)
    requires Listed(m0, ns) && p < |ns| && 0 < k < |m0[ns[p]].value|
    requires CutDown(m0, m1, ns[p], k) && SplicedIn(m1, m2, ns[p], x) && ChainedIn(m2, m3, ns[p], x)
    requires BlockOf(m2, x) == Block(ns[p].id.Split(k), m0[ns[p]].value[k..], None)
    requires Registered(removed, m0) && Complete(removed.Keys, m0)
    ensures k <= |BlocksOf(m0, ns)[p].value| && Listed(m3, Inserted(ns, p, x))
    ensures BlocksOf(m3, Inserted(ns, p, x)) == SplitBlock(BlocksOf(m0, ns), p, k)
    ensures Registered(removed, m3) && Complete(removed.Keys, m3)
  {
    SplitListed(m0, m1, m2, m3, ns, p, x, k);
    SplitRegistered(m0, m1, m2, m3, ns[p], x, k, removed);
  }

  /** The head has the least id there is, so every id has a floor, and treeByID has it. */
  lemma FloorBound(m: Fields, ns: seq<TextNode>, repr: set<TextNode>, ids: map<NodeID, TextNode>, id: NodeID)
      returns (f: nat)
    requires Listed(m, ns) && m.Keys == repr && Binds(ids, repr)
    ensures f < |ns| && f == FloorIndex(BlocksOf(m, ns), id, |ns|) && BlocksOf(m, ns)[f].id == ns[f].id
    ensures LlrbOrder.IsFloor(ids, id, ns[f].id) && ids[ns[f].id] == ns[f]
  {
    var bs := BlocksOf(m, ns);
    BlocksAll(m, ns);
    assert !Less(id, bs[0].id) by { TicketBounds(id.createdAt); }
    TextTheorems.FloorIndexIsFloor(bs, id, |bs|);
    f := FloorIndex(bs, id, |bs|);
    assert LinkedAt(m, ns, f);
    assert Bound(ids, ns[f]);
    forall x | x in ids && !Less(id, x) ensures !Less(ns[f].id, x) {
      assert BoundTo(ids, repr, x);
      var j :| 0 <= j < |ns| && ns[j] == ids[x];
      assert bs[j].id == x;
    }
  }

  lemma InsPrevAt(m: Fields, ns: seq<TextNode>, i: nat)
    requires Listed(m, ns) && i < |ns|
    ensures ns[i] in m && m[ns[i]].insPrev == At(ns, PrevSame(BlocksOf(m, ns), i, i))
    ensures BlocksOf(m, ns)[i].id == ns[i].id
  {
    assert ChainedAt(m, ns, i);
    BlocksAt(m, ns, i);
    PrevOfIsPrevSame(m, ns, i, i);
  }

  lemma SliceGrows(ns: seq<TextNode>, lo: nat, k: nat)
    requires lo <= k < |ns|
    ensures ns[lo..k] + [ns[k]] == ns[lo..k + 1]
  {
  }

  ghost function IDOf(node: TextNode?): Option<NodeID> {
    if node == null then None else Some(node.id)
  }

  /** A walk stops at the node `to`, and passes all others: they do not have its id either. */
  lemma StopOrPass(m: Fields, ns: seq<TextNode>, k: nat, to: TextNode?)
    requires Listed(m, ns) && k <= |ns| && (to != null ==> to in ns)
    ensures StopIndex(BlocksOf(m, ns), k, IDOf(to))
            == if k < |ns| && ns[k] != to then StopIndex(BlocksOf(m, ns), k + 1, IDOf(to)) else k
  {
    var bs := BlocksOf(m, ns);
    BlocksAll(m, ns);
    if to != null && k < |ns| {
      var j :| 0 <= j < |ns| && ns[j] == to;
      assert bs[j].id == to.id && bs[k].id == ns[k].id;
      if bs[k].id == to.id {
        IdsDiffer(bs, j, k);
      }
    }
  }

  lemma BuriedListed(m: Fields, m': Fields, ns: seq<TextNode>, p: nat, t: Ticket, removed: map<NodeID, TextNode>)
    requires Listed(m, ns) && 0 < p < |ns| && Buried(m, m', ns[p], t) && Registered(removed, m)
    ensures Listed(m', ns) && Registered(removed, m')
    ensures BlocksOf(m', ns) == BlocksOf(m, ns)[p := BlockOf(m, ns[p]).(removedAt := Some(t))]
  {
    BuriedLists(m, m', ns, p, t);
    BlocksAt(m, ns, p);
    TextTheorems.BuryWellFormed(BlocksOf(m, ns), p, Some(t));
  }

  /** What a deletion over the blocks `bs` has noted down when the candidates up to `k` are done. */
  ghost predicate Noted(bs: seq<Block>, lo: nat, k: nat, seen: Option<ByActor>, t: Ticket, latest: ByActor,
                        ids: set<NodeID>) {
    && lo <= k <= |bs|
    && latest == LatestRemoved(bs, lo, k, t, seen) && ids == RemovedIn(bs, lo, k, t, seen)
  }

  /** What it has made of the nodes by then. */
  ghost predicate Deleted(m: Fields, ns: seq<TextNode>, bs: seq<Block>, lo: nat, k: nat, seen: Option<ByActor>,
                          t: Ticket, registered: map<NodeID, TextNode>, removed: map<NodeID, TextNode>)
  {
    && Listed(m, ns) && |bs| == |ns| && 0 < lo <= k <= |ns|
    && BlocksOf(m, ns) == DeleteRange(bs, lo, k, t, seen)
    && Tracked(registered, removed, m)
  }

  lemma StartDeleted(m: Fields, ns: seq<TextNode>, bs: seq<Block>, lo: nat, seen: Option<ByActor>, t: Ticket,
                     registered: map<NodeID, TextNode>)
    requires Listed(m, ns) && bs == BlocksOf(m, ns) && 0 < lo <= |ns|
    requires Registered(registered, m) && Complete(registered.Keys, m)
    ensures Deleted(m, ns, bs, lo, lo, seen, t, registered, map[]) && Noted(bs, lo, lo, seen, t, map[], {})
  {
    var none: map<NodeID, TextNode> := map[];
    assert registered.Keys + none.Keys == registered.Keys;
  }

  lemma NoteDown(bs: seq<Block>, lo: nat, k: nat, k': nat, seen: Option<ByActor>, t: Ticket, latest: ByActor,
                 removed: map<NodeID, TextNode>, node: TextNode)
    requires k' == k + 1 && k < |bs| && Noted(bs, lo, k, seen, t, latest, removed.Keys) && node.id == bs[k].id
    ensures var c := node.id.createdAt;
            if CanRemove(bs[k], t, seen)
            then Noted(bs, lo, k', seen, t,
                       if c.actorID !in latest || After(c, latest[c.actorID]) then latest[c.actorID := c] else latest,
                       removed[node.id := node].Keys)
            else Noted(bs, lo, k', seen, t, latest, removed.Keys)
  {
    assert removed[node.id := node].Keys == removed.Keys + {node.id};
  }

  /** The next candidate is as it was. */
  lemma DeletedNext(m: Fields, ns: seq<TextNode>, bs: seq<Block>, lo: nat, k: nat, seen: Option<ByActor>, t: Ticket,
                    registered: map<NodeID, TextNode>, removed: map<NodeID, TextNode>)
    requires Deleted(m, ns, bs, lo, k, seen, t, registered, removed) && k < |ns|
    ensures ns[k] in m && bs[k] == BlockOf(m, ns[k])
  {
    assert LinkedAt(m, ns, k);
    BlocksAt(m, ns, k);
    DeleteRangeAt(bs, lo, k, t, seen, k);
  }

  lemma DeletedStep(m: Fields, m': Fields, ns: seq<TextNode>, bs: seq<Block>, lo: nat, k: nat, k': nat,
                    seen: Option<ByActor>, t: Ticket, registered: map<NodeID, TextNode>, removed: map<NodeID, TextNode>)
    requires Deleted(m, ns, bs, lo, k, seen, t, registered, removed) && k < |ns| && k' == k + 1
    requires if CanRemove(bs[k], t, seen) then Buried(m, m', ns[k], t) else m' == m
    ensures Deleted(m', ns, bs, lo, k', seen, t, registered,
                    if CanRemove(bs[k], t, seen) then removed[ns[k].id := ns[k]] else removed)
  {
    DeletedNext(m, ns, bs, lo, k, seen, t, registered, removed);
    if CanRemove(bs[k], t, seen) {
      BuriedListed(m, m', ns, k, t, registered);
      BuriedListed(m, m', ns, k, t, removed);
      assert m'[ns[k]].removedAt.Some?;
      BlocksAt(m, ns, k);
      var ids, ids' := registered.Keys + removed.Keys, registered.Keys + removed[ns[k].id := ns[k]].Keys;
      forall n | n in m' ensures Known(ids', m', n) {
        assert Known(ids, m, n);
      }
    }
    assert bs[k] == BlocksOf(m, ns)[k] by { BlocksAt(m, ns, k); }
    assert BlocksOf(m', ns) == BlocksOf(m, ns)[k := RemoveBlock(bs[k], t, seen)];
  }

  /** What stands right of a node, as its block and its link say it. */
  lemma RightOfNode(m: Fields, ns: seq<TextNode>, j: nat)
    requires Listed(m, ns) && j < |ns|
    ensures ns[j] in m && BlocksOf(m, ns)[j].id == ns[j].id
    ensures RightOf(Found(BlocksOf(m, ns), j)) == IDOf(m[ns[j]].next)
    ensures m[ns[j]].next == At(ns, j + 1) && (m[ns[j]].next != null ==> m[ns[j]].next in m)
  {
    assert LinkedAt(m, ns, j);
    BlocksAt(m, ns, j);
    if j + 1 < |ns| {
      BlocksAt(m, ns, j + 1);
      assert LinkedAt(m, ns, j + 1);
    }
  }

  /** The blocks after the content of an edit was inserted at `q`. */
  ghost function WithContent(bs: seq<Block>, q: nat, content: seq<CodeUnit>, editedAt: Ticket): seq<Block>
    requires q <= |bs|
  {
    if content == [] then bs else InsertBlock(bs, q, Block(NodeID(editedAt, 0), content, None))
  }

  lemma ContentListed(m: Fields, m': Fields, ns: seq<TextNode>, p: nat, q: nat, x: TextNode, content: seq<CodeUnit>,
                      editedAt: Ticket)
    requires Listed(m, ns) && p < |ns| && q == p + 1 && SplicedIn(m, m', ns[p], x) && content != []
    requires x.id == NodeID(editedAt, 0)
    requires m'[x].(prev := null, next := null) == Cell(content, None, null, null, null, null)
    requires forall n :: n in m ==> n.id.createdAt != editedAt
    ensures Listed(m', Inserted(ns, p, x)) && Inserted(ns, p, x)[0] == ns[0]
    ensures BlocksOf(m', Inserted(ns, p, x)) == WithContent(BlocksOf(m, ns), q, content, editedAt)
  {
    InsertedList(m, m', ns, p, x);
    InsertedBlocks(m, m', ns, p, x);
    ContentChain(m, m', ns, p, q, x);
    BlocksAll(m, ns);
    TextTheorems.InsertWellFormed(BlocksOf(m, ns), q, BlockOf(m', x));
  }

  /** The new node is alone on its chain, and the others stay as they were. */
  lemma ContentChain(m: Fields, m': Fields, ns: seq<TextNode>, p: nat, q: nat, x: TextNode)
    requires Listed(m, ns) && p < |ns| && q == p + 1 && SplicedIn(m, m', ns[p], x)
    requires m'[x].insPrev == null && m'[x].insNext == null
    requires forall n :: n in m ==> n.id.createdAt != x.id.createdAt
    ensures ChainLinked(m', Inserted(ns, p, x))
  {
    var r := Inserted(ns, p, x);
    InsertedWithout(ns, p, x);
    InsertedNoDup(ns, p, x);
    SplicedChain(m, m', ns, ns[p], x);
    forall i | 0 <= i < |r| && i != q ensures r[i] in m {
      assert r[i] == ns[if i < q then i else i - 1];
    }
    LoneChain(m', r, q);
  }

  lemma SplicedTracked(m: Fields, m': Fields, y: TextNode, x: TextNode, registered: map<NodeID, TextNode>,
                       dead: map<NodeID, TextNode>)
    requires SplicedIn(m, m', y, x) && m'[x].removedAt == None && Tracked(registered, dead, m)
    ensures Tracked(registered, dead, m')
  {
    var ids := registered.Keys + dead.Keys;
    forall n | n in m' ensures Known(ids, m', n) {
      assert n in m ==> Known(ids, m, n);
    }
  }

  /** What an inserted node leaves of the list and of the tombstones. */
  lemma ContentInserted(m: Fields, m': Fields, ns: seq<TextNode>, p: nat, q: nat, x: TextNode, content: seq<CodeUnit>,
                        editedAt: Ticket, registered: map<NodeID, TextNode>, dead: map<NodeID, TextNode>)
    requires Listed(m, ns) && p < |ns| && q == p + 1 && SplicedIn(m, m', ns[p], x) && content != []
    requires x.id == NodeID(editedAt, 0)
    requires m'[x].(prev := null, next := null) == Cell(content, None, null, null, null, null)
    requires forall n :: n in m ==> n.id.createdAt != editedAt
    requires Tracked(registered, dead, m)
    ensures Listed(m', Inserted(ns, p, x)) && Inserted(ns, p, x)[0] == ns[0]
    ensures BlocksOf(m', Inserted(ns, p, x)) == WithContent(BlocksOf(m, ns), q, content, editedAt)
    ensures Tracked(registered, dead, m')
  {
    ContentListed(m, m', ns, p, q, x, content, editedAt);
    SplicedTracked(m, m', ns[p], x, registered, dead);
  }

  lemma FreshNodes(m: Fields, ns: seq<TextNode>, t: Ticket)
    requires Listed(m, ns) && TextTheorems.FreshTicket(BlocksOf(m, ns), t)
    ensures forall n :: n in m ==> n.id.createdAt != t
  {
    BlocksAll(m, ns);
    forall n | n in m ensures n.id.createdAt != t {
      var i :| 0 <= i < |ns| && ns[i] == n;
      assert BlocksOf(m, ns)[i].id == n.id;
    }
  }

  lemma EditBetweenParts(left: Found, right: Found, seen: Option<ByActor>, content: seq<CodeUnit>, t: Ticket, lo: nat,
                         hi: nat)
    requires left.left < |left.blocks| && right.left < |right.blocks|
    requires lo == left.left + 1 && hi == StopIndex(left.blocks, lo, RightOf(right))
    ensures var e := EditBetween(left, right, seen, content, t);
            && e.blocks == WithContent(DeleteRange(left.blocks, lo, hi, t, seen), lo, content, t)
            && e.latest == LatestRemoved(left.blocks, lo, hi, t, seen)
            && e.removed == RemovedIn(left.blocks, lo, hi, t, seen)
            && e.caret == if content != [] then NodePos(NodeID(t, 0), |content|)
                          else NodePos(if RightOf(right).None? then right.blocks[right.left].id
                                       else RightOf(right).value, 0)
  {
  }

  /** A local edit of the visible text. */
  datatype Splice = Splice(from: nat, to: nat, content: seq<CodeUnit>, ticket: Ticket)

  function SpliceOne(text: seq<CodeUnit>, e: Splice): seq<CodeUnit> {
    if e.from <= e.to <= |text| then text[..e.from] + e.content + text[e.to..] else text
  }

  /** The text after a run of splices. */
  function Spliced(text: seq<CodeUnit>, edits: seq<Splice>): seq<CodeUnit>
    decreases |edits|
  {
    if edits == [] then text else Spliced(SpliceOne(text, edits[0]), edits[1..])
  }

  lemma SplicedStep(text: seq<CodeUnit>, edits: seq<Splice>, i: nat, i': nat)
    requires i < |edits| && i' == i + 1
    ensures Spliced(text, edits[i..]) == Spliced(SpliceOne(text, edits[i]), edits[i'..])
  {
    assert edits[i..][1..] == edits[i'..];
  }

  /** What a local edit sends to the other copies. */
  datatype EditOperation = EditOperation(from: NodePos, to: NodePos, latest: ByActor, content: seq<CodeUnit>,
                                         executedAt: Ticket)

  /** What the copies have in common: the blocks and the ids of the registered tombstones. */
  datatype Copy = Copy(blocks: seq<Block>, tombstones: set<NodeID>)

  ghost function WithEdit(c: Copy, e: Edited): Copy {
    Copy(e.blocks, c.tombstones + e.removed)
  }

  /** A copy after a local edit, and after the operations of another copy. */
  ghost predicate Performed(c: Copy, op: EditOperation, c': Copy) {
    var r := TextBlocks.Edit(c.blocks, op.from, op.to, None, op.content, op.executedAt);
    r.Some? && c' == WithEdit(c, r.value) && op.latest == r.value.latest
  }

  ghost function Executed(c: Copy, op: EditOperation): Option<Copy> {
    match TextBlocks.Edit(c.blocks, op.from, op.to, Some(op.latest), op.content, op.executedAt)
    case None => None
    case Some(e) => Some(WithEdit(c, e))
  }

  ghost function Replayed(c: Copy, ops: seq<EditOperation>): Option<Copy> {
    if ops == [] then Some(c)
    else
      match Replayed(c, ops[..|ops| - 1])
      case None => None
      case Some(d) => Executed(d, ops[|ops| - 1])
  }

  /** Executing the operation elsewhere does what performing it did here. */
  lemma PerformedIsExecuted(c: Copy, op: EditOperation, c': Copy)
    requires Performed(c, op, c')
    ensures Executed(c, op) == Some(c')
  {
    TextTheorems.ReplayAgrees(c.blocks, op.from, op.to, op.content, op.executedAt);
  }

  lemma ReplayedMore(c: Copy, ops: seq<EditOperation>, d: Copy, op: EditOperation, d': Copy)
    requires Replayed(c, ops) == Some(d) && Performed(d, op, d')
    ensures Replayed(c, ops + [op]) == Some(d')
  {
    PerformedIsExecuted(d, op, d');
    assert (ops + [op])[..|ops|] == ops;
  }

  /** What a local edit did, if it did anything, goes to the end of the record. */
  lemma Recorded(start: Copy, was: seq<EditOperation>, c: Copy, e: Splice, ok: bool, op: EditOperation, d: Copy)
    requires Replayed(start, was) == Some(c) && (ok <==> e.from <= e.to <= |Visible(c.blocks)|)
    requires ok ==> Performed(c, op, d)
    requires ok ==> Visible(d.blocks) == Visible(c.blocks)[..e.from] + e.content + Visible(c.blocks)[e.to..]
    requires !ok ==> d == c
    ensures Replayed(start, if ok then was + [op] else was) == Some(d)
    ensures Visible(d.blocks) == SpliceOne(Visible(c.blocks), e)
  {
    if ok {
      ReplayedMore(start, was, c, op, d);
    }
  }

  /** A replay that succeeds has succeeded with every operation on the way. */
  lemma ReplayedFront(c: Copy, ops: seq<EditOperation>) returns (front: seq<EditOperation>)
    requires Replayed(c, ops).Some? && ops != []
    ensures front == ops[..|ops| - 1] && Replayed(c, front).Some?
    ensures Replayed(c, ops) == Executed(Replayed(c, front).value, ops[|ops| - 1])
  {
    front := ops[..|ops| - 1];
  }

  lemma {:induction false} ReplayedPrefix(c: Copy, ops: seq<EditOperation>, n: nat)
    requires Replayed(c, ops).Some? && n <= |ops|
    ensures Replayed(c, ops[..n]).Some?
  {
    if n == |ops| {
      assert ops[..n] == ops;
    } else {
      var front := ReplayedFront(c, ops);
      ReplayedPrefix(c, front, n);
      assert front[..n] == ops[..n];
    }
  }

  lemma ReplayedStep(was: Copy, ops: seq<EditOperation>, i: nat, c: Copy, i': nat)
    requires Replayed(was, ops).Some? && i < |ops| && Replayed(was, ops[..i]) == Some(c) && i' == i + 1
    ensures Executed(c, ops[i]).Some? && Replayed(was, ops[..i']) == Executed(c, ops[i])
  {
    ReplayedPrefix(was, ops, i');
    var front := ReplayedFront(was, ops[..i']);
    assert front == ops[..i];
  }

  ghost predicate LensAgree(f: SplayShape.Fields, xs: seq<SplayShape.Node>, bs: seq<Block>) {
    |xs| == |bs| && forall i :: 0 <= i < |xs| ==> xs[i] in f && f[xs[i]].len == bs[i].Len()
  }

  lemma {:induction false} TotalIsVisible(f: SplayShape.Fields, xs: seq<SplayShape.Node>, bs: seq<Block>)
    requires LensAgree(f, xs, bs)
    ensures SplayShape.Total(f, xs) == |Visible(bs)|
  {
    if xs != [] {
      TotalIsVisible(f, xs[1..], bs[1..]);
    }
  }

  lemma TextHasHead(index: Splay.Tree, ns: seq<TextNode>)
    requires Indexed(index, ns) && ns != []
    ensures index.root != null
  {
  }

  lemma IndexNodesWithout(ns: seq<TextNode>, q: nat)
    requires q < |ns|
    ensures IndexNodes(Without(ns, q)) == IndexNodes(ns)[..q] + IndexNodes(ns)[q + 1..]
    ensures IndexNodes(ns)[q] == ns[q].indexNode
  {
    var r := Without(ns, q);
    var a, b := IndexNodes(r), IndexNodes(ns)[..q] + IndexNodes(ns)[q + 1..];
    IndexNodesAt(ns, |ns|, q);
    forall i | 0 <= i < |r| ensures a[i] == b[i] {
      IndexNodesAt(r, |r|, i);
      IndexNodesAt(ns, |ns|, Wide(q, i));
    }
  }

  lemma BindsRemove(ids: map<NodeID, TextNode>, ns: set<TextNode>, node: TextNode)
    requires Binds(ids, ns) && node in ns
    ensures node.id in ids && Binds(ids - {node.id}, ns - {node})
  {
    assert Bound(ids, node);
    var r := ids - {node.id};
    forall n | n in ns - {node} ensures Bound(r, n) {
      assert Bound(ids, n);
    }
    forall k | k in r ensures BoundTo(r, ns - {node}, k) {
      assert BoundTo(ids, ns, k);
    }
  }

  /** What a node must be like to be purged. */
  lemma PurgeReady(m: Fields, ns: seq<TextNode>, i: nat)
    requires Listed(m, ns) && 0 < i < |ns|
    ensures ns[i] in m
    ensures var c := m[ns[i]];
            && c.prev != null && c.prev in m && c.prev != ns[i]
            && (c.next != null ==> c.next in m && c.next != ns[i] && c.next != c.prev)
            && (c.insPrev != null ==> c.insPrev in m && c.insPrev != ns[i])
            && (c.insNext != null ==> c.insNext in m && c.insNext != ns[i] && c.insNext != c.insPrev)
  {
    assert LinkedAt(m, ns, i) && ChainedAt(m, ns, i);
    var c := ns[i].id.createdAt;
    var p, n := PrevOf(ns, c, i), NextOf(ns, c, i + 1);
    AtIs(ns, i - 1, i);
    AtIs(ns, i + 1, i);
    AtIs(ns, i + 1, i - 1);
    AtIs(ns, p, i);
    AtIs(ns, n, i);
    if p >= 0 {
      AtIs(ns, n, p);
    }
  }

  /** Purging a node takes just its block out. */
  lemma UnlinkedListed(m: Fields, m': Fields, ns: seq<TextNode>, i: nat, removed: map<NodeID, TextNode>)
    requires Listed(m, ns) && 0 < i < |ns| && Unlinked(m, m', ns[i])
    requires Registered(removed, m) && Complete(removed.Keys, m)
    ensures Listed(m', Without(ns, i)) && Without(ns, i)[0] == ns[0]
    ensures Registered(removed - {ns[i].id}, m') && Complete((removed - {ns[i].id}).Keys, m')
    ensures BlocksOf(m', Without(ns, i)) == BlocksOf(m, ns)[..i] + BlocksOf(m, ns)[i + 1..]
  {
    UnlinkedLists(m, m', ns, i);
    UnlinkedBlocks(m, m', ns, i);
    TextTheorems.RemoveAtWellFormed(BlocksOf(m, ns), i);
    NoDupWithout(ns, i);
    UnlinkedRegistered(m, m', ns, i, removed);
  }

  lemma UnlinkedRegistered(m: Fields, m': Fields, ns: seq<TextNode>, i: nat, removed: map<NodeID, TextNode>)
    requires Listed(m, ns) && 0 < i < |ns| && Unlinked(m, m', ns[i])
    requires Registered(removed, m) && Complete(removed.Keys, m)
    ensures Registered(removed - {ns[i].id}, m') && Complete((removed - {ns[i].id}).Keys, m')
    ensures forall n :: n in m' ==> n in Without(ns, i)
  {
    var r := Without(ns, i);
    BlocksAll(m, ns);
    forall n | n in m' ensures n in r && n.id != ns[i].id && Known((removed - {ns[i].id}).Keys, m', n) {
      var j :| 0 <= j < |ns| && ns[j] == n;
      assert r[if j < i then j else j - 1] == n;
      assert BlocksOf(m, ns)[j].id == n.id && BlocksOf(m, ns)[i].id == ns[i].id;
      IdsDiffer(BlocksOf(m, ns), i, j);
      assert Known(removed.Keys, m, n);
    }
  }

  lemma TrackedUnion(a: map<NodeID, TextNode>, b: map<NodeID, TextNode>, m: Fields)
    requires Tracked(a, b, m)
    ensures Registered(a + b, m) && Complete((a + b).Keys, m) && (a + b).Keys == a.Keys + b.Keys
  {
  }

  lemma NoEdit(bs: seq<Block>, from: NodePos, to: NodePos, seen: Option<ByActor>, content: seq<CodeUnit>, t: Ticket)
    requires TextBlocks.Edit(bs, from, to, None, [], t) == None
    ensures TextBlocks.Edit(bs, from, to, seen, content, t) == None
  {
  }

  /** What a cleanup starts from. */
  datatype Cleaning = Cleaning(fields: Fields, blocks: seq<Block>, registered: map<NodeID, TextNode>, ticket: Ticket)

  /** The entry `k` is due. */
  ghost predicate Due(c: Cleaning, k: NodeID) {
    && k in c.registered && c.registered[k] in c.fields && c.fields[c.registered[k]].removedAt.Some?
    && Compare(c.ticket, c.fields[c.registered[k]].removedAt.value) >= 0
  }

  ghost predicate KeptOrDue(c: Cleaning, reg: map<NodeID, TextNode>, todo: set<NodeID>, k: NodeID) {
    if k in todo then k in reg else k in reg <==> !Due(c, k)
  }

  /** The state of a cleanup that still has the entries `todo` before it. */
  ghost predicate Cleaned(c: Cleaning, m: Fields, bs: seq<Block>, reg: map<NodeID, TextNode>, todo: set<NodeID>,
                          count: nat) {
    && Cleanup(bs, todo, c.ticket) == Cleanup(c.blocks, c.registered.Keys, c.ticket)
    && todo <= reg.Keys <= c.registered.Keys && (forall k :: k in reg ==> reg[k] == c.registered[k])
    && (forall k {:trigger KeptOrDue(c, reg, todo, k)} :: k in c.registered ==> KeptOrDue(c, reg, todo, k))
    && (forall n :: n in m ==> n in c.fields && m[n].removedAt == c.fields[n].removedAt)
    && count == |c.registered| - |reg|
  }

  lemma TombstoneIndex(m: Fields, ns: seq<TextNode>, node: TextNode) returns (i: nat)
    requires Listed(m, ns) && node in m && m[node].removedAt.Some?
    ensures 0 < i < |ns| && ns[i] == node && BlocksOf(m, ns)[i] == BlockOf(m, node)
  {
    i :| 0 <= i < |ns| && ns[i] == node;
    BlocksAt(m, ns, i);
  }

  lemma CleanedOne(c: Cleaning, m: Fields, m': Fields, bs: seq<Block>, reg: map<NodeID, TextNode>, todo: set<NodeID>,
                   count: nat, k: NodeID, i: nat, count': nat)
    requires WellFormed(bs) && Cleaned(c, m, bs, reg, todo, count) && k in todo && Registered(reg, m)
    requires i < |bs| && bs[i] == BlockOf(m, reg[k]) && Expired(bs[i], todo, c.ticket)
    requires Unlinked(m, m', reg[k]) && count' == count + 1
    ensures Cleaned(c, m', bs[..i] + bs[i + 1..], reg - {k}, todo - {k}, count')
  {
    TextTheorems.CleanupOne(bs, i, todo, c.ticket);
    CountWithout(reg, k);
    forall x | x in c.registered ensures KeptOrDue(c, reg - {k}, todo - {k}, x) {
      assert KeptOrDue(c, reg, todo, x);
    }
  }

  lemma CountWithout(reg: map<NodeID, TextNode>, k: NodeID)
    requires k in reg
    ensures |reg - {k}| == |reg| - 1
  {
    assert reg == (reg - {k})[k := reg[k]];
  }

  lemma CleanedKeep(c: Cleaning, m: Fields, bs: seq<Block>, reg: map<NodeID, TextNode>, todo: set<NodeID>, count: nat,
                    k: NodeID, i: nat)
    requires WellFormed(bs) && Cleaned(c, m, bs, reg, todo, count) && k in todo && Registered(reg, m)
    requires i < |bs| && bs[i] == BlockOf(m, reg[k]) && !Expired(bs[i], todo, c.ticket)
    ensures Cleaned(c, m, bs, reg, todo - {k}, count)
  {
    forall j | 0 <= j < |bs| ensures bs[j].id != k || !Expired(bs[j], todo, c.ticket) {
      IdsDiffer(bs, i, j);
    }
    TextTheorems.CleanupWithout(bs, todo, k, c.ticket);
    forall x | x in c.registered ensures KeptOrDue(c, reg, todo - {k}, x) {
      assert KeptOrDue(c, reg, todo, x);
    }
  }

  lemma StartCleaned(c: Cleaning, m: Fields, bs: seq<Block>, reg: map<NodeID, TextNode>)
    requires c == Cleaning(m, bs, reg, c.ticket)
    ensures Cleaned(c, m, bs, reg, reg.Keys, 0)
  {
  }

  /** An entry stays registered just if its tombstone is later than the ticket. */
  ghost predicate StaysIfLater(m: Fields, was: map<NodeID, TextNode>, now: map<NodeID, TextNode>, ticket: Ticket,
                               k: NodeID)
    requires k in was
  {
    && was[k] in m && m[was[k]].removedAt.Some?
    && (k in now <==> After(m[was[k]].removedAt.value, ticket)) && (k in now ==> now[k] == was[k])
  }

  predicate TombstonesLater(bs: seq<Block>, ticket: Ticket) {
    forall i :: 0 <= i < |bs| && bs[i].removedAt.Some? ==> After(bs[i].removedAt.value, ticket)
  }

  /** As every tombstone is registered, a cleanup leaves only the ones later than its ticket. */
  lemma LeftLater(m: Fields, ns: seq<TextNode>, ids: set<NodeID>, ticket: Ticket, i: nat)
    requires Listed(m, ns) && Complete(ids, m) && i < |Cleanup(BlocksOf(m, ns), ids, ticket)|
    ensures var b := Cleanup(BlocksOf(m, ns), ids, ticket)[i];
            b.removedAt.Some? ==> After(b.removedAt.value, ticket)
  {
    var bs := BlocksOf(m, ns);
    var b := Cleanup(bs, ids, ticket)[i];
    TextTheorems.CleanupExact(bs, ids, ticket, b);
    var j :| 0 <= j < |bs| && bs[j] == b;
    BlocksAt(m, ns, j);
    assert Known(ids, m, ns[j]);
    if b.removedAt.Some? {
      CompareIsTotalOrder(ticket, b.removedAt.value, ticket);
    }
  }

  lemma EndCleaned(c: Cleaning, m: Fields, ns: seq<TextNode>, bs: seq<Block>, reg: map<NodeID, TextNode>, count: nat)
    requires Cleaned(c, m, bs, reg, {}, count) && Registered(c.registered, c.fields)
    requires Listed(c.fields, ns) && c.blocks == BlocksOf(c.fields, ns) && Complete(c.registered.Keys, c.fields)
    ensures bs == Cleanup(c.blocks, c.registered.Keys, c.ticket) && Visible(bs) == Visible(c.blocks)
    ensures TombstonesLater(bs, c.ticket)
    ensures reg.Keys <= c.registered.Keys && count == |c.registered| - |reg|
    ensures forall k {:trigger k in reg} :: k in c.registered ==> StaysIfLater(c.fields, c.registered, reg, c.ticket, k)
  {
    TextTheorems.CleanupNothing(bs, c.ticket);
    TextTheorems.CleanupVisible(c.blocks, c.registered.Keys, c.ticket);
    forall k | k in c.registered ensures StaysIfLater(c.fields, c.registered, reg, c.ticket, k) {
      assert KeptOrDue(c, reg, {}, k);
      CompareIsTotalOrder(c.ticket, c.fields[c.registered[k]].removedAt.value, c.ticket);
    }
    forall i | 0 <= i < |bs| ensures bs[i].removedAt.Some? ==> After(bs[i].removedAt.value, c.ticket) {
      LeftLater(c.fields, ns, c.registered.Keys, c.ticket, i);
    }
  }

  class RGATreeSplit {
    const initialHead: TextNode
    const treeByIndex: Splay.Tree
    const treeByID: Llrb.Tree<TextNode>
    var removedNodeMap: map<NodeID, TextNode>

    /** The nodes in list order, and as a set. */
    ghost var nodes: seq<TextNode>
    ghost var repr: set<TextNode>

    ghost predicate Linked()
      reads `nodes, `repr, repr`value, repr`removedAt, repr`prev, repr`next, repr`insPrev, repr`insNext
    {
      Listed(FieldsOf(repr), nodes) && nodes[0] == initialHead
    }

    /** Everything but treeByID. */
    ghost predicate Placed()
      reads this, repr, (set n | n in repr :: n.indexNode), treeByIndex, treeByIndex.repr
    {
      && Linked() && Indexed(treeByIndex, nodes) && Measured(repr)
      && Registered(removedNodeMap, FieldsOf(repr)) && Complete(removedNodeMap.Keys, FieldsOf(repr))
    }

    ghost predicate Valid()
      reads this, repr, (set n | n in repr :: n.indexNode), treeByIndex, treeByIndex.repr, treeByID, treeByID.ever
    {
      Placed() && Identified(treeByID, repr)
    }

    ghost function Blocks(): seq<Block>
      requires Linked()
      reads `nodes, `repr, repr`value, repr`removedAt, repr`prev, repr`next, repr`insPrev, repr`insNext
    {
      BlocksOf(FieldsOf(repr), nodes)
    }

    constructor (initialHead: TextNode)
      requires initialHead.id == Head.id && initialHead.value == [] && initialHead.removedAt == None
      requires initialHead.prev == null && initialHead.next == null
      requires initialHead.insPrev == null && initialHead.insNext == null
      requires initialHead.indexNode.value == initialHead && initialHead.indexNode.len == 0
              && !initialHead.indexNode.HasLinks()
      ensures Valid() && Blocks() == [Head] && removedNodeMap == map[]
      ensures repr == {initialHead} && fresh(treeByIndex) && treeByIndex.repr == {initialHead.indexNode}
      ensures fresh(treeByID) && fresh(treeByID.ever)
    {
      this.initialHead := initialHead;
      treeByIndex := new Splay.Tree.Single(initialHead.indexNode);
      var ids := NewTreeByID(initialHead);
      treeByID := ids;
      removedNodeMap := map[];
      nodes, repr := [initialHead], {initialHead};
      new;
      HeadListed(FieldsOf(repr), initialHead);
    }

    // ----- inserting: three steps, each on one of the structures, leaving the others alone -----

    /** The list part of InsertAfter. */
    method Link(prev: TextNode, node: TextNode, ghost p: nat)
      requires p < |nodes| && prev in repr && node !in repr && node.next == null
      requires prev.next != null ==> prev.next in repr && prev.next != prev
      modifies this`repr, this`nodes, repr, node
      ensures nodes == Inserted(old(nodes), p, node) && repr == old(repr) + {node}
      ensures forall n :: n in repr && n !in old(repr) ==> n == node
      ensures SplicedIn(old(FieldsOf(repr)), FieldsOf(repr), prev, node)
      ensures unchanged(node`value, node`removedAt, node`insPrev, node`insNext)
    {
      var next := prev.next;
      node.prev := prev;
      prev.next := node;
      if next != null {
        next.prev := node;
        node.next := next;
      }
      nodes, repr := Inserted(nodes, p, node), repr + {node};
    }

    /** The node comes with an index node that leads to it and has its length. */
    ghost predicate Comes(node: TextNode)
      reads node, node.indexNode
    {
      node.indexNode.value == node && node.indexNode.len == node.Len() && !node.indexNode.HasLinks()
    }

    method LinkAside(prev: TextNode, node: TextNode, ghost p: nat)
      requires Measured(repr) && Comes(node)
      requires p < |nodes| && prev in repr && node !in repr && node.next == null
      requires prev.next != null ==> prev.next in repr && prev.next != prev
      modifies this`repr, this`nodes, repr, node
      ensures Measured(repr)
      ensures nodes == Inserted(old(nodes), p, node) && repr == old(repr) + {node}
      ensures forall n :: n in repr && n !in old(repr) ==> n == node
      ensures SplicedIn(old(FieldsOf(repr)), FieldsOf(repr), prev, node)
      ensures unchanged(node`value, node`removedAt, node`insPrev, node`insNext)
      ensures treeByIndex.ValidOff(prev.indexNode) == old(treeByIndex.ValidOff(prev.indexNode))
      ensures unchanged(treeByIndex) && unchanged(treeByID) && treeByID.Valid() == old(treeByID.Valid())
    {
      Link(prev, node, p);
      assert unchanged(treeByIndex) && unchanged(treeByIndex.repr);
      assert unchanged(treeByID) && unchanged(treeByID.ever);
    }

    method PutNode(node: TextNode, ghost x: SplayShape.Node, ghost m: Fields)
      requires treeByID.Valid()
      modifies treeByID, treeByID.ever
      ensures treeByID.Valid() && treeByID.Map() == old(treeByID.Map())[node.id := node]
      ensures forall n :: n in treeByID.ever && n !in old(treeByID.ever) ==> fresh(n)
      ensures unchanged(this) && unchanged(treeByIndex) && treeByIndex.ValidOff(x) == old(treeByIndex.ValidOff(x))
      ensures Are(m, repr) == old(Are(m, repr)) && Measured(repr) == old(Measured(repr))
    {
      var _ := treeByID.Put(node.id, node);
      assert unchanged(treeByIndex) && unchanged(treeByIndex.repr);
    }

    method LinkAndName(prev: TextNode, node: TextNode, ghost p: nat)
      requires p < |nodes| && prev in repr && node.next == null
      requires prev.next != null ==> prev.next in repr && prev.next != prev
      requires Identified(treeByID, repr) && node.id !in treeByID.Map() && Measured(repr) && Comes(node)
      modifies this`repr, this`nodes, repr, node
      modifies treeByID, treeByID.ever
      ensures nodes == Inserted(old(nodes), p, node) && repr == old(repr) + {node}
      ensures forall n :: n in repr && n !in old(repr) ==> n == node
      ensures SplicedIn(old(FieldsOf(repr)), FieldsOf(repr), prev, node)
      ensures unchanged(node`value, node`removedAt, node`insPrev, node`insNext)
      ensures Identified(treeByID, repr) && treeByID.Map() == old(treeByID.Map())[node.id := node]
      ensures forall n :: n in treeByID.ever && n !in old(treeByID.ever) ==> fresh(n)
      ensures unchanged(treeByIndex)
              && treeByIndex.ValidOff(prev.indexNode) == old(treeByIndex.ValidOff(prev.indexNode))
      ensures Measured(repr)
    {
      BindsInsert(treeByID.Map(), repr, node);
      LinkAside(prev, node, p);
      PutNode(node, prev.indexNode, FieldsOf(repr));
    }

    method PutIndexNode(prev: TextNode, node: TextNode, ghost p: nat, ghost m: Fields)
      requires treeByIndex.ValidOff(prev.indexNode)
      requires p < |SplayShape.InOrder(treeByIndex.shape)| && SplayShape.InOrder(treeByIndex.shape)[p] == prev.indexNode
      requires node.indexNode !in treeByIndex.repr && !node.indexNode.HasLinks()
      modifies treeByIndex, treeByIndex.repr, node.indexNode
      ensures treeByIndex.Valid() && treeByIndex.repr == old(treeByIndex.repr) + {node.indexNode}
      ensures forall n :: n in treeByIndex.repr && n !in old(treeByIndex.repr) ==> n == node.indexNode
      ensures var was := old(SplayShape.InOrder(treeByIndex.shape));
              SplayShape.InOrder(treeByIndex.shape) == was[..p + 1] + [node.indexNode] + was[p + 1..]
      ensures unchanged(this) && unchanged(treeByID)
      ensures Are(m, repr) == old(Are(m, repr)) && Measured(repr) == old(Measured(repr))
      ensures treeByID.Valid() == old(treeByID.Valid())
    {
      var _ := treeByIndex.InsertAfter(prev.indexNode, node.indexNode, p);
      assert unchanged(treeByID) && unchanged(treeByID.ever) && unchanged(repr);
      assert Measured(repr) == old(Measured(repr)) by {
        assert forall n :: n in repr ==> unchanged(n.indexNode`value) && unchanged(n.indexNode`len);
      }
    }

    /** Inserts the node right after `prev`, which stands at `p`. What the node says of its
        chain is left to the caller. */
    method InsertAfter(prev: TextNode, node: TextNode, ghost p: nat) returns (r: TextNode)
      requires p < |nodes| && nodes[p] == prev && prev in repr
      requires prev.next != null ==> prev.next in repr && prev.next != prev
      requires IndexedOff(treeByIndex, nodes, prev) && Identified(treeByID, repr) && Measured(repr)
      requires node.id !in treeByID.Map() && node.next == null && Comes(node) && node.indexNode !in treeByIndex.repr
      modifies this`repr, this`nodes, repr, node
      modifies treeByIndex, treeByIndex.repr, node.indexNode
      modifies treeByID, treeByID.ever
      ensures r == node && nodes == Inserted(old(nodes), p, node) && repr == old(repr) + {node}
      ensures SplicedIn(old(FieldsOf(repr)), FieldsOf(repr), prev, node)
      ensures unchanged(node`value, node`removedAt, node`insPrev, node`insNext)
      ensures Indexed(treeByIndex, nodes) && Identified(treeByID, repr) && Measured(repr)
      ensures treeByID.Map() == old(treeByID.Map())[node.id := node]
      ensures treeByIndex.repr == old(treeByIndex.repr) + {node.indexNode}
      ensures forall n :: n in repr && n !in old(repr) ==> n == node
      ensures forall n :: n in treeByIndex.repr && n !in old(treeByIndex.repr) ==> n == node.indexNode
      ensures forall n :: n in treeByID.ever && n !in old(treeByID.ever) ==> fresh(n)
    {
      LinkAndName(prev, node, p);
      IndexNodesInserted(old(nodes), p, node);
      PutIndexNode(prev, node, p, FieldsOf(repr));
      r := node;
    }

    // ----- splitting -----

    method SplitValue(node: TextNode, k: nat) returns (x: TextNode)
      requires node in repr && k <= |node.value| && treeByIndex.Valid()
      modifies node`value
      ensures fresh(x) && x.id == node.id.Split(k) && x.value == old(node.value[k..]) && x.removedAt == None
      ensures x.prev == null && x.next == null && x.insPrev == null && x.insNext == null
      ensures fresh(x.indexNode) && Comes(x) && CutDown(old(FieldsOf(repr)), FieldsOf(repr), node, k)
      ensures treeByIndex.Valid() == old(treeByIndex.Valid()) && treeByID.Valid() == old(treeByID.Valid())
    {
      x := node.Split(k);
      assert unchanged(treeByIndex) && unchanged(treeByIndex.repr);
      assert unchanged(treeByID) && unchanged(treeByID.ever);
      WeighAside(x, FieldsOf(repr));
    }

    /** A node that is in no tree yet gets its weight. */
    method WeighAside(x: TextNode, ghost m: Fields)
      requires x.indexNode !in treeByIndex.repr && !x.indexNode.HasLinks()
      modifies x.indexNode`weight
      ensures Are(m, repr) == old(Are(m, repr))
      ensures treeByIndex.Valid() == old(treeByIndex.Valid()) && treeByID.Valid() == old(treeByID.Valid())
    {
      treeByIndex.UpdateSubtree(x.indexNode);
      assert unchanged(treeByID) && unchanged(treeByID.ever);
    }

    /** The index learns that the length of a node has changed, but not its weights. */
    method TellIndex(node: TextNode, ghost m: Fields)
      requires node in repr && treeByIndex.Valid() && node.indexNode in treeByIndex.repr
      requires Measured(repr - {node}) && node.indexNode.value == node
      modifies node.indexNode`len
      ensures treeByIndex.ValidOff(node.indexNode) && Measured(repr)
      ensures Are(m, repr) == old(Are(m, repr)) && treeByID.Valid() == old(treeByID.Valid())
    {
      treeByIndex.ValueChanged(node.indexNode, node.Len());
      assert Are(m, repr) == old(Are(m, repr)) && treeByID.Valid() == old(treeByID.Valid());
      assert forall n :: n in repr && n != node ==> n in repr - {node};
    }

    method CutNode(node: TextNode, k: nat) returns (x: TextNode)
      requires node in repr && k <= |node.value| && treeByIndex.Valid() && node.indexNode in treeByIndex.repr
      requires Measured(repr)
      modifies node`value, node.indexNode`len
      ensures fresh(x) && x.id == node.id.Split(k) && x.value == old(node.value[k..]) && x.removedAt == None
      ensures x.prev == null && x.next == null && x.insPrev == null && x.insNext == null
      ensures fresh(x.indexNode) && Comes(x) && CutDown(old(FieldsOf(repr)), FieldsOf(repr), node, k)
      ensures treeByIndex.ValidOff(node.indexNode) && Measured(repr)
      ensures treeByID.Valid() == old(treeByID.Valid())
    {
      x := SplitValue(node, k);
      TellIndex(node, FieldsOf(repr));
    }

    /** The node takes its place right of `node` in the chain of the insertion. */
    method Chain(node: TextNode, x: TextNode)
      requires node in repr && x in repr && x != node && x.insNext == null
      requires node.insNext != null ==> node.insNext in repr && node.insNext != x && node.insNext != node
      modifies repr`insPrev, repr`insNext
      ensures ChainedIn(old(FieldsOf(repr)), FieldsOf(repr), node, x)
    {
      var insNext := node.insNext;
      if insNext != null {
        insNext.insPrev := x;
        x.insNext := insNext;
      }
      x.insPrev := node;
      node.insNext := x;
    }

    method ChainAside(node: TextNode, x: TextNode)
      requires node in repr && x in repr && x != node && x.insNext == null
      requires node.insNext != null ==> node.insNext in repr && node.insNext != x && node.insNext != node
      modifies repr`insPrev, repr`insNext
      ensures ChainedIn(old(FieldsOf(repr)), FieldsOf(repr), node, x)
      ensures unchanged(this) && unchanged(treeByIndex) && unchanged(treeByID)
      ensures treeByIndex.Valid() == old(treeByIndex.Valid()) && treeByID.Valid() == old(treeByID.Valid())
      ensures Measured(repr) == old(Measured(repr))
    {
      Chain(node, x);
    }

    /** The list, the index and the ids, as InsertAfter leaves them. */
    ghost predicate Agree()
      reads this, repr, (set n | n in repr :: n.indexNode), treeByIndex, treeByIndex.repr, treeByID, treeByID.ever
    {
      Indexed(treeByIndex, nodes) && Measured(repr) && Identified(treeByID, repr)
    }

    /** A split before the chain is told. */
    method CutAndInsert(node: TextNode, k: nat, ghost i: nat) returns (x: TextNode, ghost m: Fields)
      requires i < |nodes| && nodes[i] == node && node in repr && Agree()
      requires node.next != null ==> node.next in repr && node.next != node
      requires k <= |node.value| && node.id.Split(k) !in treeByID.Map()
      modifies this`repr, this`nodes, repr, treeByIndex, treeByIndex.repr, treeByID, treeByID.ever
      ensures CutDown(old(FieldsOf(repr)), m, node, k) && SplicedIn(m, FieldsOf(repr), node, x)
      ensures BlockOf(FieldsOf(repr), x) == Block(node.id.Split(k), old(node.value[k..]), None)
      ensures x.insPrev == null && x.insNext == null
      ensures fresh(x) && nodes == Inserted(old(nodes), i, x) && x in repr
      ensures Agree()
      ensures old(repr) <= repr && forall n :: n in repr && n !in old(repr) ==> fresh(n)
      ensures forall n :: n in treeByID.ever && n !in old(treeByID.ever) ==> fresh(n)
      ensures forall n :: n in treeByIndex.repr && n !in old(treeByIndex.repr) ==> fresh(n)
    {
      IndexMember(treeByIndex, nodes, i);
      x := CutNode(node, k);
      m := FieldsOf(repr);
      var _ := InsertAfter(node, x, i);
    }

    /** All that splitNode does to a node that is cut inside. */
    method CutInsertAndChain(node: TextNode, k: nat, ghost i: nat)
        returns (x: TextNode, ghost m1: Fields, ghost m2: Fields)
      requires i < |nodes| && nodes[i] == node && node in repr && Agree()
      requires node.next != null ==> node.next in repr && node.next != node
      requires node.insNext != null ==> node.insNext in repr && node.insNext != node
      requires k <= |node.value| && node.id.Split(k) !in treeByID.Map()
      modifies this`repr, this`nodes, repr, treeByIndex, treeByIndex.repr, treeByID, treeByID.ever
      ensures CutDown(old(FieldsOf(repr)), m1, node, k) && SplicedIn(m1, m2, node, x)
              && ChainedIn(m2, FieldsOf(repr), node, x)
      ensures BlockOf(m2, x) == Block(node.id.Split(k), old(node.value[k..]), None)
      ensures fresh(x) && nodes == Inserted(old(nodes), i, x) && x in repr
      ensures Agree()
      ensures old(repr) <= repr && forall n :: n in repr && n !in old(repr) ==> fresh(n)
      ensures forall n :: n in treeByID.ever && n !in old(treeByID.ever) ==> fresh(n)
      ensures forall n :: n in treeByIndex.repr && n !in old(treeByIndex.repr) ==> fresh(n)
    {
      x, m1 := CutAndInsert(node, k, i);
      m2 := FieldsOf(repr);
      ChainAside(node, x);
    }

    /** The list and the indexes hold the nodes with the fields `m`; nothing is said of removedNodeMap. */
    ghost predicate Holds(m: Fields)
      reads this, repr, (set n | n in repr :: n.indexNode), treeByIndex, treeByIndex.repr, treeByID, treeByID.ever
    {
      && Are(m, repr) && Listed(m, nodes) && nodes[0] == initialHead
      && Indexed(treeByIndex, nodes) && Measured(repr) && Identified(treeByID, repr)
    }

    /** A split as the fields of the nodes show it. */
    method SplitHeld(node: TextNode, k: nat, ghost i: nat, ghost m: Fields) returns (x: TextNode, ghost m': Fields)
      requires Holds(m) && Registered(removedNodeMap, m) && Complete(removedNodeMap.Keys, m)
      requires i < |nodes| && nodes[i] == node && 0 < k < |node.value|
      modifies this`repr, this`nodes, repr, treeByIndex, treeByIndex.repr, treeByID, treeByID.ever
      ensures k <= |BlocksOf(m, old(nodes))[i].value|
      ensures Holds(m') && BlocksOf(m', nodes) == SplitBlock(BlocksOf(m, old(nodes)), i, k)
      ensures Registered(removedNodeMap, m') && Complete(removedNodeMap.Keys, m') && nodes == Inserted(old(nodes), i, x)
      ensures old(repr) <= repr && forall n :: n in repr && n !in old(repr) ==> fresh(n)
      ensures forall n :: n in treeByID.ever && n !in old(treeByID.ever) ==> fresh(n)
      ensures forall n :: n in treeByIndex.repr && n !in old(treeByIndex.repr) ==> fresh(n)
    {
      ghost var ns := nodes;
      SplitReady(m, ns, i, k);
      NotBound(treeByID.Map(), ns, repr, node.id.Split(k));
      ghost var m1, m2;
      x, m1, m2 := CutInsertAndChain(node, k, i);
      m' := FieldsOf(repr);
      SplitHolds(m, m1, m2, m', ns, i, x, k, removedNodeMap);
    }

    method SplitInside(node: TextNode, k: nat, ghost i: nat) returns (x: TextNode)
      requires Valid() && i < |nodes| && nodes[i] == node && 0 < k < |node.value|
      modifies this`repr, this`nodes, repr, treeByIndex, treeByIndex.repr, treeByID, treeByID.ever
      ensures k <= |old(Blocks())[i].value|
      ensures Valid() && Blocks() == SplitBlock(old(Blocks()), i, k)
      ensures nodes == Inserted(old(nodes), i, x)
      ensures old(repr) <= repr && forall n :: n in repr && n !in old(repr) ==> fresh(n)
      ensures forall n :: n in treeByID.ever && n !in old(treeByID.ever) ==> fresh(n)
      ensures forall n :: n in treeByIndex.repr && n !in old(treeByIndex.repr) ==> fresh(n)
    {
      ghost var m';
      x, m' := SplitHeld(node, k, i, FieldsOf(repr));
      assert Are(m', repr) && Linked();
    }

    /** Splits the node at the offset, unless that is one of its ends, and returns the node
        that starts there; not `ok` past the end of the node. */
    method SplitNode(node: TextNode, offset: nat, ghost i: nat) returns (ok: bool, r: TextNode?)
      requires Valid() && i < |nodes| && nodes[i] == node
      modifies this`repr, this`nodes, repr, treeByIndex, treeByIndex.repr, treeByID, treeByID.ever
      ensures Valid() && (ok <==> offset <= |old(Blocks())[i].value|)
      ensures ok ==> Blocks() == SplitAt(old(Blocks()), i, offset)
      ensures ok ==> r == if offset == 0 then node else At(nodes, i + 1)
      ensures !ok ==> Blocks() == old(Blocks())
      ensures i < |nodes| && nodes[i] == node
      ensures old(repr) <= repr && forall n :: n in repr && n !in old(repr) ==> fresh(n)
      ensures forall n :: n in treeByID.ever && n !in old(treeByID.ever) ==> fresh(n)
      ensures forall n :: n in treeByIndex.repr && n !in old(treeByIndex.repr) ==> fresh(n)
    {
      BlocksAt(FieldsOf(repr), nodes, i);
      assert LinkedAt(FieldsOf(repr), nodes, i);
      ok := offset <= |node.value|;
      if offset == 0 {
        r := node;
      } else if offset >= |node.value| {
        r := node.next;
      } else {
        r := SplitInside(node, offset, i);
      }
    }

    // ----- finding -----

    method FloorAside(id: NodeID, ghost k: NodeID, ghost m: Fields) returns (r: Llrb.FloorResult<TextNode>)
      requires treeByID.Valid() && LlrbOrder.IsFloor(treeByID.Map(), id, k)
      modifies treeByID.ever
      ensures treeByID.Valid() && unchanged(this) && unchanged(treeByID) && unchanged(treeByIndex)
      ensures r == Llrb.Found(k, old(treeByID.Map())[k])
      ensures Are(m, repr) == old(Are(m, repr)) && Measured(repr) == old(Measured(repr))
      ensures treeByIndex.Valid() == old(treeByIndex.Valid())
    {
      r := treeByID.Floor(id);
      assert unchanged(treeByIndex) && unchanged(treeByIndex.repr) && unchanged(repr);
    }

    /** The node with the greatest id not above the given one, if it is of the same insertion. */
    method FindFloorNode(id: NodeID) returns (node: TextNode?)
      requires Valid()
      modifies treeByID.ever
      ensures Valid() && Blocks() == old(Blocks()) && unchanged(this) && unchanged(treeByID) && unchanged(treeByIndex)
      ensures var f := FloorIndex(Blocks(), id, |Blocks()|);
              node == if f >= 0 && Blocks()[f].id.createdAt == id.createdAt then nodes[f] else null
      ensures node != null <==> TextPositions.Started(Blocks(), id)
    {
      TextPositions.FloorIff(Blocks(), id);
      ghost var f := FloorBound(FieldsOf(repr), nodes, repr, treeByID.Map(), id);
      var r := FloorAside(id, nodes[f].id, FieldsOf(repr));
      node := if r.Found? && r.k.createdAt == id.createdAt then r.v else null;
    }

    /** Where a block starts at the id, the one further left on its chain, if there is one. */
    method PreferLeft(floor: TextNode, id: NodeID, ghost f: nat) returns (node: TextNode, ghost i: nat)
      requires Linked() && f < |nodes| && nodes[f] == floor
      ensures Valid() == old(Valid()) && unchanged(this) && unchanged(treeByIndex) && unchanged(treeByID)
      ensures Linked() && Blocks() == old(Blocks()) && i < |nodes| && nodes[i] == node
      ensures var prev := PrevSame(Blocks(), f, f);
              i == if id.offset > 0 && Blocks()[f].id.offset == id.offset && prev >= 0 then prev else f
    {
      node, i := floor, f;
      InsPrevAt(FieldsOf(repr), nodes, f);
      if id.offset > 0 && node.id.offset == id.offset {
        if node.insPrev == null {
          return;
        }
        node, i := node.insPrev, PrevSame(Blocks(), f, f);
      }
    }

    /** The block a position is in: the end of a block belongs to it, not to its right
        neighbour, as long as the chain has one further left, even if that ends before the
        position. Not `ok` when no block of that insertion starts at or before it. */
    method FindFloorNodePreferToLeft(id: NodeID) returns (ok: bool, node: TextNode, ghost i: nat)
      requires Valid()
      modifies treeByID.ever
      ensures Valid() && Blocks() == old(Blocks()) && unchanged(this) && unchanged(treeByID) && unchanged(treeByIndex)
      ensures if ok then Holder(Blocks(), id) == i < |nodes| && nodes[i] == node else Holder(Blocks(), id) == -1
      ensures ok <==> TextPositions.Started(Blocks(), id)
    {
      node, ok, i := initialHead, false, 0;
      var floor := FindFloorNode(id);
      if floor != null {
        ok := true;
        node, i := PreferLeft(floor, id, FloorIndex(Blocks(), id, |Blocks()|));
      }
    }

    /** Passes the blocks that were inserted at the same place later. */
    method SkipLaterNodes(node: TextNode, updatedAt: Ticket, ghost i: nat) returns (r: TextNode, ghost j: nat)
      requires Linked() && i < |nodes| && nodes[i] == node
      ensures Valid() == old(Valid()) && unchanged(this) && unchanged(treeByIndex) && unchanged(treeByID)
      ensures Linked() && Blocks() == old(Blocks())
      ensures j == SkipLater(Blocks(), i, updatedAt) && nodes[j] == r && r.next == At(nodes, j + 1)
    {
      r, j := node, i;
      ghost var m, bs := FieldsOf(repr), Blocks();
      BlocksAll(m, nodes);
      assert LinkedAt(m, nodes, j);
      while r.next != null && After(r.next.id.createdAt, updatedAt)
        invariant j < |nodes| && nodes[j] == r && r.next == At(nodes, j + 1)
        invariant SkipLater(bs, j, updatedAt) == SkipLater(bs, i, updatedAt)
        decreases |nodes| - j
      {
        r, j := r.next, j + 1;
        assert LinkedAt(m, nodes, j) && bs[j].id == r.id;
      }
    }

    method SplitAndSkip(node: TextNode, offset: nat, updatedAt: Ticket, ghost i: nat)
        returns (ok: bool, left: TextNode, right: TextNode?, ghost j: nat)
      requires Valid() && i < |nodes| && nodes[i] == node
      modifies this`repr, this`nodes, repr, treeByIndex, treeByIndex.repr, treeByID, treeByID.ever
      ensures Valid() && (ok <==> offset <= |old(Blocks())[i].value|)
      ensures ok ==> Blocks() == SplitAt(old(Blocks()), i, offset)
      ensures ok ==> j < |nodes| && i < |Blocks()| && j == SkipLater(Blocks(), i, updatedAt)
      ensures ok ==> nodes[j] == left && right == left.next
      ensures old(repr) <= repr && forall n :: n in repr && n !in old(repr) ==> fresh(n)
      ensures forall n :: n in treeByID.ever && n !in old(treeByID.ever) ==> fresh(n)
      ensures forall n :: n in treeByIndex.repr && n !in old(treeByIndex.repr) ==> fresh(n)
    {
      var splitNode;
      ok, splitNode := SplitNode(node, offset, i);
      if !ok {
        return false, node, null, i;
      }
      left, j := SkipLaterNodes(node, updatedAt, i);
      right := left.next;
    }

    /** The node a position is in and the offset there; not `ok` when no node holds it. */
    method Locate(pos: NodePos) returns (ok: bool, node: TextNode, offset: nat, ghost i: nat)
      requires Valid()
      modifies treeByID.ever
      ensures Valid() && Blocks() == old(Blocks()) && unchanged(this) && unchanged(treeByID) && unchanged(treeByIndex)
      ensures ok ==> i < |nodes| && nodes[i] == node && TextTheorems.Located(old(Blocks()), pos, i, offset)
      ensures !ok ==> Holder(old(Blocks()), AbsoluteID(pos)) < 0
    {
      var absoluteID := AbsoluteID(pos);
      ok, node, i := FindFloorNodePreferToLeft(absoluteID);
      offset := 0;
      if ok {
        TextTheorems.HolderOffset(Blocks(), absoluteID);
        BlocksAt(FieldsOf(repr), nodes, i);
        offset := absoluteID.offset - node.id.offset;
      }
    }

    /** Finds the two neighbours of a position, splitting the block it is in. Not `ok` when
        no block reaches it; the state is valid even then. */
    method FindNodeWithSplit(pos: NodePos, updatedAt: Ticket)
        returns (ok: bool, left: TextNode, right: TextNode?, ghost j: nat)
      requires Valid()
      modifies this`repr, this`nodes, repr, treeByIndex, treeByIndex.repr, treeByID, treeByID.ever
      ensures Valid() && (ok <==> TextPositions.InText(old(Blocks()), pos))
      ensures ok <==> FindWithSplit(old(Blocks()), pos, updatedAt).Some?
      ensures ok ==> FindWithSplit(old(Blocks()), pos, updatedAt) == Some(Found(Blocks(), j))
      ensures ok ==> j < |nodes| && nodes[j] == left && right == left.next
      ensures old(repr) <= repr && forall n :: n in repr && n !in old(repr) ==> fresh(n)
      ensures forall n :: n in treeByID.ever && n !in old(treeByID.ever) ==> fresh(n)
      ensures forall n :: n in treeByIndex.repr && n !in old(treeByIndex.repr) ==> fresh(n)
    {
      ghost var bs := Blocks();
      TextPositions.FindIff(bs, pos, updatedAt);
      var relativeOffset;
      ghost var i;
      ok, left, relativeOffset, i := Locate(pos);
      right, j := null, 0;
      if ok {
        TextTheorems.FindSteps(bs, pos, updatedAt, i, relativeOffset);
        ok, left, right, j := SplitAndSkip(left, relativeOffset, updatedAt, i);
      } else {
        TextTheorems.FindNothing(bs, pos, updatedAt);
      }
    }

    // ----- deleting -----

    /** The nodes from `from`, which stands at `lo`, up to but not including `to`. */
    method FindBetween(from: TextNode?, to: TextNode?, ghost lo: nat) returns (r: seq<TextNode>)
      requires Linked() && lo <= |nodes| && from == At(nodes, lo) && (to != null ==> to in nodes)
      ensures r == nodes[lo..StopIndex(Blocks(), lo, IDOf(to))]
      ensures Valid() == old(Valid()) && unchanged(this) && unchanged(treeByIndex) && unchanged(treeByID)
      ensures Linked() && Blocks() == old(Blocks())
    {
      var current := from;
      r := [];
      ghost var k, m, bs := lo, FieldsOf(repr), Blocks();
      while current != null && current != to
        invariant Are(m, repr) && Valid() == old(Valid())
        invariant lo <= k <= |nodes| && current == At(nodes, k) && r == nodes[lo..k]
        invariant StopIndex(bs, k, IDOf(to)) == StopIndex(bs, lo, IDOf(to))
        decreases |nodes| - k
      {
        assert LinkedAt(m, nodes, k);
        StopOrPass(m, nodes, k, to);
        SliceGrows(nodes, lo, k);
        r := r + [current];
        current, k := current.next, k + 1;
      }
      StopOrPass(m, nodes, k, to);
    }

    method Bury(node: TextNode, t: Ticket, latest: Ticket) returns (removed: bool)
      requires node in repr && Measured(repr)
      modifies node`removedAt
      ensures removed <==> !After(node.id.createdAt, latest)
                           && (old(node.removedAt).None? || After(t, old(node.removedAt).value))
      ensures if removed then Buried(old(FieldsOf(repr)), FieldsOf(repr), node, t)
              else FieldsOf(repr) == old(FieldsOf(repr))
      ensures Measured(repr - {node}) && (!removed ==> Measured(repr))
      ensures treeByIndex.Valid() == old(treeByIndex.Valid())
    {
      removed := node.Remove(t, latest);
    }

    method SplayAside(node: TextNode, ghost m: Fields)
      requires treeByIndex.ValidOff(node.indexNode)
      modifies treeByIndex, treeByIndex.repr
      ensures treeByIndex.Valid() && treeByIndex.repr == old(treeByIndex.repr)
      ensures SplayShape.InOrder(treeByIndex.shape) == old(SplayShape.InOrder(treeByIndex.shape))
      ensures unchanged(this) && unchanged(treeByID) && treeByID.Valid() == old(treeByID.Valid())
      ensures Are(m, repr) == old(Are(m, repr)) && Measured(repr) == old(Measured(repr))
    {
      treeByIndex.Splay(node.indexNode);
      assert unchanged(treeByID) && unchanged(treeByID.ever);
      assert Are(m, repr) == old(Are(m, repr)) && Measured(repr) == old(Measured(repr));
    }

    /** The index after a node was removed. */
    method Sink(node: TextNode, ghost i: nat, ghost m: Fields)
      requires i < |nodes| && nodes[i] == node && node in repr && Are(m, repr)
      requires Indexed(treeByIndex, nodes) && Measured(repr - {node}) && node.indexNode.value == node
      modifies treeByIndex, treeByIndex.repr
      ensures Indexed(treeByIndex, nodes) && Measured(repr) && Are(m, repr) && treeByIndex.repr == old(treeByIndex.repr)
    {
      IndexMember(treeByIndex, nodes, i);
      TellIndex(node, m);
      SplayAside(node, m);
    }

    /** What a round of deleteNodes does to the nodes and to the index. */
    method DeleteNode(node: TextNode, t: Ticket, latest: Ticket, ghost i: nat) returns (removed: bool)
      requires i < |nodes| && nodes[i] == node && node in repr && Indexed(treeByIndex, nodes) && Measured(repr)
      modifies node`removedAt, treeByIndex, treeByIndex.repr
      ensures removed <==> !After(node.id.createdAt, latest)
                           && (old(node.removedAt).None? || After(t, old(node.removedAt).value))
      ensures if removed then Buried(old(FieldsOf(repr)), FieldsOf(repr), node, t)
              else FieldsOf(repr) == old(FieldsOf(repr))
      ensures Indexed(treeByIndex, nodes) && Measured(repr) && treeByIndex.repr == old(treeByIndex.repr)
    {
      removed := Bury(node, t, latest);
      if removed {
        Sink(node, i, FieldsOf(repr));
      }
    }

    /** One round of the loop of deleteNodes, on the candidate at `k`. */
    method DeleteRound(node: TextNode, seen: Option<ByActor>, editedAt: Ticket, was: ByActor,
                       dead: map<NodeID, TextNode>, ghost bs: seq<Block>, ghost lo: nat, ghost k: nat, ghost m: Fields,
                       ghost ns: seq<TextNode>, ghost registered: map<NodeID, TextNode>)
        returns (latest: ByActor, removed: map<NodeID, TextNode>, ghost m': Fields, ghost k': nat)
      requires nodes == ns && k < |ns| && ns[k] == node && Are(m, repr) && Indexed(treeByIndex, ns) && Measured(repr)
      requires Deleted(m, ns, bs, lo, k, seen, editedAt, registered, dead)
      requires Noted(bs, lo, k, seen, editedAt, was, dead.Keys)
      modifies repr, treeByIndex, treeByIndex.repr
      ensures Are(m', repr) && Indexed(treeByIndex, ns) && Measured(repr) && treeByIndex.repr == old(treeByIndex.repr)
      ensures unchanged(this) && k' == k + 1
      ensures Deleted(m', ns, bs, lo, k', seen, editedAt, registered, removed)
      ensures Noted(bs, lo, k', seen, editedAt, latest, removed.Keys)
    {
      k' := k + 1;
      latest, removed := was, dead;
      DeletedNext(m, ns, bs, lo, k, seen, editedAt, registered, dead);
      NoteDown(bs, lo, k, k', seen, editedAt, latest, removed, node);
      var done := DeleteNode(node, editedAt, Latest(seen, node.id.createdAt.actorID), k);
      m' := FieldsOf(repr);
      DeletedStep(m, m', ns, bs, lo, k, k', seen, editedAt, registered, dead);
      if done {
        var createdAt := node.id.createdAt;
        if createdAt.actorID !in latest || After(createdAt, latest[createdAt.actorID]) {
          latest := latest[createdAt.actorID := createdAt];
        }
        removed := removed[node.id := node];
      }
    }

    method DeleteNodes(candidates: seq<TextNode>, seen: Option<ByActor>, editedAt: Ticket,
                       ghost bs: seq<Block>, ghost lo: nat, ghost m0: Fields, ghost ns: seq<TextNode>,
                       ghost registered: map<NodeID, TextNode>)
        returns (latest: ByActor, removed: map<NodeID, TextNode>, ghost m: Fields, ghost hi: nat)
      requires nodes == ns && lo + |candidates| <= |ns| && candidates == ns[lo..lo + |candidates|]
      requires Are(m0, repr) && Indexed(treeByIndex, ns) && Measured(repr)
      requires Deleted(m0, ns, bs, lo, lo, seen, editedAt, registered, map[])
      modifies repr, treeByIndex, treeByIndex.repr
      ensures Are(m, repr) && Indexed(treeByIndex, ns) && Measured(repr) && treeByIndex.repr == old(treeByIndex.repr)
      ensures hi == lo + |candidates| && Deleted(m, ns, bs, lo, hi, seen, editedAt, registered, removed)
      ensures Noted(bs, lo, hi, seen, editedAt, latest, removed.Keys)
    {
      latest, removed, m, hi := map[], map[], m0, lo;
      var i := 0;
      while i < |candidates|
        invariant i <= |candidates| && hi == lo + i && unchanged(this)
        invariant Are(m, repr) && Indexed(treeByIndex, ns) && Measured(repr)
                && treeByIndex.repr == old(treeByIndex.repr)
        invariant Deleted(m, ns, bs, lo, hi, seen, editedAt, registered, removed)
        invariant Noted(bs, lo, hi, seen, editedAt, latest, removed.Keys)
      {
        latest, removed, m, hi := DeleteRound(candidates[i], seen, editedAt, latest, removed, bs, lo, hi, m, ns,
            registered);
        i := i + 1;
      }
    }

    // ----- editing -----

    /** The two ends of an edit: `right` is found at its end, `left` at its start. */
    ghost predicate Ends(bs: seq<Block>, from: NodePos, to: NodePos, editedAt: Ticket, left: Found, right: Found,
                         fromLeft: TextNode, toLeft: TextNode, toRight: TextNode?)
      requires Linked()
      reads this, repr
    {
      && FindWithSplit(bs, to, editedAt) == Some(right) && FindWithSplit(right.blocks, from, editedAt) == Some(left)
      && left.blocks == Blocks() && left.left < |nodes| && nodes[left.left] == fromLeft
      && right.left < |right.blocks| && right.blocks[right.left].id == toLeft.id && RightOf(right) == IDOf(toRight)
      && (toRight != null ==> toRight in repr)
    }

    /** The first step of edit. Not `ok` when one of the positions is not in the text. */
    method FindEnds(from: NodePos, to: NodePos, editedAt: Ticket)
        returns (ok: bool, fromLeft: TextNode, fromRight: TextNode?, toLeft: TextNode, toRight: TextNode?,
                 ghost left: Found, ghost right: Found)
      requires Valid()
      modifies this`repr, this`nodes, repr, treeByIndex, treeByIndex.repr, treeByID, treeByID.ever
      ensures Valid() && fromRight == fromLeft.next
      ensures if ok then Ends(old(Blocks()), from, to, editedAt, left, right, fromLeft, toLeft, toRight)
              else TextBlocks.Edit(old(Blocks()), from, to, None, [], editedAt) == None
      ensures old(repr) <= repr && forall n :: n in repr && n !in old(repr) ==> fresh(n)
      ensures forall n :: n in treeByID.ever && n !in old(treeByID.ever) ==> fresh(n)
      ensures forall n :: n in treeByIndex.repr && n !in old(treeByIndex.repr) ==> fresh(n)
    {
      ghost var i, j;
      ok, toLeft, toRight, j := FindNodeWithSplit(to, editedAt);
      fromLeft, fromRight := toLeft, toLeft.next;
      left, right := Found(Blocks(), 0), Found(Blocks(), j);
      if ok {
        RightOfNode(FieldsOf(repr), nodes, j);
        ok, fromLeft, fromRight, i := FindNodeWithSplit(from, editedAt);
        fromRight := fromLeft.next;
        left := Found(Blocks(), i);
      }
    }

    method DeleteNodesAside(candidates: seq<TextNode>, seen: Option<ByActor>, editedAt: Ticket,
                            ghost bs: seq<Block>, ghost lo: nat, ghost m0: Fields)
        returns (latest: ByActor, removed: map<NodeID, TextNode>, ghost m: Fields, ghost hi: nat)
      requires lo + |candidates| <= |nodes| && candidates == nodes[lo..lo + |candidates|]
      requires Are(m0, repr) && Indexed(treeByIndex, nodes) && Measured(repr)
      requires Deleted(m0, nodes, bs, lo, lo, seen, editedAt, removedNodeMap, map[])
      modifies repr, treeByIndex, treeByIndex.repr
      ensures Are(m, repr) && Indexed(treeByIndex, nodes) && Measured(repr) && treeByIndex.repr == old(treeByIndex.repr)
      ensures hi == lo + |candidates| && Deleted(m, nodes, bs, lo, hi, seen, editedAt, removedNodeMap, removed)
      ensures Noted(bs, lo, hi, seen, editedAt, latest, removed.Keys)
      ensures unchanged(this) && unchanged(treeByID) && treeByID.Valid() == old(treeByID.Valid())
    {
      latest, removed, m, hi := DeleteNodes(candidates, seen, editedAt, bs, lo, m0, nodes, removedNodeMap);
      assert unchanged(treeByID) && unchanged(treeByID.ever);
    }

    /** The second step of edit: the nodes from `fromRight`, at `lo`, up to `toRight` are deleted. */
    method DeleteBetween(fromRight: TextNode?, toRight: TextNode?, seen: Option<ByActor>, editedAt: Ticket,
                         ghost lo: nat)
        returns (latest: ByActor, removed: map<NodeID, TextNode>, ghost m: Fields, ghost hi: nat)
      requires Valid() && 0 < lo <= |nodes| && fromRight == At(nodes, lo) && (toRight != null ==> toRight in repr)
      modifies repr, treeByIndex, treeByIndex.repr
      ensures Are(m, repr) && Indexed(treeByIndex, nodes) && Measured(repr) && treeByIndex.repr == old(treeByIndex.repr)
      ensures hi == StopIndex(old(Blocks()), lo, IDOf(toRight))
      ensures Deleted(m, nodes, old(Blocks()), lo, hi, seen, editedAt, removedNodeMap, removed)
      ensures Noted(old(Blocks()), lo, hi, seen, editedAt, latest, removed.Keys)
      ensures unchanged(this) && unchanged(treeByID) && treeByID.Valid() == old(treeByID.Valid())
    {
      ghost var bs := Blocks();
      var nodesToDelete := FindBetween(fromRight, toRight, lo);
      StartDeleted(FieldsOf(repr), nodes, bs, lo, seen, editedAt, removedNodeMap);
      latest, removed, m, hi := DeleteNodesAside(nodesToDelete, seen, editedAt, bs, lo, FieldsOf(repr));
    }

    method MakeNode(id: NodeID, content: seq<CodeUnit>, ghost x: SplayShape.Node, ghost m: Fields)
        returns (node: TextNode)
      ensures fresh(node) && node.id == id && node.value == content && node.removedAt == None
      ensures node.prev == null && node.next == null && node.insPrev == null && node.insNext == null
      ensures fresh(node.indexNode) && Comes(node)
      ensures unchanged(this) && unchanged(treeByIndex) && unchanged(treeByID)
      ensures treeByIndex.ValidOff(x) == old(treeByIndex.ValidOff(x)) && treeByID.Valid() == old(treeByID.Valid())
      ensures Are(m, repr) == old(Are(m, repr)) && Measured(repr) == old(Measured(repr))
    {
      node := new TextNode(id, content);
    }

    method InsertNew(prev: TextNode, content: seq<CodeUnit>, editedAt: Ticket, ghost p: nat, ghost m: Fields)
        returns (node: TextNode, ghost m': Fields)
      requires Holds(m) && p < |nodes| && nodes[p] == prev && content != []
      requires forall n :: n in repr ==> n.id.createdAt != editedAt
      modifies this`repr, this`nodes, repr, treeByIndex, treeByIndex.repr, treeByID, treeByID.ever
      ensures fresh(node) && node.id == NodeID(editedAt, 0) && nodes == Inserted(old(nodes), p, node)
      ensures forall n :: n in repr && n !in old(repr) ==> fresh(n)
      ensures Are(m', repr) && SplicedIn(m, m', prev, node)
      ensures m'[node].(prev := null, next := null) == Cell(content, None, null, null, null, null)
      ensures Indexed(treeByIndex, nodes) && Measured(repr) && Identified(treeByID, repr)
      ensures forall n :: n in treeByID.ever && n !in old(treeByID.ever) ==> fresh(n)
      ensures forall n :: n in treeByIndex.repr && n !in old(treeByIndex.repr) ==> fresh(n)
    {
      NotBound(treeByID.Map(), nodes, repr, NodeID(editedAt, 0));
      RightOfNode(m, nodes, p);
      AtIs(nodes, p + 1, p);
      IndexMember(treeByIndex, nodes, p);
      treeByIndex.ValidIsValidOff(prev.indexNode);
      node := MakeNode(NodeID(editedAt, 0), content, prev.indexNode, m);
      var _ := InsertAfter(prev, node, p);
      m' := FieldsOf(repr);
    }

    /** The third step of edit, for a content that is not empty. */
    method InsertSome(prev: TextNode, content: seq<CodeUnit>, editedAt: Ticket, ghost p: nat, ghost q: nat,
                      ghost m: Fields, ghost dead: map<NodeID, TextNode>)
        returns (ghost m': Fields)
      requires Holds(m) && p < |nodes| && nodes[p] == prev && q == p + 1 && content != []
      requires Tracked(removedNodeMap, dead, m) && forall n :: n in repr ==> n.id.createdAt != editedAt
      modifies this`repr, this`nodes, repr, treeByIndex, treeByIndex.repr, treeByID, treeByID.ever
      ensures Holds(m') && Tracked(removedNodeMap, dead, m')
      ensures BlocksOf(m', nodes) == WithContent(BlocksOf(m, old(nodes)), q, content, editedAt)
      ensures forall n :: n in repr && n !in old(repr) ==> fresh(n)
      ensures forall n :: n in treeByID.ever && n !in old(treeByID.ever) ==> fresh(n)
      ensures forall n :: n in treeByIndex.repr && n !in old(treeByIndex.repr) ==> fresh(n)
    {
      ghost var ns := nodes;
      var inserted;
      inserted, m' := InsertNew(prev, content, editedAt, p, m);
      assert nodes == Inserted(ns, p, inserted);
      ContentInserted(m, m', ns, p, q, inserted, content, editedAt, removedNodeMap, dead);
    }

    method InsertContent(prev: TextNode, content: seq<CodeUnit>, editedAt: Ticket, ghost p: nat, ghost q: nat,
                         ghost m: Fields, ghost dead: map<NodeID, TextNode>)
        returns (ghost m': Fields)
      requires Holds(m) && p < |nodes| && nodes[p] == prev && q == p + 1
      requires Tracked(removedNodeMap, dead, m) && forall n :: n in repr ==> n.id.createdAt != editedAt
      modifies this`repr, this`nodes, repr, treeByIndex, treeByIndex.repr, treeByID, treeByID.ever
      ensures Holds(m') && Tracked(removedNodeMap, dead, m')
      ensures BlocksOf(m', nodes) == WithContent(BlocksOf(m, old(nodes)), q, content, editedAt)
      ensures forall n :: n in repr && n !in old(repr) ==> fresh(n)
      ensures forall n :: n in treeByID.ever && n !in old(treeByID.ever) ==> fresh(n)
      ensures forall n :: n in treeByIndex.repr && n !in old(treeByIndex.repr) ==> fresh(n)
    {
      m' := m;
      if |content| > 0 {
        m' := InsertSome(prev, content, editedAt, p, q, m, dead);
      }
    }

    /** The steps of edit after its two ends were found. */
    method EditEnds(fromLeft: TextNode, fromRight: TextNode?, toLeft: TextNode, toRight: TextNode?,
                    seen: Option<ByActor>, content: seq<CodeUnit>, editedAt: Ticket, ghost left: Found,
                    ghost right: Found, ghost e: Edited)
        returns (caretPos: NodePos, latest: ByActor, removed: map<NodeID, TextNode>, ghost m: Fields)
      requires Valid() && fromRight == fromLeft.next && left.left < |nodes| && nodes[left.left] == fromLeft
      requires left.blocks == Blocks() && right.left < |right.blocks| && RightOf(right) == IDOf(toRight)
      requires right.blocks[right.left].id == toLeft.id
      requires toRight != null ==> toRight in repr
      requires TextTheorems.FreshTicket(Blocks(), editedAt) && e == EditBetween(left, right, seen, content, editedAt)
      modifies this`repr, this`nodes, repr, treeByIndex, treeByIndex.repr, treeByID, treeByID.ever
      ensures Holds(m) && Tracked(removedNodeMap, removed, m)
      ensures Edited(BlocksOf(m, nodes), caretPos, latest, removed.Keys) == e
      ensures forall n :: n in repr && n !in old(repr) ==> fresh(n)
      ensures forall n :: n in treeByID.ever && n !in old(treeByID.ever) ==> fresh(n)
      ensures forall n :: n in treeByIndex.repr && n !in old(treeByIndex.repr) ==> fresh(n)
    {
      ghost var bs, lo := Blocks(), left.left + 1;
      RightOfNode(FieldsOf(repr), nodes, left.left);
      FreshNodes(FieldsOf(repr), nodes, editedAt);
      ghost var hi;
      latest, removed, m, hi := DeleteBetween(fromRight, toRight, seen, editedAt, lo);
      EditBetweenParts(left, right, seen, content, editedAt, lo, hi);
      var caretID := if toRight == null then toLeft.id else toRight.id;
      caretPos := if |content| > 0 then NodePos(NodeID(editedAt, 0), |content|) else NodePos(caretID, 0);
      m := InsertContent(fromLeft, content, editedAt, left.left, lo, m, removed);
    }

    method SetRemovedNodeMap(removed: map<NodeID, TextNode>, ghost m: Fields)
      modifies this`removedNodeMap
      ensures removedNodeMap == removed && Holds(m) == old(Holds(m))
    {
      removedNodeMap := removed;
      assert Are(m, repr) == old(Are(m, repr)) && Measured(repr) == old(Measured(repr));
      assert Indexed(treeByIndex, nodes) == old(Indexed(treeByIndex, nodes));
      assert Identified(treeByID, repr) == old(Identified(treeByID, repr));
    }

    /** The last step of edit. */
    method Register(removed: map<NodeID, TextNode>, ghost m: Fields)
      requires Holds(m) && Tracked(removedNodeMap, removed, m)
      modifies this`removedNodeMap
      ensures Valid() && Blocks() == BlocksOf(m, nodes)
      ensures removedNodeMap == old(removedNodeMap) + removed
      ensures removedNodeMap.Keys == old(removedNodeMap.Keys) + removed.Keys
    {
      TrackedUnion(removedNodeMap, removed, m);
      SetRemovedNodeMap(removedNodeMap + removed, m);
      assert Are(m, repr) && Linked();
    }

    /** All of edit but the search for its two ends. */
    method EditAndRegister(fromLeft: TextNode, fromRight: TextNode?, toLeft: TextNode, toRight: TextNode?,
                           seen: Option<ByActor>, content: seq<CodeUnit>, editedAt: Ticket, ghost left: Found,
                           ghost right: Found, ghost e: Edited)
        returns (caretPos: NodePos, latest: ByActor)
      requires Valid() && fromRight == fromLeft.next && left.left < |nodes| && nodes[left.left] == fromLeft
      requires left.blocks == Blocks() && right.left < |right.blocks| && RightOf(right) == IDOf(toRight)
      requires right.blocks[right.left].id == toLeft.id
      requires toRight != null ==> toRight in repr
      requires TextTheorems.FreshTicket(Blocks(), editedAt) && e == EditBetween(left, right, seen, content, editedAt)
      modifies this`repr, this`nodes, this`removedNodeMap, repr, treeByIndex, treeByIndex.repr, treeByID, treeByID.ever
      ensures Valid()
      ensures Edited(Blocks(), caretPos, latest, removedNodeMap.Keys)
              == e.(removed := old(removedNodeMap).Keys + e.removed)
      ensures forall n :: n in repr && n !in old(repr) ==> fresh(n)
      ensures forall n :: n in treeByID.ever && n !in old(treeByID.ever) ==> fresh(n)
      ensures forall n :: n in treeByIndex.repr && n !in old(treeByIndex.repr) ==> fresh(n)
    {
      var removed;
      ghost var m;
      caretPos, latest, removed, m := EditEnds(fromLeft, fromRight, toLeft, toRight, seen, content, editedAt, left,
          right, e);
      Register(removed, m);
    }

    /** Edits the text between two positions. Not `ok` when no block reaches one of them; otherwise the
        blocks, the caret, the reported map and the newly registered tombstones are those that
        TextBlocks.Edit computes. */
    method Edit(from: NodePos, to: NodePos, seen: Option<ByActor>, content: seq<CodeUnit>, editedAt: Ticket)
        returns (ok: bool, caretPos: NodePos, latest: ByActor)
      requires Valid() && TextTheorems.FreshTicket(Blocks(), editedAt)
      modifies this`repr, this`nodes, this`removedNodeMap, repr, treeByIndex, treeByIndex.repr, treeByID, treeByID.ever
      ensures Valid() && (ok <==> TextPositions.InText(old(Blocks()), from) && TextPositions.InText(old(Blocks()), to))
      ensures ok <==> TextBlocks.Edit(old(Blocks()), from, to, seen, content, editedAt).Some?
      ensures ok ==>
        Edited(Blocks(), caretPos, latest, removedNodeMap.Keys)
        == var e := TextBlocks.Edit(old(Blocks()), from, to, seen, content, editedAt).value;
           e.(removed := old(removedNodeMap).Keys + e.removed)
      ensures ok ==> TextSeen.OnlySeen(old(Blocks()), Blocks(), seen, editedAt)
                     && TextSeen.Reported(Blocks(), latest, editedAt)
      ensures forall n :: n in repr && n !in old(repr) ==> fresh(n)
      ensures forall n :: n in treeByID.ever && n !in old(treeByID.ever) ==> fresh(n)
      ensures forall n :: n in treeByIndex.repr && n !in old(treeByIndex.repr) ==> fresh(n)
    {
      var fromLeft, fromRight, toLeft, toRight;
      ghost var bs := Blocks();
      ghost var left, right;
      TextPositions.EditIff(bs, from, to, seen, content, editedAt);
      TextSeen.EditSeen(bs, from, to, seen, content, editedAt);
      ok, fromLeft, fromRight, toLeft, toRight, left, right := FindEnds(from, to, editedAt);
      caretPos, latest := to, map[];
      if ok {
        TextTheorems.EndsFresh(bs, from, to, editedAt);
        TextTheorems.EditSteps(bs, from, to, seen, content, editedAt, right, left);
        ghost var e := EditBetween(left, right, seen, content, editedAt);
        caretPos, latest := EditAndRegister(fromLeft, fromRight, toLeft, toRight, seen, content, editedAt, left,
            right, e);
      } else {
        NoEdit(bs, from, to, seen, content, editedAt);
      }
    }

    // ----- positions -----

    method FindAside(index: nat) returns (ok: bool, node: SplayShape.Node, offset: int, ghost i: nat)
      requires treeByIndex.Valid() && treeByIndex.root != null
      ensures Valid() == old(Valid()) && unchanged(this) && unchanged(treeByIndex) && unchanged(treeByID)
      ensures Linked() == old(Linked()) && FieldsOf(repr) == old(FieldsOf(repr))
      ensures var xs, f := old(SplayShape.InOrder(treeByIndex.shape)), old(SplayShape.FieldsOf(treeByIndex.repr));
              && (ok <==> index <= SplayShape.Total(f, xs))
              && i < |xs| && xs[i] == node && node in f && offset == index - SplayShape.Total(f, xs[..i])
              && (ok ==> if index == 0 then i == 0 else 0 < offset <= f[node].len)
      ensures forall n :: n in old(treeByIndex.repr) ==> n.value == old(n.value)
    {
      SplayShape.InOrderNodes(treeByIndex.shape);
      ok, node, offset, i := treeByIndex.Find(index);
    }

    /** The position of a visible index. Not `ok` past the end of the text. */
    method FindNodePos(index: nat) returns (ok: bool, pos: NodePos, ghost i: nat)
      requires Valid()
      ensures Valid() == old(Valid()) && unchanged(this) && unchanged(treeByIndex) && unchanged(treeByID)
      ensures Linked() && Blocks() == old(Blocks()) && (ok <==> index <= |Visible(Blocks())|)
      ensures ok ==> TextTheorems.IsPos(Blocks(), index, i, pos.relativeOffset) && pos.id == Blocks()[i].id
    {
      Lengths(FieldsOf(repr), nodes);
      TextHasHead(treeByIndex, nodes);
      var splayNode, offset;
      ok, splayNode, offset, i := FindAside(index);
      pos := NodePos(initialHead.id, 0);
      if ok {
        var node := splayNode.value as TextNode;
        pos := NodePos(node.id, offset);
      }
    }

    /** The nodes of the index have the lengths of the blocks. */
    lemma Lengths(m: Fields, ns: seq<TextNode>)
      requires Valid() && m == FieldsOf(repr) && ns == nodes
      ensures var xs, f := SplayShape.InOrder(treeByIndex.shape), SplayShape.FieldsOf(treeByIndex.repr);
              && |xs| == |ns| && LensAgree(f, xs, Blocks())
              && (forall i :: 0 <= i < |ns| ==> xs[i].value == ns[i] && Blocks()[i].id == ns[i].id)
              && (forall n :: 0 <= n <= |ns| ==> SplayShape.Total(f, xs[..n]) == |Visible(Blocks()[..n])|)
              && SplayShape.Total(f, xs) == |Visible(Blocks())|
    {
      var xs, f, bs := IndexNodes(ns), SplayShape.FieldsOf(treeByIndex.repr), Blocks();
      BlocksAll(m, ns);
      forall i | 0 <= i < |ns|
        ensures xs[i] in f && f[xs[i]].len == bs[i].Len() && xs[i].value == ns[i] && bs[i].id == ns[i].id
      {
        IndexNodesAt(ns, |ns|, i);
        IndexMember(treeByIndex, ns, i);
        assert LinkedAt(m, ns, i);
      }
      forall n | 0 <= n <= |ns| ensures SplayShape.Total(f, xs[..n]) == |Visible(bs[..n])| {
        TotalIsVisible(f, xs[..n], bs[..n]);
      }
      TotalIsVisible(f, xs, bs);
    }

    method CreateRange(from: nat, to: nat)
        returns (ok: bool, fromPos: NodePos, toPos: NodePos, ghost i: nat, ghost j: nat)
      requires Valid()
      ensures Valid() == old(Valid()) && unchanged(this) && unchanged(treeByIndex) && unchanged(treeByID)
      ensures Linked() && Blocks() == old(Blocks())
      ensures ok <==> from <= |Visible(Blocks())| && to <= |Visible(Blocks())|
      ensures ok ==> TextTheorems.IsPos(Blocks(), from, i, fromPos.relativeOffset) && fromPos.id == Blocks()[i].id
      ensures ok ==> TextTheorems.IsPos(Blocks(), to, j, toPos.relativeOffset) && toPos.id == Blocks()[j].id
    {
      ok, fromPos, i := FindNodePos(from);
      toPos, j := fromPos, i;
      if ok && from != to {
        ok, toPos, j := FindNodePos(to);
      }
    }

    ghost function AsCopy(): Copy
      requires Linked()
      reads this, repr
    {
      Copy(Blocks(), removedNodeMap.Keys)
    }

    /** A local edit: a string splice of the visible text, for every range of it. Not `ok`
        when the range is not one of the text, and then the text is as it was. The operation
        is what the other copies are told. */
    method EditLocally(from: nat, to: nat, content: seq<CodeUnit>, ticket: Ticket) returns (ok: bool, op: EditOperation)
      requires Valid() && TextTheorems.Newest(Blocks(), ticket)
      modifies this`repr, this`nodes, this`removedNodeMap, repr, treeByIndex, treeByIndex.repr, treeByID, treeByID.ever
      ensures Valid() && (ok <==> from <= to <= |Visible(old(Blocks()))|)
      ensures ok ==> Visible(Blocks()) == var text := Visible(old(Blocks())); text[..from] + content + text[to..]
      ensures ok ==> Performed(old(AsCopy()), op, AsCopy())
      ensures !ok ==> AsCopy() == old(AsCopy())
      ensures ok ==> op.content == content && op.executedAt == ticket
      ensures ok ==> TextSeen.Reported(Blocks(), op.latest, ticket)
      ensures ok ==> forall u :: After(u, ticket) ==> TextTheorems.Newest(Blocks(), u)
      ensures forall n :: n in repr && n !in old(repr) ==> fresh(n)
      ensures forall n :: n in treeByID.ever && n !in old(treeByID.ever) ==> fresh(n)
      ensures forall n :: n in treeByIndex.repr && n !in old(treeByIndex.repr) ==> fresh(n)
    {
      ok, op := from <= to, EditOperation(NodePos(initialHead.id, 0), NodePos(initialHead.id, 0), map[], content,
          ticket);
      if !ok {
        return;
      }
      var fromPos, toPos;
      ghost var i, j;
      ok, fromPos, toPos, i, j := CreateRange(from, to);
      if !ok {
        return;
      }
      TextTheorems.LocalEditIsSplice(Blocks(), from, i, fromPos.relativeOffset, to, j, toPos.relativeOffset, content,
          ticket);
      TextTheorems.NewestIsFresh(Blocks(), ticket);
      TextTheorems.LocalEditNewest(Blocks(), fromPos, toPos, content, ticket);
      var caretPos, latest;
      ok, caretPos, latest := Edit(fromPos, toPos, None, content, ticket);
      op := EditOperation(fromPos, toPos, latest, content, ticket);
    }

    /** One local edit of a run: the splice, and the operation for the other copies after
        those of the edits before. */
    method EditNext(e: Splice, was: seq<EditOperation>, ghost start: Copy) returns (ops: seq<EditOperation>)
      requires Valid() && TextTheorems.Newest(Blocks(), e.ticket) && Replayed(start, was) == Some(AsCopy())
      modifies this`repr, this`nodes, this`removedNodeMap, repr, treeByIndex, treeByIndex.repr, treeByID, treeByID.ever
      ensures Valid() && Visible(Blocks()) == SpliceOne(Visible(old(Blocks())), e)
      ensures Replayed(start, ops) == Some(AsCopy())
      ensures forall u :: After(u, e.ticket) && TextTheorems.Newest(old(Blocks()), u) ==>
                TextTheorems.Newest(Blocks(), u)
      ensures forall n :: n in repr && n !in old(repr) ==> fresh(n)
      ensures forall n :: n in treeByID.ever && n !in old(treeByID.ever) ==> fresh(n)
      ensures forall n :: n in treeByIndex.repr && n !in old(treeByIndex.repr) ==> fresh(n)
    {
      ghost var c := AsCopy();
      var ok, op := EditLocally(e.from, e.to, e.content, e.ticket);
      Recorded(start, was, c, e, ok, op, AsCopy());
      ops := if ok then was + [op] else was;
    }

    /** A run of local edits with growing tickets: the run of the string splices. Edits out
        of the range of the text they meet change nothing. Whoever replays the operations on
        what the text was comes to what it is now. */
    method EditRun(edits: seq<Splice>) returns (ops: seq<EditOperation>)
      requires Valid() && forall i :: 0 <= i < |edits| ==> TextTheorems.Newest(Blocks(), edits[i].ticket)
      requires forall i, j :: 0 <= i < j < |edits| ==> After(edits[j].ticket, edits[i].ticket)
      modifies this`repr, this`nodes, this`removedNodeMap, repr, treeByIndex, treeByIndex.repr, treeByID, treeByID.ever
      ensures Valid() && Visible(Blocks()) == Spliced(Visible(old(Blocks())), edits)
      ensures Replayed(old(AsCopy()), ops) == Some(AsCopy())
    {
      var i := 0;
      ops := [];
      ghost var text, start := Visible(Blocks()), AsCopy();
      while i < |edits|
        invariant i <= |edits| && Valid() && Visible(Blocks()) == text
        invariant Spliced(text, edits[i..]) == Spliced(Visible(start.blocks), edits)
        invariant Replayed(start, ops) == Some(AsCopy())
        invariant forall j :: i <= j < |edits| ==> TextTheorems.Newest(Blocks(), edits[j].ticket)
        invariant forall n :: n in repr && n !in old(repr) ==> fresh(n)
        invariant forall n :: n in treeByID.ever && n !in old(treeByID.ever) ==> fresh(n)
        invariant forall n :: n in treeByIndex.repr && n !in old(treeByIndex.repr) ==> fresh(n)
      {
        SplicedStep(text, edits, i, i + 1);
        text := SpliceOne(text, edits[i]);
        ops := EditNext(edits[i], ops, start);
        i := i + 1;
      }
    }

    /** The edit of another copy, executed on this one. */
    method Execute(op: EditOperation) returns (ok: bool)
      requires Valid() && TextTheorems.FreshTicket(Blocks(), op.executedAt)
      modifies this`repr, this`nodes, this`removedNodeMap, repr, treeByIndex, treeByIndex.repr, treeByID, treeByID.ever
      ensures Valid() && (ok <==> Executed(old(AsCopy()), op).Some?)
      ensures ok ==> Executed(old(AsCopy()), op) == Some(AsCopy())
      ensures ok ==> TextSeen.OnlySeen(old(Blocks()), Blocks(), Some(op.latest), op.executedAt)
      ensures ok ==> forall u :: After(u, op.executedAt) && TextTheorems.Newest(old(Blocks()), u) ==>
                       TextTheorems.Newest(Blocks(), u)
      ensures forall n :: n in repr && n !in old(repr) ==> fresh(n)
      ensures forall n :: n in treeByID.ever && n !in old(treeByID.ever) ==> fresh(n)
      ensures forall n :: n in treeByIndex.repr && n !in old(treeByIndex.repr) ==> fresh(n)
    {
      ghost var bs := Blocks();
      var caretPos, latest;
      ok, caretPos, latest := Edit(op.from, op.to, Some(op.latest), op.content, op.executedAt);
      if ok {
        TextTheorems.EditKeepsNewest(bs, op.from, op.to, Some(op.latest), op.content, op.executedAt);
      }
    }

    /** A copy that replays the operations of a run comes to the blocks and the tombstones
        the run came to, if it started from the same. */
    method ReplayRun(ops: seq<EditOperation>, ghost was: Copy, ghost target: Copy)
      requires Valid() && AsCopy() == was && Replayed(was, ops) == Some(target)
      requires forall i :: 0 <= i < |ops| ==> TextTheorems.Newest(Blocks(), ops[i].executedAt)
      requires forall i, j :: 0 <= i < j < |ops| ==> After(ops[j].executedAt, ops[i].executedAt)
      modifies this`repr, this`nodes, this`removedNodeMap, repr, treeByIndex, treeByIndex.repr, treeByID, treeByID.ever
      ensures Valid() && AsCopy() == target
    {
      var i := 0;
      ghost var c := was;
      while i < |ops|
        invariant i <= |ops| && Valid() && AsCopy() == c && Replayed(was, ops[..i]) == Some(c)
        invariant forall j :: i <= j < |ops| ==> TextTheorems.Newest(Blocks(), ops[j].executedAt)
        invariant forall n :: n in repr && n !in old(repr) ==> fresh(n)
        invariant forall n :: n in treeByID.ever && n !in old(treeByID.ever) ==> fresh(n)
        invariant forall n :: n in treeByIndex.repr && n !in old(treeByIndex.repr) ==> fresh(n)
      {
        ReplayedStep(was, ops, i, c, i + 1);
        TextTheorems.NewestIsFresh(Blocks(), ops[i].executedAt);
        var ok := Execute(ops[i]);
        c := AsCopy();
        i := i + 1;
      }
      assert ops[..i] == ops;
    }

    // ----- purging: again one step for each of the structures -----

    method DeleteIndexNode(node: TextNode, ghost i: nat, ghost m: Fields)
      requires i < |nodes| && nodes[i] == node && Indexed(treeByIndex, nodes)
      modifies treeByIndex, treeByIndex.repr
      ensures Indexed(treeByIndex, Without(nodes, i)) && treeByIndex.repr == old(treeByIndex.repr) - {node.indexNode}
      ensures unchanged(this) && unchanged(treeByID) && treeByID.Valid() == old(treeByID.Valid())
      ensures Are(m, repr) == old(Are(m, repr)) && Measured(repr) == old(Measured(repr))
    {
      IndexMember(treeByIndex, nodes, i);
      IndexNodesWithout(nodes, i);
      treeByIndex.ValidIsValidOff(node.indexNode);
      treeByIndex.Delete(node.indexNode, i);
      assert unchanged(treeByID) && unchanged(treeByID.ever);
      assert Are(m, repr) == old(Are(m, repr)) && Measured(repr) == old(Measured(repr));
    }

    /** Takes the node out of the list and out of its chain. */
    method Purge(node: TextNode, ghost i: nat)
      requires i < |nodes| && node in repr && node.prev != null && node.prev in repr && node.prev != node
      requires node.next != null ==> node.next in repr && node.next != node && node.next != node.prev
      requires node.insPrev != null ==> node.insPrev in repr && node.insPrev != node
      requires node.insNext != null ==> node.insNext in repr && node.insNext != node && node.insNext != node.insPrev
      modifies this`repr, this`nodes, repr
      ensures nodes == Without(old(nodes), i) && repr == old(repr) - {node}
      ensures Unlinked(old(FieldsOf(repr)), FieldsOf(repr), node)
    {
      node.prev.next := node.next;
      if node.next != null {
        node.next.prev := node.prev;
      }
      node.prev, node.next := null, null;
      if node.insPrev != null {
        node.insPrev.insNext := node.insNext;
      }
      if node.insNext != null {
        node.insNext.insPrev := node.insPrev;
      }
      node.insPrev, node.insNext := null, null;
      nodes, repr := Without(nodes, i), repr - {node};
    }

    method PurgeAside(node: TextNode, ghost i: nat)
      requires i < |nodes| && node in repr && node.prev != null && node.prev in repr && node.prev != node
      requires node.next != null ==> node.next in repr && node.next != node && node.next != node.prev
      requires node.insPrev != null ==> node.insPrev in repr && node.insPrev != node
      requires node.insNext != null ==> node.insNext in repr && node.insNext != node && node.insNext != node.insPrev
      requires Measured(repr)
      modifies this`repr, this`nodes, repr
      ensures nodes == Without(old(nodes), i) && repr == old(repr) - {node}
      ensures Unlinked(old(FieldsOf(repr)), FieldsOf(repr), node)
      ensures Measured(repr) && unchanged(treeByIndex) && unchanged(treeByID)
      ensures treeByIndex.Valid() == old(treeByIndex.Valid()) && treeByID.Valid() == old(treeByID.Valid())
    {
      Purge(node, i);
      assert unchanged(treeByIndex.repr) && unchanged(treeByID.ever);
    }

    method RemoveID(id: NodeID, ghost m: Fields)
      requires treeByID.Valid() && id in treeByID.Map()
      modifies treeByID, treeByID.ever
      ensures treeByID.Valid() && treeByID.Map() == old(treeByID.Map()) - {id} && treeByID.ever <= old(treeByID.ever)
      ensures unchanged(this) && unchanged(treeByIndex) && treeByIndex.Valid() == old(treeByIndex.Valid())
      ensures Are(m, repr) == old(Are(m, repr)) && Measured(repr) == old(Measured(repr))
    {
      treeByID.Remove(id);
      assert unchanged(treeByIndex) && unchanged(treeByIndex.repr);
    }

    /** The list and treeByID without the node at `i`. */
    method PurgeAndForget(node: TextNode, ghost i: nat, ghost ids: map<NodeID, TextNode>)
      requires 0 < i < |nodes| && nodes[i] == node && Listed(FieldsOf(repr), nodes) && Measured(repr)
      requires treeByID.Valid() && treeByID.Map() == ids && Binds(ids, repr)
      modifies this`repr, this`nodes, repr, treeByID, treeByID.ever
      ensures nodes == Without(old(nodes), i) && repr == old(repr) - {node}
      ensures Unlinked(old(FieldsOf(repr)), FieldsOf(repr), node)
      ensures Measured(repr) && Identified(treeByID, repr) && treeByID.ever <= old(treeByID.ever)
      ensures unchanged(treeByIndex) && treeByIndex.Valid() == old(treeByIndex.Valid())
    {
      PurgeReady(FieldsOf(repr), nodes, i);
      BindsRemove(ids, repr, node);
      PurgeAside(node, i);
      RemoveID(node.id, FieldsOf(repr));
    }

    method RemoveFromIndexes(node: TextNode, ghost i: nat, ghost m: Fields) returns (ghost m': Fields)
      requires Holds(m) && 0 < i < |nodes| && nodes[i] == node
      modifies this`repr, this`nodes, repr, treeByIndex, treeByIndex.repr, treeByID, treeByID.ever
      ensures nodes == Without(old(nodes), i) && repr == old(repr) - {node}
      ensures Are(m', repr) && Unlinked(m, m', node)
      ensures Indexed(treeByIndex, nodes) && Measured(repr) && Identified(treeByID, repr)
      ensures treeByID.ever <= old(treeByID.ever) && treeByIndex.repr <= old(treeByIndex.repr)
    {
      DeleteIndexNode(node, i, m);
      PurgeAndForget(node, i, treeByID.Map());
      m' := FieldsOf(repr);
    }

    /** One tombstone of cleanupRemovedNodes. */
    method RemoveNode(node: TextNode, ghost i: nat)
      requires Valid() && 0 < i < |nodes| && nodes[i] == node
      modifies this`repr, this`nodes, this`removedNodeMap, repr, treeByIndex, treeByIndex.repr, treeByID, treeByID.ever
      ensures Valid() && removedNodeMap == old(removedNodeMap) - {node.id}
      ensures Blocks() == old(Blocks())[..i] + old(Blocks())[i + 1..]
      ensures Unlinked(old(FieldsOf(repr)), FieldsOf(repr), node)
      ensures repr <= old(repr) && treeByID.ever <= old(treeByID.ever) && treeByIndex.repr <= old(treeByIndex.repr)
    {
      ghost var m, ns := FieldsOf(repr), nodes;
      ghost var m' := RemoveFromIndexes(node, i, m);
      UnlinkedListed(m, m', ns, i, removedNodeMap);
      assert Holds(m');
      SetRemovedNodeMap(removedNodeMap - {node.id}, m');
      assert Are(m', repr) && Linked();
    }

    /** One round of the loop of cleanupRemovedNodes, on the entry `k`. */
    method CleanupRound(k: NodeID, ticket: Ticket, count: nat, ghost c: Cleaning, ghost todo: set<NodeID>)
        returns (count': nat)
      requires Valid() && k in todo && Cleaned(c, FieldsOf(repr), Blocks(), removedNodeMap, todo, count)
      requires c.ticket == ticket
      modifies this`repr, this`nodes, this`removedNodeMap, repr, treeByIndex, treeByIndex.repr, treeByID, treeByID.ever
      ensures Valid() && Cleaned(c, FieldsOf(repr), Blocks(), removedNodeMap, todo - {k}, count')
      ensures repr <= old(repr) && treeByID.ever <= old(treeByID.ever) && treeByIndex.repr <= old(treeByIndex.repr)
    {
      var node := removedNodeMap[k];
      ghost var m, bs, reg := FieldsOf(repr), Blocks(), removedNodeMap;
      ghost var i := TombstoneIndex(m, nodes, node);
      count' := count;
      if node.removedAt.Some? && Compare(ticket, node.removedAt.value) >= 0 {
        RemoveNode(node, i);
        count' := count + 1;
        CleanedOne(c, m, FieldsOf(repr), bs, reg, todo, count, k, i, count');
      } else {
        CleanedKeep(c, m, bs, reg, todo, count, k, i);
      }
    }

    /** The loop of cleanupRemovedNodes. */
    method CleanupRounds(ticket: Ticket, ghost c: Cleaning) returns (count: nat)
      requires Valid() && Cleaned(c, FieldsOf(repr), Blocks(), removedNodeMap, removedNodeMap.Keys, 0)
      requires c.ticket == ticket
      modifies this`repr, this`nodes, this`removedNodeMap, repr, treeByIndex, treeByIndex.repr, treeByID, treeByID.ever
      ensures Valid() && Cleaned(c, FieldsOf(repr), Blocks(), removedNodeMap, {}, count)
      ensures repr <= old(repr) && treeByID.ever <= old(treeByID.ever) && treeByIndex.repr <= old(treeByIndex.repr)
    {
      var todo := removedNodeMap.Keys;
      count := 0;
      while todo != {}
        invariant Valid() && Cleaned(c, FieldsOf(repr), Blocks(), removedNodeMap, todo, count)
        invariant repr <= old(repr) && treeByID.ever <= old(treeByID.ever) && treeByIndex.repr <= old(treeByIndex.repr)
        decreases todo
      {
        var k :| k in todo;
        count := CleanupRound(k, ticket, count, c, todo);
        todo := todo - {k};
      }
    }

    /** Purges the tombstones that are not later than the ticket, and counts them. */
    method CleanupRemovedNodes(ticket: Ticket) returns (count: nat)
      requires Valid()
      modifies this`repr, this`nodes, this`removedNodeMap, repr, treeByIndex, treeByIndex.repr, treeByID, treeByID.ever
      ensures Valid() && Blocks() == Cleanup(old(Blocks()), old(removedNodeMap).Keys, ticket)
      ensures Visible(Blocks()) == Visible(old(Blocks())) && TombstonesLater(Blocks(), ticket)
      ensures removedNodeMap.Keys <= old(removedNodeMap).Keys && count == |old(removedNodeMap)| - |removedNodeMap|
      ensures forall k {:trigger k in removedNodeMap} :: k in old(removedNodeMap) ==>
        StaysIfLater(old(FieldsOf(repr)), old(removedNodeMap), removedNodeMap, ticket, k)
      ensures repr <= old(repr) && treeByID.ever <= old(treeByID.ever) && treeByIndex.repr <= old(treeByIndex.repr)
    {
      ghost var ns, c := nodes, Cleaning(FieldsOf(repr), Blocks(), removedNodeMap, ticket);
      StartCleaned(c, FieldsOf(repr), Blocks(), removedNodeMap);
      count := CleanupRounds(ticket, c);
      EndCleaned(c, FieldsOf(repr), ns, Blocks(), removedNodeMap, count);
    }
  }
}
