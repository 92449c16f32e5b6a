/** The links between the nodes of an array, as a map from the nodes to their fields. */
module ListLinks {
  import opened Time
  import opened Wrappers
  import opened Sequences
  import opened ArrayItems
  import SplayShape

  /** A node together with what the array keeps of its element: when it was created, moved and removed. */
  class ListNode {
    const createdAt: Ticket
    const indexNode: SplayShape.Node
    var movedAt: Option<Ticket>
    var removedAt: Option<Ticket>
    var prev: ListNode?
    var next: ListNode?

    constructor (createdAt: Ticket, movedAt: Option<Ticket>, removedAt: Option<Ticket>)
      ensures this.createdAt == createdAt && this.movedAt == movedAt && this.removedAt == removedAt
      ensures prev == null && next == null
      ensures fresh(indexNode) && indexNode.value == this && indexNode.len == Len() && !indexNode.HasLinks()
    {
      this.createdAt, this.movedAt, this.removedAt := createdAt, movedAt, removedAt;
      prev, next := null, null;
      indexNode := new SplayShape.Node(if removedAt.Some? then 0 else 1);
      new;
      indexNode.value := this;
    }

    function Len(): nat
      reads `removedAt
    {
      if removedAt.Some? then 0 else 1
    }

    function PositionedAt(): Ticket
      reads `movedAt
    {
      if movedAt.Some? then movedAt.value else createdAt
    }

    /** Marks the element as removed, if that is later than its creation and an earlier removal. */
    method Remove(removedAt: Ticket) returns (removed: bool)
      modifies this`removedAt
      ensures removed == CanRemove(Item(createdAt, movedAt, old(this.removedAt)), removedAt)
      ensures this.removedAt == if removed then Some(removedAt) else old(this.removedAt)
      ensures if After(removedAt, createdAt) then IsLater(old(this.removedAt), removedAt, this.removedAt)
              else this.removedAt == old(this.removedAt)
      ensures removed <==> this.removedAt != old(this.removedAt)
    {
      CompareIsTotalOrder(removedAt, if this.removedAt.Some? then this.removedAt.value else createdAt, removedAt);
      if After(removedAt, createdAt) && (this.removedAt.None? || After(removedAt, this.removedAt.value)) {
        this.removedAt := Some(removedAt);
        return true;
      }
      return false;
    }
  }

  datatype Cell = Cell(movedAt: Option<Ticket>, removedAt: Option<Ticket>, prev: ListNode?, next: ListNode?)

  type Fields = map<ListNode, Cell>

  ghost function FieldsOf(ns: set<ListNode>): (m: Fields)
    reads ns`movedAt, ns`removedAt, ns`prev, ns`next
    ensures m.Keys == ns
  {
    map n | n in ns :: Cell(n.movedAt, n.removedAt, n.prev, n.next)
  }

  ghost predicate Are(m: Fields, ns: set<ListNode>)
    reads ns`movedAt, ns`removedAt, ns`prev, ns`next
  {
    m == FieldsOf(ns)
  }

  ghost predicate Within(m: Fields, ns: seq<ListNode>) {
    forall i :: 0 <= i < |ns| ==> ns[i] in m
  }

  ghost function ItemOf(m: Fields, n: ListNode): Item
    requires n in m
  {
    Item(n.createdAt, m[n].movedAt, m[n].removedAt)
  }

  ghost function ItemsTo(m: Fields, ns: seq<ListNode>, n: nat): (s: seq<Item>)
    requires Within(m, ns) && n <= |ns|
    ensures |s| == n
  {
    if n == 0 then [] else ItemsTo(m, ns, n - 1) + [ItemOf(m, ns[n - 1])]
  }

  ghost function ItemsOf(m: Fields, ns: seq<ListNode>): (s: seq<Item>)
    requires Within(m, ns)
    ensures |s| == |ns|
  {
    ItemsTo(m, ns, |ns|)
  }

  lemma {:induction false} ItemsUpTo(m: Fields, ns: seq<ListNode>, n: nat, i: nat)
    requires Within(m, ns) && i < n <= |ns|
    ensures ItemsTo(m, ns, n)[i] == ItemOf(m, ns[i])
  {
    if i < n - 1 {
      ItemsUpTo(m, ns, n - 1, i);
    }
  }

  lemma ItemsAt(m: Fields, ns: seq<ListNode>, i: nat)
    requires Within(m, ns) && i < |ns|
    ensures ItemsOf(m, ns)[i] == ItemOf(m, ns[i])
  {
    ItemsUpTo(m, ns, |ns|, i);
  }

  lemma ItemsAll(m: Fields, ns: seq<ListNode>)
    requires Within(m, ns)
    ensures forall i :: 0 <= i < |ns| ==> ItemsOf(m, ns)[i] == ItemOf(m, ns[i])
  {
    forall i | 0 <= i < |ns| ensures ItemsOf(m, ns)[i] == ItemOf(m, ns[i]) {
      ItemsAt(m, ns, i);
    }
  }

  lemma ItemsAre(m: Fields, ns: seq<ListNode>, s: seq<Item>)
    requires Within(m, ns) && |s| == |ns| && forall i :: 0 <= i < |ns| ==> ItemOf(m, ns[i]) == s[i]
    ensures ItemsOf(m, ns) == s
  {
    ItemsAll(m, ns);
  }

  ghost function At(ns: seq<ListNode>, i: int): ListNode? {
    if 0 <= i < |ns| then ns[i] else null
  }

  ghost predicate LinkedAt(m: Fields, ns: seq<ListNode>, i: int)
    requires 0 <= i < |ns|
  {
    ns[i] in m && m[ns[i]].prev == At(ns, i - 1) && m[ns[i]].next == At(ns, i + 1)
  }

  /** prev and next lead along the sequence, whose items are those of an array. */
  ghost predicate Listed(m: Fields, ns: seq<ListNode>) {
    && m.Keys == (set n | n in ns) && Within(m, ns)
    && (forall i :: 0 <= i < |ns| ==> LinkedAt(m, ns, i)) && WellFormed(ItemsOf(m, ns))
  }

  lemma LinkedWithin(m: Fields, ns: seq<ListNode>)
    requires forall i :: 0 <= i < |ns| ==> LinkedAt(m, ns, i)
    ensures Within(m, ns)
  {
    forall i | 0 <= i < |ns| ensures ns[i] in m {
      assert LinkedAt(m, ns, i);
    }
  }

  lemma OneStand(m: Fields, ns: seq<ListNode>, i: int, k: nat)
    requires Listed(m, ns) && k < |ns|
    ensures At(ns, i) == ns[k] <==> i == k
  {
    if 0 <= i < |ns| {
      ItemsAt(m, ns, i);
      ItemsAt(m, ns, k);
      assert TimesDiffer(ItemsOf(m, ns), i, k);
    }
  }

  // ----- inserting -----

  /** The fields after `x` was put between `y` and its successor. */
  ghost predicate SplicedIn(m: Fields, m': Fields, y: ListNode, x: ListNode) {
    && y in m && x !in m && m'.Keys == m.Keys + {x}
    && m'[x].prev == y && m'[x].next == m[y].next
    && forall n :: n in m ==>
         m'[n] == m[n].(next := if n == y then x else m[n].next, prev := if n == m[y].next then x else m[n].prev)
  }

  lemma SplicedAt(m: Fields, m': Fields, ns: seq<ListNode>, p: nat, x: ListNode, w: nat)
    requires Listed(m, ns) && p < |ns| && SplicedIn(m, m', ns[p], x) && w <= |ns|
    ensures var r := InsertAt(ns, p + 1, x);
            LinkedAt(m', r, w) && ItemOf(m', r[w]) == if w == p + 1 then ItemOf(m', x) else
                                    ItemOf(m, ns[if w <= p then w else w - 1])
  {
    var r := InsertAt(ns, p + 1, x);
    assert LinkedAt(m, ns, p);
    assert At(r, p) == ns[p] && At(r, p + 1) == x && At(r, p + 2) == At(ns, p + 1);
    if w != p + 1 {
      var i := if w <= p then w else w - 1;
      assert r[w] == ns[i] && LinkedAt(m, ns, i);
      OneStand(m, ns, i, p);
      OneStand(m, ns, p + 1, i);
    }
  }

  lemma SplicedItems(m: Fields, m': Fields, ns: seq<ListNode>, p: nat, x: ListNode)
    requires Listed(m, ns) && p < |ns| && SplicedIn(m, m', ns[p], x) && Within(m', InsertAt(ns, p + 1, x))
    ensures ItemsOf(m', InsertAt(ns, p + 1, x)) == InsertAt(ItemsOf(m, ns), p + 1, ItemOf(m', x))
  {
    var r, s := InsertAt(ns, p + 1, x), ItemsOf(m, ns);
    var t := InsertAt(s, p + 1, ItemOf(m', x));
    forall w | 0 <= w < |r| ensures ItemOf(m', r[w]) == t[w] {
      SplicedAt(m, m', ns, p, x, w);
      InsertedAt(s, p + 1, ItemOf(m', x), w);
      if w != p + 1 {
        ItemsAt(m, ns, if w <= p then w else w - 1);
      }
    }
    ItemsAre(m', r, t);
  }

  lemma SplicedList(m: Fields, m': Fields, ns: seq<ListNode>, p: nat, x: ListNode)
    requires Listed(m, ns) && p < |ns| && SplicedIn(m, m', ns[p], x)
    requires Find(ItemsOf(m, ns), x.createdAt) < 0
    ensures var r := InsertAt(ns, p + 1, x);
            Listed(m', r) && ItemsOf(m', r) == InsertAt(ItemsOf(m, ns), p + 1, ItemOf(m', x)) && r[0] == ns[0]
  {
    var r := InsertAt(ns, p + 1, x);
    assert r[0] == ns[0];
    forall w | 0 <= w < |r| ensures LinkedAt(m', r, w) {
      SplicedAt(m, m', ns, p, x, w);
    }
    LinkedWithin(m', r);
    SplicedItems(m, m', ns, p, x);
    InsertedWellFormed(ItemsOf(m, ns), p + 1, ItemOf(m', x));
    InsertedSet(ns, p + 1, x);
  }

  lemma InsertedSet(ns: seq<ListNode>, g: nat, x: ListNode)
    requires g <= |ns|
    ensures (set n | n in InsertAt(ns, g, x)) == (set n | n in ns) + {x}
  {
    var r := InsertAt(ns, g, x);
    assert ns == ns[..g] + ns[g..];
    assert r[g] == x;
  }

  // ----- taking out -----

  /** The fields after `x` was taken out of the list. */
  ghost predicate Unlinked(m: Fields, m': Fields, x: ListNode) {
    && x in m && m'.Keys == m.Keys - {x}
    && forall n :: n in m && n != x ==>
         m'[n] == m[n].(prev := if n == m[x].next then m[x].prev else m[n].prev,
                        next := if n == m[x].prev then m[x].next else m[n].next)
  }

  lemma UnlinkedAt(m: Fields, m': Fields, ns: seq<ListNode>, k: nat, i: nat)
    requires Listed(m, ns) && k < |ns| && Unlinked(m, m', ns[k]) && i < |ns| - 1
    ensures var r, w := Without(ns, k), if i < k then i else i + 1;
            r[i] == ns[w] && LinkedAt(m', r, i) && ItemOf(m', r[i]) == ItemOf(m, ns[w])
  {
    var r, w := Without(ns, k), if i < k then i else i + 1;
    assert LinkedAt(m, ns, k) && LinkedAt(m, ns, w);
    OneStand(m, ns, w, k);
    OneStand(m, ns, k + 1, w);
    OneStand(m, ns, k - 1, w);
  }

  lemma UnlinkedList(m: Fields, m': Fields, ns: seq<ListNode>, k: nat)
    requires Listed(m, ns) && 0 < k < |ns| && Unlinked(m, m', ns[k])
    ensures var r := Without(ns, k);
            Listed(m', r) && ItemsOf(m', r) == Without(ItemsOf(m, ns), k) && r[0] == ns[0]
  {
    var r, s := Without(ns, k), ItemsOf(m, ns);
    forall i | 0 <= i < |r| ensures LinkedAt(m', r, i) {
      UnlinkedAt(m, m', ns, k, i);
    }
    LinkedWithin(m', r);
    var t := Without(s, k);
    forall i | 0 <= i < |r| ensures ItemOf(m', r[i]) == t[i] {
      UnlinkedAt(m, m', ns, k, i);
      ItemsAt(m, ns, if i < k then i else i + 1);
    }
    ItemsAre(m', r, t);
    WithoutWellFormed(s, k);
    WithoutSet(m, ns, k);
  }

  lemma WithoutSet(m: Fields, ns: seq<ListNode>, k: nat)
    requires Listed(m, ns) && k < |ns|
    ensures (set n | n in Without(ns, k)) == (set n | n in ns) - {ns[k]}
  {
    var r := Without(ns, k);
    forall i | 0 <= i < |r| ensures r[i] in ns && r[i] != ns[k] {
      OneStand(m, ns, if i < k then i else i + 1, k);
    }
    forall i | 0 <= i < |ns| && i != k ensures ns[i] in r {
      assert r[if i < k then i else i - 1] == ns[i];
    }
  }

  // ----- removing an element -----

  /** The fields after the element of `x` was marked as removed. */
  ghost predicate Marked(m: Fields, m': Fields, x: ListNode, t: Ticket) {
    x in m && m' == m[x := m[x].(removedAt := Some(t))]
  }

  lemma MarkedList(m: Fields, m': Fields, ns: seq<ListNode>, k: nat, t: Ticket)
    requires Listed(m, ns) && k < |ns| && Marked(m, m', ns[k], t)
    ensures Listed(m', ns) && ItemsOf(m', ns) == ItemsOf(m, ns)[k := ItemOf(m, ns[k]).(removedAt := Some(t))]
  {
    var s, x := ItemsOf(m, ns), ItemOf(m, ns[k]).(removedAt := Some(t));
    forall i | 0 <= i < |ns| ensures LinkedAt(m', ns, i) {
      assert LinkedAt(m, ns, i);
    }
    forall i | 0 <= i < |ns| ensures ItemsOf(m', ns)[i] == s[k := x][i] {
      ItemsAt(m', ns, i);
      ItemsAt(m, ns, i);
      OneStand(m, ns, i, k);
    }
    assert ItemsOf(m', ns) == s[k := x];
    ItemsAt(m, ns, k);
    SetWellFormed(s, k, x);
  }
}
