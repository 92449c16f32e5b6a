/** The object CRDT over its queues and its map by creation time
    (pkg/document/json/rht_pq_map.go). A queue is the set of its nodes; at its top is the one
    created last. */
module RHTPQMaps {
  import opened Time
  import opened Wrappers
  import opened ObjectEntries

  /** A node together with what the object keeps of its element. */
  class RHTPQMapNode {
    const key: Key
    const createdAt: Ticket
    var removedAt: Option<Ticket>

    constructor (key: Key, createdAt: Ticket, removedAt: Option<Ticket>)
      ensures this.key == key && this.createdAt == createdAt && this.removedAt == removedAt
    {
      this.key, this.createdAt, this.removedAt := key, createdAt, removedAt;
    }

    method Remove(removedAt: Ticket) returns (removed: bool)
      modifies this
      ensures removed == CanRemove(createdAt, old(this.removedAt), removedAt)
      ensures this.removedAt == if removed then Some(removedAt) else old(this.removedAt)
      ensures if After(removedAt, createdAt) then IsLater(old(this.removedAt), removedAt, this.removedAt)
              else this.removedAt == old(this.removedAt)
      ensures removed <==> this.removedAt != old(this.removedAt)
    {
      CompareIsTotalOrder(removedAt, if this.removedAt.Some? then this.removedAt.value else createdAt, removedAt);
      removed := After(removedAt, createdAt) && (this.removedAt.None? || After(removedAt, this.removedAt.value));
      if removed {
        this.removedAt := Some(removedAt);
      }
    }
  }

  type Queue = set<RHTPQMapNode>

  ghost predicate Top(queue: Queue, n: RHTPQMapNode) {
    n in queue && forall m :: m in queue ==> m == n || After(n.createdAt, m.createdAt)
  }

  lemma {:induction false} TopExists(queue: Queue)
    requires queue != {} && forall n, m :: n in queue && m in queue && n.createdAt == m.createdAt ==> n == m
    ensures exists n :: Top(queue, n)
    decreases queue
  {
    var n :| n in queue;
    if queue == {n} {
      assert Top(queue, n);
    } else {
      TopExists(queue - {n});
      var t :| Top(queue - {n}, t);
      CompareIsTotalOrder(n.createdAt, t.createdAt, n.createdAt);
      if After(n.createdAt, t.createdAt) {
        forall m | m in queue ensures m == n || After(n.createdAt, m.createdAt) {
          assert m == n || m in queue - {n};
          CompareIsTotalOrder(n.createdAt, t.createdAt, m.createdAt);
        }
        assert Top(queue, n);
      } else {
        forall m | m in queue ensures m == t || After(t.createdAt, m.createdAt) {
          assert m == n || m in queue - {n};
        }
        assert Top(queue, t);
      }
    }
  }

  class RHTPQMap {
    var nodeQueueMapByKey: map<Key, Queue>
    var nodeMapByCreatedAt: map<Ticket, RHTPQMapNode>

    ghost predicate Queued(n: RHTPQMapNode)
      reads this
    {
      n.key in nodeQueueMapByKey && n in nodeQueueMapByKey[n.key]
    }

    /** The queues hold exactly the nodes of the map, each under its key. */
    ghost predicate Valid()
      reads this
    {
      && (forall c :: c in nodeMapByCreatedAt ==> nodeMapByCreatedAt[c].createdAt == c && Queued(nodeMapByCreatedAt[c]))
      && (forall k, n :: k in nodeQueueMapByKey && n in nodeQueueMapByKey[k] ==>
           n.key == k && n.createdAt in nodeMapByCreatedAt && nodeMapByCreatedAt[n.createdAt] == n)
    }

    ghost function Entries(): Entries
      reads this, nodeMapByCreatedAt.Values
    {
      map c | c in nodeMapByCreatedAt :: Entry(nodeMapByCreatedAt[c].key, nodeMapByCreatedAt[c].removedAt)
    }

    constructor ()
      ensures Valid() && Entries() == map[]
    {
      nodeQueueMapByKey, nodeMapByCreatedAt := map[], map[];
    }

    method Peek(queue: Queue, ghost k: Key) returns (node: RHTPQMapNode)
      requires Valid() && k in nodeQueueMapByKey && nodeQueueMapByKey[k] == queue && queue != {}
      ensures IsTop(Entries(), k, node.createdAt)
      ensures node.createdAt in nodeMapByCreatedAt && nodeMapByCreatedAt[node.createdAt] == node && node.key == k
    {
      TopExists(queue);
      node :| node in queue && forall m :: m in queue ==> m == node || After(node.createdAt, m.createdAt);
      ghost var e := Entries();
      forall d | d in e ensures NotAfter(e, k, d, node.createdAt) {
        CompareIsTotalOrder(d, node.createdAt, d);
      }
    }

    /** No queue or an empty one: nothing under the key. */
    lemma NothingUnder(k: Key)
      requires Valid() && (k !in nodeQueueMapByKey || nodeQueueMapByKey[k] == {})
      ensures forall c :: !IsTop(Entries(), k, c)
    {
    }

    method Get(key: Key) returns (node: RHTPQMapNode?)
      requires Valid()
      ensures node != null ==> Shows(Entries(), key, node.createdAt) && nodeMapByCreatedAt[node.createdAt] == node
      ensures node == null ==> forall c :: !Shows(Entries(), key, c)
    {
      if key !in nodeQueueMapByKey || |nodeQueueMapByKey[key]| == 0 {
        NothingUnder(key);
        return null;
      }
      var top := Peek(nodeQueueMapByKey[key], key);
      TopOnly(key, top.createdAt);
      node := if top.removedAt.Some? then null else top;
    }

    lemma TopOnly(k: Key, c: Ticket)
      requires IsTop(Entries(), k, c)
      ensures forall d :: IsTop(Entries(), k, d) ==> d == c
    {
      forall d | IsTop(Entries(), k, d) ensures d == c {
        TopUnique(Entries(), k, c, d);
      }
    }

    /** Whether there is a live element. Not `ok` when the queue of the key was purged empty. */
    method Has(key: Key) returns (ok: bool, has: bool)
      requires Valid()
      ensures ok <==> key !in nodeQueueMapByKey || nodeQueueMapByKey[key] != {}
      ensures ok ==> (has <==> exists c :: Shows(Entries(), key, c))
    {
      ok, has := true, false;
      if key !in nodeQueueMapByKey {
        NothingUnder(key);
      } else if nodeQueueMapByKey[key] == {} {
        ok := false;
      } else {
        var top := Peek(nodeQueueMapByKey[key], key);
        TopOnly(key, top.createdAt);
        has := top.removedAt.None?;
        assert has ==> Shows(Entries(), key, top.createdAt);
      }
    }

    /** Puts an element into its queue, as it is. */
    method SetInternal(k: Key, createdAt: Ticket, removedAt: Option<Ticket>)
      requires Valid() && createdAt !in nodeMapByCreatedAt
      modifies this
      ensures Valid() && Entries() == old(Entries())[createdAt := Entry(k, removedAt)]
      ensures nodeMapByCreatedAt.Keys == old(nodeMapByCreatedAt).Keys + {createdAt}
              && fresh(nodeMapByCreatedAt[createdAt])
      ensures forall c :: c in old(nodeMapByCreatedAt) ==> nodeMapByCreatedAt[c] == old(nodeMapByCreatedAt)[c]
    {
      var node := new RHTPQMapNode(k, createdAt, removedAt);
      PushNode(node);
    }

    method PushNode(node: RHTPQMapNode)
      requires Valid() && node.createdAt !in nodeMapByCreatedAt
      modifies this
      ensures Valid() && Entries() == old(Entries())[node.createdAt := Entry(node.key, node.removedAt)]
      ensures nodeMapByCreatedAt == old(nodeMapByCreatedAt)[node.createdAt := node]
    {
      var k := node.key;
      var queue := if k in nodeQueueMapByKey then nodeQueueMapByKey[k] else {};
      nodeQueueMapByKey := nodeQueueMapByKey[k := queue + {node}];
      nodeMapByCreatedAt := nodeMapByCreatedAt[node.createdAt := node];
    }

    /** Sets the member: the latest element is removed if it is live and the new one is later. */
    method Set(k: Key, createdAt: Ticket) returns (removed: RHTPQMapNode?)
      requires Valid() && createdAt !in nodeMapByCreatedAt
      modifies this, nodeMapByCreatedAt.Values
      ensures Valid() && Apply(old(Entries()), Operation.Set(k, createdAt)) == Some(Entries())
      ensures removed != null <==> exists c :: Shows(old(Entries()), k, c) && After(createdAt, c)
      ensures removed != null ==> Shows(old(Entries()), k, removed.createdAt)
      ensures forall n :: n in nodeMapByCreatedAt.Values && n !in old(nodeMapByCreatedAt).Values ==> fresh(n)
    {
      removed := Supersede(k, createdAt);
      SetInternal(k, createdAt, None);
    }

    method Supersede(k: Key, createdAt: Ticket) returns (removed: RHTPQMapNode?)
      requires Valid()
      modifies nodeMapByCreatedAt.Values
      ensures Valid() && unchanged(this) && Entries() == Superseded(old(Entries()), k, createdAt)
      ensures removed != null <==> exists c :: Shows(old(Entries()), k, c) && After(createdAt, c)
      ensures removed != null ==> Shows(old(Entries()), k, removed.createdAt)
    {
      removed := null;
      ghost var e := Entries();
      if k in nodeQueueMapByKey && |nodeQueueMapByKey[k]| > 0 {
        var node := Peek(nodeQueueMapByKey[k], k);
        TopOnly(k, node.createdAt);
        SupersededIs(e, k, createdAt, node.createdAt);
        if node.removedAt.None? {
          var done := node.Remove(createdAt);
          if done {
            removed := node;
          }
        }
        assert Entries() == if e[node.createdAt].removedAt.None? then Removed(e, node.createdAt, createdAt) else e;
      } else {
        NothingUnder(k);
        SupersededIs(e, k, createdAt, createdAt);
      }
    }

    /** Removes what is latest under the key. Not `ok` when the queue of the key was purged empty. */
    method Delete(k: Key, deletedAt: Ticket) returns (ok: bool, node: RHTPQMapNode?)
      requires Valid()
      modifies nodeMapByCreatedAt.Values
      ensures Valid() && unchanged(this) && (ok <==> k !in nodeQueueMapByKey || nodeQueueMapByKey[k] != {})
      ensures forall c :: IsTop(old(Entries()), k, c) ==> Entries() == Removed(old(Entries()), c, deletedAt)
      ensures (forall c :: !IsTop(old(Entries()), k, c)) ==> Entries() == old(Entries())
      ensures node != null <==>
                exists c :: IsTop(old(Entries()), k, c) && CanRemove(c, old(Entries())[c].removedAt, deletedAt)
    {
      ok, node := true, null;
      if k !in nodeQueueMapByKey {
        NothingUnder(k);
      } else if nodeQueueMapByKey[k] == {} {
        NothingUnder(k);
        ok := false;
      } else {
        var top := Peek(nodeQueueMapByKey[k], k);
        TopOnly(k, top.createdAt);
        var done := top.Remove(deletedAt);
        node := if done then top else null;
      }
    }

    /** Removes the element created at the given time, null when that changes nothing. */
    method DeleteByCreatedAt(createdAt: Ticket, deletedAt: Ticket) returns (node: RHTPQMapNode?)
      requires Valid()
      modifies nodeMapByCreatedAt.Values
      ensures Valid() && unchanged(this)
      ensures var r := Apply(old(Entries()), Operation.Delete(createdAt, deletedAt));
              Entries() == if r.Some? then r.value else old(Entries())
      ensures node != null <==> createdAt in old(Entries())
                                && CanRemove(createdAt, old(Entries())[createdAt].removedAt, deletedAt)
      ensures createdAt in old(Entries()) && After(deletedAt, createdAt) ==>
                IsLater(old(Entries())[createdAt].removedAt, deletedAt, Entries()[createdAt].removedAt)
      ensures (node != null <==> Entries() != old(Entries())) && (node != null ==> node.createdAt == createdAt)
    {
      node := null;
      if createdAt in nodeMapByCreatedAt {
        var found := nodeMapByCreatedAt[createdAt];
        var done := found.Remove(deletedAt);
        node := if done then found else null;
      }
    }

    /** The live members. */
    method Elements() returns (members: map<Key, RHTPQMapNode>)
      requires Valid()
      ensures forall k :: k in members ==> Shows(Entries(), k, members[k].createdAt)
                                           && nodeMapByCreatedAt[members[k].createdAt] == members[k]
      ensures forall k, c :: Shows(Entries(), k, c) ==> k in members
    {
      members := map[];
      var todo := nodeQueueMapByKey.Keys;
      ghost var e := Entries();
      while todo != {}
        invariant todo <= nodeQueueMapByKey.Keys
        invariant forall k :: k in members ==> k in nodeQueueMapByKey && k !in todo && Shows(e, k, members[k].createdAt)
                                               && nodeMapByCreatedAt[members[k].createdAt] == members[k]
        invariant forall k, c :: Shows(e, k, c) && k !in todo ==> k in members
        decreases todo
      {
        var k :| k in todo;
        var queue := nodeQueueMapByKey[k];
        todo := todo - {k};
        if |queue| == 0 {
          NothingUnder(k);
        } else {
          var node := Peek(queue, k);
          TopOnly(k, node.createdAt);
          if node.removedAt.None? {
            members := members[node.key := node];
          }
        }
      }
    }

    /** Takes an element out for good. Not `ok` when there is none. */
    method Purge(createdAt: Ticket) returns (ok: bool)
      requires Valid()
      modifies this
      ensures Valid() && (ok <==> createdAt in old(Entries())) && Entries() == old(Entries()) - {createdAt}
    {
      ok := createdAt in nodeMapByCreatedAt;
      if ok {
        var node := nodeMapByCreatedAt[createdAt];
        nodeQueueMapByKey := nodeQueueMapByKey[node.key := nodeQueueMapByKey[node.key] - {node}];
        nodeMapByCreatedAt := nodeMapByCreatedAt - {createdAt};
      }
    }

    method Execute(op: Operation)
      requires Valid() && Apply(Entries(), op).Some?
      modifies this, nodeMapByCreatedAt.Values
      ensures Valid() && Apply(old(Entries()), op) == Some(Entries())
      ensures forall n :: n in nodeMapByCreatedAt.Values && n !in old(nodeMapByCreatedAt).Values ==> fresh(n)
    {
      match op {
        case Set(k, c) => var removed := Set(k, c);
        case Delete(c, t) => var node := DeleteByCreatedAt(c, t);
      }
    }

    /** A run of operations on a new object comes to where Run comes. */
    method ExecuteAll(ops: seq<Operation>)
      requires Valid() && Entries() == map[] && Run(ops).Some?
      modifies this, nodeMapByCreatedAt.Values
      ensures Valid() && Run(ops) == Some(Entries())
    {
      var i := 0;
      while i < |ops|
        invariant i <= |ops| && Valid() && Run(ops[..i]) == Some(Entries())
        invariant forall n :: n in nodeMapByCreatedAt.Values && n !in old(nodeMapByCreatedAt).Values ==> fresh(n)
      {
        RunNext(ops, i);
        Execute(ops[i]);
        i := i + 1;
      }
      assert ops[..i] == ops;
    }
  }

  lemma {:induction false} RunNext(ops: seq<Operation>, i: nat)
    requires Run(ops).Some? && i < |ops|
    ensures Run(ops[..i]).Some? && Run(ops[..i + 1]) == Apply(Run(ops[..i]).value, ops[i])
    ensures Run(ops[..i + 1]).Some?
  {
    var front := ops[..|ops| - 1];
    if i == |front| {
      assert ops[..i + 1] == ops && ops[..i] == front;
    } else {
      RunNext(front, i);
      assert front[..i] == ops[..i] && front[..i + 1] == ops[..i + 1];
    }
  }
}
