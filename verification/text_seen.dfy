/** What a deletion may have seen, said of the map it comes with: nothing by an actor the map does
    not have, and nothing later than the map says (pkg/document/json/rga_tree_split.go). */
module TextSeen {
  import opened Time
  import opened Wrappers
  import opened TextBlocks
  import opened TextTheorems

  /** A local deletion has seen everything; another one what its map reaches. */
  ghost predicate Seen(seen: Option<ByActor>, c: Ticket) {
    seen.Some? ==> c.actorID in seen.value && !After(c, seen.value[c.actorID])
  }

  lemma SeenIff(seen: Option<ByActor>, c: Ticket)
    requires c != InitialTicket
    ensures Seen(seen, c) <==> !After(c, Latest(seen, c.actorID))
  {
    TicketBounds(c);
    CompareIsTotalOrder(c, InitialTicket, c);
  }

  /** A block is removed if and only if the deletion has seen it and is later than an earlier one. */
  lemma RemovedIff(b: Block, t: Ticket, seen: Option<ByActor>)
    requires b.id.createdAt != InitialTicket
    ensures RemoveBlock(b, t, seen)
            == if Seen(seen, b.id.createdAt) && (b.removedAt.None? || After(t, b.removedAt.value))
               then b.(removedAt := Some(t)) else b
  {
    SeenIff(seen, b.id.createdAt);
  }

  // ----- what any edit removes -----

  ghost predicate WasRemoved(before: seq<Block>, b: Block, t: Ticket) {
    exists a :: a in before && a.id == b.id && a.removedAt == Some(t)
  }

  /** What has become removed at that time was seen. */
  ghost predicate OnlySeen(before: seq<Block>, after: seq<Block>, seen: Option<ByActor>, t: Ticket) {
    forall b :: b in after && b.removedAt == Some(t) ==> Seen(seen, b.id.createdAt) || WasRemoved(before, b, t)
  }

  lemma SplitRemoved(before: seq<Block>, bs: seq<Block>, i: nat, k: nat, t: Ticket)
    requires i < |bs| && k <= |bs[i].value|
    requires forall b :: b in bs && b.removedAt == Some(t) ==> WasRemoved(before, b, t)
    ensures forall b :: b in SplitAt(bs, i, k) && b.removedAt == Some(t) ==> WasRemoved(before, b, t)
  {
    var r := SplitAt(bs, i, k);
    forall b | b in r && b.removedAt == Some(t) ensures WasRemoved(before, b, t) {
      var j :| 0 <= j < |r| && r[j] == b;
      if 0 < k < |bs[i].value| {
        var a := bs[if j <= i then j else j - 1];
        assert a in bs && (j != i + 1 ==> a.id == b.id && a.removedAt == b.removedAt);
      }
    }
  }

  /** The blocks that an edit buries a range of, with what it has not removed itself. */
  lemma EndsRemoved(bs: seq<Block>, from: NodePos, to: NodePos, t: Ticket, right: Found, left: Found, u: Ticket)
    requires WellFormed(bs) && FindWithSplit(bs, to, t) == Some(right)
    requires FindWithSplit(right.blocks, from, t) == Some(left)
    ensures WellFormed(left.blocks)
    ensures forall b :: b in left.blocks && b.removedAt == Some(u) ==> WasRemoved(bs, b, u)
  {
    FindWithSplitWellFormed(bs, to, t);
    FindWithSplitWellFormed(right.blocks, from, t);
    var p, q := Resolve(bs, to).value, Resolve(right.blocks, from).value;
    SplitRemoved(bs, bs, p.index, p.offset, u);
    SplitRemoved(bs, right.blocks, q.index, q.offset, u);
  }

  lemma RangeOnlySeen(before: seq<Block>, bs: seq<Block>, lo: nat, hi: nat, t: Ticket, seen: Option<ByActor>)
    requires WellFormed(bs) && 0 < lo <= hi <= |bs|
    requires forall b :: b in bs && b.removedAt == Some(t) ==> WasRemoved(before, b, t)
    ensures OnlySeen(before, DeleteRange(bs, lo, hi, t, seen), seen, t)
  {
    var r := DeleteRange(bs, lo, hi, t, seen);
    forall b | b in r && b.removedAt == Some(t) ensures Seen(seen, b.id.createdAt) || WasRemoved(before, b, t) {
      var i :| 0 <= i < |r| && r[i] == b;
      DeleteRangeAt(bs, lo, hi, t, seen, i);
      if lo <= i < hi {
        assert Proper(bs, i);
        RemovedIff(bs[i], t, seen);
      }
      assert bs[i] in bs;
    }
  }

  /** Whatever an edit removes was inserted by an actor its map knows, no later than the map says. */
  lemma EditOnlySeen(bs: seq<Block>, from: NodePos, to: NodePos, seen: Option<ByActor>, content: seq<CodeUnit>,
                     t: Ticket)
    requires WellFormed(bs) && Edit(bs, from, to, seen, content, t).Some?
    ensures OnlySeen(bs, Edit(bs, from, to, seen, content, t).value.blocks, seen, t)
  {
    var right, left := EditParts(bs, from, to, seen, content, t);
    EditSteps(bs, from, to, seen, content, t, right, left);
    EndsRemoved(bs, from, to, t, right, left, t);
    BetweenOnlySeen(bs, left, right, seen, content, t);
  }

  lemma BetweenOnlySeen(before: seq<Block>, left: Found, right: Found, seen: Option<ByActor>, content: seq<CodeUnit>,
                        t: Ticket)
    requires left.left < |left.blocks| && right.left < |right.blocks| && WellFormed(left.blocks)
    requires forall b :: b in left.blocks && b.removedAt == Some(t) ==> WasRemoved(before, b, t)
    ensures OnlySeen(before, EditBetween(left, right, seen, content, t).blocks, seen, t)
  {
    var lo, bs := left.left + 1, left.blocks;
    var hi := StopIndex(bs, lo, RightOf(right));
    RangeOnlySeen(before, bs, lo, hi, t, seen);
    InsertedLives(DeleteRange(bs, lo, hi, t, seen), lo, Block(NodeID(t, 0), content, None));
  }

  /** An insertion brings in no tombstone. */
  lemma InsertedLives(bs: seq<Block>, at: nat, x: Block)
    requires at <= |bs| && x.removedAt.None?
    ensures forall b :: b in InsertBlock(bs, at, x) && b.removedAt.Some? ==> b in bs
    ensures forall b :: b in bs ==> b in InsertBlock(bs, at, x)
  {
    var r := InsertBlock(bs, at, x);
    forall b | b in r && b.removedAt.Some? ensures b in bs {
      var i :| 0 <= i < |r| && r[i] == b;
      assert i != at && b == bs[if i < at then i else i - 1];
    }
    forall b | b in bs ensures b in r {
      var i :| 0 <= i < |bs| && bs[i] == b;
      assert r[if i < at then i else i + 1] == b;
    }
  }

  // ----- what an edit reports -----

  /** A block by the actor, created at the reported time, that is removed now. */
  ghost predicate RemovedOf(bs: seq<Block>, actor: ActorID, c: Ticket, t: Ticket) {
    exists b :: b in bs && b.id.createdAt == c && c.actorID == actor && b.removedAt == Some(t)
  }

  ghost predicate Reported(bs: seq<Block>, latest: ByActor, t: Ticket) {
    forall a :: a in latest ==> RemovedOf(bs, a, latest[a], t)
  }

  lemma {:induction false} LatestRemovedIs(bs: seq<Block>, lo: nat, hi: nat, t: Ticket, seen: Option<ByActor>,
                                           actor: ActorID) returns (i: nat)
    requires lo <= hi <= |bs| && actor in LatestRemoved(bs, lo, hi, t, seen)
    ensures lo <= i < hi && CanRemove(bs[i], t, seen) && bs[i].id.createdAt.actorID == actor
    ensures bs[i].id.createdAt == LatestRemoved(bs, lo, hi, t, seen)[actor]
    decreases hi
  {
    var m := LatestRemoved(bs, lo, hi - 1, t, seen);
    var c := bs[hi - 1].id.createdAt;
    if CanRemove(bs[hi - 1], t, seen) && c.actorID == actor && (actor !in m || After(c, m[actor])) {
      i := hi - 1;
    } else {
      i := LatestRemovedIs(bs, lo, hi - 1, t, seen, actor);
    }
  }

  lemma RangeReported(bs: seq<Block>, lo: nat, hi: nat, t: Ticket, seen: Option<ByActor>)
    requires lo <= hi <= |bs|
    ensures Reported(DeleteRange(bs, lo, hi, t, seen), LatestRemoved(bs, lo, hi, t, seen), t)
  {
    var m, r := LatestRemoved(bs, lo, hi, t, seen), DeleteRange(bs, lo, hi, t, seen);
    forall a | a in m ensures RemovedOf(r, a, m[a], t) {
      var i := LatestRemovedIs(bs, lo, hi, t, seen, a);
      DeleteRangeAt(bs, lo, hi, t, seen, i);
      assert r[i] in r;
    }
  }

  /** Each ticket that an edit reports is that of a block it removed, by that actor. */
  lemma EditReports(bs: seq<Block>, from: NodePos, to: NodePos, seen: Option<ByActor>, content: seq<CodeUnit>,
                    t: Ticket)
    requires Edit(bs, from, to, seen, content, t).Some?
    ensures var r := Edit(bs, from, to, seen, content, t).value; Reported(r.blocks, r.latest, t)
  {
    var right, left := EditParts(bs, from, to, seen, content, t);
    EditSteps(bs, from, to, seen, content, t, right, left);
    var lo, blocks := left.left + 1, left.blocks;
    var hi := StopIndex(blocks, lo, RightOf(right));
    RangeReported(blocks, lo, hi, t, seen);
    InsertedLives(DeleteRange(blocks, lo, hi, t, seen), lo, Block(NodeID(t, 0), content, None));
  }

  /** Both, for an edit of a text. */
  lemma EditSeen(bs: seq<Block>, from: NodePos, to: NodePos, seen: Option<ByActor>, content: seq<CodeUnit>, t: Ticket)
    requires WellFormed(bs)
    ensures var r := Edit(bs, from, to, seen, content, t);
            r.Some? ==> OnlySeen(bs, r.value.blocks, seen, t) && Reported(r.value.blocks, r.value.latest, t)
  {
    if Edit(bs, from, to, seen, content, t).Some? {
      EditOnlySeen(bs, from, to, seen, content, t);
      EditReports(bs, from, to, seen, content, t);
    }
  }

  // ----- what the operations of local edits have seen -----

  /** Cutting brings in no new ticket. */
  lemma CutTickets(bs: seq<Block>, pos: NodePos, t: Ticket, c: Ticket)
    requires FindWithSplit(bs, pos, t).Some?
    requires forall i :: 0 <= i < |bs| ==> bs[i].id.createdAt.actorID == c.actorID ==> After(c, bs[i].id.createdAt)
    ensures var r := FindWithSplit(bs, pos, t).value.blocks;
            forall i :: 0 <= i < |r| ==> r[i].id.createdAt.actorID == c.actorID ==> After(c, r[i].id.createdAt)
  {
    var p, r := Resolve(bs, pos).value, FindWithSplit(bs, pos, t).value.blocks;
    if 0 < p.offset < |bs[p.index].value| {
      assert forall i :: 0 <= i < |r| ==>
                r[i].id.createdAt == bs[if i <= p.index then i else i - 1].id.createdAt;
    }
  }

  /** What a local edit reports has not seen an insertion that is later than all there were of
      that actor: as the tickets of an actor grow, one that was not there. */
  lemma LocalUnseen(bs: seq<Block>, from: NodePos, to: NodePos, content: seq<CodeUnit>, t: Ticket, c: Ticket)
    requires Edit(bs, from, to, None, content, t).Some?
    requires forall i :: 0 <= i < |bs| ==> bs[i].id.createdAt.actorID == c.actorID ==> After(c, bs[i].id.createdAt)
    ensures !Seen(Some(Edit(bs, from, to, None, content, t).value.latest), c)
  {
    var right, left := EditParts(bs, from, to, None, content, t);
    EditSteps(bs, from, to, None, content, t, right, left);
    CutTickets(bs, to, t, c);
    CutTickets(right.blocks, from, t, c);
    var lo, blocks := left.left + 1, left.blocks;
    var hi := StopIndex(blocks, lo, RightOf(right));
    if c.actorID in LatestRemoved(blocks, lo, hi, t, None) {
      var i := LatestRemovedIs(blocks, lo, hi, t, None, c.actorID);
    }
  }

  /** Nor has it seen anything later than itself. */
  lemma LocalCausal(bs: seq<Block>, from: NodePos, to: NodePos, content: seq<CodeUnit>, t: Ticket, c: Ticket)
    requires Newest(bs, t) && Edit(bs, from, to, None, content, t).Some? && (After(c, t) || c == t)
    ensures !Seen(Some(Edit(bs, from, to, None, content, t).value.latest), c)
  {
    forall i | 0 <= i < |bs| ensures After(c, bs[i].id.createdAt) {
      CompareIsTotalOrder(c, t, bs[i].id.createdAt);
    }
    LocalUnseen(bs, from, to, content, t, c);
  }
}
