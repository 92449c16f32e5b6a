/** The text CRDT as a plain sequence of blocks (pkg/document/json/rga_tree_split.go):
    what resolving a position, splitting, deleting and editing do to it. */
module TextBlocks {
  import opened Time
  import opened Wrappers

  /** Text is measured and cut in UTF-16 code units. */
  type CodeUnit = x: nat | x < 0x1_0000

  datatype Block = Block(id: NodeID, value: seq<CodeUnit>, removedAt: Option<Ticket>) {
    function Live(): seq<CodeUnit> {
      if removedAt.Some? then [] else value
    }

    /** A tombstone has no length in the index. */
    function Len(): nat {
      |Live()|
    }
  }

  datatype NodePos = NodePos(id: NodeID, relativeOffset: nat)

  function AbsoluteID(pos: NodePos): NodeID {
    pos.id.Split(pos.relativeOffset)
  }

  /** The text the user sees. */
  function Visible(bs: seq<Block>): seq<CodeUnit> {
    if bs == [] then [] else bs[0].Live() + Visible(bs[1..])
  }

  const Head := Block(NodeID(InitialTicket, 0), [], None)

  ghost predicate Clear(bs: seq<Block>, i: int, j: int)
    requires 0 <= i < j < |bs|
  {
    bs[i].id.createdAt == bs[j].id.createdAt ==> bs[i].id.offset + |bs[i].value| <= bs[j].id.offset
  }

  /** For each creation ticket the blocks cover disjoint, increasing offset ranges. */
  ghost predicate Disjoint(bs: seq<Block>) {
    forall i, j :: 0 <= i < j < |bs| ==> Clear(bs, i, j)
  }

  ghost predicate Proper(bs: seq<Block>, i: int)
    requires 0 <= i < |bs|
  {
    |bs[i].value| > 0 && bs[i].id.createdAt != InitialTicket
  }

  ghost predicate WellFormed(bs: seq<Block>) {
    && |bs| > 0 && bs[0] == Head && Disjoint(bs)
    && forall i :: 0 < i < |bs| ==> Proper(bs, i)
  }

  lemma IdsDiffer(bs: seq<Block>, i: nat, j: nat)
    requires WellFormed(bs) && i < |bs| && j < |bs|
    ensures bs[i].id == bs[j].id ==> i == j
  {
    if i < j {
      assert Clear(bs, i, j) && Proper(bs, j) && (i > 0 ==> Proper(bs, i));
    } else if j < i {
      assert Clear(bs, j, i) && Proper(bs, i) && (j > 0 ==> Proper(bs, j));
    }
  }

  // ----- finding the block of a position -----

  ghost predicate FloorAt(bs: seq<Block>, id: NodeID, i: int) {
    && 0 <= i < |bs| && !Less(id, bs[i].id)
    && forall j :: 0 <= j < |bs| && !Less(id, bs[j].id) ==> !Less(bs[i].id, bs[j].id)
  }

  /** The block with the greatest id not above the given one, among the first `n`. */
  function FloorIndex(bs: seq<Block>, id: NodeID, n: nat): (i: int)
    requires n <= |bs|
    ensures -1 <= i < n
  {
    if n == 0 then -1
    else
      var b := FloorIndex(bs, id, n - 1);
      if Less(id, bs[n - 1].id) then b
      else if b < 0 || Less(bs[b].id, bs[n - 1].id) then n - 1
      else b
  }

  /** The nearest earlier block of the same insertion, -1 if there is none: insPrev. */
  function PrevSame(bs: seq<Block>, i: nat, n: nat): (p: int)
    requires n <= i < |bs|
    ensures -1 <= p < n
  {
    if n == 0 then -1
    else if bs[n - 1].id.createdAt == bs[i].id.createdAt then n - 1
    else PrevSame(bs, i, n - 1)
  }

  lemma {:induction false} PrevSameIsNearest(bs: seq<Block>, i: nat, n: nat)
    requires n <= i < |bs|
    ensures var p := PrevSame(bs, i, n);
            && (p >= 0 ==> bs[p].id.createdAt == bs[i].id.createdAt)
            && forall j :: p < j < n ==> bs[j].id.createdAt != bs[i].id.createdAt
  {
    if n > 0 {
      PrevSameIsNearest(bs, i, n - 1);
    }
  }

  /** The block that holds an id, -1 if no block of that insertion is left at or before it. */
  function Holder(bs: seq<Block>, id: NodeID): (i: int)
    ensures -1 <= i < |bs|
  {
    var f := FloorIndex(bs, id, |bs|);
    if f < 0 || bs[f].id.createdAt != id.createdAt then -1
    else
      var prev := PrevSame(bs, f, f);
      if id.offset > 0 && bs[f].id.offset == id.offset && prev >= 0 then prev else f
  }

  datatype Place = Place(index: nat, offset: nat)

  /** The block a position is in and the offset there; None if no
      block of that insertion is left there, or the offset is past the end of the one found. */
  function Resolve(bs: seq<Block>, pos: NodePos): (p: Option<Place>)
    ensures p.Some? ==> p.value.index < |bs| && p.value.offset <= |bs[p.value.index].value|
  {
    var id := AbsoluteID(pos);
    var i := Holder(bs, id);
    if i < 0 then None
    else
      var offset := id.offset - bs[i].id.offset;
      if 0 <= offset <= |bs[i].value| then Some(Place(i, offset)) else None
  }

  // ----- splitting -----

  function SplitBlock(bs: seq<Block>, i: nat, k: nat): seq<Block>
    requires i < |bs| && k <= |bs[i].value|
  {
    var b := bs[i];
    bs[..i] + [b.(value := b.value[..k]), Block(b.id.Split(k), b.value[k..], None)] + bs[i + 1..]
  }

  /** splitNode: nothing is cut at either end of the block. */
  function SplitAt(bs: seq<Block>, i: nat, k: nat): seq<Block>
    requires i < |bs| && k <= |bs[i].value|
  {
    if 0 < k < |bs[i].value| then SplitBlock(bs, i, k) else bs
  }

  /** Blocks inserted later at the same place go first. */
  function SkipLater(bs: seq<Block>, i: nat, t: Ticket): (r: nat)
    requires i < |bs|
    ensures i <= r < |bs|
    decreases |bs| - i
  {
    if i + 1 < |bs| && After(bs[i + 1].id.createdAt, t) then SkipLater(bs, i + 1, t) else i
  }

  datatype Found = Found(blocks: seq<Block>, left: nat)

  function FindWithSplit(bs: seq<Block>, pos: NodePos, t: Ticket): (r: Option<Found>)
    ensures r.Some? ==> r.value.left < |r.value.blocks|
  {
    match Resolve(bs, pos)
    case None => None
    case Some(p) =>
      var bs1 := SplitAt(bs, p.index, p.offset);
      Some(Found(bs1, SkipLater(bs1, p.index, t)))
  }

  function RightOf(f: Found): Option<NodeID> {
    if f.left + 1 < |f.blocks| then Some(f.blocks[f.left + 1].id) else None
  }

  // ----- deleting -----

  type ByActor = map<ActorID, Ticket>

  /** The latest insertion of an actor that a deletion may see: every one for a local
      edit, none for an actor the given map does not know. */
  function Latest(seen: Option<ByActor>, actor: ActorID): Ticket {
    match seen
    case None => MaxTicket
    case Some(m) => if actor in m then m[actor] else InitialTicket
  }

  predicate CanRemove(b: Block, t: Ticket, seen: Option<ByActor>) {
    && !After(b.id.createdAt, Latest(seen, b.id.createdAt.actorID))
    && (b.removedAt.None? || After(t, b.removedAt.value))
  }

  function RemoveBlock(b: Block, t: Ticket, seen: Option<ByActor>): Block {
    if CanRemove(b, t, seen) then b.(removedAt := Some(t)) else b
  }

  function DeleteRange(bs: seq<Block>, lo: nat, hi: nat, t: Ticket, seen: Option<ByActor>): (r: seq<Block>)
    requires lo <= hi <= |bs|
    ensures |r| == |bs|
    decreases hi - lo
  {
    if lo == hi then bs else DeleteRange(bs, lo, hi - 1, t, seen)[hi - 1 := RemoveBlock(bs[hi - 1], t, seen)]
  }

  lemma {:induction false} DeleteRangeAt(bs: seq<Block>, lo: nat, hi: nat, t: Ticket, seen: Option<ByActor>, i: nat)
    requires lo <= hi <= |bs| && i < |bs|
    ensures DeleteRange(bs, lo, hi, t, seen)[i] == if lo <= i < hi then RemoveBlock(bs[i], t, seen) else bs[i]
    decreases hi - lo
  {
    if lo < hi {
      DeleteRangeAt(bs, lo, hi - 1, t, seen, i);
    }
  }

  lemma DeleteRangeAll(bs: seq<Block>, lo: nat, hi: nat, t: Ticket, seen: Option<ByActor>)
    requires lo <= hi <= |bs|
    ensures forall i :: 0 <= i < |bs| ==>
              DeleteRange(bs, lo, hi, t, seen)[i] == if lo <= i < hi then RemoveBlock(bs[i], t, seen) else bs[i]
  {
    forall i | 0 <= i < |bs|
      ensures DeleteRange(bs, lo, hi, t, seen)[i] == if lo <= i < hi then RemoveBlock(bs[i], t, seen) else bs[i]
    {
      DeleteRangeAt(bs, lo, hi, t, seen, i);
    }
  }

  /** For each actor the latest of its insertions that were removed in the range. */
  function LatestRemoved(bs: seq<Block>, lo: nat, hi: nat, t: Ticket, seen: Option<ByActor>): ByActor
    requires lo <= hi <= |bs|
    decreases hi - lo
  {
    if lo == hi then map[]
    else
      var m := LatestRemoved(bs, lo, hi - 1, t, seen);
      var c := bs[hi - 1].id.createdAt;
      if CanRemove(bs[hi - 1], t, seen) && (c.actorID !in m || After(c, m[c.actorID]))
      then m[c.actorID := c] else m
  }

  function RemovedIn(bs: seq<Block>, lo: nat, hi: nat, t: Ticket, seen: Option<ByActor>): set<NodeID>
    requires lo <= hi <= |bs|
    decreases hi - lo
  {
    if lo == hi then {}
    else RemovedIn(bs, lo, hi - 1, t, seen) + if CanRemove(bs[hi - 1], t, seen) then {bs[hi - 1].id} else {}
  }

  /** Where a walk to the right from `lo` meets the block `stop`, or the end. */
  function StopIndex(bs: seq<Block>, lo: nat, stop: Option<NodeID>): (hi: nat)
    requires lo <= |bs|
    ensures lo <= hi <= |bs|
    decreases |bs| - lo
  {
    if lo == |bs| || Some(bs[lo].id) == stop then lo else StopIndex(bs, lo + 1, stop)
  }

  /** The walk stops at the first block with that id. */
  lemma {:induction false} StopIndexStops(bs: seq<Block>, lo: nat, stop: Option<NodeID>)
    requires lo <= |bs|
    ensures var hi := StopIndex(bs, lo, stop);
            && (forall j :: lo <= j < hi ==> Some(bs[j].id) != stop)
            && (hi < |bs| ==> Some(bs[hi].id) == stop)
    decreases |bs| - lo
  {
    if lo < |bs| && Some(bs[lo].id) != stop {
      StopIndexStops(bs, lo + 1, stop);
    }
  }

  // ----- editing -----

  function InsertBlock(bs: seq<Block>, at: nat, b: Block): seq<Block>
    requires at <= |bs|
  {
    bs[..at] + [b] + bs[at..]
  }

  datatype Edited = Edited(blocks: seq<Block>, caret: NodePos, latest: ByActor, removed: set<NodeID>)

  function Edit(bs: seq<Block>, from: NodePos, to: NodePos, seen: Option<ByActor>,
                content: seq<CodeUnit>, t: Ticket): Option<Edited>
  {
    match FindWithSplit(bs, to, t)
    case None => None
    case Some(right) =>
      match FindWithSplit(right.blocks, from, t)
      case None => None
      case Some(left) => Some(EditBetween(left, right, seen, content, t))
  }

  function EditBetween(left: Found, right: Found, seen: Option<ByActor>, content: seq<CodeUnit>, t: Ticket): Edited
    requires left.left < |left.blocks| && right.left < |right.blocks|
  {
    var lo, bs := left.left + 1, left.blocks;
    var hi := StopIndex(bs, lo, RightOf(right));
    var deleted := DeleteRange(bs, lo, hi, t, seen);
    var caretID := if RightOf(right).None? then right.blocks[right.left].id else RightOf(right).value;
    Edited(
      if content == [] then deleted else InsertBlock(deleted, lo, Block(NodeID(t, 0), content, None)),
      if content == [] then NodePos(caretID, 0) else NodePos(NodeID(t, 0), |content|),
      LatestRemoved(bs, lo, hi, t, seen),
      RemovedIn(bs, lo, hi, t, seen))
  }

  // ----- purging -----

  /** Exactly the registered tombstones removed no later than the ticket go. */
  predicate Expired(b: Block, registered: set<NodeID>, ticket: Ticket) {
    b.id in registered && b.removedAt.Some? && Compare(ticket, b.removedAt.value) >= 0
  }

  function Cleanup(bs: seq<Block>, registered: set<NodeID>, ticket: Ticket): seq<Block> {
    if bs == [] then []
    else (if Expired(bs[0], registered, ticket) then [] else [bs[0]]) + Cleanup(bs[1..], registered, ticket)
  }
}
