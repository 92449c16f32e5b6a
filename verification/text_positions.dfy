/** Which positions of a text can be edited at, said of its blocks alone
    (pkg/document/json/rga_tree_split.go). */
module TextPositions {
  import opened Time
  import opened Wrappers
  import opened TextBlocks
  import opened TextTheorems

  ghost predicate SameInsertion(bs: seq<Block>, id: NodeID, i: int)
    requires 0 <= i < |bs|
  {
    bs[i].id.createdAt == id.createdAt
  }

  /** A block of the insertion of the id that starts at or before it. */
  ghost predicate AtOrBefore(bs: seq<Block>, id: NodeID, i: int) {
    0 <= i < |bs| && SameInsertion(bs, id, i) && bs[i].id.offset <= id.offset
  }

  ghost predicate Started(bs: seq<Block>, id: NodeID) {
    exists i :: AtOrBefore(bs, id, i)
  }

  ghost predicate NothingBefore(bs: seq<Block>, id: NodeID) {
    forall j :: 0 <= j < |bs| && SameInsertion(bs, id, j) ==> bs[j].id.offset >= id.offset
  }

  /** The id lies in the block or at its end or, when no block of the insertion starts
      before it, at its start. */
  ghost predicate Reaches(bs: seq<Block>, id: NodeID, i: int) {
    && 0 <= i < |bs| && SameInsertion(bs, id, i)
    && var start := bs[i].id.offset;
    || start < id.offset <= start + |bs[i].value|
    || (start == id.offset && NothingBefore(bs, id))
  }

  ghost predicate InText(bs: seq<Block>, pos: NodePos) {
    exists i :: Reaches(bs, AbsoluteID(pos), i)
  }

  /** A floor is found if and only if a block of the insertion starts at or before the id. */
  lemma FloorIff(bs: seq<Block>, id: NodeID)
    ensures var f := FloorIndex(bs, id, |bs|);
            && (f >= 0 && SameInsertion(bs, id, f) <==> Started(bs, id))
            && (forall i :: AtOrBefore(bs, id, i) ==> AtOrBefore(bs, id, f) && bs[i].id.offset <= bs[f].id.offset)
  {
    var f := FloorIndex(bs, id, |bs|);
    FloorIndexIsFloor(bs, id, |bs|);
    if f >= 0 && SameInsertion(bs, id, f) {
      SameTicketLess(id, bs[f].id);
      assert AtOrBefore(bs, id, f);
    }
    forall i | AtOrBefore(bs, id, i)
      ensures f >= 0 && SameInsertion(bs, id, f) && bs[i].id.offset <= bs[f].id.offset
    {
      SameTicketLess(id, bs[i].id);
      SameTicketLess(bs[f].id, bs[i].id);
      LessIsTotalOrder(bs[i].id, bs[f].id, id);
      BetweenSameTicket(bs[i].id, bs[f].id, id);
    }
  }

  lemma HolderIff(bs: seq<Block>, id: NodeID)
    ensures Holder(bs, id) >= 0 <==> Started(bs, id)
  {
    FloorIff(bs, id);
  }

  /** A block that reaches the id is the one the id is held by. */
  lemma ReachedAtFloor(bs: seq<Block>, id: NodeID, f: nat, i: nat)
    requires WellFormed(bs) && AtOrBefore(bs, id, f) && bs[f].id.offset < id.offset && Reaches(bs, id, i)
    requires bs[i].id.offset <= bs[f].id.offset
    ensures i == f
  {
    NothingInside(bs, i, f);
    NothingInside(bs, f, i);
    IdsDiffer(bs, i, f);
  }

  /** Where a block starts at the id, the next one on the left of its insertion does not. */
  lemma PrevBefore(bs: seq<Block>, f: nat, p: nat)
    requires WellFormed(bs) && f < |bs| && p == PrevSame(bs, f, f)
    ensures p < f && bs[p].id.createdAt == bs[f].id.createdAt && |bs[p].value| > 0
    ensures bs[p].id.offset + |bs[p].value| <= bs[f].id.offset
    ensures forall j :: p < j < f ==> bs[j].id.createdAt != bs[f].id.createdAt
  {
    PrevSameIsNearest(bs, f, f);
    NothingInside(bs, p, f);
    assert Proper(bs, f) && (p > 0 ==> Proper(bs, p));
  }

  lemma ReachedFromLeft(bs: seq<Block>, id: NodeID, f: nat, p: nat, i: nat)
    requires WellFormed(bs) && f < |bs| && bs[f].id == id && p == PrevSame(bs, f, f) && Reaches(bs, id, i)
    ensures i == p
  {
    PrevBefore(bs, f, p);
    assert SameInsertion(bs, id, p) && !NothingBefore(bs, id);
    NothingInside(bs, f, i);
    if i < p {
      NothingInside(bs, i, p);
    }
  }

  /** Where no block of the insertion starts before the id, only one starts at it. */
  lemma ReachedAtStart(bs: seq<Block>, id: NodeID, f: nat, i: nat)
    requires WellFormed(bs) && f < |bs| && bs[f].id == id && NothingBefore(bs, id) && Reaches(bs, id, i)
    ensures i == f
  {
    assert SameInsertion(bs, id, i);
    IdsDiffer(bs, i, f);
  }

  lemma NoneBefore(bs: seq<Block>, f: nat)
    requires WellFormed(bs) && f < |bs| && (PrevSame(bs, f, f) < 0 || bs[f].id.offset == 0)
    ensures NothingBefore(bs, bs[f].id)
  {
    PrevSameIsNearest(bs, f, f);
    var id := bs[f].id;
    forall j | 0 <= j < |bs| && SameInsertion(bs, id, j) ensures bs[j].id.offset >= id.offset {
      NothingInside(bs, f, j);
    }
  }

  /** A position resolves if and only if it is in the text, and then to the block that reaches it. */
  lemma ResolveIff(bs: seq<Block>, pos: NodePos)
    requires WellFormed(bs)
    ensures Resolve(bs, pos).Some? <==> InText(bs, pos)
    ensures Resolve(bs, pos).Some? ==> Reaches(bs, AbsoluteID(pos), Resolve(bs, pos).value.index)
    ensures forall i :: Reaches(bs, AbsoluteID(pos), i) ==>
              Resolve(bs, pos) == Some(Place(i, AbsoluteID(pos).offset - bs[i].id.offset))
  {
    var id := AbsoluteID(pos);
    var f := FloorIndex(bs, id, |bs|);
    FloorIff(bs, id);
    if f < 0 || !SameInsertion(bs, id, f) {
      forall i ensures !Reaches(bs, id, i) {
        assert !AtOrBefore(bs, id, i);
      }
    } else if bs[f].id.offset < id.offset {
      assert AtOrBefore(bs, id, f);
      forall i | Reaches(bs, id, i) ensures i == f {
        assert AtOrBefore(bs, id, i);
        ReachedAtFloor(bs, id, f, i);
      }
      assert Resolve(bs, pos).Some? ==> Reaches(bs, id, f);
    } else if id.offset == 0 || PrevSame(bs, f, f) < 0 {
      NoneBefore(bs, f);
      assert Reaches(bs, id, f);
      forall i | Reaches(bs, id, i) ensures i == f {
        assert NothingBefore(bs, id);
        ReachedAtStart(bs, id, f, i);
      }
    } else {
      var p: nat := PrevSame(bs, f, f);
      PrevBefore(bs, f, p);
      forall i | Reaches(bs, id, i) ensures i == p {
        ReachedFromLeft(bs, id, f, p, i);
      }
      assert Resolve(bs, pos).Some? ==> Reaches(bs, id, p);
    }
  }

  lemma SplitNothingBefore(bs: seq<Block>, i: nat, k: nat, id: NodeID)
    requires i < |bs| && 0 < k < |bs[i].value|
    ensures NothingBefore(SplitBlock(bs, i, k), id) <==> NothingBefore(bs, id)
  {
    var r := SplitBlock(bs, i, k);
    if NothingBefore(bs, id) {
      forall j | 0 <= j < |r| && SameInsertion(r, id, j) ensures r[j].id.offset >= id.offset {
        assert SameInsertion(bs, id, if j <= i then j else j - 1);
      }
    }
    if NothingBefore(r, id) {
      forall j | 0 <= j < |bs| && SameInsertion(bs, id, j) ensures bs[j].id.offset >= id.offset {
        assert SameInsertion(r, id, if j <= i then j else j + 1);
      }
    }
  }

  /** The part of a split block that reaches an id, or the block that did. */
  lemma SplitReaches(bs: seq<Block>, i: nat, k: nat, id: NodeID, j: nat)
    requires i < |bs| && 0 < k < |bs[i].value| && Reaches(bs, id, j)
    ensures Reaches(SplitBlock(bs, i, k), id,
                    if j < i || (j == i && id.offset <= bs[i].id.offset + k) then j else j + 1)
  {
    SplitNothingBefore(bs, i, k, id);
  }

  /** Splitting a block makes no position of the text fail, and no other one good. */
  lemma SplitInText(bs: seq<Block>, i: nat, k: nat, pos: NodePos)
    requires i < |bs| && k <= |bs[i].value|
    ensures InText(SplitAt(bs, i, k), pos) <==> InText(bs, pos)
  {
    if 0 < k < |bs[i].value| {
      var r, id := SplitBlock(bs, i, k), AbsoluteID(pos);
      SplitNothingBefore(bs, i, k, id);
      if j :| Reaches(bs, id, j) {
        SplitReaches(bs, i, k, id, j);
      }
      if j :| Reaches(r, id, j) {
        assert Reaches(bs, id, if j <= i then j else j - 1);
      }
    }
  }

  lemma FindIff(bs: seq<Block>, pos: NodePos, t: Ticket)
    requires WellFormed(bs)
    ensures FindWithSplit(bs, pos, t).Some? <==> InText(bs, pos)
  {
    ResolveIff(bs, pos);
  }

  /** An edit succeeds if and only if both its positions are in the text it meets. */
  lemma EditIff(bs: seq<Block>, from: NodePos, to: NodePos, seen: Option<ByActor>, content: seq<CodeUnit>, t: Ticket)
    requires WellFormed(bs)
    ensures Edit(bs, from, to, seen, content, t).Some? <==> InText(bs, from) && InText(bs, to)
  {
    FindIff(bs, to, t);
    if FindWithSplit(bs, to, t).Some? {
      var p := Resolve(bs, to).value;
      FindWithSplitWellFormed(bs, to, t);
      SplitInText(bs, p.index, p.offset, from);
      FindIff(FindWithSplit(bs, to, t).value.blocks, from, t);
    }
  }

  /** The start of a block that survives its left neighbour fails, as a block further left
      is taken for the one that ends there. */
  lemma GapFails(t: Ticket, u: CodeUnit, v: CodeUnit)
    requires t != InitialTicket
    ensures var a, c := Block(NodeID(t, 0), [u], None), Block(NodeID(t, 2), [v], None);
            var bs := [Head, a, c];
            WellFormed(bs) && Holder(bs, c.id) == 1 && Resolve(bs, NodePos(c.id, 0)) == None
  {
    var a, c := Block(NodeID(t, 0), [u], None), Block(NodeID(t, 2), [v], None);
    var bs := [Head, a, c];
    assert WellFormed(bs);
    LessIsTotalOrder(c.id, c.id, c.id);
    forall j | 0 <= j < |bs| && !Less(c.id, bs[j].id) ensures !Less(c.id, bs[j].id) {
    }
    assert FloorAt(bs, c.id, 2);
    FloorAtUnique(bs, c.id, 2);
    PrevBefore(bs, 2, 1);
  }

  // ----- where a local edit leaves the caret -----

  lemma CaretInserted(bs: seq<Block>, lo: nat, hi: nat, content: seq<CodeUnit>, t: Ticket, from: nat)
    requires lo <= hi <= |bs| && content != [] && |Visible(bs[..lo])| == from
    ensures var r := InsertBlock(DeleteRange(bs, lo, hi, t, None), lo, Block(NodeID(t, 0), content, None));
            && lo < |r| && NodePos(NodeID(t, 0), |content|) == PosIn(r, lo, |content|)
            && IsPos(r, from + |content|, lo, |content|)
  {
    var deleted, x := DeleteRange(bs, lo, hi, t, None), Block(NodeID(t, 0), content, None);
    var r := InsertBlock(deleted, lo, x);
    DeleteVisible(bs, lo, hi, t);
    assert r[..lo] == deleted[..lo] && r[lo] == x;
  }

  lemma CaretDeleted(bs: seq<Block>, lo: nat, hi: nat, t: Ticket, from: nat)
    requires lo <= hi <= |bs| && |Visible(bs[..lo])| == from
    ensures var r := DeleteRange(bs, lo, hi, t, None);
            |Visible(r[..hi])| == from && (hi < |bs| ==> r[hi].id == bs[hi].id)
  {
    var r := DeleteRange(bs, lo, hi, t, None);
    DeleteVisible(bs, lo, hi, t);
    DeleteRangeAll(bs, lo, hi, t, None);
    VisibleParts(r, lo);
    VisibleParts(r, hi);
    assert r[hi..] == bs[hi..];
  }

  ghost predicate CaretAt(r: Edited, content: seq<CodeUnit>, from: nat, last: NodePos, c: nat) {
    if content != [] then
      c < |r.blocks| && r.caret == PosIn(r.blocks, c, |content|) && IsPos(r.blocks, from + |content|, c, |content|)
    else
      && c <= |r.blocks| && |Visible(r.blocks[..c])| == from
      && r.caret == if c < |r.blocks| then PosIn(r.blocks, c, 0) else last
  }

  lemma BetweenLeaves(bs2: seq<Block>, i: nat, bs1: seq<Block>, j: nat, hi: nat, content: seq<CodeUnit>, t: Ticket)
    requires i < |bs2| && j < |bs1| && i + 1 <= hi <= |bs2| && StopIndex(bs2, i + 1, RightOf(Found(bs1, j))) == hi
    ensures var r := EditBetween(Found(bs2, i), Found(bs1, j), None, content, t);
            var deleted := DeleteRange(bs2, i + 1, hi, t, None);
            if content != [] then
              && r.blocks == InsertBlock(deleted, i + 1, Block(NodeID(t, 0), content, None))
              && r.caret == NodePos(NodeID(t, 0), |content|)
            else
              && r.blocks == deleted
              && r.caret == NodePos(if RightOf(Found(bs1, j)).None? then bs1[j].id else RightOf(Found(bs1, j)).value, 0)
  {
  }

  lemma InsertedCaret(r: Edited, bs: seq<Block>, lo: nat, hi: nat, content: seq<CodeUnit>, t: Ticket, from: nat,
                      last: NodePos)
    requires lo <= hi <= |bs| && content != [] && |Visible(bs[..lo])| == from
    requires r.blocks == InsertBlock(DeleteRange(bs, lo, hi, t, None), lo, Block(NodeID(t, 0), content, None))
    requires r.caret == NodePos(NodeID(t, 0), |content|)
    ensures CaretAt(r, content, from, last, lo)
  {
    CaretInserted(bs, lo, hi, content, t, from);
  }

  lemma DeletedCaret(r: Edited, bs: seq<Block>, lo: nat, hi: nat, t: Ticket, from: nat, last: NodePos)
    requires lo <= hi <= |bs| && |Visible(bs[..lo])| == from && r.blocks == DeleteRange(bs, lo, hi, t, None)
    requires r.caret == if hi < |bs| then NodePos(bs[hi].id, 0) else last
    ensures CaretAt(r, [], from, last, hi)
  {
    CaretDeleted(bs, lo, hi, t, from);
  }

  lemma BetweenCaret(bs2: seq<Block>, i: nat, bs1: seq<Block>, j: nat, hi: nat, content: seq<CodeUnit>, t: Ticket,
                     from: nat)
    requires i < |bs2| && j < |bs1| && hi <= |bs2|
    requires StopIndex(bs2, i + 1, RightOf(Found(bs1, j))) == hi && |Visible(bs2[..i + 1])| == from
    requires RightOf(Found(bs1, j)) == if hi < |bs2| then Some(bs2[hi].id) else None
    ensures CaretAt(EditBetween(Found(bs2, i), Found(bs1, j), None, content, t), content, from,
                    NodePos(bs1[j].id, 0), if content != [] then i + 1 else hi)
  {
    var r, last := EditBetween(Found(bs2, i), Found(bs1, j), None, content, t), NodePos(bs1[j].id, 0);
    BetweenLeaves(bs2, i, bs1, j, hi, content, t);
    if content != [] {
      InsertedCaret(r, bs2, i + 1, hi, content, t, from, last);
    } else {
      DeletedCaret(r, bs2, i + 1, hi, t, from, last);
    }
  }

  lemma RightThere(bs1: seq<Block>, j: nat, bs2: seq<Block>, hi: nat)
    requires j < |bs1| && hi <= |bs2| && bs2[hi..] == bs1[j + 1..]
    ensures RightOf(Found(bs1, j)) == if hi < |bs2| then Some(bs2[hi].id) else None
  {
    assert |bs2[hi..]| == |bs1[j + 1..]|;
    if hi < |bs2| {
      assert bs2[hi] == bs2[hi..][0] == bs1[j + 1..][0] == bs1[j + 1];
    }
  }

  /** A local edit taken apart. */
  lemma LocalCuts(bs: seq<Block>, from: nat, i: nat, k: nat, to: nat, j: nat, l: nat, t: Ticket)
      returns (bs1: seq<Block>, bs2: seq<Block>, hi: nat)
    requires WellFormed(bs) && Newest(bs, t) && from <= to
    requires IsPos(bs, from, i, k) && IsPos(bs, to, j, l)
    ensures i < |bs2| && j < |bs1| && hi <= |bs2| && bs1[j].id == bs[j].id
    ensures FindWithSplit(bs, PosIn(bs, j, l), t) == Some(Found(bs1, j))
    ensures FindWithSplit(bs1, PosIn(bs, i, k), t) == Some(Found(bs2, i))
    ensures StopIndex(bs2, i + 1, RightOf(Found(bs1, j))) == hi && |Visible(bs2[..i + 1])| == from
    ensures RightOf(Found(bs1, j)) == if hi < |bs2| then Some(bs2[hi].id) else None
  {
    SplitThere(bs, to, j, l, t);
    bs1 := LocalCutEnd(bs, from, i, k, to, j, l, t);
    bs2, hi := LocalCutStart(bs1, from, i, k, j, t);
    RightThere(bs1, j, bs2, hi);
  }

  lemma SplitThere(bs: seq<Block>, to: nat, j: nat, l: nat, t: Ticket)
    requires WellFormed(bs) && IsPos(bs, to, j, l) && Newest(bs, t)
    ensures FindWithSplit(bs, PosIn(bs, j, l), t).Some?
    ensures var r := FindWithSplit(bs, PosIn(bs, j, l), t).value; j < |r.blocks| && r.blocks[j].id == bs[j].id
  {
    LocalFind(bs, to, j, l, t);
  }

  lemma StepsCaret(bs: seq<Block>, p: NodePos, q: NodePos, left: Found, right: Found, content: seq<CodeUnit>, t: Ticket,
                   from: nat, last: NodePos, c: nat)
    requires left.left < |left.blocks| && right.left < |right.blocks|
    requires FindWithSplit(bs, q, t) == Some(right) && FindWithSplit(right.blocks, p, t) == Some(left)
    requires CaretAt(EditBetween(left, right, None, content, t), content, from, last, c)
    ensures Edit(bs, p, q, None, content, t).Some?
    ensures CaretAt(Edit(bs, p, q, None, content, t).value, content, from, last, c)
  {
    EditSteps(bs, p, q, None, content, t, right, left);
  }

  /** After a local edit with content the caret is behind the content, where the visible index says.
      After one without, it is at the start of the block right of what was deleted; if there is none
      it falls back to the start of the block the range ended in. */
  lemma LocalCaret(bs: seq<Block>, from: nat, i: nat, k: nat, to: nat, j: nat, l: nat,
                   content: seq<CodeUnit>, t: Ticket) returns (c: nat)
    requires WellFormed(bs) && Newest(bs, t) && from <= to
    requires IsPos(bs, from, i, k) && IsPos(bs, to, j, l)
    ensures Edit(bs, PosIn(bs, i, k), PosIn(bs, j, l), None, content, t).Some?
    ensures CaretAt(Edit(bs, PosIn(bs, i, k), PosIn(bs, j, l), None, content, t).value, content, from,
                    PosIn(bs, j, 0), c)
  {
    var bs1, bs2, hi := LocalCuts(bs, from, i, k, to, j, l, t);
    c := if content != [] then i + 1 else hi;
    BetweenCaret(bs2, i, bs1, j, hi, content, t, from);
    StepsCaret(bs, PosIn(bs, i, k), PosIn(bs, j, l), Found(bs2, i), Found(bs1, j), content, t, from,
               NodePos(bs1[j].id, 0), c);
  }
}
