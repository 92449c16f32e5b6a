/** What the text CRDT is for: a local edit is a string splice, an edit can be replayed
    from what it reports, and nothing of what was inserted is lost by splitting. */
module TextTheorems {
  import opened Time
  import opened Wrappers
  import opened TextBlocks

  // ----- visible text -----

  lemma {:induction false} VisibleAppend(a: seq<Block>, b: seq<Block>)
    ensures Visible(a + b) == Visible(a) + Visible(b)
  {
    if a == [] {
      assert a + b == b;
    } else {
      assert (a + b)[1..] == a[1..] + b;
      VisibleAppend(a[1..], b);
    }
  }

  lemma VisibleOne(b: Block)
    ensures Visible([b]) == b.Live()
  {
    assert [b][1..] == [];
  }

  lemma VisibleUpTo(bs: seq<Block>, i: nat)
    requires i < |bs|
    ensures Visible(bs[..i + 1]) == Visible(bs[..i]) + bs[i].Live()
  {
    assert bs[..i + 1] == bs[..i] + [bs[i]];
    VisibleAppend(bs[..i], [bs[i]]);
    VisibleOne(bs[i]);
  }

  lemma VisibleAround(bs: seq<Block>, i: nat)
    requires i < |bs|
    ensures Visible(bs) == Visible(bs[..i]) + bs[i].Live() + Visible(bs[i + 1..])
    ensures Visible(bs[..i + 1]) == Visible(bs[..i]) + bs[i].Live()
  {
    VisibleUpTo(bs, i);
    VisibleParts(bs, i + 1);
  }

  lemma VisibleParts(bs: seq<Block>, i: nat)
    requires i <= |bs|
    ensures Visible(bs) == Visible(bs[..i]) + Visible(bs[i..])
  {
    var a, b := bs[..i], bs[i..];
    assert bs == a + b;
    VisibleAppend(a, b);
  }

  lemma {:induction false} VisibleDead(bs: seq<Block>)
    requires forall i :: 0 <= i < |bs| ==> bs[i].removedAt.Some?
    ensures Visible(bs) == []
  {
    if bs != [] {
      VisibleDead(bs[1..]);
    }
  }

  // ----- well-formedness -----

  lemma SplitWellFormed(bs: seq<Block>, i: nat, k: nat)
    requires WellFormed(bs) && i < |bs| && k <= |bs[i].value|
    ensures WellFormed(SplitAt(bs, i, k))
  {
    if 0 < k < |bs[i].value| {
      var r := SplitBlock(bs, i, k);
      forall a, b | 0 <= a < b < |r| ensures Clear(r, a, b) {
        var a', b' := if a <= i then a else a - 1, if b <= i then b else b - 1;
        assert a' < b' ==> Clear(bs, a', b');
      }
      forall a | 0 < a < |r| ensures Proper(r, a) {
        var a' := if a <= i then a else a - 1;
        assert a' > 0 ==> Proper(bs, a');
        assert i == 0 ==> k == 0;
      }
    }
  }

  lemma BuryWellFormed(bs: seq<Block>, i: nat, removedAt: Option<Ticket>)
    requires WellFormed(bs) && 0 < i < |bs|
    ensures WellFormed(bs[i := bs[i].(removedAt := removedAt)])
  {
    var r := bs[i := bs[i].(removedAt := removedAt)];
    forall j, k | 0 <= j < k < |r| ensures Clear(r, j, k) {
      assert Clear(bs, j, k);
    }
    forall j | 0 < j < |r| ensures Proper(r, j) {
      assert Proper(bs, j);
    }
  }

  ghost predicate FreshTicket(bs: seq<Block>, t: Ticket) {
    forall i :: 0 <= i < |bs| ==> bs[i].id.createdAt != t
  }

  lemma InsertWellFormed(bs: seq<Block>, at: nat, b: Block)
    requires WellFormed(bs) && 0 < at <= |bs| && FreshTicket(bs, b.id.createdAt) && b.value != []
    ensures WellFormed(InsertBlock(bs, at, b))
  {
    var r := InsertBlock(bs, at, b);
    forall x, y | 0 <= x < y < |r| ensures Clear(r, x, y) {
      var x', y' := if x < at then x else x - 1, if y < at then y else y - 1;
      assert (x != at ==> r[x] == bs[x']) && (y != at ==> r[y] == bs[y']);
      assert x != at && y != at ==> Clear(bs, x', y');
    }
    forall y | 0 < y < |r| ensures Proper(r, y) {
      var y' := if y < at then y else y - 1;
      assert y != at ==> r[y] == bs[y'] && Proper(bs, y');
    }
  }

  lemma FindWithSplitWellFormed(bs: seq<Block>, pos: NodePos, t: Ticket)
    requires WellFormed(bs) && FindWithSplit(bs, pos, t).Some?
    ensures WellFormed(FindWithSplit(bs, pos, t).value.blocks)
    ensures FreshTicket(bs, t) ==> FreshTicket(FindWithSplit(bs, pos, t).value.blocks, t)
  {
    var p := Resolve(bs, pos).value;
    SplitWellFormed(bs, p.index, p.offset);
    if 0 < p.offset < |bs[p.index].value| {
      var r := SplitBlock(bs, p.index, p.offset);
      assert forall i :: 0 <= i < |r| ==> r[i].id.createdAt == bs[if i <= p.index then i else i - 1].id.createdAt;
    }
  }

  /** Splitting at the two ends brings in no new ticket. */
  lemma EndsFresh(bs: seq<Block>, from: NodePos, to: NodePos, t: Ticket)
    requires WellFormed(bs) && FreshTicket(bs, t) && FindWithSplit(bs, to, t).Some?
    requires FindWithSplit(FindWithSplit(bs, to, t).value.blocks, from, t).Some?
    ensures FreshTicket(FindWithSplit(FindWithSplit(bs, to, t).value.blocks, from, t).value.blocks, t)
  {
    FindWithSplitWellFormed(bs, to, t);
    FindWithSplitWellFormed(FindWithSplit(bs, to, t).value.blocks, from, t);
  }

  // ----- resolving positions -----

  lemma {:induction false} FloorIndexIsFloor(bs: seq<Block>, id: NodeID, n: nat)
    requires n <= |bs|
    ensures var i := FloorIndex(bs, id, n);
            && (i >= 0 ==> !Less(id, bs[i].id))
            && (forall j :: 0 <= j < n && !Less(id, bs[j].id) ==> i >= 0 && !Less(bs[i].id, bs[j].id))
  {
    if n > 0 {
      FloorIndexIsFloor(bs, id, n - 1);
      var b, i := FloorIndex(bs, id, n - 1), FloorIndex(bs, id, n);
      forall j | 0 <= j < n && !Less(id, bs[j].id) ensures i >= 0 && !Less(bs[i].id, bs[j].id) {
        LessIsTotalOrder(bs[i].id, bs[i].id, bs[i].id);
        if b >= 0 {
          LessIsTotalOrder(bs[b].id, bs[n - 1].id, bs[j].id);
          LessIsTotalOrder(bs[j].id, bs[b].id, bs[n - 1].id);
        }
      }
    }
  }

  /** The block that holds an id does not start past it. */
  lemma HolderOffset(bs: seq<Block>, id: NodeID)
    requires WellFormed(bs) && Holder(bs, id) >= 0
    ensures bs[Holder(bs, id)].id.offset <= id.offset
  {
    FloorIndexIsFloor(bs, id, |bs|);
    var f := FloorIndex(bs, id, |bs|);
    SameTicketLess(id, bs[f].id);
    var prev := PrevSame(bs, f, f);
    PrevSameIsNearest(bs, f, f);
    assert prev >= 0 ==> Clear(bs, prev, f);
  }

  /** A position is in the block `i`, at the offset `k`. */
  ghost predicate Located(bs: seq<Block>, pos: NodePos, i: nat, k: nat) {
    i == Holder(bs, AbsoluteID(pos)) && k == AbsoluteID(pos).offset - bs[i].id.offset
  }

  lemma FindSteps(bs: seq<Block>, pos: NodePos, t: Ticket, i: nat, k: nat)
    requires Located(bs, pos, i, k)
    ensures i < |bs|
    ensures k > |bs[i].value| ==> FindWithSplit(bs, pos, t) == None
    ensures k <= |bs[i].value| ==> i < |SplitAt(bs, i, k)|
    ensures k <= |bs[i].value| ==>
              FindWithSplit(bs, pos, t) == Some(Found(SplitAt(bs, i, k), SkipLater(SplitAt(bs, i, k), i, t)))
  {
  }

  lemma FindNothing(bs: seq<Block>, pos: NodePos, t: Ticket)
    requires Holder(bs, AbsoluteID(pos)) < 0
    ensures FindWithSplit(bs, pos, t) == None
  {
  }

  /** The floor is unique, so it is the one that FloorIndex finds. */
  lemma FloorAtUnique(bs: seq<Block>, id: NodeID, i: nat)
    requires WellFormed(bs) && FloorAt(bs, id, i)
    ensures FloorIndex(bs, id, |bs|) == i
  {
    FloorIndexIsFloor(bs, id, |bs|);
    var f := FloorIndex(bs, id, |bs|);
    LessIsTotalOrder(bs[f].id, bs[i].id, bs[f].id);
    IdsDiffer(bs, f, i);
  }

  /** The place of a visible index, as the index tree finds it. */
  ghost predicate IsPos(bs: seq<Block>, index: nat, i: nat, offset: nat) {
    && i < |bs| && offset == index - |Visible(bs[..i])|
    && if index == 0 then i == 0 else 0 < offset <= bs[i].Len()
  }

  function PosIn(bs: seq<Block>, i: nat, offset: nat): NodePos
    requires i < |bs|
  {
    NodePos(bs[i].id, offset)
  }

  lemma SameTicketLess(a: NodeID, b: NodeID)
    requires a.createdAt == b.createdAt
    ensures Less(a, b) <==> a.offset < b.offset
  {
    CompareIsTotalOrder(a.createdAt, b.createdAt, a.createdAt);
  }

  /** Between two ids of one insertion there are only ids of that insertion. */
  lemma BetweenSameTicket(a: NodeID, b: NodeID, c: NodeID)
    requires a.createdAt == c.createdAt
    ensures Less(a, b) && !Less(c, b) ==> b.createdAt == a.createdAt && a.offset < b.offset <= c.offset
  {
    CompareIsTotalOrder(a.createdAt, b.createdAt, a.createdAt);
  }

  /** A position taken from a visible index resolves to the very block it was taken from. */
  lemma ResolveLocal(bs: seq<Block>, index: nat, i: nat, offset: nat)
    requires WellFormed(bs) && IsPos(bs, index, i, offset)
    ensures Resolve(bs, PosIn(bs, i, offset)) == Some(Place(i, offset))
  {
    ResolveInside(bs, i, offset);
  }

  /** No other block of the insertion starts within the range of a block. */
  lemma NothingInside(bs: seq<Block>, i: nat, j: nat)
    requires WellFormed(bs) && i < |bs| && j < |bs|
    ensures bs[i].id.createdAt == bs[j].id.createdAt ==>
              && (i < j ==> bs[i].id.offset + |bs[i].value| <= bs[j].id.offset)
              && (j < i ==> bs[j].id.offset <= bs[i].id.offset)
  {
    assert i < j ==> Clear(bs, i, j);
    assert j < i ==> Clear(bs, j, i);
  }

  lemma ResolveInside(bs: seq<Block>, i: nat, offset: nat)
    requires WellFormed(bs) && i < |bs| && offset <= |bs[i].value| && (i == 0 || offset > 0)
    ensures Resolve(bs, PosIn(bs, i, offset)) == Some(Place(i, offset))
  {
    var id := bs[i].id.Split(offset);
    SameTicketLess(id, bs[i].id);
    if exists j :: 0 <= j < |bs| && bs[j].id == id {
      var j :| 0 <= j < |bs| && bs[j].id == id;
      LessIsTotalOrder(id, id, id);
      assert FloorAt(bs, id, j);
      FloorAtUnique(bs, id, j);
      if offset > 0 {
        ResolveBoundary(bs, i, j, offset);
      } else {
        IdsDiffer(bs, i, j);
      }
    } else {
      forall j | 0 <= j < |bs| && !Less(id, bs[j].id) ensures !Less(bs[i].id, bs[j].id) {
        BetweenSameTicket(bs[i].id, bs[j].id, id);
        NothingInside(bs, i, j);
      }
      FloorAtUnique(bs, id, i);
    }
  }

  /** The end of a block is found through its successor, whose insPrev leads back. */
  lemma ResolveBoundary(bs: seq<Block>, i: nat, j: nat, offset: nat)
    requires WellFormed(bs) && i < |bs| && j < |bs| && 0 < offset <= |bs[i].value|
    requires bs[j].id == bs[i].id.Split(offset)
    ensures i < j && PrevSame(bs, j, j) == i
  {
    NothingInside(bs, i, j);
    var p := PrevSame(bs, j, j);
    PrevSameIsNearest(bs, j, j);
    NothingInside(bs, i, if p < 0 then 0 else p);
    assert 0 <= p ==> p < j && Clear(bs, p, j);
    assert 0 < p ==> Proper(bs, p);
  }

  // ----- a local edit is a string splice -----

  /** A ticket later than every insertion present, as the clock of a local edit issues. */
  ghost predicate Newest(bs: seq<Block>, t: Ticket) {
    forall i :: 0 <= i < |bs| ==> After(t, bs[i].id.createdAt)
  }

  lemma NewestIsFresh(bs: seq<Block>, t: Ticket)
    requires Newest(bs, t)
    ensures FreshTicket(bs, t)
  {
    forall i | 0 <= i < |bs| ensures bs[i].id.createdAt != t {
      CompareIsTotalOrder(t, bs[i].id.createdAt, t);
    }
  }

  lemma CutSeq(a: seq<CodeUnit>, x: seq<CodeUnit>, b: seq<CodeUnit>, k: nat)
    requires k <= |x|
    ensures (a + x + b)[..|a| + k] == a + x[..k]
    ensures (a + x + b)[|a| + k..] == x[k..] + b
  {
  }

  /** The visible text before and after a place. */
  lemma VisibleCut(bs: seq<Block>, index: nat, i: nat, offset: nat)
    requires IsPos(bs, index, i, offset)
    ensures offset <= bs[i].Len() && index <= |Visible(bs)|
    ensures Visible(bs)[..index] == Visible(bs[..i]) + bs[i].Live()[..offset]
    ensures Visible(bs)[index..] == bs[i].Live()[offset..] + Visible(bs[i + 1..])
  {
    VisibleAround(bs, i);
    CutSeq(Visible(bs[..i]), bs[i].Live(), Visible(bs[i + 1..]), offset);
  }

  /** Cutting a live block changes neither the text nor what stands before the cut. */
  lemma SplitVisible(bs: seq<Block>, i: nat, k: nat)
    requires i < |bs| && 0 < k <= bs[i].Len()
    ensures k <= |bs[i].value|
    ensures var r := SplitAt(bs, i, k);
            && i < |r| && r[..i] == bs[..i] && r[i].id == bs[i].id
            && r[i].Live() == bs[i].Live()[..k]
            && Visible(r[i + 1..]) == bs[i].Live()[k..] + Visible(bs[i + 1..])
  {
    if k < |bs[i].value| {
      var r := SplitBlock(bs, i, k);
      assert r[i + 1..][1..] == bs[i + 1..];
    }
  }

  lemma Regroup(a: seq<CodeUnit>, x: seq<CodeUnit>, b: seq<CodeUnit>, k: nat)
    requires k < |x|
    ensures a + x[..k] + (x[k..] + b) == a + x + b
    ensures a + [] + (x[k..] + b) == a + x[k..] + b != a + [] + b
  {
    assert |a + x[k..] + b| != |a + [] + b|;
  }

  lemma CutParts(bs: seq<Block>, i: nat, k: nat)
    requires i < |bs| && 0 < k < |bs[i].value|
    ensures var r, b := SplitAt(bs, i, k), bs[i];
            && |r| == |bs| + 1 && r[..i] == bs[..i] && r[i].Live() == (if b.removedAt.Some? then [] else b.value[..k])
            && Visible(r[i + 1..]) == b.value[k..] + Visible(bs[i + 1..])
  {
    var r, b := SplitAt(bs, i, k), bs[i];
    assert r[i + 1..] == [Block(b.id.Split(k), b.value[k..], None)] + bs[i + 1..];
    VisibleAppend([r[i + 1]], bs[i + 1..]);
    VisibleOne(r[i + 1]);
  }

  /** A cut inside a block leaves the text as it is just if the block is live: the right part
      of a tombstone comes back to life. */
  lemma SplitVisibleIff(bs: seq<Block>, i: nat, k: nat)
    requires i < |bs| && 0 < k < |bs[i].value|
    ensures Visible(SplitAt(bs, i, k)) == Visible(bs) <==> bs[i].removedAt.None?
    ensures bs[i].removedAt.Some? ==>
      Visible(SplitAt(bs, i, k)) == Visible(bs[..i]) + bs[i].value[k..] + Visible(bs[i + 1..])
  {
    CutParts(bs, i, k);
    VisibleAround(bs, i);
    VisibleAround(SplitAt(bs, i, k), i);
    Regroup(Visible(bs[..i]), bs[i].value, Visible(bs[i + 1..]), k);
  }

  /** So a deletion of a block and a cut inside it do not commute: the deletion takes out both
      parts when the cut comes first, and the right part is there when it comes second. */
  lemma DeleteThenSplit(bs: seq<Block>, i: nat, k: nat, t: Ticket)
    requires i < |bs| && bs[i].removedAt.None? && 0 < k < |bs[i].value|
    ensures Visible(DeleteRange(SplitAt(bs, i, k), i, i + 2, t, None)) == Visible(bs[..i]) + Visible(bs[i + 1..])
    ensures Visible(SplitAt(DeleteRange(bs, i, i + 1, t, None), i, k))
            == Visible(bs[..i]) + bs[i].value[k..] + Visible(bs[i + 1..])
  {
    var r, d := SplitAt(bs, i, k), DeleteRange(bs, i, i + 1, t, None);
    assert r[..i] == bs[..i] && r[i + 2..] == bs[i + 1..];
    SpliceBetween(r, i, i + 2, [], t);
    DeleteRangeAll(bs, i, i + 1, t, None);
    TicketBounds(bs[i].id.createdAt);
    assert d[..i] == bs[..i] && d[i + 1..] == bs[i + 1..] && d[i] == bs[i].(removedAt := Some(t));
    SplitVisibleIff(d, i, k);
  }

  lemma SplitKeepsVisible(bs: seq<Block>, index: nat, i: nat, offset: nat)
    requires WellFormed(bs) && IsPos(bs, index, i, offset)
    ensures offset <= |bs[i].value| && index <= |Visible(bs)|
    ensures var r := SplitAt(bs, i, offset);
            && i < |r| && r[..i] == bs[..i] && r[i].id == bs[i].id && (i > 0 ==> offset <= r[i].Len())
            && Visible(r) == Visible(bs)
            && Visible(r[..i + 1]) == Visible(bs)[..index] && Visible(r[i + 1..]) == Visible(bs)[index..]
  {
    VisibleCut(bs, index, i, offset);
    if offset > 0 {
      SplitVisible(bs, i, offset);
    }
    VisibleAround(SplitAt(bs, i, offset), i);
  }

  lemma SplitNewest(bs: seq<Block>, i: nat, k: nat, t: Ticket)
    requires Newest(bs, t) && i < |bs| && k <= |bs[i].value|
    ensures Newest(SplitAt(bs, i, k), t)
  {
    var r := SplitAt(bs, i, k);
    forall j | 0 <= j < |r| ensures After(t, r[j].id.createdAt) {
      if 0 < k < |bs[i].value| {
        assert r[j].id.createdAt == bs[if j <= i then j else j - 1].id.createdAt;
      }
    }
  }

  /** No block is skipped for a ticket that is newer than all of them. */
  lemma NoSkip(bs: seq<Block>, i: nat, t: Ticket)
    requires Newest(bs, t) && i < |bs|
    ensures SkipLater(bs, i, t) == i
  {
    if i + 1 < |bs| {
      CompareIsTotalOrder(t, bs[i + 1].id.createdAt, t);
    }
  }

  lemma LocalFind(bs: seq<Block>, index: nat, i: nat, offset: nat, t: Ticket)
    requires WellFormed(bs) && IsPos(bs, index, i, offset) && Newest(bs, t)
    ensures offset <= |bs[i].value|
    ensures FindWithSplit(bs, PosIn(bs, i, offset), t) == Some(Found(SplitAt(bs, i, offset), i))
    ensures WellFormed(SplitAt(bs, i, offset)) && Newest(SplitAt(bs, i, offset), t)
  {
    ResolveLocal(bs, index, i, offset);
    SplitKeepsVisible(bs, index, i, offset);
    SplitWellFormed(bs, i, offset);
    SplitNewest(bs, i, offset, t);
    NoSkip(SplitAt(bs, i, offset), i, t);
  }

  lemma VisibleGrows(bs: seq<Block>, a: nat, b: nat)
    requires a <= b <= |bs|
    ensures |Visible(bs[..a])| <= |Visible(bs[..b])|
  {
    assert bs[..b] == bs[..a] + bs[a..b];
    VisibleAppend(bs[..a], bs[a..b]);
  }

  lemma StartBeforeEnd(bs: seq<Block>, from: nat, i: nat, k: nat, to: nat, j: nat, l: nat)
    requires from <= to && IsPos(bs, from, i, k) && IsPos(bs, to, j, l)
    ensures i <= j && (i == j ==> k <= l)
  {
    if i > j {
      VisibleAround(bs, j);
      VisibleGrows(bs, j + 1, i);
    }
  }

  /** The start of a range is still where it was after the block of its end was cut. */
  lemma StartStays(bs: seq<Block>, from: nat, i: nat, k: nat, to: nat, j: nat, l: nat)
    requires WellFormed(bs) && from <= to && IsPos(bs, from, i, k) && IsPos(bs, to, j, l)
    ensures i <= j && l <= |bs[j].value|
    ensures IsPos(SplitAt(bs, j, l), from, i, k) && PosIn(SplitAt(bs, j, l), i, k) == PosIn(bs, i, k)
  {
    StartBeforeEnd(bs, from, i, k, to, j, l);
    SplitKeepsVisible(bs, to, j, l);
    SamePrefix(SplitAt(bs, j, l), bs, j, i);
  }

  lemma SamePrefix(a: seq<Block>, b: seq<Block>, j: nat, i: nat)
    requires i <= j < |a| && j < |b| && a[..j] == b[..j]
    ensures a[..i] == b[..i] && (i < j ==> a[i] == b[i])
  {
    assert a[..i] == a[..j][..i] && b[..i] == b[..j][..i];
    assert i < j ==> a[..j][i] == a[i] && b[..j][i] == b[i];
  }

  /** Where the walk over the range stops: at the block right of its end. */
  lemma StopAtEnd(bs: seq<Block>, bs1: seq<Block>, i: nat, j: nat, lo: nat)
    requires WellFormed(bs) && i <= j < |bs1| && lo == i + 1 <= |bs|
    requires |bs| >= |bs1| && bs[|bs| - (|bs1| - j - 1)..] == bs1[j + 1..] && lo <= |bs| - (|bs1| - j - 1)
    ensures StopIndex(bs, lo, RightOf(Found(bs1, j))) == |bs| - (|bs1| - j - 1)
  {
    var h := |bs| - (|bs1| - j - 1);
    var stop := RightOf(Found(bs1, j));
    var hi := StopIndex(bs, lo, stop);
    StopIndexStops(bs, lo, stop);
    if j + 1 < |bs1| {
      assert bs[h..][0] == bs[h];
      assert bs[h].id == bs1[j + 1].id;
      if hi < |bs| {
        IdsDiffer(bs, hi, h);
      }
    }
  }

  /** Deleting a range for everyone to see leaves the text around it. */
  lemma DeleteVisible(bs: seq<Block>, lo: nat, hi: nat, t: Ticket)
    requires lo <= hi <= |bs|
    ensures var deleted := DeleteRange(bs, lo, hi, t, None);
            deleted[..lo] == bs[..lo] && Visible(deleted[lo..]) == Visible(bs[hi..])
  {
    var deleted := DeleteRange(bs, lo, hi, t, None);
    DeleteRangeAll(bs, lo, hi, t, None);
    var mid := deleted[lo..hi];
    assert deleted[hi..] == bs[hi..];
    forall x | 0 <= x < |mid| ensures mid[x].removedAt.Some? {
      assert mid[x] == RemoveBlock(bs[lo + x], t, None);
      TicketBounds(bs[lo + x].id.createdAt);
    }
    VisibleDead(mid);
    assert deleted[lo..] == mid + deleted[hi..];
    VisibleAppend(mid, deleted[hi..]);
  }

  lemma InsertVisible(bs: seq<Block>, lo: nat, b: Block)
    requires lo <= |bs|
    ensures Visible(InsertBlock(bs, lo, b)) == Visible(bs[..lo]) + b.Live() + Visible(bs[lo..])
  {
    VisibleAppend(bs[..lo] + [b], bs[lo..]);
    VisibleAppend(bs[..lo], [b]);
    VisibleOne(b);
  }

  /** What a local edit works on: the blocks cut at the end of the range, then at its start. */
  lemma LocalCutEnd(bs: seq<Block>, from: nat, i: nat, k: nat, to: nat, j: nat, l: nat, t: Ticket)
      returns (bs1: seq<Block>)
    requires WellFormed(bs) && Newest(bs, t) && from <= to
    requires IsPos(bs, from, i, k) && IsPos(bs, to, j, l)
    ensures to <= |Visible(bs)| && i <= j < |bs1| && WellFormed(bs1) && Newest(bs1, t)
    ensures FindWithSplit(bs, PosIn(bs, j, l), t) == Some(Found(bs1, j))
    ensures IsPos(bs1, from, i, k) && PosIn(bs1, i, k) == PosIn(bs, i, k)
    ensures Visible(bs1) == Visible(bs) && Visible(bs1[j + 1..]) == Visible(bs)[to..]
  {
    LocalFind(bs, to, j, l, t);
    SplitKeepsVisible(bs, to, j, l);
    bs1 := SplitAt(bs, j, l);
    StartStays(bs, from, i, k, to, j, l);
  }

  /** What stands right of a cut, and further right, is not moved against the end. */
  lemma SplitSuffix(bs: seq<Block>, i: nat, k: nat, j: nat) returns (hi: nat)
    requires i <= j < |bs| && k <= |bs[i].value|
    ensures var r := SplitAt(bs, i, k);
            i + 1 <= hi <= |r| && hi == |r| - (|bs| - j - 1) && r[hi..] == bs[j + 1..]
  {
    var r := SplitAt(bs, i, k);
    hi := |r| - (|bs| - j - 1);
    assert r[hi..] == bs[j + 1..];
  }

  lemma LocalCutStop(bs1: seq<Block>, i: nat, k: nat, j: nat) returns (hi: nat)
    requires WellFormed(bs1) && i <= j < |bs1| && k <= |bs1[i].value|
    ensures var bs2 := SplitAt(bs1, i, k);
            && i + 1 <= hi <= |bs2| && bs2[hi..] == bs1[j + 1..]
            && StopIndex(bs2, i + 1, RightOf(Found(bs1, j))) == hi
  {
    SplitWellFormed(bs1, i, k);
    hi := SplitSuffix(bs1, i, k, j);
    StopAtEnd(SplitAt(bs1, i, k), bs1, i, j, i + 1);
  }

  lemma LocalCutStart(bs1: seq<Block>, from: nat, i: nat, k: nat, j: nat, t: Ticket) returns (bs2: seq<Block>, hi: nat)
    requires WellFormed(bs1) && Newest(bs1, t) && IsPos(bs1, from, i, k) && i <= j < |bs1|
    ensures from <= |Visible(bs1)| && i < |bs2| && i + 1 <= hi <= |bs2|
    ensures FindWithSplit(bs1, PosIn(bs1, i, k), t) == Some(Found(bs2, i))
    ensures StopIndex(bs2, i + 1, RightOf(Found(bs1, j))) == hi
    ensures Visible(bs2[..i + 1]) == Visible(bs1)[..from] && bs2[hi..] == bs1[j + 1..]
  {
    LocalFind(bs1, from, i, k, t);
    SplitKeepsVisible(bs1, from, i, k);
    bs2 := SplitAt(bs1, i, k);
    hi := LocalCutStop(bs1, i, k, j);
  }

  lemma EditSteps(bs: seq<Block>, from: NodePos, to: NodePos, seen: Option<ByActor>,
                  content: seq<CodeUnit>, t: Ticket, right: Found, left: Found)
    requires FindWithSplit(bs, to, t) == Some(right) && FindWithSplit(right.blocks, from, t) == Some(left)
    requires right.left < |right.blocks| && left.left < |left.blocks|
    ensures Edit(bs, from, to, seen, content, t) == Some(EditBetween(left, right, seen, content, t))
  {
  }

  /** For every well-formed text and every range of it, a local edit with a new ticket
      succeeds and is the splice of the visible text. */
  lemma LocalEditIsSplice(bs: seq<Block>, from: nat, i: nat, k: nat, to: nat, j: nat, l: nat,
                          content: seq<CodeUnit>, t: Ticket)
    requires WellFormed(bs) && Newest(bs, t) && from <= to
    requires IsPos(bs, from, i, k) && IsPos(bs, to, j, l)
    ensures to <= |Visible(bs)|
    ensures var r := Edit(bs, PosIn(bs, i, k), PosIn(bs, j, l), None, content, t);
            r.Some? && Visible(r.value.blocks) == Visible(bs)[..from] + content + Visible(bs)[to..]
  {
    var bs1 := LocalCutEnd(bs, from, i, k, to, j, l, t);
    var bs2, hi := LocalCutStart(bs1, from, i, k, j, t);
    EditSteps(bs, PosIn(bs, i, k), PosIn(bs, j, l), None, content, t, Found(bs1, j), Found(bs2, i));
    SpliceEdit(bs2, i, Found(bs1, j), hi, content, t);
  }

  lemma SpliceEdit(bs: seq<Block>, i: nat, right: Found, hi: nat, content: seq<CodeUnit>, t: Ticket)
    requires i < |bs| && right.left < |right.blocks| && StopIndex(bs, i + 1, RightOf(right)) == hi
    ensures i + 1 <= hi <= |bs|
    ensures Visible(EditBetween(Found(bs, i), right, None, content, t).blocks)
            == Visible(bs[..i + 1]) + content + Visible(bs[hi..])
  {
    SpliceBetween(bs, i + 1, hi, content, t);
  }

  lemma SpliceBetween(bs: seq<Block>, lo: nat, hi: nat, content: seq<CodeUnit>, t: Ticket)
    requires lo <= hi <= |bs|
    ensures var deleted := DeleteRange(bs, lo, hi, t, None);
            && Visible(InsertBlock(deleted, lo, Block(NodeID(t, 0), content, None)))
               == Visible(bs[..lo]) + content + Visible(bs[hi..])
            && Visible(deleted) == Visible(bs[..lo]) + Visible(bs[hi..])
  {
    var deleted := DeleteRange(bs, lo, hi, t, None);
    DeleteVisible(bs, lo, hi, t);
    InsertVisible(deleted, lo, Block(NodeID(t, 0), content, None));
    assert deleted == deleted[..lo] + deleted[lo..];
    VisibleAppend(deleted[..lo], deleted[lo..]);
  }

  /** An edit brings in no ticket but its own. */
  lemma EditNewest(bs: seq<Block>, from: NodePos, to: NodePos, seen: Option<ByActor>, content: seq<CodeUnit>,
                   t: Ticket, u: Ticket)
    requires Edit(bs, from, to, seen, content, t).Some? && Newest(bs, u) && After(u, t)
    ensures Newest(Edit(bs, from, to, seen, content, t).value.blocks, u)
  {
    var right, left := EditParts(bs, from, to, seen, content, t);
    var p, q := Resolve(bs, to).value, Resolve(right.blocks, from).value;
    SplitNewest(bs, p.index, p.offset, u);
    SplitNewest(right.blocks, q.index, q.offset, u);
    EditBetweenNewest(left, right, seen, content, t, u);
  }

  lemma EditBetweenNewest(left: Found, right: Found, seen: Option<ByActor>, content: seq<CodeUnit>, t: Ticket,
                          u: Ticket)
    requires left.left < |left.blocks| && right.left < |right.blocks| && Newest(left.blocks, u) && After(u, t)
    ensures Newest(EditBetween(left, right, seen, content, t).blocks, u)
  {
    var lo := left.left + 1;
    var hi := StopIndex(left.blocks, lo, RightOf(right));
    var deleted := DeleteRange(left.blocks, lo, hi, t, seen);
    forall i | 0 <= i < |deleted| ensures After(u, deleted[i].id.createdAt) {
      DeleteRangeAt(left.blocks, lo, hi, t, seen, i);
    }
    InsertNewest(deleted, lo, Block(NodeID(t, 0), content, None), u);
  }

  lemma InsertNewest(bs: seq<Block>, at: nat, b: Block, u: Ticket)
    requires at <= |bs| && Newest(bs, u) && After(u, b.id.createdAt)
    ensures Newest(InsertBlock(bs, at, b), u)
  {
    var r := InsertBlock(bs, at, b);
    forall i | 0 <= i < |r| ensures After(u, r[i].id.createdAt) {
      assert i != at ==> r[i] == bs[if i < at then i else i - 1];
    }
  }

  lemma EditKeepsNewest(bs: seq<Block>, from: NodePos, to: NodePos, seen: Option<ByActor>, content: seq<CodeUnit>,
                        t: Ticket)
    requires Edit(bs, from, to, seen, content, t).Some?
    ensures forall u :: After(u, t) && Newest(bs, u) ==> Newest(Edit(bs, from, to, seen, content, t).value.blocks, u)
  {
    forall u | After(u, t) && Newest(bs, u) ensures Newest(Edit(bs, from, to, seen, content, t).value.blocks, u) {
      EditNewest(bs, from, to, seen, content, t, u);
    }
  }

  /** After a local edit every later ticket is a new one, so that the next edit can follow. */
  lemma LocalEditNewest(bs: seq<Block>, from: NodePos, to: NodePos, content: seq<CodeUnit>, t: Ticket)
    requires Newest(bs, t) && Edit(bs, from, to, None, content, t).Some?
    ensures forall u :: After(u, t) ==> Newest(Edit(bs, from, to, None, content, t).value.blocks, u)
  {
    EditKeepsNewest(bs, from, to, None, content, t);
    forall u | After(u, t) ensures Newest(bs, u) {
      forall i | 0 <= i < |bs| ensures After(u, bs[i].id.createdAt) {
        CompareIsTotalOrder(u, t, bs[i].id.createdAt);
      }
    }
  }

  // ----- replaying a local edit elsewhere -----

  lemma {:induction false} LatestRemovedCovers(bs: seq<Block>, lo: nat, hi: nat, t: Ticket, seen: Option<ByActor>,
                                               i: nat)
    requires lo <= i < hi <= |bs| && CanRemove(bs[i], t, seen)
    ensures var m := LatestRemoved(bs, lo, hi, t, seen);
            var c := bs[i].id.createdAt;
            c.actorID in m && !After(c, m[c.actorID])
    decreases hi
  {
    var m := LatestRemoved(bs, lo, hi - 1, t, seen);
    var c := bs[i].id.createdAt;
    CompareIsTotalOrder(c, c, c);
    if i < hi - 1 {
      LatestRemovedCovers(bs, lo, hi - 1, t, seen, i);
      var d := bs[hi - 1].id.createdAt;
      CompareIsTotalOrder(c, d, m[c.actorID]);
      CompareIsTotalOrder(d, c, m[c.actorID]);
    }
  }

  /** The map a local deletion reports lets through just what the deletion removed. */
  lemma ReportedSeesTheSame(bs: seq<Block>, lo: nat, hi: nat, t: Ticket, i: nat)
    requires lo <= i < hi <= |bs|
    ensures CanRemove(bs[i], t, Some(LatestRemoved(bs, lo, hi, t, None))) <==> CanRemove(bs[i], t, None)
  {
    TicketBounds(bs[i].id.createdAt);
    if CanRemove(bs[i], t, None) {
      LatestRemovedCovers(bs, lo, hi, t, None, i);
    }
  }

  lemma {:induction false} LatestRemovedAgrees(bs: seq<Block>, lo: nat, hi: nat, t: Ticket,
                                               a: Option<ByActor>, b: Option<ByActor>)
    requires lo <= hi <= |bs|
    requires forall i :: lo <= i < hi ==> (CanRemove(bs[i], t, a) <==> CanRemove(bs[i], t, b))
    ensures LatestRemoved(bs, lo, hi, t, a) == LatestRemoved(bs, lo, hi, t, b)
    ensures RemovedIn(bs, lo, hi, t, a) == RemovedIn(bs, lo, hi, t, b)
    ensures DeleteRange(bs, lo, hi, t, a) == DeleteRange(bs, lo, hi, t, b)
    decreases hi
  {
    if lo < hi {
      LatestRemovedAgrees(bs, lo, hi - 1, t, a, b);
    }
  }

  lemma DeletionsAgree(bs: seq<Block>, lo: nat, hi: nat, t: Ticket)
    requires lo <= hi <= |bs|
    ensures var m := Some(LatestRemoved(bs, lo, hi, t, None));
            && DeleteRange(bs, lo, hi, t, m) == DeleteRange(bs, lo, hi, t, None)
            && LatestRemoved(bs, lo, hi, t, m) == LatestRemoved(bs, lo, hi, t, None)
            && RemovedIn(bs, lo, hi, t, m) == RemovedIn(bs, lo, hi, t, None)
  {
    var m := Some(LatestRemoved(bs, lo, hi, t, None));
    forall i | lo <= i < hi ensures CanRemove(bs[i], t, m) <==> CanRemove(bs[i], t, None) {
      ReportedSeesTheSame(bs, lo, hi, t, i);
    }
    LatestRemovedAgrees(bs, lo, hi, t, m, None);
  }

  /** An edit made with a nil map on one copy, and replayed on an equal copy with the map
      it reported, gives equal blocks, carets, maps and registered tombstones. */
  lemma ReplayAgrees(bs: seq<Block>, from: NodePos, to: NodePos, content: seq<CodeUnit>, t: Ticket)
    requires Edit(bs, from, to, None, content, t).Some?
    ensures var r := Edit(bs, from, to, None, content, t);
            Edit(bs, from, to, Some(r.value.latest), content, t) == r
  {
    var right, left := EditParts(bs, from, to, None, content, t);
    var r := EditBetween(left, right, None, content, t);
    EditSteps(bs, from, to, None, content, t, right, left);
    EditSteps(bs, from, to, Some(r.latest), content, t, right, left);
    ReplayBetween(left, right, content, t);
  }

  lemma EditParts(bs: seq<Block>, from: NodePos, to: NodePos, seen: Option<ByActor>, content: seq<CodeUnit>, t: Ticket)
      returns (right: Found, left: Found)
    requires Edit(bs, from, to, seen, content, t).Some?
    ensures FindWithSplit(bs, to, t) == Some(right) && FindWithSplit(right.blocks, from, t) == Some(left)
    ensures right.left < |right.blocks| && left.left < |left.blocks|
  {
    right := FindWithSplit(bs, to, t).value;
    left := FindWithSplit(right.blocks, from, t).value;
  }

  lemma ReplayBetween(left: Found, right: Found, content: seq<CodeUnit>, t: Ticket)
    requires left.left < |left.blocks| && right.left < |right.blocks|
    ensures var r := EditBetween(left, right, None, content, t);
            EditBetween(left, right, Some(r.latest), content, t) == r
  {
    var lo := left.left + 1;
    DeletionsAgree(left.blocks, lo, StopIndex(left.blocks, lo, RightOf(right)), t);
  }

  // ----- nothing inserted is lost -----

  /** A code unit with the ticket it was inserted with and its offset in that insertion. */
  datatype Unit = Unit(createdAt: Ticket, offset: nat, code: CodeUnit)

  function BlockUnits(b: Block): set<Unit> {
    set o | 0 <= o < |b.value| :: Unit(b.id.createdAt, b.id.offset + o, b.value[o])
  }

  function Units(bs: seq<Block>): set<Unit> {
    if bs == [] then {} else BlockUnits(bs[0]) + Units(bs[1..])
  }

  lemma {:induction false} UnitsAppend(a: seq<Block>, b: seq<Block>)
    ensures Units(a + b) == Units(a) + Units(b)
  {
    if a == [] {
      assert a + b == b;
    } else {
      assert (a + b)[1..] == a[1..] + b;
      UnitsAppend(a[1..], b);
    }
  }

  lemma UnitsAround(a: seq<Block>, m: seq<Block>, b: seq<Block>)
    ensures Units(a + m + b) == Units(a) + Units(m) + Units(b)
  {
    UnitsAppend(a + m, b);
    UnitsAppend(a, m);
  }

  lemma CutUnits(b: Block, k: nat)
    requires k <= |b.value|
    ensures BlockUnits(b)
            == BlockUnits(b.(value := b.value[..k])) + BlockUnits(Block(b.id.Split(k), b.value[k..], None))
  {
    var x, y := b.(value := b.value[..k]), Block(b.id.Split(k), b.value[k..], None);
    forall u | u in BlockUnits(b) ensures u in BlockUnits(x) + BlockUnits(y) {
      var o := u.offset - b.id.offset;
      assert if o < k then x.value[o] == u.code else y.value[o - k] == u.code;
    }
  }

  /** Splitting keeps every code unit under the id it was inserted with. */
  lemma SplitUnits(bs: seq<Block>, i: nat, k: nat)
    requires i < |bs| && k <= |bs[i].value|
    ensures Units(SplitAt(bs, i, k)) == Units(bs)
  {
    if 0 < k < |bs[i].value| {
      var b := bs[i];
      var x, y := b.(value := b.value[..k]), Block(b.id.Split(k), b.value[k..], None);
      UnitsAround(bs[..i], [x, y], bs[i + 1..]);
      UnitsAround(bs[..i], [b], bs[i + 1..]);
      assert bs == bs[..i] + [b] + bs[i + 1..];
      assert [x, y][1..] == [y] && [y][1..] == [] && [b][1..] == [];
      CutUnits(b, k);
    }
  }

  lemma {:induction false} SameValuesSameUnits(a: seq<Block>, b: seq<Block>)
    requires |a| == |b| && forall i :: 0 <= i < |a| ==> a[i].id == b[i].id && a[i].value == b[i].value
    ensures Units(a) == Units(b)
  {
    if a != [] {
      SameValuesSameUnits(a[1..], b[1..]);
    }
  }

  /** Every edit, whatever it deletes, keeps all code units and adds those of its content. */
  lemma EditUnits(bs: seq<Block>, from: NodePos, to: NodePos, seen: Option<ByActor>, content: seq<CodeUnit>, t: Ticket)
    requires Edit(bs, from, to, seen, content, t).Some?
    ensures Units(Edit(bs, from, to, seen, content, t).value.blocks)
            == Units(bs) + BlockUnits(Block(NodeID(t, 0), content, None))
  {
    var right := FindWithSplit(bs, to, t).value;
    var p := Resolve(bs, to).value;
    SplitUnits(bs, p.index, p.offset);
    var q := Resolve(right.blocks, from).value;
    SplitUnits(right.blocks, q.index, q.offset);
    EditBetweenUnits(FindWithSplit(right.blocks, from, t).value, right, seen, content, t);
  }

  lemma EditBetweenUnits(left: Found, right: Found, seen: Option<ByActor>, content: seq<CodeUnit>, t: Ticket)
    requires left.left < |left.blocks| && right.left < |right.blocks|
    ensures Units(EditBetween(left, right, seen, content, t).blocks)
            == Units(left.blocks) + BlockUnits(Block(NodeID(t, 0), content, None))
  {
    var lo := left.left + 1;
    var hi := StopIndex(left.blocks, lo, RightOf(right));
    var deleted := DeleteRange(left.blocks, lo, hi, t, seen);
    DeleteUnits(left.blocks, lo, hi, t, seen);
    InsertUnits(deleted, lo, Block(NodeID(t, 0), content, None));
  }

  lemma DeleteUnits(bs: seq<Block>, lo: nat, hi: nat, t: Ticket, seen: Option<ByActor>)
    requires lo <= hi <= |bs|
    ensures Units(DeleteRange(bs, lo, hi, t, seen)) == Units(bs)
  {
    DeleteRangeAll(bs, lo, hi, t, seen);
    SameValuesSameUnits(DeleteRange(bs, lo, hi, t, seen), bs);
  }

  lemma InsertUnits(bs: seq<Block>, at: nat, b: Block)
    requires at <= |bs|
    ensures Units(InsertBlock(bs, at, b)) == Units(bs) + BlockUnits(b)
  {
    var l, r := bs[..at], bs[at..];
    assert Units(bs) == Units(l) + Units(r) by {
      UnitsAppend(l, r);
      assert bs == l + r;
    }
    assert Units([b]) == BlockUnits(b) by {
      assert [b][1..] == [];
    }
    UnitsAround(l, [b], r);
  }

  // ----- purging -----

  /** Cleanup takes out exactly the expired blocks and keeps the others in their order. */
  lemma {:induction false} CleanupExact(bs: seq<Block>, registered: set<NodeID>, ticket: Ticket, b: Block)
    ensures b in Cleanup(bs, registered, ticket) <==> b in bs && !Expired(b, registered, ticket)
  {
    if bs != [] {
      CleanupExact(bs[1..], registered, ticket, b);
      assert bs == [bs[0]] + bs[1..];
    }
  }

  /** Cleanup leaves the visible text as it was. */
  lemma {:induction false} CleanupVisible(bs: seq<Block>, registered: set<NodeID>, ticket: Ticket)
    ensures Visible(Cleanup(bs, registered, ticket)) == Visible(bs)
  {
    if bs != [] {
      var rest := Cleanup(bs[1..], registered, ticket);
      CleanupVisible(bs[1..], registered, ticket);
      if Expired(bs[0], registered, ticket) {
        assert [] + rest == rest;
      } else {
        VisibleAppend([bs[0]], rest);
        VisibleOne(bs[0]);
      }
    }
  }

  lemma RemoveAtWellFormed(bs: seq<Block>, i: nat)
    requires WellFormed(bs) && 0 < i < |bs|
    ensures WellFormed(bs[..i] + bs[i + 1..])
  {
    var r := bs[..i] + bs[i + 1..];
    forall x, y | 0 <= x < y < |r| ensures Clear(r, x, y) {
      var x', y' := if x < i then x else x + 1, if y < i then y else y + 1;
      assert r[x] == bs[x'] && r[y] == bs[y'] && Clear(bs, x', y');
    }
    forall y | 0 < y < |r| ensures Proper(r, y) {
      assert Proper(bs, if y < i then y else y + 1);
    }
  }

  lemma {:induction false} CleanupAppend(a: seq<Block>, b: seq<Block>, registered: set<NodeID>, ticket: Ticket)
    ensures Cleanup(a + b, registered, ticket) == Cleanup(a, registered, ticket) + Cleanup(b, registered, ticket)
  {
    if a == [] {
      assert a + b == b;
    } else {
      assert (a + b)[1..] == a[1..] + b;
      CleanupAppend(a[1..], b, registered, ticket);
    }
  }

  lemma {:induction false} CleanupWithout(bs: seq<Block>, todo: set<NodeID>, id: NodeID, ticket: Ticket)
    requires forall i :: 0 <= i < |bs| ==> bs[i].id != id || !Expired(bs[i], todo, ticket)
    ensures Cleanup(bs, todo - {id}, ticket) == Cleanup(bs, todo, ticket)
  {
    if bs != [] {
      CleanupWithout(bs[1..], todo, id, ticket);
    }
  }

  /** Purging one expired block is one step of the cleanup, in whatever order it is done. */
  lemma CleanupOne(bs: seq<Block>, i: nat, todo: set<NodeID>, ticket: Ticket)
    requires WellFormed(bs) && i < |bs| && Expired(bs[i], todo, ticket)
    ensures Cleanup(bs[..i] + bs[i + 1..], todo - {bs[i].id}, ticket) == Cleanup(bs, todo, ticket)
  {
    var id := bs[i].id;
    forall j | 0 <= j < |bs| && j != i ensures bs[j].id != id {
      if bs[j].id == id {
        IdsDiffer(bs, i, j);
      }
    }
    CleanupWithout(bs[..i], todo, id, ticket);
    CleanupWithout(bs[i + 1..], todo, id, ticket);
    CleanupAppend(bs[..i], bs[i + 1..], todo - {id}, ticket);
    assert bs == bs[..i] + ([bs[i]] + bs[i + 1..]);
    CleanupAppend(bs[..i], [bs[i]] + bs[i + 1..], todo, ticket);
    CleanupAppend([bs[i]], bs[i + 1..], todo, ticket);
    assert [bs[i]][1..] == [];
  }

  lemma {:induction false} CleanupNothing(bs: seq<Block>, ticket: Ticket)
    ensures Cleanup(bs, {}, ticket) == bs
  {
    if bs != [] {
      CleanupNothing(bs[1..], ticket);
    }
  }
}
