/** Copies of a text that execute two concurrent edits in different orders
    (pkg/document/json/rga_tree_split.go). */
module TextEdits {
  import opened Time
  import opened Wrappers
  import opened TextBlocks
  import opened TextTheorems
  import opened TextPositions
  import opened TextConvergence
  import opened TextSeen
  import ArrayItems

  /** An edit as the other copies are told of it. */
  datatype Replacement = Replacement(from: NodePos, to: NodePos, content: seq<CodeUnit>, seen: Option<ByActor>,
                                     editedAt: Ticket) {
    function From(): NodeID {
      AbsoluteID(from)
    }

    function To(): NodeID {
      AbsoluteID(to)
    }

    /** What it puts in, behind the start of its range. */
    function Put(): Insertion {
      Insertion(from, content, seen, editedAt)
    }
  }

  function Replace(bs: seq<Block>, e: Replacement): Option<seq<Block>> {
    match Edit(bs, e.from, e.to, e.seen, e.content, e.editedAt)
    case None => None
    case Some(r) => Some(r.blocks)
  }

  // ----- the range of an edit -----

  /** The id is at the end of the block or inside it, or is that of the head. */
  ghost predicate Ends(bs: seq<Block>, id: NodeID, i: int) {
    Reaches(bs, id, i) && !AtStart(bs, id, i)
  }

  /** The edit is of a range that starts in block `i` and ends in block `j`. */
  ghost predicate Spans(bs: seq<Block>, e: Replacement, i: int, j: int) {
    && Ends(bs, e.From(), i) && Ends(bs, e.To(), j)
    && (i < j || (i == j && e.From().offset <= e.To().offset))
  }

  /** An edit was made before anything that is later than it was there to be seen. */
  ghost predicate SeesNothingLater(e: Replacement, c: Ticket) {
    After(c, e.editedAt) ==> !Seen(e.seen, c)
  }

  ghost predicate Causal(bs: seq<Block>, e: Replacement) {
    forall i :: 0 <= i < |bs| ==> SeesNothingLater(e, bs[i].id.createdAt)
  }

  /** The text cut at both ends of the range. */
  function Cuts(bs: seq<Block>, e: Replacement): seq<Block> {
    Cut(Cut(bs, e.to), e.from)
  }

  lemma CutEnds(bs: seq<Block>, cut: NodePos, j: nat, pos: NodePos, i: nat)
    requires WellFormed(bs) && Ends(bs, AbsoluteID(cut), j) && Ends(bs, AbsoluteID(pos), i)
    ensures var r := Cut(bs, cut);
            var i' := if Inside(bs, AbsoluteID(cut), j)
                      then Reaching(bs, j, AbsoluteID(cut).offset - bs[j].id.offset, AbsoluteID(pos), i) else i;
            && WellFormed(r) && Ends(r, AbsoluteID(pos), i')
            && (!Inside(bs, AbsoluteID(pos), i) ==> !Inside(r, AbsoluteID(pos), i'))
  {
    CutIs(bs, cut, j);
    if Inside(bs, AbsoluteID(cut), j) {
      SplitReached(bs, j, AbsoluteID(cut).offset - bs[j].id.offset, AbsoluteID(pos), i);
    }
  }

  /** Cutting at an end of a range leaves the range between the same two ends. */
  lemma CutSpans(bs: seq<Block>, cut: NodePos, c: nat, e: Replacement, i: nat, j: nat) returns (i': nat, j': nat)
    requires WellFormed(bs) && Ends(bs, AbsoluteID(cut), c) && Spans(bs, e, i, j)
    ensures WellFormed(Cut(bs, cut)) && Spans(Cut(bs, cut), e, i', j')
    ensures !Inside(bs, e.From(), i) ==> !Inside(Cut(bs, cut), e.From(), i')
    ensures !Inside(bs, e.To(), j) ==> !Inside(Cut(bs, cut), e.To(), j')
  {
    var l := AbsoluteID(cut).offset - bs[c].id.offset;
    CutEnds(bs, cut, c, e.from, i);
    CutEnds(bs, cut, c, e.to, j);
    i', j' := i, j;
    if Inside(bs, AbsoluteID(cut), c) {
      i', j' := Reaching(bs, c, l, e.From(), i), Reaching(bs, c, l, e.To(), j);
    }
  }

  lemma CutsSpan(bs: seq<Block>, e: Replacement, i: nat, j: nat) returns (i': nat, j': nat)
    requires WellFormed(bs) && Spans(bs, e, i, j)
    ensures var s := Cuts(bs, e);
            WellFormed(s) && Spans(s, e, i', j') && !Inside(s, e.From(), i') && !Inside(s, e.To(), j')
  {
    var c := Cut(bs, e.to);
    var i1, j1 := CutSpans(bs, e.to, j, e, i, j);
    CutReaches(bs, e.to, j);
    ReachedOnce(c, e.to, j, j1);
    i', j' := CutSpans(c, e.from, i1, e, i1, j1);
    CutReaches(c, e.from, i1);
    ReachedOnce(Cuts(bs, e), e.from, i', i1);
  }

  // ----- an edit buries what lies between the cuts, and puts its content behind the first -----

  lemma {:induction false} WalkPasses(bs: seq<Block>, i: nat, t: Ticket, a: nat)
    requires i < |bs| && i < a <= SkipLater(bs, i, t)
    ensures After(bs[a].id.createdAt, t)
    decreases |bs| - i
  {
    if i + 1 < a {
      WalkPasses(bs, i + 1, t, a);
    }
  }

  lemma {:induction false} WalkGrows(bs: seq<Block>, i: nat, j: nat, t: Ticket)
    requires i <= j < |bs|
    ensures SkipLater(bs, i, t) <= SkipLater(bs, j, t)
    decreases j - i
  {
    if i < j {
      WalkGrows(bs, i + 1, j, t);
    }
  }

  lemma StopThere(bs: seq<Block>, lo: nat, r: nat)
    requires WellFormed(bs) && lo <= r <= |bs|
    ensures StopIndex(bs, lo, if r < |bs| then Some(bs[r].id) else None) == r
  {
    var stop := if r < |bs| then Some(bs[r].id) else None;
    StopIndexStops(bs, lo, stop);
    if r < |bs| && StopIndex(bs, lo, stop) < |bs| {
      IdsDiffer(bs, StopIndex(bs, lo, stop), r);
    }
  }

  /** The blocks that an edit removes, of those that stand behind `i` up to `j`. */
  function Bury(bs: seq<Block>, i: nat, j: nat, e: Replacement): (r: seq<Block>)
    requires i <= j < |bs|
    ensures |r| == |bs|
  {
    DeleteRange(bs, i + 1, j + 1, e.editedAt, e.seen)
  }

  lemma LaterStays(e: Replacement, b: Block)
    requires SeesNothingLater(e, b.id.createdAt) && After(b.id.createdAt, e.editedAt)
    ensures RemoveBlock(b, e.editedAt, e.seen) == b
  {
    TicketBounds(e.editedAt);
    SeenIff(e.seen, b.id.createdAt);
  }

  lemma SameBuried(bs: seq<Block>, i: nat, j: nat, e: Replacement, a: nat)
    requires Causal(bs, e) && i <= j < |bs| && a < |bs|
    requires SkipLater(bs, i, e.editedAt) <= SkipLater(bs, j, e.editedAt)
    ensures var l, r := SkipLater(bs, i, e.editedAt), SkipLater(bs, j, e.editedAt);
            DeleteRange(bs, l + 1, r + 1, e.editedAt, e.seen)[a] == Bury(bs, i, j, e)[a]
  {
    DeleteRangeAt(bs, SkipLater(bs, i, e.editedAt) + 1, SkipLater(bs, j, e.editedAt) + 1, e.editedAt, e.seen, a);
    DeleteRangeAt(bs, i + 1, j + 1, e.editedAt, e.seen, a);
    PassedStays(bs, i, e, a);
    PassedStays(bs, j, e, a);
  }

  /** The blocks that the walks at both ends pass were not there to be seen. */
  lemma WalksDoNotMatter(bs: seq<Block>, i: nat, j: nat, e: Replacement)
    requires Causal(bs, e) && i <= j < |bs|
    ensures var l, r := SkipLater(bs, i, e.editedAt), SkipLater(bs, j, e.editedAt);
            l <= r && DeleteRange(bs, l + 1, r + 1, e.editedAt, e.seen) == Bury(bs, i, j, e)
  {
    WalkGrows(bs, i, j, e.editedAt);
    forall a: nat | a < |bs| {
      SameBuried(bs, i, j, e, a);
    }
  }

  lemma PassedStays(bs: seq<Block>, i: nat, e: Replacement, a: nat)
    requires Causal(bs, e) && i < |bs| && a < |bs|
    ensures i < a <= SkipLater(bs, i, e.editedAt) ==> RemoveBlock(bs[a], e.editedAt, e.seen) == bs[a]
  {
    if i < a <= SkipLater(bs, i, e.editedAt) {
      WalkPasses(bs, i, e.editedAt, a);
      assert SeesNothingLater(e, bs[a].id.createdAt);
      LaterStays(e, bs[a]);
    }
  }

  /** Two texts that differ only in what is removed, and when. */
  ghost predicate Alike(a: seq<Block>, b: seq<Block>) {
    |a| == |b| && forall i :: 0 <= i < |a| ==> a[i].id == b[i].id && a[i].value == b[i].value
  }

  lemma BuryAlike(bs: seq<Block>, i: nat, j: nat, e: Replacement)
    requires i <= j < |bs|
    ensures Alike(bs, Bury(bs, i, j, e))
    ensures forall a :: 0 <= a < |bs| ==>
              Bury(bs, i, j, e)[a] == if i < a <= j then RemoveBlock(bs[a], e.editedAt, e.seen) else bs[a]
  {
    DeleteRangeAll(bs, i + 1, j + 1, e.editedAt, e.seen);
  }

  lemma {:induction false} AlikeWalk(a: seq<Block>, b: seq<Block>, i: nat, t: Ticket)
    requires Alike(a, b) && i < |a|
    ensures SkipLater(a, i, t) == SkipLater(b, i, t)
    decreases |a| - i
  {
    if i + 1 < |a| {
      AlikeWalk(a, b, i + 1, t);
    }
  }

  /** The content of an edit, if it has any, behind block `i`. */
  function PutAny(bs: seq<Block>, i: nat, e: Replacement): seq<Block>
    requires i < |bs|
  {
    if e.content == [] then bs else Put(bs, i, e.Put())
  }

  lemma RightSplit(c: seq<Block>, i: nat, l: nat, j: nat, t: Ticket)
    requires i <= j < |c| && l <= |c[i].value|
    ensures var s := SplitBlock(c, i, l);
            |s| == |c| + 1 && RightOf(Found(c, SkipLater(c, j, t))) == RightOf(Found(s, SkipLater(s, j + 1, t)))
  {
    SkipSplit(c, i, l, j, t);
  }

  lemma RightCut(c: seq<Block>, pos: NodePos, i: nat, j: nat, t: Ticket)
    requires WellFormed(c) && Inside(c, AbsoluteID(pos), i) && i <= j < |c|
    ensures j + 1 < |Cut(c, pos)|
    ensures RightOf(Found(c, SkipLater(c, j, t))) == RightOf(Found(Cut(c, pos), SkipLater(Cut(c, pos), j + 1, t)))
  {
    CutIs(c, pos, i);
    RightSplit(c, i, AbsoluteID(pos).offset - c[i].id.offset, j, t);
  }

  /** The cut at the start of the range changes nothing where the walk at its end stops. */
  lemma RightStays(c: seq<Block>, e: Replacement, i: nat, j: nat, i': nat, j': nat)
    requires WellFormed(c) && Spans(c, e, i, j) && !Inside(c, e.To(), j)
    requires Spans(Cut(c, e.from), e, i', j')
    ensures var s, t := Cut(c, e.from), e.editedAt;
            RightOf(Found(c, SkipLater(c, j, t))) == RightOf(Found(s, SkipLater(s, j', t)))
  {
    EndMoves(c, e, i, j, j');
    if Inside(c, e.From(), i) {
      RightCut(c, e.from, i, j, e.editedAt);
    } else {
      CutWhole(c, e.from, i);
    }
  }

  lemma CutWhole(bs: seq<Block>, pos: NodePos, i: nat)
    requires WellFormed(bs) && Reaches(bs, AbsoluteID(pos), i) && !Inside(bs, AbsoluteID(pos), i)
    ensures Cut(bs, pos) == bs
  {
    CutIs(bs, pos, i);
  }

  lemma EndMoves(c: seq<Block>, e: Replacement, i: nat, j: nat, j': nat)
    requires WellFormed(c) && Spans(c, e, i, j) && !Inside(c, e.To(), j) && Reaches(Cut(c, e.from), e.To(), j')
    ensures j' == if Inside(c, e.From(), i) then j + 1 else j
  {
    var l := e.From().offset - c[i].id.offset;
    CutEnds(c, e.from, i, e.to, j);
    ReachedOnce(Cut(c, e.from), e.to, j', if Inside(c, e.From(), i) then Reaching(c, i, l, e.To(), j) else j);
  }

  lemma CutCausal(bs: seq<Block>, pos: NodePos, e: Replacement)
    requires WellFormed(bs) && Causal(bs, e)
    ensures Causal(Cut(bs, pos), e)
  {
    if Resolve(bs, pos).Some? {
      var p := Resolve(bs, pos).value;
      if 0 < p.offset < |bs[p.index].value| {
        forall a | 0 <= a < |Cut(bs, pos)| ensures SeesNothingLater(e, Cut(bs, pos)[a].id.createdAt) {
          SplitTicket(bs, p.index, p.offset, a);
          assert SeesNothingLater(e, bs[Whole(p.index, a)].id.createdAt);
        }
      }
    }
  }

  lemma EditSpan(left: Found, right: Found, i: nat, j: nat, e: Replacement)
    requires WellFormed(left.blocks) && Causal(left.blocks, e) && i <= j < |left.blocks|
    requires left.left == SkipLater(left.blocks, i, e.editedAt) && right.left < |right.blocks|
    requires RightOf(right) == RightOf(Found(left.blocks, SkipLater(left.blocks, j, e.editedAt)))
    ensures EditBetween(left, right, e.seen, e.content, e.editedAt).blocks == PutAny(Bury(left.blocks, i, j, e), i, e)
  {
    WalkGrows(left.blocks, i, j, e.editedAt);
    StopThere(left.blocks, left.left + 1, SkipLater(left.blocks, j, e.editedAt) + 1);
    WalksDoNotMatter(left.blocks, i, j, e);
    WalkBuried(left.blocks, i, j, e);
    BetweenIs(left, right, SkipLater(left.blocks, j, e.editedAt) + 1, Bury(left.blocks, i, j, e), i, e);
  }

  lemma BetweenIs(left: Found, right: Found, hi: nat, buried: seq<Block>, i: nat, e: Replacement)
    requires left.left < |left.blocks| && right.left < |right.blocks|
    requires StopIndex(left.blocks, left.left + 1, RightOf(right)) == hi
    requires DeleteRange(left.blocks, left.left + 1, hi, e.editedAt, e.seen) == buried
    requires i < |buried| && SkipLater(buried, i, e.editedAt) == left.left
    ensures EditBetween(left, right, e.seen, e.content, e.editedAt).blocks == PutAny(buried, i, e)
  {
  }

  lemma WalkBuried(bs: seq<Block>, i: nat, j: nat, e: Replacement)
    requires i <= j < |bs|
    ensures SkipLater(Bury(bs, i, j, e), i, e.editedAt) == SkipLater(bs, i, e.editedAt)
  {
    BuryAlike(bs, i, j, e);
    AlikeWalk(bs, Bury(bs, i, j, e), i, e.editedAt);
  }

  /** What an edit does, said without its walks. */
  lemma ReplaceIs(bs: seq<Block>, e: Replacement, i0: nat, j0: nat, i: nat, j: nat)
    requires WellFormed(bs) && Causal(bs, e) && Spans(bs, e, i0, j0) && Spans(Cuts(bs, e), e, i, j)
    ensures Replace(bs, e) == Some(PutAny(Bury(Cuts(bs, e), i, j, e), i, e))
  {
    var c, s, t := Cut(bs, e.to), Cuts(bs, e), e.editedAt;
    var i1, j1 := CutSpans(bs, e.to, j0, e, i0, j0);
    CutReaches(bs, e.to, j0);
    ReachedOnce(c, e.to, j0, j1);
    CutReaches(c, e.from, i1);
    ReachedOnce(s, e.from, i, i1);
    FindIs(bs, e.to, t, j0);
    FindIs(c, e.from, t, i1);
    RightStays(c, e, i1, j1, i, j);
    CutCausal(bs, e.to, e);
    CutCausal(c, e.from, e);
    EditSpan(Found(s, SkipLater(s, i, t)), Found(c, SkipLater(c, j1, t)), i, j, e);
  }

  // ----- only ids and values matter to positions -----

  lemma AlikeWellFormed(a: seq<Block>, b: seq<Block>)
    requires Alike(a, b) && WellFormed(a) && b != [] && b[0] == Head
    ensures WellFormed(b)
  {
    forall i, j | 0 <= i < j < |b| ensures Clear(b, i, j) {
      assert Clear(a, i, j);
    }
    forall i | 0 < i < |b| ensures Proper(b, i) {
      assert Proper(a, i);
    }
  }

  lemma BuryWell(bs: seq<Block>, i: nat, j: nat, e: Replacement)
    requires WellFormed(bs) && i <= j < |bs|
    ensures WellFormed(Bury(bs, i, j, e)) && Alike(bs, Bury(bs, i, j, e))
  {
    BuryAlike(bs, i, j, e);
    AlikeWellFormed(bs, Bury(bs, i, j, e));
  }

  lemma AlikeReaches(a: seq<Block>, b: seq<Block>, id: NodeID, i: nat)
    requires Alike(a, b) && Reaches(a, id, i)
    ensures Reaches(b, id, i) && (AtStart(b, id, i) <==> AtStart(a, id, i)) && (Inside(b, id, i) <==> Inside(a, id, i))
  {
    assert SameInsertion(b, id, i);
    if NothingBefore(a, id) {
      forall j | 0 <= j < |b| && SameInsertion(b, id, j) ensures b[j].id.offset >= id.offset {
        assert SameInsertion(a, id, j);
      }
    }
  }

  lemma CutAlike(a: seq<Block>, b: seq<Block>, pos: NodePos, i: nat)
    requires Alike(a, b) && WellFormed(a) && WellFormed(b) && Reaches(a, AbsoluteID(pos), i)
    ensures Reaches(b, AbsoluteID(pos), i) && Alike(Cut(a, pos), Cut(b, pos))
  {
    assert SameInsertion(a, AbsoluteID(pos), i);
    AlikeReaches(a, b, AbsoluteID(pos), i);
    if Inside(a, AbsoluteID(pos), i) {
      CutInsideAlike(a, b, pos, i, AbsoluteID(pos).offset - a[i].id.offset);
    } else {
      CutWhole(a, pos, i);
      CutWhole(b, pos, i);
    }
  }

  lemma CutInsideAlike(a: seq<Block>, b: seq<Block>, pos: NodePos, i: nat, l: nat)
    requires Alike(a, b) && WellFormed(a) && WellFormed(b) && i < |a| && 0 < l < |a[i].value|
    requires AbsoluteID(pos) == a[i].id.Split(l)
    ensures Alike(Cut(a, pos), Cut(b, pos))
  {
    CutInside(a, pos, i, l);
    CutInside(b, pos, i, l);
    SplitAlike(a, b, i, l);
  }

  lemma SplitAlike(a: seq<Block>, b: seq<Block>, i: nat, l: nat)
    requires Alike(a, b) && i < |a| && l <= |a[i].value|
    ensures Alike(SplitBlock(a, i, l), SplitBlock(b, i, l))
  {
  }

  lemma AlikeSpans(a: seq<Block>, b: seq<Block>, e: Replacement, i: nat, j: nat)
    requires Alike(a, b) && Spans(a, e, i, j)
    ensures Spans(b, e, i, j)
    ensures Inside(b, e.From(), i) <==> Inside(a, e.From(), i)
    ensures Inside(b, e.To(), j) <==> Inside(a, e.To(), j)
  {
    AlikeReaches(a, b, e.From(), i);
    AlikeReaches(a, b, e.To(), j);
  }

  lemma CutsAlike(a: seq<Block>, b: seq<Block>, e: Replacement, i: nat, j: nat)
    requires Alike(a, b) && WellFormed(a) && WellFormed(b) && Spans(a, e, i, j)
    ensures Alike(Cuts(a, e), Cuts(b, e)) && WellFormed(Cuts(a, e)) && WellFormed(Cuts(b, e))
  {
    AlikeSpans(a, b, e, i, j);
    CutAlike(a, b, e.to, j);
    var i1, j1 := CutSpans(a, e.to, j, e, i, j);
    AlikeSpans(Cut(a, e.to), Cut(b, e.to), e, i1, j1);
    CutReaches(b, e.to, j);
    CutAlike(Cut(a, e.to), Cut(b, e.to), e.from, i1);
    CutReaches(Cut(a, e.to), e.from, i1);
    CutReaches(Cut(b, e.to), e.from, i1);
  }

  // ----- when a block was removed, whatever was cut since -----

  ghost predicate Starts(bs: seq<Block>, id: NodeID) {
    exists k :: 0 <= k < |bs| && bs[k].id == id
  }

  /** The removal time of the block that starts there; a part cut off on the right has none. */
  ghost function TimeOf(bs: seq<Block>, id: NodeID): Option<Ticket> {
    if Starts(bs, id) then var k :| 0 <= k < |bs| && bs[k].id == id; bs[k].removedAt else None
  }

  lemma TimeOfIs(bs: seq<Block>, k: nat)
    requires WellFormed(bs) && k < |bs|
    ensures Starts(bs, bs[k].id) && TimeOf(bs, bs[k].id) == bs[k].removedAt
  {
    var i :| 0 <= i < |bs| && bs[i].id == bs[k].id && TimeOf(bs, bs[k].id) == bs[i].removedAt;
    IdsDiffer(bs, i, k);
  }

  lemma NoStart(bs: seq<Block>, id: NodeID, i: nat)
    requires WellFormed(bs) && Inside(bs, id, i)
    ensures !Starts(bs, id)
  {
    forall k | 0 <= k < |bs| ensures bs[k].id != id {
      NothingInside(bs, i, k);
      NothingInside(bs, k, i);
      assert k > 0 ==> Proper(bs, k);
    }
  }

  /** A cut brings in one more start at most, of a part that is live. */
  lemma CutTime(bs: seq<Block>, pos: NodePos, i: nat, id: NodeID)
    requires WellFormed(bs) && Reaches(bs, AbsoluteID(pos), i)
    ensures TimeOf(Cut(bs, pos), id) == TimeOf(bs, id)
    ensures Starts(Cut(bs, pos), id) <==> Starts(bs, id) || (Inside(bs, AbsoluteID(pos), i) && id == AbsoluteID(pos))
  {
    CutIs(bs, pos, i);
    if Inside(bs, AbsoluteID(pos), i) {
      NoStart(bs, AbsoluteID(pos), i);
      SplitTime(bs, i, AbsoluteID(pos).offset - bs[i].id.offset, id);
    }
  }

  lemma SplitTime(bs: seq<Block>, i: nat, l: nat, id: NodeID)
    requires WellFormed(bs) && i < |bs| && 0 < l < |bs[i].value| && !Starts(bs, bs[i].id.Split(l))
    ensures TimeOf(SplitBlock(bs, i, l), id) == TimeOf(bs, id)
    ensures Starts(SplitBlock(bs, i, l), id) <==> Starts(bs, id) || id == bs[i].id.Split(l)
  {
    var r := SplitBlock(bs, i, l);
    SplitWellFormed(bs, i, l);
    if Starts(bs, id) {
      var k: nat :| k < |bs| && bs[k].id == id;
      TimeOfIs(bs, k);
      TimeOfIs(r, if k <= i then k else k + 1);
    } else if id == bs[i].id.Split(l) {
      TimeOfIs(r, i + 1);
    }
  }

  // ----- one edit after the other -----

  /** The edit may be made on the text: its range is there, and it has seen nothing it could not. */
  ghost predicate Fits(bs: seq<Block>, e: Replacement) {
    Causal(bs, e) && (exists i, j :: Spans(bs, e, i, j)) && (e.content == [] || FreshTicket(bs, e.editedAt))
  }

  /** The second edit was made without the first. */
  ghost predicate Unaware(e2: Replacement, e1: Replacement) {
    !Seen(e2.seen, e1.editedAt)
  }

  /** Where the content of `e1` goes, once it does not stop block `f` from being found. */
  function Shifted(bs: seq<Block>, i: nat, e1: Replacement, f: nat): nat
    requires i < |bs|
  {
    if e1.content == [] || f < SkipLater(bs, i, e1.editedAt) + 1 then f else f + 1
  }

  lemma PutReaches(bs: seq<Block>, i: nat, e1: Replacement, id: NodeID, f: nat)
    requires WellFormed(bs) && i < |bs| && (e1.content == [] || FreshTicket(bs, e1.editedAt)) && Reaches(bs, id, f)
    ensures var r, f' := PutAny(bs, i, e1), Shifted(bs, i, e1, f);
            && WellFormed(r) && f' < |r| && r[f'] == bs[f] && Reaches(r, id, f')
            && (AtStart(r, id, f') <==> AtStart(bs, id, f)) && (Inside(r, id, f') <==> Inside(bs, id, f))
  {
    if e1.content != [] {
      PutKeeps(bs, i, e1.Put(), id, f);
    }
  }

  lemma PutSpans(bs: seq<Block>, i: nat, e1: Replacement, e: Replacement, f: nat, g: nat)
    requires WellFormed(bs) && i < |bs| && (e1.content == [] || FreshTicket(bs, e1.editedAt)) && Spans(bs, e, f, g)
    ensures var r := PutAny(bs, i, e1);
            WellFormed(r) && Spans(r, e, Shifted(bs, i, e1, f), Shifted(bs, i, e1, g))
  {
    PutReaches(bs, i, e1, e.From(), f);
    PutReaches(bs, i, e1, e.To(), g);
  }

  lemma PutCausal(bs: seq<Block>, i: nat, e1: Replacement, e: Replacement)
    requires i < |bs| && Causal(bs, e) && Unaware(e, e1)
    ensures Causal(PutAny(bs, i, e1), e)
  {
    var g, r := SkipLater(bs, i, e1.editedAt) + 1, PutAny(bs, i, e1);
    if e1.content != [] {
      forall a | 0 <= a < |r| ensures SeesNothingLater(e, r[a].id.createdAt) {
        ArrayItems.InsertedAt(bs, g, e1.Put().Inserted(), a);
        assert a != g ==> SeesNothingLater(e, bs[if a < g then a else a - 1].id.createdAt);
      }
    }
  }

  /** Putting the content of `e1` in and cutting at an end of a range can be done in either order. */
  lemma CutPutAny(bs: seq<Block>, i: nat, e1: Replacement, pos: NodePos, j: nat) returns (i': nat)
    requires WellFormed(bs) && (e1.content == [] || FreshTicket(bs, e1.editedAt))
    requires Ends(bs, e1.From(), i) && !Inside(bs, e1.From(), i) && Ends(bs, AbsoluteID(pos), j)
    ensures var t := Cut(bs, pos);
            && WellFormed(t) && Ends(t, e1.From(), i') && !Inside(t, e1.From(), i')
            && Cut(PutAny(bs, i, e1), pos) == PutAny(t, i', e1)
  {
    CutEnds(bs, pos, j, e1.from, i);
    CutReaches(bs, pos, j);
    i' := if Inside(bs, AbsoluteID(pos), j) && j <= i then i + 1 else i;
    if e1.content != [] {
      CutPut(bs, i, e1.Put(), pos, j);
    }
  }

  lemma CutsPutAny(bs: seq<Block>, i: nat, e1: Replacement, e2: Replacement, f: nat, g: nat) returns (i': nat)
    requires WellFormed(bs) && (e1.content == [] || FreshTicket(bs, e1.editedAt))
    requires Ends(bs, e1.From(), i) && !Inside(bs, e1.From(), i) && Spans(bs, e2, f, g)
    ensures var t := Cuts(bs, e2);
            && WellFormed(t) && Ends(t, e1.From(), i') && !Inside(t, e1.From(), i')
            && Cuts(PutAny(bs, i, e1), e2) == PutAny(t, i', e1)
  {
    var i1 := CutPutAny(bs, i, e1, e2.to, g);
    var f1, g1 := CutSpans(bs, e2.to, g, e2, f, g);
    if e1.content != [] {
      CutFresh(bs, e2.to, e1.editedAt);
    }
    i' := CutPutAny(Cut(bs, e2.to), i1, e1, e2.from, f1);
  }

  /** The content of `e1` is not removed by `e2`. */
  lemma BuryPut(bs: seq<Block>, i: nat, e1: Replacement, e2: Replacement, f: nat, g: nat)
    requires i < |bs| && f <= g < |bs| && Unaware(e2, e1) && (e1.content == [] || e1.editedAt != InitialTicket)
    ensures var f', g' := Shifted(bs, i, e1, f), Shifted(bs, i, e1, g);
            && f' <= g' < |PutAny(bs, i, e1)|
            && Bury(PutAny(bs, i, e1), f', g', e2) == PutAny(Bury(bs, f, g, e2), i, e1)
  {
    BuryAlike(bs, f, g, e2);
    AlikeWalk(bs, Bury(bs, f, g, e2), i, e1.editedAt);
    if e1.content != [] {
      BuryInserted(bs, SkipLater(bs, i, e1.editedAt) + 1, e1.Put().Inserted(), e2, f, g);
    }
  }

  lemma BuryInserted(bs: seq<Block>, w: nat, b: Block, e2: Replacement, f: nat, g: nat)
    requires w <= |bs| && f <= g < |bs| && !Seen(e2.seen, b.id.createdAt) && b.id.createdAt != InitialTicket
    ensures var f', g' := if f < w then f else f + 1, if g < w then g else g + 1;
            && f' <= g' < |InsertBlock(bs, w, b)|
            && Bury(InsertBlock(bs, w, b), f', g', e2) == InsertBlock(Bury(bs, f, g, e2), w, b)
  {
    var f', g' := if f < w then f else f + 1, if g < w then g else g + 1;
    var l, r := Bury(InsertBlock(bs, w, b), f', g', e2), InsertBlock(Bury(bs, f, g, e2), w, b);
    SeenIff(e2.seen, b.id.createdAt);
    BuryAlike(InsertBlock(bs, w, b), f', g', e2);
    BuryAlike(bs, f, g, e2);
    forall a | 0 <= a < |l| ensures l[a] == r[a] {
      ArrayItems.InsertedAt(bs, w, b, a);
      ArrayItems.InsertedAt(Bury(bs, f, g, e2), w, b, a);
    }
  }

  /** Both contents: that of `e1`, then that of `e2`. */
  function PutTwo(bs: seq<Block>, i: nat, e1: Replacement, f: nat, e2: Replacement): seq<Block>
    requires i < |bs| && f < |bs|
  {
    PutAny(PutAny(bs, i, e1), Shifted(bs, i, e1, f), e2)
  }

  lemma PutTwoSwap(bs: seq<Block>, i: nat, e1: Replacement, f: nat, e2: Replacement)
    requires i < |bs| && f < |bs| && e1.editedAt != e2.editedAt
    ensures PutTwo(bs, i, e1, f, e2) == PutTwo(bs, f, e2, i, e1)
  {
    if e1.content != [] && e2.content != [] {
      PutPut(bs, i, e1.Put(), f, e2.Put());
    }
  }

  lemma CutFits(bs: seq<Block>, cut: NodePos, c: nat, e: Replacement)
    requires WellFormed(bs) && Ends(bs, AbsoluteID(cut), c) && Fits(bs, e)
    ensures WellFormed(Cut(bs, cut)) && Fits(Cut(bs, cut), e)
  {
    var i: nat, j: nat :| Spans(bs, e, i, j);
    var i', j' := CutSpans(bs, cut, c, e, i, j);
    CutCausal(bs, cut, e);
    if e.content != [] {
      CutFresh(bs, cut, e.editedAt);
    }
  }

  lemma CutsFit(bs: seq<Block>, e1: Replacement, i: nat, j: nat, e: Replacement)
    requires WellFormed(bs) && Spans(bs, e1, i, j) && Fits(bs, e)
    ensures WellFormed(Cuts(bs, e1)) && Fits(Cuts(bs, e1), e)
  {
    CutFits(bs, e1.to, j, e);
    var i1, j1 := CutSpans(bs, e1.to, j, e1, i, j);
    CutFits(Cut(bs, e1.to), e1.from, i1, e);
  }

  lemma BuryFits(bs: seq<Block>, i: nat, j: nat, e1: Replacement, e: Replacement)
    requires WellFormed(bs) && i <= j < |bs| && Fits(bs, e)
    ensures WellFormed(Bury(bs, i, j, e1)) && Fits(Bury(bs, i, j, e1), e)
  {
    var r := Bury(bs, i, j, e1);
    var f, g :| Spans(bs, e, f, g);
    BuryWell(bs, i, j, e1);
    AlikeSpans(bs, r, e, f, g);
    forall a | 0 <= a < |r| ensures SeesNothingLater(e, r[a].id.createdAt) {
      assert SeesNothingLater(e, bs[a].id.createdAt);
    }
  }

  lemma PutFits(bs: seq<Block>, i: nat, e1: Replacement, e: Replacement)
    requires WellFormed(bs) && i < |bs| && (e1.content == [] || FreshTicket(bs, e1.editedAt))
    requires Fits(bs, e) && Unaware(e, e1) && e.editedAt != e1.editedAt
    ensures WellFormed(PutAny(bs, i, e1)) && Fits(PutAny(bs, i, e1), e)
  {
    var f: nat, g: nat :| Spans(bs, e, f, g);
    PutSpans(bs, i, e1, e, f, g);
    PutCausal(bs, i, e1, e);
    if e1.content != [] && e.content != [] {
      PutFresh(bs, i, e1.Put(), e.editedAt);
    }
  }

  /** The text cut for `e1`, with its range buried. */
  lemma BuriedFirst(bs: seq<Block>, e1: Replacement) returns (s: seq<Block>, i: nat, j: nat, b: seq<Block>)
    requires WellFormed(bs) && Fits(bs, e1)
    ensures s == Cuts(bs, e1) && WellFormed(s) && Spans(s, e1, i, j)
    ensures !Inside(s, e1.From(), i) && !Inside(s, e1.To(), j)
    ensures b == Bury(s, i, j, e1) && WellFormed(b) && Alike(s, b) && (e1.content == [] || FreshTicket(b, e1.editedAt))
    ensures Replace(bs, e1) == Some(PutAny(b, i, e1))
  {
    var i0: nat, j0: nat :| Spans(bs, e1, i0, j0);
    s := Cuts(bs, e1);
    i, j := CutsSpan(bs, e1, i0, j0);
    b := Bury(s, i, j, e1);
    CutsFit(bs, e1, i0, j0, e1);
    BuryFits(s, i, j, e1, e1);
    BuryWell(s, i, j, e1);
    ReplaceIs(bs, e1, i0, j0, i, j);
  }

  /** What an edit does to a text that holds the content of another one. */
  lemma ReplacePut(b: seq<Block>, i: nat, e1: Replacement, e2: Replacement) returns (i': nat, f: nat, g: nat)
    requires WellFormed(b) && (e1.content == [] || FreshTicket(b, e1.editedAt)) && Fits(b, e2)
    requires Ends(b, e1.From(), i) && !Inside(b, e1.From(), i) && Unaware(e2, e1) && e1.editedAt != e2.editedAt
    ensures var u := Cuts(b, e2);
            && WellFormed(u) && Ends(u, e1.From(), i') && Spans(u, e2, f, g)
            && Replace(PutAny(b, i, e1), e2) == Some(PutTwo(Bury(u, f, g, e2), i', e1, f, e2))
  {
    var f0: nat, g0: nat :| Spans(b, e2, f0, g0);
    f, g := CutsSpan(b, e2, f0, g0);
    i' := CutsPutAny(b, i, e1, e2, f0, g0);
    PutFits(b, i, e1, e2);
    PutSpans(b, i, e1, e2, f0, g0);
    CutsFresh(b, e2, f0, g0, e1);
    PutSpans(Cuts(b, e2), i', e1, e2, f, g);
    ReplaceIs(PutAny(b, i, e1), e2, Shifted(b, i, e1, f0), Shifted(b, i, e1, g0),
              Shifted(Cuts(b, e2), i', e1, f), Shifted(Cuts(b, e2), i', e1, g));
    assert b[0].id.createdAt == InitialTicket;
    PutBuried(Cuts(b, e2), i', e1, e2, f, g);
  }

  lemma PutBuried(u: seq<Block>, i: nat, e1: Replacement, e2: Replacement, f: nat, g: nat)
    requires i < |u| && f <= g < |u| && Unaware(e2, e1) && (e1.content == [] || e1.editedAt != InitialTicket)
    ensures var f', g' := Shifted(u, i, e1, f), Shifted(u, i, e1, g);
            && f' <= g' < |PutAny(u, i, e1)|
            && PutAny(Bury(PutAny(u, i, e1), f', g', e2), f', e2) == PutTwo(Bury(u, f, g, e2), i, e1, f, e2)
  {
    BuryPut(u, i, e1, e2, f, g);
    BuryAlike(u, f, g, e2);
    AlikeWalk(u, Bury(u, f, g, e2), i, e1.editedAt);
  }

  lemma CutsFresh(bs: seq<Block>, e: Replacement, i: nat, j: nat, e1: Replacement)
    requires WellFormed(bs) && Spans(bs, e, i, j) && (e1.content == [] || FreshTicket(bs, e1.editedAt))
    ensures e1.content == [] || FreshTicket(Cuts(bs, e), e1.editedAt)
  {
    if e1.content != [] {
      CutReaches(bs, e.to, j);
      CutFresh(bs, e.to, e1.editedAt);
      CutFresh(Cut(bs, e.to), e.from, e1.editedAt);
    }
  }

  /** The text cut for both edits. */
  function BothCut(bs: seq<Block>, e1: Replacement, e2: Replacement): seq<Block> {
    Cuts(Cuts(bs, e1), e2)
  }

  /** The two edits in order: both contents, in a text `v` that is cut for both edits and differs
      from the original in nothing but what is removed, and when. */
  lemma ReplaceTwice(bs: seq<Block>, e1: Replacement, e2: Replacement)
      returns (s: seq<Block>, i: nat, j: nat, b: seq<Block>, u: seq<Block>, v: seq<Block>, i': nat, f: nat, g: nat)
    requires WellFormed(bs) && Fits(bs, e1) && Fits(bs, e2) && Unaware(e2, e1) && e1.editedAt != e2.editedAt
    ensures s == Cuts(bs, e1) && WellFormed(s) && Spans(s, e1, i, j) && b == Bury(s, i, j, e1) && WellFormed(b)
    ensures !Inside(s, e1.From(), i) && !Inside(s, e1.To(), j) && Fits(s, e2) && Fits(b, e2)
    ensures u == Cuts(b, e2) && WellFormed(u) && Alike(BothCut(bs, e1, e2), u)
    ensures Ends(u, e1.From(), i') && Spans(u, e2, f, g) && v == Bury(u, f, g, e2)
    ensures Replace(bs, e1).Some? && Replace(Replace(bs, e1).value, e2) == Some(PutTwo(v, i', e1, f, e2))
  {
    s, i, j, b := BuriedFirst(bs, e1);
    var i0: nat, j0: nat :| Spans(bs, e1, i0, j0);
    CutsFit(bs, e1, i0, j0, e2);
    BuryFits(s, i, j, e1, e2);
    AlikeSpans(s, b, e1, i, j);
    i', f, g := ReplacePut(b, i, e1, e2);
    u := Cuts(b, e2);
    v := Bury(u, f, g, e2);
    var f0: nat, g0: nat :| Spans(s, e2, f0, g0);
    CutsAlike(s, b, e2, f0, g0);
  }

  // ----- cuts of the two edits in either order -----

  lemma CutPast(bs: seq<Block>, p: NodePos, e: Replacement)
    requires WellFormed(bs) && InText(bs, p) && InText(bs, e.to) && InText(bs, e.from)
    ensures Cuts(Cut(bs, p), e) == Cut(Cuts(bs, e), p)
  {
    CutInText(bs, e.to, p);
    CutInText(bs, e.to, e.from);
    CutsCommute(bs, p, e.to);
    CutWell(bs, e.to);
    CutsCommute(Cut(bs, e.to), p, e.from);
  }

  lemma CutWell(bs: seq<Block>, pos: NodePos)
    requires WellFormed(bs)
    ensures WellFormed(Cut(bs, pos))
  {
    if Resolve(bs, pos).Some? {
      SplitWellFormed(bs, Resolve(bs, pos).value.index, Resolve(bs, pos).value.offset);
    }
  }

  lemma FitsInText(bs: seq<Block>, e: Replacement)
    requires Fits(bs, e)
    ensures InText(bs, e.from) && InText(bs, e.to)
  {
  }

  lemma BothCutsCommute(bs: seq<Block>, e1: Replacement, e2: Replacement)
    requires WellFormed(bs) && Fits(bs, e1) && Fits(bs, e2)
    ensures BothCut(bs, e1, e2) == BothCut(bs, e2, e1) && WellFormed(BothCut(bs, e1, e2))
  {
    FitsInText(bs, e1);
    FitsInText(bs, e2);
    CutInText(bs, e1.to, e1.from);
    CutInText(bs, e1.to, e2.from);
    CutInText(bs, e1.to, e2.to);
    CutWell(bs, e1.to);
    CutPast(bs, e1.to, e2);
    CutPast(Cut(bs, e1.to), e1.from, e2);
    CutWell(Cut(bs, e1.to), e1.from);
    CutWell(Cuts(bs, e1), e2.to);
    CutWell(Cut(Cuts(bs, e1), e2.to), e2.from);
  }

  // ----- what is removed in the end -----

  lemma CutsTime(bs: seq<Block>, e: Replacement, i: nat, j: nat, id: NodeID)
    requires WellFormed(bs) && Spans(bs, e, i, j)
    ensures TimeOf(Cuts(bs, e), id) == TimeOf(bs, id) && (Starts(bs, id) ==> Starts(Cuts(bs, e), id))
  {
    var i1, j1 := CutSpans(bs, e.to, j, e, i, j);
    CutTime(bs, e.to, j, id);
    CutTime(Cut(bs, e.to), e.from, i1, id);
  }

  /** A start that the cuts of `e` bring in is an end of its range, inside a block until then. */
  lemma NewStart(bs: seq<Block>, e: Replacement, i: nat, j: nat, id: NodeID)
    requires WellFormed(bs) && Spans(bs, e, i, j) && Starts(Cuts(bs, e), id) && !Starts(bs, id)
    ensures (id == e.To() && Inside(bs, id, j)) || (id == e.From() && Inside(bs, id, i))
  {
    var i1, j1 := CutSpans(bs, e.to, j, e, i, j);
    CutTime(bs, e.to, j, id);
    CutTime(Cut(bs, e.to), e.from, i1, id);
    CutEnds(bs, e.to, j, e.from, i);
    ReachedOnce(Cut(bs, e.to), e.from, i1, if Inside(bs, e.To(), j)
      then Reaching(bs, j, e.To().offset - bs[j].id.offset, e.From(), i) else i);
  }

  lemma CutStarts(bs: seq<Block>, e: Replacement, i: nat, j: nat)
    requires WellFormed(bs) && Spans(bs, e, i, j)
    ensures Inside(bs, e.To(), j) ==> Starts(Cuts(bs, e), e.To())
    ensures Inside(bs, e.From(), i) ==> Starts(Cuts(bs, e), e.From())
  {
    var i1, j1 := CutSpans(bs, e.to, j, e, i, j);
    CutTime(bs, e.to, j, e.To());
    CutTime(Cut(bs, e.to), e.from, i1, e.To());
    var i2, j2 := CutSpans(bs, e.from, i, e, i, j);
    CutTime(bs, e.from, i, e.From());
    CutTime(Cut(bs, e.from), e.to, j2, e.From());
    CutsCommute(bs, e.to, e.from);
  }

  /** Every start is one that the cuts of one of the edits alone bring in. */
  lemma StartsEither(bs: seq<Block>, e1: Replacement, e2: Replacement, id: NodeID)
    requires WellFormed(bs) && Fits(bs, e1) && Fits(bs, e2) && Starts(BothCut(bs, e1, e2), id)
    ensures Starts(Cuts(bs, e1), id) || Starts(Cuts(bs, e2), id)
  {
    if !Starts(Cuts(bs, e1), id) {
      var i: nat, j: nat :| Spans(bs, e1, i, j);
      var f: nat, g: nat :| Spans(bs, e2, f, g);
      var f1, g1 := CutsSpans(bs, e1, i, j, e2, f, g);
      NewStart(Cuts(bs, e1), e2, f1, g1, id);
      CutStarts(bs, e2, f, g);
    }
  }

  lemma CutsSpans(bs: seq<Block>, e1: Replacement, i: nat, j: nat, e: Replacement, f: nat, g: nat)
      returns (f': nat, g': nat)
    requires WellFormed(bs) && Spans(bs, e1, i, j) && Spans(bs, e, f, g)
    ensures WellFormed(Cuts(bs, e1)) && Spans(Cuts(bs, e1), e, f', g')
    ensures !Inside(bs, e.From(), f) ==> !Inside(Cuts(bs, e1), e.From(), f')
    ensures !Inside(bs, e.To(), g) ==> !Inside(Cuts(bs, e1), e.To(), g')
  {
    var i1, j1 := CutSpans(bs, e1.to, j, e1, i, j);
    var f1, g1 := CutSpans(bs, e1.to, j, e, f, g);
    f', g' := CutSpans(Cut(bs, e1.to), e1.from, i1, e, f1, g1);
  }

  /** Where a block starts and where a range ends keep their order through a cut. */
  lemma CutOrder(bs: seq<Block>, cut: NodePos, c: nat, id: NodeID, i: nat, i': nat, k: nat, a: nat)
    requires WellFormed(bs) && Ends(bs, AbsoluteID(cut), c) && Ends(bs, id, i) && !Inside(bs, id, i)
    requires WellFormed(Cut(bs, cut)) && Reaches(Cut(bs, cut), id, i') && k < |bs| && a < |Cut(bs, cut)|
    requires Cut(bs, cut)[a].id == bs[k].id
    ensures i < k <==> i' < a
  {
    if Inside(bs, AbsoluteID(cut), c) {
      assert SameInsertion(bs, AbsoluteID(cut), c);
      CutOrderInside(bs, cut, c, AbsoluteID(cut).offset - bs[c].id.offset, id, i, i', k, a);
    } else {
      CutWhole(bs, cut, c);
      IdsDiffer(bs, a, k);
      OneReaches(bs, id, i, i');
    }
  }

  lemma CutOrderInside(bs: seq<Block>, cut: NodePos, c: nat, l: nat, id: NodeID, i: nat, i': nat, k: nat, a: nat)
    requires WellFormed(bs) && c < |bs| && 0 < l < |bs[c].value| && AbsoluteID(cut) == bs[c].id.Split(l)
    requires Ends(bs, id, i) && !Inside(bs, id, i) && WellFormed(Cut(bs, cut)) && Reaches(Cut(bs, cut), id, i')
    requires k < |bs| && a < |Cut(bs, cut)| && Cut(bs, cut)[a].id == bs[k].id
    ensures i < k <==> i' < a
  {
    CutInside(bs, cut, c, l);
    EndReached(bs, c, l, id, i, i');
    StartMoved(bs, c, l, k, a);
  }

  lemma StartMoved(bs: seq<Block>, c: nat, l: nat, k: nat, a: nat)
    requires c < |bs| && l <= |bs[c].value| && WellFormed(SplitBlock(bs, c, l))
    requires k < |bs| && a < |SplitBlock(bs, c, l)| && SplitBlock(bs, c, l)[a].id == bs[k].id
    ensures a == if k <= c then k else k + 1
  {
    var r := SplitBlock(bs, c, l);
    assert r[if k <= c then k else k + 1].id == bs[k].id;
    IdsDiffer(r, a, if k <= c then k else k + 1);
  }

  lemma OneReaches(bs: seq<Block>, id: NodeID, i: nat, j: nat)
    requires WellFormed(bs) && Reaches(bs, id, i) && Reaches(bs, id, j)
    ensures i == j
  {
    ReachedOnce(bs, NodePos(NodeID(id.createdAt, 0), id.offset), i, j);
  }

  lemma EndReached(bs: seq<Block>, c: nat, l: nat, id: NodeID, i: nat, i': nat)
    requires WellFormed(bs) && c < |bs| && 0 < l < |bs[c].value| && Ends(bs, id, i) && !Inside(bs, id, i)
    requires WellFormed(SplitBlock(bs, c, l)) && Reaches(SplitBlock(bs, c, l), id, i')
    ensures i' == if i < c then i else i + 1
  {
    SplitReached(bs, c, l, id, i);
    OneReaches(SplitBlock(bs, c, l), id, i', Reaching(bs, c, l, id, i));
  }

  /** A block that starts in the range of an edit still does once the text was cut for another. */
  lemma RangeKept(s: seq<Block>, e1: Replacement, i: nat, j: nat, e2: Replacement, i': nat, j': nat, k: nat, a: nat)
    requires WellFormed(s) && Spans(s, e1, i, j) && !Inside(s, e1.From(), i) && !Inside(s, e1.To(), j) && Fits(s, e2)
    requires Spans(Cuts(s, e2), e1, i', j') && k < |s| && a < |Cuts(s, e2)| && Cuts(s, e2)[a].id == s[k].id
    ensures i < k <= j <==> i' < a <= j'
  {
    var f: nat, g: nat :| Spans(s, e2, f, g);
    var f1, g1 := CutSpans(s, e2.to, g, e2, f, g);
    var i1, j1 := CutSpans(s, e2.to, g, e1, i, j);
    CutTime(s, e2.to, g, s[k].id);
    assert Starts(s, s[k].id);
    var k1: nat :| k1 < |Cut(s, e2.to)| && Cut(s, e2.to)[k1].id == s[k].id;
    CutWell(Cut(s, e2.to), e2.from);
    CutOrder(s, e2.to, g, e1.From(), i, i1, k, k1);
    CutOrder(s, e2.to, g, e1.To(), j, j1, k, k1);
    CutOrder(Cut(s, e2.to), e2.from, f1, e1.From(), i1, i', k1, a);
    CutOrder(Cut(s, e2.to), e2.from, f1, e1.To(), j1, j', k1, a);
  }

  /** When a block is removed by an edit, if it is in its range and was not removed later. */
  ghost function Removal(e: Replacement, within: bool, c: Ticket, removedAt: Option<Ticket>): Option<Ticket> {
    if within && Seen(e.seen, c) && (removedAt.None? || After(e.editedAt, removedAt.value))
    then Some(e.editedAt) else removedAt
  }

  lemma BuryTimes(bs: seq<Block>, i: nat, j: nat, e: Replacement, a: nat)
    requires WellFormed(bs) && i <= j < |bs| && a < |bs|
    ensures Bury(bs, i, j, e)[a].removedAt == Removal(e, i < a <= j, bs[a].id.createdAt, bs[a].removedAt)
  {
    DeleteRangeAt(bs, i + 1, j + 1, e.editedAt, e.seen, a);
    if i < a <= j {
      assert Proper(bs, a);
      RemovedIff(bs[a], e.editedAt, e.seen);
    }
  }

  lemma BuriedTime(s: seq<Block>, i: nat, j: nat, e1: Replacement, b: seq<Block>, k: nat)
    requires WellFormed(s) && i <= j < |s| && b == Bury(s, i, j, e1) && WellFormed(b) && k < |s|
    ensures TimeOf(b, s[k].id) == Removal(e1, i < k <= j, s[k].id.createdAt, TimeOf(s, s[k].id))
  {
    BuryAlike(s, i, j, e1);
    BuryTimes(s, i, j, e1, k);
    TimeOfIs(s, k);
    TimeOfIs(b, k);
  }

  lemma BuriedNone(s: seq<Block>, i: nat, j: nat, e1: Replacement, id: NodeID)
    requires i <= j < |s| && !Starts(s, id)
    ensures TimeOf(Bury(s, i, j, e1), id) == None
  {
    BuryAlike(s, i, j, e1);
  }

  /** A block of the first text, buried by `e1`, in terms of the text that both edits cut. */
  lemma FirstTime(bs: seq<Block>, e1: Replacement, s: seq<Block>, i: nat, j: nat, e2: Replacement, b: seq<Block>,
                  t: seq<Block>, i': nat, j': nat, a: nat)
    requires WellFormed(bs) && Fits(bs, e1) && s == Cuts(bs, e1) && WellFormed(s) && Spans(s, e1, i, j)
    requires !Inside(s, e1.From(), i) && !Inside(s, e1.To(), j) && Fits(s, e2)
    requires b == Bury(s, i, j, e1) && WellFormed(b)
    requires t == Cuts(s, e2) && WellFormed(t) && Spans(t, e1, i', j') && a < |t|
    ensures TimeOf(b, t[a].id)
            == if Starts(s, t[a].id) then Removal(e1, i' < a <= j', t[a].id.createdAt, TimeOf(bs, t[a].id)) else None
  {
    var id := t[a].id;
    if Starts(s, id) {
      var k: nat :| k < |s| && s[k].id == id;
      BuriedTime(s, i, j, e1, b, k);
      RangeKept(s, e1, i, j, e2, i', j', k, a);
      var i0: nat, j0: nat :| Spans(bs, e1, i0, j0);
      CutsTime(bs, e1, i0, j0, id);
    } else {
      BuriedNone(s, i, j, e1, id);
    }
  }

  ghost function Outcome(bs: seq<Block>, e1: Replacement, within1: bool, e2: Replacement, within2: bool,
                         id: NodeID): Option<Ticket>
  {
    var removedAt := if Starts(Cuts(bs, e1), id) then Removal(e1, within1, id.createdAt, TimeOf(bs, id)) else None;
    Removal(e2, within2, id.createdAt, removedAt)
  }

  /** The blocks `v` are those of the text that both edits cut, removed as they leave them. */
  ghost predicate Leaves(bs: seq<Block>, e1: Replacement, i: int, j: int, e2: Replacement, f: int, g: int,
                         v: seq<Block>)
  {
    var t := BothCut(bs, e1, e2);
    && Alike(t, v) && Spans(t, e1, i, j) && Spans(t, e2, f, g)
    && (forall a :: 0 <= a < |t| ==> v[a].removedAt == Outcome(bs, e1, i < a <= j, e2, f < a <= g, t[a].id))
  }

  /** All that is to know of two edits executed in order. */
  lemma InOrder(bs: seq<Block>, e1: Replacement, e2: Replacement)
      returns (v: seq<Block>, i: nat, j: nat, f: nat, g: nat)
    requires WellFormed(bs) && Fits(bs, e1) && Fits(bs, e2) && Unaware(e2, e1) && e1.editedAt != e2.editedAt
    ensures Leaves(bs, e1, i, j, e2, f, g, v)
    ensures Replace(bs, e1).Some? && Replace(Replace(bs, e1).value, e2) == Some(PutTwo(v, i, e1, f, e2))
  {
    var s, k, l, b, u, i';
    s, k, l, b, u, v, i', f, g := ReplaceTwice(bs, e1, e2);
    BothCutsCommute(bs, e1, e2);
    i, j := BothSpans(bs, e1, e2);
    AlikeBack(BothCut(bs, e1, e2), u, e2, f, g);
    AlikeReaches(u, BothCut(bs, e1, e2), e1.From(), i');
    OneReaches(BothCut(bs, e1, e2), e1.From(), i, i');
    LeavesTimes(bs, e1, s, k, l, b, e2, u, i, j, f, g);
  }

  lemma LeavesTimes(bs: seq<Block>, e1: Replacement, s: seq<Block>, k: nat, l: nat, b: seq<Block>, e2: Replacement,
                    u: seq<Block>, i: nat, j: nat, f: nat, g: nat)
    requires WellFormed(bs) && Fits(bs, e1) && s == Cuts(bs, e1) && WellFormed(s) && Spans(s, e1, k, l)
    requires !Inside(s, e1.From(), k) && !Inside(s, e1.To(), l) && Fits(s, e2)
    requires b == Bury(s, k, l, e1) && WellFormed(b) && Fits(b, e2) && u == Cuts(b, e2) && WellFormed(u)
    requires WellFormed(BothCut(bs, e1, e2)) && Alike(BothCut(bs, e1, e2), u)
    requires Spans(BothCut(bs, e1, e2), e1, i, j) && Spans(BothCut(bs, e1, e2), e2, f, g)
    ensures Leaves(bs, e1, i, j, e2, f, g, Bury(u, f, g, e2))
  {
    var t, v := BothCut(bs, e1, e2), Bury(u, f, g, e2);
    BuryAlike(u, f, g, e2);
    forall a | 0 <= a < |t| ensures v[a].removedAt == Outcome(bs, e1, i < a <= j, e2, f < a <= g, t[a].id) {
      FirstTime(bs, e1, s, k, l, e2, b, t, i, j, a);
      LastTime(b, e2, u, a);
      BuryTimes(u, f, g, e2, a);
    }
  }

  lemma AlikeBack(a: seq<Block>, b: seq<Block>, e: Replacement, i: nat, j: nat)
    requires Alike(a, b) && Spans(b, e, i, j)
    ensures Alike(b, a) && Spans(a, e, i, j)
  {
    AlikeSpans(b, a, e, i, j);
  }

  lemma LastTime(b: seq<Block>, e2: Replacement, u: seq<Block>, a: nat)
    requires WellFormed(b) && Fits(b, e2) && u == Cuts(b, e2) && WellFormed(u) && a < |u|
    ensures u[a].removedAt == TimeOf(b, u[a].id)
  {
    var f: nat, g: nat :| Spans(b, e2, f, g);
    CutsTime(b, e2, f, g, u[a].id);
    TimeOfIs(u, a);
  }

  lemma BothSpans(bs: seq<Block>, e1: Replacement, e2: Replacement) returns (i: nat, j: nat)
    requires WellFormed(bs) && Fits(bs, e1) && Fits(bs, e2)
    ensures Spans(BothCut(bs, e1, e2), e1, i, j)
  {
    var i0: nat, j0: nat :| Spans(bs, e1, i0, j0);
    var i1, j1 := CutsSpan(bs, e1, i0, j0);
    CutsFit(bs, e1, i0, j0, e2);
    var f: nat, g: nat :| Spans(Cuts(bs, e1), e2, f, g);
    i, j := CutsSpans(Cuts(bs, e1), e2, f, g, e1, i1, j1);
  }

  // ----- when two edits commute -----

  /** The edit removes the block: it is in its range, and the author has seen it. */
  ghost predicate Removes(t: seq<Block>, e: Replacement, a: int) {
    && 0 <= a < |t| && Seen(e.seen, t[a].id.createdAt)
    && exists i, j :: Spans(t, e, i, j) && i < a <= j
  }

  /** The edit `e2` cuts a block, and what is right of the cut is removed by `e1`, but not by `e2`
      at a later time. */
  ghost predicate RevivesAt(bs: seq<Block>, e1: Replacement, e2: Replacement, a: int) {
    var t := BothCut(bs, e1, e2);
    && Removes(t, e1, a) && !Starts(Cuts(bs, e1), t[a].id)
    && !(Removes(t, e2, a) && After(e2.editedAt, e1.editedAt))
  }

  ghost predicate Revives(bs: seq<Block>, e1: Replacement, e2: Replacement) {
    exists a :: RevivesAt(bs, e1, e2, a)
  }

  lemma RemovesIs(t: seq<Block>, e: Replacement, i: nat, j: nat, a: nat)
    requires WellFormed(t) && Spans(t, e, i, j) && a < |t|
    ensures Removes(t, e, a) <==> i < a <= j && Seen(e.seen, t[a].id.createdAt)
  {
    forall k, l | Spans(t, e, k, l) ensures k == i && l == j {
      OneReaches(t, e.From(), k, i);
      OneReaches(t, e.To(), l, j);
    }
  }

  /** Whether a part was there before either cut, or only since one of them. */
  lemma RemovalsAgree(e1: Replacement, w1: bool, e2: Replacement, w2: bool, c: Ticket, x: Option<Ticket>,
                      s1: bool, s2: bool)
    requires (s1 || s2) && ((s1 && s2) || x == None) && e1.editedAt != e2.editedAt
    ensures var r1, r2 := w1 && Seen(e1.seen, c), w2 && Seen(e2.seen, c);
            Removal(e2, w2, c, if s1 then Removal(e1, w1, c, x) else None)
            == Removal(e1, w1, c, if s2 then Removal(e2, w2, c, x) else None)
            <==> !(r1 && !s1 && !(r2 && After(e2.editedAt, e1.editedAt)))
                 && !(r2 && !s2 && !(r1 && After(e1.editedAt, e2.editedAt)))
  {
    CompareIsTotalOrder(e1.editedAt, e2.editedAt, e1.editedAt);
    if x.Some? {
      CompareIsTotalOrder(e1.editedAt, e2.editedAt, x.value);
      CompareIsTotalOrder(e2.editedAt, e1.editedAt, x.value);
    }
  }

  lemma OutcomesAgree(bs: seq<Block>, e1: Replacement, i: nat, j: nat, e2: Replacement, f: nat, g: nat, a: nat)
    requires WellFormed(bs) && Fits(bs, e1) && Fits(bs, e2) && e1.editedAt != e2.editedAt
    requires Spans(BothCut(bs, e1, e2), e1, i, j) && Spans(BothCut(bs, e1, e2), e2, f, g) && a < |BothCut(bs, e1, e2)|
    ensures var id := BothCut(bs, e1, e2)[a].id;
            Outcome(bs, e1, i < a <= j, e2, f < a <= g, id) == Outcome(bs, e2, f < a <= g, e1, i < a <= j, id)
            <==> !RevivesAt(bs, e1, e2, a) && !RevivesAt(bs, e2, e1, a)
  {
    var t := BothCut(bs, e1, e2);
    var id := t[a].id;
    BothCutsCommute(bs, e1, e2);
    RemovesIs(t, e1, i, j, a);
    RemovesIs(t, e2, f, g, a);
    assert Starts(t, id);
    StartsEither(bs, e1, e2, id);
    OldStarts(bs, e1, id);
    OldStarts(bs, e2, id);
    RemovalsAgree(e1, i < a <= j, e2, f < a <= g, id.createdAt, TimeOf(bs, id), Starts(Cuts(bs, e1), id),
                  Starts(Cuts(bs, e2), id));
  }

  lemma OldStarts(bs: seq<Block>, e: Replacement, id: NodeID)
    requires WellFormed(bs) && Fits(bs, e)
    ensures !Starts(Cuts(bs, e), id) ==> TimeOf(bs, id) == None
  {
    var i: nat, j: nat :| Spans(bs, e, i, j);
    CutsTime(bs, e, i, j, id);
  }

  /** Texts that are alike stay different whatever is put into both. */
  lemma PutAnyDiffers(a: seq<Block>, b: seq<Block>, i: nat, e: Replacement)
    requires Alike(a, b) && i < |a|
    ensures PutAny(a, i, e) == PutAny(b, i, e) <==> a == b
    ensures Alike(PutAny(a, i, e), PutAny(b, i, e)) && (forall f :: Shifted(a, i, e, f) == Shifted(b, i, e, f))
  {
    var w := SkipLater(a, i, e.editedAt) + 1;
    AlikeWalk(a, b, i, e.editedAt);
    if e.content != [] {
      InsertedDiffers(a, b, w, e.Put().Inserted());
    }
  }

  lemma InsertedDiffers(a: seq<Block>, b: seq<Block>, w: nat, x: Block)
    requires Alike(a, b) && w <= |a|
    ensures InsertBlock(a, w, x) == InsertBlock(b, w, x) <==> a == b
    ensures Alike(InsertBlock(a, w, x), InsertBlock(b, w, x))
  {
    var l, r := InsertBlock(a, w, x), InsertBlock(b, w, x);
    assert l[..w] == a[..w] && r[..w] == b[..w] && l[w + 1..] == a[w..] && r[w + 1..] == b[w..];
    assert a == a[..w] + a[w..] && b == b[..w] + b[w..];
    forall k | 0 <= k < |l| ensures l[k].id == r[k].id && l[k].value == r[k].value {
      ArrayItems.InsertedAt(a, w, x, k);
      ArrayItems.InsertedAt(b, w, x, k);
    }
  }

  lemma PutTwoDiffers(a: seq<Block>, b: seq<Block>, i: nat, e1: Replacement, f: nat, e2: Replacement)
    requires Alike(a, b) && i < |a| && f < |a|
    ensures PutTwo(a, i, e1, f, e2) == PutTwo(b, i, e1, f, e2) <==> a == b
  {
    PutAnyDiffers(a, b, i, e1);
    PutAnyDiffers(PutAny(a, i, e1), PutAny(b, i, e1), Shifted(a, i, e1, f), e2);
  }

  lemma LeavesSameIff(bs: seq<Block>, e1: Replacement, i: nat, j: nat, e2: Replacement, f: nat, g: nat,
                      v: seq<Block>, w: seq<Block>)
    requires WellFormed(bs) && Fits(bs, e1) && Fits(bs, e2) && e1.editedAt != e2.editedAt
    requires Leaves(bs, e1, i, j, e2, f, g, v) && Leaves(bs, e2, f, g, e1, i, j, w)
    ensures v == w <==> !Revives(bs, e1, e2) && !Revives(bs, e2, e1)
  {
    var t := BothCut(bs, e1, e2);
    BothCutsCommute(bs, e1, e2);
    forall a: nat | a < |t| ensures v[a] == w[a] <==> !RevivesAt(bs, e1, e2, a) && !RevivesAt(bs, e2, e1, a) {
      OutcomesAgree(bs, e1, i, j, e2, f, g, a);
    }
    if v == w {
      forall a ensures !RevivesAt(bs, e1, e2, a) && !RevivesAt(bs, e2, e1, a) {
        assert 0 <= a < |t| ==> v[a] == w[a];
      }
    }
  }

  /** The places of the two ranges are the same in either order. */
  lemma SamePlaces(bs: seq<Block>, e1: Replacement, i: nat, j: nat, e2: Replacement, f: nat, g: nat, v: seq<Block>,
                   i': nat, j': nat, f': nat, g': nat, w: seq<Block>)
    requires WellFormed(bs) && Fits(bs, e1) && Fits(bs, e2)
    requires Leaves(bs, e1, i, j, e2, f, g, v) && Leaves(bs, e2, f', g', e1, i', j', w)
    ensures i == i' && j == j' && f == f' && g == g' && Alike(v, w)
  {
    var t := BothCut(bs, e1, e2);
    BothCutsCommute(bs, e1, e2);
    OneReaches(t, e1.From(), i, i');
    OneReaches(t, e1.To(), j, j');
    OneReaches(t, e2.From(), f, f');
    OneReaches(t, e2.To(), g, g');
  }

  /** Two concurrent edits of a text commute if and only if neither cuts a block whose right part
      the other removes, unless it removes that part itself at a later time. */
  lemma EditsCommuteIff(bs: seq<Block>, e1: Replacement, e2: Replacement)
    requires WellFormed(bs) && Fits(bs, e1) && Fits(bs, e2) && Unaware(e1, e2) && Unaware(e2, e1)
    requires e1.editedAt != e2.editedAt
    ensures Replace(bs, e1).Some? && Replace(bs, e2).Some? && Replace(Replace(bs, e1).value, e2).Some?
    ensures Replace(Replace(bs, e1).value, e2) == Replace(Replace(bs, e2).value, e1)
            <==> !Revives(bs, e1, e2) && !Revives(bs, e2, e1)
  {
    var v, i, j, f, g := InOrder(bs, e1, e2);
    var w, f', g', i', j' := InOrder(bs, e2, e1);
    SamePlaces(bs, e1, i, j, e2, f, g, v, i', j', f', g', w);
    LeavesSameIff(bs, e1, i, j, e2, f, g, v, w);
    PutTwoSwap(w, i, e1, f, e2);
    PutTwoDiffers(v, w, i, e1, f, e2);
  }

  /** An edit made of a range of visible indexes is of such a range of the text. */
  lemma LocalSpans(bs: seq<Block>, from: nat, i: nat, k: nat, to: nat, j: nat, l: nat, e: Replacement)
    requires WellFormed(bs) && IsPos(bs, from, i, k) && IsPos(bs, to, j, l) && from <= to
    requires e.from == PosIn(bs, i, k) && e.to == PosIn(bs, j, l)
    ensures Spans(bs, e, i, j)
  {
    StartBeforeEnd(bs, from, i, k, to, j, l);
    assert SameInsertion(bs, e.From(), i) && SameInsertion(bs, e.To(), j);
  }

  // ----- the operations that local edits make -----

  /** The edit is the operation that a local edit of the text `made` came to. */
  ghost predicate MadeOn(made: seq<Block>, e: Replacement) {
    var r := Edit(made, e.from, e.to, None, e.content, e.editedAt);
    Newest(made, e.editedAt) && r.Some? && e.seen == Some(r.value.latest)
  }

  /** Such an operation has seen nothing later than itself, on whatever text it is executed, and
      no edit that is later than all that its text had of the same actor. */
  lemma MadeIsCausal(made: seq<Block>, e: Replacement, bs: seq<Block>)
    requires MadeOn(made, e)
    ensures Causal(bs, e)
  {
    forall i | 0 <= i < |bs| ensures SeesNothingLater(e, bs[i].id.createdAt) {
      if After(bs[i].id.createdAt, e.editedAt) {
        LocalCausal(made, e.from, e.to, e.content, e.editedAt, bs[i].id.createdAt);
      }
    }
  }

  lemma MadeIsUnaware(made: seq<Block>, e: Replacement, e1: Replacement)
    requires MadeOn(made, e)
    requires forall i :: 0 <= i < |made| ==>
               made[i].id.createdAt.actorID == e1.editedAt.actorID ==> After(e1.editedAt, made[i].id.createdAt)
    ensures Unaware(e, e1)
  {
    LocalUnseen(made, e.from, e.to, e.content, e.editedAt, e1.editedAt);
  }

  /** So the operations of two local edits made on equal texts commute just as EditsCommuteIff says. */
  lemma LocalEditsCommuteIff(bs: seq<Block>, e1: Replacement, e2: Replacement)
    requires WellFormed(bs) && MadeOn(bs, e1) && MadeOn(bs, e2) && e1.editedAt != e2.editedAt
    requires (exists i, j :: Spans(bs, e1, i, j)) && (exists i, j :: Spans(bs, e2, i, j))
    ensures Replace(bs, e1).Some? && Replace(bs, e2).Some? && Replace(Replace(bs, e1).value, e2).Some?
    ensures Replace(Replace(bs, e1).value, e2) == Replace(Replace(bs, e2).value, e1)
            <==> !Revives(bs, e1, e2) && !Revives(bs, e2, e1)
  {
    MadeIsCausal(bs, e1, bs);
    MadeIsCausal(bs, e2, bs);
    MadeIsUnaware(bs, e1, e2);
    MadeIsUnaware(bs, e2, e1);
    NewestIsFresh(bs, e1.editedAt);
    NewestIsFresh(bs, e2.editedAt);
    EditsCommuteIff(bs, e1, e2);
  }

  // ----- what is shown -----

  /** As RevivesAt, but the part is not removed by `e2` at any time. */
  ghost predicate UncoversAt(bs: seq<Block>, e1: Replacement, e2: Replacement, a: int) {
    var t := BothCut(bs, e1, e2);
    Removes(t, e1, a) && !Starts(Cuts(bs, e1), t[a].id) && !Removes(t, e2, a)
  }

  ghost predicate Uncovers(bs: seq<Block>, e1: Replacement, e2: Replacement) {
    exists a :: UncoversAt(bs, e1, e2, a)
  }

  /** The same blocks are shown. */
  ghost predicate SameShown(a: seq<Block>, b: seq<Block>) {
    Alike(a, b) && forall i :: 0 <= i < |a| ==> ShownAlike(a, b, i)
  }

  ghost predicate ShownAlike(a: seq<Block>, b: seq<Block>, i: int)
    requires |a| == |b| && 0 <= i < |a|
  {
    a[i].removedAt.None? <==> b[i].removedAt.None?
  }

  lemma {:induction false} SameShownVisible(a: seq<Block>, b: seq<Block>)
    requires SameShown(a, b)
    ensures Visible(a) == Visible(b)
  {
    if a != [] {
      assert ShownAlike(a, b, 0);
      forall i | 0 <= i < |a| - 1 ensures ShownAlike(a[1..], b[1..], i) {
        assert ShownAlike(a, b, i + 1);
      }
      SameShownVisible(a[1..], b[1..]);
    }
  }

  lemma ShownAgree(bs: seq<Block>, e1: Replacement, i: nat, j: nat, e2: Replacement, f: nat, g: nat, a: nat)
    requires WellFormed(bs) && Fits(bs, e1) && Fits(bs, e2) && e1.editedAt != e2.editedAt
    requires Spans(BothCut(bs, e1, e2), e1, i, j) && Spans(BothCut(bs, e1, e2), e2, f, g) && a < |BothCut(bs, e1, e2)|
    ensures var id := BothCut(bs, e1, e2)[a].id;
            (Outcome(bs, e1, i < a <= j, e2, f < a <= g, id).None?
             <==> Outcome(bs, e2, f < a <= g, e1, i < a <= j, id).None?)
            <==> !UncoversAt(bs, e1, e2, a) && !UncoversAt(bs, e2, e1, a)
  {
    var t := BothCut(bs, e1, e2);
    BothCutsCommute(bs, e1, e2);
    RemovesIs(t, e1, i, j, a);
    RemovesIs(t, e2, f, g, a);
    assert Starts(t, t[a].id);
    StartsEither(bs, e1, e2, t[a].id);
    OldStarts(bs, e1, t[a].id);
    OldStarts(bs, e2, t[a].id);
  }

  lemma LeavesShownAt(bs: seq<Block>, e1: Replacement, i: nat, j: nat, e2: Replacement, f: nat, g: nat,
                      v: seq<Block>, w: seq<Block>, a: nat)
    requires WellFormed(bs) && Fits(bs, e1) && Fits(bs, e2) && e1.editedAt != e2.editedAt
    requires Leaves(bs, e1, i, j, e2, f, g, v) && Leaves(bs, e2, f, g, e1, i, j, w) && a < |v|
    ensures Alike(v, w) && |v| == |BothCut(bs, e1, e2)| == |BothCut(bs, e2, e1)|
    ensures ShownAlike(v, w, a) <==> !UncoversAt(bs, e1, e2, a) && !UncoversAt(bs, e2, e1, a)
  {
    BothCutsCommute(bs, e1, e2);
    ShownAgree(bs, e1, i, j, e2, f, g, a);
  }

  lemma LeavesShownIff(bs: seq<Block>, e1: Replacement, i: nat, j: nat, e2: Replacement, f: nat, g: nat,
                       v: seq<Block>, w: seq<Block>)
    requires WellFormed(bs) && Fits(bs, e1) && Fits(bs, e2) && e1.editedAt != e2.editedAt
    requires Leaves(bs, e1, i, j, e2, f, g, v) && Leaves(bs, e2, f, g, e1, i, j, w)
    ensures SameShown(v, w) <==> !Uncovers(bs, e1, e2) && !Uncovers(bs, e2, e1)
  {
    LeavesShownAt(bs, e1, i, j, e2, f, g, v, w, i);
    if a :| UncoversAt(bs, e1, e2, a) || UncoversAt(bs, e2, e1, a) {
      LeavesShownAt(bs, e1, i, j, e2, f, g, v, w, a);
    } else {
      forall a: nat | a < |v| ensures ShownAlike(v, w, a) {
        LeavesShownAt(bs, e1, i, j, e2, f, g, v, w, a);
      }
    }
  }

  lemma InsertedShown(a: seq<Block>, b: seq<Block>, w: nat, x: Block)
    requires Alike(a, b) && w <= |a|
    ensures SameShown(InsertBlock(a, w, x), InsertBlock(b, w, x)) <==> SameShown(a, b)
  {
    var l, r := InsertBlock(a, w, x), InsertBlock(b, w, x);
    InsertedDiffers(a, b, w, x);
    forall k: nat | k < |a| ensures ShownAlike(a, b, k) <==> ShownAlike(l, r, if k < w then k else k + 1) {
      ArrayItems.InsertedAt(a, w, x, if k < w then k else k + 1);
      ArrayItems.InsertedAt(b, w, x, if k < w then k else k + 1);
    }
    if SameShown(a, b) {
      forall k: nat | k < |l| ensures ShownAlike(l, r, k) {
        ArrayItems.InsertedAt(a, w, x, k);
        ArrayItems.InsertedAt(b, w, x, k);
        assert k != w ==> ShownAlike(a, b, if k < w then k else k - 1);
      }
    }
  }

  lemma PutAnyShown(a: seq<Block>, b: seq<Block>, i: nat, e: Replacement)
    requires Alike(a, b) && i < |a|
    ensures SameShown(PutAny(a, i, e), PutAny(b, i, e)) <==> SameShown(a, b)
  {
    AlikeWalk(a, b, i, e.editedAt);
    if e.content != [] {
      InsertedShown(a, b, SkipLater(a, i, e.editedAt) + 1, e.Put().Inserted());
    }
  }

  /** Two concurrent edits leave the same blocks shown in either order if and only if neither cuts
      a block whose right part the other removes and it does not. */
  lemma EditsShowIff(bs: seq<Block>, e1: Replacement, e2: Replacement)
    requires WellFormed(bs) && Fits(bs, e1) && Fits(bs, e2) && Unaware(e1, e2) && Unaware(e2, e1)
    requires e1.editedAt != e2.editedAt
    ensures Replace(bs, e1).Some? && Replace(bs, e2).Some?
    ensures Replace(Replace(bs, e1).value, e2).Some? && Replace(Replace(bs, e2).value, e1).Some?
    ensures var r, r' := Replace(Replace(bs, e1).value, e2).value, Replace(Replace(bs, e2).value, e1).value;
            && (SameShown(r, r') <==> !Uncovers(bs, e1, e2) && !Uncovers(bs, e2, e1))
            && (SameShown(r, r') ==> Visible(r) == Visible(r'))
  {
    var v, i, j, f, g := InOrder(bs, e1, e2);
    var w, f', g', i', j' := InOrder(bs, e2, e1);
    SamePlaces(bs, e1, i, j, e2, f, g, v, i', j', f', g', w);
    LeavesShownIff(bs, e1, i, j, e2, f, g, v, w);
    PutTwoSwap(w, i, e1, f, e2);
    PutAnyDiffers(v, w, i, e1);
    PutAnyShown(v, w, i, e1);
    PutAnyShown(PutAny(v, i, e1), PutAny(w, i, e1), Shifted(v, i, e1, f), e2);
    var r, r' := PutTwo(v, i, e1, f, e2), PutTwo(w, i, e1, f, e2);
    if SameShown(r, r') {
      SameShownVisible(r, r');
    }
  }

  /** An insertion inside a block that is removed as a whole: right of it the block is shown again
      where the removal comes first, and hidden where it comes last. */
  lemma InsideRemoved(bs: seq<Block>, e1: Replacement, i: nat, j: nat, e2: Replacement, k: nat)
    requires WellFormed(bs) && Spans(bs, e1, i, j) && !Inside(bs, e1.From(), i) && !Inside(bs, e1.To(), j)
    requires i < k <= j && Seen(e1.seen, bs[k].id.createdAt)
    requires e2.from == e2.to && Inside(bs, e2.From(), k)
    ensures Uncovers(bs, e1, e2)
  {
    var l, t := e2.From().offset - bs[k].id.offset, BothCut(bs, e1, e2);
    CutIs(bs, e1.to, j);
    CutIs(bs, e1.from, i);
    CutIs(bs, e2.to, k);
    CutReaches(bs, e2.to, k);
    assert t == SplitBlock(bs, k, l);
    CutEnds(bs, e2.to, k, e1.from, i);
    CutEnds(bs, e2.to, k, e1.to, j);
    EndReached(bs, k, l, e1.From(), i, Reaching(bs, k, l, e1.From(), i));
    EndReached(bs, k, l, e1.To(), j, Reaching(bs, k, l, e1.To(), j));
    NoStart(bs, e2.From(), k);
    RightPart(bs, k, l);
    assert Spans(t, e1, i, j + 1) && Removes(t, e1, k + 1);
    forall p, q | Spans(t, e2, p, q) ensures p == q {
      OneReaches(t, e2.From(), p, q);
    }
    assert UncoversAt(bs, e1, e2, k + 1);
  }

  lemma RightPart(bs: seq<Block>, k: nat, l: nat)
    requires k < |bs| && l <= |bs[k].value|
    ensures |SplitBlock(bs, k, l)| == |bs| + 1 && SplitBlock(bs, k, l)[k + 1].id == bs[k].id.Split(l)
  {
  }

  // ----- whole runs -----

  function Then(r: Option<seq<Block>>, e: Replacement): Option<seq<Block>> {
    if r.None? then None else Replace(r.value, e)
  }

  function Run(r: Option<seq<Block>>, ops: seq<Replacement>): Option<seq<Block>>
    decreases |ops|
  {
    if ops == [] then r else Run(Then(r, ops[0]), ops[1..])
  }

  lemma {:induction false} RunAppend(r: Option<seq<Block>>, a: seq<Replacement>, b: seq<Replacement>)
    ensures Run(r, a + b) == Run(Run(r, a), b)
    decreases |a|
  {
    if a == [] {
      assert a + b == b;
    } else {
      assert (a + b)[1..] == a[1..] + b && (a + b)[0] == a[0];
      RunAppend(Then(r, a[0]), a[1..], b);
    }
  }

  lemma RunPair(r: Option<seq<Block>>, x: Replacement, y: Replacement)
    ensures Run(r, [x, y]) == Then(Then(r, x), y)
  {
    assert [x, y][1..] == [y] && [y][1..] == [];
    assert Run(Then(r, x), [y]) == Run(Then(Then(r, x), y), []);
  }

  /** The two edits may change places on this text. */
  ghost predicate Free(bs: seq<Block>, e1: Replacement, e2: Replacement) {
    && WellFormed(bs) && Fits(bs, e1) && Fits(bs, e2) && Unaware(e1, e2) && Unaware(e2, e1)
    && e1.editedAt != e2.editedAt && !Revives(bs, e1, e2) && !Revives(bs, e2, e1)
  }

  /** The second run is the first but for two neighbours that were free to change places. */
  ghost predicate Swapped(bs: seq<Block>, a: seq<Replacement>, b: seq<Replacement>, j: nat) {
    && |a| == |b| && j + 1 < |a| && a[..j] == b[..j] && a[j + 2..] == b[j + 2..]
    && a[j] == b[j + 1] && a[j + 1] == b[j]
    && Run(Some(bs), a[..j]).Some? && Free(Run(Some(bs), a[..j]).value, a[j], a[j + 1])
  }

  lemma RunAround(r: Option<seq<Block>>, ops: seq<Replacement>, j: nat)
    requires j + 1 < |ops|
    ensures Run(r, ops) == Run(Then(Then(Run(r, ops[..j]), ops[j]), ops[j + 1]), ops[j + 2..])
  {
    var front, pair, rest := ops[..j], [ops[j], ops[j + 1]], ops[j + 2..];
    assert ops == front + (pair + rest);
    RunAppend(r, front, pair + rest);
    RunAppend(Run(r, front), pair, rest);
    RunPair(Run(r, front), ops[j], ops[j + 1]);
  }

  lemma SwappedRun(bs: seq<Block>, a: seq<Replacement>, b: seq<Replacement>, j: nat)
    requires Swapped(bs, a, b, j)
    ensures Run(Some(bs), a) == Run(Some(bs), b)
  {
    EditsCommuteIff(Run(Some(bs), a[..j]).value, a[j], a[j + 1]);
    RunAround(Some(bs), a, j);
    RunAround(Some(bs), b, j);
  }

  /** Convergence of edits: runs that come from each other by changing places of neighbours that are
      free to do so come to the same text. */
  lemma {:induction false} SwapsConverge(bs: seq<Block>, runs: seq<seq<Replacement>>, at: seq<nat>)
    requires |runs| == |at| + 1
    requires forall i :: 0 <= i < |at| ==> Swapped(bs, runs[i], runs[i + 1], at[i])
    ensures Run(Some(bs), runs[0]) == Run(Some(bs), runs[|at|])
    decreases |at|
  {
    if |at| > 0 {
      var n := |at| - 1;
      SwapsConverge(bs, runs[..|at|], at[..n]);
      assert runs[..|at|][n] == runs[n] && Swapped(bs, runs[n], runs[n + 1], at[n]);
      SwappedRun(bs, runs[n], runs[n + 1], at[n]);
    }
  }
}
