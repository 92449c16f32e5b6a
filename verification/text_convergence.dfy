/** Copies of a text that execute the same insertions, each in an order of its own
    (pkg/document/json/rga_tree_split.go). */
module TextConvergence {
  import opened Time
  import opened Wrappers
  import opened Sequences
  import opened TextBlocks
  import opened TextTheorems
  import opened TextPositions
  import ArrayItems
  import ArrayConvergence

  /** An edit of an empty range, by an author who has seen what `seen` says. */
  datatype Insertion = Insertion(pos: NodePos, content: seq<CodeUnit>, seen: Option<ByActor>, editedAt: Ticket) {
    function ID(): NodeID {
      AbsoluteID(pos)
    }

    function Inserted(): Block {
      Block(NodeID(editedAt, 0), content, None)
    }
  }

  function Apply(bs: seq<Block>, x: Insertion): Option<seq<Block>> {
    match Edit(bs, x.pos, x.pos, x.seen, x.content, x.editedAt)
    case None => None
    case Some(e) => Some(e.blocks)
  }

  /** The insertion brings content under a ticket that is new to the text. */
  ghost predicate New(bs: seq<Block>, x: Insertion) {
    x.content != [] && FreshTicket(bs, x.editedAt)
  }

  // ----- an insertion is a cut and an insertion after the cut -----

  ghost predicate Inside(bs: seq<Block>, id: NodeID, i: int) {
    Reaches(bs, id, i) && bs[i].id.offset < id.offset < bs[i].id.offset + |bs[i].value|
  }

  /** The id is at the start of a block, and not at the end of one. */
  ghost predicate AtStart(bs: seq<Block>, id: NodeID, i: int) {
    Reaches(bs, id, i) && id.offset == bs[i].id.offset && bs[i].value != []
  }

  function Cut(bs: seq<Block>, pos: NodePos): seq<Block> {
    match Resolve(bs, pos)
    case None => bs
    case Some(p) => SplitAt(bs, p.index, p.offset)
  }

  /** The content goes behind the block `i` and the later insertions there. */
  function Put(bs: seq<Block>, i: nat, x: Insertion): seq<Block>
    requires i < |bs|
  {
    InsertBlock(bs, SkipLater(bs, i, x.editedAt) + 1, x.Inserted())
  }

  lemma CutReaches(bs: seq<Block>, pos: NodePos, i: nat)
    requires WellFormed(bs) && Reaches(bs, AbsoluteID(pos), i)
    ensures var id, r := AbsoluteID(pos), Cut(bs, pos);
            WellFormed(r) && Reaches(r, id, i) && !Inside(r, id, i) && Cut(r, pos) == r
  {
    var id, r, k := AbsoluteID(pos), Cut(bs, pos), AbsoluteID(pos).offset - bs[i].id.offset;
    ResolveIff(bs, pos);
    SplitWellFormed(bs, i, k);
    if Inside(bs, id, i) {
      SplitReaches(bs, i, k, id, i);
    }
    ResolveIff(r, pos);
  }

  lemma FindIs(bs: seq<Block>, pos: NodePos, t: Ticket, i: nat)
    requires WellFormed(bs) && Reaches(bs, AbsoluteID(pos), i)
    ensures i < |Cut(bs, pos)| && FindWithSplit(bs, pos, t) == Some(Found(Cut(bs, pos), SkipLater(Cut(bs, pos), i, t)))
  {
    ResolveIff(bs, pos);
  }

  /** An edit of an empty range removes nothing. */
  lemma ApplyFound(bs: seq<Block>, x: Insertion, f: Found)
    requires f.left < |f.blocks| && x.content != [] && FindWithSplit(bs, x.pos, x.editedAt) == Some(f)
    requires FindWithSplit(f.blocks, x.pos, x.editedAt) == Some(f)
    ensures Apply(bs, x) == Some(InsertBlock(f.blocks, f.left + 1, x.Inserted()))
  {
    assert StopIndex(f.blocks, f.left + 1, RightOf(f)) == f.left + 1;
  }

  lemma ApplyIs(bs: seq<Block>, x: Insertion, i: nat)
    requires WellFormed(bs) && x.content != [] && Reaches(bs, x.ID(), i)
    ensures i < |Cut(bs, x.pos)| && Apply(bs, x) == Some(Put(Cut(bs, x.pos), i, x))
  {
    CutReaches(bs, x.pos, i);
    FindIs(bs, x.pos, x.editedAt, i);
    FindIs(Cut(bs, x.pos), x.pos, x.editedAt, i);
    ApplyFound(bs, x, Found(Cut(bs, x.pos), SkipLater(Cut(bs, x.pos), i, x.editedAt)));
  }

  lemma PutKeeps(bs: seq<Block>, i: nat, x: Insertion, id: NodeID, j: nat)
    requires WellFormed(bs) && i < |bs| && New(bs, x) && Reaches(bs, id, j)
    ensures var r, g := Put(bs, i, x), SkipLater(bs, i, x.editedAt) + 1;
            && WellFormed(r) && j < |bs| && (if j < g then j else j + 1) < |r|
            && r[if j < g then j else j + 1] == bs[j] && Reaches(r, id, if j < g then j else j + 1)
  {
    var g := SkipLater(bs, i, x.editedAt) + 1;
    var r := Put(bs, i, x);
    InsertWellFormed(bs, g, x.Inserted());
    forall a | 0 <= a < |r| ensures r[a] == if a < g then bs[a] else if a == g then x.Inserted() else bs[a - 1] {
      ArrayItems.InsertedAt(bs, g, x.Inserted(), a);
    }
    assert SameInsertion(bs, id, j);
    if NothingBefore(bs, id) {
      forall a | 0 <= a < |r| && SameInsertion(r, id, a) ensures r[a].id.offset >= id.offset {
        assert a != g && SameInsertion(bs, id, if a < g then a else a - 1);
      }
    }
  }

  lemma PutFresh(bs: seq<Block>, i: nat, x: Insertion, t: Ticket)
    requires i < |bs| && t != x.editedAt && FreshTicket(bs, t)
    ensures FreshTicket(Put(bs, i, x), t)
  {
    var g, r := SkipLater(bs, i, x.editedAt) + 1, Put(bs, i, x);
    forall a | 0 <= a < |r| ensures r[a].id.createdAt != t {
      ArrayItems.InsertedAt(bs, g, x.Inserted(), a);
    }
  }

  lemma CutFresh(bs: seq<Block>, pos: NodePos, t: Ticket)
    requires WellFormed(bs) && FreshTicket(bs, t)
    ensures FreshTicket(Cut(bs, pos), t)
  {
    if FindWithSplit(bs, pos, t).Some? {
      FindWithSplitWellFormed(bs, pos, t);
    }
  }

  lemma CutInText(bs: seq<Block>, cut: NodePos, pos: NodePos)
    requires InText(bs, pos)
    ensures InText(Cut(bs, cut), pos)
  {
    if Resolve(bs, cut).Some? {
      SplitInText(bs, Resolve(bs, cut).value.index, Resolve(bs, cut).value.offset, pos);
    }
  }

  /** After an insertion the positions that were in the text still are, and other tickets still new. */
  lemma ApplyKeeps(bs: seq<Block>, x: Insertion, pos: NodePos, t: Ticket)
    requires WellFormed(bs) && New(bs, x) && InText(bs, x.pos)
    ensures Apply(bs, x).Some? && WellFormed(Apply(bs, x).value)
    ensures InText(bs, pos) ==> InText(Apply(bs, x).value, pos)
    ensures t != x.editedAt && FreshTicket(bs, t) ==> FreshTicket(Apply(bs, x).value, t)
  {
    var i: nat :| Reaches(bs, x.ID(), i);
    var r := Cut(bs, x.pos);
    ApplyIs(bs, x, i);
    CutReaches(bs, x.pos, i);
    CutFresh(bs, x.pos, x.editedAt);
    PutKeeps(r, i, x, x.ID(), i);
    if InText(bs, pos) {
      CutInText(bs, x.pos, pos);
      var j: nat :| Reaches(r, AbsoluteID(pos), j);
      PutKeeps(r, i, x, AbsoluteID(pos), j);
    }
    if t != x.editedAt && FreshTicket(bs, t) {
      CutFresh(bs, x.pos, t);
      PutFresh(r, i, x, t);
    }
  }

  // ----- the walk past later insertions is that of an array -----

  function ItemOf(b: Block): ArrayItems.Item {
    ArrayItems.Item(b.id.createdAt, None, None)
  }

  function Items(bs: seq<Block>): (r: seq<ArrayItems.Item>)
    ensures |r| == |bs|
  {
    seq(|bs|, i requires 0 <= i < |bs| => ItemOf(bs[i]))
  }

  lemma {:induction false} SkipIs(bs: seq<Block>, i: nat, t: Ticket)
    requires i < |bs|
    ensures SkipLater(bs, i, t) == ArrayItems.Skip(Items(bs), i, t)
    decreases |bs| - i
  {
    if i + 1 < |bs| {
      SkipIs(bs, i + 1, t);
    }
  }

  lemma ItemsInserted(bs: seq<Block>, g: nat, b: Block)
    requires g <= |bs|
    ensures Items(InsertBlock(bs, g, b)) == ArrayItems.InsertAt(Items(bs), g, ItemOf(b))
  {
    var l, r := Items(InsertBlock(bs, g, b)), ArrayItems.InsertAt(Items(bs), g, ItemOf(b));
    forall a | 0 <= a < |l| ensures l[a] == r[a] {
      ArrayItems.InsertedAt(bs, g, b, a);
      ArrayItems.InsertedAt(Items(bs), g, ItemOf(b), a);
    }
  }

  lemma SkipInserted(bs: seq<Block>, i: nat, x: Insertion, j: nat, t: Ticket)
    requires i < |bs| && j <= |bs|
    ensures var g := SkipLater(bs, i, x.editedAt) + 1;
            SkipLater(Put(bs, i, x), j, t)
            == ArrayItems.Skip(ArrayItems.InsertAt(Items(bs), g, ItemOf(x.Inserted())), j, t)
  {
    ItemsInserted(bs, SkipLater(bs, i, x.editedAt) + 1, x.Inserted());
    SkipIs(Put(bs, i, x), j, t);
  }

  lemma SkipItems(bs: seq<Block>, i: nat, x: ArrayItems.Item, j: nat, t: Ticket)
    requires i < |bs| && j < |bs| && x.PositionedAt() == x.createdAt
    ensures var a, b := SkipLater(bs, i, x.createdAt) + 1, SkipLater(bs, j, t) + 1;
            ArrayItems.Skip(ArrayItems.InsertAt(Items(bs), a, x), if j < a then j else j + 1, t) + 1
            == ArrayConvergence.GapWith(a, x, b, t)
  {
    SkipIs(bs, i, x.createdAt);
    SkipIs(bs, j, t);
    ArrayConvergence.SkipWith(Items(bs), i, x, j, t);
  }

  /** Where the walk behind block `j` ends once `x` was put in. */
  lemma SkipPut(bs: seq<Block>, i: nat, x: Insertion, j: nat, t: Ticket)
    requires i < |bs| && j < |bs|
    ensures var a, b := SkipLater(bs, i, x.editedAt) + 1, SkipLater(bs, j, t) + 1;
            SkipLater(Put(bs, i, x), if j < a then j else j + 1, t) + 1
            == ArrayConvergence.GapWith(a, ItemOf(x.Inserted()), b, t)
  {
    SkipItems(bs, i, ItemOf(x.Inserted()), j, t);
    SkipInserted(bs, i, x, if j < SkipLater(bs, i, x.editedAt) + 1 then j else j + 1, t);
  }

  /** Both go behind blocks that are there: `x` behind the block `i`, then `y` behind `j`. */
  function PutBoth(bs: seq<Block>, i: nat, x: Insertion, j: nat, y: Insertion): seq<Block>
    requires i < |bs| && j < |bs|
  {
    Put(Put(bs, i, x), if j < SkipLater(bs, i, x.editedAt) + 1 then j else j + 1, y)
  }

  lemma PutBothIs(bs: seq<Block>, i: nat, x: Insertion, j: nat, y: Insertion)
    requires i < |bs| && j < |bs|
    ensures var a, b := SkipLater(bs, i, x.editedAt) + 1, SkipLater(bs, j, y.editedAt) + 1;
            var g := if b < a || (b == a && !After(x.editedAt, y.editedAt)) then b else b + 1;
            && |InsertBlock(bs, a, x.Inserted())| == |bs| + 1
            && PutBoth(bs, i, x, j, y) == InsertBlock(InsertBlock(bs, a, x.Inserted()), g, y.Inserted())
  {
    SkipPut(bs, i, x, j, y.editedAt);
  }

  lemma TwoBlocks(bs: seq<Block>, a: nat, x: Block, b: nat, y: Block)
    requires a <= b <= |bs|
    ensures |InsertBlock(bs, a, x)| == |InsertBlock(bs, b, y)| == |bs| + 1
    ensures InsertBlock(InsertBlock(bs, a, x), b + 1, y) == InsertBlock(InsertBlock(bs, b, y), a, x)
  {
    ArrayConvergence.TwoInserted(bs, a, x, b, y);
  }

  lemma PutOrdered(bs: seq<Block>, i: nat, x: Insertion, j: nat, y: Insertion)
    requires i < |bs| && j < |bs|
    requires var a, b := SkipLater(bs, i, x.editedAt) + 1, SkipLater(bs, j, y.editedAt) + 1;
             a < b || (a == b && After(x.editedAt, y.editedAt))
    ensures PutBoth(bs, i, x, j, y) == PutBoth(bs, j, y, i, x)
  {
    var a, b := SkipLater(bs, i, x.editedAt) + 1, SkipLater(bs, j, y.editedAt) + 1;
    CompareIsTotalOrder(x.editedAt, y.editedAt, x.editedAt);
    PutBothIs(bs, i, x, j, y);
    PutBothIs(bs, j, y, i, x);
    TwoBlocks(bs, a, x.Inserted(), b, y.Inserted());
  }

  lemma PutPut(bs: seq<Block>, i: nat, x: Insertion, j: nat, y: Insertion)
    requires i < |bs| && j < |bs| && x.editedAt != y.editedAt
    ensures PutBoth(bs, i, x, j, y) == PutBoth(bs, j, y, i, x)
  {
    var a, b := SkipLater(bs, i, x.editedAt) + 1, SkipLater(bs, j, y.editedAt) + 1;
    CompareIsTotalOrder(x.editedAt, y.editedAt, x.editedAt);
    if a < b || (a == b && After(x.editedAt, y.editedAt)) {
      PutOrdered(bs, i, x, j, y);
    } else {
      PutOrdered(bs, j, y, i, x);
    }
  }

  // ----- cutting elsewhere changes nothing for an insertion -----

  /** The block that stands where block `a` of a split text stood. */
  function Whole(j: nat, a: nat): nat {
    if a <= j then a else a - 1
  }

  lemma SplitTicket(bs: seq<Block>, j: nat, k: nat, a: nat)
    requires j < |bs| && k <= |bs[j].value| && a <= |bs|
    ensures |SplitBlock(bs, j, k)| == |bs| + 1
    ensures SplitBlock(bs, j, k)[a].id.createdAt == bs[Whole(j, a)].id.createdAt
  {
  }

  lemma {:induction false} SkipSplit(bs: seq<Block>, j: nat, k: nat, i: nat, t: Ticket)
    requires i < |bs| && j < |bs| && k <= |bs[j].value|
    ensures |SplitBlock(bs, j, k)| == |bs| + 1
    ensures SkipLater(SplitBlock(bs, j, k), if i < j then i else i + 1, t)
            == if SkipLater(bs, i, t) < j then SkipLater(bs, i, t) else SkipLater(bs, i, t) + 1
    decreases |bs| - i
  {
    var r, i' := SplitBlock(bs, j, k), if i < j then i else i + 1;
    if i + 1 < |bs| {
      SplitTicket(bs, j, k, i' + 1);
      SkipSplit(bs, j, k, i + 1, t);
      if i + 1 == j {
        SplitTicket(bs, j, k, j + 1);
      }
    }
  }

  lemma SplitLeft(bs: seq<Block>, g: nat, b: Block, j: nat, k: nat)
    requires j < g <= |bs| && k <= |bs[j].value|
    ensures InsertBlock(bs, g, b)[j] == bs[j] && |SplitBlock(bs, j, k)| == |bs| + 1
    ensures SplitBlock(InsertBlock(bs, g, b), j, k) == InsertBlock(SplitBlock(bs, j, k), g + 1, b)
  {
    assert bs[j + 1..] == bs[j + 1..g] + bs[g..];
  }

  lemma SplitRight(bs: seq<Block>, g: nat, b: Block, j: nat, k: nat)
    requires g <= j < |bs| && k <= |bs[j].value|
    ensures |InsertBlock(bs, g, b)| == |SplitBlock(bs, j, k)| == |bs| + 1 && InsertBlock(bs, g, b)[j + 1] == bs[j]
    ensures SplitBlock(InsertBlock(bs, g, b), j + 1, k) == InsertBlock(SplitBlock(bs, j, k), g, b)
  {
    assert bs[..j] == bs[..g] + bs[g..j];
  }

  lemma SplitPut(bs: seq<Block>, g: nat, x: Block, j: nat, k: nat)
    requires g <= |bs| && j < |bs| && k <= |bs[j].value|
    ensures var j' := if j < g then j else j + 1;
            && j' < |InsertBlock(bs, g, x)| && InsertBlock(bs, g, x)[j'] == bs[j]
            && |SplitBlock(bs, j, k)| == |bs| + 1
            && SplitBlock(InsertBlock(bs, g, x), j', k)
               == InsertBlock(SplitBlock(bs, j, k), if j < g then g + 1 else g, x)
  {
    if j < g {
      SplitLeft(bs, g, x, j, k);
    } else {
      SplitRight(bs, g, x, j, k);
    }
  }

  lemma SkipSplitGap(bs: seq<Block>, i: nat, t: Ticket, j: nat, k: nat, g: nat)
    requires i < |bs| && j < |bs| && k <= |bs[j].value| && g == SkipLater(bs, i, t) + 1
    ensures |SplitBlock(bs, j, k)| == |bs| + 1
    ensures SkipLater(SplitBlock(bs, j, k), if i < j then i else i + 1, t) + 1 == if j < g then g + 1 else g
  {
    SkipSplit(bs, j, k, i, t);
  }

  /** Putting an insertion in and splitting another block can be done in either order. */
  lemma PutSplit(bs: seq<Block>, i: nat, x: Insertion, j: nat, k: nat)
    requires i < |bs| && j < |bs| && k <= |bs[j].value|
    ensures var j', i' := if j < SkipLater(bs, i, x.editedAt) + 1 then j else j + 1, if i < j then i else i + 1;
            && j' < |Put(bs, i, x)| && Put(bs, i, x)[j'] == bs[j]
            && i' < |SplitBlock(bs, j, k)| && SplitBlock(Put(bs, i, x), j', k) == Put(SplitBlock(bs, j, k), i', x)
  {
    var g := SkipLater(bs, i, x.editedAt) + 1;
    SplitPut(bs, g, x.Inserted(), j, k);
    SkipSplitGap(bs, i, x.editedAt, j, k, g);
  }

  // ----- cuts commute -----

  lemma SplitTwo(bs: seq<Block>, i: nat, k: nat, j: nat, l: nat)
    requires i < j < |bs| && k <= |bs[i].value| && l <= |bs[j].value|
    ensures |SplitBlock(bs, i, k)| == |bs| + 1 && SplitBlock(bs, i, k)[j + 1] == bs[j]
    ensures SplitBlock(bs, j, l)[i] == bs[i]
    ensures SplitBlock(SplitBlock(bs, i, k), j + 1, l) == SplitBlock(SplitBlock(bs, j, l), i, k)
  {
    assert bs == bs[..i] + [bs[i]] + bs[i + 1..j] + [bs[j]] + bs[j + 1..];
  }

  lemma SplitTwice(bs: seq<Block>, i: nat, k: nat, l: nat)
    requires i < |bs| && k <= l <= |bs[i].value|
    ensures |SplitBlock(bs, i, k)| == |bs| + 1 && SplitBlock(bs, i, k)[i + 1].value == bs[i].value[k..]
    ensures SplitBlock(bs, i, l)[i].value == bs[i].value[..l]
    ensures SplitBlock(SplitBlock(bs, i, k), i + 1, l - k) == SplitBlock(SplitBlock(bs, i, l), i, k)
  {
    var v := bs[i].value;
    assert v[..l][..k] == v[..k] && v[..l][k..] == v[k..][..l - k] && v[k..][l - k..] == v[l..];
  }

  lemma CutIs(bs: seq<Block>, pos: NodePos, i: nat)
    requires WellFormed(bs) && Reaches(bs, AbsoluteID(pos), i)
    ensures Inside(bs, AbsoluteID(pos), i) ==>
              Cut(bs, pos) == SplitBlock(bs, i, AbsoluteID(pos).offset - bs[i].id.offset)
    ensures !Inside(bs, AbsoluteID(pos), i) ==> Cut(bs, pos) == bs
  {
    ResolveIff(bs, pos);
  }

  /** The block that reaches an id once block `j` was split at `l`. */
  function Reaching(bs: seq<Block>, j: nat, l: nat, id: NodeID, i: nat): nat
    requires j < |bs|
  {
    if i < j || (i == j && id.offset <= bs[j].id.offset + l) then i else i + 1
  }

  lemma SplitReached(bs: seq<Block>, j: nat, l: nat, id: NodeID, i: nat)
    requires WellFormed(bs) && j < |bs| && 0 < l < |bs[j].value| && Reaches(bs, id, i)
    ensures var r, i' := SplitBlock(bs, j, l), Reaching(bs, j, l, id, i);
            && WellFormed(r) && Reaches(r, id, i') && (i != j ==> r[i'] == bs[i])
            && (i == i' == j ==> r[i'].id == bs[j].id && |r[i'].value| == l)
            && (i == j < i' ==> r[i'].id.offset == bs[j].id.offset + l && |r[i'].value| == |bs[j].value| - l)
  {
    SplitWellFormed(bs, j, l);
    SplitReaches(bs, j, l, id, i);
  }

  lemma CutInside(bs: seq<Block>, p: NodePos, i: nat, k: nat)
    requires WellFormed(bs) && i < |bs| && 0 < k < |bs[i].value| && AbsoluteID(p) == bs[i].id.Split(k)
    ensures Cut(bs, p) == SplitBlock(bs, i, k)
  {
    assert Inside(bs, AbsoluteID(p), i);
    CutIs(bs, p, i);
  }

  lemma CutAfter(bs: seq<Block>, i: nat, k: nat, q: NodePos, j: nat, l: nat)
    requires WellFormed(bs) && i < |bs| && 0 < k < |bs[i].value| && i != j
    requires j < |bs| && 0 < l < |bs[j].value| && AbsoluteID(q) == bs[j].id.Split(l)
    ensures var s, j' := SplitBlock(bs, i, k), if j < i then j else j + 1;
            j' < |s| && s[j'] == bs[j] && Cut(s, q) == SplitBlock(s, j', l)
  {
    assert Inside(bs, AbsoluteID(q), j);
    SplitReached(bs, i, k, AbsoluteID(q), j);
    CutIs(SplitBlock(bs, i, k), q, if j < i then j else j + 1);
  }

  lemma CutsBetween(bs: seq<Block>, p: NodePos, i: nat, k: nat, q: NodePos, j: nat, l: nat)
    requires WellFormed(bs) && i < j < |bs| && 0 < k < |bs[i].value| && 0 < l < |bs[j].value|
    requires AbsoluteID(p) == bs[i].id.Split(k) && AbsoluteID(q) == bs[j].id.Split(l)
    ensures Cut(SplitBlock(bs, i, k), q) == Cut(SplitBlock(bs, j, l), p)
  {
    CutAfter(bs, i, k, q, j, l);
    CutAfter(bs, j, l, p, i, k);
    SplitTwo(bs, i, k, j, l);
  }

  lemma CutsApart(bs: seq<Block>, p: NodePos, i: nat, k: nat, q: NodePos, j: nat, l: nat)
    requires WellFormed(bs) && i < j < |bs| && 0 < k < |bs[i].value| && 0 < l < |bs[j].value|
    requires AbsoluteID(p) == bs[i].id.Split(k) && AbsoluteID(q) == bs[j].id.Split(l)
    ensures Cut(Cut(bs, p), q) == Cut(Cut(bs, q), p)
  {
    CutInside(bs, p, i, k);
    CutInside(bs, q, j, l);
    CutsBetween(bs, p, i, k, q, j, l);
  }

  lemma CutBehind(bs: seq<Block>, i: nat, k: nat, q: NodePos, l: nat)
    requires WellFormed(bs) && i < |bs| && 0 < k < l < |bs[i].value| && AbsoluteID(q) == bs[i].id.Split(l)
    ensures var s := SplitBlock(bs, i, k);
            i + 1 < |s| && l - k <= |s[i + 1].value| && Cut(s, q) == SplitBlock(s, i + 1, l - k)
  {
    assert Inside(bs, AbsoluteID(q), i);
    SplitReached(bs, i, k, AbsoluteID(q), i);
    CutIs(SplitBlock(bs, i, k), q, i + 1);
  }

  lemma CutBefore(bs: seq<Block>, i: nat, l: nat, p: NodePos, k: nat)
    requires WellFormed(bs) && i < |bs| && 0 < k < l < |bs[i].value| && AbsoluteID(p) == bs[i].id.Split(k)
    ensures var s := SplitBlock(bs, i, l); i < |s| && k <= |s[i].value| && Cut(s, p) == SplitBlock(s, i, k)
  {
    assert Inside(bs, AbsoluteID(p), i);
    SplitReached(bs, i, l, AbsoluteID(p), i);
    CutIs(SplitBlock(bs, i, l), p, i);
  }

  lemma CutsWithin(bs: seq<Block>, p: NodePos, k: nat, q: NodePos, l: nat, i: nat)
    requires WellFormed(bs) && i < |bs| && 0 < k < l < |bs[i].value|
    requires AbsoluteID(p) == bs[i].id.Split(k) && AbsoluteID(q) == bs[i].id.Split(l)
    ensures Cut(SplitBlock(bs, i, k), q) == Cut(SplitBlock(bs, i, l), p)
  {
    CutBehind(bs, i, k, q, l);
    CutBefore(bs, i, l, p, k);
    SplitTwice(bs, i, k, l);
  }

  /** A cut at the end of a block does nothing, and no other cut changes that. */
  lemma CutsIdle(bs: seq<Block>, p: NodePos, i: nat, q: NodePos, j: nat)
    requires WellFormed(bs) && Reaches(bs, AbsoluteID(p), i) && !Inside(bs, AbsoluteID(p), i)
    requires Reaches(bs, AbsoluteID(q), j)
    ensures Cut(Cut(bs, p), q) == Cut(Cut(bs, q), p)
  {
    CutIs(bs, p, i);
    CutIs(bs, q, j);
    if Inside(bs, AbsoluteID(q), j) {
      var l := AbsoluteID(q).offset - bs[j].id.offset;
      SplitReached(bs, j, l, AbsoluteID(p), i);
      CutIs(SplitBlock(bs, j, l), p, Reaching(bs, j, l, AbsoluteID(p), i));
    }
  }

  lemma CutsInside(bs: seq<Block>, p: NodePos, i: nat, q: NodePos, j: nat)
    requires WellFormed(bs) && Inside(bs, AbsoluteID(p), i) && Inside(bs, AbsoluteID(q), j)
    requires i < j || (i == j && AbsoluteID(p).offset < AbsoluteID(q).offset)
    ensures Cut(Cut(bs, p), q) == Cut(Cut(bs, q), p)
  {
    var k, l := AbsoluteID(p).offset - bs[i].id.offset, AbsoluteID(q).offset - bs[j].id.offset;
    assert SameInsertion(bs, AbsoluteID(p), i) && SameInsertion(bs, AbsoluteID(q), j);
    if i < j {
      CutsApart(bs, p, i, k, q, j, l);
    } else {
      CutsTogether(bs, p, k, q, l, i);
    }
  }

  lemma CutsCommute(bs: seq<Block>, p: NodePos, q: NodePos)
    requires WellFormed(bs) && InText(bs, p) && InText(bs, q)
    ensures Cut(Cut(bs, p), q) == Cut(Cut(bs, q), p)
  {
    var a, b := AbsoluteID(p), AbsoluteID(q);
    var i: nat :| Reaches(bs, a, i);
    var j: nat :| Reaches(bs, b, j);
    if !Inside(bs, a, i) {
      CutsIdle(bs, p, i, q, j);
    } else if !Inside(bs, b, j) {
      CutsIdle(bs, q, j, p, i);
    } else if i < j || (i == j && a.offset < b.offset) {
      CutsInside(bs, p, i, q, j);
    } else if j < i || b.offset < a.offset {
      CutsInside(bs, q, j, p, i);
    } else {
      CutsTwice(bs, p, q);
    }
  }

  lemma CutsTogether(bs: seq<Block>, p: NodePos, k: nat, q: NodePos, l: nat, i: nat)
    requires WellFormed(bs) && i < |bs| && 0 < k < l < |bs[i].value|
    requires AbsoluteID(p) == bs[i].id.Split(k) && AbsoluteID(q) == bs[i].id.Split(l)
    ensures Cut(Cut(bs, p), q) == Cut(Cut(bs, q), p)
  {
    CutInside(bs, p, i, k);
    CutInside(bs, q, i, l);
    CutsWithin(bs, p, k, q, l, i);
  }

  /** Only the id that a position stands for matters. */
  lemma CutSame(bs: seq<Block>, p: NodePos, q: NodePos)
    requires AbsoluteID(p) == AbsoluteID(q)
    ensures Cut(bs, p) == Cut(bs, q)
  {
  }

  lemma CutsTwice(bs: seq<Block>, p: NodePos, q: NodePos)
    requires AbsoluteID(p) == AbsoluteID(q)
    ensures Cut(Cut(bs, p), q) == Cut(Cut(bs, q), p)
  {
    CutSame(bs, p, q);
    CutSame(Cut(bs, p), p, q);
  }

  // ----- when two insertions commute -----

  /** `x` is at the start of a block that `y` cuts in two. */
  ghost predicate Collides(bs: seq<Block>, x: Insertion, y: Insertion) {
    exists i :: AtStart(bs, x.ID(), i) && Inside(bs, y.ID(), i)
  }

  /** Putting `x` in and cutting for `y` can be done in either order. */
  lemma CutAfterPut(bs: seq<Block>, i: nat, x: Insertion, pos: NodePos, j: nat)
    requires WellFormed(bs) && New(bs, x) && i < |bs| && Inside(bs, AbsoluteID(pos), j)
    ensures var r, j' := Put(bs, i, x), if j < SkipLater(bs, i, x.editedAt) + 1 then j else j + 1;
            && j' < |r| && r[j'] == bs[j] && Cut(r, pos) == SplitBlock(r, j', AbsoluteID(pos).offset - bs[j].id.offset)
  {
    PutKeeps(bs, i, x, AbsoluteID(pos), j);
    CutIs(Put(bs, i, x), pos, if j < SkipLater(bs, i, x.editedAt) + 1 then j else j + 1);
  }

  lemma CutPutInside(bs: seq<Block>, i: nat, x: Insertion, pos: NodePos, j: nat)
    requires WellFormed(bs) && New(bs, x) && i < |bs| && Inside(bs, AbsoluteID(pos), j)
    ensures var t, i' := Cut(bs, pos), if i < j then i else i + 1;
            i' < |t| && Cut(Put(bs, i, x), pos) == Put(t, i', x)
  {
    CutIs(bs, pos, j);
    CutAfterPut(bs, i, x, pos, j);
    PutSplit(bs, i, x, j, AbsoluteID(pos).offset - bs[j].id.offset);
  }

  lemma SkipCut(bs: seq<Block>, i: nat, t: Ticket, pos: NodePos, j: nat)
    requires WellFormed(bs) && i < |bs| && Inside(bs, AbsoluteID(pos), j)
    ensures var r, i' := Cut(bs, pos), if i < j then i else i + 1;
            i' < |r| && (j < SkipLater(bs, i, t) + 1 <==> j < SkipLater(r, i', t) + 1)
  {
    CutIs(bs, pos, j);
    SkipSplit(bs, j, AbsoluteID(pos).offset - bs[j].id.offset, i, t);
  }

  lemma CutPut(bs: seq<Block>, i: nat, x: Insertion, pos: NodePos, j: nat)
    requires WellFormed(bs) && New(bs, x) && Reaches(bs, x.ID(), i) && !Inside(bs, x.ID(), i)
    requires Reaches(bs, AbsoluteID(pos), j) && !(i == j && AtStart(bs, x.ID(), i) && Inside(bs, AbsoluteID(pos), j))
    ensures var t := Cut(bs, pos);
            var i' := if Inside(bs, AbsoluteID(pos), j) && j <= i then i + 1 else i;
            && WellFormed(t) && i' < |t| && Reaches(t, x.ID(), i') && Reaches(t, AbsoluteID(pos), j)
            && Cut(Put(bs, i, x), pos) == Put(t, i', x)
            && (j < SkipLater(bs, i, x.editedAt) + 1 <==> j < SkipLater(t, i', x.editedAt) + 1)
  {
    var id, l := AbsoluteID(pos), AbsoluteID(pos).offset - bs[j].id.offset;
    CutIs(bs, pos, j);
    CutReaches(bs, pos, j);
    if Inside(bs, id, j) {
      SplitReached(bs, j, l, x.ID(), i);
      CutPutInside(bs, i, x, pos, j);
      SkipCut(bs, i, x.editedAt, pos, j);
    } else {
      PutKeeps(bs, i, x, id, j);
      CutIs(Put(bs, i, x), pos, if j < SkipLater(bs, i, x.editedAt) + 1 then j else j + 1);
    }
  }

  /** One insertion and then the other: both cuts, and then both insertions. */
  lemma ApplyBoth(bs: seq<Block>, x: Insertion, y: Insertion, i: nat, j: nat)
    requires WellFormed(bs) && New(bs, x) && y.content != [] && InText(bs, x.pos) && InText(bs, y.pos)
    requires !Collides(bs, x, y)
    requires Reaches(Cut(Cut(bs, x.pos), y.pos), x.ID(), i) && Reaches(Cut(Cut(bs, x.pos), y.pos), y.ID(), j)
    ensures Apply(bs, x).Some?
    ensures Apply(Apply(bs, x).value, y) == Some(PutBoth(Cut(Cut(bs, x.pos), y.pos), i, x, j, y))
  {
    var i0: nat :| Reaches(bs, x.ID(), i0);
    ApplyIs(bs, x, i0);
    CutReaches(bs, x.pos, i0);
    CutFresh(bs, x.pos, x.editedAt);
    CutInText(bs, x.pos, y.pos);
    var j0: nat :| Reaches(Cut(bs, x.pos), y.ID(), j0);
    NoCollision(bs, x, y, i0, j0);
    PutThenApply(Cut(bs, x.pos), x, i0, y, j0, i, j);
  }

  lemma PutThenApply(s: seq<Block>, x: Insertion, i0: nat, y: Insertion, j0: nat, i: nat, j: nat)
    requires WellFormed(s) && New(s, x) && y.content != [] && Reaches(s, x.ID(), i0) && !Inside(s, x.ID(), i0)
    requires Reaches(s, y.ID(), j0) && !(i0 == j0 && AtStart(s, x.ID(), i0) && Inside(s, y.ID(), j0))
    requires Reaches(Cut(s, y.pos), x.ID(), i) && Reaches(Cut(s, y.pos), y.ID(), j)
    ensures Apply(Put(s, i0, x), y) == Some(PutBoth(Cut(s, y.pos), i, x, j, y))
  {
    CutPut(s, i0, x, y.pos, j0);
    ReachedOnce(Cut(s, y.pos), x.pos, i, if Inside(s, y.ID(), j0) && j0 <= i0 then i0 + 1 else i0);
    ReachedOnce(Cut(s, y.pos), y.pos, j, j0);
    PutKeeps(s, i0, x, y.ID(), j0);
    ApplyIs(Put(s, i0, x), y, if j0 < SkipLater(s, i0, x.editedAt) + 1 then j0 else j0 + 1);
  }

  lemma ReachedOnce(bs: seq<Block>, pos: NodePos, i: nat, j: nat)
    requires WellFormed(bs) && Reaches(bs, AbsoluteID(pos), i) && Reaches(bs, AbsoluteID(pos), j)
    ensures i == j
  {
    ResolveIff(bs, pos);
  }

  lemma NoCollision(bs: seq<Block>, x: Insertion, y: Insertion, i: nat, j: nat)
    requires WellFormed(bs) && !Collides(bs, x, y) && Reaches(bs, x.ID(), i) && Reaches(Cut(bs, x.pos), y.ID(), j)
    requires InText(bs, y.pos)
    ensures var s := Cut(bs, x.pos); !(i == j && AtStart(s, x.ID(), i) && Inside(s, y.ID(), j))
  {
    CutIs(bs, x.pos, i);
    CutReaches(bs, x.pos, i);
  }

  lemma CommuteUnless(bs: seq<Block>, x: Insertion, y: Insertion)
    requires WellFormed(bs) && New(bs, x) && New(bs, y) && x.editedAt != y.editedAt
    requires InText(bs, x.pos) && InText(bs, y.pos) && !Collides(bs, x, y) && !Collides(bs, y, x)
    ensures Apply(bs, x).Some? && Apply(bs, y).Some? && Apply(Apply(bs, x).value, y).Some?
    ensures Apply(Apply(bs, x).value, y) == Apply(Apply(bs, y).value, x)
  {
    var t := Cut(Cut(bs, x.pos), y.pos);
    CutInText(bs, x.pos, x.pos);
    CutInText(bs, x.pos, y.pos);
    CutInText(Cut(bs, x.pos), y.pos, x.pos);
    CutInText(Cut(bs, x.pos), y.pos, y.pos);
    var i: nat :| Reaches(t, x.ID(), i);
    var j: nat :| Reaches(t, y.ID(), j);
    CutsCommute(bs, x.pos, y.pos);
    ApplyBoth(bs, x, y, i, j);
    ApplyBoth(bs, y, x, j, i);
    PutPut(t, i, x, j, y);
  }

  /** Where `x` comes first it goes behind the whole block, otherwise behind its left part. */
  lemma CollisionShows(bs: seq<Block>, x: Insertion, y: Insertion, j: nat)
    requires WellFormed(bs) && New(bs, x) && New(bs, y) && x.editedAt != y.editedAt
    requires AtStart(bs, x.ID(), j) && Inside(bs, y.ID(), j)
    requires After(x.editedAt, bs[j].id.createdAt) && After(y.editedAt, bs[j].id.createdAt)
    ensures Apply(bs, x).Some? && Apply(bs, y).Some?
    ensures Apply(Apply(bs, x).value, y) != Apply(Apply(bs, y).value, x)
  {
    var a := FirstBehind(bs, x, y, j);
    var b := FirstBefore(bs, x, y, j);
    assert a[j + 2].id.createdAt != b[j + 2].id.createdAt;
  }

  lemma NoWalk(bs: seq<Block>, j: nat, t: Ticket)
    requires j + 1 < |bs| && After(t, bs[j + 1].id.createdAt)
    ensures SkipLater(bs, j, t) == j
  {
    CompareIsTotalOrder(t, bs[j + 1].id.createdAt, t);
  }

  lemma CutThere(bs: seq<Block>, y: Insertion, j: nat)
    requires WellFormed(bs) && Inside(bs, y.ID(), j) && After(y.editedAt, bs[j].id.createdAt) && y.content != []
    ensures var l, s := y.ID().offset - bs[j].id.offset, Cut(bs, y.pos);
            && |s| == |bs| + 1 && WellFormed(s)
            && s[j].id == bs[j].id && |s[j].value| == l && s[j + 1].id == bs[j].id.Split(l)
            && SkipLater(s, j, y.editedAt) == j && Apply(bs, y) == Some(Put(s, j, y))
  {
    PartsThere(bs, y.pos, j);
    CutReaches(bs, y.pos, j);
    ApplyIs(bs, y, j);
    NoWalk(Cut(bs, y.pos), j, y.editedAt);
  }

  lemma PartsThere(bs: seq<Block>, pos: NodePos, j: nat)
    requires WellFormed(bs) && Inside(bs, AbsoluteID(pos), j)
    ensures var l, s := AbsoluteID(pos).offset - bs[j].id.offset, Cut(bs, pos);
            |s| == |bs| + 1 && s[j].id == bs[j].id && |s[j].value| == l && s[j + 1].id == bs[j].id.Split(l)
  {
    CutIs(bs, pos, j);
  }

  /** Insertion `x` goes behind the block, and `y` into it: right of `y` is the right part. */
  lemma FirstBehind(bs: seq<Block>, x: Insertion, y: Insertion, j: nat) returns (a: seq<Block>)
    requires WellFormed(bs) && New(bs, x) && New(bs, y) && x.editedAt != y.editedAt
    requires AtStart(bs, x.ID(), j) && Inside(bs, y.ID(), j) && After(y.editedAt, bs[j].id.createdAt)
    ensures Apply(bs, x).Some? && Apply(Apply(bs, x).value, y) == Some(a)
    ensures j + 2 < |a| && a[j + 2].id.createdAt == bs[j].id.createdAt
  {
    ApplyUncut(bs, x, j);
    PutKeeps(bs, j, x, y.ID(), j);
    var r := Put(bs, j, x);
    CutThere(r, y, j);
    a := Put(Cut(r, y.pos), j, y);
    PutBeside(Cut(r, y.pos), j, y);
  }

  lemma PutBeside(s: seq<Block>, j: nat, y: Insertion)
    requires j + 1 < |s| && SkipLater(s, j, y.editedAt) == j
    ensures j + 2 < |Put(s, j, y)| && Put(s, j, y)[j + 2] == s[j + 1]
  {
    ArrayItems.InsertedAt(s, j + 1, y.Inserted(), j + 2);
  }

  lemma StartStays(bs: seq<Block>, x: Insertion, y: Insertion, j: nat)
    requires WellFormed(bs) && AtStart(bs, x.ID(), j) && Inside(bs, y.ID(), j)
    ensures Reaches(Cut(bs, y.pos), x.ID(), j) && !Inside(Cut(bs, y.pos), x.ID(), j)
  {
    CutIs(bs, y.pos, j);
    SplitReached(bs, j, y.ID().offset - bs[j].id.offset, x.ID(), j);
  }

  lemma ApplyUncut(bs: seq<Block>, x: Insertion, j: nat)
    requires WellFormed(bs) && x.content != [] && Reaches(bs, x.ID(), j) && !Inside(bs, x.ID(), j)
    ensures j < |bs| && Apply(bs, x) == Some(Put(bs, j, x))
  {
    CutIs(bs, x.pos, j);
    ApplyIs(bs, x, j);
  }

  /** Insertion `y` goes into the block, and `x` behind its left part, next to `y`. */
  lemma FirstBefore(bs: seq<Block>, x: Insertion, y: Insertion, j: nat) returns (b: seq<Block>)
    requires WellFormed(bs) && New(bs, x) && New(bs, y) && x.editedAt != y.editedAt
    requires AtStart(bs, x.ID(), j) && Inside(bs, y.ID(), j)
    requires After(x.editedAt, bs[j].id.createdAt) && After(y.editedAt, bs[j].id.createdAt)
    ensures Apply(bs, y).Some? && Apply(Apply(bs, y).value, x) == Some(b)
    ensures j + 2 < |b| && b[j + 2].id.createdAt != bs[j].id.createdAt
  {
    CutThere(bs, y, j);
    CutFresh(bs, y.pos, y.editedAt);
    StartStays(bs, x, y, j);
    b := PutNext(Cut(bs, y.pos), j, y, x);
  }

  lemma PutNext(s: seq<Block>, j: nat, y: Insertion, x: Insertion) returns (b: seq<Block>)
    requires WellFormed(s) && New(s, y) && x.content != [] && Reaches(s, x.ID(), j) && !Inside(s, x.ID(), j)
    requires j + 1 < |s| && After(x.editedAt, s[j + 1].id.createdAt) && SkipLater(s, j, y.editedAt) == j
    ensures Apply(Put(s, j, y), x) == Some(b)
    ensures j + 2 < |b| && (b[j + 2] == x.Inserted() || b[j + 2] == y.Inserted())
  {
    PutKeeps(s, j, y, x.ID(), j);
    ApplyUncut(Put(s, j, y), x, j);
    TwoNext(s, j, y, x);
    b := Put(Put(s, j, y), j, x);
  }

  /** Two insertions behind one block stand next to each other. */
  lemma TwoNext(s: seq<Block>, j: nat, y: Insertion, x: Insertion)
    requires j + 1 < |s| && After(x.editedAt, s[j + 1].id.createdAt) && SkipLater(s, j, y.editedAt) == j
    ensures var b := Put(Put(s, j, y), j, x);
            j + 2 < |b| && (b[j + 2] == x.Inserted() || b[j + 2] == y.Inserted())
  {
    var r := Put(s, j, y);
    ArrayItems.InsertedAt(s, j + 1, y.Inserted(), j + 1);
    ArrayItems.InsertedAt(s, j + 1, y.Inserted(), j + 2);
    if After(y.editedAt, x.editedAt) {
      NoWalk(r, j + 1, x.editedAt);
    }
    ArrayItems.InsertedAt(r, SkipLater(r, j, x.editedAt) + 1, x.Inserted(), j + 2);
  }

  /** The author of an insertion knew the text it names. */
  ghost predicate Knows(x: Insertion) {
    After(x.editedAt, x.pos.id.createdAt)
  }

  /** Two insertions of a text commute if and only if neither is at the start of a block that the
      other cuts in two. */
  lemma InsertionsCommuteIff(bs: seq<Block>, x: Insertion, y: Insertion)
    requires WellFormed(bs) && New(bs, x) && New(bs, y) && x.editedAt != y.editedAt && Knows(x) && Knows(y)
    requires InText(bs, x.pos) && InText(bs, y.pos)
    ensures Apply(bs, x).Some? && Apply(bs, y).Some?
    ensures Apply(Apply(bs, x).value, y) == Apply(Apply(bs, y).value, x)
            <==> !Collides(bs, x, y) && !Collides(bs, y, x)
  {
    if i: nat :| AtStart(bs, x.ID(), i) && Inside(bs, y.ID(), i) {
      CollisionShows(bs, x, y, i);
    } else if i: nat :| AtStart(bs, y.ID(), i) && Inside(bs, x.ID(), i) {
      CollisionShows(bs, y, x, i);
    } else {
      CommuteUnless(bs, x, y);
    }
  }

  // ----- whole runs -----

  /** A position behind some unit of the text, or at the head, as every position made of a visible
      index is. */
  ghost predicate Behind(bs: seq<Block>, pos: NodePos) {
    exists i :: Reaches(bs, AbsoluteID(pos), i) && !AtStart(bs, AbsoluteID(pos), i)
  }

  lemma VisibleIsBehind(bs: seq<Block>, index: nat, i: nat, offset: nat)
    requires WellFormed(bs) && IsPos(bs, index, i, offset)
    ensures Behind(bs, PosIn(bs, i, offset))
  {
    assert SameInsertion(bs, AbsoluteID(PosIn(bs, i, offset)), i);
    assert Reaches(bs, AbsoluteID(PosIn(bs, i, offset)), i);
  }

  lemma BehindCommute(bs: seq<Block>, x: Insertion, y: Insertion)
    requires WellFormed(bs) && New(bs, x) && New(bs, y) && x.editedAt != y.editedAt
    requires Behind(bs, x.pos) && Behind(bs, y.pos)
    ensures Apply(bs, x).Some? && Apply(bs, y).Some? && Apply(Apply(bs, x).value, y).Some?
    ensures Apply(Apply(bs, x).value, y) == Apply(Apply(bs, y).value, x)
  {
    ResolveIff(bs, x.pos);
    ResolveIff(bs, y.pos);
    CommuteUnless(bs, x, y);
  }

  lemma CutKeepsBehind(bs: seq<Block>, cut: NodePos, i: nat, pos: NodePos)
    requires WellFormed(bs) && Reaches(bs, AbsoluteID(cut), i) && Behind(bs, pos)
    ensures Behind(Cut(bs, cut), pos)
  {
    var id, l := AbsoluteID(pos), AbsoluteID(cut).offset - bs[i].id.offset;
    var j: nat :| Reaches(bs, id, j) && !AtStart(bs, id, j);
    CutIs(bs, cut, i);
    if Inside(bs, AbsoluteID(cut), i) {
      SplitReached(bs, i, l, id, j);
      assert !AtStart(SplitBlock(bs, i, l), id, Reaching(bs, i, l, id, j));
    }
  }

  lemma PutKeepsBehind(bs: seq<Block>, i: nat, x: Insertion, pos: NodePos)
    requires WellFormed(bs) && i < |bs| && New(bs, x) && Behind(bs, pos)
    ensures Behind(Put(bs, i, x), pos)
  {
    var j: nat :| Reaches(bs, AbsoluteID(pos), j) && !AtStart(bs, AbsoluteID(pos), j);
    PutKeeps(bs, i, x, AbsoluteID(pos), j);
  }

  lemma ApplyKeepsBehind(bs: seq<Block>, x: Insertion, pos: NodePos)
    requires WellFormed(bs) && New(bs, x) && InText(bs, x.pos) && Behind(bs, pos)
    ensures Apply(bs, x).Some? && Behind(Apply(bs, x).value, pos)
  {
    var i: nat :| Reaches(bs, x.ID(), i);
    ApplyIs(bs, x, i);
    CutReaches(bs, x.pos, i);
    CutFresh(bs, x.pos, x.editedAt);
    CutKeepsBehind(bs, x.pos, i, pos);
    PutKeepsBehind(Cut(bs, x.pos), i, x, pos);
  }

  function Run(bs: seq<Block>, ops: seq<Insertion>): Option<seq<Block>>
    decreases |ops|
  {
    if ops == [] then Some(bs)
    else match Apply(bs, ops[0])
      case None => None
      case Some(r) => Run(r, ops[1..])
  }

  ghost predicate TicketsDiffer(ops: seq<Insertion>, i: int, j: int)
    requires 0 <= i < |ops| && 0 <= j < |ops|
  {
    ops[i].editedAt == ops[j].editedAt ==> i == j
  }

  /** The insertions are new to the text and to each other. */
  ghost predicate AllNew(bs: seq<Block>, ops: seq<Insertion>) {
    && (forall i :: 0 <= i < |ops| ==> New(bs, ops[i]))
    && (forall i, j :: 0 <= i < |ops| && 0 <= j < |ops| ==> TicketsDiffer(ops, i, j))
  }

  /** Each insertion finds its position in the text it comes to, behind some unit of it. */
  ghost predicate Placed(bs: seq<Block>, ops: seq<Insertion>)
    decreases |ops|
  {
    ops == [] || (Behind(bs, ops[0].pos) && Apply(bs, ops[0]).Some? && Placed(Apply(bs, ops[0]).value, ops[1..]))
  }

  lemma RestDiffers(ops: seq<Insertion>, j: nat)
    requires j < |ops| && forall i, k :: 0 <= i < |ops| && 0 <= k < |ops| ==> TicketsDiffer(ops, i, k)
    ensures var rest := ops[..j] + ops[j + 1..];
            && (forall i, k :: 0 <= i < |rest| && 0 <= k < |rest| ==> TicketsDiffer(rest, i, k))
            && (forall i :: 0 <= i < |rest| ==> rest[i] in ops && rest[i].editedAt != ops[j].editedAt)
  {
    var rest := ops[..j] + ops[j + 1..];
    forall i, k | 0 <= i < |rest| && 0 <= k < |rest| ensures TicketsDiffer(rest, i, k) {
      assert TicketsDiffer(ops, if i < j then i else i + 1, if k < j then k else k + 1);
    }
    forall i | 0 <= i < |rest| ensures rest[i] in ops && rest[i].editedAt != ops[j].editedAt {
      var i' := if i < j then i else i + 1;
      assert rest[i] == ops[i'] && TicketsDiffer(ops, i', j);
    }
  }

  lemma StillNew(bs: seq<Block>, x: Insertion, y: Insertion)
    requires WellFormed(bs) && New(bs, x) && New(bs, y) && x.editedAt != y.editedAt && InText(bs, x.pos)
    ensures Apply(bs, x).Some? && WellFormed(Apply(bs, x).value) && New(Apply(bs, x).value, y)
  {
    ApplyKeeps(bs, x, x.pos, y.editedAt);
  }

  lemma RestNew(bs: seq<Block>, ops: seq<Insertion>, j: nat)
    requires WellFormed(bs) && AllNew(bs, ops) && j < |ops| && InText(bs, ops[j].pos)
    ensures Apply(bs, ops[j]).Some? && WellFormed(Apply(bs, ops[j]).value)
    ensures AllNew(Apply(bs, ops[j]).value, ops[..j] + ops[j + 1..])
  {
    var x, rest := ops[j], ops[..j] + ops[j + 1..];
    assert New(bs, x);
    ApplyKeeps(bs, x, x.pos, x.editedAt);
    RestDiffers(ops, j);
    forall i | 0 <= i < |rest| ensures New(Apply(bs, x).value, rest[i]) {
      var k :| 0 <= k < |ops| && ops[k] == rest[i];
      assert New(bs, ops[k]);
      StillNew(bs, x, rest[i]);
    }
  }

  lemma RunCons(bs: seq<Block>, x: Insertion, ops: seq<Insertion>)
    requires Apply(bs, x).Some?
    ensures Run(bs, [x] + ops) == Run(Apply(bs, x).value, ops)
    ensures Behind(bs, x.pos) ==> (Placed(bs, [x] + ops) <==> Placed(Apply(bs, x).value, ops))
  {
    assert ([x] + ops)[1..] == ops;
  }

  lemma BehindInText(bs: seq<Block>, pos: NodePos)
    requires Behind(bs, pos)
    ensures InText(bs, pos)
  {
  }

  lemma WithoutFirst(ops: seq<Insertion>)
    requires ops != []
    ensures ops[..0] + ops[1..] == ops[1..]
  {
  }

  lemma TailNew(bs: seq<Block>, ops: seq<Insertion>)
    requires WellFormed(bs) && AllNew(bs, ops) && ops != [] && InText(bs, ops[0].pos)
    ensures Apply(bs, ops[0]).Some? && WellFormed(Apply(bs, ops[0]).value) && AllNew(Apply(bs, ops[0]).value, ops[1..])
  {
    WithoutFirst(ops);
    RestNew(bs, ops, 0);
  }

  lemma BehindSwap(bs: seq<Block>, x: Insertion, y: Insertion)
    requires WellFormed(bs) && New(bs, x) && New(bs, y) && x.editedAt != y.editedAt
    requires Behind(bs, x.pos) && Behind(bs, y.pos)
    ensures Apply(bs, x).Some? && Apply(bs, y).Some? && Apply(Apply(bs, x).value, y).Some?
    ensures Apply(Apply(bs, x).value, y) == Apply(Apply(bs, y).value, x)
    ensures Behind(Apply(bs, y).value, x.pos) && Behind(Apply(bs, x).value, y.pos)
  {
    BehindInText(bs, x.pos);
    BehindInText(bs, y.pos);
    BehindCommute(bs, x, y);
    ApplyKeepsBehind(bs, y, x.pos);
    ApplyKeepsBehind(bs, x, y.pos);
  }

  /** What is needed of the first two insertions to let them change places. */
  lemma SwapFirst(bs: seq<Block>, ops: seq<Insertion>, j: nat)
    requires WellFormed(bs) && AllNew(bs, ops) && Placed(bs, ops) && 0 < j < |ops| && Behind(bs, ops[j].pos)
    ensures Apply(bs, ops[0]).Some? && Apply(bs, ops[j]).Some?
    ensures var after := Apply(bs, ops[0]).value;
            && WellFormed(after) && AllNew(after, ops[1..]) && Placed(after, ops[1..]) && Behind(after, ops[j].pos)
            && Apply(after, ops[j]).Some? && Apply(Apply(bs, ops[j]).value, ops[0]) == Apply(after, ops[j])
            && Behind(Apply(bs, ops[j]).value, ops[0].pos)
  {
    assert New(bs, ops[j]) && New(bs, ops[0]) && TicketsDiffer(ops, 0, j);
    BehindSwap(bs, ops[j], ops[0]);
    BehindInText(bs, ops[0].pos);
    TailNew(bs, ops);
  }

  lemma WithoutLater(ops: seq<Insertion>, j: nat)
    requires 0 < j < |ops|
    ensures ops[1..][j - 1] == ops[j]
    ensures ops[..j] + ops[j + 1..] == [ops[0]] + (ops[1..][..j - 1] + ops[1..][j..])
  {
  }

  /** An insertion that could come first may as well. */
  lemma {:induction false} Bubble(bs: seq<Block>, ops: seq<Insertion>, j: nat)
    requires WellFormed(bs) && AllNew(bs, ops) && Placed(bs, ops) && j < |ops| && Behind(bs, ops[j].pos)
    ensures Apply(bs, ops[j]).Some? && Placed(Apply(bs, ops[j]).value, ops[..j] + ops[j + 1..])
    ensures Run(Apply(bs, ops[j]).value, ops[..j] + ops[j + 1..]) == Run(bs, ops)
    decreases j
  {
    if j == 0 {
      assert ops[..0] + ops[1..] == ops[1..];
    } else {
      SwapFirst(bs, ops, j);
      WithoutLater(ops, j);
      Bubble(Apply(bs, ops[0]).value, ops[1..], j - 1);
      RunCons(Apply(bs, ops[j]).value, ops[0], ops[1..][..j - 1] + ops[1..][j..]);
    }
  }

  /** Convergence of insertions: two copies of a text that execute the same ones, each in an order
      in which every position is there when it is needed, come to the same blocks. */
  lemma {:induction false} Converge(bs: seq<Block>, a: seq<Insertion>, b: seq<Insertion>)
    requires WellFormed(bs) && AllNew(bs, a) && AllNew(bs, b) && multiset(a) == multiset(b)
    requires Placed(bs, a) && Placed(bs, b)
    ensures Run(bs, a).Some? && Run(bs, a) == Run(bs, b)
    decreases |a|
  {
    if a == [] {
      assert |multiset(b)| == |b|;
    } else {
      assert a[0] in multiset(a);
      var j :| 0 <= j < |b| && b[j] == a[0];
      TakenOut(a, b, j);
      Bubble(bs, b, j);
      BehindInText(bs, a[0].pos);
      TailNew(bs, a);
      RestNew(bs, b, j);
      Converge(Apply(bs, a[0]).value, a[1..], b[..j] + b[j + 1..]);
    }
  }
}
