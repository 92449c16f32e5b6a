/** Moves of the elements of an array: with removals they commute, with insertions just when
    the element that is moved is not in the way of the insertion, at either of its places
    (pkg/document/json/rga_tree_list.go). */
module ArrayMoves {
  import opened Time
  import opened Wrappers
  import opened Sequences
  import opened ArrayItems
  import opened ArrayConvergence

  // ----- walks past one more item -----

  /** Where a walk for the time `t` that starts at `q` and used to end in the gap `b` ends
      once an item of the position `u` was put in the gap `a`. */
  ghost function Landing(a: nat, u: Ticket, q: nat, b: nat, t: Ticket): nat {
    if a <= q then b + 1 else if a > b then b else if After(u, t) then b + 1 else a
  }

  lemma SkipInserted(s: seq<Item>, a: nat, x: Item, q: nat, t: Ticket)
    requires q < |s| && a <= |s|
    ensures Skip(InsertAt(s, a, x), if q < a then q else q + 1, t) + 1
            == Landing(a, x.PositionedAt(), q, Skip(s, q, t) + 1, t)
  {
    var r, b := InsertAt(s, a, x), Skip(s, q, t) + 1;
    var q', stop := if q < a then q else q + 1, Landing(a, x.PositionedAt(), q, b, t) - 1;
    SkipStops(s, q, t);
    forall j | q' < j <= stop ensures Passes(r, t, j) {
      InsertedAt(s, a, x, j);
      assert j < a ==> Passes(s, t, j);
      assert j > a ==> Passes(s, t, j - 1);
    }
    if stop + 1 < |r| {
      InsertedAt(s, a, x, stop + 1);
      assert b < |s| ==> !Passes(s, t, b);
    }
    StopsIsSkip(r, q', t, stop);
  }

  /** A walk that starts at the new item itself. */
  lemma SkipFromInserted(s: seq<Item>, a: nat, x: Item, t: Ticket)
    requires 0 < a <= |s|
    ensures Skip(InsertAt(s, a, x), a, t) == Skip(s, a - 1, t) + 1
  {
    var r, e := InsertAt(s, a, x), Skip(s, a - 1, t);
    SkipStops(s, a - 1, t);
    forall j | a < j <= e + 1 ensures Passes(r, t, j) {
      InsertedAt(s, a, x, j);
      assert Passes(s, t, j - 1);
    }
    if e + 2 < |r| {
      InsertedAt(s, a, x, e + 2);
      assert !Passes(s, t, e + 1);
    }
    StopsIsSkip(r, a, t, e + 1);
  }

  // ----- two new items -----

  /** Two different items, the one put in first or the other: the same if and only if both
      come to stand at the same indices. */
  lemma TwoInsertedIff(s: seq<Item>, a: nat, x: Item, g: nat, b: nat, y: Item, h: nat)
    requires a <= |s| && b <= |s| && g <= |s| + 1 && h <= |s| + 1
    requires x.createdAt != y.createdAt && Find(s, x.createdAt) < 0 && Find(s, y.createdAt) < 0
    ensures InsertAt(InsertAt(s, a, x), g, y) == InsertAt(InsertAt(s, b, y), h, x)
            <==> g == (if h <= b then b + 1 else b) && h == (if g <= a then a + 1 else a)
  {
    var l, r := InsertAt(InsertAt(s, a, x), g, y), InsertAt(InsertAt(s, b, y), h, x);
    var i, j := if g <= a then a + 1 else a, if h <= b then b + 1 else b;
    InsertedAt(InsertAt(s, a, x), g, y, g);
    InsertedAt(InsertAt(s, a, x), g, y, i);
    InsertedAt(s, a, x, a);
    if l == r {
      OneInserted(s, b, y, h, x, g);
      OneInserted(s, b, y, h, x, i);
    } else if g == j && h == i {
      if a <= b && h == a {
        TwoInserted(s, a, x, b, y);
      } else {
        TwoInserted(s, b, y, a, x);
      }
    }
  }

  /** Where two new items stand. */
  lemma OneInserted(s: seq<Item>, b: nat, y: Item, h: nat, x: Item, k: nat)
    requires b <= |s| && h <= |s| + 1 && k <= |s| + 1
    requires x.createdAt != y.createdAt && Find(s, x.createdAt) < 0 && Find(s, y.createdAt) < 0
    ensures var r := InsertAt(InsertAt(s, b, y), h, x);
            && (r[k].createdAt == x.createdAt <==> k == h)
            && (r[k].createdAt == y.createdAt <==> k == if h <= b then b + 1 else b)
  {
    InsertedAt(InsertAt(s, b, y), h, x, k);
    if k != h {
      InsertedAt(s, b, y, if k < h then k else k - 1);
    }
  }

  // ----- a move and an insertion -----

  lemma FindWithout(s: seq<Item>, i: nat, c: Ticket)
    requires WellFormed(s) && 0 < i < |s| && c != s[i].createdAt
    ensures Find(Without(s, i), c) == var f := Find(s, c); if f < i then f else f - 1
  {
    var r, f := Without(s, i), Find(s, c);
    WithoutWellFormed(s, i);
    if f >= 0 {
      FindIs(r, c, if f < i then f else f - 1);
    }
  }

  /** The move is one that takes its element elsewhere, and not one that came too late. */
  ghost predicate Moves(s: seq<Item>, x: Operation) {
    x.Move? && Apply(s, x).Some? && CanMove(s[Find(s, x.createdAt)], x.executedAt)
  }

  /** The array without the moved element, that element, and the gap it goes to. */
  ghost function Rest(s: seq<Item>, x: Operation): seq<Item>
    requires Moves(s, x)
  {
    Without(s, Find(s, x.createdAt))
  }

  ghost function Taken(s: seq<Item>, x: Operation): Item
    requires Moves(s, x)
  {
    s[Find(s, x.createdAt)].(movedAt := Some(x.executedAt))
  }

  ghost function Goal(s: seq<Item>, x: Operation): (g: nat)
    requires Moves(s, x)
    ensures 0 < g <= |Rest(s, x)|
  {
    Skip(Rest(s, x), Find(Rest(s, x), x.prev), x.executedAt) + 1
  }

  /** The gap an insertion goes to. */
  ghost function Gap(s: seq<Item>, y: Operation): (g: nat)
    requires y.Insert? && Apply(s, y).Some?
    ensures 0 < g <= |s|
  {
    Skip(s, Find(s, y.prev), y.createdAt) + 1
  }

  ghost function GapInRest(s: seq<Item>, x: Operation, y: Operation): (g: nat)
    requires Moves(s, x) && y.Insert? && Apply(s, y).Some?
    ensures g <= |Rest(s, x)|
  {
    var i, g := Find(s, x.createdAt), Gap(s, y);
    if g <= i then g else g - 1
  }

  lemma MoveApplied(s: seq<Item>, x: Operation, y: Operation)
    requires WellFormed(s) && Moves(s, x) && y.Insert? && Apply(s, y).Some?
    ensures Find(Rest(s, x), x.createdAt) < 0 && Find(Rest(s, x), y.createdAt) < 0 && WellFormed(Rest(s, x))
    ensures Apply(s, x) == Some(InsertAt(Rest(s, x), Goal(s, x), Taken(s, x)))
    ensures WellFormed(Apply(s, x).value) && Apply(Apply(s, x).value, y).Some?
  {
    var i: int := Find(s, x.createdAt);
    var rest, a := Rest(s, x), Goal(s, x);
    WithoutWellFormed(s, i);
    ApplyWellFormed(s, x);
    FindWithout(s, i, y.createdAt);
    FindWith(rest, a, Taken(s, x), y.createdAt);
    FindWith(rest, a, Taken(s, x), y.prev);
    if y.prev != x.createdAt {
      FindWithout(s, i, y.prev);
    }
  }

  lemma MovedThenInserted(s: seq<Item>, x: Operation, y: Operation)
    requires WellFormed(s) && Moves(s, x) && y.Insert? && Apply(s, y).Some?
    ensures Apply(s, x).Some? && Apply(Apply(s, x).value, y).Some?
    ensures Apply(Apply(s, x).value, y)
            == Some(InsertAt(InsertAt(Rest(s, x), Goal(s, x), Taken(s, x)), Gap(Apply(s, x).value, y),
                             Item(y.createdAt, None, None)))
  {
    MoveApplied(s, x, y);
  }

  /** Taking an element out next to one that was just put in. */
  lemma WithoutInserted(s: seq<Item>, i: nat, g: nat, n: Item)
    requires i < |s| && g <= |s|
    ensures var r, k := InsertAt(s, g, n), if i < g then i else i + 1;
            r[k] == s[i] && Without(r, k) == InsertAt(Without(s, i), if g <= i then g else g - 1, n)
  {
    var r, k := InsertAt(s, g, n), if i < g then i else i + 1;
    InsertedAt(s, g, n, k);
    var w, h := Without(r, k), if g <= i then g else g - 1;
    forall j | 0 <= j < |w| ensures w[j] == InsertAt(Without(s, i), h, n)[j] {
      InsertedAt(s, g, n, if j < k then j else j + 1);
      InsertedAt(Without(s, i), h, n, j);
    }
  }

  /** What is left of an array after an insertion, without the element at `i`. */
  lemma RestInserted(s: seq<Item>, i: nat, g: nat, n: Item, c: Ticket, k: nat, h: nat, q: nat)
    requires WellFormed(s) && 0 < i < |s| && 0 < g <= |s| && Find(s, n.createdAt) < 0 && WellFormed(InsertAt(s, g, n))
    requires c != s[i].createdAt && c != n.createdAt && q == Find(Without(s, i), c)
    requires k == (if i < g then i else i + 1) && h == if g <= i then g else g - 1
    ensures k == Find(InsertAt(s, g, n), s[i].createdAt) && InsertAt(s, g, n)[k] == s[i]
    ensures Without(InsertAt(s, g, n), k) == InsertAt(Without(s, i), h, n)
    ensures Find(InsertAt(s, g, n), c) >= 0 && Find(InsertAt(Without(s, i), h, n), c) == if q < h then q else q + 1
  {
    WithoutWellFormed(s, i);
    FindWithout(s, i, c);
    FindWithout(s, i, n.createdAt);
    FindIs(s, s[i].createdAt, i);
    FindWith(s, g, n, s[i].createdAt);
    FindWith(s, g, n, c);
    WithoutInserted(s, i, g, n);
    WithoutWellFormed(InsertAt(s, g, n), k);
    FindWith(Without(s, i), h, n, c);
  }

  lemma MoveTo(s: seq<Item>, k: nat, x: Operation, rest: seq<Item>, q: nat, a: nat)
    requires WellFormed(s) && 0 < k < |s| && x.Move? && k == Find(s, x.createdAt) && Find(s, x.prev) >= 0
    requires CanMove(s[k], x.executedAt) && rest == Without(s, k) && q < |rest| && q == Find(rest, x.prev)
    requires a == Skip(rest, q, x.executedAt) + 1
    ensures Apply(s, x) == Some(InsertAt(rest, a, s[k].(movedAt := Some(x.executedAt))))
  {
    MoveIs(s, x.prev, x.createdAt, x.executedAt, k);
  }

  /** The array after an insertion, and the same without the moved element. */
  lemma Inserted(s: seq<Item>, x: Operation, y: Operation)
      returns (s2: seq<Item>, k: nat, rest: seq<Item>, q: nat)
    requires WellFormed(s) && Moves(s, x) && y.Insert? && Apply(s, y).Some?
    ensures Apply(s, y) == Some(s2) && WellFormed(s2) && 0 < k < |s2| && k == Find(s2, x.createdAt)
    ensures s2[k].(movedAt := Some(x.executedAt)) == Taken(s, x) && CanMove(s2[k], x.executedAt)
    ensures Find(s2, x.prev) >= 0 && rest == Without(s2, k) && q < |rest| && q == Find(rest, x.prev)
    ensures rest == InsertAt(Rest(s, x), GapInRest(s, x, y), Item(y.createdAt, None, None))
    ensures var p := Find(Rest(s, x), x.prev);
            p >= 0 && q == if p < GapInRest(s, x, y) then p else p + 1
  {
    var i: nat, g, h, n := Find(s, x.createdAt), Gap(s, y), GapInRest(s, x, y), Item(y.createdAt, None, None);
    s2, k, rest := Apply(s, y).value, if i < g then i else i + 1, InsertAt(Rest(s, x), h, n);
    ApplyWellFormed(s, y);
    FindWithout(s, i, x.prev);
    var p: nat := Find(Rest(s, x), x.prev);
    RestInserted(s, i, g, n, x.prev, k, h, p);
    q := Find(rest, x.prev);
  }

  lemma InsertedThenMoved(s: seq<Item>, x: Operation, y: Operation, a: nat)
    requires WellFormed(s) && Moves(s, x) && y.Insert? && Apply(s, y).Some?
    requires var rest := Rest(s, x);
             var q := Find(rest, x.prev);
             q >= 0 ==> a == Landing(GapInRest(s, x, y), y.createdAt, q, Goal(s, x), x.executedAt)
    ensures a <= |Rest(s, x)| + 1 && Apply(s, y).Some?
    ensures Apply(Apply(s, y).value, x)
            == Some(InsertAt(InsertAt(Rest(s, x), GapInRest(s, x, y), Item(y.createdAt, None, None)), a, Taken(s, x)))
  {
    var s2, k, rest, q := Inserted(s, x, y);
    var h, n := GapInRest(s, x, y), Item(y.createdAt, None, None);
    SkipInserted(Rest(s, x), h, n, Find(Rest(s, x), x.prev), x.executedAt);
    MoveTo(s2, k, x, rest, q, a);
  }

  /** An insertion that stops among the items a move has passed is later than the move. */
  lemma StoppedAmong(rest: seq<Item>, a: nat, m: Item, q: nat, t: Ticket, p: nat, d: Ticket, g: nat)
    requires q < |rest| && a == Skip(rest, q, t) + 1 && p <= |rest| && g == Skip(InsertAt(rest, a, m), p, d) + 1
    requires q < g < a
    ensures After(d, t)
  {
    SkipStops(rest, q, t);
    SkipStops(InsertAt(rest, a, m), p, d);
    InsertedAt(rest, a, m, g);
    assert Passes(rest, t, g) && !Passes(InsertAt(rest, a, m), d, g);
    CompareIsTotalOrder(d, rest[g].PositionedAt(), t);
  }

  /** The insertion goes between the same items whether the element was moved before or not;
      where it meets the moved element, the later of the two goes first. */
  ghost predicate Undisturbed(s: seq<Item>, x: Operation, y: Operation)
    requires Moves(s, x) && y.Insert? && Apply(s, y).Some? && Apply(Apply(s, x).value, y).Some?
  {
    var g, a := GapInRest(s, x, y), Goal(s, x);
    Gap(Apply(s, x).value, y) == if g < a || (g == a && After(y.createdAt, x.executedAt)) then g else g + 1
  }

  /** The two orders compared: `l` is the gap the insertion goes to after the move. */
  lemma OrdersAgreeIff(rest: seq<Item>, a: nat, m: Item, q: nat, t: Ticket, g: nat, n: Item, d: Ticket, p: nat, l: nat,
                       h: nat)
    requires Find(rest, m.createdAt) < 0 && Find(rest, n.createdAt) < 0 && m.createdAt != n.createdAt
    requires q < |rest| && a == Skip(rest, q, t) + 1 && g <= |rest| && h == Landing(g, d, q, a, t)
    requires p <= |rest| && l == Skip(InsertAt(rest, a, m), p, d) + 1
    ensures h <= |rest| + 1
    ensures InsertAt(InsertAt(rest, a, m), l, n) == InsertAt(InsertAt(rest, g, n), h, m)
            <==> l == if g < a || (g == a && After(d, t)) then g else g + 1
  {
    TwoInsertedIff(rest, a, m, l, g, n, h);
    if q < g < a && l == g {
      StoppedAmong(rest, a, m, q, t, p, d, l);
    }
  }

  /** A move that takes its element elsewhere and an insertion. */
  lemma MovesInsertIff(s: seq<Item>, x: Operation, y: Operation)
    requires WellFormed(s) && Moves(s, x) && y.Insert? && Apply(s, y).Some?
    ensures Apply(Apply(s, x).value, y).Some? && Apply(Apply(s, y).value, x).Some?
    ensures Apply(Apply(s, x).value, y) == Apply(Apply(s, y).value, x) <==> Undisturbed(s, x, y)
  {
    MoveApplied(s, x, y);
    MovedThenInserted(s, x, y);
    FindWithout(s, Find(s, x.createdAt), x.prev);
    var s1, g, q, d := Apply(s, x).value, GapInRest(s, x, y), Find(Rest(s, x), x.prev), y.createdAt;
    var h := Landing(g, d, q, Goal(s, x), x.executedAt);
    InsertedThenMoved(s, x, y, h);
    OrdersAgreeIff(Rest(s, x), Goal(s, x), Taken(s, x), q, x.executedAt, g, Item(d, None, None), d, Find(s1, y.prev),
                   Gap(s1, y), h);
  }

  /** A move that comes too late does nothing, before the insertion or after it. */
  lemma LateMoveInsert(s: seq<Item>, x: Operation, y: Operation)
    requires WellFormed(s) && x.Move? && y.Insert? && Apply(s, x).Some? && Apply(s, y).Some? && !Moves(s, x)
    ensures Apply(s, x).value == s && Apply(Apply(s, y).value, x) == Apply(s, y)
  {
    var i: nat := Find(s, x.createdAt);
    var g, n := Gap(s, y), Item(y.createdAt, None, None);
    ApplyWellFormed(s, y);
    FindWith(s, g, n, x.createdAt);
    FindWith(s, g, n, x.prev);
    InsertedAt(s, g, n, if i < g then i else i + 1);
  }

  /** When a move and an insertion commute. */
  lemma MoveInsertIff(s: seq<Item>, x: Operation, y: Operation)
    requires WellFormed(s) && x.Move? && y.Insert? && Apply(s, x).Some? && Apply(s, y).Some?
    ensures Apply(Apply(s, x).value, y).Some? && Apply(Apply(s, y).value, x).Some?
    ensures Apply(Apply(s, x).value, y) == Apply(Apply(s, y).value, x) <==> (Moves(s, x) ==> Undisturbed(s, x, y))
  {
    if Moves(s, x) {
      MovesInsertIff(s, x, y);
    } else {
      LateMoveInsert(s, x, y);
    }
  }

  // ----- guards that decide it -----

  /** An insertion after the moved element itself: the walks from where that was and from where
      it goes must end in the same gap, and the new element behind the moved one. */
  lemma AfterMovedIff(s: seq<Item>, x: Operation, y: Operation)
    requires WellFormed(s) && Moves(s, x) && y.Insert? && Apply(s, y).Some? && y.prev == x.createdAt
    ensures Apply(Apply(s, x).value, y).Some?
    ensures var a, g := Goal(s, x), GapInRest(s, x, y);
            Undisturbed(s, x, y)
            <==> Skip(Rest(s, x), a - 1, y.createdAt) + 1 == g && !(g == a && After(y.createdAt, x.executedAt))
  {
    var a := Goal(s, x);
    MoveApplied(s, x, y);
    FindWith(Rest(s, x), a, Taken(s, x), y.prev);
    SkipFromInserted(Rest(s, x), a, Taken(s, x), y.createdAt);
  }

  /** The walk of an insertion does not pass the element nor end at it. */
  ghost predicate Beside(s: seq<Item>, i: nat, y: Operation)
    requires y.Insert? && Apply(s, y).Some?
  {
    i < Find(s, y.prev) || i > Gap(s, y)
  }

  lemma SkipWithout(s: seq<Item>, i: nat, p: nat, t: Ticket)
    requires 0 < i < |s| && p < |s| && (i < p || i > Skip(s, p, t) + 1)
    ensures Skip(Without(s, i), if p < i then p else p - 1, t) == var e := Skip(s, p, t); if e < i then e else e - 1
  {
    var r, e, q := Without(s, i), Skip(s, p, t), if p < i then p else p - 1;
    var e' := if e < i then e else e - 1;
    SkipStops(s, p, t);
    forall j | q < j <= e' ensures Passes(r, t, j) {
      assert Passes(s, t, if j < i then j else j + 1);
    }
    if e' + 1 < |r| {
      assert !Passes(s, t, e + 1);
    }
    StopsIsSkip(r, q, t, e');
  }

  lemma WalkAside(s: seq<Item>, i: nat, e: nat, a: nat, m: Item, t: Ticket, p: nat, g: nat)
    requires 0 < i < |s| && e < |s| && a < |s| && (i < e || i > Skip(s, e, t) + 1)
    requires p == (if e < i then e else e - 1) && g == var h := Skip(s, e, t) + 1; if h <= i then h else h - 1
    ensures Skip(InsertAt(Without(s, i), a, m), if p < a then p else p + 1, t) + 1
            == Landing(a, m.PositionedAt(), p, g, t)
  {
    SkipWithout(s, i, e, t);
    SkipInserted(Without(s, i), a, m, p, t);
  }

  /** The array after the move, and where the element that an insertion names stands there,
      before the move and without the moved element. */
  lemma Named(s: seq<Item>, x: Operation, y: Operation) returns (s1: seq<Item>, f: nat, e: nat, p: nat)
    requires WellFormed(s) && Moves(s, x) && y.Insert? && Apply(s, y).Some? && y.prev != x.createdAt
    ensures Apply(s, x) == Some(s1) && s1 == InsertAt(Rest(s, x), Goal(s, x), Taken(s, x))
    ensures f < |s1| && f == Find(s1, y.prev) && f == if p < Goal(s, x) then p else p + 1
    ensures e < |s| && e == Find(s, y.prev) && p < |Rest(s, x)| && p == Find(Rest(s, x), y.prev)
    ensures e != Find(s, x.createdAt) && p == if e < Find(s, x.createdAt) then e else e - 1
  {
    MoveApplied(s, x, y);
    s1, e := Apply(s, x).value, Find(s, y.prev);
    FindWithout(s, Find(s, x.createdAt), y.prev);
    p := Find(Rest(s, x), y.prev);
    FindWith(Rest(s, x), Goal(s, x), Taken(s, x), y.prev);
    f := Find(s1, y.prev);
  }

  lemma GapAside(s: seq<Item>, x: Operation, y: Operation) returns (s1: seq<Item>, f: nat, p: nat)
    requires WellFormed(s) && Moves(s, x) && y.Insert? && Apply(s, y).Some? && y.prev != x.createdAt
    requires Beside(s, Find(s, x.createdAt), y)
    ensures Apply(s, x) == Some(s1) && f < |s1| && f == Find(s1, y.prev) && p == Find(Rest(s, x), y.prev)
    ensures p < |Rest(s, x)| && p < GapInRest(s, x, y)
    ensures Skip(s1, f, y.createdAt) + 1
            == Landing(Goal(s, x), x.executedAt, p, GapInRest(s, x, y), y.createdAt)
  {
    var e;
    s1, f, e, p := Named(s, x, y);
    WalkAside(s, Find(s, x.createdAt), e, Goal(s, x), Taken(s, x), y.createdAt, p, GapInRest(s, x, y));
  }

  /** An element that is moved from beside the walk of an insertion to beside it, or is moved
      later than the insertion, is not in its way. */
  lemma MoveAside(s: seq<Item>, x: Operation, y: Operation)
    requires WellFormed(s) && Moves(s, x) && y.Insert? && Apply(s, y).Some? && y.prev != x.createdAt
    requires Beside(s, Find(s, x.createdAt), y)
    requires var p, a := Find(Rest(s, x), y.prev), Goal(s, x);
             a <= p || a > GapInRest(s, x, y) || After(x.executedAt, y.createdAt)
    ensures Apply(Apply(s, x).value, y).Some? && Apply(Apply(s, y).value, x).Some?
    ensures Apply(Apply(s, x).value, y) == Apply(Apply(s, y).value, x)
  {
    CompareIsTotalOrder(y.createdAt, x.executedAt, y.createdAt);
    MovesInsertIff(s, x, y);
    var s1, f, p := GapAside(s, x, y);
    assert Gap(s1, y) == Skip(s1, f, y.createdAt) + 1;
    assert Undisturbed(s, x, y);
  }

  // ----- a move and a removal -----

  lemma WithoutSet(s: seq<Item>, i: nat, j: nat, x: Item)
    requires i < |s| && j < |s|
    ensures Without(s[j := x], i)
            == if j == i then Without(s, i) else Without(s, i)[if j < i then j else j - 1 := x]
  {
  }

  lemma PlacedSet(rest: seq<Item>, q: nat, m: Item, t: Ticket, k: nat, dead: Item)
    requires q < |rest| && k < |rest| && dead.PositionedAt() == rest[k].PositionedAt()
    ensures var a := Skip(rest, q, t) + 1;
            Placed(rest[k := dead], q, m, t) == Placed(rest, q, m, t)[if k < a then k else k + 1 := dead]
  {
    SkipSet(rest, k, dead, q, t);
    InsertSet(rest, Skip(rest, q, t) + 1, m, k, dead);
  }

  lemma PlacedSame(rest: seq<Item>, q: nat, m: Item, t: Ticket, dead: Item)
    requires q < |rest|
    ensures var a := Skip(rest, q, t) + 1;
            Placed(rest, q, m, t)[a] == m && Placed(rest, q, dead, t) == Placed(rest, q, m, t)[a := dead]
  {
  }

  /** The array without one element, when another was removed. */
  lemma RestSet(s: seq<Item>, i: nat, j: nat, h: nat, prev: Ticket, dead: Item)
    requires WellFormed(s) && 0 < i < |s| && j < |s| && i != j && h == if j < i then j else j - 1
    requires dead.createdAt == s[j].createdAt && WellFormed(s[j := dead])
    ensures WellFormed(Without(s, i)) && Without(s, i)[h] == s[j]
    ensures Without(s[j := dead], i) == Without(s, i)[h := dead]
    ensures Find(Without(s, i), s[i].createdAt) < 0 && Find(Without(s, i), s[j].createdAt) == h
    ensures Find(Without(s[j := dead], i), prev) == Find(Without(s, i), prev)
  {
    WithoutSet(s, i, j, dead);
    WithoutWellFormed(s, i);
    WithoutWellFormed(s[j := dead], i);
    FindIs(Without(s, i), s[j].createdAt, h);
    FindSet(Without(s, i), h, dead, prev);
  }

  lemma FoundBeside(rest: seq<Item>, h: nat, a: nat, m: Item)
    requires WellFormed(rest) && h < |rest| && 0 < a <= |rest| && Find(rest, m.createdAt) < 0
    ensures var k := if h < a then h else h + 1;
            Find(InsertAt(rest, a, m), rest[h].createdAt) == k && InsertAt(rest, a, m)[k] == rest[h]
  {
    InsertedWellFormed(rest, a, m);
    FindIs(rest, rest[h].createdAt, h);
    FindWith(rest, a, m, rest[h].createdAt);
    InsertedAt(rest, a, m, if h < a then h else h + 1);
  }

  lemma PlacedOther(rest: seq<Item>, h: nat, q: nat, m: Item, t: Ticket, dead: Item)
    requires WellFormed(rest) && h < |rest| && q < |rest| && Find(rest, m.createdAt) < 0
    requires dead.createdAt == rest[h].createdAt && dead.PositionedAt() == rest[h].PositionedAt()
    ensures var r := Placed(rest, q, m, t);
            var k := Find(r, rest[h].createdAt);
            && 0 <= k < |r| && r[k] == rest[h] && Placed(rest[h := dead], q, m, t) == r[k := dead]
  {
    FoundBeside(rest, h, Skip(rest, q, t) + 1, m);
    PlacedSet(rest, q, m, t, h, dead);
  }

  /** What a move makes of an array in which the moved element was removed. */
  lemma MovedSelf(s: seq<Item>, i: nat, q: nat, m: Item, t: Ticket, dead: Item)
    requires WellFormed(s) && 0 < i < |s| && q < |s| - 1 && m.createdAt == s[i].createdAt
    ensures var r := Placed(Without(s, i), q, m, t);
            var k := Find(r, m.createdAt);
            && 0 <= k < |r| && r[k] == m && Placed(Without(s, i), q, dead, t) == r[k := dead]
  {
    var rest, a := Without(s, i), Skip(Without(s, i), q, t) + 1;
    WithoutWellFormed(s, i);
    InsertedWellFormed(rest, a, m);
    FindWith(rest, a, m, m.createdAt);
    PlacedSame(rest, q, m, t, dead);
  }

  lemma MovesDelete(s: seq<Item>, x: Operation, t: Ticket, i: nat, j: nat)
    requires WellFormed(s) && Moves(s, x) && i == Find(s, x.createdAt) && j < |s|
    requires WellFormed(s[j := Buried(s[j], t)])
    ensures var r := Apply(s, x).value;
            var k := Find(r, s[j].createdAt);
            && 0 <= k < |r| && Apply(s[j := Buried(s[j], t)], x) == Some(r[k := Buried(r[k], t)])
  {
    var dead, m, q: int := Buried(s[j], t), Taken(s, x), Find(Rest(s, x), x.prev);
    var s' := s[j := dead];
    FindSet(s, j, dead, x.createdAt);
    FindSet(s, j, dead, x.prev);
    MoveIs(s, x.prev, x.createdAt, x.executedAt, i);
    MoveIs(s', x.prev, x.createdAt, x.executedAt, i);
    if i == j {
      WithoutSet(s, i, j, dead);
      MovedSelf(s, i, q, m, x.executedAt, Buried(m, t));
    } else {
      var h := if j < i then j else j - 1;
      RestSet(s, i, j, h, x.prev, dead);
      PlacedOther(Rest(s, x), h, q, m, x.executedAt, dead);
    }
  }

  lemma MoveDelete(s: seq<Item>, x: Operation, y: Operation)
    requires WellFormed(s) && x.Move? && y.Delete? && Apply(s, x).Some? && Apply(s, y).Some?
    ensures Apply(Apply(s, x).value, y).Some? && Apply(Apply(s, x).value, y) == Apply(Apply(s, y).value, x)
  {
    var i: nat, j: nat := Find(s, x.createdAt), Find(s, y.createdAt);
    var dead := Buried(s[j], y.deletedAt);
    ApplyWellFormed(s, x);
    ApplyWellFormed(s, y);
    FindSet(s, j, dead, x.createdAt);
    FindSet(s, j, dead, x.prev);
    if Moves(s, x) {
      MovesDelete(s, x, y.deletedAt, i, j);
    }
  }

  // ----- two moves of one element -----

  /** An element is still there after a move, the same unless it is the one that was moved. */
  lemma FoundMoved(s: seq<Item>, x: Operation, c: Ticket)
    requires WellFormed(s) && Moves(s, x) && Find(s, c) >= 0
    ensures WellFormed(Rest(s, x)) && WellFormed(InsertAt(Rest(s, x), Goal(s, x), Taken(s, x)))
    ensures Apply(s, x) == Some(InsertAt(Rest(s, x), Goal(s, x), Taken(s, x))) && Find(Apply(s, x).value, c) >= 0
    ensures c != x.createdAt ==>
              var s1, k := Apply(s, x).value, Find(Rest(s, x), c);
              && k >= 0 && k == (if Find(s, c) < Find(s, x.createdAt) then Find(s, c) else Find(s, c) - 1)
              && Find(s1, c) == (if k < Goal(s, x) then k else k + 1) && s1[Find(s1, c)] == s[Find(s, c)]
  {
    var i: nat := Find(s, x.createdAt);
    MoveIs(s, x.prev, x.createdAt, x.executedAt, i);
    WithoutWellFormed(s, i);
    InsertedWellFormed(Rest(s, x), Goal(s, x), Taken(s, x));
    FindWith(Rest(s, x), Goal(s, x), Taken(s, x), c);
    if c != x.createdAt {
      FindWithout(s, i, c);
      InsertedAt(Rest(s, x), Goal(s, x), Taken(s, x), Find(InsertAt(Rest(s, x), Goal(s, x), Taken(s, x)), c));
    }
  }

  /** After a move the same element is moved again just by a later one, and then goes where it
      had gone without the first. */
  lemma MovedAgain(s: seq<Item>, x: Operation, y: Operation)
    requires WellFormed(s) && Moves(s, x) && y.Move? && y.createdAt == x.createdAt && Apply(s, y).Some?
    ensures Apply(Apply(s, x).value, y)
            == if After(y.executedAt, x.executedAt) then Apply(s, y) else Apply(s, x)
  {
    var i: nat, rest, a, m := Find(s, x.createdAt), Rest(s, x), Goal(s, x), Taken(s, x);
    MoveIs(s, y.prev, y.createdAt, y.executedAt, i);
    if s[i].movedAt.Some? {
      CompareIsTotalOrder(y.executedAt, x.executedAt, s[i].movedAt.value);
    }
    FoundMoved(s, x, x.createdAt);
    FoundMoved(s, x, y.prev);
    InsertedAt(rest, a, m, a);
    FindIs(InsertAt(rest, a, m), x.createdAt, a);
    FindNamed(s, i, y.prev);
    MoveIs(InsertAt(rest, a, m), y.prev, y.createdAt, y.executedAt, a);
    WithoutPut(rest, a, m);
  }

  lemma WithoutPut(rest: seq<Item>, a: nat, m: Item)
    requires a <= |rest|
    ensures Without(InsertAt(rest, a, m), a) == rest
  {
  }

  /** What is on the array is on it without an element, that element aside. */
  lemma FindNamed(s: seq<Item>, i: nat, c: Ticket)
    requires WellFormed(s) && 0 < i < |s|
    ensures Find(s, c) >= 0 && c != s[i].createdAt ==> Find(Without(s, i), c) >= 0
  {
    if c != s[i].createdAt {
      FindWithout(s, i, c);
    }
  }

  /** Two moves of one element commute unless they were made at the same time: the later one
      wins. At the same time, the first that comes. */
  lemma SameMoveIff(s: seq<Item>, x: Operation, y: Operation)
    requires WellFormed(s) && x.Move? && y.Move? && x.createdAt == y.createdAt
    requires Apply(s, x).Some? && Apply(s, y).Some?
    ensures Apply(Apply(s, x).value, y).Some? && Apply(Apply(s, y).value, x).Some?
    ensures Apply(Apply(s, x).value, y) == Apply(Apply(s, y).value, x)
            <==> x.executedAt != y.executedAt || Apply(s, x) == Apply(s, y)
  {
    var t, u, i := x.executedAt, y.executedAt, Find(s, x.createdAt);
    if s[i].movedAt.Some? {
      CompareIsTotalOrder(t, u, s[i].movedAt.value);
      CompareIsTotalOrder(u, t, s[i].movedAt.value);
    }
    CompareIsTotalOrder(t, u, t);
    if Moves(s, x) {
      MovedAgain(s, x, y);
    }
    if Moves(s, y) {
      MovedAgain(s, y, x);
    }
  }

  // ----- moves of two elements -----

  ghost predicate MoveTwo(s: seq<Item>, x: Operation, y: Operation) {
    Moves(s, x) && Moves(s, y) && x.createdAt != y.createdAt
  }

  /** Where the element of `y` stands once that of `x` is taken out. */
  ghost function OtherAt(s: seq<Item>, x: Operation, y: Operation): (k: nat)
    requires MoveTwo(s, x, y)
    ensures k < |Rest(s, x)|
  {
    var i, j := Find(s, x.createdAt), Find(s, y.createdAt);
    if j < i then j else j - 1
  }

  /** The array without both elements, and the gap in it that `x` goes to if it comes first. */
  ghost function RestOfBoth(s: seq<Item>, x: Operation, y: Operation): seq<Item>
    requires MoveTwo(s, x, y)
  {
    Without(Rest(s, x), OtherAt(s, x, y))
  }

  ghost function FirstGoal(s: seq<Item>, x: Operation, y: Operation): (g: nat)
    requires MoveTwo(s, x, y)
    ensures g <= |RestOfBoth(s, x, y)|
  {
    if Goal(s, x) <= OtherAt(s, x, y) then Goal(s, x) else Goal(s, x) - 1
  }

  lemma WithoutBoth(s: seq<Item>, i: nat, j: nat)
    requires i < |s| && j < |s| && i != j
    ensures Without(Without(s, i), if j < i then j else j - 1) == Without(Without(s, j), if i < j then i else i - 1)
  {
  }

  lemma TakenOut2(s: seq<Item>, x: Operation, y: Operation)
    requires WellFormed(s) && MoveTwo(s, x, y)
    ensures WellFormed(Rest(s, x)) && WellFormed(RestOfBoth(s, x, y)) && OtherAt(s, x, y) > 0
    ensures Find(Rest(s, x), y.createdAt) == OtherAt(s, x, y)
    ensures Rest(s, x)[OtherAt(s, x, y)] == s[Find(s, y.createdAt)]
    ensures Find(RestOfBoth(s, x, y), x.createdAt) < 0 && Find(RestOfBoth(s, x, y), y.createdAt) < 0
    ensures Find(Rest(s, x), x.createdAt) < 0
  {
    var i: nat, k := Find(s, x.createdAt), OtherAt(s, x, y);
    WithoutWellFormed(s, i);
    FindWithout(s, i, y.createdAt);
    WithoutWellFormed(Rest(s, x), k);
    FindWithout(Rest(s, x), k, x.createdAt);
  }

  /** The second move after the first one. */
  lemma NextMoves(s: seq<Item>, x: Operation, y: Operation)
    requires WellFormed(s) && MoveTwo(s, x, y)
    ensures Apply(s, x).Some? && WellFormed(Apply(s, x).value) && Moves(Apply(s, x).value, y)
    ensures Taken(Apply(s, x).value, y) == Taken(s, y)
  {
    MoveIs(s, y.prev, y.createdAt, y.executedAt, Find(s, y.createdAt));
    FoundMoved(s, x, y.createdAt);
    FoundMoved(s, x, y.prev);
    var s1 := Apply(s, x).value;
    MoveIs(s1, y.prev, y.createdAt, y.executedAt, Find(s1, y.createdAt));
  }

  /** What the second move takes its element out of. */
  lemma RestMoved(s: seq<Item>, x: Operation, y: Operation)
    requires WellFormed(s) && MoveTwo(s, x, y) && Apply(s, x).Some? && Moves(Apply(s, x).value, y)
    ensures Rest(Apply(s, x).value, y) == InsertAt(RestOfBoth(s, x, y), FirstGoal(s, x, y), Taken(s, x))
  {
    var k, g := OtherAt(s, x, y), Goal(s, x);
    assert Find(Apply(s, x).value, y.createdAt) == (if k < g then k else k + 1)
           && Apply(s, x).value == InsertAt(Rest(s, x), g, Taken(s, x)) by {
      TakenOut2(s, x, y);
      FoundMoved(s, x, y.createdAt);
    }
    WithoutInserted(Rest(s, x), k, g, Taken(s, x));
  }

  lemma MoveAppliedIs(s: seq<Item>, x: Operation)
    requires WellFormed(s) && Moves(s, x)
    ensures Apply(s, x) == Some(InsertAt(Rest(s, x), Goal(s, x), Taken(s, x)))
  {
    FoundMoved(s, x, x.createdAt);
  }

  /** Two moves in order, in terms of what neither touches. */
  lemma MovedFirst(s: seq<Item>, x: Operation, y: Operation)
    requires WellFormed(s) && MoveTwo(s, x, y)
    ensures Apply(s, x).Some? && Moves(Apply(s, x).value, y)
    ensures Apply(Apply(s, x).value, y)
            == Some(InsertAt(InsertAt(RestOfBoth(s, x, y), FirstGoal(s, x, y), Taken(s, x)),
                             Goal(Apply(s, x).value, y), Taken(s, y)))
  {
    NextMoves(s, x, y);
    RestMoved(s, x, y);
    MoveAppliedIs(Apply(s, x).value, y);
  }

  /** Each element goes to the same gap of what neither touches, whether the other was moved before
      or not; where both go to one gap, they come to stand in one order. */
  ghost predicate Independent(s: seq<Item>, x: Operation, y: Operation)
    requires MoveTwo(s, x, y) && Moves(Apply(s, x).value, y) && Moves(Apply(s, y).value, x)
  {
    var a, b := FirstGoal(s, x, y), FirstGoal(s, y, x);
    var g, h := Goal(Apply(s, x).value, y), Goal(Apply(s, y).value, x);
    g == (if h <= b then b + 1 else b) && h == (if g <= a then a + 1 else a)
  }

  /** Two moves of different elements commute if and only if they are independent, or one of them
      comes too late to move anything. */
  lemma MoveMoveIff(s: seq<Item>, x: Operation, y: Operation)
    requires WellFormed(s) && x.Move? && y.Move? && x.createdAt != y.createdAt
    requires Apply(s, x).Some? && Apply(s, y).Some?
    ensures Apply(Apply(s, x).value, y).Some? && Apply(Apply(s, y).value, x).Some?
    ensures MoveTwo(s, x, y) ==> Moves(Apply(s, x).value, y) && Moves(Apply(s, y).value, x)
    ensures Apply(Apply(s, x).value, y) == Apply(Apply(s, y).value, x)
            <==> (MoveTwo(s, x, y) ==> Independent(s, x, y))
  {
    if MoveTwo(s, x, y) {
      MovedFirst(s, x, y);
      MovedFirst(s, y, x);
      TakenOut2(s, x, y);
      WithoutBoth(s, Find(s, x.createdAt), Find(s, y.createdAt));
      TwoInsertedIff(RestOfBoth(s, x, y), FirstGoal(s, x, y), Taken(s, x), Goal(Apply(s, x).value, y),
                     FirstGoal(s, y, x), Taken(s, y), Goal(Apply(s, y).value, x));
    } else if !Moves(s, x) {
      StillIdle(s, y, x);
    } else {
      StillIdle(s, x, y);
    }
  }

  /** A move that comes too late still does when another element was moved. */
  lemma StillIdle(s: seq<Item>, x: Operation, y: Operation)
    requires WellFormed(s) && x.Move? && y.Move? && x.createdAt != y.createdAt && !Moves(s, y)
    requires Apply(s, x).Some? && Apply(s, y).Some?
    ensures Apply(s, y) == Some(s) && Apply(Apply(s, x).value, y) == Apply(s, x)
  {
    if Moves(s, x) {
      FoundMoved(s, x, y.createdAt);
      FoundMoved(s, x, y.prev);
    }
  }

  // ----- runs with moves -----

  /** The two operations may change places on this array: all but two moves that depend on each
      other, moves of one element made at the same time, and a move and an insertion that it disturbs. */
  ghost predicate Free(s: seq<Item>, x: Operation, y: Operation) {
    && Apply(s, x).Some? && Apply(s, y).Some?
    && (x.Move? && y.Move? ==> FreeMoves(s, x, y))
    && (x.Insert? && y.Insert? ==> x.createdAt != y.createdAt)
    && (x.Insert? && Moves(s, y) ==> Apply(Apply(s, y).value, x).Some? && Undisturbed(s, y, x))
    && (y.Insert? && Moves(s, x) ==> Apply(Apply(s, x).value, y).Some? && Undisturbed(s, x, y))
  }

  ghost predicate FreeMoves(s: seq<Item>, x: Operation, y: Operation)
    requires x.Move? && y.Move? && Apply(s, x).Some? && Apply(s, y).Some?
  {
    if x.createdAt == y.createdAt then x.executedAt != y.executedAt || Apply(s, x) == Apply(s, y)
    else MoveTwo(s, x, y) ==>
           Moves(Apply(s, x).value, y) && Moves(Apply(s, y).value, x) && Independent(s, x, y)
  }

  lemma FreeCommute(s: seq<Item>, x: Operation, y: Operation)
    requires WellFormed(s) && Free(s, x, y)
    ensures Apply(Apply(s, x).value, y).Some? && Apply(Apply(s, x).value, y) == Apply(Apply(s, y).value, x)
  {
    if x.Move? {
      if y.Move? {
        if x.createdAt == y.createdAt {
          SameMoveIff(s, x, y);
        } else {
          MoveMoveIff(s, x, y);
        }
      } else if y.Insert? {
        MoveInsertIff(s, x, y);
      } else {
        MoveDelete(s, x, y);
      }
    } else if y.Move? {
      if x.Insert? {
        MoveInsertIff(s, y, x);
      } else {
        MoveDelete(s, y, x);
      }
    } else {
      Commute(s, x, y);
    }
  }

  lemma {:induction false} RunAppend(s: seq<Item>, a: seq<Operation>, b: seq<Operation>)
    requires Run(s, a).Some?
    ensures Run(s, a + b) == Run(Run(s, a).value, b)
    decreases |a|
  {
    if a == [] {
      assert a + b == b;
    } else {
      assert (a + b)[0] == a[0] && (a + b)[1..] == a[1..] + b;
      RunAppend(Apply(s, a[0]).value, a[1..], b);
    }
  }

  lemma {:induction false} RunWellFormed(s: seq<Item>, ops: seq<Operation>)
    requires WellFormed(s) && Run(s, ops).Some?
    ensures WellFormed(Run(s, ops).value)
    decreases |ops|
  {
    if ops != [] {
      ApplyWellFormed(s, ops[0]);
      RunWellFormed(Apply(s, ops[0]).value, ops[1..]);
    }
  }

  /** The second run is the first but for two neighbours that were free to change places. */
  ghost predicate Swapped(s: seq<Item>, a: seq<Operation>, b: seq<Operation>, j: nat) {
    && |a| == |b| && j + 1 < |a| && a[..j] == b[..j] && a[j + 2..] == b[j + 2..]
    && a[j] == b[j + 1] && a[j + 1] == b[j] && Run(s, a[..j]).Some? && Free(Run(s, a[..j]).value, a[j], a[j + 1])
  }

  lemma RunAround(s: seq<Item>, front: seq<Operation>, x: Operation, y: Operation, rest: seq<Operation>)
    requires Run(s, front).Some? && Apply(Run(s, front).value, x).Some?
    requires Apply(Apply(Run(s, front).value, x).value, y).Some?
    ensures Run(s, front + ([x, y] + rest)) == Run(Apply(Apply(Run(s, front).value, x).value, y).value, rest)
  {
    var r := Run(s, front).value;
    RunAppend(s, front, [x, y] + rest);
    RunTwo(r, x, y);
    RunAppend(r, [x, y], rest);
  }

  lemma SplitAtPair(a: seq<Operation>, j: nat)
    requires j + 1 < |a|
    ensures a == a[..j] + ([a[j], a[j + 1]] + a[j + 2..])
  {
  }

  lemma SwappedRun(s: seq<Item>, a: seq<Operation>, b: seq<Operation>, j: nat)
    requires WellFormed(s) && Swapped(s, a, b, j)
    ensures Run(s, a) == Run(s, b)
  {
    var x, y, front, rest := a[j], a[j + 1], a[..j], a[j + 2..];
    SplitAtPair(a, j);
    SplitAtPair(b, j);
    RunWellFormed(s, front);
    FreeCommute(Run(s, front).value, x, y);
    RunAround(s, front, x, y, rest);
    RunAround(s, front, y, x, rest);
  }

  /** Convergence with moves: runs that come from each other by changing places of neighbours
      that are free to do so come to the same array. */
  lemma {:induction false} SwapsConverge(s: seq<Item>, runs: seq<seq<Operation>>, at: seq<nat>)
    requires WellFormed(s) && |runs| == |at| + 1
    requires forall i :: 0 <= i < |at| ==> Swapped(s, runs[i], runs[i + 1], at[i])
    ensures Run(s, runs[0]) == Run(s, runs[|at|])
    decreases |at|
  {
    if |at| > 0 {
      var n := |at| - 1;
      SwapsConverge(s, runs[..|at|], at[..n]);
      assert runs[..|at|][n] == runs[n] && Swapped(s, runs[n], runs[n + 1], at[n]);
      SwappedRun(s, runs[n], runs[n + 1], at[n]);
    }
  }

  // ----- copies that differ -----

  /** Two elements `a` and `b`: `a` is moved behind `b`, then `c` is inserted after `a`. */
  lemma MoveThenInsert(a: Item, b: Item, c: Item, t: Ticket)
    requires Distinct([Head, a, b]) && Find([Head, a, b], c.createdAt) < 0
    requires a.movedAt.None? && c == Item(c.createdAt, None, None)
    ensures var moved := a.(movedAt := Some(t));
            Run([Head, a, b], [Move(b.createdAt, a.createdAt, t), Insert(a.createdAt, c.createdAt)])
            == Some([Head, b, moved, c])
  {
    var s, moved := [Head, a, b], a.(movedAt := Some(t));
    var s1, rest := [Head, b, moved], [Head, b];
    var move, insert := Move(b.createdAt, a.createdAt, t), Insert(a.createdAt, c.createdAt);
    assert WellFormed(s) && Without(s, 1) == rest && s[1] == a && s[2] == b;
    FindIs(s, a.createdAt, 1);
    FindIs(s, b.createdAt, 2);
    WithoutWellFormed(s, 1);
    FindIs(rest, b.createdAt, 1);
    assert InsertAt(rest, 2, moved) == s1;
    assert Apply(s, move) == Some(s1);
    ApplyWellFormed(s, move);
    FindIs(s1, a.createdAt, 2);
    FindNone(s, s1, c.createdAt);
    assert InsertAt(s1, 3, c) == [Head, b, moved, c];
    RunTwo(s, move, insert);
  }

  /** The other way round: `c` is inserted after `a`, and then `a` is moved behind `b`. */
  lemma InsertThenMove(a: Item, b: Item, c: Item, t: Ticket)
    requires Distinct([Head, a, b]) && Find([Head, a, b], c.createdAt) < 0
    requires a.movedAt.None? && c == Item(c.createdAt, None, None) && !After(b.PositionedAt(), c.createdAt)
    ensures var moved := a.(movedAt := Some(t));
            Run([Head, a, b], [Insert(a.createdAt, c.createdAt), Move(b.createdAt, a.createdAt, t)])
            == Some([Head, c, b, moved])
  {
    var s, moved := [Head, a, b], a.(movedAt := Some(t));
    var s1, rest := [Head, a, c, b], [Head, c, b];
    var move, insert := Move(b.createdAt, a.createdAt, t), Insert(a.createdAt, c.createdAt);
    assert WellFormed(s) && s[1] == a && s[2] == b;
    FindIs(s, a.createdAt, 1);
    assert Skip(s, 1, c.createdAt) == 1 && InsertAt(s, 2, c) == s1;
    assert Apply(s, insert) == Some(s1);
    ApplyWellFormed(s, insert);
    FindIs(s1, a.createdAt, 1);
    FindIs(s1, b.createdAt, 3);
    assert Without(s1, 1) == rest;
    WithoutWellFormed(s1, 1);
    FindIs(rest, b.createdAt, 2);
    assert InsertAt(rest, 3, moved) == [Head, c, b, moved];
    RunTwo(s, insert, move);
  }

  lemma FindNone(s: seq<Item>, r: seq<Item>, c: Ticket)
    requires Find(s, c) < 0 && forall i :: 0 <= i < |r| ==> exists j :: 0 <= j < |s| && s[j].createdAt == r[i].createdAt
    ensures Find(r, c) < 0
  {
  }

  lemma RunTwo(s: seq<Item>, x: Operation, y: Operation)
    requires Apply(s, x).Some?
    ensures Run(s, [x, y]) == Apply(Apply(s, x).value, y)
  {
    RunCons(s, x, [y]);
    assert [x] + [y] == [x, y];
    if Apply(Apply(s, x).value, y).Some? {
      RunCons(Apply(s, x).value, y, []);
      assert [y] + [] == [y];
    }
  }

  /** So a move and an insertion after the moved element do not commute: the copies show the
      new element in different places. */
  lemma MoveDiverges(a: Item, b: Item, c: Item, t: Ticket)
    requires Distinct([Head, a, b]) && Find([Head, a, b], c.createdAt) < 0 && a.Live() && b.Live()
    requires a.movedAt.None? && c == Item(c.createdAt, None, None) && !After(b.PositionedAt(), c.createdAt)
    ensures var s, move, insert := [Head, a, b], Move(b.createdAt, a.createdAt, t), Insert(a.createdAt, c.createdAt);
            && Run(s, [move, insert]).Some? && Run(s, [insert, move]).Some?
            && Live(Run(s, [move, insert]).value) == [b.createdAt, a.createdAt, c.createdAt]
            && Live(Run(s, [insert, move]).value) == [c.createdAt, b.createdAt, a.createdAt]
  {
    MoveThenInsert(a, b, c, t);
    InsertThenMove(a, b, c, t);
    var moved := a.(movedAt := Some(t));
    LiveThree(b, moved, c);
    LiveThree(c, b, moved);
  }

  lemma LiveThree(a: Item, b: Item, c: Item)
    requires a.Live() && b.Live() && c.Live()
    ensures Live([Head, a, b, c]) == [a.createdAt, b.createdAt, c.createdAt]
  {
    LiveAppend([Head, a], [b, c]);
    LiveAppend([Head], [a]);
    LiveAppend([b], [c]);
    LiveOne(Head);
    LiveOne(a);
    LiveOne(b);
    LiveOne(c);
    assert [Head, a, b, c] == [Head, a] + [b, c] && [Head, a] == [Head] + [a] && [b, c] == [b] + [c];
  }

  /** An insertion that names neither element of a move is disturbed as well: while `m` was
      in place the new element went before it, and without it the walk goes on past `x`. */
  lemma MoveUncovers(p: Item, m: Item, x: Item, c: Ticket, t: Ticket)
    requires Distinct([Head, p, m, x]) && Find([Head, p, m, x], c) < 0
    requires m.movedAt.None? && !After(m.PositionedAt(), c) && After(x.PositionedAt(), c)
    ensures var s, move, insert := [Head, p, m, x], Move(x.createdAt, m.createdAt, t), Insert(p.createdAt, c);
            && Run(s, [move, insert]).Some? && Run(s, [insert, move]).Some?
            && Run(s, [move, insert]) != Run(s, [insert, move])
  {
    var s, rest := [Head, p, m, x], [Head, p, x];
    var move, insert := Move(x.createdAt, m.createdAt, t), Insert(p.createdAt, c);
    assert WellFormed(s) && Without(s, 2) == rest;
    FindIs(s, p.createdAt, 1);
    FindIs(s, m.createdAt, 2);
    FindIs(s, x.createdAt, 3);
    WithoutWellFormed(s, 2);
    FindIs(rest, x.createdAt, 2);
    assert Moves(s, move) && Goal(s, move) == 3 && GapInRest(s, move, insert) == 2;
    MovesInsertIff(s, move, insert);
    var s1 := InsertAt(rest, 3, Taken(s, move));
    MoveApplied(s, move, insert);
    FindIs(s1, p.createdAt, 1);
    assert s1[2] == x && Gap(s1, insert) >= 3;
    RunTwo(s, move, insert);
    RunTwo(s, insert, move);
  }
}
