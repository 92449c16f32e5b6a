/** Copies of an array that execute the same insertions and removals, each in an order of its
    own, come to the same array; with moves they may not. */
module ArrayConvergence {
  import opened Time
  import opened Wrappers
  import opened Sequences
  import opened ArrayItems

  // ----- where an insertion goes -----

  ghost predicate Passes(s: seq<Item>, t: Ticket, j: int)
    requires 0 <= j < |s|
  {
    After(s[j].PositionedAt(), t)
  }

  /** The walk of an insertion that starts at `i` ends at `r`. */
  ghost predicate Stops(s: seq<Item>, i: nat, t: Ticket, r: nat) {
    && i <= r < |s| && (forall j :: i < j <= r ==> Passes(s, t, j))
    && (r + 1 < |s| ==> !Passes(s, t, r + 1))
  }

  lemma {:induction false} SkipStops(s: seq<Item>, i: nat, t: Ticket)
    requires i < |s|
    ensures Stops(s, i, t, Skip(s, i, t))
    decreases |s| - i
  {
    if i + 1 < |s| && Passes(s, t, i + 1) {
      SkipStops(s, i + 1, t);
    }
  }

  lemma {:induction false} StopsIsSkip(s: seq<Item>, i: nat, t: Ticket, r: nat)
    requires Stops(s, i, t, r)
    ensures Skip(s, i, t) == r
    decreases |s| - i
  {
    if i + 1 < |s| {
      assert Passes(s, t, i + 1) <==> i < r;
      if i < r {
        StopsIsSkip(s, i + 1, t, r);
      }
    }
  }

  /** The gap a walk ends at once another item `x` was put in the gap `a`: the same, but
      behind the new item if both walks stopped there and the new item is later. */
  ghost function GapWith(a: nat, x: Item, b: nat, t: Ticket): nat {
    if b < a || (b == a && !After(x.createdAt, t)) then b else b + 1
  }

  lemma PassesWith(s: seq<Item>, a: nat, x: Item, q: nat, t: Ticket, j: nat)
    requires q < |s| && a <= |s| && x.PositionedAt() == x.createdAt
    requires a < |s| ==> !Passes(s, x.createdAt, a)
    requires (if q < a then q else q + 1) < j < GapWith(a, x, Skip(s, q, t) + 1, t)
    ensures j <= |s| && Passes(InsertAt(s, a, x), t, j)
  {
    var b := Skip(s, q, t) + 1;
    SkipStops(s, q, t);
    InsertedAt(s, a, x, j);
    if j < a {
      assert Passes(s, t, j);
    } else if j > a {
      assert Passes(s, t, j - 1);
    } else if a < b {
      assert Passes(s, t, a) && !Passes(s, x.createdAt, a);
      CompareIsTotalOrder(x.createdAt, s[a].PositionedAt(), t);
    }
  }

  lemma SkipWith(s: seq<Item>, p: nat, x: Item, q: nat, t: Ticket)
    requires p < |s| && q < |s| && x.PositionedAt() == x.createdAt
    ensures var a, b := Skip(s, p, x.createdAt) + 1, Skip(s, q, t) + 1;
            Skip(InsertAt(s, a, x), if q < a then q else q + 1, t) + 1 == GapWith(a, x, b, t)
  {
    var a, b := Skip(s, p, x.createdAt) + 1, Skip(s, q, t) + 1;
    SkipStops(s, p, x.createdAt);
    SkipStops(s, q, t);
    var r, q', stop := InsertAt(s, a, x), if q < a then q else q + 1, GapWith(a, x, b, t) - 1;
    forall j | q' < j <= stop ensures Passes(r, t, j) {
      PassesWith(s, a, x, q, t, j);
    }
    if stop + 1 < |r| {
      InsertedAt(s, a, x, stop + 1);
      assert stop + 1 < a ==> !Passes(s, t, stop + 1);
      assert stop + 1 > a ==> stop == b && !Passes(s, t, stop);
    }
    StopsIsSkip(r, q', t, stop);
  }

  // ----- any two operations but moves commute -----

  lemma FindWith(s: seq<Item>, g: nat, x: Item, c: Ticket)
    requires WellFormed(s) && 0 < g <= |s| && Find(s, x.createdAt) < 0 && WellFormed(InsertAt(s, g, x))
    ensures Find(InsertAt(s, g, x), c)
            == if c == x.createdAt then g else (var i := Find(s, c); if i < g then i else i + 1)
  {
    var r, i := InsertAt(s, g, x), Find(s, c);
    if c == x.createdAt {
      InsertedAt(s, g, x, g);
      FindIs(r, c, g);
    } else if i >= 0 {
      var w := if i < g then i else i + 1;
      InsertedAt(s, g, x, w);
      FindIs(r, c, w);
    } else {
      var f := Find(r, c);
      if f >= 0 {
        InsertedAt(s, g, x, f);
      }
    }
  }

  /** Items put in two gaps stand in the order of the gaps, whichever comes first. */
  lemma TwoInserted<T>(s: seq<T>, a: nat, x: T, b: nat, y: T)
    requires a <= b <= |s|
    ensures InsertAt(InsertAt(s, a, x), b + 1, y) == InsertAt(InsertAt(s, b, y), a, x)
  {
    var l, r := InsertAt(InsertAt(s, a, x), b + 1, y), InsertAt(InsertAt(s, b, y), a, x);
    forall j | 0 <= j < |l| ensures l[j] == r[j] {
      InsertedAt(InsertAt(s, a, x), b + 1, y, j);
      InsertedAt(InsertAt(s, b, y), a, x, j);
      if j != b + 1 {
        InsertedAt(s, a, x, if j <= b then j else j - 1);
      }
      if j != a {
        InsertedAt(s, b, y, if j < a then j else j - 1);
      }
    }
  }

  lemma PlacedAfter(s: seq<Item>, p: nat, c: Ticket, q: nat, d: Ticket)
    requires p < |s| && q < |s|
    ensures var x, y := Item(c, None, None), Item(d, None, None);
            var a, b := Skip(s, p, c) + 1, Skip(s, q, d) + 1;
            Placed(Placed(s, p, x, c), if q < a then q else q + 1, y, d)
            == InsertAt(InsertAt(s, a, x), GapWith(a, x, b, d), y)
  {
    SkipWith(s, p, Item(c, None, None), q, d);
  }

  lemma InsertOrdered(s: seq<Item>, p: nat, c: Ticket, q: nat, d: Ticket)
    requires p < |s| && q < |s|
    requires var a, b := Skip(s, p, c) + 1, Skip(s, q, d) + 1; a < b || (a == b && After(c, d))
    ensures var x, y := Item(c, None, None), Item(d, None, None);
            var a, b := Skip(s, p, c) + 1, Skip(s, q, d) + 1;
            Placed(Placed(s, p, x, c), if q < a then q else q + 1, y, d)
            == Placed(Placed(s, q, y, d), p, x, c)
  {
    var a, b := Skip(s, p, c) + 1, Skip(s, q, d) + 1;
    var x, y := Item(c, None, None), Item(d, None, None);
    CompareIsTotalOrder(c, d, c);
    assert GapWith(a, x, b, d) == b + 1 && GapWith(b, y, a, c) == a && p < b;
    PlacedAfter(s, p, c, q, d);
    PlacedAfter(s, q, d, p, c);
    TwoInserted(s, a, x, b, y);
  }

  /** Two insertions of different elements. */
  lemma InsertInsert(s: seq<Item>, p: nat, c: Ticket, q: nat, d: Ticket)
    requires p < |s| && q < |s| && c != d
    ensures var x, y := Item(c, None, None), Item(d, None, None);
            var a, b := Skip(s, p, c) + 1, Skip(s, q, d) + 1;
            Placed(Placed(s, p, x, c), if q < a then q else q + 1, y, d)
            == Placed(Placed(s, q, y, d), if p < b then p else p + 1, x, c)
  {
    var a, b := Skip(s, p, c) + 1, Skip(s, q, d) + 1;
    CompareIsTotalOrder(c, d, c);
    if a < b || (a == b && After(c, d)) {
      InsertOrdered(s, p, c, q, d);
    } else {
      InsertOrdered(s, q, d, p, c);
    }
  }

  lemma ApplyAfterInsert(s: seq<Item>, x: Operation, y: Operation)
    requires WellFormed(s) && x.Insert? && y.Insert? && x.createdAt != y.createdAt
    requires Apply(s, x).Some? && Apply(s, y).Some?
    ensures var p, q, c, d := Find(s, x.prev), Find(s, y.prev), x.createdAt, y.createdAt;
            var a := Skip(s, p, c) + 1;
            Apply(Apply(s, x).value, y)
            == Some(Placed(Placed(s, p, Item(c, None, None), c), if q < a then q else q + 1, Item(d, None, None), d))
  {
    var p: int, c := Find(s, x.prev), x.createdAt;
    var a := Skip(s, p, c) + 1;
    ApplyWellFormed(s, x);
    FindWith(s, a, Item(c, None, None), y.prev);
    FindWith(s, a, Item(c, None, None), y.createdAt);
  }

  lemma ApplyInsertInsert(s: seq<Item>, x: Operation, y: Operation)
    requires WellFormed(s) && x.Insert? && y.Insert? && x.createdAt != y.createdAt
    requires Apply(s, x).Some? && Apply(s, y).Some?
    ensures Apply(Apply(s, x).value, y).Some? && Apply(Apply(s, x).value, y) == Apply(Apply(s, y).value, x)
  {
    ApplyAfterInsert(s, x, y);
    ApplyAfterInsert(s, y, x);
    InsertInsert(s, Find(s, x.prev), x.createdAt, Find(s, y.prev), y.createdAt);
  }

  // ----- removals -----

  lemma FindSet(s: seq<Item>, i: nat, x: Item, c: Ticket)
    requires WellFormed(s) && i < |s| && x.createdAt == s[i].createdAt && WellFormed(s[i := x])
    ensures Find(s[i := x], c) == Find(s, c)
  {
    var r, f := s[i := x], Find(s, c);
    if f >= 0 {
      FindIs(r, c, f);
    } else {
      assert forall j :: 0 <= j < |r| ==> r[j].createdAt == s[j].createdAt;
    }
  }

  lemma SkipSet(s: seq<Item>, i: nat, x: Item, p: nat, t: Ticket)
    requires i < |s| && p < |s| && x.PositionedAt() == s[i].PositionedAt()
    ensures Skip(s[i := x], p, t) == Skip(s, p, t)
  {
    var r, e := s[i := x], Skip(s, p, t);
    SkipStops(s, p, t);
    forall j | p < j <= e ensures Passes(r, t, j) {
      assert Passes(s, t, j);
    }
    assert e + 1 < |s| ==> !Passes(s, t, e + 1);
    StopsIsSkip(r, p, t, e);
  }

  lemma ApplyInsertDelete(s: seq<Item>, x: Operation, y: Operation)
    requires WellFormed(s) && x.Insert? && y.Delete? && Apply(s, x).Some? && Apply(s, y).Some?
    ensures Apply(Apply(s, x).value, y).Some? && Apply(Apply(s, x).value, y) == Apply(Apply(s, y).value, x)
  {
    var p: int, i: int := Find(s, x.prev), Find(s, y.createdAt);
    var new', dead := Item(x.createdAt, None, None), Buried(s[i], y.deletedAt);
    var g := Skip(s, p, x.createdAt) + 1;
    ApplyWellFormed(s, x);
    ApplyWellFormed(s, y);
    FindWith(s, g, new', y.createdAt);
    FindSet(s, i, dead, x.prev);
    FindSet(s, i, dead, x.createdAt);
    SkipSet(s, i, dead, p, x.createdAt);
    InsertSet(s, g, new', i, dead);
  }

  lemma InsertSet(s: seq<Item>, g: nat, x: Item, i: nat, y: Item)
    requires g <= |s| && i < |s|
    ensures var k := if i < g then i else i + 1;
            InsertAt(s, g, x)[k] == s[i] && InsertAt(s, g, x)[k := y] == InsertAt(s[i := y], g, x)
  {
    var k := if i < g then i else i + 1;
    var l, r := InsertAt(s, g, x)[k := y], InsertAt(s[i := y], g, x);
    InsertedAt(s, g, x, k);
    forall j | 0 <= j < |l| ensures l[j] == r[j] {
      InsertedAt(s, g, x, j);
      InsertedAt(s[i := y], g, x, j);
    }
  }

  lemma BuriedTwice(x: Item, t: Ticket, u: Ticket)
    ensures Buried(Buried(x, t), u) == Buried(Buried(x, u), t)
  {
    CompareIsTotalOrder(t, u, t);
    CompareIsTotalOrder(u, t, u);
    if x.removedAt.Some? {
      CompareIsTotalOrder(t, u, x.removedAt.value);
      CompareIsTotalOrder(u, t, x.removedAt.value);
    }
  }

  lemma ApplyDeleteDelete(s: seq<Item>, x: Operation, y: Operation)
    requires WellFormed(s) && x.Delete? && y.Delete? && Apply(s, x).Some? && Apply(s, y).Some?
    ensures Apply(Apply(s, x).value, y).Some? && Apply(Apply(s, x).value, y) == Apply(Apply(s, y).value, x)
  {
    var i: int, j: int := Find(s, x.createdAt), Find(s, y.createdAt);
    ApplyWellFormed(s, x);
    ApplyWellFormed(s, y);
    FindSet(s, i, Buried(s[i], x.deletedAt), y.createdAt);
    FindSet(s, j, Buried(s[j], y.deletedAt), x.createdAt);
    BuriedTwice(s[i], x.deletedAt, y.deletedAt);
    if i != j {
      assert s[i := Buried(s[i], x.deletedAt)][j := Buried(s[j], y.deletedAt)]
          == s[j := Buried(s[j], y.deletedAt)][i := Buried(s[i], x.deletedAt)];
    } else {
      var a, b := Buried(s[i], x.deletedAt), Buried(s[i], y.deletedAt);
      assert s[i := a][i := Buried(a, y.deletedAt)] == s[i := b][i := Buried(b, x.deletedAt)];
    }
  }

  /** Two operations that are not moves, and do not insert the same element, commute. */
  lemma Commute(s: seq<Item>, x: Operation, y: Operation)
    requires WellFormed(s) && !x.Move? && !y.Move? && (x.Insert? && y.Insert? ==> x.createdAt != y.createdAt)
    requires Apply(s, x).Some? && Apply(s, y).Some?
    ensures Apply(Apply(s, x).value, y).Some? && Apply(Apply(s, x).value, y) == Apply(Apply(s, y).value, x)
  {
    match (x, y)
    case (Insert(_, _), Insert(_, _)) => ApplyInsertInsert(s, x, y);
    case (Insert(_, _), Delete(_, _)) => ApplyInsertDelete(s, x, y);
    case (Delete(_, _), Insert(_, _)) => ApplyInsertDelete(s, y, x);
    case (Delete(_, _), Delete(_, _)) => ApplyDeleteDelete(s, x, y);
  }

  // ----- whole runs -----

  /** An element stays where it can be found, so no later insertion can reuse its ticket. */
  lemma ApplyKeeps(s: seq<Item>, op: Operation, c: Ticket)
    requires WellFormed(s) && !op.Move? && Apply(s, op).Some? && Find(s, c) >= 0
    ensures Find(Apply(s, op).value, c) >= 0
  {
    ApplyWellFormed(s, op);
    match op
    case Insert(prev, createdAt) =>
      FindWith(s, Skip(s, Find(s, prev), createdAt) + 1, Item(createdAt, None, None), c);
    case Delete(createdAt, deletedAt) =>
      var i: int := Find(s, createdAt);
      FindSet(s, i, Buried(s[i], deletedAt), c);
  }

  ghost predicate NoMoves(ops: seq<Operation>) {
    forall i :: 0 <= i < |ops| ==> !ops[i].Move?
  }

  lemma {:induction false} InsertedOnce(s: seq<Item>, ops: seq<Operation>, c: Ticket, j: nat)
    requires WellFormed(s) && NoMoves(ops) && Run(s, ops).Some? && Find(s, c) >= 0 && j < |ops|
    ensures ops[j].Insert? ==> ops[j].createdAt != c
    decreases j
  {
    if j > 0 {
      ApplyKeeps(s, ops[0], c);
      ApplyWellFormed(s, ops[0]);
      InsertedOnce(Apply(s, ops[0]).value, ops[1..], c, j - 1);
    }
  }

  /** An operation that could come first may as well: the run comes to the same array. */
  lemma {:induction false} Bubble(s: seq<Item>, ops: seq<Operation>, j: nat)
    requires WellFormed(s) && NoMoves(ops) && Run(s, ops).Some? && j < |ops| && Apply(s, ops[j]).Some?
    ensures Run(Apply(s, ops[j]).value, ops[..j] + ops[j + 1..]) == Run(s, ops)
    decreases j
  {
    var x, y, rest := ops[j], ops[0], ops[1..];
    if j == 0 {
      assert ops[..0] + ops[1..] == rest;
    } else {
      var sy, front := Apply(s, y).value, rest[..j - 1] + rest[j..];
      ApplyWellFormed(s, y);
      Distinguish(s, ops, j);
      Commute(s, x, y);
      assert Run(Apply(sy, x).value, front) == Run(sy, rest) by {
        assert rest[j - 1] == x;
        Bubble(sy, rest, j - 1);
      }
      RunCons(Apply(s, x).value, y, front);
      assert ops[..j] + ops[j + 1..] == [y] + front;
    }
  }

  lemma RunCons(s: seq<Item>, op: Operation, ops: seq<Operation>)
    requires Apply(s, op).Some?
    ensures Run(s, [op] + ops) == Run(Apply(s, op).value, ops)
  {
    assert ([op] + ops)[1..] == ops;
  }

  lemma Distinguish(s: seq<Item>, ops: seq<Operation>, j: nat)
    requires WellFormed(s) && NoMoves(ops) && Run(s, ops).Some? && 0 < j < |ops|
    ensures ops[0].Insert? && ops[j].Insert? ==> ops[0].createdAt != ops[j].createdAt
  {
    if ops[0].Insert? {
      var c := ops[0].createdAt;
      ApplyWellFormed(s, ops[0]);
      FindWith(s, Skip(s, Find(s, ops[0].prev), c) + 1, Item(c, None, None), c);
      InsertedOnce(Apply(s, ops[0]).value, ops[1..], c, j - 1);
    }
  }

  /** Convergence: two copies that start from the same array and execute the same insertions
      and removals, each in an order that makes sense to it, come to the same array. */
  lemma {:induction false} Converge(s: seq<Item>, a: seq<Operation>, b: seq<Operation>)
    requires WellFormed(s) && NoMoves(a) && NoMoves(b) && multiset(a) == multiset(b)
    requires Run(s, a).Some? && Run(s, b).Some?
    ensures Run(s, a) == Run(s, b)
    decreases |a|
  {
    if a == [] {
      assert |multiset(b)| == |b|;
    } else {
      assert a[0] in multiset(a);
      var j :| 0 <= j < |b| && b[j] == a[0];
      TakenOut(a, b, j);
      Bubble(s, b, j);
      ApplyWellFormed(s, a[0]);
      Converge(Apply(s, a[0]).value, a[1..], b[..j] + b[j + 1..]);
    }
  }
}
