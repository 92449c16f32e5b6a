/** When the elements of an array were moved and removed, after any run, and where a move puts
    an element (pkg/document/json/rga_tree_list.go). */
module ArrayTimes {
  import opened Time
  import opened Wrappers
  import opened Sequences
  import opened ArrayItems
  import opened ArrayConvergence
  import opened ArrayMoves

  ghost function MovedAt(s: seq<Item>, c: Ticket): Option<Ticket> {
    if Find(s, c) >= 0 then s[Find(s, c)].movedAt else None
  }

  ghost function RemovedAt(s: seq<Item>, c: Ticket): Option<Ticket> {
    if Find(s, c) >= 0 then s[Find(s, c)].removedAt else None
  }

  // ----- one operation -----

  lemma TimesInserted(s: seq<Item>, prev: Ticket, d: Ticket, c: Ticket)
    requires WellFormed(s) && Apply(s, Insert(prev, d)).Some?
    ensures var r := Apply(s, Insert(prev, d)).value;
            MovedAt(r, c) == MovedAt(s, c) && RemovedAt(r, c) == RemovedAt(s, c)
  {
    var g, x := Skip(s, Find(s, prev), d) + 1, Item(d, None, None);
    ApplyWellFormed(s, Insert(prev, d));
    FindWith(s, g, x, c);
    InsertedAt(s, g, x, g);
    if Find(s, c) >= 0 {
      InsertedAt(s, g, x, if Find(s, c) < g then Find(s, c) else Find(s, c) + 1);
    }
  }

  lemma TimesDeleted(s: seq<Item>, d: Ticket, t: Ticket, c: Ticket)
    requires WellFormed(s) && Apply(s, Delete(d, t)).Some?
    ensures var r := Apply(s, Delete(d, t)).value;
            && MovedAt(r, c) == MovedAt(s, c)
            && if d == c && After(t, c) then IsLater(RemovedAt(s, c), t, RemovedAt(r, c))
               else RemovedAt(r, c) == RemovedAt(s, c)
  {
    var i: nat := Find(s, d);
    ApplyWellFormed(s, Delete(d, t));
    FindSet(s, i, Buried(s[i], t), c);
    CompareIsTotalOrder(t, if s[i].removedAt.Some? then s[i].removedAt.value else t, t);
  }

  lemma TimesMoved(s: seq<Item>, prev: Ticket, d: Ticket, t: Ticket, c: Ticket)
    requires WellFormed(s) && Apply(s, Move(prev, d, t)).Some?
    ensures var r := Apply(s, Move(prev, d, t)).value;
            && RemovedAt(r, c) == RemovedAt(s, c)
            && if d == c then IsLater(MovedAt(s, c), t, MovedAt(r, c)) else MovedAt(r, c) == MovedAt(s, c)
  {
    var x, i: nat := Move(prev, d, t), Find(s, d);
    MoveIs(s, prev, d, t, i);
    CompareIsTotalOrder(t, if s[i].movedAt.Some? then s[i].movedAt.value else t, t);
    if Moves(s, x) {
      var rest, a, m := Rest(s, x), Goal(s, x), Taken(s, x);
      WithoutWellFormed(s, i);
      InsertedWellFormed(rest, a, m);
      FindWith(rest, a, m, c);
      InsertedAt(rest, a, m, a);
      if c != d {
        FindWithout(s, i, c);
        var f := Find(rest, c);
        if f >= 0 {
          InsertedAt(rest, a, m, if f < a then f else f + 1);
        }
      }
    }
  }

  // ----- whole runs -----

  /** A move of the element made at that time is among the operations. */
  ghost predicate Moved(ops: seq<Operation>, c: Ticket, t: Ticket) {
    exists p :: Move(p, c, t) in ops
  }

  /** A deletion of the element made at that time, later than its creation. */
  ghost predicate Deleted(ops: seq<Operation>, c: Ticket, t: Ticket) {
    Delete(c, t) in ops && After(t, c)
  }

  /** The latest of a time that may be missing and those of the moves of the element. */
  ghost predicate LatestMove(was: Option<Ticket>, ops: seq<Operation>, c: Ticket, now: Option<Ticket>) {
    && (now == was || (now.Some? && Moved(ops, c, now.value)))
    && (was.Some? ==> now.Some? && !After(was.value, now.value))
    && (forall t :: Moved(ops, c, t) ==> now.Some? && !After(t, now.value))
  }

  ghost predicate LatestRemoval(was: Option<Ticket>, ops: seq<Operation>, c: Ticket, now: Option<Ticket>) {
    && (now == was || (now.Some? && Deleted(ops, c, now.value)))
    && (was.Some? ==> now.Some? && !After(was.value, now.value))
    && (forall t :: Deleted(ops, c, t) ==> now.Some? && !After(t, now.value))
  }

  lemma InFirst(ops: seq<Operation>, op: Operation)
    requires ops != []
    ensures op in ops <==> op == ops[0] || op in ops[1..]
  {
    assert ops == [ops[0]] + ops[1..];
  }

  lemma MovedFirst(ops: seq<Operation>, c: Ticket, t: Ticket)
    requires ops != []
    ensures Moved(ops, c, t)
            <==> (ops[0].Move? && ops[0].createdAt == c && ops[0].executedAt == t) || Moved(ops[1..], c, t)
  {
    if Moved(ops, c, t) {
      var p :| Move(p, c, t) in ops;
      InFirst(ops, Move(p, c, t));
    }
    if ops[0].Move? && ops[0].createdAt == c && ops[0].executedAt == t {
      assert Move(ops[0].prev, c, t) in ops;
    }
    if Moved(ops[1..], c, t) {
      var p :| Move(p, c, t) in ops[1..];
      InFirst(ops, Move(p, c, t));
    }
  }

  /** The later of two times is not before what is not after one of them. */
  lemma LaterStill(was: Option<Ticket>, t: Ticket, mid: Option<Ticket>, now: Option<Ticket>)
    requires IsLater(was, t, mid) && now.Some? && !After(mid.value, now.value)
    ensures !After(t, now.value) && (was.Some? ==> !After(was.value, now.value))
  {
    CompareIsTotalOrder(t, now.value, mid.value);
    CompareIsTotalOrder(t, mid.value, now.value);
    CompareIsTotalOrder(now.value, mid.value, t);
    if was.Some? {
      CompareIsTotalOrder(was.value, now.value, mid.value);
      CompareIsTotalOrder(was.value, mid.value, now.value);
      CompareIsTotalOrder(now.value, mid.value, was.value);
    }
  }

  lemma LatestMoveFirst(was: Option<Ticket>, ops: seq<Operation>, c: Ticket, mid: Option<Ticket>, now: Option<Ticket>)
    requires ops != [] && LatestMove(mid, ops[1..], c, now)
    requires if ops[0].Move? && ops[0].createdAt == c then IsLater(was, ops[0].executedAt, mid) else mid == was
    ensures LatestMove(was, ops, c, now)
  {
    if ops[0].Move? && ops[0].createdAt == c {
      LaterStill(was, ops[0].executedAt, mid, now);
    }
    forall t ensures Moved(ops, c, t)
                     <==> (ops[0].Move? && ops[0].createdAt == c && ops[0].executedAt == t) || Moved(ops[1..], c, t)
    {
      MovedFirst(ops, c, t);
    }
  }

  lemma LatestRemovalFirst(was: Option<Ticket>, ops: seq<Operation>, c: Ticket, mid: Option<Ticket>,
                           now: Option<Ticket>)
    requires ops != [] && LatestRemoval(mid, ops[1..], c, now)
    requires if ops[0].Delete? && ops[0].createdAt == c && After(ops[0].deletedAt, c)
             then IsLater(was, ops[0].deletedAt, mid) else mid == was
    ensures LatestRemoval(was, ops, c, now)
  {
    if ops[0].Delete? && ops[0].createdAt == c && After(ops[0].deletedAt, c) {
      LaterStill(was, ops[0].deletedAt, mid, now);
    }
    forall t ensures Deleted(ops, c, t) <==> (ops[0] == Delete(c, t) && After(t, c)) || Deleted(ops[1..], c, t) {
      InFirst(ops, Delete(c, t));
    }
  }

  /** After any run, an element was moved at the latest time of the moves that name it, and
      removed at the latest time of the deletions that name it and are later than its creation;
      without any, it is as it was. */
  lemma {:induction false} RunTimes(s: seq<Item>, ops: seq<Operation>, c: Ticket)
    requires WellFormed(s) && Run(s, ops).Some?
    ensures LatestMove(MovedAt(s, c), ops, c, MovedAt(Run(s, ops).value, c))
    ensures LatestRemoval(RemovedAt(s, c), ops, c, RemovedAt(Run(s, ops).value, c))
    decreases |ops|
  {
    if ops != [] {
      var r := Apply(s, ops[0]).value;
      ApplyWellFormed(s, ops[0]);
      RunTimes(r, ops[1..], c);
      match ops[0] {
        case Insert(prev, d) => TimesInserted(s, prev, d, c);
        case Delete(d, t) => TimesDeleted(s, d, t, c);
        case Move(prev, d, t) => TimesMoved(s, prev, d, t, c);
      }
      LatestMoveFirst(MovedAt(s, c), ops, c, MovedAt(r, c), MovedAt(Run(s, ops).value, c));
      LatestRemovalFirst(RemovedAt(s, c), ops, c, RemovedAt(r, c), RemovedAt(Run(s, ops).value, c));
    }
  }

  // ----- where operations put elements -----

  /** The item `f` is right of `p`, behind nothing but items positioned later than `t`, and what
      is right of it is not. */
  ghost predicate Behind(r: seq<Item>, p: int, f: int, t: Ticket) {
    && 0 <= p < f < |r| && (forall k :: p < k < f ==> Passes(r, t, k))
    && (f + 1 < |r| ==> !Passes(r, t, f + 1))
  }

  lemma PlacedBehind(s: seq<Item>, p: nat, x: Item, t: Ticket)
    requires p < |s|
    ensures var f := Skip(s, p, t) + 1;
            Behind(Placed(s, p, x, t), p, f, t) && Placed(s, p, x, t)[f] == x && Placed(s, p, x, t)[p] == s[p]
            && Without(Placed(s, p, x, t), f) == s
  {
    var r, f := Placed(s, p, x, t), Skip(s, p, t) + 1;
    SkipStops(s, p, t);
    InsertedAt(s, f, x, f);
    InsertedAt(s, f, x, p);
    forall k | p < k < f ensures Passes(r, t, k) {
      InsertedAt(s, f, x, k);
      assert Passes(s, t, k);
    }
    if f + 1 < |r| {
      InsertedAt(s, f, x, f + 1);
    }
  }

  /** An insertion puts the new element behind the one it names and the elements positioned
      later, and changes nothing else. */
  lemma InsertGoes(s: seq<Item>, prev: Ticket, c: Ticket)
    requires WellFormed(s) && Apply(s, Insert(prev, c)).Some?
    ensures var r := Apply(s, Insert(prev, c)).value;
            var f := Find(r, c);
            && Behind(r, Find(r, prev), f, c) && r[f] == Item(c, None, None) && Without(r, f) == s
  {
    var p: nat, x := Find(s, prev), Item(c, None, None);
    ApplyWellFormed(s, Insert(prev, c));
    PlacedBehind(s, p, x, c);
    FindIs(Placed(s, p, x, c), c, Skip(s, p, c) + 1);
    FindIs(Placed(s, p, x, c), prev, p);
  }

  /** A move that is later than the last one of its element, if there was one, puts it behind
      the one it names and the elements positioned later, and changes nothing else. */
  lemma MoveGoes(s: seq<Item>, prev: Ticket, c: Ticket, t: Ticket)
    requires WellFormed(s) && Find(s, prev) >= 0 && Find(s, c) > 0 && prev != c
    requires MovedAt(s, c).Some? ==> After(t, MovedAt(s, c).value)
    ensures Apply(s, Move(prev, c, t)).Some?
    ensures var r := Apply(s, Move(prev, c, t)).value;
            var f := Find(r, c);
            && Behind(r, Find(r, prev), f, t) && r[f] == s[Find(s, c)].(movedAt := Some(t))
            && Without(r, f) == Without(s, Find(s, c))
  {
    var i: nat := Find(s, c);
    var x, rest := s[i].(movedAt := Some(t)), Without(s, i);
    MoveIs(s, prev, c, t, i);
    ApplyWellFormed(s, Move(prev, c, t));
    var p: nat := Find(rest, prev);
    PlacedBehind(rest, p, x, t);
    FindIs(Placed(rest, p, x, t), c, Skip(rest, p, t) + 1);
    FindIs(Placed(rest, p, x, t), prev, p);
  }

  /** So after any run, a move puts its element there if it is later than all the moves of the
      element before it; and changes nothing if it is not. */
  lemma MoveWins(s: seq<Item>, ops: seq<Operation>, prev: Ticket, c: Ticket, t: Ticket)
    requires WellFormed(s) && Run(s, ops).Some? && MovedAt(s, c).None?
    requires Apply(Run(s, ops).value, Move(prev, c, t)).Some?
    ensures var w := Run(s, ops).value;
            var r := Apply(w, Move(prev, c, t)).value;
            if forall u :: Moved(ops, c, u) ==> After(t, u)
            then Behind(r, Find(r, prev), Find(r, c), t) && Without(r, Find(r, c)) == Without(w, Find(w, c))
            else r == w
  {
    var w := Run(s, ops).value;
    RunWellFormed(s, ops);
    RunTimes(s, ops, c);
    var i: nat := Find(w, c);
    MoveIs(w, prev, c, t, i);
    if forall u :: Moved(ops, c, u) ==> After(t, u) {
      assert CanMove(w[i], t);
      MoveGoes(w, prev, c, t);
    } else {
      var u :| Moved(ops, c, u) && !After(t, u);
      CompareIsTotalOrder(t, MovedAt(w, c).value, u);
      CompareIsTotalOrder(MovedAt(w, c).value, t, u);
      CompareIsTotalOrder(u, MovedAt(w, c).value, t);
    }
  }
}
