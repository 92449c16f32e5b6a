/** The object CRDT as a map from creation times to entries (pkg/document/json/rht_pq_map.go):
    what setting and deleting members does to it, and what it shows. */
module ObjectEntries {
  import opened Time
  import opened Wrappers

  type Key = string

  datatype Entry = Entry(key: Key, removedAt: Option<Ticket>)

  type Entries = map<Ticket, Entry>

  ghost predicate NotAfter(e: Entries, k: Key, d: Ticket, c: Ticket)
    requires d in e
  {
    e[d].key == k ==> !After(d, c)
  }

  /** The entry created at `c` is the latest under the key. */
  ghost predicate IsTop(e: Entries, k: Key, c: Ticket) {
    c in e && e[c].key == k && forall d :: d in e ==> NotAfter(e, k, d, c)
  }

  lemma TopUnique(e: Entries, k: Key, c: Ticket, d: Ticket)
    requires IsTop(e, k, c) && IsTop(e, k, d)
    ensures c == d
  {
    assert NotAfter(e, k, d, c) && NotAfter(e, k, c, d);
    CompareIsTotalOrder(c, d, c);
  }

  /** What the object shows under a key: its latest entry, unless that was removed. */
  ghost predicate Shows(e: Entries, k: Key, c: Ticket) {
    IsTop(e, k, c) && e[c].removedAt.None?
  }

  /** A removal counts if it is later than the creation and than an earlier removal. */
  predicate CanRemove(c: Ticket, removedAt: Option<Ticket>, t: Ticket) {
    After(t, c) && (removedAt.None? || After(t, removedAt.value))
  }

  ghost function Removed(e: Entries, c: Ticket, t: Ticket): Entries
    requires c in e
  {
    if CanRemove(c, e[c].removedAt, t) then e[c := e[c].(removedAt := Some(t))] else e
  }

  // ----- the operations -----

  datatype Operation =
    | Set(key: Key, createdAt: Ticket)
    | Delete(createdAt: Ticket, deletedAt: Ticket)

  /** The latest entry under the key is removed if it is live and the new one is later. */
  ghost function Superseded(e: Entries, k: Key, c: Ticket): Entries {
    if d :| Shows(e, k, d) then Removed(e, d, c) else e
  }

  lemma SupersededIs(e: Entries, k: Key, c: Ticket, d: Ticket)
    ensures Shows(e, k, d) ==> Superseded(e, k, c) == Removed(e, d, c)
    ensures (forall b :: !Shows(e, k, b)) ==> Superseded(e, k, c) == e
  {
    if b :| Shows(e, k, b) {
      if Shows(e, k, d) {
        TopUnique(e, k, b, d);
      }
    }
  }

  /** An operation on an object; None for a set that reuses the ticket of an element, as
      tickets are unique, and for a removal of an element that is not there. */
  ghost function Apply(e: Entries, op: Operation): Option<Entries> {
    match op
    case Set(k, c) => if c in e then None else Some(Superseded(e, k, c)[c := Entry(k, None)])
    case Delete(c, t) => if c in e then Some(Removed(e, c, t)) else None
  }

  /** A run from the empty object, None if one of its operations makes no sense. */
  ghost function Run(ops: seq<Operation>): Option<Entries> {
    if ops == [] then Some(map[])
    else
      match Run(ops[..|ops| - 1])
      case None => None
      case Some(e) => Apply(e, ops[|ops| - 1])
  }

  // ----- what is shown depends on the set of operations only -----

  ghost predicate Deleted(ops: seq<Operation>, c: Ticket, t: Ticket) {
    Delete(c, t) in ops && After(t, c)
  }

  /** The element was set under the key, none later was, and no deletion of it counts. */
  ghost predicate Expected(ops: seq<Operation>, k: Key, c: Ticket) {
    && Set(k, c) in ops && (forall d :: Set(k, d) in ops ==> !After(d, c))
    && (forall t :: Delete(c, t) in ops ==> !After(t, c))
  }

  /** What a run has left: the elements that were set, and for the latest of each key
      whether it was deleted. */
  ghost predicate Left(ops: seq<Operation>, e: Entries) {
    && (forall c :: c in e ==> Set(e[c].key, c) in ops)
    && (forall k, c :: Set(k, c) in ops ==> c in e && e[c].key == k)
    && (forall c, t :: Delete(c, t) in ops ==> c in e)
    && (forall k, c {:trigger IsTop(e, k, c)} :: IsTop(e, k, c) ==>
         (e[c].removedAt.Some? <==> exists t :: Deleted(ops, c, t)))
  }

  lemma LeftDelete(ops: seq<Operation>, e: Entries, c: Ticket, t: Ticket)
    requires Left(ops, e) && c in e
    ensures Left(ops + [Delete(c, t)], Removed(e, c, t))
  {
    var e', ops' := Removed(e, c, t), ops + [Delete(c, t)];
    forall k, b | IsTop(e', k, b) ensures e'[b].removedAt.Some? <==> exists u :: Deleted(ops', b, u) {
      forall d | d in e ensures NotAfter(e, k, d, b) {
        assert NotAfter(e', k, d, b);
      }
      assert IsTop(e, k, b);
      forall u | Deleted(ops, b, u) ensures Deleted(ops', b, u) {
      }
      if b == c && After(t, c) {
        assert Deleted(ops', c, t);
      }
      forall u | Deleted(ops', b, u) ensures Deleted(ops, b, u) || (b == c && After(t, c)) {
      }
    }
  }

  lemma SupersededKeeps(e: Entries, k: Key, c: Ticket, b: Ticket)
    ensures Superseded(e, k, c).Keys == e.Keys
    ensures b in e ==> Superseded(e, k, c)[b].key == e[b].key
    ensures b in e && !(e[b].key == k && After(c, b)) ==> Superseded(e, k, c)[b] == e[b]
  {
  }

  lemma LeftSet(ops: seq<Operation>, e: Entries, k: Key, c: Ticket)
    requires Left(ops, e) && c !in e
    ensures Left(ops + [Set(k, c)], Superseded(e, k, c)[c := Entry(k, None)])
  {
    var ops', e' := ops + [Set(k, c)], Superseded(e, k, c)[c := Entry(k, None)];
    forall b | b in e ensures b in e' && e'[b].key == e[b].key {
      SupersededKeeps(e, k, c, b);
    }
    SupersededKeeps(e, k, c, c);
    forall j, b | IsTop(e', j, b) ensures e'[b].removedAt.Some? <==> exists u :: Deleted(ops', b, u) {
      forall u ensures Deleted(ops', b, u) <==> Deleted(ops, b, u) {
      }
      if b != c {
        forall d | d in e ensures NotAfter(e, j, d, b) {
          assert NotAfter(e', j, d, b);
        }
        assert IsTop(e, j, b) && NotAfter(e', j, c, b);
        SupersededKeeps(e, k, c, b);
      }
    }
  }

  lemma {:induction false} RunLeaves(ops: seq<Operation>)
    requires Run(ops).Some?
    ensures Left(ops, Run(ops).value)
  {
    if ops != [] {
      var front, op := ops[..|ops| - 1], ops[|ops| - 1];
      var e := Run(front).value;
      RunLeaves(front);
      match op {
        case Set(k, c) => LeftSet(front, e, k, c);
        case Delete(c, t) => LeftDelete(front, e, c, t);
      }
      assert front + [op] == ops;
    }
  }

  /** Convergence: after a run from the empty object, what is shown under a key is the
      element set last by its ticket, unless a deletion of it counts. That speaks of the
      operations, not of their order. */
  lemma RunShows(ops: seq<Operation>, k: Key, c: Ticket)
    requires Run(ops).Some?
    ensures Shows(Run(ops).value, k, c) <==> Expected(ops, k, c)
  {
    var e := Run(ops).value;
    RunLeaves(ops);
    if IsTop(e, k, c) {
      forall d | Set(k, d) in ops ensures !After(d, c) {
        assert NotAfter(e, k, d, c);
      }
      forall t | Delete(c, t) in ops && After(t, c) ensures e[c].removedAt.Some? {
        assert Deleted(ops, c, t);
      }
    }
    if Expected(ops, k, c) {
      forall d | d in e ensures NotAfter(e, k, d, c) {
      }
      assert IsTop(e, k, c);
    }
  }

  lemma Converge(a: seq<Operation>, b: seq<Operation>, k: Key, c: Ticket)
    requires Run(a).Some? && Run(b).Some? && forall op :: op in a <==> op in b
    ensures Shows(Run(a).value, k, c) <==> Shows(Run(b).value, k, c)
  {
    RunShows(a, k, c);
    RunShows(b, k, c);
  }

  // ----- when an element was removed -----

  lemma RemovedTwice(e: Entries, c: Ticket, t: Ticket, u: Ticket)
    requires c in e
    ensures Removed(Removed(e, c, t), c, u) == Removed(Removed(e, c, u), c, t)
  {
    CompareIsTotalOrder(t, u, c);
    CompareIsTotalOrder(u, t, c);
    if e[c].removedAt.Some? {
      CompareIsTotalOrder(t, u, e[c].removedAt.value);
      CompareIsTotalOrder(u, t, e[c].removedAt.value);
    }
  }

  /** Two deletions, of one element or of two, leave the same, removal times included, in
      whatever order they come. */
  lemma DeletesCommute(e: Entries, c: Ticket, t: Ticket, d: Ticket, u: Ticket)
    requires c in e && d in e
    ensures Apply(e, Delete(c, t)).Some? && Apply(e, Delete(d, u)).Some?
    ensures Apply(Apply(e, Delete(c, t)).value, Delete(d, u)) == Apply(Apply(e, Delete(d, u)).value, Delete(c, t))
  {
    if c == d {
      RemovedTwice(e, c, t, u);
    } else {
      assert Removed(Removed(e, c, t), d, u) == Removed(Removed(e, d, u), c, t);
    }
  }

  /** The element was removed then by a deletion of it, or by a later set of its key. */
  ghost predicate RemovedBy(ops: seq<Operation>, k: Key, c: Ticket, t: Ticket) {
    Deleted(ops, c, t) || (Set(k, t) in ops && After(t, c))
  }

  /** The removal time of an element is that of an operation which removes it, and no deletion
      that counts is later. */
  ghost predicate TimeLeft(ops: seq<Operation>, e: Entries, c: Ticket)
    requires c in e
  {
    && (e[c].removedAt.Some? ==> RemovedBy(ops, e[c].key, c, e[c].removedAt.value))
    && (forall t :: Deleted(ops, c, t) ==> e[c].removedAt.Some? && !After(t, e[c].removedAt.value))
  }

  ghost predicate TimesLeft(ops: seq<Operation>, e: Entries) {
    forall c {:trigger TimeLeft(ops, e, c)} :: c in e ==> TimeLeft(ops, e, c)
  }

  lemma TimeStays(ops: seq<Operation>, op: Operation, e: Entries, e': Entries, c: Ticket)
    requires c in e && c in e' && e'[c] == e[c] && TimeLeft(ops, e, c)
    requires forall t :: op != Delete(c, t)
    ensures TimeLeft(ops + [op], e', c)
  {
    forall t | Deleted(ops + [op], c, t) ensures e[c].removedAt.Some? && !After(t, e[c].removedAt.value) {
      assert Deleted(ops, c, t) || op == Delete(c, t);
    }
  }

  lemma TimeDeleted(ops: seq<Operation>, e: Entries, c: Ticket, t: Ticket)
    requires c in e && TimeLeft(ops, e, c)
    ensures TimeLeft(ops + [Delete(c, t)], Removed(e, c, t), c)
  {
    var ops', e' := ops + [Delete(c, t)], Removed(e, c, t);
    assert ops'[|ops|] == Delete(c, t) && forall op :: op in ops ==> op in ops';
    assert e'[c].removedAt.Some? ==> RemovedBy(ops', e'[c].key, c, e'[c].removedAt.value);
    forall u | Deleted(ops', c, u) ensures e'[c].removedAt.Some? && !After(u, e'[c].removedAt.value) {
      assert Deleted(ops, c, u) || u == t;
      CompareIsTotalOrder(u, t, u);
      if e[c].removedAt.Some? {
        CompareIsTotalOrder(u, e[c].removedAt.value, t);
        CompareIsTotalOrder(t, e[c].removedAt.value, u);
        CompareIsTotalOrder(u, t, e[c].removedAt.value);
      }
    }
  }

  lemma TimesDelete(ops: seq<Operation>, e: Entries, d: Ticket, t: Ticket)
    requires TimesLeft(ops, e) && d in e
    ensures TimesLeft(ops + [Delete(d, t)], Removed(e, d, t))
  {
    var e' := Removed(e, d, t);
    forall c | c in e' ensures TimeLeft(ops + [Delete(d, t)], e', c) {
      assert TimeLeft(ops, e, c);
      if c == d {
        TimeDeleted(ops, e, c, t);
      } else {
        TimeStays(ops, Delete(d, t), e, e', c);
      }
    }
  }

  lemma TimesSet(ops: seq<Operation>, e: Entries, k: Key, d: Ticket)
    requires Left(ops, e) && TimesLeft(ops, e) && d !in e
    ensures TimesLeft(ops + [Set(k, d)], Superseded(e, k, d)[d := Entry(k, None)])
  {
    var ops', e' := ops + [Set(k, d)], Superseded(e, k, d)[d := Entry(k, None)];
    assert ops'[|ops|] == Set(k, d);
    SupersededKeeps(e, k, d, d);
    forall c | c in e' ensures TimeLeft(ops', e', c) {
      forall t ensures Deleted(ops', c, t) <==> Deleted(ops, c, t) {
      }
      if c != d {
        assert TimeLeft(ops, e, c);
        SupersededTime(e, k, d, c);
      }
    }
  }

  lemma SupersededTime(e: Entries, k: Key, d: Ticket, c: Ticket)
    requires c in e
    ensures var s := Superseded(e, k, d);
            && c in s && s[c].key == e[c].key
            && (s[c] == e[c] || (e[c].removedAt.None? && s[c].removedAt == Some(d) && e[c].key == k && After(d, c)))
  {
    if b :| Shows(e, k, b) {
      SupersededIs(e, k, d, b);
    }
  }

  /** After any run, an element that a deletion later than its creation removed is removed, at
      a time that is not before any of them; and that time is the one of such a deletion, or
      the ticket of a later set of its key. */
  lemma {:induction false} RunTimes(ops: seq<Operation>)
    requires Run(ops).Some?
    ensures TimesLeft(ops, Run(ops).value)
  {
    if ops != [] {
      var front, op := ops[..|ops| - 1], ops[|ops| - 1];
      var e := Run(front).value;
      RunLeaves(front);
      RunTimes(front);
      match op {
        case Set(k, c) => TimesSet(front, e, k, c);
        case Delete(c, t) => TimesDelete(front, e, c, t);
      }
      assert front + [op] == ops;
    }
  }

  // ----- what a purge does to that -----

  lemma RunMore(ops: seq<Operation>, op: Operation)
    requires Run(ops).Some?
    ensures Run(ops + [op]) == Apply(Run(ops).value, op)
  {
    assert (ops + [op])[..|ops|] == ops;
  }

  /** One operation comes before another. */
  ghost predicate Precedes(ops: seq<Operation>, x: Operation, y: Operation) {
    exists i, j :: 0 <= i < j < |ops| && ops[i] == x && ops[j] == y
  }

  lemma PrecedesMore(ops: seq<Operation>, op: Operation, x: Operation, y: Operation)
    ensures Precedes(ops + [op], x, y) <==> Precedes(ops, x, y) || (x in ops && y == op)
  {
    var more := ops + [op];
    if Precedes(ops, x, y) {
      var i, j :| 0 <= i < j < |ops| && ops[i] == x && ops[j] == y;
      assert more[i] == x && more[j] == y;
    }
    if x in ops && y == op {
      var i :| 0 <= i < |ops| && ops[i] == x;
      assert more[i] == x && more[|ops|] == y;
    }
  }

  /** The entry at `b` is the latest under its key but for the one at `c`. */
  ghost predicate IsSecond(e: Entries, k: Key, c: Ticket, b: Ticket) {
    IsTop(e, k, c) && IsTop(e - {c}, k, b)
  }

  /** It is live just if it was set after the latest, so that nothing superseded it, and no
      deletion of it counts. */
  ghost predicate SecondLeft(ops: seq<Operation>, e: Entries, k: Key, c: Ticket, b: Ticket)
    requires b in e
  {
    e[b].removedAt.None? <==> Precedes(ops, Set(k, c), Set(k, b)) && forall t :: !Deleted(ops, b, t)
  }

  ghost predicate SecondsLeft(ops: seq<Operation>, e: Entries) {
    forall k, c, b {:trigger IsSecond(e, k, c, b)} :: IsSecond(e, k, c, b) ==> SecondLeft(ops, e, k, c, b)
  }

  lemma SecondsDelete(ops: seq<Operation>, e: Entries, d: Ticket, t: Ticket)
    requires SecondsLeft(ops, e) && d in e
    ensures SecondsLeft(ops + [Delete(d, t)], Removed(e, d, t))
  {
    var e', ops' := Removed(e, d, t), ops + [Delete(d, t)];
    assert ops'[|ops|] == Delete(d, t);
    forall k, c, b | IsSecond(e', k, c, b) ensures SecondLeft(ops', e', k, c, b) {
      SameOrder(e, e', k, c);
      SameOrder(e - {c}, e' - {c}, k, b);
      assert IsSecond(e, k, c, b);
      PrecedesMore(ops, Delete(d, t), Set(k, c), Set(k, b));
      forall u | Deleted(ops, b, u) ensures Deleted(ops', b, u) {
      }
      forall u | Deleted(ops', b, u) ensures Deleted(ops, b, u) || (b == d && After(t, d)) {
      }
      assert b == d && After(t, d) ==> Deleted(ops', d, t);
    }
  }

  /** Which entry is the latest depends on the keys only. */
  lemma SameOrder(e: Entries, e': Entries, k: Key, c: Ticket)
    requires e.Keys == e'.Keys && forall d :: d in e ==> e[d].key == e'[d].key
    ensures IsTop(e, k, c) <==> IsTop(e', k, c)
  {
    forall d | d in e ensures NotAfter(e, k, d, c) <==> NotAfter(e', k, d, c) {
    }
  }

  lemma SecondsSet(ops: seq<Operation>, e: Entries, j: Key, d: Ticket)
    requires Left(ops, e) && SecondsLeft(ops, e) && d !in e
    ensures SecondsLeft(ops + [Set(j, d)], Superseded(e, j, d)[d := Entry(j, None)])
  {
    var e', ops' := Superseded(e, j, d)[d := Entry(j, None)], ops + [Set(j, d)];
    forall b | b in e ensures b in e' && e'[b].key == e[b].key {
      SupersededKeeps(e, j, d, b);
    }
    SupersededKeeps(e, j, d, d);
    forall k, c, b | IsSecond(e', k, c, b) ensures SecondLeft(ops', e', k, c, b) {
      PrecedesMore(ops, Set(j, d), Set(k, c), Set(k, b));
      forall t ensures Deleted(ops', b, t) <==> Deleted(ops, b, t) {
      }
      if k == j && c == d {
        NewestSet(ops, e, k, d, b);
      } else if k == j && b == d {
        assert c in e && Set(e[c].key, c) in ops;
      } else {
        OldSecond(e, e', d, k, c, b);
        assert k == j ==> NotAfter(e' - {c}, k, d, b);
        SupersededKeeps(e, j, d, b);
      }
    }
  }

  /** A new latest element supersedes the one that was the latest, if that is live. */
  lemma NewestSet(ops: seq<Operation>, e: Entries, k: Key, d: Ticket, b: Ticket)
    requires d !in e && IsSecond(Superseded(e, k, d)[d := Entry(k, None)], k, d, b)
    ensures b in e && Superseded(e, k, d)[b].removedAt.Some?
  {
    var s := Superseded(e, k, d);
    var e' := s[d := Entry(k, None)];
    SupersededKeeps(e, k, d, d);
    forall x | x in e ensures s[x].key == e[x].key {
      SupersededKeeps(e, k, d, x);
    }
    assert e' - {d} == s;
    SameOrder(e, s, k, b);
    assert NotAfter(e', k, b, d);
    CompareIsTotalOrder(b, d, b);
    SupersededIs(e, k, d, b);
    forall x | Shows(e, k, x) ensures x == b {
      TopUnique(e, k, x, b);
    }
  }

  lemma OldSecond(e: Entries, e': Entries, d: Ticket, k: Key, c: Ticket, b: Ticket)
    requires d !in e && e'.Keys == e.Keys + {d} && forall x :: x in e ==> e'[x].key == e[x].key
    requires IsSecond(e', k, c, b) && c != d && b != d
    ensures IsSecond(e, k, c, b)
  {
    forall x | x in e ensures NotAfter(e, k, x, c) {
      assert NotAfter(e', k, x, c);
    }
    forall x | x in e - {c} ensures NotAfter(e - {c}, k, x, b) {
      assert NotAfter(e' - {c}, k, x, b);
    }
  }

  lemma {:induction false} RunSeconds(ops: seq<Operation>)
    requires Run(ops).Some?
    ensures SecondsLeft(ops, Run(ops).value)
  {
    if ops != [] {
      var front, op := ops[..|ops| - 1], ops[|ops| - 1];
      var e := Run(front).value;
      RunLeaves(front);
      RunSeconds(front);
      match op {
        case Set(k, c) => SecondsSet(front, e, k, c);
        case Delete(c, t) => SecondsDelete(front, e, c, t);
      }
      assert front + [op] == ops;
    }
  }

  /** Once the latest element of a key is purged, the one before it is shown if and only if
      it was set after the purged one and no deletion of it counts: here the order matters. */
  lemma PurgeShows(ops: seq<Operation>, k: Key, c: Ticket, b: Ticket)
    requires Run(ops).Some? && IsTop(Run(ops).value, k, c)
    ensures var e := Run(ops).value - {c};
            Shows(e, k, b) <==>
            && IsTop(e, k, b) && Precedes(ops, Set(k, c), Set(k, b)) && forall t :: !Deleted(ops, b, t)
  {
    var e := Run(ops).value;
    RunSeconds(ops);
    if IsTop(e - {c}, k, b) {
      assert IsSecond(e, k, c, b) && SecondLeft(ops, e, k, c, b);
    }
  }

  /** Two runs of the same operations show the same after the purge if and only if the element
      before the purged one was deleted, or the two were set in the same order in both. */
  lemma PurgeAgreesIff(r: seq<Operation>, s: seq<Operation>, k: Key, c: Ticket, b: Ticket)
    requires Run(r).Some? && Run(s).Some? && (forall op :: op in r <==> op in s)
    requires IsSecond(Run(r).value, k, c, b)
    ensures (Shows(Run(r).value - {c}, k, b) <==> Shows(Run(s).value - {c}, k, b))
            <==> ((exists t :: Deleted(r, b, t))
                  || (Precedes(r, Set(k, c), Set(k, b)) <==> Precedes(s, Set(k, c), Set(k, b))))
  {
    var e, e' := Run(r).value, Run(s).value;
    RunLeaves(r);
    RunLeaves(s);
    assert forall x :: x in e ==> Set(e[x].key, x) in s;
    assert forall x :: x in e' ==> Set(e'[x].key, x) in r;
    SameOrder(e, e', k, c);
    SameOrder(e - {c}, e' - {c}, k, b);
    PurgeShows(r, k, c, b);
    PurgeShows(s, k, c, b);
    forall t ensures Deleted(r, b, t) <==> Deleted(s, b, t) {
    }
  }

  /** A run that sets two elements of a key and deletes one of them. */
  lemma TwoSet(k: Key, x: Ticket, y: Ticket, c: Ticket, t: Ticket)
    requires x != y && c in {x, y}
    ensures var r := Run([Set(k, x), Set(k, y), Delete(c, t)]);
            r.Some? && r.value.Keys == {x, y} && r.value[x].key == r.value[y].key == k
  {
    var ops := [Set(k, x), Set(k, y)];
    RunMore([], Set(k, x));
    assert [] + [Set(k, x)] == [Set(k, x)];
    SupersededKeeps(map[], k, x, x);
    var e := Run([Set(k, x)]).value;
    RunMore([Set(k, x)], Set(k, y));
    assert [Set(k, x)] + [Set(k, y)] == ops;
    SupersededKeeps(e, k, y, x);
    RunMore(ops, Delete(c, t));
    assert ops + [Delete(c, t)] == [Set(k, x), Set(k, y), Delete(c, t)];
  }

  /** So whenever one of two elements is later, was deleted and is purged, the other is shown
      just by the copies that set it second. */
  lemma PurgeDiverges(k: Key, b: Ticket, c: Ticket, t: Ticket)
    requires After(c, b)
    ensures var r, s := Run([Set(k, b), Set(k, c), Delete(c, t)]), Run([Set(k, c), Set(k, b), Delete(c, t)]);
            r.Some? && s.Some? && !Shows(r.value - {c}, k, b) && Shows(s.value - {c}, k, b)
  {
    var r, s := [Set(k, b), Set(k, c), Delete(c, t)], [Set(k, c), Set(k, b), Delete(c, t)];
    CompareIsTotalOrder(b, c, b);
    TwoSet(k, b, c, c, t);
    TwoSet(k, c, b, c, t);
    forall e: Entries | e.Keys == {b, c} && e[b].key == e[c].key == k ensures IsTop(e, k, c) && IsTop(e - {c}, k, b) {
    }
    PurgeShows(r, k, c, b);
    PurgeShows(s, k, c, b);
    assert s[0] == Set(k, c) && s[1] == Set(k, b);
  }
}
