/** The array CRDT as a sequence of items (pkg/document/json/rga_tree_list.go): what its
    operations do to the order of the elements, their moves and their removals. */
module ArrayItems {
  import opened Time
  import opened Wrappers
  import opened Sequences

  /** An element of an array; what it holds is left aside. */
  datatype Item = Item(createdAt: Ticket, movedAt: Option<Ticket>, removedAt: Option<Ticket>) {
    function PositionedAt(): Ticket {
      if movedAt.Some? then movedAt.value else createdAt
    }

    predicate Live() {
      removedAt.None?
    }
  }

  /** The dummy head: the first item of every array, never a live one. */
  const Head := Item(InitialTicket, None, Some(InitialTicket))

  ghost predicate TimesDiffer(s: seq<Item>, i: int, j: int)
    requires 0 <= i < |s| && 0 <= j < |s|
  {
    s[i].createdAt == s[j].createdAt ==> i == j
  }

  ghost predicate Distinct(s: seq<Item>) {
    forall i, j :: 0 <= i < |s| && 0 <= j < |s| ==> TimesDiffer(s, i, j)
  }

  /** What every array is: it starts with its head, and no two elements were created at the same time. */
  ghost predicate WellFormed(s: seq<Item>) {
    s != [] && s[0].createdAt == InitialTicket && !s[0].Live() && Distinct(s)
  }

  /** Where the element created at `c` stands, -1 if nowhere. */
  ghost function Find(s: seq<Item>, c: Ticket): (i: int)
    ensures -1 <= i < |s|
    ensures i >= 0 ==> s[i].createdAt == c
    ensures i < 0 ==> forall j :: 0 <= j < |s| ==> s[j].createdAt != c
  {
    if i :| 0 <= i < |s| && s[i].createdAt == c then i else -1
  }

  lemma FindIs(s: seq<Item>, c: Ticket, i: nat)
    requires Distinct(s) && i < |s| && s[i].createdAt == c
    ensures Find(s, c) == i
  {
    assert TimesDiffer(s, i, Find(s, c));
  }

  function Shown(x: Item): seq<Ticket> {
    if x.Live() then [x.createdAt] else []
  }

  /** What the array shows. */
  function Live(s: seq<Item>): seq<Ticket> {
    if s == [] then [] else Shown(s[0]) + Live(s[1..])
  }

  /** The nearest live item before `i`, or the head. */
  function PrevLive(s: seq<Item>, i: nat): (j: nat)
    requires 0 < i <= |s|
    ensures j < i && (j == 0 || s[j].Live()) && forall k :: j < k < i ==> !s[k].Live()
  {
    if i == 1 || s[i - 1].Live() then i - 1 else PrevLive(s, i - 1)
  }

  // ----- the operations -----

  /** findNextBeforeExecutedAt: the items positioned later go first. */
  function Skip(s: seq<Item>, i: nat, t: Ticket): (r: nat)
    requires i < |s|
    ensures i <= r < |s|
    decreases |s| - i
  {
    if i + 1 < |s| && After(s[i + 1].PositionedAt(), t) then Skip(s, i + 1, t) else i
  }

  function InsertAt<T>(s: seq<T>, g: nat, x: T): (r: seq<T>)
    requires g <= |s|
    ensures |r| == |s| + 1
  {
    s[..g] + [x] + s[g..]
  }

  function Placed(s: seq<Item>, p: nat, x: Item, t: Ticket): (r: seq<Item>)
    requires p < |s|
    ensures |r| == |s| + 1
  {
    InsertAt(s, Skip(s, p, t) + 1, x)
  }

  /** A removal counts if it is later than the creation and than an earlier removal. */
  predicate CanRemove(x: Item, t: Ticket) {
    After(t, x.createdAt) && (x.removedAt.None? || After(t, x.removedAt.value))
  }

  function Buried(x: Item, t: Ticket): Item {
    if CanRemove(x, t) then x.(removedAt := Some(t)) else x
  }

  predicate CanMove(x: Item, t: Ticket) {
    x.movedAt.None? || After(t, x.movedAt.value)
  }

  datatype Operation =
    | Insert(prev: Ticket, createdAt: Ticket)
    | Delete(createdAt: Ticket, deletedAt: Ticket)
    | Move(prev: Ticket, createdAt: Ticket, executedAt: Ticket)

  /** An operation on an array; None where it stops the program: when an element it names is
      not there, when it moves an element after itself, and when it moves the head. An
      insertion under the ticket of another element is None as well: tickets are unique. */
  ghost function Apply(s: seq<Item>, op: Operation): Option<seq<Item>> {
    match op
    case Insert(prev, createdAt) =>
      var p := Find(s, prev);
      if p < 0 || Find(s, createdAt) >= 0 then None
      else Some(Placed(s, p, Item(createdAt, None, None), createdAt))
    case Delete(createdAt, deletedAt) =>
      var i := Find(s, createdAt);
      if i < 0 then None else Some(s[i := Buried(s[i], deletedAt)])
    case Move(prev, createdAt, executedAt) =>
      var i := Find(s, createdAt);
      if Find(s, prev) < 0 || i < 0 then None
      else if !CanMove(s[i], executedAt) then Some(s)
      else if i == 0 || prev == createdAt then None
      else
        var rest := Without(s, i);
        var p := Find(rest, prev);
        if p < 0 then None else Some(Placed(rest, p, s[i].(movedAt := Some(executedAt)), executedAt))
  }

  /** A run of operations, None if one of them fails. */
  ghost function Run(s: seq<Item>, ops: seq<Operation>): Option<seq<Item>>
    decreases |ops|
  {
    if ops == [] then Some(s)
    else
      match Apply(s, ops[0])
      case None => None
      case Some(r) => Run(r, ops[1..])
  }

  // ----- every operation keeps an array well formed -----

  lemma InsertedAt<T>(s: seq<T>, g: nat, x: T, i: nat)
    requires g <= |s| && i <= |s|
    ensures InsertAt(s, g, x)[i] == if i < g then s[i] else if i == g then x else s[i - 1]
  {
  }

  lemma InsertedWellFormed(s: seq<Item>, g: nat, x: Item)
    requires WellFormed(s) && 0 < g <= |s| && Find(s, x.createdAt) < 0
    ensures WellFormed(InsertAt(s, g, x))
  {
    var r := InsertAt(s, g, x);
    InsertedAt(s, g, x, 0);
    forall i, j | 0 <= i < |r| && 0 <= j < |r| ensures TimesDiffer(r, i, j) {
      InsertedAt(s, g, x, i);
      InsertedAt(s, g, x, j);
      if i != g && j != g {
        assert TimesDiffer(s, if i < g then i else i - 1, if j < g then j else j - 1);
      }
    }
  }

  lemma WithoutWellFormed(s: seq<Item>, i: nat)
    requires WellFormed(s) && 0 < i < |s|
    ensures WellFormed(Without(s, i)) && Find(Without(s, i), s[i].createdAt) < 0
  {
    var r := Without(s, i);
    forall x, y | 0 <= x < |r| && 0 <= y < |r| ensures TimesDiffer(r, x, y) {
      assert TimesDiffer(s, if x < i then x else x + 1, if y < i then y else y + 1);
    }
    var f := Find(r, s[i].createdAt);
    assert f < 0 || TimesDiffer(s, if f < i then f else f + 1, i);
  }

  lemma SetWellFormed(s: seq<Item>, i: nat, x: Item)
    requires WellFormed(s) && i < |s| && x.createdAt == s[i].createdAt && (i == 0 ==> !x.Live())
    ensures WellFormed(s[i := x])
  {
    var r := s[i := x];
    forall j, k | 0 <= j < |r| && 0 <= k < |r| ensures TimesDiffer(r, j, k) {
      assert TimesDiffer(s, j, k);
    }
  }

  lemma ApplyWellFormed(s: seq<Item>, op: Operation)
    requires WellFormed(s) && Apply(s, op).Some?
    ensures WellFormed(Apply(s, op).value)
  {
    match op
    case Insert(prev, createdAt) =>
      InsertedWellFormed(s, Skip(s, Find(s, prev), createdAt) + 1, Item(createdAt, None, None));
    case Delete(createdAt, deletedAt) =>
      var i: int := Find(s, createdAt);
      SetWellFormed(s, i, Buried(s[i], deletedAt));
    case Move(prev, createdAt, executedAt) =>
      var i: int := Find(s, createdAt);
      if CanMove(s[i], executedAt) {
        WithoutWellFormed(s, i);
        var rest := Without(s, i);
        InsertedWellFormed(rest, Skip(rest, Find(rest, prev), executedAt) + 1, s[i].(movedAt := Some(executedAt)));
      }
  }

  /** A move is a release and an insertion; it fails for the head and for a place right of itself. */
  lemma MoveIs(s: seq<Item>, prev: Ticket, c: Ticket, t: Ticket, i: nat)
    requires WellFormed(s) && i < |s| && i == Find(s, c) && Find(s, prev) >= 0
    ensures Apply(s, Move(prev, c, t))
            == if !CanMove(s[i], t) then Some(s) else if i == 0 then None
               else var rest := Without(s, i);
                    if Find(rest, prev) < 0 then None
                    else Some(Placed(rest, Find(rest, prev), s[i].(movedAt := Some(t)), t))
    ensures i > 0 ==> (Find(Without(s, i), prev) < 0 <==> prev == c)
  {
    if i > 0 {
      WithoutWellFormed(s, i);
      var p: int := Find(s, prev);
      if p != i {
        assert Without(s, i)[if p < i then p else p - 1] == s[p];
      }
    }
  }

  // ----- what an array shows -----

  lemma Assoc<T>(a: seq<T>, b: seq<T>, c: seq<T>)
    ensures a + (b + c) == a + b + c
  {
  }

  lemma {:induction false} LiveAppend(a: seq<Item>, b: seq<Item>)
    ensures Live(a + b) == Live(a) + Live(b)
  {
    if a == [] {
      assert a + b == b;
    } else {
      var x, y, z := Shown(a[0]), Live(a[1..]), Live(b);
      assert Live(a + b) == x + (y + z) by {
        LiveAppend(a[1..], b);
        assert (a + b)[1..] == a[1..] + b;
      }
      Assoc(x, y, z);
    }
  }

  lemma LiveOne(x: Item)
    ensures Live([x]) == Shown(x)
  {
    assert [x][1..] == [];
  }

  lemma Cut<T>(s: seq<T>, i: nat)
    requires i < |s|
    ensures s == s[..i] + [s[i]] + s[i + 1..] && s[..i + 1] == s[..i] + [s[i]]
  {
  }

  lemma LiveAround(s: seq<Item>, i: nat)
    requires i < |s|
    ensures Live(s) == Live(s[..i]) + Shown(s[i]) + Live(s[i + 1..])
    ensures Live(s[..i + 1]) == Live(s[..i]) + Shown(s[i])
  {
    var a, b := s[..i], s[i + 1..];
    Cut(s, i);
    LiveAppend(a + [s[i]], b);
    LiveAppend(a, [s[i]]);
    LiveOne(s[i]);
  }

  /** The live item behind `n` live ones is the n-th that the array shows. */
  lemma LiveIndex(s: seq<Item>, j: nat, n: nat)
    requires j < |s| && s[j].Live() && n == |Live(s[..j])|
    ensures n < |Live(s)| && Live(s)[n] == s[j].createdAt
  {
    LiveAround(s, j);
  }

  /** What is shown stands somewhere. */
  lemma {:induction false} LiveStands(s: seq<Item>, n: nat)
    requires n < |Live(s)|
    ensures exists j :: 0 <= j < |s| && s[j].createdAt == Live(s)[n]
    decreases |s|
  {
    var m := |Shown(s[0])|;
    if n < m {
      assert s[0].createdAt == Live(s)[n];
    } else {
      LiveStands(s[1..], n - m);
      var j :| 0 <= j < |s[1..]| && s[1..][j].createdAt == Live(s[1..])[n - m];
      assert s[j + 1].createdAt == Live(s)[n];
    }
  }

  lemma LivePrefix(s: seq<Item>, j: nat)
    requires j <= |s|
    ensures |Live(s[..j])| <= |Live(s)|
    ensures j < |s| ==> |Live(s[..j + 1])| == |Live(s[..j])| + Count(s[j])
    ensures j == |s| ==> Live(s[..j]) == Live(s)
  {
    LiveAppend(s[..j], s[j..]);
    assert s[..j] + s[j..] == s;
    if j < |s| {
      LiveAround(s, j);
    }
  }

  // ----- how many elements are live -----

  function Count(x: Item): nat {
    if x.Live() then 1 else 0
  }

  lemma CountInserted(s: seq<Item>, g: nat, x: Item)
    requires g <= |s|
    ensures |Live(InsertAt(s, g, x))| == |Live(s)| + Count(x)
  {
    var r := InsertAt(s, g, x);
    assert r[..g] == s[..g] && r[g + 1..] == s[g..];
    LiveAround(r, g);
    LiveAppend(s[..g], s[g..]);
    assert s[..g] + s[g..] == s;
  }

  lemma CountWithout(s: seq<Item>, i: nat)
    requires i < |s|
    ensures |Live(Without(s, i))| == |Live(s)| - Count(s[i])
  {
    LiveAround(s, i);
    LiveAppend(s[..i], s[i + 1..]);
  }

  lemma CountSet(s: seq<Item>, i: nat, x: Item)
    requires i < |s|
    ensures |Live(s[i := x])| == |Live(s)| - Count(s[i]) + Count(x)
  {
    var r := s[i := x];
    assert r[..i] == s[..i] && r[i + 1..] == s[i + 1..];
    LiveAround(s, i);
    LiveAround(r, i);
  }

  /** How the number of live elements falls behind the size when an operation succeeds: a
      tombstone removed again is counted out twice, and a tombstone that is moved is counted in. */
  ghost function Miscount(s: seq<Item>, op: Operation): int
    requires Apply(s, op).Some?
  {
    match op
    case Insert(_, _) => 0
    case Delete(createdAt, deletedAt) =>
      var x := s[Find(s, createdAt)];
      if !x.Live() && CanRemove(x, deletedAt) then -1 else 0
    case Move(_, createdAt, executedAt) =>
      var x := s[Find(s, createdAt)];
      if !x.Live() && CanMove(x, executedAt) then 1 else 0
  }

  /** The same for a run. */
  ghost function Miscounts(s: seq<Item>, ops: seq<Operation>): int
    requires Run(s, ops).Some?
    decreases |ops|
  {
    if ops == [] then 0 else Miscount(s, ops[0]) + Miscounts(Apply(s, ops[0]).value, ops[1..])
  }

  /** Removing a live element twice, the second time later, leaves the size one too low. */
  lemma RemovedTwice(s: seq<Item>, i: nat, t: Ticket, u: Ticket)
    requires WellFormed(s) && i < |s| && s[i].Live() && After(t, s[i].createdAt)
    requires After(u, t) && After(u, s[i].createdAt)
    ensures var ops := [Delete(s[i].createdAt, t), Delete(s[i].createdAt, u)];
            Run(s, ops).Some? && Miscounts(s, ops) == -1
  {
    var c := s[i].createdAt;
    var x, y := Delete(c, t), Delete(c, u);
    var s' := s[i := Buried(s[i], t)];
    SetWellFormed(s, i, Buried(s[i], t));
    FindIs(s, c, i);
    FindIs(s', c, i);
    assert [x, y][1..] == [y] && [y][1..] == [];
    assert Run(s', [y]).Some? && Miscounts(s', [y]) == -1;
  }
}
