/** Put and Remove as map updates: every algorithm keeps the keys in order, and the
    rotations and color changes do not touch the bindings. */
module LlrbOrder {
  import opened Time
  import opened LlrbTree

  ghost predicate Above<V>(m: map<NodeID, V>, k: NodeID) {
    forall x :: x in m ==> Less(k, x)
  }

  ghost predicate Below<V>(m: map<NodeID, V>, k: NodeID) {
    forall x :: x in m ==> Less(x, k)
  }

  lemma BelowTrans<V>(m: map<NodeID, V>, j: NodeID, k: NodeID)
    requires Below(m, j) && Less(j, k)
    ensures Below(m, k)
  {
    forall x | x in m ensures Less(x, k) { LessIsTotalOrder(x, j, k); }
  }

  lemma AboveTrans<V>(m: map<NodeID, V>, j: NodeID, k: NodeID)
    requires Above(m, j) && Less(k, j)
    ensures Above(m, k)
  {
    forall x | x in m ensures Less(k, x) { LessIsTotalOrder(k, j, x); }
  }

  lemma Distinct3(a: NodeID, b: NodeID)
    requires Less(a, b)
    ensures a != b && !Less(b, a)
  {
    LessIsTotalOrder(a, b, a);
  }

  lemma NotIn<V>(m: map<NodeID, V>, k: NodeID)
    ensures Below(m, k) || Above(m, k) ==> k !in m
  {
    LessIsTotalOrder(k, k, k);
  }

  /** The two ways around an edge collect the same bindings. */
  lemma Regroup<V>(a: map<NodeID, V>, k: NodeID, v: V, b: map<NodeID, V>, j: NodeID, w: V, c: map<NodeID, V>)
    requires k != j && k !in c
    ensures (a + (b + c)[j := w])[k := v] == ((a + b)[k := v] + c)[j := w]
  {
  }

  /** `t'` has the same bindings as `t`, in order. */
  ghost predicate Same<V>(t': Tree<V>, t: Tree<V>) {
    Ordered(t') && Map(t') == Map(t) && (t.At? ==> t'.At?)
  }

  lemma RotateLeftSame<V>(t: Tree<V>)
    requires Ordered(t)
    ensures Same(RotateLeft(t), t)
  {
    if t.At? && t.r.At? {
      var r := t.r;
      assert r.k in Map(r);
      Distinct3(t.k, r.k);
      BelowTrans(Map(t.l), t.k, r.k);
      AboveTrans(Map(r.r), r.k, t.k);
      NotIn(Map(r.r), t.k);
      Regroup(Map(t.l), t.k, t.v, Map(r.l), r.k, r.v, Map(r.r));
      assert forall x :: x in Map(r.l) ==> x in Map(r);
    }
  }

  lemma RotateRightSame<V>(t: Tree<V>)
    requires Ordered(t)
    ensures Same(RotateRight(t), t)
  {
    if t.At? && t.l.At? {
      var l := t.l;
      assert l.k in Map(l);
      Distinct3(l.k, t.k);
      AboveTrans(Map(t.r), t.k, l.k);
      NotIn(Map(t.r), l.k);
      Regroup(Map(l.l), l.k, l.v, Map(l.r), t.k, t.v, Map(t.r));
      assert forall x :: x in Map(l.r) ==> x in Map(l);
    }
  }

  lemma FlipColorsSame<V>(t: Tree<V>)
    requires Ordered(t)
    ensures Same(FlipColors(t), t)
  {
  }

  lemma RepairSame<V>(t: Tree<V>)
    requires Ordered(t)
    ensures Same(RotateRightIfTwoReds(t), t) && Same(FlipIfBothRed(t), t)
  {
    RotateRightSame(t);
    FlipColorsSame(t);
  }

  lemma FixSame<V>(t: Tree<V>)
    requires Ordered(t)
    ensures Same(Balance(t), t) && Same(FixUp(t), t)
  {
    RotateLeftSame(t);
    RepairSame(t);
    RepairSame(RotateLeft(t));
    RepairSame(RotateRightIfTwoReds(t));
    RepairSame(RotateRightIfTwoReds(RotateLeft(t)));
  }

  // Updating one of three disjoint parts of a map updates the whole.

  lemma UpdateParts<V>(a: map<NodeID, V>, b: map<NodeID, V>, k: NodeID, v: V, x: NodeID, w: V)
    requires x != k
    ensures x !in b ==> (a[x := w] + b)[k := v] == (a + b)[k := v][x := w]
    ensures (a + b[x := w])[k := v] == (a + b)[k := v][x := w]
  {
  }

  lemma DropParts<V>(a: map<NodeID, V>, b: map<NodeID, V>, k: NodeID, v: V, x: NodeID)
    requires x != k
    ensures x !in b ==> (a - {x} + b)[k := v] == (a + b)[k := v] - {x}
    ensures x !in a ==> (a + (b - {x}))[k := v] == (a + b)[k := v] - {x}
  {
  }

  lemma ReplaceTop<V>(a: map<NodeID, V>, b: map<NodeID, V>, k: NodeID, v: V, j: NodeID)
    requires k !in a && k !in b && j in b
    ensures (a + (b - {j}))[j := b[j]] == (a + b)[k := v] - {k}
  {
  }

  lemma PutLeft<V>(t: Tree<V>, l: Tree<V>, k: NodeID, v: V)
    requires t.At? && Ordered(t) && Ordered(l) && Less(k, t.k) && Map(l) == Map(t.l)[k := v]
    ensures Ordered(t.(l := l)) && Map(t.(l := l)) == Map(t)[k := v]
  {
    Distinct3(k, t.k);
    NotInAbove(Map(t.r), t.k, k);
    UpdateParts(Map(t.l), Map(t.r), t.k, t.v, k, v);
  }

  lemma PutRight<V>(t: Tree<V>, r: Tree<V>, k: NodeID, v: V)
    requires t.At? && Ordered(t) && Ordered(r) && Less(t.k, k) && Map(r) == Map(t.r)[k := v]
    ensures Ordered(t.(r := r)) && Map(t.(r := r)) == Map(t)[k := v]
  {
    Distinct3(t.k, k);
    UpdateParts(Map(t.l), Map(t.r), t.k, t.v, k, v);
  }

  lemma {:induction false} PutMap<V>(t: Tree<V>, k: NodeID, v: V, x: Node<V>)
    requires Ordered(t)
    ensures Ordered(Put(t, k, v, x)) && Map(Put(t, k, v, x)) == Map(t)[k := v]
  {
    if t.At? {
      LessIsTotalOrder(k, t.k, k);
      if CompareIDs(k, t.k) < 0 {
        var l := Put(t.l, k, v, x);
        PutMap(t.l, k, v, x);
        PutLeft(t, l, k, v);
        FixSame(t.(l := l));
      } else if CompareIDs(k, t.k) > 0 {
        var r := Put(t.r, k, v, x);
        PutMap(t.r, k, v, x);
        PutRight(t, r, k, v);
        FixSame(t.(r := r));
      } else {
        FixSame(t.(v := v));
      }
    }
  }

  lemma NotInAbove<V>(m: map<NodeID, V>, j: NodeID, k: NodeID)
    requires Above(m, j) && Less(k, j)
    ensures k !in m
  {
    AboveTrans(m, j, k);
    NotIn(m, k);
  }

  lemma NotInBelow<V>(m: map<NodeID, V>, j: NodeID, k: NodeID)
    requires Below(m, j) && Less(j, k)
    ensures k !in m
  {
    BelowTrans(m, j, k);
    NotIn(m, k);
  }

  lemma MoveRedSame<V>(t: Tree<V>)
    requires Ordered(t)
    ensures Same(MoveRedLeft(t), t) && Same(MoveRedRight(t), t)
  {
    var f := FlipColors(t);
    FlipColorsSame(t);
    RotateRightSame(f);
    FlipColorsSame(RotateRight(f));
    if f.At? {
      RotateRightSame(f.r);
      var g := f.(r := RotateRight(f.r));
      assert Ordered(g) && Map(g) == Map(f);
      RotateLeftSame(g);
      FlipColorsSame(RotateLeft(g));
    }
  }

  lemma BorrowSame<V>(t: Tree<V>)
    requires Ordered(t)
    ensures Same(BorrowLeft(t), t) && Same(BorrowRight(t), t) && Same(LeanRight(t), t)
  {
    MoveRedSame(t);
    RotateRightSame(t);
  }

  ghost predicate Least<V>(m: map<NodeID, V>, k: NodeID) {
    k in m && forall x :: x in m ==> x == k || Less(k, x)
  }

  lemma LeastUnique<V>(m: map<NodeID, V>, j: NodeID, k: NodeID)
    requires Least(m, j) && Least(m, k)
    ensures j == k
  {
    LessIsTotalOrder(j, k, j);
  }

  /** The place that min finds holds the least binding. */
  lemma {:induction false} MinLeast<V>(t: Tree<V>)
    requires t.At? && Ordered(t)
    ensures Least(Map(t), Min(t).k) && Map(t)[Min(t).k] == Min(t).v
  {
    NotIn(Map(t.r), t.k);
    if t.l.At? {
      var j := Min(t.l).k;
      MinLeast(t.l);
      NotIn(Map(t.l), t.k);
      NotInAbove(Map(t.r), t.k, j);
      AboveTrans(Map(t.r), t.k, j);
    }
  }

  /** Taking a key out of the left or the right subtree takes it out of the tree. */
  lemma DropLeft<V>(t: Tree<V>, l: Tree<V>, k: NodeID)
    requires t.At? && Ordered(t) && Ordered(l) && k in Map(t.l) && Map(l) == Map(t.l) - {k}
    ensures Ordered(t.(l := l)) && Map(t.(l := l)) == Map(t) - {k}
  {
    Distinct3(k, t.k);
    NotInAbove(Map(t.r), t.k, k);
    DropParts(Map(t.l), Map(t.r), t.k, t.v, k);
  }

  lemma DropRight<V>(t: Tree<V>, r: Tree<V>, k: NodeID)
    requires t.At? && Ordered(t) && Ordered(r) && k in Map(t.r) && Map(r) == Map(t.r) - {k}
    ensures Ordered(t.(r := r)) && Map(t.(r := r)) == Map(t) - {k}
  {
    Distinct3(t.k, k);
    NotInBelow(Map(t.l), t.k, k);
    DropParts(Map(t.l), Map(t.r), t.k, t.v, k);
  }

  /** A binding is replaced by the least one above it, which is taken out below. */
  lemma DropTop<V>(t: Tree<V>, r: Tree<V>, j: NodeID, w: V)
    requires t.At? && Ordered(t) && Ordered(r) && Least(Map(t.r), j) && Map(t.r)[j] == w && Map(r) == Map(t.r) - {j}
    ensures Ordered(t.(k := j, v := w, r := r)) && Map(t.(k := j, v := w, r := r)) == Map(t) - {t.k}
  {
    BelowTrans(Map(t.l), t.k, j);
    NotIn(Map(t.l), t.k);
    NotIn(Map(t.r), t.k);
    ReplaceTop(Map(t.l), Map(t.r), t.k, t.v, j);
  }

  /** Where a key can be, seen from the top. */
  lemma PutKeys<V>(t: Tree<V>, k: NodeID)
    requires t.At? && Ordered(t)
    ensures Less(k, t.k) ==> (k in Map(t) <==> k in Map(t.l))
    ensures Less(t.k, k) ==> (k in Map(t) <==> k in Map(t.r))
  {
    if Less(k, t.k) {
      Distinct3(k, t.k);
      NotInAbove(Map(t.r), t.k, k);
    }
    if Less(t.k, k) {
      Distinct3(t.k, k);
      NotInBelow(Map(t.l), t.k, k);
    }
  }

  // ----- searching for the greatest key not above a given one -----

  /** A way down a tree, the last step first; `p` is the subtree a step leaves. */
  datatype Path<V> = Here | Left(p: Tree<V>, up: Path<V>) | Right(p: Tree<V>, up: Path<V>)

  ghost function PathNodes<V>(path: Path<V>): set<Node<V>> {
    if path.Here? then {} else TopSet(path.p) + PathNodes(path.up)
  }

  ghost function TopSet<V>(t: Tree<V>): set<Node<V>> {
    if t.At? then {t.n} else {}
  }

  /** The path leads from `root` to `t`, as a search for `key` goes. */
  ghost predicate Leads<V>(path: Path<V>, t: Tree<V>, root: Tree<V>, key: NodeID) {
    match path
    case Here => t == root
    case Left(p, up) => p.At? && t == p.l && Less(key, p.k) && Leads(up, p, root, key)
    case Right(p, up) => p.At? && t == p.r && Less(p.k, key) && Leads(up, p, root, key)
  }

  /** The subtree that was last left to the right. */
  ghost function LastRight<V>(path: Path<V>): Tree<V> {
    match path
    case Here => Nil
    case Left(p, up) => LastRight(up)
    case Right(p, up) => p
  }

  ghost predicate IsFloor<V>(m: map<NodeID, V>, key: NodeID, k: NodeID) {
    k in m && !Less(key, k) && forall x :: x in m && !Less(key, x) ==> !Less(k, x)
  }

  ghost predicate HasFloor<V>(m: map<NodeID, V>, key: NodeID) {
    exists x :: x in m && !Less(key, x)
  }

  lemma {:induction false} LeadsWithin<V>(path: Path<V>, t: Tree<V>, root: Tree<V>, key: NodeID)
    requires Leads(path, t, root, key) && Distinct(root) && Ordered(root)
    ensures Distinct(t) && Ordered(t) && Nodes(t) <= Nodes(root) && PathNodes(path) !! Nodes(t)
    ensures PathNodes(path) <= Nodes(root)
    decreases path
  {
    if !path.Here? {
      LeadsWithin(path.up, path.p, root, key);
    }
  }

  /** On the way down, every key up to `key` is in the subtree reached, or not above the
      subtree last left to the right, whose binding is in the tree. */
  lemma {:induction false} DescentKeeps<V>(path: Path<V>, t: Tree<V>, root: Tree<V>, key: NodeID, x: NodeID)
    requires Leads(path, t, root, key) && Distinct(root) && Ordered(root)
    ensures var b := LastRight(path);
            && (b.At? ==> Less(b.k, key) && b.k in Map(root) && Map(root)[b.k] == b.v && Above(Map(t), b.k))
            && (x in Map(root) && !Less(key, x) ==> x in Map(t) || (b.At? && !Less(b.k, x)))
            && (forall y :: y in Map(t) ==> y in Map(root) && Map(root)[y] == Map(t)[y])
    decreases path
  {
    match path
    case Here =>
    case Left(p, up) =>
      DescentKeeps(up, p, root, key, x);
      LeadsWithin(up, p, root, key);
      StepKeeps(p, key, x);
    case Right(p, up) =>
      DescentKeeps(up, p, root, key, x);
      LeadsWithin(up, p, root, key);
      StepKeeps(p, key, x);
      var b := LastRight(up);
      if b.At? && x in Map(root) && !Less(b.k, x) {
        assert p.k in Map(p);
        LessIsTotalOrder(p.k, x, b.k);
        LessIsTotalOrder(b.k, p.k, x);
      }
  }

  lemma StepKeeps<V>(p: Tree<V>, key: NodeID, x: NodeID)
    requires p.At? && Ordered(p)
    ensures forall y :: y in Map(p.l) ==> y in Map(p) && Map(p)[y] == Map(p.l)[y]
    ensures forall y :: y in Map(p.r) ==> y in Map(p) && Map(p)[y] == Map(p.r)[y]
    ensures Less(key, p.k) && x in Map(p) && !Less(key, x) ==> x in Map(p.l)
    ensures Less(p.k, key) && x in Map(p) ==> x in Map(p.r) || !Less(p.k, x)
  {
    forall y | y in Map(p.l) ensures y != p.k && y !in Map(p.r) {
      NotIn(Map(p.l), p.k);
      NotInAbove(Map(p.r), p.k, y);
    }
    NotIn(Map(p.r), p.k);
    LessIsTotalOrder(key, p.k, x);
    LessIsTotalOrder(p.k, x, p.k);
  }

  lemma FloorUnique<V>(m: map<NodeID, V>, key: NodeID, k: NodeID)
    requires IsFloor(m, key, k)
    ensures HasFloor(m, key) && forall j :: IsFloor(m, key, j) ==> j == k
  {
    forall j | IsFloor(m, key, j) ensures j == k { LessIsTotalOrder(j, k, j); }
  }

  /** Where the search ends, the floor is the binding reached or the one last left to the right. */
  lemma FloorFound<V>(path: Path<V>, t: Tree<V>, root: Tree<V>, key: NodeID)
    requires Leads(path, t, root, key) && Distinct(root) && Ordered(root) && t.At?
    requires t.k == key || (Less(t.k, key) && t.r.Nil?)
    ensures IsFloor(Map(root), key, t.k) && Map(root)[t.k] == t.v
    ensures HasFloor(Map(root), key) && forall j :: IsFloor(Map(root), key, j) ==> j == t.k
  {
    LessIsTotalOrder(key, t.k, key);
    DescentKeeps(path, t, root, key, t.k);
    forall x | x in Map(root) && !Less(key, x) ensures !Less(t.k, x) {
      DescentKeeps(path, t, root, key, x);
      var b := LastRight(path);
      if t.k == key {
      } else if x in Map(t) {
        LeadsWithin(path, t, root, key);
        StepKeeps(t, key, x);
      } else {
        LessIsTotalOrder(b.k, t.k, x);
        LessIsTotalOrder(t.k, x, b.k);
      }
    }
    FloorUnique(Map(root), key, t.k);
  }

  lemma FloorLastRight<V>(path: Path<V>, t: Tree<V>, root: Tree<V>, key: NodeID)
    requires Leads(path, t, root, key) && Distinct(root) && Ordered(root) && t.At?
    requires Less(key, t.k) && t.l.Nil?
    ensures var b := LastRight(path);
            if b.At? then IsFloor(Map(root), key, b.k) && Map(root)[b.k] == b.v && HasFloor(Map(root), key)
                          && forall j :: IsFloor(Map(root), key, j) ==> j == b.k
            else !HasFloor(Map(root), key)
  {
    var b := LastRight(path);
    DescentKeeps(path, t, root, key, key);
    LeadsWithin(path, t, root, key);
    forall x | x in Map(root) && !Less(key, x) ensures b.At? && !Less(b.k, x) {
      DescentKeeps(path, t, root, key, x);
      StepKeeps(t, key, x);
    }
    if b.At? {
      LessIsTotalOrder(b.k, key, b.k);
      FloorUnique(Map(root), key, b.k);
    }
  }
}
