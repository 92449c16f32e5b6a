/** The three invariants of the left-leaning red-black tree through Put and Remove. */
module LlrbInvariants {
  import opened Time
  import opened LlrbTree
  import opened LlrbOrder

  /** What Put leaves in place of `t`: still balanced, and leaning but for a red top. */
  ghost predicate PutInPlace<V>(t': Tree<V>, t: Tree<V>) {
    t'.At? && Balanced(t') && BlackHeight(t') == BlackHeight(t) && LeaningBelow(t') && (!IsRed(t) ==> Leaning(t'))
  }

  lemma BalanceLeft<V>(t: Tree<V>, l: Tree<V>)
    requires t.At? && Balanced(t) && Leaning(t) && PutInPlace(l, t.l)
    ensures PutInPlace(Balance(t.(l := l)), t)
  {
    var g := t.(l := l);
    Parts(l);
    Parts(l.l);
    var h := RotateRightIfTwoReds(g);
    Parts(h);
    Parts(h.l);
    Parts(h.r);
    Parts(FlipIfBothRed(h));
    Parts(FlipIfBothRed(h).l);
    Parts(FlipIfBothRed(h).r);
  }

  lemma BalanceRight<V>(t: Tree<V>, r: Tree<V>)
    requires t.At? && Balanced(t) && Leaning(t) && PutInPlace(r, t.r)
    ensures PutInPlace(Balance(t.(r := r)), t)
  {
    var g := t.(r := r);
    Parts(r);
    Parts(t.l);
    var h := if HasRedRight(g) && !HasRedLeft(g) then RotateLeft(g) else g;
    Parts(h);
    Parts(h.l);
    Parts(h.r);
    Parts(FlipIfBothRed(h));
    Parts(FlipIfBothRed(h).l);
    Parts(FlipIfBothRed(h).r);
  }

  lemma {:induction false} PutKeepsInvariants<V>(t: Tree<V>, k: NodeID, v: V, x: Node<V>)
    requires Balanced(t) && Leaning(t)
    ensures PutInPlace(Put(t, k, v, x), t)
  {
    if t.At? {
      if CompareIDs(k, t.k) < 0 {
        PutKeepsInvariants(t.l, k, v, x);
        BalanceLeft(t, Put(t.l, k, v, x));
      } else if CompareIDs(k, t.k) > 0 {
        PutKeepsInvariants(t.r, k, v, x);
        BalanceRight(t, Put(t.r, k, v, x));
      }
    }
  }

  /** What a removal may be started on: a valid tree that is not a black node with two
      black children. */
  ghost predicate Ready<V>(t: Tree<V>) {
    t.At? && Balanced(t) && Leaning(t) && (t.red || IsRed(t.l))
  }

  /** What a removal leaves in place of `t`. */
  ghost predicate Replaces<V>(t': Tree<V>, t: Tree<V>) {
    Balanced(t') && Leaning(t') && BlackHeight(t') == BlackHeight(t) && (IsRed(t') ==> IsRed(t))
  }

  lemma BorrowLeftReady<V>(t: Tree<V>)
    requires Ready(t) && t.l.At?
    ensures BorrowLeft(t).At? && Ready(BorrowLeft(t).l)
  {
    Parts(t.l);
    Parts(t.r);
    if t.r.At? {
      Parts(t.r.l);
    }
    Parts(BorrowLeft(t).l);
    Parts(BorrowLeft(t).l.l);
  }

  /** A red right child is what a removal may leave; FixUp repairs it. */
  lemma FixUpRightRed<V>(t: Tree<V>)
    requires t.At? && !t.red && IsRed(t.r) && !IsRed(t.r.l)
    requires Balanced(t) && Leaning(t.l) && Leaning(t.r)
    ensures Balanced(FixUp(t)) && Leaning(FixUp(t)) && BlackHeight(FixUp(t)) == BlackHeight(t)
    ensures !IsRed(t.l) ==> !IsRed(FixUp(t))
  {
    Parts(t.r);
    Parts(t.l);
    var f := FixUp(t);
    Parts(f);
    Parts(f.l);
    Parts(f.r);
  }

  lemma BorrowLeftFix<V>(t: Tree<V>, l: Tree<V>)
    requires Ready(t) && t.l.At?
    requires BorrowLeft(t).At? && Replaces(l, BorrowLeft(t).l)
    ensures Replaces(FixUp(BorrowLeft(t).(l := l)), t)
  {
    var b := BorrowLeft(t);
    var g := b.(l := l);
    Parts(t.l);
    Parts(t.r);
    if !IsRed(t.l) && !IsRed(t.l.l) {
      Parts(b.l);
      Parts(b.r);
      Parts(t.r.l);
      if IsRed(t.r.l) {
        assert g.red && !IsRed(g.r) && !IsRed(l);
      } else {
        FixUpRightRed(g);
      }
    }
  }

  /** A black node with a red right child, which a rotation to the right may leave for a
      removal that goes further right. */
  ghost predicate Tilted<V>(t: Tree<V>) {
    && t.At? && !t.red && !IsRed(t.l) && IsRed(t.r) && !IsRed(t.r.l)
    && Balanced(t) && Leaning(t.l) && Leaning(t.r)
  }

  /** Where a removal goes right, it comes to a tree it may be started on. */
  lemma BorrowRightReady<V>(t: Tree<V>)
    requires (Ready(t) || Tilted(t)) && LeanRight(t).r.At?
    ensures var t1 := LeanRight(t);
            var b := BorrowRight(t1);
            && b.At?
            && ((Ready(b.r) && b.k == t1.k) || (Tilted(b.r) && t1.l.At? && b.k == t1.l.k && b.r.k == t1.k))
  {
    var t1 := LeanRight(t);
    var b := BorrowRight(t1);
    Parts(t.l);
    Parts(t.r);
    if t.l.At? {
      Parts(t.l.l);
      Parts(t.l.r);
    }
    Parts(b.r);
    Parts(b.r.l);
    Parts(b.r.r);
  }

  /** What borrowing to the right leaves: where it is red, or both its children are, so was the tree. */
  lemma BorrowRightShape<V>(t: Tree<V>)
    requires (Ready(t) || Tilted(t)) && LeanRight(t).r.At?
    ensures var b := BorrowRight(LeanRight(t));
            && b.At? && Balanced(b.l) && Leaning(b.l) && BlackHeight(b.l) == BlackHeight(b.r)
            && BlackHeight(t) == BlackHeight(b.l) + (if b.red then 0 else 1)
            && (b.red ==> IsRed(t) && !IsRed(b.l) && !IsRed(b.r)) && (IsRed(b.r) && IsRed(b.l) ==> IsRed(t))
  {
    var t1 := LeanRight(t);
    var b := BorrowRight(t1);
    Parts(t.l);
    Parts(t.r);
    if t.l.At? {
      Parts(t.l.l);
      Parts(t.l.r);
    }
    Parts(b.l);
    Parts(b.r);
  }

  lemma BorrowRightFix<V>(t: Tree<V>, g: Tree<V>)
    requires (Ready(t) || Tilted(t)) && LeanRight(t).r.At?
    requires var b := BorrowRight(LeanRight(t));
             b.At? && g.At? && g.red == b.red && g.l == b.l && Replaces(g.r, b.r)
    ensures Replaces(FixUp(g), t)
  {
    BorrowRightShape(t);
    Parts(g.r);
    if IsRed(g.r) {
      FixUpRightRed(g);
    } else {
      assert FixUp(g) == g;
    }
  }

  lemma {:induction false} RemoveMinKeeps<V>(t: Tree<V>)
    requires Ready(t) && Ordered(t)
    ensures Replaces(RemoveMin(t), t) && Ordered(RemoveMin(t)) && Map(RemoveMin(t)) == Map(t) - {Min(t).k}
    decreases Count(t)
  {
    Parts(t.l);
    Parts(t.r);
    if t.l.At? {
      var b := BorrowLeft(t);
      var l := RemoveMin(b.l);
      BorrowsCount(t);
      BorrowLeftReady(t);
      BorrowSame(t);
      RemoveMinKeeps(b.l);
      MinIsLeft(t, b);
      DropLeft(b, l, Min(t).k);
      FixSame(b.(l := l));
      BorrowLeftFix(t, l);
    }
  }

  /** Borrowing does not change which binding is the least. */
  lemma MinIsLeft<V>(t: Tree<V>, b: Tree<V>)
    requires t.At? && Ordered(t) && Same(b, t) && b.l.At?
    ensures Min(b.l).k == Min(t).k && Min(t).k in Map(b.l)
  {
    MinLeast(t);
    MinLeast(b);
    LeastUnique(Map(t), Min(t).k, Min(b).k);
    MinLeast(b.l);
  }

  /** A key below the top stays below the top when the left subtree borrows. */
  lemma BorrowLeftKey<V>(t: Tree<V>, k: NodeID)
    requires t.At? && Ordered(t) && Less(k, t.k) && k in Map(t)
    ensures BorrowLeft(t).At? && k in Map(BorrowLeft(t).l)
  {
    var b := BorrowLeft(t);
    BorrowSame(t);
    Distinct3(k, t.k);
    if t.r.At? && t.r.l.At? {
      assert t.r.l.k in Map(t.r);
      LessIsTotalOrder(k, t.k, t.r.l.k);
      Distinct3(k, t.r.l.k);
    }
    assert Less(k, b.k);
    Distinct3(k, b.k);
    NotInAbove(Map(b.r), b.k, k);
  }

  /** A key at or above the top stays there when the tree is leant to the right. */
  lemma LeanRightKey<V>(t: Tree<V>, k: NodeID)
    requires t.At? && Ordered(t) && !Less(k, t.k) && k in Map(t)
    ensures var t1 := LeanRight(t);
            Same(t1, t) && (k == t1.k || Less(t1.k, k)) && (k == t1.k ==> t1 == t) && (k != t1.k ==> k in Map(t1.r))
  {
    var t1 := LeanRight(t);
    BorrowSame(t);
    LessIsTotalOrder(k, t.k, k);
    if HasRedLeft(t) {
      assert t.l.k in Map(t.l);
      Distinct3(t.l.k, t.k);
      LessIsTotalOrder(t.l.k, t.k, k);
    }
    if k != t1.k {
      NotInBelow(Map(t1.l), t1.k, k);
    }
  }

  lemma {:induction false} RemoveKeeps<V>(t: Tree<V>, k: NodeID)
    requires Ready(t) || (Tilted(t) && !Less(k, t.k))
    requires Ordered(t) && k in Map(t)
    ensures Replaces(Remove(t, k), t) && Ordered(Remove(t, k)) && Map(Remove(t, k)) == Map(t) - {k}
    decreases Count(t), 1
  {
    BorrowsCount(t);
    if Less(k, t.k) {
      var b := BorrowLeft(t);
      var l := Remove(b.l, k);
      BorrowLeftKey(t, k);
      NotIn(Map(t.r), k);
      LeftHasKey(t, k);
      BorrowLeftReady(t);
      BorrowSame(t);
      RemoveKeeps(b.l, k);
      DropLeft(b, l, k);
      FixSame(b.(l := l));
      BorrowLeftFix(t, l);
    } else {
      var t1 := LeanRight(t);
      BorrowsCount(t1);
      LeanRightKey(t, k);
      if t1.r.Nil? {
        Parts(t.l);
      } else {
        RemoveRight(t, k);
      }
    }
  }

  lemma LeftHasKey<V>(t: Tree<V>, k: NodeID)
    requires t.At? && Ordered(t) && Less(k, t.k) && k in Map(t)
    ensures t.l.At? && k in Map(t.l)
  {
    Distinct3(k, t.k);
    NotInAbove(Map(t.r), t.k, k);
  }

  /** What Remove does when it does not go left and does not end at a leaf. */
  lemma RemoveStep<V>(t: Tree<V>, k: NodeID)
    requires t.At? && !Less(k, t.k) && LeanRight(t).r.At? && BorrowRight(LeanRight(t)).At?
    ensures var b := BorrowRight(LeanRight(t));
            Remove(t, k) == if k == b.k && b.r.At?
                            then FixUp(b.(k := Min(b.r).k, v := Min(b.r).v, r := RemoveMin(b.r)))
                            else FixUp(b.(r := Remove(b.r, k)))
  {
    LessIsTotalOrder(k, BorrowRight(LeanRight(t)).k, k);
  }

  lemma BorrowRightKey<V>(t: Tree<V>, k: NodeID)
    requires (Ready(t) || Tilted(t)) && LeanRight(t).r.At?
    requires Ordered(t) && k in Map(t) && !Less(k, t.k)
    ensures var b := BorrowRight(LeanRight(t));
            && b.At? && Same(b, t) && (Tilted(b.r) ==> k != b.k && !Less(k, b.r.k)) && (!Tilted(b.r) ==> Ready(b.r))
            && (k != b.k ==> k in Map(b.r))
  {
    var t1 := LeanRight(t);
    var b := BorrowRight(t1);
    BorrowRightReady(t);
    LeanRightKey(t, k);
    BorrowSame(t1);
    LessIsTotalOrder(k, t1.k, k);
    if Tilted(b.r) {
      assert t1.l.k in Map(t1.l);
      LessIsTotalOrder(t1.l.k, t1.k, k);
    }
    LessIsTotalOrder(k, b.k, k);
    if k != b.k {
      NotInBelow(Map(b.l), b.k, k);
    }
  }

  lemma {:induction false} RemoveRight<V>(t: Tree<V>, k: NodeID)
    requires Ready(t) || (Tilted(t) && !Less(k, t.k))
    requires Ordered(t) && k in Map(t) && !Less(k, t.k) && LeanRight(t).r.At?
    ensures Replaces(Remove(t, k), t) && Ordered(Remove(t, k)) && Map(Remove(t, k)) == Map(t) - {k}
    decreases Count(t), 0
  {
    var b := BorrowRight(LeanRight(t));
    BorrowsCount(t);
    BorrowsCount(LeanRight(t));
    BorrowRightKey(t, k);
    RemoveStep(t, k);
    if k == b.k {
      RemoveTop(t, b);
    } else {
      var r := Remove(b.r, k);
      RemoveKeeps(b.r, k);
      DropRight(b, r, k);
      FixSame(b.(r := r));
      BorrowRightFix(t, b.(r := r));
    }
  }

  lemma RemoveTop<V>(t: Tree<V>, b: Tree<V>)
    requires (Ready(t) || Tilted(t)) && LeanRight(t).r.At?
    requires b == BorrowRight(LeanRight(t)) && b.At? && Ready(b.r) && Ordered(b)
    ensures var t' := FixUp(b.(k := Min(b.r).k, v := Min(b.r).v, r := RemoveMin(b.r)));
            Replaces(t', t) && Ordered(t') && Map(t') == Map(b) - {b.k}
  {
    var r := RemoveMin(b.r);
    var g := b.(k := Min(b.r).k, v := Min(b.r).v, r := r);
    RemoveMinKeeps(b.r);
    MinLeast(b.r);
    DropTop(b, r, Min(b.r).k, Min(b.r).v);
    FixSame(g);
    BorrowRightFix(t, g);
  }

  lemma RemoveLeaf<V>(t: Tree<V>, k: NodeID)
    requires Ready(t) || Tilted(t)
    requires !Less(k, t.k) && k == LeanRight(t).k && LeanRight(t).r.Nil?
    ensures Remove(t, k) == Nil && LeanRight(t) == t && t.l.Nil? && t.r.Nil?
  {
    LessIsTotalOrder(k, t.k, k);
    Parts(t.l);
    Parts(t.r);
  }

  /** A removal that goes right never borrows from a missing left child. */
  lemma BorrowRightAllowed<V>(t: Tree<V>)
    requires (Ready(t) || Tilted(t)) && LeanRight(t).r.At?
    ensures var t1 := LeanRight(t); !t1.r.red && !HasRedLeft(t1.r) ==> t1.l.At?
  {
    Parts(t.l);
    Parts(t.r);
  }

  /** A black root makes a tree out of what Put and Remove arrive at. */
  lemma BlackRoot<V>(t: Tree<V>)
    requires t.At? && Ordered(t) && Balanced(t) && LeaningBelow(t)
    ensures var b := t.(red := false);
            Ordered(b) && Balanced(b) && Leaning(b) && !IsRed(b) && Map(b) == Map(t) && Nodes(b) == Nodes(t)
  {
    Parts(t);
    Parts(t.(red := false));
  }

  /** All that a removal further right needs to know of the tree it goes on in. */
  lemma FurtherRight<V>(t: Tree<V>, t1: Tree<V>, k: NodeID) returns (b: Tree<V>)
    requires (Ready(t) || (Tilted(t) && !Less(k, t.k))) && Ordered(t) && k in Map(t) && !Less(k, t.k)
    requires t1 == LeanRight(t) && t1.r.At?
    ensures !t1.r.red && !HasRedLeft(t1.r) ==> t1.l.At?
    ensures b == BorrowRight(t1) && b.At? && Ordered(b)
    ensures if k == b.k then Ready(b.r)
            else (Ready(b.r) || (Tilted(b.r) && !Less(k, b.r.k))) && Ordered(b.r) && k in Map(b.r)
    ensures Count(b.r) < Count(t)
    ensures Remove(t, k)
            == FixUp(if k == b.k then b.(k := Min(b.r).k, v := Min(b.r).v, r := RemoveMin(b.r))
                     else b.(r := Remove(b.r, k)))
  {
    b := BorrowRight(t1);
    BorrowRightAllowed(t);
    BorrowRightKey(t, k);
    BorrowsCount(t);
    BorrowsCount(t1);
    RemoveStep(t, k);
  }

  /** The tree after Remove has made its root red, unless one of the children is. */
  ghost function Reddened<V>(t: Tree<V>): Tree<V> {
    if t.At? && !IsRed(t.l) && !IsRed(t.r) then t.(red := true) else t
  }

  lemma RedRoot<V>(t: Tree<V>)
    requires t.At? && Balanced(t) && Leaning(t) && Ordered(t) && !IsRed(t)
    ensures Ready(Reddened(t)) && Ordered(Reddened(t)) && Map(Reddened(t)) == Map(t) && Nodes(Reddened(t)) == Nodes(t)
  {
    Parts(t);
    Parts(Reddened(t));
  }
}
