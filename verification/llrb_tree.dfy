/** Left-leaning red-black trees as values: what the rotations, Put and Remove of
    pkg/llrb/llrb.go compute, node by node, and the three invariants they keep. */
module LlrbTree {
  import opened Time

  class Node<V> {
    var key: NodeID
    var value: V
    var parent: Node?<V>
    var left: Node?<V>
    var right: Node?<V>
    var isRed: bool

    constructor (key: NodeID, value: V, isRed: bool)
      ensures this.key == key && this.value == value && this.isRed == isRed
      ensures parent == null && left == null && right == null
    {
      this.key, this.value, this.isRed := key, value, isRed;
      parent, left, right := null, null, null;
    }
  }

  /** A tree with, at each place, the object that stands there and its fields. */
  datatype Tree<V> = Nil | At(red: bool, l: Tree<V>, n: Node<V>, k: NodeID, v: V, r: Tree<V>)

  ghost function Nodes<V>(t: Tree<V>): set<Node<V>> {
    if t.Nil? then {} else Nodes(t.l) + {t.n} + Nodes(t.r)
  }

  ghost predicate Distinct<V>(t: Tree<V>) {
    t.At? ==>
      && Distinct(t.l) && Distinct(t.r)
      && t.n !in Nodes(t.l) && t.n !in Nodes(t.r) && Nodes(t.l) !! Nodes(t.r)
  }

  ghost function Top<V>(t: Tree<V>): Node?<V> {
    if t.Nil? then null else t.n
  }

  ghost function Map<V>(t: Tree<V>): map<NodeID, V> {
    if t.Nil? then map[] else (Map(t.l) + Map(t.r))[t.k := t.v]
  }

  /** Each key is above all keys on its left and below all keys on its right. */
  ghost predicate Ordered<V>(t: Tree<V>) {
    t.At? ==>
      && Ordered(t.l) && Ordered(t.r)
      && (forall x :: x in Map(t.l) ==> Less(x, t.k))
      && (forall x :: x in Map(t.r) ==> Less(t.k, x))
  }

  // ----- the algorithms; where the code would follow a missing link, the tree stays -----

  ghost predicate IsRed<V>(t: Tree<V>) {
    t.At? && t.red
  }

  ghost function RotateLeft<V>(t: Tree<V>): Tree<V> {
    if t.At? && t.r.At? then t.r.(red := t.red, l := t.(red := true, r := t.r.l)) else t
  }

  ghost function RotateRight<V>(t: Tree<V>): Tree<V> {
    if t.At? && t.l.At? then t.l.(red := t.red, r := t.(red := true, l := t.l.r)) else t
  }

  ghost function FlipColors<V>(t: Tree<V>): Tree<V> {
    if t.At? && t.l.At? && t.r.At?
    then t.(red := !t.red, l := t.l.(red := !t.l.red), r := t.r.(red := !t.r.red))
    else t
  }

  ghost predicate HasRedLeft<V>(t: Tree<V>) {
    t.At? && IsRed(t.l)
  }

  ghost predicate HasRedRight<V>(t: Tree<V>) {
    t.At? && IsRed(t.r)
  }

  ghost function RotateRightIfTwoReds<V>(t: Tree<V>): Tree<V> {
    if HasRedLeft(t) && HasRedLeft(t.l) then RotateRight(t) else t
  }

  ghost function FlipIfBothRed<V>(t: Tree<V>): Tree<V> {
    if HasRedLeft(t) && HasRedRight(t) then FlipColors(t) else t
  }

  /** The three repairs at the end of put. */
  ghost function Balance<V>(t: Tree<V>): Tree<V> {
    FlipIfBothRed(RotateRightIfTwoReds(if HasRedRight(t) && !HasRedLeft(t) then RotateLeft(t) else t))
  }

  ghost function FixUp<V>(t: Tree<V>): Tree<V> {
    FlipIfBothRed(RotateRightIfTwoReds(if HasRedRight(t) then RotateLeft(t) else t))
  }

  /** The tree after put, where `x` is the node made for a key that is not present. */
  ghost function Put<V>(t: Tree<V>, k: NodeID, v: V, x: Node<V>): Tree<V> {
    if t.Nil? then At(true, Nil, x, k, v, Nil)
    else
      var c := CompareIDs(k, t.k);
      Balance(if c < 0 then t.(l := Put(t.l, k, v, x))
              else if c > 0 then t.(r := Put(t.r, k, v, x))
              else t.(v := v))
  }

  ghost function MoveRedLeft<V>(t: Tree<V>): Tree<V> {
    var f := FlipColors(t);
    if f.At? && HasRedLeft(f.r) then FlipColors(RotateLeft(f.(r := RotateRight(f.r)))) else f
  }

  ghost function MoveRedRight<V>(t: Tree<V>): Tree<V> {
    var f := FlipColors(t);
    if f.At? && HasRedLeft(f.l) then FlipColors(RotateRight(f)) else f
  }

  /** Before a removal goes left: no black node with a black left child is entered. */
  ghost function BorrowLeft<V>(t: Tree<V>): Tree<V> {
    if t.At? && !IsRed(t.l) && !HasRedLeft(t.l) then MoveRedLeft(t) else t
  }

  ghost function BorrowRight<V>(t: Tree<V>): Tree<V> {
    if t.At? && !IsRed(t.r) && !HasRedLeft(t.r) then MoveRedRight(t) else t
  }

  ghost function LeanRight<V>(t: Tree<V>): Tree<V> {
    if HasRedLeft(t) then RotateRight(t) else t
  }

  /** The leftmost place of a tree. */
  ghost function Min<V>(t: Tree<V>): (m: Tree<V>)
    ensures t.At? ==> m.At?
  {
    if t.Nil? || t.l.Nil? then t else Min(t.l)
  }

  ghost function Count<V>(t: Tree<V>): nat {
    if t.Nil? then 0 else Count(t.l) + 1 + Count(t.r)
  }

  ghost function RemoveMin<V>(t: Tree<V>): Tree<V>
    decreases Count(t)
  {
    if t.Nil? || t.l.Nil? then Nil
    else
      BorrowsCount(t);
      var b := BorrowLeft(t);
      FixUp(b.(l := RemoveMin(b.l)))
  }

  ghost function Remove<V>(t: Tree<V>, k: NodeID): Tree<V>
    decreases Count(t)
  {
    if t.Nil? then Nil
    else if CompareIDs(k, t.k) < 0 then
      BorrowsCount(t);
      var b := BorrowLeft(t);
      FixUp(b.(l := Remove(b.l, k)))
    else
      BorrowsCount(t);
      BorrowsCount(LeanRight(t));
      var t1 := LeanRight(t);
      if CompareIDs(k, t1.k) == 0 && t1.r.Nil? then Nil
      else
        var b := BorrowRight(t1);
        if CompareIDs(k, b.k) == 0 && b.r.At? then
          FixUp(b.(k := Min(b.r).k, v := Min(b.r).v, r := RemoveMin(b.r)))
        else FixUp(b.(r := Remove(b.r, k)))
  }

  lemma TurnsCount<V>(t: Tree<V>)
    ensures Count(RotateLeft(t)) == Count(RotateRight(t)) == Count(FlipColors(t)) == Count(t)
    ensures t.At? ==> RotateLeft(t).At? && RotateRight(t).At? && FlipColors(t).At?
  {
    if t.At? {
      assert Count(t.l) == if t.l.Nil? then 0 else Count(t.l.l) + 1 + Count(t.l.r);
      assert Count(t.r) == if t.r.Nil? then 0 else Count(t.r.l) + 1 + Count(t.r.r);
    }
  }

  lemma BorrowsCount<V>(t: Tree<V>)
    ensures Count(BorrowLeft(t)) == Count(BorrowRight(t)) == Count(LeanRight(t)) == Count(t)
    ensures t.At? ==> BorrowLeft(t).At? && BorrowRight(t).At? && LeanRight(t).At?
  {
    var f := FlipColors(t);
    TurnsCount(t);
    TurnsCount(f);
    TurnsCount(RotateRight(f));
    if f.At? {
      TurnsCount(f.r);
      var g := f.(r := RotateRight(f.r));
      TurnsCount(g);
      TurnsCount(RotateLeft(g));
    }
  }

  // ----- the invariants -----

  ghost function BlackHeight<V>(t: Tree<V>): nat {
    if t.Nil? then 0 else BlackHeight(t.l) + if t.red then 0 else 1
  }

  /** Invariant 2: every path to a leaf has the same number of black nodes. */
  ghost predicate Balanced<V>(t: Tree<V>) {
    t.At? ==> BlackHeight(t.l) == BlackHeight(t.r) && Balanced(t.l) && Balanced(t.r)
  }

  /** Invariants 1 and 3: no red node has a red child, and no right child is red. */
  ghost predicate Leaning<V>(t: Tree<V>) {
    t.At? ==> !IsRed(t.r) && !(t.red && IsRed(t.l)) && Leaning(t.l) && Leaning(t.r)
  }

  /** As Leaning, except that a red top may have a red left child. */
  ghost predicate LeaningBelow<V>(t: Tree<V>) {
    t.At? ==> !IsRed(t.r) && Leaning(t.l) && Leaning(t.r)
  }

  /** The invariants and measures of a tree in terms of its children. */
  lemma Parts<V>(t: Tree<V>)
    ensures t.At? ==>
      && (Balanced(t) <==> BlackHeight(t.l) == BlackHeight(t.r) && Balanced(t.l) && Balanced(t.r))
      && (Leaning(t) <==> !IsRed(t.r) && !(t.red && IsRed(t.l)) && Leaning(t.l) && Leaning(t.r))
      && BlackHeight(t) == BlackHeight(t.l) + (if t.red then 0 else 1)
    ensures t.Nil? ==> Balanced(t) && Leaning(t) && BlackHeight(t) == 0
  {
  }
}
