/** What each case of `__rb_erase_color` does to the shape of the tree. */
module RbErase {
  import opened RbShape

  /** The subtree `short` below p has one black node less than its sibling `tall`. */
  ghost predicate Short(m: seq<Cell>, p: int, short: int, tall: int)
    requires Has(m, p)
  {
    && 0 <= BhOf(m, short) == BhOf(m, tall) - 1
    && m[p].bh == BhOf(m, tall) + (if m[p].red then 0 else 1)
  }

  ghost predicate ShortAt(m: seq<Cell>, p: int, n: int)
    requires Has(m, p)
  {
    (m[p].left == n && Short(m, p, n, m[p].right)) || (m[p].right == n && Short(m, p, n, m[p].left))
  }

  /** The loop invariant of `__rb_erase_color`: the subtree n below p (which may be empty) misses one
      black node; a red-red edge can only touch n. */
  ghost predicate Erasing(m: seq<Cell>, root: int, n: int, p: int) {
    && Linked(m, root)
    && (n != NIL ==> Has(m, n) && m[n].parent == p)
    && (p == NIL ==> n == root)
    && (p != NIL ==> Has(m, p) && ShortAt(m, p, n))
    && (forall i {:trigger BalOk(m, i)} :: Has(m, i) && i != p ==> BalOk(m, i))
    && (forall i {:trigger RedOk(m, i)} :: Has(m, i) && i != n && m[i].parent != n ==> RedOk(m, i))
    && (IsRed(m, root) ==> root == n)
  }

  /** `__rb_erase_color` is at a black or missing node that is not the root, on the left. */
  ghost predicate AtLeft(m: seq<Cell>, root: int, n: int, p: int, o: int) {
    && Erasing(m, root, n, p) && !IsRed(m, n) && n != root
    && Has(m, p) && m[p].left == n && m[p].right == o
  }

  /** The sibling is never missing, and the parent is the node the loop invariant names. */
  lemma Sibling(m: seq<Cell>, root: int, n: int, p: int)
    requires Erasing(m, root, n, p) && !IsRed(m, n) && n != root
    ensures Has(m, p) && NodeOk(m, root, p)
    ensures m[p].left == n ==>
            Has(m, m[p].right) && NodeOk(m, root, m[p].right) && m[p].right != p && Short(m, p, n, m[p].right)
    ensures m[p].left != n ==>
            m[p].right == n && Has(m, m[p].left) && NodeOk(m, root, m[p].left) && m[p].left != p
              && Short(m, p, n, m[p].left)
    ensures forall i :: Has(m, i) ==> RedOk(m, i) || m[i].parent == n == NIL
  {
    Node(m, root, p);
    if m[p].left == n {
      Node(m, root, m[p].right);
    } else {
      Node(m, root, m[p].left);
    }
    forall i | Has(m, i)
      ensures RedOk(m, i) || m[i].parent == n == NIL
    {
      assert i != n && m[i].parent != n ==> RedOk(m, i);
    }
  }

  // ---------------------------------------------------------------- red sibling

  ghost function RedSiblingTurned(m: seq<Cell>, p: int, o: int): seq<Cell>
    requires Has(m, p) && Has(m, o) && m[p].right == o && o != p
  {
    TurnLeft(m, p, true, m[p].bh - 1, false, m[p].bh)
  }

  /** With a red sibling the parent is black, and the sibling's children are black and present. */
  lemma RedSiblingArea(m: seq<Cell>, root: int, n: int, p: int, o: int)
    requires AtLeft(m, root, n, p, o) && IsRed(m, o)
    ensures NodeOk(m, root, p) && NodeOk(m, root, o) && o != p && Short(m, p, n, o)
    ensures !IsRed(m, p) && BalOk(m, o)
    ensures Has(m, m[o].left) && !IsRed(m, m[o].left) && !IsRed(m, m[o].right)
    ensures m[o].left != o && NodeOk(m, root, m[o].left)
  {
    Sibling(m, root, n, p);
    assert BalOk(m, o) && RedOk(m, o);
    if m[o].left != NIL {
      Node(m, root, m[o].left);
      assert RedOk(m, m[o].left);
    }
    if m[o].right != NIL {
      Node(m, root, m[o].right);
      assert RedOk(m, m[o].right);
    }
  }

  lemma RedSiblingNode(m: seq<Cell>, root: int, n: int, p: int, o: int, i: int)
    requires AtLeft(m, root, n, p, o) && IsRed(m, o) && Has(m, i) && Has(m, o) && o != p
    ensures |RedSiblingTurned(m, p, o)| == |m|
    ensures i != p ==> BalOk(RedSiblingTurned(m, p, o), i)
  {
    RedSiblingArea(m, root, n, p, o);
    if i != p && i != o {
      assert BalOk(m, i);
      TurnLeftBalOk(m, root, p, true, m[p].bh - 1, false, m[p].bh, i);
    }
  }

  lemma RedSiblingRed(m: seq<Cell>, root: int, n: int, p: int, o: int, i: int)
    requires AtLeft(m, root, n, p, o) && IsRed(m, o) && Has(m, i) && Has(m, o) && o != p
    ensures |RedSiblingTurned(m, p, o)| == |m|
    ensures i != n && RedSiblingTurned(m, p, o)[i].parent != n ==> RedOk(RedSiblingTurned(m, p, o), i)
  {
    RedSiblingArea(m, root, n, p, o);
    Node(m, root, i);
    assert i != n && m[i].parent != n ==> RedOk(m, i);
  }

  lemma RedSiblingKeeps(m: seq<Cell>, root: int, n: int, p: int, o: int)
    requires AtLeft(m, root, n, p, o) && IsRed(m, o)
    ensures Has(m, o) && o != p
    ensures Erasing(RedSiblingTurned(m, p, o), RotatedRoot(m, root, p, o), n, p)
    ensures RedSiblingTurned(m, p, o)[p].left == n && IsRed(RedSiblingTurned(m, p, o), p)
    ensures RedSiblingTurned(m, p, o)[p].right == m[o].left && !IsRed(RedSiblingTurned(m, p, o), m[o].left)
    ensures n != RotatedRoot(m, root, p, o) && !IsRed(RedSiblingTurned(m, p, o), n)
  {
    RedSiblingArea(m, root, n, p, o);
    TurnLeftLinked(m, root, p, true, m[p].bh - 1, false, m[p].bh);
    var r := RedSiblingTurned(m, p, o);
    forall i | Has(r, i)
      ensures i != p ==> BalOk(r, i)
      ensures i != n && r[i].parent != n ==> RedOk(r, i)
    {
      RedSiblingNode(m, root, n, p, o, i);
      RedSiblingRed(m, root, n, p, o, i);
    }
  }

  // ---------------------------------------------------------------- black sibling, black nephews

  ghost function SiblingOf(m: seq<Cell>, p: int, n: int): int
    requires Has(m, p)
  {
    if m[p].left == n then m[p].right else m[p].left
  }

  ghost predicate BlackNephews(m: seq<Cell>, root: int, n: int, p: int, o: int) {
    && Erasing(m, root, n, p) && !IsRed(m, n) && n != root && Has(m, p)
    && o == SiblingOf(m, p, n) && Has(m, o) && !m[o].red && !IsRed(m, m[o].left) && !IsRed(m, m[o].right)
  }

  /** Redden the sibling; now the whole subtree at p misses one black node. */
  ghost function NephewsPainted(m: seq<Cell>, p: int, o: int): seq<Cell>
    requires Has(m, p) && Has(m, o)
  {
    Paint(Paint(m, o, true, m[o].bh - 1), p, m[p].red, m[p].bh - 1)
  }

  lemma NephewsNode(m: seq<Cell>, root: int, n: int, p: int, o: int, i: int)
    requires BlackNephews(m, root, n, p, o) && Has(m, i) && i != m[p].parent
    ensures BalOk(NephewsPainted(m, p, o), i)
  {
    Sibling(m, root, n, p);
    Node(m, root, i);
    assert BalOk(m, o) && (i != p ==> BalOk(m, i));
  }

  lemma NephewsRed(m: seq<Cell>, root: int, n: int, p: int, o: int, i: int)
    requires BlackNephews(m, root, n, p, o) && Has(m, i) && i != p && m[i].parent != p
    ensures RedOk(NephewsPainted(m, p, o), i)
  {
    Sibling(m, root, n, p);
    Node(m, root, i);
    assert i != n && m[i].parent != n ==> RedOk(m, i);
  }

  lemma NephewsShort(m: seq<Cell>, root: int, n: int, p: int, o: int)
    requires BlackNephews(m, root, n, p, o) && m[p].parent != NIL
    ensures Has(m, m[p].parent) && ShortAt(NephewsPainted(m, p, o), m[p].parent, p)
  {
    Sibling(m, root, n, p);
    assert BalOk(m, m[p].parent);
    Node(m, root, m[p].parent);
  }

  lemma NephewsLinked(m: seq<Cell>, root: int, p: int, o: int)
    requires Linked(m, root) && Has(m, p) && Has(m, o)
    ensures Linked(NephewsPainted(m, p, o), root)
  {
    PaintLinked(m, root, o, true, m[o].bh - 1);
    PaintLinked(Paint(m, o, true, m[o].bh - 1), root, p, m[p].red, m[p].bh - 1);
  }

  lemma NephewsKeeps(m: seq<Cell>, root: int, n: int, p: int, o: int)
    requires BlackNephews(m, root, n, p, o)
    ensures Erasing(NephewsPainted(m, p, o), root, p, m[p].parent)
  {
    Sibling(m, root, n, p);
    var r := NephewsPainted(m, p, o);
    NephewsLinked(m, root, p, o);
    if m[p].parent != NIL {
      NephewsShort(m, root, n, p, o);
    }
    forall i | Has(r, i) && i != m[p].parent
      ensures BalOk(r, i)
    {
      NephewsNode(m, root, n, p, o, i);
    }
    forall i | Has(r, i) && i != p && r[i].parent != p
      ensures RedOk(r, i)
    {
      NephewsRed(m, root, n, p, o, i);
    }
  }

  // ---------------------------------------------------------------- black sibling, red inner nephew

  ghost predicate RedInner(m: seq<Cell>, root: int, n: int, p: int, o: int, l: int) {
    && AtLeft(m, root, n, p, o) && Has(m, o) && !m[o].red && o != p
    && m[o].left == l && l != o && IsRed(m, l) && !IsRed(m, m[o].right)
  }

  ghost function InnerTurned(m: seq<Cell>, o: int, l: int): seq<Cell>
    requires Has(m, o) && Has(m, l) && m[o].left == l && l != o
  {
    TurnRight(m, o, true, m[o].bh - 1, false, m[o].bh)
  }

  lemma InnerArea(m: seq<Cell>, root: int, n: int, p: int, o: int, l: int)
    requires RedInner(m, root, n, p, o, l)
    ensures NodeOk(m, root, p) && NodeOk(m, root, o) && NodeOk(m, root, l)
    ensures BalOk(m, o) && BalOk(m, l) && Short(m, p, n, o)
    ensures !IsRed(m, m[l].left) && !IsRed(m, m[l].right)
  {
    Sibling(m, root, n, p);
    Node(m, root, l);
    assert BalOk(m, o) && BalOk(m, l);
    if m[l].left != NIL {
      assert RedOk(m, m[l].left);
    }
    if m[l].right != NIL {
      assert RedOk(m, m[l].right);
    }
  }

  lemma InnerNode(m: seq<Cell>, root: int, n: int, p: int, o: int, l: int, i: int)
    requires RedInner(m, root, n, p, o, l) && Has(m, i) && i != p
    ensures |InnerTurned(m, o, l)| == |m| && BalOk(InnerTurned(m, o, l), i)
  {
    InnerArea(m, root, n, p, o, l);
    assert BalOk(m, i);
    if i == o || i == l {
      TurnRightTopOk(m, root, o, true, m[o].bh - 1, false, m[o].bh);
    } else {
      TurnRightBalOk(m, root, o, true, m[o].bh - 1, false, m[o].bh, i);
    }
  }

  lemma InnerRed(m: seq<Cell>, root: int, n: int, p: int, o: int, l: int, i: int)
    requires RedInner(m, root, n, p, o, l) && Has(m, i)
    ensures |InnerTurned(m, o, l)| == |m|
    ensures i != n && InnerTurned(m, o, l)[i].parent != n ==> RedOk(InnerTurned(m, o, l), i)
  {
    InnerArea(m, root, n, p, o, l);
    Node(m, root, i);
    assert i != n && m[i].parent != n ==> RedOk(m, i);
  }

  lemma InnerKeeps(m: seq<Cell>, root: int, n: int, p: int, o: int, l: int)
    requires RedInner(m, root, n, p, o, l)
    ensures Erasing(InnerTurned(m, o, l), root, n, p)
    ensures InnerTurned(m, o, l)[p].left == n && InnerTurned(m, o, l)[p].right == l
    ensures InnerTurned(m, o, l)[l].right == o && IsRed(InnerTurned(m, o, l), o) && !IsRed(InnerTurned(m, o, l), l)
    ensures !IsRed(InnerTurned(m, o, l), n)
  {
    InnerArea(m, root, n, p, o, l);
    TurnRightLinked(m, root, o, true, m[o].bh - 1, false, m[o].bh);
    var r := InnerTurned(m, o, l);
    forall i | Has(r, i)
      ensures i != p ==> BalOk(r, i)
      ensures i != n && r[i].parent != n ==> RedOk(r, i)
    {
      if i != p {
        InnerNode(m, root, n, p, o, l, i);
      }
      InnerRed(m, root, n, p, o, l, i);
    }
  }

  // ---------------------------------------------------------------- black sibling, red outer nephew

  ghost predicate RedOuter(m: seq<Cell>, root: int, n: int, p: int, o: int, q: int) {
    && AtLeft(m, root, n, p, o) && Has(m, o) && !m[o].red && o != p
    && m[o].right == q && q != o && q != p && IsRed(m, q)
  }

  ghost function OuterPainted(m: seq<Cell>, q: int): seq<Cell>
    requires Has(m, q)
  {
    Paint(m, q, false, m[q].bh + 1)
  }

  ghost function OuterTurned(m: seq<Cell>, p: int, o: int, q: int): seq<Cell>
    requires Has(m, p) && Has(m, o) && Has(m, q) && m[p].right == o && o != p && q != p && q != o
  {
    TurnLeft(OuterPainted(m, q), p, false, m[o].bh, m[p].red, m[p].bh)
  }

  lemma OuterArea(m: seq<Cell>, root: int, n: int, p: int, o: int, q: int)
    requires RedOuter(m, root, n, p, o, q)
    ensures NodeOk(m, root, p) && NodeOk(m, root, o) && NodeOk(m, root, q)
    ensures BalOk(m, o) && BalOk(m, q) && Short(m, p, n, o)
    ensures Linked(OuterPainted(m, q), root)
  {
    Sibling(m, root, n, p);
    Node(m, root, q);
    assert BalOk(m, o) && BalOk(m, q);
    PaintLinked(m, root, q, false, m[q].bh + 1);
  }

  lemma OuterNode(m: seq<Cell>, root: int, n: int, p: int, o: int, q: int, i: int)
    requires RedOuter(m, root, n, p, o, q) && Has(m, i)
    ensures |OuterTurned(m, p, o, q)| == |m| && BalOk(OuterTurned(m, p, o, q), i)
  {
    OuterArea(m, root, n, p, o, q);
    var w := OuterPainted(m, q);
    if i == o || i == p {
      TurnLeftTopOk(w, root, p, false, m[o].bh, m[p].red, m[p].bh);
    } else {
      assert BalOk(m, i);
      Node(m, root, i);
      assert BalOk(w, i);
      TurnLeftBalOk(w, root, p, false, m[o].bh, m[p].red, m[p].bh, i);
    }
  }

  lemma OuterRed(m: seq<Cell>, root: int, n: int, p: int, o: int, q: int, i: int)
    requires RedOuter(m, root, n, p, o, q) && Has(m, i)
    ensures |OuterTurned(m, p, o, q)| == |m| && RedOk(OuterTurned(m, p, o, q), i)
  {
    OuterArea(m, root, n, p, o, q);
    Node(m, root, i);
    Sibling(m, root, n, p);
  }

  lemma OuterEnds(m: seq<Cell>, root: int, n: int, p: int, o: int, q: int)
    requires RedOuter(m, root, n, p, o, q)
    ensures RedBlack(OuterTurned(m, p, o, q), RotatedRoot(m, root, p, o))
  {
    OuterArea(m, root, n, p, o, q);
    TurnLeftLinked(OuterPainted(m, q), root, p, false, m[o].bh, m[p].red, m[p].bh);
    var r := OuterTurned(m, p, o, q);
    forall i | Has(r, i)
      ensures BalOk(r, i)
      ensures RedOk(r, i)
    {
      OuterNode(m, root, n, p, o, q, i);
      OuterRed(m, root, n, p, o, q, i);
    }
  }

  // ---------------------------------------------------------------- the end of the loop

  ghost function Ended(m: seq<Cell>, n: int): seq<Cell> {
    if Has(m, n) then Paint(m, n, false, if m[n].red then m[n].bh + 1 else m[n].bh) else m
  }

  /** A red node absorbs the missing black; at the root nothing is missing. */
  lemma EndedRedBlack(m: seq<Cell>, root: int, n: int, p: int)
    requires Erasing(m, root, n, p) && (IsRed(m, n) || n == root)
    ensures RedBlack(Ended(m, n), root)
  {
    var r := Ended(m, n);
    if Has(m, n) {
      PaintLinked(m, root, n, false, if m[n].red then m[n].bh + 1 else m[n].bh);
    }
    forall i | Has(r, i)
      ensures BalOk(r, i)
      ensures RedOk(r, i)
    {
      EndedNode(m, root, n, p, i);
    }
  }

  lemma EndedNode(m: seq<Cell>, root: int, n: int, p: int, i: int)
    requires Erasing(m, root, n, p) && (IsRed(m, n) || n == root) && Has(m, i)
    ensures BalOk(Ended(m, n), i) && RedOk(Ended(m, n), i)
  {
    Node(m, root, i);
    if n != NIL {
      Node(m, root, n);
    }
    assert i != p ==> BalOk(m, i);
    assert i != n && m[i].parent != n ==> RedOk(m, i);
  }

  // ---------------------------------------------------------------- the mirrored cases

  lemma MirrorShortAt(m: seq<Cell>, root: int, p: int, n: int)
    requires Linked(m, root) && Has(m, p) && ShortAt(m, p, n) && (n != NIL ==> Has(m, n))
    ensures ShortAt(Mirror(m), MirIx(|m|, p), MirIx(|m|, n))
  {
    MirrorArea(m, root, p);
  }

  lemma MirrorErasing(m: seq<Cell>, root: int, n: int, p: int)
    requires Erasing(m, root, n, p)
    ensures Erasing(Mirror(m), MirIx(|m|, root), MirIx(|m|, n), MirIx(|m|, p))
  {
    MirrorLinked(m, root);
    var r := Mirror(m);
    if n != NIL {
      MirrorAt(m, n);
    }
    if p != NIL {
      MirrorShortAt(m, root, p, n);
    }
    if m != [] {
      MirrorAt(m, root);
    }
    forall i | Has(r, i)
      ensures i != MirIx(|m|, p) ==> BalOk(r, i)
      ensures i != MirIx(|m|, n) && r[i].parent != MirIx(|m|, n) ==> RedOk(r, i)
    {
      var k := |m| - 1 - i;
      Node(m, root, k);
      MirrorBalOk(m, root, k);
      MirrorAt(m, k);
      assert (k != p ==> BalOk(m, k)) && (k != n && m[k].parent != n ==> RedOk(m, k));
    }
  }

  lemma ErasingByMirror(r: seq<Cell>, w: seq<Cell>, root: int, n: int, p: int)
    requires Ranged(r) && -1 <= root < |r| && -1 <= n < |r| && -1 <= p < |r| && w == Mirror(r)
    requires Erasing(w, MirIx(|r|, root), MirIx(|r|, n), MirIx(|r|, p))
    ensures Erasing(r, root, n, p)
  {
    MirrorMirror(r);
    assert r == Mirror(w) && root == MirIx(|w|, MirIx(|r|, root)) && n == MirIx(|w|, MirIx(|r|, n))
           && p == MirIx(|w|, MirIx(|r|, p));
    MirrorErasing(w, MirIx(|r|, root), MirIx(|r|, n), MirIx(|r|, p));
  }

  lemma MirrorRedBlack(m: seq<Cell>, root: int)
    requires RedBlack(m, root)
    ensures RedBlack(Mirror(m), MirIx(|m|, root))
  {
    MirrorLinked(m, root);
    var r := Mirror(m);
    if m != [] {
      MirrorAt(m, root);
    }
    forall i | Has(r, i)
      ensures BalOk(r, i)
      ensures RedOk(r, i)
    {
      var k := |m| - 1 - i;
      MirrorBalOk(m, root, k);
      assert BalOk(m, k) && RedOk(m, k);
    }
  }

  lemma RedBlackByMirror(r: seq<Cell>, root: int)
    requires Ranged(r) && -1 <= root < |r| && RedBlack(Mirror(r), MirIx(|r|, root))
    ensures RedBlack(r, root)
  {
    MirrorRedBlack(Mirror(r), MirIx(|r|, root));
    MirrorMirror(r);
  }

  ghost predicate AtRight(m: seq<Cell>, root: int, n: int, p: int, o: int) {
    && Erasing(m, root, n, p) && !IsRed(m, n) && n != root
    && Has(m, p) && m[p].right == n && m[p].left == o
  }

  lemma MirrorAtRight(m: seq<Cell>, root: int, n: int, p: int, o: int)
    requires AtRight(m, root, n, p, o)
    ensures AtLeft(Mirror(m), MirIx(|m|, root), MirIx(|m|, n), MirIx(|m|, p), MirIx(|m|, o))
    ensures NodeOk(m, root, p) && Has(m, o) && o != p && NodeOk(m, root, o)
    ensures MirIx(|m|, o) != MirIx(|m|, p)
    ensures Mirror(m)[MirIx(|m|, o)] == MirCell(m, m[o]) && Mirror(m)[MirIx(|m|, p)] == MirCell(m, m[p])
  {
    MirrorErasing(m, root, n, p);
    MirrorArea(m, root, p);
    Sibling(m, root, n, p);
    if n != NIL {
      MirrorAt(m, n);
    }
    MirrorAt(m, o);
  }

  /** The turn, seen in the mirror. */
  lemma RedSiblingRightSeen(m: seq<Cell>, root: int, n: int, p: int, o: int)
    requires AtRight(m, root, n, p, o)
    ensures Has(m, o) && o != p
    ensures var r := TurnRight(m, p, true, m[p].bh - 1, false, m[p].bh);
            && |r| == |m| && Ranged(r) && -1 <= RotatedRoot(m, root, p, o) < |m|
            && MirIx(|m|, o) != MirIx(|m|, p) && Mirror(m)[MirIx(|m|, p)].right == MirIx(|m|, o)
            && Mirror(r) == RedSiblingTurned(Mirror(m), MirIx(|m|, p), MirIx(|m|, o))
  {
    MirrorAtRight(m, root, n, p, o);
    MirrorTurn(m, root, p, true, m[p].bh - 1, false, m[p].bh);
  }

  lemma RedSiblingRightMirrored(m: seq<Cell>, root: int, n: int, p: int, o: int)
    requires AtRight(m, root, n, p, o) && IsRed(m, o) && o != p
    ensures Erasing(Mirror(TurnRight(m, p, true, m[p].bh - 1, false, m[p].bh)),
            MirIx(|m|, RotatedRoot(m, root, p, o)), MirIx(|m|, n), MirIx(|m|, p))
  {
    MirrorAtRight(m, root, n, p, o);
    RedSiblingRightSeen(m, root, n, p, o);
    assert RotatedRoot(Mirror(m), MirIx(|m|, root), MirIx(|m|, p), MirIx(|m|, o))
           == MirIx(|m|, RotatedRoot(m, root, p, o));
    RedSiblingKeeps(Mirror(m), MirIx(|m|, root), MirIx(|m|, n), MirIx(|m|, p), MirIx(|m|, o));
  }

  lemma RedSiblingRightKeeps(m: seq<Cell>, root: int, n: int, p: int, o: int)
    requires AtRight(m, root, n, p, o) && IsRed(m, o)
    ensures Has(m, o) && o != p
    ensures Erasing(TurnRight(m, p, true, m[p].bh - 1, false, m[p].bh), RotatedRoot(m, root, p, o), n, p)
  {
    RedSiblingRightSeen(m, root, n, p, o);
    RedSiblingRightMirrored(m, root, n, p, o);
    var r := TurnRight(m, p, true, m[p].bh - 1, false, m[p].bh);
    ErasingByMirror(r, Mirror(r), RotatedRoot(m, root, p, o), n, p);
  }

  /** With a red sibling on the left: what the turn leaves next to n. */
  lemma RedSiblingRightArea(m: seq<Cell>, root: int, n: int, p: int, o: int)
    requires AtRight(m, root, n, p, o) && IsRed(m, o) && Has(m, o) && o != p
    ensures var r := TurnRight(m, p, true, m[p].bh - 1, false, m[p].bh);
            |r| == |m| && r[p].right == n && r[p].left == m[o].right && IsRed(r, p) && !IsRed(r, n)
              && !IsRed(r, m[o].right)
    ensures !IsRed(m, p) && Has(m, m[o].right) && n != RotatedRoot(m, root, p, o)
  {
    Sibling(m, root, n, p);
    Node(m, root, o);
    assert RedOk(m, o) && BalOk(m, o);
    if m[o].right != NIL {
      Node(m, root, m[o].right);
      assert RedOk(m, m[o].right);
    }
  }

  ghost predicate RedInnerRight(m: seq<Cell>, root: int, n: int, p: int, o: int, l: int) {
    && AtRight(m, root, n, p, o) && Has(m, o) && !m[o].red && o != p
    && m[o].right == l && l != o && IsRed(m, l) && !IsRed(m, m[o].left)
  }

  lemma InnerRightArea(m: seq<Cell>, root: int, n: int, p: int, o: int, l: int)
    requires RedInnerRight(m, root, n, p, o, l)
    ensures var r := TurnLeft(m, o, true, m[o].bh - 1, false, m[o].bh);
            |r| == |m| && r[p].right == n && r[p].left == l && r[l].left == o && IsRed(r, o) && !IsRed(r, l)
              && !IsRed(r, n)
    ensures m[o].parent == p
  {
    Sibling(m, root, n, p);
    Node(m, root, o);
    Node(m, root, l);
  }

  /** The mirror image of a left turn is a right turn. */
  lemma MirrorTurnBack(m: seq<Cell>, w: seq<Cell>, root: int, x: int, redx: bool, bhx: int, redy: bool, bhy: int)
    requires Linked(m, root) && Has(m, x) && m[x].right != NIL && w == Mirror(m)
    ensures Has(m, m[x].right) && m[x].right != x
    ensures w[MirIx(|m|, x)].left == MirIx(|m|, m[x].right)
    ensures TurnRight(w, MirIx(|m|, x), redx, bhx, redy, bhy) == Mirror(TurnLeft(m, x, redx, bhx, redy, bhy))
  {
    MirrorArea(m, root, x);
    MirrorLinked(m, root);
    LinkedRanged(m, root);
    MirrorMirror(m);
    assert Mirror(w) == m && MirIx(|w|, MirIx(|m|, x)) == x;
    MirrorTurn(w, MirIx(|m|, root), MirIx(|m|, x), redx, bhx, redy, bhy);
    MirrorMirror(TurnRight(w, MirIx(|m|, x), redx, bhx, redy, bhy));
  }

  lemma TurnLeftRanged(m: seq<Cell>, root: int, x: int, redx: bool, bhx: int, redy: bool, bhy: int)
    requires Linked(m, root) && Has(m, x) && m[x].right != NIL
    ensures Has(m, m[x].right) && m[x].right != x
    ensures Ranged(TurnLeft(m, x, redx, bhx, redy, bhy))
  {
    TurnLeftLinked(m, root, x, redx, bhx, redy, bhy);
    LinkedRanged(TurnLeft(m, x, redx, bhx, redy, bhy), RotatedRoot(m, root, x, m[x].right));
  }

  lemma InnerRightMirrored(m: seq<Cell>, root: int, n: int, p: int, o: int, l: int)
    requires RedInnerRight(m, root, n, p, o, l)
    ensures |TurnLeft(m, o, true, m[o].bh - 1, false, m[o].bh)| == |m|
    ensures Erasing(Mirror(TurnLeft(m, o, true, m[o].bh - 1, false, m[o].bh)), MirIx(|m|, root), MirIx(|m|, n),
            MirIx(|m|, p))
    ensures Ranged(TurnLeft(m, o, true, m[o].bh - 1, false, m[o].bh))
  {
    MirrorAtRight(m, root, n, p, o);
    MirrorArea(m, root, o);
    MirrorTurnBack(m, Mirror(m), root, o, true, m[o].bh - 1, false, m[o].bh);
    TurnLeftRanged(m, root, o, true, m[o].bh - 1, false, m[o].bh);
    InnerKeeps(Mirror(m), MirIx(|m|, root), MirIx(|m|, n), MirIx(|m|, p), MirIx(|m|, o), MirIx(|m|, l));
  }

  lemma InnerRightKeeps(m: seq<Cell>, root: int, n: int, p: int, o: int, l: int)
    requires RedInnerRight(m, root, n, p, o, l)
    ensures Erasing(TurnLeft(m, o, true, m[o].bh - 1, false, m[o].bh), root, n, p)
  {
    InnerRightMirrored(m, root, n, p, o, l);
    var r := TurnLeft(m, o, true, m[o].bh - 1, false, m[o].bh);
    ErasingByMirror(r, Mirror(r), root, n, p);
  }

  /** The inner red child has become the sibling, with a red child on the outer side. */
  lemma InnerRightTurned(m: seq<Cell>, root: int, n: int, p: int, o: int, l: int)
    requires RedInnerRight(m, root, n, p, o, l)
    ensures var r := TurnLeft(m, o, true, m[o].bh - 1, false, m[o].bh);
            AtRight(r, root, n, p, l) && !IsRed(r, l) && Has(r, l) && IsRed(r, r[l].left)
    ensures RotatedRoot(m, root, o, l) == root
  {
    InnerRightKeeps(m, root, n, p, o, l);
    InnerRightArea(m, root, n, p, o, l);
  }

  ghost predicate RedOuterRight(m: seq<Cell>, root: int, n: int, p: int, o: int, q: int) {
    && AtRight(m, root, n, p, o) && Has(m, o) && !m[o].red && o != p
    && m[o].left == q && q != o && q != p && IsRed(m, q)
  }

  ghost function OuterTurnedRight(m: seq<Cell>, p: int, o: int, q: int): seq<Cell>
    requires Has(m, p) && Has(m, o) && Has(m, q) && m[p].left == o && o != p && q != p && q != o
  {
    TurnRight(OuterPainted(m, q), p, false, m[o].bh, m[p].red, m[p].bh)
  }

  lemma OuterRightTurn(m: seq<Cell>, root: int, p: int, o: int, q: int)
    requires Linked(m, root) && Has(m, p) && Has(m, o) && Has(m, q) && m[p].left == o && o != p && q != p && q != o
    ensures Mirror(m)[MirIx(|m|, p)].right == MirIx(|m|, o)
    ensures Ranged(OuterTurnedRight(m, p, o, q))
    ensures OuterTurned(Mirror(m), MirIx(|m|, p), MirIx(|m|, o), MirIx(|m|, q)) == Mirror(OuterTurnedRight(m, p, o, q))
  {
    MirrorAt(m, p);
    MirrorAt(m, o);
    MirrorAt(m, q);
    MirrorPaint(m, q, false, m[q].bh + 1);
    PaintLinked(m, root, q, false, m[q].bh + 1);
    var w := OuterPainted(m, q);
    assert Mirror(w) == OuterPainted(Mirror(m), MirIx(|m|, q));
    MirrorTurn(w, root, p, false, m[o].bh, m[p].red, m[p].bh);
  }

  lemma MirrorRedOuter(m: seq<Cell>, root: int, n: int, p: int, o: int, q: int)
    requires RedOuterRight(m, root, n, p, o, q)
    ensures RedOuter(Mirror(m), MirIx(|m|, root), MirIx(|m|, n), MirIx(|m|, p), MirIx(|m|, o), MirIx(|m|, q))
  {
    MirrorAtRight(m, root, n, p, o);
    MirrorAt(m, q);
  }

  lemma OuterRightMirrored(m: seq<Cell>, root: int, n: int, p: int, o: int, q: int)
    requires RedOuterRight(m, root, n, p, o, q)
    ensures RedBlack(Mirror(OuterTurnedRight(m, p, o, q)), MirIx(|m|, RotatedRoot(m, root, p, o)))
  {
    OuterRightTurn(m, root, p, o, q);
    MirrorRedOuter(m, root, n, p, o, q);
    MirrorArea(m, root, p);
    OuterEnds(Mirror(m), MirIx(|m|, root), MirIx(|m|, n), MirIx(|m|, p), MirIx(|m|, o), MirIx(|m|, q));
  }

  lemma OuterRightEnds(m: seq<Cell>, root: int, n: int, p: int, o: int, q: int)
    requires RedOuterRight(m, root, n, p, o, q)
    ensures RedBlack(OuterTurnedRight(m, p, o, q), RotatedRoot(m, root, p, o))
  {
    OuterRightMirrored(m, root, n, p, o, q);
    OuterRightTurn(m, root, p, o, q);
    RedBlackByMirror(OuterTurnedRight(m, p, o, q), RotatedRoot(m, root, p, o));
  }

  // ---------------------------------------------------------------- progress

  /** The number of nodes below n, and n. */
  ghost function Width(m: seq<Cell>, n: int): int {
    if Has(m, n) then m[n].hi - m[n].lo else 0
  }

  lemma Wider(m: seq<Cell>, root: int, n: int, p: int)
    requires Linked(m, root) && Has(m, p) && (m[p].left == n || m[p].right == n)
    ensures 0 <= Width(m, n) < Width(m, p) <= |m|
  {
    Node(m, root, p);
    if n != NIL {
      Node(m, root, n);
    }
  }

  lemma NephewsWidth(m: seq<Cell>, p: int, o: int, i: int)
    requires Has(m, p) && Has(m, o)
    ensures Width(NephewsPainted(m, p, o), i) == Width(m, i)
  {
  }

  lemma RedSiblingWidth(m: seq<Cell>, root: int, n: int, p: int, o: int)
    requires Linked(m, root) && Has(m, p) && Has(m, o) && o != p && n != p && n != o
    ensures m[p].right == o ==> Width(RedSiblingTurned(m, p, o), n) == Width(m, n)
    ensures m[p].left == o ==> Width(TurnRight(m, p, true, m[p].bh - 1, false, m[p].bh), n) == Width(m, n)
  {
  }

  /** The black-nephews case leads one level up. */
  lemma NephewsUp(m: seq<Cell>, root: int, n: int, p: int, o: int, w: seq<Cell>)
    requires BlackNephews(m, root, n, p, o) && w == NephewsPainted(m, p, o)
    ensures Erasing(w, root, p, m[p].parent) && Width(m, n) < Width(w, p) <= |m|
    ensures o != p && |w| == |m| && w[p].parent == m[p].parent
  {
    NephewsKeeps(m, root, n, p, o);
    Sibling(m, root, n, p);
    Wider(m, root, n, p);
    NephewsWidth(m, p, o, p);
  }

  /** The red-sibling cases lead to a black sibling. */
  lemma RedSiblingLeftTurn(m: seq<Cell>, root: int, n: int, p: int, o: int)
    requires AtLeft(m, root, n, p, o) && IsRed(m, o)
    ensures Has(m, o) && o != p
    ensures var w := RedSiblingTurned(m, p, o);
            && AtLeft(w, RotatedRoot(m, root, p, o), n, p, m[o].left) && !IsRed(w, m[o].left) && w[p].right == m[o].left
            && Width(w, n) == Width(m, n)
  {
    RedSiblingKeeps(m, root, n, p, o);
    Sibling(m, root, n, p);
    RedSiblingWidth(m, root, n, p, o);
  }

  lemma RedSiblingRightTurn(m: seq<Cell>, root: int, n: int, p: int, o: int)
    requires AtRight(m, root, n, p, o) && IsRed(m, o)
    ensures Has(m, o) && o != p
    ensures var w := TurnRight(m, p, true, m[p].bh - 1, false, m[p].bh);
            && AtRight(w, RotatedRoot(m, root, p, o), n, p, m[o].right) && !IsRed(w, m[o].right)
               && w[p].left == m[o].right
            && Width(w, n) == Width(m, n)
  {
    RedSiblingRightKeeps(m, root, n, p, o);
    RedSiblingRightArea(m, root, n, p, o);
    Sibling(m, root, n, p);
    RedSiblingWidth(m, root, n, p, o);
  }

  /** A black sibling with a red child: the two ways the last case starts. */
  lemma SiblingArea(m: seq<Cell>, root: int, n: int, p: int, o: int)
    requires AtLeft(m, root, n, p, o) || AtRight(m, root, n, p, o)
    ensures Has(m, o) && o != p && NodeOk(m, root, o)
    ensures m[o].left != o && m[o].right != o && m[o].left != p && m[o].right != p
    ensures m[o].left == NIL || Has(m, m[o].left)
    ensures m[o].right == NIL || Has(m, m[o].right)
  {
    Sibling(m, root, n, p);
  }
}
