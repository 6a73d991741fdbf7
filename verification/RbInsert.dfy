/** What each case of `rb_insert_color` does to the shape of the tree. */
module RbInsert {
  import opened RbShape

  /** The loop invariant of `rb_insert_color`: everything is in order, except that n is red and may
      have a red parent (or be a red root). */
  ghost predicate Inserting(m: seq<Cell>, root: int, n: int) {
    && Linked(m, root)
    && Balanced(m)
    && IsRed(m, n)
    && (forall i {:trigger RedOk(m, i)} :: Has(m, i) && i != n ==> RedOk(m, i))
    && (IsRed(m, root) ==> root == n)
  }

  /** A red parent has a parent, which is black: the grandparent is never missing. */
  lemma Grandparent(m: seq<Cell>, root: int, n: int)
    requires Inserting(m, root, n) && IsRed(m, m[n].parent)
    ensures NodeOk(m, root, n) && NodeOk(m, root, m[n].parent)
    ensures m[n].parent != n && m[m[n].parent].parent != NIL
    ensures Has(m, m[m[n].parent].parent) && NodeOk(m, root, m[m[n].parent].parent)
    ensures !IsRed(m, m[m[n].parent].parent)
  {
    Node(m, root, n);
    var p := m[n].parent;
    Node(m, root, p);
    assert RedOk(m, p);
    Node(m, root, m[p].parent);
  }

  /** The other child of p's parent. */
  ghost function Uncle(m: seq<Cell>, p: int): int
    requires Has(m, p) && Has(m, m[p].parent)
  {
    var g := m[p].parent;
    if m[g].left == p then m[g].right else m[g].left
  }

  /** Red uncle: blacken parent and uncle, redden the grandparent. */
  ghost function Recoloured(m: seq<Cell>, p: int, u: int, g: int): seq<Cell>
    requires Has(m, p) && Has(m, u) && Has(m, g)
  {
    Paint(Paint(Paint(m, u, false, m[u].bh + 1), p, false, m[p].bh + 1), g, true, m[g].bh)
  }

  lemma RecolouredBalOk(m: seq<Cell>, root: int, n: int, p: int, g: int, u: int, i: int)
    requires Inserting(m, root, n) && IsRed(m, m[n].parent)
    requires p == m[n].parent && g == m[p].parent && Has(m, g) && u == Uncle(m, p) && IsRed(m, u)
    requires Has(m, i)
    ensures BalOk(Recoloured(m, p, u, g), i)
  {
    Grandparent(m, root, n);
    Node(m, root, i);
    Node(m, root, u);
    assert BalOk(m, i);
    var r := Recoloured(m, p, u, g);
    if i == g {
      assert BhOf(r, p) == m[p].bh + 1 && BhOf(r, u) == m[u].bh + 1;
    } else {
      assert m[i].left != p && m[i].left != u && BhOf(r, m[i].left) == BhOf(m, m[i].left);
      assert m[i].right != p && m[i].right != u && BhOf(r, m[i].right) == BhOf(m, m[i].right);
    }
  }

  lemma RecolouredRedOk(m: seq<Cell>, root: int, n: int, p: int, g: int, u: int, i: int)
    requires Inserting(m, root, n) && IsRed(m, m[n].parent)
    requires p == m[n].parent && g == m[p].parent && Has(m, g) && u == Uncle(m, p) && IsRed(m, u)
    requires Has(m, i) && i != g
    ensures RedOk(Recoloured(m, p, u, g), i)
  {
    Grandparent(m, root, n);
    Node(m, root, i);
    Node(m, root, u);
    assert i != n ==> RedOk(m, i);
  }

  lemma RecolourKeeps(m: seq<Cell>, root: int, n: int, p: int, g: int, u: int)
    requires Inserting(m, root, n) && IsRed(m, m[n].parent)
    requires p == m[n].parent && g == m[p].parent && Has(m, g) && u == Uncle(m, p) && IsRed(m, u)
    ensures Inserting(Recoloured(m, p, u, g), root, g)
  {
    Grandparent(m, root, n);
    var r := Recoloured(m, p, u, g);
    var m1 := Paint(m, u, false, m[u].bh + 1);
    var m2 := Paint(m1, p, false, m[p].bh + 1);
    PaintLinked(m, root, u, false, m[u].bh + 1);
    PaintLinked(m1, root, p, false, m[p].bh + 1);
    PaintLinked(m2, root, g, true, m[g].bh);
    forall i | Has(r, i)
      ensures BalOk(r, i)
    {
      RecolouredBalOk(m, root, n, p, g, u, i);
    }
    forall i | Has(r, i) && i != g
      ensures RedOk(r, i)
    {
      RecolouredRedOk(m, root, n, p, g, u, i);
    }
  }

  lemma PaintSame(m: seq<Cell>, i: int)
    requires Has(m, i)
    ensures Paint(m, i, m[i].red, m[i].bh) == m
  {
  }

  /** Inner case: n is the right child of its red parent p; rotate left at p. */
  ghost predicate InnerLeft(m: seq<Cell>, root: int, n: int, p: int) {
    Inserting(m, root, n) && IsRed(m, p) && p == m[n].parent && m[p].right == n
  }

  lemma InnerLeftNode(m: seq<Cell>, root: int, n: int, p: int, i: int)
    requires InnerLeft(m, root, n, p) && Has(m, i)
    ensures |RotateLeft(m, p)| == |m| && BalOk(RotateLeft(m, p), i)
    ensures i != p ==> RedOk(RotateLeft(m, p), i)
  {
    Grandparent(m, root, n);
    Node(m, root, i);
    PaintSame(m, p);
    PaintSame(m, n);
    assert BalOk(m, p) && BalOk(m, n) && BalOk(m, i);
    assert i != n ==> RedOk(m, i);
    if i == p || i == n {
      TurnLeftTopOk(m, root, p, m[p].red, m[p].bh, m[n].red, m[n].bh);
    } else {
      TurnLeftBalOk(m, root, p, m[p].red, m[p].bh, m[n].red, m[n].bh, i);
    }
  }

  lemma InnerLeftKeeps(m: seq<Cell>, root: int, n: int, p: int, g: int)
    requires InnerLeft(m, root, n, p) && g == m[p].parent
    ensures Inserting(RotateLeft(m, p), root, p)
    ensures Has(m, g) && IsRed(RotateLeft(m, p), n) && RotateLeft(m, p)[p].parent == n
            && RotateLeft(m, p)[n].parent == g
    ensures RotateLeft(m, p)[n].left == p
    ensures m[g].left == p ==> RotateLeft(m, p)[g].left == n && RotateLeft(m, p)[g].right == m[g].right
    ensures m[g].left != p ==> RotateLeft(m, p)[g].right == n && RotateLeft(m, p)[g].left == m[g].left
    ensures forall i :: IsRed(RotateLeft(m, p), i) == IsRed(m, i)
  {
    Grandparent(m, root, n);
    RotateLeftLinked(m, root, p);
    var r := RotateLeft(m, p);
    forall i | Has(r, i)
      ensures BalOk(r, i)
      ensures i != p ==> RedOk(r, i)
    {
      InnerLeftNode(m, root, n, p, i);
    }
  }

  /** Outer case: n and its red parent p are both right children and the uncle is black; recolour and
      rotate left at the grandparent g. */
  ghost predicate OuterLeft(m: seq<Cell>, root: int, n: int, p: int, g: int) {
    && Inserting(m, root, n) && IsRed(m, p) && p == m[n].parent && m[p].right == n
    && Has(m, g) && g == m[p].parent && m[g].right == p && g != p && !IsRed(m, m[g].left)
  }

  ghost function OuterTurned(m: seq<Cell>, p: int, g: int): seq<Cell>
    requires Has(m, p) && Has(m, g) && m[g].right == p && g != p
  {
    TurnLeft(m, g, true, m[p].bh, false, m[g].bh)
  }

  lemma OuterLeftNode(m: seq<Cell>, root: int, n: int, p: int, g: int, i: int)
    requires OuterLeft(m, root, n, p, g) && Has(m, i)
    ensures |OuterTurned(m, p, g)| == |m| && BalOk(OuterTurned(m, p, g), i)
    ensures RedOk(OuterTurned(m, p, g), i)
  {
    Grandparent(m, root, n);
    assert BalOk(m, g) && BalOk(m, p) && BalOk(m, i);
    assert i != n ==> RedOk(m, i);
    if i == g || i == p {
      TurnLeftTopOk(m, root, g, true, m[p].bh, false, m[g].bh);
    } else {
      TurnLeftBalOk(m, root, g, true, m[p].bh, false, m[g].bh, i);
    }
    Node(m, root, i);
  }

  lemma OuterLeftKeeps(m: seq<Cell>, root: int, n: int, p: int, g: int)
    requires OuterLeft(m, root, n, p, g)
    ensures Inserting(OuterTurned(m, p, g), RotatedRoot(m, root, g, p), n)
    ensures OuterTurned(m, p, g)[n].parent == p && !IsRed(OuterTurned(m, p, g), p)
  {
    Grandparent(m, root, n);
    TurnLeftLinked(m, root, g, true, m[p].bh, false, m[g].bh);
    var r := OuterTurned(m, p, g);
    forall i | Has(r, i)
      ensures BalOk(r, i)
      ensures RedOk(r, i)
    {
      OuterLeftNode(m, root, n, p, g, i);
    }
  }

  // ---------------------------------------------------------------- the mirrored cases

  lemma MirrorInserting(m: seq<Cell>, root: int, n: int)
    requires Inserting(m, root, n)
    ensures Inserting(Mirror(m), MirIx(|m|, root), MirIx(|m|, n))
  {
    MirrorLinked(m, root);
    var r := Mirror(m);
    MirrorAt(m, n);
    MirrorAt(m, root);
    forall i | Has(r, i)
      ensures BalOk(r, i)
      ensures i != MirIx(|m|, n) ==> RedOk(r, i)
    {
      var k := |m| - 1 - i;
      MirrorBalOk(m, root, k);
      assert BalOk(m, k) && (k != n ==> RedOk(m, k));
    }
  }

  lemma InsertingByMirror(r: seq<Cell>, w: seq<Cell>, root: int, n: int)
    requires Ranged(r) && -1 <= root < |r| && -1 <= n < |r| && w == Mirror(r)
    requires Inserting(w, MirIx(|r|, root), MirIx(|r|, n))
    ensures Inserting(r, root, n)
  {
    MirrorMirror(r);
    assert r == Mirror(w) && root == MirIx(|w|, MirIx(|r|, root)) && n == MirIx(|w|, MirIx(|r|, n));
    MirrorInserting(w, MirIx(|r|, root), MirIx(|r|, n));
  }

  ghost predicate InnerRight(m: seq<Cell>, root: int, n: int, p: int) {
    Inserting(m, root, n) && IsRed(m, p) && p == m[n].parent && m[p].left == n
  }

  lemma InnerRightMirrored(m: seq<Cell>, root: int, n: int, p: int)
    requires InnerRight(m, root, n, p)
    ensures Inserting(Mirror(RotateRight(m, p)), MirIx(|m|, root), MirIx(|m|, p))
  {
    Grandparent(m, root, n);
    MirrorInserting(m, root, n);
    MirrorRotate(m, root, p);
    MirrorAt(m, n);
    MirrorAt(m, p);
    InnerLeftKeeps(Mirror(m), MirIx(|m|, root), MirIx(|m|, n), MirIx(|m|, p), MirIx(|m|, m[p].parent));
  }

  lemma InnerRightKeeps(m: seq<Cell>, root: int, n: int, p: int, g: int)
    requires InnerRight(m, root, n, p) && g == m[p].parent
    ensures Inserting(RotateRight(m, p), root, p)
    ensures Has(m, g) && IsRed(RotateRight(m, p), n) && RotateRight(m, p)[p].parent == n
            && RotateRight(m, p)[n].parent == g
    ensures RotateRight(m, p)[n].right == p
    ensures m[g].right == p ==> RotateRight(m, p)[g].right == n && RotateRight(m, p)[g].left == m[g].left
    ensures forall i :: IsRed(RotateRight(m, p), i) == IsRed(m, i)
  {
    Grandparent(m, root, n);
    InnerRightMirrored(m, root, n, p);
    LinkedRanged(m, root);
    RotateRightRanged(m, p);
    InsertingByMirror(RotateRight(m, p), Mirror(RotateRight(m, p)), root, p);
  }

  ghost predicate OuterRight(m: seq<Cell>, root: int, n: int, p: int, g: int) {
    && Inserting(m, root, n) && IsRed(m, p) && p == m[n].parent && m[p].left == n
    && Has(m, g) && g == m[p].parent && m[g].left == p && g != p && !IsRed(m, m[g].right)
  }

  lemma OuterRightMirrored(m: seq<Cell>, root: int, n: int, p: int, g: int)
    requires OuterRight(m, root, n, p, g)
    ensures Inserting(Mirror(TurnRight(m, g, true, m[p].bh, false, m[g].bh)), MirIx(|m|, RotatedRoot(m, root, g, p)),
            MirIx(|m|, n))
  {
    Grandparent(m, root, n);
    MirrorInserting(m, root, n);
    MirrorTurn(m, root, g, true, m[p].bh, false, m[g].bh);
    MirrorArea(m, root, n);
    MirrorArea(m, root, p);
    MirrorArea(m, root, g);
    OuterLeftKeeps(Mirror(m), MirIx(|m|, root), MirIx(|m|, n), MirIx(|m|, p), MirIx(|m|, g));
  }

  lemma OuterRightTop(m: seq<Cell>, root: int, n: int, p: int, g: int)
    requires OuterRight(m, root, n, p, g)
    ensures |TurnRight(m, g, true, m[p].bh, false, m[g].bh)| == |m|
    ensures TurnRight(m, g, true, m[p].bh, false, m[g].bh)[n].parent == p
    ensures !IsRed(TurnRight(m, g, true, m[p].bh, false, m[g].bh), p)
  {
    Grandparent(m, root, n);
  }

  lemma OuterRightKeeps(m: seq<Cell>, root: int, n: int, p: int, g: int)
    requires OuterRight(m, root, n, p, g)
    ensures Inserting(TurnRight(m, g, true, m[p].bh, false, m[g].bh), RotatedRoot(m, root, g, p), n)
  {
    Grandparent(m, root, n);
    OuterRightMirrored(m, root, n, p, g);
    MirrorTurn(m, root, g, true, m[p].bh, false, m[g].bh);
    var r := TurnRight(m, g, true, m[p].bh, false, m[g].bh);
    InsertingByMirror(r, Mirror(r), RotatedRoot(m, root, g, p), n);
  }

  /** When the parent of n is not red, blackening the root ends the insertion. */
  ghost function Finished(m: seq<Cell>, root: int): seq<Cell>
    requires Has(m, root)
  {
    Paint(m, root, false, if m[root].red then m[root].bh + 1 else m[root].bh)
  }

  lemma FinishedRedBlack(m: seq<Cell>, root: int, n: int)
    requires Inserting(m, root, n) && !IsRed(m, m[n].parent)
    ensures Has(m, root) && RedBlack(Finished(m, root), root)
  {
    Node(m, root, n);
    var r := Finished(m, root);
    PaintLinked(m, root, root, false, if m[root].red then m[root].bh + 1 else m[root].bh);
    forall i | Has(r, i)
      ensures BalOk(r, i)
      ensures RedOk(r, i)
    {
      Node(m, root, i);
      assert BalOk(m, i) && (i != n ==> RedOk(m, i));
      assert m[i].left != root && m[i].right != root;
    }
  }
}
