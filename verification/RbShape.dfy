/** Values that describe a linked red-black tree: node i is the i-th node in order, links are
    indices, and every node is labelled with the interval of positions its subtree covers and
    with its black height.  "Is a red-black tree with this in-order sequence" is then a
    condition on each node and its neighbours. */
module RbShape {
  const NIL := -1

  /** left, right, parent and red are the fields of `struct rb_node`; the subtree at the node
      holds the positions lo..hi and has black height bh. */
  datatype Cell = Cell(left: int, right: int, parent: int, red: bool, lo: int, hi: int, bh: int)

  ghost predicate Has(m: seq<Cell>, i: int) {
    0 <= i < |m|
  }

  ghost function BhOf(m: seq<Cell>, i: int): int {
    if Has(m, i) then m[i].bh else 0
  }

  ghost predicate IsRed(m: seq<Cell>, i: int) {
    Has(m, i) && m[i].red
  }

  ghost predicate LeftOk(m: seq<Cell>, i: int)
    requires Has(m, i)
  {
    if m[i].left == NIL then m[i].lo == i
    else Has(m, m[i].left) && m[m[i].left].parent == i && m[m[i].left].lo == m[i].lo < i && m[m[i].left].hi == i
  }

  ghost predicate RightOk(m: seq<Cell>, i: int)
    requires Has(m, i)
  {
    if m[i].right == NIL then m[i].hi == i + 1
    else
      && Has(m, m[i].right) && m[m[i].right].parent == i
      && m[m[i].right].lo == i + 1 < m[i].hi && m[m[i].right].hi == m[i].hi
  }

  ghost predicate ParentOk(m: seq<Cell>, root: int, i: int)
    requires Has(m, i)
  {
    if m[i].parent == NIL then i == root
    else Has(m, m[i].parent) && (m[m[i].parent].left == i || m[m[i].parent].right == i)
  }

  ghost predicate NodeOk(m: seq<Cell>, root: int, i: int)
    requires Has(m, i)
  {
    && 0 <= m[i].lo <= i < m[i].hi <= |m|
    && LeftOk(m, i)
    && RightOk(m, i)
    && ParentOk(m, root, i)
  }

  ghost predicate RootOk(m: seq<Cell>, root: int) {
    if m == [] then root == NIL
    else Has(m, root) && m[root].parent == NIL && m[root].lo == 0 && m[root].hi == |m|
  }

  /** The links form a binary tree whose in-order sequence is 0, 1, ..., |m|-1. */
  ghost predicate Linked(m: seq<Cell>, root: int) {
    RootOk(m, root) && forall i {:trigger NodeOk(m, root, i)} :: Has(m, i) ==> NodeOk(m, root, i)
  }

  /** Both subtrees of i have the same black height. */
  ghost predicate BalOk(m: seq<Cell>, i: int)
    requires Has(m, i)
  {
    && BhOf(m, m[i].left) == BhOf(m, m[i].right) >= 0
    && m[i].bh == BhOf(m, m[i].left) + (if m[i].red then 0 else 1)
  }

  ghost predicate Balanced(m: seq<Cell>) {
    forall i {:trigger BalOk(m, i)} :: Has(m, i) ==> BalOk(m, i)
  }

  /** No red-red edge above i. */
  ghost predicate RedOk(m: seq<Cell>, i: int) {
    IsRed(m, i) ==> !IsRed(m, m[i].parent)
  }

  /** A red-black tree. */
  ghost predicate RedBlack(m: seq<Cell>, root: int) {
    && Linked(m, root)
    && Balanced(m)
    && (forall i {:trigger RedOk(m, i)} :: Has(m, i) ==> RedOk(m, i))
    && !IsRed(m, root)
  }

  // ---------------------------------------------------------------- rotations

  /** Node i after `__rb_rotate_left` at x, whose right child is y. */
  ghost function RotLCell(m: seq<Cell>, x: int, y: int, i: int): Cell
    requires Has(m, x) && Has(m, y) && Has(m, i)
  {
    var p := m[x].parent;
    Cell(if i == y then x else if i == p && m[p].left == x then y else m[i].left,
         if i == x then m[y].left else if i == p && m[p].left != x then y else m[i].right,
         if i == x then y else if i == y then p else if i == m[y].left then x else m[i].parent,
         m[i].red,
         if i == y then m[x].lo else m[i].lo,
         if i == x then y else m[i].hi,
         m[i].bh)
  }

  ghost function RotateLeft(m: seq<Cell>, x: int): (r: seq<Cell>)
    requires Has(m, x) && Has(m, m[x].right)
  {
    seq(|m|, i requires Has(m, i) => RotLCell(m, x, m[x].right, i))
  }

  ghost function RotatedRoot(m: seq<Cell>, root: int, x: int, y: int): int
    requires Has(m, x)
  {
    if m[x].parent == NIL then y else root
  }

  lemma Node(m: seq<Cell>, root: int, i: int)
    requires Linked(m, root) && Has(m, i)
    ensures NodeOk(m, root, i)
  {
  }

  /** The neighbourhood of a rotation: x, its right child y, y's left child and x's parent. */
  lemma RotateLeftArea(m: seq<Cell>, root: int, x: int)
    requires Linked(m, root) && Has(m, x) && m[x].right != NIL
    ensures NodeOk(m, root, x) && Has(m, m[x].right) && NodeOk(m, root, m[x].right)
    ensures m[m[x].right].left != NIL ==> NodeOk(m, root, m[m[x].right].left)
    ensures m[x].parent != NIL ==> NodeOk(m, root, m[x].parent)
  {
    Node(m, root, x);
    Node(m, root, m[x].right);
  }

  lemma RotateLeftLeftOk(m: seq<Cell>, root: int, x: int, i: int)
    requires Linked(m, root) && Has(m, x) && m[x].right != NIL && Has(m, i)
    ensures Has(m, m[x].right)
    ensures LeftOk(RotateLeft(m, x), i)
  {
    RotateLeftArea(m, root, x);
    Node(m, root, i);
  }

  lemma RotateLeftRightOk(m: seq<Cell>, root: int, x: int, i: int)
    requires Linked(m, root) && Has(m, x) && m[x].right != NIL && Has(m, i)
    ensures Has(m, m[x].right)
    ensures RightOk(RotateLeft(m, x), i)
  {
    RotateLeftArea(m, root, x);
    Node(m, root, i);
  }

  lemma RotateLeftParentOk(m: seq<Cell>, root: int, x: int, i: int)
    requires Linked(m, root) && Has(m, x) && m[x].right != NIL && Has(m, i)
    ensures Has(m, m[x].right)
    ensures ParentOk(RotateLeft(m, x), RotatedRoot(m, root, x, m[x].right), i)
  {
    RotateLeftArea(m, root, x);
    Node(m, root, i);
  }

  lemma RotateLeftLinked(m: seq<Cell>, root: int, x: int)
    requires Linked(m, root) && Has(m, x) && m[x].right != NIL
    ensures Has(m, m[x].right)
    ensures Linked(RotateLeft(m, x), RotatedRoot(m, root, x, m[x].right))
  {
    RotateLeftArea(m, root, x);
    var r, root' := RotateLeft(m, x), RotatedRoot(m, root, x, m[x].right);
    forall i | Has(r, i)
      ensures NodeOk(r, root', i)
    {
      Node(m, root, i);
      RotateLeftLeftOk(m, root, x, i);
      RotateLeftRightOk(m, root, x, i);
      RotateLeftParentOk(m, root, x, i);
    }
  }

  /** Node i after `__rb_rotate_right` at x, whose left child is y. */
  ghost function RotRCell(m: seq<Cell>, x: int, y: int, i: int): Cell
    requires Has(m, x) && Has(m, y) && Has(m, i)
  {
    var p := m[x].parent;
    Cell(if i == x then m[y].right else if i == p && m[p].right != x then y else m[i].left,
         if i == y then x else if i == p && m[p].right == x then y else m[i].right,
         if i == x then y else if i == y then p else if i == m[y].right then x else m[i].parent,
         m[i].red,
         if i == x then y + 1 else m[i].lo,
         if i == y then m[x].hi else m[i].hi,
         m[i].bh)
  }

  ghost function RotateRight(m: seq<Cell>, x: int): (r: seq<Cell>)
    requires Has(m, x) && Has(m, m[x].left)
  {
    seq(|m|, i requires Has(m, i) => RotRCell(m, x, m[x].left, i))
  }

  // ---------------------------------------------------------------- mirror images

  ghost function MirIx(len: nat, i: int): int {
    if i == NIL then NIL else len - 1 - i
  }

  ghost function MirCell(m: seq<Cell>, c: Cell): Cell {
    Cell(MirIx(|m|, c.right), MirIx(|m|, c.left), MirIx(|m|, c.parent), c.red, |m| - c.hi, |m| - c.lo, c.bh)
  }

  /** The tree read from right to left. */
  ghost function Mirror(m: seq<Cell>): (r: seq<Cell>)
    ensures |r| == |m|
  {
    seq(|m|, i requires Has(m, i) => MirCell(m, m[|m| - 1 - i]))
  }

  lemma MirrorAt(m: seq<Cell>, i: int)
    requires Has(m, i)
    ensures MirIx(|m|, MirIx(|m|, i)) == i
    ensures Mirror(m)[MirIx(|m|, i)] == MirCell(m, m[i])
  {
  }

  /** Node i, its neighbours, and their mirror images. */
  lemma MirrorArea(m: seq<Cell>, root: int, i: int)
    requires Linked(m, root) && Has(m, i)
    ensures NodeOk(m, root, i)
    ensures Mirror(m)[MirIx(|m|, i)] == MirCell(m, m[i])
    ensures m[i].left != NIL ==> Mirror(m)[MirIx(|m|, m[i].left)] == MirCell(m, m[m[i].left])
    ensures m[i].right != NIL ==> Mirror(m)[MirIx(|m|, m[i].right)] == MirCell(m, m[m[i].right])
    ensures m[i].parent != NIL ==> Mirror(m)[MirIx(|m|, m[i].parent)] == MirCell(m, m[m[i].parent])
  {
    Node(m, root, i);
    MirrorAt(m, i);
    if m[i].left != NIL {
      MirrorAt(m, m[i].left);
    }
    if m[i].right != NIL {
      MirrorAt(m, m[i].right);
    }
    if m[i].parent != NIL {
      MirrorAt(m, m[i].parent);
    }
  }

  lemma MirrorNode(m: seq<Cell>, root: int, i: int)
    requires Linked(m, root) && Has(m, i)
    ensures NodeOk(Mirror(m), MirIx(|m|, root), MirIx(|m|, i))
  {
    MirrorArea(m, root, i);
  }

  lemma MirrorLinked(m: seq<Cell>, root: int)
    requires Linked(m, root)
    ensures Linked(Mirror(m), MirIx(|m|, root))
  {
    var r, root' := Mirror(m), MirIx(|m|, root);
    if m != [] {
      MirrorAt(m, root);
    }
    forall i | Has(r, i)
      ensures NodeOk(r, root', i)
    {
      MirrorNode(m, root, |m| - 1 - i);
    }
  }

  ghost predicate Ranged(m: seq<Cell>) {
    forall i {:trigger m[i]} :: Has(m, i) ==> -1 <= m[i].left < |m| && -1 <= m[i].right < |m| && -1 <= m[i].parent < |m|
  }

  lemma MirrorMirror(m: seq<Cell>)
    requires Ranged(m)
    ensures Mirror(Mirror(m)) == m
  {
    var r := Mirror(Mirror(m));
    forall i | Has(m, i)
      ensures r[i] == m[i]
    {
      MirrorAt(m, i);
      assert r[i] == MirCell(Mirror(m), Mirror(m)[|m| - 1 - i]);
    }
  }

  lemma LinkedRanged(m: seq<Cell>, root: int)
    requires Linked(m, root)
    ensures Ranged(m)
  {
    forall i | Has(m, i)
      ensures -1 <= m[i].left < |m| && -1 <= m[i].right < |m| && -1 <= m[i].parent < |m|
    {
      Node(m, root, i);
    }
  }

  lemma MirrorBalOk(m: seq<Cell>, root: int, i: int)
    requires Linked(m, root) && Has(m, i)
    ensures BalOk(Mirror(m), MirIx(|m|, i)) <==> BalOk(m, i)
    ensures RedOk(Mirror(m), MirIx(|m|, i)) <==> RedOk(m, i)
  {
    MirrorArea(m, root, i);
  }

  lemma MirrorRotateAt(m: seq<Cell>, root: int, x: int, y: int, k: int)
    requires Linked(m, root) && Has(m, x) && m[x].left == y != NIL && Has(m, k)
    ensures Has(m, y)
    ensures RotLCell(Mirror(m), MirIx(|m|, x), MirIx(|m|, y), MirIx(|m|, k)) == MirCell(m, RotRCell(m, x, y, k))
  {
    MirrorArea(m, root, x);
    MirrorAt(m, k);
    MirrorArea(m, root, y);
    var p := m[x].parent;
    assert p != NIL ==> NodeOk(m, root, p);
    assert p != NIL ==> (m[p].left == x <==> m[p].right != x);
  }

  lemma MirrorRotate(m: seq<Cell>, root: int, x: int)
    requires Linked(m, root) && Has(m, x) && m[x].left != NIL
    ensures Has(m, m[x].left)
    ensures Has(Mirror(m), MirIx(|m|, x)) && Mirror(m)[MirIx(|m|, x)].right == MirIx(|m|, m[x].left)
    ensures Has(Mirror(m), MirIx(|m|, m[x].left))
    ensures RotateLeft(Mirror(m), MirIx(|m|, x)) == Mirror(RotateRight(m, x))
  {
    MirrorArea(m, root, x);
    var r := RotateRight(m, x);
    var a, b := RotateLeft(Mirror(m), MirIx(|m|, x)), Mirror(r);
    forall i | Has(a, i)
      ensures a[i] == b[i]
    {
      MirrorRotateAt(m, root, x, m[x].left, |m| - 1 - i);
      MirrorAt(r, |m| - 1 - i);
    }
  }

  lemma RotateRightRanged(m: seq<Cell>, x: int)
    requires Ranged(m) && Has(m, x) && Has(m, m[x].left)
    ensures Ranged(RotateRight(m, x))
  {
  }

  lemma RotateRightMirrored(m: seq<Cell>, root: int, x: int, y: int)
    requires Linked(m, root) && Has(m, x) && m[x].left == y != NIL
    ensures Has(m, y)
    ensures Linked(Mirror(RotateRight(m, x)), MirIx(|m|, RotatedRoot(m, root, x, y)))
  {
    Node(m, root, x);
    MirrorRotate(m, root, x);
    MirrorAt(m, x);
    MirrorLinked(m, root);
    RotateLeftLinked(Mirror(m), MirIx(|m|, root), MirIx(|m|, x));
  }

  lemma RotateRightLinked(m: seq<Cell>, root: int, x: int)
    requires Linked(m, root) && Has(m, x) && m[x].left != NIL
    ensures Has(m, m[x].left)
    ensures Linked(RotateRight(m, x), RotatedRoot(m, root, x, m[x].left))
  {
    Node(m, root, x);
    var r, root' := RotateRight(m, x), RotatedRoot(m, root, x, m[x].left);
    RotateRightMirrored(m, root, x, m[x].left);
    LinkedRanged(m, root);
    RotateRightRanged(m, x);
    MirrorMirror(r);
    MirrorLinked(Mirror(r), MirIx(|m|, root'));
  }

  // ---------------------------------------------------------------- colours

  /** `rb_set_red`, `rb_set_black` and `rb_set_color`, with the black height to go with it. */
  ghost function Paint(m: seq<Cell>, i: int, red: bool, bh: int): (r: seq<Cell>)
    requires Has(m, i)
    ensures |r| == |m|
  {
    m[i := m[i].(red := red, bh := bh)]
  }

  lemma PaintLinked(m: seq<Cell>, root: int, i: int, red: bool, bh: int)
    requires Linked(m, root) && Has(m, i)
    ensures Linked(Paint(m, i, red, bh), root)
  {
    var r := Paint(m, i, red, bh);
    forall k | Has(r, k)
      ensures NodeOk(r, root, k)
    {
      Node(m, root, k);
    }
  }

  /** Recolour x and its right child, then rotate left at x. */
  ghost function TurnLeft(m: seq<Cell>, x: int, redx: bool, bhx: int, redy: bool, bhy: int): (r: seq<Cell>)
    requires Has(m, x) && Has(m, m[x].right) && m[x].right != x
  {
    RotateLeft(Paint(Paint(m, m[x].right, redy, bhy), x, redx, bhx), x)
  }

  ghost function TurnRight(m: seq<Cell>, x: int, redx: bool, bhx: int, redy: bool, bhy: int): (r: seq<Cell>)
    requires Has(m, x) && Has(m, m[x].left) && m[x].left != x
  {
    RotateRight(Paint(Paint(m, m[x].left, redy, bhy), x, redx, bhx), x)
  }

  lemma MirrorPaint(m: seq<Cell>, i: int, red: bool, bh: int)
    requires Has(m, i)
    ensures Mirror(Paint(m, i, red, bh)) == Paint(Mirror(m), MirIx(|m|, i), red, bh)
  {
    var a, b := Mirror(Paint(m, i, red, bh)), Paint(Mirror(m), MirIx(|m|, i), red, bh);
    forall k | Has(a, k)
      ensures a[k] == b[k]
    {
      MirrorAt(m, |m| - 1 - k);
      MirrorAt(Paint(m, i, red, bh), |m| - 1 - k);
    }
  }

  lemma MirrorTurn(m: seq<Cell>, root: int, x: int, redx: bool, bhx: int, redy: bool, bhy: int)
    requires Linked(m, root) && Has(m, x) && m[x].left != NIL
    ensures Has(m, m[x].left) && m[x].left != x
    ensures Mirror(m)[MirIx(|m|, x)].right == MirIx(|m|, m[x].left)
    ensures TurnLeft(Mirror(m), MirIx(|m|, x), redx, bhx, redy, bhy) == Mirror(TurnRight(m, x, redx, bhx, redy, bhy))
    ensures Ranged(TurnRight(m, x, redx, bhx, redy, bhy))
  {
    Node(m, root, x);
    MirrorAt(m, x);
    var y := m[x].left;
    Node(m, root, y);
    var m1 := Paint(m, y, redy, bhy);
    var m2 := Paint(m1, x, redx, bhx);
    MirrorPaint(m, y, redy, bhy);
    MirrorPaint(m1, x, redx, bhx);
    PaintLinked(m, root, y, redy, bhy);
    PaintLinked(m1, root, x, redx, bhx);
    MirrorRotate(m2, root, x);
    RotateRightLinked(m2, root, x);
    LinkedRanged(RotateRight(m2, x), RotatedRoot(m2, root, x, y));
  }

  lemma TurnLeftLinked(m: seq<Cell>, root: int, x: int, redx: bool, bhx: int, redy: bool, bhy: int)
    requires Linked(m, root) && Has(m, x) && m[x].right != NIL
    ensures Has(m, m[x].right) && m[x].right != x
    ensures Linked(TurnLeft(m, x, redx, bhx, redy, bhy), RotatedRoot(m, root, x, m[x].right))
  {
    RotateLeftArea(m, root, x);
    var y := m[x].right;
    var m1 := Paint(m, y, redy, bhy);
    PaintLinked(m, root, y, redy, bhy);
    PaintLinked(m1, root, x, redx, bhx);
    RotateLeftLinked(Paint(m1, x, redx, bhx), root, x);
  }

  /** Away from the two turned nodes balance is kept when the new top has the old top's black height. */
  lemma TurnLeftBalOk(m: seq<Cell>, root: int, x: int, redx: bool, bhx: int, redy: bool, bhy: int, i: int)
    requires Linked(m, root) && Has(m, x) && m[x].right != NIL
    requires Has(m, i) && i != x && i != m[x].right && BalOk(m, i) && bhy == m[x].bh
    ensures NodeOk(m, root, x)
    ensures BalOk(TurnLeft(m, x, redx, bhx, redy, bhy), i)
  {
    RotateLeftArea(m, root, x);
    Node(m, root, i);
  }

  /** The two turned nodes are balanced when the three subtrees below them fit. */
  lemma TurnLeftTopOk(m: seq<Cell>, root: int, x: int, redx: bool, bhx: int, redy: bool, bhy: int)
    requires Linked(m, root) && Has(m, x) && m[x].right != NIL && Has(m, m[x].right)
    requires BhOf(m, m[x].left) == BhOf(m, m[m[x].right].left) >= 0
    requires bhx == BhOf(m, m[x].left) + (if redx then 0 else 1) == BhOf(m, m[m[x].right].right)
    requires bhy == bhx + (if redy then 0 else 1)
    ensures NodeOk(m, root, x)
    ensures BalOk(TurnLeft(m, x, redx, bhx, redy, bhy), x)
    ensures BalOk(TurnLeft(m, x, redx, bhx, redy, bhy), m[x].right)
  {
    RotateLeftArea(m, root, x);
  }

  lemma RotateRightArea(m: seq<Cell>, root: int, x: int)
    requires Linked(m, root) && Has(m, x) && m[x].left != NIL
    ensures NodeOk(m, root, x) && Has(m, m[x].left) && NodeOk(m, root, m[x].left)
    ensures m[m[x].left].right != NIL ==> NodeOk(m, root, m[m[x].left].right)
    ensures m[x].parent != NIL ==> NodeOk(m, root, m[x].parent)
  {
    Node(m, root, x);
    Node(m, root, m[x].left);
  }

  lemma TurnRightLinked(m: seq<Cell>, root: int, x: int, redx: bool, bhx: int, redy: bool, bhy: int)
    requires Linked(m, root) && Has(m, x) && m[x].left != NIL
    ensures Has(m, m[x].left) && m[x].left != x
    ensures Linked(TurnRight(m, x, redx, bhx, redy, bhy), RotatedRoot(m, root, x, m[x].left))
  {
    RotateRightArea(m, root, x);
    var y := m[x].left;
    var m1 := Paint(m, y, redy, bhy);
    PaintLinked(m, root, y, redy, bhy);
    PaintLinked(m1, root, x, redx, bhx);
    RotateRightLinked(Paint(m1, x, redx, bhx), root, x);
  }

  lemma TurnRightBalOk(m: seq<Cell>, root: int, x: int, redx: bool, bhx: int, redy: bool, bhy: int, i: int)
    requires Linked(m, root) && Has(m, x) && m[x].left != NIL
    requires Has(m, i) && i != x && i != m[x].left && BalOk(m, i) && bhy == m[x].bh
    ensures NodeOk(m, root, x)
    ensures BalOk(TurnRight(m, x, redx, bhx, redy, bhy), i)
  {
    RotateRightArea(m, root, x);
    Node(m, root, i);
  }

  lemma TurnRightTopOk(m: seq<Cell>, root: int, x: int, redx: bool, bhx: int, redy: bool, bhy: int)
    requires Linked(m, root) && Has(m, x) && m[x].left != NIL && Has(m, m[x].left)
    requires BhOf(m, m[x].right) == BhOf(m, m[m[x].left].right) >= 0
    requires bhx == BhOf(m, m[x].right) + (if redx then 0 else 1) == BhOf(m, m[m[x].left].left)
    requires bhy == bhx + (if redy then 0 else 1)
    ensures NodeOk(m, root, x)
    ensures BalOk(TurnRight(m, x, redx, bhx, redy, bhy), x)
    ensures BalOk(TurnRight(m, x, redx, bhx, redy, bhy), m[x].left)
  {
    RotateRightArea(m, root, x);
  }

  // ---------------------------------------------------------------- rotations, assignment by assignment

  ghost predicate Fits(m: seq<Cell>, i: int) {
    -1 <= i < |m|
  }

  ghost function PutParent(m: seq<Cell>, i: int, p: int): (r: seq<Cell>)
    requires Fits(m, i)
    ensures |r| == |m|
  {
    if i == NIL then m else m[i := m[i].(parent := p)]
  }

  ghost function PutChild(m: seq<Cell>, p: int, x: int, y: int): (r: seq<Cell>)
    requires Fits(m, p)
    ensures |r| == |m|
  {
    if p == NIL then m
    else if m[p].left == x then m[p := m[p].(left := y)]
    else m[p := m[p].(right := y)]
  }

  /** c becomes the left child of i. */
  ghost function AdoptLeft(m: seq<Cell>, i: int, c: int): (r: seq<Cell>)
    requires Has(m, i) && Fits(m, c)
    ensures |r| == |m|
  {
    PutParent(m[i := m[i].(left := c)], c, i)
  }

  ghost function AdoptRight(m: seq<Cell>, i: int, c: int): (r: seq<Cell>)
    requires Has(m, i) && Fits(m, c)
    ensures |r| == |m|
  {
    PutParent(m[i := m[i].(right := c)], c, i)
  }

  /** y takes x's place below p. */
  ghost function Hook(m: seq<Cell>, p: int, x: int, y: int): (r: seq<Cell>)
    requires Fits(m, p) && Fits(m, y)
    ensures |r| == |m|
  {
    PutChild(PutParent(m, y, p), p, x, y)
  }

  ghost function SetSpans(m: seq<Cell>, x: int, xlo: int, xhi: int, y: int, ylo: int, yhi: int): (r: seq<Cell>)
    requires Has(m, x) && Has(m, y)
    ensures |r| == |m|
  {
    var w := m[x := m[x].(lo := xlo, hi := xhi)];
    w[y := w[y].(lo := ylo, hi := yhi)]
  }

  ghost function RotateLeftSteps(m: seq<Cell>, x: int, y: int, b: int, p: int): (r: seq<Cell>)
    requires Has(m, x) && Has(m, y) && Fits(m, b) && Fits(m, p)
  {
    var w := Hook(AdoptLeft(AdoptRight(m, x, b), y, x), p, x, y);
    SetSpans(w, x, m[x].lo, y, y, m[x].lo, m[y].hi)
  }

  lemma RotateLeftBySteps(m: seq<Cell>, root: int, x: int, y: int, b: int, p: int)
    requires Linked(m, root) && Has(m, x) && m[x].right == y != NIL && Has(m, y) && m[y].left == b && m[x].parent == p
    ensures Fits(m, b) && Fits(m, p)
    ensures RotateLeftSteps(m, x, y, b, p) == RotateLeft(m, x)
  {
    RotateLeftArea(m, root, x);
    var w := RotateLeftSteps(m, x, y, b, p);
    forall i | Has(m, i)
      ensures w[i] == RotateLeft(m, x)[i]
    {
      RotateLeftByStepsAt(m, root, x, y, b, p, i);
    }
  }

  lemma RotateLeftByStepsAt(m: seq<Cell>, root: int, x: int, y: int, b: int, p: int, i: int)
    requires Linked(m, root) && Has(m, x) && m[x].right == y != NIL && Has(m, y) && m[y].left == b && m[x].parent == p
    requires Has(m, i)
    ensures Fits(m, b) && Fits(m, p)
    ensures |RotateLeftSteps(m, x, y, b, p)| == |m|
    ensures RotateLeftSteps(m, x, y, b, p)[i] == RotLCell(m, x, y, i)
  {
    RotateLeftArea(m, root, x);
    var w := AdoptLeft(AdoptRight(m, x, b), y, x);
    assert w[i].parent == if i == x then y else if i == b then x else m[i].parent;
    assert w[i].left == (if i == y then x else m[i].left) && w[i].right == (if i == x then b else m[i].right);
    assert p != NIL ==> w[p].left == m[p].left;
  }

  ghost function RotateRightSteps(m: seq<Cell>, x: int, y: int, b: int, p: int): (r: seq<Cell>)
    requires Has(m, x) && Has(m, y) && Fits(m, b) && Fits(m, p)
  {
    var w := Hook(AdoptRight(AdoptLeft(m, x, b), y, x), p, x, y);
    SetSpans(w, x, y + 1, m[x].hi, y, m[y].lo, m[x].hi)
  }

  lemma RotateRightByStepsAt(m: seq<Cell>, root: int, x: int, y: int, b: int, p: int, i: int)
    requires Linked(m, root) && Has(m, x) && m[x].left == y != NIL && Has(m, y) && m[y].right == b && m[x].parent == p
    requires Has(m, i)
    ensures Fits(m, b) && Fits(m, p)
    ensures |RotateRightSteps(m, x, y, b, p)| == |m|
    ensures RotateRightSteps(m, x, y, b, p)[i] == RotRCell(m, x, y, i)
  {
    RotateRightArea(m, root, x);
    RightAdopted(m, x, y, b, i);
    if p != NIL {
      RightAdopted(m, x, y, b, p);
    }
  }

  /** The first half of the assignments of a right rotation. */
  lemma RightAdopted(m: seq<Cell>, x: int, y: int, b: int, i: int)
    requires Has(m, x) && Has(m, y) && Fits(m, b) && Has(m, i) && x != y && b != x && b != y
    ensures AdoptRight(AdoptLeft(m, x, b), y, x)[i] ==
            m[i].(left := if i == x then b else m[i].left, right := if i == y then x else m[i].right,
                  parent := if i == x then y else if i == b then x else m[i].parent)
  {
  }

  lemma RotateRightBySteps(m: seq<Cell>, root: int, x: int, y: int, b: int, p: int)
    requires Linked(m, root) && Has(m, x) && m[x].left == y != NIL && Has(m, y) && m[y].right == b && m[x].parent == p
    ensures Fits(m, b) && Fits(m, p)
    ensures RotateRightSteps(m, x, y, b, p) == RotateRight(m, x)
  {
    RotateRightArea(m, root, x);
    var w := RotateRightSteps(m, x, y, b, p);
    forall i | Has(m, i)
      ensures w[i] == RotateRight(m, x)[i]
    {
      RotateRightByStepsAt(m, root, x, y, b, p, i);
    }
  }
}
