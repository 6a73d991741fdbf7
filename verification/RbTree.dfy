/** The red-black tree of base/rbtree.c, on linked nodes with parent pointers.

    The ghost fields of a Tree say what the heap stands for: `order` is the in-order sequence of
    its nodes and `cells` their shape, links being positions in `order`.  Rep() ties the pointers
    to it; the shape obeys the laws proved in RbShape, RbInsert, RbErase and RbSlots. */
module RbTree {
  import opened Bytes
  import S = RbShape
  import I = RbInsert
  import E = RbErase
  import L = RbSlots

  /** `struct rb_node`, with the key of the record that embeds it (`rb_entry`).
      `rb_parent_color` is the two fields `parent` and `red`. */
  class Node {
    const addr: seq<Byte>
    var left: Node?
    var right: Node?
    var parent: Node?
    var red: bool
    ghost var pos: int

    constructor (addr: seq<Byte>)
      ensures this.addr == addr
    {
      this.addr := addr;
    }
  }

  /** `struct rb_root`. */
  class Tree {
    var root: Node?
    ghost var order: seq<Node>
    ghost var cells: seq<S.Cell>
    ghost var top: int

    ghost function Ref(k: int): Node?
      reads this
    {
      if 0 <= k < |order| then order[k] else null
    }

    ghost function Ix(n: Node?): int
      reads n
    {
      if n == null then S.NIL else n.pos
    }

    /** n is a node of this tree (or no node). */
    ghost predicate In(n: Node?)
      reads this, n
    {
      n != null ==> 0 <= n.pos < |order| && order[n.pos] == n
    }

    ghost predicate Match(i: int)
      requires 0 <= i < |order| == |cells|
      reads this, order[i]
    {
      && order[i].pos == i
      && order[i].left == Ref(cells[i].left)
      && order[i].right == Ref(cells[i].right)
      && order[i].parent == Ref(cells[i].parent)
      && order[i].red == cells[i].red
    }

    /** The pointers are those of the shape. */
    ghost predicate Rep()
      reads this, order
    {
      && |cells| == |order|
      && root == Ref(top) && -1 <= top < |order|
      && S.Ranged(cells)
      && forall i {:trigger Match(i)} :: 0 <= i < |order| ==> Match(i)
    }

    /** A red-black tree on the nodes of `order`, in that order. */
    ghost predicate Valid()
      reads this, order
    {
      Rep() && S.RedBlack(cells, top)
    }

    constructor ()
      ensures Valid() && order == []
    {
      root, order, cells, top := null, [], [], S.NIL;
    }

    lemma Here(n: Node)
      requires Rep() && In(n)
      ensures Match(n.pos)
    {
    }

    /** Distinct positions hold distinct nodes. */
    lemma RefIs(k: int, n: Node)
      requires Rep() && In(n) && -1 <= k < |order|
      ensures Ref(k) == n <==> k == n.pos
    {
      if k != S.NIL {
        assert Match(k);
      }
    }

    lemma InRef(k: int)
      requires Rep() && -1 <= k < |order|
      ensures In(Ref(k)) && Ix(Ref(k)) == k
    {
      if k != S.NIL {
        assert Match(k);
      }
    }

    /** The links of n lead to nodes of this tree, at the positions its cell names. */
    lemma Links(n: Node)
      requires Rep() && In(n)
      ensures Match(n.pos)
      ensures In(n.left) && Ix(n.left) == cells[n.pos].left
      ensures In(n.right) && Ix(n.right) == cells[n.pos].right
      ensures In(n.parent) && Ix(n.parent) == cells[n.pos].parent
    {
      InRef(cells[n.pos].left);
      InRef(cells[n.pos].right);
      InRef(cells[n.pos].parent);
    }

    // ------------------------------------------------------------ single assignments

    method SetLeft(n: Node, c: Node?)
      requires Rep() && In(n) && In(c)
      modifies n`left, this`cells
      ensures Rep() && cells == old(cells)[n.pos := old(cells)[n.pos].(left := Ix(c))]
    {
      n.left := c;
      cells := cells[n.pos := cells[n.pos].(left := Ix(c))];
      forall i | 0 <= i < |order|
        ensures Match(i)
      {
        assert old(Match(i));
      }
    }

    method SetRight(n: Node, c: Node?)
      requires Rep() && In(n) && In(c)
      modifies n`right, this`cells
      ensures Rep() && cells == old(cells)[n.pos := old(cells)[n.pos].(right := Ix(c))]
    {
      n.right := c;
      cells := cells[n.pos := cells[n.pos].(right := Ix(c))];
      forall i | 0 <= i < |order|
        ensures Match(i)
      {
        assert old(Match(i));
      }
    }

    /** `rb_set_parent`. */
    method SetParent(n: Node, c: Node?)
      requires Rep() && In(n) && In(c)
      modifies n`parent, this`cells
      ensures Rep() && cells == old(cells)[n.pos := old(cells)[n.pos].(parent := Ix(c))]
    {
      n.parent := c;
      cells := cells[n.pos := cells[n.pos].(parent := Ix(c))];
      forall i | 0 <= i < |order|
        ensures Match(i)
      {
        assert old(Match(i));
      }
    }

    /** `rb_set_red`, `rb_set_black` and `rb_set_color`, together with the node's new black height. */
    method SetColour(n: Node, red: bool, ghost bh: int)
      requires Rep() && In(n)
      modifies n`red, this`cells
      ensures Rep() && cells == S.Paint(old(cells), n.pos, red, bh)
    {
      n.red := red;
      cells := S.Paint(cells, n.pos, red, bh);
      forall i | 0 <= i < |order|
        ensures Match(i)
      {
        assert old(Match(i));
      }
    }

    method SetRoot(n: Node?)
      requires Rep() && In(n)
      modifies this`root, this`top
      ensures Rep() && top == Ix(n)
    {
      root := n;
      top := Ix(n);
      forall i | 0 <= i < |order|
        ensures Match(i)
      {
        assert old(Match(i));
      }
    }

    /** n->rb_left = c, and c's parent link. */
    method AdoptLeft(n: Node, c: Node?)
      requires Rep() && In(n) && In(c)
      modifies n`left, order`parent, this`cells
      ensures Rep() && cells == S.AdoptLeft(old(cells), n.pos, Ix(c))
    {
      SetLeft(n, c);
      if c != null {
        SetParent(c, n);
      }
    }

    method AdoptRight(n: Node, c: Node?)
      requires Rep() && In(n) && In(c)
      modifies n`right, order`parent, this`cells
      ensures Rep() && cells == S.AdoptRight(old(cells), n.pos, Ix(c))
    {
      SetRight(n, c);
      if c != null {
        SetParent(c, n);
      }
    }

    /** The link to x, in its parent p or in the root, now leads to y. */
    method Relink(p: Node?, x: Node, y: Node?)
      requires Rep() && In(p) && In(x) && In(y)
      modifies this`root, this`top, this`cells, order`left, order`right
      ensures Rep() && cells == S.PutChild(old(cells), Ix(p), x.pos, Ix(y))
      ensures top == if p == null then Ix(y) else old(top)
    {
      if p != null {
        Here(p);
        RefIs(cells[p.pos].left, x);
        if p.left == x {
          SetLeft(p, y);
        } else {
          SetRight(p, y);
        }
      } else {
        SetRoot(y);
      }
    }

    /** y (which may be missing) takes x's place below p, or as the root. */
    method Hook(p: Node?, x: Node, y: Node?)
      requires Rep() && In(p) && In(x) && In(y)
      modifies this`root, this`top, this`cells, order`left, order`right, order`parent
      ensures Rep() && cells == S.Hook(old(cells), Ix(p), x.pos, Ix(y))
      ensures top == if p == null then Ix(y) else old(top)
    {
      if y != null {
        SetParent(y, p);
      }
      Relink(p, x, y);
    }

    ghost method SetSpans(x: Node, xlo: int, xhi: int, y: Node, ylo: int, yhi: int)
      requires Rep() && In(x) && In(y)
      modifies this`cells
      ensures Rep() && cells == S.SetSpans(old(cells), x.pos, xlo, xhi, y.pos, ylo, yhi)
    {
      cells := S.SetSpans(cells, x.pos, xlo, xhi, y.pos, ylo, yhi);
      forall i | 0 <= i < |order|
        ensures Match(i)
      {
        assert old(Match(i));
      }
    }

    // ------------------------------------------------------------ rotations

    /** `__rb_rotate_left`. */
    method RotateLeft(x: Node)
      requires Rep() && S.Linked(cells, top) && In(x) && x.right != null
      modifies this`root, this`top, this`cells, order`left, order`right, order`parent
      ensures Rep() && S.Has(old(cells), x.pos) && S.Has(old(cells), old(cells)[x.pos].right)
      ensures cells == S.RotateLeft(old(cells), x.pos)
      ensures top == S.RotatedRoot(old(cells), old(top), x.pos, old(cells)[x.pos].right)
    {
      ghost var m := cells;
      Links(x);
      var right, parent := x.right, x.parent;
      Links(right);
      var b := right.left;
      S.RotateLeftBySteps(m, top, x.pos, right.pos, Ix(b), Ix(parent));
      LiftRight(x, right, b, parent);
      SetSpans(x, m[x.pos].lo, right.pos, right, m[x.pos].lo, m[right.pos].hi);
    }

    /** The assignments of `__rb_rotate_left`. */
    method LiftRight(x: Node, right: Node, b: Node?, parent: Node?)
      requires Rep() && In(x) && In(right) && In(b) && In(parent)
      modifies this`root, this`top, this`cells, order`left, order`right, order`parent
      ensures Rep() && top == if parent == null then right.pos else old(top)
      ensures cells == S.Hook(S.AdoptLeft(S.AdoptRight(old(cells), x.pos, Ix(b)), right.pos, x.pos), Ix(parent), x.pos,
                              right.pos)
    {
      AdoptRight(x, b);
      AdoptLeft(right, x);
      Hook(parent, x, right);
    }

    /** `__rb_rotate_right`. */
    method RotateRight(x: Node)
      requires Rep() && S.Linked(cells, top) && In(x) && x.left != null
      modifies this`root, this`top, this`cells, order`left, order`right, order`parent
      ensures Rep() && S.Has(old(cells), x.pos) && S.Has(old(cells), old(cells)[x.pos].left)
      ensures cells == S.RotateRight(old(cells), x.pos)
      ensures top == S.RotatedRoot(old(cells), old(top), x.pos, old(cells)[x.pos].left)
    {
      ghost var m := cells;
      Links(x);
      var left, parent := x.left, x.parent;
      Links(left);
      var b := left.right;
      S.RotateRightBySteps(m, top, x.pos, left.pos, Ix(b), Ix(parent));
      LiftLeft(x, left, b, parent);
      SetSpans(x, left.pos + 1, m[x.pos].hi, left, m[left.pos].lo, m[x.pos].hi);
    }

    /** The assignments of `__rb_rotate_right`. */
    method LiftLeft(x: Node, left: Node, b: Node?, parent: Node?)
      requires Rep() && In(x) && In(left) && In(b) && In(parent)
      modifies this`root, this`top, this`cells, order`left, order`right, order`parent
      ensures Rep() && top == if parent == null then left.pos else old(top)
      ensures cells == S.Hook(S.AdoptRight(S.AdoptLeft(old(cells), x.pos, Ix(b)), left.pos, x.pos), Ix(parent), x.pos,
                              left.pos)
    {
      AdoptLeft(x, b);
      AdoptRight(left, x);
      Hook(parent, x, left);
    }

    /** Recolour x and its right child, then rotate left at x. */
    method TurnLeft(x: Node, redx: bool, ghost bhx: int, redy: bool, ghost bhy: int)
      requires Rep() && S.Linked(cells, top) && In(x) && x.right != null
      modifies this`root, this`top, this`cells, order`left, order`right, order`parent, order`red
      ensures Rep() && S.Has(old(cells), x.pos) && S.Has(old(cells), old(cells)[x.pos].right)
              && old(cells)[x.pos].right != x.pos
      ensures cells == S.TurnLeft(old(cells), x.pos, redx, bhx, redy, bhy)
      ensures top == S.RotatedRoot(old(cells), old(top), x.pos, old(cells)[x.pos].right)
    {
      Links(x);
      S.RotateLeftArea(cells, top, x.pos);
      S.PaintLinked(cells, top, x.right.pos, redy, bhy);
      SetColour(x.right, redy, bhy);
      S.PaintLinked(cells, top, x.pos, redx, bhx);
      SetColour(x, redx, bhx);
      RotateLeft(x);
    }

    method TurnRight(x: Node, redx: bool, ghost bhx: int, redy: bool, ghost bhy: int)
      requires Rep() && S.Linked(cells, top) && In(x) && x.left != null
      modifies this`root, this`top, this`cells, order`left, order`right, order`parent, order`red
      ensures Rep() && S.Has(old(cells), x.pos) && S.Has(old(cells), old(cells)[x.pos].left)
              && old(cells)[x.pos].left != x.pos
      ensures cells == S.TurnRight(old(cells), x.pos, redx, bhx, redy, bhy)
      ensures top == S.RotatedRoot(old(cells), old(top), x.pos, old(cells)[x.pos].left)
    {
      Links(x);
      S.RotateRightArea(cells, top, x.pos);
      S.PaintLinked(cells, top, x.left.pos, redy, bhy);
      SetColour(x.left, redy, bhy);
      S.PaintLinked(cells, top, x.pos, redx, bhx);
      SetColour(x, redx, bhx);
      RotateRight(x);
    }

    // ------------------------------------------------------------ insertion

    /** The parent of node is red: the grandparent exists and is black. */
    lemma Family(node: Node)
      requires Rep() && In(node) && I.Inserting(cells, top, node.pos) && node.parent != null && node.parent.red
      ensures In(node.parent) && S.IsRed(cells, node.parent.pos) && node.parent.pos == cells[node.pos].parent
      ensures node.parent.parent != null && In(node.parent.parent) && !S.IsRed(cells, node.parent.parent.pos)
      ensures node.parent.parent.pos == cells[node.parent.pos].parent
      ensures In(node.parent.parent.left) && Ix(node.parent.parent.left) == cells[node.parent.parent.pos].left
      ensures In(node.parent.parent.right) && Ix(node.parent.parent.right) == cells[node.parent.parent.pos].right
    {
      Links(node);
      Links(node.parent);
      I.Grandparent(cells, top, node.pos);
      Links(node.parent.parent);
    }

    /** Red uncle. */
    method Recolour(node: Node, parent: Node, uncle: Node, gparent: Node)
      requires Rep() && In(node) && I.Inserting(cells, top, node.pos)
      requires In(parent) && parent.pos == cells[node.pos].parent && S.IsRed(cells, parent.pos)
      requires In(gparent) && gparent.pos == cells[parent.pos].parent
      requires In(uncle) && uncle.pos == I.Uncle(cells, parent.pos) && S.IsRed(cells, uncle.pos)
      modifies this`cells, order`red
      ensures Rep() && I.Inserting(cells, top, gparent.pos)
      ensures cells == I.Recoloured(old(cells), parent.pos, uncle.pos, gparent.pos)
    {
      ghost var m := cells;
      I.RecolourKeeps(m, top, node.pos, parent.pos, gparent.pos, uncle.pos);
      I.Grandparent(m, top, node.pos);
      SetColour(uncle, false, m[uncle.pos].bh + 1);
      SetColour(parent, false, m[parent.pos].bh + 1);
      SetColour(gparent, true, m[gparent.pos].bh);
    }

    /** Black uncle, parent on the left: node is made the outer child of its parent. */
    method StraightenLeft(node: Node, parent: Node, gparent: Node) returns (lower: Node, upper: Node)
      requires Rep() && In(node) && I.Inserting(cells, top, node.pos)
      requires In(parent) && parent.pos == cells[node.pos].parent && S.IsRed(cells, parent.pos)
      requires In(gparent) && gparent.pos == cells[parent.pos].parent && cells[gparent.pos].left == parent.pos
      requires !S.IsRed(cells, cells[gparent.pos].right)
      modifies this`root, this`top, this`cells, order`left, order`right, order`parent, order`red
      ensures Rep() && In(lower) && I.Inserting(cells, top, lower.pos)
      ensures In(upper) && upper.pos == cells[lower.pos].parent && S.IsRed(cells, upper.pos)
      ensures gparent.pos == cells[upper.pos].parent && cells[gparent.pos].left == upper.pos
      ensures cells[upper.pos].left == lower.pos && !S.IsRed(cells, cells[gparent.pos].right)
    {
      lower, upper := node, parent;
      I.Grandparent(cells, top, node.pos);
      Links(parent);
      if parent.right == node {
        I.InnerLeftKeeps(cells, top, node.pos, parent.pos, gparent.pos);
        RotateLeft(parent);
        lower, upper := parent, node;
      }
      I.Grandparent(cells, top, lower.pos);
    }

    /** Black uncle, parent on the left. */
    method InsertTurnRight(node0: Node, parent0: Node, gparent: Node) returns (node: Node)
      requires Rep() && In(node0) && I.Inserting(cells, top, node0.pos)
      requires In(parent0) && parent0.pos == cells[node0.pos].parent && S.IsRed(cells, parent0.pos)
      requires In(gparent) && gparent.pos == cells[parent0.pos].parent && cells[gparent.pos].left == parent0.pos
      requires !S.IsRed(cells, cells[gparent.pos].right)
      modifies this`root, this`top, this`cells, order`left, order`right, order`parent, order`red
      ensures Rep() && In(node) && I.Inserting(cells, top, node.pos)
      ensures !S.IsRed(cells, cells[node.pos].parent)
    {
      var parent;
      node, parent := StraightenLeft(node0, parent0, gparent);
      I.Grandparent(cells, top, node.pos);
      Links(gparent);
      ghost var m := cells;
      I.OuterRightKeeps(m, top, node.pos, parent.pos, gparent.pos);
      I.OuterRightTop(m, top, node.pos, parent.pos, gparent.pos);
      TurnRight(gparent, true, m[parent.pos].bh, false, m[gparent.pos].bh);
    }

    /** Black uncle, parent on the right: node is made the outer child of its parent. */
    method StraightenRight(node: Node, parent: Node, gparent: Node) returns (lower: Node, upper: Node)
      requires Rep() && In(node) && I.Inserting(cells, top, node.pos)
      requires In(parent) && parent.pos == cells[node.pos].parent && S.IsRed(cells, parent.pos)
      requires In(gparent) && gparent.pos == cells[parent.pos].parent && cells[gparent.pos].right == parent.pos
      requires !S.IsRed(cells, cells[gparent.pos].left)
      modifies this`root, this`top, this`cells, order`left, order`right, order`parent, order`red
      ensures Rep() && In(lower) && I.Inserting(cells, top, lower.pos)
      ensures In(upper) && upper.pos == cells[lower.pos].parent && S.IsRed(cells, upper.pos)
      ensures gparent.pos == cells[upper.pos].parent && cells[gparent.pos].right == upper.pos
      ensures cells[upper.pos].right == lower.pos && !S.IsRed(cells, cells[gparent.pos].left)
    {
      lower, upper := node, parent;
      I.Grandparent(cells, top, node.pos);
      Links(parent);
      if parent.left == node {
        I.InnerRightKeeps(cells, top, node.pos, parent.pos, gparent.pos);
        RotateRight(parent);
        lower, upper := parent, node;
      }
      I.Grandparent(cells, top, lower.pos);
    }

    /** Black uncle, parent on the right. */
    method InsertTurnLeft(node0: Node, parent0: Node, gparent: Node) returns (node: Node)
      requires Rep() && In(node0) && I.Inserting(cells, top, node0.pos)
      requires In(parent0) && parent0.pos == cells[node0.pos].parent && S.IsRed(cells, parent0.pos)
      requires In(gparent) && gparent.pos == cells[parent0.pos].parent && cells[gparent.pos].right == parent0.pos
      requires !S.IsRed(cells, cells[gparent.pos].left)
      modifies this`root, this`top, this`cells, order`left, order`right, order`parent, order`red
      ensures Rep() && In(node) && I.Inserting(cells, top, node.pos)
      ensures !S.IsRed(cells, cells[node.pos].parent)
    {
      var parent;
      node, parent := StraightenRight(node0, parent0, gparent);
      I.Grandparent(cells, top, node.pos);
      Links(gparent);
      ghost var m := cells;
      I.OuterLeftKeeps(m, top, node.pos, parent.pos, gparent.pos);
      TurnLeft(gparent, true, m[parent.pos].bh, false, m[gparent.pos].bh);
    }

    /** How much of the tree is still above node; zero once its parent is not red. */
    ghost function Above(m: seq<S.Cell>, i: int): int
    {
      if S.Has(m, i) && S.IsRed(m, m[i].parent) then 1 + |m| - (m[i].hi - m[i].lo) else 0
    }

    lemma AboveBounded(m: seq<S.Cell>, root: int, n: int)
      requires I.Inserting(m, root, n)
      ensures 0 <= Above(m, n)
    {
      S.Node(m, root, n);
    }

    lemma Climbs(m: seq<S.Cell>, root: int, n: int, p: int, u: int, g: int)
      requires I.Inserting(m, root, n) && S.IsRed(m, p) && p == m[n].parent && g == m[p].parent && S.Has(m, g)
      requires S.Has(m, u)
      ensures Above(I.Recoloured(m, p, u, g), g) < Above(m, n)
    {
      I.Grandparent(m, root, n);
    }

    /** One round of the loop of `rb_insert_color`. */
    method InsertStep(node: Node) returns (next: Node)
      requires Rep() && In(node) && I.Inserting(cells, top, node.pos)
      requires node.parent != null && node.parent.red
      modifies this`root, this`top, this`cells, order`left, order`right, order`parent, order`red
      ensures Rep() && In(next) && I.Inserting(cells, top, next.pos)
      ensures Above(cells, next.pos) < Above(old(cells), node.pos)
    {
      Family(node);
      var parent := node.parent;
      var gparent: Node := parent.parent;
      AboveBounded(cells, top, node.pos);
      I.Grandparent(cells, top, node.pos);
      var uncle := if parent == gparent.left then gparent.right else gparent.left;
      if uncle != null && uncle.red {
        Here(uncle);
        Climbs(cells, top, node.pos, parent.pos, uncle.pos, gparent.pos);
        Recolour(node, parent, uncle, gparent);
        next := gparent;
      } else {
        NotRed(uncle);
        if parent == gparent.left {
          next := InsertTurnRight(node, parent, gparent);
        } else {
          next := InsertTurnLeft(node, parent, gparent);
        }
      }
    }

    /** `rb_insert_color`: repairs the tree after node was linked in as a red leaf. */
    method InsertColour(node0: Node)
      requires Rep() && In(node0) && I.Inserting(cells, top, node0.pos)
      modifies this`root, this`top, this`cells, order`left, order`right, order`parent, order`red
      ensures Valid()
    {
      var node: Node := node0;
      while node.parent != null && node.parent.red
        invariant Rep() && In(node) && I.Inserting(cells, top, node.pos)
        decreases Above(cells, node.pos)
      {
        AboveBounded(cells, top, node.pos);
        node := InsertStep(node);
      }
      Links(node);
      NotRed(node.parent);
      I.FinishedRedBlack(cells, top, node.pos);
      InRef(top);
      SetColour(root, false, if cells[top].red then cells[top].bh + 1 else cells[top].bh);
    }

    lemma NotRed(n: Node?)
      requires Rep() && In(n) && (n == null || !n.red)
      ensures !S.IsRed(cells, Ix(n))
    {
      if n != null {
        Here(n);
      }
    }

    // ------------------------------------------------------------ erasing: repair

    /** Red sibling on the right: turn it up, so that the sibling is black. */
    method RedSiblingLeft(ghost n: int, parent: Node)
      requires Rep() && In(parent) && E.AtLeft(cells, top, n, parent.pos, cells[parent.pos].right)
      requires S.IsRed(cells, cells[parent.pos].right)
      modifies this`root, this`top, this`cells, order`left, order`right, order`parent, order`red
      ensures Rep() && E.AtLeft(cells, top, n, parent.pos, cells[parent.pos].right)
      ensures !S.IsRed(cells, cells[parent.pos].right)
      ensures E.Width(cells, n) == E.Width(old(cells), n)
    {
      Links(parent);
      ghost var m, o := cells, cells[parent.pos].right;
      E.RedSiblingLeftTurn(m, top, n, parent.pos, o);
      TurnLeft(parent, true, m[parent.pos].bh - 1, false, m[parent.pos].bh);
    }

    method RedSiblingRight(ghost n: int, parent: Node)
      requires Rep() && In(parent) && E.AtRight(cells, top, n, parent.pos, cells[parent.pos].left)
      requires S.IsRed(cells, cells[parent.pos].left)
      modifies this`root, this`top, this`cells, order`left, order`right, order`parent, order`red
      ensures Rep() && E.AtRight(cells, top, n, parent.pos, cells[parent.pos].left)
      ensures !S.IsRed(cells, cells[parent.pos].left)
      ensures E.Width(cells, n) == E.Width(old(cells), n)
    {
      Links(parent);
      ghost var m, o := cells, cells[parent.pos].left;
      E.RedSiblingRightTurn(m, top, n, parent.pos, o);
      TurnRight(parent, true, m[parent.pos].bh - 1, false, m[parent.pos].bh);
    }

    /** Black sibling with black children: redden it and go up. */
    method BlackNephews(ghost n: int, parent: Node, other: Node) returns (up: Node?)
      requires Rep() && In(parent) && In(other)
      requires E.BlackNephews(cells, top, n, parent.pos, other.pos)
      modifies this`cells, other`red
      ensures Rep() && In(up) && E.Erasing(cells, top, parent.pos, Ix(up))
      ensures E.Width(old(cells), n) < E.Width(cells, parent.pos) <= |order|
    {
      ghost var m := cells;
      ghost var w := E.NephewsPainted(m, parent.pos, other.pos);
      E.NephewsUp(m, top, n, parent.pos, other.pos, w);
      SetColour(other, true, m[other.pos].bh - 1);
      GhostHeight(parent, m[parent.pos].bh - 1);
      assert cells == w;
      Links(parent);
      up := parent.parent;
    }

    ghost method GhostHeight(n: Node, bh: int)
      requires Rep() && In(n)
      modifies this`cells
      ensures Rep() && cells == S.Paint(old(cells), n.pos, old(cells)[n.pos].red, bh)
    {
      cells := S.Paint(cells, n.pos, cells[n.pos].red, bh);
      forall i | 0 <= i < |order|
        ensures Match(i)
      {
        assert old(Match(i));
      }
    }

    /** Black sibling `other` on the right with a red child: the last case, after which all is well. */
    method EraseInnerLeft(ghost n: int, parent: Node, other: Node) returns (next: Node)
      requires Rep() && In(parent) && In(other) && E.AtLeft(cells, top, n, parent.pos, other.pos)
      requires !S.IsRed(cells, other.pos)
      requires S.IsRed(cells, cells[other.pos].left) && !S.IsRed(cells, cells[other.pos].right)
      modifies this`root, this`top, this`cells, order`left, order`right, order`parent, order`red
      ensures Rep() && In(next) && E.AtLeft(cells, top, n, parent.pos, next.pos) && !S.IsRed(cells, next.pos)
      ensures S.IsRed(cells, cells[next.pos].right)
    {
      Links(other);
      ghost var m, l := cells, cells[other.pos].left;
      E.SiblingArea(m, top, n, parent.pos, other.pos);
      E.InnerKeeps(m, top, n, parent.pos, other.pos, l);
      S.Node(m, top, other.pos);
      TurnRight(other, true, m[other.pos].bh - 1, false, m[other.pos].bh);
      Links(parent);
      next := parent.right;
    }

    method EraseOuterLeft(ghost n: int, parent: Node, other: Node)
      requires Rep() && In(parent) && In(other) && E.AtLeft(cells, top, n, parent.pos, other.pos)
      requires !S.IsRed(cells, other.pos)
      requires S.IsRed(cells, cells[other.pos].right)
      modifies this`root, this`top, this`cells, order`left, order`right, order`parent, order`red
      ensures Valid()
    {
      Links(parent);
      Links(other);
      ghost var m, q := cells, cells[other.pos].right;
      E.SiblingArea(m, top, n, parent.pos, other.pos);
      E.OuterArea(m, top, n, parent.pos, other.pos, q);
      E.OuterEnds(m, top, n, parent.pos, other.pos, q);
      var colour := parent.red;
      SetColour(other.right, false, m[q].bh + 1);
      assert cells == E.OuterPainted(m, q);
      TurnLeft(parent, false, m[other.pos].bh, colour, m[parent.pos].bh);
      assert cells == E.OuterTurned(m, parent.pos, other.pos, q);
    }

    method EraseInnerRight(ghost n: int, parent: Node, other: Node) returns (next: Node)
      requires Rep() && In(parent) && In(other) && E.AtRight(cells, top, n, parent.pos, other.pos)
      requires !S.IsRed(cells, other.pos)
      requires S.IsRed(cells, cells[other.pos].right) && !S.IsRed(cells, cells[other.pos].left)
      modifies this`root, this`top, this`cells, order`left, order`right, order`parent, order`red
      ensures Rep() && In(next) && E.AtRight(cells, top, n, parent.pos, next.pos) && !S.IsRed(cells, next.pos)
      ensures S.IsRed(cells, cells[next.pos].left)
    {
      Links(other);
      ghost var m, l := cells, cells[other.pos].right;
      E.SiblingArea(m, top, n, parent.pos, other.pos);
      E.InnerRightTurned(m, top, n, parent.pos, other.pos, l);
      TurnLeft(other, true, m[other.pos].bh - 1, false, m[other.pos].bh);
      next := LeftSibling(n, parent, l);
    }

    method LeftSibling(ghost n: int, parent: Node, ghost o: int) returns (next: Node)
      requires Rep() && In(parent) && E.AtRight(cells, top, n, parent.pos, o) && S.Has(cells, o)
      ensures In(next) && next.pos == o
    {
      Links(parent);
      next := parent.left;
    }

    method EraseOuterRight(ghost n: int, parent: Node, other: Node)
      requires Rep() && In(parent) && In(other) && E.AtRight(cells, top, n, parent.pos, other.pos)
      requires !S.IsRed(cells, other.pos)
      requires S.IsRed(cells, cells[other.pos].left)
      modifies this`root, this`top, this`cells, order`left, order`right, order`parent, order`red
      ensures Valid()
    {
      Links(parent);
      Links(other);
      ghost var m, q := cells, cells[other.pos].left;
      E.SiblingArea(m, top, n, parent.pos, other.pos);
      S.Node(m, top, q);
      S.PaintLinked(m, top, q, false, m[q].bh + 1);
      E.OuterRightEnds(m, top, n, parent.pos, other.pos, q);
      var colour := parent.red;
      SetColour(other.left, false, m[q].bh + 1);
      TurnRight(parent, false, m[other.pos].bh, colour, m[parent.pos].bh);
      assert cells == E.OuterTurnedRight(m, parent.pos, other.pos, q);
    }

    /** The sibling on the right, made black. */
    method BlackSiblingLeft(ghost n: int, parent: Node) returns (other: Node)
      requires Rep() && In(parent) && E.AtLeft(cells, top, n, parent.pos, cells[parent.pos].right)
      modifies this`root, this`top, this`cells, order`left, order`right, order`parent, order`red
      ensures Rep() && In(other) && E.AtLeft(cells, top, n, parent.pos, other.pos) && !S.IsRed(cells, other.pos)
      ensures E.Width(cells, n) == E.Width(old(cells), n)
    {
      E.SiblingArea(cells, top, n, parent.pos, cells[parent.pos].right);
      Links(parent);
      other := parent.right;
      Here(other);
      if other.red {
        RedSiblingLeft(n, parent);
        E.SiblingArea(cells, top, n, parent.pos, cells[parent.pos].right);
        Links(parent);
        other := parent.right;
      }
    }

    /** One round of the loop of `__rb_erase_color` with node on the left. */
    method EraseStepLeft(ghost n: int, parent: Node) returns (done: bool, up: Node?)
      requires Rep() && In(parent) && E.AtLeft(cells, top, n, parent.pos, cells[parent.pos].right)
      modifies this`root, this`top, this`cells, order`left, order`right, order`parent, order`red
      ensures Rep() && In(up)
      ensures done ==> Valid()
      ensures !done ==>
              E.Erasing(cells, top, parent.pos, Ix(up))
              && E.Width(old(cells), n) < E.Width(cells, parent.pos) <= |order|
    {
      up := null;
      var other := BlackSiblingLeft(n, parent);
      Links(other);
      if (other.left == null || !other.left.red) && (other.right == null || !other.right.red) {
        NotRed(other.left);
        NotRed(other.right);
        E.Sibling(cells, top, n, parent.pos);
        up := BlackNephews(n, parent, other);
        done := false;
      } else {
        EraseLastLeft(n, parent, other);
        done := true;
      }
    }

    method EraseLastLeft(ghost n: int, parent: Node, other0: Node)
      requires Rep() && In(parent) && In(other0) && E.AtLeft(cells, top, n, parent.pos, other0.pos)
      requires !S.IsRed(cells, other0.pos)
      requires (other0.left != null && other0.left.red) || (other0.right != null && other0.right.red)
      modifies this`root, this`top, this`cells, order`left, order`right, order`parent, order`red
      ensures Valid()
    {
      var other := other0;
      Links(other);
      if other.left != null {
        Here(other.left);
      }
      if other.right != null {
        Here(other.right);
      }
      if other.right == null || !other.right.red {
        NotRed(other.right);
        other := EraseInnerLeft(n, parent, other);
      }
      EraseOuterLeft(n, parent, other);
    }

    /** The sibling on the left, made black. */
    method BlackSiblingRight(ghost n: int, parent: Node) returns (other: Node)
      requires Rep() && In(parent) && E.AtRight(cells, top, n, parent.pos, cells[parent.pos].left)
      modifies this`root, this`top, this`cells, order`left, order`right, order`parent, order`red
      ensures Rep() && In(other) && E.AtRight(cells, top, n, parent.pos, other.pos) && !S.IsRed(cells, other.pos)
      ensures E.Width(cells, n) == E.Width(old(cells), n)
    {
      E.SiblingArea(cells, top, n, parent.pos, cells[parent.pos].left);
      Links(parent);
      other := parent.left;
      Here(other);
      if other.red {
        RedSiblingRight(n, parent);
        E.SiblingArea(cells, top, n, parent.pos, cells[parent.pos].left);
        Links(parent);
        other := parent.left;
      }
    }

    /** One round of the loop of `__rb_erase_color` with node on the right. */
    method EraseStepRight(ghost n: int, parent: Node) returns (done: bool, up: Node?)
      requires Rep() && In(parent) && E.AtRight(cells, top, n, parent.pos, cells[parent.pos].left)
      modifies this`root, this`top, this`cells, order`left, order`right, order`parent, order`red
      ensures Rep() && In(up)
      ensures done ==> Valid()
      ensures !done ==>
              E.Erasing(cells, top, parent.pos, Ix(up))
              && E.Width(old(cells), n) < E.Width(cells, parent.pos) <= |order|
    {
      up := null;
      var other := BlackSiblingRight(n, parent);
      Links(other);
      if (other.left == null || !other.left.red) && (other.right == null || !other.right.red) {
        NotRed(other.left);
        NotRed(other.right);
        E.Sibling(cells, top, n, parent.pos);
        up := BlackNephews(n, parent, other);
        done := false;
      } else {
        EraseLastRight(n, parent, other);
        done := true;
      }
    }

    method EraseLastRight(ghost n: int, parent: Node, other0: Node)
      requires Rep() && In(parent) && In(other0) && E.AtRight(cells, top, n, parent.pos, other0.pos)
      requires !S.IsRed(cells, other0.pos)
      requires (other0.left != null && other0.left.red) || (other0.right != null && other0.right.red)
      modifies this`root, this`top, this`cells, order`left, order`right, order`parent, order`red
      ensures Valid()
    {
      var other := other0;
      Links(other);
      if other.left != null {
        Here(other.left);
      }
      if other.right != null {
        Here(other.right);
      }
      if other.left == null || !other.left.red {
        NotRed(other.left);
        other := EraseInnerRight(n, parent, other);
      }
      EraseOuterRight(n, parent, other);
    }

    /** The loop of `__rb_erase_color` is at a black or missing node that is not the root. */
    lemma AtSide(node: Node?, parent: Node?)
      requires Rep() && In(node) && In(parent) && E.Erasing(cells, top, Ix(node), Ix(parent))
      requires (node == null || !node.red) && node != root
      ensures parent != null
      ensures parent.left == node ==> E.AtLeft(cells, top, Ix(node), parent.pos, cells[parent.pos].right)
      ensures parent.left != node ==> E.AtRight(cells, top, Ix(node), parent.pos, cells[parent.pos].left)
      ensures 0 <= E.Width(cells, Ix(node)) < |order|
    {
      InRef(top);
      NotRed(node);
      E.Sibling(cells, top, Ix(node), Ix(parent));
      Links(parent);
      E.Wider(cells, top, Ix(node), parent.pos);
    }

    /** `__rb_erase_color`: repairs the tree after a black node was taken out above node. */
    method EraseColour(node0: Node?, parent0: Node?)
      requires Rep() && In(node0) && In(parent0) && E.Erasing(cells, top, Ix(node0), Ix(parent0))
      modifies this`root, this`top, this`cells, order`left, order`right, order`parent, order`red
      ensures Valid()
    {
      var node, parent, done := node0, parent0, false;
      while (node == null || !node.red) && node != root
        invariant Rep() && In(node) && In(parent)
        invariant done ==> Valid() && node == root
        invariant !done ==> E.Erasing(cells, top, Ix(node), Ix(parent))
        decreases if done then 0 else 1 + |order| - E.Width(cells, Ix(node))
      {
        AtSide(node, parent);
        var up;
        if parent.left == node {
          done, up := EraseStepLeft(Ix(node), parent);
        } else {
          done, up := EraseStepRight(Ix(node), parent);
        }
        node, parent := if done then root else parent, up;
        InRef(top);
      }
      EraseEnd(node, parent, done);
    }

    method EraseEnd(node: Node?, ghost parent: Node?, ghost done: bool)
      requires Rep() && In(node) && In(parent)
      requires done ==> Valid() && node == root
      requires !done ==> E.Erasing(cells, top, Ix(node), Ix(parent)) && ((node != null && node.red) || node == root)
      modifies this`cells, order`red
      ensures Valid()
    {
      InRef(top);
      if node != null {
        Here(node);
        if done {
          I.PaintSame(cells, node.pos);
        } else {
          E.EndedRedBlack(cells, top, Ix(node), Ix(parent));
        }
        SetColour(node, false, if cells[node.pos].red then cells[node.pos].bh + 1 else cells[node.pos].bh);
      } else {
        if !done {
          E.EndedRedBlack(cells, top, Ix(node), Ix(parent));
        }
      }
    }

    // ------------------------------------------------------------ linking a new node

    ghost predicate Absent(n: Node)
      reads this
    {
      n !in order
    }

    /** The positions of all nodes after the in-order sequence became s. */
    ghost method Renumber(s: seq<Node>)
      requires forall i, j :: 0 <= i < j < |s| ==> s[i] != s[j]
      modifies this`order, s`pos
      ensures order == s
      ensures forall i :: 0 <= i < |s| ==> s[i].pos == i
    {
      order := s;
      forall i | 0 <= i < |s| {
        s[i].pos := i;
      }
    }

    lemma Distinct()
      requires Rep()
      ensures forall i, j :: 0 <= i < j < |order| ==> order[i] != order[j]
    {
      forall i, j | 0 <= i < j < |order|
        ensures order[i] != order[j]
      {
        assert Match(i) && Match(j);
      }
    }

    /** New labels for the same links. */
    ghost method Relabel(w: seq<S.Cell>)
      requires Rep() && L.SameLinks(cells, w)
      modifies this`cells
      ensures Rep() && cells == w
    {
      L.SameRanged(cells, w);
      ghost var m := cells;
      cells := w;
      forall i | 0 <= i < |order|
        ensures Match(i)
      {
        assert old(Match(i)) && w[i] == m[i].(lo := w[i].lo, hi := w[i].hi, bh := w[i].bh);
      }
    }

    /** A lone red node enters the in-order sequence at position g. */
    ghost method Enlist(node: Node, g: int)
      requires Rep() && Absent(node) && 0 <= g <= |order|
      requires node.left == null && node.right == null && node.parent == null && node.red
      modifies this`order, this`cells, this`top, node`pos, order`pos
      ensures Rep() && node.pos == g && order == old(order)[..g] + [node] + old(order)[g..]
      ensures cells == L.Shifted(old(cells), g) && top == L.Up(g, old(top))
    {
      Distinct();
      L.ShiftedRanged(cells, g);
      Renumber(order[..g] + [node] + order[g..]);
      cells := L.Shifted(cells, g);
      top := L.Up(g, top);
      assert order[g] == node;
      forall x | -1 <= x < |old(order)|
        ensures Ref(L.Up(g, x)) == old(Ref(x))
      {
      }
      forall j | 0 <= j < |order|
        ensures Match(j)
      {
        if j != g {
          var k := if j < g then j else j - 1;
          assert old(Match(k)) && cells[j] == L.UpCell(g, old(cells)[k]);
        }
      }
    }

    /** Where the old nodes are after node was enlisted at g. */
    lemma Enlisted(s: seq<Node>, node: Node, g: int, i: int)
      requires Rep() && 0 <= g <= |s| && order == s[..g] + [node] + s[g..] && 0 <= i < |s|
      ensures In(s[i]) && s[i].pos == L.Up(g, i)
    {
      assert order[L.Up(g, i)] == s[i];
      assert Match(L.Up(g, i));
    }

    /** Changing a node outside the tree changes nothing. */
    twostate lemma StillRep()
      requires old(Rep()) && unchanged(this) && forall i :: 0 <= i < |order| ==> unchanged(order[i])
      ensures Rep()
    {
      forall i | 0 <= i < |order|
        ensures Match(i)
      {
        assert old(Match(i));
      }
    }

    /** `rb_link_node`: node becomes a red leaf below parent, on the side the search ended. */
    method LinkNode(node: Node, parent: Node?, atLeft: bool)
      requires Rep() && Absent(node) && In(parent)
      requires parent == null ==> cells == []
      modifies this, node, order
      ensures Rep() && In(node) && node.pos == L.Gap(old(Ix(parent)), atLeft)
      ensures order == old(order[..L.Gap(Ix(parent), atLeft)]) + [node] + old(order[L.Gap(Ix(parent), atLeft)..])
      ensures cells == L.Grown(old(cells), old(Ix(parent)), atLeft)
      ensures top == L.GrownRoot(old(top), old(Ix(parent)), atLeft)
    {
      ghost var m, p, g := cells, Ix(parent), L.Gap(Ix(parent), atLeft);
      node.parent := null;
      node.red := true;
      node.left := null;
      node.right := null;
      L.GrownLinks(m, p, atLeft, g);
      StillRep();
      Enlist(node, g);
      if parent != null {
        Enlisted(old(order), node, g, p);
      }
      if parent == null {
        SetRoot(node);
      } else if atLeft {
        AdoptLeft(parent, node);
      } else {
        AdoptRight(parent, node);
      }
      Relabel(L.Grown(m, p, atLeft));
    }

    /** `rb_link_node` followed by `rb_insert_color`: node takes the free place below parent, and the
        in-order sequence grows by node, just before or just after parent. */
    method Insert(node: Node, parent: Node?, atLeft: bool)
      requires Valid() && Absent(node) && In(parent)
      requires L.Free(cells, top, Ix(parent), atLeft)
      modifies this, node, order
      ensures Valid()
      ensures order == old(order[..L.Gap(Ix(parent), atLeft)]) + [node] + old(order[L.Gap(Ix(parent), atLeft)..])
    {
      L.GrownInserting(cells, top, Ix(parent), atLeft);
      LinkNode(node, parent, atLeft);
      InsertColour(node);
    }

    // ------------------------------------------------------------ taking a node out

    /** The node at position k, to which no link leads any more, leaves the in-order sequence. */
    ghost method Drop(k: int, w: seq<S.Cell>)
      requires Rep() && L.Drops(cells, k, w) && top != k
      modifies this`order, this`cells, this`top, order`pos
      ensures Rep() && order == old(order)[..k] + old(order)[k + 1..]
      ensures cells == w && top == L.Dn(k, old(top))
    {
      Distinct();
      L.DropsRanged(cells, k, w);
      Renumber(order[..k] + order[k + 1..]);
      cells := w;
      top := L.Dn(k, top);
      forall x | -1 <= x < |old(order)| && x != k
        ensures Ref(L.Dn(k, x)) == old(Ref(x))
      {
      }
      forall j | 0 <= j < |order|
        ensures Match(j)
      {
        var i := if j < k then j else j + 1;
        assert old(Match(i)) && L.DropsTo(old(cells)[i], k, cells[L.Dn(k, i)]);
      }
    }

    lemma Dropped(s: seq<Node>, k: int, i: int)
      requires Rep() && 0 <= k < |s| && order == s[..k] + s[k + 1..] && 0 <= i < |s| && i != k
      ensures In(s[i]) && s[i].pos == L.Dn(k, i)
    {
      assert order[L.Dn(k, i)] == s[i];
      assert Match(L.Dn(k, i));
    }

    /** `rb_erase` of a node with at most one child, up to the repair. */
    method SpliceOut(node: Node, child: Node?)
      requires Valid() && In(node) && In(child) && L.OnlyChild(cells, node.pos, Ix(child))
      modifies this`root, this`top, this`cells, this`order, order`left, order`right, order`parent, order`pos
      ensures Rep() && order == old(order[..node.pos]) + old(order[node.pos + 1..])
      ensures cells == L.Spliced(old(cells), old(node.pos), old(Ix(child)))
      ensures top == L.SplicedRoot(old(cells), old(top), old(node.pos), old(Ix(child)))
    {
      ghost var m, k, c := cells, node.pos, Ix(child);
      Links(node);
      L.SingleDrops(m, top, k, c);
      S.Node(m, top, k);
      Hook(node.parent, node, child);
      Drop(k, L.Spliced(m, k, c));
    }

    /** The leftmost node of the right subtree of old. */
    method LeftmostRight(old_: Node) returns (node: Node)
      requires Valid() && In(old_) && old_.left != null && old_.right != null
      ensures In(node) && L.Successor(cells, old_.pos, node.pos)
    {
      ghost var k := old_.pos;
      Links(old_);
      S.Node(cells, top, k);
      node := old_.right;
      S.Node(cells, top, node.pos);
      Links(node);
      while node.left != null
        invariant In(node) && cells[node.pos].lo == k + 1 && S.NodeOk(cells, top, node.pos) && Match(node.pos)
        invariant Ix(node.left) == cells[node.pos].left && In(node.left)
        decreases node.pos - k
      {
        node := node.left;
        S.Node(cells, top, node.pos);
        Links(node);
      }
    }

    /** s leaves its place below `below` to its child and takes the subtree `right`. */
    method Detach(below: Node, child: Node?, s: Node, right: Node)
      requires Rep() && In(below) && In(child) && In(s) && In(right)
      modifies this`cells, order`left, order`right, order`parent
      ensures Rep()
      ensures cells == S.AdoptRight(S.AdoptLeft(old(cells), below.pos, Ix(child)), s.pos, right.pos)
    {
      AdoptLeft(below, child);
      AdoptRight(s, right);
    }

    /** `node->rb_parent_color = old->rb_parent_color` and the left subtree. */
    method TakeOver(s: Node, parent: Node?, red: bool, left: Node)
      requires Rep() && In(s) && In(parent) && In(left)
      modifies this`cells, order`left, order`parent, order`red
      ensures Rep()
      ensures cells == S.AdoptLeft(old(cells)[s.pos := old(cells)[s.pos].(parent := Ix(parent), red := red)], s.pos,
              left.pos)
    {
      SetParent(s, parent);
      SetColour(s, red, cells[s.pos].bh);
      AdoptLeft(s, left);
    }

    /** The assignments of `rb_erase` that put the successor s in node's place. */
    method PutSuccessor(node: Node, s: Node)
      requires Valid() && In(node) && In(s) && L.Successor(cells, node.pos, s.pos)
      requires S.Fits(cells, cells[node.pos].parent) && S.Has(cells, cells[node.pos].left)
      requires S.Has(cells, cells[node.pos].right)
      requires S.Has(cells, cells[s.pos].parent) && S.Fits(cells, cells[s.pos].right)
      modifies this`root, this`top, this`cells, order`left, order`right, order`parent, order`red
      ensures Rep() && cells == L.Replaced(old(cells), node.pos, s.pos)
      ensures top == if old(node.parent) == null then s.pos else old(top)
    {
      Links(node);
      Links(s);
      var up, left, right, below, child := node.parent, node.left, node.right, s.parent, s.right;
      var colour := node.red;
      Relink(up, node, s);
      if below != node {
        Detach(below, child, s, right);
      }
      TakeOver(s, up, colour, left);
    }

    /** The tail of `rb_erase`: the node at k of the shape m was spliced out; repair if it was black. */
    method Repair(child: Node?, parent: Node?, red: bool, ghost m: seq<S.Cell>, ghost t: int, ghost k: int,
                  ghost c: int)
      requires S.RedBlack(m, t) && L.OnlyChild(m, k, c) && red == m[k].red
      requires Rep() && cells == L.Spliced(m, k, c) && top == L.SplicedRoot(m, t, k, c)
      requires In(child) && Ix(child) == L.Dn(k, c) && In(parent) && Ix(parent) == L.Dn(k, m[k].parent)
      modifies this`root, this`top, this`cells, order`left, order`right, order`parent, order`red
      ensures Valid()
    {
      if red {
        L.SplicedRedBlack(m, t, k, c);
      } else {
        L.SplicedErasing(m, t, k, c);
        EraseColour(child, parent);
      }
    }

    static lemma Remaining(s: seq<Node>, k: int, r: seq<Node>)
      requires 0 <= k < |s| && r == s[..k] + s[k + 1..]
      ensures forall i :: 0 <= i < |r| ==> r[i] in s
    {
      forall i | 0 <= i < |r|
        ensures r[i] in s
      {
        assert r[i] == if i < k then s[i] else s[i + 1];
      }
    }

    /** `rb_erase` of a node with at most one child. */
    method EraseSingle(node: Node, child: Node?)
      requires Valid() && In(node) && In(child) && L.OnlyChild(cells, node.pos, Ix(child))
      modifies this`root, this`top, this`cells, this`order, order
      ensures Valid() && order == old(order[..node.pos]) + old(order[node.pos + 1..])
    {
      ghost var m, t, k, c := cells, top, node.pos, Ix(child);
      Links(node);
      S.Node(m, t, k);
      var parent, red := node.parent, node.red;
      ghost var p, s := Ix(parent), order;
      SpliceOut(node, child);
      Remaining(s, k, order);
      if child != null {
        Dropped(s, k, c);
      }
      if parent != null {
        Dropped(s, k, p);
      }
      Repair(child, parent, red, m, t, k, c);
    }

    /** `rb_erase` of a node with two children, up to the repair: s takes node's place. */
    method SwapOut(node: Node, s: Node)
      requires Valid() && In(node) && In(s) && L.Successor(cells, node.pos, s.pos)
      modifies this`root, this`top, this`cells, this`order, order
      ensures Rep() && order == old(order[..node.pos]) + old(order[node.pos + 1..])
      ensures cells == L.Spliced(old(cells), old(s.pos), old(cells)[old(s.pos)].right)
      ensures top == L.SplicedRoot(old(cells), old(top), old(s.pos), old(cells)[old(s.pos)].right)
    {
      ghost var m, t, k := cells, top, node.pos;
      L.DoubleDrops(m, t, k, s.pos);
      L.SuccessorRoot(m, t, k, s.pos);
      Links(node);
      S.Node(m, t, k);
      SwapTop(m, t, k);
      PutSuccessor(node, s);
      Drop(k, L.Spliced(m, k + 1, m[k + 1].right));
    }

    /** The root after s = k+1 took k's place is the root of the spliced shape. */
    lemma SwapTop(m: seq<S.Cell>, t: int, k: int)
      requires S.Linked(m, t) && L.Successor(m, k, k + 1)
      ensures m[k + 1].parent != S.NIL && t != k + 1
      ensures t == k <==> m[k].parent == S.NIL
      ensures L.SplicedRoot(m, t, k + 1, m[k + 1].right) == L.Dn(k, if t == k then k + 1 else t)
    {
      L.SuccessorRoot(m, t, k, k + 1);
      S.Node(m, t, k);
      S.Node(m, t, k + 1);
    }

    /** `rb_erase` of a node with two children. */
    method EraseDouble(node: Node)
      requires Valid() && In(node) && node.left != null && node.right != null
      modifies this`root, this`top, this`cells, this`order, order
      ensures Valid() && order == old(order[..node.pos]) + old(order[node.pos + 1..])
    {
      var s := LeftmostRight(node);
      ghost var m, t, k := cells, top, node.pos;
      SuccessorLinks(node, s);
      var child, red := s.right, s.red;
      var parent := if s.parent == node then s else s.parent;
      ghost var c, p, all := m[k + 1].right, m[k + 1].parent, order;
      SwapOut(node, s);
      Remaining(all, k, order);
      Dropped(all, k, k + 1);
      if child != null {
        Dropped(all, k, c);
      }
      if p != k {
        Dropped(all, k, p);
      }
      Repair(child, parent, red, m, t, k + 1, c);
    }

    lemma SuccessorLinks(node: Node, s: Node)
      requires Valid() && In(node) && In(s) && L.Successor(cells, node.pos, s.pos)
      ensures s.right == Ref(cells[s.pos].right) && s.parent == Ref(cells[s.pos].parent) && s.red == cells[s.pos].red
      ensures S.Has(cells, cells[s.pos].parent) && cells[s.pos].parent != s.pos
      ensures s.parent == node <==> cells[s.pos].parent == node.pos
      ensures L.OnlyChild(cells, s.pos, cells[s.pos].right) && S.Fits(cells, cells[s.pos].right)
      ensures cells[s.pos].right != S.NIL ==> cells[s.pos].right > s.pos
      ensures cells[s.pos].parent == node.pos || cells[s.pos].parent > s.pos
    {
      Links(s);
      L.SuccessorArea(cells, top, node.pos, s.pos);
      RefIs(cells[s.pos].parent, node);
    }

    /** `rb_erase`: exactly node leaves the in-order sequence, and the tree is valid again. */
    method Erase(node: Node)
      requires Valid() && In(node)
      modifies this, order
      ensures Valid() && order == old(order[..node.pos]) + old(order[node.pos + 1..])
    {
      Links(node);
      if node.left == null {
        EraseSingle(node, node.right);
      } else if node.right == null {
        EraseSingle(node, node.left);
      } else {
        EraseDouble(node);
      }
    }

    // ------------------------------------------------------------ walking in order

    /** `rb_first`. */
    method First() returns (n: Node?)
      requires Valid()
      ensures n == Ref(0)
    {
      n := root;
      if n == null {
        return;
      }
      InRef(top);
      S.Node(cells, top, n.pos);
      Links(n);
      while n.left != null
        invariant n != null && In(n) && S.NodeOk(cells, top, n.pos) && cells[n.pos].lo == 0
        invariant In(n.left) && Ix(n.left) == cells[n.pos].left
        decreases n.pos
      {
        n := n.left;
        S.Node(cells, top, n.pos);
        Links(n);
      }
    }

    /** `rb_last`. */
    method Last() returns (n: Node?)
      requires Valid()
      ensures n == Ref(|order| - 1)
    {
      n := root;
      if n == null {
        return;
      }
      InRef(top);
      S.Node(cells, top, n.pos);
      Links(n);
      while n.right != null
        invariant n != null && In(n) && S.NodeOk(cells, top, n.pos) && cells[n.pos].hi == |order|
        invariant In(n.right) && Ix(n.right) == cells[n.pos].right
        decreases |order| - n.pos
      {
        n := n.right;
        S.Node(cells, top, n.pos);
        Links(n);
      }
    }

    /** Down from r, always to the left. */
    method DownLeft(start: Node, ghost bound: int) returns (r: Node)
      requires Valid() && In(start) && cells[start.pos].lo == bound
      ensures In(r) && cells[r.pos].lo == bound && cells[r.pos].left == S.NIL
    {
      r := start;
      S.Node(cells, top, r.pos);
      Links(r);
      while r.left != null
        invariant In(r) && S.NodeOk(cells, top, r.pos) && cells[r.pos].lo == bound
        invariant In(r.left) && Ix(r.left) == cells[r.pos].left
        decreases r.pos
      {
        r := r.left;
        S.Node(cells, top, r.pos);
        Links(r);
      }
    }

    /** Up from a node, as long as it is a right child. */
    method UpFromRight(start: Node, ghost bound: int) returns (r: Node?)
      requires Valid() && In(start) && cells[start.pos].hi == bound
      ensures r == Ref(bound)
    {
      var n: Node := start;
      S.Node(cells, top, n.pos);
      Links(n);
      while n.parent != null && n == n.parent.right
        invariant In(n) && S.NodeOk(cells, top, n.pos) && cells[n.pos].hi == bound
        invariant In(n.parent) && Ix(n.parent) == cells[n.pos].parent
        decreases |order| - (cells[n.pos].hi - cells[n.pos].lo)
      {
        Up(n);
        n := n.parent;
        Links(n);
      }
      if n.parent != null {
        Up(n);
      }
      r := n.parent;
    }

    /** `rb_next`: the node after node in the in-order sequence, or none. */
    method Next(node: Node) returns (r: Node?)
      requires Valid() && (In(node) || node.parent == node)
      ensures In(node) ==> node.parent != node && r == Ref(node.pos + 1)
      ensures node.parent == node ==> r == null
    {
      if In(node) {
        Links(node);
        S.Node(cells, top, node.pos);
      }
      if node.parent == node {
        return null;
      }
      if node.right != null {
        S.Node(cells, top, node.right.pos);
        r := DownLeft(node.right, node.pos + 1);
        S.Node(cells, top, r.pos);
      } else {
        r := UpFromRight(node, node.pos + 1);
      }
    }

    /** Down from r, always to the right. */
    method DownRight(start: Node, ghost bound: int) returns (r: Node)
      requires Valid() && In(start) && cells[start.pos].hi == bound
      ensures In(r) && cells[r.pos].hi == bound && cells[r.pos].right == S.NIL
    {
      r := start;
      S.Node(cells, top, r.pos);
      Links(r);
      while r.right != null
        invariant In(r) && S.NodeOk(cells, top, r.pos) && cells[r.pos].hi == bound
        invariant In(r.right) && Ix(r.right) == cells[r.pos].right
        decreases |order| - r.pos
      {
        r := r.right;
        S.Node(cells, top, r.pos);
        Links(r);
      }
    }

    /** Up from a node, as long as it is a left child. */
    method UpFromLeft(start: Node, ghost bound: int) returns (r: Node?)
      requires Valid() && In(start) && cells[start.pos].lo == bound
      ensures r == Ref(bound - 1)
    {
      var n: Node := start;
      S.Node(cells, top, n.pos);
      Links(n);
      while n.parent != null && n == n.parent.left
        invariant In(n) && S.NodeOk(cells, top, n.pos) && cells[n.pos].lo == bound
        invariant In(n.parent) && Ix(n.parent) == cells[n.pos].parent
        decreases |order| - (cells[n.pos].hi - cells[n.pos].lo)
      {
        Up(n);
        n := n.parent;
        Links(n);
      }
      if n.parent != null {
        Up(n);
      }
      r := n.parent;
    }

    /** `rb_prev`. */
    method Prev(node: Node) returns (r: Node?)
      requires Valid() && (In(node) || node.parent == node)
      ensures In(node) ==> node.parent != node && r == Ref(node.pos - 1)
      ensures node.parent == node ==> r == null
    {
      if In(node) {
        Links(node);
        S.Node(cells, top, node.pos);
      }
      if node.parent == node {
        return null;
      }
      if node.left != null {
        S.Node(cells, top, node.left.pos);
        r := DownRight(node.left, node.pos);
        S.Node(cells, top, r.pos);
      } else {
        r := UpFromLeft(node, node.pos);
      }
    }

    /** From a node to its parent. */
    lemma Up(n: Node)
      requires Valid() && In(n) && n.parent != null
      ensures In(n.parent) && n.parent.pos == cells[n.pos].parent && S.NodeOk(cells, top, n.parent.pos)
      ensures n == n.parent.right <==> cells[n.parent.pos].right == n.pos
      ensures n == n.parent.left <==> cells[n.parent.pos].left == n.pos
    {
      Links(n);
      S.Node(cells, top, n.pos);
      S.Node(cells, top, n.parent.pos);
      Links(n.parent);
      RefIs(cells[n.parent.pos].right, n);
      RefIs(cells[n.parent.pos].left, n);
    }
  }
}
