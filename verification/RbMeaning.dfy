/** The local conditions of RbShape mean what a textbook says of a red-black tree. */
module RbMeaning {
  import opened Numbers
  import opened RbShape
  import E = RbErase

  datatype Tree = Leaf | Branch(left: Tree, node: int, red: bool, right: Tree)

  /** The tree the links spell out below node i. */
  ghost function TreeAt(m: seq<Cell>, root: int, i: int): Tree
    requires Linked(m, root) && Fits(m, i)
    decreases E.Width(m, i)
  {
    if i == NIL then Leaf
    else
      Below(m, root, i);
      Branch(TreeAt(m, root, m[i].left), i, m[i].red, TreeAt(m, root, m[i].right))
  }

  lemma Below(m: seq<Cell>, root: int, i: int)
    requires Linked(m, root) && Has(m, i)
    ensures Fits(m, m[i].left) && 0 <= E.Width(m, m[i].left) < E.Width(m, i)
    ensures Fits(m, m[i].right) && 0 <= E.Width(m, m[i].right) < E.Width(m, i)
    ensures NodeOk(m, root, i)
  {
    Node(m, root, i);
    E.Wider(m, root, m[i].left, i);
    E.Wider(m, root, m[i].right, i);
  }

  ghost function InOrder(t: Tree): seq<int> {
    match t
    case Leaf => []
    case Branch(l, i, _, r) => InOrder(l) + [i] + InOrder(r)
  }

  ghost function Range(lo: int, hi: int): seq<int>
    requires lo <= hi
  {
    seq(hi - lo, i => lo + i)
  }

  /** The subtree at i holds exactly the positions its label says, in order. */
  lemma {:induction false} InOrderIsRange(m: seq<Cell>, root: int, i: int)
    requires Linked(m, root) && Has(m, i)
    ensures m[i].lo <= i < m[i].hi
    ensures InOrder(TreeAt(m, root, i)) == Range(m[i].lo, m[i].hi)
    decreases E.Width(m, i)
  {
    Below(m, root, i);
    if m[i].left != NIL {
      InOrderIsRange(m, root, m[i].left);
    }
    if m[i].right != NIL {
      InOrderIsRange(m, root, m[i].right);
    }
  }

  /** Every path from the root of t to a leaf meets b black nodes. */
  ghost predicate BlackPaths(t: Tree, b: int) {
    match t
    case Leaf => b == 0
    case Branch(l, _, red, r) =>
      var d := if red then b else b - 1;
      BlackPaths(l, d) && BlackPaths(r, d)
  }

  ghost predicate RedTop(t: Tree) {
    t.Branch? && t.red
  }

  ghost predicate NoRedRed(t: Tree) {
    match t
    case Leaf => true
    case Branch(l, _, red, r) => (red ==> !RedTop(l) && !RedTop(r)) && NoRedRed(l) && NoRedRed(r)
  }

  /** The nodes on the longest path. */
  ghost function Height(t: Tree): nat {
    match t
    case Leaf => 0
    case Branch(l, _, _, r) => 1 + if Height(l) > Height(r) then Height(l) else Height(r)
  }

  lemma {:induction false} Colours(m: seq<Cell>, root: int, i: int)
    requires RedBlack(m, root) && Fits(m, i)
    ensures BlackPaths(TreeAt(m, root, i), BhOf(m, i)) && NoRedRed(TreeAt(m, root, i))
    ensures 0 <= BhOf(m, i)
    decreases E.Width(m, i)
  {
    if i == NIL {
    } else {
      Below(m, root, i);
      assert BalOk(m, i);
      Colours(m, root, m[i].left);
      Colours(m, root, m[i].right);
      assert m[i].left != NIL ==> RedOk(m, m[i].left);
      assert m[i].right != NIL ==> RedOk(m, m[i].right);
    }
  }

  /** A red-black shape is a red-black tree whose in-order sequence is 0, 1, ..., |m|-1. */
  lemma RedBlackMeans(m: seq<Cell>, root: int)
    requires RedBlack(m, root)
    ensures Fits(m, root)
    ensures InOrder(TreeAt(m, root, root)) == Range(0, |m|)
    ensures BlackPaths(TreeAt(m, root, root), BhOf(m, root))
    ensures NoRedRed(TreeAt(m, root, root)) && !RedTop(TreeAt(m, root, root))
  {
    Colours(m, root, root);
    if m != [] {
      InOrderIsRange(m, root, root);
    }
  }

  /** A subtree of black height b has at least 2^b - 1 nodes. */
  lemma {:induction false} Populous(m: seq<Cell>, root: int, i: int)
    requires RedBlack(m, root) && Fits(m, i)
    ensures 0 <= BhOf(m, i) && Pow2(BhOf(m, i)) <= E.Width(m, i) + 1
    decreases E.Width(m, i)
  {
    if i == NIL {
    } else {
      Below(m, root, i);
      assert BalOk(m, i);
      Populous(m, root, m[i].left);
      Populous(m, root, m[i].right);
    }
  }

  /** The steps a search can still take from i. */
  ghost function Reach(m: seq<Cell>, i: int): int {
    2 * BhOf(m, i) + if IsRed(m, i) then 1 else 0
  }

  lemma ReachFalls(m: seq<Cell>, root: int, i: int)
    requires RedBlack(m, root) && Has(m, i)
    ensures Fits(m, m[i].left) && 0 <= Reach(m, m[i].left) < Reach(m, i)
    ensures Fits(m, m[i].right) && 0 <= Reach(m, m[i].right) < Reach(m, i)
  {
    Below(m, root, i);
    assert BalOk(m, i);
    Populous(m, root, m[i].left);
    Populous(m, root, m[i].right);
    assert m[i].left != NIL ==> RedOk(m, m[i].left) && BalOk(m, m[i].left);
    assert m[i].right != NIL ==> RedOk(m, m[i].right) && BalOk(m, m[i].right);
  }

  /** No path is longer than twice the logarithm of the number of nodes plus one. */
  lemma {:induction false} Shallow(m: seq<Cell>, root: int, i: int)
    requires RedBlack(m, root) && Fits(m, i)
    ensures Height(TreeAt(m, root, i)) <= Reach(m, i)
    decreases E.Width(m, i)
  {
    if i == NIL {
    } else {
      Below(m, root, i);
      ReachFalls(m, root, i);
      Shallow(m, root, m[i].left);
      Shallow(m, root, m[i].right);
    }
  }
}
