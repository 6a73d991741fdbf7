/** Adding a leaf to a tree shape and taking a node with at most one child out of it. */
module RbSlots {
  import opened RbShape
  import opened RbInsert
  import opened RbErase

  // ---------------------------------------------------------------- a new leaf

  /** Position x after a new node is put at position g. */
  ghost function Up(g: int, x: int): int {
    if x >= g then x + 1 else x
  }

  /** Where a new child of p goes: just before p on the left, just after it on the right. */
  ghost function Gap(p: int, atLeft: bool): int {
    if p == NIL || atLeft then (if p == NIL then 0 else p) else p + 1
  }

  ghost predicate Free(m: seq<Cell>, root: int, p: int, atLeft: bool) {
    if p == NIL then m == [] else Has(m, p) && (if atLeft then m[p].left else m[p].right) == NIL
  }

  ghost function GrownCell(m: seq<Cell>, p: int, atLeft: bool, k: int): Cell
    requires Has(m, k)
  {
    var g := Gap(p, atLeft);
    Cell(if k == p && atLeft then g else Up(g, m[k].left),
         if k == p && !atLeft then g else Up(g, m[k].right),
         Up(g, m[k].parent),
         m[k].red,
         Up(p + 1, m[k].lo),
         Up(p + 1, m[k].hi),
         m[k].bh)
  }

  /** `rb_link_node`: a red leaf below p. */
  ghost function Grown(m: seq<Cell>, p: int, atLeft: bool): (r: seq<Cell>)
    requires p == NIL ==> m == []
    requires p != NIL ==> Has(m, p)
  {
    var g := Gap(p, atLeft);
    seq(|m| + 1, j requires 0 <= j <= |m| =>
      if j == g then Cell(NIL, NIL, Up(g, p), true, g, g + 1, 0)
      else GrownCell(m, p, atLeft, if j < g then j else j - 1))
  }

  ghost function GrownRoot(root: int, p: int, atLeft: bool): int {
    if p == NIL then 0 else Up(Gap(p, atLeft), root)
  }

  /** Cell c with its links moved past a new position g. */
  ghost function UpCell(g: int, c: Cell): Cell {
    c.(left := Up(g, c.left), right := Up(g, c.right), parent := Up(g, c.parent))
  }

  /** A lone red node at position g, the rest as before. */
  ghost function Shifted(m: seq<Cell>, g: int): (r: seq<Cell>)
    requires 0 <= g <= |m|
    ensures |r| == |m| + 1
  {
    seq(|m| + 1, j requires 0 <= j <= |m| =>
      if j == g then Cell(NIL, NIL, NIL, true, g, g + 1, 0) else UpCell(g, m[if j < g then j else j - 1]))
  }

  /** The same links and colours; labels may differ. */
  ghost predicate SameLinks(a: seq<Cell>, b: seq<Cell>) {
    |a| == |b| && forall i {:trigger a[i]} :: Has(a, i) ==> b[i] == a[i].(lo := b[i].lo, hi := b[i].hi, bh := b[i].bh)
  }

  lemma SameRanged(a: seq<Cell>, b: seq<Cell>)
    requires SameLinks(a, b) && Ranged(a)
    ensures Ranged(b)
  {
    forall i | Has(b, i)
      ensures -1 <= b[i].left < |b| && -1 <= b[i].right < |b| && -1 <= b[i].parent < |b|
    {
      assert b[i] == a[i].(lo := b[i].lo, hi := b[i].hi, bh := b[i].bh);
    }
  }

  lemma ShiftedRanged(m: seq<Cell>, g: int)
    requires Ranged(m) && 0 <= g <= |m|
    ensures Ranged(Shifted(m, g))
  {
    var r := Shifted(m, g);
    forall j | Has(r, j)
      ensures -1 <= r[j].left < |r| && -1 <= r[j].right < |r| && -1 <= r[j].parent < |r|
    {
      if j != g {
        assert r[j] == UpCell(g, m[if j < g then j else j - 1]);
      }
    }
  }

  /** The lone node at g linked below p. */
  ghost function Attached(w: seq<Cell>, p: int, g: int, atLeft: bool): (r: seq<Cell>)
    requires Has(w, g) && Fits(w, p)
    ensures |r| == |w|
  {
    if p == NIL then w else if atLeft then AdoptLeft(w, p, g) else AdoptRight(w, p, g)
  }

  /** Linking the lone node below p gives the grown tree. */
  lemma GrownLinks(m: seq<Cell>, p: int, atLeft: bool, g: int)
    requires if p == NIL then m == [] else Has(m, p)
    requires g == Gap(p, atLeft)
    ensures SameLinks(Attached(Shifted(m, g), Up(g, p), g, atLeft), Grown(m, p, atLeft))
  {
    var w := Shifted(m, g);
    var a, b := Attached(w, Up(g, p), g, atLeft), Grown(m, p, atLeft);
    forall j | Has(a, j)
      ensures b[j] == a[j].(lo := b[j].lo, hi := b[j].hi, bh := b[j].bh)
    {
      if j != g {
        var k := if j < g then j else j - 1;
        assert w[j] == UpCell(g, m[k]) && b[j] == GrownCell(m, p, atLeft, k);
      }
    }
  }

  lemma GrownOld(m: seq<Cell>, root: int, p: int, atLeft: bool, k: int)
    requires Linked(m, root) && Free(m, root, p, atLeft) && Has(m, k)
    ensures NodeOk(Grown(m, p, atLeft), GrownRoot(root, p, atLeft), Up(Gap(p, atLeft), k))
  {
    Node(m, root, k);
    Node(m, root, p);
    var r, g := Grown(m, p, atLeft), Gap(p, atLeft);
    var j := Up(g, k);
    assert r[j] == GrownCell(m, p, atLeft, k);
    if m[k].left != NIL {
      assert r[Up(g, m[k].left)] == GrownCell(m, p, atLeft, m[k].left);
    }
    if m[k].right != NIL {
      assert r[Up(g, m[k].right)] == GrownCell(m, p, atLeft, m[k].right);
    }
    if m[k].parent != NIL {
      assert r[Up(g, m[k].parent)] == GrownCell(m, p, atLeft, m[k].parent);
    }
  }

  lemma GrownNew(m: seq<Cell>, root: int, p: int, atLeft: bool)
    requires Linked(m, root) && Free(m, root, p, atLeft)
    ensures NodeOk(Grown(m, p, atLeft), GrownRoot(root, p, atLeft), Gap(p, atLeft))
  {
    var r, g := Grown(m, p, atLeft), Gap(p, atLeft);
    assert r[g] == Cell(NIL, NIL, Up(g, p), true, g, g + 1, 0);
    if p != NIL {
      Node(m, root, p);
      assert r[Up(g, p)] == GrownCell(m, p, atLeft, p);
    }
  }

  lemma GrownLinked(m: seq<Cell>, root: int, p: int, atLeft: bool)
    requires Linked(m, root) && Free(m, root, p, atLeft)
    ensures Linked(Grown(m, p, atLeft), GrownRoot(root, p, atLeft))
  {
    var r, root', g := Grown(m, p, atLeft), GrownRoot(root, p, atLeft), Gap(p, atLeft);
    assert r[g] == Cell(NIL, NIL, Up(g, p), true, g, g + 1, 0);
    if p != NIL {
      Node(m, root, p);
      Node(m, root, root);
      assert r[Up(g, root)] == GrownCell(m, p, atLeft, root);
    }
    forall j | Has(r, j)
      ensures NodeOk(r, root', j)
    {
      if j == g {
        GrownNew(m, root, p, atLeft);
      } else {
        GrownOld(m, root, p, atLeft, if j < g then j else j - 1);
      }
    }
  }

  lemma GrownColours(m: seq<Cell>, root: int, p: int, atLeft: bool, k: int)
    requires RedBlack(m, root) && Free(m, root, p, atLeft) && Has(m, k)
    ensures |Grown(m, p, atLeft)| == |m| + 1
    ensures BalOk(Grown(m, p, atLeft), Up(Gap(p, atLeft), k))
    ensures RedOk(Grown(m, p, atLeft), Up(Gap(p, atLeft), k))
  {
    Node(m, root, k);
    assert BalOk(m, k) && RedOk(m, k);
    var r, g := Grown(m, p, atLeft), Gap(p, atLeft);
    var j := Up(g, k);
    assert r[j] == GrownCell(m, p, atLeft, k);
    if m[k].left != NIL {
      assert r[Up(g, m[k].left)] == GrownCell(m, p, atLeft, m[k].left);
    }
    if m[k].right != NIL {
      assert r[Up(g, m[k].right)] == GrownCell(m, p, atLeft, m[k].right);
    }
    if m[k].parent != NIL {
      assert r[Up(g, m[k].parent)] == GrownCell(m, p, atLeft, m[k].parent);
    }
  }

  lemma GrownInserting(m: seq<Cell>, root: int, p: int, atLeft: bool)
    requires RedBlack(m, root) && Free(m, root, p, atLeft)
    ensures Inserting(Grown(m, p, atLeft), GrownRoot(root, p, atLeft), Gap(p, atLeft))
  {
    GrownLinked(m, root, p, atLeft);
    var r, g := Grown(m, p, atLeft), Gap(p, atLeft);
    forall j | Has(r, j)
      ensures BalOk(r, j)
      ensures j != g ==> RedOk(r, j)
    {
      if j != g {
        GrownColours(m, root, p, atLeft, if j < g then j else j - 1);
      }
    }
    if p != NIL {
      Node(m, root, root);
      assert r[Up(g, root)] == GrownCell(m, p, atLeft, root);
    }
  }

  // ---------------------------------------------------------------- taking a node out

  /** Position x after position k is gone. */
  ghost function Dn(k: int, x: int): int {
    if x > k then x - 1 else x
  }

  /** k has at most one child, and c is that child or NIL. */
  ghost predicate OnlyChild(m: seq<Cell>, k: int, c: int) {
    Has(m, k) && ((m[k].left == NIL && m[k].right == c) || (m[k].right == NIL && m[k].left == c))
  }

  ghost function SplicedCell(m: seq<Cell>, k: int, c: int, i: int): Cell
    requires Has(m, k) && Has(m, i)
  {
    var p := m[k].parent;
    Cell(Dn(k, if i == p && m[p].left == k then c else m[i].left),
         Dn(k, if i == p && m[p].left != k then c else m[i].right),
         Dn(k, if i == c then p else m[i].parent),
         m[i].red,
         Dn(k, m[i].lo),
         Dn(k, m[i].hi),
         m[i].bh)
  }

  /** c takes the place of its parent k. */
  ghost function Spliced(m: seq<Cell>, k: int, c: int): (r: seq<Cell>)
    requires Has(m, k)
  {
    seq(|m| - 1, j requires 0 <= j < |m| - 1 => SplicedCell(m, k, c, if j < k then j else j + 1))
  }

  ghost function SplicedRoot(m: seq<Cell>, root: int, k: int, c: int): int
    requires Has(m, k)
  {
    if m[k].parent == NIL then Dn(k, c) else Dn(k, root)
  }

  lemma SplicedArea(m: seq<Cell>, root: int, k: int, c: int, i: int)
    requires Linked(m, root) && OnlyChild(m, k, c) && Has(m, i) && i != k
    ensures NodeOk(m, root, k) && NodeOk(m, root, i) && c != k && m[k].parent != k
    ensures c != NIL ==> NodeOk(m, root, c) && m[c].parent == k && c != m[k].parent
    ensures m[k].parent != NIL ==> NodeOk(m, root, m[k].parent)
    ensures |Spliced(m, k, c)| == |m| - 1 && Spliced(m, k, c)[Dn(k, i)] == SplicedCell(m, k, c, i)
  {
    Node(m, root, k);
    Node(m, root, i);
    if c != NIL {
      Node(m, root, c);
    }
    if m[k].parent != NIL {
      Node(m, root, m[k].parent);
    }
  }

  lemma SplicedLeftOk(m: seq<Cell>, root: int, k: int, c: int, i: int)
    requires Linked(m, root) && OnlyChild(m, k, c) && Has(m, i) && i != k
    ensures |Spliced(m, k, c)| == |m| - 1 && LeftOk(Spliced(m, k, c), Dn(k, i))
  {
    SplicedArea(m, root, k, c, i);
    if m[i].left != NIL && m[i].left != k {
      SplicedArea(m, root, k, c, m[i].left);
    }
    if c != NIL {
      SplicedArea(m, root, k, c, c);
    }
  }

  lemma SplicedRightOk(m: seq<Cell>, root: int, k: int, c: int, i: int)
    requires Linked(m, root) && OnlyChild(m, k, c) && Has(m, i) && i != k
    ensures |Spliced(m, k, c)| == |m| - 1 && RightOk(Spliced(m, k, c), Dn(k, i))
  {
    SplicedArea(m, root, k, c, i);
    if m[i].right != NIL && m[i].right != k {
      SplicedArea(m, root, k, c, m[i].right);
    }
    if c != NIL {
      SplicedArea(m, root, k, c, c);
    }
  }

  lemma SplicedParentOk(m: seq<Cell>, root: int, k: int, c: int, i: int)
    requires Linked(m, root) && OnlyChild(m, k, c) && Has(m, i) && i != k
    ensures |Spliced(m, k, c)| == |m| - 1 && ParentOk(Spliced(m, k, c), SplicedRoot(m, root, k, c), Dn(k, i))
  {
    SplicedArea(m, root, k, c, i);
    if m[i].parent != NIL && m[i].parent != k {
      SplicedArea(m, root, k, c, m[i].parent);
    }
    if m[k].parent != NIL {
      SplicedArea(m, root, k, c, m[k].parent);
    }
  }

  lemma SplicedLinked(m: seq<Cell>, root: int, k: int, c: int)
    requires Linked(m, root) && OnlyChild(m, k, c)
    ensures Linked(Spliced(m, k, c), SplicedRoot(m, root, k, c))
  {
    var r, root' := Spliced(m, k, c), SplicedRoot(m, root, k, c);
    Node(m, root, k);
    if m[k].parent != NIL {
      SplicedArea(m, root, k, c, root);
    } else if c != NIL {
      SplicedArea(m, root, k, c, c);
    }
    forall j | Has(r, j)
      ensures NodeOk(r, root', j)
    {
      var i := if j < k then j else j + 1;
      SplicedArea(m, root, k, c, i);
      SplicedLeftOk(m, root, k, c, i);
      SplicedRightOk(m, root, k, c, i);
      SplicedParentOk(m, root, k, c, i);
    }
  }

  lemma SplicedBalOk(m: seq<Cell>, root: int, k: int, c: int, i: int)
    requires RedBlack(m, root) && OnlyChild(m, k, c) && Has(m, i) && i != k
    ensures |Spliced(m, k, c)| == |m| - 1
    ensures i != m[k].parent ==> BalOk(Spliced(m, k, c), Dn(k, i))
    ensures i == m[k].parent && !m[k].red ==> ShortAt(Spliced(m, k, c), Dn(k, i), Dn(k, c))
  {
    SplicedAround(m, root, k, c, i);
    assert BalOk(m, i) && BalOk(m, k);
  }

  /** The cells next to slot i. */
  lemma SplicedAround(m: seq<Cell>, root: int, k: int, c: int, i: int)
    requires Linked(m, root) && OnlyChild(m, k, c) && Has(m, i) && i != k
    ensures NodeOk(m, root, k) && NodeOk(m, root, i) && c != k && m[k].parent != k
    ensures c != NIL ==> NodeOk(m, root, c) && m[c].parent == k && c != m[k].parent
    ensures var r := Spliced(m, k, c);
            && |r| == |m| - 1 && r[Dn(k, i)] == SplicedCell(m, k, c, i)
            && (m[i].left != NIL && m[i].left != k ==>
                  Has(m, m[i].left) && r[Dn(k, m[i].left)] == SplicedCell(m, k, c, m[i].left))
            && (m[i].right != NIL && m[i].right != k ==>
                  Has(m, m[i].right) && r[Dn(k, m[i].right)] == SplicedCell(m, k, c, m[i].right))
            && (c != NIL ==> r[Dn(k, c)] == SplicedCell(m, k, c, c))
  {
    SplicedArea(m, root, k, c, i);
    if m[i].left != NIL && m[i].left != k {
      SplicedArea(m, root, k, c, m[i].left);
    }
    if m[i].right != NIL && m[i].right != k {
      SplicedArea(m, root, k, c, m[i].right);
    }
    if c != NIL {
      SplicedArea(m, root, k, c, c);
    }
  }

  lemma SplicedRedOk(m: seq<Cell>, root: int, k: int, c: int, i: int)
    requires RedBlack(m, root) && OnlyChild(m, k, c) && Has(m, i) && i != k && i != c
    ensures |Spliced(m, k, c)| == |m| - 1
    ensures RedOk(Spliced(m, k, c), Dn(k, i))
  {
    SplicedArea(m, root, k, c, i);
    assert RedOk(m, i);
    if m[i].parent != NIL {
      SplicedArea(m, root, k, c, m[i].parent);
    }
  }

  /** Taking out a black node leaves its place one black short. */
  lemma SplicedErasing(m: seq<Cell>, root: int, k: int, c: int)
    requires RedBlack(m, root) && OnlyChild(m, k, c) && !m[k].red
    ensures Erasing(Spliced(m, k, c), SplicedRoot(m, root, k, c), Dn(k, c), Dn(k, m[k].parent))
  {
    SplicedLinked(m, root, k, c);
    Node(m, root, k);
    var r, n, p := Spliced(m, k, c), Dn(k, c), Dn(k, m[k].parent);
    if c != NIL {
      SplicedArea(m, root, k, c, c);
    }
    if m[k].parent != NIL {
      SplicedBalOk(m, root, k, c, m[k].parent);
      SplicedArea(m, root, k, c, root);
    }
    forall j | Has(r, j)
      ensures j != p ==> BalOk(r, j)
      ensures j != n && r[j].parent != n ==> RedOk(r, j)
    {
      var i := if j < k then j else j + 1;
      SplicedBalOk(m, root, k, c, i);
      if i != c {
        SplicedRedOk(m, root, k, c, i);
      }
    }
  }

  /** A red node with at most one child has none. */
  lemma RedHasNoOnlyChild(m: seq<Cell>, root: int, k: int, c: int)
    requires RedBlack(m, root) && OnlyChild(m, k, c) && m[k].red
    ensures c == NIL && m[k].parent != NIL
  {
    Node(m, root, k);
    assert BalOk(m, k) && RedOk(m, k);
    assert Has(m, c) ==> NodeOk(m, root, c);
    assert Has(m, c) ==> BalOk(m, c) && RedOk(m, c);
  }

  lemma SplicedParentBal(m: seq<Cell>, root: int, k: int, c: int, i: int)
    requires RedBlack(m, root) && OnlyChild(m, k, c) && m[k].red && i == m[k].parent
    ensures Has(m, i) && i != k && |Spliced(m, k, c)| == |m| - 1 && BalOk(Spliced(m, k, c), Dn(k, i))
  {
    RedHasNoOnlyChild(m, root, k, c);
    Node(m, root, k);
    SplicedArea(m, root, k, c, i);
    assert BalOk(m, i) && BalOk(m, k);
    if m[i].left != NIL && m[i].left != k {
      SplicedArea(m, root, k, c, m[i].left);
    }
    if m[i].right != NIL && m[i].right != k {
      SplicedArea(m, root, k, c, m[i].right);
    }
  }

  /** Taking out a red node needs no repair. */
  lemma SplicedRedBlack(m: seq<Cell>, root: int, k: int, c: int)
    requires RedBlack(m, root) && OnlyChild(m, k, c) && m[k].red
    ensures RedBlack(Spliced(m, k, c), SplicedRoot(m, root, k, c))
  {
    RedHasNoOnlyChild(m, root, k, c);
    SplicedLinked(m, root, k, c);
    var r := Spliced(m, k, c);
    SplicedArea(m, root, k, c, root);
    forall j | Has(r, j)
      ensures BalOk(r, j)
      ensures RedOk(r, j)
    {
      var i := if j < k then j else j + 1;
      if i == m[k].parent {
        SplicedParentBal(m, root, k, c, i);
      } else {
        SplicedBalOk(m, root, k, c, i);
      }
      SplicedRedOk(m, root, k, c, i);
    }
  }

  // ---------------------------------------------------------------- `rb_erase`, link by link

  /** Cell b is cell a after position k is gone; a does not lead to k. */
  ghost predicate DropsTo(a: Cell, k: int, b: Cell) {
    && a.left != k && b.left == Dn(k, a.left)
    && a.right != k && b.right == Dn(k, a.right)
    && a.parent != k && b.parent == Dn(k, a.parent)
    && a.red == b.red
  }

  /** Dropping the unreferenced node k from the links m leaves the links w. */
  ghost predicate Drops(m: seq<Cell>, k: int, w: seq<Cell>) {
    && Has(m, k) && |w| == |m| - 1
    && forall i {:trigger m[i]} :: Has(m, i) && i != k ==> DropsTo(m[i], k, w[Dn(k, i)])
  }

  lemma DropsRanged(m: seq<Cell>, k: int, w: seq<Cell>)
    requires Drops(m, k, w) && Ranged(m)
    ensures Ranged(w)
  {
    forall j | Has(w, j)
      ensures -1 <= w[j].left < |w| && -1 <= w[j].right < |w| && -1 <= w[j].parent < |w|
    {
      var i := if j < k then j else j + 1;
      assert DropsTo(m[i], k, w[Dn(k, i)]);
    }
  }

  /** At most one child: hooking it to the parent and dropping k is the splice. */
  lemma SingleDrops(m: seq<Cell>, root: int, k: int, c: int)
    requires Linked(m, root) && OnlyChild(m, k, c)
    ensures Fits(m, m[k].parent) && Fits(m, c)
    ensures Drops(Hook(m, m[k].parent, k, c), k, Spliced(m, k, c))
  {
    Node(m, root, k);
    var h := Hook(m, m[k].parent, k, c);
    forall i | Has(h, i) && i != k
      ensures DropsTo(h[i], k, Spliced(m, k, c)[Dn(k, i)])
    {
      SingleDropsAt(m, root, k, c, i);
    }
  }

  lemma SingleDropsAt(m: seq<Cell>, root: int, k: int, c: int, i: int)
    requires Linked(m, root) && OnlyChild(m, k, c) && Has(m, i) && i != k
    ensures Fits(m, m[k].parent) && Fits(m, c) && |Spliced(m, k, c)| == |m| - 1
    ensures DropsTo(Hook(m, m[k].parent, k, c)[i], k, Spliced(m, k, c)[Dn(k, i)])
  {
    SplicedArea(m, root, k, c, i);
  }

  /** k has two children and s is the leftmost node of its right subtree. */
  ghost predicate Successor(m: seq<Cell>, k: int, s: int) {
    Has(m, k) && m[k].left != NIL && m[k].right != NIL && Has(m, s) && s == k + 1 && m[s].left == NIL
  }

  lemma SuccessorArea(m: seq<Cell>, root: int, k: int, s: int)
    requires Linked(m, root) && Successor(m, k, s)
    ensures NodeOk(m, root, k) && NodeOk(m, root, s) && NodeOk(m, root, m[k].left) && NodeOk(m, root, m[k].right)
    ensures m[k].parent != NIL ==> NodeOk(m, root, m[k].parent)
    ensures m[s].parent != NIL && NodeOk(m, root, m[s].parent) && m[s].parent >= k
    ensures m[s].parent == k <==> m[k].right == s
    ensures m[s].parent != k ==> m[m[s].parent].left == s && m[s].parent > s
    ensures m[s].right != NIL ==> NodeOk(m, root, m[s].right) && m[s].right > s
    ensures OnlyChild(m, s, m[s].right)
    ensures m[k].parent != s && m[k].left != s && m[k].left < k < m[k].right
  {
    Node(m, root, k);
    Node(m, root, s);
    Node(m, root, m[k].left);
    Node(m, root, m[k].right);
    if m[k].parent != NIL {
      Node(m, root, m[k].parent);
    }
    if m[s].right != NIL {
      Node(m, root, m[s].right);
    }
    SuccessorRoot(m, root, k, s);
    Node(m, root, m[s].parent);
  }

  lemma SuccessorRoot(m: seq<Cell>, root: int, k: int, s: int)
    requires Linked(m, root) && Successor(m, k, s)
    ensures m[s].parent != NIL
  {
    Node(m, root, s);
    Node(m, root, k);
  }

  /** The assignments of `rb_erase` that put s in the place of its predecessor k. */
  ghost function Replaced(m: seq<Cell>, k: int, s: int): (r: seq<Cell>)
    requires Has(m, k) && Has(m, s) && Fits(m, m[k].parent) && Has(m, m[k].left) && Has(m, m[k].right)
    requires Has(m, m[s].parent) && Fits(m, m[s].right)
    ensures |r| == |m|
  {
    var m1 := PutChild(m, m[k].parent, k, s);
    var m2 := if m[s].parent == k then m1
              else AdoptRight(AdoptLeft(m1, m[s].parent, m[s].right), s, m[k].right);
    var m3 := m2[s := m2[s].(parent := m[k].parent, red := m[k].red)];
    AdoptLeft(m3, s, m[k].left)
  }

  /** The host of a cell: s now stands where k was. */
  ghost function Host(k: int, i: int): int {
    if i == k + 1 then k else i
  }

  /** The links of node i (other than k) once s stands where k was. */
  ghost function ReplacedCell(m: seq<Cell>, k: int, s: int, i: int): Cell
    requires Has(m, k) && Has(m, s) && Has(m, i) && Fits(m, m[k].parent)
  {
    var pp, sp := m[k].parent, m[s].parent;
    Cell(if i == s then m[k].left else if i == sp && sp != k then m[s].right
         else if i == pp && m[pp].left == k then s else m[i].left,
         if i == s && sp != k then m[k].right else if i == pp && m[pp].left != k then s else m[i].right,
         if i == s then pp else if i == m[k].left || (i == m[k].right && sp != k) then s
         else if i == m[s].right && sp != k then sp else m[i].parent,
         if i == s then m[k].red else m[i].red,
         m[i].lo, m[i].hi, m[i].bh)
  }

  lemma ReplacedAt(m: seq<Cell>, root: int, k: int, s: int, i: int)
    requires Linked(m, root) && Successor(m, k, s) && Has(m, i) && i != k
    ensures Fits(m, m[k].parent) && Has(m, m[k].left) && Has(m, m[k].right) && Has(m, m[s].parent)
            && Fits(m, m[s].right)
    ensures Replaced(m, k, s)[i] == ReplacedCell(m, k, s, i)
  {
    SuccessorArea(m, root, k, s);
    if m[s].parent == k {
      ReplacedNear(m, root, k, s, i);
    } else {
      ReplacedFar(m, root, k, s, i);
    }
  }

  lemma ReplacedNear(m: seq<Cell>, root: int, k: int, s: int, i: int)
    requires Linked(m, root) && Successor(m, k, s) && Has(m, i) && i != k && m[s].parent == k
    ensures Fits(m, m[k].parent) && Has(m, m[k].left) && Has(m, m[k].right) && Has(m, m[s].parent)
            && Fits(m, m[s].right)
    ensures Replaced(m, k, s)[i] == ReplacedCell(m, k, s, i)
  {
    SuccessorArea(m, root, k, s);
  }

  /** The middle step, when s is not k's own child. */
  ghost function Detached(m: seq<Cell>, k: int, s: int): (r: seq<Cell>)
    requires Has(m, k) && Has(m, s) && Fits(m, m[k].parent) && Has(m, m[k].right) && Has(m, m[s].parent)
    requires Fits(m, m[s].right)
    ensures |r| == |m|
  {
    AdoptRight(AdoptLeft(PutChild(m, m[k].parent, k, s), m[s].parent, m[s].right), s, m[k].right)
  }

  lemma DetachedAt(m: seq<Cell>, root: int, k: int, s: int, i: int)
    requires Linked(m, root) && Successor(m, k, s) && Has(m, i) && i != k && m[s].parent != k
    ensures Fits(m, m[k].parent) && Has(m, m[k].right) && Has(m, m[s].parent) && Fits(m, m[s].right)
    ensures var c, sp, pp, r := m[s].right, m[s].parent, m[k].parent, Detached(m, k, s)[i];
            && r.left == (if i == sp then c else if i == pp && m[pp].left == k then s else m[i].left)
            && r.right == (if i == s then m[k].right else if i == pp && m[pp].left != k then s else m[i].right)
            && r.parent == (if i == m[k].right then s else if i == c then sp else m[i].parent)
            && r.red == m[i].red && r.lo == m[i].lo && r.hi == m[i].hi && r.bh == m[i].bh
  {
    SuccessorArea(m, root, k, s);
  }

  lemma ReplacedFar(m: seq<Cell>, root: int, k: int, s: int, i: int)
    requires Linked(m, root) && Successor(m, k, s) && Has(m, i) && i != k && m[s].parent != k
    ensures Fits(m, m[k].parent) && Has(m, m[k].left) && Has(m, m[k].right) && Has(m, m[s].parent)
            && Fits(m, m[s].right)
    ensures Replaced(m, k, s)[i] == ReplacedCell(m, k, s, i)
  {
    SuccessorArea(m, root, k, s);
    DetachedAt(m, root, k, s, i);
    var w := Detached(m, k, s);
    assert Replaced(m, k, s) == AdoptLeft(w[s := w[s].(parent := m[k].parent, red := m[k].red)], s, m[k].left);
  }

  lemma ReplacedDrops(m: seq<Cell>, root: int, k: int, s: int, i: int)
    requires Linked(m, root) && Successor(m, k, s) && Has(m, i) && i != k
    ensures Fits(m, m[k].parent)
    ensures DropsTo(ReplacedCell(m, k, s, i), k, SplicedCell(m, s, m[s].right, Host(k, i)))
  {
    SuccessorArea(m, root, k, s);
    Node(m, root, i);
    if i == s {
      ReplacedSelfDrops(m, root, k, s);
    } else {
      assert i == m[k].parent || (m[i].left != k && m[i].right != k);
    }
  }

  lemma ReplacedSelfDrops(m: seq<Cell>, root: int, k: int, s: int)
    requires Linked(m, root) && Successor(m, k, s)
    ensures Fits(m, m[k].parent)
    ensures DropsTo(ReplacedCell(m, k, s, s), k, SplicedCell(m, s, m[s].right, k))
  {
    SuccessorArea(m, root, k, s);
  }

  lemma DoubleDropsAt(m: seq<Cell>, root: int, k: int, s: int, i: int)
    requires Linked(m, root) && Successor(m, k, s) && Has(m, i) && i != k
    ensures Fits(m, m[k].parent) && Has(m, m[k].left) && Has(m, m[k].right) && Has(m, m[s].parent)
            && Fits(m, m[s].right)
    ensures DropsTo(Replaced(m, k, s)[i], k, SplicedCell(m, s, m[s].right, Host(k, i)))
  {
    ReplacedAt(m, root, k, s, i);
    ReplacedDrops(m, root, k, s, i);
  }

  /** Two children: replacing k by its successor and dropping k is the splice of the successor's slot. */
  lemma DoubleDrops(m: seq<Cell>, root: int, k: int, s: int)
    requires Linked(m, root) && Successor(m, k, s)
    ensures Fits(m, m[k].parent) && Has(m, m[k].left) && Has(m, m[k].right) && Has(m, m[s].parent)
            && Fits(m, m[s].right)
    ensures Drops(Replaced(m, k, s), k, Spliced(m, s, m[s].right))
  {
    SuccessorArea(m, root, k, s);
    var h := Replaced(m, k, s);
    forall i | Has(h, i) && i != k
      ensures DropsTo(h[i], k, Spliced(m, s, m[s].right)[Dn(k, i)])
    {
      DoubleDropsAt(m, root, k, s, i);
    }
  }
}
