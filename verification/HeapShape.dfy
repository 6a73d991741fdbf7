/** Slot arithmetic of a complete binary tree: the nodes are numbered by level from 0, slot k has its
    parent in slot (k-1)/2 and its children in slots 2k+1 and 2k+2; -1 stands for no node. */
module HeapShape {
  const NIL := -1

  datatype Link = Link(parent: int, left: int, right: int)

  function Kid(n: nat, k: int): int {
    if k < n then k else NIL
  }

  function Up(k: int): int {
    if k <= 0 then NIL else (k - 1) / 2
  }

  /** The links of slot k in a complete tree of n nodes. */
  function Full(n: nat, k: int): Link {
    Link(Up(k), Kid(n, 2 * k + 1), Kid(n, 2 * k + 2))
  }

  function Complete(n: nat): (r: seq<Link>)
    ensures |r| == n
  {
    seq(n, i => Full(n, i))
  }

  ghost predicate Fits(m: seq<Link>, k: int) {
    -1 <= k < |m|
  }

  ghost predicate Ranged(m: seq<Link>) {
    forall i {:trigger m[i]} :: 0 <= i < |m| ==> Fits(m, m[i].parent) && Fits(m, m[i].left) && Fits(m, m[i].right)
  }

  lemma CompleteRanged(n: nat)
    ensures Ranged(Complete(n))
  {
  }

  /** p and c change places. */
  function Trade(p: int, c: int, k: int): int {
    if k == p then c else if k == c then p else k
  }

  function TradeLink(p: int, c: int, t: Link): Link {
    Link(Trade(p, c, t.parent), Trade(p, c, t.left), Trade(p, c, t.right))
  }

  // ---------------------------------------------------------------- single assignments

  ghost function PutParent(m: seq<Link>, k: int, p: int): (r: seq<Link>)
    requires Fits(m, k)
    ensures |r| == |m|
  {
    if k == NIL then m else m[k := m[k].(parent := p)]
  }

  /** The link of q that leads to x now leads to y; if neither does, nothing changes. */
  ghost function PutChild(m: seq<Link>, q: int, x: int, y: int): (r: seq<Link>)
    requires Fits(m, q)
    ensures |r| == |m|
  {
    if q == NIL then m
    else if m[q].left == x then m[q := m[q].(left := y)]
    else if m[q].right == x then m[q := m[q].(right := y)]
    else m
  }

  // ---------------------------------------------------------------- heap_swap

  /** The links around parent p and child c, as `heap_swap` reads them. */
  ghost predicate Family(m: seq<Link>, p: int, c: int, q: int, l: int, r: int, b: int) {
    && 0 <= p < |m| && 0 <= c < |m| && p != c && Fits(m, q) && Fits(m, l) && Fits(m, r) && Fits(m, b)
    && m[p].parent == q && m[c].left == l && m[c].right == r
    && b == (if m[p].left == c then m[p].right else m[p].left)
  }

  ghost function SwapOuter(m: seq<Link>, p: int, c: int, q: int, l: int, r: int): (w: seq<Link>)
    requires Fits(m, q) && Fits(m, l) && Fits(m, r)
    ensures |w| == |m|
  {
    PutParent(PutParent(PutChild(m, q, p, c), l, p), r, p)
  }

  ghost function SwapInner(m: seq<Link>, p: int, c: int, q: int, l: int, r: int, b: int, atLeft: bool): (w: seq<Link>)
    requires 0 <= p < |m| && 0 <= c < |m| && Fits(m, b)
    ensures |w| == |m|
  {
    PutParent(m[c := if atLeft then Link(q, p, b) else Link(q, b, p)], b, c)[p := Link(c, l, r)]
  }

  /** The assignments of `heap_swap`. */
  ghost function SwapSteps(m: seq<Link>, p: int, c: int, q: int, l: int, r: int, b: int): (w: seq<Link>)
    requires Family(m, p, c, q, l, r, b)
    ensures |w| == |m|
  {
    SwapInner(SwapOuter(m, p, c, q, l, r), p, c, q, l, r, b, m[p].left == c)
  }

  /** What they make of slot k. */
  ghost function SwapLink(m: seq<Link>, p: int, c: int, q: int, l: int, r: int, b: int, k: int): Link
    requires 0 <= k < |m| && 0 <= p < |m|
  {
    if k == p then Link(c, l, r)
    else if k == c then (if m[p].left == c then Link(q, p, b) else Link(q, b, p))
    else Link(if k == b then c else if k == l || k == r then p else m[k].parent,
              if k == q && m[k].left == p then c else m[k].left,
              if k == q && m[k].left != p && m[k].right == p then c else m[k].right)
  }

  lemma SwapStepsAt(m: seq<Link>, p: int, c: int, q: int, l: int, r: int, b: int, k: int)
    requires Family(m, p, c, q, l, r, b) && 0 <= k < |m| && b != c
    ensures SwapSteps(m, p, c, q, l, r, b)[k] == SwapLink(m, p, c, q, l, r, b, k)
  {
    SwapOuterAt(m, p, c, q, l, r, k);
  }

  lemma SwapOuterAt(m: seq<Link>, p: int, c: int, q: int, l: int, r: int, k: int)
    requires Fits(m, q) && Fits(m, l) && Fits(m, r) && 0 <= k < |m|
    ensures var w := SwapOuter(m, p, c, q, l, r);
            && w[k].parent == (if k == l || k == r then p else m[k].parent)
            && w[k].left == (if k == q && m[k].left == p then c else m[k].left)
            && w[k].right == (if k == q && m[k].left != p && m[k].right == p then c else m[k].right)
  {
    var w := PutChild(m, q, p, c);
    assert w[k].parent == m[k].parent;
  }

  /** In a complete tree the result is the same tree with p and c traded. */
  lemma SwapIsTrade(n: nat, p: int, c: int, q: int, l: int, r: int, b: int, k: int)
    requires 0 <= p < c < n && Up(c) == p && q == Up(p) && l == Kid(n, 2 * c + 1) && r == Kid(n, 2 * c + 2)
    requires b == (if c == 2 * p + 1 then Kid(n, 2 * p + 2) else 2 * p + 1) && 0 <= k < n
    ensures Family(Complete(n), p, c, q, l, r, b)
    ensures SwapSteps(Complete(n), p, c, q, l, r, b)[k] == TradeLink(p, c, Full(n, Trade(p, c, k)))
  {
    SwapStepsAt(Complete(n), p, c, q, l, r, b, k);
    SwapLinkTrade(n, p, c, q, l, r, b, k);
  }

  lemma SwapLinkTrade(n: nat, p: int, c: int, q: int, l: int, r: int, b: int, k: int)
    requires 0 <= p < c < n && Up(c) == p && q == Up(p) && l == Kid(n, 2 * c + 1) && r == Kid(n, 2 * c + 2)
    requires b == (if c == 2 * p + 1 then Kid(n, 2 * p + 2) else 2 * p + 1) && 0 <= k < n
    ensures SwapLink(Complete(n), p, c, q, l, r, b, k) == TradeLink(p, c, Full(n, Trade(p, c, k)))
  {
    var t := TradeLink(p, c, Full(n, Trade(p, c, k)));
    if k == p || k == c {
    } else {
      assert t.parent == Trade(p, c, Up(k));
      assert t.left == Trade(p, c, Kid(n, 2 * k + 1));
    }
  }

  // ---------------------------------------------------------------- heap_remove

  /** `heap_replace(heap, s, r)` and clearing s, for slots k and last; a, l, r are the links of slot k. */
  ghost function ReplaceSteps(m: seq<Link>, k: int, last: int, a: int, l: int, r: int): (w: seq<Link>)
    requires 0 <= k < |m| && 0 <= last < |m| && Fits(m, a) && Fits(m, l) && Fits(m, r)
    ensures |w| == |m|
  {
    PutParent(PutParent(PutChild(m, a, k, last), l, last), r, last)[last := Link(a, l, r)][k := Link(NIL, NIL, NIL)]
  }

  /** What they make of slot i. */
  ghost function ReplaceLink(m: seq<Link>, k: int, last: int, a: int, l: int, r: int, i: int): Link
    requires 0 <= i < |m|
  {
    if i == k then Link(NIL, NIL, NIL)
    else if i == last then Link(a, l, r)
    else Link(if i == l || i == r then last else m[i].parent,
              if i == a && m[i].left == k then last else m[i].left,
              if i == a && m[i].left != k && m[i].right == k then last else m[i].right)
  }

  lemma ReplaceStepsAt(m: seq<Link>, k: int, last: int, a: int, l: int, r: int, i: int)
    requires 0 <= k < |m| && 0 <= last < |m| && Fits(m, a) && Fits(m, l) && Fits(m, r) && 0 <= i < |m|
    ensures ReplaceSteps(m, k, last, a, l, r)[i] == ReplaceLink(m, k, last, a, l, r, i)
  {
  }

  /** The complete tree of n nodes once its last node is unlinked from its parent. */
  ghost predicate LastUnlinked(m: seq<Link>, n: nat) {
    && n >= 2 && |m| == n
    && (forall i {:trigger m[i]} :: 0 <= i < n - 1 ==> m[i] == Full(n - 1, i))
    && m[n - 1] == Full(n, n - 1)
  }

  lemma UnlinkLast(n: nat, atRight: bool)
    requires n >= 2 && atRight == (n % 2 == 1)
    ensures var p := Up(n - 1);
            var m := Complete(n);
            0 <= p < n && LastUnlinked(m[p := if atRight then m[p].(right := NIL) else m[p].(left := NIL)], n)
  {
  }

  /** Slot n joins a tree of n nodes. */
  lemma LinkNext(n: nat, atRight: bool)
    requires n >= 1 ==> atRight == ((n + 1) % 2 == 1)
    ensures var p := Up(n);
            var m := Complete(n) + [Link(p, NIL, NIL)];
            if p == NIL then n == 0 && m == Complete(1)
            else 0 <= p < n && Complete(n + 1) == m[p := if atRight then m[p].(right := n) else m[p].(left := n)]
  {
  }

  /** The last node, put in slot k of the tree without it, is linked like slot k. */
  lemma ReplaceIsTrade(m: seq<Link>, n: nat, k: int, a: int, l: int, r: int, i: int)
    requires LastUnlinked(m, n) && 0 <= k < n && Link(a, l, r) == m[k] && 0 <= i < n - 1
    ensures Fits(m, a) && Fits(m, l) && Fits(m, r)
    ensures ReplaceSteps(m, k, n - 1, a, l, r)[if i == k then n - 1 else i] == TradeLink(k, n - 1, Full(n - 1, i))
  {
    var j := if i == k then n - 1 else i;
    ReplaceStepsAt(m, k, n - 1, a, l, r, j);
    assert m[i] == Full(n - 1, i);
    assert k < n - 1 ==> m[k] == Full(n - 1, k);
  }

  // ---------------------------------------------------------------- the path to the last slot

  /** Going down d levels from the k-th node (counted from 1) by the low bits of path, 0 for left and 1
      for right. */
  function Follow(k: nat, path: nat, d: nat): nat
    decreases d
  {
    if d == 0 then k else Follow(2 * k + path % 2, path / 2, d - 1)
  }

  lemma {:induction false} FollowGrows(k: nat, path: nat, d: nat)
    requires k >= 1
    ensures Follow(k, path, d) >= k && (d >= 1 ==> Follow(k, path, d) >= 2 * k)
    decreases d
  {
    if d == 0 {
    } else {
      FollowGrows(2 * k + path % 2, path / 2, d - 1);
    }
  }

  /** The loop that reads the bits of n: following them from node 1 leads to node n. */
  method PathTo(n: nat) returns (path: nat, d: nat)
    requires n >= 1
    ensures Follow(1, path, d) == n
    ensures d == 0 <==> n == 1
  {
    path, d := 0, 0;
    var m := n;
    while m >= 2
      invariant m >= 1 && Follow(m, path, d) == n
      invariant d == 0 <==> m == n
      invariant m <= n
    {
      path, d, m := 2 * path + m % 2, d + 1, m / 2;
    }
  }

  // ---------------------------------------------------------------- heap order on the keys by slot

  ghost predicate EdgeOk(ks: seq<int>, k: int) {
    1 <= k < |ks| ==> ks[Up(k)] <= ks[k]
  }

  /** No key is smaller than its parent's. */
  ghost predicate HeapOk(ks: seq<int>) {
    forall k {:trigger EdgeOk(ks, k)} :: EdgeOk(ks, k)
  }

  /** The key two levels up. */
  ghost predicate GrandOk(ks: seq<int>, j: int, k: int) {
    1 <= j < |ks| && 1 <= k < |ks| && Up(k) == j ==> ks[Up(j)] <= ks[k]
  }

  /** In order, except that slot j may come before its parent. */
  ghost predicate UpInv(ks: seq<int>, j: int) {
    && 0 <= j < |ks|
    && (forall k {:trigger EdgeOk(ks, k)} :: k != j ==> EdgeOk(ks, k))
    && (forall k {:trigger GrandOk(ks, j, k)} :: GrandOk(ks, j, k))
  }

  /** In order, except around slot j. */
  ghost predicate DownInv(ks: seq<int>, j: int) {
    && 0 <= j < |ks|
    && (forall k {:trigger EdgeOk(ks, k)} :: k != j && Up(k) != j ==> EdgeOk(ks, k))
    && (forall k {:trigger GrandOk(ks, j, k)} :: GrandOk(ks, j, k))
  }

  ghost function Exchange(ks: seq<int>, p: int, c: int): (r: seq<int>)
    requires 0 <= p < |ks| && 0 <= c < |ks|
    ensures |r| == |ks|
  {
    ks[p := ks[c]][c := ks[p]]
  }

  lemma UpStep(ks: seq<int>, j: int)
    requires UpInv(ks, j) && j >= 1 && ks[j] < ks[Up(j)]
    ensures UpInv(Exchange(ks, Up(j), j), Up(j))
  {
    var p := Up(j);
    var r := Exchange(ks, p, j);
    forall k | k != p
      ensures EdgeOk(r, k)
    {
      assert (k != j ==> EdgeOk(ks, k)) && GrandOk(ks, j, k);
    }
    forall k
      ensures GrandOk(r, p, k)
    {
      assert (k != j ==> EdgeOk(ks, k)) && EdgeOk(ks, p);
    }
  }

  lemma UpDone(ks: seq<int>, j: int)
    requires UpInv(ks, j) && (j >= 1 ==> ks[Up(j)] <= ks[j])
    ensures HeapOk(ks)
  {
    assert EdgeOk(ks, j);
  }

  /** Slot e is a child of j that no child of j comes before. */
  ghost predicate LeastChild(ks: seq<int>, j: int, e: int) {
    && 0 <= j < e < |ks| && Up(e) == j && ks[e] <= ks[j]
    && (2 * j + 1 < |ks| ==> ks[e] <= ks[2 * j + 1])
    && (2 * j + 2 < |ks| ==> ks[e] <= ks[2 * j + 2])
  }

  lemma DownStep(ks: seq<int>, j: int, e: int)
    requires DownInv(ks, j) && LeastChild(ks, j, e)
    ensures DownInv(Exchange(ks, j, e), e)
  {
    var r := Exchange(ks, j, e);
    forall k | k != e && Up(k) != e
      ensures EdgeOk(r, k)
    {
      assert (k != j && Up(k) != j ==> EdgeOk(ks, k)) && GrandOk(ks, j, e);
      assert Up(k) == j && k >= 1 ==> k == 2 * j + 1 || k == 2 * j + 2;
    }
    forall k
      ensures GrandOk(r, e, k)
    {
      assert k != j && Up(k) != j ==> EdgeOk(ks, k);
    }
  }

  lemma DownDone(ks: seq<int>, j: int)
    requires DownInv(ks, j)
    requires 2 * j + 1 < |ks| ==> ks[j] < ks[2 * j + 1]
    requires 2 * j + 2 < |ks| ==> ks[j] < ks[2 * j + 2]
    ensures UpInv(ks, j)
  {
    forall k | k != j
      ensures EdgeOk(ks, k)
    {
      assert Up(k) == j && k >= 1 ==> k == 2 * j + 1 || k == 2 * j + 2;
    }
  }

  lemma AppendUp(ks: seq<int>, x: int)
    requires HeapOk(ks)
    ensures UpInv(ks + [x], |ks|)
  {
    forall k | k != |ks|
      ensures EdgeOk(ks + [x], k)
    {
      assert EdgeOk(ks, k);
    }
  }

  /** The last key moves to slot j. */
  lemma ReplaceDown(ks: seq<int>, j: int)
    requires HeapOk(ks) && 0 <= j < |ks| - 1
    ensures DownInv(ks[j := ks[|ks| - 1]][..|ks| - 1], j)
  {
    var r := ks[j := ks[|ks| - 1]][..|ks| - 1];
    forall k | k != j && Up(k) != j
      ensures EdgeOk(r, k)
    {
      assert EdgeOk(ks, k);
    }
    forall k
      ensures GrandOk(r, j, k)
    {
      assert EdgeOk(ks, k) && EdgeOk(ks, j);
    }
  }

  lemma ShrinkOk(ks: seq<int>)
    requires HeapOk(ks) && |ks| >= 1
    ensures HeapOk(ks[..|ks| - 1])
  {
    var r := ks[..|ks| - 1];
    forall k
      ensures EdgeOk(r, k)
    {
      assert EdgeOk(ks, k);
    }
  }

  /** The root holds a least key. */
  lemma {:induction false} RootLeast(ks: seq<int>, k: int)
    requires HeapOk(ks) && 0 <= k < |ks|
    ensures ks[0] <= ks[k]
    decreases k
  {
    if k == 0 {
    } else {
      assert EdgeOk(ks, k);
      RootLeast(ks, Up(k));
    }
  }
}
