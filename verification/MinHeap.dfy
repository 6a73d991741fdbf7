/** The pointer min-heap of base/heap.h.

    `order` lists the nodes of the heap by level: slot k holds order[k].  Rep() ties
    the pointers to `links`, which name slots; in a valid heap they are those of a complete tree. */
module MinHeap {
  import opened HeapShape

  /** `struct heap_node`, with the fields of the timer that embeds it; `compare` looks at the key, the
      timer's next_timeout. */
  class Node {
    var key: int
    var period: nat
    var repeat: nat
    var pending: bool
    var destroy: bool
    var parent: Node?
    var left: Node?
    var right: Node?
    ghost var slot: int

    constructor (key: int, period: nat, repeat: nat)
      ensures this.key == key && this.period == period && this.repeat == repeat && !pending && !destroy
      ensures parent == null && left == null && right == null
    {
      this.key, this.period, this.repeat := key, period, repeat;
      pending, destroy := false, false;
      parent, left, right := null, null, null;
    }
  }

  ghost function RefIn(s: seq<Node>, k: int): Node? {
    if 0 <= k < |s| then s[k] else null
  }

  /** The keys by slot. */
  ghost function Keys(s: seq<Node>): (r: seq<int>)
    reads s`key
    ensures |r| == |s| && forall i :: 0 <= i < |s| ==> r[i] == s[i].key
  {
    if s == [] then [] else Keys(s[..|s| - 1]) + [s[|s| - 1].key]
  }

  ghost function Ix(n: Node?): int
    reads n
  {
    if n == null then NIL else n.slot
  }

  lemma TradeRef(s: seq<Node>, p: int, c: int, k: int)
    requires 0 <= p < |s| && 0 <= c < |s| && p != c
    ensures RefIn(s[p := s[c]][c := s[p]], k) == RefIn(s, Trade(p, c, k))
  {
  }

  lemma TradeDrop(s: seq<Node>, k: int, x: int)
    requires 0 <= k < |s| && |s| >= 2 && x < |s| - 1
    ensures RefIn(s[k := s[|s| - 1]][..|s| - 1], x) == RefIn(s, Trade(k, |s| - 1, x))
  {
  }

  /** `struct heap`, ordered by `<` on the keys (`timers_compare`). */
  class Heap {
    var root: Node?
    var nelts: nat
    ghost var order: seq<Node>
    ghost var links: seq<Link>
    ghost var top: int

    ghost function Ref(k: int): Node?
      reads this
    {
      RefIn(order, k)
    }

    ghost predicate In(n: Node?)
      reads this, n
    {
      n != null ==> 0 <= n.slot < |order| && order[n.slot] == n
    }

    ghost predicate Match(k: int)
      requires 0 <= k < |order| == |links|
      reads this, order`slot, order`parent, order`left, order`right
    {
      && order[k].slot == k
      && order[k].parent == Ref(links[k].parent)
      && order[k].left == Ref(links[k].left)
      && order[k].right == Ref(links[k].right)
    }

    /** The pointers are those `links` names. */
    ghost predicate Rep()
      reads this, order`slot, order`parent, order`left, order`right
    {
      && |links| == |order| && Ranged(links)
      && root == Ref(top) && -1 <= top < |order|
      && forall k {:trigger Match(k)} :: 0 <= k < |order| ==> Match(k)
    }

    /** The pointers form a complete binary tree in which slot k holds order[k]. */
    ghost predicate Shaped()
      reads this, order`slot, order`parent, order`left, order`right
    {
      Rep() && links == Complete(|order|) && top == (if order == [] then NIL else 0)
    }

    ghost predicate Valid()
      reads this, order`slot, order`parent, order`left, order`right, order`key
    {
      Shaped() && nelts == |order| && HeapOk(Keys(order))
    }

    /** `heap_init`. */
    constructor ()
      ensures Valid() && order == []
    {
      root, nelts, order, links, top := null, 0, [], [], NIL;
    }

    /** The members of the heap. */
    ghost function Nodes(): set<Node>
      reads this
    {
      set n | n in order
    }

    lemma InRef(k: int)
      requires Rep() && -1 <= k < |order|
      ensures In(Ref(k)) && Ix(Ref(k)) == k
    {
      if k != NIL {
        assert Match(k);
      }
    }

    lemma RefIs(k: int, n: Node)
      requires Rep() && In(n) && -1 <= k < |order|
      ensures Ref(k) == n <==> k == n.slot
    {
      InRef(k);
    }

    /** The pointers of n lead to the slots its links name. */
    lemma Here(n: Node)
      requires Rep() && In(n)
      ensures Match(n.slot)
      ensures In(n.parent) && Ix(n.parent) == links[n.slot].parent
      ensures In(n.left) && Ix(n.left) == links[n.slot].left
      ensures In(n.right) && Ix(n.right) == links[n.slot].right
    {
      assert Match(n.slot);
      InRef(links[n.slot].parent);
      InRef(links[n.slot].left);
      InRef(links[n.slot].right);
    }

    // ------------------------------------------------------------ single assignments

    method SetParent(n: Node?, p: Node?)
      requires Rep() && In(n) && In(p)
      modifies order`parent, this`links
      ensures Rep() && links == PutParent(old(links), Ix(n), Ix(p))
    {
      if n != null {
        n.parent := p;
        links := PutParent(links, n.slot, Ix(p));
        forall k | 0 <= k < |order|
          ensures Match(k)
        {
          assert old(Match(k));
        }
      }
    }

    method SetLinks(n: Node, p: Node?, l: Node?, r: Node?)
      requires Rep() && In(n) && In(p) && In(l) && In(r)
      modifies order`parent, order`left, order`right, this`links
      ensures Rep() && links == old(links)[n.slot := Link(Ix(p), Ix(l), Ix(r))]
    {
      n.parent := p;
      n.left := l;
      n.right := r;
      links := links[n.slot := Link(Ix(p), Ix(l), Ix(r))];
      forall k | 0 <= k < |order|
        ensures Match(k)
      {
        assert old(Match(k));
      }
    }

    method SetLeft(n: Node, c: Node?)
      requires Rep() && In(n) && In(c)
      modifies order`left, this`links
      ensures Rep() && links == old(links)[n.slot := old(links)[n.slot].(left := Ix(c))]
    {
      n.left := c;
      links := links[n.slot := links[n.slot].(left := Ix(c))];
      forall k | 0 <= k < |order|
        ensures Match(k)
      {
        assert old(Match(k));
      }
    }

    method SetRight(n: Node, c: Node?)
      requires Rep() && In(n) && In(c)
      modifies order`right, this`links
      ensures Rep() && links == old(links)[n.slot := old(links)[n.slot].(right := Ix(c))]
    {
      n.right := c;
      links := links[n.slot := links[n.slot].(right := Ix(c))];
      forall k | 0 <= k < |order|
        ensures Match(k)
      {
        assert old(Match(k));
      }
    }

    /** The pointer to x, in q or in the heap itself, now leads to y. */
    method Relink(q: Node?, x: Node, y: Node?)
      requires Rep() && In(q) && In(x) && In(y)
      modifies this`root, this`top, this`links, order`left, order`right
      ensures Rep() && links == PutChild(old(links), Ix(q), x.slot, Ix(y))
      ensures top == if q == null then Ix(y) else old(top)
    {
      if q == null {
        root := y;
        top := Ix(y);
        forall k | 0 <= k < |order|
          ensures Match(k)
        {
          assert old(Match(k));
        }
      } else {
        Here(q);
        RefIs(links[q.slot].left, x);
        RefIs(links[q.slot].right, x);
        if q.left == x {
          SetLeft(q, y);
        } else if q.right == x {
          SetRight(q, y);
        }
      }
    }

    /** Slot i of s was slot t[i], and its new links w[i] name the same nodes as the old ones. */
    ghost predicate SameNode(s: seq<Node>, t: seq<int>, w: seq<Link>, i: int)
      requires 0 <= i < |s| == |t| == |w| && |links| == |order|
      reads this
    {
      && 0 <= t[i] < |order| && s[i] == order[t[i]]
      && Ref(links[t[i]].parent) == RefIn(s, w[i].parent)
      && Ref(links[t[i]].left) == RefIn(s, w[i].left)
      && Ref(links[t[i]].right) == RefIn(s, w[i].right)
    }

    lemma DistinctNodes(s: seq<Node>, t: seq<int>, w: seq<Link>)
      requires Rep() && |s| == |t| == |w|
      requires forall i {:trigger SameNode(s, t, w, i)} :: 0 <= i < |s| ==> SameNode(s, t, w, i)
      requires forall j, k :: 0 <= j < k < |t| ==> t[j] != t[k]
      ensures forall j, k :: 0 <= j < k < |s| ==> s[j] != s[k]
    {
      forall j, k | 0 <= j < k < |s|
        ensures s[j] != s[k]
      {
        assert SameNode(s, t, w, j) && SameNode(s, t, w, k);
        assert Match(t[j]) && Match(t[k]);
      }
    }

    /** The same pointers under a new numbering. */
    ghost method Renumber(s: seq<Node>, t: seq<int>, w: seq<Link>, newTop: int)
      requires Rep() && |s| == |t| == |w| && Ranged(w)
      requires forall i {:trigger SameNode(s, t, w, i)} :: 0 <= i < |s| ==> SameNode(s, t, w, i)
      requires forall j, k :: 0 <= j < k < |t| ==> t[j] != t[k]
      requires root == RefIn(s, newTop) && -1 <= newTop < |s|
      modifies this`order, this`links, this`top, order`slot
      ensures Rep() && order == s && links == w && top == newTop
    {
      DistinctNodes(s, t, w);
      forall i | 0 <= i < |s|
        ensures s[i] in order
      {
        assert SameNode(s, t, w, i);
      }
      order, links, top := s, w, newTop;
      forall i | 0 <= i < |s| {
        s[i].slot := i;
      }
      forall k | 0 <= k < |order|
        ensures Match(k)
      {
        assert old(SameNode(s, t, w, k));
        assert old(Match(t[k]));
      }
    }

    // ------------------------------------------------------------ heap_swap

    method SwapAround(pparent: Node?, parent: Node, child: Node, lchild: Node?, rchild: Node?)
      requires Rep() && In(pparent) && In(parent) && In(child) && In(lchild) && In(rchild)
      modifies this`root, this`links, this`top, order`parent, order`left, order`right
      ensures Rep() && links == SwapOuter(old(links), parent.slot, child.slot, Ix(pparent), Ix(lchild), Ix(rchild))
      ensures top == if pparent == null then child.slot else old(top)
    {
      Relink(pparent, parent, child);
      SetParent(lchild, parent);
      SetParent(rchild, parent);
    }

    method SwapInside(pparent: Node?, parent: Node, child: Node, lchild: Node?, rchild: Node?, sibling: Node?,
                      atLeft: bool)
      requires Rep() && In(pparent) && In(parent) && In(child) && In(lchild) && In(rchild) && In(sibling)
      modifies this`links, order`parent, order`left, order`right
      ensures Rep()
      ensures links == SwapInner(old(links), parent.slot, child.slot, Ix(pparent), Ix(lchild), Ix(rchild),
              Ix(sibling), atLeft)
    {
      if atLeft {
        SetLinks(child, pparent, parent, sibling);
      } else {
        SetLinks(child, pparent, sibling, parent);
      }
      SetParent(sibling, child);
      SetLinks(parent, child, lchild, rchild);
    }

    /** The assignments of `heap_swap`. */
    method SwapPointers(parent: Node, child: Node) returns (ghost q: int, ghost l: int, ghost r: int, ghost b: int)
      requires Rep() && In(parent) && In(child) && parent != child
      modifies this`root, this`links, this`top, order`parent, order`left, order`right
      ensures Rep() && HeapShape.Family(old(links), parent.slot, child.slot, q, l, r, b)
      ensures links == SwapSteps(old(links), parent.slot, child.slot, q, l, r, b)
      ensures top == if q == NIL then child.slot else old(top)
    {
      Here(parent);
      Here(child);
      RefIs(links[parent.slot].left, child);
      var pparent, lchild, rchild := parent.parent, child.left, child.right;
      var atLeft := parent.left == child;
      var sibling := if atLeft then parent.right else parent.left;
      q, l, r, b := Ix(pparent), Ix(lchild), Ix(rchild), Ix(sibling);
      SwapAround(pparent, parent, child, lchild, rchild);
      SwapInside(pparent, parent, child, lchild, rchild, sibling, atLeft);
    }

    /** The traded slots, seen through the links `heap_swap` leaves. */
    lemma SwapSame(p: int, c: int, q: int, l: int, r: int, b: int, s: seq<Node>, t: seq<int>, i: int)
      requires |links| == |order| == |s| == |t| && 0 <= i < |s|
      requires 0 <= p < c < |s| && Up(c) == p && HeapShape.Family(Complete(|s|), p, c, q, l, r, b)
      requires links == SwapSteps(Complete(|s|), p, c, q, l, r, b)
      requires s == order[p := order[c]][c := order[p]] && t[i] == Trade(p, c, i)
      ensures SameNode(s, t, Complete(|s|), i)
    {
      SwapIsTrade(|s|, p, c, q, l, r, b, t[i]);
      TradeRef(order, p, c, Full(|s|, i).parent);
      TradeRef(order, p, c, Full(|s|, i).left);
      TradeRef(order, p, c, Full(|s|, i).right);
    }

    static function Traded(n: nat, p: int, c: int): (t: seq<int>)
      ensures |t| == n && forall i :: 0 <= i < n ==> t[i] == Trade(p, c, i)
    {
      seq(n, i => Trade(p, c, i))
    }

    static lemma TradedApart(n: nat, p: int, c: int)
      ensures forall i, j :: 0 <= i < j < n ==> Traded(n, p, c)[i] != Traded(n, p, c)[j]
    {
    }

    /** `heap_swap`: parent and child trade slots. */
    method Swap(parent: Node, child: Node)
      requires Shaped() && In(parent) && In(child) && child.parent == parent
      modifies this`root, this`links, this`top, this`order, order`parent, order`left, order`right, order`slot
      ensures Shaped() && child.slot == old(parent.slot) && parent.slot == old(child.slot)
      ensures order == old(order)[old(parent.slot) := child][old(child.slot) := parent]
    {
      Here(child);
      ghost var p, c, n := parent.slot, child.slot, |order|;
      ghost var s := order[p := child][c := parent];
      ghost var t := Traded(n, p, c);
      TradedApart(n, p, c);
      ghost var q, l, r, b := SwapPointers(parent, child);
      forall i | 0 <= i < n
        ensures SameNode(s, t, Complete(n), i)
      {
        SwapSame(p, c, q, l, r, b, s, t, i);
      }
      CompleteRanged(n);
      Renumber(s, t, Complete(n), 0);
      assert Match(p) && Match(c);
    }

    // ------------------------------------------------------------ sifting

    /** Swap with the keys by slot. */
    method SwapKeys(parent: Node, child: Node, ghost all: seq<Node>)
      requires Shaped() && In(parent) && In(child) && child.parent == parent
      requires forall i :: 0 <= i < |order| ==> order[i] in all
      modifies this`root, this`links, this`top, this`order, order`parent, order`left, order`right, order`slot
      ensures Shaped() && child.slot == old(parent.slot) && parent.slot == old(child.slot) && |order| == old(|order|)
      ensures In(parent) && In(child) && old(parent.slot) == Up(old(child.slot)) && 0 <= old(child.slot) < |order|
      ensures Keys(order) == Exchange(old(Keys(order)), old(parent.slot), old(child.slot))
      ensures multiset(order) == multiset(old(order))
      ensures forall i :: 0 <= i < |order| ==> order[i] in all
    {
      Here(child);
      Swap(parent, child);
    }

    /** The loop `while (node->parent && compare(node, node->parent)) heap_swap(...)`. */
    method SiftUp(node: Node)
      requires Shaped() && In(node) && UpInv(Keys(order), node.slot)
      modifies this`root, this`links, this`top, this`order, order`parent, order`left, order`right, order`slot
      ensures Shaped() && HeapOk(Keys(order)) && |order| == old(|order|)
      ensures multiset(order) == multiset(old(order))
    {
      while node.parent != null && node.key < node.parent.key
        invariant Shaped() && In(node) && UpInv(Keys(order), node.slot) && |order| == old(|order|)
        invariant multiset(order) == multiset(old(order))
        invariant forall i :: 0 <= i < |order| ==> order[i] in old(order)
        decreases node.slot
      {
        Here(node);
        UpStep(Keys(order), node.slot);
        SwapKeys(node.parent, node, old(order));
      }
      Here(node);
      UpDone(Keys(order), node.slot);
    }

    /** The child to swap with, or v itself. */
    method Least(v: Node) returns (est: Node)
      requires Shaped() && In(v)
      ensures In(est)
      ensures est != v ==> est.parent == v && LeastChild(Keys(order), v.slot, est.slot)
      ensures est == v && 2 * v.slot + 1 < |order| ==> v.key < order[2 * v.slot + 1].key
      ensures est == v && 2 * v.slot + 2 < |order| ==> v.key < order[2 * v.slot + 2].key
    {
      Here(v);
      est := v;
      if v.left != null {
        Here(v.left);
        est := if est.key < v.left.key then est else v.left;
      }
      if v.right != null {
        Here(v.right);
        est := if est.key < v.right.key then est else v.right;
      }
    }

    /** One round of the sift-down loop. */
    method StepDown(v: Node, ghost all: seq<Node>) returns (done: bool)
      requires Shaped() && In(v) && DownInv(Keys(order), v.slot)
      requires forall i :: 0 <= i < |order| ==> order[i] in all
      modifies this`root, this`links, this`top, this`order, order`parent, order`left, order`right, order`slot
      ensures Shaped() && In(v) && |order| == old(|order|) && multiset(order) == multiset(old(order))
      ensures done ==> UpInv(Keys(order), v.slot)
      ensures !done ==> DownInv(Keys(order), v.slot) && v.slot > old(v.slot)
      ensures forall i :: 0 <= i < |order| ==> order[i] in all
    {
      var est := Least(v);
      done := est == v;
      if done {
        DownDone(Keys(order), v.slot);
      } else {
        DownStep(Keys(order), v.slot, est.slot);
        SwapKeys(v, est, all);
      }
    }

    method SiftDown(v: Node)
      requires Shaped() && In(v) && DownInv(Keys(order), v.slot)
      modifies this`root, this`links, this`top, this`order, order`parent, order`left, order`right, order`slot
      ensures Shaped() && In(v) && UpInv(Keys(order), v.slot) && |order| == old(|order|)
      ensures multiset(order) == multiset(old(order))
      ensures forall i :: 0 <= i < |order| ==> order[i] in old(order)
    {
      var done := false;
      while !done
        invariant Shaped() && In(v) && |order| == old(|order|) && multiset(order) == multiset(old(order))
        invariant if done then UpInv(Keys(order), v.slot) else DownInv(Keys(order), v.slot)
        invariant forall i :: 0 <= i < |order| ==> order[i] in old(order)
        decreases !done, |order| - v.slot
      {
        done := StepDown(v, old(order));
      }
    }

    // ------------------------------------------------------------ the last slot

    /** Follow the bits of the target, counted from 1, down to the node above it. */
    method Descend(path0: nat, d0: nat, ghost target: nat) returns (parent: Node?, path: nat)
      requires Shaped() && 1 <= target <= |order| + 1 && Follow(1, path0, d0) == target && (d0 == 0 <==> target == 1)
      ensures target == 1 ==> parent == root && path == path0
      ensures target >= 2 ==> parent == Ref(Up(target - 1)) && parent != null && In(parent) && path % 2 == target % 2
    {
      parent, path := root, path0;
      var d := d0;
      ghost var k := 1;
      FollowGrows(k, path, d);
      while d > 1
        invariant parent == Ref(k - 1) && k >= 1 && Follow(k, path, d) == target
        invariant d >= 1 ==> 2 * k <= target
        invariant d == 0 ==> target == 1 && path == path0 && k == 1
        decreases d
      {
        InRef(k - 1);
        Here(parent);
        parent := if path % 2 == 1 then parent.right else parent.left;
        k := 2 * k + path % 2;
        d := d - 1;
        path := path / 2;
        FollowGrows(k, path, d);
      }
      if d == 1 {
        InRef(k - 1);
        assert Follow(k, path, 1) == 2 * k + path % 2;
      }
    }

    // ------------------------------------------------------------ heap_insert

    ghost predicate Absent(n: Node)
      reads this
    {
      n !in order
    }

    /** node, whose links are empty, joins the slots below parent, which does not lead to it yet. */
    method Join(node: Node, parent: Node?)
      requires Rep() && Absent(node) && node.left == null && node.right == null && In(parent)
      modifies this`order, this`links, node`parent, node`slot
      ensures Rep() && order == old(order) + [node] && node.slot == old(|order|)
      ensures links == old(links) + [Link(Ix(parent), NIL, NIL)]
    {
      node.parent := parent;
      node.slot := |order|;
      links := links + [Link(Ix(parent), NIL, NIL)];
      order := order + [node];
      forall k | 0 <= k < |order|
        ensures Match(k)
      {
        if k < |order| - 1 {
          assert old(Match(k));
        }
      }
    }

    /** It becomes the last node. */
    method LinkLast(node: Node, parent: Node?, atRight: bool)
      requires Shaped() && Absent(node) && node.left == null && node.right == null
      requires parent == Ref(Up(|order|)) && (|order| >= 1 ==> atRight == ((|order| + 1) % 2 == 1))
      modifies this`root, this`order, this`links, this`top, node`parent, node`slot, node`left, node`right,
               order`left, order`right
      ensures Shaped() && order == old(order) + [node] && node.slot == old(|order|)
    {
      ghost var n := |order|;
      InRef(Up(n));
      Join(node, parent);
      LinkNext(n, atRight);
      if parent == null {
        SetRoot(node);
      } else if atRight {
        SetRight(parent, node);
      } else {
        SetLeft(parent, node);
      }
    }

    method SetRoot(node: Node)
      requires Rep() && In(node)
      modifies this`root, this`top
      ensures Rep() && top == node.slot
    {
      root := node;
      top := node.slot;
      forall k | 0 <= k < |order|
        ensures Match(k)
      {
        assert old(Match(k));
      }
    }

    /** The first half of `heap_insert`: node goes into the slot that the bits of the new count name. */
    method AddLast(node: Node)
      requires Valid() && Absent(node) && node.left == null && node.right == null
      modifies this, node`parent, node`slot, node`left, node`right, order`left, order`right
      ensures Shaped() && nelts == |order| && order == old(order) + [node] && node.slot == old(|order|)
    {
      nelts := nelts + 1;
      StillShaped();
      var path, d := PathTo(nelts);
      var parent;
      parent, path := Descend(path, d, nelts);
      LinkLast(node, parent, path % 2 == 1);
    }

    twostate lemma StillShaped()
      requires old(Shaped()) && unchanged(`root) && unchanged(`order) && unchanged(`links) && unchanged(`top)
      requires forall i :: 0 <= i < |order| ==> unchanged(order[i])
      ensures Shaped()
    {
      forall k | 0 <= k < |order|
        ensures Match(k)
      {
        assert old(Match(k));
      }
    }

    /** The same, by keys. */
    method AddKey(node: Node)
      requires Valid() && Absent(node) && node.left == null && node.right == null
      modifies this, node`parent, node`slot, node`left, node`right, order`left, order`right
      ensures Shaped() && In(node) && UpInv(Keys(order), node.slot)
      ensures order == old(order) + [node] && nelts == |order|
    {
      ghost var ks := Keys(order);
      AddLast(node);
      AppendUp(ks, node.key);
      assert Keys(order) == ks + [node.key];
    }

    static lemma Joined(s: seq<Node>, t: seq<Node>, node: Node)
      requires multiset(t) == multiset(s + [node])
      ensures multiset(t) == multiset(s) + multiset{node} && |t| == |s| + 1
      ensures forall n :: n in t <==> n in s || n == node
    {
      assert |multiset(t)| == |t| && |multiset(s + [node])| == |s + [node]|;
      forall n: Node
        ensures n in t <==> n in s || n == node
      {
        assert n in t <==> n in multiset(t);
        assert n in s + [node] <==> n in multiset(s + [node]);
      }
    }

    /** `heap_insert`: node joins the heap. */
    method Insert(node: Node)
      requires Valid() && Absent(node) && node.left == null && node.right == null
      modifies this, node`parent, node`left, node`right, node`slot, order`parent, order`left, order`right, order`slot
      ensures Valid() && multiset(order) == multiset(old(order)) + multiset{node}
      ensures Nodes() == old(Nodes()) + {node} && nelts == old(nelts) + 1
    {
      ghost var s := order;
      AddKey(node);
      SiftUp(node);
      Joined(s, order, node);
    }

    // ------------------------------------------------------------ heap_remove

    /** `heap_replace(heap, node, last)`, then node's own links are cleared. */
    method Replace(node: Node, last: Node)
      requires Rep() && In(node) && In(last)
      modifies this`root, this`links, this`top, order`parent, order`left, order`right
      ensures Rep()
      ensures var k, j := old(node.slot), old(last.slot);
              var t := old(links)[k];
              && Fits(old(links), t.parent) && Fits(old(links), t.left) && Fits(old(links), t.right)
              && links == ReplaceSteps(old(links), k, j, t.parent, t.left, t.right)
              && top == if t.parent == NIL then j else old(top)
    {
      Here(node);
      var parent, left, right := node.parent, node.left, node.right;
      Relink(parent, node, last);
      SetParent(left, last);
      SetParent(right, last);
      SetLinks(last, parent, left, right);
      SetLinks(node, null, null, null);
    }

    /** The last node is unlinked from its parent. */
    method CutLast(parent: Node, atRight: bool) returns (last: Node)
      requires Shaped() && |order| >= 2 && parent == order[Up(|order| - 1)] && atRight == (|order| % 2 == 1)
      modifies this`links, order`left, order`right
      ensures Rep() && LastUnlinked(links, |order|) && last == order[|order| - 1]
    {
      InRef(Up(|order| - 1));
      InRef(|order| - 1);
      Here(parent);
      UnlinkLast(|order|, atRight);
      if atRight {
        last := parent.right;
        SetRight(parent, null);
      } else {
        last := parent.left;
        SetLeft(parent, null);
      }
    }

    lemma RemoveSame(k: int, s: seq<Node>, t: seq<int>, i: int)
      requires |links| == |order| >= 2 && |s| == |t| == |order| - 1 && 0 <= i < |s| && 0 <= k < |order|
      requires s == order[k := order[|order| - 1]][..|order| - 1] && t[i] == (if i == k then |order| - 1 else i)
      requires links[t[i]] == TradeLink(k, |order| - 1, Full(|s|, i))
      ensures SameNode(s, t, Complete(|s|), i)
    {
      TradeDrop(order, k, Full(|s|, i).parent);
      TradeDrop(order, k, Full(|s|, i).left);
      TradeDrop(order, k, Full(|s|, i).right);
    }

    lemma RemoveSameAll(m: seq<Link>, k: int, c: Link, s: seq<Node>, t: seq<int>, w: seq<Link>)
      requires |links| == |order| >= 2 && |s| == |t| == |order| - 1 && w == Complete(|s|)
      requires LastUnlinked(m, |order|) && 0 <= k < |order| && c == m[k]
      requires Fits(m, c.parent) && Fits(m, c.left) && Fits(m, c.right)
      requires links == ReplaceSteps(m, k, |order| - 1, c.parent, c.left, c.right)
      requires s == order[k := order[|order| - 1]][..|order| - 1]
      requires t == Moved(|s|, k)
      ensures forall i {:trigger SameNode(s, t, w, i)} :: 0 <= i < |s| ==> SameNode(s, t, w, i)
    {
      forall i | 0 <= i < |s|
        ensures SameNode(s, t, w, i)
      {
        RemoveSameAt(m, k, c, s, t, i);
      }
    }

    lemma RemoveSameAt(m: seq<Link>, k: int, c: Link, s: seq<Node>, t: seq<int>, i: int)
      requires |links| == |order| >= 2 && |s| == |t| == |order| - 1 && 0 <= i < |s|
      requires LastUnlinked(m, |order|) && 0 <= k < |order| && c == m[k]
      requires Fits(m, c.parent) && Fits(m, c.left) && Fits(m, c.right)
      requires links == ReplaceSteps(m, k, |order| - 1, c.parent, c.left, c.right)
      requires s == order[k := order[|order| - 1]][..|order| - 1] && t[i] == (if i == k then |order| - 1 else i)
      ensures SameNode(s, t, Complete(|s|), i)
    {
      ReplaceIsTrade(m, |order|, k, c.parent, c.left, c.right, i);
      RemoveSame(k, s, t, i);
    }

    /** Where the node of each slot comes from when the last of n + 1 takes slot k. */
    static function Moved(n: nat, k: int): (t: seq<int>)
      ensures |t| == n && forall i :: 0 <= i < n ==> t[i] == if i == k then n else i
    {
      seq(n, i => if i == k then n else i)
    }

    static lemma MovedApart(n: nat, k: int)
      ensures forall i, j :: 0 <= i < j < n ==> Moved(n, k)[i] != Moved(n, k)[j]
    {
    }

    /** `heap_replace` by the last node, with the slots as they were. */
    method Vacate(node: Node, last: Node, ghost s: seq<Node>, ghost t: seq<int>)
      requires Rep() && |order| >= 2 && In(node) && last == order[|order| - 1] && LastUnlinked(links, |order|)
      requires top == 0 && In(last)
      requires s == order[node.slot := last][..|order| - 1] && t == Moved(|s|, node.slot)
      modifies this`root, this`links, this`top, order`parent, order`left, order`right
      ensures Rep() && root == RefIn(s, 0)
      ensures forall i {:trigger SameNode(s, t, Complete(|s|), i)} :: 0 <= i < |s| ==> SameNode(s, t, Complete(|s|), i)
      ensures node.parent == null && node.left == null && node.right == null
    {
      ghost var k, m := node.slot, links;
      InRef(|order| - 1);
      assert last.slot == |order| - 1;
      ReplacedTop(m, |order|, k);
      Replace(node, last);
      Here(node);
      RemoveSameAll(m, k, m[k], s, t, Complete(|s|));
    }

    /** The last node takes node's slot, and node is out. */
    method TakeOut(node: Node, last: Node)
      requires Rep() && |order| >= 2 && In(node) && last == order[|order| - 1] && LastUnlinked(links, |order|)
      requires top == 0
      modifies this`root, this`order, this`links, this`top, order`parent, order`left, order`right, order`slot
      ensures Shaped() && order == old(order)[old(node.slot) := last][..|old(order)| - 1]
      ensures old(node.slot) < |old(order)| - 1 ==> last.slot == old(node.slot)
      ensures node.parent == null && node.left == null && node.right == null
    {
      ghost var n, k := |order|, node.slot;
      InRef(n - 1);
      ghost var s := order[k := last][..n - 1];
      ghost var t := Moved(n - 1, k);
      MovedApart(n - 1, k);
      CompleteRanged(n - 1);
      Vacate(node, last, s, t);
      Renumber(s, t, Complete(n - 1), 0);
      if k < n - 1 {
        assert Match(k);
      }
    }

    lemma ReplacedTop(m: seq<Link>, n: nat, k: int)
      requires LastUnlinked(m, n) && 0 <= k < n
      ensures m[k].parent == NIL <==> k == 0
    {
      if k < n - 1 {
        assert m[k] == Full(n - 1, k);
      }
    }

    /** `heap_remove` from a heap of one node. */
    method RemoveOnly(node: Node)
      requires Shaped() && |order| == 1 && In(node)
      modifies this`root, this`order, this`links, this`top, node`left
      ensures Shaped() && order == []
      ensures node.parent == null && node.left == null && node.right == null
    {
      Here(node);
      var parent := root;
      var last := parent.left;
      parent.left := null;
      if last == null && root == node {
        root := null;
      }
      order, links, top := [], [], NIL;
    }

    /** `heap_remove` from a heap of several nodes, up to the sifting. */
    method RemoveMany(node: Node, parent: Node, atRight: bool) returns (last: Node)
      requires Shaped() && |order| >= 2 && In(node) && parent == order[Up(|order| - 1)] && atRight == (|order| % 2 == 1)
      modifies this`root, this`order, this`links, this`top, order`parent, order`left, order`right, order`slot
      ensures Shaped() && last == old(order)[|old(order)| - 1]
      ensures order == old(order)[old(node.slot) := last][..|old(order)| - 1]
      ensures old(node.slot) < |old(order)| - 1 ==> last.slot == old(node.slot)
      ensures node.parent == null && node.left == null && node.right == null && node !in order
    {
      Gone(node);
      last := CutLast(parent, atRight);
      TakeOut(node, last);
    }

    /** Once replaced by the last node, node occurs nowhere in the heap. */
    lemma Gone(node: Node)
      requires Rep() && In(node)
      ensures node !in order[node.slot := order[|order| - 1]][..|order| - 1]
    {
      forall i | 0 <= i < |order|
        ensures order[i] == node ==> i == node.slot
      {
        assert Match(i);
      }
    }

    /** The work of `heap_remove` on a heap of several nodes. */
    method RemoveAndSift(node: Node, parent: Node, atRight: bool)
      requires Shaped() && HeapOk(Keys(order)) && |order| >= 2 && In(node)
      requires parent == order[Up(|order| - 1)] && atRight == (|order| % 2 == 1)
      modifies this`root, this`order, this`links, this`top, order`parent, order`left, order`right, order`slot
      ensures Shaped() && HeapOk(Keys(order)) && |order| == |old(order)| - 1
      ensures multiset(old(order)) == multiset(order) + multiset{node}
      ensures node.parent == null && node.left == null && node.right == null
    {
      ghost var ks, k := Keys(order), node.slot;
      var last := RemoveKeys(node, parent, atRight);
      // When node was the last one it has no links left, and both sifting loops stop at once.
      if last != node {
        ReplaceDown(ks, k);
        Resift(last);
      } else {
        ShrinkOk(ks);
      }
    }

    /** What becomes of the keys when the last node takes node's slot. */
    method RemoveKeys(node: Node, parent: Node, atRight: bool) returns (last: Node)
      requires Shaped() && |order| >= 2 && In(node) && parent == order[Up(|order| - 1)] && atRight == (|order| % 2 == 1)
      modifies this`root, this`order, this`links, this`top, order`parent, order`left, order`right, order`slot
      ensures Shaped() && Without(old(order), order, node, old(node.slot), last) && (last != node ==> In(last))
      ensures Keys(order) == old(Keys(order))[old(node.slot) := old(Keys(order))[|order|]][..|order|]
      ensures last != node ==> last.slot == old(node.slot)
      ensures node.parent == null && node.left == null && node.right == null && node !in order
    {
      ghost var s, k, n := order, node.slot, |order|;
      ghost var r := s[k := s[n - 1]][..n - 1];
      ghost var ks := Keys(r);
      KeysShorter(s, r, k);
      InRef(n - 1);
      IsWithout(s, r, node, k);
      last := RemoveMany(node, parent, atRight);
      assert Keys(order) == ks;
    }

    /** r is s without node, whose slot k the last one has taken. */
    static ghost predicate Without(s: seq<Node>, r: seq<Node>, node: Node, k: int, last: Node) {
      && multiset(s) == multiset(r) + multiset{node} && |r| == |s| - 1
      && (forall i :: 0 <= i < |r| ==> r[i] in s)
      && if last == node then k == |r| else 0 <= k < |r| && r[k] == last
    }

    lemma IsWithout(s: seq<Node>, r: seq<Node>, node: Node, k: int)
      requires s == order && Rep() && In(node) && k == node.slot && r == s[k := s[|s| - 1]][..|s| - 1]
      ensures Without(s, r, node, k, s[|s| - 1])
    {
      Shorter(s, r, k);
      InRef(|s| - 1);
    }

    static lemma KeysShorter(s: seq<Node>, r: seq<Node>, k: int)
      requires 0 <= k < |s| && r == s[k := s[|s| - 1]][..|s| - 1]
      ensures Keys(r) == Keys(s)[k := Keys(s)[|s| - 1]][..|s| - 1]
    {
    }

    static lemma Shorter(s: seq<Node>, r: seq<Node>, k: int)
      requires 0 <= k < |s| && r == s[k := s[|s| - 1]][..|s| - 1]
      ensures multiset(s) == multiset(r) + multiset{s[k]}
    {
      var n := |s|;
      if k == n - 1 {
        assert s == r + [s[k]];
      } else {
        var a, b := s[..k], s[k + 1..n - 1];
        assert s == a + [s[k]] + b + [s[n - 1]];
        assert r == a + [s[n - 1]] + b;
        OneLess(a, s[k], b, s[n - 1]);
      }
    }

    static lemma OneLess(a: seq<Node>, x: Node, b: seq<Node>, y: Node)
      ensures multiset(a + [x] + b + [y]) == multiset(a + [y] + b) + multiset{x}
    {
    }

    /** The sifting of `heap_remove`: last may be too large for its slot or too small. */
    method Resift(last: Node)
      requires Shaped() && In(last) && DownInv(Keys(order), last.slot)
      modifies this`root, this`links, this`top, this`order, order`parent, order`left, order`right, order`slot
      ensures Shaped() && HeapOk(Keys(order)) && |order| == old(|order|)
      ensures multiset(order) == multiset(old(order))
    {
      SiftDown(last);
      SiftUp(last);
    }

    /** The node above the last one, and on which side the last one is. */
    method LocateLast() returns (parent: Node?, atRight: bool)
      requires Shaped() && nelts == |order| >= 1
      ensures nelts >= 2 ==> parent == order[Up(nelts - 1)] && atRight == (nelts % 2 == 1)
    {
      var path, d := PathTo(nelts);
      parent, path := Descend(path, d, nelts);
      atRight := path % 2 == 1;
    }

    method RemoveMember(node: Node)
      requires Valid() && In(node)
      modifies this, order`parent, order`left, order`right, order`slot
      ensures Valid() && nelts == old(nelts) - 1
      ensures multiset(old(order)) == multiset(order) + multiset{node}
      ensures node.parent == null && node.left == null && node.right == null
    {
      var parent, atRight := LocateLast();
      nelts := nelts - 1;
      StillShaped();
      if nelts == 0 {
        RemoveOnly(node);
      } else {
        RemoveAndSift(node, parent, atRight);
      }
    }

    /** `heap_remove`: exactly node leaves the heap, wherever it is. */
    method Remove(node: Node?)
      requires Valid() && (nelts > 0 ==> node != null && In(node))
      modifies this, order`parent, order`left, order`right, order`slot
      ensures Valid()
      ensures old(nelts) == 0 ==> order == []
      ensures old(nelts) > 0 ==> multiset(old(order)) == multiset(order) + multiset{node}
      ensures old(nelts) > 0 ==> Nodes() == old(Nodes()) - {node} && nelts == old(nelts) - 1
      ensures old(nelts) > 0 ==> node.parent == null && node.left == null && node.right == null
      ensures forall i :: 0 <= i < |order| ==> order[i] in old(order)
    {
      if nelts == 0 {
        return;
      }
      Once(node);
      RemoveMember(node);
      BagLess(old(order), order, node);
    }

    /** A member occurs once. */
    lemma Once(node: Node)
      requires Rep() && In(node)
      ensures multiset(order)[node] == 1
    {
      var k := node.slot;
      Gone(node);
      Shorter(order, order[k := order[|order| - 1]][..|order| - 1], k);
    }

    static lemma BagLess(s: seq<Node>, r: seq<Node>, node: Node)
      requires multiset(s) == multiset(r) + multiset{node} && multiset(s)[node] == 1
      ensures (set n | n in r) == (set n | n in s) - {node}
      ensures forall i :: 0 <= i < |r| ==> r[i] in s
    {
      assert forall n :: n in r <==> n in multiset(r);
      assert forall n :: n in s <==> n in multiset(s);
      forall i | 0 <= i < |r|
        ensures r[i] in s
      {
        assert r[i] in r;
      }
    }

    /** `heap_dequeue`. */
    method Dequeue()
      requires Valid()
      modifies this, order`parent, order`left, order`right, order`slot
      ensures Valid()
      ensures old(nelts) == 0 ==> order == []
      ensures old(nelts) > 0 ==> Nodes() == old(Nodes()) - {old(root)} && nelts == old(nelts) - 1
      ensures forall i :: 0 <= i < |order| ==> order[i] in old(order)
      ensures old(nelts) > 0 ==> old(root).parent == null && old(root).left == null && old(root).right == null
    {
      if nelts > 0 {
        InRef(0);
      }
      Remove(root);
    }
  }
}
