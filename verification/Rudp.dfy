/** The address map of event/rudp.c: entries in a red-black tree, ordered by `memcmp` of their
    socket addresses. */
module Rudp {
  import opened Bytes
  import opened Numbers
  import opened RbTree
  import S = RbShape
  import L = RbSlots
  import M = RbMeaning

  /** sizeof(sockaddr_u) without Unix-domain sockets. */
  const ADDR_SIZE := 28

  predicate IsAddr(a: seq<Byte>) {
    |a| == ADDR_SIZE
  }

  /** `memcmp` of two blocks of the same size. */
  function Cmp(a: seq<Byte>, b: seq<Byte>): (r: int)
    requires |a| == |b|
    ensures r == 0 <==> a == b
  {
    if a == [] then 0
    else if a[0] != b[0] then a[0] - b[0]
    else
      assert a == [a[0]] + a[1..] && b == [b[0]] + b[1..];
      Cmp(a[1..], b[1..])
  }

  predicate Less(a: seq<Byte>, b: seq<Byte>) {
    |a| == |b| && Cmp(a, b) < 0
  }

  lemma {:induction false} CmpTurns(a: seq<Byte>, b: seq<Byte>)
    requires |a| == |b|
    ensures Cmp(a, b) == -Cmp(b, a)
  {
    if a == [] || a[0] != b[0] {
    } else {
      CmpTurns(a[1..], b[1..]);
    }
  }

  /** Addresses are ordered by the first byte in which they differ. */
  lemma {:induction false} LessIff(a: seq<Byte>, b: seq<Byte>) returns (k: nat)
    requires |a| == |b|
    ensures k <= |a| && a[..k] == b[..k] && (k < |a| ==> a[k] != b[k])
    ensures Less(a, b) <==> k < |a| && a[k] < b[k]
  {
    if a == [] || a[0] != b[0] {
      k := 0;
    } else {
      var j := LessIff(a[1..], b[1..]);
      k := j + 1;
      assert a[..k] == [a[0]] + a[1..][..j] && b[..k] == [b[0]] + b[1..][..j];
    }
  }

  lemma {:induction false} LessTrans(a: seq<Byte>, b: seq<Byte>, c: seq<Byte>)
    requires Less(a, b) && Less(b, c)
    ensures Less(a, c)
  {
    if a == [] || a[0] != b[0] || b[0] != c[0] {
    } else {
      LessTrans(a[1..], b[1..], c[1..]);
    }
  }

  /** Strictly increasing addresses. */
  ghost predicate Sorted(s: seq<Node>) {
    && (forall i :: 0 <= i < |s| ==> IsAddr(s[i].addr))
    && forall i, j :: 0 <= i < j < |s| ==> Less(s[i].addr, s[j].addr)
  }

  /** The finite map a sorted sequence of entries stands for. */
  ghost function Entries(s: seq<Node>): map<seq<Byte>, Node> {
    if s == [] then map[] else Entries(s[..|s| - 1])[s[|s| - 1].addr := s[|s| - 1]]
  }

  /** m holds exactly the entries of s, under their addresses. */
  ghost predicate Holds(m: map<seq<Byte>, Node>, s: seq<Node>) {
    && (forall n :: n in s ==> n.addr in m && m[n.addr] == n)
    && (forall a :: a in m ==> m[a] in s && m[a].addr == a)
  }

  lemma HoldsUnique(m: map<seq<Byte>, Node>, w: map<seq<Byte>, Node>, s: seq<Node>)
    requires Holds(m, s) && Holds(w, s)
    ensures m == w
  {
    forall a | a in m
      ensures a in w && w[a] == m[a]
    {
      assert m[a] in s;
    }
    forall a | a in w
      ensures a in m
    {
      assert w[a] in s;
    }
  }

  lemma {:induction false} EntriesOf(s: seq<Node>)
    requires Sorted(s)
    ensures Holds(Entries(s), s)
  {
    if s == [] {
    } else {
      var t, e := s[..|s| - 1], s[|s| - 1];
      assert s == t + [e];
      EntriesOf(t);
      forall n | n in t
        ensures n.addr != e.addr
      {
        var i :| 0 <= i < |t| && t[i] == n;
        assert Less(s[i].addr, e.addr);
      }
    }
  }

  /** Entries before g are below a, the others above it. */
  ghost predicate Cut(s: seq<Node>, a: seq<Byte>, g: int) {
    && 0 <= g <= |s| && IsAddr(a)
    && (forall i :: 0 <= i < g ==> Less(s[i].addr, a))
    && (forall i :: g <= i < |s| ==> Less(a, s[i].addr))
  }

  ghost function Inserted(s: seq<Node>, g: int, e: Node): seq<Node>
    requires 0 <= g <= |s|
  {
    s[..g] + [e] + s[g..]
  }

  ghost function Removed(s: seq<Node>, k: int): seq<Node>
    requires 0 <= k < |s|
  {
    s[..k] + s[k + 1..]
  }

  lemma InsertSorted(s: seq<Node>, g: int, e: Node)
    requires Sorted(s) && Cut(s, e.addr, g)
    ensures Sorted(Inserted(s, g, e))
    ensures e.addr !in Entries(s) && Entries(Inserted(s, g, e)) == Entries(s)[e.addr := e]
  {
    var r := Inserted(s, g, e);
    forall i, j | 0 <= i < j < |r|
      ensures Less(r[i].addr, r[j].addr)
    {
      assert r[i] == if i < g then s[i] else if i == g then e else s[i - 1];
      assert r[j] == if j < g then s[j] else if j == g then e else s[j - 1];
    }
    InsertEntries(s, g, e);
  }

  lemma InsertedHas(s: seq<Node>, g: int, e: Node, n: Node)
    requires 0 <= g <= |s|
    ensures n in Inserted(s, g, e) <==> n == e || n in s
  {
    assert s == s[..g] + s[g..];
  }

  lemma InsertEntries(s: seq<Node>, g: int, e: Node)
    requires Sorted(s) && Cut(s, e.addr, g) && Sorted(Inserted(s, g, e))
    ensures e.addr !in Entries(s) && Entries(Inserted(s, g, e)) == Entries(s)[e.addr := e]
  {
    var r := Inserted(s, g, e);
    EntriesOf(s);
    EntriesOf(r);
    CutMissing(s, e.addr, g);
    forall n: Node
      ensures n in r <==> n == e || n in s
    {
      InsertedHas(s, g, e, n);
    }
    HoldsUnique(Entries(r), Entries(s)[e.addr := e], r);
  }

  lemma CutMissing(s: seq<Node>, a: seq<Byte>, g: int)
    requires Sorted(s) && Cut(s, a, g)
    ensures a !in Entries(s)
  {
    EntriesOf(s);
    forall n | n in s
      ensures n.addr != a
    {
      var i :| 0 <= i < |s| && s[i] == n;
      assert if i < g then Less(n.addr, a) else Less(a, n.addr);
    }
  }

  lemma RemoveSorted(s: seq<Node>, k: int)
    requires Sorted(s) && 0 <= k < |s|
    ensures Sorted(Removed(s, k))
    ensures Entries(Removed(s, k)) == Entries(s) - {s[k].addr}
  {
    RemovedSorted(s, k, Removed(s, k));
    RemoveEntries(s, k);
  }

  lemma RemovedSorted(s: seq<Node>, k: int, r: seq<Node>)
    requires Sorted(s) && 0 <= k < |s| && r == Removed(s, k)
    ensures Sorted(r)
  {
    forall i | 0 <= i < |r|
      ensures r[i] == s[if i < k then i else i + 1]
    {
    }
    forall i, j | 0 <= i < j < |r|
      ensures Less(r[i].addr, r[j].addr)
    {
      var a, b := if i < k then i else i + 1, if j < k then j else j + 1;
      assert r[i] == s[a] && r[j] == s[b] && a < b;
    }
  }

  lemma RemovedHas(s: seq<Node>, k: int, n: Node)
    requires Sorted(s) && 0 <= k < |s|
    ensures n in Removed(s, k) <==> n in s && n.addr != s[k].addr
  {
    var r := Removed(s, k);
    if n in r {
      var j :| 0 <= j < |r| && r[j] == n;
      var i := if j < k then j else j + 1;
      assert n == s[i];
      assert if i < k then Less(n.addr, s[k].addr) else Less(s[k].addr, n.addr);
    }
    if n in s && n.addr != s[k].addr {
      var i :| 0 <= i < |s| && s[i] == n;
      assert r[if i < k then i else i - 1] == n;
    }
  }

  lemma RemoveEntries(s: seq<Node>, k: int)
    requires Sorted(s) && 0 <= k < |s| && Sorted(Removed(s, k))
    ensures Entries(Removed(s, k)) == Entries(s) - {s[k].addr}
  {
    var r := Removed(s, k);
    EntriesOf(s);
    EntriesOf(r);
    forall n: Node
      ensures n in r <==> n in s && n.addr != s[k].addr
    {
      RemovedHas(s, k, n);
    }
    HoldsUnique(Entries(r), Entries(s) - {s[k].addr}, r);
  }

  /** The bytes `rudp_get` stores: the first n, and zeros. */
  function Stored(a: seq<Byte>, n: nat): (r: seq<Byte>)
    requires n <= |a|
    ensures |r| == |a| && (r == a <==> forall i :: n <= i < |a| ==> a[i] == 0)
    ensures forall i :: 0 <= i < |a| ==> r[i] == if i < n then a[i] else 0
  {
    var r := a[..n] + seq(|a| - n, i => 0);
    assert forall i :: n <= i < |a| ==> r[i] == 0;
    r
  }

  lemma InsertedNodes(s: seq<Node>, g: int, e: Node)
    requires 0 <= g <= |s|
    ensures forall x :: x in Inserted(s, g, e) <==> x in s || x == e
  {
    assert s == s[..g] + s[g..];
  }

  /** What is stored does not come after the address. */
  lemma {:induction false} StoredBelow(a: seq<Byte>, n: nat)
    requires n <= |a|
    ensures Cmp(Stored(a, n), a) <= 0
    decreases |a|
  {
    var r := Stored(a, n);
    if a == [] {
    } else if n > 0 {
      assert r[1..] == Stored(a[1..], n - 1);
      StoredBelow(a[1..], n - 1);
    } else {
      assert r[1..] == Stored(a[1..], 0);
      StoredBelow(a[1..], 0);
    }
  }

  /** No entry lies between the stored address k and the address a, k included. */
  ghost predicate Clear(s: seq<Node>, k: seq<Byte>, a: seq<Byte>)
    requires Sorted(s) && IsAddr(k) && IsAddr(a)
  {
    forall i :: 0 <= i < |s| ==> Less(s[i].addr, k) || !Less(s[i].addr, a)
  }

  /** An entry put where a belongs, under an address that does not come after a, is in order exactly when no
      other entry lies between. */
  lemma MisplacedIff(s: seq<Node>, g: int, e: Node, a: seq<Byte>)
    requires Sorted(s) && Cut(s, a, g) && IsAddr(e.addr) && Cmp(e.addr, a) <= 0
    ensures Sorted(Inserted(s, g, e)) <==> Clear(s, e.addr, a)
  {
    var r := Inserted(s, g, e);
    if Clear(s, e.addr, a) {
      forall i | 0 <= i < |s|
        ensures if i < g then Less(s[i].addr, e.addr) else Less(e.addr, s[i].addr)
      {
        if i >= g && e.addr != a {
          LessTrans(e.addr, a, s[i].addr);
        }
      }
      assert Cut(s, e.addr, g);
      InsertSorted(s, g, e);
    } else {
      var i :| 0 <= i < |s| && !Less(s[i].addr, e.addr) && Less(s[i].addr, a);
      NotAfter(s, a, g, i);
      assert r[i] == s[i] && r[g] == e;
    }
  }

  lemma NotAfter(s: seq<Node>, a: seq<Byte>, g: int, i: int)
    requires Sorted(s) && Cut(s, a, g) && 0 <= i < |s| && Less(s[i].addr, a)
    ensures i < g
  {
    CmpTurns(s[i].addr, a);
  }

  /** `rudp_t`. */
  class Table {
    const tree: Tree

    constructor ()
      ensures Valid() && fresh(tree) && tree.order == []
    {
      tree := new Tree();
    }

    ghost predicate Valid()
      reads tree, tree.order
    {
      tree.Valid() && Sorted(tree.order)
    }

    /** Everything left of the subtree at node i is below a, everything right of it above. */
    ghost predicate Narrowed(a: seq<Byte>, lo: int, hi: int)
      reads tree
    {
      && IsAddr(a) && 0 <= lo <= hi <= |tree.order|
      && (forall j :: 0 <= j < lo ==> Less(tree.order[j].addr, a))
      && (forall j :: hi <= j < |tree.order| ==> Less(a, tree.order[j].addr))
    }

    lemma GoLeft(a: seq<Byte>, lo: int, hi: int, k: int)
      requires Sorted(tree.order) && Narrowed(a, lo, hi) && lo <= k < hi && Cmp(a, tree.order[k].addr) < 0
      ensures Narrowed(a, lo, k)
    {
      forall j | k <= j < |tree.order|
        ensures Less(a, tree.order[j].addr)
      {
        if j > k {
          LessTrans(a, tree.order[k].addr, tree.order[j].addr);
        }
      }
    }

    lemma GoRight(a: seq<Byte>, lo: int, hi: int, k: int)
      requires Sorted(tree.order) && Narrowed(a, lo, hi) && lo <= k < hi && Cmp(a, tree.order[k].addr) > 0
      ensures Narrowed(a, k + 1, hi)
    {
      CmpTurns(a, tree.order[k].addr);
      forall j | 0 <= j <= k
        ensures Less(tree.order[j].addr, a)
      {
        if j < k {
          LessTrans(tree.order[j].addr, tree.order[k].addr, a);
        }
      }
    }

    /** `rudp_search`: the entry of addr, after at most 2*log2(n+1) comparisons. */
    method Search(addr: seq<Byte>) returns (e: Node?, ghost steps: nat, ghost h: nat)
      requires Valid() && IsAddr(addr)
      ensures e == (if addr in Entries(tree.order) then Entries(tree.order)[addr] else null)
      ensures e != null ==> tree.In(e) && e.addr == addr
      ensures steps <= 2 * h && Pow2(h) <= |tree.order| + 1
    {
      EntriesOf(tree.order);
      M.Populous(tree.cells, tree.top, tree.top);
      h := S.BhOf(tree.cells, tree.top);
      steps := 0;
      var n := tree.root;
      tree.InRef(tree.top);
      ghost var lo, hi := 0, |tree.order|;
      while n != null
        invariant tree.In(n) && Narrowed(addr, lo, hi)
        invariant n == null ==> lo == hi
        invariant n != null ==> lo == tree.cells[n.pos].lo && hi == tree.cells[n.pos].hi
        invariant steps + M.Reach(tree.cells, tree.Ix(n)) <= 2 * h && 0 <= M.Reach(tree.cells, tree.Ix(n))
        decreases M.Reach(tree.cells, tree.Ix(n))
      {
        ghost var k := n.pos;
        tree.Links(n);
        S.Node(tree.cells, tree.top, k);
        M.ReachFalls(tree.cells, tree.top, k);
        steps := steps + 1;
        var cmp := Cmp(addr, n.addr);
        if cmp < 0 {
          GoLeft(addr, lo, hi, k);
          hi := k;
          n := n.left;
        } else if cmp > 0 {
          GoRight(addr, lo, hi, k);
          lo := k + 1;
          n := n.right;
        } else {
          return n, steps, h;
        }
      }
      CutMissing(tree.order, addr, lo);
      e := null;
    }

    /** The descent of `rudp_insert` and `rudp_get`: the entry of addr, or the free link where it belongs. */
    method FindSlot(addr: seq<Byte>) returns (e: Node?, parent: Node?, atLeft: bool, ghost g: int)
      requires Valid() && IsAddr(addr)
      ensures e == (if addr in Entries(tree.order) then Entries(tree.order)[addr] else null)
      ensures e == null ==> tree.In(parent) && L.Free(tree.cells, tree.top, tree.Ix(parent), atLeft)
      ensures e == null ==> Cut(tree.order, addr, g) && g == L.Gap(tree.Ix(parent), atLeft)
    {
      EntriesOf(tree.order);
      var n := tree.root;
      parent, atLeft, g := null, false, 0;
      tree.InRef(tree.top);
      ghost var lo, hi := 0, |tree.order|;
      while n != null
        invariant tree.In(n) && tree.In(parent) && Narrowed(addr, lo, hi)
        invariant n == null ==>
                  lo == hi == L.Gap(tree.Ix(parent), atLeft)
                  && L.Free(tree.cells, tree.top, tree.Ix(parent), atLeft)
        invariant n != null ==> lo == tree.cells[n.pos].lo && hi == tree.cells[n.pos].hi
        decreases hi - lo
      {
        parent := n;
        var cmp := Cmp(addr, n.addr);
        if cmp == 0 {
          tree.Links(n);
          return n, parent, atLeft, g;
        }
        n, atLeft, lo, hi := GoDown(addr, n, cmp, lo, hi);
      }
      g := lo;
      CutMissing(tree.order, addr, g);
      e := null;
    }

    /** One turn of the descent, to the side that cmp names. */
    method GoDown(addr: seq<Byte>, n: Node, cmp: int, ghost lo0: int, ghost hi0: int)
      returns (next: Node?, atLeft: bool, ghost lo: int, ghost hi: int)
      requires Valid() && IsAddr(addr) && tree.In(n) && Narrowed(addr, lo0, hi0) && cmp == Cmp(addr, n.addr) != 0
      requires lo0 == tree.cells[n.pos].lo && hi0 == tree.cells[n.pos].hi
      ensures tree.In(next) && Narrowed(addr, lo, hi) && 0 <= hi - lo < hi0 - lo0
      ensures next == null ==> lo == hi == L.Gap(n.pos, atLeft) && L.Free(tree.cells, tree.top, n.pos, atLeft)
      ensures next != null ==> lo == tree.cells[next.pos].lo && hi == tree.cells[next.pos].hi
    {
      ghost var k := n.pos;
      tree.Links(n);
      S.Node(tree.cells, tree.top, k);
      if cmp < 0 {
        GoLeft(addr, lo0, hi0, k);
        next, atLeft, lo, hi := n.left, true, lo0, k;
      } else {
        GoRight(addr, lo0, hi0, k);
        next, atLeft, lo, hi := n.right, false, k + 1, hi0;
      }
    }

    /** No entry of the tree has this object's address, so it is not in the tree. */
    lemma NotThere(e: Node)
      requires Valid() && e.addr !in Entries(tree.order)
      ensures tree.Absent(e)
    {
      EntriesOf(tree.order);
    }

    /** `rudp_insert`: adds entry under its address unless the address is taken. */
    method Insert(entry: Node) returns (added: bool)
      requires Valid() && IsAddr(entry.addr)
      modifies tree, entry, tree.order
      ensures Valid()
      ensures added <==> entry.addr !in old(Entries(tree.order))
      ensures Entries(tree.order) == if added then old(Entries(tree.order))[entry.addr := entry]
              else old(Entries(tree.order))
    {
      var e, parent, atLeft, g := FindSlot(entry.addr);
      added := e == null;
      if added {
        NotThere(entry);
        InsertSorted(tree.order, g, entry);
        tree.Insert(entry, parent, atLeft);
      }
    }

    /** `rudp_get`: the entry of addr, made if it is missing.  Only the first n bytes are copied into a new
        entry, so the address is found again exactly when the rest of it is zero. */
    method Get(addr: seq<Byte>, n: nat) returns (e: Node)
      requires Valid() && IsAddr(addr) && n <= ADDR_SIZE
      modifies tree, tree.order
      ensures tree.Valid()
      ensures addr in old(Entries(tree.order)) ==> e == old(Entries(tree.order))[addr] && tree.order == old(tree.order)
      ensures addr !in old(Entries(tree.order)) ==> fresh(e) && e.addr == Stored(addr, n) && e in tree.order
      ensures addr !in old(Entries(tree.order)) ==>
                |e.addr| == |addr| && forall i :: 0 <= i < |addr| ==> e.addr[i] == if i < n then addr[i] else 0
      ensures (forall i :: n <= i < |addr| ==> addr[i] == 0) ==>
                Valid() && Entries(tree.order) == old(Entries(tree.order))[addr := e]
      ensures (exists x :: x in tree.order && x.addr == addr) <==>
                (addr in old(Entries(tree.order)) || forall i :: n <= i < |addr| ==> addr[i] == 0)
      ensures addr !in old(Entries(tree.order)) ==> (Valid() <==> Clear(old(tree.order), Stored(addr, n), addr))
      ensures forall x :: x in tree.order <==> x in old(tree.order) || x == e
    {
      HasAddr(addr);
      var e0, parent, atLeft, g := FindSlot(addr);
      if e0 != null {
        e := e0;
        EntriesOf(tree.order);
      } else {
        e := Make(addr, n, parent, atLeft, g);
      }
    }

    lemma HasAddr(a: seq<Byte>)
      requires Valid()
      ensures (exists x :: x in tree.order && x.addr == a) <==> a in Entries(tree.order)
    {
      EntriesOf(tree.order);
      if a in Entries(tree.order) {
        assert Entries(tree.order)[a] in tree.order;
      }
    }

    method Make(addr: seq<Byte>, n: nat, parent: Node?, atLeft: bool, ghost g: int) returns (e: Node)
      requires Valid() && IsAddr(addr) && n <= ADDR_SIZE && tree.In(parent)
      requires L.Free(tree.cells, tree.top, tree.Ix(parent), atLeft) && Cut(tree.order, addr, g)
      requires g == L.Gap(tree.Ix(parent), atLeft)
      modifies tree, tree.order
      ensures tree.Valid() && fresh(e) && e.addr == Stored(addr, n) && e in tree.order
      ensures Stored(addr, n) == addr ==> Valid() && Entries(tree.order) == old(Entries(tree.order))[addr := e]
      ensures Stored(addr, n) != addr ==> forall x :: x in tree.order ==> x.addr != addr
      ensures Valid() <==> Clear(old(tree.order), Stored(addr, n), addr)
      ensures forall x :: x in tree.order <==> x in old(tree.order) || x == e
    {
      e := new Node(Stored(addr, n));
      ghost var before := tree.order;
      MakeNext(before, addr, n, g, e);
      tree.Insert(e, parent, atLeft);
      assert tree.order == Inserted(before, g, e);
    }

    /** The order with an entry made for a. */
    static lemma MakeNext(s: seq<Node>, a: seq<Byte>, n: nat, g: int, e: Node)
      requires Sorted(s) && IsAddr(a) && n <= ADDR_SIZE && Cut(s, a, g) && e.addr == Stored(a, n)
      ensures var r := Inserted(s, g, e);
              && (Sorted(r) <==> Clear(s, e.addr, a)) && (e.addr == a ==> Sorted(r) && Entries(r) == Entries(s)[a := e])
              && (e.addr != a ==> forall x :: x in r ==> x.addr != a)
              && forall x :: x in r <==> x in s || x == e
    {
      StoredBelow(a, n);
      MisplacedIff(s, g, e, a);
      InsertedNodes(s, g, e);
      if e.addr == a {
        InsertSorted(s, g, e);
      } else {
        MakeOther(s, a, g, e);
      }
    }

    static lemma MakeOther(s: seq<Node>, a: seq<Byte>, g: int, e: Node)
      requires Sorted(s) && Cut(s, a, g) && e.addr != a
      ensures forall x :: x in Inserted(s, g, e) ==> x.addr != a
    {
      CutMissing(s, a, g);
      EntriesOf(s);
      assert s == s[..g] + s[g..];
      assert forall x :: x in Inserted(s, g, e) ==> x == e || x in s;
    }

    /** `rudp_remove` and `rudp_del`: the entry of addr leaves the table. */
    method Remove(addr: seq<Byte>) returns (e: Node?)
      requires Valid() && IsAddr(addr)
      modifies tree, tree.order
      ensures Valid()
      ensures e == (if addr in old(Entries(tree.order)) then old(Entries(tree.order))[addr] else null)
      ensures Entries(tree.order) == old(Entries(tree.order)) - {addr}
    {
      ghost var steps, h;
      e, steps, h := Search(addr);
      if e != null {
        RemoveSorted(tree.order, e.pos);
        tree.Erase(e);
      }
    }

    /** One round of the loop of `rudp_cleanup`. */
    method TakeRoot() returns (n: Node)
      requires Valid() && tree.root != null
      modifies tree, tree.order
      ensures Valid()
      ensures multiset(old(tree.order)) == multiset(tree.order) + multiset{n}
      ensures forall x :: x in tree.order ==> x in old(tree.order)
    {
      n := tree.root;
      tree.InRef(tree.top);
      ghost var k, s := n.pos, tree.order;
      RemoveSorted(s, k);
      RemovedBag(s, k);
      tree.Erase(n);
      assert tree.order == Removed(s, k);
    }

    static lemma RemovedBag(s: seq<Node>, k: int)
      requires 0 <= k < |s|
      ensures multiset(s) == multiset(Removed(s, k)) + multiset{s[k]}
      ensures forall x :: x in Removed(s, k) ==> x in s
    {
      assert s == s[..k] + [s[k]] + s[k + 1..];
    }

    /** `rudp_cleanup`: every entry is taken out, once. */
    method Cleanup() returns (freed: seq<Node>)
      requires Valid()
      modifies tree, tree.order
      ensures Valid() && tree.order == [] && tree.root == null
      ensures multiset(freed) == multiset(old(tree.order))
    {
      freed := [];
      while tree.root != null
        invariant Valid()
        invariant multiset(freed) + multiset(tree.order) == multiset(old(tree.order))
        invariant forall i :: 0 <= i < |tree.order| ==> tree.order[i] in old(tree.order)
        decreases |multiset(tree.order)|
      {
        ghost var s := tree.order;
        var n := TakeRoot();
        freed := freed + [n];
        forall i | 0 <= i < |tree.order|
          ensures tree.order[i] in old(tree.order)
        {
          assert tree.order[i] in s;
        }
      }
    }
  }

  /** An address with a byte beyond those that are copied: each `rudp_get` makes a new entry, under the same
      stored address, and the table is no longer a map. */
  method EntriesDoubled(addr: seq<Byte>) returns (t: Table, e: Node, f: Node)
    requires IsAddr(addr) && addr[ADDR_SIZE - 1] != 0
    ensures e != f && e.addr == f.addr && t.tree.Valid() && e in t.tree.order && f in t.tree.order && !t.Valid()
  {
    t, e := GetOnce(addr);
    forall i | 0 <= i < |t.tree.order|
      ensures t.tree.order[i] == e
    {
      assert t.tree.order[i] in t.tree.order;
    }
    f := GetAgain(t, e, addr);
  }

  method GetOnce(addr: seq<Byte>) returns (t: Table, e: Node)
    requires IsAddr(addr) && addr[ADDR_SIZE - 1] != 0
    ensures fresh(t) && fresh(t.tree) && t.Valid() && (forall x :: x in t.tree.order <==> x == e) && fresh(e)
    ensures e.addr == Stored(addr, 16) != addr
  {
    t := new Table();
    EntriesOf(t.tree.order);
    e := t.Get(addr, 16);
    assert Stored(addr, 16) != addr;
  }

  method GetAgain(t: Table, e: Node, addr: seq<Byte>) returns (f: Node)
    requires t.Valid() && (forall x :: x in t.tree.order <==> x == e) && IsAddr(addr)
    requires e.addr == Stored(addr, 16) != addr
    modifies t.tree, t.tree.order
    ensures e != f && f.addr == e.addr && t.tree.Valid() && e in t.tree.order && f in t.tree.order && !t.Valid()
  {
    t.HasAddr(addr);
    InTheWay(t.tree.order, e, addr, 16);
    f := t.Get(addr, 16);
  }

  lemma InTheWay(s: seq<Node>, e: Node, a: seq<Byte>, n: nat)
    requires Sorted(s) && e in s && IsAddr(a) && n <= |a| && e.addr == Stored(a, n) != a
    ensures !Clear(s, Stored(a, n), a)
  {
    StoredBelow(a, n);
    var i :| 0 <= i < |s| && s[i] == e;
    assert Cmp(s[i].addr, Stored(a, n)) == 0;
  }
}
