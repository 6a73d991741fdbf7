/** The ring allocator `HRingBuf` of base/hbuf.h, freed in the order of allocation. */
module RingBuf {
  /** A live block. */
  datatype Block = Block(pos: nat, len: nat)

  /** The blocks fill the stretch between two places without a gap. */
  ghost predicate Packed(bs: seq<Block>, from: nat, to: nat) {
    if |bs| == 0 then from == to
    else bs[0].pos == from && bs[0].len > 0 && Packed(bs[1..], from + bs[0].len, to)
  }

  function Total(bs: seq<Block>): (n: nat) {
    if |bs| == 0 then 0 else bs[0].len + Total(bs[1..])
  }

  lemma {:induction false} PackedMore(bs: seq<Block>, from: nat, to: nat, b: Block)
    requires Packed(bs, from, to) && b.pos == to && b.len > 0
    ensures Packed(bs + [b], from, to + b.len)
    decreases |bs|
  {
    if |bs| == 0 {
      assert (bs + [b])[1..] == [];
    } else {
      PackedMore(bs[1..], from + bs[0].len, to, b);
      assert (bs + [b])[1..] == bs[1..] + [b];
    }
  }

  lemma {:induction false} TotalMore(bs: seq<Block>, b: Block)
    ensures Total(bs + [b]) == Total(bs) + b.len
    decreases |bs|
  {
    if |bs| == 0 {
      assert (bs + [b])[1..] == [];
    } else {
      TotalMore(bs[1..], b);
      assert (bs + [b])[1..] == bs[1..] + [b];
    }
  }

  lemma {:induction false} PackedBounds(bs: seq<Block>, from: nat, to: nat)
    requires Packed(bs, from, to)
    ensures from + |bs| <= to
    decreases |bs|
  {
    if |bs| == 0 {
    } else {
      PackedBounds(bs[1..], from + bs[0].len, to);
    }
  }

  lemma {:induction false} PackedInside(bs: seq<Block>, from: nat, to: nat, i: nat)
    requires Packed(bs, from, to) && i < |bs|
    ensures from <= bs[i].pos && 0 < bs[i].len && bs[i].pos + bs[i].len <= to
    decreases |bs|
  {
    PackedBounds(bs[1..], from + bs[0].len, to);
    if i == 0 {
    } else {
      PackedInside(bs[1..], from + bs[0].len, to, i - 1);
    }
  }

  lemma {:induction false} PackedApart(bs: seq<Block>, from: nat, to: nat, i: nat, j: nat)
    requires Packed(bs, from, to) && i < j < |bs|
    ensures bs[i].pos + bs[i].len <= bs[j].pos
    decreases |bs|
  {
    if i == 0 {
      PackedInside(bs[1..], from + bs[0].len, to, j - 1);
    } else {
      PackedApart(bs[1..], from + bs[0].len, to, i - 1, j - 1);
    }
  }

  /** Where the blocks lie in a ring of n bytes: from head on up to a place e, and then, if the ring has been
      wrapped, from 0 up to tail. The tail gap [e, n) was too short for the block that follows it. */
  ghost predicate Laid(first: seq<Block>, second: seq<Block>, n: nat, head: nat, e: nat, tail: nat) {
    && Packed(first, head, e) && head <= e <= n && (head < n || n == 0)
    && if |second| == 0 then
         (tail == if e == n then 0 else e)
       else
         Packed(second, 0, tail) && tail <= head && (e == n || second[0].len > n - e)
  }

  lemma LaidInside(first: seq<Block>, second: seq<Block>, n: nat, head: nat, e: nat, tail: nat, i: nat)
    requires Laid(first, second, n, head, e, tail) && i < |first + second|
    ensures 0 < (first + second)[i].len && (first + second)[i].pos + (first + second)[i].len <= n
  {
    if i < |first| {
      PackedInside(first, head, e, i);
    } else {
      PackedInside(second, 0, tail, i - |first|);
    }
  }

  predicate Apart(a: Block, b: Block) {
    a.pos + a.len <= b.pos || b.pos + b.len <= a.pos
  }

  lemma LaidApart(first: seq<Block>, second: seq<Block>, n: nat, head: nat, e: nat, tail: nat, i: nat, j: nat)
    requires Laid(first, second, n, head, e, tail) && i < j < |first + second|
    ensures Apart((first + second)[i], (first + second)[j])
  {
    var k := |first|;
    if j < k {
      PackedApart(first, head, e, i, j);
    } else if i >= k {
      PackedApart(second, 0, tail, i - k, j - k);
    } else {
      PackedInside(first, head, e, i);
      PackedInside(second, 0, tail, j - k);
    }
  }

  datatype Place = Nowhere | Offset(pos: nat)

  class Ring {
    const len: nat
    var head: nat
    var tail: nat
    var size: nat
    /** The live blocks, oldest first, before and behind the wrap, and where the first of them end. */
    ghost var first: seq<Block>
    ghost var second: seq<Block>
    ghost var e: nat

    ghost predicate Valid() reads this {
      Laid(first, second, len, head, e, tail) && size == Total(first + second)
    }

    ghost function Live(): seq<Block> reads this {
      first + second
    }

    constructor (cap: nat)
      ensures Valid() && Live() == [] && len == cap
    {
      len := cap;
      head, tail, size := 0, 0, 0;
      first, second, e := [], [], 0;
    }

    /** Live blocks lie in the buffer and do not overlap; the counter is their total; an empty ring has its
        head at its tail. */
    lemma Sound()
      requires Valid()
      ensures forall i :: 0 <= i < |Live()| ==> 0 < Live()[i].len && Live()[i].pos + Live()[i].len <= len
      ensures forall i, j :: 0 <= i < j < |Live()| ==> Apart(Live()[i], Live()[j])
      ensures size == Total(Live())
      ensures size == 0 <==> Live() == []
      ensures Live() == [] ==> head == tail
      ensures Live() != [] ==> Live()[0].pos == if Live()[0].len <= len - head then head else 0
    {
      if Live() != [] {
        Oldest();
      }
      forall i | 0 <= i < |Live()|
        ensures 0 < Live()[i].len && Live()[i].pos + Live()[i].len <= len
      {
        LaidInside(first, second, len, head, e, tail, i);
      }
      forall i, j | 0 <= i < j < |Live()|
        ensures Apart(Live()[i], Live()[j])
      {
        LaidApart(first, second, len, head, e, tail, i, j);
      }
    }

    /** The oldest block is at the head, or, if it does not fit there, at the front. */
    lemma Oldest()
      requires Valid() && Live() != []
      ensures Live()[0].pos == if Live()[0].len <= len - head then head else 0
    {
      if first != [] {
        PackedInside(first, head, e, 0);
      } else {
        assert Live()[0] == second[0];
        PackedInside(second, 0, tail, 0);
      }
    }

    /** `alloc`; a block of length zero takes no room and is not counted among the live ones. */
    method Alloc(l: nat) returns (ret: Place)
      requires Valid()
      modifies this
      ensures Valid() && head == old(head)
      ensures ret.Nowhere? ==> Live() == old(Live()) && tail == old(tail)
      ensures ret.Offset? && l > 0 ==> Live() == old(Live()) + [Block(ret.pos, l)]
      ensures ret.Offset? && l == 0 ==> Live() == old(Live()) && tail == old(tail) && ret.pos == tail
      ensures ret.Nowhere? <==> if old(head) < old(tail) || old(size) == 0 then len - old(tail) < l && old(head) < l
              else old(head) - old(tail) < l
    {
      ret := Nowhere;
      Shape();
      if head < tail || size == 0 {
        if len - tail >= l {
          ret := TakeAhead(l);
        } else if head >= l {
          ret := Offset(0);
          tail := l;
          Behind(Block(0, l), 0);
        }
      } else {
        if head - tail >= l {
          ret := TakeBetween(l);
        }
      }
      size := size + if ret.Offset? then l else 0;
    }

    /** Room at the tail, up to the end of the buffer. */
    method TakeAhead(l: nat) returns (ret: Place)
      requires Valid() && second == [] && e == tail && tail + l <= len
      modifies this`tail, this`first, this`e
      ensures Laid(first, second, len, head, e, tail) && Total(Live()) == size + l && ret == Offset(old(tail))
      ensures Live() == old(Live()) + if l > 0 then [Block(old(tail), l)] else []
      ensures l == 0 ==> tail == old(tail)
    {
      ret := Offset(tail);
      ghost var b := Block(tail, l);
      tail := tail + l;
      if tail == len {
        tail := 0;
      }
      if l > 0 {
        Ahead(b);
      }
    }

    /** Room between the tail and the head. */
    method TakeBetween(l: nat) returns (ret: Place)
      requires Valid() && tail + l <= head && (second == [] ==> tail == 0 && e == len)
      modifies this`tail, this`second
      ensures Laid(first, second, len, head, e, tail) && Total(Live()) == size + l && ret == Offset(old(tail))
      ensures Live() == old(Live()) + if l > 0 then [Block(old(tail), l)] else []
      ensures l == 0 ==> tail == old(tail)
    {
      ret := Offset(tail);
      tail := tail + l;
      if l > 0 {
        Behind(Block(tail - l, l), tail - l);
      }
    }

    /** A block behind the others, before the wrap. */
    ghost method Ahead(b: Block)
      requires second == [] && Packed(first, head, e) && b.pos == e && b.len > 0 && head < len && e + b.len <= len
      requires tail == if e + b.len == len then 0 else e + b.len
      modifies this`first, this`e
      ensures Laid(first, second, len, head, e, tail)
      ensures Live() == old(Live()) + [b] && Total(Live()) == Total(old(Live())) + b.len
    {
      PackedMore(first, head, e, b);
      PackedBounds(first, head, e);
      TotalMore(Live(), b);
      first, e := first + [b], e + b.len;
      assert Live() == old(Live()) + [b];
    }

    /** A block behind the others, behind the wrap. */
    ghost method Behind(b: Block, was: nat)
      requires Packed(first, head, e) && head <= e <= len && head < len && Packed(second, 0, was) && b.pos == was
      requires b.len > 0
      requires tail == was + b.len <= head && (e == len || (second + [b])[0].len > len - e)
      modifies this`second
      ensures Laid(first, second, len, head, e, tail)
      ensures Live() == old(Live()) + [b] && Total(Live()) == Total(old(Live())) + b.len
    {
      PackedMore(second, 0, was, b);
      TotalMore(Live(), b);
      second := second + [b];
      assert Live() == old(Live()) + [b];
    }

    /** `free` of the oldest block, or of one of length zero. */
    method Free(l: nat)
      requires Valid() && (l > 0 ==> Live() != [] && l == Live()[0].len)
      modifies this
      ensures Valid() && tail == old(tail)
      ensures Live() == if l > 0 then old(Live())[1..] else old(Live())
    {
      if l > 0 {
        Oldest();
        LaidInside(first, second, len, head, e, tail, 0);
      }
      size := size - l;
      if l <= len - head {
        head := head + l;
        if head == len {
          head := 0;
        }
      } else {
        head := l;
      }
      if l > 0 {
        Drop(old(head));
      }
    }

    ghost method Drop(was: nat)
      requires Live() != [] && Laid(first, second, len, was, e, tail)
      requires head == if Live()[0].len > len - was then Live()[0].len else if was + Live()[0].len == len then 0
               else was + Live()[0].len
      modifies this`first, this`second, this`e
      ensures Laid(first, second, len, head, e, tail) && Live() == old(Live())[1..]
    {
      if first == [] {
        assert second[0] == Live()[0];
        PackedInside(second, 0, tail, 0);
        PackedBounds(second[1..], second[0].len, tail);
        first, second, e := second[1..], [], tail;
      } else {
        PackedInside(first, was, e, 0);
        PackedBounds(first[1..], was + first[0].len, e);
        first := first[1..];
        if head == 0 {
          PackedBounds(second, 0, tail);
          first, second, e := second, [], tail;
        }
      }
    }

    /** What `alloc` concludes from head, tail and size. */
    lemma Shape()
      requires Valid()
      ensures head < tail || size == 0 ==> second == [] && e == tail
      ensures !(head < tail || size == 0) ==> tail <= head && (second == [] ==> tail == 0 && e == len)
    {
      PackedBounds(first, head, e);
      if size == 0 {
        assert Live() == [];
      }
    }
  }
}
