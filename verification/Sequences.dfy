/** What the components share about sequences and arrays. */
module Sequences {
  /** The pieces joined. */
  function Flat<T>(xs: seq<seq<T>>): (r: seq<T>) {
    if |xs| == 0 then [] else xs[0] + Flat(xs[1..])
  }

  lemma {:induction false} FlatLast<T>(xs: seq<seq<T>>)
    requires |xs| > 0
    ensures Flat(xs) == Flat(xs[..|xs| - 1]) + xs[|xs| - 1]
    decreases |xs|
  {
    var init, last := xs[..|xs| - 1], xs[|xs| - 1];
    if |xs| == 1 {
      assert xs[1..] == [] && init == [];
    } else {
      FlatLast(xs[1..]);
      assert xs[1..][..|xs[1..]| - 1] == init[1..];
      assert xs[0] + (Flat(init[1..]) + last) == xs[0] + Flat(init[1..]) + last;
    }
  }

  /** The pieces joined in two parts. */
  lemma {:induction false} FlatTwo<T>(xs: seq<seq<T>>, n: nat)
    requires n <= |xs|
    ensures Flat(xs) == Flat(xs[..n]) + Flat(xs[n..])
    decreases n
  {
    if n == 0 {
      assert xs[n..] == xs && xs[..n] == [];
    } else {
      FlatTwo(xs, n - 1);
      FlatLast(xs[..n]);
      assert xs[..n][..n - 1] == xs[..n - 1] && xs[n - 1..][1..] == xs[n..];
      assert Flat(xs[..n - 1]) + (xs[n - 1] + Flat(xs[n..])) == Flat(xs[..n - 1]) + xs[n - 1] + Flat(xs[n..]);
    }
  }

  lemma Rejoin<T>(a: seq<T>, x: seq<T>, n: nat)
    requires n <= |x|
    ensures x[..n] + x[n..] == x && a + x[..n] + x[n..] == a + x
  {
    assert x[..n] + x[n..] == x;
  }

  /** `memmove` of n elements from p to the front of an array. */
  method MoveDown<T>(a: array<T>, p: nat, n: nat)
    requires p + n <= a.Length
    modifies a
    ensures a[..n] == old(a[p..p + n])
  {
    for i := 0 to n
      invariant a[..i] == old(a[p..p + i])
      invariant a[p + i..] == old(a[p + i..])
    {
      ghost var tail := a[p + i..];
      assert a[p + i] == old(a[p + i..])[0];
      a[i] := a[p + i];
      assert a[..i + 1] == a[..i] + [a[i]];
      assert old(a[p..p + i + 1]) == old(a[p..p + i]) + [old(a[p + i])];
      assert a[p + i + 1..] == tail[1..];
      assert old(a[p + i..])[1..] == old(a[p + i + 1..]);
    }
  }
}
