/** Fields of a text as spans, against labels for its bytes. */
module Spans {
  datatype Span = None | At(off: nat, len: nat)

  predicate In(f: Span, j: int) {
    f.At? && f.off <= j < f.off + f.len
  }

  /** The bytes of field k are exactly the ones with label k. */
  ghost predicate Tracks(labels: seq<int>, fs: seq<Span>) {
    forall k, j {:trigger In(fs[k], j)} :: 0 <= k < |fs| && 0 <= j < |labels| ==> (In(fs[k], j) <==> labels[j] == k)
  }

  /** Fields that are set are not empty and lie within n bytes. */
  ghost predicate Bounded(fs: seq<Span>, n: nat) {
    forall k {:trigger fs[k]} :: 0 <= k < |fs| && fs[k].At? ==> fs[k].len > 0 && fs[k].off + fs[k].len <= n
  }

  /** Fields follow one another in the order of their numbers. */
  ghost predicate Ordered(fs: seq<Span>) {
    forall k, m :: 0 <= k < m < |fs| && fs[k].At? && fs[m].At? ==> fs[k].off + fs[k].len <= fs[m].off
  }

  /** The fields after some bytes; the last one that has begun is number last, or -1. */
  ghost predicate Good(labels: seq<int>, fs: seq<Span>, last: int) {
    && -1 <= last < |fs| && Tracks(labels, fs) && Bounded(fs, |labels|) && Ordered(fs)
    && (forall k :: last < k < |fs| ==> fs[k].None?)
    && (last >= 0 ==> fs[last].At?)
  }

  /** A byte outside all fields. */
  lemma Skip(labels: seq<int>, fs: seq<Span>, last: int)
    requires Good(labels, fs, last)
    ensures Good(labels + [-1], fs, last)
  {
    forall k, j | 0 <= k < |fs| && 0 <= j < |labels| + 1
      ensures In(fs[k], j) <==> (labels + [-1])[j] == k
    {
      assert fs[k].At? ==> fs[k].off + fs[k].len <= |labels|;
    }
  }

  /** A byte that goes on with the field of the one before it. */
  lemma Extend(labels: seq<int>, fs: seq<Span>, last: int)
    requires Good(labels, fs, last) && last >= 0 && |labels| > 0 && labels[|labels| - 1] == last
    ensures fs[last].off + fs[last].len == |labels|
    ensures Good(labels + [last], fs[last := At(fs[last].off, fs[last].len + 1)], last)
  {
    var f, n := fs[last], |labels|;
    assert In(f, n - 1);
    var labels', fs' := labels + [last], fs[last := At(f.off, f.len + 1)];
    forall k, j | 0 <= k < |fs'| && 0 <= j < |labels'|
      ensures In(fs'[k], j) <==> labels'[j] == k
    {
      assert fs[k].At? ==> fs[k].off + fs[k].len <= n;
      assert j < n ==> (In(fs[k], j) <==> labels[j] == k);
    }
    forall k, m | 0 <= k < m < |fs'| && fs'[k].At? && fs'[m].At?
      ensures fs'[k].off + fs'[k].len <= fs'[m].off
    {
      assert m <= last;
    }
  }

  /** A byte that begins a later field. */
  lemma Start(labels: seq<int>, fs: seq<Span>, last: int, x: int)
    requires Good(labels, fs, last) && last < x < |fs|
    ensures Good(labels + [x], fs[x := At(|labels|, 1)], x)
  {
    var n := |labels|;
    var labels', fs' := labels + [x], fs[x := At(n, 1)];
    forall k, j | 0 <= k < |fs'| && 0 <= j < |labels'|
      ensures In(fs'[k], j) <==> labels'[j] == k
    {
      assert fs[k].At? ==> fs[k].off + fs[k].len <= n;
      assert j < n ==> (In(fs[k], j) <==> labels[j] == k);
    }
    forall k, m | 0 <= k < m < |fs'| && fs'[k].At? && fs'[m].At?
      ensures fs'[k].off + fs'[k].len <= fs'[m].off
    {
      assert m <= x;
    }
  }

  /** The elements with label k, in order. */
  function Select<T>(labels: seq<int>, bs: seq<T>, k: int): (r: seq<T>)
    requires |labels| == |bs|
  {
    if |bs| == 0 then []
    else Select(labels[..|bs| - 1], bs[..|bs| - 1], k) + if labels[|bs| - 1] == k then [bs[|bs| - 1]] else []
  }

  /** The elements of a span. */
  function Slice<T>(bs: seq<T>, f: Span): (r: seq<T>) {
    if f.At? && f.off + f.len <= |bs| then bs[f.off..f.off + f.len] else []
  }

  lemma {:induction false} SelectRun<T>(labels: seq<int>, bs: seq<T>, k: int, a: nat, b: nat)
    requires |labels| == |bs| && a <= b <= |bs| && forall j :: 0 <= j < |bs| ==> (labels[j] == k <==> a <= j < b)
    ensures Select(labels, bs, k) == bs[a..b]
    decreases |bs|
  {
    if |bs| == 0 {
    } else {
      var n := |bs| - 1;
      if a < b == |bs| {
        SelectRun(labels[..n], bs[..n], k, a, b - 1);
        assert bs[a..b] == bs[..n][a..b - 1] + [bs[n]];
      } else if a == b {
        SelectRun(labels[..n], bs[..n], k, 0, 0);
      } else {
        SelectRun(labels[..n], bs[..n], k, a, b);
        assert bs[..n][a..b] == bs[a..b];
      }
    }
  }

  /** A field that tracks its label holds exactly the elements with that label. */
  lemma SelectField<T>(labels: seq<int>, bs: seq<T>, fs: seq<Span>, k: int)
    requires |labels| == |bs| && Tracks(labels, fs) && Bounded(fs, |bs|) && 0 <= k < |fs|
    ensures Select(labels, bs, k) == Slice(bs, fs[k]) && (Select(labels, bs, k) != [] <==> fs[k].At?)
  {
    var f := fs[k];
    forall j | 0 <= j < |bs|
      ensures labels[j] == k <==> In(f, j)
    {
      assert In(fs[k], j) <==> labels[j] == k;
    }
    if f.At? {
      SelectRun(labels, bs, k, f.off, f.off + f.len);
    } else {
      SelectRun(labels, bs, k, 0, 0);
    }
  }
}
