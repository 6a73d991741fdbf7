/** The block exchange of `permute_args` (misc/win32_getopt.h): two adjacent blocks of an argument
    vector trade places in situ, cycle by cycle. */
module PermuteArgs {
  // ---------------------------------------------------------------- the greatest common divisor

  /** Euclid's algorithm. */
  function GcdOf(a: nat, b: nat): (g: nat)
    requires b > 0
    ensures 0 < g <= b
    decreases b
  {
    if a % b == 0 then b else GcdOf(b, a % b)
  }

  /** `gcd`. */
  method Gcd(a: nat, b: nat) returns (g: nat)
    requires b > 0
    ensures g == GcdOf(a, b)
  {
    var x, y := a, b;
    var c := x % y;
    while c != 0
      invariant y > 0 && c == x % y && GcdOf(x, y) == GcdOf(a, b)
      decreases y
    {
      x := y;
      y := c;
      c := x % y;
    }
    g := y;
  }

  /** The result divides a and b and is a combination of them, so every common divisor divides it. */
  lemma {:induction false} Bezout(a: nat, b: nat) returns (p: nat, q: nat, u: int, v: int)
    requires b > 0
    ensures a == GcdOf(a, b) * p && b == GcdOf(a, b) * q
    ensures GcdOf(a, b) == u * a + v * b
    decreases b
  {
    var d, c := a / b, a % b;
    assert a == d * b + c;
    if c == 0 {
      p, q, u, v := d, 1, 0, 1;
    } else {
      var q', p', v', u' := Bezout(b, c);
      p, q, u, v := d * q' + p', q', u', v' - d * u';
      BezoutStep(a, b, c, d, GcdOf(b, c), p', q', u', v');
    }
  }

  /** One division of the algorithm, seen backwards. */
  lemma BezoutStep(a: nat, b: nat, c: nat, d: nat, g: nat, p: nat, q: nat, u: int, v: int)
    requires a == d * b + c && b == g * q && c == g * p && g == v * b + u * c
    ensures a == g * (d * q + p) && g == u * a + (v - d * u) * b
  {
    Distribute(g, d, q, p);
    Regroup(u, v, d, b, c);
  }

  lemma Distribute(g: int, d: int, q: int, p: int)
    ensures d * (g * q) + g * p == g * (d * q + p)
  {
  }

  lemma Regroup(u: int, v: int, d: int, b: int, c: int)
    ensures v * b + u * c == u * (d * b + c) + (v - d * u) * b
  {
  }

  // ---------------------------------------------------------------- the cycles

  /** Where the element at offset q goes when a block of m and a block of k trade places. */
  function Next(m: nat, k: nat, q: int): int {
    if q >= m then q - m else q + k
  }

  /** The offset reached from q after j moves. */
  ghost function Pos(m: nat, k: nat, q: int, j: nat): (r: int)
    requires 0 <= q < m + k
    ensures 0 <= r < m + k
  {
    if j == 0 then q else Next(m, k, Pos(m, k, q, j - 1))
  }

  /** Each move adds k, modulo m + k. */
  lemma {:induction false} PosForm(m: nat, k: nat, q: int, j: nat) returns (w: int)
    requires 0 <= q < m + k
    ensures Pos(m, k, q, j) == q + j * k - w * (m + k)
  {
    if j == 0 {
      w := 0;
    } else {
      var w' := PosForm(m, k, q, j - 1);
      assert j * k == (j - 1) * k + k;
      if Pos(m, k, q, j - 1) >= m {
        w := w' + 1;
        assert w * (m + k) == w' * (m + k) + (m + k);
      } else {
        w := w';
      }
    }
  }

  /** The numbers behind a pair of block sizes: m = g*pm, k = g*pk, and g = u*(m+k) + w*k. */
  ghost predicate Sizes(m: nat, k: nat, g: nat, pm: nat, pk: nat, u: int, w: int) {
    g > 0 && m == g * pm && k == g * pk && k > 0 && g == u * (m + k) + w * k
  }

  lemma SizesExist(m: nat, k: nat) returns (pm: nat, pk: nat, u: int, w: int)
    requires k > 0
    ensures Sizes(m, k, GcdOf(m, k), pm, pk, u, w)
  {
    var v;
    pm, pk, u, v := Bezout(m, k);
    w := v - u;
    assert u * (m + k) + w * k == u * m + v * k by { Spread(u, m, k, v); }
  }

  lemma Spread(u: int, m: int, k: int, v: int)
    ensures u * (m + k) + (v - u) * k == u * m + v * k
  {
  }

  /** Numbers in the same range that differ by a multiple of its length are equal. */
  lemma SameInRange(x: int, y: int, n: int, c: int)
    requires 0 <= x < n && 0 <= y < n && x == y + c * n
    ensures x == y
  {
    assert c >= 1 ==> c * n >= n;
    assert c <= -1 ==> c * n <= -1 * n;
  }

  /** (m + k) / g moves lead back to the start. */
  lemma Closes(m: nat, k: nat, g: nat, pm: nat, pk: nat, u: int, w: int, q: int)
    requires Sizes(m, k, g, pm, pk, u, w) && 0 <= q < m + k
    ensures Pos(m, k, q, pm + pk) == q
  {
    var c := PosForm(m, k, q, pm + pk);
    assert (pm + pk) * k == pk * (m + k) by { CrossMultiply(g, pm, pk, m, k); }
    assert pk * (m + k) - c * (m + k) == (pk - c) * (m + k) by { Less(pk, c, m + k); }
    SameInRange(Pos(m, k, q, pm + pk), q, m + k, pk - c);
  }

  lemma CrossMultiply(g: int, pm: int, pk: int, m: int, k: int)
    requires m == g * pm && k == g * pk
    ensures (pm + pk) * k == pk * (m + k)
  {
    assert (pm + pk) * (g * pk) == pk * (g * pm + g * pk) by { Shuffle(g, pm, pk); }
  }

  lemma Shuffle(g: int, pm: int, pk: int)
    ensures (pm + pk) * (g * pk) == pk * (g * pm + g * pk)
  {
    var x := g * pk;
    assert pm * x == pk * (g * pm);
  }

  lemma Less(a: int, b: int, n: int)
    ensures a * n - b * n == (a - b) * n
  {
  }

  /** Positions repeat only after a multiple of (m + k) / g moves. */
  lemma Recurs(m: nat, k: nat, g: nat, pm: nat, pk: nat, u: int, w: int, q: int, i: nat, j: nat) returns (c: int)
    requires Sizes(m, k, g, pm, pk, u, w) && 0 <= q < m + k && i <= j
    requires Pos(m, k, q, i) == Pos(m, k, q, j)
    ensures j - i == c * (pm + pk)
  {
    var x := PosForm(m, k, q, i);
    var y := PosForm(m, k, q, j);
    var n, d, e := m + k, j - i, y - x;
    assert d * k == e * n by { Less(j, i, k); Less(y, x, n); }
    // d*g = d*u*n + d*w*k = (d*u + w*e)*n
    c := d * u + w * e;
    assert d * g == c * n by { Collect(d, u, n, w, k, e, g); }
    assert n == g * (pm + pk);
    Cancel(d, c, g, pm + pk);
  }

  lemma Collect(d: int, u: int, n: int, w: int, k: int, e: int, g: int)
    requires d * k == e * n && g == u * n + w * k
    ensures d * g == (d * u + w * e) * n
  {
    assert d * (u * n + w * k) == d * (u * n) + w * (d * k);
    assert d * (u * n) + w * (e * n) == (d * u + w * e) * n;
  }

  lemma Cancel(d: int, c: int, g: int, l: int)
    requires g > 0 && d * g == c * (g * l)
    ensures d == c * l
  {
    var z := d - c * l;
    assert z * g == 0;
    assert z > 0 ==> z * g > 0;
    assert z < 0 ==> z * g < 0;
  }

  /** The positions of one cycle are distinct. */
  lemma Distinct(m: nat, k: nat, g: nat, pm: nat, pk: nat, u: int, w: int, q: int, i: nat, j: nat)
    requires Sizes(m, k, g, pm, pk, u, w) && 0 <= q < m + k && i <= j < pm + pk
    requires Pos(m, k, q, i) == Pos(m, k, q, j)
    ensures i == j
  {
    var c := Recurs(m, k, g, pm, pk, u, w, q, i, j);
    SameInRange(j - i, 0, pm + pk, c);
  }

  /** A cycle stays in its residue class modulo g. */
  lemma Residue(m: nat, k: nat, g: nat, pm: nat, pk: nat, u: int, w: int, q: int, j: nat) returns (z: int)
    requires Sizes(m, k, g, pm, pk, u, w) && 0 <= q < m + k
    ensures Pos(m, k, q, j) == q + g * z
  {
    var c := PosForm(m, k, q, j);
    z := ResidueOf(j, g, pm, pk, c, m, k);
  }

  lemma ResidueOf(j: int, g: int, pm: int, pk: int, c: int, m: int, k: int) returns (z: int)
    requires m == g * pm && k == g * pk
    ensures j * k - c * (m + k) == g * z
  {
    var a, b := j * pk, c * (pm + pk);
    z := a - b;
    Assoc(j, g, pk);
    Shift(c, g, pm, pk);
    Distribute2(g, a, b);
  }

  lemma Assoc(j: int, g: int, pk: int)
    ensures j * (g * pk) == g * (j * pk)
  {
  }

  lemma Shift(c: int, g: int, pm: int, pk: int)
    ensures c * (g * pm + g * pk) == g * (c * (pm + pk))
  {
    assert g * pm + g * pk == g * (pm + pk);
    var x := pm + pk;
    assert c * (g * x) == g * (c * x);
  }

  lemma Distribute2(g: int, a: int, b: int)
    ensures g * a - g * b == g * (a - b)
  {
  }

  /** Every offset of the class is on the cycle. */
  lemma Reaches(m: nat, k: nat, g: nat, pm: nat, pk: nat, u: int, w: int, q: int, x: int, t: int) returns (j: nat)
    requires Sizes(m, k, g, pm, pk, u, w) && 0 <= q < m + k && 0 <= x < m + k && x == q + t * g
    ensures j < pm + pk && Pos(m, k, q, j) == x
  {
    var n, l := m + k, pm + pk;
    var big := t * w;
    var c := big / l;
    j := big % l;
    assert big == c * l + j;
    var y := PosForm(m, k, q, j);
    // big*k = t*(g - u*n) = x - q - t*u*n and l*k = pk*n, so q + j*k = x - (t*u + c*pk)*n.
    assert big * k == t * g - (t * u) * n by { Unfold(t, w, k, g, u, n); }
    assert l * k == pk * n by { CrossMultiply(g, pm, pk, m, k); }
    assert j * k == big * k - (c * pk) * n by { Peel(big, c, l, j, k, pk, n); }
    Less(-(t * u + c * pk), y, n);
    assert Pos(m, k, q, j) == x + (-(t * u + c * pk) - y) * n by { Gather(t * u, c * pk, y, n); }
    SameInRange(Pos(m, k, q, j), x, n, -(t * u + c * pk) - y);
  }

  lemma Unfold(t: int, w: int, k: int, g: int, u: int, n: int)
    requires g == u * n + w * k
    ensures (t * w) * k == t * g - (t * u) * n
  {
    assert t * (u * n + w * k) == (t * u) * n + (t * w) * k;
  }

  lemma Peel(big: int, c: int, l: int, j: int, k: int, pk: int, n: int)
    requires big == c * l + j && l * k == pk * n
    ensures j * k == big * k - (c * pk) * n
  {
    assert (c * l + j) * k == c * (l * k) + j * k;
    assert c * (pk * n) == (c * pk) * n;
  }

  lemma Gather(a: int, b: int, y: int, n: int)
    ensures -a * n - b * n - y * n == (-(a + b) - y) * n
  {
  }

  // ---------------------------------------------------------------- the exchange in situ

  /** x is one of the first n slots of the cycle through offset q of the region that begins at s. */
  ghost predicate Visited(s: nat, m: nat, k: nat, q: int, n: nat, x: int)
    requires 0 <= q < m + k
  {
    exists t: nat :: t < n && s + Pos(m, k, q, t) == x
  }

  /** Nothing but the first n slots of the cycle through q has changed. */
  ghost predicate Kept<T>(r: seq<T>, now: seq<T>, s: nat, m: nat, k: nat, q: int, n: nat)
    requires s + m + k <= |r| == |now| && 0 <= q < m + k
  {
    forall x {:trigger Visited(s, m, k, q, n, x)} :: 0 <= x < |r| && !Visited(s, m, k, q, n, x) ==> now[x] == r[x]
  }

  /** What was at slot t of the cycle has moved to the next one. */
  ghost predicate Advanced<T>(r: seq<T>, now: seq<T>, s: nat, m: nat, k: nat, q: int, t: nat)
    requires s + m + k <= |r| == |now| && 0 <= q < m + k
  {
    now[s + Next(m, k, Pos(m, k, q, t))] == r[s + Pos(m, k, q, t)]
  }

  /** The first j slots of the cycle through q have moved on. */
  ghost predicate Turned<T>(r: seq<T>, now: seq<T>, s: nat, m: nat, k: nat, q: int, j: nat)
    requires s + m + k <= |r| == |now| && 0 <= q < m + k
  {
    forall t: nat {:trigger Advanced(r, now, s, m, k, q, t)} :: t < j ==> Advanced(r, now, s, m, k, q, t)
  }

  /** The cycle through q after j swaps; the start holds what was at position j. */
  ghost predicate Moved<T>(r: seq<T>, now: seq<T>, s: nat, m: nat, k: nat, q: int, j: nat)
    requires s + m + k <= |r| == |now| && 0 <= q < m + k
  {
    Turned(r, now, s, m, k, q, j) && now[s + q] == r[s + Pos(m, k, q, j)] && Kept(r, now, s, m, k, q, j + 1)
  }

  ghost function Swapped<T>(r: seq<T>, i: int, j: int): (w: seq<T>)
    requires 0 <= i < |r| && 0 <= j < |r|
    ensures |w| == |r|
  {
    r[i := r[j]][j := r[i]]
  }

  lemma MoveOn<T>(r: seq<T>, now: seq<T>, s: nat, m: nat, k: nat, g: nat, pm: nat, pk: nat, u: int, w: int, q: int,
                  j: nat)
    requires s + m + k <= |r| == |now| && 0 <= q < m + k && Sizes(m, k, g, pm, pk, u, w)
    requires Moved(r, now, s, m, k, q, j) && j + 1 < pm + pk
    ensures Moved(r, Swapped(now, s + Pos(m, k, q, j + 1), s + q), s, m, k, q, j + 1)
  {
    var y := Pos(m, k, q, j + 1);
    var after := Swapped(now, s + y, s + q);
    Fresh(s, m, k, g, pm, pk, u, w, q, j);
    assert Pos(m, k, q, 0) == q;
    assert Turned(r, after, s, m, k, q, j + 1) by {
      forall t: nat | t < j + 1
        ensures Advanced(r, after, s, m, k, q, t)
      {
        if t < j {
          assert Advanced(r, now, s, m, k, q, t);
          AdvancedStays(r, now, after, s, m, k, g, pm, pk, u, w, q, j, t);
        }
      }
    }
    assert Kept(r, after, s, m, k, q, j + 2) by {
      forall x | 0 <= x < |r| && !Visited(s, m, k, q, j + 2, x)
        ensures after[x] == r[x]
      {
        assert x != s + y && x != s + q;
        assert !Visited(s, m, k, q, j + 1, x);
      }
    }
  }

  lemma Fresh(s: nat, m: nat, k: nat, g: nat, pm: nat, pk: nat, u: int, w: int, q: int, j: nat)
    requires 0 <= q < m + k && Sizes(m, k, g, pm, pk, u, w) && j + 1 < pm + pk
    ensures !Visited(s, m, k, q, j + 1, s + Pos(m, k, q, j + 1))
  {
    forall t: nat | t < j + 1
      ensures Pos(m, k, q, t) != Pos(m, k, q, j + 1)
    {
      Apart(m, k, g, pm, pk, u, w, q, t, j + 1);
    }
  }

  lemma AdvancedStays<T>(r: seq<T>, now: seq<T>, after: seq<T>, s: nat, m: nat, k: nat, g: nat, pm: nat, pk: nat,
                         u: int, w: int, q: int, j: nat, t: nat)
    requires s + m + k <= |r| == |now| == |after| && 0 <= q < m + k && Sizes(m, k, g, pm, pk, u, w)
    requires j + 1 < pm + pk && t < j && Advanced(r, now, s, m, k, q, t)
    requires after == Swapped(now, s + Pos(m, k, q, j + 1), s + q)
    ensures Advanced(r, after, s, m, k, q, t)
  {
    assert Pos(m, k, q, 0) == q;
    assert Pos(m, k, q, t + 1) == Next(m, k, Pos(m, k, q, t));
    Apart(m, k, g, pm, pk, u, w, q, t + 1, j + 1);
    Apart(m, k, g, pm, pk, u, w, q, 0, t + 1);
  }

  lemma Apart(m: nat, k: nat, g: nat, pm: nat, pk: nat, u: int, w: int, q: int, i: nat, j: nat)
    requires Sizes(m, k, g, pm, pk, u, w) && 0 <= q < m + k && i < j < pm + pk
    ensures Pos(m, k, q, i) != Pos(m, k, q, j)
  {
    if Pos(m, k, q, i) == Pos(m, k, q, j) {
      Distinct(m, k, g, pm, pk, u, w, q, i, j);
    }
  }

  /** The swaps that count: the last one, at the start itself, changes nothing. */
  ghost function Done(j: nat, len: nat): nat
    requires len > 0
  {
    if j < len then j else len - 1
  }

  lemma MoveStep<T>(r: seq<T>, now: seq<T>, s: nat, m: nat, k: nat, g: nat, pm: nat, pk: nat, u: int, w: int, q: int,
                    j: nat)
    requires s + m + k <= |r| == |now| && 0 <= q < m + k && Sizes(m, k, g, pm, pk, u, w)
    requires j < pm + pk && Moved(r, now, s, m, k, q, Done(j, pm + pk))
    ensures Moved(r, Swapped(now, s + Pos(m, k, q, j + 1), s + q), s, m, k, q, Done(j + 1, pm + pk))
  {
    if j + 1 < pm + pk {
      MoveOn(r, now, s, m, k, g, pm, pk, u, w, q, j);
    } else {
      Closes(m, k, g, pm, pk, u, w, q);
      assert Swapped(now, s + q, s + q) == now;
    }
  }

  /** The vector after j swaps on the cycle through offset q of the region that begins at s. */
  ghost function AfterSwaps<T>(r: seq<T>, s: nat, m: nat, k: nat, q: int, j: nat): (w: seq<T>)
    requires s + m + k <= |r| && 0 <= q < m + k
    ensures |w| == |r|
  {
    if j == 0 then r else Swapped(AfterSwaps(r, s, m, k, q, j - 1), s + Pos(m, k, q, j), s + q)
  }

  lemma {:induction false} SwapsMove<T>(r: seq<T>, s: nat, m: nat, k: nat, g: nat, pm: nat, pk: nat, u: int, w: int,
                                        q: int, j: nat)
    requires s + m + k <= |r| && 0 <= q < m + k && Sizes(m, k, g, pm, pk, u, w) && j <= pm + pk
    ensures Moved(r, AfterSwaps(r, s, m, k, q, j), s, m, k, q, Done(j, pm + pk))
  {
    if j == 0 {
    } else {
      SwapsMove(r, s, m, k, g, pm, pk, u, w, q, j - 1);
      MoveStep(r, AfterSwaps(r, s, m, k, q, j - 1), s, m, k, g, pm, pk, u, w, q, j - 1);
    }
  }

  /** After the last swap the cycle has turned. */
  lemma Around<T>(r: seq<T>, now: seq<T>, s: nat, m: nat, k: nat, q: int, len: nat)
    requires s + m + k <= |r| == |now| && 0 <= q < m + k && len > 0
    requires Moved(r, now, s, m, k, q, len - 1) && Pos(m, k, q, len) == q
    ensures Turned(r, now, s, m, k, q, len)
  {
    assert Advanced(r, now, s, m, k, q, len - 1);
  }

  lemma CycleTurns<T>(r: seq<T>, s: nat, m: nat, k: nat, g: nat, pm: nat, pk: nat, u: int, w: int, q: int)
    requires s + m + k <= |r| && 0 <= q < m + k && Sizes(m, k, g, pm, pk, u, w)
    ensures Turned(r, AfterSwaps(r, s, m, k, q, pm + pk), s, m, k, q, pm + pk)
    ensures Kept(r, AfterSwaps(r, s, m, k, q, pm + pk), s, m, k, q, pm + pk)
  {
    SwapsMove(r, s, m, k, g, pm, pk, u, w, q, pm + pk);
    Closes(m, k, g, pm, pk, u, w, q);
    Around(r, AfterSwaps(r, s, m, k, q, pm + pk), s, m, k, q, pm + pk);
  }

  /** The vector after the first i cycles. */
  ghost function AfterCycles<T>(r: seq<T>, s: nat, m: nat, k: nat, len: nat, i: nat): (w: seq<T>)
    requires s + m + k <= |r| && i <= k
    ensures |w| == |r|
  {
    if i == 0 then r else AfterSwaps(AfterCycles(r, s, m, k, len, i - 1), s, m, k, m + i - 1, len)
  }

  /** The two blocks, in exchanged order. */
  function Exchanged<T>(r: seq<T>, s: nat, m: nat, k: nat): (w: seq<T>)
    requires s + m + k <= |r|
    ensures |w| == |r|
  {
    r[..s] + r[s + m..s + m + k] + r[s..s + m] + r[s + m + k..]
  }

  /** Offset q after i cycles: in its final place if its remainder modulo g is below i, else untouched. */
  ghost predicate Placed<T>(r: seq<T>, now: seq<T>, s: nat, m: nat, k: nat, g: nat, i: nat, q: int)
    requires s + m + k <= |r| == |now| && g > 0 && 0 <= q < m + k
  {
    if q % g < i then now[s + Next(m, k, q)] == r[s + q] else now[s + q] == r[s + q]
  }

  ghost predicate HalfWay<T>(r: seq<T>, now: seq<T>, s: nat, m: nat, k: nat, g: nat, i: nat)
    requires s + m + k <= |r| == |now| && g > 0
  {
    forall q {:trigger Placed(r, now, s, m, k, g, i, q)} :: 0 <= q < m + k ==> Placed(r, now, s, m, k, g, i, q)
  }

  ghost predicate Outside<T>(r: seq<T>, now: seq<T>, s: nat, n: nat)
    requires s + n <= |r| == |now|
  {
    forall x :: 0 <= x < |r| && !(s <= x < s + n) ==> now[x] == r[x]
  }

  lemma ModShift(x: int, g: nat, z: int)
    requires g > 0
    ensures (x + g * z) % g == x % g
  {
    var a, b := x / g, (x + g * z) / g;
    var c := x % g;
    var d := (x + g * z) % g;
    assert x == g * a + c && x + g * z == g * b + d;
    assert d == c + (a + z - b) * g by { Regroup3(g, a, z, b, c, d); }
    SameInRange(d, c, g, a + z - b);
  }

  lemma Regroup3(g: int, a: int, z: int, b: int, c: int, d: int)
    requires g * a + c + g * z == g * b + d
    ensures d == c + (a + z - b) * g
  {
  }

  /** One more cycle settles one more remainder. */
  lemma CycleSettles<T>(r: seq<T>, now: seq<T>, after: seq<T>, s: nat, m: nat, k: nat, g: nat, pm: nat, pk: nat,
                        u: int, w: int, i: nat, q0: int)
    requires s + m + k <= |r| == |now| == |after| && Sizes(m, k, g, pm, pk, u, w) && i < g && q0 == m + i < m + k
    requires HalfWay(r, now, s, m, k, g, i) && Turned(now, after, s, m, k, q0, pm + pk)
    requires Kept(now, after, s, m, k, q0, pm + pk)
    ensures HalfWay(r, after, s, m, k, g, i + 1)
  {
    assert q0 % g == i by { StartClass(m, i, g, pm); }
    forall q {:trigger Placed(r, after, s, m, k, g, i + 1, q)} | 0 <= q < m + k
      ensures Placed(r, after, s, m, k, g, i + 1, q)
    {
      assert Placed(r, now, s, m, k, g, i, q);
      Settled(r, now, after, s, m, k, g, pm, pk, u, w, i, q0, q);
    }
  }

  lemma CycleStaysInside<T>(r: seq<T>, now: seq<T>, after: seq<T>, s: nat, m: nat, k: nat, q0: int, len: nat)
    requires s + m + k <= |r| == |now| == |after| && 0 <= q0 < m + k
    requires Outside(r, now, s, m + k) && Kept(now, after, s, m, k, q0, len)
    ensures Outside(r, after, s, m + k)
  {
    forall x | 0 <= x < |r| && !(s <= x < s + m + k)
      ensures after[x] == r[x]
    {
      assert !Visited(s, m, k, q0, len, x);
    }
  }

  /** Offsets of another class are not on the cycle. */
  lemma Unvisited(s: nat, m: nat, k: nat, g: nat, pm: nat, pk: nat, u: int, w: int, q0: int, len: nat, q: int)
    requires Sizes(m, k, g, pm, pk, u, w) && 0 <= q0 < m + k && q % g != q0 % g
    ensures !Visited(s, m, k, q0, len, s + q)
  {
    forall t: nat | t < len
      ensures Pos(m, k, q0, t) != q
    {
      var z := Residue(m, k, g, pm, pk, u, w, q0, t);
      ModShift(q0, g, z);
    }
  }

  lemma Settled<T>(r: seq<T>, now: seq<T>, after: seq<T>, s: nat, m: nat, k: nat, g: nat, pm: nat, pk: nat, u: int,
                   w: int, i: nat, q0: int, q: int)
    requires s + m + k <= |r| == |now| == |after| && Sizes(m, k, g, pm, pk, u, w) && q0 == m + i < m + k && q0 % g == i
    requires Turned(now, after, s, m, k, q0, pm + pk) && Kept(now, after, s, m, k, q0, pm + pk)
    requires 0 <= q < m + k && Placed(r, now, s, m, k, g, i, q)
    ensures Placed(r, after, s, m, k, g, i + 1, q)
  {
    if q % g == i {
      var t := SameClass(q0, q, g);
      var j := Reaches(m, k, g, pm, pk, u, w, q0, q, t);
      assert Advanced(now, after, s, m, k, q0, j);
    } else {
      var y := if q % g < i then Next(m, k, q) else q;
      NextClass(m, k, g, pm, pk, u, w, q);
      Unvisited(s, m, k, g, pm, pk, u, w, q0, pm + pk, y);
    }
  }

  lemma SameClass(x: int, y: int, g: nat) returns (t: int)
    requires g > 0 && x % g == y % g
    ensures y == x + t * g
  {
    t := y / g - x / g;
    assert y == (y / g) * g + y % g && x == (x / g) * g + x % g;
    Less(y / g, x / g, g);
  }

  lemma NextClass(m: nat, k: nat, g: nat, pm: nat, pk: nat, u: int, w: int, q: int)
    requires Sizes(m, k, g, pm, pk, u, w) && 0 <= q < m + k
    ensures 0 <= Next(m, k, q) < m + k && Next(m, k, q) % g == q % g
  {
    ModShift(q, g, pk);
    var z: int := 0 - pm;
    ModShift(q, g, z);
    assert g * z == 0 - g * pm;
  }

  /** After i cycles the offsets of the first i classes are in place. */
  lemma {:induction false} CyclesSettle<T>(r: seq<T>, s: nat, m: nat, k: nat, g: nat, pm: nat, pk: nat, u: int,
                                           w: int, i: nat)
    requires s + m + k <= |r| && Sizes(m, k, g, pm, pk, u, w) && i <= g <= k
    ensures HalfWay(r, AfterCycles(r, s, m, k, pm + pk, i), s, m, k, g, i)
    ensures Outside(r, AfterCycles(r, s, m, k, pm + pk, i), s, m + k)
  {
    if i == 0 {
      Untouched(r, s, m, k, g);
    } else {
      var now := AfterCycles(r, s, m, k, pm + pk, i - 1);
      var after := AfterCycles(r, s, m, k, pm + pk, i);
      CyclesSettle(r, s, m, k, g, pm, pk, u, w, i - 1);
      CycleTurns(now, s, m, k, g, pm, pk, u, w, m + i - 1);
      CycleSettles(r, now, after, s, m, k, g, pm, pk, u, w, i - 1, m + i - 1);
      CycleStaysInside(r, now, after, s, m, k, m + i - 1, pm + pk);
    }
  }

  lemma Untouched<T>(r: seq<T>, s: nat, m: nat, k: nat, g: nat)
    requires s + m + k <= |r| && g > 0
    ensures HalfWay(r, r, s, m, k, g, 0)
  {
    forall q {:trigger Placed(r, r, s, m, k, g, 0, q)} | 0 <= q < m + k
      ensures Placed(r, r, s, m, k, g, 0, q)
    {
    }
  }

  /** When every class is settled the blocks have traded places. */
  lemma AllPlaced<T>(r: seq<T>, now: seq<T>, s: nat, m: nat, k: nat, g: nat)
    requires s + m + k <= |r| == |now| && g > 0
    requires HalfWay(r, now, s, m, k, g, g) && Outside(r, now, s, m + k)
    ensures now == Exchanged(r, s, m, k)
  {
    var e := Exchanged(r, s, m, k);
    forall x | 0 <= x < |r|
      ensures now[x] == e[x]
    {
      if s <= x < s + k {
        assert Placed(r, now, s, m, k, g, g, x - s + m);
      } else if s + k <= x < s + m + k {
        assert Placed(r, now, s, m, k, g, g, x - s - k);
      }
    }
  }

  /** All gcd(m, k) cycles of length (m + k) / gcd(m, k) together exchange the blocks. */
  lemma CyclesExchange<T>(r: seq<T>, s: nat, m: nat, k: nat)
    requires s + m + k <= |r| && k > 0
    ensures AfterCycles(r, s, m, k, (m + k) / GcdOf(m, k), GcdOf(m, k)) == Exchanged(r, s, m, k)
  {
    var g := GcdOf(m, k);
    var pm, pk, u, w := SizesExist(m, k);
    CycleLength(m, k, g, pm, pk);
    CyclesSettle(r, s, m, k, g, pm, pk, u, w, g);
    AllPlaced(r, AfterCycles(r, s, m, k, pm + pk, g), s, m, k, g);
  }

  lemma CycleLength(m: nat, k: nat, g: nat, pm: nat, pk: nat)
    requires g > 0 && m == g * pm && k == g * pk
    ensures (m + k) / g == pm + pk
  {
    var l := pm + pk;
    assert m + k == l * g;
    var d := (m + k) / g;
    assert m + k == d * g + (m + k) % g;
    Less(l, d, g);
    SameInRange((m + k) % g, 0, g, l - d);
    Cancel(d, l, g, 1);
  }

  /** The inner loop: one cycle, by swaps with its start. */
  method Cycle<T>(a: array<T>, s: nat, m: nat, k: nat, q: nat, len: nat)
    requires s + m + k <= a.Length && q < m + k
    modifies a
    ensures a[..] == AfterSwaps(old(a[..]), s, m, k, q, len)
  {
    var cstart := s + q;
    var pos := cstart;
    for j := 0 to len
      invariant pos == s + Pos(m, k, q, j)
      invariant a[..] == AfterSwaps(old(a[..]), s, m, k, q, j)
    {
      ghost var before := a[..];
      if pos >= s + m {
        pos := pos - m;
      } else {
        pos := pos + k;
      }
      var swap := a[pos];
      a[pos] := a[cstart];
      a[cstart] := swap;
      assert a[..] == Swapped(before, pos, cstart);
    }
  }

  /** `permute_args`: the options come out ahead of the non-options, each block in its old order, and the
      rest of the vector is unchanged. */
  method Permute<T>(a: array<T>, nonoptStart: nat, nonoptEnd: nat, optEnd: nat)
    requires nonoptStart <= nonoptEnd < optEnd <= a.Length
    modifies a
    ensures a[..] == Exchanged(old(a[..]), nonoptStart, nonoptEnd - nonoptStart, optEnd - nonoptEnd)
    ensures a[..] == old(a[..nonoptStart] + a[nonoptEnd..optEnd] + a[nonoptStart..nonoptEnd] + a[optEnd..])
  {
    ghost var was := a[..];
    SameBlocks(was, a[..nonoptStart], a[nonoptEnd..optEnd], a[nonoptStart..nonoptEnd], a[optEnd..], nonoptStart,
               nonoptEnd, optEnd);
    var m, k := nonoptEnd - nonoptStart, optEnd - nonoptEnd;
    var ncycle := Gcd(m, k);
    var len := (optEnd - nonoptStart) / ncycle;
    CyclesExchange(was, nonoptStart, m, k);
    Cycles(a, nonoptStart, m, k, len, ncycle);
  }

  lemma SameBlocks<T>(r: seq<T>, x: seq<T>, y: seq<T>, z: seq<T>, t: seq<T>, a: nat, b: nat, c: nat)
    requires a <= b <= c <= |r| && x == r[..a] && y == r[b..c] && z == r[a..b] && t == r[c..]
    ensures Exchanged(r, a, b - a, c - b) == x + y + z + t
  {
  }

  /** The outer loop. */
  method Cycles<T>(a: array<T>, s: nat, m: nat, k: nat, len: nat, ncycle: nat)
    requires s + m + k <= a.Length && ncycle <= k
    modifies a
    ensures a[..] == AfterCycles(old(a[..]), s, m, k, len, ncycle)
  {
    for i := 0 to ncycle
      invariant a[..] == AfterCycles(old(a[..]), s, m, k, len, i)
    {
      Cycle(a, s, m, k, m + i, len);
    }
  }

  /** Move j of cycle i is at offset x. */
  ghost predicate Visits(m: nat, k: nat, g: nat, len: nat, i: nat, j: nat, x: int)
    requires 0 < g <= k
  {
    i < g && j < len && Pos(m, k, m + i, j) == x
  }

  /** The same, for the cycles that `permute_args` runs. */
  ghost predicate Runs(m: nat, k: nat, i: nat, j: nat, x: int)
    requires k > 0
  {
    Visits(m, k, GcdOf(m, k), (m + k) / GcdOf(m, k), i, j, x)
  }

  /** Exactly one cycle, and exactly one move of it, visits each slot of the region. */
  lemma EachSlotOnce(m: nat, k: nat, x: int) returns (i: nat, j: nat)
    requires k > 0 && 0 <= x < m + k
    ensures Runs(m, k, i, j, x)
    ensures forall i': nat, j': nat :: Runs(m, k, i', j', x) ==> i' == i && j' == j
  {
    var g := GcdOf(m, k);
    var pm, pk, u, w := SizesExist(m, k);
    CycleLength(m, k, g, pm, pk);
    i, j := VisitExists(m, k, g, pm, pk, u, w, x);
    forall i': nat, j': nat | Runs(m, k, i', j', x)
      ensures i' == i && j' == j
    {
      VisitUnique(m, k, g, pm, pk, u, w, i, j, i', j', x);
    }
  }

  lemma VisitExists(m: nat, k: nat, g: nat, pm: nat, pk: nat, u: int, w: int, x: int) returns (i: nat, j: nat)
    requires Sizes(m, k, g, pm, pk, u, w) && g <= k && 0 <= x < m + k
    ensures Visits(m, k, g, pm + pk, i, j, x)
  {
    i := x % g;
    StartClass(m, i, g, pm);
    var t := SameClass(m + i, x, g);
    j := Reaches(m, k, g, pm, pk, u, w, m + i, x, t);
  }

  lemma VisitUnique(m: nat, k: nat, g: nat, pm: nat, pk: nat, u: int, w: int, i: nat, j: nat, i': nat, j': nat, x: int)
    requires Sizes(m, k, g, pm, pk, u, w) && g <= k
    requires Visits(m, k, g, pm + pk, i, j, x) && Visits(m, k, g, pm + pk, i', j', x)
    ensures i == i' && j == j'
  {
    VisitClass(m, k, g, pm, pk, u, w, i, j, x);
    VisitClass(m, k, g, pm, pk, u, w, i', j', x);
    if j <= j' {
      Distinct(m, k, g, pm, pk, u, w, m + i, j, j');
    } else {
      Distinct(m, k, g, pm, pk, u, w, m + i, j', j);
    }
  }

  lemma VisitClass(m: nat, k: nat, g: nat, pm: nat, pk: nat, u: int, w: int, i: nat, j: nat, x: int)
    requires Sizes(m, k, g, pm, pk, u, w) && i < g <= k && Pos(m, k, m + i, j) == x
    ensures i == x % g
  {
    var z := Residue(m, k, g, pm, pk, u, w, m + i, j);
    ClassOf(m, i, g, pm, z);
  }

  lemma ClassOf(m: nat, i: nat, g: nat, pm: nat, z: int)
    requires i < g && m == g * pm
    ensures (m + i + g * z) % g == i
  {
    var q := m + i;
    assert (q + g * z) % g == q % g by { ModShift(q, g, z); }
    assert q % g == i by { StartClass(m, i, g, pm); }
  }

  lemma StartClass(m: nat, i: nat, g: nat, pm: nat)
    requires i < g && m == g * pm
    ensures (m + i) % g == i
  {
    ModShift(i, g, pm);
    ModSmall(i, g);
    assert m + i == i + g * pm;
  }

  lemma ModSmall(i: nat, g: nat)
    requires i < g
    ensures i % g == i
  {
  }
}
