/** Powers, and numbers written as bytes. */
module Numbers {
  import opened Bytes

  function Pow2(n: nat): (r: nat)
    ensures r > 0
  {
    if n == 0 then 1 else 2 * Pow2(n - 1)
  }

  function Pow128(n: nat): (r: nat)
    ensures r > 0
  {
    if n == 0 then 1 else 128 * Pow128(n - 1)
  }

  function Pow256(n: nat): (r: nat)
    ensures r > 0
  {
    if n == 0 then 1 else 256 * Pow256(n - 1)
  }

  /** The number that bs denotes, most significant byte first. */
  function BigValue(bs: seq<Byte>): (r: nat) {
    if |bs| == 0 then 0 else BigValue(bs[..|bs| - 1]) * 256 + bs[|bs| - 1]
  }

  /** The number that bs denotes, least significant byte first. */
  function LittleValue(bs: seq<Byte>): (r: nat) {
    if |bs| == 0 then 0 else bs[0] + 256 * LittleValue(bs[1..])
  }

  function BigEndian(n: nat, x: nat): (bs: seq<Byte>)
    ensures |bs| == n
  {
    if n == 0 then [] else BigEndian(n - 1, x / 256) + [x % 256]
  }

  function LittleEndian(n: nat, x: nat): (bs: seq<Byte>)
    ensures |bs| == n
  {
    if n == 0 then [] else [x % 256] + LittleEndian(n - 1, x / 256)
  }

  lemma {:induction false} ValueOfBigEndian(n: nat, x: nat)
    requires x < Pow256(n)
    ensures BigValue(BigEndian(n, x)) == x
  {
    if n == 0 {
    } else {
      ValueOfBigEndian(n - 1, x / 256);
      assert BigEndian(n, x)[..n - 1] == BigEndian(n - 1, x / 256);
    }
  }

  lemma {:induction false} ValueOfLittleEndian(n: nat, x: nat)
    requires x < Pow256(n)
    ensures LittleValue(LittleEndian(n, x)) == x
  {
    if n == 0 {
    } else {
      ValueOfLittleEndian(n - 1, x / 256);
      assert LittleEndian(n, x)[1..] == LittleEndian(n - 1, x / 256);
    }
  }

  lemma {:induction false} BigFits(bs: seq<Byte>)
    ensures BigValue(bs) < Pow256(|bs|)
  {
    if |bs| == 0 {
    } else {
      BigFits(bs[..|bs| - 1]);
    }
  }

  lemma {:induction false} LittleFits(bs: seq<Byte>)
    ensures LittleValue(bs) < Pow256(|bs|)
  {
    if |bs| == 0 {
    } else {
      LittleFits(bs[1..]);
    }
  }

  /** Which byte stands where: the lowest one last, or first. */
  lemma {:induction false} BigEndianAt(n: nat, x: nat, i: nat)
    requires i < n
    ensures BigEndian(n, x)[n - 1 - i] == x / Pow256(i) % 256
    decreases n
  {
    if i == 0 {
    } else {
      BigEndianAt(n - 1, x / 256, i - 1);
      DivDiv(x, Pow256(i - 1));
    }
  }

  lemma {:induction false} LittleEndianAt(n: nat, x: nat, i: nat)
    requires i < n
    ensures LittleEndian(n, x)[i] == x / Pow256(i) % 256
    decreases n
  {
    if i == 0 {
    } else {
      LittleEndianAt(n - 1, x / 256, i - 1);
      DivDiv(x, Pow256(i - 1));
    }
  }

  lemma DivDiv(x: nat, p: nat)
    requires p > 0
    ensures x / (256 * p) == x / 256 / p
  {
    var a, b := x / 256, x % 256;
    var q, r := a / p, a % p;
    assert x == 256 * a + b && a == p * q + r;
    assert x == 256 * p * q + (256 * r + b);
    assert 256 * r + b < 256 * p;
    Quotient(x, 256 * p, q, 256 * r + b);
  }

  lemma Quotient(x: nat, m: nat, q: nat, r: nat)
    requires m > 0 && x == m * q + r && r < m
    ensures x / m == q
  {
    var p, t := x / m, x % m;
    assert m * p + t == m * q + r;
    assert m * (p - q) == r - t && m * (q - p) == t - r;
    assert p - q >= 1 ==> m * (p - q) >= m;
    assert q - p >= 1 ==> m * (q - p) >= m;
  }

  // ---------------------------------------------------------------- digits

  /** The number that digits in base b denote. */
  function NumberOf(b: nat, ds: seq<nat>): (n: nat) {
    if |ds| == 0 then 0 else NumberOf(b, ds[..|ds| - 1]) * b + ds[|ds| - 1]
  }

  /** n written in base b, without leading zeros. */
  function Written(b: nat, n: nat): (ds: seq<nat>)
    requires b > 1
    ensures |ds| > 0 && forall i :: 0 <= i < |ds| ==> ds[i] < b
    decreases n
  {
    if n < b then [n]
    else
      Shrinks(b, n);
      Written(b, n / b) + [n % b]
  }

  lemma Shrinks(b: nat, n: nat)
    requires b > 1 && n >= b
    ensures n / b < n && n / b * b + n % b == n
  {
    var q := n / b;
    assert n == b * q + n % b;
    Twice(b, q);
  }

  lemma Twice(b: nat, q: nat)
    requires b > 1
    ensures b * q >= 2 * q
  {
    assert (b - 2) * q >= 0;
  }

  /** What is written is the number. */
  lemma {:induction false} NumberWritten(b: nat, n: nat)
    requires b > 1
    ensures NumberOf(b, Written(b, n)) == n
    decreases n
  {
    var ds := Written(b, n);
    if n < b {
      assert ds[..0] == [];
    } else {
      Shrinks(b, n);
      NumberWritten(b, n / b);
      OneMoreDigit(b, Written(b, n / b), n % b);
    }
  }

  lemma OneMoreDigit(b: nat, ds: seq<nat>, d: nat)
    ensures NumberOf(b, ds + [d]) == NumberOf(b, ds) * b + d
  {
    assert (ds + [d])[..|ds|] == ds;
  }
}
