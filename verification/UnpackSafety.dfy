/** Which package lengths a length field can announce, and when a package of length zero is among them. */
module UnpackSafety {
  import opened Bytes
  import opened Numbers
  import opened UnpackSpec

  /** The body length with which a package of n bytes is announced behind a header of `head` bytes. */
  function BodyFor(n: nat, head: nat, adjustment: int): (x: nat)
    ensures x < MODULUS
  {
    (n - head - adjustment) % MODULUS
  }

  lemma AnnouncedIff(head: nat, body: nat, adjustment: int, n: nat)
    requires n < MODULUS
    ensures Announced(head, body, adjustment) == n <==> body % MODULUS == BodyFor(n, head, adjustment)
  {
  }

  /** A varint of k bytes at the place of the length field can announce a package of n bytes. */
  predicate VarintAnnounces(s: Setting, n: nat, k: nat)
    requires Sane(s) && s.LengthField? && s.coding.Varint?
  {
    1 <= k <= 10 && BodyFor(n, s.bodyOffset + k - s.fieldBytes, s.adjustment) < Pow128(k)
  }

  /** A header that is complete within `size` bytes can announce a package of n bytes. */
  ghost predicate Announces(s: Setting, size: nat, n: nat)
    requires Sane(s) && s.LengthField?
  {
    && n < MODULUS && s.bodyOffset <= size
    && if s.coding.Varint? then
         exists k :: VarintAnnounces(s, n, k) && s.fieldOffset + k <= size
       else
         BodyFor(n, s.bodyOffset, s.adjustment) < Pow256(s.fieldBytes)
  }

  lemma AnnouncesMore(s: Setting, size: nat, size': nat, n: nat)
    requires Sane(s) && s.LengthField? && Announces(s, size, n) && size <= size'
    ensures Announces(s, size', n)
  {
  }

  // ---------------------------------------------------------------- what is read was announced

  lemma {:induction false} VarintFits(bs: seq<Byte>)
    ensures VarintValue(bs) < Pow128(|bs|)
  {
    if |bs| == 0 {
    } else {
      VarintFits(bs[1..]);
    }
  }

  /** A number modulo m is not above the number. */
  lemma ModAtMost(x: nat, m: nat)
    requires m > 0
    ensures x % m <= x
  {
    if x < m {
    } else {
      assert x % m < m;
    }
  }

  lemma KnownAnnounced(s: Setting, bs: seq<Byte>, size: nat)
    requires Sane(s) && s.LengthField? && |bs| <= size && FieldLength(s, bs).Known?
    ensures Announces(s, size, FieldLength(s, bs).n)
  {
    var n := FieldLength(s, bs).n;
    if s.coding.Varint? {
      VarintAnnounced(s, bs, n);
    } else {
      var field := bs[s.fieldOffset..s.fieldOffset + s.fieldBytes];
      var body := if s.coding.Big? then BigValue(field) else LittleValue(field);
      BigFits(field);
      LittleFits(field);
      ModAtMost(body, MODULUS);
      AnnouncedIff(s.bodyOffset, body, s.adjustment, n);
    }
  }

  lemma VarintAnnounced(s: Setting, bs: seq<Byte>, n: nat)
    requires Sane(s) && s.LengthField? && s.coding.Varint? && FieldLength(s, bs) == Known(n)
    ensures exists k :: VarintAnnounces(s, n, k) && s.fieldOffset + k <= |bs|
  {
    var lp := bs[s.fieldOffset..];
    var k := VarintScan(lp, 0).n;
    var body := VarintValue(lp[..k]);
    VarintFits(lp[..k]);
    ModAtMost(body, MODULUS);
    AnnouncedIff(s.bodyOffset + k - s.fieldBytes, body, s.adjustment, n);
    assert VarintAnnounces(s, n, k) && s.fieldOffset + k <= |bs|;
  }

  // ---------------------------------------------------------------- what can be announced can be read

  function Zeros(n: nat): (bs: seq<Byte>)
    ensures |bs| == n
  {
    seq(n, _ => 0)
  }

  /** A varint of exactly n bytes. */
  function VarintPadded(n: nat, x: nat): (bs: seq<Byte>)
    requires n > 0 && x < Pow128(n)
    ensures |bs| == n
  {
    assert Pow128(1) == 128 * Pow128(0);
    if n == 1 then [x] else [x % 128 + 128] + VarintPadded(n - 1, x / 128)
  }

  lemma {:induction false} PaddedRead(n: nat, x: nat, rest: seq<Byte>, k: nat)
    requires n > 0 && x < Pow128(n) && k + n <= 10
    ensures VarintScan(VarintPadded(n, x) + rest, k) == Complete(k + n)
    ensures VarintValue(VarintPadded(n, x)) == x
  {
    var bs := VarintPadded(n, x);
    assert Pow128(1) == 128 * Pow128(0);
    if n == 1 {
      assert bs[1..] == [];
    } else {
      PaddedRead(n - 1, x / 128, rest, k + 1);
      assert (bs + rest)[1..] == VarintPadded(n - 1, x / 128) + rest;
      assert bs[1..] == VarintPadded(n - 1, x / 128);
    }
  }

  /** A header that announces n: at least the body offset and one byte long. */
  lemma HeaderFor(s: Setting, size: nat, n: nat) returns (bs: seq<Byte>)
    requires Sane(s) && s.LengthField? && 0 < size && Announces(s, size, n)
    ensures s.bodyOffset <= |bs| <= size && 0 < |bs| && FieldLength(s, bs) == Known(n)
  {
    if s.coding.Varint? {
      var k :| VarintAnnounces(s, n, k) && s.fieldOffset + k <= size;
      bs := VarintHeader(s, n, k);
    } else {
      bs := FixedHeader(s, n);
    }
  }

  lemma VarintHeader(s: Setting, n: nat, k: nat) returns (bs: seq<Byte>)
    requires Sane(s) && s.LengthField? && s.coding.Varint? && VarintAnnounces(s, n, k) && n < MODULUS
    ensures |bs| == (if s.fieldOffset + k <= s.bodyOffset then s.bodyOffset else s.fieldOffset + k)
    ensures FieldLength(s, bs) == Known(n)
  {
    var h := s.bodyOffset + k - s.fieldBytes;
    var x := BodyFor(n, h, s.adjustment);
    bs := VarintIn(s, x, k);
    AnnouncedIff(h, x, s.adjustment, n);
  }

  lemma VarintIn(s: Setting, x: nat, k: nat) returns (bs: seq<Byte>)
    requires Sane(s) && s.LengthField? && s.coding.Varint? && 1 <= k <= 10 && x < Pow128(k)
    ensures |bs| == (if s.fieldOffset + k <= s.bodyOffset then s.bodyOffset else s.fieldOffset + k)
    ensures FieldLength(s, bs) == Known(Announced(s.bodyOffset + k - s.fieldBytes, x, s.adjustment))
  {
    var pad := if s.fieldOffset + k <= s.bodyOffset then s.bodyOffset - s.fieldOffset - k else 0;
    var v, rest := VarintPadded(k, x), Zeros(pad);
    bs := Zeros(s.fieldOffset) + v + rest;
    assert bs[s.fieldOffset..] == v + rest;
    PaddedRead(k, x, rest, 0);
    assert (v + rest)[..k] == v;
  }

  lemma FixedHeader(s: Setting, n: nat) returns (bs: seq<Byte>)
    requires Sane(s) && s.LengthField? && !s.coding.Varint? && n < MODULUS
    requires BodyFor(n, s.bodyOffset, s.adjustment) < Pow256(s.fieldBytes)
    ensures |bs| == (if s.bodyOffset == 0 then 1 else s.bodyOffset) && FieldLength(s, bs) == Known(n)
  {
    var x := BodyFor(n, s.bodyOffset, s.adjustment);
    bs := FieldIn(s, x);
    AnnouncedIff(s.bodyOffset, x, s.adjustment, n);
  }

  lemma FieldIn(s: Setting, x: nat) returns (bs: seq<Byte>)
    requires Sane(s) && s.LengthField? && !s.coding.Varint? && x < Pow256(s.fieldBytes)
    ensures |bs| == (if s.bodyOffset == 0 then 1 else s.bodyOffset)
    ensures FieldLength(s, bs) == Known(Announced(s.bodyOffset, x, s.adjustment))
  {
    var field := if s.coding.Big? then BigEndian(s.fieldBytes, x) else LittleEndian(s.fieldBytes, x);
    var pad := if s.bodyOffset == 0 then 1 else s.bodyOffset - s.fieldOffset - s.fieldBytes;
    bs := Zeros(s.fieldOffset) + field + Zeros(pad);
    assert bs[s.fieldOffset..s.fieldOffset + s.fieldBytes] == field;
    ValueOfBigEndian(s.fieldBytes, x);
    ValueOfLittleEndian(s.fieldBytes, x);
  }

  lemma FivePowers()
    ensures MODULUS <= Pow128(5)
  {
    assert Pow128(0) == 1;
    assert Pow128(1) == 128;
    assert Pow128(2) == 0x4000;
    assert Pow128(3) == 0x20_0000;
    assert Pow128(4) == 0x1000_0000;
  }

  /** Five bytes of varint announce any length. */
  lemma FiveAnnounce(s: Setting, size: nat, n: nat)
    requires Sane(s) && s.LengthField? && s.coding.Varint? && n < MODULUS
    requires s.bodyOffset <= size && s.fieldOffset + 5 <= size
    ensures Announces(s, size, n)
  {
    FivePowers();
    assert VarintAnnounces(s, n, 5);
  }

  /** Four bytes of fixed width do as well. */
  lemma FourAnnounce(s: Setting, size: nat, n: nat)
    requires Sane(s) && s.LengthField? && !s.coding.Varint? && s.fieldBytes == 4 && n < MODULUS && s.bodyOffset <= size
    ensures Announces(s, size, n)
  {
    assert Pow256(0) == 1 && Pow256(1) == 256 && Pow256(2) == 0x1_0000 && Pow256(3) == 0x100_0000
           && Pow256(4) == MODULUS;
  }

  // ---------------------------------------------------------------- packages of length zero

  /** The rest of a stream that is caught announces a package of length zero. */
  lemma {:induction false} StuckRest(s: Setting, bs: seq<Byte>)
    requires Sane(s) && Split(s, bs).end.Stuck?
    ensures s.LengthField? && |Split(s, bs).rest| <= |bs| && FieldLength(s, Split(s, bs).rest) == Known(0)
    decreases |bs|
  {
    var v := First(s, bs);
    if v == Package(0) {
    } else {
      SplitFirst(s, bs, v.n, bs[v.n..]);
      StuckRest(s, bs[v.n..]);
    }
  }

  /** No length field can announce a package of length zero: there is none, or the length it would need does
      not fit it. */
  predicate Safe(s: Setting) {
    s.LengthField? ==> !s.coding.Varint? && BodyFor(0, s.bodyOffset, s.adjustment) >= Pow256(s.fieldBytes)
  }

  lemma SafeNeverStuck(s: Setting, bs: seq<Byte>)
    requires Sane(s) && Safe(s)
    ensures !Split(s, bs).end.Stuck?
  {
    if Split(s, bs).end.Stuck? {
      StuckRest(s, bs);
      KnownAnnounced(s, Split(s, bs).rest, |bs|);
    }
  }
}
