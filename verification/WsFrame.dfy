/** WebSocket frames (http/websocket_parser.c, http/wsdef.c; sections 5.2 and 5.3 of RFC 6455): masking,
    frame sizes and the layout of a frame. */
module WsFrame {
  import opened Bytes
  import opened Numbers

  // ---------------------------------------------------------------- masking

  /** Exclusive or of the binary digits. */
  function Xor(a: nat, b: nat): (r: nat) {
    if a == 0 && b == 0 then 0 else (a + b) % 2 + 2 * Xor(a / 2, b / 2)
  }

  lemma {:induction false} XorBound(a: nat, b: nat, n: nat)
    requires a < Pow2(n) && b < Pow2(n)
    ensures Xor(a, b) < Pow2(n)
    decreases n
  {
    if n == 0 {
    } else {
      XorBound(a / 2, b / 2, n - 1);
    }
  }

  function XorByte(a: Byte, b: Byte): (r: Byte) {
    assert Pow2(8) == 256;
    XorBound(a, b, 8);
    Xor(a, b)
  }

  lemma XorDigit(a: nat, p: nat, b: nat, q: nat)
    requires p < 2 && q < 2
    ensures Xor(2 * a + p, 2 * b + q) == (p + q) % 2 + 2 * Xor(a, b)
  {
    var x, y := 2 * a + p, 2 * b + q;
    assert x / 2 == a && y / 2 == b;
    assert (x + y) % 2 == (p + q) % 2;
  }

  lemma {:induction false} XorTwice(a: nat, b: nat)
    ensures Xor(Xor(a, b), b) == a
    decreases a + b
  {
    if a == 0 && b == 0 {
    } else {
      var a', p, b', q := a / 2, a % 2, b / 2, b % 2;
      assert a' + b' < a + b;
      XorTwice(a', b');
      XorTwiceDigit(a', p, b', q);
    }
  }

  lemma XorTwiceDigit(a: nat, p: nat, b: nat, q: nat)
    requires p < 2 && q < 2 && Xor(Xor(a, b), b) == a
    ensures Xor(Xor(2 * a + p, 2 * b + q), 2 * b + q) == 2 * a + p
  {
    var r, z := (p + q) % 2, Xor(a, b);
    XorDigit(a, p, b, q);
    XorDigit(z, r, b, q);
    Parity(p, q);
  }

  lemma Parity(p: nat, q: nat)
    requires p < 2 && q < 2
    ensures ((p + q) % 2 + q) % 2 == p
  {
  }

  /** x has the binary digit of the given weight. */
  predicate Digit(x: Byte, weight: nat)
    requires weight > 0
  {
    x / weight % 2 == 1
  }

  /** Each of the eight digits of r is set exactly when it is set in one of a and b and not in the other. */
  predicate Crossed(r: Byte, a: Byte, b: Byte) {
    && (Digit(r, 1) <==> Digit(a, 1) != Digit(b, 1)) && (Digit(r, 2) <==> Digit(a, 2) != Digit(b, 2))
    && (Digit(r, 4) <==> Digit(a, 4) != Digit(b, 4)) && (Digit(r, 8) <==> Digit(a, 8) != Digit(b, 8))
    && (Digit(r, 16) <==> Digit(a, 16) != Digit(b, 16)) && (Digit(r, 32) <==> Digit(a, 32) != Digit(b, 32))
    && (Digit(r, 64) <==> Digit(a, 64) != Digit(b, 64)) && (Digit(r, 128) <==> Digit(a, 128) != Digit(b, 128))
  }

  /** The lowest digit, and the other digits. */
  lemma XorLowest(a: nat, b: nat, r: nat, a': nat, b': nat, r': nat)
    requires r == Xor(a, b) && a' == a / 2 && b' == b / 2 && r' == r / 2
    ensures r' == Xor(a', b') && (r % 2 == 1 <==> (a % 2 == 1) != (b % 2 == 1))
  {
    XorFirst(a, b, a % 2, b % 2, a', b');
    TwoOut((a % 2 + b % 2) % 2, Xor(a', b'));
    OneOdd(a % 2, b % 2);
  }

  lemma XorFirst(a: nat, b: nat, p: nat, q: nat, a': nat, b': nat)
    requires p < 2 && q < 2 && a == 2 * a' + p && b == 2 * b' + q
    ensures Xor(a, b) == (p + q) % 2 + 2 * Xor(a', b')
  {
    XorDigit(a', p, b', q);
  }

  lemma OneOdd(p: nat, q: nat)
    requires p < 2 && q < 2
    ensures (p + q) % 2 == 1 <==> (p == 1) != (q == 1)
  {
  }

  lemma TwoOut(p: nat, z: nat)
    requires p < 2
    ensures (p + 2 * z) % 2 == p && (p + 2 * z) / 2 == z
  {
  }

  /** Digit number k, whatever is above and below it. */
  lemma {:induction false} XorDigitAt(a: nat, b: nat, r: nat, k: nat, w: nat)
    requires r == Xor(a, b) && w == Pow2(k)
    ensures r / w % 2 == 1 <==> (a / w % 2 == 1) != (b / w % 2 == 1)
    decreases k
  {
    XorLowest(a, b, r, a / 2, b / 2, r / 2);
    if k == 0 {
    } else {
      var h := Pow2(k - 1);
      XorDigitAt(a / 2, b / 2, r / 2, k - 1, h);
      HalfFirst(a, h);
      HalfFirst(b, h);
      HalfFirst(r, h);
    }
  }

  lemma HalfFirst(x: nat, h: nat)
    requires h > 0
    ensures x / (2 * h) == x / 2 / h
  {
    var q, s := x / (2 * h), x % (2 * h);
    assert x == 2 * h * q + s;
    assert x / 2 == h * q + s / 2 by { TwiceOver(h * q, s); assert 2 * (h * q) == 2 * h * q; }
    Quotient(x / 2, h, q, s / 2);
  }

  lemma TwiceOver(y: nat, s: nat)
    ensures (2 * y + s) / 2 == y + s / 2
  {
  }

  lemma Weights()
    ensures Pow2(0) == 1 && Pow2(1) == 2 && Pow2(2) == 4 && Pow2(3) == 8
    ensures Pow2(4) == 16 && Pow2(5) == 32 && Pow2(6) == 64 && Pow2(7) == 128
  {
  }

  lemma XorCrossed(a: Byte, b: Byte)
    ensures Crossed(XorByte(a, b), a, b)
  {
    var r := XorByte(a, b);
    Weights();
    XorDigitAt(a, b, r, 0, 1);
    XorDigitAt(a, b, r, 1, 2);
    XorDigitAt(a, b, r, 2, 4);
    XorDigitAt(a, b, r, 3, 8);
    XorDigitAt(a, b, r, 4, 16);
    XorDigitAt(a, b, r, 5, 32);
    XorDigitAt(a, b, r, 6, 64);
    XorDigitAt(a, b, r, 7, 128);
  }

  /** The digits from that of weight w on fix what is left of the byte. */
  lemma SameAbove(x: Byte, y: Byte, w: nat)
    requires w > 0 && x / (2 * w) == y / (2 * w) && (Digit(x, w) <==> Digit(y, w))
    ensures x / w == y / w
  {
    HalfLast(x, w);
    HalfLast(y, w);
  }

  lemma HalfLast(x: nat, w: nat)
    requires w > 0
    ensures x / (2 * w) == x / w / 2
  {
    var q, s := x / w / 2, x / w % 2;
    assert x == w * (2 * q + s) + x % w;
    assert w * (2 * q + s) == (2 * w) * q + w * s;
    assert 0 <= w * s <= w;
    Quotient(x, 2 * w, q, w * s + x % w);
  }

  /** The digits fix the byte. */
  lemma SameDigits(x: Byte, y: Byte)
    requires Digit(x, 1) <==> Digit(y, 1)
    requires Digit(x, 2) <==> Digit(y, 2)
    requires Digit(x, 4) <==> Digit(y, 4)
    requires Digit(x, 8) <==> Digit(y, 8)
    requires Digit(x, 16) <==> Digit(y, 16)
    requires Digit(x, 32) <==> Digit(y, 32)
    requires Digit(x, 64) <==> Digit(y, 64)
    requires Digit(x, 128) <==> Digit(y, 128)
    ensures x == y
  {
    assert x / 256 == 0 == y / 256;
    SameAbove(x, y, 128);
    SameAbove(x, y, 64);
    SameAbove(x, y, 32);
    SameAbove(x, y, 16);
    SameAbove(x, y, 8);
    SameAbove(x, y, 4);
    SameAbove(x, y, 2);
    SameAbove(x, y, 1);
    assert x / 1 == x && y / 1 == y;
  }

  /** The exclusive or is the one byte whose digits are as they should be. */
  lemma CrossedIff(r: Byte, a: Byte, b: Byte)
    ensures Crossed(r, a, b) <==> r == XorByte(a, b)
  {
    XorCrossed(a, b);
    if Crossed(r, a, b) {
      SameDigits(r, XorByte(a, b));
    }
  }

  /** r is the data under the mask of which off bytes are already used. */
  ghost predicate IsMasked(r: seq<Byte>, mask: Mask, off: nat, data: seq<Byte>) {
    && |r| == |data|
    && forall i {:trigger Crossed(r[i], data[i], mask[(i + off) % 4])} ::
         0 <= i < |data| ==> Crossed(r[i], data[i], mask[(i + off) % 4])
  }

  /** `Masked` is what the digits say, and nothing else is. */
  lemma MaskedIs(mask: Mask, off: nat, data: seq<Byte>)
    ensures IsMasked(Masked(mask, off, data), mask, off, data)
  {
    forall i | 0 <= i < |data|
      ensures Crossed(Masked(mask, off, data)[i], data[i], mask[(i + off) % 4])
    {
      XorCrossed(data[i], mask[(i + off) % 4]);
    }
  }

  lemma MaskedOnly(r: seq<Byte>, mask: Mask, off: nat, data: seq<Byte>)
    requires IsMasked(r, mask, off, data)
    ensures r == Masked(mask, off, data)
  {
    forall i | 0 <= i < |data|
      ensures r[i] == Masked(mask, off, data)[i]
    {
      assert Crossed(r[i], data[i], mask[(i + off) % 4]);
      CrossedIff(r[i], data[i], mask[(i + off) % 4]);
    }
  }

  type Mask = m: seq<Byte> | |m| == 4 witness [0, 0, 0, 0]

  /** The data under a mask of which off bytes are already used. */
  function Masked(mask: Mask, off: nat, data: seq<Byte>): (r: seq<Byte>)
    ensures |r| == |data|
    ensures forall i :: 0 <= i < |data| ==> r[i] == XorByte(data[i], mask[(i + off) % 4])
  {
    seq(|data|, i requires 0 <= i < |data| => XorByte(data[i], mask[(i + off) % 4]))
  }

  /** Masking twice gives the data back. */
  lemma Unmasks(mask: Mask, off: nat, data: seq<Byte>)
    ensures Masked(mask, off, Masked(mask, off, data)) == data
  {
    forall i | 0 <= i < |data|
      ensures Masked(mask, off, Masked(mask, off, data))[i] == data[i]
    {
      XorTwice(data[i], mask[(i + off) % 4]);
    }
  }

  /** Data that arrives in two pieces is masked like the whole, if the offset is carried over. */
  lemma MaskedInPieces(mask: Mask, off: nat, a: seq<Byte>, b: seq<Byte>)
    ensures Masked(mask, off, a) + Masked(mask, (|a| + off) % 4, b) == Masked(mask, off, a + b)
  {
    var l := Masked(mask, off, a) + Masked(mask, (|a| + off) % 4, b);
    var r := Masked(mask, off, a + b);
    forall i | 0 <= i < |a + b|
      ensures l[i] == r[i]
    {
      if i >= |a| {
        ModAdd(i - |a|, |a| + off);
      }
    }
  }

  lemma ModAdd(i: nat, n: nat)
    ensures (i + n % 4) % 4 == (i + n) % 4
  {
  }

  // ---------------------------------------------------------------- frames

  type Opcode = x: int | 0 <= x < 16

  datatype Frame = Frame(fin: bool, opcode: Opcode, payload: seq<Byte>)

  /** Lengths for which `on_frame_header` can reserve room: `int length = parser->length` keeps 32 bits, and
      one more must not leave an `int`. */
  predicate Reservable(n: nat) {
    n % 0x1_0000_0000 < 0x7FFF_FFFF
  }

  /** What the frame format can express, a 64-bit length, and the receiver can take. */
  ghost predicate Framable(f: Frame) {
    |f.payload| < Pow256(8) && Reservable(|f.payload|)
  }

  datatype Masking = Bare | With(mask: Mask)

  function Head(f: Frame): (b: Byte) {
    (if f.fin then 128 else 0) + f.opcode
  }

  function LengthBytes(masked: bool, n: nat): (bs: seq<Byte>) {
    var m := if masked then 128 else 0;
    if n < 126 then [m + n] else if n <= 0xFFFF then [m + 126] + BigEndian(2, n) else [m + 127] + BigEndian(8, n)
  }

  function Body(k: Masking, payload: seq<Byte>): (bs: seq<Byte>) {
    match k
    case Bare => payload
    case With(mask) => mask + Masked(mask, 0, payload)
  }

  /** The frame on the wire. */
  function Encode(f: Frame, k: Masking): (bs: seq<Byte>) {
    [Head(f)] + LengthBytes(k.With?, |f.payload|) + Body(k, f.payload)
  }

  /** `ws_calc_frame_size`. */
  function FrameSize(n: nat, masked: bool): (size: nat) {
    n + 2 + (if n >= 126 then if n > 0xFFFF then 8 else 2 else 0) + (if masked then 4 else 0)
  }

  lemma EncodedSize(f: Frame, k: Masking)
    ensures |Encode(f, k)| == FrameSize(|f.payload|, k.With?)
    ensures var n := |f.payload|;
            |Encode(f, k)| == n + (if n <= 125 then 2 else if n <= 65535 then 4 else 10) + if k.With? then 4 else 0
  {
  }

  // ---------------------------------------------------------------- building a frame

  /** A write loop: one more byte of out in place. */
  lemma WriteNext(s0: seq<Byte>, cur: seq<Byte>, out: seq<Byte>, at: nat, i: nat)
    requires i < |out| && at + |out| <= |s0|
    requires cur == s0[..at] + out[..i] + s0[at + i..]
    ensures cur[at + i] == s0[at + i]
    ensures cur[at + i := out[i]] == s0[..at] + out[..i + 1] + s0[at + i + 1..]
  {
    assert out[..i + 1] == out[..i] + [out[i]];
  }

  /** `websocket_decode` into a buffer. */
  method MaskInto(dst: array<Byte>, at: nat, src: seq<Byte>, mask: Mask, off: nat) returns (next: nat)
    requires at + |src| <= dst.Length
    modifies dst
    ensures dst[..] == old(dst[..at]) + Masked(mask, off, src) + old(dst[at + |src|..])
    ensures IsMasked(dst[at..at + |src|], mask, off, src)
    ensures next == (|src| + off) % 4
  {
    ghost var out := Masked(mask, off, src);
    for i := 0 to |src|
      invariant dst[..] == old(dst[..])[..at] + out[..i] + old(dst[..])[at + i..]
    {
      WriteNext(old(dst[..]), dst[..], out, at, i);
      ghost var cur := dst[..];
      dst[at + i] := XorByte(src[i], mask[(i + off) % 4]);
      assert dst[..] == cur[at + i := out[i]];
    }
    next := (|src| + off) % 4;
    assert dst[at..at + |src|] == out;
    MaskedIs(mask, off, src);
  }

  lemma Shifts(x: nat)
    ensures x / 0x100 / 0x100 == x / 0x1_0000
    ensures x / 0x1_0000 / 0x100 == x / 0x100_0000
    ensures x / 0x100_0000 / 0x100 == x / 0x1_0000_0000
  {
  }

  /** Four bytes by shifts. */
  function Shifted4(x: nat): (bs: seq<Byte>) {
    [x / 0x100_0000 % 256, x / 0x1_0000 % 256, x / 0x100 % 256, x % 256]
  }

  lemma BigEndian4(x: nat)
    ensures BigEndian(4, x) == Shifted4(x)
  {
    Shifts(x);
    BigEndianUp(1, x / 256 / 256);
    assert BigEndian(2, x / 256 / 256) == [x / 256 / 256 / 256 % 256, x / 256 / 256 % 256] by {
      assert BigEndian(0, x / 256 / 256 / 256 / 256) == [];
      assert BigEndian(1, x / 256 / 256 / 256) == [x / 256 / 256 / 256 % 256];
    }
  }

  lemma BigEndianUp(n: nat, x: nat)
    ensures BigEndian(n + 1, x) == BigEndian(n, x / 256) + [x % 256]
  {
  }

  lemma BigEndian8(x: nat)
    ensures BigEndian(8, x) == Shifted4(x / 0x1_0000_0000) + Shifted4(x)
  {
    var x1, x2, x3, x4 := x / 0x100, x / 0x1_0000, x / 0x100_0000, x / 0x1_0000_0000;
    Shifts(x);
    BigEndian4(x4);
    BigEndianUp(4, x3);
    BigEndianUp(5, x2);
    BigEndianUp(6, x1);
    BigEndianUp(7, x);
  }

  method PutFour(dst: array<Byte>, at: nat, x: nat)
    requires at + 4 <= dst.Length
    modifies dst
    ensures dst[..] == old(dst[..at]) + Shifted4(x) + old(dst[at + 4..])
  {
    dst[at] := x / 0x100_0000 % 256;
    dst[at + 1] := x / 0x1_0000 % 256;
    dst[at + 2] := x / 0x100 % 256;
    dst[at + 3] := x % 256;
  }

  /** The second byte and the extended length. */
  method PutLength(frame: array<Byte>, masked: bool, n: nat) returns (offset: nat)
    requires frame.Length >= 1 + |LengthBytes(masked, n)|
    modifies frame
    ensures offset == 1 + |LengthBytes(masked, n)|
    ensures frame[..] == old(frame[..1]) + LengthBytes(masked, n) + old(frame[offset..])
  {
    var m := if masked then 128 else 0;
    if n < 126 {
      frame[1] := m + n;
      offset := 2;
    } else if n <= 0xFFFF {
      frame[1] := m + 126;
      frame[2] := n / 256 % 256;
      frame[3] := n % 256;
      offset := 4;
      assert BigEndian(1, n / 256) == [n / 256 % 256] by { assert BigEndian(0, n / 256 / 256) == []; }
    } else {
      PutWideLength(frame, m, n);
      offset := 10;
    }
  }

  method PutWideLength(frame: array<Byte>, m: Byte, n: nat)
    requires frame.Length >= 10 && m <= 128
    modifies frame
    ensures frame[..] == old(frame[..1]) + ([m + 127] + BigEndian(8, n)) + old(frame[10..])
  {
    ghost var s0 := frame[..];
    frame[1] := m + 127;
    ghost var s1 := frame[..];
    PutFour(frame, 2, n / 0x1_0000_0000);
    ghost var s2 := frame[..];
    PutFour(frame, 6, n);
    BigEndian8(n);
    WriteThree(s0, s1, s2, frame[..], m + 127, Shifted4(n / 0x1_0000_0000), Shifted4(n));
  }

  lemma WriteThree(s0: seq<Byte>, s1: seq<Byte>, s2: seq<Byte>, s3: seq<Byte>, c: Byte, a: seq<Byte>, b: seq<Byte>)
    requires |s0| == |s1| == |s2| >= 10 && |a| == 4 && |b| == 4
    requires s1 == s0[1 := c] && s2 == s1[..2] + a + s1[6..] && s3 == s2[..6] + b + s2[10..]
    ensures s3 == s0[..1] + ([c] + (a + b)) + s0[10..]
  {
    assert s2[..6] == s0[..1] + [c] + a;
    assert s2[10..] == s0[10..];
  }

  /** `websocket_build_frame`: the frame, its size, and nothing behind it. */
  method BuildFrame(frame: array<Byte>, f: Frame, k: Masking) returns (size: nat)
    requires frame.Length >= FrameSize(|f.payload|, k.With?)
    modifies frame
    ensures size == FrameSize(|f.payload|, k.With?)
    ensures frame[..] == Encode(f, k) + old(frame[size..])
  {
    ghost var s0 := frame[..];
    ghost var l, b := LengthBytes(k.With?, |f.payload|), Body(k, f.payload);
    frame[0] := (if f.fin then 128 else 0) + f.opcode;
    ghost var s1 := frame[..];
    var offset := PutLength(frame, k.With?, |f.payload|);
    ghost var s2 := frame[..];
    size := PutBody(frame, offset, k, f.payload);
    Assembled(s0, s1, s2, frame[..], Head(f), l, b);
  }

  /** Three writes one behind the other. */
  lemma Assembled(s0: seq<Byte>, s1: seq<Byte>, s2: seq<Byte>, s3: seq<Byte>, h: Byte, l: seq<Byte>, b: seq<Byte>)
    requires 1 + |l| + |b| <= |s0| == |s1| == |s2|
    requires s1 == s0[0 := h]
    requires s2 == s1[..1] + l + s1[1 + |l|..]
    requires s3 == s2[..1 + |l|] + b + s2[1 + |l| + |b|..]
    ensures s3 == [h] + l + b + s0[1 + |l| + |b|..]
  {
    assert s2[..1 + |l|] == [h] + l;
    assert s2[1 + |l|..] == s1[1 + |l|..];
    assert s2[1 + |l| + |b|..] == s1[1 + |l|..][|b|..];
  }

  lemma WriteTwo(s0: seq<Byte>, s1: seq<Byte>, s2: seq<Byte>, at: nat, a: seq<Byte>, b: seq<Byte>)
    requires at + |a| + |b| <= |s0| == |s1|
    requires s1 == s0[..at] + a + s0[at + |a|..]
    requires s2 == s1[..at + |a|] + b + s1[at + |a| + |b|..]
    ensures s2 == s0[..at] + (a + b) + s0[at + |a| + |b|..]
  {
    assert s1[..at + |a|] == s0[..at] + a;
    assert s1[at + |a| + |b|..] == s0[at + |a| + |b|..];
  }

  method PutBody(frame: array<Byte>, offset: nat, k: Masking, payload: seq<Byte>) returns (size: nat)
    requires frame.Length >= offset + |Body(k, payload)|
    modifies frame
    ensures size == offset + |Body(k, payload)|
    ensures frame[..] == old(frame[..offset]) + Body(k, payload) + old(frame[size..])
  {
    match k {
      case With(mask) =>
        ghost var s0 := frame[..];
        PutBytes(frame, offset, mask);
        ghost var s1 := frame[..];
        var _ := MaskInto(frame, offset + 4, payload, mask, 0);
        WriteTwo(s0, s1, frame[..], offset, mask, Masked(mask, 0, payload));
        size := offset + 4 + |payload|;
      case Bare =>
        PutBytes(frame, offset, payload);
        size := offset + |payload|;
    }
  }

  /** `memcpy` into a buffer. */
  method PutBytes(dst: array<Byte>, at: nat, src: seq<Byte>)
    requires at + |src| <= dst.Length
    modifies dst
    ensures dst[..] == old(dst[..at]) + src + old(dst[at + |src|..])
  {
    for i := 0 to |src|
      invariant dst[..] == old(dst[..])[..at] + src[..i] + old(dst[..])[at + i..]
    {
      WriteNext(old(dst[..]), dst[..], src, at, i);
      ghost var cur := dst[..];
      dst[at + i] := src[i];
      assert dst[..] == cur[at + i := src[i]];
    }
  }
}
