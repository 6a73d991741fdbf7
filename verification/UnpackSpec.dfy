/** Cutting a byte stream into packages (event/unpack.c), as a function of the whole stream. */
module UnpackSpec {
  import opened Bytes
  import opened Numbers
  import opened Sequences

  datatype Coding = Big | Little | Varint

  /** `unpack_setting_t` without its size limit. */
  datatype Setting =
    | Fixed(length: nat)
    | Delimiter(text: seq<Byte>)
    | LengthField(bodyOffset: nat, fieldOffset: nat, fieldBytes: nat, adjustment: int, coding: Coding)

  /** What `hio_set_unpack` asserts, and a delimiter that is not empty; a fixed-width length field must fit
      an `unsigned int`, and a varint has at least one byte. */
  ghost predicate Sane(s: Setting) {
    match s
    case Fixed(n) => n > 0
    case Delimiter(d) => |d| > 0
    case LengthField(body, off, n, _, coding) => body >= off + n && if coding.Varint? then n > 0 else n <= 4
  }

  // ---------------------------------------------------------------- numbers

  /** How many bytes a varint has: `Incomplete` if the input ends before it does, `TooLong` after ten. */
  datatype VarintSize = Complete(n: nat) | Incomplete | TooLong

  function VarintScan(bs: seq<Byte>, k: nat): (r: VarintSize)
    requires k <= 10
    ensures r.Complete? ==> k < r.n <= k + |bs| && r.n <= 10
    ensures r.Incomplete? ==> k + |bs| < 10
    decreases |bs|
  {
    if k == 10 then TooLong
    else if |bs| == 0 then Incomplete
    else if bs[0] < 128 then Complete(k + 1)
    else VarintScan(bs[1..], k + 1)
  }

  /** Seven bits a byte, the least significant first. */
  function VarintValue(bs: seq<Byte>): (r: nat) {
    if |bs| == 0 then 0 else bs[0] % 128 + 128 * VarintValue(bs[1..])
  }

  // ---------------------------------------------------------------- the first package

  /** The first package has n bytes, or is not all there yet, or can never be read. */
  datatype Verdict = Package(n: nat) | More | Unreadable

  predicate DelimiterAt(d: seq<Byte>, bs: seq<Byte>, k: nat) {
    k + |d| <= |bs| && bs[k..k + |d|] == d
  }

  /** The first place from k on where d occurs, or beyond the end. */
  function Find(d: seq<Byte>, bs: seq<Byte>, k: nat): (r: nat)
    ensures k <= r
    ensures r + |d| <= |bs| ==> DelimiterAt(d, bs, r)
    ensures forall i :: k <= i < r ==> !DelimiterAt(d, bs, i)
    ensures r + |d| > |bs| ==> forall i :: k <= i ==> !DelimiterAt(d, bs, i)
    decreases |bs| + 1 - k
  {
    if k + |d| > |bs| || DelimiterAt(d, bs, k) then k else Find(d, bs, k + 1)
  }

  const MODULUS := 0x1_0000_0000

  /** The length that a length field announces: 32-bit arithmetic. */
  function Announced(head: nat, body: nat, adjustment: int): (n: nat) {
    (head + body % MODULUS + adjustment) % MODULUS
  }

  datatype Length = Known(n: nat) | Unknown | Overlong

  /** What the bytes say about the length of the first package. */
  function FieldLength(s: Setting, bs: seq<Byte>): (r: Length)
    requires s.LengthField? && Sane(s)
  {
    if |bs| < s.bodyOffset then Unknown
    else
      var field := bs[s.fieldOffset..s.fieldOffset + s.fieldBytes];
      match s.coding
      case Big => Known(Announced(s.bodyOffset, BigValue(field), s.adjustment))
      case Little => Known(Announced(s.bodyOffset, LittleValue(field), s.adjustment))
      case Varint =>
        var lp := bs[s.fieldOffset..];
        match VarintScan(lp, 0)
        case Complete(n) => Known(Announced(s.bodyOffset + n - s.fieldBytes, VarintValue(lp[..n]), s.adjustment))
        case Incomplete => Unknown
        case TooLong => Overlong
  }

  function First(s: Setting, bs: seq<Byte>): (v: Verdict)
    requires Sane(s)
    ensures v.Package? ==> v.n <= |bs|
  {
    match s
    case Fixed(n) => if |bs| >= n then Package(n) else More
    case Delimiter(d) => var k := Find(d, bs, 0); if k + |d| <= |bs| then Package(k + |d|) else More
    case LengthField(_, _, _, _, _) =>
      match FieldLength(s, bs)
      case Known(n) => if |bs| >= n then Package(n) else More
      case Unknown => More
      case Overlong => Unreadable
  }

  // ---------------------------------------------------------------- all packages

  /** Waiting for more, refused as over the limit, or caught on a package of length zero. */
  datatype End = Open | Refused | Stuck

  datatype Cut = Cut(packages: seq<seq<Byte>>, rest: seq<Byte>, end: End)

  function Prepend(p: seq<Byte>, c: Cut): Cut {
    c.(packages := [p] + c.packages)
  }

  function Split(s: Setting, bs: seq<Byte>): (c: Cut)
    requires Sane(s)
    decreases |bs|
  {
    match First(s, bs)
    case More => Cut([], bs, Open)
    case Unreadable => Cut([], bs, Refused)
    case Package(n) => if n == 0 then Cut([], bs, Stuck) else Prepend(bs[..n], Split(s, bs[n..]))
  }

  lemma SplitFirst(s: Setting, bs: seq<Byte>, n: nat, rest: seq<Byte>)
    requires Sane(s) && First(s, bs) == Package(n) && n > 0 && rest == bs[n..]
    ensures Split(s, bs) == Prepend(bs[..n], Split(s, rest))
  {
  }

  function Whole(c: Cut): (r: seq<Byte>) {
    Flat(c.packages) + c.rest
  }

  lemma WholePrepend(p: seq<Byte>, c: Cut)
    ensures Whole(Prepend(p, c)) == p + Whole(c)
  {
    assert ([p] + c.packages)[1..] == c.packages;
    assert p + Flat(c.packages) + c.rest == p + (Flat(c.packages) + c.rest);
  }

  /** Nothing is lost or added: the packages and the rest make up the stream. */
  lemma {:induction false} SplitKeeps(s: Setting, bs: seq<Byte>)
    requires Sane(s)
    ensures Whole(Split(s, bs)) == bs
    decreases |bs|
  {
    var v := First(s, bs);
    if v.Package? && v.n > 0 {
      var p, rest := bs[..v.n], bs[v.n..];
      SplitFirst(s, bs, v.n, rest);
      SplitKeeps(s, rest);
      WholePrepend(p, Split(s, rest));
      Rejoin([], bs, v.n);
    } else {
      SplitNone(s, bs);
    }
  }

  lemma SplitNone(s: Setting, bs: seq<Byte>)
    requires Sane(s) && !(First(s, bs).Package? && First(s, bs).n > 0)
    ensures Whole(Split(s, bs)) == bs
  {
    assert [] + bs == bs;
  }

  // ---------------------------------------------------------------- more input

  lemma {:induction false} VarintMore(x: seq<Byte>, y: seq<Byte>, k: nat)
    requires k <= 10 && !VarintScan(x, k).Incomplete?
    ensures VarintScan(x + y, k) == VarintScan(x, k)
    decreases |x|
  {
    if k >= 10 || x[0] < 128 {
    } else {
      assert (x + y)[1..] == x[1..] + y;
      VarintMore(x[1..], y, k + 1);
    }
  }

  /** What has been decided about a length stays decided. */
  lemma FieldLengthMore(s: Setting, x: seq<Byte>, y: seq<Byte>)
    requires s.LengthField? && Sane(s) && !FieldLength(s, x).Unknown?
    ensures FieldLength(s, x + y) == FieldLength(s, x)
  {
    var z := x + y;
    assert z[s.fieldOffset..s.fieldOffset + s.fieldBytes] == x[s.fieldOffset..s.fieldOffset + s.fieldBytes];
    if s.coding.Varint? {
      var lp := x[s.fieldOffset..];
      assert z[s.fieldOffset..] == lp + y;
      VarintMore(lp, y, 0);
      var r := VarintScan(lp, 0);
      if r.Complete? {
        assert (lp + y)[..r.n] == lp[..r.n];
      }
    }
  }

  lemma DelimiterMore(d: seq<Byte>, x: seq<Byte>, y: seq<Byte>, k: nat)
    requires k + |d| <= |x|
    ensures DelimiterAt(d, x + y, k) == DelimiterAt(d, x, k)
  {
    assert (x + y)[k..k + |d|] == x[k..k + |d|];
  }

  lemma FindMore(d: seq<Byte>, x: seq<Byte>, y: seq<Byte>)
    requires Find(d, x, 0) + |d| <= |x|
    ensures Find(d, x + y, 0) == Find(d, x, 0)
  {
    var k, k' := Find(d, x, 0), Find(d, x + y, 0);
    DelimiterMore(d, x, y, k);
    if k' < k {
      DelimiterMore(d, x, y, k');
    }
  }

  lemma FirstMore(s: Setting, x: seq<Byte>, y: seq<Byte>)
    requires Sane(s) && !First(s, x).More?
    ensures First(s, x + y) == First(s, x)
  {
    match s
    case Fixed(n) =>
    case Delimiter(d) => FindMore(d, x, y);
    case LengthField(_, _, _, _, _) => FieldLengthMore(s, x, y);
  }

  /** c, with the packages of a before its own. */
  function Behind(a: seq<seq<Byte>>, c: Cut): Cut {
    c.(packages := a + c.packages)
  }

  lemma PrependBehind(p: seq<Byte>, a: seq<seq<Byte>>, c: Cut)
    ensures Prepend(p, Behind(a, c)) == Behind([p] + a, c)
  {
    assert [p] + (a + c.packages) == [p] + a + c.packages;
  }

  /** The stream cut up piece by piece: what the first piece leaves over goes in front of the next. */
  lemma {:induction false} SplitMore(s: Setting, x: seq<Byte>, y: seq<Byte>)
    requires Sane(s) && Split(s, x).end.Open?
    ensures Split(s, x + y) == Behind(Split(s, x).packages, Split(s, Split(s, x).rest + y))
    decreases |x|
  {
    var v := First(s, x);
    if !v.Package? {
    } else {
      var p, z, all := x[..v.n], x[v.n..], x + y;
      SplitFirst(s, x, v.n, z);
      SplitMore(s, z, y);
      FirstMore(s, x, y);
      SplitFirstMore(s, x, y, v.n);
      PrependBehind(p, Split(s, z).packages, Split(s, Split(s, z).rest + y));
    }
  }

  lemma SplitFirstMore(s: Setting, x: seq<Byte>, y: seq<Byte>, n: nat)
    requires Sane(s) && n <= |x| && First(s, x + y) == Package(n) && n > 0
    ensures Split(s, x + y) == Prepend(x[..n], Split(s, x[n..] + y))
  {
    var all := x + y;
    assert all[..n] == x[..n] && all[n..] == x[n..] + y;
    SplitFirst(s, all, n, x[n..] + y);
  }

  /** A length field can announce a package of length zero, at which the loop never ends: with the
      recommended settings, a body of 2^32 - 5 bytes behind a header of 5. */
  lemma ZeroLength()
    ensures Split(LengthField(5, 1, 4, 0, Big), [0, 255, 255, 255, 251]).end.Stuck?
  {
    var bs: seq<Byte> := [0, 255, 255, 255, 251];
    assert bs[1..5] == [255, 255, 255, 251];
    FourValue(255, 255, 255, 251);
  }

  lemma BigMore(x: seq<Byte>, c: Byte)
    ensures BigValue(x + [c]) == BigValue(x) * 256 + c
  {
    assert (x + [c])[..|x|] == x;
  }

  lemma FourValue(a: Byte, b: Byte, c: Byte, d: Byte)
    ensures BigValue([a, b, c, d]) == ((a * 256 + b) * 256 + c) * 256 + d
  {
    BigMore([], a);
    BigMore([a], b);
    BigMore([a, b], c);
    BigMore([a, b, c], d);
    assert [] + [a] == [a] && [a] + [b] == [a, b] && [a, b] + [c] == [a, b, c] && [a, b, c] + [d] == [a, b, c, d];
  }

  // ---------------------------------------------------------------- reading the numbers

  lemma {:induction false} LittleAppend(x: seq<Byte>, c: Byte)
    ensures LittleValue(x + [c]) == LittleValue(x) + c * Pow256(|x|)
  {
    if |x| == 0 {
      assert (x + [c])[1..] == [];
    } else {
      LittleAppend(x[1..], c);
      assert (x + [c])[1..] == x[1..] + [c];
      assert c * (256 * Pow256(|x| - 1)) == 256 * (c * Pow256(|x| - 1));
    }
  }

  lemma {:induction false} VarintAppend(x: seq<Byte>, c: Byte)
    ensures VarintValue(x + [c]) == VarintValue(x) + c % 128 * Pow128(|x|)
  {
    if |x| == 0 {
      assert (x + [c])[1..] == [];
    } else {
      VarintAppend(x[1..], c);
      assert (x + [c])[1..] == x[1..] + [c];
      var d := c % 128;
      assert d * (128 * Pow128(|x| - 1)) == 128 * (d * Pow128(|x| - 1));
    }
  }

  /** The loop for a big-endian field. */
  method ReadBig(bs: seq<Byte>) returns (v: nat)
    ensures v == BigValue(bs)
  {
    v := 0;
    for i := 0 to |bs|
      invariant v == BigValue(bs[..i])
    {
      assert bs[..i + 1][..i] == bs[..i];
      v := v * 256 + bs[i];
    }
    assert bs[..|bs|] == bs;
  }

  /** The loop for a little-endian field; `shift` is 256 to the power i. */
  method ReadLittle(bs: seq<Byte>) returns (v: nat)
    ensures v == LittleValue(bs)
  {
    v := 0;
    var shift: nat := 1;
    for i := 0 to |bs|
      invariant v == LittleValue(bs[..i]) && shift == Pow256(i)
    {
      LittleAppend(bs[..i], bs[i]);
      assert bs[..i] + [bs[i]] == bs[..i + 1];
      v := v + bs[i] * shift;
      shift := shift * 256;
    }
    assert bs[..|bs|] == bs;
  }

  lemma VarintGo(bs: seq<Byte>, k: nat)
    requires k < 10 && k < |bs| && bs[k] >= 128
    ensures VarintScan(bs[k..], k) == VarintScan(bs[k + 1..], k + 1)
  {
    assert bs[k..][1..] == bs[k + 1..];
  }

  /** `varint_decode`, with the buffer length in and the size out. */
  method VarintDecode(bs: seq<Byte>) returns (size: VarintSize, v: nat)
    ensures size == VarintScan(bs, 0)
    ensures size.Complete? ==> v == VarintValue(bs[..size.n])
  {
    v := 0;
    var bytes: nat, shift: nat := 0, 1;
    assert bs[0..] == bs;
    while bytes < 10
      invariant 0 <= bytes <= |bs| && bytes <= 10
      invariant VarintScan(bs, 0) == VarintScan(bs[bytes..], bytes)
      invariant v == VarintValue(bs[..bytes]) && shift == Pow128(bytes)
    {
      if bytes == |bs| {
        return Incomplete, v;
      }
      var c: nat := bs[bytes];
      VarintAppend(bs[..bytes], c);
      assert bs[..bytes] + [c] == bs[..bytes + 1];
      v := v + c % 128 * shift;
      if c < 128 {
        return Complete(bytes + 1), v;
      }
      VarintGo(bs, bytes);
      bytes := bytes + 1;
      shift := shift * 128;
    }
    size := TooLong;
  }

  // ---------------------------------------------------------------- writing a varint

  /** `varint_encode` of a number that is not negative. */
  function VarintEncode(x: nat): (bs: seq<Byte>)
    ensures |bs| > 0
  {
    if x < 128 then [x] else [x % 128 + 128] + VarintEncode(x / 128)
  }

  /** What is encoded is read back, whatever follows it. */
  lemma {:induction false} VarintRoundTrip(x: nat, rest: seq<Byte>, k: nat)
    requires k < 10 && x < Pow128(10 - k)
    ensures VarintScan(VarintEncode(x) + rest, k) == Complete(k + |VarintEncode(x)|)
    ensures VarintValue(VarintEncode(x)) == x
    decreases x
  {
    var bs := VarintEncode(x);
    if x >= 128 {
      assert Pow128(1) == 128 * Pow128(0);
      VarintRoundTrip(x / 128, rest, k + 1);
      assert (bs + rest)[1..] == VarintEncode(x / 128) + rest;
      assert bs[1..] == VarintEncode(x / 128);
    } else {
      assert bs[1..] == [];
    }
  }
}
