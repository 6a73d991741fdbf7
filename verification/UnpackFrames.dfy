/** Packages that are framed as a setting asks for are delivered as they were framed. */
module UnpackFrames {
  import opened Bytes
  import opened Numbers
  import opened Sequences
  import opened UnpackSpec
  import opened UnpackRuns
  import opened Unpack

  /** What stands before the length field, between it and the body, and the body. */
  datatype Framed = Framed(before: seq<Byte>, between: seq<Byte>, body: seq<Byte>)

  /** The number in the length field: the length of the body less the adjustment. */
  function Number(s: Setting, f: Framed): int
    requires s.LengthField?
  {
    |f.body| - s.adjustment
  }

  function FieldText(s: Setting, x: nat): (bs: seq<Byte>)
    requires s.LengthField?
  {
    match s.coding
    case Big => BigEndian(s.fieldBytes, x)
    case Little => LittleEndian(s.fieldBytes, x)
    case Varint => VarintEncode(x)
  }

  function Text(s: Setting, f: Framed): (bs: seq<Byte>)
    requires s.LengthField? && Number(s, f) >= 0
  {
    f.before + FieldText(s, Number(s, f)) + (f.between + f.body)
  }

  /** The parts have the sizes that the setting says, the number fits its field, and the package has a length
      between 1 and 2^32 - 1. With varints the package must not be shorter than the fixed part of a header. */
  ghost predicate Sound(s: Setting, f: Framed) {
    && s.LengthField? && |f.before| == s.fieldOffset && |f.between| == s.bodyOffset - s.fieldOffset - s.fieldBytes
    && 0 <= Number(s, f) < 0x1_0000_0000 && (!s.coding.Varint? ==> Number(s, f) < Pow256(s.fieldBytes))
    && 0 < |Text(s, f)| < 0x1_0000_0000 && s.bodyOffset <= |Text(s, f)|
  }

  // ---------------------------------------------------------------- the two other modes

  /** Pieces of n bytes are the packages, and what is shorter stays. */
  lemma {:induction false} FixedPackages(n: nat, ps: seq<seq<Byte>>, rest: seq<Byte>)
    requires n > 0 && |rest| < n && forall i :: 0 <= i < |ps| ==> |ps[i]| == n
    ensures Split(Fixed(n), Flat(ps) + rest) == Cut(ps, rest, Open)
    decreases |ps|
  {
    if |ps| == 0 {
      assert Flat(ps) + rest == rest;
    } else {
      FixedPackages(n, ps[1..], rest);
      Joined(ps, rest);
      SplitFirst(Fixed(n), Flat(ps) + rest, n, Flat(ps[1..]) + rest);
    }
  }

  lemma Joined(ps: seq<seq<Byte>>, rest: seq<Byte>)
    requires |ps| > 0
    ensures var all := Flat(ps) + rest;
            |ps[0]| <= |all| && all[..|ps[0]|] == ps[0] && all[|ps[0]|..] == Flat(ps[1..]) + rest
            && all == ps[0] + (Flat(ps[1..]) + rest)
    ensures [ps[0]] + ps[1..] == ps
  {
    assert Flat(ps) + rest == ps[0] + (Flat(ps[1..]) + rest);
  }

  /** p ends with the delimiter, which is nowhere else in it. */
  ghost predicate Delimited(d: seq<Byte>, p: seq<Byte>) {
    && |d| <= |p| && p[|p| - |d|..] == d
    && forall i, j :: 0 <= i < j < |p| && j == i + |d| ==> p[i..j] != d
  }

  ghost predicate Undelimited(d: seq<Byte>, p: seq<Byte>) {
    forall i, j :: 0 <= i < j <= |p| && j == i + |d| ==> p[i..j] != d
  }

  lemma DelimitedFirst(d: seq<Byte>, p: seq<Byte>, y: seq<Byte>)
    requires |d| > 0 && Delimited(d, p)
    ensures First(Delimiter(d), p + y) == Package(|p|)
  {
    var k, q := |p| - |d|, p + y;
    InFront(p, y, k, |p|);
    forall i | 0 <= i < k
      ensures !DelimiterAt(d, q, i)
    {
      InFront(p, y, i, i + |d|);
      assert p[i..i + |d|] != d;
    }
    assert DelimiterAt(d, q, k);
  }

  lemma InFront(p: seq<Byte>, y: seq<Byte>, i: nat, j: nat)
    requires i <= j <= |p|
    ensures (p + y)[i..j] == p[i..j]
  {
  }

  lemma UndelimitedFirst(d: seq<Byte>, p: seq<Byte>)
    requires |d| > 0 && Undelimited(d, p)
    ensures First(Delimiter(d), p) == More
  {
    forall i | 0 <= i <= |p| - |d|
      ensures !DelimiterAt(d, p, i)
    {
      assert p[i..i + |d|] != d;
    }
  }

  /** Pieces that end with the first delimiter in them are the packages, and what has none stays. */
  lemma {:induction false} DelimitedPackages(d: seq<Byte>, ps: seq<seq<Byte>>, rest: seq<Byte>)
    requires |d| > 0 && Undelimited(d, rest) && forall i :: 0 <= i < |ps| ==> Delimited(d, ps[i])
    ensures Split(Delimiter(d), Flat(ps) + rest) == Cut(ps, rest, Open)
    decreases |ps|
  {
    if |ps| == 0 {
      assert Flat(ps) + rest == rest;
      UndelimitedFirst(d, rest);
    } else {
      DelimitedPackages(d, ps[1..], rest);
      Joined(ps, rest);
      DelimitedFirst(d, ps[0], Flat(ps[1..]) + rest);
      SplitFirst(Delimiter(d), Flat(ps) + rest, |ps[0]|, Flat(ps[1..]) + rest);
    }
  }

  // ---------------------------------------------------------------- one package

  lemma FixedLength(s: Setting, f: Framed)
    requires Sane(s) && Sound(s, f) && !s.coding.Varint?
    ensures FieldLength(s, Text(s, f)) == Known(|Text(s, f)|)
  {
    var x := Number(s, f);
    FieldRead(s, x, f.before, FieldText(s, x), f.between + f.body);
    AnnouncedIs(s.bodyOffset, x, s.adjustment, |Text(s, f)|);
  }

  lemma AnnouncedIs(head: nat, x: nat, adjustment: int, n: nat)
    requires x < 0x1_0000_0000 && n < 0x1_0000_0000 && head + x + adjustment == n
    ensures Announced(head, x, adjustment) == n
  {
  }

  lemma FieldRead(s: Setting, x: nat, a: seq<Byte>, v: seq<Byte>, b: seq<Byte>)
    requires Sane(s) && s.LengthField? && !s.coding.Varint? && x < Pow256(s.fieldBytes) && v == FieldText(s, x)
    requires |a| == s.fieldOffset && s.bodyOffset <= |a + v + b|
    ensures FieldLength(s, a + v + b) == Known(Announced(s.bodyOffset, x, s.adjustment))
  {
    Between(a, v, b);
    ValueOfBigEndian(s.fieldBytes, x);
    ValueOfLittleEndian(s.fieldBytes, x);
  }

  lemma Between(a: seq<Byte>, v: seq<Byte>, b: seq<Byte>)
    ensures (a + v + b)[|a|..|a| + |v|] == v && (a + v + b)[|a|..] == v + b
  {
  }

  lemma VarintLength(s: Setting, f: Framed)
    requires Sane(s) && Sound(s, f) && s.coding.Varint?
    ensures FieldLength(s, Text(s, f)) == Known(|Text(s, f)|)
  {
    var x := Number(s, f);
    var v, rest := VarintEncode(x), f.between + f.body;
    Between(f.before, v, rest);
    TenBytes();
    VarintRoundTrip(x, rest, 0);
    assert (v + rest)[..|v|] == v;
    AnnouncedIs(s.bodyOffset + |v| - s.fieldBytes, x, s.adjustment, |Text(s, f)|);
  }

  lemma TenBytes()
    ensures 0x1_0000_0000 <= Pow128(10)
  {
    assert Pow128(0) == 1 && Pow128(1) == 128 && Pow128(2) == 0x4000 && Pow128(3) == 0x20_0000;
    assert Pow128(4) == 0x1000_0000 && Pow128(5) == 0x8_0000_0000;
    assert Pow128(6) >= Pow128(5) && Pow128(7) >= Pow128(6) && Pow128(8) >= Pow128(7);
    assert Pow128(9) >= Pow128(8) && Pow128(10) >= Pow128(9);
  }

  /** The header says the length of the package. */
  lemma FrameLength(s: Setting, f: Framed)
    requires Sane(s) && Sound(s, f)
    ensures FieldLength(s, Text(s, f)) == Known(|Text(s, f)|)
  {
    if s.coding.Varint? {
      VarintLength(s, f);
    } else {
      FixedLength(s, f);
    }
  }

  // ---------------------------------------------------------------- a stream of packages

  ghost predicate AllSound(s: Setting, fs: seq<Framed>) {
    s.LengthField? && forall i :: 0 <= i < |fs| ==> Sound(s, fs[i])
  }

  function Texts(s: Setting, fs: seq<Framed>): (ts: seq<seq<Byte>>)
    requires s.LengthField? && forall i :: 0 <= i < |fs| ==> Number(s, fs[i]) >= 0
    ensures |ts| == |fs|
  {
    if |fs| == 0 then [] else [Text(s, fs[0])] + Texts(s, fs[1..])
  }

  /** The next package is not there in full: its length is not known yet, or is within the limit. */
  ghost predicate Pending(s: Setting, max: nat, rest: seq<Byte>)
    requires Sane(s) && s.LengthField?
  {
    rest == [] || FieldLength(s, rest).Unknown? || (FieldLength(s, rest).Known? && FieldLength(s, rest).n <= max)
  }

  /** The beginning of a package. */
  lemma BeginningPends(s: Setting, max: nat, f: Framed, x: seq<Byte>)
    requires Sane(s) && Sound(s, f) && |Text(s, f)| <= max && x <= Text(s, f) && 0 < |x| < |Text(s, f)|
    ensures Split(s, x) == Cut([], x, Open) && Pending(s, max, x)
  {
    var t := Text(s, f);
    FrameLength(s, f);
    if !FieldLength(s, x).Unknown? {
      assert x + t[|x|..] == t;
      FieldLengthMore(s, x, t[|x|..]);
    }
  }

  lemma WholeFirst(s: Setting, f: Framed, y: seq<Byte>)
    requires Sane(s) && Sound(s, f)
    ensures Split(s, Text(s, f) + y) == Prepend(Text(s, f), Split(s, y))
  {
    var t := Text(s, f);
    FrameLength(s, f);
    FirstMore(s, t, y);
    SplitFirst(s, t + y, |t|, y);
    assert (t + y)[..|t|] == t && (t + y)[|t|..] == y;
  }

  /** Nothing is left behind a whole package. */
  lemma NothingLeft(s: Setting, f: Framed)
    requires Sane(s) && Sound(s, f)
    ensures Split(s, []) == Cut([], [], Open)
  {
    if s.bodyOffset == 0 {
      FrameLength(s, f);
      assert FieldLength(s, []) == FieldLength(s, Text(s, f));
    }
  }

  /** Any beginning of the stream: whole packages, and the beginning of one. */
  lemma {:induction false} Beginning(s: Setting, max: nat, fs: seq<Framed>, x: seq<Byte>) returns (k: nat)
    requires Sane(s) && |fs| > 0 && AllSound(s, fs) && forall i :: 0 <= i < |fs| ==> |Text(s, fs[i])| <= max
    requires x <= Flat(Texts(s, fs))
    ensures k <= |fs| && Split(s, x).packages == Texts(s, fs)[..k] && Split(s, x).end.Open?
    ensures Pending(s, max, Split(s, x).rest)
    ensures x == Flat(Texts(s, fs)) ==> k == |fs| && Split(s, x).rest == []
    decreases |fs|
  {
    var t := Text(s, fs[0]);
    var rest := Flat(Texts(s, fs[1..]));
    assert Flat(Texts(s, fs)) == t + rest;
    if x == [] {
      k := 0;
      NothingLeft(s, fs[0]);
    } else if |x| < |t| {
      k := 0;
      assert x <= t;
      BeginningPends(s, max, fs[0], x);
    } else {
      var y := x[|t|..];
      assert x == t + y && y <= rest;
      WholeFirst(s, fs[0], y);
      if |fs| == 1 {
        k := 1;
        assert y == [];
        NothingLeft(s, fs[0]);
      } else {
        var j := Beginning(s, max, fs[1..], y);
        k := j + 1;
        OneMoreText(t, Texts(s, fs[1..]), j);
      }
    }
  }

  lemma OneMoreText(t: seq<Byte>, ts: seq<seq<Byte>>, j: nat)
    requires j <= |ts|
    ensures ([t] + ts)[..j + 1] == [t] + ts[..j]
  {
  }

  // ---------------------------------------------------------------- any split into reads

  /** The connection stays open while a package is pending. */
  lemma StaysLive(s: Setting, max: nat, size: nat, stream: seq<Byte>, rest: seq<Byte>, chunk: seq<Byte>)
    requires Sane(s) && s.LengthField? && s.bodyOffset <= max && (stream != [] ==> Split(s, stream).end.Open?)
    requires rest == Split(s, stream).rest
    requires Split(s, stream + chunk).end.Open? && Pending(s, max, Split(s, stream + chunk).rest)
    ensures Next(s, max, size, rest, chunk).Live?
  {
    StreamMore(s, stream, chunk);
  }

  /** There is room for another read. */
  lemma RoomLeft(s: Setting, max: nat, size: nat, c: Conn)
    requires Sane(s) && Inv(s, max, size, c) && c.Live? && !MayFill(s, max, size)
    ensures |c.rest| < c.size
  {
  }

  function Least(a: nat, b: nat): (r: nat) {
    if a < b then a else b
  }

  /** all is the text of packages that are sound and within the limit. */
  ghost predicate Sent(s: Setting, max: nat, fs: seq<Framed>, all: seq<Byte>) {
    && |fs| > 0 && AllSound(s, fs) && (forall i :: 0 <= i < |fs| ==> |Text(s, fs[i])| <= max)
    && all == Flat(Texts(s, fs))
  }

  /** The reader is open and has received the first i bytes. */
  ghost predicate Got(r: Reader, size: nat, all: seq<Byte>, i: nat)
    reads r, r.base
  {
    && r.Valid() && !r.closed && !r.hung && i <= |all| && r.stream == all[..i]
    && Inv(r.setting, r.max, size, r.Now()) && !MayFill(r.setting, r.max, size)
  }

  /** Packages sent one behind the other, of which read number j brings what has come by then, at most take(j)
      bytes, as far as the buffer has room: they are delivered one by one as they were framed, and nothing is
      left over. */
  method ReceiveFrames(s: Setting, max: nat, size: nat, fs: seq<Framed>, take: nat -> nat) returns (r: Reader)
    requires Opened(s, max, size) && !MayFill(s, max, size)
    requires |fs| > 0 && AllSound(s, fs) && forall i :: 0 <= i < |fs| ==> |Text(s, fs[i])| <= max
    ensures r.Valid() && !r.closed && !r.hung && r.delivered == Texts(s, fs) && r.offset == 0
  {
    r := new Reader(s, max, size);
    var all := Flat(Texts(s, fs));
    assert all[..0] == [];
    ReadAll(r, all, take, size, fs);
    Delivered(s, max, fs, all);
  }

  method ReadAll(r: Reader, all: seq<Byte>, take: nat -> nat, ghost size: nat, ghost fs: seq<Framed>)
    requires Got(r, size, all, 0) && Sent(r.setting, r.max, fs, all)
    modifies r, r.base
    ensures Got(r, size, all, |all|) && r.stream == all
  {
    var i, j := 0, 0;
    while i < |all|
      invariant (r.base == old(r.base) || fresh(r.base)) && Got(r, size, all, i)
      decreases |all| - i
    {
      var n := ReadOn(r, all, i, take(j), size, fs);
      i, j := i + n, j + 1;
    }
    assert all[..|all|] == all;
  }

  lemma Delivered(s: Setting, max: nat, fs: seq<Framed>, all: seq<Byte>)
    requires Sane(s) && Sent(s, max, fs, all)
    ensures Split(s, all).packages == Texts(s, fs) && Split(s, all).rest == []
  {
    var k := Beginning(s, max, fs, all);
    assert Texts(s, fs)[..k] == Texts(s, fs);
  }

  /** One read. */
  method ReadOn(r: Reader, all: seq<Byte>, i: nat, limit: nat, ghost size: nat, ghost fs: seq<Framed>) returns (n: nat)
    requires Got(r, size, all, i) && Sent(r.setting, r.max, fs, all) && i < |all|
    modifies r, r.base
    ensures 0 < n <= |all| - i && Got(r, size, all, i + n) && (r.base == old(r.base) || fresh(r.base))
  {
    RoomLeft(r.setting, r.max, size, r.Now());
    n := Least(Least(if limit == 0 then 1 else limit, r.base.Length - r.offset), |all| - i);
    Receive(r, all[i..i + n], size, fs, all, all[..i + n]);
  }

  method Receive(r: Reader, chunk: seq<Byte>, ghost size: nat, ghost fs: seq<Framed>, ghost all: seq<Byte>,
                 ghost x: seq<Byte>)
    requires r.Valid() && !r.closed && !r.hung && 0 < |chunk| && r.offset + |chunk| <= r.base.Length
    requires Sent(r.setting, r.max, fs, all) && x <= all && x == r.stream + chunk
    requires Inv(r.setting, r.max, size, r.Now())
    modifies r, r.base
    ensures r.Valid() && !r.closed && !r.hung && r.stream == x && Inv(r.setting, r.max, size, r.Now())
    ensures r.base == old(r.base) || fresh(r.base)
  {
    ghost var k := Beginning(r.setting, r.max, fs, x);
    StaysLive(r.setting, r.max, r.base.Length, r.stream, r.base[..r.offset], chunk);
    InvKept(r.setting, r.max, size, r.Now(), chunk);
    r.Receive(chunk);
  }
}
