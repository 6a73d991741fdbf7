/** Runs of the unpacker: what every read makes of the buffer, and exactly which settings let some run hang or
    fill the buffer. */
module UnpackRuns {
  import opened Bytes
  import opened Numbers
  import opened UnpackSpec
  import opened UnpackSafety

  // ---------------------------------------------------------------- one read

  /** The connection between two reads: the size of the buffer and what is in it. A call that hangs does not
      return. */
  datatype Conn = Live(size: nat, rest: seq<Byte>) | Closed | Hung

  /** `LIMIT` of what is needed, twice the size, and the limit. */
  function Wider(need: nat, size: nat, max: nat): (r: nat)
    ensures need <= max ==> need <= r <= max
  {
    if 2 * size < need then need else if 2 * size > max then max else 2 * size
  }

  /** The length the buffer must have for the package that begins with rest, as far as it is known. */
  function Need(s: Setting, rest: seq<Byte>): (n: nat)
    requires Sane(s) && s.LengthField?
  {
    var r := FieldLength(s, rest);
    if r.Known? then r.n else s.bodyOffset
  }

  /** What becomes of the buffer when rest is left over. */
  function Settle(s: Setting, max: nat, size: nat, rest: seq<Byte>): (c: Conn)
    requires Sane(s)
  {
    if rest == [] then Live(size, rest)
    else
      match s
      case Fixed(_) => Live(size, rest)
      case Delimiter(_) =>
        if |rest| != size then Live(size, rest)
        else if size >= max then Closed
        else Live(if size * 2 < max then size * 2 else max, rest)
      case LengthField(_, _, _, _, _) =>
        var need := Need(s, rest);
        if need <= size then Live(size, rest)
        else if need > max then Closed
        else Live(Wider(need, size, max), rest)
  }

  /** What `hio_unpack` makes of a buffer that holds bs. */
  function After(s: Setting, max: nat, size: nat, bs: seq<Byte>): (c: Conn)
    requires Sane(s)
  {
    var cut := Split(s, bs);
    match cut.end
    case Open => Settle(s, max, size, cut.rest)
    case Refused => Closed
    case Stuck => Hung
  }

  /** A read of `chunk`, and `hio_unpack`. */
  function Next(s: Setting, max: nat, size: nat, rest: seq<Byte>, chunk: seq<Byte>): (c: Conn)
    requires Sane(s)
  {
    After(s, max, size, rest + chunk)
  }

  /** A read returns at least one byte, and at most what the buffer has room for. */
  predicate Fits(c: Conn, chunk: seq<Byte>) {
    c.Live? && 0 < |chunk| && |c.rest| + |chunk| <= c.size
  }

  /** The reads `chunks`, one after the other, lead from c to d. */
  ghost predicate Reads(s: Setting, max: nat, c: Conn, chunks: seq<seq<Byte>>, d: Conn)
    requires Sane(s)
    decreases |chunks|
  {
    if |chunks| == 0 then c == d
    else Fits(c, chunks[0]) && Reads(s, max, Next(s, max, c.size, c.rest, chunks[0]), chunks[1..], d)
  }

  /** d can be reached from a buffer of the given size. */
  ghost predicate Reachable(s: Setting, max: nat, size: nat, d: Conn)
    requires Sane(s)
  {
    exists chunks :: Reads(s, max, Live(size, []), chunks, d)
  }

  /** What `hio_set_unpack` sets up: the limit is an `unsigned int`, and a fixed length fits the buffer. */
  ghost predicate Opened(s: Setting, max: nat, size: nat) {
    Sane(s) && 0 < size && max < MODULUS && (s.Fixed? ==> s.length <= size)
  }

  lemma ReadsThen(s: Setting, max: nat, c: Conn, chunk: seq<Byte>, d: Conn, chunks: seq<seq<Byte>>, e: Conn)
    requires Sane(s) && Fits(c, chunk) && Next(s, max, c.size, c.rest, chunk) == d && Reads(s, max, d, chunks, e)
    ensures Reads(s, max, c, [chunk] + chunks, e)
  {
    assert ([chunk] + chunks)[1..] == chunks;
  }

  // ---------------------------------------------------------------- the conditions

  /** The buffer can take the fixed part of a header, or may grow so far. */
  predicate Begins(s: Setting, max: nat, size: nat)
    requires s.LengthField?
  {
    s.bodyOffset <= size || s.bodyOffset <= max
  }

  /** The size of the buffer once it can take the fixed part of a header. */
  function FirstSize(s: Setting, max: nat, size: nat): (b: nat)
    requires s.LengthField?
    ensures Begins(s, max, size) ==> s.bodyOffset <= b && size <= b
  {
    if s.bodyOffset <= size then size else Wider(s.bodyOffset, size, max)
  }

  /** A header that fits b bytes can announce a package that does not, but keeps within the limit. */
  ghost predicate Stretches(s: Setting, max: nat, b: nat)
    requires Sane(s) && s.LengthField?
  {
    exists n :: b < n <= max && Announces(s, b, n)
  }

  /** A package of length zero can be announced in the buffer, at its first size or once it has grown. */
  ghost predicate MayHang(s: Setting, max: nat, size: nat)
    requires Sane(s)
  {
    && s.LengthField? && Begins(s, max, size)
    && var b := FirstSize(s, max, size);
       Announces(s, b, 0) || (Stretches(s, max, b) && Announces(s, max, 0))
  }

  /** A varint can go on to the end of the buffer. */
  predicate MayFill(s: Setting, max: nat, size: nat) {
    && s.LengthField? && s.coding.Varint? && Begins(s, max, size)
    && FirstSize(s, max, size) < s.fieldOffset + 10
  }

  // ---------------------------------------------------------------- what every run keeps

  /** The sizes that a buffer of first size b comes to have. */
  ghost predicate Sized(s: Setting, max: nat, b: nat, size: nat)
    requires Sane(s) && s.LengthField?
  {
    size == b || (b < size <= max && Stretches(s, max, b))
  }

  /** The buffer is untouched, or large enough for the fixed part of a header and of a size it can have. */
  ghost predicate Grown(s: Setting, max: nat, size0: nat, c: Conn)
    requires Sane(s) && s.LengthField? && c.Live?
  {
    || c == Live(size0, [])
    || (Begins(s, max, size0) && Sized(s, max, FirstSize(s, max, size0), c.size))
  }

  ghost predicate Inv(s: Setting, max: nat, size0: nat, c: Conn)
    requires Sane(s)
  {
    match c
    case Live(size, rest) =>
      && |rest| <= size && 0 < size && (s.Fixed? ==> s.length <= size)
      && (|rest| == size ==> MayFill(s, max, size0))
      && (s.LengthField? ==> Grown(s, max, size0, c))
    case Closed => true
    case Hung => MayHang(s, max, size0)
  }

  lemma {:induction false} RestWithin(s: Setting, bs: seq<Byte>)
    requires Sane(s)
    ensures |Split(s, bs).rest| <= |bs|
    ensures Split(s, bs).end.Open? ==> First(s, Split(s, bs).rest).More?
    decreases |bs|
  {
    var v := First(s, bs);
    if !v.Package? || v.n == 0 {
    } else {
      SplitFirst(s, bs, v.n, bs[v.n..]);
      RestWithin(s, bs[v.n..]);
    }
  }

  /** The first growth, while the buffer cannot take the fixed part of a header. */
  lemma FirstGrowth(s: Setting, max: nat, size: nat, bs: seq<Byte>)
    requires Sane(s) && s.LengthField? && 0 < |bs| <= size < s.bodyOffset
    ensures Next(s, max, size, [], bs) ==
            if s.bodyOffset > max then Closed else Live(Wider(s.bodyOffset, size, max), bs)
  {
    assert [] + bs == bs;
  }

  /** What is left over in a buffer that can take the fixed part of a header. */
  lemma SettleSized(s: Setting, max: nat, b: nat, size: nat, rest: seq<Byte>)
    requires Sane(s) && s.LengthField? && s.bodyOffset <= b && Sized(s, max, b, size) && 0 < size
    requires |rest| <= size && First(s, rest).More?
    ensures var d := Settle(s, max, size, rest);
            d.Live? ==> && Sized(s, max, b, d.size) && 0 < d.size && |d.rest| <= d.size
                        && (|d.rest| == d.size ==> s.coding.Varint? && d.size < s.fieldOffset + 10)
  {
    if rest != [] && Need(s, rest) > size {
      var n := Need(s, rest);
      KnownAnnounced(s, rest, size);
      if n <= max {
        assert Announces(s, size, n);
        assert size == b ==> Stretches(s, max, b);
      }
    }
  }

  lemma HungSized(s: Setting, max: nat, size0: nat, size: nat, bs: seq<Byte>)
    requires Sane(s) && s.LengthField? && Begins(s, max, size0) && Sized(s, max, FirstSize(s, max, size0), size)
    requires |bs| <= size && Split(s, bs).end.Stuck?
    ensures MayHang(s, max, size0)
  {
    StuckRest(s, bs);
    KnownAnnounced(s, Split(s, bs).rest, size);
    if size != FirstSize(s, max, size0) {
      AnnouncesMore(s, size, max, 0);
    }
  }

  lemma InvBegun(s: Setting, max: nat, size0: nat, c: Conn, chunk: seq<Byte>)
    requires Sane(s) && s.LengthField? && Inv(s, max, size0, c) && Fits(c, chunk) && c.size < s.bodyOffset
    ensures Inv(s, max, size0, Next(s, max, c.size, c.rest, chunk))
  {
    assert c == Live(size0, []);
    FirstGrowth(s, max, size0, chunk);
  }

  lemma InvGoesOn(s: Setting, max: nat, size0: nat, c: Conn, chunk: seq<Byte>)
    requires Sane(s) && s.LengthField? && Inv(s, max, size0, c) && Fits(c, chunk) && s.bodyOffset <= c.size
    ensures Inv(s, max, size0, Next(s, max, c.size, c.rest, chunk))
  {
    var bs, b := c.rest + chunk, FirstSize(s, max, size0);
    assert Begins(s, max, size0) && Sized(s, max, b, c.size);
    RestWithin(s, bs);
    if Split(s, bs).end.Stuck? {
      HungSized(s, max, size0, c.size, bs);
    } else if Split(s, bs).end.Open? {
      SettleSized(s, max, b, c.size, Split(s, bs).rest);
    }
  }

  lemma InvKept(s: Setting, max: nat, size0: nat, c: Conn, chunk: seq<Byte>)
    requires Sane(s) && Inv(s, max, size0, c) && Fits(c, chunk)
    ensures Inv(s, max, size0, Next(s, max, c.size, c.rest, chunk))
  {
    if s.LengthField? && c.size < s.bodyOffset {
      InvBegun(s, max, size0, c, chunk);
    } else if s.LengthField? {
      InvGoesOn(s, max, size0, c, chunk);
    } else {
      RestWithin(s, c.rest + chunk);
      SafeNeverStuck(s, c.rest + chunk);
    }
  }

  lemma {:induction false} InvAlways(s: Setting, max: nat, size0: nat, c: Conn, chunks: seq<seq<Byte>>, d: Conn)
    requires Sane(s) && Inv(s, max, size0, c) && Reads(s, max, c, chunks, d)
    ensures Inv(s, max, size0, d)
    decreases |chunks|
  {
    if |chunks| == 0 {
    } else {
      InvKept(s, max, size0, c, chunks[0]);
      InvAlways(s, max, size0, Next(s, max, c.size, c.rest, chunks[0]), chunks[1..], d);
    }
  }

  /** In every run the conditions hold before the buffer is full and before the call hangs. */
  lemma RunSafe(s: Setting, max: nat, size: nat, d: Conn)
    requires Opened(s, max, size) && Reachable(s, max, size, d)
    ensures Inv(s, max, size, d)
  {
    var chunks :| Reads(s, max, Live(size, []), chunks, d);
    InvAlways(s, max, size, Live(size, []), chunks, d);
  }

  // ---------------------------------------------------------------- a run that hangs

  /** A header announces n, the buffer grows, and the package is completed. */
  lemma ReadStretch(s: Setting, max: nat, b: nat, n: nat) returns (bs: seq<Byte>, fill: seq<Byte>)
    requires Sane(s) && s.LengthField? && 0 < b && 0 < s.bodyOffset && b < n <= max && Announces(s, b, n)
    ensures s.bodyOffset <= |bs| && Fits(Live(b, []), bs) && Next(s, max, b, [], bs) == Live(Wider(n, b, max), bs)
    ensures Fits(Live(Wider(n, b, max), bs), fill)
    ensures Next(s, max, Wider(n, b, max), bs, fill) == Live(Wider(n, b, max), [])
  {
    bs := HeaderFor(s, b, n);
    fill := Zeros(n - |bs|);
    assert [] + bs == bs;
    FieldLengthMore(s, bs, fill);
    Completes(s, bs + fill);
  }

  lemma Completes(s: Setting, bs: seq<Byte>)
    requires Sane(s) && s.LengthField? && 0 < s.bodyOffset && bs != [] && FieldLength(s, bs) == Known(|bs|)
    ensures Split(s, bs).end.Open? && Split(s, bs).rest == []
  {
    SplitFirst(s, bs, |bs|, []);
  }

  /** What stretches a buffer stretches the larger one as well, unless five bytes of varint or the limit are
      reached: one more byte of varint announces one byte more than it holds. */
  lemma StretchesOn(s: Setting, max: nat, b: nat, n: nat)
    requires Sane(s) && s.LengthField? && s.coding.Varint? && max < MODULUS
    requires b < n <= max && Announces(s, b, n) && Wider(n, b, max) < max && Wider(n, b, max) < s.fieldOffset + 5
    ensures Stretches(s, max, Wider(n, b, max))
  {
    var b' := Wider(n, b, max);
    var k :| VarintAnnounces(s, n, k) && s.fieldOffset + k <= b;
    OneMore(s, n, k, b' - n);
    assert Announces(s, b', b' + 1);
  }

  lemma OneMore(s: Setting, n: nat, k: nat, d: nat)
    requires Sane(s) && s.LengthField? && s.coding.Varint? && VarintAnnounces(s, n, k) && k < 5 && d < 5
    requires n + d + 1 < MODULUS
    ensures VarintAnnounces(s, n + d + 1, k + 1)
  {
    var h := s.bodyOffset + k - s.fieldBytes;
    var x := BodyFor(n, h, s.adjustment);
    ModAtMost(x + d, MODULUS);
    assert BodyFor(n + d + 1, h + 1, s.adjustment) == (x + d) % MODULUS;
    assert Pow128(k + 1) == 128 * Pow128(k);
  }

  lemma {:induction false} HangFrom(s: Setting, max: nat, b: nat) returns (bs: seq<Byte>, chunks: seq<seq<Byte>>)
    requires Sane(s) && s.LengthField? && s.bodyOffset <= b && 0 < b && max < MODULUS
    requires Announces(s, b, 0) || (Stretches(s, max, b) && Announces(s, max, 0))
    ensures s.bodyOffset <= |bs| && Reads(s, max, Live(b, []), [bs] + chunks, Hung)
    decreases max - b
  {
    if Announces(s, b, 0) {
      bs := HeaderFor(s, b, 0);
      chunks := [];
      assert [] + bs == bs;
      ReadsThen(s, max, Live(b, []), bs, Hung, [], Hung);
    } else {
      var n :| b < n <= max && Announces(s, b, n);
      var fill;
      bs, fill := ReadStretch(s, max, b, n);
      var b' := Wider(n, b, max);
      HangStill(s, max, b, n);
      var bs', chunks' := HangFrom(s, max, b');
      ReadsThen(s, max, Live(b', bs), fill, Live(b', []), [bs'] + chunks', Hung);
      chunks := [fill] + ([bs'] + chunks');
      ReadsThen(s, max, Live(b, []), bs, Live(b', bs), chunks, Hung);
    }
  }

  lemma HangStill(s: Setting, max: nat, b: nat, n: nat)
    requires Sane(s) && s.LengthField? && s.bodyOffset <= b && 0 < b && max < MODULUS
    requires !Announces(s, b, 0) && b < n <= max && Announces(s, b, n) && Announces(s, max, 0)
    ensures s.coding.Varint? && b < Wider(n, b, max) <= max
    ensures Announces(s, Wider(n, b, max), 0) || Stretches(s, max, Wider(n, b, max))
  {
    var b' := Wider(n, b, max);
    if b' == max {
    } else if b' >= s.fieldOffset + 5 {
      FiveAnnounce(s, b', 0);
    } else {
      StretchesOn(s, max, b, n);
    }
  }

  /** The first read of a run, in two. */
  lemma InTwo(s: Setting, max: nat, b: nat, x: seq<Byte>, y: seq<Byte>, chunks: seq<seq<Byte>>, d: Conn)
    requires Sane(s) && 0 < |y| && Reads(s, max, Live(b, []), [x + y] + chunks, d)
    ensures Reads(s, max, Live(b, x), [y] + chunks, d)
  {
    var all := [x + y] + chunks;
    assert all[0] == x + y && all[1..] == chunks;
    assert [] + (x + y) == x + y;
    ReadsThen(s, max, Live(b, x), y, Next(s, max, b, [], x + y), chunks, d);
  }

  /** A stream that begins with one byte, with which the buffer grows, and then goes on as before. */
  lemma ByteFirst(s: Setting, max: nat, size: nat, bs: seq<Byte>, chunks: seq<seq<Byte>>, d: Conn)
    requires Sane(s) && s.LengthField? && 0 < size < s.bodyOffset <= max && s.bodyOffset <= |bs|
    requires Reads(s, max, Live(Wider(s.bodyOffset, size, max), []), [bs] + chunks, d)
    ensures Reads(s, max, Live(size, []), [bs[..1]] + ([bs[1..]] + chunks), d)
  {
    var b, x, y := Wider(s.bodyOffset, size, max), bs[..1], bs[1..];
    assert bs == x + y;
    InTwo(s, max, b, x, y, chunks, d);
    FirstGrowth(s, max, size, x);
    ReadsThen(s, max, Live(size, []), x, Live(b, x), [y] + chunks, d);
  }

  lemma Hangs(s: Setting, max: nat, size: nat)
    requires Opened(s, max, size) && MayHang(s, max, size)
    ensures Reachable(s, max, size, Hung)
  {
    var bs, chunks := HangFrom(s, max, FirstSize(s, max, size));
    if size < s.bodyOffset {
      ByteFirst(s, max, size, bs, chunks, Hung);
    }
  }

  /** Some run hangs exactly under the condition. */
  lemma HangsIff(s: Setting, max: nat, size: nat)
    requires Opened(s, max, size)
    ensures Reachable(s, max, size, Hung) <==> MayHang(s, max, size)
  {
    if Reachable(s, max, size, Hung) {
      RunSafe(s, max, size, Hung);
    }
    if MayHang(s, max, size) {
      Hangs(s, max, size);
    }
  }

  /** With a fixed-width field the condition is that it can announce a package of length zero and that a header
      can be read at all; four bytes always can. */
  lemma FixedWidthHangsIff(s: Setting, max: nat, size: nat)
    requires Opened(s, max, size) && s.LengthField? && !s.coding.Varint?
    ensures Reachable(s, max, size, Hung) <==> !Safe(s) && Begins(s, max, size)
    ensures s.fieldBytes == 4 ==> !Safe(s)
  {
    HangsIff(s, max, size);
    if s.fieldBytes == 4 {
      FourAnnounce(s, s.bodyOffset, 0);
    }
  }

  /** With varints it is enough that five bytes of them fit the buffer. */
  lemma VarintHangs(s: Setting, max: nat, size: nat)
    requires Opened(s, max, size) && s.LengthField? && s.coding.Varint? && Begins(s, max, size)
    requires s.fieldOffset + 5 <= FirstSize(s, max, size)
    ensures Reachable(s, max, size, Hung)
  {
    FiveAnnounce(s, FirstSize(s, max, size), 0);
    HangsIff(s, max, size);
  }

  // ---------------------------------------------------------------- a run that fills the buffer

  lemma {:induction false} AllContinue(n: nat, k: nat)
    requires k + n < 10
    ensures VarintScan(Filling(n), k).Incomplete?
    decreases n
  {
    if n == 0 {
    } else {
      assert Filling(n)[1..] == Filling(n - 1);
      AllContinue(n - 1, k + 1);
    }
  }

  /** Bytes that all say that the varint goes on. */
  function Filling(size: nat): (bs: seq<Byte>)
    ensures |bs| == size
  {
    seq(size, _ => 255)
  }

  lemma FillingFills(s: Setting, max: nat, b: nat, rest: seq<Byte>, chunk: seq<Byte>)
    requires Sane(s) && s.LengthField? && s.coding.Varint? && s.bodyOffset <= b < s.fieldOffset + 10
    requires rest + chunk == Filling(b)
    ensures Next(s, max, b, rest, chunk) == Live(b, Filling(b))
  {
    assert Filling(b)[s.fieldOffset..] == Filling(b - s.fieldOffset);
    AllContinue(b - s.fieldOffset, 0);
  }

  lemma Fills(s: Setting, max: nat, size: nat)
    requires Opened(s, max, size) && MayFill(s, max, size)
    ensures var b := FirstSize(s, max, size); Reachable(s, max, size, Live(b, Filling(b)))
  {
    var b := FirstSize(s, max, size);
    var d := Live(b, Filling(b));
    assert [] + Filling(b) == Filling(b);
    FillingFills(s, max, b, [], Filling(b));
    ReadsThen(s, max, Live(b, []), Filling(b), d, [], d);
    if size < s.bodyOffset {
      ByteFirst(s, max, size, Filling(b), [], d);
    } else {
      assert Reads(s, max, Live(size, []), [Filling(b)] + [], d);
    }
  }

  /** In some run the buffer is full with the connection open, exactly under the condition. */
  lemma FillsIff(s: Setting, max: nat, size: nat)
    requires Opened(s, max, size)
    ensures (exists c :: Reachable(s, max, size, c) && c.Live? && |c.rest| == c.size) <==> MayFill(s, max, size)
  {
    if c :| Reachable(s, max, size, c) && c.Live? && |c.rest| == c.size {
      RunSafe(s, max, size, c);
    }
    if MayFill(s, max, size) {
      Fills(s, max, size);
    }
  }
}
