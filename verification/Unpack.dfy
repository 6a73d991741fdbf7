/** The unpacker of event/unpack.c: packages are cut out of a connection's read buffer as bytes arrive. */
module Unpack {
  import opened Bytes
  import opened Sequences
  import opened UnpackRuns
  import opened UnpackSafety
  import opened UnpackSpec

  /** One more package off the front. */
  lemma SplitNext(s: Setting, all: seq<Byte>, p: nat, q: nat, sofar: seq<seq<Byte>>)
    requires Sane(s) && p < q <= |all| && First(s, all[p..]) == Package(q - p)
    ensures Behind(sofar + [all[p..q]], Split(s, all[q..])) == Behind(sofar, Split(s, all[p..]))
  {
    assert all[p..][..q - p] == all[p..q] && all[p..][q - p..] == all[q..];
    SplitFirst(s, all[p..], q - p, all[q..]);
    BehindPrepend(sofar, all[p..q], Split(s, all[q..]));
  }

  lemma BehindPrepend(sofar: seq<seq<Byte>>, q: seq<Byte>, c: Cut)
    ensures Behind(sofar + [q], c) == Behind(sofar, Prepend(q, c))
  {
    assert sofar + [q] + c.packages == sofar + ([q] + c.packages);
  }

  lemma SplitOver(s: Setting, all: seq<Byte>, p: nat, sofar: seq<seq<Byte>>)
    requires Sane(s) && p <= |all| && First(s, all[p..]).More?
    ensures Behind(sofar, Split(s, all[p..])) == Cut(sofar, all[p..], Open)
  {
    assert sofar + [] == sofar;
  }

  lemma SplitRefused(s: Setting, all: seq<Byte>, p: nat, sofar: seq<seq<Byte>>)
    requires Sane(s) && p <= |all| && First(s, all[p..]).Unreadable?
    ensures Behind(sofar, Split(s, all[p..])) == Cut(sofar, all[p..], Refused)
  {
    assert sofar + [] == sofar;
  }

  lemma SplitStuck(s: Setting, all: seq<Byte>, p: nat, sofar: seq<seq<Byte>>)
    requires Sane(s) && p <= |all| && First(s, all[p..]) == Package(0)
    ensures Behind(sofar, Split(s, all[p..])) == Cut(sofar, all[p..], Stuck)
  {
    assert sofar + [] == sofar;
  }

  lemma BehindNone(s: Setting, all: seq<Byte>)
    requires Sane(s)
    ensures Behind([], Split(s, all[0..])) == Split(s, all)
  {
    assert all[0..] == all;
    assert [] + Split(s, all).packages == Split(s, all).packages;
  }

  /** An `hio_t` as far as unpacking is concerned; `delivered` records the read callbacks. */
  class Reader {
    const setting: Setting
    const max: nat
    var base: array<Byte>
    var offset: nat
    var closed: bool
    /** The loop of `hio_unpack_by_length_field` is caught: every turn from now on repeats the last one, and
        the call does not return. */
    var hung: bool
    var delivered: seq<seq<Byte>>
    ghost var stream: seq<Byte>

    /** What has been delivered and what the buffer holds is the whole stream cut up. */
    ghost predicate Valid() reads this, base {
      && Sane(setting) && offset <= base.Length
      && delivered == Split(setting, stream).packages
      && (!closed && !hung ==> base[..offset] == Split(setting, stream).rest)
      && (!closed && !hung && stream != [] ==> Split(setting, stream).end.Open?)
    }

    /** The connection, its buffer and what is in it. */
    ghost function Now(): (c: Conn)
      requires offset <= base.Length
      reads this, base
    {
      if hung then Hung else if closed then Closed else Live(base.Length, base[..offset])
    }

    /** `hio_set_unpack`. */
    constructor (s: Setting, packageMax: nat, size: nat)
      requires Sane(s) && size > 0 && (s.Fixed? ==> size == s.length)
      ensures Valid() && setting == s && max == packageMax && base.Length == size && offset == 0 && !closed && !hung
      ensures stream == [] && delivered == [] && fresh(base) && Now() == Live(size, [])
    {
      setting, max := s, packageMax;
      base := new Byte[size];
      offset, closed, hung, delivered, stream := 0, false, false, [], [];
      SplitNothing(s);
    }

    /** `safe_realloc`. */
    method Grow(size: nat)
      requires offset <= base.Length <= size
      modifies this`base
      ensures fresh(base) && base.Length == size && base[..offset] == old(base[..offset])
    {
      var bigger := new Byte[size];
      for i := 0 to offset
        invariant fresh(bigger) && base == old(base) && bigger[..i] == base[..i]
      {
        bigger[i] := base[i];
      }
      base := bigger;
    }

    /** The rest of the bytes goes to the front. */
    method Keep(p: nat, total: nat)
      requires p <= total <= base.Length
      modifies this`offset, base
      ensures offset == total - p && base[..offset] == old(base[p..total])
    {
      var remain := total - p;
      offset := remain;
      if remain > 0 && p != 0 {
        MoveDown(base, p, remain);
      }
      assert p == 0 ==> base[..remain] == base[p..total];
    }

    /** One read callback, for the bytes from p up to q. */
    method Deliver(p: nat, q: nat, total: nat, ghost all: seq<Byte>, ghost sofar: seq<seq<Byte>>,
                   ghost was: seq<seq<Byte>>)
      returns (ghost now: seq<seq<Byte>>)
      requires delivered == was + sofar
      requires Sane(setting) && p < q <= total <= base.Length && all == base[..total]
      requires First(setting, all[p..]) == Package(q - p)
      modifies this`delivered
      ensures delivered == was + now
      ensures Behind(now, Split(setting, all[q..])) == Behind(sofar, Split(setting, all[p..]))
    {
      SplitNext(setting, all, p, q, sofar);
      now := sofar + [all[p..q]];
      assert base[..total][p..q] == base[p..q];
      assert was + sofar + [all[p..q]] == was + now;
      delivered := delivered + [base[p..q]];
    }

    lemma Over(p: nat, total: nat, all: seq<Byte>, sofar: seq<seq<Byte>>)
      requires Sane(setting) && p <= total <= base.Length && all == base[..total] && First(setting, all[p..]).More?
      ensures Behind(sofar, Split(setting, all[p..])) == Cut(sofar, base[p..total], Open)
    {
      SplitOver(setting, all, p, sofar);
      assert base[p..total] == all[p..];
    }

    /** The loop of `hio_unpack_by_fixed_length` over the first `total` bytes of the buffer. */
    method CutFixed(total: nat) returns (p: nat)
      requires Sane(setting) && setting.Fixed? && total <= base.Length
      modifies this`delivered
      ensures p <= total && total - p < setting.length
      ensures Split(setting, base[..total]).end.Open? && Split(setting, base[..total]).rest == base[p..total]
      ensures delivered == old(delivered) + Split(setting, base[..total]).packages
    {
      var n := setting.length;
      p := 0;
      var remain := total;
      ghost var all, sofar, was := base[..total], [], delivered;
      BehindNone(setting, all);
      while remain >= n
        invariant 0 <= p && 0 <= remain && p + remain == total
        invariant delivered == was + sofar
        invariant Behind(sofar, Split(setting, all[p..])) == Split(setting, all)
        decreases remain
      {
        sofar := Deliver(p, p + n, total, all, sofar, was);
        p := p + n;
        remain := remain - n;
      }
      Over(p, total, all, sofar);
    }

    /** `hio_unpack_by_fixed_length`. */
    method UnpackFixed(readbytes: nat, ghost all: seq<Byte>)
      requires Sane(setting) && setting.Fixed? && base.Length >= setting.length && offset + readbytes <= base.Length
      requires !closed && !hung
      requires all == base[..offset + readbytes]
      modifies this`offset, this`delivered, base
      ensures delivered == old(delivered) + Split(setting, all).packages
      ensures offset <= base.Length && Now() == After(setting, max, base.Length, all)
    {
      var total := offset + readbytes;
      var p := CutFixed(total);
      Keep(p, total);
    }

    // -------------------------------------------------------------- delimiters

    /** The byte comparison at p. */
    method Matches(d: seq<Byte>, p: nat, total: nat) returns (yes: bool)
      requires p + |d| <= total <= base.Length
      ensures yes == DelimiterAt(d, base[..total], p)
    {
      assert base[..total][p..p + |d|] == base[p..p + |d|];
      for i := 0 to |d|
        invariant base[p..p + i] == d[..i]
      {
        if base[p + i] != d[i] {
          assert base[p..p + |d|][i] != d[i];
          return false;
        }
        assert base[p..p + i + 1] == base[p..p + i] + [base[p + i]];
        assert d[..i + 1] == d[..i] + [d[i]];
      }
      assert d[..|d|] == d;
      return true;
    }

    /** The loop of `hio_unpack_by_delimiter`: the search begins where a delimiter could first end in a new
        byte. Returns where the unread part begins. */
    method CutDelimiter(total: nat, from: nat) returns (sp: nat)
      requires Sane(setting) && setting.Delimiter? && from <= total <= base.Length
      requires NoneIn(setting.text, base[..total], 0, from)
      modifies this`delivered
      ensures sp <= total
      ensures Split(setting, base[..total]).end.Open? && Split(setting, base[..total]).rest == base[sp..total]
      ensures delivered == old(delivered) + Split(setting, base[..total]).packages
    {
      var d := setting.text;
      sp := 0;
      var p, remain := from, total - from;
      ghost var all, sofar, was := base[..total], [], delivered;
      BehindNone(setting, all);
      while remain >= |d|
        invariant sp <= p <= total && p + remain == total
        invariant delivered == was + sofar
        invariant NoneIn(d, all, sp, p)
        invariant Behind(sofar, Split(setting, all[sp..])) == Split(setting, all)
        decreases remain
      {
        var n;
        n, sp, sofar := TakeDelimited(sp, p, total, all, sofar, was);
        p := p + n;
        remain := remain - n;
      }
      NoDelimiter(setting, all, sp, p);
      Over(sp, total, all, sofar);
    }

    /** One turn of that loop: p goes on by n bytes. */
    method TakeDelimited(sp: nat, p: nat, total: nat, ghost all: seq<Byte>, ghost sofar: seq<seq<Byte>>,
                         ghost was: seq<seq<Byte>>)
      returns (n: nat, sp': nat, ghost now: seq<seq<Byte>>)
      requires delivered == was + sofar
      requires Sane(setting) && setting.Delimiter? && sp <= p && p + |setting.text| <= total <= base.Length
      requires all == base[..total]
      requires NoneIn(setting.text, all, sp, p)
      modifies this`delivered
      ensures 0 < n <= |setting.text| && sp' <= p + n && NoneIn(setting.text, all, sp', p + n)
      ensures delivered == was + now
      ensures Behind(now, Split(setting, all[sp'..])) == Behind(sofar, Split(setting, all[sp..]))
    {
      var d := setting.text;
      var yes := Matches(d, p, total);
      if yes {
        FirstDelimiter(setting, all, sp, p);
        n, sp' := |d|, p + |d|;
        now := Deliver(sp, sp', total, all, sofar, was);
      } else {
        n, sp', now := 1, sp, sofar;
        NoneStep(d, all, sp, p);
      }
    }

    /** `hio_unpack_by_delimiter`. */
    method UnpackDelimiter(readbytes: nat, ghost all: seq<Byte>)
      requires Sane(setting) && setting.Delimiter? && offset + readbytes <= base.Length && !closed && !hung
      requires First(setting, base[..offset]).More?
      requires all == base[..offset + readbytes]
      modifies this`offset, this`delivered, this`closed, this`base, base
      ensures base == old(base) || fresh(base)
      ensures delivered == old(delivered) + Split(setting, all).packages
      ensures offset <= base.Length && base.Length >= old(base.Length)
      ensures Now() == After(setting, max, old(base.Length), all)
    {
      assert all[..offset] == base[..offset];
      var from := SearchFrom(all);
      SearchDelimiter(offset + readbytes, from, all);
      if offset > 0 && offset == base.Length {
        if base.Length >= max {
          closed := true;
          return;
        }
        Grow(if base.Length * 2 < max then base.Length * 2 else max);
      }
    }

    /** Where the search begins: a delimiter that begins before would end in the old bytes. */
    method SearchFrom(ghost all: seq<Byte>) returns (from: nat)
      requires Sane(setting) && setting.Delimiter? && offset <= |all| && First(setting, all[..offset]).More?
      ensures from <= |all| && NoneIn(setting.text, all, 0, from)
    {
      var n := |setting.text|;
      from := if offset + 1 < n then 0 else offset + 1 - n;
      NoneBefore(setting, all, offset, from);
    }

    method SearchDelimiter(total: nat, from: nat, ghost all: seq<Byte>)
      requires Sane(setting) && setting.Delimiter? && from <= total <= base.Length && all == base[..total]
      requires NoneIn(setting.text, all, 0, from)
      modifies this`offset, this`delivered, base
      ensures Split(setting, all).end.Open? && delivered == old(delivered) + Split(setting, all).packages
      ensures offset <= base.Length && base[..offset] == Split(setting, all).rest
    {
      var sp := CutDelimiter(total, from);
      Keep(sp, total);
    }

    // -------------------------------------------------------------- length fields

    /** The length of the package that begins at p. */
    method Measure(p: nat, total: nat) returns (r: Length)
      requires Sane(setting) && setting.LengthField? && p <= total <= base.Length && total - p >= setting.bodyOffset
      ensures r == FieldLength(setting, base[..total][p..])
    {
      var bs := base[p..total];
      assert base[..total][p..] == bs;
      var off, n := setting.fieldOffset, setting.fieldBytes;
      var body: nat;
      match setting.coding {
        case Big =>
          body := ReadBig(bs[off..off + n]);
          r := Known(Announced(setting.bodyOffset, body, setting.adjustment));
        case Little =>
          body := ReadLittle(bs[off..off + n]);
          r := Known(Announced(setting.bodyOffset, body, setting.adjustment));
        case Varint =>
          var size;
          size, body := VarintDecode(bs[off..]);
          match size {
            case Complete(k) => r := Known(Announced(setting.bodyOffset + k - n, body, setting.adjustment));
            case Incomplete => r := Unknown;
            case TooLong => r := Overlong;
          }
      }
    }

    /** The loop of `hio_unpack_by_length_field`. Returns where the unread part begins, the last length that
        was computed, and how the loop ended; `Stuck` when it does not. */
    method CutField(total: nat) returns (p: nat, packageLen: nat, end: End)
      requires Sane(setting) && setting.LengthField? && total <= base.Length
      modifies this`delivered
      ensures p <= total && delivered == old(delivered) + Split(setting, base[..total]).packages
      ensures Split(setting, base[..total]).rest == base[p..total] && end == Split(setting, base[..total]).end
      ensures end.Open? ==> Wanted(setting, base[p..total], p, packageLen)
      ensures p > 0 ==> setting.bodyOffset <= total
    {
      p, packageLen, end := 0, setting.bodyOffset, Open;
      ghost var all, sofar, was := base[..total], [], delivered;
      BehindNone(setting, all);
      while total - p >= setting.bodyOffset
        invariant p <= total && delivered == was + sofar
        invariant Behind(sofar, Split(setting, all[p..])) == Split(setting, all)
        invariant if p == 0 then packageLen == setting.bodyOffset else packageLen <= p && setting.bodyOffset <= total
        decreases total - p
      {
        var turn;
        turn, p, packageLen, sofar := TakeField(p, total, packageLen, all, sofar, was);
        if turn != Delivered {
          end := EndOf(turn);
          break;
        }
      }
      Ended(p, total, all, sofar, end);
    }

    lemma Ended(p: nat, total: nat, all: seq<Byte>, sofar: seq<seq<Byte>>, end: End)
      requires Sane(setting) && p <= total <= base.Length && all == base[..total]
      requires match end
               case Open => First(setting, all[p..]).More?
               case Refused => First(setting, all[p..]).Unreadable?
               case Stuck => First(setting, all[p..]) == Package(0)
      ensures Behind(sofar, Split(setting, all[p..])) == Cut(sofar, base[p..total], end) && base[p..total] == all[p..]
    {
      assert base[p..total] == all[p..];
      match end
      case Open => SplitOver(setting, all, p, sofar);
      case Refused => SplitRefused(setting, all, p, sofar);
      case Stuck => SplitStuck(setting, all, p, sofar);
    }

    /** One turn of that loop. A turn on a package of length zero leaves p where it was, so that the next turn
        is the same again. */
    method TakeField(p: nat, total: nat, packageLen: nat,
                     ghost all: seq<Byte>, ghost sofar: seq<seq<Byte>>, ghost was: seq<seq<Byte>>)
      returns (turn: Turn, p': nat, packageLen': nat, ghost now: seq<seq<Byte>>)
      requires delivered == was + sofar
      requires Sane(setting) && setting.LengthField? && p <= total <= base.Length && all == base[..total]
      requires total - p >= setting.bodyOffset
      modifies this`delivered
      ensures delivered == was + now
      ensures turn.Delivered? ==> p < p' <= total && packageLen' <= p'
      ensures turn.Delivered? ==> Behind(now, Split(setting, all[p'..])) == Behind(sofar, Split(setting, all[p..]))
      ensures !turn.Delivered? ==> p' == p && now == sofar && Rests(setting, all[p..], turn, packageLen, packageLen')
    {
      ghost var rest := all[p..];
      var r := Measure(p, total);
      turn := TurnOf(r, total - p);
      packageLen' := if r.Known? then r.n else packageLen;
      if turn == Delivered {
        p' := p + r.n;
        now := TakeKnown(p, p', total, all, sofar, was);
      } else {
        p', now := p, sofar;
        Undelivered(setting, rest, r, turn, packageLen, packageLen');
      }
    }

    /** A package of known length that is all there. */
    method TakeKnown(p: nat, q: nat, total: nat,
                     ghost all: seq<Byte>, ghost sofar: seq<seq<Byte>>, ghost was: seq<seq<Byte>>)
      returns (ghost now: seq<seq<Byte>>)
      requires delivered == was + sofar
      requires Sane(setting) && setting.LengthField? && p < q <= total <= base.Length && all == base[..total]
      requires FieldLength(setting, all[p..]) == Known(q - p)
      modifies this`delivered
      ensures delivered == was + now
      ensures Behind(now, Split(setting, all[q..])) == Behind(sofar, Split(setting, all[p..]))
    {
      now := Deliver(p, q, total, all, sofar, was);
    }

    /** `hio_unpack_by_length_field`. */
    method UnpackField(readbytes: nat, ghost all: seq<Byte>)
      requires Sane(setting) && setting.LengthField? && offset + readbytes <= base.Length && !closed && !hung
      requires all == base[..offset + readbytes]
      modifies this`offset, this`delivered, this`closed, this`hung, this`base, base
      ensures base == old(base) || fresh(base)
      ensures delivered == old(delivered) + Split(setting, all).packages
      ensures offset <= base.Length && base.Length >= old(base.Length)
      ensures Now() == After(setting, max, old(base.Length), all)
    {
      var total := offset + readbytes;
      var p, packageLen, end := CutField(total);
      match end {
        case Stuck => hung := true;
        case Refused => closed := true;
        case Open => KeepField(p, total, packageLen);
      }
    }

    /** The rest goes to the front, and the buffer is made large enough for the package that has begun. */
    method KeepField(p: nat, total: nat, packageLen: nat)
      requires Sane(setting) && setting.LengthField? && p <= total <= base.Length && !closed && !hung
      requires Wanted(setting, base[p..total], p, packageLen) && (p > 0 ==> setting.bodyOffset <= total)
      modifies this`offset, this`closed, this`base, base
      ensures base == old(base) || fresh(base)
      ensures offset <= base.Length && base.Length >= old(base.Length)
      ensures Now() == Settle(setting, max, old(base.Length), old(base[p..total]))
    {
      RestNeeds(setting, base.Length, base[p..total], p, packageLen);
      Keep(p, total);
      if offset > 0 && packageLen > base.Length {
        if packageLen > max {
          closed := true;
          return;
        }
        var doubled := base.Length * 2;
        Grow(if doubled < packageLen then packageLen else if doubled > max then max else doubled);
      }
    }

    // -------------------------------------------------------------- bytes arrive

    /** The read itself. */
    method Store(chunk: seq<Byte>)
      requires offset + |chunk| <= base.Length
      modifies base
      ensures base[..offset + |chunk|] == old(base[..offset]) + chunk
    {
      for i := 0 to |chunk|
        invariant base[..offset + i] == old(base[..offset]) + chunk[..i]
      {
        ghost var before := base[..offset + i];
        base[offset + i] := chunk[i];
        assert base[..offset + i] == before;
        assert base[..offset + i + 1] == before + [chunk[i]];
        assert chunk[..i + 1] == chunk[..i] + [chunk[i]];
      }
      assert chunk[..|chunk|] == chunk;
    }

    /** `hio_unpack`, for the bytes all that the buffer holds now. */
    method Unpack(readbytes: nat, ghost all: seq<Byte>)
      requires Sane(setting) && !closed && !hung && offset + readbytes <= base.Length
      requires setting.Fixed? ==> base.Length >= setting.length
      requires all == base[..offset + readbytes] && (setting.Delimiter? ==> First(setting, base[..offset]).More?)
      modifies this`offset, this`delivered, this`closed, this`hung, this`base, base
      ensures base == old(base) || fresh(base)
      ensures delivered == old(delivered) + Split(setting, all).packages
      ensures offset <= base.Length && base.Length >= old(base.Length)
      ensures Now() == After(setting, max, old(base.Length), all)
    {
      match setting {
        case Fixed(_) => UnpackFixed(readbytes, all);
        case Delimiter(_) => UnpackDelimiter(readbytes, all);
        case LengthField(_, _, _, _, _) => UnpackField(readbytes, all);
      }
    }

    /** A read of any size that fits the buffer, followed by `hio_unpack`. The call hangs exactly on a stream
        with a package of length zero, and never for a safe setting. */
    method Receive(chunk: seq<Byte>)
      requires Valid() && !closed && !hung && offset + |chunk| <= base.Length
      requires setting.Fixed? ==> base.Length >= setting.length
      modifies this, base
      ensures Valid() && stream == old(stream) + chunk && base.Length >= old(base.Length)
      ensures base == old(base) || fresh(base)
      ensures Now() == Next(setting, max, old(base.Length), old(base[..offset]), chunk)
      ensures hung <==> Split(setting, stream).end.Stuck?
      ensures Safe(setting) ==> !hung
    {
      ghost var rest := base[..offset];
      StreamMore(setting, stream, chunk);
      Store(chunk);
      assert base[..offset + |chunk|][..offset] == rest;
      assert base[..offset] == base[..offset + |chunk|][..offset];
      Unpack(|chunk|, rest + chunk);
      stream := stream + chunk;
      AfterEnd(setting, max, old(base.Length), rest + chunk);
      if Safe(setting) {
        SafeNeverStuck(setting, stream);
      }
    }

    /** One read after the other. */
    method ReceiveAll(chunks: seq<seq<Byte>>, ghost d: Conn)
      requires Valid() && Reads(setting, max, Now(), chunks, d)
      requires setting.Fixed? ==> base.Length >= setting.length
      modifies this, base
      ensures Valid() && stream == old(stream) + Flat(chunks) && Now() == d
      ensures base == old(base) || fresh(base)
    {
      assert chunks[0..] == chunks;
      for i := 0 to |chunks|
        invariant Valid() && Reads(setting, max, Now(), chunks[i..], d) && base.Length >= old(base.Length)
        invariant base == old(base) || fresh(base)
        invariant stream == old(stream) + Flat(chunks[..i])
      {
        assert chunks[i..][0] == chunks[i] && chunks[i..][1..] == chunks[i + 1..];
        FlatNext(chunks, i, old(stream));
        Receive(chunks[i]);
      }
      assert chunks[..|chunks|] == chunks;
    }
  }

  lemma FlatNext(chunks: seq<seq<Byte>>, i: nat, a: seq<Byte>)
    requires i < |chunks|
    ensures a + Flat(chunks[..i]) + chunks[i] == a + Flat(chunks[..i + 1])
  {
    FlatLast(chunks[..i + 1]);
    assert chunks[..i + 1][..i] == chunks[..i];
  }

  lemma AfterEnd(s: Setting, max: nat, size: nat, bs: seq<Byte>)
    requires Sane(s)
    ensures After(s, max, size, bs).Hung? <==> Split(s, bs).end.Stuck?
    ensures After(s, max, size, bs).Live? ==>
              Split(s, bs).end.Open? && After(s, max, size, bs).rest == Split(s, bs).rest
  {
  }

  // ---------------------------------------------------------------- three runs

  /** A setting and an input that leave no free space: all bytes of the buffer say that the varint goes on. */
  method FullBuffer() returns (r: Reader)
    ensures r.Valid() && r.Now() == Live(8192, Filling(8192))
  {
    var s := LengthField(8191, 8190, 1, 0, Varint);
    r := new Reader(s, 0x20_0000, 8192);
    assert [] + Filling(8192) == Filling(8192);
    FillingFills(s, 0x20_0000, 8192, [], Filling(8192));
    r.Receive(Filling(8192));
  }

  /** The same for a buffer that has grown first, with room for the whole varint before it grew. */
  method FullAfterGrowth() returns (r: Reader)
    ensures r.Valid() && r.Now() == Live(20000, Filling(20000))
  {
    var s := LengthField(20000, 19999, 1, 0, Varint);
    r := new Reader(s, 0x20_0000, 8192);
    FirstGrowth(s, 0x20_0000, 8192, Filling(8192));
    r.Receive(Filling(8192));
    assert Filling(8192) + Filling(11808) == Filling(20000);
    FillingFills(s, 0x20_0000, 20000, Filling(8192), Filling(11808));
    r.Receive(Filling(11808));
  }

  /** With the recommended setting five bytes suffice to hang the loop. */
  method Caught() returns (r: Reader)
    ensures r.hung && r.stream == [0, 255, 255, 255, 251]
  {
    r := new Reader(LengthField(5, 1, 4, 0, Big), 0x20_0000, 8192);
    ZeroLength();
    assert [] + [0, 255, 255, 255, 251] == [0, 255, 255, 255, 251];
    r.Receive([0, 255, 255, 255, 251]);
  }

  // ---------------------------------------------------------------- what the methods use

  lemma SplitNothing(s: Setting)
    requires Sane(s)
    ensures Split(s, []).packages == [] && Split(s, []).rest == []
  {
  }

  /** What a stream leaves over goes in front of what comes next; nothing is cut before the first byte. */
  lemma StreamMore(s: Setting, stream: seq<Byte>, chunk: seq<Byte>)
    requires Sane(s) && (stream != [] ==> Split(s, stream).end.Open?)
    ensures Split(s, stream + chunk) == Behind(Split(s, stream).packages, Split(s, Split(s, stream).rest + chunk))
    ensures s.Delimiter? ==> First(s, Split(s, stream).rest).More?
  {
    if stream == [] {
      SplitNothing(s);
      assert [] + chunk == chunk;
      BehindNone(s, chunk);
      assert chunk[0..] == chunk;
    } else {
      SplitMore(s, stream, chunk);
      RestWithin(s, stream);
    }
  }

  /** How a turn of the loop over a length field ends. */
  datatype Turn = Delivered | Waiting | Endless | Spinning

  /** What the turn does when `left` bytes are left. */
  function TurnOf(r: Length, left: nat): Turn {
    match r
    case Unknown => Waiting
    case Overlong => Endless
    case Known(n) => if left < n then Waiting else if n == 0 then Spinning else Delivered
  }

  function EndOf(t: Turn): End {
    match t
    case Delivered => Open
    case Waiting => Open
    case Endless => Refused
    case Spinning => Stuck
  }

  /** The length that was computed last is too much for the buffer exactly when what is needed is. */
  lemma RestNeeds(s: Setting, size: nat, rest: seq<Byte>, p: nat, packageLen: nat)
    requires s.LengthField? && Sane(s) && Wanted(s, rest, p, packageLen) && p + |rest| <= size
    requires p > 0 ==> s.bodyOffset <= size
    ensures packageLen > size <==> Need(s, rest) > size
    ensures packageLen > size ==> packageLen == Need(s, rest) > |rest|
  {
  }

  /** A turn that delivered nothing: more is needed, or nothing can ever be read, or the package is empty. */
  ghost predicate Rests(s: Setting, rest: seq<Byte>, turn: Turn, before: nat, after: nat)
    requires s.LengthField? && Sane(s)
  {
    match turn
    case Delivered => false
    case Waiting => First(s, rest).More? && Latest(s, rest, before, after)
    case Endless => First(s, rest).Unreadable?
    case Spinning => First(s, rest) == Package(0) && FieldLength(s, rest) == Known(0)
  }

  lemma Undelivered(s: Setting, rest: seq<Byte>, r: Length, turn: Turn, before: nat, after: nat)
    requires s.LengthField? && Sane(s) && r == FieldLength(s, rest)
    requires turn == TurnOf(r, |rest|) != Delivered && after == if r.Known? then r.n else before
    ensures Rests(s, rest, turn, before, after)
  {
  }

  /** The length variable after a turn that delivered nothing. */
  ghost predicate Latest(s: Setting, rest: seq<Byte>, before: nat, after: nat)
    requires s.LengthField? && Sane(s)
  {
    match FieldLength(s, rest)
    case Known(n) => after == n > |rest|
    case Unknown => after == before
    case Overlong => false
  }

  /** What the last computed length says when the input is exhausted: the length of the package that has
      begun, if it is known; else the smallest possible header, or, behind a package, something smaller than
      what has been used. */
  ghost predicate Wanted(s: Setting, rest: seq<Byte>, p: nat, packageLen: nat)
    requires s.LengthField? && Sane(s)
  {
    match FieldLength(s, rest)
    case Known(n) => packageLen == n > |rest|
    case Unknown => if p == 0 then packageLen == s.bodyOffset else packageLen <= p
    case Overlong => false
  }

  /** d does not occur at any place from a up to b. */
  ghost predicate NoneIn(d: seq<Byte>, all: seq<Byte>, a: nat, b: nat) {
    forall i :: a <= i < b ==> !DelimiterAt(d, all, i)
  }

  lemma NoneStep(d: seq<Byte>, all: seq<Byte>, a: nat, p: nat)
    requires NoneIn(d, all, a, p) && !DelimiterAt(d, all, p)
    ensures NoneIn(d, all, a, p + 1)
  {
  }

  lemma DelimiterShift(d: seq<Byte>, all: seq<Byte>, sp: nat, i: nat)
    requires sp <= i && sp <= |all|
    ensures DelimiterAt(d, all, i) == DelimiterAt(d, all[sp..], i - sp)
  {
    if i + |d| <= |all| {
      assert all[i..i + |d|] == all[sp..][i - sp..i - sp + |d|];
    }
  }

  lemma FirstDelimiter(s: Setting, all: seq<Byte>, sp: nat, p: nat)
    requires Sane(s) && s.Delimiter? && sp <= p && DelimiterAt(s.text, all, p)
    requires NoneIn(s.text, all, sp, p)
    ensures First(s, all[sp..]) == Package(p - sp + |s.text|)
  {
    var bs := all[sp..];
    var k := Find(s.text, bs, 0);
    DelimiterShift(s.text, all, sp, p);
    DelimiterShift(s.text, all, sp, sp + k);
  }

  lemma NoDelimiter(s: Setting, all: seq<Byte>, sp: nat, p: nat)
    requires Sane(s) && s.Delimiter? && sp <= p <= |all| < p + |s.text|
    requires NoneIn(s.text, all, sp, p)
    ensures First(s, all[sp..]).More?
  {
    var k := Find(s.text, all[sp..], 0);
    DelimiterShift(s.text, all, sp, sp + k);
  }

  /** A delimiter that begins before `from` would end inside the old bytes, and there is none there. */
  lemma NoneBefore(s: Setting, all: seq<Byte>, offset: nat, from: nat)
    requires Sane(s) && s.Delimiter? && offset <= |all| && First(s, all[..offset]).More?
    requires from == if offset + 1 < |s.text| then 0 else offset + 1 - |s.text|
    ensures NoneIn(s.text, all, 0, from)
  {
    var x, y := all[..offset], all[offset..];
    assert x + y == all;
    forall i | 0 <= i < from
      ensures !DelimiterAt(s.text, all, i)
    {
      DelimiterMore(s.text, x, y, i);
      var k := Find(s.text, x, 0);
      assert !DelimiterAt(s.text, x, i);
    }
  }
}
