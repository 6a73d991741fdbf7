/** Message bodies in http/http_parser.c (sections 3.3.3 and 4.1 of RFC 7230), from the end of the headers to
    the end of the message: Content-Length, chunked coding without trailers, and bodies that end with the
    connection. HTTP_PARSER_STRICT is on. */
module HttpBody {
  import opened Bytes
  import opened Numbers
  import opened Sequences

  /** ULLONG_MAX: no length is known. */
  const UNKNOWN: nat := 0xFFFF_FFFF_FFFF_FFFF

  // ---------------------------------------------------------------- numbers

  datatype Digit = None | Value(v: nat)

  /** The table `unhex`, of which only the first half is written out: bytes from 128 on read as zero. */
  function Unhex(c: Byte): (d: Digit)
    ensures d.Value? ==> d.v < 16
  {
    if 48 <= c <= 57 then Value(c - 48)
    else if 65 <= c <= 70 then Value(c - 55)
    else if 97 <= c <= 102 then Value(c - 87)
    else if c >= 128 then Value(0)
    else None
  }

  /** One more digit in base b (10 or 16), unless the 64-bit guard `(ULLONG_MAX - b) / b < length` fires. */
  function Accumulate(b: nat, length: nat, d: nat): (r: Digit)
    requires b > 0
  {
    if (UNKNOWN - b) / b < length then None else Value(length * b + d)
  }

  /** What the guard lets through does not wrap and is never ULLONG_MAX. */
  lemma NoWrap(b: nat, length: nat, d: nat)
    requires (b == 10 || b == 16) && d < b && Accumulate(b, length, d).Value?
    ensures Accumulate(b, length, d).v < UNKNOWN
  {
  }

  /** The whole number, digit by digit, as the content-length header and the chunk size are read; None when
      the guard fired. */
  function Read(b: nat, ds: seq<nat>): (r: Digit)
    requires b > 0 && |ds| > 0
  {
    if |ds| == 1 then Value(ds[0])
    else
      match Read(b, ds[..|ds| - 1])
      case None => None
      case Value(n) => Accumulate(b, n, ds[|ds| - 1])
  }

  /** A number is accepted exactly when what precedes its last digit is within the guard, and then it is
      exact and below ULLONG_MAX. */
  lemma {:induction false} ReadExact(b: nat, ds: seq<nat>)
    requires (b == 10 || b == 16) && |ds| > 0 && forall i :: 0 <= i < |ds| ==> ds[i] < b
    ensures Read(b, ds).Value? ==> Read(b, ds).v == NumberOf(b, ds) < UNKNOWN
    ensures Read(b, ds).Value? <==> NumberOf(b, ds[..|ds| - 1]) <= (UNKNOWN - b) / b
    decreases |ds|
  {
    var n := |ds| - 1;
    if n == 0 {
      assert ds[..0] == [];
    } else {
      ReadExact(b, ds[..n]);
      Smaller(b, ds[..n]);
      if Read(b, ds).Value? {
        NoWrap(b, NumberOf(b, ds[..n]), ds[n]);
      }
    }
  }

  /** The digits before the last denote no more than all of them. */
  lemma Smaller(b: nat, ds: seq<nat>)
    requires (b == 10 || b == 16) && |ds| > 0
    ensures NumberOf(b, ds[..|ds| - 1]) <= NumberOf(b, ds)
  {
  }

  // ---------------------------------------------------------------- one byte

  datatype Errno = InvalidChunkSize | InvalidContentLength | HeaderOverflow | Strict

  datatype Phase =
    | Identity | UntilEof
    | SizeStart | Size | Parameters | SizeEnd | Data | DataCr | DataLf
    | TrailerStart | TrailerEnd | Trailers
    | Done | Failed(e: Errno)

  /** `length` is `content_length`; the rest counts callbacks and joins the pieces of body passed on. */
  datatype View = View(phase: Phase, length: nat, nread: nat, body: seq<Byte>, chunkHeaders: nat, chunkCompletes: nat,
                       completes: nat)

  datatype Outcome = Taken(v: View) | Refused(v: View)

  /** The states that count against the header limit. */
  predicate Counted(p: Phase) {
    p.SizeStart? || p.Size? || p.Parameters? || p.SizeEnd? || p.TrailerStart? || p.TrailerEnd?
  }

  predicate Over(p: Phase) {
    p.Done? || p.Failed? || p.Trailers?
  }

  function Fail(v: View, e: Errno): Outcome {
    Refused(v.(phase := Failed(e)))
  }

  function Complete(v: View): View {
    v.(phase := Done, completes := v.completes + 1)
  }

  function SizeByte(v: View, c: Byte): Outcome {
    if c == CR then Taken(v.(phase := SizeEnd))
    else
      match Unhex(c)
      case None => if c == SEMICOLON || c == SPACE then Taken(v.(phase := Parameters)) else Fail(v, InvalidChunkSize)
      case Value(d) =>
        match Accumulate(16, v.length, d)
        case None => Fail(v, InvalidContentLength)
        case Value(n) => Taken(v.(length := n))
  }

  /** The byte itself, after it has been counted. */
  function Act(v: View, c: Byte): Outcome
    requires !Over(v.phase) && ((v.phase.Identity? || v.phase.Data?) ==> v.length > 0)
  {
    match v.phase
    case Identity =>
      var w := v.(length := v.length - 1, body := v.body + [c]);
      Taken(if w.length == 0 then Complete(w) else w)
    case UntilEof => Taken(v.(body := v.body + [c]))
    case SizeStart =>
      (match Unhex(c)
       case None => Fail(v, InvalidChunkSize)
       case Value(d) => Taken(v.(phase := Size, length := d)))
    case Size => SizeByte(v, c)
    case Parameters => Taken(if c == CR then v.(phase := SizeEnd) else v)
    case SizeEnd =>
      if c != LF then Fail(v, Strict)
      else Taken(v.(phase := if v.length == 0 then TrailerStart else Data, nread := 0,
                    chunkHeaders := v.chunkHeaders + 1))
    case Data =>
      var w := v.(length := v.length - 1, body := v.body + [c]);
      Taken(if w.length == 0 then w.(phase := DataCr) else w)
    case DataCr => if c != CR then Fail(v, Strict) else Taken(v.(phase := DataLf))
    case DataLf =>
      if c != LF then Fail(v, Strict)
        else Taken(v.(phase := SizeStart, nread := 0, chunkCompletes := v.chunkCompletes + 1))
    case TrailerStart =>
      if c == CR then Taken(v.(phase := TrailerEnd))
      else if c == LF then Taken(Complete(v.(chunkCompletes := v.chunkCompletes + 1)))
      else Refused(v.(phase := Trailers))
    case TrailerEnd =>
      if c != LF then Fail(v, Strict) else Taken(Complete(v.(chunkCompletes := v.chunkCompletes + 1)))
  }

  function Step(max: nat, v: View, c: Byte): Outcome
    requires Ok(v)
  {
    if Over(v.phase) then Refused(v)
    else if !Counted(v.phase) then Act(v, c)
    else
      var w := v.(nread := v.nread + 1);
      if w.nread > max then Fail(w, HeaderOverflow) else Act(w, c)
  }

  /** What the assertions in the source ask for: a chunk size begins with the first counted byte, a body has a
      length that is neither zero nor unknown, and behind a chunk nothing is left of it. */
  ghost predicate Ok(v: View) {
    && (v.phase.SizeStart? ==> v.nread == 0)
    && (v.phase.Identity? || v.phase.Data? ==> 0 < v.length < UNKNOWN)
    && (v.phase.Size? || v.phase.Parameters? || v.phase.SizeEnd? ==> v.length < UNKNOWN)
    && (v.phase.DataCr? ==> v.length == 0)
  }

  /** No assertion can fail. */
  lemma StepOk(max: nat, v: View, c: Byte)
    requires Ok(v)
    ensures Ok(Step(max, v, c).v)
  {
    if v.phase.Size? && Unhex(c).Value? && Accumulate(16, v.length, Unhex(c).v).Value? {
      NoWrap(16, v.length, Unhex(c).v);
    }
  }

  /** A size line or a trailer end that is longer than the limit is refused at the byte behind it. */
  lemma OverLimit(max: nat, v: View, c: Byte)
    requires Ok(v) && v.nread >= max
    requires v.phase.SizeStart? || v.phase.Size? || v.phase.Parameters? || v.phase.SizeEnd? || v.phase.TrailerStart?
             || v.phase.TrailerEnd?
    ensures Step(max, v, c).Refused? && Step(max, v, c).v.phase == Failed(HeaderOverflow)
  {
  }

  // ---------------------------------------------------------------- the headers are done

  /** What the headers have said. */
  datatype Head = Head(request: bool, status: nat, chunked: bool, skipBody: bool, upgrade: bool, connect: bool,
                       length: nat)

  /** `http_message_needs_eof`. */
  predicate NeedsEof(h: Head) {
    && !h.request && h.status / 100 != 1 && h.status != 204 && h.status != 304 && !h.skipBody
    && !h.chunked && h.length == UNKNOWN
  }

  /** State s_headers_done: which body follows. */
  function Begin(h: Head): (v: View) {
    var hasBody := h.chunked || (0 < h.length < UNKNOWN);
    var v := View(Done, h.length, 0, [], 0, 0, 0);
    if h.upgrade && (h.connect || h.skipBody || !hasBody) then Complete(v)
    else if h.skipBody then Complete(v)
    else if h.chunked then v.(phase := SizeStart)
    else if h.length == 0 then Complete(v)
    else if h.length != UNKNOWN then v.(phase := Identity)
    else if !NeedsEof(h) then Complete(v)
    else v.(phase := UntilEof)
  }

  lemma BeginOk(h: Head)
    requires h.length <= UNKNOWN
    ensures Ok(Begin(h)) && (Begin(h).phase.Done? <==> Begin(h).completes == 1)
  {
  }

  /** No Content-Length has been given, with or without another coding. */
  predicate Unmeasured(h: Head) {
    h.length == 0xFFFF_FFFF_FFFF_FFFF
  }

  /** Responses that never have a body. */
  predicate Bodiless(status: nat) {
    100 <= status < 200 || status == 204 || status == 304
  }

  /** The connection goes over to another protocol, whatever the length. */
  predicate Tunnel(h: Head) {
    h.upgrade && h.connect
  }

  /** No body: it is skipped, or the connection goes over to another protocol, or the length is zero, or there is
      neither length nor chunking where a body would need one. */
  predicate NoBody(h: Head) {
    || h.skipBody || Tunnel(h)
    || (!h.chunked && h.length == 0)
    || (!h.chunked && Unmeasured(h) && (h.upgrade || h.request || Bodiless(h.status)))
  }

  /** A chunked body, whatever the Content-Length. */
  predicate InChunks(h: Head) {
    h.chunked && !h.skipBody && !Tunnel(h)
  }

  /** A body of the length given. */
  predicate ByLength(h: Head) {
    !h.chunked && 0 < h.length < 0xFFFF_FFFF_FFFF_FFFF && !h.skipBody && !Tunnel(h)
  }

  /** A response whose body ends with the connection. */
  predicate ByClose(h: Head) {
    !h.request && !Bodiless(h.status) && !h.chunked && Unmeasured(h) && !h.skipBody && !h.upgrade
  }

  /** Every head that can be is of one of the four kinds. */
  lemma Kinds(h: Head)
    requires h.length <= UNKNOWN
    ensures Begin(h).phase.Done? <==> NoBody(h)
    ensures Begin(h).phase.SizeStart? <==> InChunks(h)
    ensures Begin(h).phase.Identity? <==> ByLength(h)
    ensures Begin(h).phase.UntilEof? <==> ByClose(h)
    ensures Begin(h).chunkHeaders == 0 && Begin(h).chunkCompletes == 0
    ensures Begin(h).body == [] && Begin(h).length == h.length && Begin(h).completes == if NoBody(h) then 1 else 0
  {
  }

  // ---------------------------------------------------------------- a stretch of bytes

  datatype Progress = Progress(v: View, taken: nat)

  function Run(max: nat, v: View, bs: seq<Byte>): (r: Progress)
    requires Ok(v)
    ensures Ok(r.v) && r.taken <= |bs|
    decreases |bs|
  {
    if |bs| == 0 then Progress(v, 0)
    else
      StepOk(max, v, bs[0]);
      match Step(max, v, bs[0])
      case Refused(w) => Progress(w, 0)
      case Taken(w) => var r := Run(max, w, bs[1..]); Progress(r.v, r.taken + 1)
  }

  lemma RunTaken(max: nat, v: View, bs: seq<Byte>, w: View, rest: seq<Byte>)
    requires Ok(v) && |bs| > 0 && rest == bs[1..] && Step(max, v, bs[0]) == Taken(w)
    ensures Ok(w) && Run(max, v, bs) == Progress(Run(max, w, rest).v, Run(max, w, rest).taken + 1)
  {
    StepOk(max, v, bs[0]);
  }

  lemma RunNone(max: nat, v: View, bs: seq<Byte>)
    requires Ok(v) && |bs| == 0
    ensures Run(max, v, bs) == Progress(v, 0)
  {
  }

  /** From v the parser takes all of x and arrives at u. */
  ghost predicate Reads(max: nat, v: View, x: seq<Byte>, u: View) {
    Ok(v) && Ok(u) && Run(max, v, x) == Progress(u, |x|)
  }

  lemma ReadOne(max: nat, v: View, c: Byte, u: View)
    requires Ok(v) && Step(max, v, c) == Taken(u)
    ensures Reads(max, v, [c], u)
  {
    RunTaken(max, v, [c], u, []);
    RunNone(max, u, []);
  }

  lemma {:induction false} ReadsOn(max: nat, v: View, x: seq<Byte>, u: View, y: seq<Byte>, t: View)
    requires Reads(max, v, x, u) && Reads(max, u, y, t)
    ensures Reads(max, v, x + y, t)
    decreases |x|
  {
    if |x| == 0 {
      RunNone(max, v, x);
      assert x + y == y;
    } else {
      StepOk(max, v, x[0]);
      var w := Step(max, v, x[0]).v;
      RunTaken(max, v, x, w, x[1..]);
      ReadsOn(max, w, x[1..], u, y, t);
      assert (x + y)[1..] == x[1..] + y;
      RunTaken(max, v, x + y, w, (x + y)[1..]);
    }
  }

  /** How the bytes are split over calls makes no difference. */
  lemma {:induction false} RunAppend(max: nat, v: View, x: seq<Byte>, y: seq<Byte>)
    requires Ok(v)
    ensures var r := Run(max, v, x);
            Run(max, v, x + y) == if r.taken < |x| then r
              else Progress(Run(max, r.v, y).v, |x| + Run(max, r.v, y).taken)
    decreases |x|
  {
    if |x| == 0 {
      RunNone(max, v, x);
      assert x + y == y;
    } else {
      StepOk(max, v, x[0]);
      assert (x + y)[1..] == x[1..] + y && (x + y)[0] == x[0];
      if Step(max, v, x[0]).Taken? {
        var w := Step(max, v, x[0]).v;
        RunTaken(max, v, x, w, x[1..]);
        RunTaken(max, v, x + y, w, x[1..] + y);
        RunAppend(max, w, x[1..], y);
      }
    }
  }

  // ---------------------------------------------------------------- bodies with a length

  /** Fewer bytes than the length. */
  function Partway(v: View, bs: seq<Byte>): View
    requires |bs| <= v.length
  {
    v.(length := v.length - |bs|, body := v.body + bs)
  }

  lemma {:induction false} ReadPartway(max: nat, v: View, bs: seq<Byte>)
    requires Ok(v) && (v.phase.Identity? || v.phase.Data?) && |bs| < v.length
    ensures Reads(max, v, bs, Partway(v, bs))
    decreases |bs|
  {
    var n := |bs| - 1;
    if |bs| == 0 {
      RunNone(max, v, bs);
      assert v.body + bs == v.body;
    } else {
      var init, u := bs[..n], Partway(v, bs[..n]);
      ReadPartway(max, v, init);
      assert init + [bs[n]] == bs;
      assert v.body + init + [bs[n]] == v.body + bs;
      ReadOne(max, u, bs[n], Partway(v, bs));
      ReadsOn(max, v, init, u, [bs[n]], Partway(v, bs));
    }
  }

  /** The last byte included. */
  lemma ReadWhole(max: nat, v: View, bs: seq<Byte>)
    requires Ok(v) && (v.phase.Identity? || v.phase.Data?) && |bs| == v.length
    ensures v.phase.Identity? ==> Reads(max, v, bs, Complete(Partway(v, bs)))
    ensures v.phase.Data? ==> Reads(max, v, bs, Partway(v, bs).(phase := DataCr))
  {
    var n := |bs| - 1;
    var init, u := bs[..n], Partway(v, bs[..n]);
    ReadPartway(max, v, init);
    assert init + [bs[n]] == bs;
    assert v.body + init + [bs[n]] == v.body + bs;
    var t := if v.phase.Identity? then Complete(Partway(v, bs)) else Partway(v, bs).(phase := DataCr);
    ReadOne(max, u, bs[n], t);
    ReadsOn(max, v, init, u, [bs[n]], t);
  }

  /** A body of known length: exactly that many bytes are taken and passed on, and the message is complete
      with the last of them, once, whatever follows. */
  lemma IdentityBody(max: nat, h: Head, bs: seq<Byte>, rest: seq<Byte>)
    requires ByLength(h) && h.length == |bs|
    ensures var r := Run(max, Begin(h), bs + rest);
            r.taken == |bs| && r.v.phase.Done? && r.v.body == bs && r.v.completes == 1
  {
    var v := Begin(h);
    Kinds(h);
    ReadWhole(max, v, bs);
    RunAppend(max, v, bs, rest);
    StopsWhenDone(max, Complete(Partway(v, bs)), rest);
    assert [] + bs == bs;
  }

  lemma StopsWhenDone(max: nat, v: View, bs: seq<Byte>)
    requires Ok(v) && v.phase.Done?
    ensures Run(max, v, bs) == Progress(v, 0)
  {
  }

  // ---------------------------------------------------------------- chunked bodies

  /** A chunk: its size in hexadecimal, an extension, its data. */
  datatype Chunk = Chunk(size: seq<Byte>, extension: seq<Byte>, data: seq<Byte>)

  predicate HexDigit(c: Byte) {
    c < 128 && Unhex(c).Value?
  }

  function Digits(bs: seq<Byte>): (ds: seq<nat>)
    ensures |ds| == |bs|
    ensures forall i :: 0 <= i < |bs| ==> ds[i] == (if Unhex(bs[i]).Value? then Unhex(bs[i]).v else 0) < 16
  {
    seq(|bs|, i requires 0 <= i < |bs| => if Unhex(bs[i]).Value? then Unhex(bs[i]).v else 0)
  }

  /** The first line of a chunk: any spelling of the size, and an extension that begins as extensions do and
      does not end the line. The line is within the header limit. */
  ghost predicate GoodLine(max: nat, c: Chunk) {
    && |c.size| > 0 && (forall i :: 0 <= i < |c.size| ==> HexDigit(c.size[i]))
    && NumberOf(16, Digits(c.size)) == |c.data| <= UNKNOWN - 17
    && (|c.extension| > 0 ==> c.extension[0] == SEMICOLON || c.extension[0] == SPACE)
    && (forall i :: 0 <= i < |c.extension| ==> c.extension[i] != CR)
    && |c.size| + |c.extension| + 2 <= max
  }

  function Line(c: Chunk): seq<Byte> {
    c.size + c.extension + [CR, LF]
  }

  lemma DigitsInit(bs: seq<Byte>, n: nat)
    requires n <= |bs|
    ensures Digits(bs)[..n] == Digits(bs[..n])
  {
  }

  /** A size that denotes at most ULLONG_MAX - 17 is not refused. */
  lemma ReadsSize(ds: seq<nat>)
    requires |ds| > 0 && (forall i :: 0 <= i < |ds| ==> ds[i] < 16) && NumberOf(16, ds) <= UNKNOWN - 17
    ensures Read(16, ds) == Value(NumberOf(16, ds))
  {
    ReadExact(16, ds);
  }

  lemma {:induction false} ReadSize(max: nat, v: View, bs: seq<Byte>, n: nat)
    requires Ok(v) && v.phase.SizeStart? && 0 < |bs| <= max && Read(16, Digits(bs)) == Value(n) && n < UNKNOWN
    requires forall i :: 0 <= i < |bs| ==> HexDigit(bs[i])
    ensures Reads(max, v, bs, v.(phase := Size, length := n, nread := |bs|))
    decreases |bs|
  {
    var k := |bs| - 1;
    var t := v.(phase := Size, length := n, nread := |bs|);
    if k == 0 {
      assert bs == [bs[0]];
      ReadOne(max, v, bs[0], t);
    } else {
      DigitsInit(bs, k);
      var m := Read(16, Digits(bs)[..k]).v;
      var u := v.(phase := Size, length := m, nread := k);
      SizeBelow(Digits(bs));
      ReadSize(max, v, bs[..k], m);
      NotCr(bs[k]);
      assert SizeByte(u.(nread := k + 1), bs[k]) == Taken(t);
      ReadOne(max, u, bs[k], t);
      ReadsOn(max, v, bs[..k], u, [bs[k]], t);
      assert bs[..k] + [bs[k]] == bs;
    }
  }

  lemma SizeBelow(ds: seq<nat>)
    requires |ds| > 1 && Read(16, ds).Value?
    ensures Read(16, ds[..|ds| - 1]).Value? && Read(16, ds[..|ds| - 1]).v < UNKNOWN
  {
  }

  lemma NotCr(c: Byte)
    requires HexDigit(c)
    ensures c != CR
  {
  }

  lemma {:induction false} ReadParameters(max: nat, v: View, bs: seq<Byte>)
    requires Ok(v) && v.phase.Parameters? && v.nread + |bs| <= max && forall i :: 0 <= i < |bs| ==> bs[i] != CR
    ensures Reads(max, v, bs, v.(nread := v.nread + |bs|))
    decreases |bs|
  {
    var k := |bs| - 1;
    if |bs| == 0 {
      RunNone(max, v, bs);
    } else {
      var u := v.(nread := v.nread + k);
      ReadParameters(max, v, bs[..k]);
      ReadOne(max, u, bs[k], v.(nread := v.nread + |bs|));
      ReadsOn(max, v, bs[..k], u, [bs[k]], v.(nread := v.nread + |bs|));
      assert bs[..k] + [bs[k]] == bs;
    }
  }

  lemma ReadExtension(max: nat, v: View, bs: seq<Byte>) returns (u: View)
    requires Ok(v) && v.phase.Size? && v.nread + |bs| <= max && forall i :: 0 <= i < |bs| ==> bs[i] != CR
    requires |bs| > 0 ==> bs[0] == SEMICOLON || bs[0] == SPACE
    ensures Reads(max, v, bs, u) && (u.phase.Size? || u.phase.Parameters?)
            && u == v.(phase := u.phase, nread := v.nread + |bs|)
  {
    if |bs| == 0 {
      RunNone(max, v, bs);
      u := v;
    } else {
      var w := v.(phase := Parameters, nread := v.nread + 1);
      ReadOne(max, v, bs[0], w);
      ReadParameters(max, w, bs[1..]);
      u := w.(nread := w.nread + |bs[1..]|);
      ReadsOn(max, v, [bs[0]], w, bs[1..], u);
      assert [bs[0]] + bs[1..] == bs;
    }
  }

  lemma ReadLineEnd(max: nat, v: View, t: View)
    requires Ok(v) && (v.phase.Size? || v.phase.Parameters?) && v.nread + 2 <= max
    requires t == v.(phase := if v.length == 0 then TrailerStart else Data, nread := 0,
                     chunkHeaders := v.chunkHeaders + 1)
    ensures Reads(max, v, [CR, LF], t)
  {
    var u := v.(phase := SizeEnd, nread := v.nread + 1);
    ReadOne(max, v, CR, u);
    ReadOne(max, u, LF, t);
    ReadsOn(max, v, [CR], u, [LF], t);
    assert [CR] + [LF] == [CR, LF];
  }

  /** The line of a chunk announces its size. */
  lemma ReadLine(max: nat, v: View, c: Chunk, t: View)
    requires Ok(v) && v.phase.SizeStart? && GoodLine(max, c)
    requires t == v.(phase := if |c.data| == 0 then TrailerStart else Data, length := |c.data|,
                     chunkHeaders := v.chunkHeaders + 1)
    ensures Reads(max, v, Line(c), t)
  {
    ReadsSize(Digits(c.size));
    var v1 := v.(phase := Size, length := |c.data|, nread := |c.size|);
    ReadSize(max, v, c.size, |c.data|);
    var v2 := ReadExtension(max, v1, c.extension);
    ReadsOn(max, v, c.size, v1, c.extension, v2);
    ReadLineEnd(max, v2, t);
    ReadsOn(max, v, c.size + c.extension, v2, [CR, LF], t);
  }

  /** The chunk on the wire. */
  function ChunkText(c: Chunk): seq<Byte> {
    Line(c) + c.data + [CR, LF]
  }

  lemma ReadDataEnd(max: nat, v: View, t: View)
    requires Ok(v) && v.phase.DataCr? && t == v.(phase := SizeStart, nread := 0, chunkCompletes := v.chunkCompletes + 1)
    ensures Reads(max, v, [CR, LF], t)
  {
    var u := v.(phase := DataLf);
    ReadOne(max, v, CR, u);
    ReadOne(max, u, LF, t);
    ReadsOn(max, v, [CR], u, [LF], t);
    assert [CR] + [LF] == [CR, LF];
  }

  lemma ReadChunk(max: nat, v: View, c: Chunk) returns (t: View)
    requires Ok(v) && v.phase.SizeStart? && GoodLine(max, c) && |c.data| > 0
    ensures Reads(max, v, ChunkText(c), t) && t.phase.SizeStart?
    ensures t.body == v.body + c.data && t.completes == v.completes
    ensures t.chunkHeaders == v.chunkHeaders + 1 && t.chunkCompletes == v.chunkCompletes + 1
  {
    var v1 := v.(phase := Data, length := |c.data|, chunkHeaders := v.chunkHeaders + 1);
    ReadLine(max, v, c, v1);
    var v2 := Partway(v1, c.data).(phase := DataCr);
    ReadWhole(max, v1, c.data);
    ReadsOn(max, v, Line(c), v1, c.data, v2);
    t := v2.(phase := SizeStart, nread := 0, chunkCompletes := v2.chunkCompletes + 1);
    ReadDataEnd(max, v2, t);
    ReadsOn(max, v, Line(c) + c.data, v2, [CR, LF], t);
  }

  function ChunksText(cs: seq<Chunk>, last: Chunk): (bs: seq<Byte>)
    decreases |cs|
  {
    if |cs| == 0 then Line(last) + [CR, LF] else ChunkText(cs[0]) + ChunksText(cs[1..], last)
  }

  function Contents(cs: seq<Chunk>): (bs: seq<Byte>) {
    if |cs| == 0 then [] else cs[0].data + Contents(cs[1..])
  }

  /** The last chunk and the empty trailer. */
  lemma ReadLast(max: nat, v: View, c: Chunk, t: View)
    requires Ok(v) && v.phase.SizeStart? && GoodLine(max, c) && |c.data| == 0
    requires t == Complete(v.(phase := TrailerEnd, length := 0, nread := 2, chunkHeaders := v.chunkHeaders + 1,
             chunkCompletes := v.chunkCompletes + 1))
    ensures Reads(max, v, Line(c) + [CR, LF], t)
  {
    var v1 := v.(phase := TrailerStart, length := 0, chunkHeaders := v.chunkHeaders + 1);
    ReadLine(max, v, c, v1);
    var v2 := v1.(phase := TrailerEnd, nread := 1);
    ReadOne(max, v1, CR, v2);
    ReadOne(max, v2, LF, t);
    ReadsOn(max, v1, [CR], v2, [LF], t);
    assert [CR] + [LF] == [CR, LF];
    ReadsOn(max, v, Line(c), v1, [CR, LF], t);
  }

  lemma {:induction false} ReadChunks(max: nat, v: View, cs: seq<Chunk>, last: Chunk) returns (t: View)
    requires Ok(v) && v.phase.SizeStart? && GoodLine(max, last) && |last.data| == 0
    requires forall i :: 0 <= i < |cs| ==> GoodLine(max, cs[i]) && |cs[i].data| > 0
    ensures Reads(max, v, ChunksText(cs, last), t) && t.phase.Done?
    ensures t.body == v.body + Contents(cs) && t.completes == v.completes + 1
    ensures t.chunkHeaders == v.chunkHeaders + |cs| + 1 && t.chunkCompletes == v.chunkCompletes + |cs| + 1
    decreases |cs|
  {
    if |cs| == 0 {
      t := Complete(v.(phase := TrailerEnd, length := 0, nread := 2, chunkHeaders := v.chunkHeaders + 1,
           chunkCompletes := v.chunkCompletes + 1));
      ReadLast(max, v, last, t);
    } else {
      var u := ReadChunk(max, v, cs[0]);
      t := ReadChunks(max, u, cs[1..], last);
      ReadsOn(max, v, ChunkText(cs[0]), u, ChunksText(cs[1..], last), t);
      assert v.body + cs[0].data + Contents(cs[1..]) == v.body + (cs[0].data + Contents(cs[1..]));
    }
  }

  /** A chunked body without trailers: the data of its chunks is passed on, and the message is complete with
      its last byte, once, whatever follows. */
  lemma ChunkedBody(max: nat, h: Head, cs: seq<Chunk>, last: Chunk, rest: seq<Byte>)
    requires InChunks(h) && h.length <= UNKNOWN && GoodLine(max, last) && |last.data| == 0
    requires forall i :: 0 <= i < |cs| ==> GoodLine(max, cs[i]) && |cs[i].data| > 0
    ensures var r := Run(max, Begin(h), ChunksText(cs, last) + rest);
            && r.taken == |ChunksText(cs, last)| && r.v.phase.Done? && r.v.body == Contents(cs) && r.v.completes == 1
            && r.v.chunkHeaders == |cs| + 1 && r.v.chunkCompletes == |cs| + 1
  {
    var v := Begin(h);
    Kinds(h);
    var t := ReadChunks(max, v, cs, last);
    RunAppend(max, v, ChunksText(cs, last), rest);
    StopsWhenDone(max, t, rest);
  }

  /** The bytes that count as digits of a chunk size: hexadecimal digits, and every byte from 128 on. */
  predicate SizeByteTaken(c: Byte) {
    HexDigit(c) || c >= 128
  }

  /** After each of the bytes bs the parser is reading a chunk size. */
  ghost predicate TakenAsSize(max: nat, v: View, bs: seq<Byte>)
    requires Ok(v)
  {
    && Run(max, v, bs).taken == |bs| && Run(max, v, bs).v.phase.Size?
    && (|bs| > 1 ==> TakenAsSize(max, v, bs[..|bs| - 1]))
  }

  /** All bytes count as digits. */
  ghost predicate SizeBytes(bs: seq<Byte>) {
    forall i :: 0 <= i < |bs| ==> SizeByteTaken(bs[i])
  }

  /** Bytes are taken as a chunk size exactly when each is a digit or is 128 or more, and their value, in which
      the latter count as zero, is within the guard; and then that value is the size. */
  lemma {:induction false} SizeTakenIff(max: nat, v: View, bs: seq<Byte>)
    requires Ok(v) && v.phase.SizeStart? && 0 < |bs| <= max
    ensures TakenAsSize(max, v, bs) <==> SizeBytes(bs) && Read(16, Digits(bs)).Value?
    ensures TakenAsSize(max, v, bs) ==>
              Run(max, v, bs).v == v.(phase := Size, length := NumberOf(16, Digits(bs)), nread := |bs|)
    decreases |bs|
  {
    var k := |bs| - 1;
    if k == 0 {
      FirstSizeByte(max, v, bs);
    } else {
      var init := bs[..k];
      SizeTakenIff(max, v, init);
      SizeGrows(bs, init);
      RunLast(max, v, bs, init);
      if TakenAsSize(max, v, init) {
        NextSizeByte(max, Run(max, v, init).v, bs[k]);
      }
    }
  }

  /** What the last digit does to the value. */
  lemma SizeGrows(bs: seq<Byte>, init: seq<Byte>)
    requires |bs| > 1 && init == bs[..|bs| - 1]
    ensures SizeBytes(bs) <==> SizeBytes(init) && SizeByteTaken(bs[|bs| - 1])
    ensures Read(16, Digits(bs)).Value? ==>
            Read(16, Digits(init)).Value? && Read(16, Digits(bs)).v == NumberOf(16, Digits(bs))
    ensures Read(16, Digits(init)).Value? ==> Read(16, Digits(init)).v == NumberOf(16, Digits(init))
    ensures Read(16, Digits(init)).Value? ==>
              Read(16, Digits(bs)) == Accumulate(16, NumberOf(16, Digits(init)), Digits(bs)[|bs| - 1])
  {
    DigitsInit(bs, |bs| - 1);
    ReadExact(16, Digits(bs));
    ReadExact(16, Digits(init));
  }

  lemma FirstSizeByte(max: nat, v: View, bs: seq<Byte>)
    requires Ok(v) && v.phase.SizeStart? && |bs| == 1 <= max
    ensures TakenAsSize(max, v, bs) <==> SizeByteTaken(bs[0])
    ensures SizeBytes(bs) <==> SizeByteTaken(bs[0])
    ensures Read(16, Digits(bs)) == Value(NumberOf(16, Digits(bs)))
    ensures TakenAsSize(max, v, bs) ==>
              Run(max, v, bs).v == v.(phase := Size, length := NumberOf(16, Digits(bs)), nread := 1)
  {
    assert Digits(bs)[..0] == [];
    if Step(max, v, bs[0]).Taken? {
      RunTaken(max, v, bs, Step(max, v, bs[0]).v, bs[1..]);
    }
  }

  /** Behind a digit, a byte is a further digit, or ends the size, or is refused. */
  lemma NextSizeByte(max: nat, v: View, c: Byte)
    requires Ok(v) && v.phase.Size? && v.nread < max
    ensures var r := Step(max, v, c);
            if SizeByteTaken(c) && Accumulate(16, v.length, Unhex(c).v).Value? then
              r == Taken(v.(length := Accumulate(16, v.length, Unhex(c).v).v, nread := v.nread + 1))
            else
              r.Refused? || !r.v.phase.Size?
  {
  }

  /** The last byte of a run. */
  lemma RunLast(max: nat, v: View, bs: seq<Byte>, init: seq<Byte>)
    requires Ok(v) && |bs| > 0 && init == bs[..|bs| - 1]
    ensures var r := Run(max, v, init);
            Run(max, v, bs) ==
              if r.taken < |init| then r
              else if Step(max, r.v, bs[|bs| - 1]).Taken? then Progress(Step(max, r.v, bs[|bs| - 1]).v, |bs|)
              else Progress(Step(max, r.v, bs[|bs| - 1]).v, |init|)
  {
    var c := bs[|bs| - 1];
    var r := Run(max, v, init);
    assert init + [c] == bs;
    RunAppend(max, v, init, [c]);
    RunByte(max, r.v, c);
  }

  lemma RunByte(max: nat, v: View, c: Byte)
    requires Ok(v)
    ensures Run(max, v, [c]) == Progress(Step(max, v, c).v, if Step(max, v, c).Taken? then 1 else 0)
  {
    StepOk(max, v, c);
    if Step(max, v, c).Taken? {
      ReadOne(max, v, c, Step(max, v, c).v);
    }
  }

  // ---------------------------------------------------------------- the parser object

  /** The fields of `http_parser` that matter here, and the callbacks made. */
  class Parser {
    const max: nat
    var phase: Phase
    var length: nat
    var nread: nat
    var body: seq<Byte>
    var chunkHeaders: nat
    var chunkCompletes: nat
    var completes: nat

    /** With a piece of body that is marked and not yet passed on. */
    ghost function V(marked: seq<Byte>): View reads this {
      View(phase, length, nread, body + marked, chunkHeaders, chunkCompletes, completes)
    }

    constructor (h: Head, maxHeader: nat)
      requires h.length <= UNKNOWN
      ensures V([]) == Begin(h) && Ok(V([])) && max == maxHeader
    {
      BeginOk(h);
      var v := Begin(h);
      max, phase, length, nread := maxHeader, v.phase, v.length, v.nread;
      body, chunkHeaders, chunkCompletes, completes := v.body, v.chunkHeaders, v.chunkCompletes, v.completes;
    }

    /** A digit of the chunk size. */
    method OnSize(c: Byte) returns (go: bool)
      requires phase.Size?
      modifies this`phase, this`length
      ensures (if go then Taken(V([])) else Refused(V([]))) == SizeByte(old(V([])), c)
    {
      go := true;
      if c == CR {
        phase := SizeEnd;
        return;
      }
      var d := Unhex(c);
      if d.None? {
        if c == SEMICOLON || c == SPACE {
          phase := Parameters;
        } else {
          phase := Failed(InvalidChunkSize);
          go := false;
        }
        return;
      }
      if (UNKNOWN - 16) / 16 < length {
        phase := Failed(InvalidContentLength);
        go := false;
        return;
      }
      length := length * 16 + d.v;
    }

    /** `goto error`. */
    method Error(e: Errno) returns (go: bool)
      modifies this`phase
      ensures phase == Failed(e) && !go
    {
      phase := Failed(e);
      go := false;
    }

    /** The states in which a single byte is looked at. */
    method OnByte(c: Byte) returns (go: bool)
      requires !Over(phase) && !phase.Identity? && !phase.Data? && !phase.UntilEof?
      requires (phase.SizeStart? ==> nread == 1) && (phase.DataCr? ==> length == 0)
      modifies this`phase, this`length, this`nread, this`chunkHeaders, this`chunkCompletes, this`completes
      ensures (if go then Taken(V([])) else Refused(V([]))) == Act(old(V([])), c)
    {
      go := true;
      match phase {
        case SizeStart =>
          assert nread == 1;
          var d := Unhex(c);
          if d.None? {
            go := Error(InvalidChunkSize);
          } else {
            length := d.v;
            phase := Size;
          }
        case Size => go := OnSize(c);
        case Parameters => if c == CR { phase := SizeEnd; }
        case SizeEnd => if c != LF { go := Error(Strict); } else { OnLineEnd(); }
        case DataCr => assert length == 0; if c != CR { go := Error(Strict); } else { phase := DataLf; }
        case DataLf =>
          if c != LF { go := Error(Strict); } else { nread, phase, chunkCompletes := 0, SizeStart, chunkCompletes + 1; }
        case TrailerStart =>
          if c == CR { phase := TrailerEnd; } else if c == LF { OnTrailerEnd(); }
            else { phase := Trailers; go := false; }
        case TrailerEnd => if c != LF { go := Error(Strict); } else { OnTrailerEnd(); }
      }
    }

    method OnLineEnd()
      modifies this`phase, this`nread, this`chunkHeaders
      ensures V([]) == old(V([])).(phase := if length == 0 then TrailerStart else Data, nread := 0,
                                   chunkHeaders := old(chunkHeaders) + 1)
    {
      nread := 0;
      phase := if length == 0 then TrailerStart else Data;
      chunkHeaders := chunkHeaders + 1;
    }

    method OnTrailerEnd()
      modifies this`phase, this`chunkCompletes, this`completes
      ensures V([]) == Complete(old(V([])).(chunkCompletes := old(chunkCompletes) + 1))
    {
      chunkCompletes := chunkCompletes + 1;
      phase := Done;
      completes := completes + 1;
    }

    /** The states in which a stretch of body is taken at once: the rest of the body, or of the input. */
    method OnBody(data: seq<Byte>, p: nat, mark: int) returns (p': nat, mark': int)
      requires p < |data| && -1 <= mark <= p && (phase.Identity? || phase.Data?) && Ok(V(Marked(data, mark, p)))
      modifies this`phase, this`length, this`body, this`completes
      ensures p < p' <= |data| && -1 <= mark' < p' && (mark' >= 0 ==> phase.Identity? || phase.Data? || phase.DataCr?)
      ensures phase.DataCr? ==> mark' >= 0
      ensures Reads(max, old(V(Marked(data, mark, p))), data[p..p'], V(Marked(data, mark', p')))
    {
      ghost var v := V(Marked(data, mark, p));
      var toRead := if length < |data| - p then length else |data| - p;
      mark' := if mark < 0 then p else mark;
      p' := p + toRead;
      BodyMarked(data, mark, mark', p, p', body);
      if toRead < length {
        ReadPartway(max, v, data[p..p']);
      } else {
        ReadWhole(max, v, data[p..p']);
      }
      length := length - toRead;
      if length == 0 {
        if phase.Identity? {
          body := body + data[mark'..p'];
          mark' := -1;
          phase := Done;
          completes := completes + 1;
          assert body + [] == body;
        } else {
          phase := DataCr;
        }
      }
    }

    method OnRest(data: seq<Byte>, p: nat, mark: int) returns (mark': int)
      requires p < |data| && -1 <= mark <= p && phase.UntilEof?
      ensures 0 <= mark' < |data|
      ensures Reads(max, V(Marked(data, mark, p)), data[p..], V(Marked(data, mark', |data|)))
    {
      mark' := if mark < 0 then p else mark;
      BodyMarked(data, mark, mark', p, |data|, body);
      assert data[p..] == data[p..|data|];
      ReadRest(max, V(Marked(data, mark, p)), data[p..]);
    }

    /** The byte behind the data of a chunk: the marked body is passed on, if the byte is right. */
    method OnDataCr(data: seq<Byte>, p: nat, mark: int) returns (go: bool, mark': int)
      requires p < |data| && -1 <= mark <= p && phase.DataCr? && length == 0
      modifies this`phase, this`body
      ensures mark' == if go then -1 else mark
      ensures (if go then Taken(V([])) else Refused(V(Marked(data, mark', p))))
              == Act(old(V(Marked(data, mark, p))), data[p])
    {
      mark' := mark;
      if data[p] != CR {
        go := Error(Strict);
        return;
      }
      phase := DataLf;
      go := true;
      if mark >= 0 {
        body := body + data[mark..p];
        mark' := -1;
      }
      assert body + [] == body;
    }

    /** A byte that is looked at alone, counted if it belongs to a size line or the trailer. */
    method OnSingle(c: Byte) returns (go: bool)
      requires Ok(V([])) && !Over(phase) && !phase.Identity? && !phase.Data? && !phase.UntilEof?
      modifies this`phase, this`length, this`nread, this`chunkHeaders, this`chunkCompletes, this`completes
      ensures (if go then Taken(V([])) else Refused(V([]))) == Step(max, old(V([])), c)
    {
      if Counted(phase) {
        nread := nread + 1;
        if nread > max {
          go := Error(HeaderOverflow);
          return;
        }
      }
      go := OnByte(c);
    }

    /** One turn of the loop in `http_parser_execute`. */
    method Turn(data: seq<Byte>, p: nat, mark: int) returns (go: bool, p': nat, mark': int)
      requires p < |data| && Marks(mark, p) && !Over(phase) && Ok(V(Marked(data, mark, p)))
      modifies this
      ensures go ==> p < p' <= |data| && Marks(mark', p')
      ensures go ==> Reads(max, old(V(Marked(data, mark, p))), data[p..p'], V(Marked(data, mark', p')))
      ensures !go ==> mark' == if old(phase).DataCr? then mark else -1
      ensures !go ==> Step(max, old(V(Marked(data, mark, p))), data[p]) == Refused(V(Marked(data, mark', p)))
    {
      go, p', mark' := true, p + 1, mark;
      ghost var v := V(Marked(data, mark, p));
      if phase.Identity? || phase.Data? {
        p', mark' := OnBody(data, p, mark);
      } else if phase.UntilEof? {
        mark' := OnRest(data, p, mark);
        p' := |data|;
        assert data[p..p'] == data[p..];
      } else if phase.DataCr? {
        go, mark' := OnDataCr(data, p, mark);
        ReadSingle(max, v, data, p, V([]), go);
      } else {
        go := OnSingle(data[p]);
        ReadSingle(max, v, data, p, V([]), go);
      }
    }

    /** A mark is set only inside a body, and is set when a chunk has ended in this call. */
    ghost predicate Marks(mark: int, p: nat)
      reads this`phase
    {
      -1 <= mark <= p && (mark >= 0 ==> mark < p && MayMark(phase)) && (phase.DataCr? && p > 0 ==> mark >= 0)
    }

    /** `http_parser_execute` up to the end of the message. What is marked when the input is used up is passed
        on. It is dropped exactly when the byte behind the data of a chunk, some of which came in this call, is
        not CR. */
    method Execute(data: seq<Byte>) returns (n: nat, ghost dropped: seq<Byte>)
      requires Ok(V([])) && |data| > 0
      modifies this
      ensures n == Run(max, old(V([])), data).taken && V(dropped) == Run(max, old(V([])), data).v
      ensures |dropped| <= n && dropped == data[n - |dropped|..n]
      ensures dropped != [] <==> 0 < n < |data| && Run(max, old(V([])), data[..n]).v.phase.DataCr?
    {
      n, dropped := 0, [];
      var mark := -1;
      ghost var v0 := V([]);
      assert data[..0] == [];
      RunNone(max, v0, data[..0]);
      while n != |data| && !Over(phase)
        invariant n <= |data| && Marks(mark, n) && Reads(max, v0, data[..n], V(Marked(data, mark, n)))
        decreases |data| - n
      {
        ghost var before := V(Marked(data, mark, n));
        var go, p', mark' := Turn(data, n, mark);
        mark := mark';
        if !go {
          dropped := Marked(data, mark, n);
          StopsRefused(max, v0, data, n, before);
          return;
        }
        ReadsFurther(max, v0, data, n, before, p', V(Marked(data, mark, p')));
        n := p';
      }
      StopsOver(max, v0, data, n, V(Marked(data, mark, n)));
      if mark >= 0 {
        body := body + data[mark..n];
        assert body + [] == body;
      }
    }
  }

  /** One call for each of `inputs`, up to the first that is not used up. */
  method Feed(p: Parser, inputs: seq<seq<Byte>>) returns (n: nat, ghost dropped: seq<Byte>)
    requires Ok(p.V([])) && forall i :: 0 <= i < |inputs| ==> inputs[i] != []
    modifies p
    ensures Progress(p.V(dropped), n) == Run(p.max, old(p.V([])), Flat(inputs))
    ensures dropped != [] ==> p.phase == Failed(Strict)
  {
    n, dropped := 0, [];
    ghost var v0 := p.V([]);
    RunNone(p.max, v0, []);
    assert inputs[..0] == [];
    for i := 0 to |inputs|
      invariant n == |Flat(inputs[..i])| && Reads(p.max, v0, Flat(inputs[..i]), p.V([])) && dropped == []
    {
      ghost var u := p.V([]);
      var m;
      m, dropped := p.Execute(inputs[i]);
      FedOnce(p.max, v0, inputs, i, u, dropped, Progress(p.V(dropped), m));
      n := n + m;
      if m < |inputs[i]| {
        return;
      }
    }
    assert inputs[..|inputs|] == inputs;
  }

  /** The call for input i, from u. */
  lemma FedOnce(max: nat, v0: View, inputs: seq<seq<Byte>>, i: nat, u: View, dropped: seq<Byte>, r: Progress)
    requires i < |inputs| && Reads(max, v0, Flat(inputs[..i]), u) && r == Run(max, u, inputs[i])
    requires dropped != [] ==> 0 < r.taken < |inputs[i]| && Run(max, u, inputs[i][..r.taken]).v.phase.DataCr?
    ensures r.taken == |inputs[i]| ==> Reads(max, v0, Flat(inputs[..i + 1]), r.v)
    ensures r.taken == |inputs[i]| ==> |Flat(inputs[..i + 1])| == |Flat(inputs[..i])| + r.taken
    ensures r.taken < |inputs[i]| ==> Run(max, v0, Flat(inputs)) == Progress(r.v, |Flat(inputs[..i])| + r.taken)
    ensures dropped != [] ==> r.v.phase == Failed(Strict)
  {
    var x, y := Flat(inputs[..i]), inputs[i];
    FlatLast(inputs[..i + 1]);
    assert inputs[..i + 1][..i] == inputs[..i];
    RunAppend(max, v0, x, y);
    FlatTwo(inputs, i + 1);
    RunAppend(max, v0, x + y, Flat(inputs[i + 1..]));
    if dropped != [] {
      RefusedAtCr(max, u, y, r.taken);
    }
  }

  /** A call that stops behind the data of a chunk has met a byte that is not CR. */
  lemma RefusedAtCr(max: nat, u: View, y: seq<Byte>, n: nat)
    requires Ok(u) && n < |y| && Run(max, u, y).taken == n && Run(max, u, y[..n]).v.phase.DataCr?
    ensures Run(max, u, y).v.phase == Failed(Strict)
  {
    assert y[..n] + y[n..] == y;
    RunAppend(max, u, y[..n], y[n..]);
    var v := Run(max, u, y[..n]).v;
    StepOk(max, v, y[n]);
  }

  /** However a body of known length and what follows it are split over calls, exactly the body is delivered,
      and the message completes once. */
  method IdentityFed(h: Head, max: nat, inputs: seq<seq<Byte>>, ghost bs: seq<Byte>, ghost rest: seq<Byte>)
    returns (p: Parser, n: nat)
    requires ByLength(h) && h.length == |bs|
    requires Flat(inputs) == bs + rest && forall i :: 0 <= i < |inputs| ==> inputs[i] != []
    ensures n == |bs| && p.phase.Done? && p.body == bs && p.completes == 1
  {
    p := new Parser(h, max);
    IdentityBody(max, h, bs, rest);
    ghost var dropped;
    n, dropped := Feed(p, inputs);
    assert p.body + dropped == bs && dropped == [];
    assert p.body + [] == p.body;
  }

  /** Without a body no byte is taken, and the message has completed once. */
  method NothingFed(h: Head, max: nat, inputs: seq<seq<Byte>>) returns (p: Parser, n: nat)
    requires h.length <= UNKNOWN && NoBody(h) && forall i :: 0 <= i < |inputs| ==> inputs[i] != []
    ensures n == 0 && p.phase.Done? && p.body == [] && p.completes == 1
  {
    p := new Parser(h, max);
    Kinds(h);
    StopsWhenDone(max, Begin(h), Flat(inputs));
    ghost var dropped;
    n, dropped := Feed(p, inputs);
    assert |p.body + dropped| == 0;
  }

  /** Until the connection ends, every byte of every split is delivered, and the message does not complete. */
  method CloseFed(h: Head, max: nat, inputs: seq<seq<Byte>>) returns (p: Parser, n: nat)
    requires ByClose(h) && forall i :: 0 <= i < |inputs| ==> inputs[i] != []
    ensures n == |Flat(inputs)| && p.phase.UntilEof? && p.body == Flat(inputs) && p.completes == 0
  {
    p := new Parser(h, max);
    Kinds(h);
    ReadRest(max, Begin(h), Flat(inputs));
    assert [] + Flat(inputs) == Flat(inputs);
    ghost var dropped;
    n, dropped := Feed(p, inputs);
    assert p.body + dropped == Flat(inputs) && dropped == [];
    assert p.body + [] == p.body;
  }

  /** However the chunks and what follows them are split over calls, their data is delivered joined, and the
      message completes once, with the last byte of the chunks. */
  method ChunkedFed(h: Head, max: nat, inputs: seq<seq<Byte>>, ghost cs: seq<Chunk>, ghost last: Chunk,
                    ghost rest: seq<Byte>)
    returns (p: Parser, n: nat)
    requires InChunks(h) && h.length <= UNKNOWN && GoodLine(max, last) && |last.data| == 0
    requires forall i :: 0 <= i < |cs| ==> GoodLine(max, cs[i]) && |cs[i].data| > 0
    requires Flat(inputs) == ChunksText(cs, last) + rest && forall i :: 0 <= i < |inputs| ==> inputs[i] != []
    ensures n == |ChunksText(cs, last)| && p.phase.Done? && p.body == Contents(cs) && p.completes == 1
  {
    p := new Parser(h, max);
    ChunkedBody(max, h, cs, last, rest);
    ghost var dropped;
    n, dropped := Feed(p, inputs);
    assert p.body + dropped == Contents(cs) && dropped == [];
    assert p.body + [] == p.body;
  }

  /** A chunk of one byte and then a byte that is not CR: the data is lost. */
  method ChunkDropped(h: Head) returns (p: Parser, ghost dropped: seq<Byte>)
    requires h.length <= UNKNOWN && InChunks(h)
    ensures p.phase == Failed(Strict) && dropped == [97] && p.body == []
  {
    p := new Parser(h, 100);
    var v := Begin(h);
    var data: seq<Byte> := [49, CR, LF, 97, 98];
    ChunkNotClosed(v);
    assert data[..4] == [49, CR, LF, 97];
    var n;
    n, dropped := p.Execute(data);
    assert [] + dropped == dropped;
    assert |p.body + dropped| == |p.body| + |dropped|;
  }

  lemma ChunkRead(v: View, t: View)
    requires Ok(v) && v.phase.SizeStart? && v.body == []
    requires t == v.(phase := DataCr, length := 0, chunkHeaders := v.chunkHeaders + 1, body := [97])
    ensures Reads(100, v, [49, CR, LF, 97], t)
  {
    var v1 := v.(phase := Size, length := 1, nread := 1);
    var v3 := v1.(phase := Data, nread := 0, chunkHeaders := v.chunkHeaders + 1);
    ReadOne(100, v, 49, v1);
    ReadLineEnd(100, v1, v3);
    ReadOne(100, v3, 97, t);
    ReadsOn(100, v, [49], v1, [CR, LF], v3);
    ReadsOn(100, v, [49] + [CR, LF], v3, [97], t);
    assert [49] + [CR, LF] + [97] == [49, CR, LF, 97];
  }

  lemma ChunkNotClosed(v: View)
    requires Ok(v) && v.phase.SizeStart? && v.body == []
    ensures Run(100, v, [49, CR, LF, 97]).v.phase.DataCr?
    ensures var r := Run(100, v, [49, CR, LF, 97, 98]); r.taken == 4 && r.v.phase == Failed(Strict) && r.v.body == [97]
  {
    var t := v.(phase := DataCr, length := 0, chunkHeaders := v.chunkHeaders + 1, body := [97]);
    var data: seq<Byte> := [49, CR, LF, 97, 98];
    ChunkRead(v, t);
    assert data[..4] == [49, CR, LF, 97];
    StopsRefused(100, v, data, 4, t);
  }

  lemma ReadsFurther(max: nat, v0: View, data: seq<Byte>, n: nat, v: View, n': nat, u: View)
    requires n < n' <= |data| && Reads(max, v0, data[..n], v) && Reads(max, v, data[n..n'], u)
    ensures Reads(max, v0, data[..n'], u)
  {
    ReadsOn(max, v0, data[..n], v, data[n..n'], u);
    assert data[..n] + data[n..n'] == data[..n'];
  }

  lemma StopsRefused(max: nat, v0: View, data: seq<Byte>, n: nat, v: View)
    requires n < |data| && Reads(max, v0, data[..n], v) && Step(max, v, data[n]).Refused?
    ensures Run(max, v0, data) == Progress(Step(max, v, data[n]).v, n)
  {
    RunAppend(max, v0, data[..n], data[n..]);
    assert data[..n] + data[n..] == data;
  }

  lemma StopsOver(max: nat, v0: View, data: seq<Byte>, n: nat, v: View)
    requires n <= |data| && Reads(max, v0, data[..n], v) && (n == |data| || Over(v.phase))
    ensures Run(max, v0, data) == Progress(v, n)
    ensures 0 < n < |data| ==> !Run(max, v0, data[..n]).v.phase.DataCr?
  {
    RunAppend(max, v0, data[..n], data[n..]);
    assert data[..n] + data[n..] == data;
  }

  predicate MayMark(p: Phase) {
    p.Identity? || p.Data? || p.DataCr? || p.UntilEof?
  }

  lemma ReadSingle(max: nat, v: View, data: seq<Byte>, p: nat, u: View, go: bool)
    requires p < |data| && Ok(v) && (go ==> Step(max, v, data[p]) == Taken(u))
    ensures go ==> Reads(max, v, data[p..p + 1], u)
  {
    if go {
      ReadOne(max, v, data[p], u);
      assert data[p..p + 1] == [data[p]];
    }
  }

  /** The bytes between a mark, if there is one, and p. */
  function Marked(data: seq<Byte>, mark: int, p: nat): seq<Byte>
    requires -1 <= mark <= p <= |data|
  {
    if mark < 0 then [] else data[mark..p]
  }

  lemma BodyMarked(data: seq<Byte>, mark: int, mark': nat, p: nat, p': nat, body: seq<Byte>)
    requires -1 <= mark <= p <= p' <= |data| && mark' == if mark < 0 then p else mark
    ensures body + Marked(data, mark, p) + data[p..p'] == body + Marked(data, mark', p')
  {
    assert Marked(data, mark, p) + data[p..p'] == Marked(data, mark', p');
  }

  lemma {:induction false} ReadRest(max: nat, v: View, bs: seq<Byte>)
    requires v.phase.UntilEof?
    ensures Reads(max, v, bs, v.(body := v.body + bs))
    decreases |bs|
  {
    if |bs| == 0 {
      RunNone(max, v, bs);
      assert v.body + bs == v.body;
    } else {
      var u := v.(body := v.body + [bs[0]]);
      ReadOne(max, v, bs[0], u);
      ReadRest(max, u, bs[1..]);
      assert [bs[0]] + bs[1..] == bs;
      assert v.body + [bs[0]] + bs[1..] == v.body + bs;
      ReadsOn(max, v, [bs[0]], u, bs[1..], v.(body := v.body + bs));
    }
  }
}
