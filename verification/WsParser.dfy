/** The streaming WebSocket parser (http/websocket_parser.c) with the callbacks that reassemble messages
    (http/WebSocketParser.cpp). */
module WsParser {
  import opened Bytes
  import opened Numbers
  import opened Sequences
  import opened WsFrame

  // ---------------------------------------------------------------- reassembly

  /** `websocket_parser_state`. */
  datatype Progress = Begin | InHeader | InBody | Ended | Final

  datatype Message = Message(opcode: nat, data: seq<Byte>)

  /** The fields of `WebSocketParser`, and the calls of `onMessage` so far. */
  datatype Assembly = Assembly(progress: Progress, opcode: nat, message: seq<Byte>, delivered: seq<Message>)

  function OnHeader(a: Assembly, opcode: nat): (r: Assembly) {
    a.(opcode := if opcode != 0 then opcode else a.opcode,
       message := if a.progress.Begin? || a.progress.Final? then [] else a.message,
       progress := InHeader)
  }

  function OnBody(a: Assembly, data: seq<Byte>): (r: Assembly) {
    a.(progress := InBody, message := a.message + data)
  }

  function OnEnd(a: Assembly, fin: bool): (r: Assembly) {
    if fin then a.(progress := Final, delivered := a.delivered + [Message(a.opcode, a.message)])
      else a.(progress := Ended)
  }

  /** A whole frame. */
  function Absorb(a: Assembly, f: Frame): (r: Assembly) {
    OnEnd(OnBody(OnHeader(a, f.opcode), f.payload), f.fin)
  }

  // ---------------------------------------------------------------- one byte

  datatype Phase = Start | Second | Length | Key | Payload

  /** The fields of `websocket_parser`; `flags` is opcode, fin and masked. */
  datatype Framer = Framer(phase: Phase, opcode: nat, fin: bool, masked: bool, mask: Mask, maskOffset: nat,
                           length: nat, require: nat)

  datatype View = View(framer: Framer, assembly: Assembly)

  ghost predicate Ok(f: Framer) {
    match f.phase
    case Start => true
    case Second => true
    case Length => 0 < f.require <= 8 && f.length < Pow256(8 - f.require)
    case Key => 0 < f.require <= 4
    case Payload => 0 < f.require <= f.length
  }

  /** The header is complete: the body begins, or the frame is over. */
  function Announce(f: Framer, a: Assembly): (v: View) {
    if f.length > 0 then
      View(f.(phase := Payload, require := f.length), OnHeader(a, f.opcode))
    else
      View(f.(phase := Start), OnEnd(OnHeader(a, f.opcode), f.fin))
  }

  /** The length is known. */
  function Measured(f: Framer, a: Assembly): (v: View) {
    if f.masked then View(f.(phase := Key, require := 4), a) else Announce(f, a)
  }

  function StartStep(f: Framer, c: Byte): (r: Framer) {
    f.(phase := Second, length := 0, maskOffset := 0, opcode := c % 16, fin := c >= 128, masked := false)
  }

  function SecondStep(f: Framer, a: Assembly, c: Byte): (v: View) {
    var g := f.(masked := f.masked || c >= 128);
    if c % 128 >= 126 then
      View(g.(phase := Length, length := 0, require := if c % 128 == 127 then 8 else 2), a)
    else
      Measured(g.(length := c % 128), a)
  }

  function TakeLength(f: Framer, c: Byte): (r: Framer)
    requires f.require > 0
  {
    f.(length := f.length * 256 + c, require := f.require - 1)
  }

  function LengthSettled(f: Framer, a: Assembly): (v: View) {
    if f.require == 0 then Measured(f, a) else View(f, a)
  }

  function TakeKey(f: Framer, c: Byte): (r: Framer)
    requires 0 < f.require <= 4
  {
    f.(mask := f.mask[4 - f.require := c], require := f.require - 1)
  }

  function KeySettled(f: Framer, a: Assembly): (v: View) {
    if f.require == 0 then Announce(f, a) else View(f, a)
  }

  function Clear(f: Framer, data: seq<Byte>): (r: seq<Byte>) {
    if f.masked then Masked(f.mask, f.maskOffset, data) else data
  }

  /** A stretch of payload, still before the end of the frame. */
  function TakePayload(f: Framer, n: nat): (r: Framer)
    requires n <= f.require
  {
    f.(require := f.require - n, maskOffset := if f.masked then (n + f.maskOffset) % 4 else f.maskOffset)
  }

  function PayloadSettled(f: Framer, a: Assembly): (v: View) {
    if f.require == 0 then View(f.(phase := Start), OnEnd(a, f.fin)) else View(f, a)
  }

  function Step(v: View, c: Byte): (r: View)
    requires Ok(v.framer)
    ensures Ok(r.framer)
  {
    var f, a := v.framer, v.assembly;
    match f.phase
    case Start => View(StartStep(f, c), a)
    case Second => SecondStep(f, a, c)
    case Length => LengthSettled(TakeLength(f, c), a)
    case Key => KeySettled(TakeKey(f, c), a)
    case Payload => PayloadSettled(TakePayload(f, 1), OnBody(a, Clear(f, [c])))
  }

  // ---------------------------------------------------------------- runs

  function Run(v: View, bs: seq<Byte>): (r: View)
    requires Ok(v.framer)
    ensures Ok(r.framer)
  {
    if |bs| == 0 then v else Step(Run(v, bs[..|bs| - 1]), bs[|bs| - 1])
  }

  lemma {:induction false} RunAppend(v: View, a: seq<Byte>, b: seq<Byte>)
    requires Ok(v.framer)
    ensures Run(v, a + b) == Run(Run(v, a), b)
    decreases |b|
  {
    if |b| == 0 {
      assert a + b == a;
    } else {
      RunAppend(v, a, b[..|b| - 1]);
      assert (a + b)[..|a + b| - 1] == a + b[..|b| - 1];
    }
  }

  /** The stream arrives chunk by chunk. */
  function RunChunks(v: View, chunks: seq<seq<Byte>>): (r: View)
    requires Ok(v.framer)
    ensures Ok(r.framer)
    decreases |chunks|
  {
    if |chunks| == 0 then v else RunChunks(Run(v, chunks[0]), chunks[1..])
  }

  /** How the stream is split makes no difference. */
  lemma {:induction false} SplitIndependent(v: View, chunks: seq<seq<Byte>>)
    requires Ok(v.framer)
    ensures RunChunks(v, chunks) == Run(v, Flat(chunks))
    decreases |chunks|
  {
    if |chunks| == 0 {
    } else {
      SplitIndependent(Run(v, chunks[0]), chunks[1..]);
      RunAppend(v, chunks[0], Flat(chunks[1..]));
    }
  }

  lemma {:induction false} RunPayload(f: Framer, a: Assembly, bs: seq<Byte>)
    requires Ok(f) && f.phase == Payload && 0 < |bs| <= f.require
    ensures Run(View(f, a), bs) == PayloadSettled(TakePayload(f, |bs|), OnBody(a, Clear(f, bs)))
    decreases |bs|
  {
    var n := |bs| - 1;
    if n == 0 {
      assert bs == [bs[0]];
      assert Run(View(f, a), bs[..0]) == View(f, a);
    } else {
      RunPayload(f, a, bs[..n]);
      PayloadInPieces(f, a, bs[..n], [bs[n]]);
      assert bs[..n] + [bs[n]] == bs;
    }
  }

  lemma RunNext(v: View, bs: seq<Byte>, i: nat)
    requires Ok(v.framer) && i < |bs|
    ensures Run(v, bs[..i + 1]) == Step(Run(v, bs[..i]), bs[i])
  {
    assert bs[..i + 1][..i] == bs[..i];
  }

  lemma RunStretch(f: Framer, a: Assembly, bs: seq<Byte>, n: nat)
    requires Ok(f) && f.phase == Payload && 0 < n <= f.require && n <= |bs|
    ensures Run(View(f, a), bs[..n]) == PayloadSettled(TakePayload(f, n), OnBody(a, Clear(f, bs[..n])))
  {
    RunPayload(f, a, bs[..n]);
  }

  lemma PayloadInPieces(f: Framer, a: Assembly, x: seq<Byte>, y: seq<Byte>)
    requires |x| + |y| <= f.require
    ensures TakePayload(TakePayload(f, |x|), |y|) == TakePayload(f, |x + y|)
    ensures OnBody(OnBody(a, Clear(f, x)), Clear(TakePayload(f, |x|), y)) == OnBody(a, Clear(f, x + y))
  {
    ModAdd(|y|, |x| + f.maskOffset);
    ClearInPieces(f, x, y);
    assert a.message + Clear(f, x) + Clear(TakePayload(f, |x|), y)
           == a.message + (Clear(f, x) + Clear(TakePayload(f, |x|), y));
  }

  lemma ClearInPieces(f: Framer, x: seq<Byte>, y: seq<Byte>)
    requires |x| + |y| <= f.require
    ensures Clear(f, x) + Clear(TakePayload(f, |x|), y) == Clear(f, x + y)
  {
    if f.masked {
      var g := TakePayload(f, |x|);
      assert g.masked && g.mask == f.mask && g.maskOffset == (|x| + f.maskOffset) % 4;
      MaskedInPieces(f.mask, f.maskOffset, x, y);
    }
  }

  // ---------------------------------------------------------------- a frame read back

  lemma {:induction false} RunLength(f: Framer, a: Assembly, bs: seq<Byte>) returns (g: Framer)
    requires Ok(f) && f.phase == Length && f.length == 0 && 0 < |bs| <= f.require
    ensures Run(View(f, a), bs) == LengthSettled(g, a)
    ensures g == f.(length := BigValue(bs), require := f.require - |bs|)
    decreases |bs|
  {
    var n := |bs| - 1;
    if n == 0 {
      assert Run(View(f, a), bs[..0]) == View(f, a);
      assert BigValue(bs[..0]) == 0;
    } else {
      g := RunLength(f, a, bs[..n]);
    }
    g := f.(length := BigValue(bs), require := f.require - |bs|);
  }

  /** After the length bytes the parser knows the length and whether there is a mask, and nothing else has
      changed that matters. */
  lemma RunLengthBytes(f: Framer, a: Assembly, masked: bool, n: nat) returns (g: Framer)
    requires f.phase == Second && !f.masked && n < Pow256(8)
    ensures Run(View(f, a), LengthBytes(masked, n)) == Measured(g, a)
    ensures g.length == n && g.masked == masked && g.opcode == f.opcode && g.fin == f.fin
            && g.maskOffset == f.maskOffset
  {
    if n < 126 {
      g := RunShort(f, a, masked, n);
    } else if n <= 0xFFFF {
      Wide(2, n);
      g := RunExtended(f, a, masked, n, 2);
    } else {
      g := RunExtended(f, a, masked, n, 8);
    }
  }

  lemma RunShort(f: Framer, a: Assembly, masked: bool, n: nat) returns (g: Framer)
    requires f.phase == Second && !f.masked && n < 126
    ensures Run(View(f, a), LengthBytes(masked, n)) == Measured(g, a)
    ensures g.length == n && g.masked == masked && g.opcode == f.opcode && g.fin == f.fin
            && g.maskOffset == f.maskOffset
  {
    var m := if masked then 128 else 0;
    g := f.(masked := masked, length := n);
    RunOne(View(f, a), m + n);
    assert LengthBytes(masked, n) == [m + n];
  }

  lemma Wide(k: nat, n: nat)
    requires k == 2 && n <= 0xFFFF
    ensures n < Pow256(k)
  {
    assert Pow256(1) == 256;
    assert Pow256(2) == 0x1_0000;
  }

  lemma RunOne(v: View, c: Byte)
    requires Ok(v.framer)
    ensures Run(v, [c]) == Step(v, c)
  {
    assert Run(v, [c][..0]) == v;
  }

  lemma RunExtended(f: Framer, a: Assembly, masked: bool, n: nat, k: nat) returns (g: Framer)
    requires f.phase == Second && !f.masked && n < Pow256(k) && (k == 2 || k == 8)
    ensures Run(View(f, a), [(if masked then 128 else 0) + if k == 2 then 126 else 127] + BigEndian(k, n))
            == Measured(g, a)
    ensures g.length == n && g.masked == masked && g.opcode == f.opcode && g.fin == f.fin
            && g.maskOffset == f.maskOffset
  {
    var c := (if masked then 128 else 0) + if k == 2 then 126 else 127;
    var h := f.(masked := masked, phase := Length, length := 0, require := k);
    RunOne(View(f, a), c);
    assert Step(View(f, a), c) == View(h, a);
    RunAppend(View(f, a), [c], BigEndian(k, n));
    ValueOfBigEndian(k, n);
    g := RunLength(h, a, BigEndian(k, n));
  }

  lemma RunKey(f: Framer, a: Assembly, mask: Mask)
    requires Ok(f) && f.phase == Key && f.require == 4
    ensures Run(View(f, a), mask) == Announce(f.(mask := mask, require := 0), a)
  {
    var v := View(f, a);
    var w0, w1, w2, w3 := mask[0], mask[1], mask[2], mask[3];
    assert mask[..4] == mask;
    assert mask[..0] == [] && mask[..1][..0] == mask[..0] && mask[..2][..1] == mask[..1]
           && mask[..3][..2] == mask[..2] && mask[..4][..3] == mask[..3];
    var f1 := f.(mask := f.mask[0 := w0], require := 3);
    assert Run(v, mask[..1]) == View(f1, a);
    var f2 := f.(mask := f1.mask[1 := w1], require := 2);
    assert Run(v, mask[..2]) == View(f2, a);
    var f3 := f.(mask := f2.mask[2 := w2], require := 1);
    assert Run(v, mask[..3]) == View(f3, a);
    assert f3.mask[3 := w3] == mask;
  }

  /** The body of an announced frame. */
  lemma RunBody(f: Framer, a: Assembly, bs: seq<Byte>)
    requires |bs| == f.length
    ensures Run(Announce(f, a), bs).framer.phase == Start
    ensures Run(Announce(f, a), bs).assembly == OnEnd(OnBody(OnHeader(a, f.opcode), Clear(f, bs)), f.fin)
  {
    if |bs| > 0 {
      RunPayload(f.(phase := Payload, require := f.length), OnHeader(a, f.opcode), bs);
    } else {
      assert OnHeader(a, f.opcode).message + Clear(f, bs) == OnHeader(a, f.opcode).message;
    }
  }

  lemma RunMaskedBody(g: Framer, a: Assembly, k: Masking, payload: seq<Byte>)
    requires g.length == |payload| && g.masked == k.With? && g.maskOffset == 0
    ensures Run(Measured(g, a), Body(k, payload)).framer.phase == Start
    ensures Run(Measured(g, a), Body(k, payload)).assembly == OnEnd(OnBody(OnHeader(a, g.opcode), payload), g.fin)
  {
    match k {
      case Bare =>
        RunBody(g, a, payload);
      case With(mask) =>
        var h := g.(phase := Key, require := 4);
        var hidden := Masked(mask, 0, payload);
        RunAppend(View(h, a), mask, hidden);
        RunKey(h, a, mask);
        RunBody(h.(mask := mask, require := 0), a, hidden);
        Unmasks(mask, 0, payload);
    }
  }

  /** The parser reads back what `websocket_build_frame` wrote, with or without a mask. */
  lemma RunFrame(v: View, f: Frame, k: Masking)
    requires v.framer.phase == Start && Framable(f)
    ensures Run(v, Encode(f, k)).framer.phase == Start
    ensures Run(v, Encode(f, k)).assembly == Absorb(v.assembly, f)
  {
    var h, l, b := [Head(f)], LengthBytes(k.With?, |f.payload|), Body(k, f.payload);
    RunAppend(v, h + l, b);
    RunAppend(v, h, l);
    var g := RunHead(v, f);
    g := RunLengthBytes(g, v.assembly, k.With?, |f.payload|);
    RunMaskedBody(g, v.assembly, k, f.payload);
  }

  lemma RunHead(v: View, f: Frame) returns (g: Framer)
    requires v.framer.phase == Start
    ensures Run(v, [Head(f)]) == View(g, v.assembly)
    ensures g.phase == Second && !g.masked && g.opcode == f.opcode && g.fin == f.fin && g.maskOffset == 0
  {
    RunOne(v, Head(f));
    g := StartStep(v.framer, Head(f));
  }

  // ---------------------------------------------------------------- the parser object

  /** `websocket_parser` and the `WebSocketParser` behind its callbacks. */
  class Parser {
    var phase: Phase
    var flagOpcode: nat
    var flagFin: bool
    var flagMask: bool
    var mask: Mask
    var maskOffset: nat
    var length: nat
    var require: nat

    var progress: Progress
    var opcode: nat
    var message: seq<Byte>
    var delivered: seq<Message>

    ghost function F(): Framer reads this {
      Framer(phase, flagOpcode, flagFin, flagMask, mask, maskOffset, length, require)
    }

    ghost function A(): Assembly reads this {
      Assembly(progress, opcode, message, delivered)
    }

    ghost function V(): View reads this {
      View(F(), A())
    }

    /** `websocket_parser_init`; the source leaves `opcode` unset. */
    constructor (initialOpcode: nat)
      ensures V().framer.phase == Start && V().assembly == Assembly(Begin, initialOpcode, [], [])
    {
      phase := Start;
      flagOpcode, flagFin, flagMask := 0, false, false;
      mask := [0, 0, 0, 0];
      maskOffset, length, require := 0, 0, 0;
      progress, opcode, message, delivered := Begin, initialOpcode, [], [];
    }

    method FrameHeader()
      modifies this`opcode, this`message, this`progress
      ensures A() == OnHeader(old(A()), flagOpcode)
    {
      if flagOpcode != 0 {
        opcode := flagOpcode;
      }
      if progress == Begin || progress == Final {
        message := [];
      }
      progress := InHeader;
    }

    method FrameEnd()
      modifies this`progress, this`delivered
      ensures A() == OnEnd(old(A()), flagFin)
    {
      progress := Ended;
      if flagFin {
        progress := Final;
        delivered := delivered + [Message(opcode, message)];
      }
    }

    /** `websocket_parser_decode`, in place. */
    method Decode(data: array<Byte>, from: nat, n: nat)
      requires from + n <= data.Length
      modifies data, this`maskOffset
      ensures data[..] == old(data[..from]) + Masked(mask, old(maskOffset), old(data[from..from + n]))
              + old(data[from + n..])
      ensures IsMasked(data[from..from + n], mask, old(maskOffset), old(data[from..from + n]))
      ensures maskOffset == (n + old(maskOffset)) % 4
    {
      ghost var s0 := data[..];
      ghost var out := Masked(mask, maskOffset, s0[from..from + n]);
      for i := 0 to n
        invariant maskOffset == old(maskOffset)
        invariant data[..] == s0[..from] + out[..i] + s0[from + i..]
      {
        WriteNext(s0, data[..], out, from, i);
        ghost var cur := data[..];
        data[from + i] := XorByte(data[from + i], mask[(i + maskOffset) % 4]);
        assert data[..] == cur[from + i := out[i]];
      }
      assert data[from..from + n] == out;
      MaskedIs(mask, maskOffset, s0[from..from + n]);
      maskOffset := (n + maskOffset) % 4;
    }

    /** `on_frame_body`. */
    method FrameBody(data: array<Byte>, from: nat, n: nat)
      requires from + n <= data.Length
      modifies data, this`maskOffset, this`progress, this`message
      ensures A() == OnBody(old(A()), Clear(old(F()), old(data[from..from + n])))
      ensures maskOffset == if flagMask then (n + old(maskOffset)) % 4 else old(maskOffset)
      ensures data[from + n..] == old(data[from + n..])
    {
      progress := InBody;
      if flagMask {
        Decode(data, from, n);
      }
      message := message + data[from..from + n];
    }

    /** The header is complete. */
    method BeginBody()
      modifies this
      ensures V() == Announce(old(F()), old(A()))
    {
      if length > 0 {
        phase := Payload;
        require := length;
        FrameHeader();
      } else {
        phase := Start;
        FrameHeader();
        FrameEnd();
      }
    }

    /** The length is known. */
    method BeginKey()
      modifies this
      ensures V() == Measured(old(F()), old(A()))
    {
      if flagMask {
        phase := Key;
        require := 4;
      } else {
        BeginBody();
      }
    }

    method OnStart(c: Byte)
      requires phase == Start
      modifies this
      ensures V() == Step(old(V()), c)
    {
      length, maskOffset, flagOpcode, flagFin, flagMask := 0, 0, c % 16, c >= 128, false;
      phase := Second;
    }

    method OnSecond(c: Byte)
      requires phase == Second
      modifies this
      ensures V() == Step(old(V()), c)
    {
      length := c % 128;
      if c >= 128 {
        flagMask := true;
      }
      if length >= 126 {
        require := if length == 127 then 8 else 2;
        length := 0;
        phase := Length;
      } else {
        BeginKey();
      }
    }

    method LengthByte(c: Byte)
      requires 0 < require
      modifies this`length, this`require
      ensures F() == TakeLength(old(F()), c)
    {
      length := length * 256 + c;
      require := require - 1;
    }

    method LengthLoop(data: array<Byte>, from: nat) returns (p: nat)
      requires Ok(F()) && phase == Length && from < data.Length
      modifies this`length, this`require
      ensures from < p <= data.Length
      ensures LengthSettled(F(), A()) == Run(old(V()), data[from..][..p - from])
    {
      p := from;
      ghost var bs := data[from..];
      while p < data.Length && require > 0
        invariant from <= p <= data.Length && (p == from ==> require > 0)
        invariant require > 0 ==> Ok(F())
        invariant LengthSettled(F(), A()) == Run(old(V()), bs[..p - from])
      {
        RunNext(old(V()), bs, p - from);
        LengthByte(data[p]);
        p := p + 1;
      }
    }

    method OnLength(data: array<Byte>, from: nat) returns (p: nat)
      requires Ok(F()) && phase == Length && from < data.Length
      modifies this
      ensures from < p <= data.Length && V() == Run(old(V()), data[from..][..p - from])
    {
      p := LengthLoop(data, from);
      if require == 0 {
        BeginKey();
      }
    }

    method KeyByte(c: Byte)
      requires 0 < require <= 4
      modifies this`mask, this`require
      ensures F() == TakeKey(old(F()), c)
    {
      mask := mask[4 - require := c];
      require := require - 1;
    }

    method KeyLoop(data: array<Byte>, from: nat) returns (p: nat)
      requires Ok(F()) && phase == Key && from < data.Length
      modifies this`mask, this`require
      ensures from < p <= data.Length
      ensures KeySettled(F(), A()) == Run(old(V()), data[from..][..p - from])
    {
      p := from;
      ghost var bs := data[from..];
      while p < data.Length && require > 0
        invariant from <= p <= data.Length && (p == from ==> require > 0) && require <= 4
        invariant KeySettled(F(), A()) == Run(old(V()), bs[..p - from])
      {
        RunNext(old(V()), bs, p - from);
        KeyByte(data[p]);
        p := p + 1;
      }
    }

    method OnKey(data: array<Byte>, from: nat) returns (p: nat)
      requires Ok(F()) && phase == Key && from < data.Length
      modifies this
      ensures from < p <= data.Length && V() == Run(old(V()), data[from..][..p - from])
    {
      p := KeyLoop(data, from);
      if require == 0 {
        BeginBody();
      }
    }

    method OnPayload(data: array<Byte>, from: nat) returns (p: nat)
      requires Ok(F()) && phase == Payload && from < data.Length
      modifies this, data
      ensures from < p <= data.Length && V() == Run(old(V()), old(data[from..])[..p - from])
      ensures data[p..] == old(data[p..])
    {
      if from + require <= data.Length {
        p := from + require;
      } else {
        p := data.Length;
      }
      OnStretch(data, from, p);
    }

    method OnStretch(data: array<Byte>, from: nat, p: nat)
      requires Ok(F()) && phase == Payload && from < p <= data.Length && p - from <= require
      modifies this, data
      ensures V() == Run(old(V()), old(data[from..])[..p - from])
      ensures data[p..] == old(data[p..])
    {
      ghost var bs := data[from..];
      RunStretch(F(), A(), bs, p - from);
      assert data[from..p] == bs[..p - from];
      TakeBody(data, from, p);
      FinishBody();
    }

    method TakeBody(data: array<Byte>, from: nat, p: nat)
      requires from <= p <= data.Length && p - from <= require
      modifies this`require, this`maskOffset, this`progress, this`message, data
      ensures F() == TakePayload(old(F()), p - from)
      ensures A() == OnBody(old(A()), Clear(old(F()), old(data[from..p])))
      ensures data[p..] == old(data[p..])
    {
      var n := p - from;
      FrameBody(data, from, n);
      require := require - n;
    }

    method FinishBody()
      modifies this`phase, this`progress, this`delivered
      ensures V() == PayloadSettled(old(F()), old(A()))
    {
      if require == 0 {
        phase := Start;
        FrameEnd();
      }
    }

    /** One turn of the loop in `websocket_parser_execute`. */
    method Turn(data: array<Byte>, from: nat) returns (p: nat)
      requires Ok(F()) && from < data.Length
      modifies this, data
      ensures from < p <= data.Length && V() == Run(old(V()), old(data[from..])[..p - from])
      ensures data[p..] == old(data[p..])
    {
      match phase {
        case Start => p := OnByte(data, from);
        case Second => p := OnByte(data, from);
        case Length => p := OnLength(data, from);
        case Key => p := OnKey(data, from);
        case Payload => p := OnPayload(data, from);
      }
    }

    method OnByte(data: array<Byte>, from: nat) returns (p: nat)
      requires (phase == Start || phase == Second) && from < data.Length
      modifies this
      ensures from < p <= data.Length && V() == Run(old(V()), data[from..][..p - from])
    {
      RunOne(V(), data[from]);
      assert data[from..][..1] == [data[from]];
      if phase == Start {
        OnStart(data[from]);
      } else {
        OnSecond(data[from]);
      }
      p := from + 1;
    }

    /** `websocket_parser_execute`: the whole input is consumed, byte by byte in effect. */
    method Execute(data: array<Byte>) returns (n: nat)
      requires Ok(F())
      modifies this, data
      ensures n == data.Length && V() == Run(old(V()), old(data[..])) && Ok(F())
    {
      n := 0;
      ghost var all, v := data[..], V();
      while n != data.Length
        invariant n <= data.Length && data[n..] == all[n..]
        invariant V() == Run(v, all[..n])
      {
        ghost var from, before := n, data[..];
        n := Turn(data, n);
        RunOn(v, all, from, n);
        SameTail(before, all, from, n);
      }
      assert all[..n] == all;
    }
  }

  lemma RunOn(v: View, all: seq<Byte>, from: nat, to: nat)
    requires Ok(v.framer) && from <= to <= |all|
    ensures Run(Run(v, all[..from]), all[from..][..to - from]) == Run(v, all[..to])
  {
    var a, b, c := all[..from], all[from..][..to - from], all[..to];
    assert c == a + b;
    RunJoined(v, a, b, c);
  }

  lemma RunJoined(v: View, a: seq<Byte>, b: seq<Byte>, c: seq<Byte>)
    requires Ok(v.framer) && c == a + b
    ensures Run(Run(v, a), b) == Run(v, c)
  {
    RunAppend(v, a, b);
  }

  lemma SameTail(x: seq<Byte>, y: seq<Byte>, a: nat, b: nat)
    requires a <= b <= |x| == |y| && x[a..] == y[a..]
    ensures x[b..] == y[b..]
  {
    assert x[b..] == x[a..][b - a..] && y[b..] == y[a..][b - a..];
  }
}
